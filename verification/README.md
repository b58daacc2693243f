# Onload driver and mask library: a verified model

The device plugin ships the Onload drivers for Solarflare adapters and their Python
scripts. This project models the parts of them that keep state under failing
firmware, concurrent callers or awkward arithmetic, and proves what they promise.
`dafny verify dfyconfig.toml` checks all of it.

| files | part of the system |
|---|---|
| `FilterTable*.dfy` | the EF10 filter table: a hash table with a bounded probe that shadows a write-only firmware table, with automatic filters under explicit ones |
| `UdpTunnel*.dfy` | the protocol that pushes UDP tunnel ports to the firmware while requests keep coming |
| `ResourceTable*.dfy` | the lock-free table of resources of a file descriptor |
| `RxCompletion.dfy` | receive completion from the low bits of the descriptor pointer |
| `Gcda.dfy`, `GcdaReader.dfy` | the virtual `.gcda` coverage file, and what a reader finds in it |
| `BitField.dfy` | the bit-field macros on words of up to 128 bits |
| `CpuMask.dfy`, `CpuMaskBits.dfy` | printing and parsing CPU masks |
| `MliTree*.dfy` | the multi-level tree of dump pages |
| `MemReg.dfy` | the order in which user memory is registered |
| `FilterList*.dfy` | filter ids and undo in the char driver's filter list |
| `Driverlink*.dfy` | client drivers attached to a NIC, kernel blocks, tagged filter ids |
| `Affinity*.dfy` | the affinity driver's filters and queue maps |
| `Common.dfy`, `Arith.dfy` | shared types, error numbers and arithmetic |

Where the source computes, the model is functions. Where it updates fields, lists or
arrays step by step, there is a class or method with the same loops (the `Impl` files,
and the methods in the others), proved to compute a function of the former state, and
the theorems are about that function. Firmware, allocators and hardware are arguments
that may answer anything their contracts allow.

## Modelling decisions

- Filter table: match equality and hashing are abstract, with equal keys hashing
  equally. The checks before the probe (capabilities, RSS and vport lookups) are one
  `admission` code. Callers do not pass the internal flag that marks a filter as lying
  over an automatic one. A handle the firmware hands out is not one in use. Agreement
  with the firmware is claimed until the controller reboots, is about to be reset when a
  removal fails, or denies knowing the handle of a row that stays in the table: its table
  is then no longer the one the driver built, and the driver builds it anew.
- UDP tunnels: one step is one critical section; the lock is dropped during the firmware
  call and any other step may come in between. Ports are nonzero where stated.
- Resource table: one step is one access to shared memory. The high-water mark, table
  pointer and size at the head of the allocation loop are read in one step, because
  read apart they could pair the old pointer with the new size. Each word of a table
  copy is one step, and the safety theorem rests on it: with the read and the write of a
  word apart, an entry would be lost exactly when it is written twice in between
  (`ResourceTable.SplitCopyLosesIff`, `ResourceTable.SplitCopyLoses`).
- Integers are unbounded except where a counter wraps in practice: the receive counter
  and the sum in the probe are 32-bit. Words of the bit-field unions are bit sequences,
  so that the 32-bit and 64-bit views are the same sequence.
- Memory registration counts in pages, on hosts whose page size is the NIC's, and states
  its theorem for ranges whose offset in a compound page is the same in user memory and
  whose compound pages are mapped in order.
- Filter list and driverlink: blocking the kernel takes effect for all the traffic asked for
  or for none; unblocking, and removing a listed filter, always succeed.
- Affinity: a hardware filter is known by interface and 5-tuple; that the id given to the
  lower layer names it is that layer's own property.

## Where the code and its documentation disagree

The model follows the code. The theorems named state exactly when the expected
behaviour holds.

- `FilterTableTheorems.AutoMulticastSparesExplicit`: an automatic multicast insertion can
  displace filters of higher priority, which the comment on the insert function excludes.
- `FilterTableRuns.ReplaceForgetsStack`, `FilterTableRuns.StackIsForgotten`: a replaced entry
  keeps its old stack id in software.
- `FilterTableTheorems.ClearRemovesMask`: a reset of an overriding filter to which the
  firmware answers -ENOENT counts as done (`FilterTableRuns.ClearLeavesOne`).
- `FilterTableTheorems.RenewedSurvivesSweep`: a marked hint replaced by an automatic filter
  keeps its mark, so the next sweep removes the new filter (`FilterTableRuns.RenewedIsSwept`).
- `UdpTunnel.PortZeroNeverSettles`: port zero makes the push repeat for ever.
- `ResourceTable.NoSpaceIff`, `ResourceTable.SecondWriteIff`: an error and a failing assertion
  that a concurrent growth can provoke (`ResourceTable.SpuriousNoSpace`,
  `ResourceTable.SecondWriteFindsEntry`).
- `Gcda.CounterReadsBack`: the encoding of a counter loses bits 16 to 31.
- `RxCompletion.MergeInStepIff`, `RxCompletion.ChainAcceptedIff`: limits of four pointer bits.
- `CpuMask.ToIntOfList`: items of eight characters or more are taken for hexadecimal or refused.
- `CpuMask.ToIntOfHexMin`: a short hexadecimal mask of fewer than eight digits is taken for a
  list or refused (`CpuMask.TenIsMisread`).
- `CpuMaskBits.ToIntOf0x`: a mask with the 0x prefix and more than six digits is refused.
- `Driverlink.FailedProbeIff`, `Driverlink.SumsIff`: blocks taken by a probe that fails are not
  given back (`Driverlink.FailedProbeLeaks`).
- `AffinityProofs.FailedAddIff`: an add that fails may have removed the filter it was to replace
  (`AffinityProofs.FailedAddLoses`).
- `AffinityProofs.ReasonNeverTold`: reasons for failure are matched against the wrong sign.

## Model

| member | source | states |
|---|---|---|
| `FilterTableProofs.ProbeComplete` | contrib/onload-7.1.2.141/src/driver/linux_net/ef10.c:6141-6185 | For a unicast match the probe finds a row exactly when the match is in the table, that row is the only one with the match, and -EBUSY is given exactly when all 199 rows of the window hold other matches. |
| `FilterTableProofs.BusyIff` | contrib/onload-7.1.2.141/src/driver/linux_net/ef10.c:6141-6185 | -EBUSY if and only if every one of the 199 slots after the hash holds another match. |
| `FilterTableProofs.MetByProbe` | contrib/onload-7.1.2.141/src/driver/linux_net/ef10.c:6141-6142 | Every row lies 1 to 199 slots after the hash of its match, so the probe meets it. |
| `FilterTableProofs.InsertValid` | contrib/onload-7.1.2.141/src/driver/linux_net/ef10.c:6044-6290 | Whatever the firmware answers, an insertion keeps the invariant: rows within their windows, one row per unicast match, consistent layers, and rows and live firmware handles in one-to-one agreement. |
| `FilterTableProofs.RemoveValid` | contrib/onload-7.1.2.141/src/driver/linux_net/ef10.c:6317-6391 | A removal keeps the same invariant, including when the firmware fails or when a hidden automatic filter is pushed back. |
| `FilterTableProofs.RedirectValid` | contrib/onload-7.1.2.141/src/driver/linux_net/ef10.c:6479-6570 | A redirect keeps the invariant and the agreement with the firmware. |
| `FilterTableProofs.ClearDisplacedValid` | contrib/onload-7.1.2.141/src/driver/linux_net/ef10.c:6245-6281 | Removing displaced multicast recipients keeps software and firmware in agreement, wherever it stops. |
| `FilterTableTheorems.InsertRefines` | contrib/onload-7.1.2.141/src/driver/linux_net/ef10.c:6141-6240 | An insertion acts on each unicast match as one step of a two-layer map (automatic wanted or not, priority of the explicit filter if any, where packets go): explicit hides automatic, automatic goes under explicit, a renewed filter keeps its action, a failed push changes nothing. |
| `FilterTableTheorems.RemoveRefines` | contrib/onload-7.1.2.141/src/driver/linux_net/ef10.c:6317-6391 | A removal acts on each unicast match as one step of the same map: taking the explicit filter away brings back the automatic one exactly when it is still wanted, with queue 0 and the default RSS. |
| `FilterTableTheorems.UncoveredIs` | contrib/onload-7.1.2.141/src/driver/linux_net/ef10.c:6346-6365 | The automatic filter brought back has in the table and in the firmware the match and stack of the removed filter, queue 0, no flag but the default RSS when in use, and RSS context 0. |
| `FilterTableTheorems.RemoveUncovers` | contrib/onload-7.1.2.141/src/driver/linux_net/ef10.c:6346-6365 | Removing an explicit filter by its id leaves the automatic filter, with the default action, exactly when one was wanted, and nothing otherwise. |
| `FilterTableTheorems.InsertThenRemove` | contrib/onload-7.1.2.141/src/driver/linux_net/ef10.c:6393-6409 | Inserting an explicit filter and removing it by the id returned gives the match back its former layers, an automatic one with the default action. |
| `FilterTableTheorems.InsertIdNamesRow` | contrib/onload-7.1.2.141/src/driver/linux_net/ef10.c:6280-6281 | Whatever its priority, unicast or multicast, the id returned decodes to a row that holds the match, with the automatic filter on it or under it when that was asked for; it has the match priority, or is the plain index where an automatic filter is only renewed. |
| `FilterTableTheorems.IdRoundTrip` | contrib/onload-7.1.2.141/src/driver/linux_net/ef10.c:241-256 | Decoding a filter id gives back the row and the match priority it was made from. |
| `FilterTableTheorems.McReplaceLeavesOne` | contrib/onload-7.1.2.141/src/driver/linux_net/ef10.c:6245-6281 | A successful replace-equal insertion of a multicast recipient above AUTO leaves exactly one row with that match. |
| `FilterTableTheorems.McInsertRows` | contrib/onload-7.1.2.141/src/driver/linux_net/ef10.c:6141-6281 | A successful insertion of a multicast recipient that is not automatic, row by row: the new filter is at the row returned, which was free or gave way; rows of the match that give way (lower priority, or equal with replace-equal) are gone; every other row is as before. |
| `FilterTableTheorems.McRefusedIff` | contrib/onload-7.1.2.141/src/driver/linux_net/ef10.c:6145-6185 | Such a recipient gets -EPERM exactly when a filter of the match is above it, and otherwise -EBUSY exactly when no row of the window is free or gives way. |
| `FilterTableTheorems.DropFilterRows` | contrib/onload-7.1.2.141/src/driver/linux_net/ef10.c:6152-6163 | A filter that drops multicast packets replaces the first filter of its match, or takes a free row without any, and leaves every other row alone. |
| `FilterTableTheorems.McDisplacesAll` | contrib/onload-7.1.2.141/src/driver/linux_net/ef10.c:6141-6185 | With replace-equal, or for an automatic filter, every other row of the match is among those displaced. |
| `FilterTableTheorems.AutoMulticastSparesExplicit` | contrib/onload-7.1.2.141/src/driver/linux_net/efx.h:171-184 | An automatic insertion for a multicast recipient with every command succeeding, spares the explicit filters of that match if and only if there are none or the first suitable row already holds an automatic or higher filter; otherwise it displaces filters of higher priority, against the documented rule. |
| `FilterTableRuns.AutoDisplacesRequired` | contrib/onload-7.1.2.141/src/driver/linux_net/ef10.c:6149-6175 | A concrete valid table in which an automatic multicast insertion removes a filter of the highest priority. |
| `FilterTableTheorems.SweepRows` | contrib/onload-7.1.2.141/src/driver/linux_net/ef10.c:7518-7548 | What a sweep does to every single row: a marked automatic filter goes unless its removal fails, a marked filter over an automatic one loses that flag and its mark, every other row stays as it is. |
| `FilterTableTheorems.SweepSpares` | contrib/onload-7.1.2.141/src/driver/linux_net/ef10.c:7518-7548 | A sweep removes only automatic filters marked old, keeps every explicit filter, and leaves no automatic row marked unless its removal failed. |
| `FilterTableTheorems.SweptLayers` | contrib/onload-7.1.2.141/src/driver/linux_net/ef10.c:6335-6344 | On the two-layer map a sweep drops a marked automatic side and nothing else. |
| `FilterTableTheorems.RenewedSurvivesSweep` | contrib/onload-7.1.2.141/src/driver/linux_net/ef10.c:6190-6201 | An automatic filter inserted again survives the next sweep, exactly when it did not take the place of a marked hint. |
| `FilterTableRuns.RenewedIsSwept` | contrib/onload-7.1.2.141/src/driver/linux_net/ef10.c:6200-6201 | A run from the empty table: a hint is added and marked, an automatic filter takes its place, and the sweep removes it. |
| `FilterTableTheorems.ClearRemovesMask` | contrib/onload-7.1.2.141/src/driver/linux_net/ef10.c:6451-6476 | Clearing by priority touches only filters of the selected priorities and uncovers wanted automatic ones; when it succeeds, one of the selected is left if and only if it lay over an automatic filter and the firmware denied its handle. |
| `FilterTableTheorems.ClearRxClears` | contrib/onload-7.1.2.141/src/driver/linux_net/ef10.c:6451-6476 | Clearing at a priority with every command succeeding leaves no filter up to that priority but automatic ones, and automatic and higher ones as they were. |
| `FilterTableTheorems.ClearSucceeds` | contrib/onload-7.1.2.141/src/driver/linux_net/ef10.c:6464-6471 | Clearing returns success whenever the firmware knows or denies every handle. |
| `FilterTableRuns.ClearLeavesOne` | contrib/onload-7.1.2.141/src/driver/linux_net/ef10.c:6464-6471 | A concrete table where clearing returns success and leaves a manual filter. |
| `FilterTableRuns.ApplyRefines` | contrib/onload-7.1.2.141/src/driver/linux_net/ef10.c:6044-6570 | Each operation on the table is one step on the layers of every unicast match. |
| `FilterTableRuns.RunRefines` | contrib/onload-7.1.2.141/src/driver/linux_net/ef10.c:6044-6570 | Over every run of inserts, removes, redirects, marks and sweeps, with any firmware replies, the table stays valid and refines the two-layer map. |
| `FilterTableRuns.ReachableRefines` | contrib/onload-7.1.2.141/src/driver/linux_net/ef10.c:6044-6570 | The same from the empty table, where no match is present at first; software and firmware agree until the firmware loses its table. |
| `FilterTableRuns.FailuresAgree` | contrib/onload-7.1.2.141/src/driver/linux_net/ef10.c:6187-6281 | After any run from the empty table, whichever commands fail and whichever removals find their filter gone, each occupied row holds one live firmware handle and each live handle is on exactly one row. |
| `FilterTableRuns.RemovalAgreesIff` | contrib/onload-7.1.2.141/src/driver/linux_net/ef10.c:6346-6388 | Short of a reboot, a removal keeps software and firmware in agreement if and only if it did not fail with a reset pending nor, resetting to the automatic filter, have its handle denied. |
| `FilterTableRuns.RedirectAgreesIff` | contrib/onload-7.1.2.141/src/driver/linux_net/ef10.c:6551-6563 | Short of a reboot, a redirect keeps agreement if and only if its handle is not denied. |
| `FilterTableRuns.RedirectOutcome` | contrib/onload-7.1.2.141/src/driver/linux_net/ef10.c:6479-6570 | What a redirect returns in each case, that a failed one changes no row, and that after success table and firmware have the stack asked for, with priority and marks kept. |
| `FilterTableRuns.AddAgreesIff` | contrib/onload-7.1.2.141/src/driver/linux_net/ef10.c:6187-6281 | Short of a reboot, an insertion keeps software and firmware in agreement if and only if no command it issued was denied while its row stays: neither a push over an occupied row, nor the removal of a displaced recipient at which it stops. |
| `FilterTableRuns.ClearAgreesIff` | contrib/onload-7.1.2.141/src/driver/linux_net/ef10.c:6245-6281 | Removing displaced recipients keeps agreement if and only if the command at which it stops, if any, is not a denial. |
| `FilterTableRuns.SteadyRun` | contrib/onload-7.1.2.141/src/driver/linux_net/ef10.c:6366-6388 | Only a reboot, a pending reset, or the denial of a handle whose row stays can end that agreement. |
| `FilterTableRuns.ReplaceForgetsStack` | contrib/onload-7.1.2.141/src/driver/linux_net/ef10.c:6216-6226 | After a replacement at any priority the firmware has the new stack id and the row has it exactly when it was unchanged. |
| `FilterTableRuns.NewFilterIs` | contrib/onload-7.1.2.141/src/driver/linux_net/ef10.c:6206-6215 | A unicast filter that goes to a free row is in the table and in the firmware with all that was asked for, and not marked. |
| `FilterTableRuns.StackIsForgotten` | contrib/onload-7.1.2.141/src/driver/linux_net/ef10.c:6216-6226 | A run from the empty table after which firmware and row have different stack ids. |
| `FilterTableImpl.Table.Probe` | contrib/onload-7.1.2.141/src/driver/linux_net/ef10.c:6137-6185 | The one-pass loop over the window computes the specified choice of row and of displaced rows. |
| `FilterTableImpl.Table.InsertAtPlace` | contrib/onload-7.1.2.141/src/driver/linux_net/ef10.c:6187-6281 | Entry handling, push, finalising and rollback on the array compute the specified step. |
| `FilterTableImpl.Table.Unsubscribe` | contrib/onload-7.1.2.141/src/driver/linux_net/ef10.c:6245-6277 | The loop that removes displaced recipients stops at the first error and computes the specified state. |
| `FilterTableImpl.Table.InsertLocked` | contrib/onload-7.1.2.141/src/driver/linux_net/ef10.c:6044-6290 | The whole insertion on the array computes the specified state and return code. |
| `FilterTableImpl.Table.RemoveInternal` | contrib/onload-7.1.2.141/src/driver/linux_net/ef10.c:6317-6391 | Removal on the array computes the specified state and return code. |
| `FilterTableImpl.Table.RemoveOld` | contrib/onload-7.1.2.141/src/driver/linux_net/ef10.c:7518-7548 | The sweep loop computes the specified sweep of all rows. |
| `FilterTableImpl.Table.ClearRx` | contrib/onload-7.1.2.141/src/driver/linux_net/ef10.c:6451-6476 | The clearing loop computes the specified state, stopping at the first error other than -ENOENT. |
| `FilterTableImpl.Table.RedirectFilter` | contrib/onload-7.1.2.141/src/driver/linux_net/ef10.c:6479-6570 | Redirect on the array computes the specified state and return code. |
| `FilterTableImpl.Table.MarkOneOld` | contrib/onload-7.1.2.141/src/driver/linux_net/ef10.c:7143-7159 | Marks exactly the row the stored id names, unless it is the invalid one, and makes the id invalid. |
| `UdpTunnel.NoUpdateLost` | contrib/onload-7.1.2.141/src/driver/linux_net/ef10.c:8889-9237 | After any interleaving of adds, deletes, pushes, replies and reboots: a pending mark always has a push running, scheduled or failed behind it, and when the last push succeeded and none is running or scheduled, no slot is marked and the hardware has exactly the ports with a nonzero count. |
| `UdpTunnel.HasPortTrue` | contrib/onload-7.1.2.141/src/driver/linux_net/ef10.c:9156-9174 | After any interleaving in which the firmware changes its list only by a push that succeeds or reports a reboot, however many pushes fail: a port the driver says it has is in that list, and everything in that list is in use or waits to be removed. |
| `UdpTunnel.ReplyMarks` | contrib/onload-7.1.2.141/src/driver/linux_net/ef10.c:8971-9031 | What a reply does to the marks of every slot: a failure leaves them, -EIO leaves exactly the ports in use to be added and none to be removed, a success clears the addition of what was sent and the removal of what was not. |
| `UdpTunnel.OnePush` | contrib/onload-7.1.2.141/src/driver/linux_net/ef10.c:8912-8917 | While a push is running no step starts another or changes what was sent. |
| `UdpTunnel.NextInv` | contrib/onload-7.1.2.141/src/driver/linux_net/ef10.c:8889-9032 | Every step of the protocol keeps its invariant. |
| `UdpTunnel.RunInv` | contrib/onload-7.1.2.141/src/driver/linux_net/ef10.c:8889-9032 | The invariant holds after any run. |
| `UdpTunnel.IdleAgrees` | contrib/onload-7.1.2.141/src/driver/linux_net/ef10.c:9008-9031 | An idle protocol whose last push succeeded has no marks and the hardware list it should have. |
| `UdpTunnel.AgainOnlyIfDisturbed` | contrib/onload-7.1.2.141/src/driver/linux_net/ef10.c:9022-9027 | The push repeats only because a request came in while the firmware was busy. |
| `UdpTunnel.PortZeroNeverSettles` | contrib/onload-7.1.2.141/src/driver/linux_net/ef10.c:8919-9027 | Without the restriction to nonzero ports: after any number of successful replies an undisturbed push is still running, with the same list, exactly when a port zero waited to be added. |
| `UdpTunnel.OneRound` | contrib/onload-7.1.2.141/src/driver/linux_net/ef10.c:9009-9027 | One successful reply to an undisturbed push: it repeats exactly when a port zero waits. |
| `UdpTunnel.PortZeroArises` | contrib/onload-7.1.2.141/src/driver/linux_net/ef10.c:9072-9154 | A request for port zero and the push it schedules reach such a state. |
| `UdpTunnel.NotRemovingWhenFound` | contrib/onload-7.1.2.141/src/driver/linux_net/ef10.c:9057-9070 | A port found in use is never marked for removal, so the branch of the add for that case is never taken. |
| `UdpTunnel.RequestsCount` | contrib/onload-7.1.2.141/src/driver/linux_net/ef10.c:9072-9237 | Each request changes the reference count of its own port as specified, independently of slots and marks; no other step changes any count. |
| `UdpTunnel.AddCounts` | contrib/onload-7.1.2.141/src/driver/linux_net/ef10.c:9072-9154 | The effect of an add on the count of every port, saturation and a full table included. |
| `UdpTunnel.DelCounts` | contrib/onload-7.1.2.141/src/driver/linux_net/ef10.c:9176-9237 | The effect of a delete on the count of every port. |
| `UdpTunnelImpl.Tunnels.LookupPort` | contrib/onload-7.1.2.141/src/driver/linux_net/ef10.c:9057-9070 | The search loop finds the first slot in use for the port. |
| `UdpTunnelImpl.Tunnels.AddTunnel` | contrib/onload-7.1.2.141/src/driver/linux_net/ef10.c:9072-9154 | The add on the array of slots computes the specified step. |
| `UdpTunnelImpl.Tunnels.DelTunnel` | contrib/onload-7.1.2.141/src/driver/linux_net/ef10.c:9176-9237 | The delete on the array of slots computes the specified step. |
| `UdpTunnelImpl.Tunnels.SendList` | contrib/onload-7.1.2.141/src/driver/linux_net/ef10.c:8919-8939 | The loop builds the list that is sent and marks the push as running. |
| `UdpTunnelImpl.Tunnels.HandleReply` | contrib/onload-7.1.2.141/src/driver/linux_net/ef10.c:8971-9031 | The reply is handled as specified: settle, retry, or start over after a reboot. |
| `UdpTunnelImpl.Tunnels.SettleMarks` | contrib/onload-7.1.2.141/src/driver/linux_net/ef10.c:9009-9024 | The settling loop clears exactly the marks of what was sent and tells whether none is left. |
| `UdpTunnelImpl.Tunnels.MarkAllAbsent` | contrib/onload-7.1.2.141/src/driver/linux_net/ef10.c:8973-8988 | After a reboot every slot in use is to be added again and pending removals are dropped. |
| `ResourceTable.TableSafe` | contrib/onload-7.1.2.141/src/driver/linux_char/efch_manager.c:109-205 | For any number of threads and any interleaving: ids are distinct, the high-water mark stays within the table, a lookup through either table pointer gives only the resource of the thread that owns the index, and once all calls have returned every issued id is found in the current table. |
| `ResourceTable.NextInv` | contrib/onload-7.1.2.141/src/driver/linux_char/efch_manager.c:109-205 | Every shared-memory step of an allocation or growth keeps the invariant. |
| `ResourceTable.RunInv` | contrib/onload-7.1.2.141/src/driver/linux_char/efch_manager.c:109-205 | The invariant holds after any interleaving. |
| `ResourceTable.SwapsOnce` | contrib/onload-7.1.2.141/src/driver/linux_char/efch_manager.c:131-149 | The table pointer is swapped at most once in any run. |
| `ResourceTable.LookupOwn` | contrib/onload-7.1.2.141/src/driver/linux_char/resource_table.c:8-30 | A lookup never returns the resource of another id. |
| `ResourceTable.AllFound` | contrib/onload-7.1.2.141/src/driver/linux_char/efch_manager.c:160-205 | When every started call has returned, each issued id is found. |
| `ResourceTable.ReturnedFoundIff` | contrib/onload-7.1.2.141/src/driver/linux_char/efch_manager.c:134-149 | After any interleaving, an id that was returned is found, or for the moment not found, the latter exactly when the new table is in place, its word is still to be copied a second time, the first copy missed it and it was not written again. |
| `ResourceTable.ReturnedNotFound` | contrib/onload-7.1.2.141/src/driver/linux_char/efch_manager.c:134-149 | A reachable run in which a returned id is not found for the moment. |
| `ResourceTable.IndicesInside` | contrib/onload-7.1.2.141/src/driver/linux_char/efch_manager.c:134-205 | Every index a thread is about to read or write, and every index a lookup admits, is inside its array. |
| `ResourceTable.NoSpaceIff` | contrib/onload-7.1.2.141/src/driver/linux_char/efch_manager.c:115-119 | -ENOSPC comes exactly when the table has its largest size; there is room then exactly when the size is not the one the thread saw full. |
| `ResourceTable.FailedOnlyWhen` | contrib/onload-7.1.2.141/src/driver/linux_char/efch_manager.c:109-205 | In any interleaving a thread has failed only by finding the table at its largest size or by being refused memory; a lost compare-and-swap makes it try again. |
| `ResourceTable.SoloEnds` | contrib/onload-7.1.2.141/src/driver/linux_char/efch_manager.c:109-205 | From any state that can be reached, no growth being half done, an allocation left to run ends with the next index, found in the table, or with -ENOSPC exactly when 512 are taken. |
| `ResourceTable.SoloGrows` | contrib/onload-7.1.2.141/src/driver/linux_char/efch_manager.c:109-149 | A thread alone grows the full static table in sixteen steps, with its entries kept and room after them. |
| `ResourceTable.SoloClaims` | contrib/onload-7.1.2.141/src/driver/linux_char/efch_manager.c:174-205 | With room an undisturbed allocation takes the next index in four steps and is found. |
| `ResourceTable.SpuriousNoSpace` | contrib/onload-7.1.2.141/src/driver/linux_char/efch_manager.c:115-119 | A reachable run in which -ENOSPC is returned although the table has room. |
| `ResourceTable.SecondWriteIff` | contrib/onload-7.1.2.141/src/driver/linux_char/efch_manager.c:195-202 | After any interleaving, the entry asserted to be empty before the second write is empty if and only if the static entry was written after its word was last copied: the second time, or while that is still to come, the first time by the thread that swapped. |
| `ResourceTable.SecondWriteFindsEntry` | contrib/onload-7.1.2.141/src/driver/linux_char/efch_manager.c:195-202 | A reachable run in which that entry is not empty. |
| `ResourceTable.SplitCopyLosesIff` | contrib/onload-7.1.2.141/src/driver/linux_char/efch_manager.c:135-149 | What rests on copying a word in one step: with any steps of other threads between the read and the write of a word in the second copy, the entry of a returned id is lost if and only if both its writes fall in between. |
| `ResourceTable.SplitCopyLoses` | contrib/onload-7.1.2.141/src/driver/linux_char/efch_manager.c:135-149 | Such a loss: a reachable state and three steps of the owner of the word, after which it has returned and the late write would empty its entry. |
| `ResourceTableImpl.Table.constructor` | contrib/onload-7.1.2.141/src/driver/linux_char/resource_table.c:47-53 | A new table is empty, with the static array of five entries. |
| `ResourceTableImpl.Table.Lookup` | contrib/onload-7.1.2.141/src/driver/linux_char/resource_table.c:8-30 | -EINVAL at or above the high-water mark, -ENOENT without an underlying resource, otherwise the resource issued under that index. |
| `ResourceTableImpl.Table.Grow` | contrib/onload-7.1.2.141/src/driver/linux_char/efch_manager.c:109-157 | Growing keeps the contents; -ENOSPC exactly when already grown, -ENOMEM exactly when memory is short. |
| `ResourceTableImpl.Table.AllocateId` | contrib/onload-7.1.2.141/src/driver/linux_char/efch_manager.c:160-205 | Without interference the next index is issued and found, and -ENOSPC comes exactly at 512 resources. |
| `ResourceTableImpl.Table.Destroy` | contrib/onload-7.1.2.141/src/driver/linux_char/resource_table.c:72-97 | Every issued resource is freed exactly once, in order, and the table ends empty. |
| `Gcda.StoreDaFile` | contrib/onload-7.1.2.141/src/driver/linux/gcov.c:1019-1083 | For every offset and count the read delivers exactly the bytes of the file image from the offset to the smaller of offset plus count and the file size, and faults exactly when the user buffer cannot take them; the three nested loops terminate. |
| `GcdaReader.ImageReads` | contrib/onload-7.1.2.141/src/driver/linux/gcov.c:1019-1083 | A reader of the file image finds magic number, version and stamp, and then for each function in order a record of its ident and checksum and one of its counters for each type in use, tagged and measured as the format says. |
| `GcdaReader.ValuesInOrder` | contrib/onload-7.1.2.141/src/driver/linux/gcov.c:860-881 | The counter values of a type, over all functions in order, are those recorded for the type from the first on, without gap or overlap. |
| `GcdaReader.NumActiveIs` | contrib/onload-7.1.2.141/src/driver/linux/gcov.c:756-768 | The number of types in use before a type, which picks its list of counters. |
| `Gcda.StoreFuncData` | contrib/onload-7.1.2.141/src/driver/linux/gcov.c:941-1012 | The same for the section of one function. |
| `Gcda.StoreCounterData` | contrib/onload-7.1.2.141/src/driver/linux/gcov.c:888-934 | The same for one counter section. |
| `Gcda.BytesAt` | contrib/onload-7.1.2.141/src/driver/linux/gcov.c:902-923 | The tag, length or counter picked for an offset is the part of the section that holds it. |
| `Gcda.SizeofDaFile` | contrib/onload-7.1.2.141/src/driver/linux/gcov.c:824-835 | The computed size is the length of the file image. |
| `Gcda.SizeofFuncData` | contrib/onload-7.1.2.141/src/driver/linux/gcov.c:810-821 | The computed size is the length of the function section. |
| `Gcda.SizeofCounterData` | contrib/onload-7.1.2.141/src/driver/linux/gcov.c:798-807 | The computed size is the length of the counter section, zero for an inactive type. |
| `Gcda.StoreCounter` | contrib/onload-7.1.2.141/src/driver/linux/gcov.c:860-881 | The counter picked by adding up the counts of preceding functions is that of the function, type and index asked for. |
| `Gcda.FindFunction` | contrib/onload-7.1.2.141/src/driver/linux/gcov.c:1059-1072 | The search finds the function whose section holds the offset, or the end of the file. |
| `Gcda.FindCounterType` | contrib/onload-7.1.2.141/src/driver/linux/gcov.c:987-1001 | The search finds the counter type whose section holds the offset, or the end of the section. |
| `Gcda.ReadsJoin` | contrib/onload-7.1.2.141/src/driver/linux/gcov.c:1015-1018 | However the file is split into reads, the pieces join to the whole. |
| `Gcda.CounterReadsBack` | contrib/onload-7.1.2.141/src/driver/linux/gcov.c:850-857 | A stored counter decodes to its value exactly when its bits 16 to 31 are zero. |
| `RxCompletion.RunTiles` | contrib/onload-7.1.2.141/src/driver/linux_net/ef10.c:5134-5248 | Against an in-order NIC with scatter chains and merges of at most 15 descriptors, after every run the rebuilt pointer equals the NIC pointer, the packets handed up or discarded are exactly those the NIC finished or gave up, with their descriptors and total lengths, and their buffers are the descriptors in order, without gap or overlap. |
| `RxCompletion.EventAccepted` | contrib/onload-7.1.2.141/src/driver/linux_net/ef10.c:5134-5179 | Every event of such a NIC is accepted, keeps the driver in step and hands up exactly the packets it finishes. |
| `RxCompletion.AnnouncedIs` | contrib/onload-7.1.2.141/src/driver/linux_net/ef10.c:5134-5135 | The four low bits give the number of completed descriptors modulo 16. |
| `RxCompletion.MergeInStepIff` | contrib/onload-7.1.2.141/src/driver/linux_net/ef10.c:5137-5172 | A merge keeps the driver in step exactly when it has at most 15 descriptors. |
| `RxCompletion.ChainAcceptedIff` | contrib/onload-7.1.2.141/src/driver/linux_net/ef10.c:5154-5164 | A further fragment is accepted exactly while the chain has fewer than 15 descriptors. |
| `RxCompletion.BadPointerIff` | contrib/onload-7.1.2.141/src/driver/linux_net/ef10.c:5134-5164 | An event is taken for a bad pointer, and changes nothing, exactly when it announces neither an abort, nor one more descriptor, nor a merge where merging is on and no chain is open. |
| `RxCompletion.RxQueue.HandleAbort` | contrib/onload-7.1.2.141/src/driver/linux_net/ef10.c:4977-4995 | An abort discards the open chain and moves the counter past it. |
| `RxCompletion.RxQueue.HandleEvent` | contrib/onload-7.1.2.141/src/driver/linux_net/ef10.c:5134-5250 | Event handling on the queue fields computes the specified state and packets. |
| `RxCompletion.RxQueue.HandPackets` | contrib/onload-7.1.2.141/src/driver/linux_net/ef10.c:5238-5245 | The loop hands up the packets one after the other. |
| `BitField.ExtractIs` | contrib/onload-7.1.2.141/src/driver/linux_net/bitfield.h:136-179 | Extraction gives exactly the bits of the field, wherever it lies, and zeros above. |
| `BitField.ExtractFormsAgree` | contrib/onload-7.1.2.141/src/driver/linux_net/bitfield.h:156-178 | The 32-bit and 64-bit extractions agree for every field both can read. |
| `BitField.PopulateThenExtract` | contrib/onload-7.1.2.141/src/driver/linux_net/bitfield.h:255-341 | Populating with disjoint fields whose values fit and extracting any of them returns its value. |
| `BitField.PopulateFormsAgree` | contrib/onload-7.1.2.141/src/driver/linux_net/bitfield.h:319-339 | The 32-bit and 64-bit forms of populate write the same bits. |
| `BitField.SetChangesOnlyField` | contrib/onload-7.1.2.141/src/driver/linux_net/bitfield.h:463-518 | SET gives the field its value and changes no other bit. |
| `BitField.SetThenExtract` | contrib/onload-7.1.2.141/src/driver/linux_net/bitfield.h:463-518 | A field that was set reads back; a field without a common bit reads as before. |
| `BitField.SetFormsAgree` | contrib/onload-7.1.2.141/src/driver/linux_net/bitfield.h:475-518 | Both forms of SET leave the same bits. |
| `BitField.ShiftsDefined` | contrib/onload-7.1.2.141/src/driver/linux_net/bitfield.h:136-140 | No shift taken by the macros reaches the width of its operand. |
| `BitField.MaskValue` | contrib/onload-7.1.2.141/src/driver/linux_net/bitfield.h:71-84 | The mask of a field, as a number, is two to its width less one, up to the whole word. |
| `BitField.Populate` | contrib/onload-7.1.2.141/src/driver/linux_net/bitfield.h:319-339 | Writing the words one after the other yields the specified words. |
| `BitField.SetField` | contrib/onload-7.1.2.141/src/driver/linux_net/bitfield.h:475-518 | Updating the words one after the other yields the specified words. |
| `CpuMask.ListRoundTrip` | contrib/onload-7.1.2.141/scripts/sfcmask.py:92-125 | Parsing the printed list gives back every mask above zero. |
| `CpuMask.HexRoundTrip` | contrib/onload-7.1.2.141/scripts/sfcmask.py:83-138 | Parsing the printed hexadecimal gives back every mask. |
| `CpuMask.ToIntOfHex` | contrib/onload-7.1.2.141/scripts/sfcmask.py:43-55 | The classifier takes every printed hexadecimal mask back. |
| `CpuMask.ToIntOfList` | contrib/onload-7.1.2.141/scripts/sfcmask.py:43-66 | The classifier takes a printed list back if and only if the mask is not zero and every printed item has at most seven characters. |
| `CpuMask.ToIntOfSmallList` | contrib/onload-7.1.2.141/scripts/sfcmask.py:58-66 | For nonzero masks below 2^1000 it always does. |
| `CpuMask.EmptyListRefused` | contrib/onload-7.1.2.141/scripts/sfcmask.py:141-151 | The list printed for the zero mask is refused. |
| `CpuMask.BitsRoundTrip` | contrib/onload-7.1.2.141/scripts/sfcmask.py:162-171 | The list of set bits gives the mask back exactly when no bit lies beyond the limit of the loop. |
| `CpuMask.RunsSum` | contrib/onload-7.1.2.141/scripts/sfcmask.py:105-125 | The printed runs are in order, separated by zero bits, and add up to the mask. |
| `CpuMask.IntToCommaSepList` | contrib/onload-7.1.2.141/scripts/sfcmask.py:105-125 | The printing loop prints the runs of ones of the mask. |
| `CpuMask.CommaSepListToInt` | contrib/onload-7.1.2.141/scripts/sfcmask.py:92-102 | The parsing loops compute the specified mask or fail. |
| `CpuMaskBits.ParseListBits` | contrib/onload-7.1.2.141/scripts/sfcmask.py:92-102 | On every string: the list parses exactly when each item is a number or a pair of numbers, and a bit is set exactly when some item covers it, overlapping or not. |
| `CpuMask.IntToCommaSepHex` | contrib/onload-7.1.2.141/scripts/sfcmask.py:128-138 | The printing loop prints the groups of eight digits, most significant first, or on request a single group without leading zeros. |
| `CpuMask.HexMinRoundTrip` | contrib/onload-7.1.2.141/scripts/sfcmask.py:128-138 | Parsing gives back every mask from the short form as well. |
| `CpuMask.ToIntOfHexMin` | contrib/onload-7.1.2.141/scripts/sfcmask.py:43-55 | The classifier takes the short form back if and only if the mask has eight hexadecimal digits or more. |
| `CpuMask.TenIsMisread` | contrib/onload-7.1.2.141/scripts/sfcmask.py:43-66 | The mask 0x10 prints as "10" in the short form, which the classifier reads as bit 10. |
| `CpuMask.CommaSepHexToInt` | contrib/onload-7.1.2.141/scripts/sfcmask.py:83-89 | The parsing loop computes the specified mask or fails. |
| `CpuMaskBits.ParseHexBits` | contrib/onload-7.1.2.141/scripts/sfcmask.py:83-89 | On every string: the groups parse exactly when each is a number, and a bit is set exactly when some group shows it at its place, overlapping or not. |
| `CpuMaskBits.ToIntOf0x` | contrib/onload-7.1.2.141/scripts/sfcmask.py:35-55 | The classifier takes a mask with the 0x prefix exactly when it has at most six digits. |
| `CpuMask.IntListToInt` | contrib/onload-7.1.2.141/scripts/sfcmask.py:76-80 | The loop computes the union of the bits, or fails on a negative one. |
| `CpuMaskBits.IntListBits` | contrib/onload-7.1.2.141/scripts/sfcmask.py:76-80 | On every list: it fails exactly for a negative number, and a bit is set exactly when it is listed, however often. |
| `CpuMask.ToIntList` | contrib/onload-7.1.2.141/scripts/sfcmask.py:162-171 | The loop lists the set bits below the limit. |
| `CpuMaskBits.BitsOfAre` | contrib/onload-7.1.2.141/scripts/sfcmask.py:162-171 | The list made of a mask has exactly its set bits below the limit. |
| `MliTree.WalkReaches` | contrib/onload-7.1.2.141/src/driver/linux_net/dump.c:301-319 | For any number of data pages, walking the tree from the root by the base-512 digits of p reaches exactly data page p. |
| `MliTree.EntryAt` | contrib/onload-7.1.2.141/src/driver/linux_net/dump.c:308-313 | The entry for a page on the level above holds that page's address, at indices within the total. |
| `MliTree.LevelInside` | contrib/onload-7.1.2.141/src/driver/linux_net/dump.c:262-271 | Every level ends within the total number of pages. |
| `MliTreeImpl.DumpBuffer.CountPages` | contrib/onload-7.1.2.141/src/driver/linux_net/dump.c:262-271 | The counting loop gives the number of pages of all levels and the depth. |
| `MliTreeImpl.DumpBuffer.AllocPages` | contrib/onload-7.1.2.141/src/driver/linux_net/dump.c:288-299 | Pages are allocated until one is refused, and the pages held are exactly those granted. |
| `MliTreeImpl.DumpBuffer.Populate` | contrib/onload-7.1.2.141/src/driver/linux_net/dump.c:301-319 | The nested loops write every entry of the tree, all within the pages allocated, and return the root. |
| `MliTreeImpl.DumpBuffer.AllocBuffer` | contrib/onload-7.1.2.141/src/driver/linux_net/dump.c:251-326 | Either the whole tree is in place or -ENOMEM is returned and every page is given back. |
| `MliTreeImpl.DumpBuffer.FreeBuffer` | contrib/onload-7.1.2.141/src/driver/linux_net/dump.c:220-249 | Frees exactly the pages that were allocated. |
| `MemReg.Register` | contrib/onload-7.1.2.141/src/driver/linux_char/efch_memreg.c:184-361 | The errors for empty, misaligned, unpinned or unallocated ranges, and for mapped ranges addresses that cover the range. |
| `MemReg.OrderIsLargest` | contrib/onload-7.1.2.141/src/driver/linux_char/efch_memreg.c:246-280 | The strided loop and the clamp at the end find the largest order that both ends of the range and every compound page allow. |
| `MemReg.BlocksCover` | contrib/onload-7.1.2.141/src/driver/linux_char/efch_memreg.c:286-361 | Each middle address starts a physically contiguous aligned block of that size, and the blocks cover the range, each page once. |
| `MemReg.MiddleCountIs` | contrib/onload-7.1.2.141/src/driver/linux_char/efch_memreg.c:286-310 | The number of middle addresses covers the range exactly when its start is a multiple of the block size. |
| `MemReg.StepOrders` | contrib/onload-7.1.2.141/src/driver/linux_char/efch_memreg.c:255-261 | Every page skipped by a stride has at least the order of the stride. |
| `MemReg.FindOrder` | contrib/onload-7.1.2.141/src/driver/linux_char/efch_memreg.c:255-280 | The loop computes the specified order. |
| `MemReg.MiddleAddrs` | contrib/onload-7.1.2.141/src/driver/linux_char/efch_memreg.c:356-361 | The loop stores the address of every 2^order-th page. |
| `FilterList.NewIdIs` | contrib/onload-7.1.2.141/src/driver/linux_char/filter_list.c:146-174 | A generated id is in 1..WRAP-1 and not in use, and -ENOENT comes exactly when all those ids are in use. |
| `FilterList.RunIds` | contrib/onload-7.1.2.141/src/driver/linux_char/filter_list.c:146-174 | The same after every run of adds, deletes and frees, wrap-around included. |
| `FilterList.RunKeeps` | contrib/onload-7.1.2.141/src/driver/linux_char/filter_list.c:60-110 | After any operations with failures at any point, the hardware filters and kernel blocks are exactly those recorded in listed filters, and ids are distinct and in range. |
| `FilterList.ApplyKeeps` | contrib/onload-7.1.2.141/src/driver/linux_char/filter_list.c:220-282 | Every single operation keeps that, whichever call below it fails. |
| `FilterList.AddOutcome` | contrib/onload-7.1.2.141/src/driver/linux_char/filter_list.c:569-622 | The first failure is the result and leaves list, hardware filters and blocks as they were; otherwise the hardware has one more filter, listed under a new id without blocks. |
| `FilterList.RsopsAddOutcome` | contrib/onload-7.1.2.141/src/driver/linux_char/filter_list.c:220-282 | The same by kind of operation: which traffic is blocked, that the three kinds that only block insert no filter, and that blocking the NIC does not support is passed over. |
| `FilterList.DelOutcome` | contrib/onload-7.1.2.141/src/driver/linux_char/filter_list.c:411-433 | A delete takes off the filter with the id and undoes exactly what it stood for, or returns -EINVAL and changes nothing. |
| `FilterList.NewIdIsFirst` | contrib/onload-7.1.2.141/src/driver/linux_char/filter_list.c:146-174 | The id generated is the first unused from the next id on, and the next search goes on after it. |
| `FilterList.FreeLeavesNothing` | contrib/onload-7.1.2.141/src/driver/linux_char/filter_list.c:97-110 | Freeing the list leaves nothing installed and nothing blocked. |
| `FilterList.NothingRemains` | contrib/onload-7.1.2.141/src/driver/linux_char/filter_list.c:97-110 | The same at the end of any run. |
| `FilterList.DelUndoesAdd` | contrib/onload-7.1.2.141/src/driver/linux_char/filter_list.c:411-433 | A delete of the id just added restores the list, the hardware filters and the blocks. |
| `FilterList.SearchFinds` | contrib/onload-7.1.2.141/src/driver/linux_char/filter_list.c:155-172 | The search round the ids ends at a free id or has seen every id in use. |
| `FilterListImpl.List.GenId` | contrib/onload-7.1.2.141/src/driver/linux_char/filter_list.c:146-174 | The loop terminates and computes the specified id and next state. |
| `FilterListImpl.List.DoRsopsAdd` | contrib/onload-7.1.2.141/src/driver/linux_char/filter_list.c:220-282 | The add with its undo on every error path computes the specified state and keeps the invariant. |
| `FilterListImpl.List.DoAdd` | contrib/onload-7.1.2.141/src/driver/linux_char/filter_list.c:569-622 | The same for the other add. |
| `FilterListImpl.List.DoDel` | contrib/onload-7.1.2.141/src/driver/linux_char/filter_list.c:411-433 | Removes the filter with the id, or -EINVAL. |
| `FilterListImpl.List.FreeAll` | contrib/onload-7.1.2.141/src/driver/linux_char/filter_list.c:97-110 | The loop removes every filter. |
| `FilterListImpl.List.Delete` | contrib/onload-7.1.2.141/src/driver/linux_char/filter_list.c:60-94 | Undoes exactly what is recorded in a filter. |
| `FilterListImpl.List.constructor` | contrib/onload-7.1.2.141/src/driver/linux_char/filter_list.c:43-49 | The initial list satisfies the invariant. |
| `Driverlink.RunKeeps` | contrib/onload-7.1.2.141/src/driver/linux_net/driverlink.c:76-198 | Over every run each NIC count is the sum of its clients' counts and of what failed probes left behind, the kernel is blocked exactly while the count is positive, and the device list is sorted by priority with attachment order kept within a level. |
| `Driverlink.SumsIff` | contrib/onload-7.1.2.141/src/driver/linux_net/driverlink.c:76-198 | From a new NIC the counts are the sums of the clients' counts if and only if the failed probes of the run left nothing behind; blocking and order hold on every run. |
| `Driverlink.ApplyKeeps` | contrib/onload-7.1.2.141/src/driver/linux_net/driverlink.c:767-809 | Every single operation keeps that, adding to what nobody holds exactly what its own failed probe left. |
| `Driverlink.CallAccounts` | contrib/onload-7.1.2.141/src/driver/linux_net/driverlink.c:767-809 | A block that is not refused raises the caller's count and the NIC's by one, also when the kernel is blocked already; an unblock by a holder lowers both by one; anything else changes neither. |
| `Driverlink.BlockedWhileHeld` | contrib/onload-7.1.2.141/src/driver/linux_net/driverlink.c:767-809 | Over every run from a new NIC an attached client's count is its accepted blocks less its accepted unblocks, and the kernel is kept out while that is positive, whatever other clients do. |
| `Driverlink.TryAddOutcome` | contrib/onload-7.1.2.141/src/driver/linux_net/driverlink.c:130-198 | A probe that succeeds attaches its driver, with its priority and what it holds, among the others unchanged; any other attaches nothing. |
| `Driverlink.FailedProbeIff` | contrib/onload-7.1.2.141/src/driver/linux_net/driverlink.c:152-198 | After a failed probe the counts still add up if and only if the probe gave back every block it took. |
| `Driverlink.FailedProbeLeaks` | contrib/onload-7.1.2.141/src/driver/linux_net/driverlink.c:193-198 | A concrete probe that blocks, fails, and leaves a block nobody holds. |
| `Driverlink.AttachedOrdered` | contrib/onload-7.1.2.141/src/driver/linux_net/driverlink.c:169-187 | Inserting before the first device of a higher priority value keeps the list in order. |
| `Driverlink.DroppedAdds` | contrib/onload-7.1.2.141/src/driver/linux_net/driverlink.c:107-117 | Giving back a removed client's blocks keeps the sums and unblocks exactly at zero. |
| `Driverlink.UnregisterReleases` | contrib/onload-7.1.2.141/src/driver/linux_net/driverlink.c:260-272 | Once all clients are removed, the NIC has only the blocks failed probes left, and the kernel receives exactly where there are none. |
| `Driverlink.TagRoundTrip` | contrib/onload-7.1.2.141/src/driver/linux_net/driverlink.c:521-550 | Remove takes apart the id that insert made, exactly when the table's id fits below the priority. |
| `DriverlinkImpl.NicLink.TryAddDevice` | contrib/onload-7.1.2.141/src/driver/linux_net/driverlink.c:130-198 | Probing and the search for the place in the list compute the specified state. |
| `DriverlinkImpl.NicLink.DelDevice` | contrib/onload-7.1.2.141/src/driver/linux_net/driverlink.c:76-125 | Removal of a device computes the specified state. |
| `DriverlinkImpl.NicLink.DropCounts` | contrib/onload-7.1.2.141/src/driver/linux_net/driverlink.c:107-117 | The loop over the block types gives back what the client held. |
| `DriverlinkImpl.NicLink.BlockKernel` | contrib/onload-7.1.2.141/src/driver/linux_net/driverlink.c:767-788 | Counts and hook calls as specified; nothing changes when the hook fails; the result is that of the hook if it is called, and unassigned otherwise. |
| `DriverlinkImpl.NicLink.UnblockKernel` | contrib/onload-7.1.2.141/src/driver/linux_net/driverlink.c:791-809 | Counts and hook calls as specified; nothing changes when the client holds no block. |
| `DriverlinkImpl.NicLink.UnregisterNic` | contrib/onload-7.1.2.141/src/driver/linux_net/driverlink.c:260-272 | All devices are removed, last first, and only blocks left by failed probes remain. |
| `AffinityProofs.RunKeeps` | contrib/onload-7.1.2.141/src/driver/linux_affinity/sfcaffinity.c:218-746 | Over every run each filter is on exactly one descriptor list and one interface list, an interface has at most one filter per 5-tuple, the hardware has the listed filters, each steering to the queue recorded, and those it failed to remove, and every queue map entry is -1 or a valid queue. |
| `AffinityProofs.RunClean` | contrib/onload-7.1.2.141/src/driver/linux_affinity/sfcaffinity.c:334-342 | As long as every hardware removal succeeds, the hardware filters are exactly the listed ones. |
| `AffinityProofs.FilterAddOwns` | contrib/onload-7.1.2.141/src/driver/linux_affinity/sfcaffinity.c:360-521 | After a successful add the one filter for the 5-tuple is on the caller's list and steers to the queue asked for, or else to that of the cpu, within range. |
| `AffinityProofs.AddSucceedsIff` | contrib/onload-7.1.2.141/src/driver/linux_affinity/sfcaffinity.c:360-521 | An add succeeds if and only if the match is TCP or UDP with a destination and a whole or no source, the cpu, interface and queue exist, the queue is given or configured for the cpu, memory can be had, and the filter is there already or the lower layer takes it. |
| `AffinityProofs.AddReports` | contrib/onload-7.1.2.141/src/driver/linux_affinity/sfcaffinity.c:373-455 | The code and reason of a failed add, check by check. |
| `AffinityProofs.FilterAddSpares` | contrib/onload-7.1.2.141/src/driver/linux_affinity/sfcaffinity.c:461-521 | An add touches no filter but the one for its own match. |
| `AffinityProofs.RemoveHardware` | contrib/onload-7.1.2.141/src/driver/linux_affinity/sfcaffinity.c:334-342 | The hardware loses a removed filter exactly when it says so, and the filter is known as left behind otherwise. |
| `AffinityProofs.AddForKeeps` | contrib/onload-7.1.2.141/src/driver/linux_affinity/sfcaffinity.c:461-521 | Taking over, replacing or inserting a filter keeps the invariant, whichever call fails. |
| `AffinityProofs.FailedAddIff` | contrib/onload-7.1.2.141/src/driver/linux_affinity/sfcaffinity.c:461-521 | A failed add changes nothing exactly when it was not to replace a filter at another queue; such a filter is already gone. |
| `AffinityProofs.FailedAddLoses` | contrib/onload-7.1.2.141/src/driver/linux_affinity/sfcaffinity.c:461-521 | A run from the empty state after which an add that fails with -EBUSY leaves the flow without its filter. |
| `AffinityProofs.FilterDelIs` | contrib/onload-7.1.2.141/src/driver/linux_affinity/sfcaffinity.c:524-548 | A delete removes exactly the caller's filters with the match, on the interface if one is given, leaves all others as they were, and fails exactly when there are none. |
| `AffinityProofs.CloseKeeps` | contrib/onload-7.1.2.141/src/driver/linux_affinity/sfcaffinity.c:706-718 | Closing removes exactly the descriptor's filters and the descriptor, and leaves all others as they were. |
| `AffinityProofs.InterfaceDownKeeps` | contrib/onload-7.1.2.141/src/driver/linux_affinity/sfcaffinity.c:730-745 | Taking an interface down removes exactly its filters and its configuration, and leaves all others as they were. |
| `AffinityProofs.InterfaceUpKeeps` | contrib/onload-7.1.2.141/src/driver/linux_affinity/sfcaffinity.c:218-270 | Bringing an interface up keeps the invariant, sets the number of queues, resets the map exactly when the interface is new or that number changed, and touches nothing else. |
| `AffinityProofs.ConfigureKeeps` | contrib/onload-7.1.2.141/src/driver/linux_affinity/sfcaffinity.c:278-305 | A map is installed exactly when the interface is known and every entry is a valid queue; otherwise -EINVAL and no change. |
| `AffinityProofs.ReasonNeverTold` | contrib/onload-7.1.2.141/src/driver/linux_affinity/sfcaffinity.c:345-357 | For every failure of the insertion the reason reported is the default one. |
| `AffinityImpl.Driver.AddFilter` | contrib/onload-7.1.2.141/src/driver/linux_affinity/sfcaffinity.c:360-521 | The checks, choice of queue and insertion compute the specified state and result. |
| `AffinityImpl.Driver.AddToQueue` | contrib/onload-7.1.2.141/src/driver/linux_affinity/sfcaffinity.c:461-521 | The part after the queue is chosen computes the specified state and result. |
| `AffinityImpl.Driver.DelFilter` | contrib/onload-7.1.2.141/src/driver/linux_affinity/sfcaffinity.c:524-548 | The loop over the caller's list computes the specified state and result. |
| `AffinityImpl.Driver.RemoveFilter` | contrib/onload-7.1.2.141/src/driver/linux_affinity/sfcaffinity.c:334-342 | Unlinks a filter from both lists and mirrors the hardware's answer. |
| `AffinityImpl.Driver.Find` | contrib/onload-7.1.2.141/src/driver/linux_affinity/sfcaffinity.c:320-331 | The search loop finds the first filter with the match. |
| `AffinityImpl.Driver.CloseDescriptor` | contrib/onload-7.1.2.141/src/driver/linux_affinity/sfcaffinity.c:706-718 | The loop removes all filters of the descriptor. |
| `AffinityImpl.Driver.OpenDescriptor` | contrib/onload-7.1.2.141/src/driver/linux_affinity/sfcaffinity.c:694-703 | A new descriptor starts with an empty list and the invariant is kept. |
| `AffinityImpl.Driver.TakeDown` | contrib/onload-7.1.2.141/src/driver/linux_affinity/sfcaffinity.c:730-745 | The loop removes all filters of the interface. |
| `AffinityImpl.Driver.BringUp` | contrib/onload-7.1.2.141/src/driver/linux_affinity/sfcaffinity.c:218-270 | Creates or revives the interface as specified. |
| `AffinityImpl.Driver.SetQueues` | contrib/onload-7.1.2.141/src/driver/linux_affinity/sfcaffinity.c:278-305 | Checks the map in a loop and installs it, or -EINVAL. |

## Left out

- The Go device and CNI plugins, the kubeconfig generator, the C++ client: input and output with little state of their own.
- EF10 probing, PIO, statistics, RSS, PTP, MTD, licensing, debugfs, rebuilding the firmware table after a reset, and the unloading path of the tunnel push.
- Automatic inserts for multicast recipients as a refinement of layers: multicast matches may have several rows, so only their displacement rules are proved.
- The difference between exclusive and subscribing firmware opcodes: both are one push.
- Checksum flags, error classes and statistics of receive events.
- The `.gcda` formats before gcc 3.4, sparse counter tables, and overflow of sizes beyond 32 bits; the host is little-endian.
- Signs, blanks and underscores that Python's int() accepts, and negative masks.
- The exact identity of the dump firmware command: only the tree it reads is modelled.
- Memory registration: mapping the addresses for DMA and undoing that, and hosts whose page size differs.
- The filter list's independent block, whose flags are not set on its error path, and the vport variants of older interfaces.
- Driverlink: what the unassigned return value of a block is when already blocked, the global lists of drivers and NICs (a NIC sees any sequence of its own operations), wrap-around of the counters, and callbacks other than probe and remove.
- Affinity: failure to allocate an interface, parsing of the proc file, and what becomes of hardware filters left on an interface that went away.
- Memory barriers, timing, and copying of ioctl arguments.
- ResourceTableImpl.Table.AllocateId: states the outcome without other threads; all interleavings are in ResourceTable.TableSafe.
- MemReg.Register: ends where the addresses are handed to DMA mapping, whose failure and undo are not modelled; the two allocation failures share one code.
