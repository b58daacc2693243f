/** UDP tunnel ports: the table of requested ports, and the push of that table
    to the firmware, which drops the lock while the firmware is busy.

    The state machine has one step per critical section of the spinlock, plus
    steps for the work queue, the firmware's reply and a controller reboot. */
module UdpTunnel {
  import opened Common

  const SLOTS := 16
  const COUNT_MAX := 0x3fff

  /** A tunnel type and port; the request argument and the firmware's list entry. */
  datatype Tunnel = Tunnel(kind: nat, port: nat)

  datatype Slot = Slot(tnl: Tunnel, count: nat, adding: bool, removing: bool)

  datatype Last = Succeeded | Failed

  /** `starting` counts threads that have entered the push and not yet taken the
      lock; `busy` is udp_tunnels_busy; `sent` is what the running push sent, by
      slot; `scheduled` is the work item; `hw` is the firmware's list; `disturbed`
      records an add or delete that changed a mark since the list was sent. */
  datatype State = State(slots: seq<Slot>, busy: bool, sent: seq<Option<Tunnel>>, scheduled: bool,
                         starting: nat, last: Last, hw: set<Tunnel>, disturbed: bool)

  datatype Reply = Ok | Eio | Error(hw: set<Tunnel>)

  // ----- Requests

  /** The first slot in use for the port, or SLOTS. */
  function Lookup(slots: seq<Slot>, port: nat, i: nat): (r: nat)
    requires i <= |slots|
    ensures i <= r <= |slots|
    ensures r < |slots| ==> slots[r].count != 0 && slots[r].tnl.port == port
    ensures forall j :: i <= j < r ==> slots[j].count == 0 || slots[j].tnl.port != port
    decreases |slots| - i
  {
    if i == |slots| || (slots[i].count != 0 && slots[i].tnl.port == port) then i else Lookup(slots, port, i + 1)
  }

  predicate Unused(slot: Slot) { slot.count == 0 && !slot.adding && !slot.removing }

  /** The first unused slot, or SLOTS. */
  function FreeSlot(slots: seq<Slot>, i: nat): (r: nat)
    requires i <= |slots|
    ensures i <= r <= |slots|
    ensures r < |slots| ==> Unused(slots[r])
    ensures forall j :: i <= j < r ==> !Unused(slots[j])
    decreases |slots| - i
  {
    if i == |slots| || Unused(slots[i]) then i else FreeSlot(slots, i + 1)
  }

  /** A further reference to a port that is in use. */
  function Referenced(slot: Slot): Slot
  {
    var slot' := slot.(count := if slot.count < COUNT_MAX then slot.count + 1 else slot.count);
    if slot.removing then slot'.(removing := false, adding := true) else slot'
  }

  function AddPort(s: State, tnl: Tunnel): State
  {
    var m := Lookup(s.slots, tnl.port, 0);
    if m < |s.slots| then
      if s.slots[m].tnl.kind == tnl.kind then s.(slots := s.slots[m := Referenced(s.slots[m])]) else s
    else
      var f := FreeSlot(s.slots, 0);
      if f < |s.slots| then
        s.(slots := s.slots[f := Slot(tnl, 1, true, false)], scheduled := true, disturbed := true)
      else s
  }

  function DelPort(s: State, tnl: Tunnel): State
  {
    var m := Lookup(s.slots, tnl.port, 0);
    if m < |s.slots| && s.slots[m].tnl.kind == tnl.kind then
      var slot := s.slots[m];
      var count := if slot.count != COUNT_MAX then slot.count - 1 else slot.count;
      if count != 0 then s.(slots := s.slots[m := slot.(count := count)])
      else s.(slots := s.slots[m := Slot(slot.tnl, 0, false, true)], scheduled := true, disturbed := true)
    else s
  }

  // ----- The push

  /** Whether a slot is sent to the firmware. */
  predicate Sends(slot: Slot) { slot.count != 0 && !slot.removing && slot.tnl.port != 0 }

  function Sent(slot: Slot): Option<Tunnel> { if Sends(slot) then Some(slot.tnl) else None }

  function SentList(slots: seq<Slot>): seq<Option<Tunnel>>
  {
    seq(|slots|, i requires 0 <= i < |slots| => Sent(slots[i]))
  }

  function Listed(sent: seq<Option<Tunnel>>): set<Tunnel>
  {
    set i | 0 <= i < |sent| && sent[i].Some? :: sent[i].value
  }

  /** Send the list and drop the lock. */
  function Send(s: State): State
  {
    s.(busy := true, sent := SentList(s.slots), disturbed := false)
  }

  /** A thread that entered the push takes the lock. */
  function Begin(s: State): State
    requires s.starting > 0
  {
    var s' := s.(starting := s.starting - 1);
    if s.busy then s' else Send(s')
  }

  /** A mark that the successful push has settled. */
  function Settle(slot: Slot, sent: Option<Tunnel>): Slot
  {
    if sent.Some? then slot.(adding := false) else slot.(removing := false)
  }

  function Settled(slots: seq<Slot>, sent: seq<Option<Tunnel>>): (r: seq<Slot>)
    requires |slots| == |sent|
    ensures |r| == |slots|
  {
    seq(|slots|, i requires 0 <= i < |slots| => Settle(slots[i], sent[i]))
  }

  predicate Marked(slot: Slot) { slot.adding || slot.removing }

  predicate AnyMarked(slots: seq<Slot>) { exists i :: 0 <= i < |slots| && Marked(slots[i]) }

  /** After a reboot no port is present; those in use are to be added again. */
  function Rebooted(slot: Slot): Slot
  {
    slot.(adding := slot.adding || slot.count != 0, removing := false)
  }

  /** The firmware's reply, handled under the lock. */
  function Finish(s: State, reply: Reply): State
    requires |s.slots| == |s.sent|
  {
    match reply
    case Ok =>
      var s' := s.(slots := Settled(s.slots, s.sent), hw := Listed(s.sent));
      if AnyMarked(s'.slots) then Send(s') else s'.(busy := false, last := Succeeded)
    case Eio =>
      s.(slots := seq(|s.slots|, i requires 0 <= i < |s.slots| => Rebooted(s.slots[i])),
         busy := false, last := Failed, hw := {})
    case Error(hw) => s.(busy := false, last := Failed, hw := hw)
  }

  // ----- The state machine

  datatype Step =
    | Add(tnl: Tunnel)
    | Del(tnl: Tunnel)
    | RunWork          // the work queue starts the scheduled push
    | CallPush         // a push requested directly, after probe or reset
    | TakeLock
    | FwReply(reply: Reply)
    | Reboot(hw: set<Tunnel>)

  predicate Enabled(s: State, step: Step)
  {
    match step
    case Add(tnl) => tnl.port != 0
    case Del(tnl) => true
    case RunWork => s.scheduled
    case CallPush => true
    case TakeLock => s.starting > 0
    case FwReply(_) => s.busy && |s.slots| == |s.sent|
    case Reboot(_) => true
  }

  function Next(s: State, step: Step): State
    requires Enabled(s, step)
  {
    match step
    case Add(tnl) => AddPort(s, tnl)
    case Del(tnl) => DelPort(s, tnl)
    case RunWork => s.(scheduled := false, starting := s.starting + 1)
    case CallPush => s.(starting := s.starting + 1)
    case TakeLock => Begin(s)
    case FwReply(reply) => Finish(s, reply)
    case Reboot(hw) => s.(last := Failed, hw := hw)
  }

  const INITIAL :=
    State(seq(SLOTS, _ => Slot(Tunnel(0, 0), 0, false, false)), false, [], false, 0, Succeeded, {}, false)

  // ----- The invariant

  /** Marks and counts of one slot. */
  predicate Coherent(slot: Slot)
  {
    && slot.count <= COUNT_MAX
    && (slot.adding ==> slot.count != 0)
    && (slot.removing ==> slot.count == 0)
    && (slot.count != 0 ==> slot.tnl.port != 0)
  }

  /** Two slots in use are for different ports. */
  predicate Distinct(slots: seq<Slot>)
  {
    forall i, j | 0 <= i < j < |slots| && slots[i].count != 0 && slots[j].count != 0 ::
      slots[i].tnl.port != slots[j].tnl.port
  }

  /** A slot that changed since the list was sent shows it by a mark. */
  predicate InFlight(slot: Slot, sent: Option<Tunnel>)
  {
    if sent.Some? then slot.tnl == sent.value && (slot.count != 0 || slot.removing)
    else slot.count == 0 || slot.adding
  }

  /** The marks of an undisturbed push are those that its success clears. */
  predicate Quiet(slot: Slot, sent: Option<Tunnel>)
  {
    if sent.Some? then !slot.removing else !slot.adding
  }

  /** The firmware's list is that of the unmarked slots in use. */
  ghost predicate Current(slots: seq<Slot>, hw: set<Tunnel>)
  {
    && (forall i :: 0 <= i < |slots| && slots[i].count != 0 && !slots[i].adding ==> slots[i].tnl in hw)
    && (forall t :: t in hw ==>
        exists i :: 0 <= i < |slots| && slots[i].tnl == t && (slots[i].count != 0 || slots[i].removing))
  }

  ghost predicate Inv(s: State)
  {
    && |s.slots| == SLOTS
    && (forall i :: 0 <= i < SLOTS ==> Coherent(s.slots[i]))
    && Distinct(s.slots)
    && (s.busy ==> |s.sent| == SLOTS && forall i :: 0 <= i < SLOTS ==> InFlight(s.slots[i], s.sent[i]))
    && (s.busy && !s.disturbed ==> forall i :: 0 <= i < SLOTS ==> Quiet(s.slots[i], s.sent[i]))
    && (AnyMarked(s.slots) ==> s.busy || s.scheduled || s.starting > 0 || s.last == Failed)
    && (!s.busy && s.last == Succeeded ==> Current(s.slots, s.hw))
  }

  predicate Idle(s: State) { !s.busy && !s.scheduled && s.starting == 0 }

  /** The ports with a nonzero count. */
  function Wanted(slots: seq<Slot>): set<Tunnel>
  {
    set i | 0 <= i < |slots| && slots[i].count != 0 :: slots[i].tnl
  }

  // ----- Every step keeps the invariant

  lemma InitialInv()
    ensures Inv(INITIAL)
  {
  }

  /** How a request may change one slot: a port in use stays the same port; a
      change of use shows as a mark. */
  predicate Allowed(slot: Slot, slot': Slot)
  {
    if slot.count != 0 then
      && slot'.tnl == slot.tnl
      && (if slot'.count != 0 then slot'.adding == slot.adding && !slot'.removing else slot'.removing)
    else slot' == slot || (Unused(slot) && slot'.count != 0 && slot'.adding)
  }

  lemma SlotInv(s: State, m: nat, slot': Slot, touched: bool)
    requires Inv(s) && m < SLOTS && Coherent(slot') && Allowed(s.slots[m], slot')
    requires slot'.count != 0 ==>
               forall j :: 0 <= j < SLOTS && j != m && s.slots[j].count != 0 ==> s.slots[j].tnl.port != slot'.tnl.port
    requires !touched ==> slot'.adding == s.slots[m].adding && slot'.removing == s.slots[m].removing
    ensures Inv(s.(slots := s.slots[m := slot'],
                   scheduled := s.scheduled || touched, disturbed := s.disturbed || touched))
  {
    assert Coherent(s.slots[m]);
    if s.busy {
      assert InFlight(s.slots[m], s.sent[m]);
    } else if s.last == Succeeded {
      KeepCurrent(s.slots, m, slot', s.hw);
    }
    if !touched && Marked(slot') {
      assert Marked(s.slots[m]);
    }
  }

  lemma KeepCurrent(slots: seq<Slot>, m: nat, slot': Slot, hw: set<Tunnel>)
    requires m < |slots| && Current(slots, hw) && Allowed(slots[m], slot')
    requires Coherent(slots[m]) && Coherent(slot')
    ensures Current(slots[m := slot'], hw)
  {
    var slots' := slots[m := slot'];
    forall t | t in hw
      ensures exists i :: 0 <= i < |slots'| && slots'[i].tnl == t && (slots'[i].count != 0 || slots'[i].removing)
    {
      var i :| 0 <= i < |slots| && slots[i].tnl == t && (slots[i].count != 0 || slots[i].removing);
      assert slots'[i].tnl == t && (slots'[i].count != 0 || slots'[i].removing);
    }
  }

  lemma AddInv(s: State, tnl: Tunnel)
    requires Inv(s) && tnl.port != 0
    ensures Inv(AddPort(s, tnl))
  {
    hide Inv;
    var m := Lookup(s.slots, tnl.port, 0);
    assert |s.slots| == SLOTS && forall i :: 0 <= i < SLOTS ==> Coherent(s.slots[i]) by { InvSlots(s); }
    if m < SLOTS {
      if s.slots[m].tnl.kind == tnl.kind {
        InvSlots(s);
        SlotInv(s, m, Referenced(s.slots[m]), false);
      }
    } else {
      var f := FreeSlot(s.slots, 0);
      if f < SLOTS {
        SlotInv(s, f, Slot(tnl, 1, true, false), true);
      }
    }
  }

  lemma DelInv(s: State, tnl: Tunnel)
    requires Inv(s)
    ensures Inv(DelPort(s, tnl))
  {
    hide Inv;
    InvSlots(s);
    var m := Lookup(s.slots, tnl.port, 0);
    if m < SLOTS && s.slots[m].tnl.kind == tnl.kind {
      var slot := s.slots[m];
      assert Coherent(slot);
      var slot' := DelPort(s, tnl).slots[m];
      SlotInv(s, m, slot', slot'.removing);
    }
  }

  lemma InvSlots(s: State)
    requires Inv(s)
    ensures |s.slots| == SLOTS && Distinct(s.slots) && forall i :: 0 <= i < SLOTS ==> Coherent(s.slots[i])
  {
  }

  lemma FinishInv(s: State, reply: Reply)
    requires Inv(s) && s.busy
    ensures Inv(Finish(s, reply))
  {
    match reply
    case Ok =>
      SettledSlots(s);
      SettledCurrent(s);
    case Eio => RebootedSlots(s);
    case Error(_) =>
  }

  lemma SettledSlots(s: State)
    requires Inv(s) && s.busy
    ensures var slots' := Settled(s.slots, s.sent);
            && Distinct(slots')
            && forall i :: 0 <= i < SLOTS ==>
              Coherent(slots'[i]) && InFlight(slots'[i], Sent(slots'[i])) && Quiet(slots'[i], Sent(slots'[i]))
  {
  }

  lemma RebootedSlots(s: State)
    requires Inv(s) && s.busy
    ensures var slots' := Finish(s, Eio).slots;
            Distinct(slots') && forall i :: 0 <= i < SLOTS ==> Coherent(slots'[i])
  {
  }

  /** After a success the firmware's list is that of the slots without marks. */
  lemma SettledCurrent(s: State)
    requires Inv(s) && s.busy
    ensures Current(Settled(s.slots, s.sent), Listed(s.sent))
  {
    var slots' := Settled(s.slots, s.sent);
    forall i | 0 <= i < SLOTS
      ensures InFlight(s.slots[i], s.sent[i])
    {
    }
    forall t | t in Listed(s.sent)
      ensures exists i :: 0 <= i < SLOTS && slots'[i].tnl == t && (slots'[i].count != 0 || slots'[i].removing)
    {
      var i :| 0 <= i < |s.sent| && s.sent[i].Some? && s.sent[i].value == t;
      assert InFlight(s.slots[i], s.sent[i]);
      assert slots'[i].tnl == t && (slots'[i].count != 0 || slots'[i].removing);
    }
  }

  lemma NextInv(s: State, step: Step)
    requires Inv(s) && Enabled(s, step)
    ensures Inv(Next(s, step))
  {
    match step
    case Add(tnl) => AddInv(s, tnl);
    case Del(tnl) => DelInv(s, tnl);
    case FwReply(reply) => FinishInv(s, reply);
    case _ =>
  }

  /** A port that is found is never waiting to be removed: the branch of the add
      that would turn a removal back into an addition is not taken. */
  lemma NotRemovingWhenFound(s: State, port: nat)
    requires Inv(s)
    ensures var m := Lookup(s.slots, port, 0); m < SLOTS ==> !s.slots[m].removing
  {
    var m := Lookup(s.slots, port, 0);
    if m < SLOTS {
      assert Coherent(s.slots[m]);
    }
  }

  // ----- Whole runs

  predicate AllEnabled(s: State, steps: seq<Step>)
    decreases |steps|
  {
    steps == [] || (Enabled(s, steps[0]) && AllEnabled(Next(s, steps[0]), steps[1..]))
  }

  function Run(s: State, steps: seq<Step>): State
    requires AllEnabled(s, steps)
    decreases |steps|
  {
    if steps == [] then s else Run(Next(s, steps[0]), steps[1..])
  }

  lemma {:induction false} RunInv(s: State, steps: seq<Step>)
    requires Inv(s) && AllEnabled(s, steps)
    ensures Inv(Run(s, steps))
    decreases |steps|
  {
    if steps == [] {
    } else {
      NextInv(s, steps[0]);
      RunInv(Next(s, steps[0]), steps[1..]);
    }
  }

  /** After any interleaving: a pending mark has a push running, scheduled or
      failed behind it, so no update is lost; and when no push is running or
      scheduled and the last one succeeded, nothing is pending and the firmware
      has exactly the ports with a nonzero count. */
  lemma NoUpdateLost(steps: seq<Step>)
    requires AllEnabled(INITIAL, steps)
    ensures var s := Run(INITIAL, steps);
            && (AnyMarked(s.slots) ==> !Idle(s) || s.last == Failed)
            && (Idle(s) && s.last == Succeeded ==> !AnyMarked(s.slots) && s.hw == Wanted(s.slots))
  {
    InitialInv();
    RunInv(INITIAL, steps);
    var s := Run(INITIAL, steps);
    if Idle(s) && s.last == Succeeded {
      IdleAgrees(s);
    }
  }

  // ----- What a reply does to the marks, and what the transmit path may rely on

  /** A failed push leaves every mark; after -EIO exactly the ports in use are to be added and none is
      to be removed; a success clears the addition of what was sent and the removal of
      what was not. */
  lemma ReplyMarks(s: State, reply: Reply, i: nat)
    requires Inv(s) && s.busy && i < SLOTS
    ensures var slot, slot' := s.slots[i], Finish(s, reply).slots[i];
            && slot'.tnl == slot.tnl && slot'.count == slot.count
            && Finish(s, reply).scheduled == s.scheduled && Finish(s, reply).starting == s.starting
            && match reply
               case Ok =>
                 && (slot'.adding <==> slot.adding && s.sent[i].None?)
                 && (slot'.removing <==> slot.removing && s.sent[i].Some?)
               case Eio => (slot'.adding <==> slot.count != 0) && !slot'.removing
               case Error(_) => slot' == slot
  {
    assert Coherent(s.slots[i]);
  }

  /** There is one push at a time: until the firmware replies nothing changes what was sent. */
  lemma OnePush(s: State, step: Step)
    requires s.busy && Enabled(s, step) && !step.FwReply?
    ensures Next(s, step).busy && Next(s, step).sent == s.sent && (s.disturbed ==> Next(s, step).disturbed)
  {
  }

  /** The firmware changes its list only by a push that succeeds or that reports a reboot. */
  predicate Truthful(s: State, step: Step)
  {
    match step
    case FwReply(Error(hw)) => hw == s.hw
    case Reboot(hw) => hw == s.hw
    case _ => true
  }

  predicate AllTruthful(s: State, steps: seq<Step>)
    requires AllEnabled(s, steps)
    decreases |steps|
  {
    steps == [] || (Truthful(s, steps[0]) && AllTruthful(Next(s, steps[0]), steps[1..]))
  }

  lemma RebootedCurrent(s: State)
    requires Inv(s) && s.busy
    ensures Current(Finish(s, Eio).slots, {})
  {
  }

  lemma RequestCurrent(s: State, step: Step)
    requires Inv(s) && Enabled(s, step) && (step.Add? || step.Del?) && Current(s.slots, s.hw)
    ensures Current(Next(s, step).slots, s.hw)
  {
    hide Inv, Current;
    InvSlots(s);
    NextInv(s, step);
    InvSlots(Next(s, step));
    var s', m, f := Next(s, step), Lookup(s.slots, step.tnl.port, 0), FreeSlot(s.slots, 0);
    if m < SLOTS {
      assert Coherent(s.slots[m]) && Coherent(s'.slots[m]);
      KeepCurrent(s.slots, m, s'.slots[m], s.hw);
      assert s'.slots == s.slots[m := s'.slots[m]];
    } else if step.Add? && f < SLOTS {
      assert Coherent(s.slots[f]) && Coherent(s'.slots[f]);
      KeepCurrent(s.slots, f, s'.slots[f], s.hw);
    }
  }

  lemma CurrentNext(s: State, step: Step)
    requires Inv(s) && Enabled(s, step) && Truthful(s, step) && Current(s.slots, s.hw)
    ensures Current(Next(s, step).slots, Next(s, step).hw)
  {
    hide Current;
    match step
    case Add(_) => RequestCurrent(s, step);
    case Del(_) => RequestCurrent(s, step);
    case FwReply(reply) =>
      if reply.Ok? {
        SettledCurrent(s);
      } else if reply.Eio? {
        RebootedCurrent(s);
      }
    case _ =>
  }

  lemma {:induction false} CurrentRun(s: State, steps: seq<Step>)
    requires Inv(s) && AllEnabled(s, steps) && AllTruthful(s, steps) && Current(s.slots, s.hw)
    ensures Current(Run(s, steps).slots, Run(s, steps).hw)
    decreases |steps|
  {
    hide Inv, Next, Current, Truthful;
    if steps == [] {
    } else {
      NextInv(s, steps[0]);
      CurrentNext(s, steps[0]);
      CurrentRun(Next(s, steps[0]), steps[1..]);
    }
  }

  /** efx_ef10_udp_tnl_has_port */
  predicate HasPort(slots: seq<Slot>, port: nat)
  {
    var m := Lookup(slots, port, 0);
    m < |slots| && !slots[m].adding && !slots[m].removing
  }

  /** Over every interleaving, however many pushes fail: a port that the driver says it has is in the
      firmware's list, and everything in that list is a port in use or one that
      waits to be removed. */
  lemma HasPortTrue(steps: seq<Step>, port: nat)
    requires AllEnabled(INITIAL, steps) && AllTruthful(INITIAL, steps)
    ensures var s := Run(INITIAL, steps);
            && (HasPort(s.slots, port) ==> exists t :: t in s.hw && t.port == port)
            && (forall t :: t in s.hw && t.port == port && Refs(s.slots, port).None? ==>
                exists i :: 0 <= i < |s.slots| && s.slots[i].tnl == t && s.slots[i].removing)
  {
    InitialInv();
    CurrentRun(INITIAL, steps);
    var s := Run(INITIAL, steps);
    if HasPort(s.slots, port) {
      var m := Lookup(s.slots, port, 0);
      assert s.slots[m].tnl in s.hw;
    }
  }

  lemma IdleAgrees(s: State)
    requires Inv(s) && Idle(s) && s.last == Succeeded
    ensures !AnyMarked(s.slots) && s.hw == Wanted(s.slots)
  {
    forall i | 0 <= i < SLOTS
      ensures !Marked(s.slots[i])
    {
    }
    forall t | t in s.hw
      ensures t in Wanted(s.slots)
    {
      var i :| 0 <= i < |s.slots| && s.slots[i].tnl == t && (s.slots[i].count != 0 || s.slots[i].removing);
      assert !Marked(s.slots[i]);
    }
  }

  /** The push goes round again only because a request came in while the firmware
      was busy: a successful reply to an undisturbed push is the last one. */
  lemma AgainOnlyIfDisturbed(s: State)
    requires Inv(s) && s.busy && Finish(s, Ok).busy
    ensures s.disturbed
  {
    var slots' := Settled(s.slots, s.sent);
    var i :| 0 <= i < |slots'| && Marked(slots'[i]);
    assert !Quiet(s.slots[i], s.sent[i]);
  }

  // ----- Port zero

  /** A push is running and nothing has changed since its list was sent. */
  predicate Undisturbed(s: State)
  {
    && s.busy && s.sent == SentList(s.slots)
    && forall i :: 0 <= i < |s.slots| ==> Purposeful(s.slots[i])
  }

  predicate Purposeful(slot: Slot) { (slot.adding ==> slot.count != 0) && (slot.removing ==> slot.count == 0) }

  predicate ZeroWaits(slots: seq<Slot>) { exists i :: 0 <= i < |slots| && slots[i].adding && slots[i].tnl.port == 0 }

  /** A successful reply to a push that nobody disturbs: it goes round again, with the same
      list, exactly when a port zero waits to be added. */
  lemma OneRound(s: State)
    requires Undisturbed(s)
    ensures var s' := Finish(s, Ok); s'.busy <==> ZeroWaits(s.slots)
    ensures var s' := Finish(s, Ok); s'.busy ==> Undisturbed(s') && s'.sent == s.sent && ZeroWaits(s'.slots)
  {
    var slots' := Settled(s.slots, s.sent);
    forall i | 0 <= i < |slots'|
      ensures Marked(slots'[i]) <==> s.slots[i].adding && s.slots[i].tnl.port == 0
      ensures Sent(slots'[i]) == Sent(s.slots[i]) && Purposeful(slots'[i])
    {
      assert Purposeful(s.slots[i]);
    }
    assert SentList(slots') == s.sent;
    if i :| 0 <= i < |s.slots| && s.slots[i].adding && s.slots[i].tnl.port == 0 {
      assert Marked(slots'[i]) && slots'[i].adding;
    }
  }

  /** The push after at most `n` successful replies in a row. */
  function Rounds(s: State, n: nat): State
    requires s.busy ==> Undisturbed(s)
    decreases n
  {
    if n == 0 || !s.busy then s
    else
      OneRound(s);
      Rounds(Finish(s, Ok), n - 1)
  }

  /** Without the restriction to nonzero ports: however many successful replies a push
      gets that nobody disturbs, it is still running exactly when a port zero waited to be
      added, and then it sends the same list again. */
  lemma {:induction false} PortZeroNeverSettles(s: State, n: nat)
    requires Undisturbed(s) && n > 0
    ensures Rounds(s, n).busy <==> ZeroWaits(s.slots)
    ensures Rounds(s, n).busy ==> Rounds(s, n).sent == s.sent
    decreases n
  {
    hide Finish, ZeroWaits;
    OneRound(s);
    var s' := Finish(s, Ok);
    assert Rounds(s, n) == Rounds(s', n - 1);
    if n > 1 && s'.busy {
      PortZeroNeverSettles(s', n - 1);
    } else {
      assert Rounds(s', n - 1) == s';
    }
  }

  /** A request for port zero and the push it schedules reach such a state. */
  lemma PortZeroArises(kind: nat)
    ensures var s := AddPort(INITIAL, Tunnel(kind, 0));
            && s.scheduled
            && var s' := Begin(s.(scheduled := false, starting := s.starting + 1));
               Undisturbed(s') && ZeroWaits(s'.slots)
  {
    var s := AddPort(INITIAL, Tunnel(kind, 0));
    assert s.slots[0] == Slot(Tunnel(kind, 0), 1, true, false);
    assert ZeroWaits(s.slots);
  }

  // ----- Requests as reference counts

  /** The tunnel kind and reference count recorded for a port. */
  function Refs(slots: seq<Slot>, port: nat): Option<(nat, nat)>
  {
    var m := Lookup(slots, port, 0);
    if m < |slots| then Some((slots[m].tnl.kind, slots[m].count)) else None
  }

  function CountUp(r: Option<(nat, nat)>, kind: nat, room: bool): Option<(nat, nat)>
  {
    match r
    case Some((k, n)) => if k == kind && n < COUNT_MAX then Some((k, n + 1)) else r
    case None => if room then Some((kind, 1)) else None
  }

  /** A saturated count is never lowered again. */
  function CountDown(r: Option<(nat, nat)>, kind: nat): Option<(nat, nat)>
  {
    match r
    case Some((k, n)) => if k != kind || n == COUNT_MAX then r else if n <= 1 then None else Some((k, n - 1))
    case None => None
  }

  predicate InUse(slot: Slot, port: nat) { slot.count != 0 && slot.tnl.port == port }

  lemma RefsFound(slots: seq<Slot>, port: nat, m: nat)
    requires Distinct(slots) && m < |slots| && InUse(slots[m], port)
    ensures Refs(slots, port) == Some((slots[m].tnl.kind, slots[m].count))
  {
    var l := Lookup(slots, port, 0);
    assert l < |slots| && InUse(slots[l], port);
  }

  lemma RefsUpdate(slots: seq<Slot>, m: nat, slot': Slot, port: nat)
    requires m < |slots| && Distinct(slots) && Distinct(slots[m := slot'])
    ensures Refs(slots[m := slot'], port) ==
            if InUse(slot', port) then Some((slot'.tnl.kind, slot'.count))
            else if InUse(slots[m], port) then None
            else Refs(slots, port)
  {
    var slots' := slots[m := slot'];
    if InUse(slot', port) {
      RefsFound(slots', port, m);
    } else if j :| 0 <= j < |slots| && j != m && InUse(slots[j], port) {
      RefsFound(slots', port, j);
      RefsFound(slots, port, j);
    }
  }

  lemma RefsSame(slots: seq<Slot>, slots': seq<Slot>, port: nat)
    requires |slots| == |slots'| && Distinct(slots) && Distinct(slots')
    requires forall i :: 0 <= i < |slots| ==> slots'[i].count == slots[i].count && slots'[i].tnl == slots[i].tnl
    ensures Refs(slots', port) == Refs(slots, port)
  {
    if j :| 0 <= j < |slots| && InUse(slots[j], port) {
      RefsFound(slots', port, j);
      RefsFound(slots, port, j);
    }
  }

  lemma AddCounts(s: State, tnl: Tunnel, port: nat)
    requires Inv(s) && tnl.port != 0
    ensures Refs(AddPort(s, tnl).slots, port) ==
            if tnl.port == port then CountUp(Refs(s.slots, port), tnl.kind, FreeSlot(s.slots, 0) < SLOTS)
            else Refs(s.slots, port)
  {
    hide Inv, Lookup, FreeSlot;
    AddInv(s, tnl);
    InvSlots(s);
    InvSlots(AddPort(s, tnl));
    var m := Lookup(s.slots, tnl.port, 0);
    if m < SLOTS {
      RefsUpdate(s.slots, m, AddPort(s, tnl).slots[m], port);
      RefsFound(s.slots, tnl.port, m);
    } else if FreeSlot(s.slots, 0) < SLOTS {
      RefsUpdate(s.slots, FreeSlot(s.slots, 0), Slot(tnl, 1, true, false), port);
    }
  }

  lemma DelCounts(s: State, tnl: Tunnel, port: nat)
    requires Inv(s)
    ensures Refs(DelPort(s, tnl).slots, port) ==
            if tnl.port == port then CountDown(Refs(s.slots, port), tnl.kind) else Refs(s.slots, port)
  {
    hide Inv, Lookup;
    DelInv(s, tnl);
    InvSlots(s);
    InvSlots(DelPort(s, tnl));
    var m := Lookup(s.slots, tnl.port, 0);
    if m < SLOTS {
      RefsUpdate(s.slots, m, DelPort(s, tnl).slots[m], port);
      RefsFound(s.slots, tnl.port, m);
    }
  }

  /** Requests count references per port, independently of marks, slots and
      pushes: an add counts up to saturation, a delete counts down, and no other
      step changes a count. */
  lemma RequestsCount(s: State, step: Step, port: nat)
    requires Inv(s) && Enabled(s, step)
    ensures Refs(Next(s, step).slots, port) ==
            if step.Add? && step.tnl.port == port
            then CountUp(Refs(s.slots, port), step.tnl.kind, FreeSlot(s.slots, 0) < SLOTS)
            else if step.Del? && step.tnl.port == port then CountDown(Refs(s.slots, port), step.tnl.kind)
            else Refs(s.slots, port)
  {
    hide Inv, AddPort, DelPort, Refs, CountUp, CountDown;
    match step
    case Add(tnl) => AddCounts(s, tnl, port);
    case Del(tnl) => DelCounts(s, tnl, port);
    case _ =>
      NextInv(s, step);
      InvSlots(s);
      InvSlots(Next(s, step));
      RefsSame(s.slots, Next(s, step).slots, port);
  }
}
