/** Driverlink: client drivers attached to each NIC in order of priority, the number
    of times each has asked to keep the kernel from receiving, and filter ids that
    carry their priority.

    A client's callbacks may call back into driverlink; the calls they make, and the
    replies of the NIC's block hook, are part of the operations. The hook
    blocks what is asked for or nothing. */
module Driverlink {
  import opened Common
  import opened Arith

  datatype Kind = Unicast | Multicast

  datatype Counts = Counts(unicast: int, multicast: int) {
    function Of(k: Kind): int { if k.Unicast? then unicast else multicast }
    function Plus(c: Counts): Counts { Counts(unicast + c.unicast, multicast + c.multicast) }
    predicate NonNegative() { unicast >= 0 && multicast >= 0 }
    function With(k: Kind, n: int): Counts { if k.Unicast? then this.(unicast := n) else this.(multicast := n) }
  }

  const ZERO := Counts(0, 0)

  /** A client attached to a NIC. `stamp` tells handles apart, in order of creation. */
  datatype Handle = Handle(driver: nat, priority: nat, stamp: nat, counts: Counts)

  /** `counts` is what the NIC keeps, `blocked` what its hooks have been told. */
  datatype Nic = Nic(devices: seq<Handle>, counts: Counts, blocked: set<Kind>, nextStamp: nat)

  // ----- Blocking

  /** efx_dl_filter_block_kernel for handle `h`; `hookRc` is what the hook answers if
      it is called. */
  function Block(nic: Nic, h: Handle, k: Kind, hookRc: int): (Nic, Handle)
  {
    if nic.counts.Of(k) == 0 && hookRc != 0 then (nic, h)
    else
      (nic.(counts := nic.counts.With(k, nic.counts.Of(k) + 1),
            blocked := if nic.counts.Of(k) == 0 then nic.blocked + {k} else nic.blocked),
       h.(counts := h.counts.With(k, h.counts.Of(k) + 1)))
  }

  /** The NIC's count lowered by `n`, and the kernel let through at zero. */
  function Release(nic: Nic, k: Kind, n: int): Nic
  {
    var left := nic.counts.Of(k) - n;
    nic.(counts := nic.counts.With(k, left), blocked := if left == 0 then nic.blocked - {k} else nic.blocked)
  }

  /** efx_dl_filter_unblock_kernel */
  function Unblock(nic: Nic, h: Handle, k: Kind): (Nic, Handle)
  {
    if h.counts.Of(k) == 0 then (nic, h)
    else (Release(nic, k, 1), h.(counts := h.counts.With(k, h.counts.Of(k) - 1)))
  }

  datatype Call = CallBlock(k: Kind, hookRc: int) | CallUnblock(kind: Kind)

  function OneCall(nic: Nic, h: Handle, c: Call): (Nic, Handle)
  {
    match c
    case CallBlock(k, hookRc) => Block(nic, h, k, hookRc)
    case CallUnblock(kind) => Unblock(nic, h, kind)
  }

  /** The calls a client makes on its handle, one after the other. */
  function Calls(nic: Nic, h: Handle, calls: seq<Call>): (Nic, Handle)
    decreases |calls|
  {
    if calls == [] then (nic, h)
    else var (nic', h') := OneCall(nic, h, calls[0]); Calls(nic', h', calls[1..])
  }

  // ----- Attaching and detaching

  datatype Driver = Driver(id: nat, priority: nat)

  /** What probing a driver does: whether it is supported and memory can be had,
      the calls its probe makes, and the probe's result. */
  datatype Probe = Probe(possible: bool, calls: seq<Call>, rc: int)

  /** The first place whose driver has a higher priority value. */
  function Place(devices: seq<Handle>, priority: nat): (i: nat)
    ensures i <= |devices|
    ensures forall j :: 0 <= j < i ==> devices[j].priority <= priority
    ensures i < |devices| ==> devices[i].priority > priority
  {
    if devices == [] || devices[0].priority > priority then 0 else 1 + Place(devices[1..], priority)
  }

  function Attached(nic: Nic, h: Handle): Nic
  {
    var i := Place(nic.devices, h.priority);
    nic.(devices := nic.devices[..i] + [h] + nic.devices[i..])
  }

  function Fresh(nic: Nic, d: Driver): Handle { Handle(d.id, d.priority, nic.nextStamp, ZERO) }

  /** efx_dl_try_add_device */
  function TryAdd(nic: Nic, d: Driver, p: Probe): Nic
  {
    if !p.possible then nic
    else
      var (nic', h) := Calls(nic.(nextStamp := nic.nextStamp + 1), Fresh(nic, d), p.calls);
      if p.rc != 0 then nic' else Attached(nic', h)
  }

  /** The end of efx_dl_del_device, once the handle is off the list. */
  function Dropped(nic: Nic, h: Handle): Nic
  {
    var nic' := if h.counts.unicast != 0 then Release(nic, Unicast, h.counts.unicast) else nic;
    if h.counts.multicast != 0 then Release(nic', Multicast, h.counts.multicast) else nic'
  }

  /** efx_dl_del_device for the i-th device, whose remove callback makes `calls`. */
  function Del(nic: Nic, i: nat, calls: seq<Call>): Nic
    requires i < |nic.devices|
  {
    var (nic', h) := Calls(nic, nic.devices[i], calls);
    Dropped(nic'.(devices := nic.devices[..i] + nic.devices[i + 1..]), h)
  }

  // ----- What every operation keeps

  function Sum(devices: seq<Handle>, k: Kind): int
  {
    if devices == [] then 0 else devices[0].counts.Of(k) + Sum(devices[1..], k)
  }

  predicate Before(a: Handle, b: Handle) { a.priority < b.priority || (a.priority == b.priority && a.stamp < b.stamp) }

  /** By priority, and in order of attachment within a priority. */
  ghost predicate Sorted(devices: seq<Handle>)
  {
    forall i, j :: 0 <= i < j < |devices| ==> Before(devices[i], devices[j])
  }

  /** The counts add up when `extra` is held besides what the devices hold. */
  ghost predicate AddsFor(nic: Nic, extra: Counts, k: Kind)
  {
    && nic.counts.Of(k) == Sum(nic.devices, k) + extra.Of(k)
    && extra.Of(k) >= 0
    && (k in nic.blocked <==> nic.counts.Of(k) > 0)
  }

  ghost predicate Adds(nic: Nic, extra: Counts)
  {
    AddsFor(nic, extra, Unicast) && AddsFor(nic, extra, Multicast) && Counted(nic.devices)
  }

  ghost predicate Counted(devices: seq<Handle>) { forall i :: 0 <= i < |devices| ==> devices[i].counts.NonNegative() }

  ghost predicate Ordered(nic: Nic)
  {
    && Sorted(nic.devices)
    && forall i :: 0 <= i < |nic.devices| ==> nic.devices[i].stamp < nic.nextStamp
  }

  /** `leaked` are the blocks of the NIC's counts that no client holds. */
  ghost predicate Inv(nic: Nic, leaked: Counts) { Adds(nic, leaked) && Ordered(nic) }

  lemma {:induction false} SumNonNegative(devices: seq<Handle>, k: Kind)
    requires Counted(devices)
    ensures Sum(devices, k) >= 0
    decreases |devices|
  {
    if devices == [] {
    } else {
      assert devices[0].counts.NonNegative();
      SumNonNegative(devices[1..], k);
    }
  }

  /** A handle that is not on the list, and blocks that nobody holds. */
  ghost predicate AddsWith(nic: Nic, h: Handle, leaked: Counts)
  {
    h.counts.NonNegative() && leaked.NonNegative() && Adds(nic, h.counts.Plus(leaked))
  }

  lemma CallAdds(nic: Nic, h: Handle, leaked: Counts, c: Call)
    requires AddsWith(nic, h, leaked)
    ensures var (nic', h') := OneCall(nic, h, c);
            && AddsWith(nic', h', leaked) && nic'.devices == nic.devices && nic'.nextStamp == nic.nextStamp
            && h' == h.(counts := h'.counts)
  {
    hide AddsFor, Counted;
    CallAddsFor(nic, h, leaked, c, Unicast);
    CallAddsFor(nic, h, leaked, c, Multicast);
  }

  lemma CallAddsFor(nic: Nic, h: Handle, leaked: Counts, c: Call, k: Kind)
    requires h.counts.NonNegative() && leaked.NonNegative() && Counted(nic.devices)
    requires AddsFor(nic, h.counts.Plus(leaked), k)
    ensures var (nic', h') := OneCall(nic, h, c);
            AddsFor(nic', h'.counts.Plus(leaked), k) && h'.counts.Of(k) >= 0
  {
    hide Sum, Counted;
    SumNonNegative(nic.devices, k);
  }

  lemma {:induction false} CallsAdd(nic: Nic, h: Handle, leaked: Counts, calls: seq<Call>)
    requires AddsWith(nic, h, leaked)
    ensures var (nic', h') := Calls(nic, h, calls);
            && AddsWith(nic', h', leaked) && nic'.devices == nic.devices && nic'.nextStamp == nic.nextStamp
            && h' == h.(counts := h'.counts)
    decreases |calls|
  {
    hide AddsWith, OneCall;
    if calls == [] {
    } else {
      var (nic', h') := OneCall(nic, h, calls[0]);
      CallAdds(nic, h, leaked, calls[0]);
      CallsAdd(nic', h', leaked, calls[1..]);
    }
  }

  lemma {:induction false} SumAt(devices: seq<Handle>, i: nat, k: Kind)
    requires i < |devices|
    ensures Sum(devices, k) == Sum(devices[..i] + devices[i + 1..], k) + devices[i].counts.Of(k)
    decreases |devices|
  {
    var rest := devices[..i] + devices[i + 1..];
    if i == 0 {
      assert rest == devices[1..];
    } else {
      SumAt(devices[1..], i - 1, k);
      assert rest[0] == devices[0];
      assert rest[1..] == devices[1..][..i - 1] + devices[1..][i..];
    }
  }

  lemma AttachedAdds(nic: Nic, h: Handle, leaked: Counts)
    requires AddsWith(nic, h, leaked)
    ensures Adds(Attached(nic, h), leaked)
  {
    hide Sum, Place;
    var i, nic' := Place(nic.devices, h.priority), Attached(nic, h);
    assert nic'.devices[..i] + nic'.devices[i + 1..] == nic.devices && nic'.devices[i] == h;
    SumAt(nic'.devices, i, Unicast);
    SumAt(nic'.devices, i, Multicast);
    forall j | 0 <= j < |nic'.devices|
      ensures nic'.devices[j].counts.NonNegative()
    {
      assert j == i || nic'.devices[j] == nic.devices[if j < i then j else j - 1];
    }
  }

  lemma AttachedOrdered(nic: Nic, h: Handle)
    requires Sorted(nic.devices) && h.stamp < nic.nextStamp
    requires forall i :: 0 <= i < |nic.devices| ==> nic.devices[i].stamp < h.stamp
    ensures Ordered(Attached(nic, h))
  {
    var at, nic' := Place(nic.devices, h.priority), Attached(nic, h);
    forall i, j | 0 <= i < j < |nic'.devices|
      ensures Before(nic'.devices[i], nic'.devices[j])
    {
      var i0, j0 := if i < at then i else i - 1, if j < at then j else j - 1;
      if i == at {
        assert at == j0 || Before(nic.devices[at], nic.devices[j0]);
      } else if j != at {
        assert Before(nic.devices[i0], nic.devices[j0]);
      }
    }
  }

  lemma DroppedAdds(nic: Nic, h: Handle, leaked: Counts)
    requires AddsWith(nic, h, leaked)
    ensures Adds(Dropped(nic, h), leaked)
  {
    hide Sum, Counted;
    SumNonNegative(nic.devices, Unicast);
    SumNonNegative(nic.devices, Multicast);
  }

  /** Without the i-th device, its counts are held besides the others'. */
  lemma WithoutAdds(nic: Nic, leaked: Counts, i: nat)
    requires Adds(nic, leaked) && i < |nic.devices|
    ensures AddsWith(nic.(devices := nic.devices[..i] + nic.devices[i + 1..]), nic.devices[i], leaked)
  {
    hide Sum;
    assert nic.devices[i].counts.NonNegative();
    SumAt(nic.devices, i, Unicast);
    SumAt(nic.devices, i, Multicast);
  }

  lemma WithAdds(nic: Nic, leaked: Counts, i: nat, h: Handle)
    requires i < |nic.devices|
    requires AddsWith(nic.(devices := nic.devices[..i] + nic.devices[i + 1..]), h, leaked)
    ensures Adds(nic.(devices := nic.devices[i := h]), leaked)
  {
    hide Sum;
    var all, rest := nic.devices[i := h], nic.devices[..i] + nic.devices[i + 1..];
    SumAt(all, i, Unicast);
    SumAt(all, i, Multicast);
    assert all[..i] + all[i + 1..] == rest;
    forall j | 0 <= j < |all|
      ensures all[j].counts.NonNegative()
    {
      if j != i {
        assert all[j] == rest[if j < i then j else j - 1];
      }
    }
  }

  // ----- Runs

  datatype Op =
    | OpTryAdd(d: Driver, p: Probe)
    | OpDel(i: nat, calls: seq<Call>)
    | OpCall(j: nat, c: Call)

  /** The i-th device makes a call. */
  function Called(nic: Nic, i: nat, c: Call): Nic
    requires i < |nic.devices|
  {
    var (nic', h) := OneCall(nic, nic.devices[i], c);
    nic'.(devices := nic.devices[i := h])
  }

  function Apply(nic: Nic, op: Op): Nic
  {
    match op
    case OpTryAdd(d, p) => TryAdd(nic, d, p)
    case OpDel(i, calls) => if i < |nic.devices| then Del(nic, i, calls) else nic
    case OpCall(j, c) => if j < |nic.devices| then Called(nic, j, c) else nic
  }

  /** What a probe holds at its end. */
  function ProbeHolds(nic: Nic, d: Driver, p: Probe): Counts
  {
    Calls(nic.(nextStamp := nic.nextStamp + 1), Fresh(nic, d), p.calls).1.counts
  }

  /** The blocks an operation leaves to nobody: those of a probe that fails. */
  function Leak(nic: Nic, op: Op): Counts
  {
    if op.OpTryAdd? && op.p.possible && op.p.rc != 0 then ProbeHolds(nic, op.d, op.p) else ZERO
  }

  lemma ProbeAdds(nic: Nic, leaked: Counts, d: Driver, p: Probe)
    requires Inv(nic, leaked)
    ensures var (nic', h) := Calls(nic.(nextStamp := nic.nextStamp + 1), Fresh(nic, d), p.calls);
            && AddsWith(nic', h, leaked) && nic'.devices == nic.devices && nic'.nextStamp == nic.nextStamp + 1
            && h.stamp == nic.nextStamp && h.priority == d.priority
  {
    hide Sum, Calls;
    CallsAdd(nic.(nextStamp := nic.nextStamp + 1), Fresh(nic, d), leaked, p.calls);
  }

  lemma TryAddKeeps(nic: Nic, leaked: Counts, d: Driver, p: Probe)
    requires Inv(nic, leaked)
    ensures Inv(TryAdd(nic, d, p), leaked.Plus(Leak(nic, OpTryAdd(d, p))))
  {
    hide Adds, Calls, Attached;
    if p.possible {
      ProbeAdds(nic, leaked, d, p);
      var (nic', h) := Calls(nic.(nextStamp := nic.nextStamp + 1), Fresh(nic, d), p.calls);
      if p.rc == 0 {
        AttachedAdds(nic', h, leaked);
        AttachedOrdered(nic', h);
      } else {
        assert h.counts.Plus(leaked) == leaked.Plus(h.counts);
      }
    }
  }

  /** The counts still add up after a probe that failed exactly when the probe gave back
      every block it took: the handle is freed without doing so. */
  lemma FailedProbeIff(nic: Nic, d: Driver, p: Probe)
    requires Inv(nic, ZERO) && p.possible && p.rc != 0
    ensures Adds(TryAdd(nic, d, p), ZERO) <==> ProbeHolds(nic, d, p) == ZERO
  {
    hide Sum, Calls, Counted;
    ProbeAdds(nic, ZERO, d, p);
  }

  /** A probe that blocks unicast and then fails leaves a block nobody holds. */
  lemma FailedProbeLeaks(nic: Nic, d: Driver, rc: int)
    requires Inv(nic, ZERO) && nic.devices == [] && rc != 0
    ensures var r := TryAdd(nic, d, Probe(true, [CallBlock(Unicast, 0)], rc));
            r.devices == [] && r.counts == Counts(1, 0) && Unicast in r.blocked
  {
    var (nic', h) := Block(nic.(nextStamp := nic.nextStamp + 1), Fresh(nic, d), Unicast, 0);
    assert Calls(nic', h, []) == (nic', h);
  }

  lemma RemoveOrdered(nic: Nic, i: nat)
    requires Ordered(nic) && i < |nic.devices|
    ensures Ordered(nic.(devices := nic.devices[..i] + nic.devices[i + 1..]))
  {
    var rest := nic.devices[..i] + nic.devices[i + 1..];
    forall a, b | 0 <= a < b < |rest|
      ensures Before(rest[a], rest[b])
    {
      assert Before(nic.devices[if a < i then a else a + 1], nic.devices[if b < i then b else b + 1]);
    }
  }

  /** A call does not look at the device list. */
  lemma {:induction false} CallsIgnoreList(nic: Nic, h: Handle, calls: seq<Call>, devices: seq<Handle>)
    ensures var (nic', h') := Calls(nic, h, calls);
            Calls(nic.(devices := devices), h, calls) == (nic'.(devices := devices), h')
    decreases |calls|
  {
    if calls == [] {
    } else {
      var (nic', h') := OneCall(nic, h, calls[0]);
      assert OneCall(nic.(devices := devices), h, calls[0]) == (nic'.(devices := devices), h');
      hide OneCall;
      CallsIgnoreList(nic', h', calls[1..], devices);
    }
  }

  lemma DelKeeps(nic: Nic, leaked: Counts, i: nat, calls: seq<Call>)
    requires Inv(nic, leaked) && i < |nic.devices|
    ensures Inv(Del(nic, i, calls), leaked)
  {
    hide Adds, AddsWith, Calls, Ordered, Dropped;
    var rest := nic.devices[..i] + nic.devices[i + 1..];
    var less := nic.(devices := rest);
    WithoutAdds(nic, leaked, i);
    RemoveOrdered(nic, i);
    CallsIgnoreList(nic, nic.devices[i], calls, rest);
    CallsAdd(less, nic.devices[i], leaked, calls);
    var (less', h) := Calls(less, nic.devices[i], calls);
    DroppedAdds(less', h, leaked);
    assert Ordered(Dropped(less', h)) by { DroppedOrdered(less', h, less); }
  }

  lemma DroppedOrdered(nic: Nic, h: Handle, was: Nic)
    requires Ordered(was) && nic.devices == was.devices && nic.nextStamp == was.nextStamp
    ensures Ordered(Dropped(nic, h))
  {
  }

  lemma CalledKeeps(nic: Nic, leaked: Counts, i: nat, c: Call)
    requires Inv(nic, leaked) && i < |nic.devices|
    ensures Inv(Called(nic, i, c), leaked)
  {
    hide Adds, AddsWith, OneCall;
    var rest := nic.devices[..i] + nic.devices[i + 1..];
    var less := nic.(devices := rest);
    WithoutAdds(nic, leaked, i);
    CallIgnoresList(nic, nic.devices[i], c, rest);
    CallAdds(less, nic.devices[i], leaked, c);
    var (less', h) := OneCall(less, nic.devices[i], c);
    WithAdds(less'.(devices := nic.devices), leaked, i, h);
    var all := nic.devices[i := h];
    assert forall a :: 0 <= a < |all| ==>
      all[a].priority == nic.devices[a].priority && all[a].stamp == nic.devices[a].stamp;
  }

  lemma CallIgnoresList(nic: Nic, h: Handle, c: Call, devices: seq<Handle>)
    ensures var (nic', h') := OneCall(nic, h, c);
            OneCall(nic.(devices := devices), h, c) == (nic'.(devices := devices), h')
  {
  }

  /** Every operation adds to what nobody holds exactly what its probe leaves behind. */
  lemma ApplyKeeps(nic: Nic, leaked: Counts, op: Op)
    requires Inv(nic, leaked)
    ensures Inv(Apply(nic, op), leaked.Plus(Leak(nic, op)))
  {
    hide Inv, TryAdd, Del, Called, ProbeHolds;
    assert leaked.Plus(ZERO) == leaked;
    match op
    case OpTryAdd(d, p) => TryAddKeeps(nic, leaked, d, p);
    case OpDel(i, calls) => if i < |nic.devices| { DelKeeps(nic, leaked, i, calls); }
    case OpCall(j, c) => if j < |nic.devices| { CalledKeeps(nic, leaked, j, c); }
  }

  function Run(nic: Nic, ops: seq<Op>): Nic
    decreases |ops|
  {
    if ops == [] then nic else Run(Apply(nic, ops[0]), ops[1..])
  }

  /** What all the probes that failed in a run left to nobody. */
  function Leaked(nic: Nic, ops: seq<Op>): Counts
    decreases |ops|
  {
    if ops == [] then ZERO else Leak(nic, ops[0]).Plus(Leaked(Apply(nic, ops[0]), ops[1..]))
  }

  /** Over every run the NIC's counts are the sums of its clients' counts and of what
      failed probes left behind, the kernel is blocked exactly while a count is positive, and the
      device list is in order. */
  lemma {:induction false} RunKeeps(nic: Nic, leaked: Counts, ops: seq<Op>)
    requires Inv(nic, leaked)
    ensures Inv(Run(nic, ops), leaked.Plus(Leaked(nic, ops)))
    decreases |ops|
  {
    hide Inv, Apply, Leak;
    if ops == [] {
      assert leaked.Plus(ZERO) == leaked;
    } else {
      var next, more := Apply(nic, ops[0]), leaked.Plus(Leak(nic, ops[0]));
      ApplyKeeps(nic, leaked, ops[0]);
      RunKeeps(next, more, ops[1..]);
      assert more.Plus(Leaked(next, ops[1..])) == leaked.Plus(Leaked(nic, ops));
    }
  }

  /** Over a run from a new NIC the counts are the sums of the clients' counts exactly when
      the probes that failed gave back, in all, every block they took. */
  lemma SumsIff(nic: Nic, ops: seq<Op>)
    requires nic.devices == [] && nic.counts == ZERO && nic.blocked == {}
    ensures var r := Run(nic, ops);
            && (Adds(r, ZERO) <==> Leaked(nic, ops) == ZERO)
            && (Unicast in r.blocked <==> r.counts.unicast > 0) && (Multicast in r.blocked <==> r.counts.multicast > 0)
            && Ordered(r)
  {
    hide Sum, Counted, Run, Leaked, Ordered;
    NewNicInv(nic);
    RunKeeps(nic, ZERO, ops);
  }

  lemma NewNicInv(nic: Nic)
    requires nic.devices == [] && nic.counts == ZERO && nic.blocked == {}
    ensures Inv(nic, ZERO)
  {
    assert Sum(nic.devices, Unicast) == 0;
    assert Sum(nic.devices, Multicast) == 0;
  }

  // ----- Who has asked for what

  /** A client's account after a call: a block counts where the kernel is blocked already or the hook
      agrees, an unblock where the client has something to give back. */
  function Account(blocked: set<Kind>, held: Counts, c: Call): Counts
  {
    match c
    case CallBlock(k, hookRc) => if k in blocked || hookRc == 0 then held.With(k, held.Of(k) + 1) else held
    case CallUnblock(k) => if held.Of(k) > 0 then held.With(k, held.Of(k) - 1) else held
  }

  /** A call moves the caller's count as its account says, and the NIC's count with it. */
  lemma CallAccounts(nic: Nic, h: Handle, leaked: Counts, c: Call, k: Kind)
    requires AddsWith(nic, h, leaked)
    ensures var (nic', h') := OneCall(nic, h, c);
            && h' == h.(counts := Account(nic.blocked, h.counts, c))
            && nic'.counts.Of(k) - nic.counts.Of(k) == h'.counts.Of(k) - h.counts.Of(k)
            && (k in nic'.blocked <==> nic'.counts.Of(k) > 0)
            && (h'.counts.Of(k) > 0 ==> k in nic'.blocked)
  {
    hide Sum, Counted;
    SumNonNegative(nic.devices, Unicast);
    SumNonNegative(nic.devices, Multicast);
  }

  /** The account of a client that makes several calls. */
  function AccountAll(nic: Nic, h: Handle, held: Counts, calls: seq<Call>): Counts
    decreases |calls|
  {
    if calls == [] then held
    else
      var (nic', h') := OneCall(nic, h, calls[0]);
      AccountAll(nic', h', Account(nic.blocked, held, calls[0]), calls[1..])
  }

  lemma {:induction false} CallsAccount(nic: Nic, h: Handle, leaked: Counts, calls: seq<Call>)
    requires AddsWith(nic, h, leaked)
    ensures Calls(nic, h, calls).1 == h.(counts := AccountAll(nic, h, h.counts, calls))
    decreases |calls|
  {
    hide AddsWith, OneCall, Account;
    if calls == [] {
    } else {
      var (nic', h') := OneCall(nic, h, calls[0]);
      CallAdds(nic, h, leaked, calls[0]);
      CallAccounts(nic, h, leaked, calls[0], Unicast);
      CallsAccount(nic', h', leaked, calls[1..]);
    }
  }

  /** The accounts of all clients there ever were, by stamp, after an operation. */
  function Booked(nic: Nic, ledger: map<nat, Counts>, op: Op): map<nat, Counts>
  {
    match op
    case OpTryAdd(d, p) =>
      if !p.possible then ledger
      else ledger[nic.nextStamp := AccountAll(nic.(nextStamp := nic.nextStamp + 1), Fresh(nic, d), ZERO, p.calls)]
    case OpDel(_, _) => ledger
    case OpCall(j, c) =>
      if j < |nic.devices| && nic.devices[j].stamp in ledger then
        ledger[nic.devices[j].stamp := Account(nic.blocked, ledger[nic.devices[j].stamp], c)]
      else ledger
  }

  function Ledger(nic: Nic, ledger: map<nat, Counts>, ops: seq<Op>): map<nat, Counts>
    decreases |ops|
  {
    if ops == [] then ledger else Ledger(Apply(nic, ops[0]), Booked(nic, ledger, ops[0]), ops[1..])
  }

  /** Attached clients have different stamps, and each has the count of its account. */
  ghost predicate Settled(devices: seq<Handle>, ledger: map<nat, Counts>)
  {
    && (forall i :: 0 <= i < |devices| ==> devices[i].stamp in ledger && devices[i].counts == ledger[devices[i].stamp])
    && forall i, j :: 0 <= i < j < |devices| ==> devices[i].stamp != devices[j].stamp
  }

  lemma TryAddSettles(nic: Nic, leaked: Counts, ledger: map<nat, Counts>, d: Driver, p: Probe)
    requires Inv(nic, leaked) && Settled(nic.devices, ledger)
    ensures Settled(TryAdd(nic, d, p).devices, Booked(nic, ledger, OpTryAdd(d, p)))
  {
    hide Inv, Calls, AccountAll, Place, Settled;
    if p.possible {
      var nic1, h1 := nic.(nextStamp := nic.nextStamp + 1), Fresh(nic, d);
      ProbeAdds(nic, leaked, d, p);
      FreshAdds(nic, leaked, d);
      CallsAccount(nic1, h1, leaked, p.calls);
      var (nic', h) := Calls(nic1, h1, p.calls);
      OneMoreSettles(nic.devices, ledger, Place(nic.devices, h.priority), h) by { StampsBelow(nic, leaked); }
    }
  }

  lemma StampsBelow(nic: Nic, leaked: Counts)
    requires Inv(nic, leaked)
    ensures forall i :: 0 <= i < |nic.devices| ==> nic.devices[i].stamp < nic.nextStamp
  {
  }

  lemma OneMoreSettles(devices: seq<Handle>, ledger: map<nat, Counts>, i: nat, h: Handle)
    requires Settled(devices, ledger) && i <= |devices|
    requires forall j :: 0 <= j < |devices| ==> devices[j].stamp < h.stamp
    ensures Settled(devices, ledger[h.stamp := h.counts])
    ensures Settled(devices[..i] + [h] + devices[i..], ledger[h.stamp := h.counts])
  {
  }

  lemma FreshAdds(nic: Nic, leaked: Counts, d: Driver)
    requires Inv(nic, leaked)
    ensures AddsWith(nic.(nextStamp := nic.nextStamp + 1), Fresh(nic, d), leaked)
  {
  }

  lemma CalledSettles(nic: Nic, leaked: Counts, ledger: map<nat, Counts>, i: nat, c: Call)
    requires Inv(nic, leaked) && Settled(nic.devices, ledger) && i < |nic.devices|
    ensures Settled(Called(nic, i, c).devices, Booked(nic, ledger, OpCall(i, c)))
  {
    hide Adds, AddsWith, OneCall, Account;
    var rest := nic.devices[..i] + nic.devices[i + 1..];
    WithoutAdds(nic, leaked, i);
    CallIgnoresList(nic, nic.devices[i], c, rest);
    CallAccounts(nic.(devices := rest), nic.devices[i], leaked, c, Unicast);
  }

  lemma {:induction false} RunSettles(nic: Nic, leaked: Counts, ledger: map<nat, Counts>, ops: seq<Op>)
    requires Inv(nic, leaked) && Settled(nic.devices, ledger)
    ensures Settled(Run(nic, ops).devices, Ledger(nic, ledger, ops))
    decreases |ops|
  {
    hide Inv, Settled, TryAdd, Del, Called, Booked, Leak;
    if ops == [] {
    } else {
      var op := ops[0];
      ApplyKeeps(nic, leaked, op);
      match op {
        case OpTryAdd(d, p) => TryAddSettles(nic, leaked, ledger, d, p);
        case OpDel(i, calls) => DelSettles(nic, ledger, i, calls);
        case OpCall(j, c) => CallSettles(nic, leaked, ledger, j, c);
      }
      RunSettles(Apply(nic, op), leaked.Plus(Leak(nic, op)), Booked(nic, ledger, op), ops[1..]);
    }
  }

  lemma DelSettles(nic: Nic, ledger: map<nat, Counts>, i: nat, calls: seq<Call>)
    requires Settled(nic.devices, ledger)
    ensures Settled(Apply(nic, OpDel(i, calls)).devices, Booked(nic, ledger, OpDel(i, calls)))
  {
    hide Del;
    if i < |nic.devices| {
      DelShortens(nic, i, calls);
    }
  }

  lemma CallSettles(nic: Nic, leaked: Counts, ledger: map<nat, Counts>, j: nat, c: Call)
    requires Inv(nic, leaked) && Settled(nic.devices, ledger)
    ensures Settled(Apply(nic, OpCall(j, c)).devices, Booked(nic, ledger, OpCall(j, c)))
  {
    hide Inv, Called;
    if j < |nic.devices| {
      CalledSettles(nic, leaked, ledger, j, c);
    }
  }

  /** Over every run from a new NIC, whatever other clients do, an attached client's count of a kind is its
      accepted blocks less its accepted unblocks, and the kernel is kept out of that kind for
      as long as that is positive. */
  lemma BlockedWhileHeld(nic: Nic, ops: seq<Op>, i: nat, k: Kind)
    requires nic.devices == [] && nic.counts == ZERO && nic.blocked == {} && i < |Run(nic, ops).devices|
    ensures var r, ledger := Run(nic, ops), Ledger(nic, map[], ops);
            var h := r.devices[i];
            && h.stamp in ledger && h.counts == ledger[h.stamp]
            && (ledger[h.stamp].Of(k) > 0 ==> k in r.blocked)
  {
    hide Run, Ledger, Leaked, Ordered, Adds;
    NewNicInv(nic);
    RunKeeps(nic, ZERO, ops);
    RunSettles(nic, ZERO, map[], ops);
    if Run(nic, ops).devices[i].counts.Of(k) > 0 {
      HeldIsBlocked(Run(nic, ops), ZERO.Plus(Leaked(nic, ops)), i, k);
    }
  }

  lemma HeldIsBlocked(nic: Nic, leaked: Counts, i: nat, k: Kind)
    requires Adds(nic, leaked) && i < |nic.devices| && nic.devices[i].counts.Of(k) > 0
    ensures k in nic.blocked
  {
    hide Sum;
    var rest := nic.devices[..i] + nic.devices[i + 1..];
    assert AddsFor(nic, leaked, k);
    assert Sum(rest, k) >= 0 by {
      WithoutAdds(nic, leaked, i);
      SumNonNegative(rest, k);
    }
    SumAt(nic.devices, i, k);
  }

  /** A probe that succeeds attaches its driver, with its priority and what it holds, among the others, and one
      that fails or is not possible attaches nothing. */
  lemma TryAddOutcome(nic: Nic, leaked: Counts, d: Driver, p: Probe)
    requires Inv(nic, leaked)
    ensures var devices := TryAdd(nic, d, p).devices;
            var h := Handle(d.id, d.priority, nic.nextStamp, ProbeHolds(nic, d, p));
            if p.possible && p.rc == 0
            then exists i :: 0 <= i <= |nic.devices| && devices == nic.devices[..i] + [h] + nic.devices[i..]
            else devices == nic.devices
  {
    hide Adds, Calls, Place;
    if p.possible {
      ProbeAdds(nic, leaked, d, p);
      CallsAdd(nic.(nextStamp := nic.nextStamp + 1), Fresh(nic, d), leaked, p.calls) by { FreshAdds(nic, leaked, d); }
    }
  }

  /** efx_dl_unregister_nic: the devices are removed from the last to the first. */
  function Unregistered(nic: Nic, calls: seq<seq<Call>>): Nic
    requires |calls| == |nic.devices|
    decreases |nic.devices|
  {
    var n := |nic.devices|;
    if n == 0 then nic
    else
      var nic' := Del(nic, n - 1, calls[n - 1]);
      assert |nic'.devices| == n - 1 by { DelShortens(nic, n - 1, calls[n - 1]); }
      Unregistered(nic', calls[..n - 1])
  }

  lemma DelShortens(nic: Nic, i: nat, calls: seq<Call>)
    requires i < |nic.devices|
    ensures Del(nic, i, calls).devices == nic.devices[..i] + nic.devices[i + 1..]
  {
  }

  /** Once all its clients are gone a NIC has only the blocks that failed probes left
      behind, and the kernel receives exactly where there are none. */
  lemma {:induction false} UnregisterReleases(nic: Nic, leaked: Counts, calls: seq<seq<Call>>)
    requires Inv(nic, leaked) && |calls| == |nic.devices|
    ensures var r := Unregistered(nic, calls);
            && r.devices == [] && r.counts == leaked
            && (Unicast in r.blocked <==> leaked.unicast > 0) && (Multicast in r.blocked <==> leaked.multicast > 0)
    decreases |nic.devices|
  {
    hide Del;
    var n := |nic.devices|;
    if n == 0 {
      assert Sum(nic.devices, Unicast) == 0 == Sum(nic.devices, Multicast);
    } else {
      DelKeeps(nic, leaked, n - 1, calls[n - 1]);
      DelShortens(nic, n - 1, calls[n - 1]);
      UnregisterReleases(Del(nic, n - 1, calls[n - 1]), leaked, calls[..n - 1]);
    }
  }

  // ----- Filter ids

  const PRI_SHIFT: nat := 28
  const ID_MASK_PLUS_1: nat := 0x1000_0000

  /** The id given to the client: the table's id with the priority above it. */
  function Tag(id: nat, priority: nat): nat { Or(id, priority * ID_MASK_PLUS_1) }

  /** What remove takes apart again: priority and id. */
  function Untag(tagged: nat): (nat, nat) { (tagged / ID_MASK_PLUS_1, tagged % ID_MASK_PLUS_1) }

  /** Removing passes on the priority and id given at insertion exactly when the id fits
      below the priority, which is only warned about. */
  lemma TagRoundTrip(id: nat, priority: nat)
    ensures Untag(Tag(id, priority)) == (priority, id) <==> id < ID_MASK_PLUS_1
  {
    hide Or, Pow2;
    if id < ID_MASK_PLUS_1 {
      assert Pow2(PRI_SHIFT) == ID_MASK_PLUS_1 by { MaskIsPow2(); }
      OrDisjoint(priority, PRI_SHIFT, id);
      OrCommutes(id, priority * ID_MASK_PLUS_1);
      DivModUnique(priority * ID_MASK_PLUS_1 + id, priority, id, ID_MASK_PLUS_1);
    }
  }

  lemma MaskIsPow2()
    ensures Pow2(PRI_SHIFT) == ID_MASK_PLUS_1
  {
    assert Pow2(6) == 64;
    assert Pow2(12) == 64 * 64;
    assert Pow2(18) == 64 * 64 * 64;
    assert Pow2(24) == 64 * 64 * 64 * 64;
  }
}
