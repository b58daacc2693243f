/** A NIC's side of driverlink, updated in place. */
module DriverlinkImpl {
  import opened Driverlink

  class NicLink {
    var devices: seq<Handle>
    var counts: Counts
    /** What the NIC's block and unblock hooks have been told. */
    var blocked: set<Kind>
    var nextStamp: nat
    /** Blocks that nobody holds, left behind by probes that failed. */
    ghost var leaked: Counts

    ghost predicate Valid()
      reads this
    {
      Inv(Value(), leaked)
    }

    ghost function Value(): Nic
      reads this
    {
      Nic(devices, counts, blocked, nextStamp)
    }

    constructor ()
      ensures Valid() && devices == [] && leaked == ZERO
    {
      devices, counts, blocked, nextStamp, leaked := [], Counts(0, 0), {}, 0, ZERO;
      new;
      NewNicInv(Value());
    }

    /** `hookRc` is what the hook answers if it is called; the result is assigned only
        then, and `unset` stands for whatever it holds otherwise. */
    method BlockKernel(h: Handle, k: Kind, hookRc: int, unset: int) returns (h': Handle, rc: int)
      modifies `counts, `blocked
      ensures (Value(), h') == Block(old(Value()), h, k, hookRc)
      ensures rc == if old(counts).Of(k) == 0 then hookRc else unset
    {
      rc := unset;
      if counts.Of(k) == 0 {
        rc := hookRc;
        if rc != 0 {
          return h, rc;
        }
        blocked := blocked + {k};
      }
      h' := h.(counts := h.counts.With(k, h.counts.Of(k) + 1));
      counts := counts.With(k, counts.Of(k) + 1);
    }

    method UnblockKernel(h: Handle, k: Kind) returns (h': Handle)
      modifies `counts, `blocked
      ensures (Value(), h') == Unblock(old(Value()), h, k)
    {
      if h.counts.Of(k) == 0 {
        return h;
      }
      h' := h.(counts := h.counts.With(k, h.counts.Of(k) - 1));
      counts := counts.With(k, counts.Of(k) - 1);
      if counts.Of(k) == 0 {
        blocked := blocked - {k};
      }
    }

    /** A client's callback calling back. */
    method Callback(h: Handle, calls: seq<Call>) returns (h': Handle)
      modifies `counts, `blocked
      ensures (Value(), h') == Calls(old(Value()), h, calls)
    {
      hide Block, Unblock;
      h' := h;
      for i := 0 to |calls|
        invariant Calls(Value(), h', calls[i..]) == Calls(old(Value()), h, calls)
      {
        assert calls[i..][0] == calls[i] && calls[i..][1..] == calls[i + 1..];
        match calls[i]
        case CallBlock(k, hookRc) =>
          var rc;
          h', rc := BlockKernel(h', k, hookRc, 0);
        case CallUnblock(k) => h' := UnblockKernel(h', k);
      }
    }

    method TryAddDevice(d: Driver, p: Probe)
      requires Valid()
      modifies this
      ensures Value() == TryAdd(old(Value()), d, p) && Valid()
      ensures leaked == old(leaked).Plus(Leak(old(Value()), OpTryAdd(d, p)))
    {
      hide Calls, Inv, Leak, Place;
      TryAddKeeps(Value(), leaked, d, p);
      leaked := leaked.Plus(Leak(Value(), OpTryAdd(d, p)));
      if !p.possible {
        return;
      }
      var h := Handle(d.id, d.priority, nextStamp, Counts(0, 0));
      nextStamp := nextStamp + 1;
      h := Callback(h, p.calls);
      if p.rc != 0 {
        return;
      }
      var i := 0;
      while i < |devices| && devices[i].priority <= d.priority
        invariant i <= |devices| && forall j :: 0 <= j < i ==> devices[j].priority <= d.priority
      {
        i := i + 1;
      }
      assert i == Place(devices, h.priority) by {
        CallsKeepHandle(old(Value()).(nextStamp := nextStamp), Fresh(old(Value()), d), p.calls);
      }
      devices := devices[..i] + [h] + devices[i..];
    }

    /** Gives back the blocks of a handle that is off the list. */
    method DropCounts(h: Handle)
      modifies `counts, `blocked
      ensures Value() == Dropped(old(Value()), h)
    {
      var kinds := [Unicast, Multicast];
      for t := 0 to 2
        invariant t == 0 ==> Value() == old(Value())
        invariant t == 1 ==>
          Value() == if h.counts.unicast != 0 then Release(old(Value()), Unicast, h.counts.unicast) else old(Value())
        invariant t == 2 ==> Value() == Dropped(old(Value()), h)
      {
        var k := kinds[t];
        if h.counts.Of(k) != 0 {
          counts := counts.With(k, counts.Of(k) - h.counts.Of(k));
          if counts.Of(k) == 0 {
            blocked := blocked - {k};
          }
        }
      }
    }

    method DelDevice(i: nat, calls: seq<Call>)
      requires Valid() && i < |devices|
      modifies this
      ensures Value() == Del(old(Value()), i, calls) && Valid() && leaked == old(leaked)
    {
      hide Calls, Inv, Dropped;
      DelKeeps(Value(), leaked, i, calls);
      var h := Callback(devices[i], calls);
      devices := devices[..i] + devices[i + 1..];
      DropCounts(h);
    }

    /** Removes every client, the last one first. */
    method UnregisterNic(calls: seq<seq<Call>>)
      requires |calls| == |devices| && Valid()
      modifies this
      ensures Value() == Unregistered(old(Value()), calls)
      ensures devices == [] && counts == old(leaked)
      ensures (Unicast in blocked <==> counts.unicast > 0) && (Multicast in blocked <==> counts.multicast > 0)
    {
      hide Inv, Del;
      UnregisterReleases(Value(), leaked, calls);
      var n := |devices|;
      assert calls[..n] == calls;
      while n > 0
        invariant n == |devices| <= |calls| && Valid() && leaked == old(leaked)
        invariant Unregistered(Value(), calls[..n]) == Unregistered(old(Value()), calls)
      {
        assert calls[..n][..n - 1] == calls[..n - 1];
        DelShortens(Value(), n - 1, calls[n - 1]);
        DelDevice(n - 1, calls[n - 1]);
        n := n - 1;
      }
    }
  }

  lemma {:induction false} CallsKeepHandle(nic: Nic, h: Handle, calls: seq<Call>)
    ensures Calls(nic, h, calls).1.priority == h.priority
    decreases |calls|
  {
    if calls == [] {
    } else {
      var (nic', h') := OneCall(nic, h, calls[0]);
      CallsKeepHandle(nic', h', calls[1..]);
    }
  }
}
