/** The critical sections of the UDP tunnel code over its array of slots.  Each
    method computes the step of the same name in UdpTunnel. */
module UdpTunnelImpl {
  import opened Common
  import opened UdpTunnel

  class Tunnels {
    const slots: array<Slot>
    var busy: bool
    var sent: seq<Option<Tunnel>>
    var scheduled: bool
    // The rest of the system, for the specification.
    ghost var starting: nat
    ghost var last: Last
    ghost var hw: set<Tunnel>
    ghost var disturbed: bool

    ghost function Value(): State
      reads this, slots
    {
      State(slots[..], busy, sent, scheduled, starting, last, hw, disturbed)
    }

    constructor ()
      ensures fresh(slots) && slots.Length == SLOTS && Value() == INITIAL
    {
      slots := new Slot[SLOTS](_ => Slot(Tunnel(0, 0), 0, false, false));
      busy, sent, scheduled := false, [], false;
      starting, last, hw, disturbed := 0, Succeeded, {}, false;
      new;
      assert slots[..] == INITIAL.slots;
    }

    method LookupPort(port: nat) returns (m: nat)
      ensures m == Lookup(slots[..], port, 0)
    {
      m := 0;
      while m < slots.Length && !(slots[m].count != 0 && slots[m].tnl.port == port)
        invariant m <= slots.Length
        invariant Lookup(slots[..], port, 0) == Lookup(slots[..], port, m)
      {
        m := m + 1;
      }
    }

    method AddTunnel(tnl: Tunnel)
      modifies this, slots
      ensures Value() == AddPort(old(Value()), tnl)
    {
      var m := LookupPort(tnl.port);
      if m < slots.Length {
        if slots[m].tnl.kind == tnl.kind {
          if slots[m].count < COUNT_MAX {
            slots[m] := slots[m].(count := slots[m].count + 1);
          }
          if slots[m].removing {
            slots[m] := slots[m].(removing := false);
            slots[m] := slots[m].(adding := true);
          }
          assert slots[..] == old(slots[..])[m := Referenced(old(slots[m]))];
        }
        return;
      }
      var i := 0;
      while i < slots.Length
        invariant i <= slots.Length
        invariant Value() == old(Value())
        invariant FreeSlot(slots[..], 0) == FreeSlot(slots[..], i)
      {
        if slots[i].count == 0 && !slots[i].adding && !slots[i].removing {
          slots[i] := Slot(tnl, 1, true, false);
          scheduled := true;
          disturbed := true;
          assert slots[..] == old(slots[..])[i := Slot(tnl, 1, true, false)];
          return;
        }
        i := i + 1;
      }
    }

    method DelTunnel(tnl: Tunnel)
      modifies this, slots
      ensures Value() == DelPort(old(Value()), tnl)
    {
      var m := LookupPort(tnl.port);
      if m < slots.Length && slots[m].tnl.kind == tnl.kind {
        assert slots[m].count != 0;
        if slots[m].count != COUNT_MAX {
          slots[m] := slots[m].(count := slots[m].count - 1);
        }
        if slots[m].count != 0 {
          assert slots[..] == old(slots[..])[m := slots[m]];
          return;
        }
        if slots[m].adding {
          slots[m] := slots[m].(adding := false);
        }
        slots[m] := slots[m].(removing := true);
        scheduled := true;
        disturbed := true;
        assert slots[..] == old(slots[..])[m := Slot(old(slots[m]).tnl, 0, false, true)];
      }
    }

    /** Build the list of ports in use and mark the push as running. */
    method SendList()
      modifies this
      ensures Value() == Send(old(Value()))
    {
      var list: seq<Option<Tunnel>> := [];
      var i := 0;
      while i < slots.Length
        invariant i <= slots.Length
        invariant Value() == old(Value())
        invariant |list| == i && forall k :: 0 <= k < i ==> list[k] == Sent(slots[k])
      {
        var tnl := slots[i];
        list := list + [if tnl.count != 0 && !tnl.removing && tnl.tnl.port != 0 then Some(tnl.tnl) else None];
        i := i + 1;
      }
      busy := true;
      sent := list;
      disturbed := false;
      assert list == SentList(slots[..]);
    }

    method TakeLock()
      requires starting > 0
      modifies this
      ensures Value() == Begin(old(Value()))
    {
      starting := starting - 1;
      if !busy {
        SendList();
      }
    }

    /** The lock is taken again with the firmware's reply in hand. */
    method HandleReply(reply: Reply)
      requires |sent| == slots.Length
      modifies this, slots
      ensures Value() == Finish(old(Value()), reply)
    {
      match reply
      case Ok =>
        var done := SettleMarks();
        hw := Listed(sent);
        if !done {
          SendList();
          return;
        }
        busy := false;
        last := Succeeded;
      case Eio =>
        MarkAllAbsent();
        busy := false;
        last := Failed;
        hw := {};
      case Error(hw') =>
        busy := false;
        last := Failed;
        hw := hw';
    }

    /** Mark the adds and removes as done; whether nothing is left to do. */
    method SettleMarks() returns (done: bool)
      requires |sent| == slots.Length
      modifies slots
      ensures slots[..] == Settled(old(slots[..]), sent)
      ensures done == !AnyMarked(slots[..])
    {
      done := true;
      var i := 0;
      while i < slots.Length
        invariant i <= slots.Length
        invariant forall k :: 0 <= k < i ==> slots[k] == Settle(old(slots[k]), sent[k])
        invariant forall k :: i <= k < slots.Length ==> slots[k] == old(slots[k])
        invariant done <==> forall k :: 0 <= k < i ==> !Marked(slots[k])
      {
        if sent[i].Some? {
          slots[i] := slots[i].(adding := false);
        } else {
          slots[i] := slots[i].(removing := false);
        }
        if slots[i].adding || slots[i].removing {
          done := false;
        }
        i := i + 1;
      }
      assert slots[..] == Settled(old(slots[..]), sent);
    }

    method MarkAllAbsent()
      modifies slots
      ensures slots[..] == seq(slots.Length, i requires 0 <= i < slots.Length => Rebooted(old(slots[i])))
    {
      var i := 0;
      while i < slots.Length
        invariant i <= slots.Length
        invariant forall k :: 0 <= k < i ==> slots[k] == Rebooted(old(slots[k]))
        invariant forall k :: i <= k < slots.Length ==> slots[k] == old(slots[k])
      {
        if slots[i].count != 0 {
          slots[i] := slots[i].(adding := true);
        }
        slots[i] := slots[i].(removing := false);
        i := i + 1;
      }
    }
  }
}
