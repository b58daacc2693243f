/** Receive completion: the driver rebuilds the NIC's descriptor pointer from the
    four low bits in each event, through scattered packets, merged completions
    and aborts. */
module RxCompletion {
  import opened Common
  import opened Arith

  // Width of the pointer bits in an event.
  const PTR_LBITS := 16

  /** Buffers handed up as one packet (or discarded): `n` descriptors starting at
      ring index `start`. */
  datatype Packet = Packet(start: nat, n: nat, len: nat, discard: bool)

  type Count = n: nat | n < U32

  /** `removed` is removed_count, a 32-bit counter. */
  datatype Queue = Queue(removed: Count, scatterN: nat, scatterLen: nat)

  datatype Event = Event(lbits: nat, cont: bool, bytes: nat)

  datatype Result = Handled(packets: seq<Packet>) | BadPointer

  /** The number of completed descriptors that an event announces. */
  function Announced(q: Queue, lbits: nat): nat { (lbits - q.removed) % PTR_LBITS }

  function Advance(q: Queue, n: nat): Queue { Queue((q.removed + n) % U32, 0, 0) }

  /** `k` packets in a row, of `n` buffers each. */
  function Packets(ring: nat, removed: Count, n: nat, len: nat, k: nat): seq<Packet>
    requires ring > 0
    decreases k
  {
    if k == 0 then [] else [Packet(removed % ring, n, len, false)] + Packets(ring, (removed + n) % U32, n, len, k - 1)
  }

  function Moved(removed: Count, n: nat, k: nat): Count
    decreases k
  {
    if k == 0 then removed else Moved((removed + n) % U32, n, k - 1)
  }

  /** efx_ef10_handle_rx_event, on a ring of `ring` descriptors. */
  function Handle(q: Queue, ring: nat, batching: bool, ev: Event): (Queue, Result)
    requires ring > 0
  {
    var n := Announced(q, ev.lbits);
    if n != q.scatterN + 1 then
      if n == q.scatterN then
        (Advance(q, q.scatterN),
         Handled(if q.scatterN > 0 then [Packet(q.removed % ring, q.scatterN, 0, true)] else []))
      else if !batching || q.scatterN != 0 || ev.cont then (q, BadPointer)
      else (Advance(q, n), Handled(Packets(ring, q.removed, 1, 0, n)))
    else
      var q' := q.(scatterN := q.scatterN + 1, scatterLen := q.scatterLen + ev.bytes);
      if ev.cont then (q', Handled([]))
      else (Advance(q', q'.scatterN), Handled(Packets(ring, q.removed, q'.scatterN, q'.scatterLen, 1)))
  }

  class RxQueue {
    var removed: Count
    var scatterN: nat
    var scatterLen: nat
    const ring: nat
    // What was passed to efx_rx_packet, in order.
    var delivered: seq<Packet>

    ghost function Value(): Queue reads this { Queue(removed, scatterN, scatterLen) }

    constructor (ring: nat)
      ensures this.ring == ring && Value() == Queue(0, 0, 0) && delivered == []
    {
      this.ring := ring;
      removed, scatterN, scatterLen, delivered := 0, 0, 0, [];
    }

    method HandleAbort()
      requires ring > 0
      modifies this
      ensures Value() == Advance(old(Value()), old(scatterN))
      ensures delivered == old(delivered) +
              if old(scatterN) > 0 then [Packet(old(removed) % ring, old(scatterN), 0, true)] else []
    {
      var ptr := removed % ring;
      if scatterN > 0 {
        delivered := delivered + [Packet(ptr, scatterN, 0, true)];
      }
      removed := (removed + scatterN) % U32;
      scatterN := 0;
      scatterLen := 0;
    }

    method HandleEvent(batching: bool, ev: Event) returns (ok: bool)
      requires ring > 0
      modifies this
      ensures var (q, r) := Handle(old(Value()), ring, batching, ev);
              Value() == q && ok == r.Handled? && delivered == old(delivered) + if r.Handled? then r.packets else []
    {
      hide Packets, Moved;
      var nDescs := (ev.lbits - removed) % PTR_LBITS;
      var nPackets;
      if nDescs != scatterN + 1 {
        if nDescs == scatterN {
          HandleAbort();
          return true;
        }
        if !batching || scatterN != 0 || ev.cont {
          return false;
        }
        scatterN := 1;
        scatterLen := 0;
        nPackets := nDescs;
      } else {
        scatterN := scatterN + 1;
        scatterLen := scatterLen + ev.bytes;
        if ev.cont {
          return true;
        }
        nPackets := 1;
      }
      MovedIs(removed, scatterN, nPackets);
      HandPackets(nPackets);
      scatterN := 0;
      scatterLen := 0;
      ok := true;
    }

    /** Hand up packets of the current size, one after the other. */
    method HandPackets(nPackets: nat)
      requires ring > 0
      modifies this`removed, this`delivered
      ensures removed == Moved(old(removed), scatterN, nPackets)
      ensures delivered == old(delivered) + Packets(ring, old(removed), scatterN, scatterLen, nPackets)
    {
      hide Packets, Moved;
      var i := 0;
      while i < nPackets
        invariant i <= nPackets
        invariant Moved(old(removed), scatterN, nPackets) == Moved(removed, scatterN, nPackets - i)
        invariant old(delivered) + Packets(ring, old(removed), scatterN, scatterLen, nPackets) ==
                  delivered + Packets(ring, removed, scatterN, scatterLen, nPackets - i)
      {
        OneMore(ring, removed, scatterN, scatterLen, nPackets - i);
        delivered := delivered + [Packet(removed % ring, scatterN, scatterLen, false)];
        removed := (removed + scatterN) % U32;
        i := i + 1;
      }
      NoMore(ring, removed, scatterN, scatterLen);
    }
  }

  lemma OneMore(ring: nat, removed: Count, n: nat, len: nat, k: nat)
    requires ring > 0 && k > 0
    ensures Packets(ring, removed, n, len, k) ==
            [Packet(removed % ring, n, len, false)] + Packets(ring, (removed + n) % U32, n, len, k - 1)
    ensures Moved(removed, n, k) == Moved((removed + n) % U32, n, k - 1)
  {
  }

  lemma NoMore(ring: nat, removed: Count, n: nat, len: nat)
    requires ring > 0
    ensures Packets(ring, removed, n, len, 0) == [] && Moved(removed, n, 0) == removed
  {
  }

  lemma {:induction false} MovedIs(removed: Count, n: nat, k: nat)
    ensures n == 1 ==> Moved(removed, n, k) == (removed + k) % U32
    ensures k == 1 ==> Moved(removed, n, k) == (removed + n) % U32
    decreases k
  {
    if n == 1 && k > 0 {
      MovedIs((removed + 1) % U32, 1, k - 1);
      WrapOnce(removed, k);
    }
  }

  lemma WrapOnce(removed: Count, k: nat)
    requires k > 0
    ensures ((removed + 1) % U32 + (k - 1)) % U32 == (removed + k) % U32
  {
    if removed + 1 == U32 {
      ModShift(k - 1, 1, U32);
    }
  }

  // ----- An in-order NIC

  /** The NIC has completed `ptr` descriptors, the last `chain` of which (with
      `bytes` bytes) belong to a packet that is not complete yet. */
  datatype Nic = Nic(ptr: nat, chain: nat, bytes: nat)

  datatype Action =
    | Fragment(bytes: nat, last: bool)    // one more descriptor of a packet
    | Merge(k: nat, bytes: nat)           // k packets of one descriptor each, not told by length
    | Abort                               // the current packet is given up

  const MAX_DESCS := 15

  /** What the NIC does: packets of at most 15 descriptors, merges of 2 to 15, and
      those only where the driver has asked for them. */
  predicate Possible(nic: Nic, batching: bool, a: Action)
  {
    match a
    case Fragment(_, _) => nic.chain < MAX_DESCS
    case Merge(k, _) => batching && nic.chain == 0 && 2 <= k <= MAX_DESCS
    case Abort => nic.chain > 0
  }

  function After(nic: Nic, a: Action): Nic
  {
    match a
    case Fragment(bytes, last) =>
      if last then Nic(nic.ptr + 1, 0, 0) else Nic(nic.ptr + 1, nic.chain + 1, nic.bytes + bytes)
    case Merge(k, _) => Nic(nic.ptr + k, 0, 0)
    case Abort => nic.(chain := 0, bytes := 0)
  }

  function EventOf(nic: Nic, a: Action): Event
  {
    match a
    case Fragment(bytes, last) => Event((nic.ptr + 1) % PTR_LBITS, !last, bytes)
    case Merge(k, bytes) => Event((nic.ptr + k) % PTR_LBITS, false, bytes)
    case Abort => Event(nic.ptr % PTR_LBITS, false, 0)
  }

  /** The driver has given up or handed on all but the descriptors of the open packet. */
  predicate InStep(q: Queue, nic: Nic)
  {
    && nic.chain <= nic.ptr && nic.chain <= MAX_DESCS
    && q.removed == (nic.ptr - nic.chain) % U32
    && q.scatterN == nic.chain && q.scatterLen == nic.bytes
  }

  /** The announced number is the true one, as long as it is below 16. */
  lemma AnnouncedIs(q: Queue, nic: Nic, k: nat)
    requires InStep(q, nic)
    ensures Announced(q, (nic.ptr + k) % PTR_LBITS) == (nic.chain + k) % PTR_LBITS
  {
    var base, top := nic.ptr - nic.chain, nic.ptr + k;
    var m := base / U32 * (U32 / PTR_LBITS) - top / PTR_LBITS;
    assert top % PTR_LBITS - base % U32 == nic.chain + k + m * PTR_LBITS;
    ModShift(nic.chain + k, m, PTR_LBITS);
  }

  // ----- What is handed up tiles the descriptor sequence

  /** Ring indices of `n` descriptors in a row, from descriptor number `base`. */
  function Range(ring: nat, base: nat, n: nat): seq<nat>
    requires ring > 0
    decreases n
  {
    if n == 0 then [] else [base % ring] + Range(ring, base + 1, n - 1)
  }

  /** The ring indices of the buffers of the packets, in order. */
  function Buffers(ring: nat, packets: seq<Packet>): seq<nat>
    requires ring > 0
  {
    if packets == [] then [] else Range(ring, packets[0].start, packets[0].n) + Buffers(ring, packets[1..])
  }

  lemma {:induction false} BuffersJoin(ring: nat, a: seq<Packet>, b: seq<Packet>)
    requires ring > 0
    ensures Buffers(ring, a + b) == Buffers(ring, a) + Buffers(ring, b)
  {
    if a == [] {
      assert a + b == b;
    } else {
      assert (a + b)[1..] == a[1..] + b;
      BuffersJoin(ring, a[1..], b);
    }
  }

  lemma {:induction false} RangeJoin(ring: nat, base: nat, n: nat, m: nat)
    requires ring > 0
    ensures Range(ring, base, n) + Range(ring, base + n, m) == Range(ring, base, n + m)
    decreases n
  {
    if n == 0 {
    } else {
      RangeJoin(ring, base + 1, n - 1, m);
    }
  }

  lemma {:induction false} RangeCongruent(ring: nat, a: nat, b: nat, n: nat)
    requires ring > 0 && a % ring == b % ring
    ensures Range(ring, a, n) == Range(ring, b, n)
    decreases n
  {
    if n == 0 {
    } else {
      ModAddMod(a, 1, ring);
      ModAddMod(b, 1, ring);
      RangeCongruent(ring, a + 1, b + 1, n - 1);
    }
  }

  /** The wrapped counter gives the same ring indices as the descriptor number. */
  lemma RangeOfCounter(ring: nat, m: nat, base: nat, n: nat)
    requires ring > 0 && ring * m == U32
    ensures Range(ring, base % U32 % ring, n) == Range(ring, base, n)
  {
    ModOfMod(base, ring, m);
    ModAddMod(base, 0, ring);
    RangeCongruent(ring, base % U32 % ring, base, n);
  }

  lemma OnePacket(ring: nat, m: nat, base: nat, p: Packet)
    requires ring > 0 && ring * m == U32 && p.start == base % U32 % ring
    ensures Buffers(ring, [p]) == Range(ring, base, p.n)
  {
    RangeOfCounter(ring, m, base, p.n);
    assert Buffers(ring, [p]) == Range(ring, p.start, p.n) + Buffers(ring, []);
  }

  lemma {:induction false} PacketsTile(ring: nat, m: nat, base: nat, k: nat)
    requires ring > 0 && ring * m == U32
    ensures Buffers(ring, Packets(ring, base % U32, 1, 0, k)) == Range(ring, base, k)
    decreases k
  {
    if k == 0 {
    } else {
      var p := Packet(base % U32 % ring, 1, 0, false);
      ModAddMod(base, 1, U32);
      PacketsTile(ring, m, base + 1, k - 1);
      OnePacket(ring, m, base, p);
      BuffersJoin(ring, [p], Packets(ring, (base + 1) % U32, 1, 0, k - 1));
      RangeJoin(ring, base, 1, k - 1);
    }
  }

  lemma {:induction false} PacketsAre(ring: nat, m: nat, base: nat, k: nat)
    requires ring > 0 && ring * m == U32
    ensures Packets(ring, base % U32, 1, 0, k) == seq(k, i => Packet((base + i) % ring, 1, 0, false))
    decreases k
  {
    if k == 0 {
    } else {
      ModOfMod(base, ring, m);
      ModAddMod(base, 1, U32);
      PacketsAre(ring, m, base + 1, k - 1);
    }
  }

  /** Descriptors the driver is done with. */
  function Released(nic: Nic): int { nic.ptr - nic.chain }

  /** The packets that an action of the NIC completes or gives up: where each starts in the
      ring, its descriptors, and its length, which a merged completion does not tell. */
  function Finished(ring: nat, nic: Nic, a: Action): seq<Packet>
    requires ring > 0 && nic.chain <= nic.ptr
  {
    match a
    case Fragment(bytes, last) =>
      if last then [Packet(Released(nic) % ring, nic.chain + 1, nic.bytes + bytes, false)] else []
    case Merge(k, _) => seq(k, i => Packet((nic.ptr + i) % ring, 1, 0, false))
    case Abort => [Packet(Released(nic) % ring, nic.chain, 0, true)]
  }

  /** The driver accepts the event, stays in step, and hands up exactly the packets that the
      NIC finished, and so the descriptors that the event releases. */
  predicate Accepted(q: Queue, nic: Nic, ring: nat, batching: bool, a: Action)
    requires ring > 0
  {
    var (q', r) := Handle(q, ring, batching, EventOf(nic, a));
    && r.Handled? && InStep(q', After(nic, a))
    && 0 <= Released(nic) <= Released(After(nic, a))
    && r.packets == Finished(ring, nic, a)
    && Buffers(ring, r.packets) == Range(ring, Released(nic), Released(After(nic, a)) - Released(nic))
  }

  lemma FragmentAccepted(q: Queue, nic: Nic, ring: nat, m: nat, batching: bool, a: Action)
    requires a.Fragment? && InStep(q, nic) && Possible(nic, batching, a) && ring > 0 && ring * m == U32
    ensures Accepted(q, nic, ring, batching, a)
  {
    hide Announced;
    AnnouncedIs(q, nic, 1);
    if a.last {
      var p := Packet(q.removed % ring, nic.chain + 1, nic.bytes + a.bytes, false);
      assert Packets(ring, q.removed, p.n, p.len, 1) == [p] + Packets(ring, (q.removed + p.n) % U32, p.n, p.len, 0);
      hide Packets, Range;
      OnePacket(ring, m, Released(nic), p);
      ModOfMod(Released(nic), ring, m);
      ModAddMod(Released(nic), nic.chain + 1, U32);
    }
  }

  lemma MergeAccepted(q: Queue, nic: Nic, ring: nat, m: nat, batching: bool, a: Action)
    requires a.Merge? && InStep(q, nic) && Possible(nic, batching, a) && ring > 0 && ring * m == U32
    ensures Accepted(q, nic, ring, batching, a)
  {
    hide Announced, Packets, Range, Buffers;
    AnnouncedIs(q, nic, a.k);
    PacketsAre(ring, m, nic.ptr, a.k);
    PacketsTile(ring, m, Released(nic), a.k);
    ModAddMod(Released(nic), a.k, U32);
  }

  lemma AbortAccepted(q: Queue, nic: Nic, ring: nat, m: nat, batching: bool, a: Action)
    requires a.Abort? && InStep(q, nic) && Possible(nic, batching, a) && ring > 0 && ring * m == U32
    ensures Accepted(q, nic, ring, batching, a)
  {
    hide Announced, Packets, Range;
    AnnouncedIs(q, nic, 0);
    OnePacket(ring, m, Released(nic), Packet(q.removed % ring, nic.chain, 0, true));
    ModOfMod(Released(nic), ring, m);
    ModAddMod(Released(nic), nic.chain, U32);
  }

  lemma EventAccepted(q: Queue, nic: Nic, ring: nat, m: nat, batching: bool, a: Action)
    requires InStep(q, nic) && Possible(nic, batching, a) && ring > 0 && ring * m == U32
    ensures Accepted(q, nic, ring, batching, a)
  {
    hide Accepted;
    match a
    case Fragment(_, _) => FragmentAccepted(q, nic, ring, m, batching, a);
    case Merge(_, _) => MergeAccepted(q, nic, ring, m, batching, a);
    case Abort => AbortAccepted(q, nic, ring, m, batching, a);
  }

  // ----- Whole runs

  predicate AllPossible(nic: Nic, batching: bool, actions: seq<Action>)
    decreases |actions|
  {
    || actions == []
    || (Possible(nic, batching, actions[0]) && AllPossible(After(nic, actions[0]), batching, actions[1..]))
  }

  function NicRun(nic: Nic, actions: seq<Action>): Nic
    decreases |actions|
  {
    if actions == [] then nic else NicRun(After(nic, actions[0]), actions[1..])
  }

  /** The packets of a whole run of the NIC. */
  function AllFinished(ring: nat, nic: Nic, actions: seq<Action>): seq<Packet>
    requires ring > 0 && nic.chain <= nic.ptr
    decreases |actions|
  {
    if actions == [] then []
    else Finished(ring, nic, actions[0]) + AllFinished(ring, After(nic, actions[0]), actions[1..])
  }

  /** The driver's state and everything it handed up, or nothing after a bad pointer. */
  function DriverRun(q: Queue, nic: Nic, ring: nat, batching: bool, actions: seq<Action>): (Queue, Result)
    requires ring > 0
    decreases |actions|
  {
    if actions == [] then (q, Handled([]))
    else
      var (q', r) := Handle(q, ring, batching, EventOf(nic, actions[0]));
      if r.BadPointer? then (q', r)
      else
        var (q'', rest) := DriverRun(q', After(nic, actions[0]), ring, batching, actions[1..]);
        (q'', if rest.BadPointer? then rest else Handled(r.packets + rest.packets))
  }

  /** Against an in-order NIC, after any run of fragments, merges and aborts: the
      driver never takes an event for a bad pointer, removed_count + scatter_n is
      the NIC's pointer, the packets handed up or discarded are those the NIC finished, with
      their lengths, and their buffers are the released descriptors in order, without gap or overlap. */
  lemma {:induction false} RunTiles(q: Queue, nic: Nic, ring: nat, m: nat, batching: bool, actions: seq<Action>)
    requires InStep(q, nic) && AllPossible(nic, batching, actions) && ring > 0 && ring * m == U32
    ensures var (q', r) := DriverRun(q, nic, ring, batching, actions);
            var nic' := NicRun(nic, actions);
            && r.Handled? && InStep(q', nic')
            && (q'.removed + q'.scatterN) % U32 == nic'.ptr % U32
            && 0 <= Released(nic) <= Released(nic')
            && r.packets == AllFinished(ring, nic, actions)
            && Buffers(ring, r.packets) == Range(ring, Released(nic), Released(nic') - Released(nic))
    decreases |actions|
  {
    hide Handle, EventOf, After, Possible, Buffers, Range, Finished;
    if actions == [] {
      assert Buffers(ring, []) == Range(ring, Released(nic), 0) by { NoBuffers(ring, Released(nic)); }
      ModAddMod(Released(nic), nic.chain, U32);
    } else {
      EventAccepted(q, nic, ring, m, batching, actions[0]);
      var (q1, r1) := Handle(q, ring, batching, EventOf(nic, actions[0]));
      var nic1 := After(nic, actions[0]);
      RunTiles(q1, nic1, ring, m, batching, actions[1..]);
      var (q2, r2) := DriverRun(q1, nic1, ring, batching, actions[1..]);
      BuffersJoin(ring, r1.packets, r2.packets);
      RangeJoin(ring, Released(nic), Released(nic1) - Released(nic),
                Released(NicRun(nic1, actions[1..])) - Released(nic1));
    }
  }

  lemma NoBuffers(ring: nat, base: nat)
    requires ring > 0
    ensures Buffers(ring, []) == Range(ring, base, 0)
  {
  }

  // ----- Where four bits stop being enough

  /** A merged completion of `k` descriptors keeps the driver in step exactly when
      `k` is at most 15: sixteen look like none, more look like fewer. */
  lemma MergeInStepIff(q: Queue, nic: Nic, ring: nat, k: nat)
    requires InStep(q, nic) && nic.chain == 0 && ring > 0 && 1 <= k < U32
    ensures InStep(Handle(q, ring, true, Event((nic.ptr + k) % PTR_LBITS, false, 0)).0, Nic(nic.ptr + k, 0, 0)) <==>
            k <= MAX_DESCS
  {
    hide Announced, Packets;
    AnnouncedIs(q, nic, k);
    var n := k % PTR_LBITS;
    var q' := Handle(q, ring, true, Event((nic.ptr + k) % PTR_LBITS, false, 0)).0;
    assert q'.removed == (q.removed + n) % U32;
    ModAddMod(nic.ptr, n, U32);
    var d := (nic.ptr + k) / U32 - (nic.ptr + n) / U32;
    assert k - n == d * U32 + (nic.ptr + k) % U32 - (nic.ptr + n) % U32;
  }

  /** An event is taken for a bad pointer, and changes nothing, exactly when it announces neither
      the end of the open packet, nor one more descriptor, nor a merged completion where
      merging is on, no packet is open, and no more of it is to come. */
  lemma BadPointerIff(q: Queue, ring: nat, batching: bool, ev: Event)
    requires ring > 0 && q.scatterN <= MAX_DESCS
    ensures var (q', r) := Handle(q, ring, batching, ev);
            var at := q.removed + q.scatterN;
            && (r.BadPointer? <==>
                && ev.lbits % PTR_LBITS != at % PTR_LBITS
                && (q.scatterN == MAX_DESCS || ev.lbits % PTR_LBITS != (at + 1) % PTR_LBITS)
                && (!batching || q.scatterN > 0 || ev.cont))
            && (r.BadPointer? ==> q' == q)
  {
    hide Packets;
    AnnouncedAt(q, ev.lbits, q.scatterN);
    if q.scatterN < MAX_DESCS {
      AnnouncedAt(q, ev.lbits, q.scatterN + 1);
    }
  }

  lemma AnnouncedAt(q: Queue, lbits: nat, k: nat)
    requires k < PTR_LBITS
    ensures Announced(q, lbits) == k <==> lbits % PTR_LBITS == (q.removed + k) % PTR_LBITS
  {
  }

  /** One more fragment of an open packet is accepted exactly while the packet has
      at most 14 descriptors. */
  lemma ChainAcceptedIff(q: Queue, nic: Nic, ring: nat, batching: bool, bytes: nat, last: bool)
    requires InStep(q, nic) && nic.chain > 0 && ring > 0
    ensures Handle(q, ring, batching, EventOf(nic, Fragment(bytes, last))).1.Handled? <==> nic.chain < MAX_DESCS
  {
    hide Announced, Packets;
    AnnouncedIs(q, nic, 1);
  }
}
