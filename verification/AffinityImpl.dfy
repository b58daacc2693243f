/** The affinity driver's state, updated in place under its lock. */
module AffinityImpl {
  import opened Common
  import opened Affinity
  import opened AffinityProofs

  class Driver {
    const nCpus: nat
    var fds: Links
    var intfs: Links
    var info: map<nat, Info>
    var config: map<nat, Config>
    var next: nat
    /** What the hardware has, and what of it could not be removed. */
    ghost var hw: map<Key, int>
    ghost var stale: set<Key>

    ghost function Value(): State
      reads this
    {
      State(fds, intfs, info, config, hw, stale, next, nCpus)
    }

    constructor (n: nat)
      ensures Inv(Value()) && nCpus == n && info == map[]
    {
      nCpus := n;
      fds, intfs, info, config, next := Links(map[], map[]), Links(map[], map[]), map[], map[], 0;
      hw, stale := map[], {};
      new;
      InitInv(n);
    }

    method Find(dev: nat, t: Tuple) returns (r: Option<nat>)
      requires dev in intfs.lists
      ensures r == FindIn(intfs.lists[dev], info, t)
    {
      var list := intfs.lists[dev];
      for i := 0 to |list|
        invariant FindIn(list, info, t) == FindIn(list[i..], info, t)
      {
        if list[i] in info && info[list[i]].tuple == t {
          return Some(list[i]);
        }
      }
      r := None;
    }

    method RemoveFilter(u: nat, ok: bool)
      requires Inv(Value()) && u in info
      modifies this
      ensures Value() == Remove(old(Value()), u, ok) && Inv(Value())
    {
      hide Linked, Mirrored, Unlink;
      RemoveKeeps(Value(), u, ok);
      ghost var key := KeyOf(Value(), u);
      fds := Unlink(fds, u);
      intfs := Unlink(intfs, u);
      if ok {
        hw := hw - {key};
      } else {
        stale := stale + {key};
      }
      info := info - {u};
    }

    method AddFilter(fd: nat, cpu: int, rxq: int, dev: nat, t: Tuple, a: Reply) returns (rc: int, err: Err)
      requires Inv(Value()) && fd in fds.lists && a.here < nCpus
      modifies this
      ensures (Value(), rc, err) == FilterAdd(old(Value()), fd, cpu, rxq, dev, t, a) && Inv(Value())
    {
      hide Linked, Mirrored, FindIn, Remove, Link, Unlink;
      FilterAddKeeps(Value(), fd, cpu, rxq, dev, t, a);
      err := Refused(t, cpu, nCpus);
      if err != NoError {
        return -EINVAL, err;
      }
      if !a.memory {
        return -ENOMEM, NoError;
      }
      if dev !in config {
        return -EINVAL, NotSupported;
      }
      var at: nat := if cpu < 0 then a.here else cpu;
      assert QueuesOk(config[dev], nCpus);
      if rxq >= config[dev].nRxqs {
        return -EINVAL, BadRxq;
      }
      var q := if rxq < 0 then config[dev].cpuToQ[at] else rxq;
      if q < 0 {
        return -EINVAL, NotConfigured;
      }
      rc, err := AddToQueue(fd, dev, Info(t, q, at, rxq), a);
    }

    method AddToQueue(fd: nat, dev: nat, i: Info, a: Reply) returns (rc: int, err: Err)
      requires Inv(Value()) && fd in fds.lists && dev in intfs.lists
      modifies this
      ensures (Value(), rc, err) == AddFor(old(Value()), fd, dev, i, a)
    {
      hide Linked, Mirrored, FindIn, Remove, Link, Unlink, Configured;
      FindIs(Value(), dev, i.tuple);
      var found := Find(dev, i.tuple);
      if found.Some? {
        var u := found.value;
        if info[u].rxq == i.rxq {
          fds := Link(Unlink(fds, u), u, fd);
          info := info[u := i];
          return 0, NoError;
        }
        RemoveFilter(u, a.removeOk);
      }
      if a.setRc != 0 {
        return a.setRc, SetFail;
      }
      if a.insertRc < 0 {
        return a.insertRc, InsertFailReason(a.insertRc);
      }
      var u := next;
      next := u + 1;
      info := info[u := i];
      intfs := Link(intfs, u, dev);
      fds := Link(fds, u, fd);
      hw := hw[(dev, i.tuple) := i.rxq];
      stale := stale - {(dev, i.tuple)};
      rc, err := 0, NoError;
    }

    method OpenDescriptor(fd: nat)
      requires Inv(Value())
      modifies `fds
      ensures Value() == Open(old(Value()), fd) && Inv(Value())
    {
      OpenKeeps(Value(), fd);
      hide Inv;
      if fd !in fds.lists {
        fds := fds.(lists := fds.lists[fd := []]);
      }
    }

    method CloseDescriptor(fd: nat, oks: seq<bool>)
      requires Inv(Value()) && fd in fds.lists && |fds.lists[fd]| <= |oks|
      modifies this
      ensures Value() == Close(old(Value()), fd, oks) && Inv(Value())
      ensures forall u :: u in info <==> u in old(info) && old(fds).owner[u] != fd
    {
      hide Inv, Remove;
      CloseKeeps(Value(), fd, oks);
      var k := 0;
      while fds.lists[fd] != []
        invariant Inv(Value()) && fd in fds.lists && k + |fds.lists[fd]| <= |oks|
        invariant RemoveAll(Value(), fds.lists[fd], oks[k..]) == RemoveAll(old(Value()), old(fds).lists[fd], oks)
        decreases |oks| - k
      {
        var u := fds.lists[fd][0];
        HeadOfDescriptor(Value(), fd, oks[k]);
        assert oks[k..][1..] == oks[k + 1..];
        RemoveFilter(u, oks[k]);
        k := k + 1;
      }
      fds := fds.(lists := fds.lists - {fd});
    }

    method TakeDown(dev: nat, oks: seq<bool>)
      requires Inv(Value()) && (dev in intfs.lists ==> |intfs.lists[dev]| <= |oks|)
      modifies this
      ensures Value() == InterfaceDown(old(Value()), dev, oks) && Inv(Value())
      ensures forall u :: u in info <==> u in old(info) && old(intfs).owner[u] != dev
    {
      hide Inv, Remove;
      InterfaceDownKeeps(Value(), dev, oks);
      if dev !in intfs.lists {
        return;
      }
      var k := 0;
      while intfs.lists[dev] != []
        invariant Inv(Value()) && dev in intfs.lists && k + |intfs.lists[dev]| <= |oks|
        invariant RemoveAll(Value(), intfs.lists[dev], oks[k..]) == RemoveAll(old(Value()), old(intfs).lists[dev], oks)
        decreases |oks| - k
      {
        var u := intfs.lists[dev][0];
        HeadOfInterface(Value(), dev, oks[k]);
        assert oks[k..][1..] == oks[k + 1..];
        RemoveFilter(u, oks[k]);
        k := k + 1;
      }
      intfs := intfs.(lists := intfs.lists - {dev});
      config := config - {dev};
    }

    method BringUp(dev: nat, nRxqs: int)
      requires Inv(Value())
      modifies this
      ensures Value() == InterfaceUp(old(Value()), dev, nRxqs) && Inv(Value())
    {
      hide Linked, Mirrored;
      InterfaceUpKeeps(Value(), dev, nRxqs);
      var isNew := dev !in config;
      if isNew {
        intfs := intfs.(lists := intfs.lists[dev := []]);
      }
      if isNew || config[dev].nRxqs != nRxqs {
        var queues := new int[nCpus];
        for i := 0 to nCpus
          invariant forall j :: 0 <= j < i ==> queues[j] == -1
          modifies queues
        {
          queues[i] := -1;
        }
        assert queues[..] == NotConfiguredYet(nCpus);
        config := config[dev := Config(nRxqs, queues[..])];
      }
    }

    method SetQueues(dev: nat, nRxqs: int, cpuToQ: seq<int>) returns (rc: int)
      requires Inv(Value()) && |cpuToQ| == nCpus
      modifies `config
      ensures (Value(), rc) == Configure(old(Value()), dev, nRxqs, cpuToQ) && Inv(Value())
    {
      hide Linked, Mirrored, Configured;
      ConfigureKeeps(Value(), dev, nRxqs, cpuToQ);
      for i := 0 to nCpus
        invariant forall j :: 0 <= j < i ==> 0 <= cpuToQ[j] < nRxqs
      {
        if cpuToQ[i] < 0 || cpuToQ[i] >= nRxqs {
          return -EINVAL;
        }
      }
      if dev !in config {
        return -EINVAL;
      }
      config := config[dev := Config(nRxqs, cpuToQ)];
      rc := 0;
    }

    /** Goes through the caller's list once, removing what matches. */
    method DelFilter(fd: nat, dev: Option<nat>, t: Tuple, oks: seq<bool>) returns (rc: int, err: Err)
      requires Inv(Value()) && fd in fds.lists && |fds.lists[fd]| <= |oks|
      modifies this
      ensures (Value(), rc, err) == FilterDel(old(Value()), fd, dev, t, oks) && Inv(Value())
    {
      hide Inv, Remove, Matches, SameMatches, Matching;
      rc, err := -EINVAL, NotFound;
      var list := fds.lists[fd];
      ListDistinct(Value(), fd);
      ghost var s0 := Value();
      SameAtFirst(s0, list, dev, t);
      NothingMatches(s0, dev, t);
      var k := 0;
      for i := 0 to |list|
        invariant Inv(Value()) && 0 <= k <= i
        invariant SameMatches(Value(), s0, list, i, dev, t)
        invariant RemoveAll(Value(), Matching(s0, list[i..], dev, t), oks[k..]) ==
          RemoveAll(s0, Matching(s0, list, dev, t), oks)
        invariant k == 0 ==> Value() == s0 && Matching(s0, list[i..], dev, t) == Matching(s0, list, dev, t)
        invariant k > 0 ==> Matching(s0, list, dev, t) != []
        invariant (rc, err) == if k == 0 then (-EINVAL, NotFound) else (0, NoError)
      {
        ghost var more := Matching(s0, list[i + 1..], dev, t);
        MatchingStep(s0, list, i, dev, t);
        assert [] + more == more && ([list[i]] + more)[1..] == more;
        var u := list[i];
        var hit := u in info && u in intfs.owner && info[u].tuple == t && (dev.None? || intfs.owner[u] == dev.value);
        MatchesIs(Value(), u, dev, t);
        SameNext(Value(), s0, list, i, oks[k], dev, t);
        if hit {
          assert oks[k..][1..] == oks[k + 1..];
          RemoveFilter(u, oks[k]);
          k := k + 1;
          rc, err := 0, NoError;
        }
      }
      assert list[|list|..] == [];
    }
  }

  lemma ListDistinct(s: State, fd: nat)
    requires Inv(s) && fd in s.fds.lists
    ensures Distinct(s.fds.lists[fd])
  {
  }

  lemma MatchesIs(s: State, u: nat, dev: Option<nat>, t: Tuple)
    ensures Matches(s, u, dev, t) <==>
            u in s.info && u in s.intfs.owner && s.info[u].tuple == t && (dev.None? || s.intfs.owner[u] == dev.value)
  {
  }

  lemma MatchingStep(s: State, list: seq<nat>, i: nat, dev: Option<nat>, t: Tuple)
    requires i < |list|
    ensures Matching(s, list[i..], dev, t) ==
            (if Matches(s, list[i], dev, t) then [list[i]] else []) + Matching(s, list[i + 1..], dev, t)
  {
    assert list[i..][0] == list[i] && list[i..][1..] == list[i + 1..];
  }

  /** The filters not yet looked at match as they did at first. */
  ghost predicate SameMatches(s: State, s0: State, list: seq<nat>, i: nat, dev: Option<nat>, t: Tuple)
  {
    forall j :: i <= j < |list| ==> Matches(s, list[j], dev, t) == Matches(s0, list[j], dev, t)
  }

  lemma SameAtFirst(s: State, list: seq<nat>, dev: Option<nat>, t: Tuple)
    ensures SameMatches(s, s, list, 0, dev, t)
  {
  }

  lemma NothingMatches(s: State, dev: Option<nat>, t: Tuple)
    ensures Matching(s, [], dev, t) == []
  {
  }

  /** Removing one filter does not change whether the others on the list match. */
  lemma SameNext(s: State, s0: State, list: seq<nat>, i: nat, ok: bool, dev: Option<nat>, t: Tuple)
    requires Inv(s) && i < |list| && Distinct(list) && SameMatches(s, s0, list, i, dev, t)
    ensures Matches(s, list[i], dev, t) == Matches(s0, list[i], dev, t)
    ensures SameMatches(s, s0, list, i + 1, dev, t) && SameMatches(Remove(s, list[i], ok), s0, list, i + 1, dev, t)
  {
    hide Linked, Mirrored, Unlink;
    UnlinkKeeps(s.intfs, list[i]);
  }

  lemma WithoutHead(list: seq<nat>)
    requires list != [] && Distinct(list)
    ensures Without(list, list[0]) == list[1..]
  {
    NotThere(list[1..], list[0]);
  }

  lemma {:induction false} NotThere(list: seq<nat>, u: nat)
    requires !Member(u, list)
    ensures Without(list, u) == list
    decreases |list|
  {
    if list == [] {
    } else {
      NotThere(list[1..], u);
    }
  }

  lemma HeadOfDescriptor(s: State, fd: nat, ok: bool)
    requires Inv(s) && fd in s.fds.lists && s.fds.lists[fd] != []
    ensures var u := s.fds.lists[fd][0];
            u in s.info && fd in Remove(s, u, ok).fds.lists && Remove(s, u, ok).fds.lists[fd] == s.fds.lists[fd][1..]
  {
    hide Without, Mirrored;
    WithoutHead(s.fds.lists[fd]);
    assert Member(s.fds.lists[fd][0], s.fds.lists[fd]);
  }

  lemma HeadOfInterface(s: State, dev: nat, ok: bool)
    requires Inv(s) && dev in s.intfs.lists && s.intfs.lists[dev] != []
    ensures var u := s.intfs.lists[dev][0];
            && u in s.info && dev in Remove(s, u, ok).intfs.lists
            && Remove(s, u, ok).intfs.lists[dev] == s.intfs.lists[dev][1..]
  {
    hide Without, Mirrored;
    WithoutHead(s.intfs.lists[dev]);
    assert Member(s.intfs.lists[dev][0], s.intfs.lists[dev]);
  }
}
