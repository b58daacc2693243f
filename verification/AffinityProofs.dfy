/** What every run of the affinity driver keeps. */
module AffinityProofs {
  import opened Common
  import opened Affinity

  // ----- Matches and the hardware

  lemma KeysRemoved(keys: map<nat, Key>, u: nat, hw: set<Key>, stale: set<Key>, ok: bool)
    requires Mirrored(keys, hw, stale) && u in keys
    ensures var k := keys[u]; Mirrored(keys - {u}, if ok then hw - {k} else hw, if ok then stale else stale + {k})
  {
    var rest, k := keys - {u}, keys[u];
    assert k !in rest.Values;
    forall x | x in keys.Values && x != k
      ensures x in rest.Values
    {
      var v :| v in keys && keys[v] == x;
      assert v in rest && rest[v] == x;
    }
  }

  lemma KeysAdded(keys: map<nat, Key>, u: nat, k: Key, hw: set<Key>, stale: set<Key>)
    requires Mirrored(keys, hw, stale) && u !in keys && k !in keys.Values
    ensures Mirrored(keys[u := k], hw + {k}, stale - {k})
  {
    var more := keys[u := k];
    assert more[u] == k;
    forall x | x in keys.Values
      ensures x in more.Values
    {
      var v :| v in keys && keys[v] == x;
      assert v in more && more[v] == x;
    }
  }

  // ----- Removing

  lemma RemoveKeeps(s: State, u: nat, ok: bool)
    requires Inv(s)
    ensures Inv(Remove(s, u, ok)) && Remove(s, u, ok).info.Keys == s.info.Keys - {u}
    ensures u in s.info ==> Keys(Remove(s, u, ok)) == Keys(s) - {u}
  {
    hide Unlink, Linked, Mirrored, Steered;
    if u in s.info {
      var k := KeyOf(s, u);
      UnlinkKeeps(s.fds, u);
      UnlinkKeeps(s.intfs, u);
      KeysRemoved(Keys(s), u, s.hw.Keys, s.stale, ok);
      assert (s.hw - {k}).Keys == s.hw.Keys - {k};
      assert Keys(Remove(s, u, ok)) == Keys(s) - {u};
      RemoveSteered(s, u, ok);
    }
  }

  lemma RemoveSteered(s: State, u: nat, ok: bool)
    requires Inv(s) && u in s.info
    ensures Steered(Remove(s, u, ok))
  {
    hide Unlink, Linked, Configured, Numbered;
    UnlinkKeeps(s.intfs, u);
    assert Keys(s)[u] == KeyOf(s, u);
    forall v | v in s.info && v != u
      ensures KeyOf(s, v) != KeyOf(s, u)
    {
      assert Keys(s)[v] == KeyOf(s, v);
    }
  }

  /** Only bookkeeping that the hardware does not see has changed. */
  lemma StillSteered(s: State, t: State)
    requires Steered(s) && t.hw == s.hw && t.intfs.owner == s.intfs.owner && t.info == s.info
    ensures Steered(t)
  {
  }

  lemma InsertSteered(s: State, t: State, u: nat, dev: nat, i: Info)
    requires Steered(s) && Consistent(s) && (dev, i.tuple) !in Keys(s).Values
    requires t.info == s.info[u := i] && t.intfs.owner == s.intfs.owner[u := dev]
    requires t.hw == s.hw[(dev, i.tuple) := i.rxq]
    ensures Steered(t)
  {
    forall v | v in s.info && v != u
      ensures KeyOf(s, v) != (dev, i.tuple)
    {
      assert v in Keys(s) && Keys(s)[v] == KeyOf(s, v);
    }
  }

  /** `t` has the lists and the configuration of `s`, and of its filters those not in `us`. */
  ghost predicate LessBy(s: State, t: State, us: seq<nat>)
  {
    && t.fds.lists.Keys == s.fds.lists.Keys && t.intfs.lists.Keys == s.intfs.lists.Keys
    && t.config == s.config && t.nCpus == s.nCpus && t.next == s.next
    && (forall v :: v in t.info <==> v in s.info && !Member(v, us))
    && (forall v :: v in t.info ==> t.info[v] == s.info[v])
    && (forall v :: v in t.fds.owner ==> v in s.fds.owner && t.fds.owner[v] == s.fds.owner[v])
    && (forall v :: v in t.intfs.owner ==> v in s.intfs.owner && t.intfs.owner[v] == s.intfs.owner[v])
  }

  lemma RemoveLess(s: State, u: nat, ok: bool)
    requires Inv(s)
    ensures LessBy(s, Remove(s, u, ok), [u])
  {
    hide Unlink, Linked, Mirrored, Steered, Configured, Numbered;
    if u in s.info {
      UnlinkKeeps(s.fds, u);
      UnlinkKeeps(s.intfs, u);
    }
  }

  /** The hardware loses a removed filter exactly when it says so. */
  lemma RemoveHardware(s: State, u: nat, ok: bool)
    requires Inv(s) && u in s.info
    ensures var r := Remove(s, u, ok);
            && r.hw == (if ok then s.hw - {KeyOf(s, u)} else s.hw)
            && (KeyOf(s, u) in r.stale <==> !ok) && s.stale <= r.stale
  {
    hide Unlink, Linked, Steered, Configured, Numbered;
    assert Keys(s)[u] == KeyOf(s, u);
  }

  /** The filters of `t` are filters of `s`, as they were. */
  ghost predicate Spared(s: State, t: State)
  {
    forall v :: v in t.info ==> SameFilter(s, t, v)
  }

  predicate SameFilter(s: State, t: State, v: nat)
  {
    && v in s.info && v in t.info && t.info[v] == s.info[v]
    && v in s.fds.owner && v in t.fds.owner && t.fds.owner[v] == s.fds.owner[v]
    && v in s.intfs.owner && v in t.intfs.owner && t.intfs.owner[v] == s.intfs.owner[v]
  }

  lemma LessMore(s: State, t: State, r: State, u: nat, us: seq<nat>)
    requires LessBy(s, t, [u]) && LessBy(t, r, us)
    ensures LessBy(s, r, [u] + us)
  {
    assert forall v :: Member(v, [u] + us) <==> v == u || Member(v, us);
  }

  lemma {:induction false} RemoveAllKeeps(s: State, us: seq<nat>, oks: seq<bool>)
    requires Inv(s) && |us| <= |oks|
    ensures Inv(RemoveAll(s, us, oks)) && LessBy(s, RemoveAll(s, us, oks), us)
    decreases |us|
  {
    hide Inv, Remove;
    if us == [] {
      LessByNone(s);
    } else {
      var t := Remove(s, us[0], oks[0]);
      RemoveKeeps(s, us[0], oks[0]);
      RemoveLess(s, us[0], oks[0]);
      RemoveAllKeeps(t, us[1..], oks[1..]);
      LessMore(s, t, RemoveAll(t, us[1..], oks[1..]), us[0], us[1..]);
      assert [us[0]] + us[1..] == us;
    }
  }

  lemma LessByNone(s: State)
    ensures LessBy(s, s, [])
  {
  }

  lemma DropList(k: Links, l: nat)
    requires Linked(k) && forall v :: v in k.owner ==> k.owner[v] != l
    ensures Linked(k.(lists := k.lists - {l}))
  {
  }

  /** Nothing is left on a list all of whose filters were removed. */
  lemma ListEmptied(k: Links, k': Links, l: nat, us: seq<nat>)
    requires Linked(k) && l in k.lists && us == k.lists[l]
    requires forall v :: v in k'.owner ==> v in k.owner && k'.owner[v] == k.owner[v] && !Member(v, us)
    ensures forall v :: v in k'.owner ==> k'.owner[v] != l
  {
  }

  lemma CloseKeeps(s: State, fd: nat, oks: seq<bool>)
    requires Inv(s) && fd in s.fds.lists && |s.fds.lists[fd]| <= |oks|
    ensures Inv(Close(s, fd, oks)) && Spared(s, Close(s, fd, oks))
    ensures Close(s, fd, oks).fds.lists.Keys == s.fds.lists.Keys - {fd} && Close(s, fd, oks).config == s.config
    ensures forall u :: u in Close(s, fd, oks).info <==> u in s.info && s.fds.owner[u] != fd
  {
    hide RemoveAll, Linked, Mirrored, Steered;
    var us := s.fds.lists[fd];
    var t, r := RemoveAll(s, us, oks), Close(s, fd, oks);
    RemoveAllKeeps(s, us, oks);
    ListEmptied(s.fds, t.fds, fd, us);
    DropList(t.fds, fd);
    assert Keys(r) == Keys(t);
    StillSteered(t, r);
    OnlyOnOwn(s.fds, fd);
  }

  lemma OnlyOnOwn(k: Links, l: nat)
    requires Linked(k) && l in k.lists
    ensures forall v :: Member(v, k.lists[l]) <==> v in k.owner && k.owner[v] == l
  {
  }

  lemma InterfaceDownKeeps(s: State, dev: nat, oks: seq<bool>)
    requires Inv(s) && (dev in s.intfs.lists ==> |s.intfs.lists[dev]| <= |oks|)
    ensures Inv(InterfaceDown(s, dev, oks)) && Spared(s, InterfaceDown(s, dev, oks))
    ensures InterfaceDown(s, dev, oks).config == s.config - {dev}
    ensures forall u :: u in InterfaceDown(s, dev, oks).info <==> u in s.info && s.intfs.owner[u] != dev
  {
    hide RemoveAll, Linked, Mirrored, Steered;
    if dev in s.intfs.lists {
      var us := s.intfs.lists[dev];
      var t, r := RemoveAll(s, us, oks), InterfaceDown(s, dev, oks);
      RemoveAllKeeps(s, us, oks);
      ListEmptied(s.intfs, t.intfs, dev, us);
      DropList(t.intfs, dev);
      assert Keys(r) == Keys(t);
      StillSteered(t, r);
      OnlyOnOwn(s.intfs, dev);
    } else {
      OwnersExist(s.intfs);
    }
  }

  lemma OwnersExist(k: Links)
    requires Linked(k)
    ensures forall v :: v in k.owner ==> k.owner[v] in k.lists
  {
  }

  // ----- Adding

  lemma {:induction false} FindInIs(list: seq<nat>, info: map<nat, Info>, t: Tuple)
    ensures var r := FindIn(list, info, t);
            if r.Some? then Member(r.value, list) && r.value in info && info[r.value].tuple == t
            else forall u :: Member(u, list) && u in info ==> info[u].tuple != t
    decreases |list|
  {
    if list == [] {
    } else {
      FindInIs(list[1..], info, t);
      assert list == [list[0]] + list[1..];
    }
  }

  /** A search of an interface's list finds the filter for a match if there is one. */
  lemma FindIs(s: State, dev: nat, t: Tuple)
    requires Inv(s) && dev in s.intfs.lists
    ensures var r := FindIn(s.intfs.lists[dev], s.info, t);
            if r.Some? then r.value in s.info && KeyOf(s, r.value) == (dev, t) else (dev, t) !in Keys(s).Values
  {
    hide Linked, Mirrored, Steered, FindIn;
    FindInIs(s.intfs.lists[dev], s.info, t);
    OnlyOnOwn(s.intfs, dev);
  }

  lemma NextUnused(s: State)
    requires Numbered(s)
    ensures s.next !in s.info
  {
  }

  lemma KeysWith(s: State, t: State, u: nat, dev: nat, i: Info)
    requires Consistent(s) && t.info == s.info[u := i] && t.intfs.owner == s.intfs.owner[u := dev]
    requires t.fds.owner.Keys == s.fds.owner.Keys + {u}
    ensures Consistent(t) && Keys(t) == Keys(s)[u := (dev, i.tuple)]
    ensures u !in s.info ==> u !in Keys(s)
  {
  }

  lemma StillConfigured(s: State, t: State)
    requires Configured(s) && t.config == s.config && t.nCpus == s.nCpus && t.intfs.lists.Keys == s.intfs.lists.Keys
    ensures Configured(t)
  {
  }

  lemma StillNumbered(s: State, t: State, u: nat)
    requires Numbered(s) && t.info.Keys == s.info.Keys + {u} && u < t.next && s.next <= t.next
    ensures Numbered(t)
  {
  }

  lemma LinkIs(k: Links, u: nat, l: nat)
    requires l in k.lists
    ensures Link(k, u, l).owner == k.owner[u := l] && Link(k, u, l).lists.Keys == k.lists.Keys
  {
  }

  lemma InsertNewKeeps(s: State, fd: nat, dev: nat, i: Info, a: Reply)
    requires Inv(s) && fd in s.fds.lists && dev in s.intfs.lists && (dev, i.tuple) !in Keys(s).Values
    ensures Inv(InsertNew(s, fd, dev, i, a).0)
    ensures var (t, rc, e) := InsertNew(s, fd, dev, i, a);
            if rc != 0 then t == s
            else
              && s.next in t.info && t.info[s.next] == i
              && t.fds.owner[s.next] == fd && t.intfs.owner[s.next] == dev
  {
    hide Linked, Mirrored, Steered, Configured, Numbered, Keys, Link;
    if a.setRc == 0 && a.insertRc >= 0 {
      var u, t := s.next, InsertNew(s, fd, dev, i, a).0;
      NextUnused(s);
      LinkKeeps(s.fds, u, fd);
      LinkKeeps(s.intfs, u, dev);
      LinkIs(s.fds, u, fd);
      LinkIs(s.intfs, u, dev);
      KeysWith(s, t, u, dev, i);
      KeysAdded(Keys(s), u, (dev, i.tuple), s.hw.Keys, s.stale);
      assert t.hw.Keys == s.hw.Keys + {(dev, i.tuple)};
      InsertSteered(s, t, u, dev, i);
      StillConfigured(s, t);
      assert Numbered(t) by { StillNumbered(s, t, u); }
    }
  }

  /** Moving a filter to another descriptor. */
  lemma MoveKeeps(s: State, u: nat, fd: nat, i: Info)
    requires Inv(s) && u in s.info && fd in s.fds.lists && i.tuple == s.info[u].tuple && i.rxq == s.info[u].rxq
    ensures var t := s.(fds := Link(Unlink(s.fds, u), u, fd), info := s.info[u := i]);
            Inv(t) && t.fds.owner[u] == fd
  {
    hide Linked, Mirrored, Steered, Configured, Unlink, Link;
    UnlinkKeeps(s.fds, u);
    LinkKeeps(Unlink(s.fds, u), u, fd);
    LinkIs(Unlink(s.fds, u), u, fd);
    var t := s.(fds := Link(Unlink(s.fds, u), u, fd), info := s.info[u := i]);
    StillConfigured(s, t);
    assert Keys(t) == Keys(s);
    assert Steered(t) by { MovedSteered(s, t, u, i); }
  }

  lemma MovedSteered(s: State, t: State, u: nat, i: Info)
    requires Steered(s) && u in s.info && i.tuple == s.info[u].tuple && i.rxq == s.info[u].rxq
    requires t.info == s.info[u := i] && t.hw == s.hw && t.intfs == s.intfs
    ensures Steered(t)
  {
  }

  /** A successful add leaves one filter for the match, on the list of the descriptor that
      asked for it, steering to the queue chosen. */
  ghost predicate Owns(t: State, fd: nat, dev: nat, i: Info)
  {
    exists u :: u in t.info && u in t.fds.owner && u in t.intfs.owner
      && t.info[u] == i && t.fds.owner[u] == fd && t.intfs.owner[u] == dev
  }

  lemma AddForKeeps(s: State, fd: nat, dev: nat, i: Info, a: Reply)
    requires Inv(s) && fd in s.fds.lists && dev in s.intfs.lists
    ensures Inv(AddFor(s, fd, dev, i, a).0)
    ensures AddFor(s, fd, dev, i, a).1 == 0 ==> Owns(AddFor(s, fd, dev, i, a).0, fd, dev, i)
  {
    hide Linked, Mirrored, Steered, Configured, Numbered, FindIn, InsertNew, Remove, Link, Unlink;
    FindIs(s, dev, i.tuple);
    var found := FindIn(s.intfs.lists[dev], s.info, i.tuple);
    if found.Some? {
      var u := found.value;
      if s.info[u].rxq == i.rxq {
        MoveKeeps(s, u, fd, i);
      } else {
        var t := Remove(s, u, a.removeOk);
        RemoveKeeps(s, u, a.removeOk);
        RemoveLess(s, u, a.removeOk);
        assert (dev, i.tuple) !in Keys(t).Values by { GoneFromKeys(Keys(s), u, s.hw.Keys, s.stale); }
        InsertNewKeeps(t, fd, dev, i, a);
      }
    } else {
      InsertNewKeeps(s, fd, dev, i, a);
    }
  }

  lemma GoneFromKeys(keys: map<nat, Key>, u: nat, hw: set<Key>, stale: set<Key>)
    requires Mirrored(keys, hw, stale) && u in keys
    ensures keys[u] !in (keys - {u}).Values
  {
  }

  lemma FilterAddKeeps(s: State, fd: nat, cpu: int, rxq: int, dev: nat, t: Tuple, a: Reply)
    requires Inv(s) && fd in s.fds.lists
    ensures Inv(FilterAdd(s, fd, cpu, rxq, dev, t, a).0)
  {
    hide Inv, AddFor;
    if dev in s.config && dev in s.intfs.lists {
      var c, at := s.config[dev], if cpu < 0 then a.here else cpu;
      var q := if rxq >= 0 then rxq else if at < |c.cpuToQ| then c.cpuToQ[at] else -1;
      AddForKeeps(s, fd, dev, Info(t, q, at, rxq), a);
    }
  }

  /** The same, in the terms of the call: after success there is one filter for the match, it is
      the caller's, and it steers to the queue asked for or else to that of the cpu. */
  lemma FilterAddOwns(s: State, fd: nat, cpu: int, rxq: int, dev: nat, t: Tuple, a: Reply)
    requires Inv(s) && fd in s.fds.lists && a.here < s.nCpus
    requires FilterAdd(s, fd, cpu, rxq, dev, t, a).1 == 0
    ensures dev in s.config
    ensures var at := if cpu < 0 then a.here else cpu; 0 <= at < |s.config[dev].cpuToQ|
    ensures var at := if cpu < 0 then a.here else cpu;
            var q := if rxq >= 0 then rxq else s.config[dev].cpuToQ[at];
            0 <= q < s.config[dev].nRxqs && Owns(FilterAdd(s, fd, cpu, rxq, dev, t, a).0, fd, dev, Info(t, q, at, rxq))
  {
    hide Linked, Mirrored, Steered, AddFor, Owns;
    var c, at := s.config[dev], if cpu < 0 then a.here else cpu;
    assert QueuesOk(c, s.nCpus);
    var q := if rxq >= 0 then rxq else c.cpuToQ[at];
    AddForKeeps(s, fd, dev, Info(t, q, at, rxq), a);
  }

  /** An add touches no filter but the one for its own match. */
  lemma AddForSpares(s: State, fd: nat, dev: nat, i: Info, a: Reply, v: nat)
    requires Inv(s) && fd in s.fds.lists && dev in s.intfs.lists && v in s.info && KeyOf(s, v) != (dev, i.tuple)
    ensures var r := AddFor(s, fd, dev, i, a).0; SameFilter(s, r, v)
  {
    hide Linked, Mirrored, Steered, Configured, Keys, FindIn, Remove, Unlink, Link;
    FindIs(s, dev, i.tuple);
    var found := FindIn(s.intfs.lists[dev], s.info, i.tuple);
    if found.Some? {
      var u := found.value;
      UnlinkKeeps(s.fds, u);
      RemoveKeeps(s, u, a.removeOk);
      RemoveLess(s, u, a.removeOk);
      LinkIs(Unlink(s.fds, u), u, fd);
      InsertNewSpares(Remove(s, u, a.removeOk), fd, dev, i, a, v);
    } else {
      InsertNewSpares(s, fd, dev, i, a, v);
    }
  }

  lemma InsertNewSpares(s: State, fd: nat, dev: nat, i: Info, a: Reply, v: nat)
    requires Numbered(s) && Consistent(s) && fd in s.fds.lists && dev in s.intfs.lists && v in s.info
    ensures var r := InsertNew(s, fd, dev, i, a).0; SameFilter(s, r, v)
  {
  }

  lemma FilterAddSpares(s: State, fd: nat, cpu: int, rxq: int, dev: nat, t: Tuple, a: Reply, v: nat)
    requires Inv(s) && fd in s.fds.lists && v in s.info && KeyOf(s, v) != (dev, t)
    ensures var r := FilterAdd(s, fd, cpu, rxq, dev, t, a).0; SameFilter(s, r, v)
  {
    hide Linked, Mirrored, Steered, AddFor;
    if dev in s.config && dev in s.intfs.lists {
      var c, at := s.config[dev], if cpu < 0 then a.here else cpu;
      var q := if rxq >= 0 then rxq else if at < |c.cpuToQ| then c.cpuToQ[at] else -1;
      AddForSpares(s, fd, dev, Info(t, q, at, rxq), a, v);
    }
  }

  /** A match that can be steered: TCP or UDP, to an address and port, from both or neither. */
  predicate Steerable(t: Tuple)
  {
    && t.protocol in {6, 17} && t.daddr > 0 && t.dport > 0
    && ((t.saddr > 0 && t.sport > 0) || (t.saddr == 0 && t.sport == 0))
  }

  /** There is a filter for the match at the queue already. */
  ghost predicate At(s: State, dev: nat, t: Tuple, q: int)
  {
    exists u :: u in s.info && u in s.intfs.owner && KeyOf(s, u) == (dev, t) && s.info[u].rxq == q
  }

  /** An add succeeds exactly when its match can be steered, its cpu, interface and queue exist, the queue
      is given or configured for the cpu, memory can be had, and the filter is there
      already or the hardware takes it. */
  lemma AddSucceedsIff(s: State, fd: nat, cpu: int, rxq: int, dev: nat, t: Tuple, a: Reply)
    requires Inv(s) && fd in s.fds.lists && a.here < s.nCpus
    ensures FilterAdd(s, fd, cpu, rxq, dev, t, a).1 == 0 <==>
            && Steerable(t) && cpu < s.nCpus && a.memory && dev in s.config && rxq < s.config[dev].nRxqs
            && var at := if cpu < 0 then a.here else cpu;
               && at < |s.config[dev].cpuToQ|
               && var q := if rxq >= 0 then rxq else s.config[dev].cpuToQ[at];
                  q >= 0 && (At(s, dev, t, q) || (a.setRc == 0 && a.insertRc >= 0))
  {
    hide Linked, Mirrored, Steered, FindIn, Remove, Link, Unlink;
    if dev in s.config {
      assert QueuesOk(s.config[dev], s.nCpus);
      FindIs(s, dev, t);
      OnlyOne(s, dev, t);
    }
  }

  lemma OnlyOne(s: State, dev: nat, t: Tuple)
    requires Inv(s) && dev in s.intfs.lists
    ensures var r := FindIn(s.intfs.lists[dev], s.info, t);
            forall u :: u in s.info && KeyOf(s, u) == (dev, t) ==> r == Some(u)
  {
    hide Linked, Steered, FindIn;
    FindIs(s, dev, t);
    var r := FindIn(s.intfs.lists[dev], s.info, t);
    forall u | u in s.info && KeyOf(s, u) == (dev, t)
      ensures r == Some(u)
    {
      assert u in Keys(s) && Keys(s)[u] == (dev, t);
      assert r.Some? && r.value in Keys(s) && Keys(s)[r.value] == (dev, t);
    }
  }

  /** What a failed add reports: the first check that fails, in this order, or the answer of the layer below. */
  lemma AddReports(s: State, fd: nat, cpu: int, rxq: int, dev: nat, t: Tuple, a: Reply)
    requires Inv(s) && fd in s.fds.lists && a.here < s.nCpus && FilterAdd(s, fd, cpu, rxq, dev, t, a).1 != 0
    ensures var (_, rc, e) := FilterAdd(s, fd, cpu, rxq, dev, t, a);
            && (t.protocol !in {6, 17} ==> e == BadProtocol)
            && (t.protocol in {6, 17} && !Steerable(t) ==> e == BadSaddr || e == BadDaddr)
            && (e == BadSaddr ==> (t.saddr > 0 && t.sport == 0) || (t.saddr == 0 && t.sport > 0))
            && (e == BadDaddr ==> t.daddr == 0 || t.dport == 0)
            && (Steerable(t) && cpu >= s.nCpus ==> e == BadCpu)
            && (!Steerable(t) || cpu >= s.nCpus ==> rc == -EINVAL)
            && (Steerable(t) && cpu < s.nCpus ==>
                && (!a.memory ==> rc == -ENOMEM && e == NoError)
                && (a.memory && dev !in s.config ==> rc == -EINVAL && e == NotSupported)
                && (a.memory && dev in s.config && rxq >= s.config[dev].nRxqs ==> rc == -EINVAL && e == BadRxq)
                && (e == NotConfigured ==> rc == -EINVAL)
                && (a.memory && dev in s.config && rxq < s.config[dev].nRxqs ==>
                    (e == NotConfigured <==>
                     rxq < 0 && s.config[dev].cpuToQ[if cpu < 0 then a.here else cpu] == -1))
                && (e == SetFail ==> rc == if a.setRc != 0 then a.setRc else a.insertRc))
  {
    hide Linked, Mirrored, Steered, FindIn, Remove, Link, Unlink;
    if dev in s.config {
      assert QueuesOk(s.config[dev], s.nCpus);
    }
  }

  /** The queue a request steers to, negative when there is none. */
  function QueueFor(c: Config, cpu: int, rxq: int, here: nat): int
  {
    var at := if cpu < 0 then here else cpu;
    if rxq >= 0 then rxq else if at < |c.cpuToQ| then c.cpuToQ[at] else -1
  }

  /** The request passes all checks and finds a filter for its match at another queue. */
  predicate Replaces(s: State, cpu: int, rxq: int, dev: nat, t: Tuple, a: Reply)
  {
    && Refused(t, cpu, s.nCpus) == NoError && a.memory && dev in s.config && dev in s.intfs.lists
    && rxq < s.config[dev].nRxqs && QueueFor(s.config[dev], cpu, rxq, a.here) >= 0
    && var found := FindIn(s.intfs.lists[dev], s.info, t);
       found.Some? && found.value in s.info && s.info[found.value].rxq != QueueFor(s.config[dev], cpu, rxq, a.here)
  }

  /** An add that fails changes nothing exactly when it was not to replace a filter at
      another queue; such a filter is already gone when the failure comes. */
  lemma FailedAddIff(s: State, fd: nat, cpu: int, rxq: int, dev: nat, t: Tuple, a: Reply)
    requires Inv(s) && fd in s.fds.lists && FilterAdd(s, fd, cpu, rxq, dev, t, a).1 != 0
    ensures var r := FilterAdd(s, fd, cpu, rxq, dev, t, a).0;
            && (r == s <==> !Replaces(s, cpu, rxq, dev, t, a))
            && (Replaces(s, cpu, rxq, dev, t, a) ==>
                r == Remove(s, FindIn(s.intfs.lists[dev], s.info, t).value, a.removeOk) && (dev, t) !in Keys(r).Values)
  {
    hide Linked, Mirrored, Steered, Configured, Numbered, FindIn, Remove, Link, Unlink;
    if dev in s.intfs.lists {
      FindIs(s, dev, t);
      var found := FindIn(s.intfs.lists[dev], s.info, t);
      if found.Some? {
        RemoveKeeps(s, found.value, a.removeOk);
        GoneFromKeys(Keys(s), found.value, s.hw.Keys, s.stale);
      }
    }
  }

  // ----- Deleting

  lemma {:induction false} MatchingIs(s: State, us: seq<nat>, dev: Option<nat>, t: Tuple, u: nat)
    ensures Member(u, Matching(s, us, dev, t)) <==> Member(u, us) && Matches(s, u, dev, t)
    decreases |us|
  {
    if us == [] {
    } else {
      MatchingIs(s, us[1..], dev, t, u);
      assert us == [us[0]] + us[1..];
    }
  }

  /** A filter of the descriptor, with the match, and on the interface if one is given. */
  predicate Deletable(s: State, u: nat, fd: nat, dev: Option<nat>, t: Tuple)
  {
    && u in s.info && u in s.fds.owner && u in s.intfs.owner
    && s.fds.owner[u] == fd && s.info[u].tuple == t && (dev.Some? ==> s.intfs.owner[u] == dev.value)
  }

  /** A delete removes exactly the caller's filters with the match (on the given interface
      if one is given), and fails exactly when there are none. */
  lemma FilterDelIs(s: State, fd: nat, dev: Option<nat>, t: Tuple, oks: seq<bool>)
    requires Inv(s) && fd in s.fds.lists && |s.fds.lists[fd]| <= |oks|
    ensures Inv(FilterDel(s, fd, dev, t, oks).0) && Spared(s, FilterDel(s, fd, dev, t, oks).0)
    ensures var (r, rc, e) := FilterDel(s, fd, dev, t, oks);
            && (forall u :: u in r.info <==> u in s.info && !Deletable(s, u, fd, dev, t))
            && (if exists u :: Deletable(s, u, fd, dev, t) then rc == 0 else rc == -EINVAL && e == NotFound && r == s)
  {
    hide Linked, Mirrored, Steered, Matching, RemoveAll;
    var list := s.fds.lists[fd];
    var us := Matching(s, list, dev, t);
    RemoveAllKeeps(s, us, oks);
    OnlyOnOwn(s.fds, fd);
    forall u
      ensures Member(u, us) <==> Deletable(s, u, fd, dev, t)
    {
      MatchingIs(s, list, dev, t, u);
    }
    if us != [] {
      assert Member(us[0], us);
    }
  }

  // ----- Interfaces

  lemma NewList(k: Links, l: nat)
    requires Linked(k) && l !in k.lists
    ensures Linked(k.(lists := k.lists[l := []]))
  {
  }

  lemma InterfaceUpInv(s: State, dev: nat, nRxqs: int)
    requires Inv(s)
    ensures Inv(InterfaceUp(s, dev, nRxqs))
  {
    hide Mirrored, Steered, Linked;
    var t := InterfaceUp(s, dev, nRxqs);
    if dev !in s.config {
      NewList(s.intfs, dev);
    }
    StillSteered(s, t);
    assert QueuesOk(Config(nRxqs, NotConfiguredYet(s.nCpus)), s.nCpus);
    assert Keys(t) == Keys(s);
  }

  lemma InterfaceUpKeeps(s: State, dev: nat, nRxqs: int)
    requires Inv(s)
    ensures var t := InterfaceUp(s, dev, nRxqs);
            && Inv(t) && t == s.(config := t.config, intfs := t.intfs) && t.intfs.owner == s.intfs.owner
            && t.config.Keys == s.config.Keys + {dev} && t.config[dev].nRxqs == nRxqs
            && (forall d :: d in s.config && (d != dev || s.config[d].nRxqs == nRxqs) ==> t.config[d] == s.config[d])
            && (dev !in s.config || s.config[dev].nRxqs != nRxqs ==>
                forall i :: 0 <= i < s.nCpus ==> t.config[dev].cpuToQ[i] == -1)
  {
    hide Mirrored, Steered, Linked, Keys, Numbered, QueuesOk;
    InterfaceUpInv(s, dev, nRxqs);
  }

  lemma ConfigureKeeps(s: State, dev: nat, nRxqs: int, cpuToQ: seq<int>)
    requires Inv(s)
    ensures var (t, rc) := Configure(s, dev, nRxqs, cpuToQ);
            && Inv(t) && t == s.(config := t.config)
            && (rc == 0 <==>
                dev in s.config && |cpuToQ| == s.nCpus && forall i :: 0 <= i < s.nCpus ==> 0 <= cpuToQ[i] < nRxqs)
            && (rc == 0 ==> t.config == s.config[dev := Config(nRxqs, cpuToQ)])
            && (rc != 0 ==> t == s && rc == -EINVAL)
  {
    hide Mirrored, Steered, Linked;
    assert Keys(Configure(s, dev, nRxqs, cpuToQ).0) == Keys(s);
    StillSteered(s, Configure(s, dev, nRxqs, cpuToQ).0);
  }

  lemma OpenKeeps(s: State, fd: nat)
    requires Inv(s)
    ensures Inv(Open(s, fd))
  {
    hide Mirrored, Steered, Linked;
    if fd !in s.fds.lists {
      NewList(s.fds, fd);
    }
    assert Keys(Open(s, fd)) == Keys(s);
    StillSteered(s, Open(s, fd));
  }

  // ----- Runs

  datatype Op =
    | OpOpen(fd: nat)
    | OpClose(fd: nat, oks: seq<bool>)
    | OpAdd(fd: nat, cpu: int, rxq: int, dev: nat, t: Tuple, a: Reply)
    | OpDel(fd: nat, on: Option<nat>, t: Tuple, oks: seq<bool>)
    | OpUp(dev: nat, n: int)
    | OpConfigure(dev: nat, n: int, cpuToQ: seq<int>)
    | OpDown(dev: nat, oks: seq<bool>)

  /** An operation names an open descriptor and brings a reply for every removal. */
  predicate Enabled(s: State, op: Op)
  {
    match op
    case OpOpen(_) => true
    case OpClose(fd, oks) => fd in s.fds.lists && |s.fds.lists[fd]| <= |oks|
    case OpAdd(fd, _, _, _, _, _) => fd in s.fds.lists
    case OpDel(fd, _, _, oks) => fd in s.fds.lists && |s.fds.lists[fd]| <= |oks|
    case OpUp(_, _) => true
    case OpConfigure(_, _, _) => true
    case OpDown(dev, oks) => dev in s.intfs.lists ==> |s.intfs.lists[dev]| <= |oks|
  }

  function Apply(s: State, op: Op): State
    requires Enabled(s, op)
  {
    match op
    case OpOpen(fd) => Open(s, fd)
    case OpClose(fd, oks) => Close(s, fd, oks)
    case OpAdd(fd, cpu, rxq, dev, t, a) => FilterAdd(s, fd, cpu, rxq, dev, t, a).0
    case OpDel(fd, on, t, oks) => FilterDel(s, fd, on, t, oks).0
    case OpUp(dev, n) => InterfaceUp(s, dev, n)
    case OpConfigure(dev, n, cpuToQ) => Configure(s, dev, n, cpuToQ).0
    case OpDown(dev, oks) => InterfaceDown(s, dev, oks)
  }

  lemma ApplyKeeps(s: State, op: Op)
    requires Inv(s) && Enabled(s, op)
    ensures Inv(Apply(s, op))
  {
    hide Inv, Open, Close, FilterAdd, FilterDel, InterfaceUp, Configure, InterfaceDown;
    match op
    case OpOpen(fd) => OpenKeeps(s, fd);
    case OpClose(fd, oks) => CloseKeeps(s, fd, oks);
    case OpAdd(fd, cpu, rxq, dev, t, a) => FilterAddKeeps(s, fd, cpu, rxq, dev, t, a);
    case OpDel(fd, on, t, oks) => FilterDelIs(s, fd, on, t, oks);
    case OpUp(dev, n) => InterfaceUpKeeps(s, dev, n);
    case OpConfigure(dev, n, cpuToQ) => ConfigureKeeps(s, dev, n, cpuToQ);
    case OpDown(dev, oks) => InterfaceDownKeeps(s, dev, oks);
  }

  ghost predicate AllEnabled(s: State, ops: seq<Op>)
    decreases |ops|
  {
    ops != [] ==> Enabled(s, ops[0]) && AllEnabled(Apply(s, ops[0]), ops[1..])
  }

  ghost function Run(s: State, ops: seq<Op>): State
    requires AllEnabled(s, ops)
    decreases |ops|
  {
    if ops == [] then s else Run(Apply(s, ops[0]), ops[1..])
  }

  /** Over every run each filter is on one descriptor's list and one interface's list, an
      interface has at most one filter for a match, the hardware has the listed filters
      and those it failed to remove, and every queue map stays in range. */
  lemma {:induction false} RunKeeps(s: State, ops: seq<Op>)
    requires Inv(s) && AllEnabled(s, ops)
    ensures Inv(Run(s, ops))
    decreases |ops|
  {
    hide Inv, Apply, Enabled;
    if ops == [] {
    } else {
      ApplyKeeps(s, ops[0]);
      RunKeeps(Apply(s, ops[0]), ops[1..]);
    }
  }

  function Initial(nCpus: nat): State
  {
    State(Links(map[], map[]), Links(map[], map[]), map[], map[], map[], {}, 0, nCpus)
  }

  lemma InitInv(nCpus: nat)
    ensures Inv(Initial(nCpus))
  {
    assert Keys(Initial(nCpus)) == map[];
  }

  const FLOW := Tuple(IPPROTO_TCP, 1, 1, 0, 0)

  /** One cpu; descriptor 0 is open, interface 7 is up with two queues and not configured. */
  function Waiting(): State
  {
    State(Links(map[0 := []], map[]), Links(map[7 := []], map[]), map[], map[7 := Config(2, [-1])], map[], {}, 0, 1)
  }

  /** The same with a filter for the flow at queue 0. */
  function Steering(): State
  {
    State(Links(map[0 := [0]], map[0 := 0]), Links(map[7 := [0]], map[0 := 7]), map[0 := Info(FLOW, 0, 0, 0)],
          map[7 := Config(2, [-1])], map[(7, FLOW) := 0], {}, 1, 1)
  }

  lemma BecomesWaiting()
    ensures InterfaceUp(Open(Initial(1), 0), 7, 2) == Waiting()
  {
    assert NotConfiguredYet(1) == [-1];
  }

  lemma BecomesSteering()
    ensures FilterAdd(Waiting(), 0, 0, 0, 7, FLOW, Reply(true, 0, true, 0, 5)).0 == Steering()
  {
    var s := Waiting();
    assert FindIn(s.intfs.lists[7], s.info, FLOW) == None;
    var none: seq<nat> := [];
    assert [0] + none == [0];
    assert s.fds.lists[0 := [0]] == Steering().fds.lists && s.fds.owner[0 := 0] == Steering().fds.owner;
    assert s.intfs.lists[7 := [0]] == Steering().intfs.lists && s.intfs.owner[0 := 7] == Steering().intfs.owner;
    assert s.info[0 := Info(FLOW, 0, 0, 0)] == Steering().info;
  }

  lemma SteeringReached()
    ensures var ops := [OpOpen(0), OpUp(7, 2), OpAdd(0, 0, 0, 7, FLOW, Reply(true, 0, true, 0, 5))];
            AllEnabled(Initial(1), ops) && Run(Initial(1), ops) == Steering()
  {
    var a, b, c := OpOpen(0), OpUp(7, 2), OpAdd(0, 0, 0, 7, FLOW, Reply(true, 0, true, 0, 5));
    BecomesWaiting();
    BecomesSteering();
    var s1 := Apply(Initial(1), a);
    assert Apply(s1, b) == Waiting() && Enabled(Waiting(), c) && Apply(Waiting(), c) == Steering();
    hide Apply;
    assert [a, b, c][1..] == [b, c] && [b, c][1..] == [c] && [c][1..] == [];
    assert AllEnabled(Waiting(), [c]) && Run(Waiting(), [c]) == Steering();
    assert AllEnabled(s1, [b, c]) && Run(s1, [b, c]) == Steering();
  }

  /** From the empty state a descriptor is opened, an interface comes up and a filter for a
      flow is added at queue 0. Adding it at queue 1 fails when the table is full, and then
      there is no filter for the flow any more. */
  lemma FailedAddLoses()
    ensures var ops := [OpOpen(0), OpUp(7, 2), OpAdd(0, 0, 0, 7, FLOW, Reply(true, 0, true, 0, 5))];
            && AllEnabled(Initial(1), ops)
            && var s := Run(Initial(1), ops);
               var (r, rc, _) := FilterAdd(s, 0, 0, 1, 7, FLOW, Reply(true, 0, true, 0, -EBUSY));
               && Inv(s) && Inv(r) && rc == -EBUSY
               && (7, FLOW) in Keys(s).Values && (7, FLOW) !in Keys(r).Values
  {
    hide AllEnabled, Run, Linked, Mirrored, Configured, Unlink, Link;
    var bad := Reply(true, 0, true, 0, -EBUSY);
    var ops := [OpOpen(0), OpUp(7, 2), OpAdd(0, 0, 0, 7, FLOW, Reply(true, 0, true, 0, 5))];
    var s := Steering();
    SteeringReached();
    InitInv(1);
    RunKeeps(Initial(1), ops);
    FilterAddKeeps(s, 0, 0, 1, 7, FLOW, bad);
    assert FindIn(s.intfs.lists[7], s.info, FLOW) == Some(0);
    assert 0 in Keys(s) && Keys(s)[0] == (7, FLOW);
    assert Replaces(s, 0, 1, 7, FLOW, bad);
    hide Remove, FindIn, Replaces;
    FailedAddIff(s, 0, 0, 1, 7, FLOW, bad);
  }

  /** The hardware has exactly the listed filters exactly while none is stale. */
  lemma HardwareIsListed(s: State)
    requires Inv(s)
    ensures s.hw.Keys == Keys(s).Values <==> s.stale == {}
  {
    hide Linked;
    if s.stale != {} {
      var k :| k in s.stale;
      assert k in s.hw;
    }
  }

  predicate RemovalsSucceed(op: Op)
  {
    match op
    case OpClose(_, oks) => forall i :: 0 <= i < |oks| ==> oks[i]
    case OpDel(_, _, _, oks) => forall i :: 0 <= i < |oks| ==> oks[i]
    case OpDown(_, oks) => forall i :: 0 <= i < |oks| ==> oks[i]
    case OpAdd(_, _, _, _, _, a) => a.removeOk
    case _ => true
  }

  lemma {:induction false} RemoveAllClean(s: State, us: seq<nat>, oks: seq<bool>)
    requires |us| <= |oks| && forall i :: 0 <= i < |oks| ==> oks[i]
    ensures RemoveAll(s, us, oks).stale == s.stale
    decreases |us|
  {
    if us == [] {
    } else {
      RemoveAllClean(Remove(s, us[0], oks[0]), us[1..], oks[1..]);
    }
  }

  lemma ApplyClean(s: State, op: Op)
    requires Enabled(s, op) && RemovalsSucceed(op)
    ensures Apply(s, op).stale <= s.stale
  {
    hide RemoveAll, FindIn, Matching, Link, Unlink;
    match op
    case OpClose(fd, oks) => RemoveAllClean(s, s.fds.lists[fd], oks);
    case OpDel(fd, on, t, oks) => RemoveAllClean(s, Matching(s, s.fds.lists[fd], on, t), oks);
    case OpDown(dev, oks) =>
      if dev in s.intfs.lists {
        RemoveAllClean(s, s.intfs.lists[dev], oks);
      }
    case _ =>
  }

  /** As long as every removal succeeds, the hardware has exactly the listed filters. */
  lemma {:induction false} RunClean(s: State, ops: seq<Op>)
    requires Inv(s) && AllEnabled(s, ops) && s.stale == {}
    requires forall i :: 0 <= i < |ops| ==> RemovalsSucceed(ops[i])
    ensures var r := Run(s, ops); Inv(r) && r.hw.Keys == Keys(r).Values
    decreases |ops|
  {
    hide Inv, Apply, Enabled, RemovalsSucceed;
    RunKeeps(s, ops);
    if ops == [] {
      HardwareIsListed(s);
    } else {
      ApplyKeeps(s, ops[0]);
      ApplyClean(s, ops[0]);
      RunClean(Apply(s, ops[0]), ops[1..]);
    }
  }

  /** The reasons for a failed insert are told apart by positive error numbers, but the
      result is negative: the reason reported is always the same. */
  lemma ReasonNeverTold(rc: int)
    requires rc < 0
    ensures InsertFailReason(rc) == SetFail
  {
  }
}
