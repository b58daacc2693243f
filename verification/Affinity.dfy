/** The affinity driver: filters that steer flows to receive queues, each on the
    list of the descriptor that asked for it and on the list of its interface. */
module Affinity {
  import opened Common

  // ----- Filters linked into lists

  /** Lists by owner, each holding filter numbers, and for each filter the list it is
      linked into. */
  datatype Links = Links(lists: map<nat, seq<nat>>, owner: map<nat, nat>)

  predicate Distinct(list: seq<nat>) { forall i, j :: 0 <= i < j < |list| ==> list[i] != list[j] }

  predicate Member(u: nat, list: seq<nat>) { u in list }

  /** Every filter is on exactly one list, once. */
  ghost predicate Linked(k: Links)
  {
    && (forall l :: l in k.lists ==> Distinct(k.lists[l]))
    && (forall l, u :: l in k.lists && Member(u, k.lists[l]) ==> u in k.owner && k.owner[u] == l)
    && (forall u :: u in k.owner ==> k.owner[u] in k.lists && Member(u, k.lists[k.owner[u]]))
  }

  function Without(list: seq<nat>, u: nat): seq<nat>
  {
    if list == [] then [] else (if list[0] == u then [] else [list[0]]) + Without(list[1..], u)
  }

  lemma {:induction false} WithoutMember(list: seq<nat>, u: nat, v: nat)
    ensures Member(v, Without(list, u)) <==> Member(v, list) && v != u
    decreases |list|
  {
    if list == [] {
    } else {
      WithoutMember(list[1..], u, v);
      assert list == [list[0]] + list[1..];
    }
  }

  lemma {:induction false} WithoutDistinct(list: seq<nat>, u: nat)
    requires Distinct(list)
    ensures Distinct(Without(list, u))
    decreases |list|
  {
    if list == [] {
    } else {
      var rest := Without(list[1..], u);
      WithoutDistinct(list[1..], u);
      WithoutMember(list[1..], u, list[0]);
      assert !Member(list[0], rest);
      assert forall i :: 0 <= i < |rest| ==> Member(rest[i], rest);
    }
  }

  /** list_del */
  function Unlink(k: Links, u: nat): Links
  {
    if u in k.owner && k.owner[u] in k.lists then
      Links(k.lists[k.owner[u] := Without(k.lists[k.owner[u]], u)], k.owner - {u})
    else k
  }

  /** list_add: at the head. */
  function Link(k: Links, u: nat, l: nat): Links
  {
    if l in k.lists then Links(k.lists[l := [u] + k.lists[l]], k.owner[u := l]) else k
  }

  lemma UnlinkKeeps(k: Links, u: nat)
    requires Linked(k)
    ensures Linked(Unlink(k, u))
    ensures Unlink(k, u).owner == k.owner - {u} && Unlink(k, u).lists.Keys == k.lists.Keys
  {
    hide Without;
    var r := Unlink(k, u);
    if u in k.owner {
      WithoutDistinct(k.lists[k.owner[u]], u);
    }
    forall l, v | l in r.lists && Member(v, r.lists[l])
      ensures v in r.owner && r.owner[v] == l
    {
      if u in k.owner {
        WithoutMember(k.lists[k.owner[u]], u, v);
      }
    }
    forall v | v in r.owner
      ensures r.owner[v] in r.lists && Member(v, r.lists[r.owner[v]])
    {
      if u in k.owner {
        WithoutMember(k.lists[k.owner[u]], u, v);
      }
    }
  }

  lemma LinkKeeps(k: Links, u: nat, l: nat)
    requires Linked(k) && u !in k.owner && l in k.lists
    ensures Linked(Link(k, u, l))
  {
    var list := k.lists[l];
    assert forall v :: Member(v, [u] + list) <==> v == u || Member(v, list);
    assert !Member(u, list);
  }

  // ----- The state

  const IPPROTO_TCP: int := 6
  const IPPROTO_UDP: int := 17

  datatype Tuple = Tuple(protocol: int, daddr: nat, dport: nat, saddr: nat, sport: nat)

  /** The queue a filter steers to, and the cpu and queue asked for. */
  datatype Info = Info(tuple: Tuple, rxq: int, rqCpu: int, rqRxq: int)

  datatype Config = Config(nRxqs: int, cpuToQ: seq<int>)

  /** An interface and a match on it. */
  type Key = (nat, Tuple)

  /** `hw` are the filters the hardware has on this driver's behalf, with the queue each steers
      to, and `stale` those of them that could not be removed when their filter was. */
  datatype State = State(fds: Links, intfs: Links, info: map<nat, Info>, config: map<nat, Config>,
                         hw: map<Key, int>, stale: set<Key>, next: nat, nCpus: nat)

  function KeyOf(s: State, u: nat): Key
    requires u in s.info && u in s.intfs.owner
  {
    (s.intfs.owner[u], s.info[u].tuple)
  }

  ghost predicate Consistent(s: State)
  {
    s.info.Keys == s.intfs.owner.Keys == s.fds.owner.Keys
  }

  /** The match each filter stands for. */
  ghost function Keys(s: State): map<nat, Key>
    requires Consistent(s)
  {
    map u | u in s.info :: KeyOf(s, u)
  }

  predicate QueuesOk(c: Config, nCpus: nat)
  {
    |c.cpuToQ| == nCpus && forall i :: 0 <= i < nCpus ==> c.cpuToQ[i] == -1 || 0 <= c.cpuToQ[i] < c.nRxqs
  }

  /** At most one filter for each match, and the hardware has the filters listed and
      those that could not be removed. */
  ghost predicate Mirrored(keys: map<nat, Key>, hw: set<Key>, stale: set<Key>)
  {
    && (forall u, v :: u in keys && v in keys && u != v ==> keys[u] != keys[v])
    && hw == keys.Values + stale && keys.Values !! stale
  }

  /** The hardware steers each match to the queue that its filter records. */
  ghost predicate Steered(s: State)
  {
    forall u :: u in s.info && u in s.intfs.owner ==> KeyOf(s, u) in s.hw && s.hw[KeyOf(s, u)] == s.info[u].rxq
  }

  ghost predicate Configured(s: State)
  {
    && s.config.Keys == s.intfs.lists.Keys
    && forall d :: d in s.config ==> QueuesOk(s.config[d], s.nCpus)
  }

  ghost predicate Numbered(s: State) { forall u :: u in s.info ==> u < s.next }

  ghost predicate Inv(s: State)
  {
    && Linked(s.fds) && Linked(s.intfs) && Consistent(s)
    && Mirrored(Keys(s), s.hw.Keys, s.stale) && Steered(s) && Configured(s) && Numbered(s)
  }

  // ----- Removing

  /** filter_remove; `ok` tells whether the hardware filter could be removed. */
  function Remove(s: State, u: nat, ok: bool): State
  {
    if u !in s.info || u !in s.intfs.owner then s
    else
      var key := KeyOf(s, u);
      s.(fds := Unlink(s.fds, u), intfs := Unlink(s.intfs, u), info := s.info - {u},
         hw := if ok then s.hw - {key} else s.hw,
         stale := if ok then s.stale else s.stale + {key})
  }

  function RemoveAll(s: State, us: seq<nat>, oks: seq<bool>): State
    requires |us| <= |oks|
    decreases |us|
  {
    if us == [] then s else RemoveAll(Remove(s, us[0], oks[0]), us[1..], oks[1..])
  }

  // ----- filter_add

  datatype Err = NoError | BadProtocol | BadSaddr | BadDaddr | BadCpu | NotSupported | BadRxq
    | NotConfigured | SetFail | TableFull | FilterExists | CannotReplace | NotFound

  function InsertFailReason(rc: int): Err
  {
    if rc == EBUSY then TableFull
    else if rc == EEXIST then FilterExists
    else if rc == EPERM then CannotReplace
    else SetFail
  }

  /** Replies of the system: memory, the cpu the caller runs on, and the results of
      removing a filter, building a specification and inserting it. */
  datatype Reply = Reply(memory: bool, here: nat, removeOk: bool, setRc: int, insertRc: int)

  function Refused(t: Tuple, cpu: int, nCpus: nat): Err
  {
    if t.protocol != IPPROTO_TCP && t.protocol != IPPROTO_UDP then BadProtocol
    else if (t.saddr == 0) != (t.sport == 0) then BadSaddr
    else if t.daddr == 0 || t.dport == 0 then BadDaddr
    else if cpu >= nCpus then BadCpu
    else NoError
  }

  /** The first filter on a list with a given match. */
  function FindIn(list: seq<nat>, info: map<nat, Info>, t: Tuple): Option<nat>
  {
    if list == [] then None
    else if list[0] in info && info[list[0]].tuple == t then Some(list[0])
    else FindIn(list[1..], info, t)
  }

  function InsertNew(s: State, fd: nat, dev: nat, i: Info, a: Reply): (State, int, Err)
  {
    if a.setRc != 0 then (s, a.setRc, SetFail)
    else if a.insertRc < 0 then (s, a.insertRc, InsertFailReason(a.insertRc))
    else
      var u := s.next;
      (s.(next := u + 1, info := s.info[u := i], fds := Link(s.fds, u, fd), intfs := Link(s.intfs, u, dev),
          hw := s.hw[(dev, i.tuple) := i.rxq], stale := s.stale - {(dev, i.tuple)}), 0, NoError)
  }

  /** The part of filter_add that follows the choice of a queue. */
  function AddFor(s: State, fd: nat, dev: nat, i: Info, a: Reply): (State, int, Err)
    requires dev in s.intfs.lists
  {
    var found := FindIn(s.intfs.lists[dev], s.info, i.tuple);
    if found.Some? && found.value in s.info && s.info[found.value].rxq == i.rxq then
      (s.(fds := Link(Unlink(s.fds, found.value), found.value, fd), info := s.info[found.value := i]), 0, NoError)
    else
      InsertNew(if found.Some? then Remove(s, found.value, a.removeOk) else s, fd, dev, i, a)
  }

  function FilterAdd(s: State, fd: nat, cpu: int, rxq: int, dev: nat, t: Tuple, a: Reply): (State, int, Err)
  {
    var e := Refused(t, cpu, s.nCpus);
    if e != NoError then (s, -EINVAL, e)
    else if !a.memory then (s, -ENOMEM, NoError)
    else if dev !in s.config || dev !in s.intfs.lists then (s, -EINVAL, NotSupported)
    else
      var c, at := s.config[dev], if cpu < 0 then a.here else cpu;
      if rxq >= c.nRxqs then (s, -EINVAL, BadRxq)
      else
        var q := if rxq >= 0 then rxq else if at < |c.cpuToQ| then c.cpuToQ[at] else -1;
        if q < 0 then (s, -EINVAL, NotConfigured) else AddFor(s, fd, dev, Info(t, q, at, rxq), a)
  }

  // ----- Other operations

  predicate Matches(s: State, u: nat, dev: Option<nat>, t: Tuple)
  {
    u in s.info && u in s.intfs.owner && s.info[u].tuple == t && (dev.None? || s.intfs.owner[u] == dev.value)
  }

  /** The filters among `us` that filter_del is to remove. */
  function Matching(s: State, us: seq<nat>, dev: Option<nat>, t: Tuple): (r: seq<nat>)
    ensures |r| <= |us|
  {
    if us == [] then [] else (if Matches(s, us[0], dev, t) then [us[0]] else []) + Matching(s, us[1..], dev, t)
  }

  function FilterDel(s: State, fd: nat, dev: Option<nat>, t: Tuple, oks: seq<bool>): (State, int, Err)
    requires fd in s.fds.lists && |s.fds.lists[fd]| <= |oks|
  {
    var us := Matching(s, s.fds.lists[fd], dev, t);
    if us == [] then (s, -EINVAL, NotFound) else (RemoveAll(s, us, oks), 0, NoError)
  }

  function Open(s: State, fd: nat): State
  {
    if fd in s.fds.lists then s else s.(fds := s.fds.(lists := s.fds.lists[fd := []]))
  }

  /** fop_close; the descriptor is gone afterwards. */
  function Close(s: State, fd: nat, oks: seq<bool>): State
    requires fd in s.fds.lists && |s.fds.lists[fd]| <= |oks|
  {
    var s' := RemoveAll(s, s.fds.lists[fd], oks);
    s'.(fds := s'.fds.(lists := s'.fds.lists - {fd}))
  }

  function NotConfiguredYet(nCpus: nat): seq<int> { seq(nCpus, _ => -1) }

  function InterfaceUp(s: State, dev: nat, nRxqs: int): State
  {
    if dev in s.config then
      if s.config[dev].nRxqs != nRxqs then s.(config := s.config[dev := Config(nRxqs, NotConfiguredYet(s.nCpus))])
      else s
    else
      s.(config := s.config[dev := Config(nRxqs, NotConfiguredYet(s.nCpus))],
         intfs := s.intfs.(lists := s.intfs.lists[dev := []]))
  }

  predicate GoodMap(cpuToQ: seq<int>, nCpus: nat, nRxqs: int)
  {
    |cpuToQ| == nCpus && forall i :: 0 <= i < nCpus ==> 0 <= cpuToQ[i] < nRxqs
  }

  function Configure(s: State, dev: nat, nRxqs: int, cpuToQ: seq<int>): (State, int)
  {
    if !GoodMap(cpuToQ, s.nCpus, nRxqs) || dev !in s.config then (s, -EINVAL)
    else (s.(config := s.config[dev := Config(nRxqs, cpuToQ)]), 0)
  }

  function InterfaceDown(s: State, dev: nat, oks: seq<bool>): State
    requires dev in s.intfs.lists ==> |s.intfs.lists[dev]| <= |oks|
  {
    if dev !in s.intfs.lists then s
    else
      var s' := RemoveAll(s, s.intfs.lists[dev], oks);
      s'.(intfs := s'.intfs.(lists := s'.intfs.lists - {dev}), config := s'.config - {dev})
  }
}
