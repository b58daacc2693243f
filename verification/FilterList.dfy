/** The list of filters of a resource in the char driver: ids for user space, and
    the hardware filters and kernel blocks each listed filter stands for.

    Replies of the hardware layer are part of each operation. Blocking the kernel
    succeeds for all the traffic asked for or for none, and unblocking and removing
    a filter always succeed. */
module FilterList {
  import opened Common

  /** INT_MAX; ids run from 1 to FILTER_ID_WRAP - 1. */
  const FILTER_ID_WRAP: int := 0x7FFF_FFFF

  type NextId = x: int | 1 <= x <= FILTER_ID_WRAP witness 1

  /** Which traffic the kernel is kept from. */
  datatype Block = Block(unicast: bool, multicast: bool)

  const NO_BLOCK := Block(false, false)

  /** `hw` is the hardware filter's id if the filter uses one. */
  datatype Filter = Filter(id: int, hw: Option<nat>, block: Block)

  /** The list, and what of the hardware is in use on its behalf: each hardware
      filter once for every insert not yet undone, and how often each kind of
      traffic is blocked. */
  datatype State = State(nextId: NextId, wrapped: bool, filters: seq<Filter>,
                         installed: multiset<nat>, unicastBlocks: int, multicastBlocks: int)

  const INIT := State(1, false, [], multiset{}, 0, 0)

  function Count(b: bool): int { if b then 1 else 0 }

  function HwOf(f: Filter): multiset<nat> { if f.hw.Some? then multiset{f.hw.value} else multiset{} }

  function Ids(filters: seq<Filter>): set<int> { set f | f in filters :: f.id }

  // ----- Generating an id

  /** The next id to look at. */
  function Succ(id: int): int { if id + 1 == FILTER_ID_WRAP then 1 else id + 1 }

  predicate IsId(id: int) { 1 <= id < FILTER_ID_WRAP }

  /** How many ids lie between `cur` and the next time `initial` comes round. */
  function Steps(cur: int, initial: int): int
  {
    if cur >= initial then FILTER_ID_WRAP - 1 - cur + initial else initial - cur
  }

  /** The first id from `cur` on that is not used, or -ENOENT back at `initial`. */
  function Search(used: set<int>, cur: int, initial: int): (r: int)
    requires IsId(cur) && IsId(initial)
    ensures r == -ENOENT || IsId(r)
    decreases Steps(cur, initial)
  {
    if cur !in used then cur
    else if Succ(cur) == initial then -ENOENT
    else Search(used, Succ(cur), initial)
  }

  function FirstId(s: State): int { if s.nextId == FILTER_ID_WRAP then 1 else s.nextId }

  predicate WillSearch(s: State) { s.wrapped || s.nextId == FILTER_ID_WRAP }

  /** The id or error generated. */
  function NewId(s: State): int
  {
    if WillSearch(s) then Search(Ids(s.filters), FirstId(s), FirstId(s)) else s.nextId
  }

  function AfterGen(s: State): State
  {
    s.(wrapped := WillSearch(s), nextId := if NewId(s) < 0 then FirstId(s) + 1 else NewId(s) + 1)
  }

  // ----- The operations

  function Removed(s: State, f: Filter): State
  {
    s.(installed := s.installed - HwOf(f),
       unicastBlocks := s.unicastBlocks - Count(f.block.unicast),
       multicastBlocks := s.multicastBlocks - Count(f.block.multicast))
  }

  function Blocked(s: State, b: Block): State
  {
    s.(unicastBlocks := s.unicastBlocks + Count(b.unicast), multicastBlocks := s.multicastBlocks + Count(b.multicast))
  }

  /** Lists a filter under a new id, or undoes it when there is none. */
  function Listed(s: State, f: Filter): (State, int)
  {
    var id, s' := NewId(s), AfterGen(s);
    if id < 0 then (Removed(s', f), id) else (s'.(filters := s'.filters + [f.(id := id)]), id)
  }

  datatype AddKind = BlockKernel | AllUnicast | BlockUnicast | AllMulticast | BlockMulticast | Plain

  function BlockFor(k: AddKind): Block
  {
    match k
    case BlockKernel => Block(true, true)
    case AllUnicast | BlockUnicast => Block(true, false)
    case AllMulticast | BlockMulticast => Block(false, true)
    case Plain => NO_BLOCK
  }

  predicate BlockOnly(k: AddKind) { k.BlockKernel? || k.BlockUnicast? || k.BlockMulticast? }

  /** What the layers below answer to an add: whether memory can be had, the result
      of blocking and of inserting (the hardware id unless negative). */
  datatype Replies = Replies(memory: bool, blockRc: int, insertRc: int)

  /** efch_filter_list_rsops_add: result, and the id when it is not negative. */
  function RsopsAdd(s: State, k: AddKind, a: Replies): (State, int)
  {
    if !a.memory then (s, -ENOMEM)
    else
      var wanted := BlockFor(k);
      if wanted != NO_BLOCK && a.blockRc < 0 && a.blockRc != -EOPNOTSUPP then (s, a.blockRc)
      else
        var block := if a.blockRc >= 0 then wanted else NO_BLOCK;
        Inserted(Blocked(s, block), Filter(0, None, block), BlockOnly(k), a.insertRc)
  }

  /** The part both ways of adding share: insert unless `skip`, then list. */
  function Inserted(s: State, f: Filter, skip: bool, insertRc: int): (State, int)
  {
    if skip then Listed(s, f)
    else if insertRc < 0 then (Removed(s, f), insertRc)
    else Listed(s.(installed := s.installed + multiset{insertRc}), f.(hw := Some(insertRc)))
  }

  /** efch_filter_list_add; `specRc` is the result of building the specification. */
  function Add(s: State, specRc: int, a: Replies): (State, int)
  {
    if specRc < 0 then (s, specRc)
    else if !a.memory then (s, -ENOMEM)
    else Inserted(s, Filter(0, None, NO_BLOCK), false, a.insertRc)
  }

  function IndexOf(filters: seq<Filter>, id: int): (i: nat)
    ensures i <= |filters| && (i < |filters| ==> filters[i].id == id)
    ensures forall j :: 0 <= j < i ==> filters[j].id != id
  {
    if filters == [] || filters[0].id == id then 0 else 1 + IndexOf(filters[1..], id)
  }

  /** efch_filter_list_del */
  function Del(s: State, id: int): (State, int)
  {
    var i := IndexOf(s.filters, id);
    if i == |s.filters| then (s, -EINVAL)
    else (Removed(s.(filters := s.filters[..i] + s.filters[i + 1..]), s.filters[i]), 0)
  }

  /** efch_filter_list_free */
  function Free(s: State): State
    decreases |s.filters|
  {
    if s.filters == [] then s else Free(Removed(s.(filters := s.filters[1..]), s.filters[0]))
  }

  // ----- What every operation keeps

  function HwSum(filters: seq<Filter>): multiset<nat>
  {
    if filters == [] then multiset{} else HwOf(filters[0]) + HwSum(filters[1..])
  }

  function UnicastSum(filters: seq<Filter>): int
  {
    if filters == [] then 0 else Count(filters[0].block.unicast) + UnicastSum(filters[1..])
  }

  function MulticastSum(filters: seq<Filter>): int
  {
    if filters == [] then 0 else Count(filters[0].block.multicast) + MulticastSum(filters[1..])
  }

  /** Nothing is installed or blocked but what the listed filters record. */
  ghost predicate Conserved(s: State)
  {
    && s.installed == HwSum(s.filters)
    && s.unicastBlocks == UnicastSum(s.filters)
    && s.multicastBlocks == MulticastSum(s.filters)
  }

  ghost predicate IdsOk(s: State)
  {
    && (forall i :: 0 <= i < |s.filters| ==> IsId(s.filters[i].id) && (s.wrapped || s.filters[i].id < s.nextId))
    && forall i, j :: 0 <= i < j < |s.filters| ==> s.filters[i].id != s.filters[j].id
  }

  ghost predicate Inv(s: State) { IdsOk(s) && Conserved(s) }

  // ----- Ids

  /** The ids met on the way from `cur` round to `initial`. */
  predicate OnWay(cur: int, initial: int, x: int)
  {
    IsId(x) && if cur >= initial then x >= cur || x < initial else cur <= x < initial
  }

  lemma {:induction false} SearchFinds(used: set<int>, cur: int, initial: int)
    requires IsId(cur) && IsId(initial)
    ensures var r := Search(used, cur, initial);
            (IsId(r) && r !in used) || (r == -ENOENT && forall x :: OnWay(cur, initial, x) ==> x in used)
    ensures var r := Search(used, cur, initial);
            IsId(r) && r != cur ==> forall x :: OnWay(cur, r, x) ==> x in used
    decreases Steps(cur, initial)
  {
    if cur in used && Succ(cur) != initial {
      SearchFinds(used, Succ(cur), initial);
      forall x | OnWay(cur, initial, x)
        ensures x in used || IsId(Search(used, cur, initial))
      {
        assert x == cur || OnWay(Succ(cur), initial, x);
      }
      var r := Search(used, cur, initial);
      forall x | IsId(r) && OnWay(cur, r, x)
        ensures x in used
      {
        assert x == cur || r == Succ(cur) || OnWay(Succ(cur), r, x);
      }
    }
  }

  /** Once ids have wrapped, the one generated is the first unused from the next id on, and the
      search after it goes on from there. */
  lemma NewIdIsFirst(s: State)
    requires IdsOk(s) && NewId(s) > 0
    ensures NewId(s) != FirstId(s) ==> forall x :: OnWay(FirstId(s), NewId(s), x) ==> x in Ids(s.filters)
    ensures AfterGen(s).nextId == NewId(s) + 1 && AfterGen(s).filters == s.filters
    ensures !s.wrapped && s.nextId < FILTER_ID_WRAP ==> NewId(s) == s.nextId
  {
    if WillSearch(s) {
      SearchFinds(Ids(s.filters), FirstId(s), FirstId(s));
    }
  }

  /** A generated id is in range and not in use, and there is none exactly when all
      ids are in use. */
  lemma NewIdIs(s: State)
    requires IdsOk(s)
    ensures NewId(s) == -ENOENT || (IsId(NewId(s)) && NewId(s) !in Ids(s.filters))
    ensures NewId(s) == -ENOENT <==> forall x :: IsId(x) ==> x in Ids(s.filters)
  {
    hide Search;
    var used := Ids(s.filters);
    if WillSearch(s) {
      SearchFinds(used, FirstId(s), FirstId(s));
      if NewId(s) == -ENOENT {
        forall x | IsId(x)
          ensures x in used
        {
          assert OnWay(FirstId(s), FirstId(s), x);
        }
      } else {
        assert IsId(NewId(s)) && NewId(s) !in used;
      }
    } else {
      assert IsId(s.nextId) && s.nextId !in used;
    }
  }

  // ----- Sums over the list

  /** A filter at any place adds its own part. */
  lemma {:induction false} SumsAt(filters: seq<Filter>, i: nat)
    requires i < |filters|
    ensures var rest, f := filters[..i] + filters[i + 1..], filters[i];
            && HwSum(filters) == HwSum(rest) + HwOf(f)
            && UnicastSum(filters) == UnicastSum(rest) + Count(f.block.unicast)
            && MulticastSum(filters) == MulticastSum(rest) + Count(f.block.multicast)
    decreases |filters|
  {
    hide HwOf, Count;
    var rest := filters[..i] + filters[i + 1..];
    if i == 0 {
      assert rest == filters[1..];
    } else {
      SumsAt(filters[1..], i - 1);
      assert rest[0] == filters[0];
      assert rest[1..] == filters[1..][..i - 1] + filters[1..][i..];
    }
  }

  /** `s` with all that is recorded in `f` added, but `f` not listed. */
  ghost predicate ConservedWith(s: State, f: Filter)
  {
    && s.installed == HwSum(s.filters) + HwOf(f)
    && s.unicastBlocks == UnicastSum(s.filters) + Count(f.block.unicast)
    && s.multicastBlocks == MulticastSum(s.filters) + Count(f.block.multicast)
  }

  lemma ListedSums(filters: seq<Filter>, f: Filter)
    ensures HwSum(filters + [f]) == HwSum(filters) + HwOf(f)
    ensures UnicastSum(filters + [f]) == UnicastSum(filters) + Count(f.block.unicast)
    ensures MulticastSum(filters + [f]) == MulticastSum(filters) + Count(f.block.multicast)
  {
    hide HwSum, UnicastSum, MulticastSum, HwOf, Count;
    var all, n := filters + [f], |filters|;
    SumsAt(all, n);
    assert all[..n] + all[n + 1..] == filters;
  }

  lemma ListedKeeps(s: State, f: Filter)
    requires IdsOk(s) && ConservedWith(s, f)
    ensures Inv(Listed(s, f).0)
  {
    hide HwSum, UnicastSum, MulticastSum, Search, Count;
    NewIdIs(s);
    ListedSums(s.filters, f.(id := NewId(s)));
    if NewId(s) > 0 {
      forall i | 0 <= i < |s.filters|
        ensures s.filters[i].id != NewId(s)
      {
        assert s.filters[i].id in Ids(s.filters);
      }
    }
  }

  lemma InsertedKeeps(s: State, f: Filter, skip: bool, insertRc: int)
    requires IdsOk(s) && ConservedWith(s, f) && f.hw == None
    ensures Inv(Inserted(s, f, skip, insertRc).0)
  {
    hide HwSum, UnicastSum, MulticastSum, NewId, Count, Listed;
    if skip {
      ListedKeeps(s, f);
    } else if insertRc >= 0 {
      ListedKeeps(s.(installed := s.installed + multiset{insertRc}), f.(hw := Some(insertRc)));
    }
  }

  lemma DelKeeps(s: State, id: int)
    requires Inv(s)
    ensures Inv(Del(s, id).0)
  {
    hide HwSum, UnicastSum, MulticastSum, Count, HwOf;
    var i := IndexOf(s.filters, id);
    if i < |s.filters| {
      SumsAt(s.filters, i);
    }
  }

  /** Freeing the list leaves nothing installed and nothing blocked. */
  lemma {:induction false} FreeLeavesNothing(s: State)
    requires Conserved(s)
    ensures var r := Free(s);
            r.filters == [] && r.installed == multiset{} && r.unicastBlocks == 0 && r.multicastBlocks == 0
    ensures Free(s).nextId == s.nextId && Free(s).wrapped == s.wrapped
    decreases |s.filters|
  {
    if s.filters == [] {
    } else {
      FreeLeavesNothing(Removed(s.(filters := s.filters[1..]), s.filters[0]));
    }
  }

  // ----- What each operation does

  /** Neither the list nor the hardware has changed. */
  predicate Unchanged(s: State, t: State)
  {
    && t.filters == s.filters && t.installed == s.installed
    && t.unicastBlocks == s.unicastBlocks && t.multicastBlocks == s.multicastBlocks
  }

  /** Every id is listed. */
  ghost predicate Full(s: State) { forall x :: IsId(x) ==> x in Ids(s.filters) }

  /** One more filter, with a new id, the hardware filter `hw` and the blocks `b`. */
  predicate Grown(s: State, t: State, id: int, hw: Option<nat>, b: Block)
  {
    && IsId(id) && id !in Ids(s.filters)
    && t.filters == s.filters + [Filter(id, hw, b)]
    && t.installed == s.installed + (if hw.Some? then multiset{hw.value} else multiset{})
    && t.unicastBlocks == s.unicastBlocks + (if b.unicast then 1 else 0)
    && t.multicastBlocks == s.multicastBlocks + (if b.multicast then 1 else 0)
  }

  /** The end of an add: `s1` is `s` with what `f` records already taken. */
  lemma ListedOutcome(s: State, s1: State, f: Filter)
    requires IdsOk(s) && s1 == Blocked(s.(installed := s.installed + HwOf(f)), f.block)
    ensures var (t, rc) := Listed(s1, f);
            if Full(s) then rc == -ENOENT && Unchanged(s, t) else Grown(s, t, rc, f.hw, f.block)
  {
    hide NewId, IdsOk;
    SameIds(s, s1);
    NewIdIs(s1);
  }

  /** What an add by specification does: the first failure is its result and nothing is left of it;
      otherwise the hardware has one more filter, listed under a new id. */
  lemma AddOutcome(s: State, specRc: int, a: Replies)
    requires Inv(s)
    ensures var (t, rc) := Add(s, specRc, a);
            if specRc < 0 then rc == specRc && Unchanged(s, t)
            else if !a.memory then rc == -ENOMEM && Unchanged(s, t)
            else if a.insertRc < 0 then rc == a.insertRc && Unchanged(s, t)
            else if Full(s) then rc == -ENOENT && Unchanged(s, t)
            else Grown(s, t, rc, Some(a.insertRc), NO_BLOCK)
  {
    hide Inserted, IdsOk, Conserved, Full, Grown, Unchanged;
    assert Blocked(s, NO_BLOCK) == s;
    InsertedOutcome(s, NO_BLOCK, false, a.insertRc);
    UnchangedSame(s);
  }

  lemma UnchangedSame(s: State)
    ensures Unchanged(s, s)
  {
  }

  lemma TakenIs(s: State, b: Block, insertRc: int)
    ensures Blocked(s, b) == Blocked(s.(installed := s.installed + HwOf(Filter(0, None, b))), b)
    ensures Unchanged(s, Removed(Blocked(s, b), Filter(0, None, b)))
    ensures insertRc >= 0 ==>
              var s1 := Blocked(s, b);
              s1.(installed := s1.installed + multiset{insertRc}) ==
              Blocked(s.(installed := s.installed + HwOf(Filter(0, Some(insertRc), b))), b)
  {
  }

  lemma InsertedOutcome(s: State, b: Block, skip: bool, insertRc: int)
    requires IdsOk(s)
    ensures var (t, rc) := Inserted(Blocked(s, b), Filter(0, None, b), skip, insertRc);
            if !skip && insertRc < 0 then rc == insertRc && Unchanged(s, t)
            else if Full(s) then rc == -ENOENT && Unchanged(s, t)
            else Grown(s, t, rc, if skip then None else Some(insertRc), b)
  {
    hide Listed, IdsOk, Full, Grown, Unchanged, Blocked, Removed, HwOf;
    TakenIs(s, b, insertRc);
    if skip {
      ListedOutcome(s, Blocked(s, b), Filter(0, None, b));
    } else if insertRc >= 0 {
      var s1 := Blocked(s, b);
      ListedOutcome(s, s1.(installed := s1.installed + multiset{insertRc}), Filter(0, Some(insertRc), b));
    }
  }

  /** What an add by operation does, by kind. The three that only block insert no hardware filter;
      blocking that the NIC does not support is passed over; any other failure is
      the result, and nothing is left of the add. */
  lemma RsopsAddOutcome(s: State, k: AddKind, a: Replies)
    requires Inv(s)
    ensures var (t, rc) := RsopsAdd(s, k, a);
            var inserts := k in {AllUnicast, AllMulticast, Plain};
            var b := Block(a.blockRc >= 0 && k in {BlockKernel, AllUnicast, BlockUnicast},
                           a.blockRc >= 0 && k in {BlockKernel, AllMulticast, BlockMulticast});
            if !a.memory then rc == -ENOMEM && Unchanged(s, t)
            else if k != Plain && a.blockRc < 0 && a.blockRc != -EOPNOTSUPP then rc == a.blockRc && Unchanged(s, t)
            else if inserts && a.insertRc < 0 then rc == a.insertRc && Unchanged(s, t)
            else if Full(s) then rc == -ENOENT && Unchanged(s, t)
            else Grown(s, t, rc, if inserts then Some(a.insertRc) else None, b)
  {
    hide Inserted, IdsOk, Conserved, Full, Grown, Unchanged, Blocked;
    InsertedOutcome(s, if a.blockRc >= 0 then BlockFor(k) else NO_BLOCK, BlockOnly(k), a.insertRc);
    UnchangedSame(s);
  }

  /** A delete takes the filter with the id off the list, and undoes exactly what it stood for; without
      one it fails and changes nothing. */
  lemma DelOutcome(s: State, id: int, f: Filter)
    requires Inv(s)
    ensures var (t, rc) := Del(s, id);
            && (id !in Ids(s.filters) ==> rc == -EINVAL && t == s)
            && (f in s.filters && f.id == id ==>
                && rc == 0 && (forall g :: g in t.filters <==> g in s.filters && g != f)
                && |t.filters| == |s.filters| - 1
                && t.installed == s.installed - (if f.hw.Some? then multiset{f.hw.value} else multiset{})
                && t.unicastBlocks == s.unicastBlocks - (if f.block.unicast then 1 else 0)
                && t.multicastBlocks == s.multicastBlocks - (if f.block.multicast then 1 else 0))
  {
    hide IndexOf, Conserved;
    var i := IndexOf(s.filters, id);
    if i < |s.filters| {
      assert s.filters[i].id in Ids(s.filters);
    }
  }

  // ----- Runs

  datatype Op = OpRsopsAdd(kind: AddKind, a: Replies) | OpAdd(specRc: int, b: Replies) | OpDel(id: int) | OpFree

  function Apply(s: State, op: Op): State
  {
    match op
    case OpRsopsAdd(kind, a) => RsopsAdd(s, kind, a).0
    case OpAdd(specRc, b) => Add(s, specRc, b).0
    case OpDel(id) => Del(s, id).0
    case OpFree => Free(s)
  }

  lemma ApplyKeeps(s: State, op: Op)
    requires Inv(s)
    ensures Inv(Apply(s, op))
  {
    hide HwSum, UnicastSum, MulticastSum, Inserted, Count, HwOf, Free, Del;
    match op
    case OpRsopsAdd(kind, a) =>
      if a.memory && (BlockFor(kind) == NO_BLOCK || a.blockRc >= 0 || a.blockRc == -EOPNOTSUPP) {
        var block := if a.blockRc >= 0 then BlockFor(kind) else NO_BLOCK;
        BlockedConserves(s, block);
        InsertedKeeps(Blocked(s, block), Filter(0, None, block), BlockOnly(kind), a.insertRc);
      }
    case OpAdd(specRc, b) =>
      if specRc >= 0 && b.memory {
        NothingAdded(s);
        InsertedKeeps(s, Filter(0, None, NO_BLOCK), false, b.insertRc);
      }
    case OpDel(id) => DelKeeps(s, id);
    case OpFree =>
      FreeLeavesNothing(s);
      NothingConserved(Free(s));
  }

  lemma NothingConserved(s: State)
    requires s.filters == [] && s.installed == multiset{} && s.unicastBlocks == 0 && s.multicastBlocks == 0
    ensures Conserved(s)
  {
  }

  lemma BlockedConserves(s: State, block: Block)
    requires Conserved(s)
    ensures ConservedWith(Blocked(s, block), Filter(0, None, block))
  {
  }

  lemma NothingAdded(s: State)
    requires Conserved(s)
    ensures ConservedWith(s, Filter(0, None, NO_BLOCK))
  {
  }

  function Run(s: State, ops: seq<Op>): State
    decreases |ops|
  {
    if ops == [] then s else Run(Apply(s, ops[0]), ops[1..])
  }

  /** After any operations, whatever fails, the ids are distinct and in range, and the
      hardware filters and kernel blocks are exactly those the listed filters record. */
  lemma {:induction false} RunKeeps(s: State, ops: seq<Op>)
    requires Inv(s)
    ensures Inv(Run(s, ops))
    decreases |ops|
  {
    hide Inv, Apply;
    if ops == [] {
    } else {
      ApplyKeeps(s, ops[0]);
      RunKeeps(Apply(s, ops[0]), ops[1..]);
    }
  }

  lemma InitInv()
    ensures Inv(INIT)
  {
  }

  /** Nothing remains after any run that ends in a free. */
  lemma NothingRemains(ops: seq<Op>)
    ensures var s := Free(Run(INIT, ops));
            s.filters == [] && s.installed == multiset{} && s.unicastBlocks == 0 && s.multicastBlocks == 0
  {
    hide Run, Free;
    InitInv();
    RunKeeps(INIT, ops);
    FreeLeavesNothing(Run(INIT, ops));
  }

  /** After any run, an id is refused exactly when all ids are listed. */
  lemma RunIds(ops: seq<Op>)
    ensures var s := Run(INIT, ops);
            && (NewId(s) == -ENOENT || (IsId(NewId(s)) && NewId(s) !in Ids(s.filters)))
            && (NewId(s) == -ENOENT <==> forall x :: IsId(x) ==> x in Ids(s.filters))
  {
    hide Run, NewId;
    InitInv();
    RunKeeps(INIT, ops);
    NewIdIs(Run(INIT, ops));
  }

  lemma LastIndex(filters: seq<Filter>, f: Filter)
    requires f.id !in Ids(filters)
    ensures IndexOf(filters + [f], f.id) == |filters|
  {
    hide IndexOf;
    assert (filters + [f])[|filters|].id == f.id;
    assert forall i :: 0 <= i < |filters| ==> (filters + [f])[i] == filters[i] && filters[i].id in Ids(filters);
  }

  lemma DelUndoesListed(s: State, f: Filter)
    requires IdsOk(s) && Listed(s, f).1 > 0
    ensures var (t, id) := Listed(s, f); var (u, rc) := Del(t, id);
            && rc == 0 && u.filters == s.filters && u.installed == s.installed - HwOf(f)
            && u.unicastBlocks == s.unicastBlocks - Count(f.block.unicast)
            && u.multicastBlocks == s.multicastBlocks - Count(f.block.multicast)
  {
    hide NewId, IndexOf, Count;
    var g, i := f.(id := NewId(s)), |s.filters|;
    NewIdIs(s);
    LastIndex(s.filters, g);
    var all := s.filters + [g];
    assert all[..i] + all[i + 1..] == s.filters && all[i] == g;
  }

  /** A delete undoes the add before it: the list, the hardware filters and the blocks
      are as they were. */
  lemma DelUndoesAdd(s: State, k: AddKind, a: Replies)
    requires Inv(s) && RsopsAdd(s, k, a).1 > 0
    ensures var (t, id) := RsopsAdd(s, k, a); var (u, rc) := Del(t, id);
            && rc == 0 && u.filters == s.filters && u.installed == s.installed
            && u.unicastBlocks == s.unicastBlocks && u.multicastBlocks == s.multicastBlocks
  {
    hide Listed, Del, IdsOk, Count, Conserved;
    var block := if a.blockRc >= 0 then BlockFor(k) else NO_BLOCK;
    var s1 := Blocked(s, block);
    if BlockOnly(k) {
      SameIds(s, s1);
      DelUndoesListed(s1, Filter(0, None, block));
    } else if a.insertRc >= 0 {
      var s2 := s1.(installed := s1.installed + multiset{a.insertRc});
      SameIds(s, s2);
      DelUndoesListed(s2, Filter(0, Some(a.insertRc), block));
    }
  }

  lemma SameIds(s: State, t: State)
    requires IdsOk(s) && t.nextId == s.nextId && t.wrapped == s.wrapped && t.filters == s.filters
    ensures IdsOk(t)
  {
  }
}
