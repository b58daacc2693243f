/** The lock-free resource table of a file descriptor: indices are claimed by
    compare-and-swap, and the table is grown once while others write to it.

    One step of a thread is one access to shared memory.  The reads of the high
    water mark, table pointer and size at the head of the allocation loop are one
    step, and so is the copy of each word when the table is grown. */
module ResourceTable {
  import opened Common

  const DEFAULT_SIZE := 5
  const MAX_SIZE := 512

  /** Which array a table pointer points to. */
  datatype Which = Static | Grown

  /** Where a thread is.  Each thread allocates one resource, named by the thread. */
  datatype Pc =
    | Read                                       // take the snapshot
    | Claim(index: nat, table: Which)            // compare-and-swap the high water mark
    | Store(index: nat, table: Which)            // write the entry
    | Check(index: nat, table: Which)            // has the table been replaced meanwhile?
    | StoreAgain(index: nat)                     // write the entry to the new table too
    | Done(index: nat)
    | Failed(errno: nat)
    | TestSize(seen: nat)                        // grow_priv_table: may the table still grow?
    | FirstCopy(copy: seq<Option<nat>>)
    | Swap(copy: seq<Option<nat>>)               // compare-and-swap the table pointer
    | SecondCopy(k: nat)
    | SetSize

  /** When an entry of the static table was written: after the second copy of its
      word (`late`), and after which threads' first copy of its word (`missed`). */
  datatype Stored = Stored(late: bool, missed: set<nat>)

  /** The last four are history: which thread claimed each index, the thread whose swap
      of the table pointer succeeded, when each static entry was written, and the indices
      that were written a second time. */
  datatype State = State(highwater: nat, size: nat, table: Which,
                         fixed: seq<Option<nat>>, grown: seq<Option<nat>>, pcs: map<nat, Pc>,
                         owners: seq<nat>, winner: Option<nat>, stores: map<nat, Stored>, again: set<nat>)

  const INITIAL := State(0, DEFAULT_SIZE, Static, [None, None, None, None, None], [], map[], [], None, map[], {})

  datatype Step = Start(t: nat) | Move(t: nat, alloc: bool)

  predicate Enabled(s: State, step: Step)
  {
    match step
    case Start(t) => t !in s.pcs
    case Move(t, _) => t in s.pcs && !s.pcs[t].Done? && !s.pcs[t].Failed?
  }

  function Put(table: seq<Option<nat>>, i: nat, t: nat): seq<Option<nat>>
  {
    if i < |table| then table[i := Some(t)] else table
  }

  function At(table: seq<Option<nat>>, i: nat): Option<nat>
  {
    if i < |table| then table[i] else None
  }

  /** How far the second copy has come. */
  function CopiedTo(s: State): nat
  {
    if s.winner.Some? && s.winner.value in s.pcs && s.pcs[s.winner.value].SecondCopy? then s.pcs[s.winner.value].k
    else DEFAULT_SIZE
  }

  /** The thread's first copy has passed word `i`. */
  predicate Passed(pc: Pc, i: nat) { (pc.FirstCopy? && i < |pc.copy|) || pc.Swap? || pc.SecondCopy? }

  function StoredNow(s: State, i: nat): Stored
  {
    Stored(s.table == Grown && i < CopiedTo(s), set u | u in s.pcs && Passed(s.pcs[u], i))
  }

  function Next(s: State, step: Step): State
    requires Enabled(s, step)
  {
    match step
    case Start(t) => s.(pcs := s.pcs[t := Read])
    case Move(t, alloc) =>
      match s.pcs[t]
      case Read =>
        s.(pcs := s.pcs[t := if s.highwater >= s.size then TestSize(s.size) else Claim(s.highwater, s.table)])
      case Claim(i, table) =>
        if s.highwater == i then s.(highwater := i + 1, owners := s.owners + [t], pcs := s.pcs[t := Store(i, table)])
        else s.(pcs := s.pcs[t := Read])
      case Store(i, Static) =>
        s.(fixed := Put(s.fixed, i, t), pcs := s.pcs[t := Check(i, Static)], stores := s.stores[i := StoredNow(s, i)])
      case Store(i, Grown) => s.(grown := Put(s.grown, i, t), pcs := s.pcs[t := Check(i, Grown)])
      case Check(i, table) => s.(pcs := s.pcs[t := if table == s.table then Done(i) else StoreAgain(i)])
      case StoreAgain(i) => s.(grown := Put(s.grown, i, t), pcs := s.pcs[t := Done(i)], again := s.again + {i})
      case TestSize(_) =>
        if s.size == MAX_SIZE then s.(pcs := s.pcs[t := Failed(ENOSPC)])
        else s.(pcs := s.pcs[t := if alloc then FirstCopy([]) else Failed(ENOMEM)])
      case FirstCopy(copy) =>
        if |copy| < DEFAULT_SIZE then s.(pcs := s.pcs[t := FirstCopy(copy + [At(s.fixed, |copy|)])])
        else s.(pcs := s.pcs[t := Swap(copy + seq(MAX_SIZE - DEFAULT_SIZE, _ => None))])
      case Swap(copy) =>
        if s.table == Static then s.(table := Grown, grown := copy, winner := Some(t), pcs := s.pcs[t := SecondCopy(0)])
        else s.(pcs := s.pcs[t := Read])
      case SecondCopy(k) =>
        if k < DEFAULT_SIZE then
          s.(grown := if k < |s.grown| then s.grown[k := At(s.fixed, k)] else s.grown,
             pcs := s.pcs[t := SecondCopy(k + 1)])
        else s.(pcs := s.pcs[t := SetSize])
      case SetSize => s.(size := MAX_SIZE, pcs := s.pcs[t := Read])
      case Done(_) => s
      case Failed(_) => s
  }

  /** efch_resource_id_lookup, with the table pointer that it read. */
  function Lookup(s: State, table: Which, i: nat): Option<nat>
  {
    if i >= s.highwater then None else At(if table == Static then s.fixed else s.grown, i)
  }

  // ----- The invariant

  predicate Claimed(pc: Pc) { pc.Store? || pc.Check? || pc.StoreAgain? || pc.Done? }

  predicate Growing(pc: Pc) { pc.TestSize? || pc.FirstCopy? || pc.Swap? || pc.SecondCopy? || pc.SetSize? }

  predicate Winner(pc: Pc) { pc.SecondCopy? || pc.SetSize? }

  /** An array holds at index `i` nothing or the resource of the thread that claimed `i`. */
  predicate Owned(table: seq<Option<nat>>, owners: seq<nat>)
  {
    forall i :: 0 <= i < |table| && table[i].Some? ==> i < |owners| && table[i].value == owners[i]
  }

  /** A finished allocation: its entry is in the current table, or is still to be
      picked up by the second copy. */
  predicate Found(s: State, t: nat, i: nat)
  {
    if i < DEFAULT_SIZE then
      At(s.fixed, i) == Some(t) && (s.table == Grown && i < CopiedTo(s) ==> At(s.grown, i) == Some(t))
    else s.table == Grown && At(s.grown, i) == Some(t)
  }

  /** What holds for one thread where it is. */
  predicate ThreadOk(s: State, t: nat, pc: Pc)
  {
    && (Claimed(pc) ==> pc.index < |s.owners| && s.owners[pc.index] == t)
    && (pc.Claim? || pc.Store? || pc.Check? ==>
        if pc.table == Static then pc.index < DEFAULT_SIZE else s.table == Grown && DEFAULT_SIZE <= pc.index < MAX_SIZE)
    && (pc.Claim? ==> pc.index < s.size)
    && (pc.Store? ==> (if pc.table == Static then At(s.fixed, pc.index) else At(s.grown, pc.index)) == None)
    && (pc.Check? ==> (if pc.table == Static then At(s.fixed, pc.index) else At(s.grown, pc.index)) == Some(t))
    && (pc.StoreAgain? ==> s.table == Grown && pc.index < DEFAULT_SIZE && At(s.fixed, pc.index) == Some(t))
    && (pc.Done? ==> Found(s, t, pc.index))
    && (Growing(pc) ==> s.highwater >= DEFAULT_SIZE)
    && (pc.TestSize? ==> pc.seen <= s.highwater && (pc.seen == DEFAULT_SIZE || pc.seen == MAX_SIZE))
    && (pc.FirstCopy? ==> |pc.copy| <= DEFAULT_SIZE && Owned(pc.copy, s.owners))
    && (pc.Swap? ==> |pc.copy| == MAX_SIZE && Owned(pc.copy, s.owners))
    && (pc.SecondCopy? ==> pc.k <= DEFAULT_SIZE)
    && (Winner(pc) ==> s.winner == Some(t) && s.size == DEFAULT_SIZE)
  }

  ghost predicate Threads(s: State)
  {
    forall t :: t in s.pcs ==> ThreadOk(s, t, s.pcs[t])
  }

  /** The thread recorded as owner of an index has that index. */
  ghost predicate Owners(s: State)
  {
    forall i :: 0 <= i < |s.owners| ==>
      s.owners[i] in s.pcs && Claimed(s.pcs[s.owners[i]]) && s.pcs[s.owners[i]].index == i
  }

  predicate Shared(s: State)
  {
    && s.highwater == |s.owners| <= s.size
    && (s.size == DEFAULT_SIZE || (s.size == MAX_SIZE && s.table == Grown))
    && |s.fixed| == DEFAULT_SIZE
    && (s.table == Grown ==> |s.grown| == MAX_SIZE && s.highwater >= DEFAULT_SIZE)
    && Owned(s.fixed, s.owners)
    && Owned(s.grown, s.owners)
    && (s.table == Grown <==> s.winner.Some?)
    && (s.table == Grown && s.size == DEFAULT_SIZE ==> s.winner.value in s.pcs && Winner(s.pcs[s.winner.value]))
  }

  ghost predicate Inv(s: State) { Shared(s) && Threads(s) && Owners(s) }

  lemma InitialInv()
    ensures Inv(INITIAL)
  {
  }

  // ----- Every step keeps the invariant

  lemma MoveShared(s: State, t: nat, alloc: bool)
    requires Shared(s) && Enabled(s, Move(t, alloc)) && ThreadOk(s, t, s.pcs[t])
    ensures Shared(Next(s, Move(t, alloc)))
  {
    hide Found;
  }

  lemma ClaimSelf(s: State, t: nat, alloc: bool)
    requires Shared(s) && Enabled(s, Move(t, alloc)) && ThreadOk(s, t, s.pcs[t]) && s.pcs[t].Claim?
    ensures var s' := Next(s, Move(t, alloc)); ThreadOk(s', t, s'.pcs[t])
  {
    hide StoredNow, Found;
  }

  lemma AllocSelf(s: State, t: nat, alloc: bool)
    requires Shared(s) && Enabled(s, Move(t, alloc)) && ThreadOk(s, t, s.pcs[t]) && !Growing(s.pcs[t])
    ensures var s' := Next(s, Move(t, alloc)); ThreadOk(s', t, s'.pcs[t])
  {
    hide StoredNow, Owned;
    if s.pcs[t].Claim? {
      ClaimSelf(s, t, alloc);
    }
  }

  lemma GrowSelf(s: State, t: nat, alloc: bool)
    requires Shared(s) && Enabled(s, Move(t, alloc)) && ThreadOk(s, t, s.pcs[t]) && Growing(s.pcs[t])
    ensures var s' := Next(s, Move(t, alloc)); ThreadOk(s', t, s'.pcs[t])
  {
    hide Found;
  }

  lemma AllocOther(s: State, t: nat, alloc: bool, u: nat)
    requires Shared(s) && Enabled(s, Move(t, alloc)) && ThreadOk(s, t, s.pcs[t]) && !Growing(s.pcs[t])
    requires u in s.pcs && u != t && ThreadOk(s, u, s.pcs[u])
    ensures ThreadOk(Next(s, Move(t, alloc)), u, s.pcs[u])
  {
    hide StoredNow;
  }

  lemma GrowOther(s: State, t: nat, alloc: bool, u: nat)
    requires Shared(s) && Enabled(s, Move(t, alloc)) && ThreadOk(s, t, s.pcs[t]) && Growing(s.pcs[t])
    requires u in s.pcs && u != t && ThreadOk(s, u, s.pcs[u])
    ensures ThreadOk(Next(s, Move(t, alloc)), u, s.pcs[u])
  {
    hide Owned;
  }

  lemma MoveOwners(s: State, t: nat, alloc: bool)
    requires Shared(s) && Owners(s) && Enabled(s, Move(t, alloc)) && ThreadOk(s, t, s.pcs[t])
    ensures Owners(Next(s, Move(t, alloc)))
  {
    hide Owned, Found;
  }

  lemma NextInv(s: State, step: Step)
    requires Inv(s) && Enabled(s, step)
    ensures Inv(Next(s, step))
  {
    match step
    case Start(t) => StartInv(s, t);
    case Move(t, alloc) =>
      hide Shared, Owners, ThreadOk;
      assert ThreadOk(s, t, s.pcs[t]);
      MoveShared(s, t, alloc);
      MoveOwners(s, t, alloc);
      var s' := Next(s, step);
      forall u | u in s'.pcs
        ensures ThreadOk(s', u, s'.pcs[u])
      {
        if u != t {
          assert ThreadOk(s, u, s.pcs[u]);
          if Growing(s.pcs[t]) {
            GrowOther(s, t, alloc, u);
          } else {
            AllocOther(s, t, alloc, u);
          }
        } else if Growing(s.pcs[t]) {
          GrowSelf(s, t, alloc);
        } else {
          AllocSelf(s, t, alloc);
        }
      }
  }

  lemma StartInv(s: State, t: nat)
    requires Inv(s) && t !in s.pcs
    ensures Inv(Next(s, Start(t)))
  {
    var s' := Next(s, Start(t));
    forall u | u in s.pcs
      ensures ThreadOk(s', u, s.pcs[u])
    {
      assert ThreadOk(s, u, s.pcs[u]);
    }
  }

  // ----- Whole runs

  predicate AllEnabled(s: State, steps: seq<Step>)
    decreases |steps|
  {
    steps == [] || (Enabled(s, steps[0]) && AllEnabled(Next(s, steps[0]), steps[1..]))
  }

  function Run(s: State, steps: seq<Step>): State
    requires AllEnabled(s, steps)
    decreases |steps|
  {
    if steps == [] then s else Run(Next(s, steps[0]), steps[1..])
  }

  lemma {:induction false} RunInv(s: State, steps: seq<Step>)
    requires Inv(s) && AllEnabled(s, steps)
    ensures Inv(Run(s, steps))
    decreases |steps|
  {
    if steps == [] {
    } else {
      NextInv(s, steps[0]);
      hide Inv, Next;
      RunInv(Next(s, steps[0]), steps[1..]);
    }
  }

  predicate Finished(pc: Pc) { pc.Done? || pc.Failed? }

  /** After any interleaving of any number of threads: the high water mark is
      within the table; two threads never have the same index; a lookup through
      either table pointer gives only the resource of the thread that has the
      index; and once every allocation has returned, each allocated identifier
      is found in the current table. */
  lemma TableSafe(steps: seq<Step>)
    requires AllEnabled(INITIAL, steps)
    ensures var s := Run(INITIAL, steps);
            && s.highwater <= s.size
            && (s.table == Static ==> s.size == |s.fixed|) && (s.table == Grown ==> s.size <= |s.grown|)
            && (forall t, u | t in s.pcs && u in s.pcs && Claimed(s.pcs[t]) && Claimed(s.pcs[u]) && t != u ::
                  s.pcs[t].index != s.pcs[u].index)
            && (forall table, i | Lookup(s, table, i).Some? ::
                  var r := Lookup(s, table, i).value; r in s.pcs && Claimed(s.pcs[r]) && s.pcs[r].index == i)
            && ((forall t :: t in s.pcs ==> Finished(s.pcs[t])) ==>
                && (forall t :: t in s.pcs && s.pcs[t].Done? ==> Lookup(s, s.table, s.pcs[t].index) == Some(t))
                && (forall i :: 0 <= i < s.highwater ==> Lookup(s, s.table, i).Some?))
  {
    InitialInv();
    RunInv(INITIAL, steps);
    var s := Run(INITIAL, steps);
    LookupOwn(s);
    if forall t :: t in s.pcs ==> Finished(s.pcs[t]) {
      AllFound(s);
    }
  }

  lemma LookupOwn(s: State)
    requires Inv(s)
    ensures forall table, i | Lookup(s, table, i).Some? ::
              var r := Lookup(s, table, i).value; r in s.pcs && Claimed(s.pcs[r]) && s.pcs[r].index == i
    ensures forall t, u | t in s.pcs && u in s.pcs && Claimed(s.pcs[t]) && Claimed(s.pcs[u]) && t != u ::
              s.pcs[t].index != s.pcs[u].index
  {
    forall t, u | t in s.pcs && u in s.pcs && Claimed(s.pcs[t]) && Claimed(s.pcs[u]) && t != u
      ensures s.pcs[t].index != s.pcs[u].index
    {
      assert ThreadOk(s, t, s.pcs[t]) && ThreadOk(s, u, s.pcs[u]);
    }
  }

  lemma AllFound(s: State)
    requires Inv(s) && forall t :: t in s.pcs ==> Finished(s.pcs[t])
    ensures forall t :: t in s.pcs && s.pcs[t].Done? ==> Lookup(s, s.table, s.pcs[t].index) == Some(t)
    ensures forall i :: 0 <= i < s.highwater ==> Lookup(s, s.table, i).Some?
  {
    forall t | t in s.pcs && s.pcs[t].Done?
      ensures Lookup(s, s.table, s.pcs[t].index) == Some(t)
    {
      assert ThreadOk(s, t, s.pcs[t]);
    }
    forall i | 0 <= i < s.highwater
      ensures Lookup(s, s.table, i).Some?
    {
      var t := s.owners[i];
      assert s.pcs[t].Done? && s.pcs[t].index == i;
    }
  }

  /** How often the table pointer changes in a run. */
  function Swaps(s: State, steps: seq<Step>): nat
    requires AllEnabled(s, steps)
    decreases |steps|
  {
    if steps == [] then 0
    else (if Next(s, steps[0]).table != s.table then 1 else 0) + Swaps(Next(s, steps[0]), steps[1..])
  }

  lemma {:induction false} SwapsOnce(s: State, steps: seq<Step>)
    requires AllEnabled(s, steps)
    ensures Swaps(s, steps) <= if s.table == Static then 1 else 0
    decreases |steps|
  {
    if steps == [] {
    } else {
      SwapsOnce(Next(s, steps[0]), steps[1..]);
    }
  }

  /** A full table is reported exactly when it has its largest size; and there is room
      then exactly when the size is not the one the thread saw full. */
  lemma NoSpaceIff(s: State, t: nat, alloc: bool)
    requires Inv(s) && Enabled(s, Move(t, alloc)) && s.pcs[t].TestSize?
    ensures Next(s, Move(t, alloc)).pcs[t] == Failed(ENOSPC) <==> s.size == MAX_SIZE
    ensures Next(s, Move(t, alloc)).pcs[t] == Failed(ENOSPC) && s.highwater < s.size <==>
            s.pcs[t].seen != s.size && s.highwater < s.size
    ensures s.pcs[t].seen == s.size ==> s.highwater == s.size
  {
    assert ThreadOk(s, t, s.pcs[t]);
  }

  // ----- How an allocation ends

  /** The step by which a thread fails. */
  predicate Fails(s: State, step: Step, t: nat, errno: nat)
  {
    && step.Move? && step.t == t && t in s.pcs && s.pcs[t].TestSize?
    && if s.size == MAX_SIZE then errno == ENOSPC else errno == ENOMEM && !step.alloc
  }

  /** In any interleaving a thread has failed only because it found the table at its largest size, or
      was refused memory for a larger one; a lost compare-and-swap makes it try again. */
  lemma {:induction false} FailedOnlyWhen(s: State, steps: seq<Step>, t: nat)
    requires AllEnabled(s, steps)
    requires (t in s.pcs ==> !s.pcs[t].Failed?) && t in Run(s, steps).pcs && Run(s, steps).pcs[t].Failed?
    ensures exists k :: 0 <= k < |steps| && AllEnabled(s, steps[..k]) &&
              Fails(Run(s, steps[..k]), steps[k], t, Run(s, steps).pcs[t].errno)
    decreases |steps|
  {
    hide Next, Enabled, Fails;
    var next, rest := Next(s, steps[0]), steps[1..];
    if t in next.pcs && next.pcs[t].Failed? {
      FailedStays(next, rest, t);
      assert steps[..0] == [] && Run(s, steps[..0]) == s;
      FailedBy(s, steps[0], t);
    } else {
      FailedOnlyWhen(next, rest, t);
      var k :| 0 <= k < |rest| && AllEnabled(next, rest[..k]) &&
               Fails(Run(next, rest[..k]), rest[k], t, Run(next, rest).pcs[t].errno);
      assert steps[..k + 1][1..] == rest[..k] && steps[k + 1] == rest[k];
      assert AllEnabled(s, steps[..k + 1]) && Run(s, steps[..k + 1]) == Run(next, rest[..k]);
    }
  }

  lemma FailedBy(s: State, step: Step, t: nat)
    requires Enabled(s, step) && (t in s.pcs ==> !s.pcs[t].Failed?)
    requires var s' := Next(s, step); t in s'.pcs && s'.pcs[t].Failed?
    ensures Fails(s, step, t, Next(s, step).pcs[t].errno)
  {
  }

  lemma {:induction false} FailedStays(s: State, steps: seq<Step>, t: nat)
    requires AllEnabled(s, steps) && t in s.pcs && s.pcs[t].Failed?
    ensures t in Run(s, steps).pcs && Run(s, steps).pcs[t] == s.pcs[t]
    decreases |steps|
  {
    if steps == [] {
    } else {
      FailedStays(Next(s, steps[0]), steps[1..], t);
    }
  }

  /** Thread `t` takes up to `n` steps while the others stand still, with memory to be had. */
  function Solo(s: State, t: nat, n: nat): State
    decreases n
  {
    if n == 0 || !Enabled(s, Move(t, true)) then s else Solo(Next(s, Move(t, true)), t, n - 1)
  }

  lemma SoloStep(s: State, t: nat, n: nat)
    requires Enabled(s, Move(t, true)) && n > 0
    ensures Solo(s, t, n) == Solo(Next(s, Move(t, true)), t, n - 1)
  {
  }

  function Padded(fixed: seq<Option<nat>>): seq<Option<nat>> { fixed + seq(MAX_SIZE - DEFAULT_SIZE, _ => None) }

  lemma {:induction false} SoloFirstCopy(s: State, t: nat, n: nat)
    requires t in s.pcs && s.pcs[t].FirstCopy? && |s.fixed| == DEFAULT_SIZE
    requires var copy := s.pcs[t].copy; |copy| <= DEFAULT_SIZE && copy == s.fixed[..|copy|] && n > DEFAULT_SIZE - |copy|
    ensures Solo(s, t, n) ==
            Solo(s.(pcs := s.pcs[t := Swap(Padded(s.fixed))]), t, n - 1 - (DEFAULT_SIZE - |s.pcs[t].copy|))
    decreases n
  {
    hide Solo;
    var next := Next(s, Move(t, true));
    SoloStep(s, t, n);
    if |s.pcs[t].copy| < DEFAULT_SIZE {
      SoloFirstCopy(next, t, n - 1);
      assert next.pcs[t := Swap(Padded(s.fixed))] == s.pcs[t := Swap(Padded(s.fixed))];
    } else {
      assert s.pcs[t].copy == s.fixed;
      assert next == s.(pcs := s.pcs[t := Swap(Padded(s.fixed))]);
    }
  }

  lemma {:induction false} SoloSecondCopy(s: State, t: nat, n: nat)
    requires t in s.pcs && s.pcs[t].SecondCopy? && |s.fixed| == DEFAULT_SIZE && s.grown == Padded(s.fixed)
    requires s.pcs[t].k <= DEFAULT_SIZE && n > DEFAULT_SIZE - s.pcs[t].k
    ensures Solo(s, t, n) == Solo(s.(pcs := s.pcs[t := SetSize]), t, n - 1 - (DEFAULT_SIZE - s.pcs[t].k))
    decreases n
  {
    hide Solo;
    var next, k := Next(s, Move(t, true)), s.pcs[t].k;
    SoloStep(s, t, n);
    if k < DEFAULT_SIZE {
      assert next.grown == s.grown;
      SoloSecondCopy(next, t, n - 1);
      assert next.pcs[t := SetSize] == s.pcs[t := SetSize];
    }
  }

  /** A thread that finds the static table full, with nobody else growing it, grows it in sixteen
      steps: the entries are those of the static table, and there is room. */
  lemma SoloGrows(s: State, t: nat, n: nat)
    requires t in s.pcs && s.pcs[t] == Read && s.table == Static && |s.fixed| == DEFAULT_SIZE
    requires s.highwater >= s.size == DEFAULT_SIZE && n >= 16
    ensures Solo(s, t, n) ==
            Solo(s.(table := Grown, grown := Padded(s.fixed), winner := Some(t), size := MAX_SIZE), t, n - 16)
  {
    hide Solo;
    var m := Move(t, true);
    var s1 := Next(s, m);
    var s2 := Next(s1, m);
    SoloStep(s, t, n);
    SoloStep(s1, t, n - 1);
    SoloFirstCopy(s2, t, n - 2);
    var s3 := s2.(pcs := s2.pcs[t := Swap(Padded(s.fixed))]);
    var s4 := Next(s3, m);
    SoloSecondCopy(s4, t, n - 9);
    var s5 := s4.(pcs := s4.pcs[t := SetSize]);
    var s6 := Next(s5, m);
    SoloStep(s3, t, n - 8);
    SoloStep(s5, t, n - 15);
    assert s6.pcs == s.pcs;
  }

  /** With room in the table an undisturbed allocation takes the next index in four steps, and the
      table then gives its resource. */
  lemma SoloClaims(s: State, t: nat)
    requires Shared(s) && t in s.pcs && s.pcs[t] == Read && s.highwater < s.size
    ensures var s' := Solo(s, t, 4);
            && t in s'.pcs && s'.pcs[t] == Done(s.highwater) && s'.highwater == s.highwater + 1
            && Lookup(s', s'.table, s.highwater) == Some(t)
  {
    var m := Move(t, true);
    var s1 := Next(s, m);
    var s2 := Next(s1, m);
    var s3 := Next(s2, m);
    var s4 := Next(s3, m);
    assert Solo(s4, t, 0) == s4;
    assert Solo(s, t, 4) == Solo(s1, t, 3) == Solo(s2, t, 2) == Solo(s3, t, 1) == Solo(s4, t, 0);
  }

  /** However it starts, an allocation that the others let run, and no growth being half done, ends:
      with the next index, found in the table, or with -ENOSPC exactly when 512 are taken. */
  lemma SoloEnds(s: State, t: nat)
    requires Inv(s) && t in s.pcs && s.pcs[t] == Read && (s.table == Grown ==> s.size == MAX_SIZE)
    ensures exists n: nat ::
              var s' := Solo(s, t, n);
              && t in s'.pcs
              && if s.highwater == MAX_SIZE then s'.pcs[t] == Failed(ENOSPC)
                 else s'.pcs[t] == Done(s.highwater) && Lookup(s', s'.table, s.highwater) == Some(t)
  {
    var m := Move(t, true);
    if s.highwater < s.size {
      SoloClaims(s, t);
    } else if s.size == MAX_SIZE {
      var s2 := Next(Next(s, m), m);
      assert Solo(s, t, 2) == Solo(Next(s, m), t, 1) == Solo(s2, t, 0) == s2;
    } else {
      SoloGrows(s, t, 20);
      var g := s.(table := Grown, grown := Padded(s.fixed), winner := Some(t), size := MAX_SIZE);
      SoloClaims(g, t);
    }
  }

  // ----- When the second write finds its entry empty

  /** The history agrees with the static table. */
  ghost predicate StoresOk(s: State)
  {
    && (forall i :: i in s.stores <==> 0 <= i < |s.fixed| && s.fixed[i].Some?)
    && forall i :: 0 <= i < DEFAULT_SIZE && i < |s.grown| && s.grown[i].Some? ==> i in s.stores
  }

  ghost predicate MissedOk(s: State)
  {
    forall i, u :: i in s.stores && u in s.stores[i].missed ==> u in s.pcs
  }

  /** Until the table is replaced, a thread's first copy has missed exactly the entries
      written after it. */
  ghost predicate CopyOk(s: State, t: nat, pc: Pc)
  {
    && (pc.FirstCopy? || pc.Swap? ==>
        forall i :: 0 <= i < |pc.copy| && pc.copy[i].Some? ==> i in s.stores && pc.copy[i] == At(s.fixed, i))
    && (s.table == Static ==>
        forall i :: i in s.stores ==> (t in s.stores[i].missed <==> Passed(pc, i) && CopiedNone(pc, i)))
  }

  predicate CopiedNone(pc: Pc, i: nat) { (pc.FirstCopy? || pc.Swap?) && At(pc.copy, i) == None }

  /** The assertion before the second write, in terms of when the entry was written. */
  predicate EmptyIff(s: State, i: nat)
  {
    && i in s.stores
    && (s.stores[i].late ==> s.table == Grown && i < CopiedTo(s))
    && (s.table == Grown ==>
        (At(s.grown, i) == None <==>
         if i < CopiedTo(s) then s.stores[i].late else s.winner.Some? && s.winner.value in s.stores[i].missed))
  }

  /** Has written the static table and may have to write the new one. */
  predicate SecondWrite(pc: Pc) { (pc.Check? && pc.table == Static) || pc.StoreAgain? }

  /** Whether an allocation that has returned is not found for the moment. */
  predicate MissingIff(s: State, i: nat)
  {
    && i in s.stores
    && (s.table == Grown ==> (At(s.grown, i) == None <==> Missing(s, i)))
  }

  /** Its word is still to be copied a second time, the first copy missed it, and it was
      not written again. */
  predicate Missing(s: State, i: nat)
  {
    && CopiedTo(s) <= i && i !in s.again
    && i in s.stores && s.winner.Some? && s.winner.value in s.stores[i].missed
  }

  predicate DoneStatic(pc: Pc) { pc.Done? && pc.index < DEFAULT_SIZE }

  ghost predicate HistoryOk(s: State, t: nat, pc: Pc)
  {
    && CopyOk(s, t, pc)
    && (SecondWrite(pc) ==> EmptyIff(s, pc.index))
    && (DoneStatic(pc) ==> MissingIff(s, pc.index))
  }

  /** An index written again belongs to an allocation that has returned since. */
  ghost predicate AgainOk(s: State)
  {
    forall i :: i in s.again ==>
      s.table == Grown && i < |s.owners| && s.owners[i] in s.pcs && s.pcs[s.owners[i]] == Done(i)
  }

  ghost predicate History(s: State)
  {
    StoresOk(s) && MissedOk(s) && AgainOk(s) && forall t :: t in s.pcs ==> HistoryOk(s, t, s.pcs[t])
  }

  lemma StoresNext(s: State, t: nat, alloc: bool)
    requires Shared(s) && StoresOk(s) && Enabled(s, Move(t, alloc)) && ThreadOk(s, t, s.pcs[t]) &&
      CopyOk(s, t, s.pcs[t])
    ensures StoresOk(Next(s, Move(t, alloc)))
  {
    hide Found, Owned;
  }

  lemma MissedNext(s: State, t: nat, alloc: bool)
    requires MissedOk(s) && Enabled(s, Move(t, alloc))
    ensures MissedOk(Next(s, Move(t, alloc)))
  {
  }

  lemma AgainNext(s: State, t: nat, alloc: bool)
    requires Shared(s) && AgainOk(s) && Enabled(s, Move(t, alloc)) && ThreadOk(s, t, s.pcs[t])
    ensures AgainOk(Next(s, Move(t, alloc)))
  {
    hide Found, Owned, StoredNow;
  }

  lemma MissingSelf(s: State, t: nat, alloc: bool)
    requires Shared(s) && AgainOk(s) && Enabled(s, Move(t, alloc)) && ThreadOk(s, t, s.pcs[t])
    requires HistoryOk(s, t, s.pcs[t])
    ensures var s' := Next(s, Move(t, alloc)); DoneStatic(s'.pcs[t]) ==> MissingIff(s', s'.pcs[t].index)
  {
    hide Found, Owned, StoredNow, CopyOk;
  }

  lemma MissingOther(s: State, t: nat, alloc: bool, u: nat)
    requires Shared(s) && AgainOk(s) && Enabled(s, Move(t, alloc)) && ThreadOk(s, t, s.pcs[t]) && CopyOk(s, t, s.pcs[t])
    requires u in s.pcs && u != t && ThreadOk(s, u, s.pcs[u]) && DoneStatic(s.pcs[u]) && MissingIff(s, s.pcs[u].index)
    ensures MissingIff(Next(s, Move(t, alloc)), s.pcs[u].index)
  {
    hide Owned;
  }

  lemma FirstCopySelf(s: State, t: nat, alloc: bool)
    requires Shared(s) && StoresOk(s) && Enabled(s, Move(t, alloc)) && s.pcs[t].FirstCopy?
    requires ThreadOk(s, t, s.pcs[t]) && CopyOk(s, t, s.pcs[t])
    ensures var s' := Next(s, Move(t, alloc)); CopyOk(s', t, s'.pcs[t])
  {
    hide Found, Owned, StoredNow, CopiedTo;
    var copy, copy' := s.pcs[t].copy, Next(s, Move(t, alloc)).pcs[t].copy;
    assert forall i :: 0 <= i < |copy| ==> copy'[i] == copy[i];
  }

  lemma CopySelf(s: State, t: nat, alloc: bool)
    requires Shared(s) && StoresOk(s) && Enabled(s, Move(t, alloc))
    requires ThreadOk(s, t, s.pcs[t]) && CopyOk(s, t, s.pcs[t])
    ensures var s' := Next(s, Move(t, alloc)); CopyOk(s', t, s'.pcs[t])
  {
    hide Found, Owned, CopiedTo;
    if s.pcs[t].FirstCopy? {
      FirstCopySelf(s, t, alloc);
    }
  }

  lemma CopyOther(s: State, t: nat, alloc: bool, u: nat)
    requires Shared(s) && StoresOk(s) && Enabled(s, Move(t, alloc)) && ThreadOk(s, t, s.pcs[t])
    requires u in s.pcs && u != t && ThreadOk(s, u, s.pcs[u]) && CopyOk(s, u, s.pcs[u])
    ensures CopyOk(Next(s, Move(t, alloc)), u, s.pcs[u])
  {
    hide Found, Owned;
  }

  lemma EmptySelf(s: State, t: nat, alloc: bool)
    requires Shared(s) && StoresOk(s) && Enabled(s, Move(t, alloc)) && ThreadOk(s, t, s.pcs[t]) &&
      HistoryOk(s, t, s.pcs[t])
    ensures var s' := Next(s, Move(t, alloc)); SecondWrite(s'.pcs[t]) ==> EmptyIff(s', s'.pcs[t].index)
  {
    hide Found, Owned;
  }

  lemma EmptyOther(s: State, t: nat, alloc: bool, u: nat)
    requires Shared(s) && Enabled(s, Move(t, alloc)) && ThreadOk(s, t, s.pcs[t]) && CopyOk(s, t, s.pcs[t])
    requires u in s.pcs && u != t && ThreadOk(s, u, s.pcs[u]) && SecondWrite(s.pcs[u]) && EmptyIff(s, s.pcs[u].index)
    ensures EmptyIff(Next(s, Move(t, alloc)), s.pcs[u].index)
  {
    hide Found, Owned;
  }

  lemma MoveHistory(s: State, t: nat, alloc: bool)
    requires Inv(s) && History(s) && Enabled(s, Move(t, alloc))
    ensures History(Next(s, Move(t, alloc)))
  {
    hide Shared, Owners, ThreadOk, StoresOk, MissedOk, CopyOk, EmptyIff, StoredNow, AgainOk, MissingIff;
    assert ThreadOk(s, t, s.pcs[t]) && HistoryOk(s, t, s.pcs[t]);
    StoresNext(s, t, alloc);
    MissedNext(s, t, alloc);
    AgainNext(s, t, alloc);
    var s' := Next(s, Move(t, alloc));
    forall u | u in s'.pcs
      ensures HistoryOk(s', u, s'.pcs[u])
    {
      if u == t {
        CopySelf(s, t, alloc);
        EmptySelf(s, t, alloc);
        MissingSelf(s, t, alloc);
      } else {
        assert ThreadOk(s, u, s.pcs[u]) && HistoryOk(s, u, s.pcs[u]);
        CopyOther(s, t, alloc, u);
        if SecondWrite(s.pcs[u]) {
          EmptyOther(s, t, alloc, u);
        } else if DoneStatic(s.pcs[u]) {
          MissingOther(s, t, alloc, u);
        }
      }
    }
  }

  lemma StartHistory(s: State, t: nat)
    requires History(s) && t !in s.pcs
    ensures History(Next(s, Start(t)))
  {
    var s' := Next(s, Start(t));
    forall u | u in s.pcs
      ensures HistoryOk(s', u, s.pcs[u])
    {
      assert HistoryOk(s, u, s.pcs[u]);
    }
  }

  lemma {:induction false} RunHistory(s: State, steps: seq<Step>)
    requires Inv(s) && History(s) && AllEnabled(s, steps)
    ensures Inv(Run(s, steps)) && History(Run(s, steps))
    decreases |steps|
  {
    if steps == [] {
    } else {
      var step := steps[0];
      NextInv(s, step);
      match step {
        case Start(t) => StartHistory(s, t);
        case Move(t, alloc) => MoveHistory(s, t, alloc);
      }
      hide Inv, History, Next;
      RunHistory(Next(s, step), steps[1..]);
    }
  }

  /** After any interleaving, an allocation about to write its entry a second time finds
      the new table's entry empty exactly when it wrote the static table after that word
      was last copied: the second time, or while that is still to come, the first time. */
  lemma SecondWriteIff(steps: seq<Step>, t: nat)
    requires AllEnabled(INITIAL, steps)
    requires var s := Run(INITIAL, steps); t in s.pcs && s.pcs[t].StoreAgain?
    ensures var s := Run(INITIAL, steps); var i := s.pcs[t].index;
            && i in s.stores && s.winner.Some?
            && (At(s.grown, i) == None <==>
                if i < CopiedTo(s) then s.stores[i].late else s.winner.value in s.stores[i].missed)
  {
    InitialInv();
    RunHistory(INITIAL, steps);
    var s := Run(INITIAL, steps);
    assert ThreadOk(s, t, s.pcs[t]) && HistoryOk(s, t, s.pcs[t]);
  }

  /** After any interleaving, an id that was returned is found, or not found for the moment
      exactly when the new table is in place, its word is still to be copied a second time,
      the first copy missed it, and it was not written again. */
  lemma ReturnedFoundIff(steps: seq<Step>, t: nat)
    requires AllEnabled(INITIAL, steps)
    requires var s := Run(INITIAL, steps); t in s.pcs && s.pcs[t].Done?
    ensures var s := Run(INITIAL, steps); var i := s.pcs[t].index;
            && (Lookup(s, s.table, i) == Some(t) || Lookup(s, s.table, i) == None)
            && (Lookup(s, s.table, i) == None <==> i < DEFAULT_SIZE && s.table == Grown && Missing(s, i))
  {
    InitialInv();
    RunHistory(INITIAL, steps);
    var s := Run(INITIAL, steps);
    assert ThreadOk(s, t, s.pcs[t]) && HistoryOk(s, t, s.pcs[t]);
  }

  /** Every index a thread is about to read or write is inside its array, and so is every
      index that a lookup admits in the table that is current. */
  lemma IndicesInside(s: State, t: nat)
    requires Inv(s) && t in s.pcs
    ensures var pc := s.pcs[t];
            && (pc.Store? ==> pc.index < if pc.table == Static then |s.fixed| else |s.grown|)
            && (pc.StoreAgain? ==> pc.index < |s.grown|)
            && (pc.FirstCopy? && |pc.copy| < DEFAULT_SIZE ==> |pc.copy| < |s.fixed|)
            && (pc.SecondCopy? && pc.k < DEFAULT_SIZE ==> pc.k < |s.fixed| && pc.k < |s.grown|)
    ensures s.highwater <= if s.table == Static then |s.fixed| else |s.grown|
  {
    hide Found, Owned;
    assert ThreadOk(s, t, s.pcs[t]);
  }

  // ----- A copy whose read and write are two steps

  /** No step is one of thread `w`. */
  predicate Without(steps: seq<Step>, w: nat) { forall i :: 0 <= i < |steps| ==> steps[i].t != w }

  predicate WritesTwice(s: State, pc: Pc, k: nat) { SecondWrite(pc) || (pc.Done? && k in s.again) }

  /** The allocation of index `k`, if it has written the static table, wrote it after the
      table pointer was swapped. */
  ghost predicate WroteSince(s: State, w: nat, k: nat)
  {
    && s.table == Grown && s.winner == Some(w) && w in s.pcs && s.pcs[w] == SecondCopy(k)
    && (k in s.stores ==> k < |s.owners| && s.owners[k] in s.pcs && WritesTwice(s, s.pcs[s.owners[k]], k))
  }

  lemma WroteSinceNext(s: State, step: Step, w: nat, k: nat)
    requires Inv(s) && Enabled(s, step) && step.t != w && k < DEFAULT_SIZE && WroteSince(s, w, k)
    ensures WroteSince(Next(s, step), w, k)
  {
    hide Found, Owned, StoredNow;
    if step.Move? {
      assert ThreadOk(s, step.t, s.pcs[step.t]);
    }
  }

  lemma {:induction false} WroteSinceRun(s: State, steps: seq<Step>, w: nat, k: nat)
    requires Inv(s) && AllEnabled(s, steps) && Without(steps, w) && k < DEFAULT_SIZE && WroteSince(s, w, k)
    ensures WroteSince(Run(s, steps), w, k)
    decreases |steps|
  {
    if steps == [] {
    } else {
      assert steps[0].t != w;
      NextInv(s, steps[0]);
      WroteSinceNext(s, steps[0], w, k);
      hide Inv, Next, WroteSince;
      WroteSinceRun(Next(s, steps[0]), steps[1..], w, k);
    }
  }

  /** What rests on copying each word in one step. Let the second copy read word `k` in `s`, the
      other threads take any steps to `s'`, and the copy write there what it read. Then the
      allocation of index `k` has returned and its entry is gone if and only if both its
      writes, to the static and to the new table, fell in between. */
  lemma SplitCopyLosesIff(s: State, steps: seq<Step>, w: nat, k: nat)
    requires Inv(s) && History(s) && AllEnabled(s, steps) && Without(steps, w)
    requires w in s.pcs && s.pcs[w] == SecondCopy(k) && k < DEFAULT_SIZE
    ensures var s' := Run(s, steps);
            && k < |s'.owners| && s'.owners[k] in s'.pcs && |s'.grown| == MAX_SIZE
            && (s'.pcs[s'.owners[k]].Done? && s'.grown[k := At(s.fixed, k)][k] == None <==>
                k !in s.stores && k in s'.stores && k in s'.again)
  {
    hide Found, Owned;
    assert ThreadOk(s, w, s.pcs[w]);
    RunHistory(s, steps);
    var s' := Run(s, steps);
    if k !in s.stores {
      WroteSinceRun(s, steps, w, k);
    }
    RunGrown(s, steps);
    DoneStored(s', k);
  }

  lemma {:induction false} RunGrown(s: State, steps: seq<Step>)
    requires AllEnabled(s, steps) && Inv(s) && s.table == Grown
    ensures Run(s, steps).table == Grown
    decreases |steps|
  {
    if steps == [] {
    } else {
      NextInv(s, steps[0]);
      assert Next(s, steps[0]).table == Grown;
      hide Inv, Next;
      RunGrown(Next(s, steps[0]), steps[1..]);
    }
  }

  lemma DoneStored(s: State, k: nat)
    requires Inv(s) && History(s) && s.table == Grown && k < DEFAULT_SIZE
    ensures k < |s.owners| && s.owners[k] in s.pcs && |s.grown| == MAX_SIZE
    ensures s.pcs[s.owners[k]].Done? ==> k in s.stores
    ensures k in s.again ==> s.pcs[s.owners[k]].Done?
  {
    hide Owned;
    var t := s.owners[k];
    assert ThreadOk(s, t, s.pcs[t]) && HistoryOk(s, t, s.pcs[t]);
  }

  // ----- Reachable surprises

  ghost predicate Reachable(s: State)
  {
    exists steps :: Reaches(steps, s)
  }

  predicate Reaches(steps: seq<Step>, s: State) { AllEnabled(INITIAL, steps) && Run(INITIAL, steps) == s }

  lemma {:induction false} RunExtend(s: State, steps: seq<Step>, step: Step)
    requires AllEnabled(s, steps) && Enabled(Run(s, steps), step)
    ensures AllEnabled(s, steps + [step]) && Run(s, steps + [step]) == Next(Run(s, steps), step)
    decreases |steps|
  {
    hide Next, Enabled;
    if steps == [] {
      assert [step][1..] == [];
    } else {
      assert (steps + [step])[1..] == steps[1..] + [step];
      RunExtend(Next(s, steps[0]), steps[1..], step);
    }
  }

  lemma ReachStep(s: State, step: Step)
    requires Reachable(s) && Enabled(s, step)
    ensures Reachable(Next(s, step))
  {
    hide Next, Enabled;
    var steps :| Reaches(steps, s);
    RunExtend(INITIAL, steps, step);
    assert Reaches(steps + [step], Next(s, step));
  }

  lemma Then(s: State, step: Step) returns (s': State)
    requires Reachable(s) && Enabled(s, step)
    ensures Reachable(s') && s' == Next(s, step)
  {
    ReachStep(s, step);
    s' := Next(s, step);
  }

  /** Thread `i` starts and runs up to its look at the table pointer. */
  lemma WriteOne(s0: State, i: nat) returns (s: State)
    requires Reachable(s0) && i !in s0.pcs && s0.highwater == i < DEFAULT_SIZE == s0.size && s0.table == Static &&
      |s0.fixed| == DEFAULT_SIZE
    ensures Reachable(s) && s.pcs == s0.pcs[i := Check(i, Static)] && s.highwater == i + 1
    ensures s.size == DEFAULT_SIZE && s.table == Static && s.fixed == s0.fixed[i := Some(i)]
  {
    hide Reachable;
    s := Then(s0, Start(i));
    s := Then(s, Move(i, true));
    s := Then(s, Move(i, true));
    s := Then(s, Move(i, true));
  }

  /** The static table filled by threads 0 to n - 1, none of which has looked at the
      table pointer since. */
  lemma FillStatic(n: nat) returns (s: State)
    requires n <= DEFAULT_SIZE
    ensures Reachable(s) && (forall j :: j in s.pcs <==> 0 <= j < n) && s.highwater == n
    ensures s.size == DEFAULT_SIZE && s.table == Static && |s.fixed| == DEFAULT_SIZE
    ensures n > 0 ==> s.pcs[n - 1] == Check(n - 1, Static) && s.fixed[n - 1] == Some(n - 1)
    ensures forall j :: n <= j < DEFAULT_SIZE ==> s.fixed[j] == None
  {
    s := INITIAL;
    assert Reachable(s) by { assert Reaches([], s); }
    hide Reachable;
    var i := 0;
    while i < n
      invariant i <= n && Reachable(s) && s.highwater == i
      invariant s.size == DEFAULT_SIZE && s.table == Static && |s.fixed| == DEFAULT_SIZE
      invariant forall j :: j in s.pcs <==> 0 <= j < i
      invariant i > 0 ==> s.pcs[i - 1] == Check(i - 1, Static) && s.fixed[i - 1] == Some(i - 1)
      invariant forall j :: i <= j < DEFAULT_SIZE ==> s.fixed[j] == None
    {
      s := WriteOne(s, i);
      i := i + 1;
    }
  }

  lemma CopyToSwap(s0: State, t: nat) returns (s: State)
    requires Reachable(s0) && t in s0.pcs && s0.pcs[t] == FirstCopy([])
    ensures Reachable(s) && s == s0.(pcs := s.pcs) && t in s.pcs && s.pcs == s0.pcs[t := s.pcs[t]]
    ensures s.pcs[t].Swap? && |s.pcs[t].copy| == MAX_SIZE
    ensures s.pcs[t].copy[DEFAULT_SIZE - 1] == At(s0.fixed, DEFAULT_SIZE - 1)
  {
    hide Reachable;
    s := s0;
    var k := 0;
    while k < DEFAULT_SIZE
      invariant k <= DEFAULT_SIZE && Reachable(s) && s == s0.(pcs := s.pcs) && t in s.pcs &&
        s.pcs == s0.pcs[t := s.pcs[t]]
      invariant s.pcs[t].FirstCopy? && |s.pcs[t].copy| == k
      invariant k > 0 ==> s.pcs[t].copy[k - 1] == At(s0.fixed, k - 1)
    {
      s := Then(s, Move(t, true));
      k := k + 1;
    }
    s := Then(s, Move(t, true));
  }

  /** The second copy, up to word `n`. */
  lemma CopyWords(s0: State, t: nat, n: nat) returns (s: State)
    requires Reachable(s0) && t in s0.pcs && s0.pcs[t] == SecondCopy(0) && |s0.grown| == MAX_SIZE &&
      |s0.fixed| == DEFAULT_SIZE
    requires n <= DEFAULT_SIZE
    ensures Reachable(s) && s == s0.(pcs := s.pcs, grown := s.grown) && s.pcs == s0.pcs[t := SecondCopy(n)]
    ensures |s.grown| == MAX_SIZE && (n > 0 ==> s.grown[n - 1] == s0.fixed[n - 1])
  {
    hide Reachable;
    s := s0;
    var k := 0;
    while k < n
      invariant k <= n && Reachable(s) && s == s0.(pcs := s.pcs, grown := s.grown) &&
        s.pcs == s0.pcs[t := SecondCopy(k)]
      invariant |s.grown| == MAX_SIZE && (k > 0 ==> s.grown[k - 1] == s0.fixed[k - 1])
    {
      s := Then(s, Move(t, true));
      k := k + 1;
    }
  }

  /** Thread 5 finds the table full and grows it, up to word `n` of the second copy. */
  lemma GrowTo(s0: State, n: nat) returns (s: State)
    requires Reachable(s0) && 5 !in s0.pcs && 4 in s0.pcs && s0.highwater == DEFAULT_SIZE == s0.size &&
      s0.table == Static
    requires |s0.fixed| == DEFAULT_SIZE && n <= DEFAULT_SIZE
    ensures Reachable(s) && s.pcs == s0.pcs[5 := SecondCopy(n)] && s.table == Grown &&
      s.highwater == DEFAULT_SIZE == s.size
    ensures s.fixed == s0.fixed && |s.grown| == MAX_SIZE && (n > 0 ==> s.grown[n - 1] == s0.fixed[n - 1])
  {
    hide Reachable;
    s := Then(s0, Start(5));
    s := Then(s, Move(5, true));
    s := Then(s, Move(5, true));
    s := CopyToSwap(s, 5);
    s := Then(s, Move(5, true));
    s := CopyWords(s, 5, n);
  }

  /** An id can be returned and then not be found for a while: its entry was written after the
      first copy had passed, before the pointer was swapped. */
  lemma ReturnedNotFound() returns (s: State)
    ensures Reachable(s) && 4 in s.pcs && s.pcs[4] == Done(4)
    ensures s.table == Grown && Lookup(s, Grown, 4) == None
  {
    hide Reachable;
    s := FillStatic(4);
    s := Then(s, Start(4));
    s := Then(s, Move(4, true));
    s := Then(s, Move(4, true));
    s := Then(s, Start(5));
    s := Then(s, Move(5, true));
    s := Then(s, Move(5, true));
    s := CopyToSwap(s, 5);
    s := Then(s, Move(4, true));
    s := Then(s, Move(4, true));
    s := Then(s, Move(5, true));
  }

  /** The assertion that the new table's entry is still empty when an allocation
      writes it a second time can fail: the second copy may have filled it. */
  lemma SecondWriteFindsEntry() returns (s: State)
    ensures Reachable(s) && 4 in s.pcs && s.pcs[4] == StoreAgain(4) && At(s.grown, 4) == Some(4)
  {
    s := FillStatic(DEFAULT_SIZE);
    s := GrowTo(s, DEFAULT_SIZE);
    s := Then(s, Move(4, true));
  }

  /** An allocation can report a full table although the table has just been grown:
      the test for the largest size is made after the size was read. */
  lemma SpuriousNoSpace() returns (s: State)
    ensures Reachable(s) && 6 in s.pcs && s.pcs[6] == Failed(ENOSPC) && s.highwater < s.size
  {
    hide Reachable;
    s := FillStatic(DEFAULT_SIZE);
    s := Then(s, Start(6));
    s := Then(s, Move(6, true));
    s := GrowTo(s, DEFAULT_SIZE);
    s := Then(s, Move(5, true));
    s := Then(s, Move(5, true));
    s := Then(s, Move(6, true));
  }

  /** Thread 4 writes the static table, finds the pointer changed, and writes again. */
  lemma WriteTwice(s: State)
    requires 4 in s.pcs && s.pcs[4] == Store(4, Static)
    requires s.table == Grown && |s.grown| == MAX_SIZE && |s.fixed| == DEFAULT_SIZE
    ensures var steps := [Move(4, true), Move(4, true), Move(4, true)];
            && AllEnabled(s, steps)
            && Run(s, steps).pcs == s.pcs[4 := Done(4)] && Run(s, steps).grown == s.grown[4 := Some(4)]
  {
    var m := Move(4, true);
    var s1 := Next(s, m);
    assert s1.pcs[4] == Check(4, Static);
    var s2 := Next(s1, m);
    assert s2.pcs[4] == StoreAgain(4);
    var s3 := Next(s2, m);
    assert s3.pcs == s.pcs[4 := Done(4)];
    hide Next;
    assert [m, m, m][1..] == [m, m] && [m, m][1..] == [m] && [m][1..] == [];
    assert AllEnabled(s2, [m]) && Run(s2, [m]) == s3;
    assert AllEnabled(s1, [m, m]) && Run(s1, [m, m]) == s3;
  }

  /** Such a loss: in the reachable `s` the copy is at word 4, which is empty, and the thread
      that has index 4 then takes three steps and has returned. */
  lemma SplitCopyLoses() returns (s: State)
    ensures Reachable(s) && 5 in s.pcs && s.pcs[5] == SecondCopy(4)
    ensures var steps := [Move(4, true), Move(4, true), Move(4, true)];
            && AllEnabled(s, steps)
            && var s' := Run(s, steps);
               && 4 in s'.pcs && s'.pcs[4] == Done(4) && |s'.grown| == MAX_SIZE
               && s'.grown[4] == Some(4) && s'.grown[4 := At(s.fixed, 4)][4] == None
  {
    hide Reachable;
    s := FillStatic(4);
    s := Then(s, Start(4));
    s := Then(s, Move(4, true));
    s := Then(s, Move(4, true));
    s := GrowTo(s, 4);
    WriteTwice(s);
  }
}
