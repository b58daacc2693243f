/** The dump buffer of the network driver: data pages reached through a tree of
    pages of DMA addresses (multi-level indirection, MLI). */
module MliTree {
  import opened Common

  const PAGE_N_ENTRIES: nat := 512

  /** DIV_ROUND_UP(n, PAGE_N_ENTRIES) */
  function IPages(n: nat): nat { (n + 511) / 512 }

  /** The number of levels of address pages over `size` pages. */
  function Depth(size: nat): nat
  {
    if size <= 1 then 0 else 1 + Depth(IPages(size))
  }

  /** Level 0 has `size` pages, each level above it enough to address those below. */
  function SizeAt(size: nat, l: nat): nat
  {
    if l == 0 then size else SizeAt(IPages(size), l - 1)
  }

  /** The row where level `l` begins when level 0 begins at `start`. */
  function StartOf(size: nat, start: nat, l: nat): nat
    decreases l
  {
    if l == 0 then start else StartOf(IPages(size), start + size, l - 1)
  }

  function Total(n: nat): nat { StartOf(n, 0, Depth(n)) + 1 }

  /** The page on level `l` that covers data page `p`: `p` without its last `l`
      digits in base 512. */
  function IndexAt(p: nat, l: nat): nat
  {
    if l == 0 then p else IndexAt(p / 512, l - 1)
  }

  type Memory = seq<seq<nat>>

  /** What slot `slot` of row `row` holds, for the levels above the one of `size`
      pages that begins at `start`. */
  function Entry(size: nat, start: nat, dma: seq<nat>, row: nat, slot: nat): nat
    decreases size
  {
    if size <= 1 || row < start + size then 0
    else if row < start + size + IPages(size) then
      var s := (row - (start + size)) * 512 + slot;
      if s < size && start + s < |dma| then dma[start + s] else 0
    else Entry(IPages(size), start + size, dma, row, slot)
  }

  /** The address pages hold what they should. The rows before them are data. */
  predicate Populated(mem: Memory, n: nat, dma: seq<nat>)
  {
    && |mem| == |dma| == Total(n)
    && (forall r :: 0 <= r < |mem| ==> |mem[r]| == 512)
    && forall r, c :: 0 < r < |mem| && n <= r && 0 <= c < 512 ==> mem[r][c] == Entry(n, 0, dma, r, c)
  }

  /** The device reading down `levels` levels from the page at address `a`, taking
      one base-512 digit of `p` on each. */
  function Walk(mem: Memory, dma: seq<nat>, a: nat, levels: nat, p: nat): Option<nat>
    requires |mem| == |dma| && forall r :: 0 <= r < |mem| ==> |mem[r]| == 512
    decreases levels
  {
    if levels == 0 then Some(a)
    else if a !in dma then None
    else Walk(mem, dma, mem[RowOf(dma, a)][IndexAt(p, levels - 1) % 512], levels - 1, p)
  }

  function RowOf(dma: seq<nat>, a: nat): (r: nat)
    requires a in dma
    ensures r < |dma| && dma[r] == a
  {
    if dma[0] == a then 0 else 1 + RowOf(dma[1..], a)
  }

  predicate Distinct(dma: seq<nat>) { forall i, j :: 0 <= i < j < |dma| ==> dma[i] != dma[j] }

  lemma {:induction false} StartGrows(size: nat, start: nat, l: nat)
    ensures StartOf(size, start, l) >= start
    ensures l > 0 ==> StartOf(size, start, l) >= start + size
    decreases l
  {
    if l == 0 {
    } else {
      StartGrows(IPages(size), start + size, l - 1);
    }
  }

  lemma {:induction false} IndexInside(size: nat, p: nat, l: nat)
    requires p < size
    ensures IndexAt(p, l) < SizeAt(size, l)
    decreases l
  {
    if l == 0 {
    } else {
      IndexInside(IPages(size), p / 512, l - 1);
    }
  }

  lemma {:induction false} TopSize(size: nat)
    requires size > 0
    ensures SizeAt(size, Depth(size)) == 1
    decreases size
  {
    if size > 1 {
      TopSize(IPages(size));
    }
  }

  /** Rows of level `l` end before the last row. */
  lemma LevelInside(size: nat, start: nat, l: nat)
    requires l <= Depth(size) && size > 0
    ensures StartOf(size, start, l) + SizeAt(size, l) <= StartOf(size, start, Depth(size)) + 1
    decreases size
  {
    if l == Depth(size) {
      TopSize(size);
    } else if l == 0 {
      StartGrows(IPages(size), start + size, Depth(size) - 1);
    } else {
      LevelInside(IPages(size), start + size, l - 1);
    }
  }

  /** A row above the first level of address pages belongs to the rest of the tree. */
  lemma EntryAbove(size: nat, start: nat, dma: seq<nat>, row: nat, slot: nat)
    requires size > 1 && row >= start + size + IPages(size)
    ensures Entry(size, start, dma, row, slot) == Entry(IPages(size), start + size, dma, row, slot)
  {
  }

  lemma EntryFirst(size: nat, start: nat, dma: seq<nat>, p: nat)
    requires p < size && size > 1 && start + p < |dma|
    ensures Entry(size, start, dma, start + size + p / 512, p % 512) == dma[start + p]
  {
    assert p / 512 < IPages(size);
  }

  /** The entry for page `p` on the page above it holds that page's address. */
  lemma {:induction false} EntryAt(size: nat, start: nat, dma: seq<nat>, l: nat, p: nat)
    requires p < size && l < Depth(size) && |dma| == StartOf(size, start, Depth(size)) + 1
    ensures StartOf(size, start, l) + IndexAt(p, l) < |dma|
    ensures StartOf(size, start, l + 1) + IndexAt(p, l + 1) < |dma|
    ensures Entry(size, start, dma, StartOf(size, start, l + 1) + IndexAt(p, l + 1), IndexAt(p, l) % 512)
         == dma[StartOf(size, start, l) + IndexAt(p, l)]
    decreases l
  {
    hide Entry;
    IndexInside(size, p, l);
    IndexInside(size, p, l + 1);
    LevelInside(size, start, l);
    LevelInside(size, start, l + 1);
    if l == 0 {
      EntryFirst(size, start, dma, p);
    } else {
      EntryAt(IPages(size), start + size, dma, l - 1, p / 512);
      StartGrows(IPages(size), start + size, l);
      EntryAbove(size, start, dma, StartOf(size, start, l + 1) + IndexAt(p, l + 1), IndexAt(p, l) % 512);
    }
  }

  /** From the page on level `l` that covers `p`, the walk ends at page `p`. */
  lemma {:induction false} WalkFrom(mem: Memory, n: nat, dma: seq<nat>, l: nat, p: nat)
    requires Populated(mem, n, dma) && Distinct(dma) && p < n && l <= Depth(n)
    ensures StartOf(n, 0, l) + IndexAt(p, l) < |dma| && p < |dma|
    ensures Walk(mem, dma, dma[StartOf(n, 0, l) + IndexAt(p, l)], l, p) == Some(dma[p])
    decreases l
  {
    hide StartOf, IndexAt, Entry;
    if l == 0 {
      assert StartOf(n, 0, 0) == 0 && IndexAt(p, 0) == p by { LevelZero(n, p); }
      assert p < |dma| by { LevelInside(n, 0, 0); }
    } else {
      WalkFrom(mem, n, dma, l - 1, p);
      EntryAt(n, 0, dma, l - 1, p);
      var row := StartOf(n, 0, l) + IndexAt(p, l);
      StartGrows(n, 0, l);
      assert RowOf(dma, dma[row]) == row;
    }
  }

  lemma LevelZero(n: nat, p: nat)
    ensures StartOf(n, 0, 0) == 0 && IndexAt(p, 0) == p && SizeAt(n, 0) == n
  {
  }

  /** Walking the whole tree from the root reaches exactly the data page asked for. */
  lemma WalkReaches(mem: Memory, n: nat, dma: seq<nat>, p: nat)
    requires Populated(mem, n, dma) && Distinct(dma) && p < n
    ensures p < |dma| && Walk(mem, dma, dma[StartOf(n, 0, Depth(n))], Depth(n), p) == Some(dma[p])
  {
    hide StartOf, Walk, Populated, Distinct;
    WalkFrom(mem, n, dma, Depth(n), p);
    IndexInside(n, p, Depth(n));
    TopSize(n);
  }

  // ----- The buffer

  /** The DMA pages among the first `k`; a page not allocated is []. */
  ghost function Owned(mem: Memory, dma: seq<nat>, k: nat): set<nat>
    requires k <= |mem| == |dma|
  {
    set i | 0 <= i < k && mem[i] != [] :: dma[i]
  }

  /** What the DMA allocator may answer: addresses not in use. */
  ghost predicate Grants(grants: seq<Option<nat>>, held: set<nat>)
  {
    && (forall i :: 0 <= i < |grants| && grants[i].Some? ==> grants[i].value !in held)
    && forall i, j :: 0 <= i < j < |grants| && grants[i].Some? && grants[j].Some? ==> grants[i].value != grants[j].value
  }

  predicate Zeroed(page: seq<nat>) { |page| == 512 && forall c :: 0 <= c < 512 ==> page[c] == 0 }

  lemma OwnedGrows(mem: Memory, dma: seq<nat>, p: nat, page: seq<nat>, a: nat)
    requires p < |mem| == |dma| && mem[p] == [] && page != []
    ensures Owned(mem[p := page], dma[p := a], |mem|) == Owned(mem, dma, |mem|) + {a}
  {
    var mem', dma' := mem[p := page], dma[p := a];
    assert mem'[p] != [] && dma'[p] == a;
    forall x | x in Owned(mem, dma, |mem|)
      ensures x in Owned(mem', dma', |mem|)
    {
      var i :| 0 <= i < |mem| && mem[i] != [] && dma[i] == x;
      assert mem'[i] != [] && dma'[i] == x;
    }
  }

  /** A slot while the tree is being written: all rows below start + size are final,
      and of the level that begins there the entries for the first `s` pages of the
      level below it, which begins at `start` and has `size` pages. */
  function Partial(n: nat, dma: seq<nat>, size: nat, start: nat, s: nat, row: nat, slot: nat): nat
  {
    if row < start + size then Entry(n, 0, dma, row, slot)
    else
      var k := (row - (start + size)) * 512 + slot;
      if k < s && start + k < |dma| then dma[start + k] else 0
  }

  ghost predicate Written(mem: Memory, n: nat, dma: seq<nat>, size: nat, start: nat, s: nat)
  {
    && (forall r :: 0 <= r < |mem| ==> |mem[r]| == 512)
    && forall r, c :: 0 <= r < |mem| && 0 <= c < 512 ==> mem[r][c] == Partial(n, dma, size, start, s, r, c)
  }

  /** The levels above the one of `size` pages at `start` are those of the whole tree. */
  ghost predicate SameAbove(n: nat, dma: seq<nat>, size: nat, start: nat)
  {
    forall r, c :: start + size <= r && 0 <= c < 512 ==> Entry(n, 0, dma, r, c) == Entry(size, start, dma, r, c)
  }

  lemma WriteOne(mem: Memory, n: nat, dma: seq<nat>, size: nat, start: nat, s: nat)
    requires Written(mem, n, dma, size, start, s) && start + s < |dma|
    requires start + size + s / 512 < |mem|
    ensures var row := start + size + s / 512;
            Written(mem[row := mem[row][s % 512 := dma[start + s]]], n, dma, size, start, s + 1)
  {
    hide Entry;
    var row := start + size + s / 512;
    var mem' := mem[row := mem[row][s % 512 := dma[start + s]]];
    forall r, c | 0 <= r < |mem| && 0 <= c < 512
      ensures mem'[r][c] == Partial(n, dma, size, start, s + 1, r, c)
    {
      assert mem[r][c] == Partial(n, dma, size, start, s, r, c);
    }
  }

  lemma LevelDone(mem: Memory, n: nat, dma: seq<nat>, size: nat, start: nat)
    requires Written(mem, n, dma, size, start, size) && SameAbove(n, dma, size, start) && size > 1
    ensures Written(mem, n, dma, IPages(size), start + size, 0)
    ensures SameAbove(n, dma, IPages(size), start + size)
  {
    forall r, c | 0 <= r < |mem| && 0 <= c < 512
      ensures mem[r][c] == Partial(n, dma, IPages(size), start + size, 0, r, c)
    {
      assert mem[r][c] == Partial(n, dma, size, start, size, r, c);
      if start + size <= r {
        assert Entry(n, 0, dma, r, c) == Entry(size, start, dma, r, c);
      }
    }
    forall r, c | start + size + IPages(size) <= r && 0 <= c < 512
      ensures Entry(n, 0, dma, r, c) == Entry(IPages(size), start + size, dma, r, c)
    {
      assert Entry(n, 0, dma, r, c) == Entry(size, start, dma, r, c);
    }
  }

  lemma AllDone(mem: Memory, n: nat, dma: seq<nat>, size: nat, start: nat)
    requires Written(mem, n, dma, size, start, 0) && SameAbove(n, dma, size, start) && size <= 1
    requires |mem| == |dma| == Total(n)
    ensures Populated(mem, n, dma)
  {
    hide Total;
    forall r, c | 0 <= r < |mem| && 0 <= c < 512
      ensures mem[r][c] == Entry(n, 0, dma, r, c)
    {
      assert mem[r][c] == Partial(n, dma, size, start, 0, r, c);
      if start + size <= r {
        assert Entry(n, 0, dma, r, c) == Entry(size, start, dma, r, c);
      }
    }
  }
}
