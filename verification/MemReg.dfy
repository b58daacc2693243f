/** Memory registration: the order (log2 of a number of pages) in which a range of
    user memory is programmed into the NIC, on hosts whose page size is the NIC's.

    Addresses are counted in pages where they are known to be aligned. A user
    page is known by its physical frame and the compound page it is part of. */
module MemReg {
  import opened Common
  import opened Arith

  const PAGE_SIZE: nat := 4096

  /** The page with number `frame`, within the compound page of 2^order frames that
      begins at `head`. */
  datatype Page = Page(frame: nat, head: nat, order: nat)

  /** __ffs: the number of zero bits below the lowest set one. */
  function TrailingZeros(x: nat): nat
    requires x > 0
  {
    if x % 2 == 1 then 0 else 1 + TrailingZeros(x / 2)
  }

  function Min(a: nat, b: nat): nat { if a < b then a else b }

  predicate Divides(k: nat, x: int) { x % Pow2(k) == 0 }

  /** What the kernel guarantees of one page. */
  predicate PageOk(p: Page)
  {
    && p.frame > 0 && p.order < 64
    && Divides(p.order, p.head)
    && p.head <= p.frame < p.head + Pow2(p.order)
  }

  /** User page `first + i` is backed by pages[i]: the offset within the compound page
      is the same in user memory, and compound pages are mapped in order. */
  ghost predicate Mapped(pages: seq<Page>, first: nat)
  {
    && (forall i :: 0 <= i < |pages| ==> PageOk(pages[i]) && Divides(pages[i].order, first + i - pages[i].frame))
    && forall i :: 0 <= i < |pages| - 1 ==> InOrder(pages[i], pages[i + 1])
  }

  predicate InOrder(p: Page, next: Page)
  {
    p.frame + 1 < p.head + Pow2(p.order) ==> next == p.(frame := p.frame + 1)
  }

  /** The orders that both ends of the range and all its compound pages allow. */
  predicate Admissible(pages: seq<Page>, first: nat, k: nat)
  {
    && Divides(k, first) && Divides(k, first + |pages|)
    && forall i :: 0 <= i < |pages| ==> k <= pages[i].order
  }

  // ----- Powers of two that divide

  lemma DividesLess(j: nat, k: nat, x: int)
    requires j <= k && Divides(k, x)
    ensures Divides(j, x)
  {
    var q := Pow2Multiple(j, k);
    assert Pow2(k) == Pow2(j) * q;
    ModOfMod(x, Pow2(j), q);
    assert 0 % Pow2(j) == 0;
  }

  lemma DividesSum(k: nat, x: int, y: int)
    requires Divides(k, x)
    ensures Divides(k, x + y) <==> Divides(k, y)
    ensures Divides(k, x - y) <==> Divides(k, y)
  {
    var d := Pow2(k);
    var q := x / d;
    assert x == q * d;
    ModShift(y, q, d);
    if Divides(k, y) {
      var r := y / d;
      assert x - y == (q - r) * d;
      DivModUnique(x - y, q - r, 0, d);
    }
    if Divides(k, x - y) {
      var r := (x - y) / d;
      assert y == (q - r) * d;
      DivModUnique(y, q - r, 0, d);
    }
  }

  lemma {:induction false} TrailingZerosAre(x: nat, k: nat)
    requires x > 0
    ensures k <= TrailingZeros(x) <==> Divides(k, x)
    decreases k
  {
    if k == 0 {
    } else {
      var d := Pow2(k - 1);
      assert Pow2(k) == 2 * d;
      if x % 2 == 0 {
        TrailingZerosAre(x / 2, k - 1);
        HalfMod(x / 2, d);
      } else {
        OddMod(x, d);
      }
    }
  }

  lemma HalfMod(y: nat, d: nat)
    requires d > 0
    ensures (2 * y) % (2 * d) == 2 * (y % d)
  {
    var q, r := y / d, y % d;
    assert 2 * y == q * (2 * d) + 2 * r;
    DivModUnique(2 * y, q, 2 * r, 2 * d);
  }

  lemma OddMod(x: nat, d: nat)
    requires d > 0 && x % 2 == 1
    ensures x % (2 * d) != 0
  {
    var q := x / (2 * d);
    assert x == 2 * (q * d) + x % (2 * d);
  }

  // ----- The order

  const UINT_MAX: nat := 0xFFFF_FFFF

  function OrderAt(p: Page): nat
    requires p.frame > 0
  {
    Min(p.order, TrailingZeros(p.frame))
  }

  predicate Usable(pages: seq<Page>) { forall i :: 0 <= i < |pages| ==> PageOk(pages[i]) }

  /** The least order over the pages looked at from page `i` on. */
  function OrderFrom(pages: seq<Page>, i: nat, comp: nat): nat
    requires Usable(pages)
    decreases |pages| - i
  {
    if comp == 0 || i >= |pages| then comp
    else OrderFrom(pages, i + Pow2(OrderAt(pages[i])), Min(comp, OrderAt(pages[i])))
  }

  /** The order used for the range that begins at user page `first`. */
  function Order(pages: seq<Page>, first: nat): nat
    requires Usable(pages) && pages != []
  {
    Min(OrderFrom(pages, 0, UINT_MAX), TrailingZeros(first + |pages|))
  }

  method FindOrder(pages: seq<Page>, first: nat) returns (comp: nat)
    requires Usable(pages) && pages != []
    ensures comp == Order(pages, first)
  {
    comp := UINT_MAX;
    var i: nat := 0;
    while comp > 0 && i < |pages|
      invariant OrderFrom(pages, i, comp) == OrderFrom(pages, 0, UINT_MAX)
    {
      var this_ := OrderAt(pages[i]);
      comp := Min(comp, this_);
      i := i + Pow2(this_);
    }
    comp := Min(comp, TrailingZeros(first + |pages|));
  }

  /** Up to 2^t pages from an aligned one on are the next frames of one compound page. */
  lemma {:induction false} SameCompound(pages: seq<Page>, first: nat, i: nat, t: nat, j: nat)
    requires Mapped(pages, first) && i + j < |pages| && j < Pow2(t)
    requires t <= pages[i].order && Divides(t, pages[i].frame)
    ensures pages[i + j] == pages[i].(frame := pages[i].frame + j)
    decreases j
  {
    if j == 0 {
    } else {
      SameCompound(pages, first, i, t, j - 1);
      RoomLeft(pages[i], t);
      assert InOrder(pages[i + j - 1], pages[i + j - 1 + 1]);
    }
  }

  lemma Pow2Divides(k: nat, t: nat)
    requires k <= t
    ensures Divides(k, Pow2(t))
  {
    var q := Pow2Multiple(k, t);
    DivModUnique(Pow2(t), q, 0, Pow2(k));
  }

  lemma PositiveMultiple(k: nat, x: int)
    requires Divides(k, x) && x > 0
    ensures x >= Pow2(k)
  {
    var d := Pow2(k);
    assert x == x / d * d;
    MulAtLeast(x / d, d);
  }

  /** A compound page does not end within an aligned block. */
  lemma RoomLeft(p: Page, t: nat)
    requires PageOk(p) && t <= p.order && Divides(t, p.frame)
    ensures p.frame + Pow2(t) <= p.head + Pow2(p.order)
  {
    hide Pow2, Divides;
    DividesLess(t, p.order, p.head);
    Pow2Divides(t, p.order);
    DividesSum(t, p.head, Pow2(p.order));
    DividesSum(t, p.head + Pow2(p.order), p.frame);
    PositiveMultiple(t, p.head + Pow2(p.order) - p.frame);
  }

  /** Every page passed by a step has at least the order the step was made with. */
  lemma StepOrders(pages: seq<Page>, first: nat, i: nat, q: nat)
    requires Mapped(pages, first) && i <= q < |pages| && q < i + Pow2(OrderAt(pages[i]))
    ensures OrderAt(pages[i]) <= pages[q].order
  {
    TrailingZerosAre(pages[i].frame, OrderAt(pages[i]));
    SameCompound(pages, first, i, OrderAt(pages[i]), q - i);
  }

  ghost predicate Below(pages: seq<Page>, k: nat, upto: nat)
  {
    forall q :: 0 <= q < |pages| && q < upto ==> k <= pages[q].order
  }

  lemma {:induction false} OrderIsBelow(pages: seq<Page>, first: nat, i: nat, comp: nat)
    requires Mapped(pages, first) && Below(pages, comp, i)
    ensures OrderFrom(pages, i, comp) <= comp && Below(pages, OrderFrom(pages, i, comp), |pages|)
    decreases |pages| - i
  {
    hide TrailingZeros, Pow2, Divides, InOrder;
    if comp > 0 && i < |pages| {
      var t := OrderAt(pages[i]);
      var next, comp' := i + Pow2(t), Min(comp, t);
      forall q | 0 <= q < |pages| && q < next
        ensures comp' <= pages[q].order
      {
        if q >= i {
          StepOrders(pages, first, i, q);
        }
      }
      OrderIsBelow(pages, first, next, comp');
    }
  }

  /** An order allowed by both ends and all pages is not lost on the way. */
  lemma {:induction false} OrderIsAbove(pages: seq<Page>, first: nat, i: nat, comp: nat, k: nat)
    requires Mapped(pages, first) && Admissible(pages, first, k) && Divides(k, i) && k <= comp
    ensures k <= OrderFrom(pages, i, comp)
    decreases |pages| - i
  {
    if comp > 0 && i < |pages| {
      var p := pages[i];
      var t := OrderAt(p);
      DividesLess(k, p.order, first + i - p.frame);
      DividesSum(k, first, i);
      DividesSum(k, first + i, p.frame);
      TrailingZerosAre(p.frame, k);
      StepDivides(k, i, t);
      OrderIsAbove(pages, first, i + Pow2(t), Min(comp, t), k);
    }
  }

  lemma StepDivides(k: nat, i: nat, t: nat)
    requires Divides(k, i) && k <= t
    ensures Divides(k, i + Pow2(t))
  {
    Pow2Divides(k, t);
    DividesSum(k, i, Pow2(t));
  }

  /** The first page alone bounds the order by its alignment. */
  lemma FirstBounds(pages: seq<Page>, first: nat)
    requires Mapped(pages, first) && pages != []
    ensures OrderFrom(pages, 0, UINT_MAX) <= OrderAt(pages[0])
  {
    var t := OrderAt(pages[0]);
    hide TrailingZeros, Divides, InOrder;
    forall q | 0 <= q < |pages| && q < Pow2(t)
      ensures t <= pages[q].order
    {
      StepOrders(pages, first, 0, q);
    }
    OrderIsBelow(pages, first, Pow2(t), t);
  }

  lemma OrderAdmissible(pages: seq<Page>, first: nat)
    requires Mapped(pages, first) && pages != []
    ensures Admissible(pages, first, Order(pages, first))
  {
    hide TrailingZeros, OrderFrom, InOrder, Pow2;
    var c, p := Order(pages, first), pages[0];
    OrderIsBelow(pages, first, 0, UINT_MAX);
    FirstBounds(pages, first);
    TrailingZerosAre(first + |pages|, c);
    TrailingZerosAre(p.frame, c);
    DividesLess(c, p.order, first + 0 - p.frame);
    DividesSum(c, p.frame, first - p.frame);
  }

  /** The order found is the largest that both ends and all pages allow. */
  lemma OrderIsLargest(pages: seq<Page>, first: nat, k: nat)
    requires Mapped(pages, first) && pages != []
    ensures Admissible(pages, first, k) <==> k <= Order(pages, first)
  {
    hide TrailingZeros, OrderFrom, InOrder, Pow2, Divides;
    var c := Order(pages, first);
    OrderAdmissible(pages, first);
    if k <= c {
      DividesLess(k, c, first);
      DividesLess(k, c, first + |pages|);
    }
    if Admissible(pages, first, k) {
      DividesZero(k);
      assert k <= pages[0].order;
      assert PageOk(pages[0]);
      OrderIsAbove(pages, first, 0, UINT_MAX, k);
      TrailingZerosAre(first + |pages|, k);
    }
  }

  lemma DividesZero(k: nat)
    ensures Divides(k, 0)
  {
  }

  // ----- The addresses

  function AlignDown(x: int, d: nat): int requires d > 0 { x - x % d }

  function AlignUp(x: int, d: nat): int requires d > 0 { AlignDown(x + d - 1, d) }

  /** The number of blocks of `d` pages between the first aligned page and the end. */
  function MiddleCount(first: nat, n: nat, d: nat): int
    requires d > 0
  {
    (AlignDown(first + n, d) - AlignUp(first, d)) / d
  }

  function BlockOf(p: nat, d: nat): int requires d > 0 { p / d }

  function OffsetOf(p: nat, d: nat): int requires d > 0 { p % d }

  /** Page `p` of the range lies in block p / d at offset p % d, every block is whole
      and begins at a multiple of its size. */
  ghost predicate Covers(pages: seq<Page>, d: nat, addrs: seq<nat>)
    requires d > 0
  {
    && |pages| == |addrs| * d
    && (forall b :: 0 <= b < |addrs| ==> addrs[b] % d == 0)
    && forall p :: 0 <= p < |pages| ==> InBlock(pages[p], p, d, addrs)
  }

  predicate InBlock(page: Page, p: nat, d: nat, addrs: seq<nat>)
    requires d > 0
  {
    0 <= BlockOf(p, d) < |addrs| && page.frame == addrs[BlockOf(p, d)] + OffsetOf(p, d)
  }

  lemma AlignUpIs(x: int, d: nat)
    requires d > 0
    ensures x <= AlignUp(x, d) < x + d && AlignUp(x, d) % d == 0
    ensures AlignUp(x, d) == x <==> x % d == 0
  {
    var y := x + d - 1;
    var q, r := y / d, y % d;
    assert AlignUp(x, d) == q * d;
    DivModUnique(q * d, q, 0, d);
    if x % d == 0 {
      DivModUnique(y, x / d, d - 1, d);
    }
  }

  /** The blocks end where the range ends, and there is none too many; they cover the
      whole range exactly when it begins at a multiple of the block size. */
  lemma MiddleCountIs(first: nat, n: nat, d: nat)
    requires d > 0 && (first + n) % d == 0
    ensures 0 <= MiddleCount(first, n, d) && MiddleCount(first, n, d) * d <= n
    ensures MiddleCount(first, n, d) * d == n <==> first % d == 0
  {
    AlignUpIs(first, d);
    var a, e := AlignUp(first, d), first + n;
    var p, q := a / d, e / d;
    assert a == p * d && e == q * d;
    assert e - a == (q - p) * d;
    DivModUnique(e - a, q - p, 0, d);
    assert (p - q) * d == a - e;
    if q < p {
      MulAtLeast(p - q, d);
    }
  }

  /** The addresses are the frames of every d-th page. */
  ghost predicate Strided(pages: seq<Page>, d: nat, addrs: seq<nat>)
  {
    forall b :: 0 <= b < |addrs| ==> 0 <= b * d < |pages| && addrs[b] == pages[b * d].frame
  }

  lemma BlockStart(pages: seq<Page>, first: nat, c: nat, i: nat)
    requires Mapped(pages, first) && Admissible(pages, first, c) && i < |pages| && Divides(c, i)
    ensures Divides(c, pages[i].frame)
  {
    hide Pow2, InOrder;
    DividesLess(c, pages[i].order, first + i - pages[i].frame);
    DividesSum(c, first, i);
    DividesSum(c, first + i, pages[i].frame);
  }

  lemma PageInBlock(pages: seq<Page>, first: nat, c: nat, addrs: seq<nat>, p: nat)
    requires Mapped(pages, first) && Admissible(pages, first, c) && Strided(pages, Pow2(c), addrs)
    requires |pages| == |addrs| * Pow2(c) && p < |pages|
    ensures InBlock(pages[p], p, Pow2(c), addrs)
  {
    hide Pow2, Mapped, Admissible;
    var d := Pow2(c);
    var b, j := p / d, p % d;
    assert p == b * d + j;
    assert b < |addrs| by { QuotientBelow(p, d, |addrs|); }
    assert addrs[b] == pages[b * d].frame;
    DivModUnique(b * d, b, 0, d);
    BlockStart(pages, first, c, b * d);
    assert c <= pages[b * d].order by { OrderBelow(pages, first, c, b * d); }
    SameCompound(pages, first, b * d, c, j);
  }

  lemma OrderBelow(pages: seq<Page>, first: nat, c: nat, i: nat)
    requires Admissible(pages, first, c) && i < |pages|
    ensures c <= pages[i].order
  {
  }

  lemma QuotientBelow(p: nat, d: nat, m: nat)
    requires d > 0 && p < m * d
    ensures 0 <= p / d < m
  {
    var b := p / d;
    assert p == b * d + p % d;
    assert (b - m) * d == b * d - m * d;
    if b >= m + 1 {
      MulAtLeast(b - m, d);
    }
  }

  /** For every order both ends and all pages allow, the addresses are blocks of
      that many frames, and the blocks are the whole range, each page once. */
  lemma BlocksCover(pages: seq<Page>, first: nat, c: nat, addrs: seq<nat>)
    requires Mapped(pages, first) && Admissible(pages, first, c) && Strided(pages, Pow2(c), addrs)
    requires |addrs| == MiddleCount(first, |pages|, Pow2(c))
    ensures Covers(pages, Pow2(c), addrs)
  {
    hide Pow2, Mapped, MiddleCount, InBlock;
    var d := Pow2(c);
    MiddleCountIs(first, |pages|, d);
    forall b | 0 <= b < |addrs|
      ensures addrs[b] % d == 0
    {
      DivModUnique(b * d, b, 0, d);
      BlockStart(pages, first, c, b * d);
    }
    forall p | 0 <= p < |pages|
      ensures InBlock(pages[p], p, d, addrs)
    {
      PageInBlock(pages, first, c, addrs, p);
    }
  }

  method MiddleAddrs(pages: seq<Page>, first: nat, d: nat) returns (addrs: seq<nat>)
    requires d > 0 && (first + |pages|) % d == 0
    ensures |addrs| == MiddleCount(first, |pages|, d) && Strided(pages, d, addrs)
  {
    hide MiddleCount;
    MiddleCountIs(first, |pages|, d);
    var n := MiddleCount(first, |pages|, d);
    var out := new nat[n];
    var cur: nat := 0;
    for i := 0 to n
      invariant cur == i * d
      invariant Strided(pages, d, out[..i])
    {
      assert (i + 1) * d == cur + d && (n - (i + 1)) * d == n * d - (i + 1) * d;
      assert cur < |pages| by { BeforeEnd(i, n, d); }
      out[i] := pages[cur].frame;
      assert out[..i + 1] == out[..i] + [out[i]];
      cur := cur + d;
    }
    assert out[..n] == out[..];
    addrs := out[..];
  }

  lemma BeforeEnd(i: nat, n: nat, d: nat)
    requires i < n && d > 0
    ensures i * d < n * d
  {
    assert (n - i) * d == n * d - i * d;
    MulAtLeast(n - i, d);
  }

  datatype Outcome = Registered(order: nat, addrs: seq<nat>) | Failed(rc: int)

  /** Registers `bytes` bytes of user memory from `ptr` on. `got` are the pages
      the kernel could pin, `last` its answer when it pinned no more, and `memory` says
      which of the two allocations succeed. */
  method Register(ptr: nat, bytes: nat, got: seq<Page>, last: int, memory: (bool, bool)) returns (r: Outcome)
    requires Usable(got) && last <= 0 && |got| <= PagesOf(bytes)
    ensures r.Failed? <==> bytes == 0 || ptr % PAGE_SIZE != 0 || |got| < PagesOf(bytes) || !memory.0 || !memory.1
    ensures r.Failed? ==> r.rc < 0 && (bytes == 0 || ptr % PAGE_SIZE != 0 ==> r.rc == -EINVAL)
    ensures r.Failed? && bytes > 0 && ptr % PAGE_SIZE == 0 && memory.0 && last != 0 && |got| < PagesOf(bytes) ==>
      r.rc == last
    ensures r.Registered? ==> got != [] && r.order == Order(got, ptr / PAGE_SIZE)
    ensures r.Registered? && Mapped(got, ptr / PAGE_SIZE) ==> Covers(got, Pow2(r.order), r.addrs)
    ensures r.Registered? ==> |got| == PagesOf(bytes) && Strided(got, Pow2(r.order), r.addrs)
  {
    hide Pow2, Covers, Order, Mapped, Strided;
    if bytes == 0 || ptr % PAGE_SIZE != 0 {
      return Failed(-EINVAL);
    }
    if !memory.0 {
      return Failed(-ENOMEM);
    }
    if |got| < PagesOf(bytes) {
      return Failed(if last == 0 then -EFAULT else last);
    }
    var first: nat := ptr / PAGE_SIZE;
    var order := FindOrder(got, first);
    EndAligned(got, first);
    if !memory.1 {
      return Failed(-ENOMEM);
    }
    var addrs := MiddleAddrs(got, first, Pow2(order));
    if Mapped(got, first) {
      OrderAdmissible(got, first);
      BlocksCover(got, first, order, addrs);
    }
    r := Registered(order, addrs);
  }

  function PagesOf(bytes: nat): nat { (bytes + 4095) / 4096 }

  lemma EndAligned(pages: seq<Page>, first: nat)
    requires Usable(pages) && pages != []
    ensures (first + |pages|) % Pow2(Order(pages, first)) == 0
  {
    TrailingZerosAre(first + |pages|, Order(pages, first));
  }
}
