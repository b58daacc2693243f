/** The CPU mask library: masks as non-negative integers, printed as lists of
    bit ranges ("0-3,7") or as groups of eight hexadecimal digits, and parsed
    back from either.

    Python's int() is modelled on plain digits, with an optional 0x prefix for
    base 16; strings with signs, blanks or underscores count as malformed. */
module CpuMask {
  import opened Common
  import opened Arith

  // ----- Integers as masks

  predicate TestBit(m: nat, i: nat) { m / Pow2(i) % 2 == 1 }

  /** m & ~(1 << i) */
  function ClearBit(m: nat, i: nat): int { if TestBit(m, i) then m - Pow2(i) else m }

  /** Setting a bit above all others. */
  lemma OrTopBit(m: nat, i: nat)
    requires m < Pow2(i)
    ensures Or(m, Pow2(i)) == m + Pow2(i)
  {
    OrCommutes(m, Pow2(i));
    OrDisjoint(1, i, m);
  }

  // ----- Numbers as strings

  const HEX := "0123456789abcdef"

  function DigitValue(c: char): (d: nat)
    ensures d <= 16
  {
    if '0' <= c <= '9' then c as int - '0' as int
    else if 'a' <= c <= 'f' then c as int - 'a' as int + 10
    else if 'A' <= c <= 'F' then c as int - 'A' as int + 10
    else 16
  }

  function DigitChar(d: nat): (c: char)
    requires d < 16
    ensures DigitValue(c) == d && c != ',' && c != '-' && c != 'x'
    ensures d < 10 ==> '0' <= c <= '9'
  {
    HEX[d]
  }

  predicate IsDigits(s: string, base: nat) { forall i :: 0 <= i < |s| ==> DigitValue(s[i]) < base }

  function Value(s: string, base: nat): nat
  {
    if s == [] then 0 else Value(s[..|s| - 1], base) * base + DigitValue(s[|s| - 1])
  }

  /** Python's int(s, base) for base 10 or 16. */
  function PyInt(s: string, base: nat): Option<nat>
  {
    var digits := if base == 16 && |s| > 2 && (s[..2] == "0x" || s[..2] == "0X") then s[2..] else s;
    if digits != [] && IsDigits(digits, base) then Some(Value(digits, base)) else None
  }

  /** "%d" */
  function Decimal(n: nat): (s: string)
    ensures |s| > 0
  {
    if n < 10 then [DigitChar(n)] else Decimal(n / 10) + [DigitChar(n % 10)]
  }

  /** The last `k` hexadecimal digits of `n`; "%08x" of a 32-bit number for k = 8. */
  function HexDigits(n: nat, k: nat): (s: string)
    ensures |s| == k
  {
    if k == 0 then [] else HexDigits(n / 16, k - 1) + [DigitChar(n % 16)]
  }

  predicate Plain(s: string) { forall i :: 0 <= i < |s| ==> '0' <= s[i] <= '9' }

  lemma {:induction false} DecimalDigits(n: nat)
    ensures Plain(Decimal(n)) && IsDigits(Decimal(n), 10) && Value(Decimal(n), 10) == n
    decreases n
  {
    if n >= 10 {
      var s, t := Decimal(n), Decimal(n / 10);
      DecimalDigits(n / 10);
      assert s[..|s| - 1] == t;
    }
  }

  lemma DecimalParses(n: nat)
    ensures PyInt(Decimal(n), 10) == Some(n)
  {
    DecimalDigits(n);
  }

  lemma Pow2OfDigits(k: nat)
    ensures Pow2(4 * (k + 1)) == 16 * Pow2(4 * k)
  {
    hide Pow2;
    Pow2Next(4 * k);
    Pow2Next(4 * k + 1);
    Pow2Next(4 * k + 2);
    Pow2Next(4 * k + 3);
  }

  lemma {:induction false} HexValue(n: nat, k: nat)
    requires n < Pow2(4 * k)
    ensures IsDigits(HexDigits(n, k), 16) && Value(HexDigits(n, k), 16) == n
    ensures forall i :: 0 <= i < k ==> HexDigits(n, k)[i] != 'x' && HexDigits(n, k)[i] != ','
    decreases k
  {
    if k == 0 {
      assert Pow2(0) == 1;
    } else {
      hide Pow2, DigitChar;
      var s, t := HexDigits(n, k), HexDigits(n / 16, k - 1);
      Pow2OfDigits(k - 1);
      HexValue(n / 16, k - 1);
      assert s[..|s| - 1] == t;
    }
  }

  // ----- Splitting and joining

  /** s.split(c) */
  function Split(s: string, c: char): (r: seq<string>)
    ensures |r| > 0
  {
    if s == [] then [[]]
    else
      var rest := Split(s[1..], c);
      if s[0] == c then [[]] + rest else [[s[0]] + rest[0]] + rest[1..]
  }

  /** Each item with the separator before it. */
  function Prefixed(items: seq<string>, c: char): string
  {
    if items == [] then [] else [c] + items[0] + Prefixed(items[1..], c)
  }

  predicate Without(s: string, c: char) { c !in s }

  lemma {:induction false} SplitItem(item: string, rest: string, c: char)
    requires Without(item, c)
    ensures Split(item + [c] + rest, c) == [item] + Split(rest, c)
    ensures Split(item, c) == [item]
    decreases |item|
  {
    var s := item + [c] + rest;
    if item == [] {
      assert s == [c] + rest && s[1..] == rest;
    } else {
      assert s[1..] == item[1..] + [c] + rest;
      SplitItem(item[1..], rest, c);
      assert [item[0]] + item[1..] == item;
    }
  }

  /** Splitting a joined list gives the items back. */
  lemma {:induction false} SplitJoined(items: seq<string>, c: char)
    requires items != [] && forall i :: 0 <= i < |items| ==> Without(items[i], c)
    ensures Split(Prefixed(items, c)[1..], c) == items
    decreases |items|
  {
    hide Split, Without;
    var s := Prefixed(items, c)[1..];
    var rest := Prefixed(items[1..], c);
    assert s == items[0] + rest;
    if |items| == 1 {
      assert s == items[0];
      SplitItem(items[0], [], c);
    } else {
      assert rest == [c] + rest[1..];
      assert s == items[0] + [c] + rest[1..];
      SplitItem(items[0], rest[1..], c);
      SplitJoined(items[1..], c);
    }
  }

  lemma {:induction false} PrefixedJoin(a: seq<string>, b: seq<string>, c: char)
    ensures Prefixed(a + b, c) == Prefixed(a, c) + Prefixed(b, c)
    decreases |a|
  {
    if a == [] {
      assert a + b == b;
    } else {
      assert (a + b)[1..] == a[1..] + b;
      PrefixedJoin(a[1..], b, c);
    }
  }

  // ----- Lists of ranges

  /** Bits lo to hi, both included. */
  datatype Run = Run(lo: nat, hi: nat)

  /** The runs of ones of rest * 2^high, where the bits from `low` on (if it is not
      negative) up to `high` are a run already begun. */
  function RunsFrom(rest: nat, high: nat, low: int): seq<Run>
    requires low < high
  {
    if rest % 2 == 1 then RunsFrom(rest / 2, high + 1, if low < 0 then high else low)
    else (if low >= 0 then [Run(low, high - 1)] else []) + if rest == 0 then [] else RunsFrom(rest / 2, high + 1, -1)
  }

  function Item(run: Run): string
  {
    if run.hi > run.lo then Decimal(run.lo) + "-" + Decimal(run.hi) else Decimal(run.lo)
  }

  function Items(runs: seq<Run>): seq<string>
  {
    seq(|runs|, i requires 0 <= i < |runs| => Item(runs[i]))
  }

  function Runs(m: nat): seq<Run> { RunsFrom(m, 0, -1) }

  function PrintList(m: nat): string
  {
    var r := Prefixed(Items(Runs(m)), ',');
    if r == [] then r else r[1..]
  }

  /** What is still to be printed: Prefixed(Items(RunsFrom(...))). */
  function ToPrint(rest: nat, high: nat, low: int): string
    requires low < high
  {
    Prefixed(Items(RunsFrom(rest, high, low)), ',')
  }

  lemma ToPrintStep(rest: nat, high: nat, low: int)
    requires low < high
    ensures ToPrint(rest, high, low) ==
            (if rest % 2 == 0 && low >= 0 then "," + Item(Run(low, high - 1)) else "") +
            if rest == 0 then ""
            else ToPrint(rest / 2, high + 1, if rest % 2 == 0 then -1 else if low < 0 then high else low)
  {
    hide Item;
    if rest % 2 == 0 {
      var more := if rest == 0 then [] else RunsFrom(rest / 2, high + 1, -1);
      if low >= 0 {
        PrefixedItem(Run(low, high - 1), more);
      } else {
        assert RunsFrom(rest, high, low) == more;
      }
    }
  }

  method IntToCommaSepList(mask0: nat) returns (r: string)
    ensures r == PrintList(mask0)
  {
    hide Pow2, ToPrint, TestBit, ClearBit, Decimal, PrintList, Scaled;
    var mask: nat, low: int, high: nat := mask0, -1, 0;
    r := "";
    ghost var rest: nat := mask0;
    assert Scaled(mask0, 0) == mask0 by { ScaledZero(mask0); }
    PrintListIs(mask0);
    while true
      invariant low < high && mask == Scaled(rest, high)
      invariant ToPrint(mask0, 0, -1) == r + ToPrint(rest, high, low)
      decreases rest
    {
      BitOfRest(rest, high);
      ToPrintStep(rest, high, low);
      if TestBit(mask, high) {
        if low < 0 {
          low := high;
        }
      } else if low >= 0 {
        if high - low > 1 {
          r := r + ("," + (Decimal(low) + "-" + Decimal(high - 1)));
        } else {
          r := r + ("," + Decimal(low));
        }
        low := -1;
      }
      if mask == 0 {
        break;
      }
      mask := ClearBit(mask, high);
      high := high + 1;
      rest := rest / 2;
    }
    if r != "" {
      r := r[1..];
    }
  }

  lemma PrintListIs(m: nat)
    ensures PrintList(m) == if ToPrint(m, 0, -1) == "" then "" else ToPrint(m, 0, -1)[1..]
  {
  }

  /** rest << high */
  function Scaled(rest: nat, high: nat): nat { rest * Pow2(high) }

  lemma ScaledZero(m: nat)
    ensures Scaled(m, 0) == m
  {
  }

  /** The bit tested, and the mask once that bit is cleared, in terms of the rest. */
  lemma BitOfRest(rest: nat, high: nat)
    ensures Scaled(rest, high) == 0 <==> rest == 0
    ensures TestBit(Scaled(rest, high), high) <==> rest % 2 == 1
    ensures ClearBit(Scaled(rest, high), high) == Scaled(rest / 2, high + 1)
  {
    if rest > 0 {
      MulAtLeast(rest, Pow2(high));
    }
    DivModUnique(rest * Pow2(high), rest, 0, Pow2(high));
    var h := rest / 2;
    assert rest == 2 * h + rest % 2;
    assert h * Pow2(high + 1) == (2 * h) * Pow2(high);
    assert rest % 2 == 1 ==> rest * Pow2(high) == (2 * h) * Pow2(high) + Pow2(high);
  }

  lemma PrefixedItem(run: Run, runs: seq<Run>)
    ensures Prefixed(Items([run] + runs), ',') == "," + Item(run) + Prefixed(Items(runs), ',')
  {
    hide Item;
    var items := Items([run] + runs);
    assert items[0] == Item(run) && items[1..] == Items(runs);
  }

  /** for i in range(a, b + 1): mask |= 1 << i */
  function AddRange(m: nat, a: nat, b: int): nat
    decreases b + 1 - a
  {
    if a > b then m else AddRange(Or(m, Pow2(a)), a + 1, b)
  }

  /** One item of a list, added to a mask; None where Python raises ValueError. */
  function AddItem(m: nat, s: string): Option<nat>
  {
    if '-' in s then
      var parts := Split(s, '-');
      if |parts| != 2 then None
      else
        var a, b := PyInt(parts[0], 10), PyInt(parts[1], 10);
        if a.Some? && b.Some? then Some(AddRange(m, a.value, b.value)) else None
    else
      var n := PyInt(s, 10);
      if n.Some? then Some(Or(m, Pow2(n.value))) else None
  }

  function AddItems(m: nat, items: seq<string>): Option<nat>
    decreases |items|
  {
    if items == [] then Some(m)
    else
      var r := AddItem(m, items[0]);
      if r.None? then None else AddItems(r.value, items[1..])
  }

  function ParseList(s: string): Option<nat> { AddItems(0, Split(s, ',')) }

  method CommaSepListToInt(csl: string) returns (r: Option<nat>)
    ensures r == ParseList(csl)
  {
    hide Pow2, Or, PyInt;
    var mask: nat := 0;
    var items := Split(csl, ',');
    var k := 0;
    while k < |items|
      invariant k <= |items| && ParseList(csl) == AddItems(mask, items[k..])
    {
      var s := items[k];
      assert items[k..][0] == s && items[k..][1..] == items[k + 1..];
      if '-' in s {
        var parts := Split(s, '-');
        if |parts| != 2 {
          return None;
        }
        var a, b := PyInt(parts[0], 10), PyInt(parts[1], 10);
        if a.None? || b.None? {
          return None;
        }
        var i := a.value;
        ghost var sum := AddRange(mask, a.value, b.value);
        while i < b.value + 1
          invariant a.value <= i && sum == AddRange(mask, i, b.value)
        {
          mask := Or(mask, Pow2(i));
          i := i + 1;
        }
      } else {
        var n := PyInt(s, 10);
        if n.None? {
          return None;
        }
        mask := Or(mask, Pow2(n.value));
      }
      k := k + 1;
    }
    r := Some(mask);
  }

  // ----- Printing a list and parsing it

  function Sum(runs: seq<Run>): int
  {
    if runs == [] then 0 else Pow2(runs[0].hi + 1) - Pow2(runs[0].lo) + Sum(runs[1..])
  }

  /** Runs in order from bit `from` on, with a zero bit between two of them. */
  predicate Ascending(runs: seq<Run>, from: nat)
  {
    runs != [] ==> from <= runs[0].lo <= runs[0].hi && Ascending(runs[1..], runs[0].hi + 2)
  }

  lemma {:induction false} AscendingWeaker(runs: seq<Run>, from: nat, from': nat)
    requires Ascending(runs, from) && from' <= from
    ensures Ascending(runs, from')
  {
  }

  /** The runs are the maximal runs of ones, and they add up to the number. */
  lemma {:induction false} RunsSum(rest: nat, high: nat, low: int)
    requires low < high
    ensures Ascending(RunsFrom(rest, high, low), if low >= 0 then low else high)
    ensures Sum(RunsFrom(rest, high, low)) == Scaled(rest, high) + if low >= 0 then Pow2(high) - Pow2(low) else 0
    decreases rest
  {
    hide Scaled;
    var runs := RunsFrom(rest, high, low);
    ScaledStep(rest, high);
    assert Pow2(high + 1) == 2 * Pow2(high);
    hide Pow2;
    if rest % 2 == 1 {
      RunsSum(rest / 2, high + 1, if low < 0 then high else low);
    } else {
      var more := if rest == 0 then [] else RunsFrom(rest / 2, high + 1, -1);
      if rest != 0 {
        RunsSum(rest / 2, high + 1, -1);
      }
      if low >= 0 {
        assert runs[0] == Run(low, high - 1) && runs[1..] == more;
      } else {
        assert runs == more;
        AscendingWeaker(more, high + 1, high);
      }
    }
  }

  lemma ScaledStep(rest: nat, high: nat)
    ensures Scaled(rest, high) == Scaled(rest / 2, high + 1) + if rest % 2 == 1 then Pow2(high) else 0
    ensures Scaled(0, high) == 0
  {
    var h := rest / 2;
    assert rest == 2 * h + rest % 2;
    assert h * Pow2(high + 1) == (2 * h) * Pow2(high);
    assert rest % 2 == 1 ==> rest * Pow2(high) == (2 * h) * Pow2(high) + Pow2(high);
  }

  /** Adding a range above all bits of the mask. */
  lemma {:induction false} AddRangeAbove(m: nat, a: nat, b: int)
    requires m < Pow2(a) && a <= b + 1
    ensures AddRange(m, a, b) == m + Pow2(b + 1) - Pow2(a)
    decreases b + 1 - a
  {
    if a <= b {
      OrTopBit(m, a);
      assert Pow2(a + 1) == 2 * Pow2(a);
      AddRangeAbove(m + Pow2(a), a + 1, b);
    }
  }

  lemma DecimalHasNo(n: nat, c: char)
    requires !('0' <= c <= '9')
    ensures c !in Decimal(n)
  {
    DecimalDigits(n);
  }

  lemma ItemWithout(run: Run)
    ensures Without(Item(run), ',') && (run.hi > run.lo <==> '-' in Item(run))
  {
    hide Decimal;
    DecimalHasNo(run.lo, ',');
    DecimalHasNo(run.hi, ',');
    DecimalHasNo(run.lo, '-');
    if run.hi > run.lo {
      var s, k := Item(run), |Decimal(run.lo)|;
      assert s[k] == '-';
    }
  }

  /** "a-b" parses to the two numbers. */
  lemma AddPair(m: nat, a: nat, b: nat)
    ensures AddItem(m, Decimal(a) + "-" + Decimal(b)) == Some(AddRange(m, a, b))
  {
    hide Decimal, PyInt, Split, AddRange;
    var x, y := Decimal(a), Decimal(b);
    DecimalParses(a);
    DecimalParses(b);
    DecimalHasNo(a, '-');
    DecimalHasNo(b, '-');
    SplitItem(x, y, '-');
    SplitItem(y, [], '-');
    assert x + "-" + y == x + ['-'] + y;
    assert (x + "-" + y)[|x|] == '-';
  }

  lemma AddSingle(m: nat, a: nat)
    ensures AddItem(m, Decimal(a)) == Some(Or(m, Pow2(a)))
  {
    hide Decimal, PyInt, Split, AddRange, Or, Pow2;
    DecimalParses(a);
    DecimalHasNo(a, '-');
  }

  /** An item parses to its run. */
  lemma AddItemIs(m: nat, run: Run)
    requires run.lo <= run.hi && m < Pow2(run.lo)
    ensures AddItem(m, Item(run)) == Some(m + Pow2(run.hi + 1) - Pow2(run.lo))
    ensures m + Pow2(run.hi + 1) - Pow2(run.lo) < Pow2(run.hi + 2)
  {
    hide Decimal, AddItem, AddRange, Or, Pow2;
    Pow2Next(run.hi + 1);
    if run.hi > run.lo {
      AddPair(m, run.lo, run.hi);
      AddRangeAbove(m, run.lo, run.hi);
    } else {
      AddSingle(m, run.lo);
      OrTopBit(m, run.lo);
      Pow2Next(run.lo);
    }
  }

  lemma {:induction false} AddItemsIs(m: nat, runs: seq<Run>, from: nat)
    requires Ascending(runs, from) && m < Pow2(from)
    ensures AddItems(m, Items(runs)) == Some(m + Sum(runs))
    decreases |runs|
  {
    hide AddItem, Pow2, Item;
    if runs == [] {
    } else {
      var run, items := runs[0], Items(runs);
      Pow2Grows(from, run.lo);
      AddItemIs(m, run);
      assert items[0] == Item(run) && items[1..] == Items(runs[1..]);
      AddItemsIs(m + Pow2(run.hi + 1) - Pow2(run.lo), runs[1..], run.hi + 2);
    }
  }

  lemma SplitPrinted(m: nat)
    requires m > 0
    ensures Runs(m) != [] && Split(PrintList(m), ',') == Items(Runs(m))
  {
    hide Item, RunsFrom;
    RunsSum(m, 0, -1);
    ScaledZero(m);
    assert Runs(m) != [];
    var items := Items(Runs(m));
    forall i | 0 <= i < |items|
      ensures Without(items[i], ',')
    {
      ItemWithout(Runs(m)[i]);
    }
    SplitJoined(items, ',');
    assert Prefixed(items, ',') != [];
  }

  /** Parsing the printed list gives back every mask above zero. */
  lemma ListRoundTrip(m: nat)
    requires m > 0
    ensures ParseList(PrintList(m)) == Some(m)
  {
    hide RunsFrom, PrintList, AddItems, Split;
    SplitPrinted(m);
    RunsSum(m, 0, -1);
    ScaledZero(m);
    assert Pow2(0) == 1;
    AddItemsIs(0, Runs(m), 0);
  }

  // ----- Groups of eight hexadecimal digits

  /** Most significant group first. */
  function Groups(m: nat): (r: seq<string>)
    ensures |r| > 0
  {
    if m < U32 then [HexDigits(m, 8)] else Groups(m / U32) + [HexDigits(m % U32, 8)]
  }

  function PrintHex(m: nat): string { Prefixed(Groups(m), ',')[1..] }

  lemma WordIsPow2()
    ensures Pow2(32) == U32
  {
    assert Pow2(6) == 64;
    assert Pow2(12) == 64 * 64;
    assert Pow2(18) == 64 * 64 * 64;
    assert Pow2(24) == 64 * 64 * 64 * 64;
    assert Pow2(30) == 64 * 64 * 64 * 64 * 64;
  }

  lemma HexGroup(n: nat)
    requires n < U32
    ensures PyInt(HexDigits(n, 8), 16) == Some(n) && Without(HexDigits(n, 8), ',')
  {
    hide Value, HexDigits, Pow2;
    WordIsPow2();
    HexValue(n, 8);
    var s := HexDigits(n, 8);
    assert s[1] != 'x';
    assert DigitValue(s[1]) < 16;
  }

  lemma PrefixedLast(items: seq<string>, last: string)
    ensures Prefixed(items + [last], ',') == Prefixed(items, ',') + "," + last
  {
    PrefixedJoin(items, [last], ',');
    assert Prefixed([last], ',') == "," + last;
  }

  /** The groups still to be written when `m` is what is left of the mask. */
  function Above(m: nat): seq<string> { if m == 0 then [] else Groups(m) }

  lemma GroupsStep(m: nat)
    ensures Prefixed(Groups(m), ',') == Prefixed(Above(m / U32), ',') + "," + HexDigits(m % U32, 8)
  {
    hide HexDigits, Prefixed;
    assert Groups(m) == Above(m / U32) + [HexDigits(m % U32, 8)];
    PrefixedLast(Above(m / U32), HexDigits(m % U32, 8));
  }

  /** "%x" */
  function HexPlain(n: nat): (s: string)
    ensures |s| > 0
  {
    if n < 16 then [DigitChar(n)] else HexPlain(n / 16) + [DigitChar(n % 16)]
  }

  /** With `minlen` a mask of one group is printed without leading zeros. */
  function PrintHexMin(m: nat, minlen: bool): string { if minlen && m < U32 then HexPlain(m) else PrintHex(m) }

  /** There is a comma exactly when there is more than one group. */
  lemma CommaIff(m: nat)
    ensures ',' in PrintHex(m) <==> m >= U32
    ensures m < U32 ==> PyInt(PrintHex(m), 16) == Some(m)
  {
    hide HexDigits, PyInt;
    if m < U32 {
      HexGroup(m);
      PrefixedLast([], HexDigits(m, 8));
      assert [] + [HexDigits(m, 8)] == Groups(m);
      assert PrintHex(m) == HexDigits(m, 8);
    } else {
      var rest, last := Groups(m / U32), HexDigits(m % U32, 8);
      PrefixedLast(rest, last);
      var all, k := Prefixed(Groups(m), ','), |Prefixed(rest, ',')|;
      assert k > 0 && all[k] == ',';
      assert PrintHex(m)[k - 1] == ',';
    }
  }

  method IntToCommaSepHex(mask0: nat, minlen: bool) returns (cshm: string)
    ensures cshm == PrintHexMin(mask0, minlen)
  {
    hide HexDigits, Groups, PyInt;
    cshm := HexDigits(mask0 % U32, 8);
    var mask: nat := mask0 / U32;
    GroupsStep(mask0);
    while mask != 0
      invariant Prefixed(Groups(mask0), ',') == Prefixed(Above(mask), ',') + "," + cshm
    {
      GroupsStep(mask);
      cshm := HexDigits(mask % U32, 8) + "," + cshm;
      mask := mask / U32;
    }
    CommaIff(mask0);
    if minlen && ',' !in cshm {
      cshm := HexPlain(PyInt(cshm, 16).value);
    }
  }

  /** The groups added below a mask, each shifting it up by a word. */
  function AddGroups(m: nat, items: seq<string>): Option<nat>
    decreases |items|
  {
    if items == [] then Some(m)
    else
      var v := PyInt(items[0], 16);
      if v.None? then None else AddGroups(Or(m * U32, v.value), items[1..])
  }

  function ParseHex(s: string): Option<nat> { AddGroups(0, Split(s, ',')) }

  method CommaSepHexToInt(cshm: string) returns (r: Option<nat>)
    ensures r == ParseHex(cshm)
  {
    hide Or, PyInt, Split;
    var mask: nat := 0;
    var items := Split(cshm, ',');
    var k := 0;
    while k < |items|
      invariant k <= |items| && ParseHex(cshm) == AddGroups(mask, items[k..])
    {
      assert items[k..][0] == items[k] && items[k..][1..] == items[k + 1..];
      var v := PyInt(items[k], 16);
      if v.None? {
        return None;
      }
      mask := Or(mask * U32, v.value);
      k := k + 1;
    }
    r := Some(mask);
  }

  lemma OrWord(x: nat, v: nat)
    requires v < U32
    ensures Or(x * U32, v) == x * U32 + v
  {
    hide Or, Pow2;
    WordIsPow2();
    OrDisjoint(x, 32, v);
  }

  lemma {:induction false} AddGroupsIs(m: nat, tail: seq<string>)
    ensures AddGroups(0, Groups(m) + tail) == AddGroups(m, tail)
    decreases m
  {
    hide Or, PyInt, HexDigits;
    var last := m % U32;
    var rest := [HexDigits(last, 8)] + tail;
    HexGroup(last);
    assert rest[0] == HexDigits(last, 8) && rest[1..] == tail;
    OrWord(m / U32, last);
    if m < U32 {
      OrWord(0, m);
    } else {
      assert Groups(m) + tail == Groups(m / U32) + rest;
      AddGroupsIs(m / U32, rest);
    }
  }

  predicate IsGroup(s: string) { |s| == 8 && PyInt(s, 16).Some? }

  lemma {:induction false} GroupsAre(m: nat)
    ensures forall i :: 0 <= i < |Groups(m)| ==> IsGroup(Groups(m)[i]) && Without(Groups(m)[i], ',')
    decreases m
  {
    hide HexDigits, PyInt;
    HexGroup(m % U32);
    if m >= U32 {
      GroupsAre(m / U32);
    }
  }

  lemma SplitHex(m: nat)
    ensures Split(PrintHex(m), ',') == Groups(m) && |PrintHex(m)| >= 8
  {
    hide Split, Groups;
    GroupsAre(m);
    SplitJoined(Groups(m), ',');
    assert IsGroup(Groups(m)[0]);
  }

  /** Parsing the printed hexadecimal gives back every mask. */
  lemma HexRoundTrip(m: nat)
    ensures ParseHex(PrintHex(m)) == Some(m)
  {
    hide Split, Groups, PrintHex;
    SplitHex(m);
    AddGroupsIs(m, []);
    assert Groups(m) + [] == Groups(m);
  }

  lemma {:induction false} HexPlainDigits(n: nat)
    ensures var s := HexPlain(n);
            IsDigits(s, 16) && Value(s, 16) == n && Without(s, ',') && Without(s, 'x') && Without(s, 'X')
    decreases n
  {
    if n < 16 {
    } else {
      var s, t := HexPlain(n), HexPlain(n / 16);
      HexPlainDigits(n / 16);
      assert s[..|s| - 1] == t;
    }
  }

  /** Parsing gives back every mask from the short form too. */
  lemma HexMinRoundTrip(m: nat, minlen: bool)
    ensures ParseHex(PrintHexMin(m, minlen)) == Some(m)
  {
    hide Split, HexPlain, PrintHex, Value, Or;
    HexRoundTrip(m);
    if minlen && m < U32 {
      var s := HexPlain(m);
      HexPlainDigits(m);
      SplitItem(s, [], ',');
      assert |s| > 2 ==> s[1] in s;
      assert PyInt(s, 16) == Some(m);
      OrWord(0, m);
      assert [s][0] == s && [s][1..] == [];
      assert AddGroups(m, []) == Some(m);
      assert AddGroups(0, [s]) == AddGroups(m, []);
    }
  }

  // ----- The classifier

  datatype Mask = Int(i: nat) | IntList(bits: seq<int>) | Str(s: string)

  predicate IsHexWith0x(s: string) { |s| >= 2 && s[..2] == "0x" && PyInt(s, 16).Some? }

  predicate IsCommaSepHex(s: string)
  {
    if Without(s, ',') && |s| < 8 then IsHexWith0x(s)
    else var items := Split(s, ','); forall i :: 0 <= i < |items| ==> IsGroup(items[i])
  }

  /** The expression is matched as a prefix only, so any item that begins with a
      digit and is short enough passes. */
  predicate IsListItem(s: string) { 1 <= |s| <= 7 && '0' <= s[0] <= '9' }

  predicate IsCommaSepList(s: string)
  {
    var items := Split(s, ',');
    forall i :: 0 <= i < |items| ==> IsListItem(items[i])
  }

  /** None for a negative shift. */
  function AddBits(m: nat, bits: seq<int>): Option<nat>
    decreases |bits|
  {
    if bits == [] then Some(m) else if bits[0] < 0 then None else AddBits(Or(m, Pow2(bits[0])), bits[1..])
  }

  method IntListToInt(bits: seq<int>) returns (r: Option<nat>)
    ensures r == AddBits(0, bits)
  {
    hide Or, Pow2;
    var m: nat, k := 0, 0;
    while k < |bits|
      invariant k <= |bits| && AddBits(0, bits) == AddBits(m, bits[k..])
    {
      assert bits[k..][0] == bits[k] && bits[k..][1..] == bits[k + 1..];
      if bits[k] < 0 {
        return None;
      }
      m := Or(m, Pow2(bits[k]));
      k := k + 1;
    }
    r := Some(m);
  }

  /** None where BadMask or ValueError is raised. */
  function ToInt(mask: Mask): Option<nat>
  {
    match mask
    case Int(i) => Some(i)
    case IntList(bits) => AddBits(0, bits)
    case Str(s) => if IsCommaSepHex(s) then ParseHex(s) else if IsCommaSepList(s) then ParseList(s) else None
  }

  /** The classifier takes every printed hexadecimal mask back. */
  lemma ToIntOfHex(m: nat)
    ensures ToInt(Str(PrintHex(m))) == Some(m)
  {
    hide Split, Groups, PrintHex, ParseHex, PyInt;
    SplitHex(m);
    GroupsAre(m);
    HexRoundTrip(m);
  }

  lemma {:induction false} HexPlainShort(n: nat, k: nat)
    requires n < Pow2(4 * k) && k > 0
    ensures |HexPlain(n)| <= k
    decreases k
  {
    hide Pow2;
    if n < 16 {
    } else {
      if k == 1 {
        assert Pow2(4) == 16 by { SixteenIsPow2(); }
      }
      Pow2OfDigits(k - 1);
      HexPlainShort(n / 16, k - 1);
    }
  }

  lemma {:induction false} HexPlainLong(n: nat, k: nat)
    requires n >= Pow2(4 * k)
    ensures |HexPlain(n)| > k
    decreases k
  {
    hide Pow2;
    if k == 0 {
    } else {
      Pow2OfDigits(k - 1);
      HexPlainLong(n / 16, k - 1);
    }
  }

  lemma SixteenIsPow2()
    ensures Pow2(4) == 16
  {
  }

  /** The bit that decimal digits number is worth more than the same digits in base 16. */
  lemma {:induction false} BitAboveHex(s: string)
    requires IsDigits(s, 10)
    ensures Pow2(Value(s, 10)) > Value(s, 16)
    decreases |s|
  {
    if s == [] {
    } else {
      var t, d := s[..|s| - 1], DigitValue(s[|s| - 1]);
      BitAboveHex(t);
      var a, b := Value(t, 10), Value(t, 16);
      assert Pow2(0) == 1;
      assert Value(s, 10) == 10 * a + d && Value(s, 16) == 16 * b + d;
      hide Pow2, Value;
      if a == 0 {
        BitAbove(d);
      } else {
        Pow2Grows(a + 9, 10 * a + d);
        Pow2Nine(a);
      }
    }
  }

  lemma {:induction false} BitAbove(d: nat)
    ensures Pow2(d) > d
    decreases d
  {
    if d == 0 {
    } else {
      BitAbove(d - 1);
    }
  }

  lemma Pow2Nine(a: nat)
    ensures Pow2(a + 9) == 512 * Pow2(a)
  {
    hide Pow2;
    Pow2OfThree(a);
    Pow2OfThree(a + 3);
    Pow2OfThree(a + 6);
  }

  lemma Pow2OfThree(a: nat)
    ensures Pow2(a + 3) == 8 * Pow2(a)
  {
    hide Pow2;
    Pow2Next(a);
    Pow2Next(a + 1);
    Pow2Next(a + 2);
  }

  /** A short form of at most seven digits is never taken back: at best it is taken for a
      list of one bit. */
  lemma ShortHexMisread(m: nat)
    requires m < 0x1000_0000
    ensures ToInt(Str(HexPlain(m))) != Some(m)
  {
    hide Value, Pow2, HexPlain, Split, Or;
    var s := HexPlain(m);
    HexPlainDigits(m);
    assert Pow2(28) == 0x1000_0000 by { WordIsPow2(); Pow2OfDigits(7); }
    HexPlainShort(m, 7);
    SplitItem(s, [], ',');
    assert |s| >= 2 ==> s[1] in s;
    assert !IsHexWith0x(s) && !IsCommaSepHex(s);
    if IsCommaSepList(s) {
      var items: seq<string> := [s];
      assert ParseList(s) == AddItems(0, items) && items[1..] == [];
      NoDash(s);
      var n := PyInt(s, 10);
      if n.Some? {
        BitAboveHex(s);
        assert Or(0, Pow2(n.value)) == Pow2(n.value) by { OrWithZero(Pow2(n.value)); }
        assert AddItem(0, s) == Some(Pow2(n.value));
        assert AddItems(Pow2(n.value), []) == Some(Pow2(n.value));
      } else {
        assert AddItem(0, s) == None;
      }
    }
  }

  lemma NoDash(s: string)
    requires IsDigits(s, 16)
    ensures '-' !in s
  {
    assert DigitValue('-') == 16;
  }

  /** The classifier takes the short form back exactly when it has all eight digits. */
  lemma ToIntOfHexMin(m: nat)
    ensures ToInt(Str(PrintHexMin(m, true))) == Some(m) <==> m >= 0x1000_0000
  {
    hide ToInt, HexPlain, PrintHex, Pow2;
    if m >= U32 {
      ToIntOfHex(m);
    } else if m >= 0x1000_0000 {
      EightHexTaken(m);
    } else {
      ShortHexMisread(m);
    }
  }

  lemma EightHexTaken(m: nat)
    requires 0x1000_0000 <= m < U32
    ensures ToInt(Str(HexPlain(m))) == Some(m)
  {
    hide Value, Pow2, HexPlain, Split, ParseHex;
    var s := HexPlain(m);
    HexPlainDigits(m);
    WordIsPow2();
    Pow2OfDigits(7);
    HexPlainShort(m, 8);
    HexPlainLong(m, 7);
    SplitItem(s, [], ',');
    assert s[1] in s;
    assert IsGroup(s);
    HexMinRoundTrip(m, true);
  }

  /** 0x10 prints as "10", which is read as bit 10. */
  lemma TenIsMisread()
    ensures PrintHexMin(0x10, true) == "10" && ToInt(Str("10")) == Some(1024)
  {
    assert HexPlain(0x10) == HexPlain(1) + ['0'];
    SplitItem("10", [], ',');
    assert Split("10", ',') == ["10"];
    assert !IsCommaSepHex("10") && IsCommaSepList("10");
    assert PyInt("10", 10) == Some(10) by { DecimalParses(10); TenIsDecimal(); }
    assert Pow2(10) == 1024;
    assert AddItem(0, "10") == Some(1024);
    var items: seq<string> := ["10"];
    assert items[1..] == [] && AddItems(0, items) == AddItems(1024, []);
  }

  lemma TenIsDecimal()
    ensures Decimal(10) == "10"
  {
    assert Decimal(1) == "1";
  }

  predicate AllShort(runs: seq<Run>) { forall i :: 0 <= i < |runs| ==> |Item(runs[i])| <= 7 }

  lemma ItemStart(run: Run)
    ensures |Item(run)| > 0 && '0' <= Item(run)[0] <= '9'
    ensures |Item(run)| >= 2 ==> Item(run)[1] != 'x' && Item(run)[1] != 'X'
  {
    DecimalDigits(run.lo);
    DecimalDigits(run.hi);
    hide Decimal;
  }

  /** A printed list has no 0x prefix. */
  lemma ListStart(m: nat)
    ensures !IsHexWith0x(PrintList(m))
  {
    hide Item, RunsFrom, PyInt;
    var items := Items(Runs(m));
    if items != [] {
      ItemStart(Runs(m)[0]);
      var item, rest := items[0], Prefixed(items[1..], ',');
      assert rest == [] || rest[0] == ',';
      assert Prefixed(items, ',') == [','] + item + rest;
      var s := PrintList(m);
      assert s == item + rest;
      if |s| >= 2 {
        assert s[1] == if |item| >= 2 then item[1] else rest[0];
        assert s[..2][1] == s[1] != 'x';
      }
    } else {
      assert PrintList(m) == [];
    }
  }

  lemma ShortListAccepted(m: nat)
    requires m > 0 && AllShort(Runs(m))
    ensures ToInt(Str(PrintList(m))) == Some(m)
  {
    hide Item, RunsFrom, PyInt, PrintList, ParseList, ParseHex, Split, IsHexWith0x;
    var items := Items(Runs(m));
    SplitPrinted(m);
    ListStart(m);
    ListRoundTrip(m);
    assert !IsGroup(items[0]);
    forall i | 0 <= i < |items|
      ensures IsListItem(items[i])
    {
      ItemStart(Runs(m)[i]);
    }
  }

  /** Digits read in base 16 are worth at least as much as in base 10. */
  lemma {:induction false} HexAtLeastDecimal(s: string)
    ensures Value(s, 10) <= Value(s, 16)
    decreases |s|
  {
    if s == [] {
    } else {
      HexAtLeastDecimal(s[..|s| - 1]);
    }
  }

  lemma {:induction false} ValueBelow(s: string, k: nat)
    requires |s| == k && IsDigits(s, 16)
    ensures Value(s, 16) < Pow2(4 * k)
    decreases k
  {
    if k == 0 {
    } else {
      ValueBelow(s[..k - 1], k - 1);
      Pow2Next(4 * k - 4);
      Pow2Next(4 * k - 3);
      Pow2Next(4 * k - 2);
      Pow2Next(4 * k - 1);
    }
  }

  /** Sums of runs from bit `from` on have `from` zero bits at the end. */
  lemma {:induction false} SumMultiple(runs: seq<Run>, from: nat) returns (q: int)
    requires Ascending(runs, from)
    ensures Sum(runs) == q * Pow2(from)
    decreases |runs|
  {
    hide Pow2;
    if runs == [] {
      q := 0;
    } else {
      var run := runs[0];
      var q' := SumMultiple(runs[1..], run.hi + 2);
      var a := Pow2Multiple(from, run.lo);
      var b := Pow2Multiple(from, run.hi + 1);
      var c := Pow2Multiple(from, run.hi + 2);
      q := b - a + q' * c;
      Distribute(a, b, q', c, Pow2(from));
    }
  }

  lemma Distribute(a: int, b: int, x: int, c: int, p: int)
    ensures (b - a + x * c) * p == b * p - a * p + x * (c * p)
  {
  }

  /** Adding groups, the last of them not zero, leaves a number with low bits set. */
  lemma {:induction false} LastGroupShows(m: nat, items: seq<string>)
    requires items != [] && forall i :: 0 <= i < |items| ==> IsGroup(items[i])
    requires var v := PyInt(items[|items| - 1], 16); v.Some? && 0 < v.value < U32
    requires forall i :: 0 <= i < |items| && PyInt(items[i], 16).Some? ==> PyInt(items[i], 16).value < U32
    ensures var r := AddGroups(m, items); r.Some? && r.value % U32 != 0
    decreases |items|
  {
    hide Or, PyInt;
    var v := PyInt(items[0], 16).value;
    OrWord(m, v);
    DivModUnique(m * U32 + v, m, v, U32);
    if |items| > 1 {
      LastGroupShows(m * U32 + v, items[1..]);
    } else {
      assert items[1..] == [];
    }
  }

  lemma EightDigits(n: nat)
    requires |Decimal(n)| == 8
    ensures n >= 100 && IsDigits(Decimal(n), 16) && 0 < Value(Decimal(n), 16) < U32
  {
    hide Value, Pow2;
    assert n < 100 ==> |Decimal(n)| <= 2;
    DecimalDigits(n);
    HexAtLeastDecimal(Decimal(n));
    assert forall i :: 0 <= i < |Decimal(n)| ==> DigitValue(Decimal(n)[i]) < 16;
    ValueBelow(Decimal(n), 8);
    WordIsPow2();
  }

  lemma DashIsNoHex(s: string)
    requires '-' in s && |s| >= 2 && s[1] != 'x' && s[1] != 'X'
    ensures PyInt(s, 16) == None
  {
    var k :| 0 <= k < |s| && s[k] == '-';
    assert DigitValue(s[k]) == 16;
  }

  /** A list item that also reads as a group: one bit, numbered in eight digits. */
  lemma GroupItem(run: Run)
    requires run.lo <= run.hi && IsGroup(Item(run))
    ensures run.lo == run.hi >= 100 && 0 < PyInt(Item(run), 16).value < U32
  {
    hide Decimal, Value, IsDigits;
    ItemWithout(run);
    ItemStart(run);
    if run.hi > run.lo {
      DashIsNoHex(Item(run));
    } else {
      EightDigits(run.lo);
    }
  }

  lemma LongListRefused(m: nat)
    requires m > 0 && !AllShort(Runs(m))
    ensures ToInt(Str(PrintList(m))) != Some(m)
  {
    hide Item, RunsFrom, PyInt, PrintList, ParseList, Split, IsHexWith0x, Sum, AddGroups, Pow2;
    var runs := Runs(m);
    var items := Items(runs);
    SplitPrinted(m);
    ListStart(m);
    RunsSum(m, 0, -1);
    ScaledZero(m);
    var long :| 0 <= long < |runs| && |Item(runs[long])| > 7;
    assert !IsListItem(items[long]);
    if IsCommaSepHex(PrintList(m)) {
      AscendingRuns(runs, 0);
      forall i | 0 <= i < |runs|
        ensures IsGroup(items[i]) && 0 < PyInt(items[i], 16).value < U32
      {
        assert IsGroup(items[i]);
        GroupItem(runs[i]);
      }
      LastGroupShows(0, items);
      assert IsGroup(items[0]);
      GroupItem(runs[0]);
      var q := SumMultiple(runs, 32);
      WordIsPow2();
      DivModUnique(m, q, 0, U32);
    }
  }

  lemma {:induction false} AscendingRuns(runs: seq<Run>, from: nat)
    requires Ascending(runs, from)
    ensures forall i :: 0 <= i < |runs| ==> runs[i].lo <= runs[i].hi
    decreases |runs|
  {
    if runs == [] {
    } else {
      AscendingRuns(runs[1..], runs[0].hi + 2);
    }
  }

  /** The classifier takes a printed list back exactly when the mask is not zero
      and every printed item has at most seven characters. */
  lemma ToIntOfList(m: nat)
    ensures ToInt(Str(PrintList(m))) == Some(m) <==> m > 0 && AllShort(Runs(m))
  {
    hide PrintList, ToInt, Runs, AllShort;
    if m == 0 {
      EmptyListRefused();
    } else if AllShort(Runs(m)) {
      ShortListAccepted(m);
    } else {
      LongListRefused(m);
    }
  }

  lemma EmptyListRefused()
    ensures PrintList(0) == "" && ToInt(Str("")) == None
  {
    assert Runs(0) == [];
    assert Split("", ',') == [""];
    assert !IsListItem("");
  }

  lemma SmallMaskShort(m: nat, k: nat)
    requires m < Pow2(k) && k <= 1000
    ensures AllShort(Runs(m))
  {
    hide Item, RunsFrom, Sum, Pow2;
    var runs := Runs(m);
    RunsSum(m, 0, -1);
    ScaledZero(m);
    AscendingRuns(runs, 0);
    forall i | 0 <= i < |runs|
      ensures |Item(runs[i])| <= 7
    {
      RunBelowSum(runs, 0, i);
      if runs[i].hi >= k {
        Pow2Grows(k, runs[i].hi);
      }
      ThreeDigits(runs[i]);
    }
  }

  /** For nonzero masks below 2^1000 the classifier always takes the list back. */
  lemma ToIntOfSmallList(m: nat, k: nat)
    requires 0 < m < Pow2(k) && k <= 1000
    ensures ToInt(Str(PrintList(m))) == Some(m)
  {
    hide Pow2, PrintList, ToInt, Runs, AllShort;
    SmallMaskShort(m, k);
    ToIntOfList(m);
  }

  lemma DecimalLength(n: nat)
    requires n < 1000
    ensures |Decimal(n)| <= 3
  {
    assert |Decimal(n / 10 / 10)| == 1;
    assert |Decimal(n / 10)| <= 2;
  }

  lemma ThreeDigits(run: Run)
    requires run.lo <= run.hi < 1000
    ensures |Item(run)| <= 7
  {
    hide Decimal;
    DecimalLength(run.lo);
    DecimalLength(run.hi);
  }

  lemma {:induction false} RunBelowSum(runs: seq<Run>, from: nat, i: nat)
    requires Ascending(runs, from) && i < |runs|
    ensures Pow2(runs[i].hi) <= Sum(runs)
    decreases |runs|
  {
    hide Pow2;
    var run := runs[0];
    Pow2Next(run.hi);
    Pow2Grows(run.lo, run.hi);
    if i == 0 {
      if |runs| > 1 {
        RunBelowSum(runs[1..], run.hi + 2, 0);
      }
    } else {
      RunBelowSum(runs[1..], run.hi + 2, i - 1);
    }
  }

  // ----- Lists of bit numbers

  /** The set bits among the next `n`, counted from bit `i` on. */
  function BitsOf(rest: nat, i: nat, n: nat): seq<int>
    decreases n
  {
    if n == 0 then []
    else
      (if rest % 2 == 1 then [i] else []) +
      if rest / 2 == 0 then [] else BitsOf(rest / 2, i + 1, n - 1)
  }

  lemma BitsStep(rest: nat, i: nat, n: nat)
    requires n > 0
    ensures BitsOf(rest, i, n) ==
            (if rest % 2 == 1 then [i] else []) + if rest / 2 == 0 then [] else BitsOf(rest / 2, i + 1, n - 1)
  {
  }

  lemma NoBits(rest: nat, i: nat)
    ensures BitsOf(rest, i, 0) == []
  {
  }

  /** `limit` is the number of bits looked at, one million in the library. */
  method ToIntList(mask0: nat, limit: nat) returns (r: seq<int>)
    ensures r == BitsOf(mask0, 0, limit)
  {
    hide Pow2, TestBit, ClearBit, Scaled, BitsOf;
    var mask: nat := mask0;
    r := [];
    ghost var rest: nat := mask0;
    ScaledZero(mask0);
    for i := 0 to limit
      invariant mask == Scaled(rest, i)
      invariant BitsOf(mask0, 0, limit) == r + BitsOf(rest, i, limit - i)
    {
      BitsStep(rest, i, limit - i);
      BitOfRest(rest, i);
      BitOfRest(rest / 2, i + 1);
      ScaledStep(rest, i);
      if TestBit(mask, i) {
        r := r + [i];
        mask := ClearBit(mask, i);
      }
      if mask == 0 {
        return;
      }
      rest := rest / 2;
    }
    NoBits(rest, limit);
  }

  /** The low `n` bits of a number. */
  function Low(m: nat, n: nat): nat
    decreases n
  {
    if n == 0 then 0 else m % 2 + 2 * Low(m / 2, n - 1)
  }

  lemma {:induction false} LowIs(m: nat, n: nat)
    ensures Low(m, n) == m <==> m < Pow2(n)
    decreases n
  {
    if n == 0 {
    } else {
      LowIs(m / 2, n - 1);
    }
  }

  lemma {:induction false} LowOfZero(n: nat)
    ensures Low(0, n) == 0
    decreases n
  {
    if n == 0 {
    } else {
      LowOfZero(n - 1);
    }
  }

  lemma ScaledLow(rest: nat, n: nat, i: nat)
    requires n > 0
    ensures Scaled(Low(rest, n), i) == (if rest % 2 == 1 then Pow2(i) else 0) + Scaled(Low(rest / 2, n - 1), i + 1)
  {
    hide Scaled, Pow2;
    var low, half := Low(rest, n), Low(rest / 2, n - 1);
    assert low == rest % 2 + 2 * half;
    assert low / 2 == half && low % 2 == rest % 2;
    ScaledStep(low, i);
  }

  lemma {:induction false} AddBitsIs(acc: nat, rest: nat, i: nat, n: nat)
    requires acc < Pow2(i)
    ensures AddBits(acc, BitsOf(rest, i, n)) == Some(acc + Scaled(Low(rest, n), i))
    decreases n
  {
    hide Pow2, Scaled, Low, Or;
    if n == 0 {
      LowOfZero(0);
      ScaledStep(0, i);
      assert Low(rest, 0) == 0 by { NoLowBits(rest); }
    } else {
      var acc' := acc + if rest % 2 == 1 then Pow2(i) else 0;
      var more := if rest / 2 == 0 then [] else BitsOf(rest / 2, i + 1, n - 1);
      ScaledLow(rest, n, i);
      OrTopBit(acc, i);
      Pow2Next(i);
      assert BitsOf(rest, i, n) == if rest % 2 == 1 then [i] + more else more;
      assert ([i] + more)[1..] == more;
      assert AddBits(acc, BitsOf(rest, i, n)) == AddBits(acc', more);
      if rest / 2 == 0 {
        LowOfZero(n - 1);
        ScaledStep(0, i + 1);
      } else {
        AddBitsIs(acc', rest / 2, i + 1, n - 1);
      }
    }
  }

  lemma NoLowBits(m: nat)
    ensures Low(m, 0) == 0
  {
  }

  /** The list of set bits gives the mask back exactly when no bit is beyond the limit. */
  lemma BitsRoundTrip(m: nat, limit: nat)
    ensures ToInt(IntList(BitsOf(m, 0, limit))) == Some(m) <==> m < Pow2(limit)
  {
    hide Pow2, Scaled, Low, BitsOf, AddBits;
    assert Pow2(0) == 1 by { OneIsPow2(); }
    AddBitsIs(0, m, 0, limit);
    ScaledZero(Low(m, limit));
    LowIs(m, limit);
  }

  lemma OneIsPow2()
    ensures Pow2(0) == 1
  {
  }
}
