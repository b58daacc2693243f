/** What the mask parsers mean, bit by bit, on every string and list they take. */
module CpuMaskBits {
  import opened Common
  import opened Arith
  import opened CpuMask

  // ----- Bits of numbers

  lemma BitZero(m: nat)
    ensures TestBit(m, 0) <==> m % 2 == 1
  {
    assert Pow2(0) == 1;
  }

  lemma BitNext(m: nat, i: nat)
    ensures TestBit(m, i + 1) <==> TestBit(m / 2, i)
  {
    hide Pow2;
    var p, q := Pow2(i), m / 2 / Pow2(i);
    Pow2Next(i);
    var r := m / 2 % p;
    assert m / 2 == q * p + r;
    assert m == q * (2 * p) + (2 * r + m % 2);
    DivModUnique(m, q, 2 * r + m % 2, 2 * p);
  }

  lemma {:induction false} OrBit(x: nat, y: nat, i: nat)
    ensures TestBit(Or(x, y), i) <==> TestBit(x, i) || TestBit(y, i)
    decreases i
  {
    var r := Or(x, y);
    OrHalves(x, y);
    hide Or, TestBit;
    if i == 0 {
      BitZero(x);
      BitZero(y);
      BitZero(r);
    } else {
      BitNext(x, i - 1);
      BitNext(y, i - 1);
      BitNext(r, i - 1);
      OrBit(x / 2, y / 2, i - 1);
    }
  }

  lemma OrHalves(x: nat, y: nat)
    ensures Or(x, y) / 2 == Or(x / 2, y / 2) && (Or(x, y) % 2 == 1 <==> x % 2 == 1 || y % 2 == 1)
  {
    OrWithZero(x / 2);
    OrWithZero(y / 2);
  }

  lemma {:induction false} NoBitOfZero(i: nat)
    ensures !TestBit(0, i)
    decreases i
  {
  }

  lemma {:induction false} BitOfPow2(a: nat, i: nat)
    ensures TestBit(Pow2(a), i) <==> i == a
    decreases i
  {
    if a > 0 {
      Pow2Next(a - 1);
    }
    assert Pow2(0) == 1;
    hide Pow2, TestBit;
    if i == 0 {
      BitZero(Pow2(a));
    } else {
      BitNext(Pow2(a), i - 1);
      if a == 0 {
        NoBitOfZero(i - 1);
      } else {
        BitOfPow2(a - 1, i - 1);
      }
    }
  }

  lemma {:induction false} BitOfShifted(m: nat, k: nat, i: nat)
    ensures TestBit(m * Pow2(k), i) <==> i >= k && TestBit(m, i - k)
    decreases k
  {
    if k == 0 {
      assert m * Pow2(0) == m;
    } else {
      var half := m * Pow2(k - 1);
      assert m * Pow2(k) == 2 * half;
      hide Pow2, TestBit;
      if i == 0 {
        BitZero(2 * half);
      } else {
        BitNext(2 * half, i - 1);
        BitOfShifted(m, k - 1, i - 1);
      }
    }
  }

  // ----- Lists of bit numbers

  /** Bit i of a list of bits is set exactly when i was set before or is listed, however often. */
  lemma {:induction false} AddBitsBit(m: nat, bits: seq<int>, i: nat)
    ensures AddBits(m, bits).None? <==> exists k :: 0 <= k < |bits| && bits[k] < 0
    ensures AddBits(m, bits).Some? ==> (TestBit(AddBits(m, bits).value, i) <==> TestBit(m, i) || i in bits)
    decreases |bits|
  {
    hide Or, Pow2, TestBit;
    if bits == [] {
    } else {
      assert bits == [bits[0]] + bits[1..];
      if bits[0] >= 0 {
        var next := Or(m, Pow2(bits[0]));
        OrBit(m, Pow2(bits[0]), i);
        BitOfPow2(bits[0], i);
        AddBitsBit(next, bits[1..], i);
        assert forall k :: 1 <= k < |bits| ==> bits[k] == bits[1..][k - 1];
      }
    }
  }

  /** The bits of an int list, and ValueError exactly for a negative one. */
  lemma IntListBits(bits: seq<int>, i: nat)
    ensures ToInt(IntList(bits)).None? <==> exists k :: 0 <= k < |bits| && bits[k] < 0
    ensures ToInt(IntList(bits)).Some? ==> (TestBit(ToInt(IntList(bits)).value, i) <==> i in bits)
  {
    AddBitsBit(0, bits, i);
    NoBitOfZero(i);
  }

  /** The list made of a mask has exactly its set bits below the limit. */
  lemma {:induction false} BitsOfAre(rest: nat, from: nat, n: nat, i: nat)
    ensures from + i in BitsOf(rest, from, n) <==> i < n && TestBit(rest, i)
    decreases n
  {
    hide TestBit, BitsOf;
    if n == 0 {
      NoBits(rest, from);
    } else {
      BitsStep(rest, from, n);
      var more := if rest / 2 == 0 then [] else BitsOf(rest / 2, from + 1, n - 1);
      assert from + i in BitsOf(rest, from, n) <==> (rest % 2 == 1 && i == 0) || from + i in more;
      if i == 0 {
        BitZero(rest);
        BitsFrom(rest / 2, from + 1, n - 1);
      } else {
        BitNext(rest, i - 1);
        BitsOfAre(rest / 2, from + 1, n - 1, i - 1);
        NoBitOfZero(i - 1);
      }
    }
  }

  lemma {:induction false} BitsFrom(rest: nat, from: nat, n: nat)
    ensures forall k :: k in BitsOf(rest, from, n) ==> k >= from
    decreases n
  {
    hide BitsOf;
    if n == 0 {
      NoBits(rest, from);
    } else {
      BitsStep(rest, from, n);
      BitsFrom(rest / 2, from + 1, n - 1);
    }
  }

  // ----- Lists of ranges

  /** The bits an item stands for: "a-b" from a to b, none when b < a, "n" for bit n. */
  function Bounds(s: string): Option<(nat, nat)>
  {
    if '-' in s then
      var parts := Split(s, '-');
      if |parts| == 2 && PyInt(parts[0], 10).Some? && PyInt(parts[1], 10).Some?
      then Some((PyInt(parts[0], 10).value, PyInt(parts[1], 10).value))
      else None
    else
      var n := PyInt(s, 10);
      if n.Some? then Some((n.value, n.value)) else None
  }

  predicate Covers(s: string, i: nat) { Bounds(s).Some? && Bounds(s).value.0 <= i <= Bounds(s).value.1 }

  predicate AllBounded(items: seq<string>) { forall k :: 0 <= k < |items| ==> Bounds(items[k]).Some? }

  predicate Covered(items: seq<string>, i: nat) { exists k :: 0 <= k < |items| && Covers(items[k], i) }

  lemma {:induction false} AddRangeBit(m: nat, a: nat, b: int, i: nat)
    ensures TestBit(AddRange(m, a, b), i) <==> TestBit(m, i) || a <= i <= b
    decreases b + 1 - a
  {
    hide Or, Pow2, TestBit;
    if a <= b {
      OrBit(m, Pow2(a), i);
      BitOfPow2(a, i);
      AddRangeBit(Or(m, Pow2(a)), a + 1, b, i);
    }
  }

  lemma AddItemBit(m: nat, s: string, i: nat)
    ensures AddItem(m, s).Some? <==> Bounds(s).Some?
    ensures AddItem(m, s).Some? ==> (TestBit(AddItem(m, s).value, i) <==> TestBit(m, i) || Covers(s, i))
  {
    hide Or, Pow2, TestBit, PyInt, Split, AddRange;
    if Bounds(s).Some? {
      var (a, b) := Bounds(s).value;
      AddRangeBit(m, a, b, i);
      OrBit(m, Pow2(a), i);
      BitOfPow2(a, i);
    }
  }

  lemma {:induction false} AddItemsBit(m: nat, items: seq<string>, i: nat)
    ensures AddItems(m, items).Some? <==> AllBounded(items)
    ensures AddItems(m, items).Some? ==>
              (TestBit(AddItems(m, items).value, i) <==> TestBit(m, i) || Covered(items, i))
    decreases |items|
  {
    hide TestBit, AddItem, Bounds, Covers;
    if items == [] {
    } else {
      var r, rest := AddItem(m, items[0]), items[1..];
      AddItemBit(m, items[0], i);
      assert forall k :: 1 <= k < |items| ==> items[k] == rest[k - 1];
      if r.Some? {
        AddItemsBit(r.value, rest, i);
        if k :| 0 <= k < |rest| && Covers(rest[k], i) {
          assert Covers(items[k + 1], i);
        }
        forall k | 0 <= k < |rest| && Bounds(items[k + 1]).Some?
          ensures Bounds(rest[k]).Some?
        {
        }
      }
    }
  }

  /** A list parses exactly when each item is a number or a pair of numbers, and bit i of it is
      set exactly when some item covers i, whether or not items overlap. */
  lemma ParseListBits(s: string, i: nat)
    ensures ParseList(s).Some? <==> AllBounded(Split(s, ','))
    ensures ParseList(s).Some? ==> (TestBit(ParseList(s).value, i) <==> Covered(Split(s, ','), i))
  {
    hide AllBounded, Covered, TestBit;
    AddItemsBit(0, Split(s, ','), i);
    NoBitOfZero(i);
  }

  // ----- Hexadecimal groups

  /** Bit i of item k of n hexadecimal items, each shifted up by the words that follow it. */
  predicate Shows(items: seq<string>, k: nat, i: nat)
    requires k < |items|
  {
    var shift := 32 * (|items| - 1 - k);
    PyInt(items[k], 16).Some? && i >= shift && TestBit(PyInt(items[k], 16).value, i - shift)
  }

  predicate AllHex(items: seq<string>) { forall k :: 0 <= k < |items| ==> PyInt(items[k], 16).Some? }

  predicate Shown(items: seq<string>, i: nat) { exists k :: 0 <= k < |items| && Shows(items, k, i) }

  lemma {:induction false} AddGroupsBit(m: nat, items: seq<string>, i: nat)
    ensures AddGroups(m, items).Some? <==> AllHex(items)
    ensures AddGroups(m, items).Some? ==>
              (TestBit(AddGroups(m, items).value, i) <==>
               (i >= 32 * |items| && TestBit(m, i - 32 * |items|)) || Shown(items, i))
    decreases |items|
  {
    hide Or, TestBit, PyInt;
    if items == [] {
    } else {
      var v, rest := PyInt(items[0], 16), items[1..];
      assert forall k :: 1 <= k < |items| ==> items[k] == rest[k - 1];
      if v.Some? {
        var next := Or(m * U32, v.value);
        AddGroupsBit(next, rest, i);
        if i >= 32 * |rest| {
          ShiftedBit(m, v.value, i - 32 * |rest|);
        }
        forall k | 0 <= k < |rest|
          ensures Shows(rest, k, i) <==> Shows(items, k + 1, i)
        {
        }
        assert Shows(items, 0, i) <==> i >= 32 * |rest| && TestBit(v.value, i - 32 * |rest|);
        ShowsFirst(items, rest, i);
      } else {
        assert AddGroups(m, items) == None;
      }
    }
  }

  lemma ShiftedBit(m: nat, v: nat, i: nat)
    ensures TestBit(Or(m * U32, v), i) <==> (i >= 32 && TestBit(m, i - 32)) || TestBit(v, i)
  {
    hide Or, Pow2, TestBit;
    WordIsPow2();
    OrBit(m * U32, v, i);
    BitOfShifted(m, 32, i);
  }

  lemma ShowsFirst(items: seq<string>, rest: seq<string>, i: nat)
    requires items != [] && rest == items[1..]
    requires forall k :: 0 <= k < |rest| ==> (Shows(rest, k, i) <==> Shows(items, k + 1, i))
    ensures Shown(items, i) <==> Shows(items, 0, i) || Shown(rest, i)
  {
    hide Shows;
    if k :| 0 <= k < |items| && Shows(items, k, i) {
      assert k == 0 || Shows(rest, k - 1, i);
    }
    if k :| 0 <= k < |rest| && Shows(rest, k, i) {
      assert Shows(items, k + 1, i);
    }
  }

  /** Hexadecimal groups parse exactly when each is a number, and bit i of the whole is set exactly when
      some group shows it at its place, whether or not groups are longer than a word. */
  lemma ParseHexBits(s: string, i: nat)
    ensures ParseHex(s).Some? <==> AllHex(Split(s, ','))
    ensures ParseHex(s).Some? ==> (TestBit(ParseHex(s).value, i) <==> Shown(Split(s, ','), i))
  {
    hide AllHex, Shown, TestBit;
    var items := Split(s, ',');
    AddGroupsBit(0, items, i);
    if i >= 32 * |items| {
      NoBitOfZero(i - 32 * |items|);
    }
  }

  // ----- The 0x prefix

  lemma PrefixedParses(m: nat)
    ensures var s := "0x" + HexPlain(m);
            PyInt(s, 16) == Some(m) && Without(s, ',') && s[..2] == "0x"
  {
    hide HexPlain, Value;
    HexPlainDigits(m);
    var s := "0x" + HexPlain(m);
    assert s[..2] == "0x" && s[2..] == HexPlain(m);
  }

  /** The classifier takes a mask with the 0x prefix exactly when it has at most six digits. */
  lemma ToIntOf0x(m: nat)
    ensures ToInt(Str("0x" + HexPlain(m))) == Some(m) <==> m < 0x100_0000
  {
    hide Split, HexPlain, PyInt, Pow2, Or;
    var s := "0x" + HexPlain(m);
    PrefixedParses(m);
    SplitItem(s, [], ',');
    assert Pow2(24) == 0x100_0000 by { WordIsPow2(); Pow2OfDigits(7); Pow2OfDigits(6); }
    var items: seq<string> := [s];
    assert Split(s, ',') == items && items[1..] == [];
    if m < 0x100_0000 {
      HexPlainShort(m, 6);
      assert Or(0, m) == m by { OrWithZero(m); }
      assert AddGroups(m, []) == Some(m);
      assert AddGroups(0, items) == AddGroups(m, []);
      assert IsCommaSepHex(s);
    } else {
      HexPlainLong(m, 6);
      assert !IsGroup(items[0]) && !IsListItem(items[0]);
    }
  }
}
