/** The bit-field macros of the hardware interface: extract, populate and set on
    the 32-bit and 64-bit words of a little-endian union.

    A word is its bits, least significant first; the union is its words in
    order, so that the bits of both views of it are one sequence. */
module BitField {
  import opened Arith

  type Bits = seq<bool>

  function Bit(x: Bits, i: int): bool { 0 <= i < |x| && x[i] }

  // ----- The C operators on words

  function Shl(x: Bits, k: nat): (r: Bits) ensures |r| == |x| { seq(|x|, i => Bit(x, i - k)) }
  function Shr(x: Bits, k: nat): (r: Bits) ensures |r| == |x| { seq(|x|, i => Bit(x, i + k)) }
  function Or(x: Bits, y: Bits): (r: Bits) ensures |r| == |x| { seq(|x|, i => Bit(x, i) || Bit(y, i)) }
  function And(x: Bits, y: Bits): (r: Bits) ensures |r| == |x| { seq(|x|, i => Bit(x, i) && Bit(y, i)) }
  function Not(x: Bits): (r: Bits) ensures |r| == |x| { seq(|x|, i => !Bit(x, i)) }
  function Zero(n: nat): (r: Bits) ensures |r| == n { seq(n, _ => false) }
  /** Conversion to an unsigned type of `n` bits. */
  function Cast(x: Bits, n: nat): (r: Bits) ensures |r| == n { seq(n, i => Bit(x, i)) }
  /** EFX_MASK32 and EFX_MASK64. */
  function Mask(n: nat, width: nat): (r: Bits) ensures |r| == n { seq(n, i => i < width) }

  /** The bits of the union, from its words. */
  function Flat(words: seq<Bits>): Bits
  {
    if words == [] then [] else words[0] + Flat(words[1..])
  }

  /** All words are `n` bits wide. */
  predicate Uniform(words: seq<Bits>, n: nat) { forall w :: w in words ==> |w| == n }

  /** A field of `width` bits from bit `low` on. */
  datatype Field = Field(low: nat, width: nat)
  {
    function High(): int { low + width - 1 }
    predicate Covers(b: int) { low <= b <= High() }
  }

  // ----- Extract

  /** EFX_EXTRACT_NATIVE on an element that holds bits [min, max]. */
  function ExtractNative(element: Bits, min: nat, max: int, f: Field): (r: Bits)
    ensures |r| == |element|
  {
    if f.low > max || f.High() < min then Zero(|element|)
    else if f.low > min then Shr(element, f.low - min)
    else Shl(element, min - f.low)
  }

  /** The disjunction over the words from bit `min` on. */
  function ExtractFrom(words: seq<Bits>, n: nat, min: nat, f: Field): (r: Bits)
    requires Uniform(words, n)
    ensures |r| == n
  {
    if words == [] then Zero(n)
    else Or(ExtractNative(words[0], min, min + n - 1, f), ExtractFrom(words[1..], n, min + n, f))
  }

  /** EFX_EXTRACT_OWORD64, _QWORD64, _OWORD32, _QWORD32 and _DWORD: `n` is the width of a word. */
  function Extract(words: seq<Bits>, n: nat, f: Field): (r: Bits)
    requires Uniform(words, n)
    ensures |r| == n
  {
    And(ExtractFrom(words, n, 0, f), Mask(n, f.width))
  }

  // ----- Insert

  /** EFX_INSERT_NATIVE64 and EFX_INSERT_NATIVE32, by the width `n` of the type. */
  function InsertSized(n: nat, min: nat, max: int, f: Field, value: Bits): (r: Bits)
    ensures |r| == n
  {
    if f.low > max || f.High() < min then Zero(n)
    else if f.low > min then Shl(Cast(value, n), f.low - min)
    else Shr(Cast(value, n), min - f.low)
  }

  /** EFX_INSERT_NATIVE, stored into an element of `n` bits. */
  function InsertNative(n: nat, min: nat, max: int, f: Field, value: Bits): (r: Bits)
    ensures |r| == n
  {
    Cast(if max - min >= 32 || f.High() - f.low >= 32 then InsertSized(64, min, max, f, value)
         else InsertSized(32, min, max, f, value), n)
  }

  /** EFX_INSERT_FIELDS_NATIVE. */
  function InsertFields(n: nat, min: nat, fields: seq<(Field, Bits)>): (r: Bits)
    ensures |r| == n
  {
    if fields == [] then Zero(n)
    else Or(InsertNative(n, min, min + n - 1, fields[0].0, fields[0].1), InsertFields(n, min, fields[1..]))
  }

  /** One word of EFX_SET_OWORD64 and its relatives. */
  function SetWord(word: Bits, n: nat, min: nat, f: Field, value: Bits): (r: Bits)
    requires |word| == n
    ensures |r| == n
  {
    Or(And(word, Not(InsertNative(n, min, min + n - 1, f, Mask(n, f.width)))),
       InsertNative(n, min, min + n - 1, f, value))
  }

  /** A value that fits its field, and a field that fits the macros. */
  ghost predicate Fits(f: Field, value: Bits) { f.width <= 64 && forall i :: Bit(value, i) ==> i < f.width }

  // ----- What extraction yields

  lemma ExtractNativeBit(element: Bits, n: nat, min: nat, f: Field, i: nat)
    requires |element| == n && i < f.width && i < n
    ensures ExtractNative(element, min, min + n - 1, f)[i] == Bit(element, f.low + i - min)
  {
  }

  lemma {:induction false} ExtractFromBit(words: seq<Bits>, n: nat, min: nat, f: Field, i: nat)
    requires Uniform(words, n) && i < f.width && i < n
    ensures ExtractFrom(words, n, min, f)[i] == Bit(Flat(words), f.low + i - min)
    decreases |words|
  {
    hide ExtractNative;
    if words == [] {
    } else {
      ExtractNativeBit(words[0], n, min, f, i);
      ExtractFromBit(words[1..], n, min + n, f, i);
    }
  }

  /** Extraction gives the bits of the field, then zeros, wherever the field lies:
      also across word boundaries. */
  lemma ExtractIs(words: seq<Bits>, n: nat, f: Field)
    requires Uniform(words, n) && f.width <= n
    ensures Extract(words, n, f) == seq(n, i => i < f.width && Bit(Flat(words), f.low + i))
  {
    hide ExtractFrom, Flat;
    var r := Extract(words, n, f);
    forall i | 0 <= i < n
      ensures r[i] == (i < f.width && Bit(Flat(words), f.low + i))
    {
      assert r[i] == (ExtractFrom(words, n, 0, f)[i] && i < f.width);
      if i < f.width {
        ExtractFromBit(words, n, 0, f, i);
      }
    }
  }

  /** The 32-bit and the 64-bit forms agree wherever both are defined. */
  lemma ExtractFormsAgree(words32: seq<Bits>, words64: seq<Bits>, f: Field)
    requires Uniform(words32, 32) && Uniform(words64, 64) && Flat(words32) == Flat(words64) && f.width <= 32
    ensures Cast(Extract(words32, 32, f), 64) == Extract(words64, 64, f)
  {
    ExtractIs(words32, 32, f);
    ExtractIs(words64, 64, f);
  }

  // ----- What insertion yields

  lemma InsertSizedBit(size: nat, min: nat, max: int, f: Field, value: Bits, j: nat)
    requires f.width <= size && j < size && min + j <= max
    requires Bit(value, min + j - f.low) ==> min + j - f.low < f.width
    ensures InsertSized(size, min, max, f, value)[j] == Bit(value, min + j - f.low)
  {
    var v, k := Cast(value, size), min + j - f.low;
    assert Bit(v, k) == Bit(value, k);
    if f.low > min {
      assert Shl(v, f.low - min)[j] == Bit(v, k);
    } else {
      assert Shr(v, min - f.low)[j] == Bit(v, k);
    }
  }

  lemma InsertNativeBit(n: nat, min: nat, f: Field, value: Bits, j: nat)
    requires (n == 32 || n == 64) && Fits(f, value) && j < n
    ensures InsertNative(n, min, min + n - 1, f, value)[j] == Bit(value, min + j - f.low)
  {
    hide InsertSized;
    assert Bit(value, min + j - f.low) ==> min + j - f.low < f.width;
    var size := if n == 64 || f.width > 32 then 64 else 32;
    InsertSizedBit(size, min, min + n - 1, f, value, j);
  }

  /** The words of EFX_POPULATE_OWORD64 and its relatives, from bit `min` on. */
  function Populated(count: nat, n: nat, min: nat, fields: seq<(Field, Bits)>): (r: seq<Bits>)
    ensures |r| == count && Uniform(r, n)
  {
    if count == 0 then [] else [InsertFields(n, min, fields)] + Populated(count - 1, n, min + n, fields)
  }

  method Populate(words: array<Bits>, n: nat, fields: seq<(Field, Bits)>)
    modifies words
    ensures words[..] == Populated(words.Length, n, 0, fields)
  {
    hide InsertFields;
    var e, min := 0, 0;
    ghost var target := Populated(words.Length, n, 0, fields);
    while e < words.Length
      invariant e <= words.Length && min >= 0
      invariant forall k :: 0 <= k < e ==> words[k] == target[k]
      invariant target[e..] == Populated(words.Length - e, n, min, fields)
    {
      words[e] := InsertFields(n, min, fields);
      assert target[e..][0] == words[e] && target[e..][1..] == target[e + 1..];
      e, min := e + 1, min + n;
    }
  }

  /** The words after EFX_SET_OWORD64 and its relatives. */
  function FieldSet(words: seq<Bits>, n: nat, min: nat, f: Field, value: Bits): (r: seq<Bits>)
    requires Uniform(words, n)
    ensures |r| == |words| && Uniform(r, n)
  {
    if words == [] then [] else [SetWord(words[0], n, min, f, value)] + FieldSet(words[1..], n, min + n, f, value)
  }

  lemma FieldSetFirst(words: seq<Bits>, n: nat, min: nat, f: Field, value: Bits)
    requires words != [] && Uniform(words, n)
    ensures FieldSet(words, n, min, f, value) ==
      [SetWord(words[0], n, min, f, value)] + FieldSet(words[1..], n, min + n, f, value)
  {
  }

  method SetField(words: array<Bits>, n: nat, f: Field, value: Bits)
    requires Uniform(words[..], n)
    modifies words
    ensures words[..] == FieldSet(old(words[..]), n, 0, f, value)
  {
    hide SetWord, FieldSet;
    var e, min := 0, 0;
    ghost var before, target := words[..], FieldSet(words[..], n, 0, f, value);
    while e < words.Length
      invariant e <= words.Length && min >= 0
      invariant forall k :: 0 <= k < e ==> words[k] == target[k]
      invariant forall k :: e <= k < words.Length ==> words[k] == before[k]
      invariant Uniform(before[e..], n) && target[e..] == FieldSet(before[e..], n, min, f, value)
    {
      assert before[e..][0] == words[e] && before[e..][1..] == before[e + 1..];
      FieldSetFirst(before[e..], n, min, f, value);
      words[e] := SetWord(words[e], n, min, f, value);
      assert target[e..][0] == words[e] && target[e..][1..] == target[e + 1..];
      e, min := e + 1, min + n;
    }
  }

  // ----- Populate, then extract

  /** Some field has a one for bit `b`. */
  predicate AnyField(fields: seq<(Field, Bits)>, b: int)
  {
    fields != [] && (Bit(fields[0].1, b - fields[0].0.low) || AnyField(fields[1..], b))
  }

  ghost predicate AllFit(fields: seq<(Field, Bits)>)
  {
    forall t :: 0 <= t < |fields| ==> Fits(fields[t].0, fields[t].1)
  }

  lemma {:induction false} InsertFieldsBit(n: nat, min: nat, fields: seq<(Field, Bits)>, j: nat)
    requires (n == 32 || n == 64) && AllFit(fields) && j < n
    ensures InsertFields(n, min, fields)[j] == AnyField(fields, min + j)
    decreases |fields|
  {
    if fields == [] {
    } else {
      InsertNativeBit(n, min, fields[0].0, fields[0].1, j);
      InsertFieldsBit(n, min, fields[1..], j);
    }
  }

  lemma {:induction false} PopulatedBit(count: nat, n: nat, min: nat, fields: seq<(Field, Bits)>, b: nat)
    requires (n == 32 || n == 64) && AllFit(fields) && b < |Flat(Populated(count, n, min, fields))|
    ensures Flat(Populated(count, n, min, fields))[b] == AnyField(fields, min + b)
    decreases count
  {
    hide AnyField, AllFit, InsertFields;
    if count == 0 {
    } else {
      var words := Populated(count, n, min, fields);
      assert words[1..] == Populated(count - 1, n, min + n, fields);
      if b < n {
        InsertFieldsBit(n, min, fields, b);
      } else {
        PopulatedBit(count - 1, n, min + n, fields, b - n);
      }
    }
  }

  /** No two fields have a bit in common. */
  predicate Disjoint(fields: seq<(Field, Bits)>)
  {
    forall t, u | 0 <= t < u < |fields| :: fields[t].0.High() < fields[u].0.low || fields[u].0.High() < fields[t].0.low
  }

  lemma {:induction false} AnyFieldOwn(fields: seq<(Field, Bits)>, t: nat, b: int)
    requires t < |fields| && AllFit(fields) && Disjoint(fields) && fields[t].0.Covers(b)
    ensures AnyField(fields, b) == Bit(fields[t].1, b - fields[t].0.low)
    decreases |fields|
  {
    var rest := fields[1..];
    assert Fits(fields[0].0, fields[0].1);
    if t > 0 {
      assert Disjoint(rest) && AllFit(rest);
      assert fields[0].0.High() < fields[t].0.low || fields[t].0.High() < fields[0].0.low;
      AnyFieldOwn(rest, t - 1, b);
    } else {
      assert Bit(fields[0].1, b - fields[0].0.low) || !AnyField(rest, b) by { NoneElse(fields, b); }
    }
  }

  lemma NoneElse(fields: seq<(Field, Bits)>, b: int)
    requires fields != [] && AllFit(fields) && Disjoint(fields) && fields[0].0.Covers(b)
    ensures !AnyField(fields[1..], b)
  {
    forall u | 0 <= u < |fields[1..]|
      ensures !Bit(fields[1..][u].1, b - fields[1..][u].0.low)
    {
      assert fields[1..][u] == fields[u + 1] && Fits(fields[u + 1].0, fields[u + 1].1);
      assert fields[0].0.High() < fields[u + 1].0.low || fields[u + 1].0.High() < fields[0].0.low;
    }
    NoField(fields[1..], b);
  }

  lemma {:induction false} NoField(fields: seq<(Field, Bits)>, b: int)
    requires forall u :: 0 <= u < |fields| ==> !Bit(fields[u].1, b - fields[u].0.low)
    ensures !AnyField(fields, b)
    decreases |fields|
  {
    if fields == [] {
    } else {
      NoField(fields[1..], b);
    }
  }

  /** A union populated with disjoint fields whose values fit yields each value
      back, in both forms and across word boundaries. */
  lemma PopulateThenExtract(count: nat, n: nat, fields: seq<(Field, Bits)>, t: nat)
    requires (n == 32 || n == 64) && AllFit(fields) && Disjoint(fields) && t < |fields| && fields[t].0.width <= n
    requires fields[t].0.High() < |Flat(Populated(count, n, 0, fields))|
    ensures Extract(Populated(count, n, 0, fields), n, fields[t].0) == Cast(fields[t].1, n)
  {
    hide Extract, AnyField, Populated;
    var words, f, value := Populated(count, n, 0, fields), fields[t].0, fields[t].1;
    ExtractIs(words, n, f);
    forall i | 0 <= i < n
      ensures Extract(words, n, f)[i] == Bit(value, i)
    {
      if i < f.width {
        PopulatedBit(count, n, 0, fields, f.low + i);
        AnyFieldOwn(fields, t, f.low + i);
      } else {
        assert Fits(f, value);
      }
    }
  }

  /** Both forms populate the same bits. */
  lemma PopulateFormsAgree(count: nat, fields: seq<(Field, Bits)>)
    requires AllFit(fields)
    ensures Flat(Populated(2 * count, 32, 0, fields)) == Flat(Populated(count, 64, 0, fields))
  {
    hide AnyField, AllFit, Populated;
    var a, b := Populated(2 * count, 32, 0, fields), Populated(count, 64, 0, fields);
    FlatLength(a, 32);
    FlatLength(b, 64);
    forall i | 0 <= i < |Flat(a)|
      ensures Flat(a)[i] == Flat(b)[i]
    {
      PopulatedBit(2 * count, 32, 0, fields, i);
      PopulatedBit(count, 64, 0, fields, i);
    }
  }

  lemma {:induction false} FlatLength(words: seq<Bits>, n: nat)
    requires Uniform(words, n)
    ensures |Flat(words)| == |words| * n
    decreases |words|
  {
    if words == [] {
    } else {
      FlatLength(words[1..], n);
      assert |words| * n == (|words| - 1) * n + n;
    }
  }

  // ----- Set

  lemma SetWordBit(word: Bits, n: nat, min: nat, f: Field, value: Bits, j: nat)
    requires (n == 32 || n == 64) && |word| == n && Fits(f, value) && f.width <= n && j < n
    ensures SetWord(word, n, min, f, value)[j] == if f.Covers(min + j) then Bit(value, min + j - f.low) else word[j]
  {
    hide InsertNative;
    var mask := Mask(n, f.width);
    assert Fits(f, mask);
    InsertNativeBit(n, min, f, mask, j);
    InsertNativeBit(n, min, f, value, j);
    assert Bit(value, min + j - f.low) ==> min + j - f.low < f.width;
  }

  /** Setting a field gives its bits the value and leaves every other bit alone. */
  lemma {:induction false} SetChangesOnlyField(words: seq<Bits>, n: nat, min: nat, f: Field, value: Bits, b: nat)
    requires (n == 32 || n == 64) && Uniform(words, n) && Fits(f, value) && f.width <= n && b < |Flat(words)|
    ensures |Flat(FieldSet(words, n, min, f, value))| == |Flat(words)|
    ensures Flat(FieldSet(words, n, min, f, value))[b] ==
            if f.Covers(min + b) then Bit(value, min + b - f.low) else Flat(words)[b]
    decreases |words|
  {
    hide SetWord, Fits;
    var words' := FieldSet(words, n, min, f, value);
    FlatLength(words, n);
    FlatLength(words', n);
    if words == [] {
    } else {
      assert words'[1..] == FieldSet(words[1..], n, min + n, f, value);
      if b < n {
        SetWordBit(words[0], n, min, f, value, b);
      } else {
        SetChangesOnlyField(words[1..], n, min + n, f, value, b - n);
      }
    }
  }

  /** A field that was set reads back as its value; a field without a bit in
      common reads as before. */
  lemma SetThenExtract(words: seq<Bits>, n: nat, f: Field, value: Bits, g: Field)
    requires (n == 32 || n == 64) && Uniform(words, n) && Fits(f, value) && f.width <= n && g.width <= n
    requires f.High() < |Flat(words)| && g.High() < |Flat(words)|
    ensures g == f ==> Extract(FieldSet(words, n, 0, f, value), n, g) == Cast(value, n)
    ensures f.High() < g.low || g.High() < f.low ==>
      Extract(FieldSet(words, n, 0, f, value), n, g) == Extract(words, n, g)
  {
    hide Extract, FieldSet, Flat;
    var words' := FieldSet(words, n, 0, f, value);
    ExtractIs(words, n, g);
    ExtractIs(words', n, g);
    forall i | 0 <= i < n
      ensures f.High() < g.low || g.High() < f.low ==> Extract(words', n, g)[i] == Extract(words, n, g)[i]
      ensures g == f ==> Extract(words', n, g)[i] == Bit(value, i)
    {
      if i < g.width {
        SetChangesOnlyField(words, n, 0, f, value, g.low + i);
      } else if g == f {
        assert Bit(value, i) ==> i < f.width;
      }
    }
  }

  /** Both forms of a set leave the same bits. */
  lemma SetFormsAgree(words32: seq<Bits>, words64: seq<Bits>, f: Field, value: Bits)
    requires Uniform(words32, 32) && Uniform(words64, 64) && Flat(words32) == Flat(words64)
    requires Fits(f, value) && f.width <= 32
    ensures Flat(FieldSet(words32, 32, 0, f, value)) == Flat(FieldSet(words64, 64, 0, f, value))
  {
    hide Flat, FieldSet;
    var a, b := FieldSet(words32, 32, 0, f, value), FieldSet(words64, 64, 0, f, value);
    FlatLength(a, 32);
    FlatLength(b, 64);
    FlatLength(words32, 32);
    FlatLength(words64, 64);
    forall i | 0 <= i < |Flat(words32)|
      ensures Flat(a)[i] == Flat(b)[i]
    {
      SetChangesOnlyField(words32, 32, 0, f, value, i);
      SetChangesOnlyField(words64, 64, 0, f, value, i);
    }
  }

  // ----- The macros stay within C's rules

  /** No shift in an extraction or insertion reaches the width of its operand. */
  lemma ShiftsDefined(n: nat, min: nat, f: Field)
    requires !(f.low > min + n - 1 || f.High() < min)
    ensures f.low > min ==> f.low - min < n
    ensures f.low <= min && f.width <= n ==> min - f.low < n
    ensures f.low <= min && f.width <= 64 && f.High() - f.low >= 32 ==> min - f.low < 64
  {
  }

  function Nat(x: Bits): nat
  {
    if x == [] then 0 else (if x[0] then 1 else 0) + 2 * Nat(x[1..])
  }

  /** The mask macros' value: one shifted left, minus one. */
  lemma {:induction false} MaskValue(n: nat, width: nat)
    requires width <= n
    ensures Nat(Mask(n, width)) == Pow2(width) - 1
    decreases n
  {
    if n == 0 {
    } else {
      assert Mask(n, width)[1..] == Mask(n - 1, if width == 0 then 0 else width - 1);
      MaskValue(n - 1, if width == 0 then 0 else width - 1);
    }
  }
}
