/** The virtual .gcda file: coverage data laid out on the fly, for a read at any
    offset and of any length. */
module Gcda {
  import opened Common

  const COUNTERS := 5
  const DATA_MAGIC := 0x67636461
  const TAG_FUNCTION := 0x01000000
  const TAG_COUNTER_BASE := 0x01a10000

  type Byte = b: int | 0 <= b < 256

  /** Coverage data of one function; `ctrs` gives the number of counters by type. */
  datatype Fn = Fn(ident: nat, checksum: nat, ctrs: seq<nat>)

  /** A basic-block record: `active` is the counter mask, and `counts` holds the
      counter values of each active type, all functions one after the other. */
  datatype Bb = Bb(version: nat, stamp: nat, functions: seq<Fn>, active: seq<bool>, counts: seq<seq<nat>>)

  function NumActive(active: seq<bool>, n: nat): nat
    requires n <= |active|
  {
    if n == 0 then 0 else NumActive(active, n - 1) + if active[n - 1] then 1 else 0
  }

  /** Where the counters of a type start for function `f`. */
  function CounterOffset(functions: seq<Fn>, ty: nat, f: nat): nat
    requires f <= |functions| && forall fn :: fn in functions ==> ty < |fn.ctrs|
  {
    if f == 0 then 0 else CounterOffset(functions, ty, f - 1) + functions[f - 1].ctrs[ty]
  }

  ghost predicate WellFormed(bb: Bb)
  {
    && |bb.active| == COUNTERS
    && (forall fn :: fn in bb.functions ==> |fn.ctrs| == COUNTERS)
    && |bb.counts| == NumActive(bb.active, COUNTERS)
    && (forall ty :: 0 <= ty < COUNTERS && bb.active[ty] ==>
          NumActive(bb.active, ty) < |bb.counts| &&
          CounterOffset(bb.functions, ty, |bb.functions|) <= |bb.counts[NumActive(bb.active, ty)]|)
  }

  // ----- The file image

  /** A 32-bit word as it lies in memory, least significant byte first. */
  function Word(i: nat): (w: seq<Byte>)
    ensures |w| == 4
  {
    [i % 256, i / 0x100 % 256, i / 0x1_0000 % 256, i / 0x100_0000 % 256]
  }

  /** A counter value as store_int64 stores it. */
  function Counter(v: nat): (w: seq<Byte>)
    ensures |w| == 8
  {
    Word(v % 0x1_0000) + Word(v / U32)
  }

  function ValueOf(bb: Bb, f: nat, ty: nat, i: nat): nat
    requires WellFormed(bb) && f < |bb.functions| && ty < COUNTERS && bb.active[ty] && i < bb.functions[f].ctrs[ty]
  {
    CounterOffsetMono(bb.functions, ty, f + 1, |bb.functions|);
    bb.counts[NumActive(bb.active, ty)][CounterOffset(bb.functions, ty, f) + i]
  }

  lemma {:induction false} CounterOffsetMono(functions: seq<Fn>, ty: nat, f: nat, g: nat)
    requires f <= g <= |functions| && forall fn :: fn in functions ==> ty < |fn.ctrs|
    ensures CounterOffset(functions, ty, f) <= CounterOffset(functions, ty, g)
    decreases g - f
  {
    if f == g {
    } else {
      CounterOffsetMono(functions, ty, f, g - 1);
    }
  }

  function Counters(bb: Bb, f: nat, ty: nat, n: nat): (w: seq<Byte>)
    requires WellFormed(bb) && f < |bb.functions| && ty < COUNTERS && bb.active[ty] && n <= bb.functions[f].ctrs[ty]
    ensures |w| == n * 8
  {
    if n == 0 then [] else Counters(bb, f, ty, n - 1) + Counter(ValueOf(bb, f, ty, n - 1))
  }

  function CounterSection(bb: Bb, f: nat, ty: nat): seq<Byte>
    requires WellFormed(bb) && f < |bb.functions| && ty < COUNTERS
  {
    if bb.active[ty] then
      var n := bb.functions[f].ctrs[ty];
      Word(TAG_COUNTER_BASE + ty * 0x2_0000) + Word(n * 2) + Counters(bb, f, ty, n)
    else []
  }

  function CounterSections(bb: Bb, f: nat, n: nat): seq<Byte>
    requires WellFormed(bb) && f < |bb.functions| && n <= COUNTERS
  {
    if n == 0 then [] else CounterSections(bb, f, n - 1) + CounterSection(bb, f, n - 1)
  }

  function FuncHeader(bb: Bb, f: nat): (w: seq<Byte>)
    requires f < |bb.functions|
    ensures |w| == 16
  {
    Word(TAG_FUNCTION) + Word(2) + Word(bb.functions[f].ident) + Word(bb.functions[f].checksum)
  }

  function FuncSection(bb: Bb, f: nat): seq<Byte>
    requires WellFormed(bb) && f < |bb.functions|
  {
    FuncHeader(bb, f) + CounterSections(bb, f, COUNTERS)
  }

  function FuncSections(bb: Bb, n: nat): seq<Byte>
    requires WellFormed(bb) && n <= |bb.functions|
  {
    if n == 0 then [] else FuncSections(bb, n - 1) + FuncSection(bb, n - 1)
  }

  function FileHeader(bb: Bb): (w: seq<Byte>)
    ensures |w| == 12
  {
    Word(DATA_MAGIC) + Word(bb.version) + Word(bb.stamp)
  }

  /** The whole file. */
  function Image(bb: Bb): seq<Byte>
    requires WellFormed(bb)
  {
    FileHeader(bb) + FuncSections(bb, |bb.functions|)
  }

  // ----- Slices

  /** At most `n` bytes from `off` on. */
  function Slice(s: seq<Byte>, off: nat, n: nat): (r: seq<Byte>)
    ensures |r| <= n
  {
    if off >= |s| then [] else if n <= |s| - off then s[off..off + n] else s[off..]
  }

  /** The outcome of a copy to user memory of which `writable` bytes can be written. */
  datatype Outcome = Stored(bytes: seq<Byte>) | Fault

  function Deliver(bytes: seq<Byte>, writable: nat): Outcome
  {
    if |bytes| <= writable then Stored(bytes) else Fault
  }

  /** Reading on where a read stopped. */
  lemma SliceAppend(s: seq<Byte>, off: nat, a: nat, b: nat)
    requires |Slice(s, off, a)| == a
    ensures Slice(s, off, a) + Slice(s, off + a, b) == Slice(s, off, a + b)
  {
  }

  /** A slice that starts inside the part `piece` of an image and stays inside it. */
  lemma SliceInside(image: seq<Byte>, pre: seq<Byte>, piece: seq<Byte>, post: seq<Byte>, off: nat, n: nat)
    requires image == pre + piece + post && |pre| <= off && off + n <= |pre| + |piece|
    ensures Slice(image, off, n) == piece[off - |pre|..off - |pre| + n] && |Slice(image, off, n)| == n
  {
    assert image[|pre|..|pre| + |piece|] == piece;
  }

  // ----- Sizes

  method SizeofCounterData(bb: Bb, f: nat, ty: nat) returns (size: nat)
    requires WellFormed(bb) && f < |bb.functions| && ty < COUNTERS
    ensures size == |CounterSection(bb, f, ty)|
  {
    if bb.active[ty] {
      size := 4 + 4 + bb.functions[f].ctrs[ty] * 8;
    } else {
      size := 0;
    }
  }

  method SizeofFuncData(bb: Bb, f: nat) returns (size: nat)
    requires WellFormed(bb) && f < |bb.functions|
    ensures size == |FuncSection(bb, f)|
  {
    size := 4 + 4 + 4 + 4;
    var ty := 0;
    while ty < COUNTERS
      invariant ty <= COUNTERS && size == 16 + |CounterSections(bb, f, ty)|
    {
      var s := SizeofCounterData(bb, f, ty);
      size := size + s;
      ty := ty + 1;
    }
  }

  method SizeofDaFile(bb: Bb) returns (size: nat)
    requires WellFormed(bb)
    ensures size == |Image(bb)|
  {
    size := 4 + 4 + 4;
    var i := 0;
    while i < |bb.functions|
      invariant i <= |bb.functions| && size == 12 + |FuncSections(bb, i)|
    {
      var s := SizeofFuncData(bb, i);
      size := size + s;
      i := i + 1;
    }
  }

  // ----- Stores

  /** What a loop that has stored `out` from `off0` on knows, at position `off`. */
  ghost predicate StoredSoFar(image: seq<Byte>, off0: nat, off: nat, out: seq<Byte>)
  {
    off0 <= off && |out| == off - off0 && out == Slice(image, off0, off - off0)
  }

  lemma StoredNothing(image: seq<Byte>, off0: nat)
    ensures StoredSoFar(image, off0, off0, [])
  {
  }

  /** One more chunk, taken from inside one part of the image. */
  lemma StoreChunk(image: seq<Byte>, off0: nat, off: nat, out: seq<Byte>,
                   pre: seq<Byte>, piece: seq<Byte>, post: seq<Byte>, len: nat)
    requires StoredSoFar(image, off0, off, out)
    requires image == pre + piece + post && |pre| <= off && off + len <= |pre| + |piece|
    ensures StoredSoFar(image, off0, off + len, out + piece[off - |pre|..off - |pre| + len])
  {
    SliceInside(image, pre, piece, post, off, len);
    SliceAppend(image, off0, off - off0, len);
  }

  lemma StoredAll(image: seq<Byte>, off0: nat, off: nat, out: seq<Byte>, count: nat)
    requires StoredSoFar(image, off0, off, out) && off <= off0 + count && (off == off0 + count || off >= |image|)
    ensures out == Slice(image, off0, count)
  {
  }

  lemma TooMuch(image: seq<Byte>, off0: nat, off: nat, out: seq<Byte>, count: nat, writable: nat)
    requires StoredSoFar(image, off0, off, out) && off <= off0 + count && |out| > writable
    ensures Deliver(Slice(image, off0, count), writable) == Fault
  {
  }

  method StoreCounter(bb: Bb, f: nat, ty: nat, counter: nat) returns (data: seq<Byte>)
    requires WellFormed(bb) && f < |bb.functions| && ty < COUNTERS && bb.active[ty] &&
      counter < bb.functions[f].ctrs[ty]
    ensures data == Counter(ValueOf(bb, f, ty, counter))
  {
    var typeOff := 0;
    var i := 0;
    while i < ty
      invariant i <= ty && typeOff == NumActive(bb.active, i)
    {
      if bb.active[i] {
        typeOff := typeOff + 1;
      }
      i := i + 1;
    }
    var counterOff := counter;
    i := 0;
    while i < f
      invariant i <= f && counterOff == CounterOffset(bb.functions, ty, i) + counter
    {
      counterOff := counterOff + bb.functions[i].ctrs[ty];
      i := i + 1;
    }
    CounterOffsetMono(bb.functions, ty, f + 1, |bb.functions|);
    data := Counter(bb.counts[typeOff][counterOff]);
  }

  /** The counter with index `i` lies at its place in the section. */
  lemma {:induction false} CounterPlace(bb: Bb, f: nat, ty: nat, n: nat, i: nat) returns (post: seq<Byte>)
    requires WellFormed(bb) && f < |bb.functions| && ty < COUNTERS && bb.active[ty] && i < n <= bb.functions[f].ctrs[ty]
    ensures Counters(bb, f, ty, n) == Counters(bb, f, ty, i) + Counter(ValueOf(bb, f, ty, i)) + post
    decreases n
  {
    if i == n - 1 {
      post := [];
    } else {
      post := CounterPlace(bb, f, ty, n - 1, i);
      post := post + Counter(ValueOf(bb, f, ty, n - 1));
    }
  }

  /** The part of a counter section that holds `off`: what precedes it, the bytes
      that the loop stores for it, and what follows. */
  lemma CounterPart(bb: Bb, f: nat, ty: nat, off: nat) returns (pre: seq<Byte>, piece: seq<Byte>, post: seq<Byte>)
    requires WellFormed(bb) && f < |bb.functions| && ty < COUNTERS && bb.active[ty] && off < |CounterSection(bb, f, ty)|
    ensures CounterSection(bb, f, ty) == pre + piece + post
    ensures var n := bb.functions[f].ctrs[ty];
            if off < 4 then pre == [] && piece == Word(TAG_COUNTER_BASE + ty * 0x2_0000)
            else if off < 8 then |pre| == 4 && piece == Word(n * 2)
            else
              && (off - 8) / 8 < n && |pre| == 8 + (off - 8) / 8 * 8
              && piece == Counter(ValueOf(bb, f, ty, (off - 8) / 8))
  {
    hide Word, Counter, ValueOf;
    var n := bb.functions[f].ctrs[ty];
    var tag, length := Word(TAG_COUNTER_BASE + ty * 0x2_0000), Word(n * 2);
    if off < 4 {
      pre, piece, post := [], tag, length + Counters(bb, f, ty, n);
    } else if off < 8 {
      pre, piece, post := tag, length, Counters(bb, f, ty, n);
    } else {
      var i := (off - 8) / 8;
      post := CounterPlace(bb, f, ty, n, i);
      pre, piece := tag + length + Counters(bb, f, ty, i), Counter(ValueOf(bb, f, ty, i));
    }
  }

  lemma SectionLength(bb: Bb, f: nat, ty: nat)
    requires WellFormed(bb) && f < |bb.functions| && ty < COUNTERS && bb.active[ty]
    ensures |CounterSection(bb, f, ty)| == 8 + 8 * bb.functions[f].ctrs[ty]
  {
  }

  /** The tag, length or counter that holds `offset`, and how far into it that is. */
  method BytesAt(bb: Bb, f: nat, ty: nat, offset: nat)
    returns (data: seq<Byte>, skip: nat, ghost pre: seq<Byte>, ghost post: seq<Byte>)
    requires WellFormed(bb) && f < |bb.functions| && ty < COUNTERS && bb.active[ty]
    requires offset < |CounterSection(bb, f, ty)|
    ensures CounterSection(bb, f, ty) == pre + data + post && offset == |pre| + skip && skip < |data|
  {
    var n := bb.functions[f].ctrs[ty];
    SectionLength(bb, f, ty);
    hide Word, Counter, CounterSection, ValueOf, WellFormed;
    ghost var piece;
    pre, piece, post := CounterPart(bb, f, ty, offset);
    if offset < 4 {
      data, skip := Word(TAG_COUNTER_BASE + ty * 0x2_0000), offset;
    } else if offset < 8 {
      data, skip := Word(n * 2), offset - 4;
    } else {
      data := StoreCounter(bb, f, ty, (offset - 8) / 8);
      skip := (offset - 8) % 8;
    }
    assert data == piece;
  }

  /** The counter that `offset` falls on is not there. */
  predicate PastCounters(offset: nat, n: nat) { offset >= 8 && (offset - 8) / 8 >= n }

  lemma PastCountersIs(bb: Bb, f: nat, ty: nat, offset: nat)
    requires WellFormed(bb) && f < |bb.functions| && ty < COUNTERS && bb.active[ty]
    ensures PastCounters(offset, bb.functions[f].ctrs[ty]) <==> offset >= |CounterSection(bb, f, ty)|
  {
    SectionLength(bb, f, ty);
  }

  method StoreCounterData(bb: Bb, f: nat, ty: nat, count0: nat, offset0: nat, writable: nat) returns (r: Outcome)
    requires WellFormed(bb) && f < |bb.functions| && ty < COUNTERS && bb.active[ty]
    ensures r == Deliver(Slice(CounterSection(bb, f, ty), offset0, count0), writable)
  {
    var n := bb.functions[f].ctrs[ty];
    hide CounterSection, Slice, StoredSoFar, WellFormed, PastCounters;
    ghost var image := CounterSection(bb, f, ty);
    assert StoredSoFar(image, offset0, offset0, []) by { StoredNothing(image, offset0); }
    var count: nat, offset: nat := count0, offset0;
    var out: seq<Byte> := [];
    while count > 0
      invariant StoredSoFar(image, offset0, offset, out) && |out| == offset - offset0
      invariant offset + count == offset0 + count0 && |out| <= writable
    {
      PastCountersIs(bb, f, ty, offset);
      if PastCounters(offset, n) {
        break;
      }
      var data, skip, pre, post := BytesAt(bb, f, ty, offset);
      var len := |data| - skip;
      if len > count {
        len := count;
      }
      StoreFrom(image, offset0, offset, out, pre, data, post, skip, len);
      var from := data[skip..skip + len];
      if |out| + len > writable {
        TooMuch(image, offset0, offset + len, out + from, count0, writable);
        return Fault;
      }
      out := out + from;
      count := count - len;
      offset := offset + len;
    }
    StoredAll(image, offset0, offset, out, count0);
    r := Stored(out);
  }

  lemma StoreFrom(image: seq<Byte>, off0: nat, off: nat, out: seq<Byte>,
                  pre: seq<Byte>, piece: seq<Byte>, post: seq<Byte>, skip: nat, len: nat)
    requires StoredSoFar(image, off0, off, out) && image == pre + piece + post
    requires off == |pre| + skip && skip + len <= |piece|
    ensures StoredSoFar(image, off0, off + len, out + piece[skip..skip + len])
  {
    hide Slice, StoredSoFar;
    StoreChunk(image, off0, off, out, pre, piece, post, len);
  }

  lemma FuncHeaderPart(bb: Bb, f: nat, off: nat) returns (pre: seq<Byte>, piece: seq<Byte>, post: seq<Byte>)
    requires WellFormed(bb) && f < |bb.functions| && off < 16
    ensures FuncSection(bb, f) == pre + piece + post
    ensures |pre| == off / 4 * 4 && |piece| == 4
    ensures var fn := bb.functions[f];
            piece == if off < 4 then Word(TAG_FUNCTION)
                     else if off < 8 then Word(2)
                     else if off < 12 then Word(fn.ident)
                     else Word(fn.checksum)
  {
    hide Word, CounterSections;
    var fn, rest := bb.functions[f], CounterSections(bb, f, COUNTERS);
    var a, b, c, d := Word(TAG_FUNCTION), Word(2), Word(fn.ident), Word(fn.checksum);
    if off < 4 {
      pre, piece, post := [], a, b + c + d + rest;
    } else if off < 8 {
      pre, piece, post := a, b, c + d + rest;
    } else if off < 12 {
      pre, piece, post := a + b, c, d + rest;
    } else {
      pre, piece, post := a + b + c, d, rest;
    }
  }

  /** The section of a counter type lies at its place in the function's section. */
  lemma {:induction false} CounterSectionPlace(bb: Bb, f: nat, n: nat, ty: nat) returns (post: seq<Byte>)
    requires WellFormed(bb) && f < |bb.functions| && ty < n <= COUNTERS
    ensures CounterSections(bb, f, n) == CounterSections(bb, f, ty) + CounterSection(bb, f, ty) + post
    decreases n
  {
    hide CounterSection;
    if ty == n - 1 {
      post := [];
    } else {
      post := CounterSectionPlace(bb, f, n - 1, ty);
      post := post + CounterSection(bb, f, n - 1);
    }
  }

  /** A slice of one part, up to the end of that part, as a chunk of the whole. */
  lemma StorePart(image: seq<Byte>, off0: nat, off: nat, out: seq<Byte>,
                  pre: seq<Byte>, piece: seq<Byte>, post: seq<Byte>, count: nat)
    requires StoredSoFar(image, off0, off, out)
    requires image == pre + piece + post && |pre| <= off < |pre| + |piece| && count > 0
    ensures var chunk := Slice(piece, off - |pre|, count);
            0 < |chunk| <= count && StoredSoFar(image, off0, off + |chunk|, out + chunk)
  {
    var chunk := Slice(piece, off - |pre|, count);
    assert chunk == piece[off - |pre|..off - |pre| + |chunk|];
    StoreChunk(image, off0, off, out, pre, piece, post, |chunk|);
  }

  method StoreFuncData(bb: Bb, f: nat, count0: nat, offset0: nat, writable: nat) returns (r: Outcome)
    requires WellFormed(bb) && f < |bb.functions|
    ensures r == Deliver(Slice(FuncSection(bb, f), offset0, count0), writable)
  {
    hide Word, CounterSection, Slice, StoredSoFar;
    ghost var image := FuncSection(bb, f);
    assert StoredSoFar(image, offset0, offset0, []) by { StoredNothing(image, offset0); }
    var count: nat, offset: nat := count0, offset0;
    var out: seq<Byte> := [];
    while count > 0
      invariant StoredSoFar(image, offset0, offset, out) && |out| == offset - offset0
      invariant offset + count == offset0 + count0 && |out| <= writable
    {
      var chunk: seq<Byte>;
      if offset < 16 {
        var data;
        if offset < 4 {
          data := Word(TAG_FUNCTION);
        } else if offset < 8 {
          data := Word(2);
        } else if offset < 12 {
          data := Word(bb.functions[f].ident);
        } else {
          data := Word(bb.functions[f].checksum);
        }
        var len := 4 - offset % 4;
        if len > count {
          len := count;
        }
        chunk := data[offset % 4..offset % 4 + len];
        ghost var pre, piece, post := FuncHeaderPart(bb, f, offset);
        StoreChunk(image, offset0, offset, out, pre, piece, post, len);
        if |out| + len > writable {
          TooMuch(image, offset0, offset + len, out + chunk, count0, writable);
          return Fault;
        }
      } else {
        var ty, off := FindCounterType(bb, f, offset);
        if ty == COUNTERS {
          break;
        }
        ghost var post := CounterSectionPlace(bb, f, COUNTERS, ty);
        ghost var pre := FuncHeader(bb, f) + CounterSections(bb, f, ty);
        assert image == pre + CounterSection(bb, f, ty) + post;
        StorePart(image, offset0, offset, out, pre, CounterSection(bb, f, ty), post, count);
        assert bb.active[ty] by { ActiveIfNonempty(bb, f, ty); }
        var rc := StoreCounterData(bb, f, ty, count, offset - off, writable - |out|);
        if rc.Fault? {
          TooMuch(image, offset0, offset + |Slice(CounterSection(bb, f, ty), offset - off, count)|,
                  out + Slice(CounterSection(bb, f, ty), offset - off, count), count0, writable);
          return Fault;
        }
        chunk := rc.bytes;
      }
      out := out + chunk;
      count := count - |chunk|;
      offset := offset + |chunk|;
    }
    StoredAll(image, offset0, offset, out, count0);
    r := Stored(out);
  }

  lemma ActiveIfNonempty(bb: Bb, f: nat, ty: nat)
    requires WellFormed(bb) && f < |bb.functions| && ty < COUNTERS && |CounterSection(bb, f, ty)| > 0
    ensures bb.active[ty]
  {
  }

  /** The counter type whose section holds `offset`, with the section's start; or
      COUNTERS when the offset is at or past the end. */
  method FindCounterType(bb: Bb, f: nat, offset: nat) returns (ty: nat, off: nat)
    requires WellFormed(bb) && f < |bb.functions| && offset >= 16
    ensures ty <= COUNTERS && off == 16 + |CounterSections(bb, f, ty)| <= offset
    ensures ty < COUNTERS ==> offset < off + |CounterSection(bb, f, ty)|
    ensures ty == COUNTERS ==> offset >= |FuncSection(bb, f)|
  {
    hide CounterSection;
    off := 16;
    ty := 0;
    while ty < COUNTERS
      invariant ty <= COUNTERS && off == 16 + |CounterSections(bb, f, ty)| <= offset
    {
      var size := SizeofCounterData(bb, f, ty);
      if offset < off + size {
        return;
      }
      off := off + size;
      ty := ty + 1;
    }
  }

  lemma FileHeaderPart(bb: Bb, off: nat) returns (pre: seq<Byte>, piece: seq<Byte>, post: seq<Byte>)
    requires WellFormed(bb) && off < 12
    ensures Image(bb) == pre + piece + post
    ensures |pre| == off / 4 * 4 && |piece| == 4
    ensures piece == if off < 4 then Word(DATA_MAGIC) else if off < 8 then Word(bb.version) else Word(bb.stamp)
  {
    hide Word;
    var rest := FuncSections(bb, |bb.functions|);
    var a, b, c := Word(DATA_MAGIC), Word(bb.version), Word(bb.stamp);
    if off < 4 {
      pre, piece, post := [], a, b + c + rest;
    } else if off < 8 {
      pre, piece, post := a, b, c + rest;
    } else {
      pre, piece, post := a + b, c, rest;
    }
  }

  lemma {:induction false} FuncSectionPlace(bb: Bb, n: nat, f: nat) returns (post: seq<Byte>)
    requires WellFormed(bb) && f < n <= |bb.functions|
    ensures FuncSections(bb, n) == FuncSections(bb, f) + FuncSection(bb, f) + post
    decreases n
  {
    hide FuncSection;
    if f == n - 1 {
      post := [];
    } else {
      post := FuncSectionPlace(bb, n - 1, f);
      post := post + FuncSection(bb, n - 1);
    }
  }

  method FindFunction(bb: Bb, offset: nat) returns (i: nat, off: nat)
    requires WellFormed(bb) && offset >= 12
    ensures i <= |bb.functions| && off == 12 + |FuncSections(bb, i)| <= offset
    ensures i < |bb.functions| ==> offset < off + |FuncSection(bb, i)|
    ensures i == |bb.functions| ==> offset >= |Image(bb)|
  {
    hide FuncSection;
    off := 12;
    i := 0;
    while i < |bb.functions|
      invariant i <= |bb.functions| && off == 12 + |FuncSections(bb, i)| <= offset
    {
      var size := SizeofFuncData(bb, i);
      if offset < off + size {
        return;
      }
      off := off + size;
      i := i + 1;
    }
  }

  /** A read of the virtual file delivers exactly the bytes of the image from the
      offset on, at most `count0` of them; it faults exactly when user memory
      cannot take that many.  All loops terminate. */
  method StoreDaFile(bb: Bb, count0: nat, offset0: nat, writable: nat) returns (r: Outcome)
    requires WellFormed(bb)
    ensures r == Deliver(Slice(Image(bb), offset0, count0), writable)
  {
    hide Word, FuncSection, Slice, StoredSoFar;
    ghost var image := Image(bb);
    assert StoredSoFar(image, offset0, offset0, []) by { StoredNothing(image, offset0); }
    var count: nat, offset: nat := count0, offset0;
    var out: seq<Byte> := [];
    while count > 0
      invariant StoredSoFar(image, offset0, offset, out) && |out| == offset - offset0
      invariant offset + count == offset0 + count0 && |out| <= writable
    {
      var chunk: seq<Byte>;
      if offset < 12 {
        var data;
        if offset < 4 {
          data := Word(DATA_MAGIC);
        } else if offset < 8 {
          data := Word(bb.version);
        } else {
          data := Word(bb.stamp);
        }
        var len := 4 - offset % 4;
        if len > count {
          len := count;
        }
        chunk := data[offset % 4..offset % 4 + len];
        ghost var pre, piece, post := FileHeaderPart(bb, offset);
        StoreChunk(image, offset0, offset, out, pre, piece, post, len);
        if |out| + len > writable {
          TooMuch(image, offset0, offset + len, out + chunk, count0, writable);
          return Fault;
        }
      } else {
        var i, off := FindFunction(bb, offset);
        if i == |bb.functions| {
          break;
        }
        ghost var post := FuncSectionPlace(bb, |bb.functions|, i);
        ghost var pre := FileHeader(bb) + FuncSections(bb, i);
        assert image == pre + FuncSection(bb, i) + post;
        StorePart(image, offset0, offset, out, pre, FuncSection(bb, i), post, count);
        var rc := StoreFuncData(bb, i, count, offset - off, writable - |out|);
        if rc.Fault? {
          TooMuch(image, offset0, offset + |Slice(FuncSection(bb, i), offset - off, count)|,
                  out + Slice(FuncSection(bb, i), offset - off, count), count0, writable);
          return Fault;
        }
        chunk := rc.bytes;
      }
      out := out + chunk;
      count := count - |chunk|;
      offset := offset + |chunk|;
    }
    StoredAll(image, offset0, offset, out, count0);
    r := Stored(out);
  }

  // ----- Reads of the whole file

  /** The bytes of successive reads of the given lengths, each continuing where
      the one before stopped. */
  function ReadAll(image: seq<Byte>, offset: nat, counts: seq<nat>): seq<Byte>
    decreases |counts|
  {
    if counts == [] then []
    else
      var chunk := Slice(image, offset, counts[0]);
      chunk + ReadAll(image, offset + |chunk|, counts[1..])
  }

  function Total(counts: seq<nat>): nat { if counts == [] then 0 else counts[0] + Total(counts[1..]) }

  /** However a file is read in pieces, the pieces join to one slice; to the whole
      file as soon as the requested lengths add up to it. */
  lemma {:induction false} ReadsJoin(image: seq<Byte>, offset: nat, counts: seq<nat>)
    requires offset <= |image|
    ensures ReadAll(image, offset, counts) == Slice(image, offset, Total(counts))
    ensures offset == 0 && Total(counts) >= |image| ==> ReadAll(image, offset, counts) == image
    decreases |counts|
  {
    hide Slice;
    if counts == [] {
      SliceNone(image, offset);
    } else {
      var chunk := Slice(image, offset, counts[0]);
      SliceContinue(image, offset, counts[0], Total(counts[1..]));
      ReadsJoin(image, offset + |chunk|, counts[1..]);
    }
    SliceWhole(image, Total(counts));
  }

  lemma SliceNone(s: seq<Byte>, off: nat)
    ensures Slice(s, off, 0) == []
  {
  }

  lemma SliceWhole(s: seq<Byte>, n: nat)
    ensures n >= |s| ==> Slice(s, 0, n) == s
  {
  }

  lemma SliceContinue(s: seq<Byte>, off: nat, a: nat, b: nat)
    requires off <= |s|
    ensures off + |Slice(s, off, a)| <= |s|
    ensures Slice(s, off, a) + Slice(s, off + |Slice(s, off, a)|, b) == Slice(s, off, a + b)
  {
    if |Slice(s, off, a)| == a {
      SliceAppend(s, off, a, b);
    }
  }

  // ----- Counter values

  function Decode32(w: seq<Byte>): nat
    requires |w| == 4
  {
    (w[0] as int) + 0x100 * (w[1] as int) + 0x1_0000 * (w[2] as int) + 0x100_0000 * (w[3] as int)
  }

  /** What a reader of the file takes a stored counter for. */
  function Decode64(w: seq<Byte>): nat
    requires |w| == 8
  {
    Decode32(w[..4]) + U32 * Decode32(w[4..])
  }

  lemma WordDecodes(i: nat)
    requires i < U32
    ensures Decode32(Word(i)) == i
  {
    var b := i / 0x100;
    var c := b / 0x100;
    assert c == i / 0x1_0000 && c / 0x100 == i / 0x100_0000;
  }

  /** A stored counter reads back as its value exactly when bits 16 to 31 of the
      value are zero: the low word is masked with 16 bits. */
  lemma CounterReadsBack(v: nat)
    requires v < U32 * U32
    ensures Decode64(Counter(v)) == v <==> v / 0x1_0000 % 0x1_0000 == 0
  {
    hide Word, Decode32;
    WordDecodes(v % 0x1_0000);
    WordDecodes(v / U32);
    var w := Counter(v);
    assert w[..4] == Word(v % 0x1_0000) && w[4..] == Word(v / U32);
    var hi, lo := v / U32, v % U32;
    assert v / 0x1_0000 == hi * 0x1_0000 + lo / 0x1_0000;
    assert v / 0x1_0000 % 0x1_0000 == lo / 0x1_0000;
    assert v % 0x1_0000 == lo % 0x1_0000;
  }
}
