/** What a reader of the virtual .gcda file finds in it: the header, and records of a tag, a
    length in words and that many words, of which each function has one for itself and one
    for each counter type in use. */
module GcdaReader {
  import opened Common
  import opened Arith
  import opened Gcda

  // ----- Bytes as words

  function Words(b: seq<Byte>): seq<nat>
    decreases |b|
  {
    if |b| < 4 then [] else [Decode32(b[..4])] + Words(b[4..])
  }

  lemma {:induction false} WordsJoin(a: seq<Byte>, b: seq<Byte>)
    requires |a| % 4 == 0
    ensures Words(a + b) == Words(a) + Words(b)
    decreases |a|
  {
    hide Decode32;
    if a == [] {
      assert a + b == b;
    } else {
      assert (a + b)[..4] == a[..4] && (a + b)[4..] == a[4..] + b;
      WordsJoin(a[4..], b);
    }
  }

  lemma WordReads(i: nat)
    ensures Words(Word(i)) == [i % U32]
  {
    var w := Word(i);
    WordDecodes(i % U32);
    WordWraps(i);
    hide Decode32, Word;
    assert w[..4] == w && w[4..] == [];
    assert Words([]) == [];
  }

  /** The bytes of a word are those of its remainder. */
  lemma WordWraps(i: nat)
    ensures Word(i) == Word(i % U32)
  {
    ByteWraps(i, 1, 0x100_0000);
    ByteWraps(i, 0x100, 0x1_0000);
    ByteWraps(i, 0x1_0000, 0x100);
    ByteWraps(i, 0x100_0000, 1);
  }

  lemma ByteWraps(i: nat, d: nat, m: nat)
    requires d > 0 && 256 * m * d == U32
    ensures i / d % 256 == i % U32 / d % 256
  {
    var q, r := i / U32, i % U32;
    assert i == q * (256 * m * d) + r;
    assert i == (q * m * 256 + r / d) * d + r % d;
    DivModUnique(i, q * m * 256 + r / d, r % d, d);
    ModShift(r / d, q * m, 256);
  }

  // ----- Words as records

  datatype Record = Record(tag: nat, payload: seq<nat>)

  /** The words are whole records. */
  predicate Whole(w: seq<nat>)
    decreases |w|
  {
    w == [] || (|w| >= 2 && w[1] <= |w| - 2 && Whole(w[2 + w[1]..]))
  }

  function Records(w: seq<nat>): seq<Record>
    requires Whole(w)
    decreases |w|
  {
    if w == [] then [] else [Record(w[0], w[2..2 + w[1]])] + Records(w[2 + w[1]..])
  }

  lemma WholeRest(w: seq<nat>)
    requires Whole(w) && w != []
    ensures |w| >= 2 && w[1] <= |w| - 2 && Whole(w[2 + w[1]..])
  {
  }

  lemma SplitAt(a: seq<nat>, b: seq<nat>, n: nat)
    requires 2 <= n <= |a|
    ensures var ab := a + b; ab[0] == a[0] && ab[1] == a[1] && ab[n..] == a[n..] + b && ab[2..n] == a[2..n]
  {
  }

  lemma RecordFirst(w: seq<nat>)
    requires |w| >= 2 && w[1] <= |w| - 2 && Whole(w[2 + w[1]..])
    ensures Whole(w) && Records(w) == [Record(w[0], w[2..2 + w[1]])] + Records(w[2 + w[1]..])
  {
  }

  lemma {:induction false} RecordsJoin(a: seq<nat>, b: seq<nat>)
    requires Whole(a) && Whole(b)
    ensures Whole(a + b) && Records(a + b) == Records(a) + Records(b)
    decreases |a|
  {
    hide Whole, Records;
    if a == [] {
      assert a + b == b;
      NoWords();
      assert [] + Records(b) == Records(b);
    } else {
      WholeRest(a);
      var ab, n := a + b, 2 + a[1];
      RecordsJoin(a[n..], b);
      SplitAt(a, b, n);
      RecordFirst(ab);
      RecordFirst(a);
      var first, more, last := [Record(a[0], a[2..n])], Records(a[n..]), Records(b);
      assert Records(ab) == first + (more + last);
      assert first + (more + last) == first + more + last;
    }
  }

  lemma OneRecord(w: seq<nat>, tag: nat, payload: seq<nat>)
    requires w == [tag, |payload|] + payload
    ensures Whole(w) && Records(w) == [Record(tag, payload)]
  {
    assert w[2..2 + w[1]] == payload && w[2 + w[1]..] == [];
    assert Records([]) == [];
  }

  // ----- What is expected

  /** The counter values of a type for one function, in order. */
  function Values(bb: Bb, f: nat, ty: nat, n: nat): (v: seq<nat>)
    requires WellFormed(bb) && f < |bb.functions| && ty < COUNTERS && bb.active[ty] && n <= bb.functions[f].ctrs[ty]
    ensures |v| == n
  {
    if n == 0 then [] else Values(bb, f, ty, n - 1) + [ValueOf(bb, f, ty, n - 1)]
  }

  /** Two words for each counter: its low 16 bits, and its high word. */
  function CounterWords(values: seq<nat>): (w: seq<nat>)
    ensures |w| == 2 * |values|
  {
    if values == [] then []
    else
      var v := values[|values| - 1];
      CounterWords(values[..|values| - 1]) + [v % 0x1_0000, v / U32 % U32]
  }

  function CounterRecords(bb: Bb, f: nat, n: nat): seq<Record>
    requires WellFormed(bb) && f < |bb.functions| && n <= COUNTERS
  {
    if n == 0 then []
    else
      CounterRecords(bb, f, n - 1) +
      if bb.active[n - 1]
      then [Record(0x01a1_0000 + 0x2_0000 * (n - 1), CounterWords(Values(bb, f, n - 1, bb.functions[f].ctrs[n - 1])))]
      else []
  }

  function FuncRecords(bb: Bb, n: nat): seq<Record>
    requires WellFormed(bb) && n <= |bb.functions|
  {
    if n == 0 then []
    else
      var fn := bb.functions[n - 1];
      FuncRecords(bb, n - 1) + [Record(0x0100_0000, [fn.ident % U32, fn.checksum % U32])] +
      CounterRecords(bb, n - 1, COUNTERS)
  }

  /** No record is too long for its length word. */
  ghost predicate Countable(bb: Bb)
  {
    forall fn, ty :: fn in bb.functions && 0 <= ty < |fn.ctrs| ==> fn.ctrs[ty] * 2 < U32
  }

  // ----- What is found

  lemma {:induction false} CountersRead(bb: Bb, f: nat, ty: nat, n: nat)
    requires WellFormed(bb) && f < |bb.functions| && ty < COUNTERS && bb.active[ty] && n <= bb.functions[f].ctrs[ty]
    ensures Words(Counters(bb, f, ty, n)) == CounterWords(Values(bb, f, ty, n))
    decreases n
  {
    assert ty < |bb.functions[f].ctrs|;
    hide Word, ValueOf, Counter, WellFormed, NumActive, CounterOffset;
    if n == 0 {
    } else {
      var v, values := ValueOf(bb, f, ty, n - 1), Values(bb, f, ty, n);
      CountersRead(bb, f, ty, n - 1);
      WordsJoin(Counters(bb, f, ty, n - 1), Counter(v));
      CounterReads(v);
      assert values[..n - 1] == Values(bb, f, ty, n - 1) && values[n - 1] == v;
    }
  }

  lemma CounterReads(v: nat)
    ensures Words(Counter(v)) == [v % 0x1_0000, v / U32 % U32]
  {
    hide Word, Words;
    WordsJoin(Word(v % 0x1_0000), Word(v / U32));
    WordReads(v % 0x1_0000);
    WordReads(v / U32);
  }

  lemma SectionReads(bb: Bb, f: nat, ty: nat)
    requires WellFormed(bb) && Countable(bb) && f < |bb.functions| && ty < COUNTERS && bb.active[ty]
    ensures var w := Words(CounterSection(bb, f, ty));
            var n := bb.functions[f].ctrs[ty];
            && |CounterSection(bb, f, ty)| % 4 == 0 && Whole(w)
            && Records(w) == [Record(0x01a1_0000 + 0x2_0000 * ty, CounterWords(Values(bb, f, ty, n)))]
  {
    hide Word, Words, Counters, Values, CounterWords, Whole, Records, CounterSection, WellFormed, Countable;
    SectionIs(bb, f, ty);
    var n, tag := bb.functions[f].ctrs[ty], TAG_COUNTER_BASE + ty * 0x2_0000;
    SectionLength(bb, f, ty);
    CountersRead(bb, f, ty, n);
    ReadRecord(tag, n * 2, Counters(bb, f, ty, n), CounterWords(Values(bb, f, ty, n)));
  }

  lemma SectionIs(bb: Bb, f: nat, ty: nat)
    requires WellFormed(bb) && Countable(bb) && f < |bb.functions| && ty < COUNTERS && bb.active[ty]
    ensures ty < |bb.functions[f].ctrs| && bb.functions[f].ctrs[ty] * 2 < U32
    ensures var n := bb.functions[f].ctrs[ty];
            CounterSection(bb, f, ty) == Word(TAG_COUNTER_BASE + ty * 0x2_0000) + Word(n * 2) + Counters(bb, f, ty, n)
  {
    hide Word, Counters;
    assert bb.functions[f] in bb.functions;
  }

  lemma ReadRecord(tag: nat, len: nat, data: seq<Byte>, payload: seq<nat>)
    requires tag < U32 && len == |payload| < U32 && Words(data) == payload
    ensures var w := Words(Word(tag) + Word(len) + data); Whole(w) && Records(w) == [Record(tag, payload)]
  {
    hide Word, Words, Whole, Records;
    WordsJoin(Word(tag) + Word(len), data);
    WordsJoin(Word(tag), Word(len));
    WordReads(tag);
    WordReads(len);
    OneRecord(Words(Word(tag) + Word(len) + data), tag, payload);
  }

  lemma {:induction false} SectionsRead(bb: Bb, f: nat, n: nat)
    requires WellFormed(bb) && Countable(bb) && f < |bb.functions| && n <= COUNTERS
    ensures var w := Words(CounterSections(bb, f, n));
            |CounterSections(bb, f, n)| % 4 == 0 && Whole(w) && Records(w) == CounterRecords(bb, f, n)
    decreases n
  {
    hide Words, Values, CounterWords, CounterSection, Countable, Whole, Records;
    if n == 0 {
      NoWords();
    } else {
      SectionsRead(bb, f, n - 1);
      if bb.active[n - 1] {
        SectionReads(bb, f, n - 1);
        WordsJoin(CounterSections(bb, f, n - 1), CounterSection(bb, f, n - 1));
        RecordsJoin(Words(CounterSections(bb, f, n - 1)), Words(CounterSection(bb, f, n - 1)));
      } else {
        assert CounterSection(bb, f, n - 1) == [] by { InactiveEmpty(bb, f, n - 1); }
        assert CounterSections(bb, f, n) == CounterSections(bb, f, n - 1);
      }
    }
  }

  lemma NoWords()
    ensures Words([]) == [] && Whole([]) && Records([]) == []
  {
  }

  lemma InactiveEmpty(bb: Bb, f: nat, ty: nat)
    requires WellFormed(bb) && f < |bb.functions| && ty < COUNTERS && !bb.active[ty]
    ensures CounterSection(bb, f, ty) == []
  {
  }

  lemma HeaderReads(bb: Bb, f: nat)
    requires f < |bb.functions|
    ensures var fn, w := bb.functions[f], Words(FuncHeader(bb, f));
            Whole(w) && Records(w) == [Record(0x0100_0000, [fn.ident % U32, fn.checksum % U32])]
  {
    hide Word, Words, Whole, Records;
    var fn := bb.functions[f];
    var a, b, c, d := Word(TAG_FUNCTION), Word(2), Word(fn.ident), Word(fn.checksum);
    WordsJoin(a + b + c, d);
    WordsJoin(a + b, c);
    WordsJoin(a, b);
    WordReads(TAG_FUNCTION);
    WordReads(2);
    WordReads(fn.ident);
    WordReads(fn.checksum);
    OneRecord(Words(FuncHeader(bb, f)), 0x0100_0000, [fn.ident % U32, fn.checksum % U32]);
  }

  lemma {:induction false} FunctionsRead(bb: Bb, n: nat)
    requires WellFormed(bb) && Countable(bb) && n <= |bb.functions|
    ensures var w := Words(FuncSections(bb, n));
            |FuncSections(bb, n)| % 4 == 0 && Whole(w) && Records(w) == FuncRecords(bb, n)
    decreases n
  {
    hide Words, FuncHeader, CounterSections, CounterRecords, Countable, Whole, Records, WellFormed;
    if n == 0 {
      NoWords();
    } else {
      FunctionsRead(bb, n - 1);
      HeaderReads(bb, n - 1);
      SectionsRead(bb, n - 1, COUNTERS);
      var head, data := FuncHeader(bb, n - 1), CounterSections(bb, n - 1, COUNTERS);
      WordsJoin(head, data);
      RecordsJoin(Words(head), Words(data));
      WordsJoin(FuncSections(bb, n - 1), head + data);
      RecordsJoin(Words(FuncSections(bb, n - 1)), Words(head + data));
    }
  }

  /** A reader of the file finds the magic number, version and stamp, and then for each function in
      order a record of its ident and checksum and one of its counters for each type in use. */
  lemma ImageReads(bb: Bb)
    requires WellFormed(bb) && Countable(bb)
    ensures |Words(Image(bb))| >= 3
    ensures var w := Words(Image(bb));
            && w[..3] == [0x67636461, bb.version % U32, bb.stamp % U32]
            && Whole(w[3..]) && Records(w[3..]) == FuncRecords(bb, |bb.functions|)
  {
    hide Word, Words, FuncSections, FuncRecords, Whole, Records;
    var a, b, c, rest := Word(DATA_MAGIC), Word(bb.version), Word(bb.stamp), FuncSections(bb, |bb.functions|);
    WordsJoin(a + b + c, rest);
    WordsJoin(a + b, c);
    WordsJoin(a, b);
    WordReads(DATA_MAGIC);
    WordReads(bb.version);
    WordReads(bb.stamp);
    FunctionsRead(bb, |bb.functions|);
    var w := Words(Image(bb));
    assert w == [DATA_MAGIC, bb.version % U32, bb.stamp % U32] + Words(rest);
    assert w[3..] == Words(rest);
  }

  // ----- Which values

  /** The values of a type, of the first `f` functions one after the other. */
  function AllValues(bb: Bb, ty: nat, f: nat): seq<nat>
    requires WellFormed(bb) && ty < COUNTERS && bb.active[ty] && f <= |bb.functions|
  {
    if f == 0 then [] else AllValues(bb, ty, f - 1) + Values(bb, f - 1, ty, bb.functions[f - 1].ctrs[ty])
  }

  lemma {:induction false} ValuesAre(bb: Bb, f: nat, ty: nat, n: nat)
    requires WellFormed(bb) && f < |bb.functions| && ty < COUNTERS && bb.active[ty] && n <= bb.functions[f].ctrs[ty]
    ensures var counts, off := bb.counts[NumActive(bb.active, ty)], CounterOffset(bb.functions, ty, f);
            off + n <= |counts| && Values(bb, f, ty, n) == counts[off..off + n]
    decreases n
  {
    CounterOffsetMono(bb.functions, ty, f + 1, |bb.functions|);
    if n == 0 {
    } else {
      ValuesAre(bb, f, ty, n - 1);
    }
  }

  /** The values of a type, over all functions in order, are the counters recorded for that type, from
      the first on without gap or overlap. */
  lemma {:induction false} ValuesInOrder(bb: Bb, ty: nat, f: nat)
    requires WellFormed(bb) && ty < COUNTERS && bb.active[ty] && f <= |bb.functions|
    ensures AllValues(bb, ty, f) <= bb.counts[NumActive(bb.active, ty)]
    ensures |AllValues(bb, ty, f)| == CounterOffset(bb.functions, ty, f)
    decreases f
  {
    hide Values;
    if f == 0 {
    } else {
      ValuesInOrder(bb, ty, f - 1);
      assert bb.functions[f - 1] in bb.functions;
      ValuesAre(bb, f - 1, ty, bb.functions[f - 1].ctrs[ty]);
    }
  }

  /** The counters of a type are those of the k-th list, k being the number of types in use before it. */
  lemma {:induction false} NumActiveIs(active: seq<bool>, n: nat)
    requires n <= |active|
    ensures NumActive(active, n) == |set i | 0 <= i < n && active[i]|
    decreases n
  {
    var now := set i | 0 <= i < n && active[i];
    if n == 0 {
      assert now == {};
    } else {
      var before := set i | 0 <= i < n - 1 && active[i];
      NumActiveIs(active, n - 1);
      assert now == if active[n - 1] then before + {n - 1} else before;
    }
  }
}
