/** What each operation on the filter table means: refinement of the two-layer map,
    multicast displacement, the mark and sweep, clearing, and identifiers. */
module FilterTableTheorems {
  import opened Common
  import opened FilterTable
  import opened FilterTableProofs

  // ----- One operation refines one step on layers

  predicate Room(rows: seq<Row>, hash: nat, spec: Spec)
    requires |rows| == ROWS
  {
    First(Free, rows, hash, spec, false, 1) < SEARCH_LIMIT
  }

  function Code(rc: int): int { if rc >= 0 then 0 else rc }

  /** Insertion at a row that holds the match at a priority that gives way. */
  lemma InsertAtFound(env: Env, s: State, q: Request, room: bool, depth: nat)
    requires |s.rows| == ROWS && q.admission >= 0 && FromCaller(q.spec) && !q.spec.key.mcast
    requires var row := s.rows[Slot(env.hash(q.spec.key), depth)];
             && Holds(row, q.spec.key) && WellLayered(row.spec) && !Outranked(row, q.spec)
             && !(q.spec.pri == row.spec.pri && !q.replaceEqual)
    ensures var i := Slot(env.hash(q.spec.key), depth);
            var (s', rc) := InsertAt(env, s, q, depth, {});
            && Holds(s'.rows[i], q.spec.key)
            && s'.rows == s.rows[i := s'.rows[i]]
            && (LayersOf(s'.rows[i]), Code(rc)) == LayersInsert(LayersOf(s.rows[i]), q, room)
  {
    hide Slot;
  }

  /** The match is in row `i`: only that row changes, and as LayersInsert says. */
  lemma InsertOnFound(env: Env, s: State, q: Request, room: bool, i: nat)
    requires Valid(env, s) && FromCaller(q.spec) && !q.spec.key.mcast && i < ROWS && Holds(s.rows[i], q.spec.key)
    ensures var (s', rc) := Insert(env, s, q);
            && Holds(s'.rows[i], q.spec.key)
            && s'.rows == s.rows[i := s'.rows[i]]
            && (LayersOf(s'.rows[i]), Code(rc)) == LayersInsert(LayersOf(s.rows[i]), q, room)
  {
    hide Slot, InWindow, InsertAt, First, At;
    var hash := env.hash(q.spec.key);
    var p := ProbeFor(s.rows, hash, q.spec, q.replaceEqual);
    FoundByProbe(env, s, q.spec, q.replaceEqual, i);
    if q.admission >= 0 && p.Place? {
      InsertAtFound(env, s, q, room, p.depth);
    }
  }

  /** The match is not in the table: it goes to the free row at depth `e`, if there is one. */
  lemma InsertOnAbsent(env: Env, s: State, q: Request, e: nat)
    requires |s.rows| == ROWS && !q.spec.over && !q.spec.key.mcast
    requires e < SEARCH_LIMIT ==> s.rows[Slot(env.hash(q.spec.key), e)].Empty?
    requires ProbeFor(s.rows, env.hash(q.spec.key), q.spec, q.replaceEqual) ==
             if e < SEARCH_LIMIT then Place(e, {}) else Refused(EBUSY)
    ensures var i := Slot(env.hash(q.spec.key), e);
            var (s', rc) := Insert(env, s, q);
            var (l, c) := LayersInsert(Absent, q, e < SEARCH_LIMIT);
            && Code(rc) == c
            && s'.rows == s.rows[i := s'.rows[i]]
            && (l.Present? ==> Holds(s'.rows[i], q.spec.key) && LayersOf(s'.rows[i]) == l && s.rows[i].Empty?)
            && (l.Absent? ==> s'.rows[i] == s.rows[i] || (s.rows[i].Empty? && s'.rows[i].Empty?))
  {
    if q.admission >= 0 && e < SEARCH_LIMIT {
      InsertAtEmpty(env, s, q, e);
    }
  }

  lemma ProbeOnAbsent(rows: seq<Row>, hash: nat, spec: Spec, replaceEqual: bool)
    requires |rows| == ROWS && !spec.key.mcast && forall i :: 0 <= i < ROWS ==> !Holds(rows[i], spec.key)
    ensures var e := First(Free, rows, hash, spec, replaceEqual, 1);
            && Room(rows, hash, spec) == (e < SEARCH_LIMIT)
            && ProbeFor(rows, hash, spec, replaceEqual) == if e < SEARCH_LIMIT then Place(e, {}) else Refused(EBUSY)
  {
    FirstFreeSame(rows, hash, spec, replaceEqual, 1);
  }

  lemma InsertAtEmpty(env: Env, s: State, q: Request, depth: nat)
    requires |s.rows| == ROWS && s.rows[Slot(env.hash(q.spec.key), depth)].Empty?
    requires q.admission >= 0 && !q.spec.over && !q.spec.key.mcast
    ensures var i := Slot(env.hash(q.spec.key), depth);
            var (s', rc) := InsertAt(env, s, q, depth, {});
            var (l, c) := LayersInsert(Absent, q, true);
            && Code(rc) == c
            && s'.rows == s.rows[i := s'.rows[i]]
            && (l.Present? ==> Holds(s'.rows[i], q.spec.key) && LayersOf(s'.rows[i]) == l)
            && (l.Absent? ==> s'.rows[i].Empty?)
  {
  }

  /** One row written on behalf of the match `own`. */
  lemma LayersStep(rows: seq<Row>, i: nat, row: Row, own: Key, key: Key)
    requires i < |rows| && Unique(rows) && Unique(rows[i := row]) && !key.mcast && !own.mcast
    requires || row == rows[i] || (rows[i].Empty? && row.Empty?)
             || (Holds(row, own) && (rows[i].Filter? ==> rows[i].spec.key == own))
    ensures LayersAt(rows[i := row], key) ==
            if key == own && Holds(row, own) then LayersOf(row) else LayersAt(rows, key)
    ensures Holds(rows[i], own) ==> LayersAt(rows, own) == LayersOf(rows[i])
    ensures (forall j :: 0 <= j < |rows| ==> !Holds(rows[j], own)) ==> LayersAt(rows, own) == Absent
  {
    LayersUpdate(rows, i, row, key);
    if Holds(rows[i], own) {
      LayersFound(rows, own, i);
    }
  }

  /** An insertion acts on the layers of its own match as LayersInsert says, with
      that return code, and leaves the layers of every other unicast match alone. */
  lemma InsertRefines(env: Env, s: State, q: Request, key: Key)
    requires Valid(env, s) && FromCaller(q.spec) && Fresh(s, q.reply) && !key.mcast && !q.spec.key.mcast
    ensures var (s', rc) := Insert(env, s, q);
            var (l, c) := LayersInsert(LayersAt(s.rows, q.spec.key), q, Room(s.rows, env.hash(q.spec.key), q.spec));
            && Code(rc) == c
            && LayersAt(s'.rows, key) == if key == q.spec.key then l else LayersAt(s.rows, key)
  {
    var hash := env.hash(q.spec.key);
    var room := Room(s.rows, hash, q.spec);
    var s' := Insert(env, s, q).0;
    InsertValid(env, s, q);
    if i :| 0 <= i < ROWS && Holds(s.rows[i], q.spec.key) {
      InsertOnFound(env, s, q, room, i);
      LayersStep(s.rows, i, s'.rows[i], q.spec.key, key);
    } else {
      var e := First(Free, s.rows, hash, q.spec, q.replaceEqual, 1);
      var i := Slot(hash, e);
      ProbeOnAbsent(s.rows, hash, q.spec, q.replaceEqual);
      InsertOnAbsent(env, s, q, e);
      LayersStep(s.rows, i, s'.rows[i], q.spec.key, key);
    }
  }

  /** Which rows are free does not depend on replace_equal. */
  lemma {:induction false} FirstFreeSame(rows: seq<Row>, hash: nat, spec: Spec, replaceEqual: bool, d: nat)
    requires |rows| == ROWS && d <= SEARCH_LIMIT
    ensures First(Free, rows, hash, spec, replaceEqual, d) == First(Free, rows, hash, spec, false, d)
    decreases SEARCH_LIMIT - d
  {
    if d == SEARCH_LIMIT {
    } else {
      FirstFreeSame(rows, hash, spec, replaceEqual, d + 1);
    }
  }

  /** Removal looks at one row and writes at most that row. */
  lemma RemoveOnRow(env: Env, s: State, i: nat, mask: set<Priority>, reply: Reply, resetPending: bool)
    requires |s.rows| == ROWS && i < ROWS && (s.rows[i].Filter? ==> WellLayered(s.rows[i].spec))
    ensures var (s', rc) := RemoveAt(env, s, i, mask, reply, resetPending);
            var row' := s'.rows[i];
            && s'.rows == s.rows[i := row']
            && (s.rows[i].Empty? ==> row' == s.rows[i])
            && (s.rows[i].Filter? ==>
                && (row'.Filter? ==> row'.spec.key == s.rows[i].spec.key)
                && (if row'.Filter? then LayersOf(row') else Absent, rc) ==
                   LayersRemove(LayersOf(s.rows[i]), env.rssActive, mask, reply, resetPending))
  {
  }

  /** The automatic filter that a removal brings back, in the table and in the firmware: the
      match and stack of the removed filter, the default action. */
  lemma UncoveredIs(env: Env, s: State, i: nat, mask: set<Priority>, reply: Reply, resetPending: bool)
    requires Valid(env, s) && i < ROWS && s.rows[i].Filter? && s.rows[i].spec.over
    requires s.rows[i].spec.pri in mask && mask != {AUTO} && reply.Ok?
    ensures var (s', rc) := RemoveAt(env, s, i, mask, reply, resetPending);
            var spec, row' := s.rows[i].spec, s'.rows[i];
            && rc == 0 && row'.Filter? && row'.stale == s.rows[i].stale
            && row'.spec == Spec(spec.key, AUTO, false, Action(0, env.rssActive, 0, 0), spec.stack)
            && row'.handle in s'.fw
            && s'.fw[row'.handle] == FwFilter(spec.key, Action(0, env.rssActive, 0, 0), spec.stack)
  {
    hide InWindow;
    assert WellLayered(s.rows[i].spec);
  }

  /** A removal by index acts on the layers of the row's match as LayersRemove
      says, with that return code, and leaves all others alone. */
  lemma RemoveRefines(env: Env, s: State, i: nat, mask: set<Priority>, reply: Reply, resetPending: bool, key: Key)
    requires Valid(env, s) && i < ROWS && (mask == {AUTO} || Fresh(s, reply)) && !key.mcast
    ensures var (s', rc) := RemoveAt(env, s, i, mask, reply, resetPending);
            if Holds(s.rows[i], key)
            then (LayersAt(s'.rows, key), rc) ==
                 LayersRemove(LayersAt(s.rows, key), env.rssActive, mask, reply, resetPending)
            else LayersAt(s'.rows, key) == LayersAt(s.rows, key)
  {
    var s' := RemoveAt(env, s, i, mask, reply, resetPending).0;
    RemoveValid(env, s, i, mask, reply, resetPending);
    RemoveOnRow(env, s, i, mask, reply, resetPending);
    LayersUpdate(s.rows, i, s'.rows[i], key);
    if Holds(s.rows[i], key) {
      LayersFound(s.rows, key, i);
    }
  }

  // ----- Multicast displacement

  /** Clearing only empties displaced rows, and empties all of them when it succeeds. */
  lemma {:induction false} ClearDisplacedRows(s: State, hash: nat, displaced: set<nat>, unsub: nat -> Reply, d: nat)
    requires |s.rows| == ROWS && d <= SEARCH_LIMIT
    ensures var (s', rc) := ClearDisplaced(s, hash, displaced, unsub, d);
            && (forall j :: 0 <= j < ROWS ==> s'.rows[j] == s.rows[j] || s'.rows[j].Empty?)
            && (forall j :: 0 <= j < ROWS && s'.rows[j] != s.rows[j] ==>
                exists e :: e in displaced && Slot(hash, e) == j)
            && rc <= 0
            && (rc == 0 ==> forall e :: d <= e < SEARCH_LIMIT && e in displaced ==> s'.rows[Slot(hash, e)].Empty?)
    decreases SEARCH_LIMIT - d
  {
    hide Slot;
    if d == SEARCH_LIMIT {
    } else {
      var i := Slot(hash, d);
      if d !in displaced || s.rows[i].Empty? {
        ClearDisplacedRows(s, hash, displaced, unsub, d + 1);
      } else if unsub(d).Ok? {
        var s1 := FwUnsubscribe(s, s.rows[i].handle, unsub(d)).(rows := s.rows[i := Empty(false)]);
        ClearDisplacedRows(s1, hash, displaced, unsub, d + 1);
      }
    }
  }

  lemma {:induction false} ClearDisplacedSucceeds(s: State, hash: nat, displaced: set<nat>, unsub: nat -> Reply, d: nat)
    requires |s.rows| == ROWS && d <= SEARCH_LIMIT && forall e :: unsub(e).Ok?
    ensures ClearDisplaced(s, hash, displaced, unsub, d).1 == 0
    decreases SEARCH_LIMIT - d
  {
    hide Slot;
    if d == SEARCH_LIMIT {
    } else {
      var i := Slot(hash, d);
      if d !in displaced || s.rows[i].Empty? {
        ClearDisplacedSucceeds(s, hash, displaced, unsub, d + 1);
      } else {
        ClearDisplacedSucceeds(FwUnsubscribe(s, s.rows[i].handle, unsub(d)).(rows := s.rows[i := Empty(false)]),
                               hash, displaced, unsub, d + 1);
      }
    }
  }

  lemma IdRoundTrip(pri: nat, idx: nat)
    requires idx < ROWS
    ensures UnsafeId(MakeId(pri, idx)) == idx && UnsafePri(MakeId(pri, idx)) == pri
  {
    ModUnique(MakeId(pri, idx), pri * 2, idx);
  }

  /** A successful insertion for a multicast recipient, row by row. */
  lemma McInsertedAt(env: Env, s: State, q: Request, depth: nat, displaced: set<nat>)
    requires |s.rows| == ROWS && IsMcRecipient(q.spec)
    requires var row := s.rows[Slot(env.hash(q.spec.key), depth)];
             q.spec.pri != AUTO || row.Empty? || row.spec.pri < AUTO
    requires 1 <= depth < SEARCH_LIMIT && forall d :: d in displaced ==> depth < d < SEARCH_LIMIT
    requires var row := s.rows[Slot(env.hash(q.spec.key), depth)]; row.Filter? ==> row.spec.key == q.spec.key
    requires InsertAt(env, s, q, depth, displaced).1 >= 0
    ensures var i := Slot(env.hash(q.spec.key), depth);
            var (s', rc) := InsertAt(env, s, q, depth, displaced);
            && UnsafeId(rc) == i
            && Holds(s'.rows[i], q.spec.key) && s'.rows[i].spec.pri == q.spec.pri && s'.rows[i].spec.act == q.spec.act
            && (forall j :: 0 <= j < ROWS && j != i ==> s'.rows[j] == s.rows[j] || s'.rows[j].Empty?)
            && (forall j :: 0 <= j < ROWS && j != i && s'.rows[j] != s.rows[j] ==>
                exists d :: d in displaced && Slot(env.hash(q.spec.key), d) == j)
            && (forall d :: d in displaced ==> s'.rows[Slot(env.hash(q.spec.key), d)].Empty?)
  {
    hide Slot, UnsafeId, UnsafePri, MakeId;
    var hash := env.hash(q.spec.key);
    var i := Slot(hash, depth);
    var done := FwPush(s, s.rows[i], q.spec, q.reply).(rows := s.rows[i := Finalised(s.rows[i], q.spec, q.reply)]);
    forall e | e in displaced
      ensures Slot(hash, e) != i
    {
      DepthOfSlot(hash, e);
      DepthOfSlot(hash, depth);
    }
    ClearDisplacedRows(done, hash, displaced, q.unsub, 0);
    var pri := env.matchPri(q.spec.key);
    IdRoundTrip(if pri < 0 then 0 else pri, i);
  }

  /** A successful replace-equal insertion of a multicast recipient above AUTO
      leaves exactly one row with that match: the new filter. */
  lemma McReplaceLeavesOne(env: Env, s: State, q: Request)
    requires Valid(env, s) && IsMcRecipient(q.spec) && q.replaceEqual && q.spec.pri > AUTO
    requires Insert(env, s, q).1 >= 0
    ensures var rows' := Insert(env, s, q).0.rows;
            var i := UnsafeId(Insert(env, s, q).1);
            && Holds(rows'[i], q.spec.key) && rows'[i].spec.pri == q.spec.pri && rows'[i].spec.act == q.spec.act
            && forall j :: 0 <= j < ROWS && Holds(rows'[j], q.spec.key) ==> j == i
  {
    hide Slot, InWindow, First, At, UnsafeId;
    var hash := env.hash(q.spec.key);
    var p := ProbeFor(s.rows, hash, q.spec, q.replaceEqual);
    var rows' := Insert(env, s, q).0.rows;
    var i := Slot(hash, p.depth);
    PlaceTaken(s.rows, hash, q.spec, q.replaceEqual);
    McInsertedAt(env, s, q, p.depth, p.displaced);
    forall j | 0 <= j < ROWS && j != i && Holds(s.rows[j], q.spec.key)
      ensures rows'[j].Empty?
    {
      McDisplacesAll(env, s, q.spec, q.replaceEqual, j);
    }
  }

  /** A row of the match gives way to a multicast recipient. */
  predicate GivesWay(row: Row, q: Request)
  {
    Holds(row, q.spec.key) && (row.spec.pri < q.spec.pri || (row.spec.pri == q.spec.pri && q.replaceEqual))
  }

  /** A successful insertion of a multicast recipient that is not automatic, row by row: the new
      filter is at the place returned, which was free or gave way; all others of the match
      that give way are gone; and every other row is as before. */
  lemma McInsertRows(env: Env, s: State, q: Request, j: nat)
    requires Valid(env, s) && IsMcRecipient(q.spec) && q.spec.pri != AUTO && j < ROWS
    requires Insert(env, s, q).1 >= 0
    ensures var (s', rc) := Insert(env, s, q);
            if j == UnsafeId(rc) then
              && (s.rows[j].Empty? || GivesWay(s.rows[j], q))
              && Holds(s'.rows[j], q.spec.key) && s'.rows[j].spec.pri == q.spec.pri && s'.rows[j].spec.act == q.spec.act
            else if GivesWay(s.rows[j], q) then s'.rows[j].Empty?
            else s'.rows[j] == s.rows[j]
  {
    hide Slot, InWindow, First, UnsafeId, InsertAt;
    var hash := env.hash(q.spec.key);
    var p := ProbeFor(s.rows, hash, q.spec, q.replaceEqual);
    PlaceTaken(s.rows, hash, q.spec, q.replaceEqual);
    assert At(Candidate, s.rows, hash, q.spec, q.replaceEqual, p.depth);
    McInsertedAt(env, s, q, p.depth, p.displaced);
    if j != Slot(hash, p.depth) && GivesWay(s.rows[j], q) {
      var d := (j - hash) % ROWS;
      MetByProbe(env, s, q.spec.key, j);
      assert At(Candidate, s.rows, hash, q.spec, q.replaceEqual, d);
      assert d in p.displaced;
    }
  }

  /** A multicast recipient that is not automatic is refused with -EPERM exactly when the table has a filter
      of the match above it, and otherwise with -EBUSY exactly when no row of the
      window is free or gives way. */
  lemma McRefusedIff(env: Env, s: State, q: Request)
    requires Valid(env, s) && IsMcRecipient(q.spec) && q.spec.pri != AUTO
    ensures var hash := env.hash(q.spec.key);
            var p := ProbeFor(s.rows, hash, q.spec, q.replaceEqual);
            var above := exists j :: 0 <= j < ROWS && Holds(s.rows[j], q.spec.key) && q.spec.pri < s.rows[j].spec.pri;
            && (p == Refused(EPERM) <==> above)
            && (p == Refused(EBUSY) <==>
                && !above
                && forall d :: 1 <= d < SEARCH_LIMIT ==>
                     var row := s.rows[Slot(hash, d)]; row.Filter? && !GivesWay(row, q))
  {
    hide Slot, InWindow, First;
    var hash := env.hash(q.spec.key);
    forall j | 0 <= j < ROWS && Holds(s.rows[j], q.spec.key) && q.spec.pri < s.rows[j].spec.pri
      ensures First(Outranking, s.rows, hash, q.spec, q.replaceEqual, 1) < SEARCH_LIMIT
    {
      MetByProbe(env, s, q.spec.key, j);
      assert At(Outranking, s.rows, hash, q.spec, q.replaceEqual, (j - hash) % ROWS);
    }
    forall d | 1 <= d < SEARCH_LIMIT
      ensures At(Candidate, s.rows, hash, q.spec, q.replaceEqual, d) <==>
              s.rows[Slot(hash, d)].Empty? || GivesWay(s.rows[Slot(hash, d)], q)
    {
    }
  }

  /** A filter that drops multicast packets is no recipient: it takes the first row of its match, or a free one
      without any, and leaves every other row alone. */
  lemma DropFilterRows(env: Env, s: State, q: Request, j: nat)
    requires Valid(env, s) && q.spec.key.mcast && q.spec.act.dmaq == 0xfff && j < ROWS
    requires Insert(env, s, q).1 >= 0 && j != UnsafeId(Insert(env, s, q).1)
    ensures Insert(env, s, q).0.rows[j] == s.rows[j]
    ensures s.rows[UnsafeId(Insert(env, s, q).1)].Empty? ==> !Holds(s.rows[j], q.spec.key)
  {
    hide Slot, InWindow, First, UnsafeId, InsertAt;
    var hash := env.hash(q.spec.key);
    var p := ProbeFor(s.rows, hash, q.spec, q.replaceEqual);
    PlaceTaken(s.rows, hash, q.spec, q.replaceEqual);
    InsertAtId(env, s, q, p.depth, p.displaced);
    assert InsertAt(env, s, q, p.depth, {}).0.rows[j] == s.rows[j] by { DropInsertAt(env, s, q, p.depth, j); }
    if Holds(s.rows[j], q.spec.key) {
      MetByProbe(env, s, q.spec.key, j);
      assert At(Match, s.rows, hash, q.spec, q.replaceEqual, (j - hash) % ROWS);
    }
  }

  lemma DropInsertAt(env: Env, s: State, q: Request, depth: nat, j: nat)
    requires |s.rows| == ROWS && !IsMcRecipient(q.spec) && j < ROWS && j != Slot(env.hash(q.spec.key), depth)
    ensures InsertAt(env, s, q, depth, {}).0.rows[j] == s.rows[j]
  {
    hide Slot, MakeId;
  }

  /** With replace_equal, or for an automatic filter, every other row of the match is displaced. */
  lemma McDisplacesAll(env: Env, s: State, spec: Spec, replaceEqual: bool, j: nat)
    requires Valid(env, s) && IsMcRecipient(spec) && (replaceEqual || spec.pri == AUTO)
    requires ProbeFor(s.rows, env.hash(spec.key), spec, replaceEqual).Place?
    requires j < ROWS && Holds(s.rows[j], spec.key)
    ensures var hash := env.hash(spec.key);
            var p := ProbeFor(s.rows, hash, spec, replaceEqual);
            j == Slot(hash, p.depth) || exists d :: d in p.displaced && Slot(hash, d) == j
  {
    hide InWindow, First;
    var hash := env.hash(spec.key);
    var p := ProbeFor(s.rows, hash, spec, replaceEqual);
    var d := (j - hash) % ROWS;
    MetByProbe(env, s, spec.key, j);
    assert !At(Outranking, s.rows, hash, spec, replaceEqual, d);
    assert At(Candidate, s.rows, hash, spec, replaceEqual, d);
    if d != p.depth {
      assert d in p.displaced;
    }
  }

  predicate Explicit(row: Row, key: Key) { Holds(row, key) && row.spec.pri > AUTO }

  predicate KeptExplicit(rows: seq<Row>, rows': seq<Row>, key: Key, j: nat)
    requires j < |rows| == |rows'|
  {
    Explicit(rows[j], key) ==> Explicit(rows'[j], key) && rows'[j].spec.pri == rows[j].spec.pri
  }

  /** An automatic insertion for a multicast recipient can displace filters of
      higher priority.  When every command succeeds it spares them exactly when
      there are none, or when the first suitable row of the probe already holds
      an automatic or higher filter of that match. */
  lemma AutoMulticastSparesExplicit(env: Env, s: State, q: Request)
    requires Valid(env, s) && IsMcRecipient(q.spec) && q.spec.pri == AUTO
    requires q.admission >= 0 && q.alloc && q.reply.Ok? && (forall d :: q.unsub(d).Ok?)
    requires ProbeFor(s.rows, env.hash(q.spec.key), q.spec, q.replaceEqual).Place?
    ensures var hash := env.hash(q.spec.key);
            var place := s.rows[Slot(hash, ProbeFor(s.rows, hash, q.spec, q.replaceEqual).depth)];
            var rows' := Insert(env, s, q).0.rows;
            (forall j :: 0 <= j < ROWS ==> KeptExplicit(s.rows, rows', q.spec.key, j))
            <==>
            || (place.Filter? && place.spec.pri >= AUTO)
            || forall j :: 0 <= j < ROWS ==> !Explicit(s.rows[j], q.spec.key)
  {
    hide Slot, InWindow, First, At;
    var hash := env.hash(q.spec.key);
    var p := ProbeFor(s.rows, hash, q.spec, q.replaceEqual);
    var i := Slot(hash, p.depth);
    PlaceTaken(s.rows, hash, q.spec, q.replaceEqual);
    AutoMulticastAt(env, s, q, p.depth, p.displaced);
    if !(s.rows[i].Filter? && s.rows[i].spec.pri >= AUTO) {
      forall j | 0 <= j < ROWS && Explicit(s.rows[j], q.spec.key)
        ensures !KeptExplicit(s.rows, Insert(env, s, q).0.rows, q.spec.key, j)
      {
        McDisplacesAll(env, s, q.spec, q.replaceEqual, j);
      }
    }
  }

  lemma AutoMulticastAt(env: Env, s: State, q: Request, depth: nat, displaced: set<nat>)
    requires |s.rows| == ROWS && IsMcRecipient(q.spec) && q.spec.pri == AUTO
    requires q.alloc && q.reply.Ok? && (forall d :: q.unsub(d).Ok?)
    requires 1 <= depth < SEARCH_LIMIT && forall d :: d in displaced ==> depth < d < SEARCH_LIMIT
    requires var row := s.rows[Slot(env.hash(q.spec.key), depth)]; row.Filter? ==> row.spec.key == q.spec.key
    ensures var row := s.rows[Slot(env.hash(q.spec.key), depth)];
            var rows' := InsertAt(env, s, q, depth, displaced).0.rows;
            if row.Filter? && row.spec.pri >= AUTO
            then forall j :: 0 <= j < ROWS ==> KeptExplicit(s.rows, rows', q.spec.key, j)
            else forall d :: d in displaced ==> rows'[Slot(env.hash(q.spec.key), d)].Empty?
  {
    var hash := env.hash(q.spec.key);
    var i := Slot(hash, depth);
    if !(s.rows[i].Filter? && s.rows[i].spec.pri >= AUTO) {
      var done := FwPush(s, s.rows[i], q.spec, q.reply).(rows := s.rows[i := Finalised(s.rows[i], q.spec, q.reply)]);
      ClearDisplacedRows(done, hash, displaced, q.unsub, 0);
      ClearDisplacedSucceeds(done, hash, displaced, q.unsub, 0);
    }
  }

  // ----- Mark and sweep

  /** A row after a sweep has passed over it. */
  function SweptRow(row: Row, reply: Reply, resetPending: bool): Row
  {
    if row.Empty? || !row.stale then row
    else if row.spec.over then row.(spec := row.spec.(over := false), stale := false)
    else if row.spec.pri == AUTO && (!reply.Fail? || resetPending) then Empty(false)
    else row
  }

  lemma SweepOneRow(env: Env, s: State, i: nat, reply: Reply, resetPending: bool)
    requires |s.rows| == ROWS && i < ROWS && (s.rows[i].Filter? ==> WellLayered(s.rows[i].spec))
    ensures SweepRow(env, s, i, reply, resetPending).rows == s.rows[i := SweptRow(s.rows[i], reply, resetPending)]
  {
  }

  lemma {:induction false} SweepRows(env: Env, s: State, n: nat, replies: nat -> Reply, resetPending: bool)
    requires Valid(env, s) && n <= ROWS
    ensures var s' := Sweep(env, s, n, replies, resetPending);
            && Valid(env, s')
            && forall j :: 0 <= j < ROWS ==>
                 s'.rows[j] == if j < n then SweptRow(s.rows[j], replies(j), resetPending) else s.rows[j]
  {
    hide RemoveAt, SweptRow, InWindow;
    if n == 0 {
    } else {
      SweepRows(env, s, n - 1, replies, resetPending);
      var s1 := Sweep(env, s, n - 1, replies, resetPending);
      RemoveValid(env, s1, n - 1, {AUTO}, replies(n - 1), resetPending);
      SweepOneRow(env, s1, n - 1, replies(n - 1), resetPending);
    }
  }

  /** The sweep removes only automatic filters that were marked and not renewed;
      every other filter stays, with its handle, priority and action; and an
      automatic filter is still marked afterwards only if the firmware refused. */
  lemma SweepSpares(env: Env, s: State, replies: nat -> Reply, resetPending: bool, j: nat)
    requires Valid(env, s) && j < ROWS
    ensures var s' := Sweep(env, s, ROWS, replies, resetPending);
            var row, row' := s.rows[j], s'.rows[j];
            && Valid(env, s')
            && (row'.Empty? && row.Filter? ==> row.spec.pri == AUTO && row.stale)
            && (row.Filter? && !(row.spec.pri == AUTO && row.stale) ==>
                && row'.Filter? && row'.handle == row.handle
                && row'.spec == row.spec.(over := row.spec.over && !row.stale))
            && (row'.Filter? && row'.stale && row'.spec.pri == AUTO ==> replies(j).Fail? && !resetPending)
            && (row'.Filter? && row'.stale ==> !row'.spec.over)
  {
    SweepRows(env, s, ROWS, replies, resetPending);
  }

  /** A successful automatic insertion keeps its filter through the next sweep,
      unless it took the place of a marked hint: the mark then stays on the row. */
  lemma RenewedSurvivesSweep(env: Env, s: State, q: Request, replies: nat -> Reply)
    requires Valid(env, s) && FromCaller(q.spec) && Fresh(s, q.reply) && !q.spec.key.mcast && q.spec.pri == AUTO
    requires Insert(env, s, q).1 >= 0 && forall j :: replies(j).Ok?
    ensures var before := LayersAt(s.rows, q.spec.key);
            var after := LayersAt(Sweep(env, Insert(env, s, q).0, ROWS, replies, false).rows, q.spec.key);
            (after.Present? && after.auto) <==> !(before.Present? && before.stale && EffectivePri(before) == HINT)
  {
    var s1 := Insert(env, s, q).0;
    InsertValid(env, s, q);
    InsertRefines(env, s, q, q.spec.key);
    SweptLayers(env, s1, q.spec.key, replies);
    AutoInsertMark(LayersAt(s.rows, q.spec.key), q, Room(s.rows, env.hash(q.spec.key), q.spec));
  }

  lemma AutoInsertMark(before: Layers, q: Request, room: bool)
    requires q.spec.pri == AUTO && LayersInsert(before, q, room).1 >= 0
    ensures var l := LayersInsert(before, q, room).0;
            l.Present? && l.auto && (l.stale <==> before.Present? && before.stale && EffectivePri(before) == HINT)
    ensures var l := LayersInsert(before, q, room).0;
            l.stale ==> l.top.None?
  {
  }

  /** The sweep on layers: a marked automatic side is dropped, nothing else. */
  lemma SweptLayers(env: Env, s: State, key: Key, replies: nat -> Reply)
    requires Valid(env, s) && !key.mcast && forall j :: replies(j).Ok?
    ensures var l := LayersAt(s.rows, key);
            LayersAt(Sweep(env, s, ROWS, replies, false).rows, key) ==
            if l.Absent? || !l.stale then l
            else if l.top.None? then Absent
            else l.(auto := false, stale := !l.auto)
  {
    hide Slot, InWindow, Sweep, SweepRow, Placed, Agree;
    SweepRows(env, s, ROWS, replies, false);
    var s' := Sweep(env, s, ROWS, replies, false);
    if i :| 0 <= i < ROWS && Holds(s.rows[i], key) {
      LayersFound(s.rows, key, i);
      if s'.rows[i].Filter? {
        LayersFound(s'.rows, key, i);
      }
    }
  }

  // ----- Clearing by priority

  predicate Cleared(env: Env, row: Row, row': Row, mask: set<Priority>)
  {
    row' == row ||
    (row.Filter? && row.spec.pri in mask &&
     if row.spec.over then
       && row'.Filter? && row'.stale == row.stale
       && row'.spec == row.spec.(pri := AUTO, over := false, act := DefaultAction(env.rssActive))
     else row' == Empty(false))
  }

  /** Replies that hand out handles: unused so far, and never the same one twice. */
  ghost predicate FreshFrom(s: State, replies: nat -> Reply, i: nat)
  {
    && (forall j :: i <= j ==> Fresh(s, replies(j)))
    && (forall j, k :: i <= j < k && replies(j).Ok? && replies(k).Ok? ==> replies(j).newHandle != replies(k).newHandle)
  }

  /** clear_rx removes filters of the selected priorities only, uncovering the
      automatic filter under them; when it succeeds one of them is left exactly
      where the firmware answered that it does not know the handle of a filter
      over an automatic one: that answer is taken for an absent filter. */
  lemma {:induction false} ClearRemovesMask(env: Env, s: State, i: nat, mask: set<Priority>, replies: nat -> Reply,
          resetPending: bool)
    requires Valid(env, s) && i <= ROWS && AUTO !in mask && FreshFrom(s, replies, i)
    ensures var (s', rc) := ClearFrom(env, s, i, mask, replies, resetPending);
            && Valid(env, s')
            && (forall j :: 0 <= j < ROWS ==> Cleared(env, s.rows[j], s'.rows[j], mask))
            && (forall j :: 0 <= j < i ==> s'.rows[j] == s.rows[j])
            && (rc == 0 ==> forall j :: i <= j < ROWS ==> Gone(s.rows[j], s'.rows[j], mask, replies(j)))
    decreases ROWS - i
  {
    hide RemoveAt, Gone, InWindow;
    if i == ROWS {
    } else {
      var (s1, rc) := RemoveAt(env, s, i, mask, replies(i), resetPending);
      RemoveValid(env, s, i, mask, replies(i), resetPending);
      ClearedOne(env, s, i, mask, replies, resetPending);
      if rc == 0 || rc == -ENOENT {
        ClearRemovesMask(env, s1, i + 1, mask, replies, resetPending);
      }
    }
  }

  /** A filter of the mask is left in the row exactly when it lay over an automatic one
      and the firmware denied its handle; it is then the one that was there. */
  predicate Gone(row: Row, row': Row, mask: set<Priority>, reply: Reply)
  {
    && (row'.Filter? && row'.spec.pri in mask <==> row.Filter? && row.spec.pri in mask && row.spec.over && reply.NoEnt?)
    && (row'.Filter? && row'.spec.pri in mask ==> row' == row)
  }

  lemma ClearedOne(env: Env, s: State, i: nat, mask: set<Priority>, replies: nat -> Reply, resetPending: bool)
    requires Valid(env, s) && i < ROWS && AUTO !in mask && FreshFrom(s, replies, i)
    ensures var (s1, rc) := RemoveAt(env, s, i, mask, replies(i), resetPending);
            && s1.rows == s.rows[i := s1.rows[i]]
            && Cleared(env, s.rows[i], s1.rows[i], mask)
            && FreshFrom(s1, replies, i + 1)
            && (rc == 0 || rc == -ENOENT ==> Gone(s.rows[i], s1.rows[i], mask, replies(i)))
  {
    hide Placed, Unique, InWindow;
    var s1 := RemoveAt(env, s, i, mask, replies(i), resetPending).0;
    assert forall h :: !s1.lost && h in s1.fw ==> h in s.fw || (replies(i).Ok? && h == replies(i).newHandle);
  }

  /** Clearing at a priority, with every command succeeding: no filter up to that priority is
      left except automatic ones, and automatic and higher ones are as before. */
  lemma ClearRxClears(env: Env, s: State, pri: Priority, replies: nat -> Reply, j: nat)
    requires Valid(env, s) && FreshFrom(s, replies, 0) && (forall i :: replies(i).Ok?) && j < ROWS
    ensures var (s', rc) := ClearFrom(env, s, 0, ClearMask(pri), replies, false);
            var row, row' := s.rows[j], s'.rows[j];
            && rc == 0
            && (row'.Filter? ==> row'.spec.pri == AUTO || row'.spec.pri > pri)
            && (row.Filter? && (row.spec.pri == AUTO || row.spec.pri > pri) ==> row' == row)
  {
    hide ClearFrom, FreshFrom, Placed, Unique, Layered, Agree;
    assert replies(j).Ok?;
    ClearSucceeds(env, s, 0, ClearMask(pri), replies);
    ClearRemovesMask(env, s, 0, ClearMask(pri), replies, false);
  }

  /** Clearing succeeds when the firmware knows or denies every handle. */
  lemma {:induction false} ClearSucceeds(env: Env, s: State, i: nat, mask: set<Priority>, replies: nat -> Reply)
    requires |s.rows| == ROWS && i <= ROWS && forall j :: replies(j).Ok? || replies(j).NoEnt?
    ensures ClearFrom(env, s, i, mask, replies, false).1 == 0
    decreases ROWS - i
  {
    if i == ROWS {
    } else {
      assert replies(i).Ok? || replies(i).NoEnt?;
      var (s1, rc) := RemoveAt(env, s, i, mask, replies(i), false);
      assert rc == 0 || rc == -ENOENT;
      hide RemoveAt;
      ClearSucceeds(env, s1, i + 1, mask, replies);
    }
  }

  // ----- Round trip

  /** An explicit filter laid over a match that had none, then removed by the identifier
      returned for it, leaves the match as it was, but for the action of an automatic
      filter, which is now the default one. */
  lemma InsertThenRemove(env: Env, s: State, q: Request, reply: Reply)
    requires Valid(env, s) && FromCaller(q.spec) && Fresh(s, q.reply) && !q.spec.key.mcast && q.spec.pri > AUTO
    requires env.matchPri(q.spec.key) >= 0
    requires var l := LayersAt(s.rows, q.spec.key); l.Present? ==> l.top.None?
    requires Insert(env, s, q).1 >= 0 && reply.Ok? && Fresh(Insert(env, s, q).0, reply)
    ensures var (s1, id) := Insert(env, s, q);
            var (s2, rc) := RemoveById(env, s1, id, q.spec.pri, reply, false);
            var l := LayersAt(s.rows, q.spec.key);
            && rc == 0 && Valid(env, s2)
            && LayersAt(s2.rows, q.spec.key) == if l.Absent? then l else l.(act := DefaultAction(env.rssActive))
  {
    hide Insert, Room, RemoveById, Slot, InWindow, UnsafeId, UnsafePri;
    var (s1, id) := Insert(env, s, q);
    InsertValid(env, s, q);
    InsertRefines(env, s, q, q.spec.key);
    InsertIdNamesRow(env, s, q);
    RemoveUncovers(env, s1, id, q.spec.pri, reply, q.spec.key);
  }

  /** Removing an explicit unicast filter by its identifier uncovers the automatic side. */
  lemma RemoveUncovers(env: Env, s: State, id: nat, pri: Priority, reply: Reply, key: Key)
    requires Valid(env, s) && !key.mcast && Holds(s.rows[UnsafeId(id)], key) && UnsafePri(id) == env.matchPri(key)
    requires pri > AUTO && reply.Ok? && Fresh(s, reply)
    requires var l := LayersAt(s.rows, key); l.Present? && l.top == Some(pri)
    ensures var l := LayersAt(s.rows, key);
            var (s', rc) := RemoveById(env, s, id, pri, reply, false);
            && rc == 0 && Valid(env, s')
            && LayersAt(s'.rows, key) ==
               if l.auto then Present(true, None, DefaultAction(env.rssActive), l.stale) else Absent
  {
    RemoveValid(env, s, UnsafeId(id), {pri}, reply, false);
    RemoveRefines(env, s, UnsafeId(id), {pri}, reply, false, key);
  }

  /** The identifier returned for a filter names a row with its match, which carries an
      automatic filter afterwards, or is under one, when that was asked for. It has the match
      priority too, except where an automatic filter is only renewed: it is then the row's index. */
  lemma InsertIdNamesRow(env: Env, s: State, q: Request)
    requires Valid(env, s) && FromCaller(q.spec) && Insert(env, s, q).1 >= 0
    ensures var (s', id) := Insert(env, s, q);
            var was, row := s.rows[UnsafeId(id)], s'.rows[UnsafeId(id)];
            && Holds(row, q.spec.key)
            && (q.spec.pri == AUTO ==> row.spec.pri == AUTO || row.spec.over)
            && (if q.spec.pri == AUTO && was.Filter? && was.spec.pri >= AUTO then id == UnsafeId(id)
                else env.matchPri(q.spec.key) >= 0 ==> UnsafePri(id) == env.matchPri(q.spec.key))
  {
    hide Slot, InWindow, First, InsertAt, UnsafeId, UnsafePri;
    var hash := env.hash(q.spec.key);
    var p := ProbeFor(s.rows, hash, q.spec, q.replaceEqual);
    PlaceTaken(s.rows, hash, q.spec, q.replaceEqual);
    InsertAtId(env, s, q, p.depth, p.displaced);
  }

  lemma InsertAtId(env: Env, s: State, q: Request, depth: nat, displaced: set<nat>)
    requires |s.rows| == ROWS && InsertAt(env, s, q, depth, displaced).1 >= 0
    requires 1 <= depth < SEARCH_LIMIT && forall d :: d in displaced ==> depth < d < SEARCH_LIMIT
    requires var row := s.rows[Slot(env.hash(q.spec.key), depth)]; row.Filter? ==> row.spec.key == q.spec.key
    ensures var i := Slot(env.hash(q.spec.key), depth);
            var (s', id) := InsertAt(env, s, q, depth, displaced);
            && UnsafeId(id) == i && Holds(s'.rows[i], q.spec.key)
            && (q.spec.pri == AUTO ==> s'.rows[i].spec.pri == AUTO || s'.rows[i].spec.over)
            && (if q.spec.pri == AUTO && s.rows[i].Filter? && s.rows[i].spec.pri >= AUTO then id == i
                else env.matchPri(q.spec.key) >= 0 ==> UnsafePri(id) == env.matchPri(q.spec.key))
  {
    hide Slot, MakeId, UnsafePri;
    var i, pri := Slot(env.hash(q.spec.key), depth), env.matchPri(q.spec.key);
    IdRoundTrip(if pri < 0 then 0 else pri, i);
    if q.spec.pri == AUTO && s.rows[i].Filter? && s.rows[i].spec.pri >= AUTO {
    } else if IsMcRecipient(q.spec) {
      McInsertedAt(env, s, q, depth, displaced);
    }
  }
}
