/** What every operation on the filter table keeps, and what it means for the
    two layers (automatic, explicit) of each unicast match. */
module FilterTableProofs {
  import opened Common
  import opened FilterTable

  // ----- The invariant

  /** Row `i` is reached by the probe for `hash`. */
  predicate InWindow(hash: nat, i: nat) { 1 <= (i - hash) % ROWS < SEARCH_LIMIT }

  ghost predicate Placed(env: Env, rows: seq<Row>)
  {
    forall i :: 0 <= i < |rows| && rows[i].Filter? ==> InWindow(env.hash(rows[i].spec.key), i)
  }

  /** A unicast match occupies at most one row. */
  ghost predicate Unique(rows: seq<Row>)
  {
    forall i, j | 0 <= i < |rows| && 0 <= j < |rows| && rows[i].Filter? && rows[j].Filter? &&
                  rows[i].spec.key == rows[j].spec.key && !rows[i].spec.key.mcast :: i == j
  }

  /** Automatic filters, and filters over one, are plain receive filters of the
      default port; only filters above AUTO lie over an automatic one. */
  predicate WellLayered(spec: Spec)
  {
    && (spec.over ==> spec.pri > AUTO)
    && (spec.over || spec.pri == AUTO ==> !spec.key.tx && spec.key.vport == 0)
  }

  ghost predicate Layered(rows: seq<Row>)
  {
    forall i :: 0 <= i < |rows| && rows[i].Filter? ==> WellLayered(rows[i].spec)
  }

  predicate Shadows(row: Row, fw: map<nat, FwFilter>)
    requires row.Filter?
  {
    row.handle in fw && fw[row.handle].key == row.spec.key && fw[row.handle].act == row.spec.act
  }

  predicate Carries(rows: seq<Row>, i: nat, h: nat) { i < |rows| && rows[i].Filter? && rows[i].handle == h }

  /** Rows and live firmware handles are in one-to-one correspondence, and the
      firmware applies the match and the action that the row records. */
  ghost predicate Agree(rows: seq<Row>, fw: map<nat, FwFilter>)
  {
    && (forall i :: 0 <= i < |rows| && rows[i].Filter? ==> Shadows(rows[i], fw))
    && (forall i, j | 0 <= i < |rows| && 0 <= j < |rows| && rows[i].Filter? && rows[j].Filter? &&
                      rows[i].handle == rows[j].handle :: i == j)
    && (forall h :: h in fw ==> exists i :: Carries(rows, i, h))
  }

  ghost predicate Valid(env: Env, s: State)
  {
    && |s.rows| == ROWS
    && Placed(env, s.rows)
    && Unique(s.rows)
    && Layered(s.rows)
    && (!s.lost ==> Agree(s.rows, s.fw))
  }

  /** The handle of a successful reply is not in use. */
  predicate Fresh(s: State, reply: Reply) { !s.lost && reply.Ok? ==> reply.newHandle !in s.fw }

  /** What the driver's callers keep to: RX_OVER_AUTO is never passed in, and an
      automatic filter is a plain receive filter of the default port. */
  predicate FromCaller(spec: Spec) { !spec.over && WellLayered(spec) }

  // ----- The probe window

  lemma ModUnique(x: int, q: int, r: int)
    requires x == q * ROWS + r && 0 <= r < ROWS
    ensures x % ROWS == r
  {
  }

  /** The 32-bit wrap of the sum does not change the row. */
  lemma SlotIsMod(hash: nat, d: nat)
    ensures Slot(hash, d) == (hash + d) % ROWS
  {
    var x := hash + d;
    var m := x % U32;
    ModUnique(x, x / U32 * (U32 / ROWS) + m / ROWS, m % ROWS);
  }

  lemma SlotOfDepth(hash: nat, i: nat)
    requires i < ROWS
    ensures Slot(hash, (i - hash) % ROWS) == i
  {
    var d := (i - hash) % ROWS;
    SlotIsMod(hash, d);
    ModUnique(hash + d, -((i - hash) / ROWS), i);
  }

  lemma DepthOfSlot(hash: nat, d: nat)
    requires d < ROWS
    ensures (Slot(hash, d) - hash) % ROWS == d
  {
    SlotIsMod(hash, d);
    ModUnique(Slot(hash, d) - hash, -((hash + d) / ROWS), d);
  }

  // ----- The probe is complete

  /** A row with the match, wherever it is, is met by the probe at its depth. */
  lemma MetByProbe(env: Env, s: State, key: Key, i: nat)
    requires Valid(env, s) && i < ROWS && Holds(s.rows[i], key)
    ensures 1 <= (i - env.hash(key)) % ROWS < SEARCH_LIMIT
    ensures Slot(env.hash(key), (i - env.hash(key)) % ROWS) == i
  {
    SlotOfDepth(env.hash(key), i);
  }

  lemma FoundByProbe(env: Env, s: State, spec: Spec, replaceEqual: bool, i: nat)
    requires Valid(env, s) && !spec.key.mcast && i < ROWS && Holds(s.rows[i], spec.key)
    ensures var m := First(Match, s.rows, env.hash(spec.key), spec, replaceEqual, 1);
            m < SEARCH_LIMIT && Slot(env.hash(spec.key), m) == i
  {
    var hash := env.hash(spec.key);
    var d := (i - hash) % ROWS;
    MetByProbe(env, s, spec.key, i);
    assert At(Match, s.rows, hash, spec, replaceEqual, d);
  }

  predicate OtherMatch(row: Row, key: Key) { row.Filter? && row.spec.key != key }

  /** For a unicast match the probe finds the row if and only if the match is
      in the table at all; otherwise it gives the first free row, and gives up
      exactly when all 199 rows of the window hold other matches. */
  lemma ProbeComplete(env: Env, s: State, spec: Spec, replaceEqual: bool)
    requires Valid(env, s) && !spec.key.mcast
    ensures var hash := env.hash(spec.key);
            var p := ProbeFor(s.rows, hash, spec, replaceEqual);
            && (p == Refused(EBUSY) <==>
                forall d :: 1 <= d < SEARCH_LIMIT ==> OtherMatch(s.rows[Slot(hash, d)], spec.key))
            && (p.Place? && s.rows[Slot(hash, p.depth)].Empty? ==>
                forall i :: 0 <= i < ROWS ==> !Holds(s.rows[i], spec.key))
            && (p.Place? && s.rows[Slot(hash, p.depth)].Filter? ==>
                forall i :: 0 <= i < ROWS ==> (Holds(s.rows[i], spec.key) <==> i == Slot(hash, p.depth)))
  {
    var hash := env.hash(spec.key);
    var m := First(Match, s.rows, hash, spec, replaceEqual, 1);
    forall i | 0 <= i < ROWS && Holds(s.rows[i], spec.key)
      ensures m < SEARCH_LIMIT && i == Slot(hash, m)
    {
      FoundByProbe(env, s, spec, replaceEqual, i);
    }
    BusyIff(s.rows, hash, spec, replaceEqual);
  }

  lemma BusyIff(rows: seq<Row>, hash: nat, spec: Spec, replaceEqual: bool)
    requires |rows| == ROWS && !spec.key.mcast
    ensures ProbeFor(rows, hash, spec, replaceEqual) == Refused(EBUSY)
            <==> forall d :: 1 <= d < SEARCH_LIMIT ==> OtherMatch(rows[Slot(hash, d)], spec.key)
  {
    hide First, Slot;
    var m := First(Match, rows, hash, spec, replaceEqual, 1);
    var e := First(Free, rows, hash, spec, replaceEqual, 1);
    if m == SEARCH_LIMIT && e == SEARCH_LIMIT {
      forall d | 1 <= d < SEARCH_LIMIT
        ensures OtherMatch(rows[Slot(hash, d)], spec.key)
      {
        assert !At(Match, rows, hash, spec, replaceEqual, d);
        assert !At(Free, rows, hash, spec, replaceEqual, d);
      }
    }
  }

  // ----- Every operation keeps the invariant

  /** Writing one row, seen by the parts of the invariant that do not concern the firmware. */
  lemma SetRow(env: Env, rows: seq<Row>, i: nat, row: Row)
    requires |rows| == ROWS && i < ROWS && Placed(env, rows) && Unique(rows) && Layered(rows)
    requires row.Filter? ==> InWindow(env.hash(row.spec.key), i) && WellLayered(row.spec)
    requires row.Filter? && !row.spec.key.mcast ==>
      forall j :: 0 <= j < ROWS && j != i ==> !Holds(rows[j], row.spec.key)
    ensures var rows' := rows[i := row]; Placed(env, rows') && Unique(rows') && Layered(rows')
  {
  }

  /** Writing one row together with the firmware's answer for it. */
  lemma SetAgree(rows: seq<Row>, fw: map<nat, FwFilter>, i: nat, row: Row, stack: nat, fw': map<nat, FwFilter>)
    requires i < |rows| && row.Filter? && Agree(rows, fw)
    requires row.handle !in fw || (rows[i].Filter? && rows[i].handle == row.handle)
    requires var rest := if rows[i].Filter? then fw - {rows[i].handle} else fw;
             fw' == rest[row.handle := FwFilter(row.spec.key, row.spec.act, stack)]
    ensures Agree(rows[i := row], fw')
  {
    var rows' := rows[i := row];
    forall h | h in fw'
      ensures exists j :: Carries(rows', j, h)
    {
      if h == row.handle {
        assert Carries(rows', i, h);
      } else {
        var j :| Carries(rows, j, h);
        assert Carries(rows', j, h);
      }
    }
  }

  lemma DropAgree(rows: seq<Row>, fw: map<nat, FwFilter>, i: nat, row: Row)
    requires i < |rows| && row.Empty? && Agree(rows, fw)
    ensures Agree(rows[i := row], if rows[i].Filter? then fw - {rows[i].handle} else fw)
  {
    var rows' := rows[i := row];
    forall h | h in fw && !(rows[i].Filter? && rows[i].handle == h)
      ensures exists j :: Carries(rows', j, h)
    {
      var j :| Carries(rows, j, h);
      assert Carries(rows', j, h);
    }
  }

  /** Changing marks only: same match, action and handle. */
  lemma RemarkValid(env: Env, s: State, i: nat, row: Row)
    requires Valid(env, s) && i < ROWS
    requires row.Filter? == s.rows[i].Filter?
    requires row.Filter? ==> WellLayered(row.spec) && row.handle == s.rows[i].handle &&
                             row.spec.key == s.rows[i].spec.key && row.spec.act == s.rows[i].spec.act
    ensures Valid(env, s.(rows := s.rows[i := row]))
  {
    var rows' := s.rows[i := row];
    SetRow(env, s.rows, i, row);
    if !s.lost {
      forall h | h in s.fw
        ensures exists j :: Carries(rows', j, h)
      {
        var j :| Carries(s.rows, j, h);
        assert Carries(rows', j, h);
      }
    }
  }

  /** A successful or failed push of `spec` for row `i`, with the row written accordingly. */
  lemma PushValid(env: Env, s: State, i: nat, spec: Spec, row: Row, reply: Reply)
    requires Valid(env, s) && i < ROWS && Fresh(s, reply)
    requires row.Filter? && WellLayered(row.spec) && InWindow(env.hash(row.spec.key), i)
    requires row.spec.key == spec.key && row.spec.act == spec.act
    requires reply.Ok? ==> row.handle == NewHandle(s.rows[i], reply)
    requires !row.spec.key.mcast ==> forall j :: 0 <= j < ROWS && j != i ==> !Holds(s.rows[j], row.spec.key)
    ensures var pushed := FwPush(s, s.rows[i], spec, reply);
            if reply.Ok? then Valid(env, pushed.(rows := s.rows[i := row])) else Valid(env, pushed)
  {
    if reply.Ok? {
      SetRow(env, s.rows, i, row);
      if !s.lost {
        SetAgree(s.rows, s.fw, i, row, spec.stack, FwPush(s, s.rows[i], spec, reply).fw);
      }
    }
  }

  lemma EmptyValid(env: Env, s: State, i: nat, reply: Reply)
    requires Valid(env, s) && i < ROWS && s.rows[i].Filter?
    ensures !reply.Fail? ==> Valid(env, FwRemove(s, s.rows[i].handle, reply).(rows := s.rows[i := Empty(false)]))
    ensures reply.Fail? ==> Valid(env, s.(rows := s.rows[i := Empty(false)], lost := true))
  {
    SetRow(env, s.rows, i, Empty(false));
    if !s.lost {
      DropAgree(s.rows, s.fw, i, Empty(false));
    }
  }

  lemma {:induction false} ClearDisplacedValid(env: Env, s: State, hash: nat, displaced: set<nat>,
          unsub: nat -> Reply, d: nat)
    requires Valid(env, s) && d <= SEARCH_LIMIT
    ensures Valid(env, ClearDisplaced(s, hash, displaced, unsub, d).0)
    decreases SEARCH_LIMIT - d
  {
    hide Slot, InWindow;
    if d == SEARCH_LIMIT {
    } else {
      var i := Slot(hash, d);
      if d !in displaced || s.rows[i].Empty? {
        ClearDisplacedValid(env, s, hash, displaced, unsub, d + 1);
      } else if unsub(d).Ok? {
        EmptyValid(env, s, i, unsub(d));
        ClearDisplacedValid(env, FwUnsubscribe(s, s.rows[i].handle, unsub(d)).(rows := s.rows[i := Empty(false)]),
                            hash, displaced, unsub, d + 1);
      }
    }
  }

  /** The chosen row is free or holds the match at a priority that gives way. */
  lemma PlaceTaken(rows: seq<Row>, hash: nat, spec: Spec, replaceEqual: bool)
    requires |rows| == ROWS && ProbeFor(rows, hash, spec, replaceEqual).Place?
    ensures var row := rows[Slot(hash, ProbeFor(rows, hash, spec, replaceEqual).depth)];
            row.Empty? || (Holds(row, spec.key) && !Outranked(row, spec))
  {
  }

  /** The chosen row is in the window, and no other row holds a unicast match. */
  lemma PlaceUsable(env: Env, s: State, spec: Spec, replaceEqual: bool, i: nat)
    requires Valid(env, s) && ProbeFor(s.rows, env.hash(spec.key), spec, replaceEqual).Place?
    requires i == Slot(env.hash(spec.key), ProbeFor(s.rows, env.hash(spec.key), spec, replaceEqual).depth)
    ensures InWindow(env.hash(spec.key), i)
    ensures !spec.key.mcast ==> forall j :: 0 <= j < ROWS && j != i ==> !Holds(s.rows[j], spec.key)
  {
    var hash := env.hash(spec.key);
    DepthOfSlot(hash, ProbeFor(s.rows, hash, spec, replaceEqual).depth);
    if !spec.key.mcast {
      ProbeComplete(env, s, spec, replaceEqual);
    }
  }

  lemma InsertValid(env: Env, s: State, q: Request)
    requires Valid(env, s) && FromCaller(q.spec) && Fresh(s, q.reply)
    ensures Valid(env, Insert(env, s, q).0)
  {
    hide Slot, InWindow, At, First;
    var hash := env.hash(q.spec.key);
    var p := ProbeFor(s.rows, hash, q.spec, q.replaceEqual);
    if q.admission >= 0 && p.Place? {
      PlaceTaken(s.rows, hash, q.spec, q.replaceEqual);
      PlaceUsable(env, s, q.spec, q.replaceEqual, Slot(hash, p.depth));
      InsertAtValid(env, s, q, p.depth, p.displaced);
    }
  }

  lemma InsertAtValid(env: Env, s: State, q: Request, depth: nat, displaced: set<nat>)
    requires Valid(env, s) && FromCaller(q.spec) && Fresh(s, q.reply)
    requires InWindow(env.hash(q.spec.key), Slot(env.hash(q.spec.key), depth))
    requires var row := s.rows[Slot(env.hash(q.spec.key), depth)];
             row.Empty? || (Holds(row, q.spec.key) && !Outranked(row, q.spec))
    requires !q.spec.key.mcast ==>
               forall j :: 0 <= j < ROWS && j != Slot(env.hash(q.spec.key), depth) ==> !Holds(s.rows[j], q.spec.key)
    ensures Valid(env, InsertAt(env, s, q, depth, displaced).0)
  {
    hide Slot, InWindow, MakeId;
    var hash := env.hash(q.spec.key);
    var i := Slot(hash, depth);
    var row := s.rows[i];
    if row.Filter? && q.spec.pri == AUTO && row.spec.pri >= AUTO {
      RemarkValid(env, s, i, Renewed(row));
    } else if row.Filter? || q.alloc {
      if q.reply.Ok? {
        var row' := Finalised(row, q.spec, q.reply);
        PushValid(env, s, i, q.spec, row', q.reply);
        ClearDisplacedValid(env, FwPush(s, row, q.spec, q.reply).(rows := s.rows[i := row']), hash, displaced,
          q.unsub, 0);
      } else if row.Empty? {
        RemarkValid(env, s, i, Empty(false));
      }
    }
  }

  lemma RemoveValid(env: Env, s: State, i: nat, mask: set<Priority>, reply: Reply, resetPending: bool)
    requires Valid(env, s) && i < ROWS && (mask == {AUTO} || Fresh(s, reply))
    ensures Valid(env, RemoveAt(env, s, i, mask, reply, resetPending).0)
  {
    hide InWindow;
    var row := s.rows[i];
    if row.Filter? {
      if row.spec.over && mask == {AUTO} {
        RemarkValid(env, s, i, row.(spec := row.spec.(over := false), stale := false));
      } else if row.spec.pri in mask {
        if row.spec.over {
          var auto := ResetToAuto(env, row.spec);
          assert auto.key == row.spec.key;
          if reply.Ok? {
            PushValid(env, s, i, auto, Filter(auto, row.stale, NewHandle(row, reply)), reply);
          }
        } else {
          EmptyValid(env, s, i, reply);
        }
      }
    }
  }

  lemma RedirectValid(env: Env, s: State, id: nat, rssContext: Option<nat>, dmaq: nat, stack: nat, lookup: int,
          reply: Reply)
    requires Valid(env, s) && Fresh(s, reply)
    ensures Valid(env, Redirect(s, id, rssContext, dmaq, stack, lookup, reply).0)
  {
    var i := UnsafeId(id);
    var row := s.rows[i];
    var s' := Redirect(s, id, rssContext, dmaq, stack, lookup, reply).0;
    if row.Filter? && lookup >= 0 && reply.Ok? {
      PushValid(env, s, i, s'.rows[i].spec, s'.rows[i], reply);
    }
  }

  // ----- The two layers of a unicast match

  /** A unicast match as its users see it: whether an automatic filter is wanted, the
      priority of the explicit filter if any, where the packets go, and whether the
      automatic side is marked old. */
  datatype Layers = Absent | Present(auto: bool, top: Option<Priority>, act: Action, stale: bool)

  /** Where the network driver's own traffic goes: queue 0, spread by the default RSS context
      when that is in use. */
  function DefaultAction(rssActive: bool): Action { Action(0, rssActive, 0, 0) }

  function LayersOf(row: Row): Layers
    requires row.Filter?
  {
    if row.spec.pri == AUTO then Present(true, None, row.spec.act, row.stale)
    else Present(row.spec.over, Some(row.spec.pri), row.spec.act, row.stale)
  }

  ghost function LayersAt(rows: seq<Row>, key: Key): Layers
  {
    if i :| 0 <= i < |rows| && Holds(rows[i], key) then LayersOf(rows[i]) else Absent
  }

  function EffectivePri(l: Layers): Priority
    requires l.Present?
  {
    if l.top.Some? then l.top.value else AUTO
  }

  /** Insertion on layers: priorities decide; an automatic filter only goes under
      an explicit one; an explicit one hides the automatic one and keeps it wanted. */
  function LayersInsert(l: Layers, q: Request, room: bool): (Layers, int)
  {
    if q.admission < 0 then (l, q.admission)
    else if l.Absent? then
      if !room then (l, -EBUSY)
      else if !q.alloc then (l, -ENOMEM)
      else if !q.reply.Ok? then (l, PushErrno(q.reply))
      else if q.spec.pri == AUTO then (Present(true, None, q.spec.act, false), 0)
      else (Present(false, Some(q.spec.pri), q.spec.act, false), 0)
    else if q.spec.pri < EffectivePri(l) && q.spec.pri != AUTO then (l, -EPERM)
    else if q.spec.pri == EffectivePri(l) && !q.replaceEqual then (l, -EEXIST)
    else if q.spec.pri == AUTO && EffectivePri(l) >= AUTO then (l.(auto := true, stale := false), 0)
    else if !q.reply.Ok? then (l, PushErrno(q.reply))
    else if q.spec.pri == AUTO then (Present(true, None, q.spec.act, l.stale), 0)
    else (Present(l.auto, Some(q.spec.pri), q.spec.act, l.stale), 0)
  }

  /** Removal on layers: removing the explicit filter uncovers the automatic one
      exactly when that one is still wanted, and with it the default action. */
  function LayersRemove(l: Layers, rssActive: bool, mask: set<Priority>, reply: Reply, resetPending: bool)
    : (Layers, int)
  {
    if l.Absent? then (l, -ENOENT)
    else if l.auto && l.top.Some? && mask == {AUTO} then (l.(auto := false, stale := false), 0)
    else if EffectivePri(l) !in mask then (l, -ENOENT)
    else if l.auto && l.top.Some? then
      if reply.Ok? then (Present(true, None, DefaultAction(rssActive), l.stale), 0) else (l, PushErrno(reply))
    else if !reply.Fail? || resetPending then (Absent, Errno(reply))
    else (l, Errno(reply))
  }

  lemma LayersFound(rows: seq<Row>, key: Key, i: nat)
    requires Unique(rows) && !key.mcast && i < |rows| && Holds(rows[i], key)
    ensures LayersAt(rows, key) == LayersOf(rows[i])
  {
  }

  lemma LayersUpdate(rows: seq<Row>, i: nat, row: Row, key: Key)
    requires i < |rows| && Unique(rows) && Unique(rows[i := row]) && !key.mcast
    requires rows[i].Filter? && row.Filter? ==> row.spec.key == rows[i].spec.key
    ensures LayersAt(rows[i := row], key) ==
            if Holds(row, key) then LayersOf(row) else if Holds(rows[i], key) then Absent else LayersAt(rows, key)
  {
    var rows' := rows[i := row];
    if Holds(row, key) {
      LayersFound(rows', key, i);
    } else if j :| 0 <= j < |rows| && j != i && Holds(rows[j], key) {
      LayersFound(rows', key, j);
      LayersFound(rows, key, j);
    }
  }
}
