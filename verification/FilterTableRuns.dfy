/** Every run of filter operations from the empty table. */
module FilterTableRuns {
  import opened Common
  import opened FilterTable
  import opened FilterTableProofs
  import opened FilterTableTheorems

  /** One operation.  A sweep is a series of SweepOne, a clear a series of DeleteRow. */
  datatype Op =
    | Add(q: Request)
    | Delete(id: nat, pri: Priority, reply: Reply, resetPending: bool)
    | DeleteRow(i: nat, mask: set<Priority>, reply: Reply, resetPending: bool)
    | Retarget(id: nat, rssContext: Option<nat>, dmaq: nat, stack: nat, lookup: int, reply: Reply)
    | MarkRow(i: nat)
    | SweepOne(i: nat, reply: Reply, resetPending: bool)

  function Apply(env: Env, s: State, op: Op): (r: State)
    requires |s.rows| == ROWS
    ensures |r.rows| == ROWS
  {
    match op
    case Add(q) => Insert(env, s, q).0
    case Delete(id, pri, reply, rp) => RemoveById(env, s, id, pri, reply, rp).0
    case DeleteRow(i, mask, reply, rp) => RemoveAt(env, s, i % ROWS, mask, reply, rp).0
    case Retarget(id, rss, dmaq, stack, lookup, reply) => Redirect(s, id, rss, dmaq, stack, lookup, reply).0
    case MarkRow(i) => Mark(s, i % ROWS)
    case SweepOne(i, reply, rp) => SweepRow(env, s, i % ROWS, reply, rp)
  }

  /** What callers and firmware keep to: fresh handles, no forged RX_OVER_AUTO. */
  predicate Admissible(s: State, op: Op)
  {
    match op
    case Add(q) => FromCaller(q.spec) && Fresh(s, q.reply)
    case Delete(_, _, reply, _) => Fresh(s, reply)
    case DeleteRow(_, _, reply, _) => Fresh(s, reply)
    case Retarget(_, _, _, _, _, reply) => Fresh(s, reply)
    case MarkRow(_) => true
    case SweepOne(_, _, _) => true
  }

  function Run(env: Env, s: State, ops: seq<Op>): (r: State)
    requires |s.rows| == ROWS
    ensures |r.rows| == ROWS
    decreases |ops|
  {
    if ops == [] then s else Run(env, Apply(env, s, ops[0]), ops[1..])
  }

  predicate AllAdmissible(env: Env, s: State, ops: seq<Op>)
    requires |s.rows| == ROWS
    decreases |ops|
  {
    ops != [] ==> Admissible(s, ops[0]) && AllAdmissible(env, Apply(env, s, ops[0]), ops[1..])
  }

  const INITIAL := State(seq(ROWS, _ => Empty(false)), map[], false)

  // ----- The run of one match on its layers alone

  function Retargeted(l: Layers, rssContext: Option<nat>, dmaq: nat): Layers
    requires l.Present?
  {
    l.(act := Action(dmaq, rssContext.Some?, if rssContext.Some? then rssContext.value else l.act.rssContext,
                     l.act.opts))
  }

  /** The same operation on the layers of `key`.  The table is consulted only for
      which match an identifier or index names, and for whether there is room. */
  function LayersApply(env: Env, s: State, op: Op, key: Key, l: Layers): Layers
    requires |s.rows| == ROWS
  {
    match op
    case Add(q) =>
      if q.spec.key == key then LayersInsert(l, q, Room(s.rows, env.hash(key), q.spec)).0 else l
    case Delete(id, pri, reply, rp) =>
      if Holds(s.rows[UnsafeId(id)], key) && env.matchPri(key) == UnsafePri(id)
      then LayersRemove(l, env.rssActive, {pri}, reply, rp).0
      else l
    case DeleteRow(i, mask, reply, rp) =>
      if Holds(s.rows[i % ROWS], key) then LayersRemove(l, env.rssActive, mask, reply, rp).0 else l
    case Retarget(id, rss, dmaq, _, lookup, reply) =>
      if Holds(s.rows[UnsafeId(id)], key) && l.Present? && lookup >= 0 && reply.Ok? then Retargeted(l, rss, dmaq) else l
    case MarkRow(i) =>
      if Holds(s.rows[i % ROWS], key) && l.Present? then l.(stale := true) else l
    case SweepOne(i, reply, rp) =>
      if Holds(s.rows[i % ROWS], key) && l.Present? && l.stale
      then LayersRemove(l, env.rssActive, {AUTO}, reply, rp).0
      else l
  }

  function LayersRun(env: Env, s: State, ops: seq<Op>, key: Key, l: Layers): Layers
    requires |s.rows| == ROWS
    decreases |ops|
  {
    if ops == [] then l
    else LayersRun(env, Apply(env, s, ops[0]), ops[1..], key, LayersApply(env, s, ops[0], key, l))
  }

  // ----- Insertions leave other matches alone

  lemma InsertAtOthers(env: Env, s: State, q: Request, depth: nat, displaced: set<nat>, key: Key, j: nat)
    requires |s.rows| == ROWS && key != q.spec.key && j < ROWS
    requires var row := s.rows[Slot(env.hash(q.spec.key), depth)]; row.Empty? || Holds(row, q.spec.key)
    requires forall d :: d in displaced ==> Holds(s.rows[Slot(env.hash(q.spec.key), d)], q.spec.key)
    ensures var rows' := InsertAt(env, s, q, depth, displaced).0.rows;
            (Holds(s.rows[j], key) ==> rows'[j] == s.rows[j]) && (Holds(rows'[j], key) ==> Holds(s.rows[j], key))
  {
    hide Slot, MakeId;
    var hash := env.hash(q.spec.key);
    var i := Slot(hash, depth);
    if q.reply.Ok? {
      var done := FwPush(s, s.rows[i], q.spec, q.reply).(rows := s.rows[i := Finalised(s.rows[i], q.spec, q.reply)]);
      ClearDisplacedRows(done, hash, displaced, q.unsub, 0);
    }
  }

  lemma DisplacedHoldMatch(rows: seq<Row>, hash: nat, spec: Spec, replaceEqual: bool)
    requires |rows| == ROWS && ProbeFor(rows, hash, spec, replaceEqual).Place?
    ensures forall d :: d in ProbeFor(rows, hash, spec, replaceEqual).displaced ==> Holds(rows[Slot(hash, d)], spec.key)
  {
    hide Slot, First;
  }

  lemma InsertOthers(env: Env, s: State, q: Request, key: Key)
    requires Valid(env, s) && FromCaller(q.spec) && Fresh(s, q.reply) && key != q.spec.key && !key.mcast
    ensures LayersAt(Insert(env, s, q).0.rows, key) == LayersAt(s.rows, key)
  {
    hide Slot, InWindow, First, At, InsertAt;
    var hash := env.hash(q.spec.key);
    var p := ProbeFor(s.rows, hash, q.spec, q.replaceEqual);
    if q.admission >= 0 && p.Place? {
      PlaceTaken(s.rows, hash, q.spec, q.replaceEqual);
      DisplacedHoldMatch(s.rows, hash, q.spec, q.replaceEqual);
      InsertValid(env, s, q);
      var rows' := InsertAt(env, s, q, p.depth, p.displaced).0.rows;
      forall j | 0 <= j < ROWS
        ensures (Holds(s.rows[j], key) ==> rows'[j] == s.rows[j]) && (Holds(rows'[j], key) ==> Holds(s.rows[j], key))
      {
        InsertAtOthers(env, s, q, p.depth, p.displaced, key, j);
      }
      LayersSame(s.rows, rows', key);
    }
  }

  lemma LayersSame(rows: seq<Row>, rows': seq<Row>, key: Key)
    requires |rows| == |rows'| && Unique(rows) && Unique(rows') && !key.mcast
    requires forall j :: 0 <= j < |rows| ==>
               (Holds(rows[j], key) ==> rows'[j] == rows[j]) && (Holds(rows'[j], key) ==> Holds(rows[j], key))
    ensures LayersAt(rows', key) == LayersAt(rows, key)
  {
    if j :| 0 <= j < |rows| && Holds(rows[j], key) {
      LayersFound(rows, key, j);
      LayersFound(rows', key, j);
    }
  }

  // ----- One step, any run

  lemma ApplyValid(env: Env, s: State, op: Op)
    requires Valid(env, s) && Admissible(s, op)
    ensures Valid(env, Apply(env, s, op))
  {
    hide Insert, RemoveAt, Redirect, InWindow, UnsafeId, UnsafePri;
    match op
    case Add(q) => InsertValid(env, s, q);
    case Delete(id, pri, reply, rp) => RemoveValid(env, s, UnsafeId(id), {pri}, reply, rp);
    case DeleteRow(i, mask, reply, rp) => RemoveValid(env, s, i % ROWS, mask, reply, rp);
    case Retarget(id, rss, dmaq, stack, lookup, reply) => RedirectValid(env, s, id, rss, dmaq, stack, lookup, reply);
    case MarkRow(i) => RemarkValid(env, s, i % ROWS, s.rows[i % ROWS].(stale := true));
    case SweepOne(i, reply, rp) => RemoveValid(env, s, i % ROWS, {AUTO}, reply, rp);
  }

  lemma RedirectRefines(env: Env, s: State, op: Op, key: Key)
    requires Valid(env, s) && op.Retarget? && Admissible(s, op) && !key.mcast
    ensures LayersAt(Apply(env, s, op).rows, key) == LayersApply(env, s, op, key, LayersAt(s.rows, key))
  {
    hide InWindow, UnsafeId, UnsafePri, Retargeted, Redirect;
    var i := UnsafeId(op.id);
    var rows' := Apply(env, s, op).rows;
    ApplyValid(env, s, op);
    RedirectOnRow(env, s, op);
    LayersUpdate(s.rows, i, rows'[i], key);
    if Holds(s.rows[i], key) {
      LayersFound(s.rows, key, i);
    }
  }

  lemma RedirectOnRow(env: Env, s: State, op: Op)
    requires |s.rows| == ROWS && op.Retarget?
    ensures var i := UnsafeId(op.id);
            var row, rows' := s.rows[i], Apply(env, s, op).rows;
            && rows' == s.rows[i := rows'[i]]
            && (row.Empty? ==> rows'[i] == row)
            && (row.Filter? ==>
                && Holds(rows'[i], row.spec.key)
                && LayersOf(rows'[i]) ==
                   if op.lookup >= 0 && op.reply.Ok? then Retargeted(LayersOf(row), op.rssContext, op.dmaq)
                   else LayersOf(row))
  {
    hide UnsafeId;
  }

  /** The outcome of a redirect: -ENOENT without a filter, then the failure of the lookups, then
      that of the command; on success the table and the firmware have the stack asked for. */
  lemma RedirectOutcome(s: State, id: nat, rssContext: Option<nat>, dmaq: nat, stack: nat, lookup: int, reply: Reply)
    requires |s.rows| == ROWS
    ensures var (s', rc) := Redirect(s, id, rssContext, dmaq, stack, lookup, reply);
            var row, row' := s.rows[UnsafeId(id)], s'.rows[UnsafeId(id)];
            && (rc == 0 <==> row.Filter? && lookup >= 0 && reply.Ok?)
            && (row.Empty? ==> rc == -ENOENT)
            && (row.Filter? && lookup < 0 ==> rc == lookup)
            && (row.Filter? && lookup >= 0 && reply.NoEnt? ==> rc == -ENOENT)
            && (row.Filter? && lookup >= 0 && reply.Eio? ==> rc == -EIO)
            && (row.Filter? && lookup >= 0 && reply.Fail? ==>
                rc == if reply.errno == ENOSPC then -EBUSY else -(reply.errno as int))
            && (rc != 0 ==> s'.rows == s.rows)
            && (rc == 0 ==>
                && row'.Filter? && row'.spec.stack == stack && row'.spec.pri == row.spec.pri
                && row'.spec.over == row.spec.over && row'.stale == row.stale
                && row'.handle in s'.fw && s'.fw[row'.handle].stack == stack)
  {
    hide UnsafeId;
  }

  lemma MarkRefines(env: Env, s: State, op: Op, key: Key)
    requires Valid(env, s) && op.MarkRow? && !key.mcast
    ensures LayersAt(Apply(env, s, op).rows, key) == LayersApply(env, s, op, key, LayersAt(s.rows, key))
  {
    hide InWindow;
    var i := op.i % ROWS;
    ApplyValid(env, s, op);
    LayersUpdate(s.rows, i, s.rows[i].(stale := true), key);
    if Holds(s.rows[i], key) {
      LayersFound(s.rows, key, i);
    }
  }

  lemma RemoveOpRefines(env: Env, s: State, op: Op, key: Key)
    requires Valid(env, s) && Admissible(s, op) && !key.mcast && (op.Delete? || op.DeleteRow? || op.SweepOne?)
    ensures LayersAt(Apply(env, s, op).rows, key) == LayersApply(env, s, op, key, LayersAt(s.rows, key))
  {
    hide InWindow, RemoveAt, UnsafeId, UnsafePri;
    match op
    case Delete(id, pri, reply, rp) => RemoveRefines(env, s, UnsafeId(id), {pri}, reply, rp, key);
    case DeleteRow(i, mask, reply, rp) => RemoveRefines(env, s, i % ROWS, mask, reply, rp, key);
    case SweepOne(i, reply, rp) =>
      RemoveRefines(env, s, i % ROWS, {AUTO}, reply, rp, key);
      if Holds(s.rows[i % ROWS], key) {
        LayersFound(s.rows, key, i % ROWS);
      }
  }

  lemma ApplyRefines(env: Env, s: State, op: Op, key: Key)
    requires Valid(env, s) && Admissible(s, op) && !key.mcast
    ensures LayersAt(Apply(env, s, op).rows, key) == LayersApply(env, s, op, key, LayersAt(s.rows, key))
  {
    hide InWindow, Insert, RemoveAt, RemoveById, Redirect, SweepRow, UnsafeId, UnsafePri, Room;
    match op
    case Add(q) =>
      if q.spec.key == key {
        InsertRefines(env, s, q, key);
      } else {
        InsertOthers(env, s, q, key);
      }
    case Retarget(_, _, _, _, _, _) => RedirectRefines(env, s, op, key);
    case MarkRow(_) => MarkRefines(env, s, op, key);
    case _ => RemoveOpRefines(env, s, op, key);
  }

  /** Every run keeps the table valid, so software and firmware agree throughout
      (until the controller reboots), and refines the run on layers of each
      unicast match. */
  lemma {:induction false} RunRefines(env: Env, s: State, ops: seq<Op>, key: Key)
    requires Valid(env, s) && AllAdmissible(env, s, ops) && !key.mcast
    ensures Valid(env, Run(env, s, ops))
    ensures LayersAt(Run(env, s, ops).rows, key) == LayersRun(env, s, ops, key, LayersAt(s.rows, key))
    decreases |ops|
  {
    hide Apply, LayersApply, Placed, Unique, Layered, Agree, Admissible;
    if ops == [] {
    } else {
      ApplyValid(env, s, ops[0]);
      ApplyRefines(env, s, ops[0], key);
      RunRefines(env, Apply(env, s, ops[0]), ops[1..], key);
    }
  }

  lemma InitialValid(env: Env)
    ensures Valid(env, INITIAL)
    ensures forall key :: LayersAt(INITIAL.rows, key) == Absent
  {
  }

  /** From the empty table, after any run. */
  lemma ReachableRefines(env: Env, ops: seq<Op>, key: Key)
    requires AllAdmissible(env, INITIAL, ops) && !key.mcast
    ensures var s := Run(env, INITIAL, ops);
            && (!s.lost ==> Agree(s.rows, s.fw))
            && LayersAt(s.rows, key) == LayersRun(env, INITIAL, ops, key, Absent)
  {
    InitialValid(env);
    RunRefines(env, INITIAL, ops, key);
  }

  // ----- Agreement while commands fail

  /** A command succeeds or fails; the controller neither reboots nor denies a handle. */
  predicate Plain(reply: Reply) { reply.Ok? || reply.Fail? }

  /** The command that writes a row. A denial matters where there is a handle to deny. */
  predicate SteadyPush(row: Row, reply: Reply) { Plain(reply) || (reply.NoEnt? && row.Empty?) }

  /** The command of a removal of a row, if there is one. That the handle is not known is as good
      as success, except where the automatic filter is to be put back; and a failure leaves the
      row, except where a reset is pending. */
  predicate SteadyRemoval(row: Row, mask: set<Priority>, reply: Reply, resetPending: bool)
  {
    if row.Empty? || row.spec.pri !in mask || (row.spec.over && mask == {AUTO}) then true
    else if row.spec.over then Plain(reply)
    else reply.Ok? || reply.NoEnt? || (reply.Fail? && !resetPending)
  }

  /** The least displaced depth from `d` on whose unsubscription does not succeed, or
      SEARCH_LIMIT. */
  function FirstRefused(displaced: set<nat>, unsub: nat -> Reply, d: nat): (e: nat)
    requires d <= SEARCH_LIMIT
    ensures d <= e <= SEARCH_LIMIT
    decreases SEARCH_LIMIT - d
  {
    if d == SEARCH_LIMIT || (d in displaced && !unsub(d).Ok?) then d else FirstRefused(displaced, unsub, d + 1)
  }

  /** The unsubscriptions stop, if they do, at a command that failed. */
  predicate SteadyUnsub(displaced: set<nat>, unsub: nat -> Reply, d: nat)
    requires d <= SEARCH_LIMIT
  {
    var e := FirstRefused(displaced, unsub, d);
    e == SEARCH_LIMIT || unsub(e).Fail?
  }

  /** The commands of an insertion, as far as they are issued. */
  predicate SteadyAdd(env: Env, s: State, q: Request)
    requires |s.rows| == ROWS
  {
    var hash := env.hash(q.spec.key);
    var p := ProbeFor(s.rows, hash, q.spec, q.replaceEqual);
    if q.admission < 0 || p.Refused? then true
    else
      var row := s.rows[Slot(hash, p.depth)];
      if row.Filter? && q.spec.pri == AUTO && row.spec.pri >= AUTO then true
      else if row.Empty? && !q.alloc then true
      else if !q.reply.Ok? then SteadyPush(row, q.reply)
      else IsMcRecipient(q.spec) ==> SteadyUnsub(p.displaced, q.unsub, 0)
  }

  ghost predicate Steady(env: Env, s: State, op: Op)
    requires |s.rows| == ROWS
  {
    match op
    case Add(q) => SteadyAdd(env, s, q)
    case Delete(id, pri, reply, rp) => SteadyRemoval(s.rows[UnsafeId(id)], {pri}, reply, rp)
    case DeleteRow(i, mask, reply, rp) => SteadyRemoval(s.rows[i % ROWS], mask, reply, rp)
    case Retarget(id, _, _, _, lookup, reply) => s.rows[UnsafeId(id)].Empty? || lookup < 0 || Plain(reply)
    case MarkRow(_) => true
    case SweepOne(i, reply, rp) => SteadyRemoval(s.rows[i % ROWS], {AUTO}, reply, rp)
  }

  ghost predicate AllSteady(env: Env, s: State, ops: seq<Op>)
    requires |s.rows| == ROWS
    decreases |ops|
  {
    ops != [] ==> Steady(env, s, ops[0]) && AllSteady(env, Apply(env, s, ops[0]), ops[1..])
  }

  ghost predicate Occupied(rows: seq<Row>, hash: nat, displaced: set<nat>, d: nat)
    requires |rows| == ROWS
  {
    forall e :: d <= e < SEARCH_LIMIT && e in displaced ==> rows[Slot(hash, e)].Filter?
  }

  lemma SlotsDiffer(hash: nat, d: nat, e: nat)
    requires d < SEARCH_LIMIT && e < SEARCH_LIMIT && d != e
    ensures Slot(hash, d) != Slot(hash, e)
  {
    DepthOfSlot(hash, d);
    DepthOfSlot(hash, e);
  }

  /** Writing the row of one depth leaves the rows of the others occupied. */
  lemma StillOccupied(rows: seq<Row>, hash: nat, displaced: set<nat>, d: nat, row: Row, at: nat)
    requires |rows| == ROWS && Occupied(rows, hash, displaced, d) && at < SEARCH_LIMIT
    requires at !in displaced || at < d
    ensures Occupied(rows[Slot(hash, at) := row], hash, displaced, d)
  {
    hide Slot;
    forall e | d <= e < SEARCH_LIMIT && e in displaced
      ensures rows[Slot(hash, at) := row][Slot(hash, e)].Filter?
    {
      SlotsDiffer(hash, at, e);
    }
  }

  lemma {:induction false} ClearDisplacedSteady(s: State, hash: nat, displaced: set<nat>, unsub: nat -> Reply, d: nat)
    requires |s.rows| == ROWS && d <= SEARCH_LIMIT && Occupied(s.rows, hash, displaced, d)
    requires SteadyUnsub(displaced, unsub, d)
    ensures ClearDisplaced(s, hash, displaced, unsub, d).0.lost == s.lost
    decreases SEARCH_LIMIT - d
  {
    hide Slot;
    if d == SEARCH_LIMIT {
    } else if d !in displaced {
      ClearDisplacedSteady(s, hash, displaced, unsub, d + 1);
    } else if unsub(d).Ok? {
      var i := Slot(hash, d);
      var s' := FwUnsubscribe(s, s.rows[i].handle, unsub(d)).(rows := s.rows[i := Empty(false)]);
      StillOccupied(s.rows, hash, displaced, d + 1, Empty(false), d);
      ClearDisplacedSteady(s', hash, displaced, unsub, d + 1);
    }
  }

  /** Short of a reboot, the unsubscriptions keep the tables in agreement exactly when the
      first that does not succeed, if any, fails rather than finding its handle unknown. */
  lemma {:induction false} ClearAgreesIff(env: Env, s: State, hash: nat, displaced: set<nat>, unsub: nat -> Reply,
          d: nat)
    requires Valid(env, s) && !s.lost && d <= SEARCH_LIMIT && Occupied(s.rows, hash, displaced, d)
    requires forall e :: !unsub(e).Eio?
    ensures var s' := ClearDisplaced(s, hash, displaced, unsub, d).0;
            Agree(s'.rows, s'.fw) <==> SteadyUnsub(displaced, unsub, d)
    decreases SEARCH_LIMIT - d
  {
    hide Slot, InWindow, Placed, Unique, Layered;
    if d == SEARCH_LIMIT {
    } else if d !in displaced {
      ClearAgreesIff(env, s, hash, displaced, unsub, d + 1);
    } else if unsub(d).Ok? {
      var i := Slot(hash, d);
      var s' := FwUnsubscribe(s, s.rows[i].handle, unsub(d)).(rows := s.rows[i := Empty(false)]);
      EmptyValid(env, s, i, unsub(d));
      StillOccupied(s.rows, hash, displaced, d + 1, Empty(false), d);
      ClearAgreesIff(env, s', hash, displaced, unsub, d + 1);
    } else {
      var i := Slot(hash, d);
      var s' := ClearDisplaced(s, hash, displaced, unsub, d).0;
      assert FirstRefused(displaced, unsub, d) == d && !unsub(d).Eio?;
      if unsub(d).NoEnt? {
        assert s'.rows[i] == s.rows[i] && !Shadows(s'.rows[i], s'.fw);
      }
    }
  }

  /** The state in which the unsubscriptions begin. */
  function Pushed(env: Env, s: State, q: Request, depth: nat): State
    requires |s.rows| == ROWS && q.reply.Ok?
  {
    var i := Slot(env.hash(q.spec.key), depth);
    FwPush(s, s.rows[i], q.spec, q.reply).(rows := s.rows[i := Finalised(s.rows[i], q.spec, q.reply)])
  }

  lemma PlacedOccupied(env: Env, s: State, q: Request)
    requires |s.rows| == ROWS && q.reply.Ok?
    requires ProbeFor(s.rows, env.hash(q.spec.key), q.spec, q.replaceEqual).Place?
    ensures var p := ProbeFor(s.rows, env.hash(q.spec.key), q.spec, q.replaceEqual);
            Occupied(Pushed(env, s, q, p.depth).rows, env.hash(q.spec.key), p.displaced, 0)
  {
    hide Slot, ProbeFor;
    var hash := env.hash(q.spec.key);
    var p := ProbeFor(s.rows, hash, q.spec, q.replaceEqual);
    DisplacedHoldMatch(s.rows, hash, q.spec, q.replaceEqual);
    var i := Slot(hash, p.depth);
    StillOccupied(s.rows, hash, p.displaced, 0, Finalised(s.rows[i], q.spec, q.reply), p.depth);
  }

  lemma SteadyApply(env: Env, s: State, op: Op)
    requires |s.rows| == ROWS && Steady(env, s, op)
    ensures Apply(env, s, op).lost == s.lost
  {
    hide Slot, ProbeFor, ClearDisplaced, UnsafeId, SteadyUnsub;
    if op.Add? {
      var q := op.q;
      var hash := env.hash(q.spec.key);
      var p := ProbeFor(s.rows, hash, q.spec, q.replaceEqual);
      if p.Place? && q.reply.Ok? {
        PlacedOccupied(env, s, q);
        if SteadyUnsub(p.displaced, q.unsub, 0) {
          ClearDisplacedSteady(Pushed(env, s, q, p.depth), hash, p.displaced, q.unsub, 0);
        }
      }
    }
  }

  /** Short of a reboot, an insertion keeps the tables in agreement exactly under that
      condition. */
  lemma AddAgreesIff(env: Env, s: State, q: Request)
    requires Valid(env, s) && !s.lost && FromCaller(q.spec) && Fresh(s, q.reply)
    requires !q.reply.Eio? && forall d :: !q.unsub(d).Eio?
    ensures var s' := Insert(env, s, q).0; Agree(s'.rows, s'.fw) <==> SteadyAdd(env, s, q)
  {
    hide Insert, Slot, ProbeFor, SteadyAdd, InWindow, Placed, Unique, Layered, Agree;
    InsertValid(env, s, q);
    if SteadyAdd(env, s, q) {
      SteadyApply(env, s, Add(q));
    } else {
      UnsteadyAdd(env, s, q);
    }
  }

  lemma UnsteadyAdd(env: Env, s: State, q: Request)
    requires Valid(env, s) && !s.lost && FromCaller(q.spec) && Fresh(s, q.reply) && !SteadyAdd(env, s, q)
    requires !q.reply.Eio? && forall d :: !q.unsub(d).Eio?
    ensures var s' := Insert(env, s, q).0; !Agree(s'.rows, s'.fw)
  {
    hide Slot, ProbeFor, InWindow, SteadyUnsub, ClearDisplaced, MakeId;
    var hash := env.hash(q.spec.key);
    var p := ProbeFor(s.rows, hash, q.spec, q.replaceEqual);
    var i := Slot(hash, p.depth);
    var row := s.rows[i];
    if q.reply.Ok? {
      var done := Pushed(env, s, q, p.depth);
      PlaceTaken(s.rows, hash, q.spec, q.replaceEqual);
      PlaceUsable(env, s, q.spec, q.replaceEqual, i);
      PushValid(env, s, i, q.spec, Finalised(row, q.spec, q.reply), q.reply);
      PlacedOccupied(env, s, q);
      hide Agree, Placed, Unique, Layered;
      ClearAgreesIff(env, done, hash, p.displaced, q.unsub, 0);
      ClearedIsInsert(env, s, q);
    } else {
      assert Shadows(row, s.fw);
      assert Insert(env, s, q).0.rows[i] == row && !Shadows(row, Insert(env, s, q).0.fw);
    }
  }

  lemma ClearedIsInsert(env: Env, s: State, q: Request)
    requires |s.rows| == ROWS && q.admission >= 0 && q.reply.Ok? && IsMcRecipient(q.spec)
    requires ProbeFor(s.rows, env.hash(q.spec.key), q.spec, q.replaceEqual).Place?
    requires var hash := env.hash(q.spec.key);
             var row := s.rows[Slot(hash, ProbeFor(s.rows, hash, q.spec, q.replaceEqual).depth)];
             !(row.Filter? && q.spec.pri == AUTO && row.spec.pri >= AUTO) && (row.Filter? || q.alloc)
    ensures var p := ProbeFor(s.rows, env.hash(q.spec.key), q.spec, q.replaceEqual);
            Insert(env, s, q).0 ==
            ClearDisplaced(Pushed(env, s, q, p.depth), env.hash(q.spec.key), p.displaced, q.unsub, 0).0
  {
    hide Slot, ProbeFor, ClearDisplaced, MakeId;
  }

  /** After any run from the empty table, whichever commands fail and whichever removals
      find their filter gone, every row holds one live handle and every live handle is on
      exactly one row. */
  lemma FailuresAgree(env: Env, ops: seq<Op>)
    requires AllAdmissible(env, INITIAL, ops) && AllSteady(env, INITIAL, ops)
    ensures var s := Run(env, INITIAL, ops); Agree(s.rows, s.fw)
  {
    InitialValid(env);
    hide Apply, Steady, Admissible, Placed, Unique, Layered, Agree;
    RunValid(env, INITIAL, ops);
    SteadyRun(env, INITIAL, ops);
  }

  /** Short of a reboot, a removal keeps the tables in agreement exactly under that condition. */
  lemma RemovalAgreesIff(env: Env, s: State, i: nat, mask: set<Priority>, reply: Reply, resetPending: bool)
    requires Valid(env, s) && !s.lost && i < ROWS && Fresh(s, reply) && !reply.Eio?
    ensures var s' := RemoveAt(env, s, i, mask, reply, resetPending).0;
            Agree(s'.rows, s'.fw) <==> SteadyRemoval(s.rows[i], mask, reply, resetPending)
  {
    hide InWindow;
    var s', row := RemoveAt(env, s, i, mask, reply, resetPending).0, s.rows[i];
    RemoveValid(env, s, i, mask, reply, resetPending);
    if !SteadyRemoval(row, mask, reply, resetPending) {
      assert Shadows(row, s.fw);
      if row.spec.over {
        assert s'.rows[i] == row && row.handle !in s'.fw;
        assert !Shadows(s'.rows[i], s'.fw);
      } else {
        assert row.handle in s'.fw && s'.rows == s.rows[i := Empty(false)];
        assert forall j :: !Carries(s'.rows, j, row.handle);
      }
    }
  }

  lemma RedirectAgreesIff(env: Env, s: State, id: nat, rss: Option<nat>, dmaq: nat, stack: nat, lookup: int,
          reply: Reply)
    requires Valid(env, s) && !s.lost && Fresh(s, reply) && !reply.Eio?
    ensures var s' := Redirect(s, id, rss, dmaq, stack, lookup, reply).0;
            Agree(s'.rows, s'.fw) <==> s.rows[UnsafeId(id)].Empty? || lookup < 0 || Plain(reply)
  {
    hide InWindow, UnsafeId;
    var i, s' := UnsafeId(id), Redirect(s, id, rss, dmaq, stack, lookup, reply).0;
    RedirectValid(env, s, id, rss, dmaq, stack, lookup, reply);
    if s.rows[i].Filter? && lookup >= 0 && reply.NoEnt? {
      assert Shadows(s.rows[i], s.fw);
      assert !Shadows(s'.rows[i], s'.fw);
    }
  }

  lemma {:induction false} SteadyRun(env: Env, s: State, ops: seq<Op>)
    requires |s.rows| == ROWS && AllSteady(env, s, ops)
    ensures Run(env, s, ops).lost == s.lost
    decreases |ops|
  {
    hide Apply, Steady;
    if ops == [] {
    } else {
      SteadyApply(env, s, ops[0]);
      SteadyRun(env, Apply(env, s, ops[0]), ops[1..]);
    }
  }

  lemma {:induction false} RunValid(env: Env, s: State, ops: seq<Op>)
    requires Valid(env, s) && AllAdmissible(env, s, ops)
    ensures Valid(env, Run(env, s, ops))
    decreases |ops|
  {
    hide Apply, Placed, Unique, Layered, Agree, Admissible;
    if ops == [] {
    } else {
      ApplyValid(env, s, ops[0]);
      RunValid(env, Apply(env, s, ops[0]), ops[1..]);
    }
  }

  // ----- A table where an automatic filter displaces an explicit one

  /** A required multicast filter alone in the table, one row past a free one. */
  lemma RequiredAlone(env: Env, key: Key) returns (s: State)
    requires env.hash(key) == 0 && key.mcast
    ensures Valid(env, s) && s.rows[1].Empty? && Explicit(s.rows[2], key) && s.rows[2].spec.pri == REQUIRED
  {
    var spec := Spec(key, REQUIRED, false, Action(5, false, 0, 0), 0);
    var row := Filter(spec, false, 7);
    InitialValid(env);
    SetRow(env, INITIAL.rows, 2, row);
    SetAgree(INITIAL.rows, map[], 2, row, 0, map[7 := FwFilter(key, spec.act, 0)]);
    s := State(INITIAL.rows[2 := row], map[7 := FwFilter(key, spec.act, 0)], false);
  }

  /** There the insertion of an automatic filter for the same match removes it. */
  lemma AutoDisplacesRequired(env: Env, key: Key) returns (s: State, q: Request)
    requires env.hash(key) == 0 && key.mcast
    ensures Valid(env, s) && q.spec.key == key && q.spec.pri == AUTO && Explicit(s.rows[2], key)
    ensures var rows' := Insert(env, s, q).0.rows;
            exists j :: 0 <= j < ROWS && Explicit(s.rows[j], key) && !KeptExplicit(s.rows, rows', key, j)
  {
    hide Insert, Valid;
    s := RequiredAlone(env, key);
    q := Request(Spec(key, AUTO, false, Action(0, false, 0, 0), 0), false, 0, true, Ok(8, false), _ => Ok(0, false));
    FirstIsFree(s.rows, q.spec);
    AutoMulticastSparesExplicit(env, s, q);
  }

  lemma FirstIsFree(rows: seq<Row>, spec: Spec)
    requires |rows| == ROWS && rows[1].Empty? && IsMcRecipient(spec) && spec.pri == AUTO
    ensures var p := ProbeFor(rows, 0, spec, false); p.Place? && Slot(0, p.depth) == 1
  {
    assert Slot(0, 1) == 1;
    assert At(Candidate, rows, 0, spec, false, 1);
    NoneOutranks(rows, spec, 1);
  }

  /** Nothing outranks an automatic filter: the check skips that priority. */
  lemma {:induction false} NoneOutranks(rows: seq<Row>, spec: Spec, d: nat)
    requires |rows| == ROWS && spec.pri == AUTO && d <= SEARCH_LIMIT
    ensures First(Outranking, rows, 0, spec, false, d) == SEARCH_LIMIT
    decreases SEARCH_LIMIT - d
  {
    hide Slot;
    if d == SEARCH_LIMIT {
    } else {
      NoneOutranks(rows, spec, d + 1);
    }
  }

  // ----- A field that replacement forgets

  /** A filter pushed into a free row: table and firmware have all that was asked for. */
  lemma NewFilterIs(env: Env, s: State, q: Request)
    requires Valid(env, s) && FromCaller(q.spec) && Insert(env, s, q).1 >= 0
    requires s.rows[UnsafeId(Insert(env, s, q).1)].Empty? && !q.spec.key.mcast
    ensures var (s', rc) := Insert(env, s, q);
            var row := s'.rows[UnsafeId(rc)];
            && row.Filter? && row.spec == q.spec && !row.stale
            && row.handle in s'.fw && s'.fw[row.handle] == FwFilter(q.spec.key, q.spec.act, q.spec.stack)
  {
    hide Slot, InWindow, First, UnsafeId;
    var hash := env.hash(q.spec.key);
    var p := ProbeFor(s.rows, hash, q.spec, q.replaceEqual);
    PlaceTaken(s.rows, hash, q.spec, q.replaceEqual);
    InsertAtId(env, s, q, p.depth, p.displaced);
  }

  /** After a unicast filter is replaced, the firmware uses the new stack identifier;
      the software row records it exactly when it was the same before. An automatic insert
      at an automatic or higher filter replaces nothing. */
  lemma ReplaceForgetsStack(env: Env, s: State, q: Request, i: nat)
    requires Valid(env, s) && !s.lost && FromCaller(q.spec) && Fresh(s, q.reply)
    requires !q.spec.key.mcast && i < ROWS && Holds(s.rows[i], q.spec.key)
    requires !(q.spec.pri == AUTO && s.rows[i].spec.pri >= AUTO)
    requires Insert(env, s, q).1 >= 0
    ensures var s' := Insert(env, s, q).0;
            var row := s'.rows[i];
            && row.Filter? && row.handle in s'.fw && s'.fw[row.handle].stack == q.spec.stack
            && (row.spec.stack == q.spec.stack <==> s.rows[i].spec.stack == q.spec.stack)
  {
    hide Slot, InWindow, First, At, MakeId;
    FoundByProbe(env, s, q.spec, q.replaceEqual, i);
  }

  // ----- Runs from the empty table that show these cases

  /** A plain unicast request at a priority, for a stack, that the firmware grants. */
  function Granted(key: Key, pri: Priority, stack: nat, handle: nat): Request
  {
    Request(Spec(key, pri, false, Action(0, false, 0, 0), stack), true, 0, true, Ok(handle, false), _ => Ok(0, false))
  }

  /** A match that the examples use: unicast, hashed to row 0. */
  predicate Example(env: Env, key: Key) { env.hash(key) == 0 && !key.mcast && !key.tx && key.vport == 0 }

  lemma FirstProbe(spec: Spec, replaceEqual: bool)
    requires !spec.key.mcast
    ensures ProbeFor(INITIAL.rows, 0, spec, replaceEqual) == Place(1, {}) && Slot(0, 1) == 1
  {
    hide ProbeFor, First;
    ProbeOnAbsent(INITIAL.rows, 0, spec, replaceEqual);
    assert Slot(0, 1) == 1;
    FirstAt(Free, INITIAL.rows, spec, replaceEqual);
  }

  lemma FirstAt(kind: Kind, rows: seq<Row>, spec: Spec, replaceEqual: bool)
    requires |rows| == ROWS && Is(kind, rows[1], spec, replaceEqual)
    ensures First(kind, rows, 0, spec, replaceEqual, 1) == 1
  {
    assert Slot(0, 1) == 1;
    assert At(kind, rows, 0, spec, replaceEqual, 1);
  }

  lemma FirstInsert(env: Env, key: Key, q: Request)
    requires Example(env, key) && q.spec.key == key && q.admission >= 0 && q.alloc && q.reply.Ok?
    ensures var (s, rc) := Insert(env, INITIAL, q);
            && rc >= 0 && s.rows == INITIAL.rows[1 := Filter(q.spec, false, q.reply.newHandle)] && !s.lost
            && s.fw == map[q.reply.newHandle := FwOf(q.spec)]
  {
    hide ProbeFor, ClearDisplaced, Slot;
    FirstProbe(q.spec, q.replaceEqual);
  }

  lemma SecondProbe(rows: seq<Row>, spec: Spec)
    requires |rows| == ROWS && !spec.key.mcast && Holds(rows[1], spec.key) && rows[1].spec.pri <= spec.pri
    ensures ProbeFor(rows, 0, spec, true) == Place(1, {}) && Slot(0, 1) == 1
  {
    hide First;
    assert Slot(0, 1) == 1;
    FirstAt(Match, rows, spec, true);
  }

  lemma SecondInsert(env: Env, key: Key, s: State, q: Request)
    requires Example(env, key) && q.spec.key == key && q.admission >= 0 && q.alloc && q.reply.Ok? && q.replaceEqual
    requires |s.rows| == ROWS && Holds(s.rows[1], key) && s.rows[1].spec.pri <= q.spec.pri
    requires !(q.spec.pri == AUTO && s.rows[1].spec.pri >= AUTO)
    ensures var (s', rc) := Insert(env, s, q);
            && rc >= 0 && s'.rows == s.rows[1 := Finalised(s.rows[1], q.spec, q.reply)]
            && s'.fw == FwPush(s, s.rows[1], q.spec, q.reply).fw
  {
    hide ProbeFor, ClearDisplaced, Slot;
    SecondProbe(s.rows, q.spec);
  }

  /** A hint is added and its row marked, an automatic filter replaces it, and the sweep
      takes the automatic filter away although it is as new as can be. */
  lemma RenewedIsSwept(env: Env, key: Key)
    requires Example(env, key)
    ensures var ops := [Add(Granted(key, HINT, 0, 7)), MarkRow(1),
                        Add(Granted(key, AUTO, 0, 8)), SweepOne(1, Ok(0, false), false)];
            && Run(env, INITIAL, ops[..3]).rows[1].Filter? && Run(env, INITIAL, ops[..3]).rows[1].spec.pri == AUTO
            && Run(env, INITIAL, ops).rows[1] == Empty(false)
  {
    var a, b := Granted(key, HINT, 0, 7), Granted(key, AUTO, 0, 8);
    var ops := [Add(a), MarkRow(1), Add(b), SweepOne(1, Ok(0, false), false)];
    FirstInsert(env, key, a);
    var s1 := Apply(env, INITIAL, ops[0]);
    var s2 := Apply(env, s1, ops[1]);
    assert s2.rows[1] == Filter(a.spec, true, 7);
    SecondInsert(env, key, s2, b);
    var s3 := Apply(env, s2, ops[2]);
    assert s3.rows[1].stale && s3.rows[1].spec.pri == AUTO && !s3.rows[1].spec.over;
    var s4 := Apply(env, s3, ops[3]);
    hide Apply;
    assert ops[..3] == [ops[0], ops[1], ops[2]] && ops == [ops[0], ops[1], ops[2], ops[3]];
    RunThree(env, INITIAL, ops[0], ops[1], ops[2]);
    RunThree(env, s1, ops[1], ops[2], ops[3]);
    assert ops[1..] == [ops[1], ops[2], ops[3]];
  }

  lemma RunTwo(env: Env, s: State, a: Op, b: Op)
    requires |s.rows| == ROWS
    ensures Run(env, s, [a, b]) == Apply(env, Apply(env, s, a), b)
  {
    hide Apply;
    assert [a, b][1..] == [b] && [b][1..] == [];
    assert Run(env, Apply(env, s, a), [b]) == Apply(env, Apply(env, s, a), b);
  }

  lemma RunThree(env: Env, s: State, a: Op, b: Op, c: Op)
    requires |s.rows| == ROWS
    ensures Run(env, s, [a, b, c]) == Apply(env, Apply(env, Apply(env, s, a), b), c)
  {
    hide Apply;
    assert [a, b, c][1..] == [b, c];
    RunTwo(env, Apply(env, s, a), b, c);
  }

  /** A manual filter replaced by one of another stack: the firmware has the new stack, the
      table the old one. */
  lemma StackIsForgotten(env: Env, key: Key)
    requires Example(env, key)
    ensures var s := Run(env, INITIAL, [Add(Granted(key, MANUAL, 1, 7)), Add(Granted(key, MANUAL, 2, 8))]);
            && s.rows[1].Filter? && s.rows[1].spec.stack == 1
            && s.rows[1].handle in s.fw && s.fw[s.rows[1].handle].stack == 2
  {
    var a, b := Granted(key, MANUAL, 1, 7), Granted(key, MANUAL, 2, 8);
    FirstInsert(env, key, a);
    var s1 := Apply(env, INITIAL, Add(a));
    SecondInsert(env, key, s1, b);
    RunTwo(env, INITIAL, Add(a), Add(b));
  }

  /** A manual filter over an automatic one whose handle the firmware denies: clearing all
      manual filters returns success and leaves it. */
  lemma ClearLeavesOne(env: Env, key: Key) returns (s: State)
    requires Example(env, key)
    ensures Valid(env, s) && s.rows[2].Filter? && s.rows[2].spec.pri == MANUAL
    ensures var (s', rc) := ClearFrom(env, s, 0, ClearMask(MANUAL), _ => NoEnt, false);
            rc == 0 && s'.rows[2] == s.rows[2]
  {
    var spec := Spec(key, MANUAL, true, Action(5, false, 0, 0), 0);
    var row := Filter(spec, false, 7);
    InitialValid(env);
    SetRow(env, INITIAL.rows, 2, row);
    SetAgree(INITIAL.rows, map[], 2, row, 0, map[7 := FwFilter(key, spec.act, 0)]);
    s := State(INITIAL.rows[2 := row], map[7 := FwFilter(key, spec.act, 0)], false);
    assert Valid(env, s);
    hide ClearFrom, Valid;
    ClearSucceeds(env, s, 0, ClearMask(MANUAL), _ => NoEnt);
    ClearRemovesMask(env, s, 0, ClearMask(MANUAL), _ => NoEnt, false);
  }
}
