/** The EF10 filter table: a software hash table with a bounded probe that
    shadows the write-only filter table of the firmware.

    The table is a value here; every operation is a function of the table and
    of the replies the firmware gives, so that a run is a fold over operations.
    FilterTableImpl holds the loops that compute these functions in place.
  */
module FilterTable {
  import opened Common

  const ROWS := 8192
  const SEARCH_LIMIT := 200
  const DMAQ_DROP := 0xfff

  const HINT: Priority := 1
  const AUTO: Priority := 2
  const MANUAL: Priority := 3
  const REQUIRED: Priority := 4

  const PRIORITIES: set<Priority> := {HINT, AUTO, MANUAL, REQUIRED}

  type Priority = p: nat | 1 <= p <= 4 witness 1

  /** What two specifications must share to have equal match values.  The
      fields behind `fields` (addresses, ports, VLANs, ...) are not looked into;
      `mcast` says whether they select a multicast or broadcast destination. */
  datatype Key = Key(mcast: bool, tx: bool, vport: nat, fields: int)

  /** Where matching packets go: queue, RSS use and context, remaining flags. */
  datatype Action = Action(dmaq: nat, rss: bool, rssContext: nat, opts: nat)

  /** A filter specification.  `over` is EFX_FILTER_FLAG_RX_OVER_AUTO. */
  datatype Spec = Spec(key: Key, pri: Priority, over: bool, act: Action, stack: nat)

  /** A table entry: the specification pointer (or null), the AUTO_OLD bit (`stale`) that
      is kept in the low bits of that pointer, and the firmware's handle. */
  datatype Row =
    | Empty(stale: bool)
    | Filter(spec: Spec, stale: bool, handle: nat)

  /** The firmware's side of one filter. */
  datatype FwFilter = FwFilter(key: Key, act: Action, stack: nat)

  /** `lost` records that the management controller rebooted (or was about to), or
      disowned the live handle of a row that stays: its filter table is no longer the one the driver built. */
  datatype State = State(rows: seq<Row>, fw: map<nat, FwFilter>, lost: bool)

  /** The hash of a key, the match priority of a key (negative when the firmware
      does not support the match), and whether the default RSS context is in use. */
  datatype Env = Env(hash: Key -> nat, matchPri: Key -> int, rssActive: bool)

  /** A firmware reply.  A successful insertion or replacement yields a handle:
      a fresh one, or for a replacement possibly the old one (`keep`). */
  datatype Reply =
    | Ok(newHandle: nat, keep: bool)
    | NoEnt
    | Eio
    | Fail(errno: OtherErrno)

  type OtherErrno = e: nat | e != 0 && e != ENOENT && e != EIO witness 1

  function Errno(r: Reply): int
  {
    match r
    case Ok(_, _) => 0
    case NoEnt => -ENOENT
    case Eio => -EIO
    case Fail(e) => -(e as int)
  }

  /** The return code of efx_ef10_filter_push: a full firmware table reads as -EBUSY. */
  function PushErrno(r: Reply): int
  {
    if Errno(r) == -ENOSPC then -EBUSY else Errno(r)
  }

  /** One insertion request: the specification, the replace_equal argument, the
      return code of the checks made before the probe (flags, match support, RSS
      context, virtual port, kernel block), whether kmalloc succeeds, the
      reply to the push, and the replies to the unsubscribe commands by depth. */
  datatype Request = Request(spec: Spec, replaceEqual: bool, admission: int,
                             alloc: bool, reply: Reply, unsub: nat -> Reply)

  predicate IsMcRecipient(spec: Spec) { spec.key.mcast && spec.act.dmaq != DMAQ_DROP }

  // ----- Filter identifiers

  function MakeId(pri: nat, idx: nat): nat { pri * ROWS * 2 + idx }
  function UnsafeId(id: nat): (idx: nat) ensures idx < ROWS { id % ROWS }
  function UnsafePri(id: nat): nat { id / (ROWS * 2) }

  // ----- The probe

  /** The row examined at a probe depth; the sum is a 32-bit sum. */
  function Slot(hash: nat, depth: nat): (i: nat)
    ensures i < ROWS
  {
    ((hash + depth) % U32) % ROWS
  }

  predicate Holds(row: Row, key: Key) { row.Filter? && row.spec.key == key }

  predicate Outranked(row: Row, spec: Spec)
  {
    Holds(row, spec.key) && spec.pri < row.spec.pri && spec.pri != AUTO
  }

  /** A multicast row that the new filter takes the place of. */
  predicate Displaces(spec: Spec, replaceEqual: bool, row: Row)
  {
    && Holds(row, spec.key)
    && (spec.pri > row.spec.pri || (spec.pri == row.spec.pri && replaceEqual) || spec.pri == AUTO)
  }

  datatype Kind = Match | Free | Candidate | Outranking

  predicate Is(kind: Kind, row: Row, spec: Spec, replaceEqual: bool)
  {
    match kind
    case Match => Holds(row, spec.key)
    case Free => row.Empty?
    case Candidate => row.Empty? || Displaces(spec, replaceEqual, row)
    case Outranking => Outranked(row, spec)
  }

  predicate At(kind: Kind, rows: seq<Row>, hash: nat, spec: Spec, replaceEqual: bool, d: nat)
    requires |rows| == ROWS
  {
    Is(kind, rows[Slot(hash, d)], spec, replaceEqual)
  }

  /** The least depth from `d` on whose row is of the given kind, or SEARCH_LIMIT. */
  function First(kind: Kind, rows: seq<Row>, hash: nat, spec: Spec, replaceEqual: bool, d: nat): (f: nat)
    requires |rows| == ROWS && d <= SEARCH_LIMIT
    ensures d <= f <= SEARCH_LIMIT
    ensures f < SEARCH_LIMIT ==> At(kind, rows, hash, spec, replaceEqual, f)
    ensures forall e :: d <= e < f ==> !At(kind, rows, hash, spec, replaceEqual, e)
    decreases SEARCH_LIMIT - d
  {
    if d == SEARCH_LIMIT || At(kind, rows, hash, spec, replaceEqual, d) then d
    else First(kind, rows, hash, spec, replaceEqual, d + 1)
  }

  datatype Probe = Refused(errno: nat) | Place(depth: nat, displaced: set<nat>)

  /** Where an insertion goes, said without the order in which rows are visited:
      a unicast filter goes to the row with the same match if there is one; a
      multicast recipient goes to the first row that is free or displaced, and
      every later displaced row is to be removed. */
  function ProbeFor(rows: seq<Row>, hash: nat, spec: Spec, replaceEqual: bool): (p: Probe)
    requires |rows| == ROWS
    ensures p.Place? ==> 1 <= p.depth < SEARCH_LIMIT
    ensures p.Place? ==> forall d :: d in p.displaced ==> p.depth < d < SEARCH_LIMIT
  {
    if IsMcRecipient(spec) then
      if First(Outranking, rows, hash, spec, replaceEqual, 1) < SEARCH_LIMIT then Refused(EPERM)
      else
        var c := First(Candidate, rows, hash, spec, replaceEqual, 1);
        if c == SEARCH_LIMIT then Refused(EBUSY)
        else Place(c, set d: nat | c < d < SEARCH_LIMIT && Displaces(spec, replaceEqual, rows[Slot(hash, d)]))
    else
      var m := First(Match, rows, hash, spec, replaceEqual, 1);
      if m < SEARCH_LIMIT then
        var found := rows[Slot(hash, m)];
        if Outranked(found, spec) then Refused(EPERM)
        else if spec.pri == found.spec.pri && !replaceEqual then Refused(EEXIST)
        else Place(m, {})
      else
        var e := First(Free, rows, hash, spec, replaceEqual, 1);
        if e == SEARCH_LIMIT then Refused(EBUSY) else Place(e, {})
  }

  // ----- Firmware commands

  function FwOf(spec: Spec): FwFilter { FwFilter(spec.key, spec.act, spec.stack) }

  /** Insert (row empty) or replace (row occupied) a filter in the firmware. */
  function FwPush(s: State, row: Row, spec: Spec, reply: Reply): State
  {
    match reply
    case Ok(_, _) =>
      var rest := if row.Filter? then s.fw - {row.handle} else s.fw;
      s.(fw := rest[NewHandle(row, reply) := FwOf(spec)])
    case NoEnt => if row.Filter? then Disowned(s, row.handle) else s
    case Eio => s.(fw := map[], lost := true)
    case Fail(_) => s
  }

  /** The firmware says that it does not know the handle of a row that stays. */
  function Disowned(s: State, handle: nat): State
  {
    s.(fw := s.fw - {handle}, lost := s.lost || handle in s.fw)
  }

  function NewHandle(row: Row, reply: Reply): nat
    requires reply.Ok?
  {
    if row.Filter? && reply.keep then row.handle else reply.newHandle
  }

  /** Remove a filter in the firmware. */
  function FwRemove(s: State, handle: nat, reply: Reply): State
  {
    match reply
    case Ok(_, _) => s.(fw := s.fw - {handle})
    case NoEnt => s.(fw := s.fw - {handle})
    case Eio => s.(fw := map[], lost := true)
    case Fail(_) => s
  }

  /** Unsubscribe a displaced multicast recipient, whose row stays unless that succeeds. */
  function FwUnsubscribe(s: State, handle: nat, reply: Reply): State
  {
    if reply.NoEnt? then Disowned(s, handle) else FwRemove(s, handle, reply)
  }

  // ----- Insertion

  /** An automatic insert that finds an automatic or higher filter in place. */
  function Renewed(row: Row): Row
    requires row.Filter?
  {
    row.(spec := row.spec.(over := row.spec.over || row.spec.pri > AUTO), stale := false)
  }

  /** The entry after a successful push.  A replaced entry keeps its specification
      object, of which only some fields are updated: the stack identifier is not. */
  function Finalised(row: Row, spec: Spec, reply: Reply): Row
    requires reply.Ok?
  {
    if row.Filter? then
      Filter(row.spec.(over := row.spec.over || row.spec.pri == AUTO || spec.over,
                       pri := spec.pri, act := spec.act),
             row.stale, NewHandle(row, reply))
    else
      Filter(spec, false, reply.newHandle)
  }

  /** Unsubscribe the displaced rows in order of depth, stopping at the first error. */
  function ClearDisplaced(s: State, hash: nat, displaced: set<nat>, unsub: nat -> Reply, d: nat): (r: (State, int))
    requires |s.rows| == ROWS && d <= SEARCH_LIMIT
    ensures |r.0.rows| == ROWS
    decreases SEARCH_LIMIT - d
  {
    if d == SEARCH_LIMIT then (s, 0)
    else if d !in displaced || s.rows[Slot(hash, d)].Empty? then ClearDisplaced(s, hash, displaced, unsub, d + 1)
    else
      var i := Slot(hash, d);
      var s' := FwUnsubscribe(s, s.rows[i].handle, unsub(d));
      if unsub(d).Ok? then
        ClearDisplaced(s'.(rows := s'.rows[i := Empty(false)]), hash, displaced, unsub, d + 1)
      else (s', Errno(unsub(d)))
  }

  function InsertAt(env: Env, s: State, q: Request, depth: nat, displaced: set<nat>): (r: (State, int))
    requires |s.rows| == ROWS
    ensures |r.0.rows| == ROWS
  {
    var hash := env.hash(q.spec.key);
    var i := Slot(hash, depth);
    var row := s.rows[i];
    if row.Filter? && q.spec.pri == AUTO && row.spec.pri >= AUTO then
      (s.(rows := s.rows[i := Renewed(row)]), i)
    else if row.Empty? && !q.alloc then (s, -ENOMEM)
    else
      var pushed := FwPush(s, row, q.spec, q.reply);
      if !q.reply.Ok? then
        (pushed.(rows := if row.Empty? then s.rows[i := Empty(false)] else s.rows), PushErrno(q.reply))
      else
        var done := pushed.(rows := s.rows[i := Finalised(row, q.spec, q.reply)]);
        var cleared := if IsMcRecipient(q.spec) then ClearDisplaced(done, hash, displaced, q.unsub, 0) else (done, 0);
        if cleared.1 < 0 then cleared
        else
          var pri := env.matchPri(q.spec.key);
          (cleared.0, MakeId(if pri < 0 then 0 else pri, i))
  }

  /** efx_ef10_filter_insert_locked: the new state and the return code. */
  function Insert(env: Env, s: State, q: Request): (r: (State, int))
    requires |s.rows| == ROWS
    ensures |r.0.rows| == ROWS
  {
    if q.admission < 0 then (s, q.admission)
    else
      match ProbeFor(s.rows, env.hash(q.spec.key), q.spec, q.replaceEqual)
      case Refused(e) => (s, -(e as int))
      case Place(depth, displaced) => InsertAt(env, s, q, depth, displaced)
  }

  // ----- Removal

  /** The automatic filter that an overriding filter is reset to. */
  function ResetToAuto(env: Env, spec: Spec): Spec
  {
    Spec(spec.key.(tx := false, vport := 0), AUTO, false, Action(0, env.rssActive, 0, 0), spec.stack)
  }

  /** efx_ef10_filter_remove_internal on a row, by index. */
  function RemoveAt(env: Env, s: State, i: nat, mask: set<Priority>, reply: Reply, resetPending: bool)
    : (r: (State, int))
    requires |s.rows| == ROWS && i < ROWS
    ensures |r.0.rows| == ROWS
    ensures r.1 <= 0
  {
    var row := s.rows[i];
    if row.Empty? then (s, -ENOENT)
    else if row.spec.over && mask == {AUTO} then
      (s.(rows := s.rows[i := row.(spec := row.spec.(over := false), stale := false)]), 0)
    else if row.spec.pri !in mask then (s, -ENOENT)
    else if row.spec.over then
      var auto := ResetToAuto(env, row.spec);
      var pushed := FwPush(s, row, auto, reply);
      if reply.Ok? then
        (pushed.(rows := s.rows[i := Filter(auto, row.stale, NewHandle(row, reply))]), 0)
      else (pushed, PushErrno(reply))
    else
      var gone := FwRemove(s, row.handle, reply);
      if !reply.Fail? || resetPending then
        (gone.(rows := s.rows[i := Empty(false)], lost := gone.lost || (reply.Fail? && resetPending)), Errno(reply))
      else (gone, Errno(reply))
  }

  /** efx_ef10_filter_remove_safe: removal by identifier. */
  function RemoveById(env: Env, s: State, id: nat, pri: Priority, reply: Reply, resetPending: bool): (r: (State, int))
    requires |s.rows| == ROWS
    ensures |r.0.rows| == ROWS
  {
    var row := s.rows[UnsafeId(id)];
    if row.Filter? && env.matchPri(row.spec.key) != UnsafePri(id) then (s, -ENOENT)
    else RemoveAt(env, s, UnsafeId(id), {pri}, reply, resetPending)
  }

  /** efx_ef10_filter_redirect once its RSS context and port have been looked up
      (`lookup` is the outcome of that). */
  function Redirect(s: State, id: nat, rssContext: Option<nat>, dmaq: nat, stack: nat, lookup: int,
                    reply: Reply): (r: (State, int))
    requires |s.rows| == ROWS
    ensures |r.0.rows| == ROWS
  {
    var i := UnsafeId(id);
    var row := s.rows[i];
    if row.Empty? then (s, -ENOENT)
    else if lookup < 0 then (s, lookup)
    else
      var act := row.spec.act.(dmaq := dmaq, rss := rssContext.Some?,
                               rssContext := if rssContext.Some? then rssContext.value else row.spec.act.rssContext);
      var spec := row.spec.(act := act, stack := stack);
      var pushed := FwPush(s, row, spec, reply);
      if reply.Ok? then (pushed.(rows := s.rows[i := Filter(spec, row.stale, NewHandle(row, reply))]), 0)
      else (pushed, PushErrno(reply))
  }

  // ----- Mark and sweep of automatic filters; clearing by priority

  function Mark(s: State, i: nat): (r: State)
    requires |s.rows| == ROWS && i < ROWS
    ensures |r.rows| == ROWS
  {
    s.(rows := s.rows[i := s.rows[i].(stale := true)])
  }

  function SweepRow(env: Env, s: State, i: nat, reply: Reply, resetPending: bool): (r: State)
    requires |s.rows| == ROWS && i < ROWS
    ensures |r.rows| == ROWS
  {
    if s.rows[i].stale then RemoveAt(env, s, i, {AUTO}, reply, resetPending).0 else s
  }

  /** efx_ef10_filter_remove_old, up to row `n`. */
  function Sweep(env: Env, s: State, n: nat, replies: nat -> Reply, resetPending: bool): (r: State)
    requires |s.rows| == ROWS && n <= ROWS
    ensures |r.rows| == ROWS
  {
    if n == 0 then s
    else SweepRow(env, Sweep(env, s, n - 1, replies, resetPending), n - 1, replies(n - 1), resetPending)
  }

  /** The priorities that efx_ef10_filter_clear_rx removes. */
  function ClearMask(pri: Priority): set<Priority>
  {
    set p | p in PRIORITIES && p <= pri && p != AUTO
  }

  /** efx_ef10_filter_clear_rx from row `i` on: stops at the first real failure. */
  function ClearFrom(env: Env, s: State, i: nat, mask: set<Priority>, replies: nat -> Reply,
                     resetPending: bool): (r: (State, int))
    requires |s.rows| == ROWS && i <= ROWS
    ensures |r.0.rows| == ROWS
    decreases ROWS - i
  {
    if i == ROWS then (s, 0)
    else
      var (s', rc) := RemoveAt(env, s, i, mask, replies(i), resetPending);
      if rc != 0 && rc != -ENOENT then (s', rc)
      else ClearFrom(env, s', i + 1, mask, replies, resetPending)
  }
}
