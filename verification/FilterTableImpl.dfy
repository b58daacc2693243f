/** The filter table as the driver keeps it: an array of entries updated in
    place, with the loops of ef10.c.  Each method computes the function of the
    same operation in FilterTable. */
module FilterTableImpl {
  import opened Common
  import opened FilterTable

  const ID_INVALID: nat := 0xffff

  class Table {
    const env: Env
    const entry: array<Row>
    // The firmware's side, which the driver cannot read back.
    ghost var fw: map<nat, FwFilter>
    ghost var lost: bool

    ghost predicate Ready() { entry.Length == ROWS }

    ghost function Value(): State
      reads this, entry
    {
      State(entry[..], fw, lost)
    }

    constructor (env: Env)
      ensures this.env == env && Ready() && fresh(entry)
      ensures Value() == State(seq(ROWS, _ => Empty(false)), map[], false)
    {
      this.env := env;
      entry := new Row[ROWS](_ => Empty(false));
      fw := map[];
      lost := false;
      new;
      assert entry[..] == seq(ROWS, _ => Empty(false));
    }

    /** One pass over the window, stopping early at a unicast match. */
    method Probe(spec: Spec, replaceEqual: bool) returns (p: Probe)
      requires Ready()
      ensures p == ProbeFor(entry[..], env.hash(spec.key), spec, replaceEqual)
    {
      hide Slot, ProbeFor;
      var hash := env.hash(spec.key);
      var mc := IsMcRecipient(spec);
      var ins: int := -1;
      var remMap: set<nat> := {};
      var depth := 1;
      ghost var kind := UsableAs(spec);
      while depth < SEARCH_LIMIT
        invariant 1 <= depth <= SEARCH_LIMIT
        invariant forall e :: 1 <= e < depth ==>
                    !At(StopAt(spec), entry[..], hash, spec, replaceEqual, e)
        invariant ins == -1 ==> forall e :: 1 <= e < depth ==> !At(kind, entry[..], hash, spec, replaceEqual, e)
        invariant ins != -1 ==> 1 <= ins < depth && At(kind, entry[..], hash, spec, replaceEqual, ins)
        invariant ins != -1 ==> forall e :: 1 <= e < ins ==> !At(kind, entry[..], hash, spec, replaceEqual, e)
        invariant !mc ==> remMap == {}
        invariant forall d :: d in remMap <==>
                    mc && 0 <= ins < d < depth && Displaces(spec, replaceEqual, entry[..][Slot(hash, d)])
      {
        var saved := entry[Slot(hash, depth)];
        assert saved == entry[..][Slot(hash, depth)];
        if saved.Empty? {
          if ins < 0 {
            ins := depth;
          }
        } else if saved.spec.key == spec.key {
          if spec.pri < saved.spec.pri && spec.pri != AUTO {
            ProbeMatched(entry[..], hash, spec, replaceEqual, depth);
            return Refused(EPERM);
          }
          if !mc {
            ProbeMatched(entry[..], hash, spec, replaceEqual, depth);
            if spec.pri == saved.spec.pri && !replaceEqual {
              return Refused(EEXIST);
            }
            return Place(depth, {});
          } else if spec.pri > saved.spec.pri || (spec.pri == saved.spec.pri && replaceEqual) || spec.pri == AUTO {
            if ins < 0 {
              ins := depth;
            } else {
              remMap := remMap + {depth};
            }
          }
        }
        depth := depth + 1;
      }
      ProbeExhausted(entry[..], hash, spec, replaceEqual, ins, remMap);
      p := if ins < 0 then Refused(EBUSY) else Place(ins, remMap);
    }

    /** The bookkeeping after the probe: reuse or create the entry, push it to the
        firmware, finalise it, and unsubscribe displaced multicast recipients. */
    method InsertAtPlace(q: Request, depth: nat, displaced: set<nat>) returns (rc: int)
      requires Ready()
      modifies this`fw, this`lost, entry
      ensures (Value(), rc) == InsertAt(env, old(Value()), q, depth, displaced)
    {
      hide Slot, MakeId;
      var hash := env.hash(q.spec.key);
      var i := Slot(hash, depth);
      var saved := entry[i];
      ghost var before := Value();
      if saved.Filter? && q.spec.pri == AUTO && saved.spec.pri >= AUTO {
        if saved.spec.pri > AUTO {
          entry[i] := entry[i].(spec := entry[i].spec.(over := true));
        }
        entry[i] := entry[i].(stale := false);
        assert entry[..] == before.rows[i := Renewed(saved)];
        return i;
      }
      var replacing := saved.Filter?;
      if !replacing && !q.alloc {
        return -ENOMEM;
      }
      ghost var pushed := FwPush(before, saved, q.spec, q.reply);
      fw, lost := pushed.fw, pushed.lost;
      rc := PushErrno(q.reply);
      if rc == 0 {
        if replacing {
          var spec := saved.spec;
          if spec.pri == AUTO {
            spec := spec.(over := true);
          }
          spec := spec.(pri := q.spec.pri, over := spec.over || q.spec.over, act := q.spec.act);
          entry[i] := Filter(spec, saved.stale, NewHandle(saved, q.reply));
        } else {
          entry[i] := Filter(q.spec, false, q.reply.newHandle);
        }
        assert entry[..] == before.rows[i := Finalised(saved, q.spec, q.reply)];
      } else {
        if !replacing {
          entry[i] := Empty(false);
          assert entry[..] == before.rows[i := Empty(false)];
        }
        return;
      }
      if IsMcRecipient(q.spec) {
        rc := Unsubscribe(hash, displaced, q.unsub);
      }
      if rc == 0 {
        var pri := env.matchPri(q.spec.key);
        rc := MakeId(if pri < 0 then 0 else pri, i);
      }
    }

    /** Remove displaced multicast recipients; after an error the rest are left. */
    method Unsubscribe(hash: nat, displaced: set<nat>, unsub: nat -> Reply) returns (rc: int)
      requires Ready()
      modifies this`fw, this`lost, entry
      ensures (Value(), rc) == ClearDisplaced(old(Value()), hash, displaced, unsub, 0)
      ensures rc <= 0
    {
      hide Slot;
      rc := 0;
      ghost var done := Value();
      var depth := 0;
      while depth < SEARCH_LIMIT
        invariant depth <= SEARCH_LIMIT && rc <= 0
        invariant ClearDisplaced(done, hash, displaced, unsub, 0) ==
                  if rc == 0 then ClearDisplaced(Value(), hash, displaced, unsub, depth) else (Value(), rc)
      {
        if depth in displaced {
          var i := Slot(hash, depth);
          var saved := entry[i];
          if rc == 0 && saved.Filter? {
            ghost var removed := FwUnsubscribe(Value(), saved.handle, unsub(depth));
            fw, lost := removed.fw, removed.lost;
            rc := Errno(unsub(depth));
            if rc == 0 {
              entry[i] := Empty(false);
              assert entry[..] == removed.rows[i := Empty(false)];
            }
          }
        }
        depth := depth + 1;
      }
    }

    method InsertLocked(q: Request) returns (rc: int)
      requires Ready()
      modifies this`fw, this`lost, entry
      ensures (Value(), rc) == Insert(env, old(Value()), q)
    {
      hide ProbeFor, InsertAt;
      if q.admission < 0 {
        return q.admission;
      }
      var p := Probe(q.spec, q.replaceEqual);
      match p
      case Refused(e) => rc := -(e as int);
      case Place(depth, displaced) => rc := InsertAtPlace(q, depth, displaced);
    }

    method RemoveInternal(i: nat, mask: set<Priority>, reply: Reply, resetPending: bool) returns (rc: int)
      requires Ready() && i < ROWS
      modifies this`fw, this`lost, entry
      ensures (Value(), rc) == RemoveAt(env, old(Value()), i, mask, reply, resetPending)
    {
      var row := entry[i];
      ghost var before := Value();
      if row.Empty? {
        return -ENOENT;
      }
      if row.spec.over && mask == {AUTO} {
        entry[i] := row.(spec := row.spec.(over := false));
        entry[i] := entry[i].(stale := false);
        assert entry[..] == before.rows[i := row.(spec := row.spec.(over := false), stale := false)];
        return 0;
      }
      if row.spec.pri !in mask {
        return -ENOENT;
      }
      if row.spec.over {
        var auto := ResetToAuto(env, row.spec);
        ghost var pushed := FwPush(before, row, auto, reply);
        fw, lost := pushed.fw, pushed.lost;
        rc := PushErrno(reply);
        if rc == 0 {
          entry[i] := Filter(auto, row.stale, NewHandle(row, reply));
          assert entry[..] == before.rows[i := Filter(auto, row.stale, NewHandle(row, reply))];
        }
      } else {
        ghost var gone := FwRemove(before, row.handle, reply);
        fw, lost := gone.fw, gone.lost || (reply.Fail? && resetPending);
        rc := Errno(reply);
        if rc == 0 || rc == -ENOENT || rc == -EIO || resetPending {
          entry[i] := Empty(false);
          assert entry[..] == before.rows[i := Empty(false)];
        }
      }
    }

    method RemoveOld(replies: nat -> Reply, resetPending: bool)
      requires Ready()
      modifies this`fw, this`lost, entry
      ensures Value() == Sweep(env, old(Value()), ROWS, replies, resetPending)
    {
      hide RemoveAt;
      var i := 0;
      while i < ROWS
        invariant i <= ROWS
        invariant Value() == Sweep(env, old(Value()), i, replies, resetPending)
      {
        if entry[i].stale {
          var _ := RemoveInternal(i, {AUTO}, replies(i), resetPending);
        }
        i := i + 1;
      }
    }

    method ClearRx(pri: Priority, replies: nat -> Reply, resetPending: bool) returns (rc: int)
      requires Ready()
      modifies this`fw, this`lost, entry
      ensures (Value(), rc) == ClearFrom(env, old(Value()), 0, ClearMask(pri), replies, resetPending)
    {
      hide RemoveAt;
      var mask := ClearMask(pri);
      rc := 0;
      var i := 0;
      while i < ROWS
        invariant i <= ROWS && rc == 0
        invariant ClearFrom(env, old(Value()), 0, mask, replies, resetPending) ==
                  ClearFrom(env, Value(), i, mask, replies, resetPending)
      {
        rc := RemoveInternal(i, mask, replies(i), resetPending);
        if rc != 0 && rc != -ENOENT {
          return;
        }
        rc := 0;
        i := i + 1;
      }
    }

    method RedirectFilter(id: nat, rssContext: Option<nat>, dmaq: nat, stack: nat, lookup: int,
            reply: Reply) returns (rc: int)
      requires Ready()
      modifies this`fw, this`lost, entry
      ensures (Value(), rc) == Redirect(old(Value()), id, rssContext, dmaq, stack, lookup, reply)
    {
      hide UnsafeId;
      var i := UnsafeId(id);
      var row := entry[i];
      ghost var before := Value();
      if row.Empty? {
        return -ENOENT;
      }
      var spec := row.spec.(act := row.spec.act.(dmaq := dmaq), stack := stack);
      if rssContext.Some? {
        spec := spec.(act := spec.act.(rssContext := rssContext.value, rss := true));
      } else {
        spec := spec.(act := spec.act.(rss := false));
      }
      if lookup < 0 {
        return lookup;
      }
      ghost var pushed := FwPush(before, row, spec, reply);
      fw, lost := pushed.fw, pushed.lost;
      rc := PushErrno(reply);
      if rc == 0 {
        entry[i] := Filter(spec, row.stale, NewHandle(row, reply));
        assert entry[..] == before.rows[i := Filter(spec, row.stale, NewHandle(row, reply))];
      }
    }

    /** Marks the row a stored identifier names and forgets the identifier. */
    method MarkOneOld(id: nat) returns (id': nat)
      requires Ready()
      modifies entry
      ensures Value() == if id == ID_INVALID then old(Value()) else Mark(old(Value()), UnsafeId(id))
      ensures id' == ID_INVALID
    {
      id' := id;
      if id != ID_INVALID {
        var i := UnsafeId(id);
        entry[i] := entry[i].(stale := true);
        assert entry[..] == old(entry[..])[i := old(entry[i]).(stale := true)];
        id' := ID_INVALID;
      }
    }
  }

  // ----- The one-pass probe against its declarative form

  /** Rows that end the probe, and rows that the filter may be placed in. */
  function StopAt(spec: Spec): Kind { if IsMcRecipient(spec) then Outranking else Match }
  function UsableAs(spec: Spec): Kind { if IsMcRecipient(spec) then Candidate else Free }

  lemma ProbeMatched(rows: seq<Row>, hash: nat, spec: Spec, replaceEqual: bool, depth: nat)
    requires |rows| == ROWS && 1 <= depth < SEARCH_LIMIT && Holds(rows[Slot(hash, depth)], spec.key)
    requires !IsMcRecipient(spec) || Outranked(rows[Slot(hash, depth)], spec)
    requires forall e :: 1 <= e < depth ==>
               !At(StopAt(spec), rows, hash, spec, replaceEqual, e)
    ensures var found := rows[Slot(hash, depth)];
            ProbeFor(rows, hash, spec, replaceEqual) ==
            if Outranked(found, spec) then Refused(EPERM)
            else if spec.pri == found.spec.pri && !replaceEqual then Refused(EEXIST)
            else Place(depth, {})
  {
    hide Slot;
    var kind := StopAt(spec);
    assert At(kind, rows, hash, spec, replaceEqual, depth);
    assert First(kind, rows, hash, spec, replaceEqual, 1) <= depth;
  }

  lemma ProbeExhausted(rows: seq<Row>, hash: nat, spec: Spec, replaceEqual: bool, ins: int, remMap: set<nat>)
    requires |rows| == ROWS && (ins == -1 || 1 <= ins < SEARCH_LIMIT)
    requires forall e :: 1 <= e < SEARCH_LIMIT ==>
               !At(StopAt(spec), rows, hash, spec, replaceEqual, e)
    requires var kind := UsableAs(spec);
             && (ins != -1 ==> At(kind, rows, hash, spec, replaceEqual, ins))
             && (forall e :: 1 <= e < (if ins == -1 then SEARCH_LIMIT else ins) ==>
                 !At(kind, rows, hash, spec, replaceEqual, e))
    requires forall d :: d in remMap <==>
               IsMcRecipient(spec) && 0 <= ins < d < SEARCH_LIMIT && Displaces(spec, replaceEqual, rows[Slot(hash, d)])
    ensures ProbeFor(rows, hash, spec, replaceEqual) == if ins < 0 then Refused(EBUSY) else Place(ins, remMap)
  {
    hide Slot, First;
    var kind := UsableAs(spec);
    assert First(StopAt(spec), rows, hash, spec, replaceEqual, 1) == SEARCH_LIMIT;
    assert First(kind, rows, hash, spec, replaceEqual, 1) == if ins == -1 then SEARCH_LIMIT else ins;
    if IsMcRecipient(spec) && ins != -1 {
      assert remMap == set d: nat | ins < d < SEARCH_LIMIT && Displaces(spec, replaceEqual, rows[Slot(hash, d)]);
    }
  }
}
