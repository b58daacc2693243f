/** The filter list as the char driver updates it, step by step. */
module FilterListImpl {
  import opened Common
  import opened FilterList

  class List {
    var nextId: NextId
    var wrapped: bool
    var filters: seq<Filter>
    /** What the layers below hold on behalf of this list. */
    ghost var installed: multiset<nat>
    ghost var unicastBlocks: int
    ghost var multicastBlocks: int

    ghost function Value(): State
      reads this
    {
      State(nextId, wrapped, filters, installed, unicastBlocks, multicastBlocks)
    }

    constructor ()
      ensures Value() == INIT && Inv(Value())
    {
      nextId, wrapped, filters := 1, false, [];
      installed, unicastBlocks, multicastBlocks := multiset{}, 0, 0;
    }

    method InUse(id: int) returns (used: bool)
      ensures used <==> id in Ids(filters)
    {
      used := false;
      for i := 0 to |filters|
        invariant forall j :: 0 <= j < i ==> filters[j].id != id
      {
        if filters[i].id == id {
          assert filters[i].id in Ids(filters);
          return true;
        }
      }
    }

    method GenId() returns (id: int)
      modifies `nextId, `wrapped
      ensures id == NewId(old(Value())) && Value() == AfterGen(old(Value()))
    {
      var next := nextId as int;
      if next == FILTER_ID_WRAP {
        next := 1;
        wrapped := true;
      }
      var initial := next;
      id := next;
      next := next + 1;
      ghost var cur := initial;
      while wrapped
        invariant IsId(initial) && IsId(cur) && id == cur && next == cur + 1
        invariant initial == FirstId(old(Value())) && wrapped == WillSearch(old(Value())) && filters == old(filters)
        invariant wrapped ==> NewId(old(Value())) == Search(Ids(filters), cur, initial)
        invariant !wrapped ==> cur == initial
        decreases Steps(cur, initial)
      {
        var used := InUse(id);
        if !used {
          break;
        }
        if next == FILTER_ID_WRAP {
          next := 1;
        }
        id := next;
        next := next + 1;
        if id == initial {
          nextId := next;
          return -ENOENT;
        }
        cur := id;
      }
      nextId := next;
    }

    /** Undoes what is recorded in a filter. */
    method Delete(f: Filter)
      modifies `installed, `unicastBlocks, `multicastBlocks
      ensures Value() == Removed(old(Value()), f)
    {
      if f.hw.Some? {
        installed := installed - multiset{f.hw.value};
      }
      if f.block.unicast || f.block.multicast {
        unicastBlocks := unicastBlocks - Count(f.block.unicast);
        multicastBlocks := multicastBlocks - Count(f.block.multicast);
      }
    }

    method FreeAll()
      modifies this
      ensures Value() == Free(old(Value()))
    {
      hide Removed;
      while filters != []
        invariant Free(Value()) == Free(old(Value()))
        decreases |filters|
      {
        var f := filters[0];
        filters := filters[1..];
        Delete(f);
      }
    }

    /** Gives a filter an id and lists it, or undoes it. */
    method ListFilter(f: Filter) returns (rc: int)
      modifies this
      ensures (Value(), rc) == Listed(old(Value()), f)
    {
      hide NewId;
      rc := GenId();
      if rc >= 0 {
        filters := filters + [f.(id := rc)];
      } else {
        Delete(f);
      }
    }

    method InsertFilter(f: Filter, skip: bool, insertRc: int) returns (rc: int)
      requires f.hw == None
      modifies this
      ensures (Value(), rc) == Inserted(old(Value()), f, skip, insertRc)
    {
      hide Listed;
      var g := f;
      if !skip {
        if insertRc < 0 {
          Delete(f);
          return insertRc;
        }
        installed := installed + multiset{insertRc};
        g := f.(hw := Some(insertRc));
      }
      rc := ListFilter(g);
    }

    /** The result is the new id where the source returns 0. */
    method DoRsopsAdd(kind: AddKind, a: Replies) returns (rc: int)
      modifies this
      ensures (Value(), rc) == RsopsAdd(old(Value()), kind, a)
      ensures old(Inv(Value())) ==> Inv(Value())
    {
      hide Inv, Inserted;
      ghost var op := OpRsopsAdd(kind, a);
      if Inv(Value()) {
        ApplyKeeps(Value(), op);
      }
      if !a.memory {
        return -ENOMEM;
      }
      var wanted := BlockFor(kind);
      var block := NO_BLOCK;
      if wanted != NO_BLOCK {
        if a.blockRc >= 0 {
          block := wanted;
          unicastBlocks := unicastBlocks + Count(block.unicast);
          multicastBlocks := multicastBlocks + Count(block.multicast);
        } else if a.blockRc != -EOPNOTSUPP {
          return a.blockRc;
        }
      }
      assert Value() == Blocked(old(Value()), block);
      rc := InsertFilter(Filter(0, None, block), BlockOnly(kind), a.insertRc);
    }

    method DoAdd(specRc: int, a: Replies) returns (rc: int)
      modifies this
      ensures (Value(), rc) == Add(old(Value()), specRc, a)
      ensures old(Inv(Value())) ==> Inv(Value())
    {
      hide Inv, Inserted;
      if Inv(Value()) {
        ApplyKeeps(Value(), OpAdd(specRc, a));
      }
      if specRc < 0 {
        return specRc;
      }
      if !a.memory {
        return -ENOMEM;
      }
      rc := InsertFilter(Filter(0, None, NO_BLOCK), false, a.insertRc);
    }

    method DoDel(id: int) returns (rc: int)
      modifies this
      ensures (Value(), rc) == Del(old(Value()), id)
      ensures old(Inv(Value())) ==> Inv(Value())
    {
      hide Inv, Removed, IndexOf;
      if Inv(Value()) {
        ApplyKeeps(Value(), OpDel(id));
      }
      var i := 0;
      while i < |filters| && filters[i].id != id
        invariant i <= |filters| && forall j :: 0 <= j < i ==> filters[j].id != id
      {
        i := i + 1;
      }
      if i == |filters| {
        return -EINVAL;
      }
      var f := filters[i];
      filters := filters[..i] + filters[i + 1..];
      Delete(f);
      rc := 0;
    }
  }
}
