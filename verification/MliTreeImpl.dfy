/** The dump buffer as the driver keeps it: two arrays indexed by page number, the
    pages themselves, and the fields handed to the firmware. */
module MliTreeImpl {
  import opened Common
  import opened MliTree

  /** Half of the dump identifier that marks the buffer as empty. */
  const CLEAR: nat := 0xFFFF_FFFF_FFFF_FFFF

  class DumpBuffer {
    const dataPages: nat
    var present: bool
    var addr: array?<seq<nat>>
    var dma: array?<nat>
    var totalPages: nat
    var root: nat
    var depth: nat
    /** DMA pages allocated and not freed, here and elsewhere. */
    ghost var held: set<nat>

    ghost predicate Valid()
      reads this, addr, dma
    {
      if present then
        && addr != null && dma != null && addr.Length == dma.Length == totalPages
        && Distinct(dma[..]) && Populated(addr[..], dataPages, dma[..])
        && depth == Depth(dataPages)
        && root == dma[StartOf(dataPages, 0, depth)]
      else addr == null && dma == null
    }

    constructor (n: nat, ghost h: set<nat>)
      ensures Valid() && !present && dataPages == n && held == h
    {
      dataPages := n;
      present, addr, dma, totalPages, root, depth, held := false, null, null, 0, 0, 0, h;
    }

    /** Counts the pages of all levels. */
    method CountPages() returns (total: nat, levels: nat)
      ensures total == Total(dataPages) && levels == Depth(dataPages)
    {
      levels := 0;
      var pgn: nat, levelPages: nat := 0, dataPages;
      while levelPages > 1
        invariant StartOf(levelPages, pgn, Depth(levelPages)) == StartOf(dataPages, 0, Depth(dataPages))
        invariant levels + Depth(levelPages) == Depth(dataPages)
        decreases levelPages
      {
        levels := levels + 1;
        pgn := pgn + levelPages;
        levelPages := IPages(levelPages);
      }
      total := pgn + 1;
    }

    method FreeBuffer()
      requires addr != null && dma != null ==> addr.Length == dma.Length == totalPages
      modifies this
      ensures Valid() && !present && totalPages == 0
      ensures held == old(held) -
                      if old(addr) == null || old(dma) == null then {}
                      else Owned(old(addr[..]), old(dma[..]), old(totalPages))
    {
      if addr != null && dma != null {
        var pgn := 0;
        while pgn < totalPages
          invariant pgn <= totalPages && addr == old(addr) && dma == old(dma) && totalPages == old(totalPages)
          invariant held == old(held) - Owned(addr[..], dma[..], pgn)
        {
          if addr[pgn] != [] {
            held := held - {dma[pgn]};
          }
          pgn := pgn + 1;
        }
      }
      addr, dma := null, null;
      present, root, depth, totalPages := false, 0, 0, 0;
    }

    /** Asks for one page after the other until all are there or one is refused. */
    method AllocPages(grants: seq<Option<nat>>) returns (ok: bool)
      requires addr != null && dma != null && addr.Length == dma.Length == totalPages == |grants|
      requires forall i :: 0 <= i < addr.Length ==> addr[i] == []
      requires Grants(grants, held)
      modifies this`held, addr, dma
      ensures Owned(addr[..], dma[..], totalPages) !! old(held)
      ensures held == old(held) + Owned(addr[..], dma[..], totalPages)
      ensures ok <==> forall i :: 0 <= i < |grants| ==> grants[i].Some?
      ensures ok ==>
        Distinct(dma[..]) && forall i :: 0 <= i < addr.Length ==> Zeroed(addr[i]) && grants[i] == Some(dma[i])
    {
      var pgn := 0;
      while pgn < totalPages
        invariant pgn <= totalPages
        invariant forall i :: 0 <= i < pgn ==> Zeroed(addr[i]) && grants[i] == Some(dma[i])
        invariant forall i :: pgn <= i < totalPages ==> addr[i] == []
        invariant held == old(held) + Owned(addr[..], dma[..], totalPages)
      {
        if grants[pgn].None? {
          return false;
        }
        ghost var mem, was := addr[..], dma[..];
        dma[pgn] := grants[pgn].value;
        addr[pgn] := seq(512, _ => 0);
        held := held + {dma[pgn]};
        OwnedGrows(mem, was, pgn, addr[pgn], dma[pgn]);
        assert addr[..] == mem[pgn := addr[pgn]] && dma[..] == was[pgn := dma[pgn]];
        pgn := pgn + 1;
      }
      ok := true;
    }

    /** Writes the address of every page into its slot on the level above. */
    method Populate() returns (top: nat)
      requires addr != null && dma != null && addr.Length == dma.Length == Total(dataPages)
      requires forall i :: 0 <= i < addr.Length ==> Zeroed(addr[i])
      modifies addr
      ensures forall i :: 0 <= i < addr.Length ==> |addr[i]| == 512
      ensures Populated(addr[..], dataPages, dma[..]) && top == StartOf(dataPages, 0, Depth(dataPages))
    {
      hide Entry, Written, Populated, SameAbove;
      var pgn: nat, levelPages: nat := 0, dataPages;
      ghost var n, d := dataPages, dma[..];
      NothingWritten(addr[..], n, d);
      while levelPages > 1
        invariant Written(addr[..], n, d, levelPages, pgn, 0) && SameAbove(n, d, levelPages, pgn)
        invariant StartOf(levelPages, pgn, Depth(levelPages)) == StartOf(n, 0, Depth(n))
        decreases levelPages
      {
        LevelInside(levelPages, pgn, 1);
        LevelInside(levelPages, pgn, 0);
        for s := 0 to levelPages
          invariant Written(addr[..], n, d, levelPages, pgn, s)
        {
          var row := pgn + levelPages + s / PAGE_N_ENTRIES;
          WriteOne(addr[..], n, d, levelPages, pgn, s);
          WrittenSizes(addr[..], n, d, levelPages, pgn, s);
          ghost var was := addr[..];
          addr[row] := addr[row][s % PAGE_N_ENTRIES := dma[pgn + s]];
          assert addr[..] == was[row := was[row][s % 512 := d[pgn + s]]];
        }
        LevelDone(addr[..], n, d, levelPages, pgn);
        pgn := pgn + levelPages;
        levelPages := IPages(levelPages);
      }
      WrittenSizes(addr[..], n, d, levelPages, pgn, 0);
      AllDone(addr[..], n, d, levelPages, pgn);
      top := pgn;
    }

    /** Allocates and links the whole buffer. `tables` says which of the two arrays
        could be allocated, `grants` what the DMA allocator answers. */
    method AllocBuffer(tables: (bool, bool), grants: seq<Option<nat>>) returns (rc: int)
      requires Valid() && |grants| == Total(dataPages) && Grants(grants, held)
      modifies this
      ensures Valid()
      ensures old(present) ==> rc == 0 && present && held == old(held)
      ensures !old(present) ==>
        rc == if tables.0 && tables.1 && forall i :: 0 <= i < |grants| ==> grants[i].Some? then 0 else -ENOMEM
      ensures present <==> rc == 0
      ensures !old(present) && rc == 0 ==> held == old(held) + Owned(addr[..], dma[..], totalPages)
      ensures rc != 0 ==> held == old(held)
    {
      hide Owned, Entry, StartOf, Populated, Distinct, Grants;
      if present {
        return 0;
      }
      var levels;
      totalPages, levels := CountPages();
      if !tables.0 {
        return -ENOMEM;
      }
      addr := new seq<nat>[totalPages](_ => []);
      if !tables.1 {
        FreeBuffer();
        return -ENOMEM;
      }
      dma := new nat[totalPages](_ => 0);
      var ok := AllocPages(grants);
      if !ok {
        FreeBuffer();
        return -ENOMEM;
      }
      ghost var mem := addr[..];
      var top := Populate();
      ghost var tree := addr[..];
      StampKeeps(tree, dataPages, dma[..], tree[0][0 := CLEAR][1 := CLEAR]);
      addr[0] := addr[0][0 := CLEAR][1 := CLEAR];
      assert addr[..] == tree[0 := tree[0][0 := CLEAR][1 := CLEAR]];
      OwnedAll(mem, addr[..], dma[..]);
      present, root, depth := true, dma[top], levels;
      rc := 0;
    }
  }

  lemma NothingWritten(mem: Memory, n: nat, dma: seq<nat>)
    requires forall r :: 0 <= r < |mem| ==> Zeroed(mem[r])
    ensures Written(mem, n, dma, n, 0, 0) && SameAbove(n, dma, n, 0)
  {
  }

  lemma WrittenSizes(mem: Memory, n: nat, dma: seq<nat>, size: nat, start: nat, s: nat)
    requires Written(mem, n, dma, size, start, s)
    ensures forall r :: 0 <= r < |mem| ==> |mem[r]| == 512
  {
  }

  /** The data pages are no part of the tree; their sizes are. */
  lemma StampKeeps(mem: Memory, n: nat, dma: seq<nat>, page: seq<nat>)
    requires Populated(mem, n, dma) && |page| == 512
    ensures Populated(mem[0 := page], n, dma)
  {
  }

  lemma OwnedAll(mem: Memory, mem': Memory, dma: seq<nat>)
    requires |mem| == |mem'| == |dma|
    requires forall r :: 0 <= r < |mem| ==> mem[r] != [] && mem'[r] != []
    ensures Owned(mem, dma, |mem|) == Owned(mem', dma, |mem|)
  {
  }
}
