/** The resource table of one file descriptor with the arrays it really has, as one
    thread uses it while no other interferes. */
module ResourceTableImpl {
  import opened Common
  import opened ResourceTable

  /** A resource, by number; `base` is false for one without an underlying resource. */
  datatype Resource = Resource(n: nat, base: bool)

  class Table {
    const fixed: array<Option<Resource>>
    var table: array<Option<Resource>>
    var size: nat
    var highwater: nat

    ghost predicate Valid()
      reads this, table
    {
      && fixed.Length == DEFAULT_SIZE
      && (table == fixed ==> size == DEFAULT_SIZE)
      && (table != fixed ==> size == MAX_SIZE)
      && table.Length == size && highwater <= size
      && (forall i :: 0 <= i < highwater ==> table[i].Some?)
      && forall i :: highwater <= i < size ==> table[i] == None
    }

    /** The resources in order of their indices. */
    ghost function Contents(): seq<Option<Resource>>
      requires Valid()
      reads this, table
    {
      table[..highwater]
    }

    constructor ()
      ensures Valid() && Contents() == [] && fresh(table) && table == fixed
    {
      fixed := new Option<Resource>[DEFAULT_SIZE](_ => None);
      table := fixed;
      size, highwater := DEFAULT_SIZE, 0;
    }

    method Lookup(index: nat) returns (rc: int, rs: Option<Resource>)
      requires Valid()
      ensures rc == if index >= |Contents()| then -EINVAL else if !Contents()[index].value.base then -ENOENT else 0
      ensures rc == 0 ==> rs == Contents()[index]
    {
      rs := None;
      if index >= highwater {
        return -EINVAL, rs;
      }
      if table[index] == None || !table[index].value.base {
        return -ENOENT, rs;
      }
      return 0, table[index];
    }

    /** `memory` says whether the new table can be allocated. */
    method Grow(memory: bool) returns (rc: int)
      requires Valid() && highwater == size
      modifies this
      ensures Valid() && Contents() == old(Contents())
      ensures rc == if old(size) == MAX_SIZE then -ENOSPC else if !memory then -ENOMEM else 0
      ensures rc == 0 ==> size == MAX_SIZE && fresh(table)
      ensures rc != 0 ==> table == old(table) && size == old(size)
    {
      if size == MAX_SIZE {
        return -ENOSPC;
      }
      if !memory {
        return -ENOMEM;
      }
      var larger := new Option<Resource>[MAX_SIZE](_ => None);
      for i := 0 to DEFAULT_SIZE
        invariant forall j :: 0 <= j < i ==> larger[j] == fixed[j]
        invariant forall j :: i <= j < MAX_SIZE ==> larger[j] == None
        modifies larger
      {
        larger[i] := fixed[i];
      }
      table := larger;
      size := MAX_SIZE;
      rc := 0;
    }

    /** A resource gets the next index and is found there; the table is full at 512. */
    method AllocateId(rs: Resource, memory: bool) returns (rc: int, index: nat)
      requires Valid()
      modifies this, table
      ensures Valid()
      ensures rc == if |old(Contents())| == MAX_SIZE then -ENOSPC
                    else if |old(Contents())| == DEFAULT_SIZE && old(size) == DEFAULT_SIZE && !memory then -ENOMEM
                    else 0
      ensures Contents() == old(Contents()) + if rc == 0 then [Some(rs)] else []
      ensures rc == 0 ==> index == |old(Contents())|
    {
      index := highwater;
      rc := 0;
      if index >= size {
        rc := Grow(memory);
        if rc < 0 {
          return;
        }
      }
      ghost var was := Contents();
      highwater := index + 1;
      table[index] := Some(rs);
      assert table[..highwater] == was + [Some(rs)];
    }

    /** Frees every resource once, in order of index. */
    method Destroy() returns (freed: seq<Resource>)
      requires Valid()
      modifies this, table
      ensures |freed| == |old(Contents())|
      ensures forall i :: 0 <= i < |freed| ==> Some(freed[i]) == old(Contents())[i]
      ensures forall i :: 0 <= i < table.Length ==> table[i] == None
    {
      freed := [];
      ghost var was := Contents();
      for i := 0 to highwater
        invariant table == old(table) && highwater == old(highwater) && size == old(size) && table.Length == size
        invariant |freed| == i && forall j :: 0 <= j < i ==> Some(freed[j]) == was[j]
        invariant forall j :: 0 <= j < i ==> table[j] == None
        invariant forall j :: i <= j < highwater ==> table[j] == was[j] && was[j].Some?
        invariant forall j :: highwater <= j < size ==> table[j] == None
      {
        freed := freed + [table[i].value];
        table[i] := None;
      }
    }
  }
}
