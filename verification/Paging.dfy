/** The two-level page directory, refined to one flat map from page numbers to mappings.
 */
module Paging {
  import opened Division
  import opened Machine

  const PAGE_ENTRIES: nat := 1024

  datatype Entry = Entry(present: bool, rw: bool, user: bool, frame: nat)

  /** What a mapped page means: its frame and its rights. */
  datatype Mapping = Mapping(frame: nat, rw: bool, user: bool)

  // ----- the flat map -----

  type FlatMap = map<nat, Mapping>

  datatype Op = Map(virt: nat, phys: nat, flags: nat) | Unmap(virt: nat) {
    function Page(): nat { virt / PAGE_SIZE }
  }

  /** What map_page and unmap_page mean: one page gets a mapping, or loses it. Flag 1 is present,
      2 is writable, 4 is user. */
  function Apply(flat: FlatMap, op: Op): FlatMap {
    match op
    case Map(_, phys, flags) =>
      if flags % 2 == 1 then flat[op.Page() := Mapping(phys / PAGE_SIZE, flags / 2 % 2 == 1, flags / 4 % 2 == 1)]
      else flat - {op.Page()}
    case Unmap(_) => flat - {op.Page()}
  }

  function ApplyAll(flat: FlatMap, ops: seq<Op>): FlatMap
    decreases |ops|
  {
    if ops == [] then flat else ApplyAll(Apply(flat, ops[0]), ops[1..])
  }

  ghost predicate SameAt(a: FlatMap, b: FlatMap, page: nat) {
    (page in a <==> page in b) && (page in a ==> a[page] == b[page])
  }

  /** How an operation leaves its page: mapped to the frame of the physical address, with the rights of the flags,
      or not mapped. */
  ghost predicate LeftBy(op: Op, flat: FlatMap) {
    match op
    case Map(virt, phys, flags) =>
      && (virt / PAGE_SIZE in flat <==> flags % 2 == 1)
      && (flags % 2 == 1 ==>
            flat[virt / PAGE_SIZE] == Mapping(phys / PAGE_SIZE, flags / 2 % 2 == 1, flags / 4 % 2 == 1))
    case Unmap(virt) => virt / PAGE_SIZE !in flat
  }

  /** After any run, a page is mapped as the last operation on it says, whatever happened to it
      before; a page no operation names keeps its mapping. */
  lemma {:induction false} LastOperationDecides(flat: FlatMap, ops: seq<Op>, page: nat, last: int)
    requires -1 <= last < |ops|
    requires last >= 0 ==> ops[last].Page() == page
    requires forall i :: last < i < |ops| ==> ops[i].Page() != page
    ensures last < 0 ==> SameAt(ApplyAll(flat, ops), flat, page)
    ensures last >= 0 ==> LeftBy(ops[last], ApplyAll(flat, ops))
    decreases |ops|
  {
    if ops == [] {
    } else {
      var next := Apply(flat, ops[0]);
      LastOperationDecides(next, ops[1..], page, if last > 0 then last - 1 else -1);
      if last > 0 { assert ops[1..][last - 1] == ops[last]; }
    }
  }

  // ----- the directory -----

  class PageDirectory {
    /** Page table addresses, 0 for none, and the directory entries the hardware reads. */
    var tables: seq<nat>
    var entries: seq<Entry>
    /** The page tables in memory, by address. */
    var memory: map<nat, seq<Entry>>

    /** The directory as paging_init clears it, over memory that holds no page table yet. */
    constructor ()
      ensures Valid() && Flat() == map[] && memory == map[]
    {
      tables := seq(PAGE_ENTRIES, _ => 0);
      entries := seq(PAGE_ENTRIES, _ => Entry(false, false, false, 0));
      memory := map[];
    }

    /** A directory entry is present exactly when its table exists, and then names its frame; no two
        directory entries share a table. */
    ghost predicate Valid()
      reads this
    {
      && |tables| == |entries| == PAGE_ENTRIES
      && (forall t :: 0 <= t < PAGE_ENTRIES ==> (entries[t].present <==> tables[t] != 0))
      && (forall t :: 0 <= t < PAGE_ENTRIES && tables[t] != 0 ==>
            && tables[t] in memory && |memory[tables[t]]| == PAGE_ENTRIES
            && entries[t].frame == tables[t] / PAGE_SIZE && entries[t].rw && !entries[t].user)
      && (forall t, u :: 0 <= t < u < PAGE_ENTRIES && tables[t] != 0 ==> tables[t] != tables[u])
    }

    ghost predicate Mapped(page: nat)
      requires Valid()
      reads this
    {
      && page < PAGE_ENTRIES * PAGE_ENTRIES
      && tables[page / PAGE_ENTRIES] != 0
      && memory[tables[page / PAGE_ENTRIES]][page % PAGE_ENTRIES].present
    }

    ghost function Lookup(page: nat): Mapping
      requires Valid() && Mapped(page)
      reads this
    {
      var e := memory[tables[page / PAGE_ENTRIES]][page % PAGE_ENTRIES];
      Mapping(e.frame, e.rw, e.user)
    }

    /** The address space as one map. */
    ghost function Flat(): map<nat, Mapping>
      requires Valid()
      reads this
    {
      map page: nat | page < PAGE_ENTRIES * PAGE_ENTRIES && Mapped(page) :: Lookup(page)
    }

    /** Makes the table at `address`, whose memory held `stale`, the empty table number `t`. */
    method CreateTable(t: nat, address: nat, stale: seq<Entry>)
      requires Valid() && t < PAGE_ENTRIES && tables[t] == 0
      requires address != 0 && address % PAGE_SIZE == 0 && address !in memory && |stale| == PAGE_ENTRIES
      modifies this
      ensures Valid() && Flat() == old(Flat())
      ensures tables == old(tables)[t := address] && memory.Keys == old(memory).Keys + {address}
    {
      tables := tables[t := address];
      var table := stale;
      for i := 0 to PAGE_ENTRIES
        invariant |table| == PAGE_ENTRIES
        invariant forall j :: 0 <= j < i ==> !table[j].present
      {
        table := table[i := table[i].(present := false)];
      }
      memory := memory[address := table];
      entries := entries[t := Entry(true, true, false, address / PAGE_SIZE)];
      assert forall page: nat :: page < PAGE_ENTRIES * PAGE_ENTRIES ==> (Mapped(page) <==> old(Mapped(page)));
    }

    /** Maps one page, creating its table when there is none; `newTable` is what the aligned allocation of
        the new table returned and `stale` what its memory held. Exactly one page of the flat map
        changes. */
    method MapPage(virtAddr: nat, physAddr: nat, flags: nat, newTable: nat, stale: seq<Entry>)
      requires Valid() && virtAddr < TWO32 && physAddr < TWO32
      requires tables[virtAddr / PAGE_SIZE / PAGE_ENTRIES] == 0 ==>
                 newTable != 0 && newTable % PAGE_SIZE == 0 && newTable !in memory && |stale| == PAGE_ENTRIES
      modifies this
      ensures Valid()
      ensures Flat() == Apply(old(Flat()), Map(virtAddr, physAddr, flags))
      ensures Mapped(virtAddr / PAGE_SIZE) <==> flags % 2 == 1
      ensures flags % 2 == 1 ==>
                Lookup(virtAddr / PAGE_SIZE) == Mapping(physAddr / PAGE_SIZE, flags / 2 % 2 == 1, flags / 4 % 2 == 1)
      ensures memory.Keys == old(memory).Keys +
                if old(tables)[virtAddr / PAGE_SIZE / PAGE_ENTRIES] == 0 then {newTable} else {}
      ensures tables == if old(tables)[virtAddr / PAGE_SIZE / PAGE_ENTRIES] == 0
                        then old(tables)[virtAddr / PAGE_SIZE / PAGE_ENTRIES := newTable] else old(tables)
    {
      var pageIndex := virtAddr / PAGE_SIZE;
      var tableIndex, entryIndex := pageIndex / PAGE_ENTRIES, pageIndex % PAGE_ENTRIES;
      if tables[tableIndex] == 0 {
        CreateTable(tableIndex, newTable, stale);
      }
      StoreEntry(pageIndex, Entry(flags % 2 == 1, flags / 2 % 2 == 1, flags / 4 % 2 == 1, physAddr / PAGE_SIZE));
    }

    /** Writes the entry of one page whose table exists; every other page is looked up as before. */
    method WriteEntry(page: nat, e: Entry)
      requires Valid() && page < PAGE_ENTRIES * PAGE_ENTRIES && tables[page / PAGE_ENTRIES] != 0
      modifies this`memory
      ensures Valid() && memory.Keys == old(memory).Keys
      ensures Mapped(page) <==> e.present
      ensures e.present ==> Lookup(page) == Mapping(e.frame, e.rw, e.user)
      ensures forall q: nat :: q < PAGE_ENTRIES * PAGE_ENTRIES && q != page ==>
                (Mapped(q) <==> old(Mapped(q))) && (Mapped(q) ==> Lookup(q) == old(Lookup(q)))
    {
      var t, i := page / PAGE_ENTRIES, page % PAGE_ENTRIES;
      memory := memory[tables[t] := memory[tables[t]][i := e]];
      forall q: nat | q < PAGE_ENTRIES * PAGE_ENTRIES && q != page
        ensures Mapped(q) <==> old(Mapped(q))
        ensures Mapped(q) ==> Lookup(q) == old(Lookup(q))
      {
        if page / PAGE_ENTRIES == q / PAGE_ENTRIES && page % PAGE_ENTRIES == q % PAGE_ENTRIES {
          SplitIsInjective(PAGE_ENTRIES, page, q);
        }
      }
    }

    /** The same on the flat map. */
    method StoreEntry(page: nat, e: Entry)
      requires Valid() && page < PAGE_ENTRIES * PAGE_ENTRIES && tables[page / PAGE_ENTRIES] != 0
      modifies this`memory
      ensures Valid() && memory.Keys == old(memory).Keys
      ensures Flat() == if e.present then old(Flat())[page := Mapping(e.frame, e.rw, e.user)] else old(Flat()) - {page}
      ensures Mapped(page) <==> e.present
      ensures e.present ==> Lookup(page) == Mapping(e.frame, e.rw, e.user)
    {
      hide Valid, Mapped, Lookup;
      WriteEntry(page, e);
    }

    /** Unmaps one page; exactly that page leaves the flat map. */
    method UnmapPage(virtAddr: nat)
      requires Valid() && virtAddr < TWO32
      modifies this`memory
      ensures Valid() && Flat() == Apply(old(Flat()), Unmap(virtAddr)) && memory.Keys == old(memory).Keys
      ensures !Mapped(virtAddr / PAGE_SIZE)
    {
      var pageIndex := virtAddr / PAGE_SIZE;
      var tableIndex, entryIndex := pageIndex / PAGE_ENTRIES, pageIndex % PAGE_ENTRIES;
      if tables[tableIndex] != 0 {
        StoreEntry(pageIndex, memory[tables[tableIndex]][entryIndex].(present := false));
      } else {
        assert !Mapped(pageIndex);
      }
    }

    /** The identity mapping of paging_init: the first 1024 pages and nothing else. */
    method IdentityMap(newTable: nat, stale: seq<Entry>)
      requires Valid() && Flat() == map[] && |tables| == PAGE_ENTRIES && tables[0] == 0
      requires newTable != 0 && newTable % PAGE_SIZE == 0 && newTable !in memory && |stale| == PAGE_ENTRIES
      modifies this
      ensures Valid()
      ensures Flat() == map page: nat | page < 1024 :: Mapping(page, true, false)
    {
      hide Flat, Mapped, Valid;
      for i := 0 to 1024
        invariant Valid() && |tables| == PAGE_ENTRIES && (i > 0 ==> tables[0] != 0)
        invariant i == 0 ==> tables[0] == 0 && newTable !in memory
        invariant Flat() == map page: nat | page < i :: Mapping(page, true, false)
      {
        MapPage(i * PAGE_SIZE, i * PAGE_SIZE, 3, newTable, stale);
      }
    }
  }

  /** Every run of map_page and unmap_page calls is the same run on the flat map. `supply` holds what
      the table allocations return, in order. */
  method Run(dir: PageDirectory, ops: seq<Op>, supply: seq<nat>, stale: seq<Entry>)
    requires dir.Valid() && |stale| == PAGE_ENTRIES && |supply| >= |ops|
    requires forall op :: op in ops ==> op.virt < TWO32 && (op.Map? ==> op.phys < TWO32)
    requires forall i :: 0 <= i < |supply| ==> supply[i] != 0 && supply[i] % PAGE_SIZE == 0 && supply[i] !in dir.memory
    requires forall i, j :: 0 <= i < j < |supply| ==> supply[i] != supply[j]
    modifies dir
    ensures dir.Valid() && dir.Flat() == ApplyAll(old(dir.Flat()), ops)
    decreases |ops|
  {
    hide PageDirectory.Flat, PageDirectory.Mapped, Apply;
    if ops == [] { return; }
    match ops[0] {
      case Map(virt, phys, flags) => dir.MapPage(virt, phys, flags, supply[0], stale);
      case Unmap(virt) => dir.UnmapPage(virt);
    }
    Run(dir, ops[1..], supply[1..], stale);
  }
}
