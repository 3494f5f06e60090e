/** Page tables from the kernel heap: map_page takes a table from kmalloc_aligned when there is none, and the
    table is memory no other table has.
 */
module PagingHeap {
  import opened AlignedAlloc
  import opened HeapBlocks
  import opened KernelHeap
  import opened Machine
  import opened Paging
  import C = SlabCache

  /** Every page table lies in a live heap block of its own. */
  ghost predicate Tabled(dir: PageDirectory, pages: AlignedAllocator)
    reads dir, pages, pages.heap
  {
    && dir.Valid() && pages.heap.Valid()
    && C.AllBacked(pages.heap.blocks, pages.heap.base, pages.words, dir.memory.Keys)
  }

  /** Page `virt` belongs to a table that does not exist. */
  predicate Untabled(tables: seq<nat>, virt: nat)
    requires |tables| == PAGE_ENTRIES
  {
    var t := virt / PAGE_SIZE / PAGE_ENTRIES;
    t < PAGE_ENTRIES && tables[t] == 0
  }

  lemma FewerBacked(bs: seq<Block>, base: nat, ws: Words, ps: set<nat>, qs: set<nat>)
    requires C.AllBacked(bs, base, ws, ps) && qs <= ps
    ensures C.AllBacked(bs, base, ws, qs)
  {
    hide C.Backed, C.Raw;
  }

  /** map_page: exactly one page of the flat map changes. It fails exactly when the page's table does not exist
      and the heap has no block for one; the source then writes through NULL. */
  method MapPage(dir: PageDirectory, pages: AlignedAllocator, virt: nat, phys: nat, flags: nat, stale: seq<Entry>)
    returns (ok: bool)
    requires Tabled(dir, pages) && virt < TWO32 && phys < TWO32 && |stale| == PAGE_ENTRIES
    modifies dir, pages, pages.heap
    ensures Tabled(dir, pages) && pages.heap.base == old(pages.heap.base)
    ensures ok <==> old(!(Untabled(dir.tables, virt) && C.NoPage(pages.heap.blocks)))
    ensures dir.Flat() == if ok then Apply(old(dir.Flat()), Map(virt, phys, flags)) else old(dir.Flat())
    ensures !ok ==> dir.tables == old(dir.tables)
    ensures !ok || !old(Untabled(dir.tables, virt)) ==> pages.heap.blocks == old(pages.heap.blocks)
    ensures ok && old(Untabled(dir.tables, virt)) ==>
              pages.heap.blocks == C.PageTaken(old(pages.heap.blocks), pages.heap.base)
  {
    hide C.AllBacked, Heap.Valid, PageDirectory.Flat, Apply, C.NoPage, C.PageTaken, C.RawTaken, AlignUp, C.Leaves,
         C.PagesKept;
    var table := 0;
    ghost var ps := dir.memory.Keys;
    if dir.tables[virt / PAGE_SIZE / PAGE_ENTRIES] == 0 {
      table := C.TakePage(pages, ps);
      if table == 0 { return false; }
      ps := ps + {table};
    }
    dir.MapPage(virt, phys, flags, table, stale);
    FewerBacked(pages.heap.blocks, pages.heap.base, pages.words, ps, dir.memory.Keys);
    ok := true;
  }

  /** The identity mapping of paging_init, for a directory that maps nothing yet: it needs one table. */
  method IdentityMap(dir: PageDirectory, pages: AlignedAllocator, stale: seq<Entry>) returns (ok: bool)
    requires Tabled(dir, pages) && dir.Flat() == map[] && dir.tables[0] == 0 && |stale| == PAGE_ENTRIES
    modifies dir, pages, pages.heap
    ensures ok <==> !C.NoPage(old(pages.heap.blocks))
    ensures ok ==> dir.Valid() && dir.Flat() == map page: nat | page < 1024 :: Mapping(page, true, false)
  {
    hide C.AllBacked, Heap.Valid, C.NoPage, C.PageTaken, C.RawTaken, AlignUp, C.Leaves, C.PagesKept;
    var table := C.TakePage(pages, dir.memory.Keys);
    if table == 0 { return false; }
    dir.IdentityMap(table, stale);
    ok := true;
  }

  /** Every run of map_page and unmap_page is the same run on the flat map, up to the first map_page that needs a
      table when the heap has none. */
  method Run(dir: PageDirectory, pages: AlignedAllocator, ops: seq<Op>, stale: seq<Entry>) returns (done: nat)
    requires Tabled(dir, pages) && |stale| == PAGE_ENTRIES
    requires forall op :: op in ops ==> op.virt < TWO32 && (op.Map? ==> op.phys < TWO32)
    modifies dir, pages, pages.heap
    ensures Tabled(dir, pages) && done <= |ops|
    ensures dir.Flat() == ApplyAll(old(dir.Flat()), ops[..done])
    ensures done < |ops| ==> ops[done].Map? && Untabled(dir.tables, ops[done].virt) && C.NoPage(pages.heap.blocks)
    decreases |ops|
  {
    hide C.AllBacked, Heap.Valid, PageDirectory.Flat, Apply, C.NoPage, C.PageTaken;
    if ops == [] { return 0; }
    match ops[0] {
      case Map(virt, phys, flags) =>
        var ok := MapPage(dir, pages, virt, phys, flags, stale);
        if !ok { return 0; }
      case Unmap(virt) => dir.UnmapPage(virt);
    }
    var rest := Run(dir, pages, ops[1..], stale);
    done := rest + 1;
    assert ops[..done][1..] == ops[1..][..rest];
  }
}
