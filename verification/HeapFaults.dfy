/** Two programs the heap does not serve as promised: a correct one that ends in a panic, and an aligned
    request whose size wraps and whose hidden words land on another block's header.
 */
module HeapFaults {
  import opened AlignedAlloc
  import opened Bits
  import opened HeapBlocks
  import opened KernelHeap
  import opened Machine

  // ----- best fit where first fit is announced -----

  /** What a first-fit search would choose. */
  ghost predicate FirstFit(bs: seq<Block>, n: nat, k: nat) {
    k < |bs| && !bs[k].used && bs[k].size >= n && NoneBelow(bs, n, k)
  }

  /** First fit and best fit agree exactly when no later free block that fits is smaller. */
  lemma FirstFitIsBest(bs: seq<Block>, n: nat, j: nat)
    requires FirstFit(bs, n, j)
    ensures BestFit(bs, n, j) <==>
            forall i :: j < i < |bs| && !bs[i].used && bs[i].size >= n ==> bs[i].size >= bs[j].size
  {
  }

  /** A free block of 64 bytes, later one of 16: first fit would take the former for 16 bytes, kmalloc takes
      the latter. */
  lemma NotFirstFit(base: nat)
    requires 0 < base && base + HEAP_SIZE < TWO32
    ensures exists bs: seq<Block> :: Ok(bs, base) && FirstFit(bs, Rounded(16), 0) && BestFit(bs, Rounded(16), 2)
  {
    var bs := [Block(64, false, 0), Block(16, true, base), Block(16, false, base + 88),
               Block(HEAP_SIZE - HEADER - 168, true, base + 128)];
    assert Rounded(16) == 16;
    assert Addr(bs, base, 0) == base;
    assert Addr(bs, base, 1) == base + 88;
    assert Addr(bs, base, 2) == base + 128;
    assert Addr(bs, base, 3) == base + 168;
    assert Addr(bs, base, 4) == base + HEAP_SIZE;
    assert Ok(bs, base) && FirstFit(bs, Rounded(16), 0) && BestFit(bs, Rounded(16), 2);
  }

  // ----- a free that panics without cause -----

  /** A used block whose `prev` moved by anything but a multiple of 255 since its checksum was
      computed no longer verifies, so kfree of it panics. */
  lemma MovedPrevFails(bs: seq<Block>, base: nat, i: nat)
    requires i < |bs| && bs[i].seal < TWO32 && Prev(bs, base, i) < TWO32
    requires bs[i].seal % 255 != Prev(bs, base, i) % 255
    ensures !Verifies(HeaderOf(bs, base, i))
  {
    ByteSumResidue(bs[i].seal);
    ByteSumResidue(Prev(bs, base, i));
    VerifiesIff(bs, base, i);
  }

  /** The heap after `n` allocations of 16 bytes each from the start. */
  function Filled(base: nat, n: nat): seq<Block>
    requires n <= 3
  {
    var free := Block(HEAP_SIZE - HEADER - 40 * n, false, if n == 0 then 0 else base + 40 * (n - 1));
    (if n > 0 then [Block(16, true, 0)] else []) +
    (if n > 1 then [Block(16, true, base)] else []) +
    (if n > 2 then [Block(16, true, base + 40)] else []) + [free]
  }

  lemma FillStep(base: nat, n: nat)
    requires n < 3
    ensures BestFit(Filled(base, n), Rounded(16), n)
    ensures Allocate(Filled(base, n), base, n, Rounded(16)) == Filled(base, n + 1)
  {
    var bs := Filled(base, n);
    assert Rounded(16) == 16;
    assert bs[n].size == HEAP_SIZE - HEADER - 40 * n;
    assert Addr(bs, base, 0) == base;
    if n > 0 { assert Addr(bs, base, 1) == base + 40; }
    if n > 1 { assert Addr(bs, base, 2) == base + 80; }
    assert Carved(bs, base, n, 16) == [Block(16, true, bs[n].seal), Block(bs[n].size - 40, false, base + 40 * n)];
  }

  /** The heap with a and c used, b free between them; and with a and b free before c. */
  function Punched(base: nat): seq<Block> {
    Filled(base, 3)[1 := Block(16, false, base)]
  }

  function Merged(base: nat): seq<Block> {
    [Block(56, false, 0)] + Filled(base, 3)[2..]
  }

  lemma FreeMiddle(base: nat)
    ensures Release(Filled(base, 3), base, 1) == Punched(base)
    ensures Prev(Filled(base, 3), base, 1) == base && Addr(Filled(base, 3), base, 2) == base + 80
  {
    var bs := Filled(base, 3);
    assert Addr(bs, base, 1) == base + 40;
    assert Addr(bs, base, 2) == Addr(bs, base, 1) + HEADER + bs[1].size;
    assert MergeFrom(bs, 1) == 1 && MergeTo(bs, 1) == 2;
  }

  lemma FreeFirst(base: nat)
    ensures Release(Punched(base), base, 0) == Merged(base)
    ensures Addr(Merged(base), base, 1) == base + 80 && Prev(Merged(base), base, 1) == base
  {
    var bs := Punched(base);
    assert Addr(bs, base, 1) == base + 40;
    assert Addr(bs, base, 2) == Addr(bs, base, 1) + HEADER + bs[1].size;
    assert MergeFrom(bs, 0) == 0 && MergeTo(bs, 0) == 2;
    assert Addr(Merged(base), base, 1) == base + HEADER + 56;
  }

  lemma ShiftedResidue(base: nat)
    ensures (base + 40) % 255 != base % 255
  {
  }

  /** Where the blocks are, and which of them kfree accepts, as the program goes on. */
  lemma FilledFacts(base: nat)
    ensures Filled(base, 0) == Initial()
    ensures |Filled(base, 3)| == 4 && Intact(Filled(base, 3), base, 1)
    ensures |Punched(base)| == 4 && Intact(Punched(base), base, 0)
    ensures base + HEAP_SIZE < TWO32 ==> |Merged(base)| == 3 && !Intact(Merged(base), base, 1)
    ensures Addr(Filled(base, 3), base, 1) == base + 40 && Addr(Punched(base), base, 0) == base
  {
    hide ByteSum;
    assert Addr(Filled(base, 3), base, 0) == base;
    assert Addr(Merged(base), base, 0) == base && Merged(base)[1].seal == base + 40;
    if base + HEAP_SIZE < TWO32 {
      ByteSumResidue(base + 40);
      ByteSumResidue(base);
      ShiftedResidue(base);
    }
  }

  method FillOne(heap: Heap, end: nat, n: nat) returns (r: Outcome, ghost k: nat)
    requires heap.Valid() && heap.base == end && n < 3 && heap.blocks == Filled(end, n)
    modifies heap
    ensures heap.Valid() && heap.base == end && heap.blocks == Filled(end, n + 1)
    ensures r == Returns(end + 40 * n + 24)
  {
    hide Ok, BestBelow, NoneBelow, Rounded, Heap.Linked, Allocate, OnlyHeaders;
    FillStep(end, n);
    BestFitDecides(Filled(end, n), Rounded(16), n);
    FilledPlace(end, n);
    hide Filled, Addr;
    r, k := heap.Kmalloc(16);
  }

  lemma FilledPlace(base: nat, n: nat)
    requires n < 3
    ensures n < |Filled(base, n)| && Addr(Filled(base, n), base, n) == base + 40 * n
  {
    var bs := Filled(base, n);
    assert Addr(bs, base, 0) == base;
    if n > 0 { assert Addr(bs, base, 1) == base + 40; }
    if n > 1 { assert Addr(bs, base, 2) == base + 80; }
  }

  /** A correct program that panics, wherever the heap starts: allocate a, b and c of 16 bytes, free
      b, then a, then c. Freeing a moves c's `prev` from b to a without refreshing c's checksum. */
  method CorrectProgramPanics(heap: Heap, end: nat) returns (a: Outcome, b: Outcome, c: Outcome, frees: seq<Outcome>)
    requires 0 < end && end + HEAP_SIZE < TWO32
    modifies heap
    ensures a == Returns(end + 24) && b == Returns(end + 64) && c == Returns(end + 104)
    ensures frees == [Returns(0), Returns(0), Panics]
  {
    hide Ok, Addr, BestBelow, NoneBelow, Rounded, ByteSum, Heap.Linked, Release, Allocate, Filled, OnlyHeaders;
    var ok := heap.HeapInit(end);
    FilledFacts(end);
    ghost var k: nat;
    a, k := FillOne(heap, end, 0);
    b, k := FillOne(heap, end, 1);
    c, k := FillOne(heap, end, 2);
    FreeMiddle(end);
    FreeFirst(end);
    var rb := heap.Kfree(b.ptr, 1);
    var ra := heap.Kfree(a.ptr, 0);
    var rc := heap.Kfree(c.ptr, 1);
    frees := [rb, ra, rc];
  }

  // ----- a wrapped aligned request -----

  const START: nat := 0x20_0000
  const SIZE: nat := 0xFF00_0000
  const ALIGNMENT: nat := 0x100_0000

  /** A small free block, a large used one up to just below 16 MB, and the rest. */
  function Gap(used: bool): seq<Block> {
    [Block(16, used, 0), Block(0xDF_FFB0, true, START), Block(0x1F_FFF8, false, START + 40)]
  }

  lemma GapFacts(used: bool)
    ensures var bs := Gap(used);
      && Addr(bs, START, 0) == START && Addr(bs, START, 1) == START + 40 && Addr(bs, START, 2) == 0xFF_FFF0
    ensures var m := HeaderOf(Gap(used), START, 2);
      IsWords(m) && m.next == 0
    ensures HeaderOf(Gap(used), START, 0).next == START + 40 && HeaderOf(Gap(used), START, 1).next == 0xFF_FFF0
  {
    var bs := Gap(used);
    assert Addr(bs, START, 0) == START;
    assert Addr(bs, START, 1) == Addr(bs, START, 0) + HEADER + 16;
    assert Addr(bs, START, 2) == Addr(bs, START, 1) + HEADER + 0xDF_FFB0;
  }

  /** The three calls that make the gap. */
  lemma GapIsMade()
    ensures var one := [Block(16, true, 0), Block(0xFF_FFC0, false, START)];
      && BestFit(Initial(), Rounded(16), 0) && Allocate(Initial(), START, 0, Rounded(16)) == one
      && Addr(one, START, 1) == START + 40
      && BestFit(one, Rounded(0xDF_FFB0), 1) && Allocate(one, START, 1, Rounded(0xDF_FFB0)) == Gap(true)
    ensures Addr(Initial(), START, 0) == START
    ensures Intact(Gap(true), START, 0) && Release(Gap(true), START, 0) == Gap(false)
  {
    hide ByteSum;
    var one := [Block(16, true, 0), Block(0xFF_FFC0, false, START)];
    assert Rounded(16) == 16 && Rounded(0xDF_FFB0) == 0xDF_FFB0;
    assert Carved(Initial(), START, 0, 16) == one;
    assert Addr(one, START, 0) == START;
    assert Addr(one, START, 1) == START + 40;
    assert Carved(one, START, 1, 0xDF_FFB0) == Gap(true)[1..];
    GapFacts(true);
    assert MergeFrom(Gap(true), 0) == 0 && MergeTo(Gap(true), 0) == 1;
  }

  /** The wrapped request takes the small block, and its aligned address is 16 MB. */
  lemma WrappedRequest()
    ensures PowerOfTwo(ALIGNMENT) && TotalSize(SIZE, ALIGNMENT) == 7 && Rounded(7) == 16
    ensures BestFit(Gap(false), 16, 0) && Allocate(Gap(false), START, 0, 16) == Gap(true)
    ensures AlignUp(START + HEADER, ALIGNMENT) == 0x100_0000
    ensures !WordsFit(START + HEADER, 16, ALIGNMENT)
  {
    hide And;
    WordBits();
    ExponentIsPower(24);
    AlignUpRounds(START + HEADER, ALIGNMENT);
    assert (SIZE + ALIGNMENT - 1 + 8) % TWO32 == 7;
    assert (START + HEADER + 8 + ALIGNMENT - 1) % TWO32 == 0x120_001F;
    assert 0x120_001F % ALIGNMENT == 0x20_001F;
  }

  /** The hidden words land on the last block's `used` and `next`, and `next` leads back to the start. */
  lemma WordsOnHeader(m: Memory)
    requires Represents(m, Gap(true), START)
    ensures var now := Stored(Stored(m, 0xFF_FFFC, START), 0xFF_FFF8, ALIGNMENT);
      && START in now && now[START].next == START + 40
      && START + 40 in now && now[START + 40].next == 0xFF_FFF0
      && 0xFF_FFF0 in now && now[0xFF_FFF0].next == START && now[0xFF_FFF0].used == ALIGNMENT
  {
    hide HeaderOf, Addr, Overlaid;
    GapFacts(true);
    var bs := Gap(true);
    assert m[Addr(bs, START, 0)] == HeaderOf(bs, START, 0) && m[Addr(bs, START, 1)] == HeaderOf(bs, START, 1);
    assert m[Addr(bs, START, 2)] == HeaderOf(bs, START, 2);
    StoredField(m[0xFF_FFF0], START);
    StoredField(m[0xFF_FFF0].(next := START), ALIGNMENT);
  }

  /** From heap_init on: allocate 16 bytes and 0xDFFFB0 bytes, free the first, and ask for 0xFF000000
      bytes aligned to 16 MB. The call succeeds, the list is no longer the one the allocator keeps, and
      following `next` goes round in a circle that never meets NULL. */
  method WrappedRequestCorrupts(memory: AlignedAllocator) returns (r: Outcome)
    modifies memory, memory.heap
    ensures r == Returns(0x100_0000) && !memory.heap.Valid()
    ensures var mem := memory.heap.mem;
      && memory.heap.head == START && START in mem && mem[START].next == START + 40
      && START + 40 in mem && mem[START + 40].next == 0xFF_FFF0
      && 0xFF_FFF0 in mem && mem[0xFF_FFF0].next == START
  {
    hide Ok, BestBelow, NoneBelow, Rounded, Allocate, Release, Addr, AlignUp, PowerOfTwo, TotalSize, ByteSum, Stored,
         KeepsWords, HeaderOf;
    var ok := memory.heap.HeapInit(START);
    GapIsMade();
    GapFacts(true);
    GapFacts(false);
    WrappedRequest();
    BestFitDecides(Initial(), Rounded(16), 0);
    var a, i := memory.Kmalloc(16);
    BestFitDecides(memory.heap.blocks, Rounded(0xDF_FFB0), 1);
    var b, j := memory.Kmalloc(0xDF_FFB0);
    var f := memory.Kfree(a.ptr, 0);
    BestFitDecides(Gap(false), 16, 0);
    ghost var k, m;
    r, k, m := memory.KmallocAligned(SIZE, ALIGNMENT);
    WordsOnHeader(m);
    assert Addr(Gap(true), START, 2) == 0xFF_FFF0;
  }
}
