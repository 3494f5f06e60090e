/** kmalloc_aligned and kfree_aligned: the raw pointer and the alignment are kept in two hidden words
    just below the aligned address, in the same memory as the heap's headers.
 */
module AlignedAlloc {
  import opened Bits
  import opened Division
  import opened HeapBlocks
  import opened KernelHeap
  import opened Machine

  /** A 32-bit power of two is at most 2^31. */
  lemma WordPower(a: nat)
    requires PowerOfTwo(a) && a < TWO32
    ensures 0 < a <= TWO32 / 2
  {
    WordBits();
    PowersDouble(a, 32);
  }

  /** The size handed to kmalloc: payload, worst-case padding and two hidden words, in 32 bits. */
  function TotalSize(size: nat, alignment: nat): nat
    requires alignment > 0
    ensures TotalSize(size, alignment) < TWO32
  {
    (size + alignment - 1 + 8) % TWO32
  }

  /** The aligned address above the two hidden words: `(raw + 8 + alignment - 1) & ~(alignment - 1)`. */
  function AlignUp(raw: nat, alignment: nat): nat
    requires 0 < alignment < TWO32
  {
    And((raw + 8 + alignment - 1) % TWO32, TWO32 - 1 - (alignment - 1))
  }

  /** `a - d` in 32 bits. */
  function Below(a: nat, d: nat): nat
    requires d <= TWO32
  {
    if a >= d then a - d else a + TWO32 - d
  }

  // ----- arithmetic -----

  /** For a power of two the mask rounds down. */
  lemma AlignUpRounds(raw: nat, alignment: nat)
    requires PowerOfTwo(alignment) && alignment < TWO32
    ensures alignment > 0
    ensures var x := (raw + 8 + alignment - 1) % TWO32;
      AlignUp(raw, alignment) == x - x % alignment && TWO32 % alignment == 0
  {
    hide Power2, And, PowerOfTwo;
    WordBits();
    WordPower(alignment);
    var k := PowerHasExponent(alignment);
    if k > 32 { PowersGrow(32, k); }
    MaskRoundsDown((raw + 8 + alignment - 1) % TWO32, k, 32);
    PowerDivides(k, 32);
  }

  /** Rounding down gives a multiple, and no multiple lies between it and the number. */
  lemma RoundDown(x: nat, a: nat)
    requires a > 0
    ensures x - a < x - x % a <= x && (x - x % a) % a == 0
  {
    DivisionUnique(x - x % a, a, x / a, 0);
  }

  /** The aligned address is the multiple of the alignment at or just below the wrapped sum `y`. */
  lemma AlignUpBounds(raw: nat, alignment: nat) returns (y: nat)
    requires PowerOfTwo(alignment) && alignment < TWO32 && raw < TWO32
    ensures alignment > 0 && AlignUp(raw, alignment) % alignment == 0
    ensures y - alignment < AlignUp(raw, alignment) <= y
    ensures var x := raw + 7 + alignment;
      y == if x < TWO32 then x else x - TWO32
  {
    hide PowerOfTwo, AlignUp;
    AlignUpRounds(raw, alignment);
    y := (raw + 8 + alignment - 1) % TWO32;
    WrapOnce(raw + 8 + alignment - 1, TWO32);
    RoundDown(y, alignment);
  }

  lemma MultipleBelow(x: nat, a: nat, m: nat)
    requires a > 0 && m % a == 0 && m <= x
    ensures m <= x - x % a
  {
    var q, c := x / a, m / a;
    assert x == q * a + x % a && m == c * a;
    assert (q + 1) * a == q * a + a;
    if c <= q { MulMonotone(c, q, a); } else { MulMonotone(q + 1, c, a); }
  }

  /** How far the aligned address is above the raw one when nothing wraps. */
  function Padding(raw: nat, alignment: nat): (d: int)
    requires alignment > 0
  {
    var x := raw + 8 + alignment - 1;
    x - x % alignment - raw
  }

  lemma PaddingBounds(raw: nat, alignment: nat)
    requires alignment > 0
    ensures 8 <= Padding(raw, alignment) <= alignment + 7
  {
    RoundDown(raw + 8 + alignment - 1, alignment);
  }

  /** Both hidden words lie inside the raw block of `block` bytes. */
  predicate WordsFit(raw: nat, block: nat, alignment: nat)
    requires 0 < alignment < TWO32
  {
    raw + 8 <= AlignUp(raw, alignment) <= raw + block
  }

  /** What kmalloc returns for a request: a block of the rounded size or with an unsplittable rest. */
  predicate Gives(raw: nat, block: nat, request: nat) {
    0 < raw && raw + block < TWO32 && Rounded(request) <= block <= Rounded(request) + HEADER + 16
  }

  /** The hidden words lie inside the block exactly when the padding does. */
  lemma WordsFitWhen(raw: nat, block: nat, alignment: nat)
    requires PowerOfTwo(alignment) && alignment < TWO32 && raw + block < TWO32
    ensures alignment > 0 && (WordsFit(raw, block, alignment) <==> Padding(raw, alignment) <= block)
  {
    hide AlignUp, PowerOfTwo;
    AlignUpRounds(raw, alignment);
    PaddingBounds(raw, alignment);
    var x := raw + 8 + alignment - 1;
    WrapOnce(x, TWO32);
    RoundDown(x % TWO32, alignment);
    if x >= TWO32 { MultipleBelow(x, alignment, TWO32); }
  }

  /** So they do wherever the block lies exactly when the padding that can be needed at most is within
      the rounded request. A request whose total wraps to something small fails this. */
  lemma WordsAlwaysFit(size: nat, alignment: nat)
    requires 0 < size < TWO32 && PowerOfTwo(alignment) && alignment < TWO32
    ensures alignment > 0
    ensures (forall raw: nat, block: nat ::
               Gives(raw, block, TotalSize(size, alignment)) ==> WordsFit(raw, block, alignment))
            <==> alignment + 7 <= Rounded(TotalSize(size, alignment))
  {
    WordPower(alignment);
    hide PowerOfTwo, AlignUp, TotalSize;
    var total := TotalSize(size, alignment);
    if alignment + 7 <= Rounded(total) {
      forall raw: nat, block: nat | Gives(raw, block, total) ensures WordsFit(raw, block, alignment) {
        WordsFitWhen(raw, block, alignment);
        PaddingBounds(raw, alignment);
      }
    } else {
      RoundedCovers(total);
      var raw, block := alignment - 7, Rounded(total);
      WordsFitWhen(raw, block, alignment);
      DivisionUnique(2 * alignment, alignment, 2, 0);
      assert Gives(raw, block, total) && !WordsFit(raw, block, alignment);
    }
  }

  /** The payload and both hidden words lie inside the raw block exactly when neither the total nor
      kmalloc's rounding of it wraps. */
  lemma PayloadFits(raw: nat, block: nat, size: nat, alignment: nat)
    requires 0 < size < TWO32 && PowerOfTwo(alignment) && alignment < TWO32
    requires alignment > 0 && Gives(raw, block, TotalSize(size, alignment))
    ensures var p := AlignUp(raw, alignment);
      && p % alignment == 0
      && (WordsFit(raw, block, alignment) && p + size <= raw + block <==> size + alignment + 7 <= TWO32 - 4)
  {
    hide PowerOfTwo, AlignUp, Rounded, TotalSize;
    WordPower(alignment);
    var y := AlignUpBounds(raw, alignment);
    var total := TotalSize(size, alignment);
    RoundedCovers(total);
    TotalWraps(size, alignment);
    Placed(raw, block, size, alignment, y, AlignUp(raw, alignment), Rounded(total));
  }

  /** The linear part: `y` is the address before masking and `p` after, `n` the rounded request. */
  lemma Placed(raw: nat, block: nat, size: nat, alignment: nat, y: nat, p: int, n: nat)
    requires 0 < alignment && raw + block < TWO32 && n <= block <= n + HEADER + 16
    requires y == raw + 7 + alignment || (raw + 7 + alignment >= TWO32 && y == raw + 7 + alignment - TWO32)
    requires y - alignment < p <= y
    requires if size + alignment + 7 <= TWO32 - 4 then n >= size + alignment + 7 else n + HEADER + 16 < size
    ensures raw + 8 <= p && p + size <= raw + block <==> size + alignment + 7 <= TWO32 - 4
  {
  }

  lemma TotalWraps(size: nat, alignment: nat)
    requires size < TWO32 && 0 < alignment <= TWO32 / 2
    ensures TotalSize(size, alignment) ==
            if size + alignment + 7 < TWO32 then size + alignment + 7 else size + alignment + 7 - TWO32
    ensures size + alignment + 7 > TWO32 - 4 ==> Rounded(TotalSize(size, alignment)) + HEADER + 16 < size
  {
  }

  /** What an allocated block offers: the rounded request and at most an unsplittable rest. */
  lemma AllocatedBlock(bs: seq<Block>, base: nat, k: nat, n: nat)
    requires Ok(bs, base) && k < |bs| && bs[k].size >= n
    ensures var cs := Allocate(bs, base, k, n);
      && k < |cs| && n <= cs[k].size <= n + HEADER + 16
      && Addr(cs, base, k) == Addr(bs, base, k)
      && Addr(bs, base, k) + HEADER + cs[k].size <= base + HEAP_SIZE < TWO32
  {
    var w, cs := Carved(bs, base, k, n), Allocate(bs, base, k, n);
    assert cs[k] == w[0];
    CarvedExtent(bs, base, k, n);
    AddrGrows(bs, base, k, |bs|);
  }

  // ----- words in payloads -----

  /** The words programs keep in memory, by address. */
  type Words = map<nat, nat>

  /** The word at `a` lies inside payload `p`. */
  predicate Inside(p: Payload, a: nat) { p.start <= a && a + 4 <= p.start + p.size }

  /** The words inside live payloads are as before. */
  ghost predicate KeepsWords(ws: Words, ws': Words, bs: seq<Block>, base: nat) {
    forall p, a :: p in Live(bs, base) && Inside(p, a) && a in ws ==> a in ws' && ws'[a] == ws[a]
  }

  /** The words left of `ws` after the headers that differ between `mem` and `mem'` were written. */
  function Surviving(ws: Words, mem: Memory, mem': Memory): Words {
    map a | a in ws && (forall h :: h in mem' && (h !in mem || mem'[h] != mem[h]) ==> Apart(h, a)) :: ws[a]
  }

  /** A word stored at `a`; the words it overlaps are lost. */
  function Put(ws: Words, a: nat, value: nat): Words {
    (map w | w in ws && (w + 4 <= a || a + 4 <= w) :: ws[w])[a := value]
  }

  lemma HeaderApart(bs: seq<Block>, base: nat, p: Payload, a: nat, h: nat)
    requires p in Live(bs, base) && Inside(p, a) && IsHeader(bs, base, h)
    ensures Apart(h, a)
  {
    hide Addr;
    var i :| 0 <= i < |bs| && bs[i].used && p == PayloadAt(bs, base, i);
    var j: nat :| j < |bs| && h == Addr(bs, base, j);
    if i < j { AddrGrows(bs, base, i, j); } else if j < i { AddrGrows(bs, base, j, i); }
  }

  /** Headers of a list never overlap words inside its live payloads. */
  lemma HeadersSpareWords(ws: Words, mem: Memory, mem': Memory, bs: seq<Block>, base: nat)
    requires OnlyHeaders(mem, mem', bs, base)
    ensures KeepsWords(ws, Surviving(ws, mem, mem'), bs, base)
  {
    hide IsHeader, Live;
    forall p, a | p in Live(bs, base) && Inside(p, a) && a in ws
      ensures a in Surviving(ws, mem, mem') && Surviving(ws, mem, mem')[a] == ws[a]
    {
      forall h | h in mem' && (h !in mem || mem'[h] != mem[h]) ensures Apart(h, a) {
        HeaderApart(bs, base, p, a, h);
      }
    }
  }

  /** A word stored inside the payload of a fresh allocation spares the words of those live before. */
  lemma StoreSparesOthers(ws: Words, bs: seq<Block>, base: nat, k: nat, n: nat, a: nat, value: nat)
    requires Ok(bs, base) && BestFit(bs, n, k) && n >= 16 && n % 4 == 0 && k < |Allocate(bs, base, k, n)|
    requires Inside(PayloadAt(Allocate(bs, base, k, n), base, k), a)
    ensures KeepsWords(ws, Put(ws, a, value), bs, base)
  {
    hide Addr, Allocate, Live, Ok, BestBelow;
    ChosenHolds(bs, n, k);
    AllocateOk(bs, base, k, n);
    AllocateLive(bs, base, k, n);
    var cs := Allocate(bs, base, k, n);
    var q := PayloadAt(cs, base, k);
    forall p, w | p in Live(bs, base) && Inside(p, w) && w in ws
      ensures w in Put(ws, a, value) && Put(ws, a, value)[w] == ws[w]
    {
      LiveDisjoint(cs, base, p, q);
    }
  }

  /** Three steps that each keep the words of the payloads live before do so together. */
  lemma KeptInTurn(ws: Words, w1: Words, w2: Words, w3: Words, bs: seq<Block>, cs: seq<Block>, base: nat)
    requires Live(bs, base) <= Live(cs, base) && KeepsWords(ws, w1, cs, base)
    requires KeepsWords(w1, w2, bs, base) && KeepsWords(w2, w3, bs, base)
    ensures KeepsWords(ws, w3, bs, base)
  {
    hide Live;
  }

  lemma PutTwice(ws: Words, p: nat, raw: nat, alignment: nat)
    requires p >= 8
    ensures var ws' := Put(Put(ws, p - 4, raw), p - 8, alignment);
      p - 4 in ws' && ws'[p - 4] == raw && p - 8 in ws' && ws'[p - 8] == alignment
  {
  }

  // ----- the allocator -----

  class AlignedAllocator {
    const heap: Heap
    var words: Words

    constructor (heap: Heap)
      ensures this.heap == heap && words == map[]
    {
      this.heap := heap;
      words := map[];
    }

    /** A 32-bit store, seen by headers and words alike. */
    method Store(a: nat, value: nat)
      modifies this`words, heap`mem
      ensures words == Put(old(words), a, value) && heap.mem == Stored(old(heap.mem), a, value)
    {
      heap.StoreWord(a, value);
      words := Put(words, a, value);
    }

    /** kmalloc, in the memory that also holds the words. */
    method Kmalloc(size: nat) returns (r: Outcome, ghost k: nat)
      requires heap.Valid() && size < TWO32
      modifies this, heap
      ensures heap.Valid() && heap.base == old(heap.base) && r.Returns?
      ensures r.ptr == 0 <==> size == 0 || NoFit(old(heap.blocks), Rounded(size))
      ensures r.ptr == 0 ==> heap.blocks == old(heap.blocks) && words == old(words)
      ensures r.ptr != 0 ==>
                && BestFit(old(heap.blocks), Rounded(size), k)
                && r.ptr == Addr(old(heap.blocks), heap.base, k) + HEADER
                && heap.blocks == Allocate(old(heap.blocks), heap.base, k, Rounded(size))
      ensures KeepsWords(old(words), words, heap.blocks, heap.base)
    {
      hide Heap.Linked, Ok, Allocate, Addr, BestBelow, NoneBelow, Rounded, Live, OnlyHeaders;
      var before := heap.mem;
      r, k := heap.Kmalloc(size);
      HeadersSpareWords(words, before, heap.mem, heap.blocks, heap.base);
      words := Surviving(words, before, heap.mem);
      assert r.ptr == 0 ==> words == old(words);
    }

    /** kfree, in the memory that also holds the words. */
    method Kfree(ptr: nat, ghost k: nat) returns (r: Outcome)
      requires heap.Valid() && (ptr == 0 || (k < |heap.blocks| && ptr == Addr(heap.blocks, heap.base, k) + HEADER))
      modifies this, heap
      ensures heap.Valid() && heap.base == old(heap.base)
      ensures r == Panics || r == Returns(0)
      ensures r.Panics? <==> ptr != 0 && !Intact(old(heap.blocks), heap.base, k)
      ensures heap.blocks ==
                if ptr == 0 || r.Panics? then old(heap.blocks) else Release(old(heap.blocks), heap.base, k)
      ensures KeepsWords(old(words), words, old(heap.blocks), heap.base)
    {
      hide Heap.Linked, Ok, Release, Addr, ByteSum, Live, OnlyHeaders;
      var before := heap.mem;
      r := heap.Kfree(ptr, k);
      HeadersSpareWords(words, before, heap.mem, old(heap.blocks), heap.base);
      words := Surviving(words, before, heap.mem);
    }

    /** Requests that get no memory. */
    ghost predicate Refused(bs: seq<Block>, size: nat, alignment: nat) {
      || size == 0 || alignment == 0 || !PowerOfTwo(alignment)
      || TotalSize(size, alignment) == 0 || NoFit(bs, Rounded(TotalSize(size, alignment)))
    }

    /** Where no sum wraps, a proper request is refused exactly when every free block is smaller than its size
        with the alignment and 7 bytes. */
    lemma RefusedWhen(bs: seq<Block>, size: nat, alignment: nat)
      requires SizesOk(bs) && 0 < size && PowerOfTwo(alignment) && size + alignment + 7 <= TWO32 - 4
      ensures Refused(bs, size, alignment) <==> AllSmaller(bs, size + alignment + 7)
    {
      hide PowerOfTwo, NoFit, AllSmaller, Rounded;
      WordPower(alignment);
      TotalWraps(size, alignment);
      RoundingDecidesNothing(bs, size + alignment + 7);
    }

    /** The two stores of kmalloc_aligned into block `k`, just taken from `bs` for `n` bytes: where both words
        lie inside its payload the heap stays valid and the words of the other payloads are kept. */
    method StoreHidden(p: nat, raw: nat, alignment: nat, ghost bs: seq<Block>, ghost ws: Words, ghost k: nat,
                       ghost n: nat)
      requires heap.Valid() && Ok(bs, heap.base) && BestFit(bs, n, k) && n >= 16 && n % 4 == 0
      requires heap.blocks == Allocate(bs, heap.base, k, n) && k < |heap.blocks|
      requires raw == Addr(bs, heap.base, k) + HEADER && Addr(heap.blocks, heap.base, k) == Addr(bs, heap.base, k)
      requires KeepsWords(ws, words, heap.blocks, heap.base)
      modifies this`words, heap`mem
      ensures heap.mem == Stored(Stored(old(heap.mem), Below(p, 4), raw - HEADER), Below(p, 8), alignment)
      ensures raw + 8 <= p <= raw + heap.blocks[k].size ==>
                && heap.Valid() && KeepsWords(ws, words, bs, heap.base)
                && p - 4 in words && words[p - 4] == raw - HEADER && p - 8 in words && words[p - 8] == alignment
    {
      hide Ok, Allocate, Addr, BestBelow, Represents, Live, Stored, Put, KeepsWords;
      ghost var m, w1 := heap.mem, words;
      Store(Below(p, 4), raw - HEADER);
      ghost var w2 := words;
      Store(Below(p, 8), alignment);
      if raw + 8 <= p <= raw + heap.blocks[k].size {
        StoredInPayload(m, heap.blocks, heap.base, k, p - 4, raw - HEADER);
        StoredInPayload(Stored(m, p - 4, raw - HEADER), heap.blocks, heap.base, k, p - 8, alignment);
        StoreSparesOthers(w1, bs, heap.base, k, n, p - 4, raw - HEADER);
        StoreSparesOthers(w2, bs, heap.base, k, n, p - 8, alignment);
        ChosenHolds(bs, n, k);
        AllocateLive(bs, heap.base, k, n);
        KeptInTurn(ws, w1, w2, words, bs, heap.blocks, heap.base);
        PutTwice(w1, p, raw - HEADER, alignment);
      }
    }

    /** An aligned allocation: one raw block is taken, and both hidden words are written just below the
        result. Where they lie inside that block the heap stays valid and every other word in a live
        payload is kept; without wrap-around they do, and so does the payload. `m` is the memory as
        kmalloc left it. */
    method KmallocAligned(size: nat, alignment: nat) returns (r: Outcome, ghost k: nat, ghost m: Memory)
      requires heap.Valid() && size < TWO32 && alignment < TWO32
      modifies this, heap
      ensures heap.base == old(heap.base) == heap.head && r.Returns?
      ensures Refused(old(heap.blocks), size, alignment) ==>
                r.ptr == 0 && heap.Valid() && heap.blocks == old(heap.blocks) && words == old(words)
      ensures !Refused(old(heap.blocks), size, alignment) ==>
                var n := Rounded(TotalSize(size, alignment));
                && BestFit(old(heap.blocks), n, k)
                && heap.blocks == Allocate(old(heap.blocks), heap.base, k, n)
                && k < |heap.blocks|
                && var raw := Addr(old(heap.blocks), heap.base, k) + HEADER;
                && r.ptr == AlignUp(raw, alignment) && r.ptr % alignment == 0
                && Represents(m, heap.blocks, heap.base)
                && heap.mem == Stored(Stored(m, Below(r.ptr, 4), raw - HEADER), Below(r.ptr, 8), alignment)
                && (WordsFit(raw, heap.blocks[k].size, alignment) ==>
                      && heap.Valid() && r.ptr >= 8 && KeepsWords(old(words), words, old(heap.blocks), heap.base)
                      && r.ptr - 4 in words && words[r.ptr - 4] == raw - HEADER
                      && r.ptr - 8 in words && words[r.ptr - 8] == alignment)
                && (size + alignment + 7 <= TWO32 - 4 ==>
                      WordsFit(raw, heap.blocks[k].size, alignment) && r.ptr + size <= raw + heap.blocks[k].size)
    {
      hide Ok, Allocate, Addr, BestBelow, NoneBelow, PowerOfTwo, Rounded, AlignUp, TotalSize, And, Represents, Live,
           Stored, Put, KeepsWords;
      m := heap.mem;
      if size == 0 || alignment == 0 { return Returns(0), 0, m; }
      PowerOfTwoTest(alignment);
      if And(alignment, alignment - 1) != 0 { return Returns(0), 0, m; }
      ghost var bs, ws := heap.blocks, words;
      var totalSize := TotalSize(size, alignment);
      var raw;
      raw, k := Kmalloc(totalSize);
      m := heap.mem;
      if raw.ptr == 0 { return Returns(0), k, m; }
      ghost var n := Rounded(totalSize);
      RoundedCovers(totalSize);
      ChosenHolds(bs, n, k);
      AllocatedBlock(bs, heap.base, k, n);
      PayloadFits(raw.ptr, heap.blocks[k].size, size, alignment);
      var p := AlignUp(raw.ptr, alignment);
      StoreHidden(p, raw.ptr, alignment, bs, ws, k, n);
      return Returns(p), k, m;
    }

    /** Frees the block the hidden words name; panics on a misaligned address or as kfree does. */
    method KfreeAligned(ptr: nat, ghost k: nat) returns (r: Outcome)
      requires heap.Valid()
      requires ptr != 0 ==>
                 && 8 <= ptr && ptr - 4 in words && ptr - 8 in words && words[ptr - 8] > 0
                 && k < |heap.blocks| && words[ptr - 4] == Addr(heap.blocks, heap.base, k)
      modifies this, heap
      ensures heap.Valid() && heap.base == old(heap.base)
      ensures r == Panics || r == Returns(0)
      ensures r.Panics? <==>
                ptr != 0 && !(ptr % old(words[ptr - 8]) == 0 && Intact(old(heap.blocks), heap.base, k))
      ensures heap.blocks ==
                if ptr == 0 || r.Panics? then old(heap.blocks) else Release(old(heap.blocks), heap.base, k)
      ensures KeepsWords(old(words), words, old(heap.blocks), heap.base)
    {
      hide Heap.Linked, Ok, Release, Addr, ByteSum, Live;
      if ptr == 0 { return Returns(0); }
      var alignment := words[ptr - 8];
      if ptr % alignment != 0 { return Panics; }
      r := Kfree(words[ptr - 4] + HEADER, k);
    }

    /** For every size and alignment that does not wrap, allocating and freeing restores the heap. */
    method RoundTrip(size: nat, alignment: nat) returns (r: Outcome)
      requires heap.Valid() && 0 < alignment && size + alignment + 7 <= TWO32 - 4
      modifies this, heap
      ensures heap.Valid() && heap.blocks == old(heap.blocks) && r.Returns?
    {
      hide Heap.Linked, Ok, Allocate, Release, Addr, ByteSum, BestBelow, NoneBelow, PowerOfTwo, Rounded, AlignUp,
           Represents, Stored, KeepsWords;
      ghost var bs := heap.blocks;
      var p, k, m := KmallocAligned(size, alignment);
      if p.ptr == 0 { return p; }
      ghost var n := Rounded(TotalSize(size, alignment));
      ChosenHolds(bs, n, k);
      FreeUndoesMalloc(bs, heap.base, k, n);
      AllocatedBlock(bs, heap.base, k, n);
      r := KfreeAligned(p.ptr, k);
    }
  }
}
