/** kmalloc and kfree over headers in memory: a doubly linked list of addresses with a magic number
    and a byte-sum checksum in every header, kept in step with the block list of HeapBlocks.
 */
module KernelHeap {
  import opened Division
  import opened HeapBlocks
  import opened Machine

  const MAGIC: nat := 0xDEADBEEF
  const FREE_MAGIC: nat := 0xFEEDFACE

  datatype Header = Header(magic: nat, size: nat, used: nat, next: nat, prev: nat, checksum: nat)

  /** The memory seen as headers, by address. 0 is the null pointer. */
  type Memory = map<nat, Header>

  // ----- checksums -----

  /** The sum of the four bytes of a 32-bit word. */
  function ByteSum(w: nat): nat {
    w % 256 + w / 256 % 256 + w / 256 / 256 % 256 + w / 256 / 256 / 256 % 256
  }

  /** A byte sum keeps the word's residue modulo 255. */
  lemma ByteSumResidue(w: nat)
    requires w < TWO32
    ensures ByteSum(w) % 255 == w % 255
  {
    var p, q, r := w / 256, w / 256 / 256, w / 256 / 256 / 256;
    assert r < 256;
    assert w == ByteSum(w) + 255 * (p + q + r);
    hide ByteSum;
    AddMultiple(ByteSum(w), p + q + r, 255);
  }

  /** calculate_block_checksum: the sum of the header's bytes before the checksum field. */
  function BlockChecksum(h: Header): nat {
    ByteSum(h.magic) + ByteSum(h.size) + ByteSum(h.used) + ByteSum(h.next) + ByteSum(h.prev)
  }

  predicate Verifies(h: Header) {
    && h.magic == (if h.used != 0 then MAGIC else FREE_MAGIC)
    && h.checksum == BlockChecksum(h)
  }

  function Sealed(h: Header): Header { h.(checksum := BlockChecksum(h)) }

  /** The byte sum adds up the word's four bytes. */
  lemma ByteSumAdds(a: nat, b: nat, c: nat, d: nat)
    requires a < 256 && b < 256 && c < 256 && d < 256
    ensures ByteSum(a + 0x100 * b + 0x1_0000 * c + 0x100_0000 * d) == a + b + c + d
  {
    DivisionUnique(c + 0x100 * d, 256, d, c);
    DivisionUnique(b + 0x100 * c + 0x1_0000 * d, 256, c + 0x100 * d, b);
    DivisionUnique(a + 0x100 * b + 0x1_0000 * c + 0x100_0000 * d, 256, b + 0x100 * c + 0x1_0000 * d, a);
  }

  /** Which overwritten fields integrity verification notices: another magic number or checksum always, a used
      field that turns free or used, and any other field whose bytes add up to something else. */
  lemma OverwriteNoticed(h: Header, v: nat)
    requires Verifies(h)
    ensures v != h.magic ==> !Verifies(h.(magic := v))
    ensures v != h.checksum ==> !Verifies(h.(checksum := v))
    ensures Verifies(h.(size := v)) <==> ByteSum(v) == ByteSum(h.size)
    ensures Verifies(h.(next := v)) <==> ByteSum(v) == ByteSum(h.next)
    ensures Verifies(h.(prev := v)) <==> ByteSum(v) == ByteSum(h.prev)
    ensures Verifies(h.(used := v)) <==> ByteSum(v) == ByteSum(h.used) && (v == 0 <==> h.used == 0)
  {
    hide ByteSum;
  }

  // ----- the headers of a block list -----

  /** The header of block `i`: its links are current, its checksum dates from its seal. */
  function HeaderOf(bs: seq<Block>, base: nat, i: nat): Header
    requires i < |bs|
  {
    var b := bs[i];
    var h := Header(if b.used then MAGIC else FREE_MAGIC, b.size, if b.used then 1 else 0,
                    Next(bs, base, i), b.seal, 0);
    Sealed(h).(prev := Prev(bs, base, i))
  }

  ghost predicate Represents(mem: Memory, bs: seq<Block>, base: nat) {
    forall i :: 0 <= i < |bs| ==> Addr(bs, base, i) in mem && mem[Addr(bs, base, i)] == HeaderOf(bs, base, i)
  }

  /** A header verifies exactly when the byte sums of its current and its sealed `prev` agree. */
  lemma VerifiesIff(bs: seq<Block>, base: nat, i: nat)
    requires i < |bs|
    ensures Verifies(HeaderOf(bs, base, i)) <==> ByteSum(bs[i].seal) == ByteSum(Prev(bs, base, i))
  {
  }

  /** The header of an unchanged block after a window replacement: only the block right after the
      window sees a new `prev`. */
  lemma HeaderKept(bs: seq<Block>, base: nat, k: nat, m: nat, w: seq<Block>, i: nat)
    requires k + m <= |bs| && 0 < m && 0 < |w| && SameExtent(bs, base, k, m, w)
    requires i < |bs| && !(k <= i < k + m)
    ensures var cs, i' := Replace(bs, k, m, w), if i < k then i else i - m + |w|;
      && 0 <= i' < |cs| && cs[i'] == bs[i] && Addr(cs, base, i') == Addr(bs, base, i)
      && HeaderOf(cs, base, i') ==
         if i == k + m then HeaderOf(bs, base, i).(prev := Addr(cs, base, k + |w| - 1)) else HeaderOf(bs, base, i)
  {
    hide Addr, BlockChecksum;
    if i < k {
      if 0 < i { AddrBefore(bs, base, k, m, w, i - 1); }
      AddrBefore(bs, base, k, m, w, i);
      AddrBefore(bs, base, k, m, w, i + 1);
    } else {
      if k + m < i { AddrAfter(bs, base, k, m, w, i - 1); }
      AddrAfter(bs, base, k, m, w, i);
      AddrAfter(bs, base, k, m, w, i + 1);
    }
  }

  /** What a change of memory must do for the replaced list to be represented: write the window's
      headers and the `prev` of the block after it, and leave the other headers alone. */
  lemma ReplaceRepresented(mem: Memory, bs: seq<Block>, base: nat, k: nat, m: nat, w: seq<Block>, mem': Memory)
    requires k + m <= |bs| && 0 < m && 0 < |w| && SameExtent(bs, base, k, m, w)
    requires Represents(mem, bs, base)
    requires var cs := Replace(bs, k, m, w);
      && (forall j :: k <= j < k + |w| ==>
            Addr(cs, base, j) in mem' && mem'[Addr(cs, base, j)] == HeaderOf(cs, base, j))
      && (k + m < |bs| ==>
            && Addr(bs, base, k + m) in mem'
            && mem'[Addr(bs, base, k + m)] == mem[Addr(bs, base, k + m)].(prev := Addr(cs, base, k + |w| - 1)))
      && (forall j :: 0 <= j < |bs| && !(k <= j <= k + m) ==>
            Addr(bs, base, j) in mem' && mem'[Addr(bs, base, j)] == mem[Addr(bs, base, j)])
    ensures Represents(mem', Replace(bs, k, m, w), base)
  {
    hide Addr, HeaderOf;
    var cs := Replace(bs, k, m, w);
    forall j | 0 <= j < |cs|
      ensures Addr(cs, base, j) in mem' && mem'[Addr(cs, base, j)] == HeaderOf(cs, base, j)
    {
      if j < k { HeaderKept(bs, base, k, m, w, j); }
      else if k + |w| <= j { HeaderKept(bs, base, k, m, w, j - |w| + m); }
    }
  }

  /** The other headers of a list lie outside block `k`. */
  lemma OutsideBlock(bs: seq<Block>, base: nat, k: nat, j: nat)
    requires k < |bs| && j <= |bs| && j != k
    ensures Addr(bs, base, j) < Addr(bs, base, k) || Addr(bs, base, k) + HEADER + bs[k].size <= Addr(bs, base, j)
  {
    if j < k { AddrGrows(bs, base, j, k); } else { AddrGrows(bs, base, k, j); }
  }

  function SetPrev(mem: Memory, a: nat, p: nat): Memory {
    if a != 0 && a in mem then mem[a := mem[a].(prev := p)] else mem
  }

  function After(bs: seq<Block>, base: nat, i: nat): nat
    requires i <= |bs|
  {
    if i == |bs| then 0 else Addr(bs, base, i)
  }

  /** Writing one header in place of `m` and pointing the block after them back at it. */
  lemma WriteOne(mem: Memory, bs: seq<Block>, base: nat, k: nat, m: nat, b: Block)
    requires Represents(mem, bs, base) && 0 < base && 0 < m && k + m <= |bs| && SameExtent(bs, base, k, m, [b])
    ensures var a, cs := Addr(bs, base, k), Replace(bs, k, m, [b]);
      Represents(SetPrev(mem, After(bs, base, k + m), a)[a := HeaderOf(cs, base, k)], cs, base)
  {
    hide Addr, HeaderOf;
    var a, cs := Addr(bs, base, k), Replace(bs, k, m, [b]);
    var mem' := SetPrev(mem, After(bs, base, k + m), a)[a := HeaderOf(cs, base, k)];
    AddrBefore(bs, base, k, m, [b], k);
    forall j | 0 <= j < |bs| && !(k <= j < k + m)
      ensures Addr(bs, base, j) != a && (j != k + m && k + m < |bs| ==> Addr(bs, base, j) != Addr(bs, base, k + m))
    {
      if Addr(bs, base, j) == a { AddrInjective(bs, base, j, k); }
      if k + m < |bs| && Addr(bs, base, j) == Addr(bs, base, k + m) { AddrInjective(bs, base, j, k + m); }
    }
    ReplaceRepresented(mem, bs, base, k, m, [b], mem');
  }

  lemma SecondPlace(bs: seq<Block>, base: nat, k: nat, b: Block, c: Block)
    requires k < |bs| && SameExtent(bs, base, k, 1, [b, c])
    ensures var a, cs := Addr(bs, base, k), Replace(bs, k, 1, [b, c]);
      && Addr(cs, base, k) == a
      && a < Addr(cs, base, k + 1) < a + HEADER + bs[k].size
  {
    AddrBefore(bs, base, k, 1, [b, c], k);
    AddrGrows(Replace(bs, k, 1, [b, c]), base, k, k + 1);
    AddrGrows(Replace(bs, k, 1, [b, c]), base, k + 1, k + 2);
  }

  /** Writing two headers in place of block `k` and pointing the block after it back at the second. */
  lemma WriteTwo(mem: Memory, bs: seq<Block>, base: nat, k: nat, b: Block, c: Block)
    requires Represents(mem, bs, base) && 0 < base && k < |bs| && SameExtent(bs, base, k, 1, [b, c])
    ensures var a, cs := Addr(bs, base, k), Replace(bs, k, 1, [b, c]);
      var rest := Addr(cs, base, k + 1);
      Represents(SetPrev(mem[rest := HeaderOf(cs, base, k + 1)], After(bs, base, k + 1), rest)
                   [a := HeaderOf(cs, base, k)], cs, base)
  {
    hide Addr, HeaderOf;
    var a, cs := Addr(bs, base, k), Replace(bs, k, 1, [b, c]);
    var rest := Addr(cs, base, k + 1);
    SecondPlace(bs, base, k, b, c);
    var split := mem[rest := HeaderOf(cs, base, k + 1)];
    var mem' := SetPrev(split, After(bs, base, k + 1), rest)[a := HeaderOf(cs, base, k)];
    forall j | 0 <= j < |bs| && j != k
      ensures Addr(bs, base, j) != a && Addr(bs, base, j) != rest
      ensures j != k + 1 && k + 1 < |bs| ==> Addr(bs, base, j) != Addr(bs, base, k + 1)
    {
      OutsideBlock(bs, base, k, j);
      if k + 1 < |bs| && Addr(bs, base, j) == Addr(bs, base, k + 1) { AddrInjective(bs, base, j, k + 1); }
    }
    ReplaceRepresented(mem, bs, base, k, 1, [b, c], mem');
  }

  /** The headers kmalloc writes are those of the carved window. */
  lemma CarvedHeaders(bs: seq<Block>, base: nat, k: nat, n: nat)
    requires k < |bs| && !bs[k].used && bs[k].size >= n
    ensures var a, cs, h := Addr(bs, base, k), Allocate(bs, base, k, n), HeaderOf(bs, base, k);
      if h.size > n + HEADER + 16 then
        && |cs| == |bs| + 1 && Addr(cs, base, k + 1) == a + HEADER + n
        && HeaderOf(cs, base, k) == Sealed(h.(size := n, next := a + HEADER + n, used := 1, magic := MAGIC))
        && HeaderOf(cs, base, k + 1) == Sealed(Header(FREE_MAGIC, h.size - n - HEADER, 0, h.next, a, 0))
      else
        |cs| == |bs| && HeaderOf(cs, base, k) == Sealed(h.(used := 1, magic := MAGIC))
  {
    hide ByteSum;
    var w, cs := Carved(bs, base, k, n), Allocate(bs, base, k, n);
    assert cs[k] == w[0] && |cs| == |bs| - 1 + |w|;
    CarvedExtent(bs, base, k, n);
    if 0 < k { AddrBefore(bs, base, k, 1, w, k - 1); }
    AddrAfter(bs, base, k, 1, w, k + 1);
    if |w| == 2 { assert cs[k + 1] == w[1]; }
  }

  lemma SplitWindow(bs: seq<Block>, base: nat, k: nat, n: nat) returns (b: Block, c: Block)
    requires k < |bs| && !bs[k].used && bs[k].size > n + HEADER + 16
    ensures Allocate(bs, base, k, n) == Replace(bs, k, 1, [b, c]) && SameExtent(bs, base, k, 1, [b, c])
  {
    b, c := Block(n, true, Prev(bs, base, k)), Block(bs[k].size - n - HEADER, false, Addr(bs, base, k));
    CarvedExtent(bs, base, k, n);
  }

  /** kmalloc's writes when it splits block `k` represent the new list. */
  lemma SplitRepresented(mem: Memory, bs: seq<Block>, base: nat, k: nat, n: nat)
    requires Represents(mem, bs, base) && 0 < base && k < |bs| && !bs[k].used && bs[k].size > n + HEADER + 16
    ensures var a, h := Addr(bs, base, k), HeaderOf(bs, base, k);
      var rest := a + HEADER + n;
      h.next == After(bs, base, k + 1) && h.size == bs[k].size &&
      Represents(SetPrev(mem[rest := Sealed(Header(FREE_MAGIC, h.size - n - HEADER, 0, h.next, a, 0))], h.next, rest)
                   [a := Sealed(h.(size := n, next := rest, used := 1, magic := MAGIC))],
                 Allocate(bs, base, k, n), base)
  {
    hide Addr, Replace, Allocate, Represents, SetPrev, SameExtent, BlockChecksum;
    assert HeaderOf(bs, base, k).next == After(bs, base, k + 1) && HeaderOf(bs, base, k).size == bs[k].size;
    hide HeaderOf, After, Sealed;
    var b, c := SplitWindow(bs, base, k, n);
    CarvedHeaders(bs, base, k, n);
    WriteTwo(mem, bs, base, k, b, c);
  }

  lemma PrevUnchanged(mem: Memory, bs: seq<Block>, base: nat, k: nat)
    requires Represents(mem, bs, base) && k < |bs|
    ensures SetPrev(mem, After(bs, base, k + 1), Addr(bs, base, k)) == mem
  {
    hide Addr, ByteSum;
    assert k + 1 < |bs| ==> HeaderOf(bs, base, k + 1).prev == Addr(bs, base, k);
  }

  /** kmalloc's write when it takes block `k` whole represents the new list. */
  lemma WholeRepresented(mem: Memory, bs: seq<Block>, base: nat, k: nat, n: nat)
    requires Represents(mem, bs, base) && 0 < base && k < |bs| && !bs[k].used && n <= bs[k].size <= n + HEADER + 16
    ensures Represents(mem[Addr(bs, base, k) := Sealed(HeaderOf(bs, base, k).(used := 1, magic := MAGIC))],
                       Allocate(bs, base, k, n), base)
  {
    hide Addr, HeaderOf, Represents, SetPrev, ByteSum;
    PrevUnchanged(mem, bs, base, k);
    CarvedExtent(bs, base, k, n);
    CarvedHeaders(bs, base, k, n);
    WriteOne(mem, bs, base, k, 1, Carved(bs, base, k, n)[0]);
  }

  /** The last header after an allocation: the new one when the last block was split. */
  lemma AllocateTail(bs: seq<Block>, base: nat, k: nat, n: nat)
    requires k < |bs| && bs[k].size >= n
    ensures var cs := Allocate(bs, base, k, n);
      && 0 < |cs|
      && Addr(cs, base, |cs| - 1) ==
         if k + 1 == |bs| && bs[k].size > n + HEADER + 16 then Addr(bs, base, k) + HEADER + n
         else Addr(bs, base, |bs| - 1)
  {
    var w, cs := Carved(bs, base, k, n), Allocate(bs, base, k, n);
    CarvedExtent(bs, base, k, n);
    assert cs[k] == w[0] && |cs| == |bs| - 1 + |w|;
    if k + 1 < |bs| { AddrAfter(bs, base, k, 1, w, |bs| - 1); }
  }

  /** Blocks `i` and `i + 1` joined into one free block sealed with its current `prev`. */
  function Joined(bs: seq<Block>, base: nat, i: nat): seq<Block>
    requires i + 1 < |bs|
  {
    Replace(bs, i, 2, [Block(bs[i].size + bs[i + 1].size + HEADER, false, Prev(bs, base, i))])
  }

  lemma JoinedFacts(bs: seq<Block>, base: nat, i: nat)
    requires i + 1 < |bs| && !bs[i].used
    ensures var b := Block(bs[i].size + bs[i + 1].size + HEADER, false, Prev(bs, base, i));
      SameExtent(bs, base, i, 2, [b])
    ensures var cs, h := Joined(bs, base, i), HeaderOf(bs, base, i);
      && |cs| == |bs| - 1
      && HeaderOf(cs, base, i) ==
         Sealed(h.(size := h.size + bs[i + 1].size + HEADER, next := HeaderOf(bs, base, i + 1).next))
      && HeaderOf(bs, base, i + 1).next == After(bs, base, i + 2)
      && Addr(cs, base, |cs|) == Addr(bs, base, |bs|)
      && Addr(cs, base, |cs| - 1) == if i + 2 == |bs| then Addr(bs, base, i) else Addr(bs, base, |bs| - 1)
  {
    hide ByteSum, Addr;
    var b := Block(bs[i].size + bs[i + 1].size + HEADER, false, Prev(bs, base, i));
    var cs := Joined(bs, base, i);
    AddrStep(bs, base, i);
    AddrStep(bs, base, i + 1);
    MergedExtent(bs, base, i, 2, b);
    assert cs[i] == b && |cs| == |bs| - 1;
    AddrBefore(bs, base, i, 2, [b], i);
    if 0 < i { AddrBefore(bs, base, i, 2, [b], i - 1); }
    AddrAfter(bs, base, i, 2, [b], i + 2);
    AddrAfter(bs, base, i, 2, [b], |bs|);
    if i + 2 < |bs| { AddrAfter(bs, base, i, 2, [b], |bs| - 1); }
  }

  lemma JoinedBefore(bs: seq<Block>, base: nat, i: nat)
    requires i + 1 < |bs|
    ensures var cs := Joined(bs, base, i);
      && i < |cs| && (forall j :: 0 <= j < i ==> cs[j] == bs[j])
      && forall j: nat :: j <= i ==> Addr(cs, base, j) == Addr(bs, base, j)
  {
    var cs := Joined(bs, base, i);
    forall j: nat | j <= i ensures Addr(cs, base, j) == Addr(bs, base, j) { AddrOfPrefix(cs, bs, base, j); }
  }

  /** kfree's writes when it joins two neighbours represent the joined list. */
  lemma JoinRepresented(mem: Memory, bs: seq<Block>, base: nat, i: nat)
    requires Represents(mem, bs, base) && 0 < base && i + 1 < |bs| && !bs[i].used
    ensures var a, h, n := Addr(bs, base, i), HeaderOf(bs, base, i), HeaderOf(bs, base, i + 1).next;
      Represents(SetPrev(mem, n, a)[a := Sealed(h.(size := h.size + bs[i + 1].size + HEADER, next := n))],
                 Joined(bs, base, i), base)
  {
    hide Addr, Replace, HeaderOf, Represents, SetPrev, SameExtent, Sealed, After;
    JoinedFacts(bs, base, i);
    WriteOne(mem, bs, base, i, 2, Block(bs[i].size + bs[i + 1].size + HEADER, false, Prev(bs, base, i)));
  }

  lemma {:induction false} SameSizes(cs: seq<Block>, bs: seq<Block>, base: nat, j: nat)
    requires j <= |bs| == |cs| && forall i :: 0 <= i < |bs| ==> cs[i].size == bs[i].size
    ensures Addr(cs, base, j) == Addr(bs, base, j)
    decreases j
  {
    if j == 0 {
    } else {
      SameSizes(cs, bs, base, j - 1);
    }
  }

  lemma MarkedHeader(bs: seq<Block>, base: nat, k: nat, j: nat)
    requires k < |bs| && j < |bs|
    ensures var cs := bs[k := Block(bs[k].size, false, Prev(bs, base, k))];
      HeaderOf(cs, base, j) ==
      if j == k then Sealed(HeaderOf(bs, base, k).(used := 0, magic := FREE_MAGIC)) else HeaderOf(bs, base, j)
  {
    hide Addr, ByteSum;
    var cs := bs[k := Block(bs[k].size, false, Prev(bs, base, k))];
    SameSizes(cs, bs, base, j + 1);
    if j > 0 { SameSizes(cs, bs, base, j - 1); }
  }

  /** Marking a block free where it stands. */
  lemma MarkFreeRepresented(mem: Memory, bs: seq<Block>, base: nat, k: nat)
    requires Represents(mem, bs, base) && 0 < base && k < |bs|
    ensures var cs := bs[k := Block(bs[k].size, false, Prev(bs, base, k))];
      && Represents(mem[Addr(bs, base, k) := Sealed(HeaderOf(bs, base, k).(used := 0, magic := FREE_MAGIC))], cs, base)
      && forall j: nat :: j <= |bs| ==> Addr(cs, base, j) == Addr(bs, base, j)
  {
    hide ByteSum, Addr, HeaderOf, Sealed;
    var cs := bs[k := Block(bs[k].size, false, Prev(bs, base, k))];
    forall j: nat | j <= |bs| ensures Addr(cs, base, j) == Addr(bs, base, j) { SameSizes(cs, bs, base, j); }
    forall j | 0 <= j < |bs|
      ensures j != k ==> Addr(bs, base, j) != Addr(bs, base, k) && HeaderOf(cs, base, j) == HeaderOf(bs, base, j)
    {
      MarkedHeader(bs, base, k, j);
      if Addr(bs, base, j) == Addr(bs, base, k) { AddrInjective(bs, base, j, k); }
    }
    MarkedHeader(bs, base, k, k);
  }

  lemma NeighbourSeals(bs: seq<Block>, base: nat, k: nat)
    requires Ok(bs, base) && k < |bs|
    ensures NoTwoFree(bs)
    ensures k + 1 < |bs| && !bs[k + 1].used ==> bs[k + 1].seal == Prev(bs, base, k + 1)
    ensures 0 < k && !bs[k - 1].used ==> bs[k - 1].seal == Prev(bs, base, k - 1)
  {
  }

  /** Freeing in place, then joining with a free next block, then with a free previous block, is
      Release. */
  lemma ReleaseInSteps(bs: seq<Block>, base: nat, k: nat)
    requires NoTwoFree(bs) && k < |bs| && bs[k].used
    ensures var b1 := bs[k := Block(bs[k].size, false, Prev(bs, base, k))];
      var b2 := if k + 1 < |bs| && !bs[k + 1].used then Joined(b1, base, k) else b1;
      var b3 := if 0 < k && !bs[k - 1].used then Joined(b2, base, k - 1) else b2;
      b3 == Release(bs, base, k)
  {
    hide Addr, Joined, Replace;
    JoinNext(bs, base, k);
    if 0 < k && !bs[k - 1].used { JoinPrev(bs, base, k, MergeTo(bs, k)); }
  }

  /** The free block that covers blocks `lo` to `hi`. */
  function Span(bs: seq<Block>, base: nat, lo: nat, hi: nat): seq<Block>
    requires lo < hi <= |bs|
  {
    AddrGrows(bs, base, lo, hi);
    Replace(bs, lo, hi - lo, [Block(Addr(bs, base, hi) - Addr(bs, base, lo) - HEADER, false, Prev(bs, base, lo))])
  }

  lemma JoinNext(bs: seq<Block>, base: nat, k: nat)
    requires k < |bs| && bs[k].used
    ensures var b1 := bs[k := Block(bs[k].size, false, Prev(bs, base, k))];
      var b2 := if k + 1 < |bs| && !bs[k + 1].used then Joined(b1, base, k) else b1;
      b2 == Span(bs, base, k, MergeTo(bs, k))
  {
    hide Addr;
    var b1 := bs[k := Block(bs[k].size, false, Prev(bs, base, k))];
    AddrStep(bs, base, k);
    if k + 1 < |bs| {
      AddrStep(bs, base, k + 1);
      assert b1[k + 2..] == bs[k + 2..];
    }
    assert b1[..k] == bs[..k];
    if 0 < k { AddrOfPrefix(b1, bs, base, k - 1); }
  }

  lemma JoinPrev(bs: seq<Block>, base: nat, k: nat, hi: nat)
    requires 0 < k < hi <= |bs|
    ensures var b2 := Span(bs, base, k, hi);
      k < |b2| && Joined(b2, base, k - 1) == Span(bs, base, k - 1, hi)
  {
    hide Addr;
    var b2 := Span(bs, base, k, hi);
    AddrStep(bs, base, k - 1);
    AddrGrows(bs, base, k, hi);
    if 1 < k { AddrOfPrefix(b2, bs, base, k - 2); }
    assert b2[..k - 1] == bs[..k - 1] && b2[k - 1] == bs[k - 1] && b2[k + 1..] == bs[hi..];
  }

  // ----- what the allocator writes -----

  /** Some header of the list is at `a`. */
  ghost predicate IsHeader(bs: seq<Block>, base: nat, a: nat) {
    exists i: nat :: i < |bs| && a == Addr(bs, base, i)
  }

  /** From `mem` to `mem'` nothing changed but headers of the list. */
  ghost predicate OnlyHeaders(mem: Memory, mem': Memory, bs: seq<Block>, base: nat) {
    forall a :: a in mem' && (a !in mem || mem'[a] != mem[a]) ==> IsHeader(bs, base, a)
  }

  /** The headers an allocation writes are headers of the list it makes. */
  lemma CarvedPlaces(bs: seq<Block>, base: nat, k: nat, n: nat)
    requires k < |bs| && !bs[k].used && bs[k].size >= n
    ensures var a, cs := Addr(bs, base, k), Allocate(bs, base, k, n);
      && IsHeader(cs, base, a)
      && (bs[k].size > n + HEADER + 16 ==> IsHeader(cs, base, a + HEADER + n))
      && (k + 1 < |bs| ==> IsHeader(cs, base, Addr(bs, base, k + 1)))
  {
    hide Addr, HeaderOf;
    var w, cs := Carved(bs, base, k, n), Allocate(bs, base, k, n);
    CarvedExtent(bs, base, k, n);
    CarvedHeaders(bs, base, k, n);
    AddrAfter(bs, base, k, 1, w, k + 1);
    assert HeaderOf(bs, base, k).size == bs[k].size by { SizeInHeader(bs, base, k); }
    assert k + 1 < |bs| ==> k + |w| < |cs| && Addr(cs, base, k + |w|) == Addr(bs, base, k + 1);
    assert IsHeader(cs, base, Addr(cs, base, k));
  }

  lemma SizeInHeader(bs: seq<Block>, base: nat, k: nat)
    requires k < |bs|
    ensures HeaderOf(bs, base, k).size == bs[k].size
  {
  }

  /** A merge leaves only headers that were there before. */
  lemma JoinedPlaces(bs: seq<Block>, base: nat, i: nat, a: nat)
    requires i + 1 < |bs| && IsHeader(Joined(bs, base, i), base, a)
    ensures IsHeader(bs, base, a)
  {
    hide Addr;
    var b, cs := Block(bs[i].size + bs[i + 1].size + HEADER, false, Prev(bs, base, i)), Joined(bs, base, i);
    AddrStep(bs, base, i);
    AddrStep(bs, base, i + 1);
    MergedExtent(bs, base, i, 2, b);
    var j: nat :| j < |cs| && a == Addr(cs, base, j);
    if j <= i { AddrBefore(bs, base, i, 2, [b], j); } else { AddrAfter(bs, base, i, 2, [b], j + 1); }
  }

  /** Marking a block free and merging it with the next one leave only headers of the list before. */
  lemma SamePlaces(bs: seq<Block>, marked: seq<Block>, joined: seq<Block>, base: nat, k: nat)
    requires |marked| == |bs| && forall j: nat :: j <= |bs| ==> Addr(marked, base, j) == Addr(bs, base, j)
    requires joined == marked || (k + 1 < |marked| && joined == Joined(marked, base, k))
    ensures forall a :: IsHeader(marked, base, a) || IsHeader(joined, base, a) ==> IsHeader(bs, base, a)
  {
    hide Addr, Joined;
    forall a | IsHeader(marked, base, a) || IsHeader(joined, base, a) ensures IsHeader(bs, base, a) {
      if !IsHeader(marked, base, a) { JoinedPlaces(marked, base, k, a); }
    }
  }

  /** The block is in use, and its checksum still covers where its left neighbour is now. */
  predicate Intact(bs: seq<Block>, base: nat, k: nat)
    requires k < |bs|
  {
    bs[k].used && ByteSum(bs[k].seal) == ByteSum(Prev(bs, base, k))
  }

  /** Memory without what was left of headers that the one at `a` overlaps. */
  function Purged(mem: Memory, a: nat): Memory {
    map h | h in mem && (h == a || h + HEADER <= a || a + HEADER <= h) :: mem[h]
  }

  /** A header of the list overlaps no other header of it. */
  lemma PurgedRepresents(mem: Memory, bs: seq<Block>, base: nat, a: nat)
    requires Represents(mem, bs, base) && IsHeader(bs, base, a)
    ensures Represents(Purged(mem, a), bs, base)
  {
    hide Addr, HeaderOf;
    var k: nat :| k < |bs| && a == Addr(bs, base, k);
    forall i: nat | i < |bs| ensures Addr(bs, base, i) in Purged(mem, a) {
      if i < k { AddrGrows(bs, base, i, k); } else if k < i { AddrGrows(bs, base, k, i); }
    }
  }

  // ----- words stored by others -----

  /** The word at `a` and the header at `h` do not overlap. */
  predicate Apart(h: nat, a: nat) { a + 4 <= h || h + HEADER <= a }

  /** The four bytes of a word in memory, and the word four bytes make. */
  function WordBytes(w: nat): (s: seq<nat>)
    ensures |s| == 4
  {
    [w % 256, w / 256 % 256, w / 256 / 256 % 256, w / 256 / 256 / 256 % 256]
  }

  function WordFrom(s: seq<nat>): nat
    requires |s| == 4
  {
    s[0] + 0x100 * s[1] + 0x1_0000 * s[2] + 0x100_0000 * s[3]
  }

  function HeaderBytes(h: Header): (s: seq<nat>)
    ensures |s| == HEADER
  {
    WordBytes(h.magic) + WordBytes(h.size) + WordBytes(h.used) + WordBytes(h.next) + WordBytes(h.prev) +
    WordBytes(h.checksum)
  }

  function HeaderFrom(s: seq<nat>): Header
    requires |s| == HEADER
  {
    Header(WordFrom(s[..4]), WordFrom(s[4..8]), WordFrom(s[8..12]), WordFrom(s[12..16]), WordFrom(s[16..20]),
           WordFrom(s[20..]))
  }

  /** The header once a word is stored `at` bytes from its start. */
  function Overlaid(h: Header, at: int, value: nat): Header {
    HeaderFrom(seq(HEADER, i requires 0 <= i < HEADER =>
      if at <= i < at + 4 then WordBytes(value)[i - at] else HeaderBytes(h)[i]))
  }

  /** Memory once a word is stored at `a`: every header it overlaps changes with it. */
  function Stored(mem: Memory, a: nat, value: nat): Memory {
    map h | h in mem :: if Apart(h, a) then mem[h] else Overlaid(mem[h], a - h, value)
  }

  lemma WordRoundTrip(w: nat)
    requires w < TWO32
    ensures WordFrom(WordBytes(w)) == w
  {
  }

  predicate IsWords(h: Header) {
    h.magic < TWO32 && h.size < TWO32 && h.used < TWO32 && h.next < TWO32 && h.prev < TWO32 && h.checksum < TWO32
  }

  lemma FieldBytes(h: Header)
    ensures var b := HeaderBytes(h);
      && b[..4] == WordBytes(h.magic) && b[4..8] == WordBytes(h.size) && b[8..12] == WordBytes(h.used)
      && b[12..16] == WordBytes(h.next) && b[16..20] == WordBytes(h.prev) && b[20..] == WordBytes(h.checksum)
  {
    hide WordBytes;
    var b := HeaderBytes(h);
    assert b[..4] == WordBytes(h.magic);
    assert b[4..8] == WordBytes(h.size);
    assert b[8..12] == WordBytes(h.used);
    assert b[12..16] == WordBytes(h.next);
    assert b[16..20] == WordBytes(h.prev);
    assert b[20..] == WordBytes(h.checksum);
  }

  lemma FieldReplaced(h: Header, at: nat, value: nat)
    requires at == 8 || at == 12
    ensures Overlaid(h, at, value) ==
            Header(WordFrom(WordBytes(h.magic)), WordFrom(WordBytes(h.size)),
                   WordFrom(WordBytes(if at == 8 then value else h.used)),
                   WordFrom(WordBytes(if at == 12 then value else h.next)),
                   WordFrom(WordBytes(h.prev)), WordFrom(WordBytes(h.checksum)))
  {
    hide WordBytes, WordFrom;
    var s := seq(HEADER, i requires 0 <= i < HEADER =>
      if at <= i < at + 4 then WordBytes(value)[i - at] else HeaderBytes(h)[i]);
    FieldBytes(h);
    hide HeaderBytes;
    var b := HeaderBytes(h);
    assert s[..4] == b[..4] && s[4..8] == b[4..8] && s[16..20] == b[16..20] && s[20..] == b[20..];
    assert s[8..12] == if at == 8 then WordBytes(value) else b[8..12];
    assert s[12..16] == if at == 12 then WordBytes(value) else b[12..16];
  }

  /** A word stored over a field of a header replaces that field. */
  lemma StoredField(h: Header, value: nat)
    requires IsWords(h) && value < TWO32
    ensures Overlaid(h, 8, value) == h.(used := value)
    ensures Overlaid(h, 12, value) == h.(next := value)
  {
    hide WordBytes, WordFrom, Overlaid;
    WordRoundTrip(h.magic);
    WordRoundTrip(h.size);
    WordRoundTrip(h.used);
    WordRoundTrip(h.next);
    WordRoundTrip(h.prev);
    WordRoundTrip(h.checksum);
    WordRoundTrip(value);
    FieldReplaced(h, 8, value);
    FieldReplaced(h, 12, value);
  }

  /** A word stored inside a block's payload leaves the list alone. */
  lemma StoredInPayload(mem: Memory, bs: seq<Block>, base: nat, k: nat, a: nat, value: nat)
    requires Represents(mem, bs, base) && k < |bs|
    requires Addr(bs, base, k) + HEADER <= a && a + 4 <= Addr(bs, base, k) + HEADER + bs[k].size
    ensures Represents(Stored(mem, a, value), bs, base)
  {
    hide Addr, HeaderOf, Overlaid;
    forall i | 0 <= i < |bs| ensures Apart(Addr(bs, base, i), a) {
      if i < k { AddrGrows(bs, base, i, k); } else if k < i { AddrGrows(bs, base, k, i); }
    }
  }

  /** Headers keep their place and their `used` field. */
  ghost predicate UsedKept(mem: Memory, mem': Memory) {
    forall h :: h in mem ==> h in mem' && mem'[h].used == mem[h].used
  }

  /** What kfree goes on with: a header in use that verifies. */
  predicate Accepted(h: Header) { Verifies(h) && h.used != 0 }

  // ----- the allocator -----

  /** What a call leaves behind: a pointer (0 for NULL), or a kernel panic. */
  datatype Outcome = Returns(ptr: nat) | Panics

  class Heap {
    var mem: Memory
    var head: nat
    var tail: nat
    ghost var base: nat
    ghost var blocks: seq<Block>

    /** The headers in memory are linked as the block list says. */
    ghost predicate Linked()
      reads this
    {
      && 0 < base && base + HEAP_SIZE < TWO32
      && 0 < |blocks| && Addr(blocks, base, |blocks|) == base + HEAP_SIZE
      && Represents(mem, blocks, base)
      && head == base && tail == Addr(blocks, base, |blocks| - 1)
    }

    ghost predicate Valid()
      reads this
    {
      Linked() && Ok(blocks, base)
    }

    /** heap_init with the heap placed at `end`, the end of the kernel image; false is the panic on a
        region that would run past the address space. */
    method HeapInit(end: nat) returns (ok: bool)
      requires 0 < end < TWO32
      modifies this
      ensures ok <==> end + HEAP_SIZE < TWO32
      ensures ok ==> Valid() && base == end && blocks == Initial()
    {
      var heapEnd := (end + HEAP_SIZE) % TWO32;
      if heapEnd <= end { return false; }
      head, tail := end, end;
      mem := Purged(mem[end := Sealed(Header(FREE_MAGIC, HEAP_SIZE - HEADER, 0, 0, 0, 0))], end);
      base, blocks := end, Initial();
      InitialOk(end);
      return true;
    }

    /** A 32-bit store anywhere in memory. Inside a payload it leaves the heap valid. */
    method StoreWord(a: nat, value: nat)
      modifies this`mem
      ensures mem == Stored(old(mem), a, value)
    {
      mem := map h | h in mem :: if a + 4 <= h || h + HEADER <= a then mem[h] else Overlaid(mem[h], a - h, value);
    }

    /** What following a pointer to block `i` reads. */
    lemma ReadBlock(i: nat)
      requires Linked() && i < |blocks|
      ensures var a := Addr(blocks, base, i);
        && 0 < a < TWO32 && a in mem && mem[a] == HeaderOf(blocks, base, i)
        && mem[a].size == blocks[i].size < TWO32 - 1 && (mem[a].used != 0 <==> blocks[i].used)
        && mem[a].next == Next(blocks, base, i) && mem[a].prev == Prev(blocks, base, i)
    {
      AddrGrows(blocks, base, i, |blocks|);
    }

    lemma SearchStart(n: nat)
      requires Valid()
      ensures Linked() && 0 < |blocks| && head == Addr(blocks, base, 0) && SearchedTo(blocks, n, 0, false, 0)
    {
    }

    /** The search loop of kmalloc: the address of the best fitting block, or 0. */
    method FindBestFit(n: nat) returns (bestFit: nat, ghost k: nat)
      requires Valid() && n < TWO32
      ensures bestFit == 0 ==> NoFit(blocks, n)
      ensures bestFit != 0 ==> BestFit(blocks, n, k) && bestFit == Addr(blocks, base, k)
    {
      hide Heap.Valid, Heap.Linked, Addr, BestBelow, SearchedTo, BestFit, NoFit, HeaderOf;
      SearchStart(n);
      var block, bestFitSize := head, TWO32 - 1;
      bestFit, k := 0, 0;
      ghost var i := 0;
      while block != 0
        invariant 0 <= i <= |blocks| && block == if i == |blocks| then 0 else Addr(blocks, base, i)
        invariant SearchedTo(blocks, n, i, bestFit != 0, k)
        invariant bestFit == 0 ==> bestFitSize == TWO32 - 1
        invariant bestFit != 0 ==> k < |blocks| && bestFit == Addr(blocks, base, k) && bestFitSize == blocks[k].size
        decreases |blocks| - i
      {
        ReadBlock(i);
        SearchStep(blocks, n, i, bestFit != 0, k);
        var h := mem[block];
        if h.used == 0 && h.size >= n {
          if h.size < bestFitSize {
            bestFit, bestFitSize, k := block, h.size, i;
            if bestFitSize == n { return; }
          }
        }
        block, i := h.next, i + 1;
      }
      SearchEnd(blocks, n, bestFit != 0, k);
    }

    /** The second half of kmalloc: split block `k` when the rest is worth a header, and mark it used. */
    method Carve(block: nat, n: nat, ghost k: nat)
      requires Valid() && k < |blocks| && !blocks[k].used && blocks[k].size >= n && n >= 16 && n % 4 == 0
      requires block == Addr(blocks, base, k)
      modifies this
      ensures Valid() && base == old(base) && blocks == Allocate(old(blocks), base, k, n)
      ensures OnlyHeaders(old(mem), mem, blocks, base)
    {
      hide Addr, Represents, HeaderOf, ByteSum, Allocate, IsHeader;
      CarvedPlaces(blocks, base, k, n);
      ReadBlock(k);
      if k + 1 < |blocks| { ReadBlock(k + 1); }
      AllocateOk(blocks, base, k, n);
      AllocateTail(blocks, base, k, n);
      var h := mem[block];
      if h.size > n + HEADER + 16 {
        SplitRepresented(mem, blocks, base, k, n);
        var newBlock := block + HEADER + n;
        mem := mem[newBlock := Sealed(Header(FREE_MAGIC, h.size - n - HEADER, 0, h.next, block, 0))];
        if h.next != 0 {
          mem := mem[h.next := mem[h.next].(prev := newBlock)];
        } else {
          tail := newBlock;
        }
        ghost var m := mem;
        mem := mem[block := Sealed(h.(size := n, next := newBlock))];
        mem := mem[block := Sealed(mem[block].(used := 1, magic := MAGIC))];
        assert mem == m[block := Sealed(h.(size := n, next := newBlock, used := 1, magic := MAGIC))];
        PurgedRepresents(mem, Allocate(blocks, base, k, n), base, newBlock);
        mem := Purged(mem, newBlock);
      } else {
        WholeRepresented(mem, blocks, base, k, n);
        mem := mem[block := Sealed(mem[block].(used := 1, magic := MAGIC))];
      }
      blocks := Allocate(blocks, base, k, n);
    }

    /** Best-fit allocation. The corruption panic is unreachable; NULL comes back exactly for size 0
        and when no free block is large enough. For every request whose rounding does not wrap, that is when
        every free block is smaller than the request; otherwise the smallest free block that holds it is
        used, and at most 40 bytes more of it than rounding to a multiple of 4 and to 16 asks for. */
    method Kmalloc(size: nat) returns (r: Outcome, ghost k: nat)
      requires Valid() && size < TWO32
      modifies this
      ensures Valid() && base == old(base) && r.Returns?
      ensures r.ptr == 0 <==> size == 0 || NoFit(old(blocks), Rounded(size))
      ensures r.ptr == 0 ==> blocks == old(blocks) && mem == old(mem)
      ensures r.ptr != 0 ==>
                && BestFit(old(blocks), Rounded(size), k)
                && r.ptr == Addr(old(blocks), base, k) + HEADER
                && blocks == Allocate(old(blocks), base, k, Rounded(size))
      ensures 0 < size <= TWO32 - 4 ==>
                && (r.ptr == 0 <==> AllSmaller(old(blocks), size))
                && (r.ptr != 0 ==>
                      && BestFit(old(blocks), size, k) && k < |blocks| && blocks[k].used
                      && Snug(old(blocks), k, size, blocks[k].size))
      ensures OnlyHeaders(old(mem), mem, blocks, base)
    {
      hide Rounded, BestBelow, NoneBelow, AllSmaller, Snug, Allocate, Addr, HeaderOf;
      if size == 0 { return Returns(0), 0; }
      var n := (size + 3) % TWO32 / 4 * 4;
      if n < 16 { n := 16; }
      RoundedUnfolds(size);
      RoundedCovers(size);
      if size <= TWO32 - 4 { RoundingDecidesNothing(blocks, size); }
      var block;
      block, k := FindBestFit(n);
      if block == 0 { return Returns(0), k; }
      BestFitDecides(blocks, n, k);
      ChosenHolds(blocks, n, k);
      ReadBlock(k);
      VerifiesIff(blocks, base, k);
      if !Verifies(mem[block]) { return Panics, k; }
      if size <= TWO32 - 4 { AllocateSnug(blocks, base, k, size); }
      Carve(block, n, k);
      return Returns(block + HEADER), k;
    }

    /** The join step of kfree, used for the next and for the previous block alike: the header at `a`
        takes over its right neighbour at `b`. */
    method Absorb(a: nat, b: nat, ghost i: nat)
      requires Linked() && i + 1 < |blocks| && !blocks[i].used
      requires a == Addr(blocks, base, i) && b == Addr(blocks, base, i + 1)
      modifies this
      ensures Linked() && base == old(base) && blocks == Joined(old(blocks), base, i)
      ensures OnlyHeaders(old(mem), mem, old(blocks), base) && UsedKept(old(mem), mem)
    {
      hide Addr, Represents, HeaderOf, ByteSum, Joined;
      ReadBlock(i);
      ReadBlock(i + 1);
      if i + 2 < |blocks| {
        ReadBlock(i + 2);
        AddrGrows(blocks, base, i, i + 2);
      }
      JoinedFacts(blocks, base, i);
      JoinRepresented(mem, blocks, base, i);
      var h := mem[a];
      var next := mem[b].next;
      ghost var size := h.size + mem[b].size + HEADER;
      mem := mem[a := h.(size := h.size + mem[b].size + HEADER, next := next)];
      if next != 0 {
        mem := mem[next := mem[next].(prev := a)];
      } else {
        tail := a;
      }
      mem := mem[a := Sealed(mem[a])];
      assert mem == SetPrev(old(mem), next, a)[a := Sealed(h.(size := size, next := next))];
      blocks := Joined(blocks, base, i);
    }

    /** The first step of kfree. */
    method MarkFree(block: nat, ghost k: nat)
      requires Linked() && k < |blocks| && block == Addr(blocks, base, k)
      modifies this
      ensures Linked() && base == old(base)
      ensures blocks == old(blocks)[k := Block(old(blocks)[k].size, false, Prev(old(blocks), base, k))]
      ensures forall j: nat :: j <= |blocks| ==> Addr(blocks, base, j) == Addr(old(blocks), base, j)
      ensures OnlyHeaders(old(mem), mem, old(blocks), base) && block in mem && mem[block].used == 0
    {
      hide Addr, Represents, HeaderOf, ByteSum;
      ReadBlock(k);
      MarkFreeRepresented(mem, blocks, base, k);
      mem := mem[block := Sealed(mem[block].(used := 0, magic := FREE_MAGIC))];
      blocks := blocks[k := Block(blocks[k].size, false, Prev(blocks, base, k))];
    }

    /** Joins with the next block when it is free; a free block always verifies. */
    method MergeNext(block: nat, ghost k: nat)
      requires Linked() && k < |blocks| && block == Addr(blocks, base, k) && !blocks[k].used
      requires k + 1 < |blocks| && !blocks[k + 1].used ==> blocks[k + 1].seal == Prev(blocks, base, k + 1)
      modifies this
      ensures Linked() && base == old(base)
      ensures blocks == if k + 1 < |old(blocks)| && !old(blocks)[k + 1].used then Joined(old(blocks), base, k)
                        else old(blocks)
      ensures OnlyHeaders(old(mem), mem, old(blocks), base) && UsedKept(old(mem), mem)
    {
      hide Linked, Addr, Joined, ByteSum;
      ReadBlock(k);
      if k + 1 < |blocks| {
        ReadBlock(k + 1);
        VerifiesIff(blocks, base, k + 1);
      }
      var next := mem[block].next;
      if next != 0 && mem[next].used == 0 && Verifies(mem[next]) {
        Absorb(block, next, k);
      }
    }

    /** Joins with the previous block when it is free; a free block always verifies. */
    method MergePrev(block: nat, ghost k: nat)
      requires Linked() && k < |blocks| && block == Addr(blocks, base, k)
      requires 0 < k && !blocks[k - 1].used ==> blocks[k - 1].seal == Prev(blocks, base, k - 1)
      modifies this
      ensures Linked() && base == old(base)
      ensures blocks == if 0 < k && !old(blocks)[k - 1].used then Joined(old(blocks), base, k - 1) else old(blocks)
      ensures OnlyHeaders(old(mem), mem, old(blocks), base) && UsedKept(old(mem), mem)
    {
      hide Linked, Addr, Joined, ByteSum;
      ReadBlock(k);
      if 0 < k {
        ReadBlock(k - 1);
        VerifiesIff(blocks, base, k - 1);
      }
      var prev := mem[block].prev;
      if prev != 0 && mem[prev].used == 0 && Verifies(mem[prev]) {
        Absorb(prev, block, k - 1);
      }
    }

    /** `ptr` is the payload of block `k`. */
    ghost predicate Listed(ptr: nat, k: nat)
      reads this
    {
      k < |blocks| && ptr == Addr(blocks, base, k) + HEADER
    }

    /** Frees a pointer whose header is in the list, or whose header kfree rejects. It panics exactly
        unless the pointer is listed and its block is intact: in use, and its `prev` not moved since its
        checksum was computed to an address with another byte sum. Then the block is freed and merged
        with its free neighbours; its header, listed or not, says free. */
    method Kfree(ptr: nat, ghost k: nat) returns (r: Outcome)
      requires Valid()
      requires ptr == 0 || Listed(ptr, k) || (HEADER <= ptr && ptr - HEADER in mem && !Accepted(mem[ptr - HEADER]))
      modifies this
      ensures Valid() && base == old(base)
      ensures r == Panics || r == Returns(0)
      ensures r.Panics? <==> ptr != 0 && !(old(Listed(ptr, k)) && Intact(old(blocks), base, k))
      ensures blocks == if ptr == 0 || r.Panics? then old(blocks) else Release(old(blocks), base, k)
      ensures ptr != 0 && r.Returns? ==> HEADER <= ptr && ptr - HEADER in mem && mem[ptr - HEADER].used == 0
      ensures OnlyHeaders(old(mem), mem, old(blocks), base)
    {
      hide Addr, ByteSum, Joined, Release, Linked, Ok, IsHeader;
      if ptr == 0 { return Returns(0); }
      var block := ptr - HEADER;
      if Listed(ptr, k) {
        NeighbourSeals(blocks, base, k);
        ReadBlock(k);
        VerifiesIff(blocks, base, k);
      }
      if !Verifies(mem[block]) { return Panics; }
      if mem[block].used == 0 { return Panics; }
      ReleaseOk(blocks, base, k);
      ReleaseInSteps(blocks, base, k);
      MarkFree(block, k);
      ghost var marked := blocks;
      if k + 1 < |blocks| { JoinedBefore(blocks, base, k); }
      MergeNext(block, k);
      ghost var joined := blocks;
      MergePrev(block, k);
      SamePlaces(old(blocks), marked, joined, base, k);
      return Returns(0);
    }

    /** Freeing the same pointer twice in a row always panics, whether the block was merged or not. */
    method DoubleFree(ptr: nat, ghost k: nat) returns (first: Outcome, second: Outcome)
      requires Valid() && ptr != 0 && Listed(ptr, k)
      modifies this
      ensures first.Panics? || second.Panics?
      ensures blocks == if first.Panics? then old(blocks) else Release(old(blocks), base, k)
    {
      hide Addr, Release, Linked, Ok;
      first := Kfree(ptr, k);
      if first.Panics? { return first, first; }
      second := Kfree(ptr, |blocks|);
    }
  }
}
