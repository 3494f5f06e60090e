/** The kernel heap as a list of blocks that tile one region: what kmalloc and kfree do to it.

    A block's header is 24 bytes. `seal` is the value its `prev` pointer had when its checksum was
    last computed: the source changes a neighbour's `prev` without refreshing the checksum, so a
    used block's seal may be out of date.
 */
module HeapBlocks {
  import opened Machine

  const HEADER: nat := 24
  const HEAP_SIZE: nat := 0x100_0000

  datatype Block = Block(size: nat, used: bool, seal: nat)

  /** The address of block `i`'s header; of the end of the region when `i` is the length. */
  function Addr(bs: seq<Block>, base: nat, i: nat): (a: nat)
    requires i <= |bs|
    ensures a >= base
    decreases i
  {
    if i == 0 then base else Addr(bs, base, i - 1) + HEADER + bs[i - 1].size
  }

  function Prev(bs: seq<Block>, base: nat, i: nat): nat
    requires i <= |bs|
  {
    if i == 0 then 0 else Addr(bs, base, i - 1)
  }

  function Next(bs: seq<Block>, base: nat, i: nat): nat
    requires i < |bs|
  {
    if i + 1 == |bs| then 0 else Addr(bs, base, i + 1)
  }

  lemma {:induction false} AddrGrows(bs: seq<Block>, base: nat, i: nat, j: nat)
    requires i < j <= |bs|
    ensures Addr(bs, base, i) + HEADER + bs[i].size <= Addr(bs, base, j)
    decreases j
  {
    if i == j - 1 {
    } else {
      AddrGrows(bs, base, i, j - 1);
    }
  }

  lemma AddrStep(bs: seq<Block>, base: nat, i: nat)
    requires i < |bs|
    ensures Addr(bs, base, i + 1) == Addr(bs, base, i) + HEADER + bs[i].size
  {
  }

  /** Addresses depend only on the blocks before them. */
  lemma {:induction false} AddrOfPrefix(bs: seq<Block>, cs: seq<Block>, base: nat, i: nat)
    requires i <= |bs| && i <= |cs|
    requires forall j: nat :: j < i ==> bs[j].size == cs[j].size
    ensures Addr(bs, base, i) == Addr(cs, base, i)
    decreases i
  {
    if i == 0 {
    } else {
      AddrOfPrefix(bs, cs, base, i - 1);
    }
  }

  // ----- replacing a window of blocks by others of the same extent -----

  /** `bs[k..k + m]` replaced by `w`. */
  function Replace(bs: seq<Block>, k: nat, m: nat, w: seq<Block>): seq<Block>
    requires k + m <= |bs|
  {
    bs[..k] + w + bs[k + m..]
  }

  ghost predicate SameExtent(bs: seq<Block>, base: nat, k: nat, m: nat, w: seq<Block>)
    requires k + m <= |bs|
  {
    Addr(Replace(bs, k, m, w), base, k + |w|) == Addr(bs, base, k + m)
  }

  lemma AddrBefore(bs: seq<Block>, base: nat, k: nat, m: nat, w: seq<Block>, i: nat)
    requires k + m <= |bs| && i <= k
    ensures Addr(Replace(bs, k, m, w), base, i) == Addr(bs, base, i)
  {
    AddrOfPrefix(Replace(bs, k, m, w), bs, base, i);
  }

  lemma {:induction false} AddrAfter(bs: seq<Block>, base: nat, k: nat, m: nat, w: seq<Block>, i: nat)
    requires k + m <= i <= |bs| && SameExtent(bs, base, k, m, w)
    ensures Addr(Replace(bs, k, m, w), base, i - m + |w|) == Addr(bs, base, i)
    decreases i
  {
    if i == k + m {
    } else {
      AddrAfter(bs, base, k, m, w, i - 1);
      assert Replace(bs, k, m, w)[i - 1 - m + |w|] == bs[i - 1];
    }
  }

  /** One block in place of `m`, covering them and the headers between. */
  lemma MergedExtent(bs: seq<Block>, base: nat, k: nat, m: nat, b: Block)
    requires k + m <= |bs| && 0 < m
    requires Addr(bs, base, k) + HEADER + b.size == Addr(bs, base, k + m)
    ensures SameExtent(bs, base, k, m, [b])
  {
    AddrBefore(bs, base, k, m, [b], k);
  }

  // ----- the invariant -----

  ghost predicate SizesOk(bs: seq<Block>) {
    forall i :: 0 <= i < |bs| ==> bs[i].size >= 16 && bs[i].size % 4 == 0
  }

  ghost predicate NoTwoFree(bs: seq<Block>) {
    forall i :: 0 <= i < |bs| - 1 ==> bs[i].used || bs[i + 1].used
  }

  /** Every free block's checksum is up to date. */
  ghost predicate FreeSealed(bs: seq<Block>, base: nat) {
    forall i :: 0 <= i < |bs| && !bs[i].used ==> bs[i].seal == Prev(bs, base, i)
  }

  /** The blocks tile the region exactly, no two neighbours are both free, and every free block
      verifies. */
  ghost predicate Ok(bs: seq<Block>, base: nat) {
    && 0 < base && base + HEAP_SIZE < TWO32
    && 0 < |bs| && Addr(bs, base, |bs|) == base + HEAP_SIZE
    && SizesOk(bs) && NoTwoFree(bs) && FreeSealed(bs, base)
  }

  /** heap_init's single block. */
  function Initial(): seq<Block> { [Block(HEAP_SIZE - HEADER, false, 0)] }

  lemma InitialOk(base: nat)
    requires 0 < base && base + HEAP_SIZE < TWO32
    ensures Ok(Initial(), base)
  {
    var bs := Initial();
    assert Addr(bs, base, 1) == base + HEAP_SIZE;
  }

  lemma FirstTwo(bs: seq<Block>)
    requires NoTwoFree(bs) && |bs| > 1
    ensures bs[0].used || bs[0 + 1].used
  {
  }

  /** Once nothing is used, coalescing has restored the initial heap. */
  lemma AllFreeIsInitial(bs: seq<Block>, base: nat)
    requires Ok(bs, base) && forall i :: 0 <= i < |bs| ==> !bs[i].used
    ensures bs == Initial()
  {
    if |bs| > 1 {
      FirstTwo(bs);
      assert false;
    }
    assert Addr(bs, base, 1) == base + HEADER + bs[0].size;
  }

  // ----- a window replacement that keeps the invariant -----

  /** `w` can stand for `bs[k..k + m]`: same extent, well-formed sizes, sealed free blocks, and no
      two free neighbours inside it or at its edges. */
  ghost predicate Fits(bs: seq<Block>, base: nat, k: nat, m: nat, w: seq<Block>) {
    && k + m <= |bs| && 0 < |w|
    && SameExtent(bs, base, k, m, w)
    && SizesOk(w) && NoTwoFree(w)
    && (0 < k && !w[0].used ==> bs[k - 1].used)
    && (k + m < |bs| ==> bs[k + m].used)
    && forall j :: 0 <= j < |w| && !w[j].used ==> w[j].seal == Prev(Replace(bs, k, m, w), base, k + j)
  }

  /** Outside the window a free block keeps its place and its seal. */
  lemma FreeSealKept(bs: seq<Block>, base: nat, k: nat, m: nat, w: seq<Block>, i: nat)
    requires FreeSealed(bs, base) && Fits(bs, base, k, m, w)
    requires i < |Replace(bs, k, m, w)| && !Replace(bs, k, m, w)[i].used
    ensures Replace(bs, k, m, w)[i].seal == Prev(Replace(bs, k, m, w), base, i)
  {
    hide Addr;
    if i < k {
      if i > 0 { AddrBefore(bs, base, k, m, w, i - 1); }
    } else if i >= k + |w| {
      assert Replace(bs, k, m, w)[i] == bs[i - |w| + m];
      AddrAfter(bs, base, k, m, w, i - 1 - |w| + m);
    }
  }

  lemma NeighboursKept(bs: seq<Block>, base: nat, k: nat, m: nat, w: seq<Block>, i: nat)
    requires NoTwoFree(bs) && Fits(bs, base, k, m, w) && i + 1 < |Replace(bs, k, m, w)|
    ensures Replace(bs, k, m, w)[i].used || Replace(bs, k, m, w)[i + 1].used
  {
    hide Addr;
    var cs := Replace(bs, k, m, w);
    if i + 1 < k {
      assert cs[i] == bs[i] && cs[i + 1] == bs[i + 1];
    } else if i >= k + |w| {
      assert cs[i] == bs[i - |w| + m] && cs[i + 1] == bs[i - |w| + m + 1];
    } else if i >= k && i + 1 < k + |w| {
      assert cs[i] == w[i - k] && cs[i + 1] == w[i - k + 1];
    }
  }

  lemma ReplaceOk(bs: seq<Block>, base: nat, k: nat, m: nat, w: seq<Block>)
    requires Ok(bs, base) && Fits(bs, base, k, m, w)
    ensures Ok(Replace(bs, k, m, w), base)
  {
    hide Addr, NoTwoFree;
    var cs := Replace(bs, k, m, w);
    AddrAfter(bs, base, k, m, w, |bs|);
    forall i | 0 <= i < |cs| && !cs[i].used ensures cs[i].seal == Prev(cs, base, i) {
      FreeSealKept(bs, base, k, m, w, i);
    }
    assert NoTwoFree(cs) by { NeighboursAllKept(bs, base, k, m, w); }
  }

  lemma NeighboursAllKept(bs: seq<Block>, base: nat, k: nat, m: nat, w: seq<Block>)
    requires NoTwoFree(bs) && Fits(bs, base, k, m, w)
    ensures NoTwoFree(Replace(bs, k, m, w))
  {
    forall i | 0 <= i < |Replace(bs, k, m, w)| - 1
      ensures Replace(bs, k, m, w)[i].used || Replace(bs, k, m, w)[i + 1].used
    {
      NeighboursKept(bs, base, k, m, w, i);
    }
  }

  // ----- live payloads -----

  /** A payload: its address and its size. */
  datatype Payload = Payload(start: nat, size: nat)

  function PayloadAt(bs: seq<Block>, base: nat, i: nat): Payload
    requires i < |bs|
  {
    Payload(Addr(bs, base, i) + HEADER, bs[i].size)
  }

  /** The payloads of the used blocks. */
  ghost function Live(bs: seq<Block>, base: nat): set<Payload> {
    set i | 0 <= i < |bs| && bs[i].used :: PayloadAt(bs, base, i)
  }

  lemma UsedIsLive(bs: seq<Block>, base: nat, i: nat)
    requires i < |bs| && bs[i].used
    ensures PayloadAt(bs, base, i) in Live(bs, base)
  {
  }

  /** Replacing a window changes the live payloads only inside the window. */
  lemma LiveOutside(bs: seq<Block>, base: nat, k: nat, m: nat, w: seq<Block>, x: Payload)
    requires k + m <= |bs| && SameExtent(bs, base, k, m, w)
    requires forall i :: k <= i < k + m && bs[i].used ==> x != PayloadAt(bs, base, i)
    requires forall i :: k <= i < k + |w| && w[i - k].used ==> x != PayloadAt(Replace(bs, k, m, w), base, i)
    ensures x in Live(Replace(bs, k, m, w), base) <==> x in Live(bs, base)
  {
    hide Addr;
    var cs := Replace(bs, k, m, w);
    if x in Live(bs, base) {
      var i :| 0 <= i < |bs| && bs[i].used && x == PayloadAt(bs, base, i);
      if i < k { AddrBefore(bs, base, k, m, w, i); } else { AddrAfter(bs, base, k, m, w, i); }
      var i' := if i < k then i else i - m + |w|;
      assert cs[i'] == bs[i] && x == PayloadAt(cs, base, i');
    }
    if x in Live(cs, base) {
      var i :| 0 <= i < |cs| && cs[i].used && x == PayloadAt(cs, base, i);
      var i' := if i < k then i else i - |w| + m;
      if i < k { AddrBefore(bs, base, k, m, w, i); } else { AddrAfter(bs, base, k, m, w, i'); }
      assert cs[i] == bs[i'] && x == PayloadAt(bs, base, i');
    }
  }

  /** An address names at most one block. */
  lemma AddrInjective(bs: seq<Block>, base: nat, i: nat, j: nat)
    requires i <= |bs| && j <= |bs| && Addr(bs, base, i) == Addr(bs, base, j)
    ensures i == j
  {
    if i < j { AddrGrows(bs, base, i, j); } else if j < i { AddrGrows(bs, base, j, i); }
  }

  /** Two live payloads do not overlap each other or any header, and lie inside the region. */
  lemma PayloadsDisjoint(bs: seq<Block>, base: nat, i: nat, j: nat)
    requires Ok(bs, base) && i < |bs| && j < |bs| && i != j
    ensures base <= Addr(bs, base, i) && Addr(bs, base, i) + HEADER + bs[i].size <= base + HEAP_SIZE
    ensures || Addr(bs, base, i) + HEADER + bs[i].size <= Addr(bs, base, j)
            || Addr(bs, base, j) + HEADER + bs[j].size <= Addr(bs, base, i)
  {
    AddrGrows(bs, base, i, |bs|);
    if i < j { AddrGrows(bs, base, i, j); } else { AddrGrows(bs, base, j, i); }
  }

  /** The same for payloads as values. */
  lemma LiveDisjoint(bs: seq<Block>, base: nat, q: Payload, r: Payload)
    requires Ok(bs, base) && q in Live(bs, base) && r in Live(bs, base) && q != r
    ensures q.start + q.size <= r.start || r.start + r.size <= q.start
  {
    var i :| 0 <= i < |bs| && bs[i].used && q == PayloadAt(bs, base, i);
    var j :| 0 <= j < |bs| && bs[j].used && r == PayloadAt(bs, base, j);
    PayloadsDisjoint(bs, base, i, j);
  }

  // ----- kmalloc on blocks -----

  /** The size kmalloc looks for: rounded up to a multiple of 4 in 32 bits, and at least 16. */
  function Rounded(size: nat): nat {
    AtLeast16((size + 3) % TWO32 / 4 * 4)
  }

  lemma RoundedUnfolds(size: nat)
    ensures Rounded(size) == AtLeast16((size + 3) % TWO32 / 4 * 4)
  {
  }

  /** Rounding covers the request exactly when the addition does not wrap. */
  lemma RoundedCovers(size: nat)
    requires size < TWO32
    ensures Rounded(size) % 4 == 0 && Rounded(size) >= 16
    ensures Rounded(size) >= size <==> size <= TWO32 - 4
  {
    assert (size + 3) % TWO32 == if size + 3 < TWO32 then size + 3 else size + 3 - TWO32;
  }

  /** It is the least size a block can have that holds the request; a request whose sum wraps is served with
      16 bytes. */
  lemma RoundedLeast(size: nat)
    requires size < TWO32
    ensures size <= TWO32 - 4 ==> forall m :: m % 4 == 0 && m >= 16 && m >= size ==> Rounded(size) <= m
    ensures size <= TWO32 - 4 ==> Rounded(size) <= AtLeast16(size + 3)
    ensures size > TWO32 - 4 ==> Rounded(size) == 16
  {
    assert (size + 3) % TWO32 == if size + 3 < TWO32 then size + 3 else size + 3 - TWO32;
  }

  function AtLeast16(n: nat): nat { if n < 16 then 16 else n }

  /** A request just below 2^32 is served with 16 bytes. */
  lemma WrappedRequest()
    ensures Rounded(TWO32 - 1) == 16
  {
    assert (TWO32 - 1 + 3) % TWO32 == 2;
  }

  /** Among the first `i` blocks, `k` is the lowest-addressed of the smallest free blocks that hold
      `n` bytes. */
  ghost predicate BestBelow(bs: seq<Block>, n: nat, i: nat, k: nat)
    requires i <= |bs|
  {
    && k < i && !bs[k].used && bs[k].size >= n
    && forall j :: 0 <= j < i && !bs[j].used && bs[j].size >= n ==>
         bs[k].size < bs[j].size || (bs[k].size == bs[j].size && k <= j)
  }

  ghost predicate NoneBelow(bs: seq<Block>, n: nat, i: nat)
    requires i <= |bs|
  {
    forall j :: 0 <= j < i ==> bs[j].used || bs[j].size < n
  }

  ghost predicate BestFit(bs: seq<Block>, n: nat, k: nat) { BestBelow(bs, n, |bs|, k) }

  ghost predicate NoFit(bs: seq<Block>, n: nat) { NoneBelow(bs, n, |bs|) }

  /** The state of the search after `i` blocks: the best so far, or none. */
  ghost predicate SearchedTo(bs: seq<Block>, n: nat, i: nat, found: bool, k: nat)
    requires i <= |bs|
  {
    if found then BestBelow(bs, n, i, k) else NoneBelow(bs, n, i)
  }

  /** One more block: it becomes the best when it fits and is strictly smaller; an exact fit ends
      the search. */
  lemma SearchStep(bs: seq<Block>, n: nat, i: nat, found: bool, k: nat)
    requires i < |bs| && SearchedTo(bs, n, i, found, k)
    ensures if !bs[i].used && bs[i].size >= n && (found ==> bs[i].size < bs[k].size)
            then SearchedTo(bs, n, i + 1, true, i) && (bs[i].size == n ==> BestFit(bs, n, i))
            else SearchedTo(bs, n, i + 1, found, k)
  {
  }

  lemma SearchEnd(bs: seq<Block>, n: nat, found: bool, k: nat)
    requires SearchedTo(bs, n, |bs|, found, k)
    ensures if found then BestFit(bs, n, k) else NoFit(bs, n)
  {
  }

  /** The best fit is a free block that is large enough. */
  lemma ChosenHolds(bs: seq<Block>, n: nat, k: nat)
    requires BestFit(bs, n, k)
    ensures k < |bs| && !bs[k].used && bs[k].size >= n
  {
  }

  /** The best fit is unique, and where there is one something fits. */
  lemma BestFitDecides(bs: seq<Block>, n: nat, k: nat)
    requires BestFit(bs, n, k)
    ensures !NoFit(bs, n) && forall j: nat :: BestFit(bs, n, j) ==> j == k
  {
  }

  /** In a valid heap a free block holds the rounded request exactly when it holds the request itself. */
  lemma HoldsAsAsked(bs: seq<Block>, size: nat, i: nat)
    requires SizesOk(bs) && size <= TWO32 - 4 && i < |bs|
    ensures bs[i].size >= Rounded(size) <==> bs[i].size >= size
  {
    RoundedCovers(size);
    RoundedLeast(size);
  }

  /** Every free block is smaller than `size`. */
  ghost predicate AllSmaller(bs: seq<Block>, size: nat) {
    forall i :: 0 <= i < |bs| && !bs[i].used ==> bs[i].size < size
  }

  /** So rounding decides neither whether a request is served nor from which block. */
  lemma RoundingDecidesNothing(bs: seq<Block>, size: nat)
    requires SizesOk(bs) && size <= TWO32 - 4
    ensures NoFit(bs, Rounded(size)) <==> AllSmaller(bs, size)
    ensures forall k: nat :: BestFit(bs, Rounded(size), k) <==> BestFit(bs, size, k)
  {
    hide Rounded;
    forall i: nat | i < |bs| ensures bs[i].size >= Rounded(size) <==> bs[i].size >= size {
      HoldsAsAsked(bs, size, i);
    }
  }

  /** Searching the first `i` blocks ends with the best of them, if any fits. */
  lemma {:induction false} SearchEnds(bs: seq<Block>, n: nat, i: nat) returns (found: bool, k: nat)
    requires i <= |bs|
    ensures SearchedTo(bs, n, i, found, k)
    decreases i
  {
    if i == 0 {
      found, k := false, 0;
    } else {
      found, k := SearchEnds(bs, n, i - 1);
      SearchStep(bs, n, i - 1, found, k);
      if !bs[i - 1].used && bs[i - 1].size >= n && (found ==> bs[i - 1].size < bs[k].size) {
        found, k := true, i - 1;
      }
    }
  }

  /** When something fits there is a best fit. */
  lemma BestFitExists(bs: seq<Block>, n: nat)
    requires !NoFit(bs, n)
    ensures exists k: nat :: BestFit(bs, n, k)
  {
    var found, k := SearchEnds(bs, n, |bs|);
    assert BestFit(bs, n, k);
  }

  /** What replaces the chosen block: the used part, and the rest when it is worth a header. */
  function Carved(bs: seq<Block>, base: nat, k: nat, n: nat): seq<Block>
    requires k < |bs| && bs[k].size >= n
  {
    if bs[k].size > n + HEADER + 16 then
      [Block(n, true, Prev(bs, base, k)), Block(bs[k].size - n - HEADER, false, Addr(bs, base, k))]
    else [Block(bs[k].size, true, Prev(bs, base, k))]
  }

  function Allocate(bs: seq<Block>, base: nat, k: nat, n: nat): seq<Block>
    requires k < |bs| && bs[k].size >= n
  {
    Replace(bs, k, 1, Carved(bs, base, k, n))
  }

  lemma CarvedExtent(bs: seq<Block>, base: nat, k: nat, n: nat)
    requires k < |bs| && bs[k].size >= n
    ensures SameExtent(bs, base, k, 1, Carved(bs, base, k, n))
    ensures Addr(Allocate(bs, base, k, n), base, k) == Addr(bs, base, k)
  {
    var w := Carved(bs, base, k, n);
    var cs := Replace(bs, k, 1, w);
    AddrBefore(bs, base, k, 1, w, k);
    assert cs[k] == w[0];
    if |w| == 2 { assert cs[k + 1] == w[1]; }
  }

  /** Allocation keeps the invariant. */
  lemma AllocateOk(bs: seq<Block>, base: nat, k: nat, n: nat)
    requires Ok(bs, base) && k < |bs| && !bs[k].used && bs[k].size >= n && n >= 16 && n % 4 == 0
    ensures Ok(Allocate(bs, base, k, n), base)
  {
    hide Addr, Replace, SameExtent;
    CarvedExtent(bs, base, k, n);
    CarvedSizes(bs, base, k, n);
    assert k + 1 < |bs| ==> bs[k + 1].used;
    ReplaceOk(bs, base, k, 1, Carved(bs, base, k, n));
  }

  lemma CarvedSizes(bs: seq<Block>, base: nat, k: nat, n: nat)
    requires SizesOk(bs) && k < |bs| && bs[k].size >= n && n >= 16 && n % 4 == 0
    ensures SizesOk(Carved(bs, base, k, n)) && NoTwoFree(Carved(bs, base, k, n))
  {
    hide Addr;
    assert bs[k].size % 4 == 0;
  }

  /** The new payload is the only change to the live set, and it starts where no payload did. */
  lemma AllocateLive(bs: seq<Block>, base: nat, k: nat, n: nat)
    requires k < |bs| && !bs[k].used && bs[k].size >= n
    ensures k < |Allocate(bs, base, k, n)|
    ensures var p := PayloadAt(Allocate(bs, base, k, n), base, k);
      && p.start == Addr(bs, base, k) + HEADER && n <= p.size
      && Live(Allocate(bs, base, k, n), base) == Live(bs, base) + {p}
      && forall q :: q in Live(bs, base) ==> q.start != p.start
  {
    hide Addr;
    var w := Carved(bs, base, k, n);
    var cs := Allocate(bs, base, k, n);
    CarvedExtent(bs, base, k, n);
    var p := PayloadAt(cs, base, k);
    assert cs[k] == w[0];
    forall q | q in Live(bs, base) ensures q.start != p.start {
      var i :| 0 <= i < |bs| && bs[i].used && q == PayloadAt(bs, base, i);
      if q.start == p.start { AddrInjective(bs, base, i, k); }
    }
    forall x | x != p ensures x in Live(cs, base) <==> x in Live(bs, base) {
      LiveOutside(bs, base, k, 1, w, x);
    }
  }

  /** A request served from block `k`: the payload holds it and wastes less than 4 bytes, or is 16 bytes, or is
      the whole block, which is then at most 40 bytes too large. A rest is split off only with more than 16
      bytes of its own. */
  ghost predicate Snug(bs: seq<Block>, k: nat, size: nat, payload: nat)
    requires k < |bs|
  {
    && size <= payload <= AtLeast16(size + 3) + HEADER + 16
    && (payload < bs[k].size ==> payload <= AtLeast16(size + 3) && bs[k].size > payload + HEADER + 16)
    && payload <= bs[k].size
  }

  lemma AllocateSnug(bs: seq<Block>, base: nat, k: nat, size: nat)
    requires SizesOk(bs) && 0 < size <= TWO32 - 4 && BestFit(bs, Rounded(size), k)
    ensures k < |Allocate(bs, base, k, Rounded(size))| && Allocate(bs, base, k, Rounded(size))[k].used
    ensures Snug(bs, k, size, Allocate(bs, base, k, Rounded(size))[k].size)
  {
    hide Rounded, Addr;
    RoundedCovers(size);
    RoundedLeast(size);
  }

  /** The bytes in free blocks. */
  function FreeBytes(bs: seq<Block>): nat {
    if bs == [] then 0 else (if bs[0].used then 0 else bs[0].size) + FreeBytes(bs[1..])
  }

  lemma {:induction false} FreeBytesAppend(a: seq<Block>, b: seq<Block>)
    ensures FreeBytes(a + b) == FreeBytes(a) + FreeBytes(b)
    decreases |a|
  {
    if a == [] {
      assert a + b == b;
    } else {
      FreeBytesAppend(a[1..], b);
      assert (a + b)[1..] == a[1..] + b;
    }
  }

  /** Every allocation uses some of them up. */
  lemma AllocateUses(bs: seq<Block>, base: nat, k: nat, n: nat)
    requires k < |bs| && !bs[k].used && bs[k].size >= n > 0
    ensures FreeBytes(Allocate(bs, base, k, n)) < FreeBytes(bs)
  {
    hide Addr, Carved, FreeBytes;
    var w := Carved(bs, base, k, n);
    FreeBytesAppend(bs[..k] + w, bs[k + 1..]);
    FreeBytesAppend(bs[..k], w);
    FreeBytesAppend(bs[..k] + [bs[k]], bs[k + 1..]);
    FreeBytesAppend(bs[..k], [bs[k]]);
    assert bs == bs[..k] + [bs[k]] + bs[k + 1..];
    CarvedFree(bs, base, k, n);
  }

  lemma CarvedFree(bs: seq<Block>, base: nat, k: nat, n: nat)
    requires k < |bs| && !bs[k].used && bs[k].size >= n > 0
    ensures FreeBytes(Carved(bs, base, k, n)) < bs[k].size && FreeBytes([bs[k]]) == bs[k].size
  {
    hide Addr;
    var w := Carved(bs, base, k, n);
    if |w| == 2 {
      assert w[1..] == [w[1]] && w[1..][1..] == [];
      assert FreeBytes(w[1..]) == w[1].size + FreeBytes([]);
    } else {
      assert w[1..] == [];
    }
    assert [bs[k]][1..] == [];
  }

  // ----- kfree on blocks -----

  /** The first of the free blocks that end up merged with block `k`. */
  function MergeFrom(bs: seq<Block>, k: nat): nat
    requires k < |bs|
  {
    if 0 < k && !bs[k - 1].used then k - 1 else k
  }

  function MergeTo(bs: seq<Block>, k: nat): nat
    requires k < |bs|
  {
    if k + 1 < |bs| && !bs[k + 1].used then k + 2 else k + 1
  }

  /** Block `k` freed and merged with the free neighbours it has. */
  function Release(bs: seq<Block>, base: nat, k: nat): seq<Block>
    requires k < |bs|
  {
    var lo, hi := MergeFrom(bs, k), MergeTo(bs, k);
    AddrGrows(bs, base, lo, hi);
    Replace(bs, lo, hi - lo, [Block(Addr(bs, base, hi) - Addr(bs, base, lo) - HEADER, false, Prev(bs, base, lo))])
  }

  lemma SizeIsQuads(bs: seq<Block>, i: nat) returns (q: nat)
    requires SizesOk(bs) && i < |bs|
    ensures HEADER + bs[i].size == 4 * q
  {
    q := 6 + bs[i].size / 4;
  }

  /** Whole blocks span a multiple of 4 bytes. */
  lemma {:induction false} SpanMultiple(bs: seq<Block>, base: nat, i: nat, j: nat) returns (q: nat)
    requires SizesOk(bs) && i <= j <= |bs|
    ensures Addr(bs, base, j) == Addr(bs, base, i) + 4 * q
    decreases j
  {
    hide Addr, SizesOk;
    if i == j {
      q := 0;
    } else {
      q := SpanMultiple(bs, base, i, j - 1);
      AddrStep(bs, base, j - 1);
      var d := SizeIsQuads(bs, j - 1);
      q := q + d;
    }
  }

  /** The merged run is bounded by used blocks or the region's ends. */
  lemma MergeEdges(bs: seq<Block>, k: nat)
    requires NoTwoFree(bs) && k < |bs| && bs[k].used
    ensures MergeFrom(bs, k) <= k < MergeTo(bs, k) <= |bs|
    ensures MergeTo(bs, k) < |bs| ==> bs[MergeTo(bs, k)].used
    ensures 0 < MergeFrom(bs, k) ==> bs[MergeFrom(bs, k) - 1].used
  {
    assert k + 2 < |bs| ==> bs[k + 1].used || bs[k + 1 + 1].used;
    assert k >= 2 ==> bs[k - 2].used || bs[k - 2 + 1].used;
  }

  /** Freeing keeps the invariant. */
  lemma ReleaseOk(bs: seq<Block>, base: nat, k: nat)
    requires Ok(bs, base) && k < |bs| && bs[k].used
    ensures Ok(Release(bs, base, k), base)
  {
    hide Addr;
    var lo, hi := MergeFrom(bs, k), MergeTo(bs, k);
    MergeEdges(bs, k);
    AddrGrows(bs, base, lo, hi);
    var q := SpanMultiple(bs, base, lo, hi);
    var b := Block(Addr(bs, base, hi) - Addr(bs, base, lo) - HEADER, false, Prev(bs, base, lo));
    MergedExtent(bs, base, lo, hi - lo, b);
    if 0 < lo { AddrBefore(bs, base, lo, hi - lo, [b], lo - 1); }
    ReplaceOk(bs, base, lo, hi - lo, [b]);
  }

  /** The merged block as it replaces the run around block `k`. */
  lemma ReleaseExtent(bs: seq<Block>, base: nat, k: nat) returns (lo: nat, hi: nat, b: Block)
    requires NoTwoFree(bs) && k < |bs| && bs[k].used
    ensures lo <= k < hi <= |bs| && !b.used
    ensures Release(bs, base, k) == Replace(bs, lo, hi - lo, [b]) && SameExtent(bs, base, lo, hi - lo, [b])
    ensures forall i :: lo <= i < hi && i != k ==> !bs[i].used
  {
    lo, hi := MergeFrom(bs, k), MergeTo(bs, k);
    MergeEdges(bs, k);
    AddrGrows(bs, base, lo, hi);
    b := Block(Addr(bs, base, hi) - Addr(bs, base, lo) - HEADER, false, Prev(bs, base, lo));
    MergedExtent(bs, base, lo, hi - lo, b);
  }

  lemma ReleaseDrops(bs: seq<Block>, base: nat, k: nat)
    requires NoTwoFree(bs) && k < |bs| && bs[k].used
    ensures PayloadAt(bs, base, k) !in Live(Release(bs, base, k), base)
  {
    hide Addr, Release, SameExtent, NoTwoFree;
    var lo, hi, b := ReleaseExtent(bs, base, k);
    var cs, p := Release(bs, base, k), PayloadAt(bs, base, k);
    if p in Live(cs, base) {
      var i :| 0 <= i < |cs| && cs[i].used && p == PayloadAt(cs, base, i);
      assert i != lo;
      var i' := if i < lo then i else i - 1 + hi - lo;
      if i < lo { AddrBefore(bs, base, lo, hi - lo, [b], i); } else { AddrAfter(bs, base, lo, hi - lo, [b], i'); }
      AddrInjective(bs, base, i', k);
    }
  }

  /** The freed payload is the only change to the live set. */
  lemma ReleaseLive(bs: seq<Block>, base: nat, k: nat)
    requires NoTwoFree(bs) && k < |bs| && bs[k].used
    ensures Live(Release(bs, base, k), base) == Live(bs, base) - {PayloadAt(bs, base, k)}
  {
    var lo, hi, b := ReleaseExtent(bs, base, k);
    hide Addr, Release;
    ReleaseDrops(bs, base, k);
    forall x | x != PayloadAt(bs, base, k)
      ensures x in Live(Release(bs, base, k), base) <==> x in Live(bs, base)
    {
      LiveOutside(bs, base, lo, hi - lo, [b], x);
    }
  }

  /** Freeing a block right after allocating it restores the list, seals included. */
  lemma FreeUndoesMalloc(bs: seq<Block>, base: nat, k: nat, n: nat)
    requires Ok(bs, base) && BestFit(bs, n, k)
    ensures var cs := Allocate(bs, base, k, n);
      && k < |cs| && cs[k].used && cs[k].seal == Prev(cs, base, k)
      && Release(cs, base, k) == bs
  {
    hide Addr, SizesOk, SameExtent;
    var w, cs := Carved(bs, base, k, n), Allocate(bs, base, k, n);
    CarvedExtent(bs, base, k, n);
    AddrAfter(bs, base, k, 1, w, k + 1);
    AllocatedAround(bs, base, k, n);
    if 0 < k { AddrBefore(bs, base, k, 1, w, k - 1); }
    AddrStep(bs, base, k);
    var b := Block(Addr(cs, base, k + |w|) - Addr(cs, base, k) - HEADER, false, Prev(cs, base, k));
    assert b == bs[k];
    assert bs == bs[..k] + [b] + bs[k + 1..];
  }

  /** Around the carved window nothing changes, and freeing it would merge exactly the window. */
  lemma AllocatedAround(bs: seq<Block>, base: nat, k: nat, n: nat)
    requires NoTwoFree(bs) && k < |bs| && !bs[k].used && bs[k].size >= n
    ensures var w, cs := Carved(bs, base, k, n), Allocate(bs, base, k, n);
      && |cs| == |bs| - 1 + |w| && cs[k] == w[0] && cs[..k] == bs[..k] && cs[k + |w|..] == bs[k + 1..]
      && MergeFrom(cs, k) == k && MergeTo(cs, k) == k + |w|
  {
    hide Addr;
    var w, cs := Carved(bs, base, k, n), Allocate(bs, base, k, n);
    assert k + 1 < |bs| ==> bs[k].used || bs[k + 1].used;
    assert 0 < k ==> cs[k - 1] == bs[k - 1];
    assert k + |w| < |cs| ==> cs[k + |w|] == bs[k + 1];
    assert |w| == 2 ==> cs[k + 1] == w[1];
  }
}
