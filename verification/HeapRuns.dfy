/** Whole runs of kmalloc, kfree, kmalloc_aligned and kfree_aligned in any order.
 */
module HeapRuns {
  import opened AlignedAlloc
  import opened Bits
  import opened HeapBlocks
  import opened KernelHeap
  import opened Machine

  datatype Call =
    | Malloc(size: nat)
    | Free(ptr: nat)
    | MallocAligned(size: nat, alignment: nat)
    | FreeAligned(ptr: nat)

  /** What a program got for a raw block: the block itself, or an aligned address inside it. */
  datatype Grant = Plain(size: nat) | Aligned(size: nat, alignment: nat, ptr: nat)

  /** What a program holds, by raw pointer. */
  type Held = map<nat, Grant>

  // ----- what is held and what is live -----

  /** Payload `p` is large enough for what was asked; for an aligned grant, the address is aligned, it
      and the two hidden words lie inside the payload, and the words name the block and the alignment. */
  predicate Serves(ws: Words, p: Payload, g: Grant) {
    match g
    case Plain(size) => size <= TWO32 - 4 ==> size <= p.size
    case Aligned(size, alignment, ptr) =>
      && alignment > 0 && ptr % alignment == 0
      && p.start + 8 <= ptr && ptr + size <= p.start + p.size
      && ptr - 4 in ws && ws[ptr - 4] + HEADER == p.start && ptr - 8 in ws && ws[ptr - 8] == alignment
  }

  ghost predicate HasPayload(bs: seq<Block>, base: nat, ptr: nat) {
    exists p :: p in Live(bs, base) && p.start == ptr
  }

  /** What the program holds is exactly what is live, and every payload serves its grant. */
  ghost predicate Agrees(bs: seq<Block>, base: nat, ws: Words, held: Held) {
    && (forall raw :: raw in held ==> HasPayload(bs, base, raw))
    && (forall p :: p in Live(bs, base) ==> p.start in held && Serves(ws, p, held[p.start]))
  }

  /** A live payload belongs to one used block. */
  lemma BlockOf(bs: seq<Block>, base: nat, ptr: nat) returns (k: nat)
    requires HasPayload(bs, base, ptr)
    ensures k < |bs| && bs[k].used && ptr == Addr(bs, base, k) + HEADER && PayloadAt(bs, base, k) in Live(bs, base)
  {
    var p :| p in Live(bs, base) && p.start == ptr;
    k :| 0 <= k < |bs| && bs[k].used && p == PayloadAt(bs, base, k);
  }

  lemma LiveStartsUnique(bs: seq<Block>, base: nat, p: Payload, q: Payload)
    requires p in Live(bs, base) && q in Live(bs, base) && p.start == q.start
    ensures p == q
  {
    var i :| 0 <= i < |bs| && bs[i].used && p == PayloadAt(bs, base, i);
    var j :| 0 <= j < |bs| && bs[j].used && q == PayloadAt(bs, base, j);
    AddrInjective(bs, base, i, j);
  }

  /** A payload goes on serving while the words inside it are kept. */
  lemma ServesOn(ws: Words, ws': Words, bs: seq<Block>, base: nat, p: Payload, g: Grant)
    requires p in Live(bs, base) && KeepsWords(ws, ws', bs, base) && Serves(ws, p, g)
    ensures Serves(ws', p, g)
  {
    hide Live;
    if g.Aligned? { assert Inside(p, g.ptr - 4) && Inside(p, g.ptr - 8); }
  }

  lemma AgreesOn(bs: seq<Block>, base: nat, ws: Words, ws': Words, held: Held)
    requires Agrees(bs, base, ws, held) && KeepsWords(ws, ws', bs, base)
    ensures Agrees(bs, base, ws', held)
  {
    hide Live, KeepsWords, Serves;
    forall p | p in Live(bs, base) ensures Serves(ws', p, held[p.start]) {
      ServesOn(ws, ws', bs, base, p, held[p.start]);
    }
  }

  /** A new block that serves its grant, taken while the words of the others are kept. */
  lemma MallocAgrees(bs: seq<Block>, base: nat, ws: Words, ws': Words, held: Held, k: nat, n: nat, g: Grant)
    requires Ok(bs, base) && Agrees(bs, base, ws, held) && BestFit(bs, n, k)
    requires KeepsWords(ws, ws', bs, base)
    requires k < |Allocate(bs, base, k, n)| && Serves(ws', PayloadAt(Allocate(bs, base, k, n), base, k), g)
    ensures Addr(bs, base, k) + HEADER !in held
    ensures Agrees(Allocate(bs, base, k, n), base, ws', held[Addr(bs, base, k) + HEADER := g])
  {
    hide Addr, Allocate, Live, Ok, KeepsWords, Serves;
    AllocateLive(bs, base, k, n);
    AgreesOn(bs, base, ws, ws', held);
    var cs := Allocate(bs, base, k, n);
    var q := PayloadAt(cs, base, k);
    assert q in Live(cs, base);
    forall x | x in held ensures HasPayload(cs, base, x) {
      var p :| p in Live(bs, base) && p.start == x;
      assert p in Live(cs, base);
    }
  }

  lemma FreeAgrees(bs: seq<Block>, base: nat, ws: Words, ws': Words, held: Held, k: nat)
    requires NoTwoFree(bs) && Agrees(bs, base, ws, held) && k < |bs| && bs[k].used && KeepsWords(ws, ws', bs, base)
    ensures Agrees(Release(bs, base, k), base, ws', held - {Addr(bs, base, k) + HEADER})
  {
    hide Addr, Release, Live, NoTwoFree, KeepsWords, Serves;
    var cs, p := Release(bs, base, k), PayloadAt(bs, base, k);
    ReleaseLive(bs, base, k);
    UsedIsLive(bs, base, k);
    AgreesOn(bs, base, ws, ws', held);
    forall x | x in held && x != p.start ensures HasPayload(cs, base, x) {
      var q :| q in Live(bs, base) && q.start == x;
      assert q in Live(cs, base);
    }
    forall q | q in Live(cs, base) ensures q.start != p.start {
      if q.start == p.start { LiveStartsUnique(bs, base, p, q); }
    }
  }

  lemma NothingHeld(bs: seq<Block>, base: nat, ws: Words, held: Held)
    requires Ok(bs, base) && Agrees(bs, base, ws, held)
    ensures held.Keys == {} ==> bs == Initial()
  {
    if held.Keys == {} {
      forall i | 0 <= i < |bs| ensures !bs[i].used {
        if bs[i].used { UsedIsLive(bs, base, i); }
      }
      AllFreeIsInitial(bs, base);
    }
  }

  // ----- one call -----

  /** A call as a program may make it: 32-bit sizes, and aligned requests that do not wrap. */
  predicate Fair(c: Call) {
    && (c.Malloc? ==> c.size < TWO32)
    && (c.MallocAligned? ==> c.size + c.alignment + 7 <= TWO32 - 4)
  }

  predicate Allocates(c: Call) { c.Malloc? || c.MallocAligned? }

  /** A request for nothing, or for an alignment that is none. */
  predicate Hopeless(c: Call)
    requires Allocates(c)
  {
    c.size == 0 || (c.MallocAligned? && !PowerOfTwo(c.alignment))
  }

  /** The block size an allocation looks for. */
  function Wanted(c: Call): nat
    requires Allocates(c) && !Hopeless(c)
  {
    if c.Malloc? then Rounded(c.size) else Rounded(TotalSize(c.size, c.alignment))
  }

  /** What the caller is told and gets when the raw block is at `raw`. */
  function GrantOf(c: Call, raw: nat): Grant
    requires Allocates(c) && !Hopeless(c) && Fair(c)
  {
    if c.Malloc? then Plain(c.size) else Aligned(c.size, c.alignment, AlignUp(raw, c.alignment))
  }

  function PointerOf(g: Grant, raw: nat): nat { if g.Plain? then raw else g.ptr }

  /** `c` frees the held block at `raw`. */
  predicate Frees(held: Held, c: Call, raw: nat) {
    && raw in held
    && match c
       case Free(ptr) => held[raw].Plain? && ptr == raw
       case FreeAligned(ptr) => held[raw].Aligned? && ptr == held[raw].ptr
       case _ => false
  }

  datatype State = State(blocks: seq<Block>, held: Held)

  ghost predicate Takes(base: nat, s: State, c: Call, k: nat, r: Outcome, s': State)
    requires Allocates(c) && !Hopeless(c) && Fair(c)
  {
    && BestFit(s.blocks, Wanted(c), k)
    && var raw := Addr(s.blocks, base, k) + HEADER;
    && raw !in s.held && r == Returns(PointerOf(GrantOf(c, raw), raw))
    && s' == State(Allocate(s.blocks, base, k, Wanted(c)), s.held[raw := GrantOf(c, raw)])
  }

  ghost predicate GivesBack(base: nat, s: State, c: Call, k: nat, r: Outcome, s': State) {
    && k < |s.blocks|
    && var raw := Addr(s.blocks, base, k) + HEADER;
    && Frees(s.held, c, raw)
    && if Intact(s.blocks, base, k) then r == Returns(0) && s' == State(Release(s.blocks, base, k), s.held - {raw})
       else r == Panics && s' == s
  }

  /** One call: an allocation takes the best fit, or answers NULL exactly when the request is hopeless
      or nothing fits; a free gives back the block its pointer was granted from, or panics exactly when
      that block's left neighbour has moved to an address with another byte sum. Pointers that are not
      held are not freed. */
  ghost predicate Step(base: nat, s: State, c: Call, r: Outcome, s': State)
    requires Fair(c)
  {
    if Allocates(c) then
      if Hopeless(c) || NoFit(s.blocks, Wanted(c)) then r == Returns(0) && s' == s
      else exists k: nat :: Takes(base, s, c, k, r, s')
    else if exists raw :: Frees(s.held, c, raw) then exists k: nat :: GivesBack(base, s, c, k, r, s')
    else r == Returns(0) && s' == s
  }

  /** State and call determine the reply and the next state, given that a pointer to free was granted from
      one block only. */
  lemma StepDetermined(base: nat, s: State, c: Call, r: Outcome, s': State, q: Outcome, t': State)
    requires Fair(c) && Step(base, s, c, r, s') && Step(base, s, c, q, t')
    requires forall a, b :: Frees(s.held, c, a) && Frees(s.held, c, b) ==> a == b
    ensures r == q && s' == t'
  {
    hide Addr, Allocate, Release, BestFit, NoFit, Rounded, AlignUp, Intact, TotalSize, PowerOfTwo;
    if Allocates(c) {
      if !(Hopeless(c) || NoFit(s.blocks, Wanted(c))) {
        var k: nat :| Takes(base, s, c, k, r, s');
        BestFitDecides(s.blocks, Wanted(c), k);
      }
    } else if exists raw :: Frees(s.held, c, raw) {
      var k: nat :| GivesBack(base, s, c, k, r, s');
      var l: nat :| GivesBack(base, s, c, l, q, t');
      AddrInjective(s.blocks, base, k, l);
    }
  }

  lemma NoWordsLost(ws: Words, bs: seq<Block>, base: nat)
    ensures KeepsWords(ws, ws, bs, base)
  {
  }

  lemma KeepsFewer(ws: Words, ws': Words, bs: seq<Block>, cs: seq<Block>, base: nat)
    requires KeepsWords(ws, ws', cs, base) && Live(bs, base) <= Live(cs, base)
    ensures KeepsWords(ws, ws', bs, base)
  {
    hide Live;
  }

  method DoMalloc(memory: AlignedAllocator, c: Call, held: Held) returns (r: Outcome, held': Held)
    requires memory.heap.Valid() && Agrees(memory.heap.blocks, memory.heap.base, memory.words, held)
    requires c.Malloc? && Fair(c)
    modifies memory, memory.heap
    ensures memory.heap.Valid() && memory.heap.base == old(memory.heap.base)
    ensures Agrees(memory.heap.blocks, memory.heap.base, memory.words, held')
    ensures KeepsWords(old(memory.words), memory.words, old(memory.heap.blocks), memory.heap.base)
    ensures Step(memory.heap.base, State(old(memory.heap.blocks), held), c, r, State(memory.heap.blocks, held'))
  {
    hide Heap.Linked, Ok, Agrees, Allocate, BestBelow, NoneBelow, Rounded, Addr, Live, KeepsWords;
    ghost var bs, ws, base := memory.heap.blocks, memory.words, memory.heap.base;
    var answer, k := memory.Kmalloc(c.size);
    r := answer;
    held' := held;
    if r.ptr != 0 {
      ghost var n := Rounded(c.size);
      RoundedCovers(c.size);
      ChosenHolds(bs, n, k);
      AllocateLive(bs, base, k, n);
      KeepsFewer(ws, memory.words, bs, memory.heap.blocks, base);
      MallocAgrees(bs, base, ws, memory.words, held, k, n, Plain(c.size));
      held' := held[r.ptr := Plain(c.size)];
      assert Takes(base, State(bs, held), c, k, r, State(memory.heap.blocks, held'));
    }
  }

  method DoMallocAligned(memory: AlignedAllocator, c: Call, held: Held) returns (r: Outcome, held': Held)
    requires memory.heap.Valid() && Agrees(memory.heap.blocks, memory.heap.base, memory.words, held)
    requires c.MallocAligned? && Fair(c)
    modifies memory, memory.heap
    ensures memory.heap.Valid() && memory.heap.base == old(memory.heap.base)
    ensures Agrees(memory.heap.blocks, memory.heap.base, memory.words, held')
    ensures KeepsWords(old(memory.words), memory.words, old(memory.heap.blocks), memory.heap.base)
    ensures Step(memory.heap.base, State(old(memory.heap.blocks), held), c, r, State(memory.heap.blocks, held'))
  {
    hide Heap.Linked, Ok, Agrees, Allocate, BestBelow, NoneBelow, Rounded, Addr, Live, KeepsWords, PowerOfTwo, AlignUp,
         Stored, Represents;
    ghost var bs, ws, base := memory.heap.blocks, memory.words, memory.heap.base;
    ZeroIsNoPower();
    NoWordsLost(ws, bs, base);
    var answer, k, m := memory.KmallocAligned(c.size, c.alignment);
    r := answer;
    held' := held;
    if r.ptr != 0 {
      var raw := memory.words[r.ptr - 4] + HEADER;
      ghost var n := Rounded(TotalSize(c.size, c.alignment));
      ChosenHolds(bs, n, k);
      AllocateLive(bs, base, k, n);
      MallocAgrees(bs, base, ws, memory.words, held, k, n, Aligned(c.size, c.alignment, r.ptr));
      held' := held[raw := Aligned(c.size, c.alignment, r.ptr)];
      assert Takes(base, State(bs, held), c, k, r, State(memory.heap.blocks, held'));
    }
  }

  /** The block behind a held grant. */
  lemma HeldBlock(bs: seq<Block>, base: nat, ws: Words, held: Held, raw: nat) returns (k: nat)
    requires Agrees(bs, base, ws, held) && raw in held
    ensures k < |bs| && bs[k].used && raw == Addr(bs, base, k) + HEADER
    ensures Serves(ws, PayloadAt(bs, base, k), held[raw])
  {
    hide Addr, Live, Serves;
    k := BlockOf(bs, base, raw);
  }

  /** A free of what is held: the pointer leads back to its own block, whatever happened in between. */
  method DoFree(memory: AlignedAllocator, c: Call, held: Held, raw: nat) returns (r: Outcome, held': Held)
    requires memory.heap.Valid() && Agrees(memory.heap.blocks, memory.heap.base, memory.words, held)
    requires Frees(held, c, raw)
    modifies memory, memory.heap
    ensures memory.heap.Valid() && memory.heap.base == old(memory.heap.base)
    ensures Agrees(memory.heap.blocks, memory.heap.base, memory.words, held')
    ensures KeepsWords(old(memory.words), memory.words, old(memory.heap.blocks), memory.heap.base)
    ensures held' == if r.Panics? then held else held - {raw}
    ensures Step(memory.heap.base, State(old(memory.heap.blocks), held), c, r, State(memory.heap.blocks, held'))
  {
    hide Heap.Linked, Ok, Agrees, Release, Addr, Live, KeepsWords, ByteSum;
    ghost var bs, ws, base := memory.heap.blocks, memory.words, memory.heap.base;
    ghost var k := HeldBlock(bs, base, ws, held, raw);
    NeighbourSeals(bs, base, k);
    if c.Free? {
      r := memory.Kfree(c.ptr, k);
    } else {
      r := memory.KfreeAligned(c.ptr, k);
    }
    if r.Panics? {
      AgreesOn(bs, base, ws, memory.words, held);
      held' := held;
    } else {
      FreeAgrees(bs, base, ws, memory.words, held, k);
      held' := held - {raw};
    }
    assert GivesBack(base, State(bs, held), c, k, r, State(memory.heap.blocks, held'));
  }

  /** Any call. */
  method DoCall(memory: AlignedAllocator, c: Call, held: Held) returns (r: Outcome, held': Held)
    requires memory.heap.Valid() && Agrees(memory.heap.blocks, memory.heap.base, memory.words, held) && Fair(c)
    modifies memory, memory.heap
    ensures memory.heap.Valid() && memory.heap.base == old(memory.heap.base)
    ensures Agrees(memory.heap.blocks, memory.heap.base, memory.words, held')
    ensures Step(memory.heap.base, State(old(memory.heap.blocks), held), c, r, State(memory.heap.blocks, held'))
  {
    hide Heap.Linked, Ok, Agrees;
    match c {
      case Malloc(_) => r, held' := DoMalloc(memory, c, held);
      case MallocAligned(_, _) => r, held' := DoMallocAligned(memory, c, held);
      case _ =>
        if raw :| raw in held && Frees(held, c, raw) {
          r, held' := DoFree(memory, c, held, raw);
        } else {
          r, held' := Returns(0), held;
        }
    }
  }

  // ----- runs -----

  /** `ss` are the states before, between and after the calls; a panic ends the run. */
  ghost predicate Trace(base: nat, ss: seq<State>, calls: seq<Call>, rs: seq<Outcome>)
    requires forall c :: c in calls ==> Fair(c)
  {
    && |ss| == |rs| + 1 && |rs| <= |calls|
    && (forall i :: 0 <= i < |rs| ==> Step(base, ss[i], calls[i], rs[i], ss[i + 1]))
    && (|rs| < |calls| ==> rs != [] && rs[|rs| - 1].Panics?)
  }

  lemma TraceCons(base: nat, s: State, ss: seq<State>, calls: seq<Call>, r: Outcome, rs: seq<Outcome>)
    requires calls != [] && forall c :: c in calls ==> Fair(c)
    requires Trace(base, ss, calls[1..], rs) && Step(base, s, calls[0], r, ss[0])
    ensures Trace(base, [s] + ss, calls, [r] + rs)
  {
    hide Step;
    var tt, qs := [s] + ss, [r] + rs;
    forall i | 0 <= i < |qs| ensures Step(base, tt[i], calls[i], qs[i], tt[i + 1]) {
      if i > 0 { assert Step(base, ss[i - 1], calls[1..][i - 1], rs[i - 1], ss[i - 1 + 1]); }
    }
  }

  /** A whole run. Through any interleaving of the four calls every step is as Step says, the heap stays
      valid, its live payloads are exactly the allocations held, every aligned pointer's hidden words
      still name its block, and with nothing held the list is the one heap_init made. */
  method Run(memory: AlignedAllocator, calls: seq<Call>, held: Held)
    returns (replies: seq<Outcome>, held': Held, ghost states: seq<State>)
    requires memory.heap.Valid() && Agrees(memory.heap.blocks, memory.heap.base, memory.words, held)
    requires forall c :: c in calls ==> Fair(c)
    modifies memory, memory.heap
    ensures memory.heap.Valid() && memory.heap.base == old(memory.heap.base)
    ensures Trace(memory.heap.base, states, calls, replies)
    ensures states[0] == State(old(memory.heap.blocks), held)
    ensures states[|replies|] == State(memory.heap.blocks, held')
    ensures Agrees(memory.heap.blocks, memory.heap.base, memory.words, held')
    ensures held'.Keys == {} ==> memory.heap.blocks == Initial()
    decreases |calls|
  {
    hide Heap.Linked, Ok, Agrees, Step, Frees, Fair;
    ghost var s := State(memory.heap.blocks, held);
    if calls == [] {
      NothingHeld(memory.heap.blocks, memory.heap.base, memory.words, held);
      return [], held, [s];
    }
    var c := calls[0];
    var r, kept := DoCall(memory, c, held);
    if r.Panics? {
      NothingHeld(memory.heap.blocks, memory.heap.base, memory.words, kept);
      return [r], kept, [s, State(memory.heap.blocks, kept)];
    }
    var rest;
    ghost var ss;
    rest, held', ss := Run(memory, calls[1..], kept);
    TraceCons(memory.heap.base, s, ss, calls, r, rest);
    replies, states := [r] + rest, [s] + ss;
  }

  // ----- properly nested programs -----

  /** A program that frees in the reverse order of its allocations: allocate, run `inner`, free, go on. */
  datatype Nested =
    | Done
    | With(size: nat, inner: Nested, rest: Nested)
    | WithAligned(size: nat, alignment: nat, inner: Nested, rest: Nested)

  /** 32-bit sizes, and aligned requests that do not wrap. */
  predicate FairNested(p: Nested) {
    match p
    case Done => true
    case With(size, inner, rest) => size < TWO32 && FairNested(inner) && FairNested(rest)
    case WithAligned(size, alignment, inner, rest) =>
      size + alignment + 7 <= TWO32 - 4 && FairNested(inner) && FairNested(rest)
  }

  /** Words kept over an allocation, whatever ran inside it, the free, and what follows. */
  lemma KeptOver(w0: Words, w1: Words, w2: Words, w3: Words, w4: Words, bs: seq<Block>, cs: seq<Block>, base: nat)
    requires KeepsWords(w0, w1, bs, base) && KeepsWords(w1, w2, cs, base) && KeepsWords(w2, w3, cs, base)
    requires KeepsWords(w3, w4, bs, base) && Live(bs, base) <= Live(cs, base)
    ensures KeepsWords(w0, w4, bs, base)
  {
    hide Live;
  }

  /** What a block just allocated needs to be freed once its inner program has restored the list. */
  lemma NestedBlock(bs: seq<Block>, base: nat, k: nat, n: nat)
    requires Ok(bs, base) && BestFit(bs, n, k)
    ensures var cs := Allocate(bs, base, k, n);
      && k < |cs| && Addr(cs, base, k) == Addr(bs, base, k) && Intact(cs, base, k) && Release(cs, base, k) == bs
      && Live(bs, base) <= Live(cs, base) && PayloadAt(cs, base, k) in Live(cs, base)
  {
    hide Addr, Allocate, Release, Live, Ok, ByteSum;
    ChosenHolds(bs, n, k);
    FreeUndoesMalloc(bs, base, k, n);
    AllocatedBlock(bs, base, k, n);
    AllocateLive(bs, base, k, n);
  }

  /** Hidden words inside a live payload are still there when its words are kept. */
  lemma HiddenKept(ws: Words, ws': Words, cs: seq<Block>, base: nat, k: nat, ptr: nat)
    requires k < |cs| && PayloadAt(cs, base, k) in Live(cs, base) && KeepsWords(ws, ws', cs, base)
    requires PayloadAt(cs, base, k).start + 8 <= ptr <= PayloadAt(cs, base, k).start + cs[k].size
    requires ptr - 4 in ws && ptr - 8 in ws
    ensures ptr - 4 in ws' && ws'[ptr - 4] == ws[ptr - 4] && ptr - 8 in ws' && ws'[ptr - 8] == ws[ptr - 8]
  {
    hide Live, Addr;
    var p := PayloadAt(cs, base, k);
    assert Inside(p, ptr - 4) && Inside(p, ptr - 8);
  }

  /** Such a program never panics, whatever it asks for and however deep it nests, and leaves the block list
      as it found it, seals included. */
  method RunNested(memory: AlignedAllocator, p: Nested) returns (panicked: bool)
    requires memory.heap.Valid() && FairNested(p)
    modifies memory, memory.heap
    ensures !panicked && memory.heap.Valid() && memory.heap.base == old(memory.heap.base)
    ensures memory.heap.blocks == old(memory.heap.blocks)
    ensures KeepsWords(old(memory.words), memory.words, memory.heap.blocks, memory.heap.base)
    decreases p
  {
    hide Heap.Linked, Ok, Allocate, Release, Addr, ByteSum, BestBelow, NoneBelow, Rounded, Live, KeepsWords, AlignUp,
         PowerOfTwo, Stored, Represents, Intact, TotalSize;
    ghost var bs, base, w0 := memory.heap.blocks, memory.heap.base, memory.words;
    NoWordsLost(w0, bs, base);
    match p {
      case Done => panicked := false;
      case With(size, inner, rest) =>
        var r, k := memory.Kmalloc(size);
        ghost var cs, w1 := memory.heap.blocks, memory.words;
        if r.ptr != 0 {
          NestedBlock(bs, base, k, Rounded(size));
          KeepsFewer(w0, w1, bs, cs, base);
        }
        panicked := RunNested(memory, inner);
        ghost var w2 := memory.words;
        var f := memory.Kfree(r.ptr, k);
        if f.Panics? { return true; }
        ghost var w3 := memory.words;
        panicked := RunNested(memory, rest);
        KeptOver(w0, w1, w2, w3, memory.words, bs, cs, base);
      case WithAligned(size, alignment, inner, rest) =>
        var r, k, m := memory.KmallocAligned(size, alignment);
        ghost var cs, w1 := memory.heap.blocks, memory.words;
        if r.ptr != 0 { NestedBlock(bs, base, k, Rounded(TotalSize(size, alignment))); }
        panicked := RunNested(memory, inner);
        ghost var w2 := memory.words;
        if r.ptr != 0 { HiddenKept(w1, w2, cs, base, k, r.ptr); }
        var f := memory.KfreeAligned(r.ptr, k);
        if f.Panics? { return true; }
        ghost var w3 := memory.words;
        panicked := RunNested(memory, rest);
        KeptOver(w0, w1, w2, w3, memory.words, bs, cs, base);
    }
  }
}
