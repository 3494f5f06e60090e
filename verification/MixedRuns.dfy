/** A slab cache and other users of the heap side by side: any interleaving of cache operations with calls of
    kmalloc, kfree, kmalloc_aligned and kfree_aligned for blocks the cache does not hold.
 */
module MixedRuns {
  import opened AlignedAlloc
  import opened HeapBlocks
  import opened KernelHeap
  import opened Machine
  import C = SlabCache
  import H = HeapRuns

  // ----- the heap shared -----

  /** What a cache with these pages, given by raw pointer, holds of the heap. */
  function GrantsOf(pages: map<nat, nat>): H.Held {
    map raw | raw in pages :: H.Aligned(PAGE_SIZE, PAGE_SIZE, pages[raw])
  }

  /** What the cache holds of the heap: one aligned page for each slab. */
  function PageGrants(ws: Words, ps: set<nat>): H.Held
    requires C.OneBlockEach(ws, ps)
  {
    GrantsOf(C.PageMap(ws, ps))
  }

  /** The grants by page, and by block. */
  lemma GrantOf(ws: Words, ps: set<nat>, p: nat)
    requires C.OneBlockEach(ws, ps) && p in ps
    ensures var raw := C.Raw(ws, p);
      raw in PageGrants(ws, ps) && PageGrants(ws, ps)[raw] == H.Aligned(PAGE_SIZE, PAGE_SIZE, p)
  {
    hide C.Raw;
  }

  lemma PageOfGrant(ws: Words, ps: set<nat>, raw: nat) returns (p: nat)
    requires C.OneBlockEach(ws, ps) && raw in PageGrants(ws, ps)
    ensures p in ps && raw == C.Raw(ws, p)
    ensures PageGrants(ws, ps)[raw] == H.Aligned(PAGE_SIZE, PAGE_SIZE, p)
  {
    hide C.Raw;
    p := C.PageMap(ws, ps)[raw];
  }

  lemma GrantsAreStarts(ws: Words, ps: set<nat>)
    requires C.OneBlockEach(ws, ps)
    ensures PageGrants(ws, ps).Keys == C.Starts(ws, ps)
  {
    hide C.Raw;
  }

  /** The pages of the cache and the grants of others are together exactly what is live, and no block is
      held by both. */
  ghost predicate Shared(base: nat, s: C.Site, others: H.Held) {
    && C.AllBacked(s.blocks, base, s.words, s.ps) && C.OneBlockEach(s.words, s.ps)
    && others.Keys !! PageGrants(s.words, s.ps).Keys
    && H.Agrees(s.blocks, base, s.words, others + PageGrants(s.words, s.ps))
  }

  /** A cache without slabs shares the heap with whatever others hold. */
  lemma EmptyCacheShares(base: nat, bs: seq<Block>, ws: Words, others: H.Held)
    requires H.Agrees(bs, base, ws, others)
    ensures Shared(base, C.Site(bs, ws, {}), others)
  {
    hide H.Agrees;
    assert PageGrants(ws, {}) == map[];
    assert others + map[] == others;
  }

  // ----- after a cache operation -----

  /** What others hold is still live, and backs no page. */
  lemma OtherLive(base: nat, s: C.Site, t: C.Site, others: H.Held, raw: nat)
    requires Shared(base, s, others) && C.Leaves(base, s, t) && raw in others
    ensures raw !in C.Starts(t.words, t.ps) && H.HasPayload(t.blocks, base, raw)
  {
    GrantsAreStarts(s.words, s.ps);
    hide Live, C.Starts, PageGrants, C.AllBacked, C.OneBlockEach, C.OthersKept, H.Serves;
    assert raw in others + PageGrants(s.words, s.ps);
    var q :| q in Live(s.blocks, base) && q.start == raw;
    assert q in Live(t.blocks, base);
  }

  lemma ServesOn(base: nat, s: C.Site, ws': Words, q: Payload, g: H.Grant)
    requires q in Live(s.blocks, base) && q.start !in C.Starts(s.words, s.ps)
    requires C.OthersKept(base, s, ws') && H.Serves(s.words, q, g)
    ensures H.Serves(ws', q, g)
  {
    hide Live, C.Starts;
    if g.Aligned? { assert Inside(q, g.ptr - 4) && Inside(q, g.ptr - 8); }
  }

  /** A live block that backs no page serves the grant it served before. */
  lemma OtherServed(base: nat, s: C.Site, t: C.Site, others: H.Held, q: Payload)
    requires Shared(base, s, others) && C.Leaves(base, s, t)
    requires q in Live(t.blocks, base) && q.start !in C.Starts(t.words, t.ps)
    ensures q.start in others && H.Serves(t.words, q, others[q.start])
  {
    hide Live, C.Starts, Shared, H.Serves, C.OthersKept;
    OtherHeld(base, s, t, others, q);
    ServesOn(base, s, t.words, q, others[q.start]);
  }

  lemma OtherHeld(base: nat, s: C.Site, t: C.Site, others: H.Held, q: Payload)
    requires Shared(base, s, others) && C.Leaves(base, s, t)
    requires q in Live(t.blocks, base) && q.start !in C.Starts(t.words, t.ps)
    ensures q in Live(s.blocks, base) && q.start !in C.Starts(s.words, s.ps)
    ensures q.start in others && H.Serves(s.words, q, others[q.start])
  {
    GrantsAreStarts(s.words, s.ps);
    hide Live, C.Starts, PageGrants, C.AllBacked, C.OneBlockEach, C.OthersKept, H.Serves;
  }

  /** A page's block is live and serves it. */
  lemma PageServed(base: nat, t: C.Site, raw: nat)
    requires C.AllBacked(t.blocks, base, t.words, t.ps) && C.OneBlockEach(t.words, t.ps)
    requires raw in PageGrants(t.words, t.ps)
    ensures H.HasPayload(t.blocks, base, raw)
    ensures forall q :: q in Live(t.blocks, base) && q.start == raw ==>
              H.Serves(t.words, q, PageGrants(t.words, t.ps)[raw])
  {
    var p := PageOfGrant(t.words, t.ps, raw);
    hide Live, PageGrants;
    var r :| C.BackedBy(t.blocks, base, t.words, p, r);
    forall q | q in Live(t.blocks, base) && q.start == raw ensures q == r {
      H.LiveStartsUnique(t.blocks, base, q, r);
    }
  }

  /** The cache keeps sharing: whatever it does leaves the grants of others served. */
  lemma CacheShares(base: nat, s: C.Site, t: C.Site, others: H.Held)
    requires Shared(base, s, others) && C.Leaves(base, s, t) && C.AllBacked(t.blocks, base, t.words, t.ps)
    ensures Shared(base, t, others)
  {
    C.BackedDistinct(t, base);
    GrantsAreStarts(t.words, t.ps);
    hide Live, C.AllBacked, C.Leaves, H.Serves, C.Starts, PageGrants, C.OneBlockEach, H.HasPayload;
    var g := PageGrants(t.words, t.ps);
    var all := others + g;
    forall raw | raw in all ensures H.HasPayload(t.blocks, base, raw) && (raw in others ==> raw !in g) {
      if raw in others { OtherLive(base, s, t, others, raw); } else { PageServed(base, t, raw); }
    }
    forall q | q in Live(t.blocks, base) ensures q.start in all && H.Serves(t.words, q, all[q.start]) {
      if q.start in g { PageServed(base, t, q.start); } else { OtherServed(base, s, t, others, q); }
    }
  }

  // ----- after a call of another user -----

  lemma ServedPage(bs: seq<Block>, base: nat, ws: Words, p: nat, q: Payload)
    requires q in Live(bs, base) && H.Serves(ws, q, H.Aligned(PAGE_SIZE, PAGE_SIZE, p))
    ensures C.BackedBy(bs, base, ws, p, q) && C.Raw(ws, p) == q.start
  {
    hide Live;
  }

  /** A page whose grant is still held is backed by the block it had. */
  lemma PageKept(base: nat, s: C.Site, bs': seq<Block>, ws': Words, all: H.Held, p: nat)
    requires C.AllBacked(s.blocks, base, s.words, s.ps) && C.OneBlockEach(s.words, s.ps) && p in s.ps
    requires H.Agrees(bs', base, ws', all) && forall raw :: raw in PageGrants(s.words, s.ps) ==>
               raw in all && all[raw] == PageGrants(s.words, s.ps)[raw]
    ensures C.Raw(ws', p) == C.Raw(s.words, p) && C.Backed(bs', base, ws', p)
  {
    hide Live, PageGrants, C.OneBlockEach, H.Serves, C.BackedBy, C.Raw, C.AllBacked;
    GrantOf(s.words, s.ps, p);
    var raw := C.Raw(s.words, p);
    assert raw in all && all[raw] == H.Aligned(PAGE_SIZE, PAGE_SIZE, p);
    var q :| q in Live(bs', base) && q.start == raw;
    ServedPage(bs', base, ws', p, q);
  }

  /** Other users keep sharing: a call that leaves the cache's grants alone leaves its pages backed. */
  lemma CallShares(base: nat, s: C.Site, bs': seq<Block>, ws': Words, others': H.Held)
    requires C.AllBacked(s.blocks, base, s.words, s.ps) && C.OneBlockEach(s.words, s.ps)
    requires others'.Keys !! PageGrants(s.words, s.ps).Keys
    requires H.Agrees(bs', base, ws', others' + PageGrants(s.words, s.ps))
    ensures Shared(base, C.Site(bs', ws', s.ps), others') && C.OneBlockEach(ws', s.ps)
    ensures PageGrants(ws', s.ps) == PageGrants(s.words, s.ps) && C.PageMap(ws', s.ps) == C.PageMap(s.words, s.ps)
  {
    hide Live, C.Backed, H.Agrees, C.Raw, PageGrants;
    forall p | p in s.ps ensures C.Raw(ws', p) == C.Raw(s.words, p) && C.Backed(bs', base, ws', p) {
      PageKept(base, s, bs', ws', others' + PageGrants(s.words, s.ps), p);
    }
    C.PageMapSame(s.words, ws', s.ps);
    GrantsSame(s.words, ws', s.ps);
  }

  lemma GrantsSame(ws: Words, ws': Words, ps: set<nat>)
    requires C.OneBlockEach(ws, ps) && C.OneBlockEach(ws', ps) && C.PageMap(ws', ps) == C.PageMap(ws, ps)
    ensures PageGrants(ws', ps) == PageGrants(ws, ps)
  {
  }

  // ----- one operation -----

  datatype Op = Cache(op: C.Op) | Heap(call: H.Call)

  datatype Reply = Objects(got: seq<nat>) | Answer(r: Outcome)

  /** The block list and the cache's pages by raw pointer; the grants of others and the objects users of the
      cache hold; the free objects, and how many fit in a page. */
  datatype State = State(claims: C.Claims, others: H.Held, held: set<nat>, spare: int, num: nat)

  /** The objects to be had. */
  ghost function Supply(base: nat, s: State): int { s.spare + s.num * C.PagesLeft(s.claims.blocks, base) }

  /** The pages a cache operation takes: the least that serves it, or all when it is refused. */
  ghost function Used(base: nat, s: State, op: C.Op): (m: nat)
    ensures m <= C.PagesLeft(s.claims.blocks, base)
  {
    if op.Take? then C.PagesUsed(s.spare, s.num, C.PagesLeft(s.claims.blocks, base), op.n) else 0
  }

  ghost function Now(cache: C.KmemCache, others: H.Held): (s: State)
    requires cache.Valid()
    reads cache, cache.pages, cache.pages.heap
    ensures s.others == others
  {
    State(cache.Claim(), others, cache.live, C.S.Spare(cache.View()), cache.num)
  }

  /** An allocation, or a free of something others hold. Anything else is not attempted. */
  ghost predicate Attempted(others: H.Held, c: H.Call) {
    H.Allocates(c) || exists raw :: H.Frees(others, c, raw)
  }

  /** All grants, the cache's pages among them. */
  ghost function All(s: State): H.State { H.State(s.claims.blocks, s.others + GrantsOf(s.claims.pages)) }

  /** A cache operation grants as Grants says, takes exactly the pages it needs, one after another, and leaves
      the others' grants alone. A call of another user is the step it is when the cache's pages are grants
      like any other, and leaves the cache's pages and objects alone. */
  ghost predicate Step(base: nat, s: State, op: Op, r: Reply, s': State)
    requires op.Heap? ==> H.Fair(op.call)
  {
    match op
    case Cache(o) =>
      && r.Objects? && C.Grants(s.held, Supply(base, s), o, r.got)
      && s' == State(C.Claimed(base, s.claims, Used(base, s, o)), s.others, C.HeldAfter(s.held, o, r.got),
                     C.SupplyAfter(s.held, s.spare + s.num * Used(base, s, o), o, r.got), s.num)
    case Heap(c) =>
      && r.Answer? && s' == s.(claims := s.claims.(blocks := s'.claims.blocks), others := s'.others)
      && if Attempted(s.others, c) then
           H.Step(base, All(s), c, r.r, All(s')) && s'.others.Keys !! s'.claims.pages.Keys
         else r.r == Returns(0) && s' == s
  }

  lemma SameOthers(pages: map<nat, nat>, others: H.Held, others': H.Held)
    requires others.Keys !! pages.Keys && others'.Keys !! pages.Keys
    requires others + GrantsOf(pages) == others' + GrantsOf(pages)
    ensures others == others'
  {
    var g := GrantsOf(pages);
    assert g.Keys == pages.Keys;
    assert others == (others + g) - g.Keys && others' == (others' + g) - g.Keys;
  }

  /** So the reply is exact: a call of another user has one reply and one next state, given that a pointer to
      free was granted from one block only; a cache operation gives one number of objects, and with them
      one next state. */
  lemma StepDetermined(base: nat, s: State, op: Op, r: Reply, s': State, q: Reply, t': State)
    requires op.Heap? ==> H.Fair(op.call)
    requires Step(base, s, op, r, s') && Step(base, s, op, q, t')
    requires op.Heap? ==> forall a, b :: H.Frees(All(s).held, op.call, a) && H.Frees(All(s).held, op.call, b) ==> a == b
    ensures op.Heap? ==> r == q && s' == t'
    ensures op.Cache? ==> |r.got| == |q.got| && (r == q ==> s' == t')
  {
    hide H.Step, GrantsOf, C.Claimed, C.PagesUsed, C.PagesLeft, C.HeldAfter;
    if op.Heap? && Attempted(s.others, op.call) {
      H.StepDetermined(base, All(s), op.call, r.r, All(s'), q.r, All(t'));
      SameOthers(s.claims.pages, s'.others, t'.others);
    }
  }

  method DoCache(cache: C.KmemCache, op: C.Op, held: set<nat>, ghost others: H.Held) returns (r: Reply, held': set<nat>)
    requires cache.Valid() && cache.live == held && Shared(cache.pages.heap.base, cache.Here(), others)
    modifies cache, cache.pages, cache.pages.heap
    ensures cache.Valid() && cache.live == held' && cache.pages.heap.base == old(cache.pages.heap.base)
    ensures Shared(cache.pages.heap.base, cache.Here(), others)
    ensures Step(cache.pages.heap.base, old(Now(cache, others)), Cache(op), r, Now(cache, others))
  {
    hide C.AllBacked, C.Leaves, Shared, PageGrants, Heap.Valid, C.S.CacheOk, C.Grants, C.HeldAfter, C.SupplyAfter,
         C.PagesLeft, C.Claimed, C.PagesUsed, C.S.Spare, C.PageMap, C.InMemory;
    ghost var s := cache.Here();
    var got := C.Execute(cache, op, held);
    CacheShares(cache.pages.heap.base, s, cache.Here(), others);
    r, held' := Objects(got), C.HeldAfter(held, op, got);
  }

  /** What an allocation adds to all grants it adds to the others'. */
  lemma StillApart(base: nat, bs: seq<Block>, bs': seq<Block>, c: H.Call, r: Outcome, others: H.Held, pages: H.Held,
                   all': H.Held)
    requires H.Fair(c) && H.Allocates(c) && others.Keys !! pages.Keys
    requires H.Step(base, H.State(bs, others + pages), c, r, H.State(bs', all'))
    ensures (all' - pages.Keys).Keys !! pages.Keys && (all' - pages.Keys) + pages == all'
  {
    hide Addr, Allocate, BestFit, NoFit, Rounded, AlignUp;
    if all' == others + pages {
      assert all' - pages.Keys == others;
    } else {
      var k: nat :| H.Takes(base, H.State(bs, others + pages), c, k, r, H.State(bs', all'));
    }
  }

  /** A call that is attempted, as a step. */
  lemma CallIsStep(base: nat, s: State, c: H.Call, r: Outcome, bs': seq<Block>, others': H.Held)
    requires H.Fair(c) && Attempted(s.others, c) && others'.Keys !! s.claims.pages.Keys
    requires H.Step(base, All(s), c, r, H.State(bs', others' + GrantsOf(s.claims.pages)))
    ensures Step(base, s, Heap(c), Answer(r), s.(claims := s.claims.(blocks := bs'), others := others'))
  {
    hide H.Step, GrantsOf, Attempted;
  }

  ghost function PageMapOf(base: nat, s: C.Site): map<nat, nat>
    requires C.AllBacked(s.blocks, base, s.words, s.ps)
  {
    C.PageMap(s.words, s.ps)
  }

  /** The cache and its memory after a call that left its grants alone. */
  lemma CacheKept(base: nat, s: C.Site, bs': seq<Block>, ws': Words, others: H.Held, others': H.Held)
    requires Shared(base, s, others) && others'.Keys !! GrantsOf(PageMapOf(base, s)).Keys
    requires H.Agrees(bs', base, ws', others' + GrantsOf(PageMapOf(base, s)))
    ensures Shared(base, C.Site(bs', ws', s.ps), others') && C.AllBacked(bs', base, ws', s.ps)
    ensures C.OneBlockEach(ws', s.ps) && C.PageMap(ws', s.ps) == PageMapOf(base, s)
  {
    hide Live, H.Agrees, C.PageMap, GrantsOf, C.Backed, C.Raw;
    CallShares(base, s, bs', ws', others');
  }

  lemma SharedFacts(base: nat, s: C.Site, others: H.Held)
    requires Shared(base, s, others)
    ensures C.AllBacked(s.blocks, base, s.words, s.ps) && C.OneBlockEach(s.words, s.ps)
    ensures others.Keys !! GrantsOf(PageMapOf(base, s)).Keys
    ensures GrantsOf(PageMapOf(base, s)).Keys == PageMapOf(base, s).Keys
    ensures H.Agrees(s.blocks, base, s.words, others + GrantsOf(PageMapOf(base, s)))
  {
    hide H.Agrees, C.AllBacked, C.PageMap;
  }

  /** An allocation by another user. */
  method DoAllocate(cache: C.KmemCache, c: H.Call, others: H.Held) returns (r: Outcome, others': H.Held)
    requires cache.Valid() && Shared(cache.pages.heap.base, cache.Here(), others) && H.Fair(c) && H.Allocates(c)
    modifies cache.pages, cache.pages.heap
    ensures cache.Valid() && cache.pages.heap.base == old(cache.pages.heap.base)
    ensures Shared(cache.pages.heap.base, cache.Here(), others')
    ensures Step(cache.pages.heap.base, old(Now(cache, others)), Heap(c), Answer(r), Now(cache, others'))
  {
    hide C.AllBacked, C.PageMap, GrantsOf, Heap.Valid, C.S.CacheOk, H.Agrees, C.OneBlockEach, H.Step, Shared, C.S.Spare,
         Step, C.InMemory, KeepsWords, C.PagesKept;
    ghost var s, before, base := cache.Here(), Now(cache, others), cache.pages.heap.base;
    SharedFacts(base, s, others);
    var pages := GrantsOf(C.PageMap(cache.pages.words, cache.headers.Keys));
    var all';
    if c.Malloc? {
      r, all' := H.DoMalloc(cache.pages, c, others + pages);
    } else {
      r, all' := H.DoMallocAligned(cache.pages, c, others + pages);
    }
    others' := all' - pages.Keys;
    StillApart(base, s.blocks, cache.pages.heap.blocks, c, r, others, pages, all');
    CacheKept(base, s, cache.pages.heap.blocks, cache.pages.words, others, others');
    CallIsStep(base, before, c, r, cache.pages.heap.blocks, others');
    C.PageWordsKept(s.blocks, base, s.words, cache.pages.words, s.ps);
    C.InMemoryOn(cache.View(), s.words, cache.pages.words);
  }

  /** A free by another user of what it holds. */
  method DoFree(cache: C.KmemCache, c: H.Call, others: H.Held, raw: nat) returns (r: Outcome, others': H.Held)
    requires cache.Valid() && Shared(cache.pages.heap.base, cache.Here(), others) && H.Frees(others, c, raw)
    modifies cache.pages, cache.pages.heap
    ensures cache.Valid() && cache.pages.heap.base == old(cache.pages.heap.base)
    ensures Shared(cache.pages.heap.base, cache.Here(), others')
    ensures Step(cache.pages.heap.base, old(Now(cache, others)), Heap(c), Answer(r), Now(cache, others'))
  {
    hide C.AllBacked, C.PageMap, GrantsOf, Heap.Valid, C.S.CacheOk, H.Agrees, C.OneBlockEach, H.Step, Shared, C.S.Spare,
         Step, C.InMemory, KeepsWords, C.PagesKept;
    ghost var s, before, base := cache.Here(), Now(cache, others), cache.pages.heap.base;
    SharedFacts(base, s, others);
    var pages := GrantsOf(C.PageMap(cache.pages.words, cache.headers.Keys));
    var all';
    r, all' := H.DoFree(cache.pages, c, others + pages, raw);
    others' := if r.Panics? then others else others - {raw};
    assert others' + pages == all';
    CacheKept(base, s, cache.pages.heap.blocks, cache.pages.words, others, others');
    CallIsStep(base, before, c, r, cache.pages.heap.blocks, others');
    C.PageWordsKept(s.blocks, base, s.words, cache.pages.words, s.ps);
    C.InMemoryOn(cache.View(), s.words, cache.pages.words);
  }

  /** Any operation. */
  method Execute(cache: C.KmemCache, op: Op, held: set<nat>, others: H.Held)
    returns (r: Reply, held': set<nat>, others': H.Held)
    requires cache.Valid() && cache.live == held && Shared(cache.pages.heap.base, cache.Here(), others)
    requires op.Heap? ==> H.Fair(op.call)
    modifies cache, cache.pages, cache.pages.heap
    ensures cache.Valid() && cache.live == held' && cache.pages.heap.base == old(cache.pages.heap.base)
    ensures Shared(cache.pages.heap.base, cache.Here(), others')
    ensures Step(cache.pages.heap.base, old(Now(cache, others)), op, r, Now(cache, others'))
  {
    hide C.KmemCache.Valid, Shared, Now;
    held', others' := held, others;
    match op {
      case Cache(o) => r, held' := DoCache(cache, o, held, others);
      case Heap(c) =>
        var answer := Returns(0);
        if H.Allocates(c) {
          answer, others' := DoAllocate(cache, c, others);
        } else if raw :| raw in others && H.Frees(others, c, raw) {
          answer, others' := DoFree(cache, c, others, raw);
        }
        r := Answer(answer);
    }
  }

  // ----- runs -----

  /** `ss` are the states before, between and after the operations; a panic ends the run. */
  ghost predicate Trace(base: nat, ss: seq<State>, ops: seq<Op>, rs: seq<Reply>)
    requires forall op :: op in ops && op.Heap? ==> H.Fair(op.call)
  {
    && |ss| == |rs| + 1 && |rs| <= |ops|
    && (forall i :: 0 <= i < |rs| ==> Step(base, ss[i], ops[i], rs[i], ss[i + 1]))
    && (|rs| < |ops| ==> rs != [] && rs[|rs| - 1] == Answer(Panics))
  }

  lemma TraceCons(base: nat, s: State, ss: seq<State>, ops: seq<Op>, r: Reply, rs: seq<Reply>)
    requires ops != [] && forall op :: op in ops && op.Heap? ==> H.Fair(op.call)
    requires Trace(base, ss, ops[1..], rs) && Step(base, s, ops[0], r, ss[0])
    ensures Trace(base, [s] + ss, ops, [r] + rs)
  {
    hide Step;
    var tt, qs := [s] + ss, [r] + rs;
    forall i | 0 <= i < |qs| ensures Step(base, tt[i], ops[i], qs[i], tt[i + 1]) {
      if i > 0 { assert Step(base, ss[i - 1], ops[1..][i - 1], rs[i - 1], ss[i - 1 + 1]); }
    }
  }

  /** Whole runs of a cache and other users of the heap: through any interleaving the cache and the heap stay
      valid, every operation is as Step says, no block is both a slab's and somebody else's, and each
      side's hidden words stay in place. */
  method Run(cache: C.KmemCache, ops: seq<Op>, held: set<nat>, others: H.Held)
    returns (replies: seq<Reply>, held': set<nat>, others': H.Held, ghost states: seq<State>)
    requires cache.Valid() && cache.live == held && Shared(cache.pages.heap.base, cache.Here(), others)
    requires forall op :: op in ops && op.Heap? ==> H.Fair(op.call)
    modifies cache, cache.pages, cache.pages.heap
    ensures cache.Valid() && cache.live == held' && cache.pages.heap.base == old(cache.pages.heap.base)
    ensures Shared(cache.pages.heap.base, cache.Here(), others')
    ensures Trace(cache.pages.heap.base, states, ops, replies)
    ensures states[0] == old(Now(cache, others)) && states[|replies|] == Now(cache, others')
    decreases |ops|
  {
    hide C.KmemCache.Valid, Shared, Now, Step;
    ghost var s := Now(cache, others);
    if ops == [] { return [], held, others, [s]; }
    var r, kept, left := Execute(cache, ops[0], held, others);
    if r == Answer(Panics) { return [r], kept, left, [s, Now(cache, left)]; }
    var rest;
    ghost var ss;
    rest, held', others', ss := Run(cache, ops[1..], kept, left);
    TraceCons(cache.pages.heap.base, s, ss, ops, r, rest);
    replies, states := [r] + rest, [s] + ss;
  }
}
