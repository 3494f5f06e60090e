/** kmem_cache_alloc, kmem_cache_free and the bulk calls, with slab pages taken from the kernel heap.
 */
module SlabCache {
  import S = Slab
  import opened AlignedAlloc
  import opened Bits
  import opened Division
  import opened HeapBlocks
  import opened KernelHeap
  import opened Machine

  lemma PagePower()
    ensures PowerOfTwo(PAGE_SIZE)
  {
    WordBits();
  }

  // ----- slab pages in the heap's memory -----

  /** The raw pointer of the block that the hidden word below page `p` names. */
  function Raw(ws: Words, p: nat): nat {
    if p - 4 in ws then ws[p - 4] + HEADER else 0
  }

  /** Page `p` lies inside the live payload `q`, above the two hidden words that name it. */
  ghost predicate BackedBy(bs: seq<Block>, base: nat, ws: Words, p: nat, q: Payload) {
    && q in Live(bs, base) && q.start + 8 <= p && p + PAGE_SIZE <= q.start + q.size && p % PAGE_SIZE == 0
    && p - 4 in ws && Raw(ws, p) == q.start && p - 8 in ws && ws[p - 8] == PAGE_SIZE
  }

  ghost predicate Backed(bs: seq<Block>, base: nat, ws: Words, p: nat) {
    exists q :: BackedBy(bs, base, ws, p, q)
  }

  predicate OneBlockEach(ws: Words, ps: set<nat>) {
    forall p, p' :: p in ps && p' in ps && p != p' ==> Raw(ws, p) != Raw(ws, p')
  }

  /** Every page of `ps` is backed by a block of its own. */
  ghost predicate AllBacked(bs: seq<Block>, base: nat, ws: Words, ps: set<nat>) {
    (forall p :: p in ps ==> Backed(bs, base, ws, p)) && OneBlockEach(ws, ps)
  }

  /** The pages by the raw pointers of their blocks. */
  function PageMap(ws: Words, ps: set<nat>): map<nat, nat>
    requires OneBlockEach(ws, ps)
  {
    map p | p in ps :: Raw(ws, p) := p
  }

  /** The hidden words of the pages name the same blocks as before. */
  ghost predicate SameBlocks(ws: Words, ws': Words, ps: set<nat>) {
    forall p :: p in ps ==> Raw(ws', p) == Raw(ws, p)
  }

  /** A page stays backed while its block stays live and the words inside payloads are kept. */
  lemma StaysBacked(bs: seq<Block>, cs: seq<Block>, base: nat, ws: Words, ws': Words, p: nat)
    requires Backed(bs, base, ws, p) && KeepsWords(ws, ws', bs, base)
    requires forall q :: q in Live(bs, base) && q.start == Raw(ws, p) ==> q in Live(cs, base)
    ensures Backed(cs, base, ws', p) && Raw(ws', p) == Raw(ws, p)
  {
    hide Live;
    var q :| BackedBy(bs, base, ws, p, q);
    assert Inside(q, p - 4) && Inside(q, p - 8);
    assert BackedBy(cs, base, ws', p, q);
  }

  /** So all do when all blocks in use stay live, or all but one that backs none of them. */
  lemma AllStayBacked(bs: seq<Block>, cs: seq<Block>, base: nat, ws: Words, ws': Words, ps: set<nat>)
    requires AllBacked(bs, base, ws, ps) && KeepsWords(ws, ws', bs, base)
    requires forall p, q :: p in ps && q in Live(bs, base) && q.start == Raw(ws, p) ==> q in Live(cs, base)
    ensures AllBacked(cs, base, ws', ps) && SameBlocks(ws, ws', ps)
  {
    hide Live, KeepsWords;
    forall p | p in ps ensures Backed(cs, base, ws', p) && Raw(ws', p) == Raw(ws, p) {
      StaysBacked(bs, cs, base, ws, ws', p);
    }
  }

  /** A page carved from a fresh allocation: it is none of the pages in use, its block backs none of them,
      and those stay backed. */
  lemma FreshPage(bs: seq<Block>, base: nat, ws: Words, ws': Words, k: nat, n: nat, p: nat, ps: set<nat>)
    requires Ok(bs, base) && BestFit(bs, n, k) && n >= 16 && n % 4 == 0
    requires AllBacked(bs, base, ws, ps) && KeepsWords(ws, ws', bs, base)
    requires k < |Allocate(bs, base, k, n)|
    requires BackedBy(Allocate(bs, base, k, n), base, ws', p, PayloadAt(Allocate(bs, base, k, n), base, k))
    ensures p !in ps && AllBacked(Allocate(bs, base, k, n), base, ws', ps + {p})
    ensures SameBlocks(ws, ws', ps)
    ensures forall q :: q in Live(bs, base) ==> q.start != Raw(ws', p)
  {
    hide Addr, Allocate, Live, Ok, BestBelow, KeepsWords;
    ChosenHolds(bs, n, k);
    AllocateLive(bs, base, k, n);
    var cs := Allocate(bs, base, k, n);
    AllStayBacked(bs, cs, base, ws, ws', ps);
    forall held | held in ps ensures Raw(ws', held) != Raw(ws', p) {
      var q :| BackedBy(bs, base, ws, held, q);
    }
    assert Backed(cs, base, ws', p);
  }

  // ----- what the cache leaves to others -----

  /** The blocks that back the pages. */
  ghost function Starts(ws: Words, ps: set<nat>): set<nat> {
    set p | p in ps :: Raw(ws, p)
  }

  /** The heap's blocks, the words in memory and the cache's pages at some moment. */
  datatype Site = Site(blocks: seq<Block>, words: Words, ps: set<nat>)

  /** Words inside payloads that back no page are kept. */
  ghost predicate OthersKept(base: nat, s: Site, ws': Words) {
    forall q, a :: q in Live(s.blocks, base) && q.start !in Starts(s.words, s.ps) && Inside(q, a) && a in s.words ==>
      a in ws' && ws'[a] == s.words[a]
  }

  /** From `s` to `t` the cache freed no block, kept its pages and their blocks, took only fresh blocks, one
      for each new page, and stored nothing in the payloads of others. */
  ghost predicate Leaves(base: nat, s: Site, t: Site) {
    && s.ps <= t.ps && SameBlocks(s.words, t.words, s.ps)
    && Live(s.blocks, base) <= Live(t.blocks, base)
    && (forall q :: q in Live(t.blocks, base) ==> q in Live(s.blocks, base) || q.start in Starts(t.words, t.ps))
    && (forall q :: q in Live(s.blocks, base) && q.start in Starts(t.words, t.ps) ==> q.start in Starts(s.words, s.ps))
    && Starts(s.words, s.ps) <= Starts(t.words, t.ps)
    && OthersKept(base, s, t.words)
  }

  lemma LeavesNothing(base: nat, s: Site)
    ensures Leaves(base, s, s)
  {
    hide Live, Starts, Raw;
  }

  lemma LeavesInTurn(base: nat, s: Site, t: Site, u: Site)
    requires Leaves(base, s, t) && Leaves(base, t, u)
    ensures Leaves(base, s, u)
  {
    hide Live, Starts, Raw;
  }

  lemma LeavesBlocks(base: nat, s: Site, t: Site)
    requires Leaves(base, s, t)
    ensures s.ps <= t.ps && SameBlocks(s.words, t.words, s.ps)
  {
  }

  /** Stores in pages that are there already. */
  lemma StoresLeave(base: nat, s: Site, ws': Words)
    requires SameBlocks(s.words, ws', s.ps) && OthersKept(base, s, ws')
    ensures Leaves(base, s, s.(words := ws')) && Starts(ws', s.ps) == Starts(s.words, s.ps)
  {
    hide Live;
  }

  /** A page more. */
  lemma GrowthLeaves(base: nat, s: Site, t: Site, page: nat, q: Payload)
    requires Live(t.blocks, base) == Live(s.blocks, base) + {q} && t.ps == s.ps + {page}
    requires KeepsWords(s.words, t.words, s.blocks, base) && SameBlocks(s.words, t.words, s.ps)
    requires Raw(t.words, page) == q.start
    requires forall r :: r in Live(s.blocks, base) ==> r.start != q.start
    ensures Leaves(base, s, t)
  {
    hide Live;
    assert Starts(t.words, t.ps) == Starts(s.words, s.ps) + {q.start};
  }

  /** Every word inside a slab's page lies in its block's payload, above the hidden words: storing it leaves
      the heap linked and all pages backed, hidden words included. */
  lemma PageStoreIsSafe(mem: Memory, bs: seq<Block>, base: nat, ws: Words, ps: set<nat>, page: nat, a: nat, value: nat)
    requires Ok(bs, base) && Represents(mem, bs, base) && AllBacked(bs, base, ws, ps)
    requires page in ps && page <= a && a + 4 <= page + PAGE_SIZE
    ensures Represents(Stored(mem, a, value), bs, base) && AllBacked(bs, base, Put(ws, a, value), ps)
    ensures SameBlocks(ws, Put(ws, a, value), ps) && OthersKept(base, Site(bs, ws, ps), Put(ws, a, value))
  {
    hide Addr, Ok, Represents, Stored;
    var q :| BackedBy(bs, base, ws, page, q);
    var k :| 0 <= k < |bs| && bs[k].used && q == PayloadAt(bs, base, k);
    hide Live;
    StoredInPayload(mem, bs, base, k, a, value);
    forall p | p in ps ensures Backed(bs, base, Put(ws, a, value), p) && Raw(Put(ws, a, value), p) == Raw(ws, p) {
      var r :| BackedBy(bs, base, ws, p, r);
      if p != page { LiveDisjoint(bs, base, q, r); }
      assert BackedBy(bs, base, Put(ws, a, value), p, r);
    }
    assert q.start in Starts(ws, ps);
    forall r, w | r in Live(bs, base) && r.start !in Starts(ws, ps) && Inside(r, w) && w in ws
      ensures w in Put(ws, a, value) && Put(ws, a, value)[w] == ws[w]
    {
      LiveDisjoint(bs, base, q, r);
    }
  }

  /** The words the slab layer keeps in a page: the fields of the slab structure, and the first word of
      every object. */
  lemma SlabWordInPage(c: S.Cache, page: nat, a: nat)
    requires S.Fits(c) && page % PAGE_SIZE == 0
    requires (page <= a && a + 4 <= page + S.HEADER) || S.IsObject(c, page, a)
    ensures page <= a && a + 4 <= page + PAGE_SIZE
  {
    if S.IsObject(c, page, a) { S.MaskRecoversSlab(c, page, a); }
  }

  lemma NewPage(bs: seq<Block>, base: nat, ws: Words, k: nat, n: nat, p: nat)
    requires Ok(bs, base) && BestFit(bs, n, k) && k < |Allocate(bs, base, k, n)|
    requires Addr(bs, base, k) + HEADER + 8 <= p && p % PAGE_SIZE == 0
    requires p + PAGE_SIZE <= Addr(bs, base, k) + HEADER + Allocate(bs, base, k, n)[k].size
    requires p - 4 in ws && ws[p - 4] == Addr(bs, base, k) && p - 8 in ws && ws[p - 8] == PAGE_SIZE
    ensures BackedBy(Allocate(bs, base, k, n), base, ws, p, PayloadAt(Allocate(bs, base, k, n), base, k))
  {
    hide Addr, Allocate, Live, Ok, BestBelow;
    ChosenHolds(bs, n, k);
    AllocateLive(bs, base, k, n);
  }

  // ----- slabs in memory -----

  predicate InPage(p: nat, w: nat) { p <= w && w + 4 <= p + PAGE_SIZE }

  lemma PagesApart(p: nat, q: nat, w: nat, a: nat)
    requires p % PAGE_SIZE == 0 && q % PAGE_SIZE == 0 && p != q && InPage(p, w) && InPage(q, a)
    ensures w + 4 <= a || a + 4 <= w
  {
  }

  /** The words of a slab in memory are what the cache says: how many objects are in use, the head of the
      freelist, and the link of every free object. */
  ghost predicate SlabIn(ws: Words, links: map<nat, nat>, p: nat, h: S.Header, chain: seq<nat>) {
    && p + S.INUSE in ws && ws[p + S.INUSE] == h.inuse
    && p + S.FREELIST in ws && ws[p + S.FREELIST] == h.freelist
    && forall o :: o in chain ==> o in ws && o in links && ws[o] == links[o]
  }

  ghost predicate InMemory(c: S.Cache, ws: Words) {
    forall p :: p in c.headers && p in c.chains ==> SlabIn(ws, c.links, p, c.headers[p], c.chains[p])
  }

  /** Words inside the pages are kept. */
  ghost predicate PagesKept(ws: Words, ws': Words, ps: set<nat>) {
    forall p, w :: p in ps && InPage(p, w) && w in ws ==> w in ws' && ws'[w] == ws[w]
  }

  /** The objects on a chain lie in the page, behind the slab structure. */
  lemma ChainInPage(c: S.Cache, p: nat, o: nat)
    requires S.Fits(c) && p in c.headers && p in c.chains && S.SlabOk(c, p) && o in c.chains[p]
    ensures p % PAGE_SIZE == 0 && InPage(p, o) && p + S.HEADER <= o
  {
    S.MaskRecoversSlab(c, p, o);
    BehindHeader(c, p, o);
  }

  lemma BehindHeader(c: S.Cache, p: nat, o: nat)
    requires S.IsObject(c, p, o)
    ensures p + S.HEADER <= o
  {
    var i: nat :| i < c.num && o == S.ObjectAt(c, p, i);
    assert i * c.size >= 0;
  }

  lemma InMemoryOn(c: S.Cache, ws: Words, ws': Words)
    requires S.CacheOk(c) && InMemory(c, ws) && PagesKept(ws, ws', c.headers.Keys)
    ensures InMemory(c, ws')
  {
    hide S.SlabOk, S.ListsOk;
    forall p | p in c.headers && p in c.chains ensures SlabIn(ws', c.links, p, c.headers[p], c.chains[p]) {
      assert InPage(p, p + S.INUSE) && InPage(p, p + S.FREELIST);
      forall o | o in c.chains[p] ensures o in ws' && ws'[o] == ws[o] { ChainInPage(c, p, o); }
    }
  }

  /** Storing in one page leaves the slabs in other pages alone. */
  lemma OtherSlabIn(c: S.Cache, ws: Words, a: nat, value: nat, page: nat, q: nat)
    requires S.Fits(c) && q in c.headers && q in c.chains && S.SlabOk(c, q)
    requires SlabIn(ws, c.links, q, c.headers[q], c.chains[q])
    requires page % PAGE_SIZE == 0 && q != page && InPage(page, a)
    ensures SlabIn(Put(ws, a, value), c.links, q, c.headers[q], c.chains[q])
  {
    S.SlabAligned(c, q);
    PagesApart(q, page, q + S.INUSE, a);
    PagesApart(q, page, q + S.FREELIST, a);
    forall o | o in c.chains[q] ensures o + 4 <= a || a + 4 <= o {
      ChainInPage(c, q, o);
      PagesApart(q, page, o, a);
    }
  }

  /** Popping an object, in memory. */
  lemma TakenInMemory(c: S.Cache, p: nat, ws: Words)
    requires S.CacheOk(c) && InMemory(c, ws) && p in c.headers && p in c.chains && c.headers[p].inuse < c.num
    requires c.chains[p] != [] && c.headers[p].freelist in c.links
    ensures var h := c.headers[p];
      InMemory(S.Taken(c, p), Put(Put(ws, p + S.FREELIST, c.links[h.freelist]), p + S.INUSE, h.inuse + 1))
  {
    hide S.SlabOk, S.ListsOk, S.Relisted, Put;
    var h, d := c.headers[p], S.Taken(c, p);
    var w1 := Put(ws, p + S.FREELIST, c.links[h.freelist]);
    var w2 := Put(w1, p + S.INUSE, h.inuse + 1);
    S.SlabAligned(c, p);
    forall q | q in d.headers && q in d.chains ensures SlabIn(w2, d.links, q, d.headers[q], d.chains[q]) {
      if q == p {
        PoppedIn(c, ws, p, w1, w2);
      } else {
        OtherSlabIn(c, ws, p + S.FREELIST, c.links[h.freelist], p, q);
        OtherSlabIn(c, w1, p + S.INUSE, h.inuse + 1, p, q);
      }
    }
  }

  lemma PoppedIn(c: S.Cache, ws: Words, p: nat, w1: Words, w2: Words)
    requires S.Fits(c) && p in c.headers && p in c.chains && S.SlabOk(c, p) && c.chains[p] != []
    requires c.headers[p].freelist in c.links && SlabIn(ws, c.links, p, c.headers[p], c.chains[p])
    requires w1 == Put(ws, p + S.FREELIST, c.links[c.headers[p].freelist])
    requires w2 == Put(w1, p + S.INUSE, c.headers[p].inuse + 1)
    ensures SlabIn(w2, c.links, p, S.Header(c.headers[p].inuse + 1, c.links[c.headers[p].freelist]), c.chains[p][1..])
  {
    hide S.SlabOk;
    forall o | o in c.chains[p][1..] ensures p + S.HEADER <= o && o in c.chains[p] { ChainInPage(c, p, o); }
  }

  /** Two objects of a page are at least a word apart. */
  lemma ObjectsApart(c: S.Cache, p: nat, o: nat, o': nat)
    requires S.Fits(c) && S.IsObject(c, p, o) && S.IsObject(c, p, o') && o != o'
    ensures o + 4 <= o' || o' + 4 <= o
  {
    var i: nat :| i < c.num && o == S.ObjectAt(c, p, i);
    var j: nat :| j < c.num && o' == S.ObjectAt(c, p, j);
    assert (i + 1) * c.size == i * c.size + c.size && (j + 1) * c.size == j * c.size + c.size;
    if i < j { MulMonotone(i + 1, j, c.size); } else if j < i { MulMonotone(j + 1, i, c.size); }
  }

  lemma PushedIn(c: S.Cache, ws: Words, p: nat, o: nat, w1: Words, w2: Words, w3: Words)
    requires S.Fits(c) && p in c.headers && p in c.chains && S.SlabOk(c, p) && S.IsObject(c, p, o) && o in c.live
    requires c.headers[p].inuse > 0 && SlabIn(ws, c.links, p, c.headers[p], c.chains[p])
    requires w1 == Put(ws, o, c.headers[p].freelist) && w2 == Put(w1, p + S.FREELIST, o)
    requires w3 == Put(w2, p + S.INUSE, c.headers[p].inuse - 1)
    ensures SlabIn(w3, c.links[o := c.headers[p].freelist], p, S.Header(c.headers[p].inuse - 1, o), [o] + c.chains[p])
  {
    BehindHeader(c, p, o);
    forall x | x in c.chains[p] ensures p + S.HEADER <= x && x != o && (x + 4 <= o || o + 4 <= x) {
      ChainInPage(c, p, x);
      ObjectsApart(c, p, o, x);
    }
  }

  lemma OtherLinks(c: S.Cache, ws: Words, p: nat, q: nat, o: nat, v: nat)
    requires S.Fits(c) && q in c.headers && q in c.chains && S.SlabOk(c, q)
    requires p % PAGE_SIZE == 0 && p != q && InPage(p, o)
    requires SlabIn(ws, c.links, q, c.headers[q], c.chains[q])
    ensures SlabIn(ws, c.links[o := v], q, c.headers[q], c.chains[q])
  {
    hide S.SlabOk;
    forall x | x in c.chains[q] ensures x != o {
      ChainInPage(c, q, x);
      PagesApart(q, p, x, o);
    }
  }

  lemma PushedElsewhere(c: S.Cache, ws: Words, p: nat, q: nat, o: nat, v: nat, inuse: nat)
    requires S.Fits(c) && q in c.headers && q in c.chains && S.SlabOk(c, q)
    requires p % PAGE_SIZE == 0 && p != q && InPage(p, o)
    requires SlabIn(ws, c.links, q, c.headers[q], c.chains[q])
    ensures SlabIn(Put(Put(Put(ws, o, v), p + S.FREELIST, o), p + S.INUSE, inuse), c.links[o := v], q, c.headers[q],
                   c.chains[q])
  {
    hide S.SlabOk, Put, SlabIn;
    var w1 := Put(ws, o, v);
    var w2 := Put(w1, p + S.FREELIST, o);
    OtherSlabIn(c, ws, o, v, p, q);
    OtherSlabIn(c, w1, p + S.FREELIST, o, p, q);
    OtherSlabIn(c, w2, p + S.INUSE, inuse, p, q);
    OtherLinks(c, Put(w2, p + S.INUSE, inuse), p, q, o, v);
  }

  /** Pushing an object back, in memory. */
  lemma ReturnedInMemory(c: S.Cache, o: nat, ws: Words)
    requires S.CacheOk(c) && InMemory(c, ws) && o in c.live
    requires var p := S.PageOf(o); p in c.headers && p in c.chains && c.headers[p].inuse > 0 && c.active > 0
    ensures var p := S.PageOf(o);
      InMemory(S.Returned(c, o),
               Put(Put(Put(ws, o, c.headers[p].freelist), p + S.FREELIST, o), p + S.INUSE, c.headers[p].inuse - 1))
  {
    hide S.SlabOk, S.ListsOk, S.Relisted, Put, S.PageOf, SlabIn, S.IsObject;
    S.LiveObject(c, o);
    var p := S.PageOf(o);
    var h, d := c.headers[p], S.Returned(c, o);
    var w1 := Put(ws, o, h.freelist);
    var w2 := Put(w1, p + S.FREELIST, o);
    var w3 := Put(w2, p + S.INUSE, h.inuse - 1);
    SlabWordInPage(c, p, o);
    forall q | q in d.headers && q in d.chains ensures SlabIn(w3, d.links, q, d.headers[q], d.chains[q]) {
      if q == p {
        PushedIn(c, ws, p, o, w1, w2, w3);
      } else {
        PushedElsewhere(c, ws, p, q, o, h.freelist, h.inuse - 1);
      }
    }
  }

  /** The links of the first `n` objects of a new page are in memory. */
  ghost predicate LinkedIn(c: S.Cache, page: nat, links: map<nat, nat>, ws: Words, n: nat) {
    forall i: nat :: i < n ==> LinkIn(c, page, links, ws, i)
  }

  predicate LinkIn(c: S.Cache, page: nat, links: map<nat, nat>, ws: Words, i: nat) {
    var o := S.ObjectAt(c, page, i);
    o in ws && o in links && ws[o] == links[o]
  }

  lemma LinkedInStep(c: S.Cache, page: nat, links: map<nat, nat>, ws: Words, n: nat, value: nat)
    requires S.Fits(c) && n < c.num && LinkedIn(c, page, links, ws, n)
    ensures var o := S.ObjectAt(c, page, n);
      LinkedIn(c, page, links[o := value], Put(ws, o, value), n + 1)
  {
    hide S.ObjectAt;
    var o := S.ObjectAt(c, page, n);
    var links', ws' := links[o := value], Put(ws, o, value);
    forall i: nat | i < n + 1 ensures LinkIn(c, page, links', ws', i) {
      if i < n {
        assert LinkIn(c, page, links, ws, i);
        var x := S.ObjectAt(c, page, i);
        if x == o { S.ObjectsDistinct(c, page, i, n); }
        assert S.IsObject(c, page, x) && S.IsObject(c, page, o);
        ObjectsApart(c, page, x, o);
      }
    }
  }

  /** A new slab, in memory. */
  lemma GrownInMemory(c: S.Cache, page: nat, links': map<nat, nat>, ws: Words, ws': Words)
    requires S.CacheOk(c) && InMemory(c, ws) && PagesKept(ws, ws', c.headers.Keys)
    requires page % PAGE_SIZE == 0 && page !in c.headers && S.Threaded(c, page, c.links, links')
    requires LinkedIn(c, page, links', ws', c.num)
    requires SlabIn(ws', links', page, S.Header(0, page + S.HEADER), [])
    ensures InMemory(S.Grown(c, page, links'), ws')
  {
    InMemoryOn(c, ws, ws');
    hide S.SlabOk, S.ListsOk;
    var d := S.Grown(c, page, links');
    forall q | q in d.headers && q in d.chains ensures SlabIn(ws', d.links, q, d.headers[q], d.chains[q]) {
      if q == page {
        forall o | o in d.chains[q] ensures o in ws' && o in links' && ws'[o] == links'[o] {
          var i: nat :| i < c.num && o == d.chains[q][i];
          assert LinkIn(c, page, links', ws', i);
        }
      } else {
        OldLinks(c, page, links', ws', q);
      }
    }
  }

  lemma OldLinks(c: S.Cache, page: nat, links': map<nat, nat>, ws: Words, q: nat)
    requires S.Fits(c) && q in c.headers && q in c.chains && S.SlabOk(c, q) && page % PAGE_SIZE == 0 && q != page
    requires S.Threaded(c, page, c.links, links') && SlabIn(ws, c.links, q, c.headers[q], c.chains[q])
    ensures SlabIn(ws, links', q, c.headers[q], c.chains[q])
  {
    hide S.SlabOk;
    forall o | o in c.chains[q] ensures o in links' && links'[o] == c.links[o] {
      ChainInPage(c, q, o);
      if S.IsObject(c, page, o) {
        SlabWordInPage(c, page, o);
        PagesApart(q, page, o, o);
      }
    }
  }

  /** Words inside live payloads are kept, so words inside backed pages are. */
  lemma PageWordsKept(bs: seq<Block>, base: nat, ws: Words, ws': Words, ps: set<nat>)
    requires AllBacked(bs, base, ws, ps) && KeepsWords(ws, ws', bs, base)
    ensures PagesKept(ws, ws', ps)
  {
    hide Live;
    forall p, w | p in ps && InPage(p, w) && w in ws ensures w in ws' && ws'[w] == ws[w] {
      var q :| BackedBy(bs, base, ws, p, q);
      assert Inside(q, w);
    }
  }

  /** Fields of the slab structure at `page` stored one after another. */
  function PutFields(ws: Words, page: nat, fields: seq<(nat, nat)>): Words
    decreases |fields|
  {
    if fields == [] then ws
    else Put(PutFields(ws, page, fields[..|fields| - 1]), page + fields[|fields| - 1].0, fields[|fields| - 1].1)
  }

  lemma TwoFields(ws: Words, page: nat, f: (nat, nat), g: (nat, nat))
    ensures PutFields(ws, page, [f, g]) == Put(Put(ws, page + f.0, f.1), page + g.0, g.1)
  {
    hide Put;
    assert [f, g][..1] == [f] && [f][..0] == [];
    assert PutFields(ws, page, [f]) == Put(PutFields(ws, page, []), page + f.0, f.1);
  }

  /** A field is what was stored in it when nothing was stored over it later. */
  lemma {:induction false} FieldRead(ws: Words, page: nat, fields: seq<(nat, nat)>, i: nat)
    requires i < |fields|
    requires forall j :: i < j < |fields| ==> fields[j].0 + 4 <= fields[i].0 || fields[i].0 + 4 <= fields[j].0
    ensures var w := PutFields(ws, page, fields); page + fields[i].0 in w && w[page + fields[i].0] == fields[i].1
    decreases |fields|
  {
    if i == |fields| - 1 {
    } else {
      FieldRead(ws, page, fields[..|fields| - 1], i);
    }
  }

  /** Stores in one page keep the words of others. */
  lemma {:induction false} FieldsKeepPages(ws: Words, page: nat, fields: seq<(nat, nat)>, ps: set<nat>)
    requires page % PAGE_SIZE == 0 && page !in ps && forall p :: p in ps ==> p % PAGE_SIZE == 0
    requires forall f :: f in fields ==> f.0 + 4 <= S.HEADER
    ensures PagesKept(ws, PutFields(ws, page, fields), ps)
    decreases |fields|
  {
    if fields == [] {
    } else {
      var n := |fields| - 1;
      var w := PutFields(ws, page, fields[..n]);
      FieldsKeepPages(ws, page, fields[..n], ps);
      assert fields[n] in fields;
      forall p: nat, x: nat | p in ps && InPage(p, x) && x in w
        ensures x + 4 <= page + fields[n].0 || page + fields[n].0 + 4 <= x
      {
        PagesApart(p, page, x, page + fields[n].0);
      }
    }
  }

  /** Words outside `lo..hi` are kept. */
  ghost predicate OutsideKept(ws: Words, ws': Words, lo: nat, hi: nat) {
    forall w :: w in ws && (w + 4 <= lo || hi <= w) ==> w in ws' && ws'[w] == ws[w]
  }

  lemma PutInside(c: S.Cache, page: nat, o: nat, ws: Words, ws': Words, value: nat)
    requires S.Fits(c) && page % PAGE_SIZE == 0 && S.IsObject(c, page, o)
    requires OutsideKept(ws, ws', page + S.HEADER, page + PAGE_SIZE)
    ensures OutsideKept(ws, Put(ws', o, value), page + S.HEADER, page + PAGE_SIZE)
  {
    SlabWordInPage(c, page, o);
    BehindHeader(c, page, o);
  }

  lemma OutsideKeepsPages(ws: Words, ws': Words, page: nat, ps: set<nat>)
    requires page % PAGE_SIZE == 0 && page !in ps && forall p :: p in ps ==> p % PAGE_SIZE == 0
    requires OutsideKept(ws, ws', page + S.HEADER, page + PAGE_SIZE)
    ensures PagesKept(ws, ws', ps)
  {
    forall p: nat, w: nat | p in ps && InPage(p, w) && w in ws
      ensures w + 4 <= page + S.HEADER || page + PAGE_SIZE <= w
    {
      if page <= w && w + 4 <= page + PAGE_SIZE { PagesApart(p, page, w, w); }
      PageGap(p, page);
    }
  }

  lemma PageGap(p: nat, q: nat)
    requires p % PAGE_SIZE == 0 && q % PAGE_SIZE == 0 && p != q
    ensures p + PAGE_SIZE <= q || q + PAGE_SIZE <= p
  {
  }

  /** The fields of a new slab structure. */
  function NewFields(address: nat, num: nat, page: nat): seq<(nat, nat)> {
    [(S.CACHE, address), (S.INUSE, 0), (S.OBJECTS, num), (S.MAGIC, S.RED_MAGIC), (S.S_MEM, page + S.HEADER),
     (S.END, page + PAGE_SIZE), (S.FREELIST, page + S.HEADER)]
  }

  /** A new slab structure and freelist, in memory. */
  lemma NewSlabIn(ws: Words, ws': Words, address: nat, num: nat, page: nat, links: map<nat, nat>)
    requires OutsideKept(PutFields(ws, page, NewFields(address, num, page)), ws', page + S.HEADER, page + PAGE_SIZE)
    ensures SlabIn(ws', links, page, S.Header(0, page + S.HEADER), [])
  {
    FieldRead(ws, page, NewFields(address, num, page), 1);
    FieldRead(ws, page, NewFields(address, num, page), 6);
    hide PutFields;
  }

  lemma PagesKeptInTurn(w0: Words, w1: Words, w2: Words, ps: set<nat>)
    requires PagesKept(w0, w1, ps) && PagesKept(w1, w2, ps)
    ensures PagesKept(w0, w2, ps)
  {
  }

  lemma PagesAligned(bs: seq<Block>, base: nat, ws: Words, ps: set<nat>)
    requires AllBacked(bs, base, ws, ps)
    ensures forall p :: p in ps ==> p % PAGE_SIZE == 0
  {
  }

  // ----- the pages left in the heap -----

  /** What kmalloc is asked for a page: the page, the padding and the hidden words. */
  function PageRequest(): (n: nat)
    ensures n >= 16 && n % 4 == 0
  {
    RoundedCovers(TotalSize(PAGE_SIZE, PAGE_SIZE));
    Rounded(TotalSize(PAGE_SIZE, PAGE_SIZE))
  }

  ghost predicate NoPage(bs: seq<Block>) { NoFit(bs, PageRequest()) }

  /** The block list once one more page is taken. */
  ghost function PageTaken(bs: seq<Block>, base: nat): seq<Block>
    requires !NoPage(bs)
  {
    BestFitExists(bs, PageRequest());
    var k: nat :| BestFit(bs, PageRequest(), k);
    Allocate(bs, base, k, PageRequest())
  }

  /** How many more pages the heap can give. */
  ghost function PagesLeft(bs: seq<Block>, base: nat): nat
    decreases FreeBytes(bs)
  {
    if NoPage(bs) then 0 else PageShrinks(bs, base); 1 + PagesLeft(PageTaken(bs, base), base)
  }

  lemma LeftWhen(bs: seq<Block>, base: nat)
    ensures PagesLeft(bs, base) > 0 <==> !NoPage(bs)
  {
    hide NoPage;
  }

  lemma PageShrinks(bs: seq<Block>, base: nat)
    requires !NoPage(bs)
    ensures FreeBytes(PageTaken(bs, base)) < FreeBytes(bs)
  {
    hide Allocate, FreeBytes;
    BestFitExists(bs, PageRequest());
    var k: nat :| BestFit(bs, PageRequest(), k);
    BestFitDecides(bs, PageRequest(), k);
    AllocateUses(bs, base, k, PageRequest());
  }

  lemma PageTakenIs(bs: seq<Block>, base: nat, k: nat)
    requires BestFit(bs, PageRequest(), k)
    ensures !NoPage(bs) && PageTaken(bs, base) == Allocate(bs, base, k, PageRequest())
  {
    hide Allocate;
    BestFitDecides(bs, PageRequest(), k);
  }

  /** The request, which is never refused for its shape. */
  lemma PageRequestIs()
    ensures TotalSize(PAGE_SIZE, PAGE_SIZE) == 8199 && PageRequest() == Rounded(8199)
    ensures PowerOfTwo(PAGE_SIZE)
  {
    PagePower();
  }

  // ----- the pages taken -----

  /** The raw pointer of the next page's block. */
  ghost function RawTaken(bs: seq<Block>, base: nat): nat
    requires !NoPage(bs)
  {
    BestFitExists(bs, PageRequest());
    var k: nat :| BestFit(bs, PageRequest(), k);
    Addr(bs, base, k) + HEADER
  }

  lemma RawTakenIs(bs: seq<Block>, base: nat, k: nat)
    requires BestFit(bs, PageRequest(), k)
    ensures !NoPage(bs) && RawTaken(bs, base) == Addr(bs, base, k) + HEADER
  {
    hide Addr;
    BestFitDecides(bs, PageRequest(), k);
  }

  /** The block list and the cache's pages by the raw pointers of their blocks. */
  datatype Claims = Claims(blocks: seq<Block>, pages: map<nat, nat>)

  /** The same with one page more, and with `m` more. */
  ghost function PageClaimed(base: nat, c: Claims): Claims
    requires !NoPage(c.blocks)
  {
    var raw := RawTaken(c.blocks, base);
    Claims(PageTaken(c.blocks, base), c.pages[raw := AlignUp(raw, PAGE_SIZE)])
  }

  ghost function Claimed(base: nat, c: Claims, m: nat): Claims
    requires m <= PagesLeft(c.blocks, base)
    decreases m
  {
    if m == 0 then c else Claimed(base, PageClaimed(base, c), m - 1)
  }

  lemma {:induction false} ClaimedNext(base: nat, c: Claims, m: nat)
    requires m <= PagesLeft(c.blocks, base)
    ensures PagesLeft(Claimed(base, c, m).blocks, base) == PagesLeft(c.blocks, base) - m
    ensures m < PagesLeft(c.blocks, base) ==>
              && !NoPage(Claimed(base, c, m).blocks)
              && Claimed(base, c, m + 1) == PageClaimed(base, Claimed(base, c, m))
    decreases m
  {
    hide NoPage, PageTaken, RawTaken, AlignUp;
    if m == 0 {
      assert m < PagesLeft(c.blocks, base) ==> Claimed(base, c, 1) == Claimed(base, PageClaimed(base, c), 0);
    } else {
      ClaimedNext(base, PageClaimed(base, c), m - 1);
    }
  }

  /** How many pages a request for `n` objects takes with `spare` of them free, `num` in a page and `left`
      pages to be had. */
  function PagesUsed(spare: int, num: nat, left: nat, n: nat): (m: nat)
    ensures m <= left
    decreases left
  {
    if n <= spare || left == 0 then 0 else 1 + PagesUsed(spare + num, num, left - 1, n)
  }

  /** The least that serves the request, or all there are when it is refused. */
  lemma {:induction false} UsedIsLeast(spare: int, num: nat, left: nat, n: nat)
    requires spare >= 0 && num > 0
    ensures var m := PagesUsed(spare, num, left, n);
      if spare + num * left < n then m == left
      else spare + num * m >= n && (m > 0 ==> spare + num * (m - 1) < n)
    decreases left
  {
    if n <= spare || left == 0 {
      assert num * left >= 0 && num * 0 == 0;
    } else {
      UsedIsLeast(spare + num, num, left - 1, n);
      var m := PagesUsed(spare + num, num, left - 1, n);
      OneMore(num, left - 1);
      OneMore(num, m);
      if m > 0 { OneMore(num, m - 1); }
    }
  }

  /** A bulk allocation of `n` after `i` objects and `m` pages, with `free` objects spare and `c` claimed. */
  ghost predicate BulkAt(base: nat, c0: Claims, c: Claims, spare: int, num: nat, n: nat, i: nat, m: nat, free: int) {
    var left := PagesLeft(c0.blocks, base);
    && m <= left && c == Claimed(base, c0, m) && free + i == spare + num * m
    && PagesUsed(spare, num, left, n) == m + PagesUsed(free + i, num, left - m, n)
  }

  lemma BulkStarts(base: nat, c0: Claims, num: nat)
    ensures forall spare: int, n: nat :: BulkAt(base, c0, c0, spare, num, n, 0, 0, spare)
  {
    hide NoPage;
    assert num * 0 == 0;
  }

  /** One object more: a page is taken exactly when nothing was spare. */
  lemma BulkStep(base: nat, c0: Claims, c: Claims, spare: int, num: nat, n: nat, i: nat, m: nat, free: int)
    requires BulkAt(base, c0, c, spare, num, n, i, m, free) && i < n && free >= 0 && (free == 0 ==> !NoPage(c.blocks))
    ensures if free == 0 then BulkAt(base, c0, PageClaimed(base, c), spare, num, n, i + 1, m + 1, num - 1)
            else BulkAt(base, c0, c, spare, num, n, i + 1, m, free - 1)
  {
    hide PageClaimed, Claimed, PagesLeft, NoPage;
    ClaimedNext(base, c0, m);
    LeftWhen(c.blocks, base);
    OneMore(num, m);
  }

  /** Refused: all pages are taken. */
  lemma BulkRefused(base: nat, c0: Claims, c: Claims, spare: int, num: nat, n: nat, i: nat, m: nat, free: int)
    requires BulkAt(base, c0, c, spare, num, n, i, m, free) && NoPage(c.blocks)
    ensures m == PagesUsed(spare, num, PagesLeft(c0.blocks, base), n)
  {
    hide PageClaimed, Claimed;
    ClaimedNext(base, c0, m);
  }

  /** Served: no page more is needed. */
  lemma BulkServed(base: nat, c0: Claims, c: Claims, spare: int, num: nat, n: nat, m: nat, free: int)
    requires BulkAt(base, c0, c, spare, num, n, n, m, free) && free >= 0
    ensures m == PagesUsed(spare, num, PagesLeft(c0.blocks, base), n)
  {
    hide PageClaimed, Claimed;
  }

  lemma BackedDistinct(s: Site, base: nat)
    requires AllBacked(s.blocks, base, s.words, s.ps)
    ensures OneBlockEach(s.words, s.ps)
  {
  }

  lemma PageAt(ws: Words, ps: set<nat>, p: nat)
    requires OneBlockEach(ws, ps) && p in ps
    ensures Raw(ws, p) in PageMap(ws, ps) && PageMap(ws, ps)[Raw(ws, p)] == p
  {
    hide Raw;
  }

  lemma PageMapKeys(ws: Words, ps: set<nat>)
    requires OneBlockEach(ws, ps)
    ensures PageMap(ws, ps).Keys == Starts(ws, ps)
  {
    hide Raw;
  }

  lemma StartsGrow(ws: Words, ws': Words, ps: set<nat>, page: nat)
    requires SameBlocks(ws, ws', ps)
    ensures Starts(ws', ps + {page}) == Starts(ws, ps) + {Raw(ws', page)}
  {
    hide Raw;
  }

  lemma PageMapGrows(ws: Words, ws': Words, ps: set<nat>, page: nat)
    requires OneBlockEach(ws, ps) && OneBlockEach(ws', ps + {page}) && SameBlocks(ws, ws', ps)
    ensures PageMap(ws', ps + {page}) == PageMap(ws, ps)[Raw(ws', page) := page]
  {
    hide Raw, PageMap, OneBlockEach;
    var a, b := PageMap(ws', ps + {page}), PageMap(ws, ps)[Raw(ws', page) := page];
    PageMapKeys(ws, ps);
    PageMapKeys(ws', ps + {page});
    StartsGrow(ws, ws', ps, page);
    assert a.Keys == b.Keys;
    forall r | r in a ensures a[r] == b[r] {
      var p :| p in ps + {page} && r == Raw(ws', p);
      PageAt(ws', ps + {page}, p);
      PageAt(ws', ps + {page}, page);
      if p != page { PageAt(ws, ps, p); }
    }
  }

  lemma PageMapSame(ws: Words, ws': Words, ps: set<nat>)
    requires OneBlockEach(ws, ps) && SameBlocks(ws, ws', ps)
    ensures OneBlockEach(ws', ps) && PageMap(ws', ps) == PageMap(ws, ps)
  {
    hide Raw;
  }

  lemma CacheFits(c: S.Cache)
    requires S.CacheOk(c)
    ensures S.Fits(c)
  {
  }

  /** The slab an allocation looks at has a free object. */
  lemma ListsHold(c: S.Cache)
    requires S.CacheOk(c)
    ensures forall p :: p in c.partial ==> p in c.headers && c.headers[p].inuse < c.num
    ensures forall p :: p in c.free ==> p in c.headers && c.headers[p].inuse < c.num
    ensures c.num > 0
  {
  }

  /** A live object's first word lies in its slab's page. */
  lemma ObjectFits(c: S.Cache, o: nat)
    requires S.CacheOk(c) && o in c.live
    ensures o + 4 <= S.PageOf(o) + PAGE_SIZE
  {
    S.LiveObject(c, o);
    SlabWordInPage(c, S.PageOf(o), o);
  }

  lemma NullNotLive(c: S.Cache)
    requires S.CacheOk(c)
    ensures 0 !in c.live
  {
    if 0 in c.live { S.LiveObject(c, 0); }
  }

  /** Nothing is to be had exactly when nothing is spare and the heap gives no page; a page taken turns
      into num spare objects. */
  lemma SupplyIs(spare: int, num: nat, bs: seq<Block>, base: nat)
    requires spare >= 0 && num > 0
    ensures var supply := spare + num * PagesLeft(bs, base);
      && supply >= spare && (supply == 0 <==> spare == 0 && NoPage(bs))
      && (NoPage(bs) ==> supply == spare)
      && (!NoPage(bs) ==> supply == spare + num + num * PagesLeft(PageTaken(bs, base), base))
  {
    hide PageTaken, NoPage;
    if NoPage(bs) {
      assert num * 0 == 0;
    } else {
      OneMore(num, PagesLeft(PageTaken(bs, base), base));
    }
  }

  /** A page of a block of its own for the holder of the pages `ps`, or NULL exactly when the heap has no block
      for it. */
  method TakePage(pages: AlignedAllocator, ghost ps: set<nat>) returns (page: nat)
    requires pages.heap.Valid() && AllBacked(pages.heap.blocks, pages.heap.base, pages.words, ps)
    modifies pages, pages.heap
    ensures pages.heap.Valid() && pages.heap.base == old(pages.heap.base)
    ensures page == 0 <==> NoPage(old(pages.heap.blocks))
    ensures page == 0 ==> pages.heap.blocks == old(pages.heap.blocks) && pages.words == old(pages.words)
    ensures page != 0 ==>
              && page % PAGE_SIZE == 0 && page !in ps
              && AllBacked(pages.heap.blocks, pages.heap.base, pages.words, ps + {page})
              && pages.heap.blocks == PageTaken(old(pages.heap.blocks), pages.heap.base)
              && Raw(pages.words, page) == RawTaken(old(pages.heap.blocks), pages.heap.base)
              && page == AlignUp(RawTaken(old(pages.heap.blocks), pages.heap.base), PAGE_SIZE)
              && Leaves(pages.heap.base, Site(old(pages.heap.blocks), old(pages.words), ps),
                        Site(pages.heap.blocks, pages.words, ps + {page}))
              && PagesKept(old(pages.words), pages.words, ps)
  {
    hide Heap.Linked, PowerOfTwo, AlignUp, Addr, Allocate, Live, Ok, BestBelow, NoneBelow, AllBacked, Stored,
         Represents, KeepsWords, Rounded, Leaves, SameBlocks, BackedBy, PagesKept;
    PageRequestIs();
    ghost var s, base, n := Site(pages.heap.blocks, pages.words, ps), pages.heap.base, PageRequest();
    var r, k, m := pages.KmallocAligned(PAGE_SIZE, PAGE_SIZE);
    page := r.ptr;
    if page != 0 {
      PageTakenIs(s.blocks, base, k);
      RawTakenIs(s.blocks, base, k);
      NewPage(s.blocks, base, pages.words, k, n, page);
      FreshPage(s.blocks, base, s.words, pages.words, k, n, page, ps);
      ChosenHolds(s.blocks, n, k);
      AllocateLive(s.blocks, base, k, n);
      GrowthLeaves(base, s, Site(pages.heap.blocks, pages.words, ps + {page}), page,
                   PayloadAt(pages.heap.blocks, base, k));
      PageWordsKept(s.blocks, base, s.words, pages.words, ps);
    }
  }

  class KmemCache {
    /** Where the cache structure is. */
    const address: nat
    const objectSize: nat
    const num: nat
    const pages: AlignedAllocator
    var headers: map<nat, S.Header>
    var links: map<nat, nat>
    var full: seq<nat>
    var partial: seq<nat>
    var free: seq<nat>
    var active: nat
    var errors: nat
    ghost var chains: map<nat, seq<nat>>
    ghost var live: set<nat>

    ghost function View(): S.Cache
      reads this
    {
      S.Cache(objectSize, num, headers, links, full, partial, free, active, chains, live)
    }

    /** Every slab's page is backed by a block of its own, hidden words in place. */
    ghost predicate PagesBacked()
      reads this, pages, pages.heap
    {
      AllBacked(pages.heap.blocks, pages.heap.base, pages.words, headers.Keys)
    }

    ghost predicate Valid()
      reads this, pages, pages.heap
    {
      pages.heap.Valid() && S.CacheOk(View()) && PagesBacked() && InMemory(View(), pages.words)
    }

    /** kmem_cache_create for a cache of order 0 without alignment flags: refuses sizes of which no
        object fits in a page. Otherwise a slab holds as many objects as fit in a page after its structure. */
    constructor (pages: AlignedAllocator, size: nat, address: nat)
      requires pages.heap.Valid() && 4 <= size <= PAGE_SIZE - S.HEADER
      ensures Valid() && this.pages == pages && live == {} && objectSize == size
      ensures S.HEADER + num * size <= PAGE_SIZE < S.HEADER + (num + 1) * size
    {
      hide Heap.Valid, S.CacheOk, Backed;
      S.ObjectsPerSlabFit(size);
      this.pages := pages;
      this.address := address;
      objectSize := size;
      num := S.ObjectsPerSlab(size);
      headers, links := map[], map[];
      full, partial, free := [], [], [];
      active, errors := 0, 0;
      chains, live := map[], {};
      new;
      S.EmptyOk(View());
    }

    /** What the heap, the memory and the cache's pages are now. */
    ghost function Here(): Site
      reads this`headers, pages`words, pages.heap`blocks
    {
      Site(pages.heap.blocks, pages.words, headers.Keys)
    }

    /** The same with another set of pages. */
    ghost function With(ps: set<nat>): Site
      reads pages`words, pages.heap`blocks
    {
      Site(pages.heap.blocks, pages.words, ps)
    }

    /** The block list and the cache's pages. */
    ghost function Claim(): (c: Claims)
      requires PagesBacked()
      reads this, pages, pages.heap
      ensures c.blocks == pages.heap.blocks
    {
      BackedDistinct(Here(), pages.heap.base);
      Claims(pages.heap.blocks, PageMap(pages.words, headers.Keys))
    }

    /** The heap is valid and every page of `ps` is backed. */
    ghost predicate Sound(ps: set<nat>)
      reads pages, pages.heap
    {
      pages.heap.Valid() && AllBacked(pages.heap.blocks, pages.heap.base, pages.words, ps)
    }

    lemma AlignedPages(ps: set<nat>)
      requires Sound(ps)
      ensures forall p :: p in ps ==> p % PAGE_SIZE == 0
    {
      PagesAligned(pages.heap.blocks, pages.heap.base, pages.words, ps);
    }

    /** A word stored in page `page` of `ps`. */
    method SlabStore(a: nat, value: nat, ghost page: nat, ghost ps: set<nat>)
      requires Sound(ps) && page in ps && page <= a && a + 4 <= page + PAGE_SIZE
      modifies pages`words, pages.heap`mem
      ensures Sound(ps) && Leaves(pages.heap.base, old(With(ps)), With(ps))
      ensures pages.words == Put(old(pages.words), a, value)
    {
      hide Ok, Represents, Put, Stored, Leaves, OthersKept, SameBlocks;
      PageStoreIsSafe(pages.heap.mem, pages.heap.blocks, pages.heap.base, pages.words, ps, page, a, value);
      StoresLeave(pages.heap.base, With(ps), Put(pages.words, a, value));
      pages.Store(a, value);
    }

    /** Fields of the slab structure at `page`, given as offset and value. */
    method StoreFields(page: nat, fields: seq<(nat, nat)>, ghost ps: set<nat>)
      requires Sound(ps) && page in ps && forall f :: f in fields ==> f.0 + 4 <= S.HEADER
      modifies pages`words, pages.heap`mem
      ensures Sound(ps) && Leaves(pages.heap.base, old(With(ps)), With(ps))
      ensures pages.words == PutFields(old(pages.words), page, fields)
    {
      hide Sound, Leaves, Put;
      LeavesNothing(pages.heap.base, With(ps));
      for i := 0 to |fields|
        invariant Sound(ps) && Leaves(pages.heap.base, old(With(ps)), With(ps))
        invariant pages.words == PutFields(old(pages.words), page, fields[..i])
      {
        assert fields[..i + 1][..i] == fields[..i];
        ghost var before := With(ps);
        SlabStore(page + fields[i].0, fields[i].1, page, ps);
        LeavesInTurn(pages.heap.base, old(With(ps)), before, With(ps));
      }
      assert fields[..|fields|] == fields;
    }

    /** The first word of the object at `o`. */
    method StoreLink(o: nat, value: nat, ghost page: nat, ghost ps: set<nat>, ghost c: S.Cache, ghost start: Site)
      requires S.Fits(c) && page % PAGE_SIZE == 0 && S.IsObject(c, page, o)
      requires Sound(ps) && page in ps && Leaves(pages.heap.base, start, With(ps))
      modifies pages`words, pages.heap`mem
      ensures Sound(ps) && Leaves(pages.heap.base, start, With(ps))
      ensures pages.words == Put(old(pages.words), o, value)
    {
      hide Sound, Leaves, Put;
      SlabWordInPage(c, page, o);
      ghost var before := With(ps);
      SlabStore(o, value, page, ps);
      LeavesInTurn(pages.heap.base, start, before, With(ps));
    }

    /** The freelist loop of alloc_slab. */
    method ThreadFreelist(page: nat, ghost ps: set<nat>)
      requires S.Fits(View()) && page % PAGE_SIZE == 0 && Sound(ps) && page in ps
      modifies this`links, pages`words, pages.heap`mem
      ensures S.Threaded(old(View()), page, old(links), links)
      ensures Sound(ps) && Leaves(pages.heap.base, old(With(ps)), With(ps))
      ensures LinkedIn(old(View()), page, links, pages.words, num)
      ensures OutsideKept(old(pages.words), pages.words, page + S.HEADER, page + PAGE_SIZE)
    {
      hide S.ThreadedTo, S.ObjectAt, Sound, Leaves, LinkIn;
      ghost var c := View();
      S.ThreadStart(c, page);
      LeavesNothing(pages.heap.base, With(ps));
      var i, p := 0, page + S.HEADER;
      while i < num - 1
        invariant 0 <= i <= num - 1 && p == S.ObjectAt(c, page, i)
        invariant S.ThreadedTo(c, page, old(links), links, i)
        invariant Sound(ps) && Leaves(pages.heap.base, old(With(ps)), With(ps))
        invariant LinkedIn(c, page, links, pages.words, i)
        invariant OutsideKept(old(pages.words), pages.words, page + S.HEADER, page + PAGE_SIZE)
      {
        S.ThreadStep(c, page, old(links), links, i);
        LinkedInStep(c, page, links, pages.words, i, p + objectSize);
        PutInside(c, page, p, old(pages.words), pages.words, p + objectSize);
        StoreLink(p, p + objectSize, page, ps, c, old(With(ps)));
        links := links[p := p + objectSize];
        p := links[p];
        i := i + 1;
      }
      S.ThreadStep(c, page, old(links), links, i);
      LinkedInStep(c, page, links, pages.words, i, 0);
      PutInside(c, page, p, old(pages.words), pages.words, 0);
      StoreLink(p, 0, page, ps, c, old(With(ps)));
      links := links[p := 0];
    }

    /** The page of a new slab, or NULL exactly when the heap has no block for it. */
    method NewSlabPage() returns (page: nat)
      requires Sound(headers.Keys)
      modifies pages, pages.heap
      ensures pages.heap.base == old(pages.heap.base)
      ensures page == 0 <==> NoPage(old(pages.heap.blocks))
      ensures page == 0 ==> Sound(headers.Keys) && Here() == old(Here())
      ensures page != 0 ==>
                && page % PAGE_SIZE == 0 && page !in headers && Sound(headers.Keys + {page})
                && pages.heap.blocks == PageTaken(old(pages.heap.blocks), pages.heap.base)
                && Raw(pages.words, page) == RawTaken(old(pages.heap.blocks), pages.heap.base)
                && page == AlignUp(RawTaken(old(pages.heap.blocks), pages.heap.base), PAGE_SIZE)
                && Leaves(pages.heap.base, old(Here()), With(headers.Keys + {page}))
                && PagesKept(old(pages.words), pages.words, headers.Keys)
    {
      hide NoPage, PageTaken, RawTaken, AlignUp, Leaves, PagesKept, Heap.Valid, AllBacked, Raw;
      page := TakePage(pages, headers.Keys);
    }

    /** alloc_slab: the page, its slab structure and its freelist. */
    method AllocSlab() returns (page: nat)
      requires S.Fits(View()) && Sound(headers.Keys)
      modifies this`links, pages, pages.heap
      ensures pages.heap.base == old(pages.heap.base)
      ensures page == 0 <==> NoPage(old(pages.heap.blocks))
      ensures page == 0 ==> Sound(headers.Keys) && Here() == old(Here()) && links == old(links)
      ensures page != 0 ==>
                && page % PAGE_SIZE == 0 && page !in headers && Sound(headers.Keys + {page})
                && pages.heap.blocks == PageTaken(old(pages.heap.blocks), pages.heap.base)
                && Raw(pages.words, page) == RawTaken(old(pages.heap.blocks), pages.heap.base)
                && page == AlignUp(RawTaken(old(pages.heap.blocks), pages.heap.base), PAGE_SIZE)
                && Leaves(pages.heap.base, old(Here()), With(headers.Keys + {page}))
                && PagesKept(old(pages.words), pages.words, headers.Keys)
                && S.Threaded(old(View()), page, old(links), links)
                && LinkedIn(old(View()), page, links, pages.words, num)
                && SlabIn(pages.words, links, page, S.Header(0, page + S.HEADER), [])
    {
      hide Sound, S.Threaded, Leaves, NoPage, PageTaken, RawTaken, AlignUp, Raw, PagesKept, SlabIn, LinkedIn, PutFields,
           OutsideKept;
      AlignedPages(headers.Keys);
      page := NewSlabPage();
      if page == 0 { return; }
      ghost var keys, ps, base := headers.Keys, headers.Keys + {page}, pages.heap.base;
      ghost var s1 := With(ps);
      FieldsKeepPages(pages.words, page, NewFields(address, num, page), keys);
      StoreFields(page, NewFields(address, num, page), ps);
      ghost var s2 := With(ps);
      PagesKeptInTurn(old(pages.words), s1.words, s2.words, keys);
      ThreadFreelist(page, ps);
      OutsideKeepsPages(s2.words, pages.words, page, keys);
      PagesKeptInTurn(old(pages.words), s2.words, pages.words, keys);
      NewSlabIn(s1.words, pages.words, address, num, page, links);
      LeavesInTurn(base, s1, s2, With(ps));
      LeavesInTurn(base, old(Here()), s1, With(ps));
      LeavesBlocks(base, s1, With(ps));
    }

    /** cache_grow: a new all-free slab at the head of the free list, or nothing when the heap has no
        page to give. */
    method CacheGrow() returns (ok: bool)
      requires Valid()
      modifies this, pages, pages.heap
      ensures Valid() && live == old(live) && errors == old(errors) && partial == old(partial) && full == old(full)
      ensures pages.heap.base == old(pages.heap.base)
      ensures ok <==> !NoPage(old(pages.heap.blocks))
      ensures ok ==> free != [] && free[1..] == old(free) && free[0] in headers && headers[free[0]].inuse == 0
      ensures ok ==> Claim() == PageClaimed(pages.heap.base, old(Claim()))
      ensures ok ==> S.Spare(View()) == S.Spare(old(View())) + num
      ensures !ok ==> View() == old(View()) && Claim() == old(Claim())
      ensures Leaves(pages.heap.base, old(Here()), Here())
    {
      hide S.CacheOk, S.Threaded, S.Spare, Leaves, NoPage, PageTaken, Heap.Valid, AllBacked, PageMap, RawTaken, AlignUp,
           Raw, InMemory, PagesKept, LinkedIn, SlabIn;
      BackedDistinct(Here(), pages.heap.base);
      ghost var s := Here();
      LeavesNothing(pages.heap.base, Here());
      ghost var c := View();
      CacheFits(c);
      var page := AllocSlab();
      if page == 0 { return false; }
      S.GrownOk(c, page, links);
      GrownInMemory(c, page, links, s.words, pages.words);
      headers := headers[page := S.Header(0, page + S.HEADER)];
      chains := chains[page := seq(num, i requires 0 <= i < num => S.ObjectAt(c, page, i))];
      free := [page] + free;
      S.ThreadStart(c, page);
      assert View().chains[page] == S.Grown(c, page, links).chains[page];
      assert View() == S.Grown(c, page, links);
      assert headers.Keys == c.headers.Keys + {page};
      BackedDistinct(Here(), pages.heap.base);
      LeavesBlocks(pages.heap.base, s, Here());
      PageMapGrows(s.words, pages.words, s.ps, page);
      S.SpareMoves(c, View(), page);
      return true;
    }

    /** list_del: takes a slab off whichever list it is on. */
    method Unlink(slab: nat)
      modifies this`full, this`partial, this`free
      ensures full == S.Without(old(full), slab)
      ensures partial == S.Without(old(partial), slab)
      ensures free == S.Without(old(free), slab)
    {
      full, partial, free := S.Without(full, slab), S.Without(partial, slab), S.Without(free, slab);
    }

    /** The end of kmem_cache_alloc: pop the freelist, move the slab to the list its fill calls for. */
    method Take(slab: nat)
      requires slab in headers && slab in chains && chains[slab] != [] && headers[slab].freelist in links
      modifies this`headers, this`full, this`partial, this`free, this`active, this`chains, this`live
      ensures View() == S.Taken(old(View()), slab) && headers.Keys == old(headers).Keys
    {
      hide S.Without;
      var h := headers[slab];
      ghost var o := h.freelist;
      headers := headers[slab := S.Header(h.inuse + 1, links[h.freelist])];
      chains, live := chains[slab := chains[slab][1..]], live + {o};
      if h.inuse + 1 == num {
        Unlink(slab);
        full := [slab] + full;
      } else if h.inuse + 1 == 1 {
        Unlink(slab);
        partial := [slab] + partial;
      }
      active := active + 1;
    }

    /** The objects still to be had: the free ones, and those in the pages the heap can give. */
    ghost function Supply(): int
      reads this, pages, pages.heap
    {
      S.Spare(View()) + num * PagesLeft(pages.heap.blocks, pages.heap.base)
    }

    lemma SupplyFacts()
      requires Valid()
      ensures Supply() >= 0 && num > 0 && S.Spare(View()) >= 0
      ensures Supply() == 0 <==> partial == [] && free == [] && NoPage(pages.heap.blocks)
      ensures NoPage(pages.heap.blocks) ==> Supply() == S.Spare(View())
      ensures partial == [] && free == [] ==> S.Spare(View()) == 0
    {
      hide S.Spare, PagesLeft, S.CacheOk, Heap.Valid, AllBacked, NoPage;
      CacheFits(View());
      S.SpareIsSum(View());
      SupplyIs(S.Spare(View()), num, pages.heap.blocks, pages.heap.base);
    }

    /** The slab kmem_cache_alloc takes from: a partial one, else a free one, else a new one. */
    method FindSlab() returns (ok: bool, slab: nat)
      requires Valid()
      modifies this, pages, pages.heap
      ensures Valid() && pages.heap.base == old(pages.heap.base)
      ensures ok <==> old(Supply()) != 0
      ensures !ok <==> old(partial == [] && free == [] && NoPage(pages.heap.blocks))
      ensures Supply() == old(Supply()) && live == old(live) && errors == old(errors)
      ensures ok ==> slab in headers && headers[slab].inuse < num
      ensures !ok ==> View() == old(View())
      ensures old(S.Spare(View())) == 0 && ok ==> !NoPage(old(pages.heap.blocks))
      ensures Claim() ==
              if old(S.Spare(View())) == 0 && ok then PageClaimed(pages.heap.base, old(Claim())) else old(Claim())
      ensures S.Spare(View()) == old(S.Spare(View())) + if old(S.Spare(View())) == 0 && ok then num else 0
      ensures Leaves(pages.heap.base, old(Here()), Here())
    {
      hide S.CacheOk, S.ListsOk, Heap.Valid, AllBacked, PageTaken, NoPage, S.Spare, Leaves, InMemory;
      LeavesNothing(pages.heap.base, Here());
      ListsHold(View());
      S.SpareIsSum(View());
      SupplyIs(S.Spare(View()), num, pages.heap.blocks, pages.heap.base);
      if partial != [] {
        return true, partial[0];
      } else if free != [] {
        return true, free[0];
      }
      ok := CacheGrow();
      slab := if ok then free[0] else 0;
    }

    /** kmem_cache_alloc: hands out an object that was not live. It fails exactly when nothing is left,
        that is when no slab has a free object and the heap gives no page, and then changes nothing but
        the error count. */
    method KmemCacheAlloc() returns (o: nat)
      requires Valid()
      modifies this, pages, pages.heap
      ensures Valid() && pages.heap.base == old(pages.heap.base)
      ensures o == 0 <==> old(Supply()) == 0
      ensures o == 0 <==> old(partial == [] && free == [] && NoPage(pages.heap.blocks))
      ensures Supply() == old(Supply()) - if o == 0 then 0 else 1
      ensures o == 0 ==> View() == old(View()) && errors == old(errors) + 1
      ensures o != 0 ==> o !in old(live) && live == old(live) + {o} && errors == old(errors)
      ensures old(S.Spare(View())) == 0 && o != 0 ==> !NoPage(old(pages.heap.blocks))
      ensures Claim() ==
              if old(S.Spare(View())) == 0 && o != 0 then PageClaimed(pages.heap.base, old(Claim())) else old(Claim())
      ensures S.Spare(View()) == old(S.Spare(View())) + (if old(S.Spare(View())) == 0 && o != 0 then num else 0)
                                 - if o == 0 then 0 else 1
      ensures Leaves(pages.heap.base, old(Here()), Here())
    {
      hide S.CacheOk, S.Relisted, Heap.Valid, AllBacked, NoPage, S.Spare, PagesLeft, Leaves, PageClaimed, PageMap,
           InMemory, Put;
      var ok, slab := FindSlab();
      if !ok {
        errors := errors + 1;
        return 0;
      }
      o := headers[slab].freelist;
      if o == 0 {
        errors := errors + 1;
        S.TakenOk(View(), slab);
        return;
      }
      ghost var c, s := View(), Here();
      S.TakenOk(c, slab);
      TakenInMemory(c, slab, pages.words);
      TwoFields(pages.words, slab, (S.FREELIST, links[o]), (S.INUSE, headers[slab].inuse + 1));
      StoreFields(slab, [(S.FREELIST, links[o]), (S.INUSE, headers[slab].inuse + 1)], headers.Keys);
      LeavesInTurn(pages.heap.base, old(Here()), s, With(headers.Keys));
      LeavesBlocks(pages.heap.base, s, With(headers.Keys));
      BackedDistinct(s, pages.heap.base);
      PageMapSame(s.words, pages.words, s.ps);
      Take(slab);
      S.SpareMoves(c, View(), slab);
    }

    /** The end of kmem_cache_free. */
    method PutBack(o: nat)
      requires S.PageOf(o) in headers && S.PageOf(o) in chains && 0 < headers[S.PageOf(o)].inuse <= num && active > 0
      modifies this`headers, this`links, this`full, this`partial, this`free, this`active, this`chains, this`live
      ensures View() == S.Returned(old(View()), o) && headers.Keys == old(headers).Keys
    {
      hide S.Without, S.PageOf;
      var slab := S.PageOf(o);
      var h := headers[slab];
      links := links[o := h.freelist];
      headers := headers[slab := S.Header(h.inuse - 1, o)];
      chains, live := chains[slab := [o] + chains[slab]], live - {o};
      if h.inuse - 1 == 0 {
        Unlink(slab);
        free := [slab] + free;
      } else if h.inuse - 1 == num - 1 {
        Unlink(slab);
        partial := [slab] + partial;
      }
      active := active - 1;
    }

    /** kmem_cache_free: finds the slab by masking; panics exactly on an address outside every slab. */
    method KmemCacheFree(o: nat) returns (panicked: bool)
      requires Valid() && (o == 0 || o in live || S.PageOf(o) !in headers)
      modifies this, pages`words, pages.heap`mem
      ensures Valid() && errors == old(errors)
      ensures panicked <==> o != 0 && S.PageOf(o) !in old(headers)
      ensures o == 0 || panicked ==> View() == old(View())
      ensures o in old(live) ==> live == old(live) - {o} && S.Spare(View()) == S.Spare(old(View())) + 1
      ensures Claim() == old(Claim())
      ensures Leaves(pages.heap.base, old(Here()), Here())
    {
      hide S.CacheOk, S.Relisted, Heap.Valid, AllBacked, S.Spare, Leaves, PageMap, InMemory, Put;
      LeavesNothing(pages.heap.base, Here());
      if o in live { S.LiveObject(View(), o); }
      if o == 0 { return false; }
      var slab := o - o % PAGE_SIZE;
      if slab !in headers { return true; }
      ghost var c := View();
      ObjectFits(c, o);
      S.ReturnedOk(c, o);
      ReturnedInMemory(c, o, pages.words);
      SlabStore(o, headers[slab].freelist, slab, headers.Keys);
      ghost var s := Here();
      TwoFields(pages.words, slab, (S.FREELIST, o), (S.INUSE, headers[slab].inuse - 1));
      StoreFields(slab, [(S.FREELIST, o), (S.INUSE, headers[slab].inuse - 1)], headers.Keys);
      LeavesInTurn(pages.heap.base, old(Here()), s, With(headers.Keys));
      LeavesBlocks(pages.heap.base, old(Here()), With(headers.Keys));
      BackedDistinct(old(Here()), pages.heap.base);
      PageMapSame(old(pages.words), pages.words, headers.Keys);
      PutBack(o);
      S.SpareMoves(c, View(), slab);
      return false;
    }

    /** Frees objects from the last to the first, as the failing bulk allocation does. */
    method FreeAll(objects: seq<nat>)
      requires Valid() && S.Distinct(objects) && forall o :: o in objects ==> o in live
      modifies this, pages`words, pages.heap`mem
      ensures Valid() && live == old(live) - S.Elements(objects)
      ensures S.Spare(View()) == S.Spare(old(View())) + |objects| && Claim() == old(Claim())
      ensures Leaves(pages.heap.base, old(Here()), Here())
    {
      hide S.CacheOk, Heap.Valid, AllBacked, S.Spare, Leaves, PageMap, InMemory;
      LeavesNothing(pages.heap.base, Here());
      var i := |objects|;
      while i > 0
        invariant 0 <= i <= |objects| && Valid()
        invariant forall o :: o in objects[..i] ==> o in live
        invariant live == old(live) - S.Elements(objects[i..])
        invariant S.Spare(View()) == S.Spare(old(View())) + |objects| - i && Claim() == old(Claim())
        invariant Leaves(pages.heap.base, old(Here()), Here())
      {
        i := i - 1;
        assert objects[i] in objects[..i + 1];
        ghost var s := Here();
        var panicked := KmemCacheFree(objects[i]);
        LeavesInTurn(pages.heap.base, old(Here()), s, Here());
        assert objects[i..] == [objects[i]] + objects[i + 1..];
      }
      assert objects[0..] == objects;
    }

    /** How many pages a request for `n` objects takes now. */
    ghost function Used(n: nat): (m: nat)
      reads this, pages, pages.heap
      ensures m <= PagesLeft(pages.heap.blocks, pages.heap.base)
    {
      PagesUsed(S.Spare(View()), num, PagesLeft(pages.heap.blocks, pages.heap.base), n)
    }

    /** kmem_cache_alloc_bulk: all or nothing. It fails exactly when fewer than `n` objects are to be had;
        the objects taken so far go back, the live set and the supply are as before, and the unsigned
        counter has run below zero: the result is -1. */
    method AllocBulk(n: nat) returns (r: int, objects: seq<nat>)
      requires Valid()
      modifies this, pages, pages.heap
      ensures Valid() && pages.heap.base == old(pages.heap.base)
      ensures r == if old(Supply()) < n then -1 else n
      ensures Supply() == old(Supply()) - if r == n then n else 0
      ensures r == n ==>
                && |objects| == n && S.Distinct(objects) && (forall o :: o in objects ==> o !in old(live))
                && live == old(live) + S.Elements(objects)
      ensures r == -1 ==> live == old(live) && NoPage(pages.heap.blocks) && S.Spare(View()) < n
      ensures Claim() == Claimed(pages.heap.base, old(Claim()), old(Used(n)))
      ensures S.Spare(View()) == old(S.Spare(View())) + num * old(Used(n)) - if r == n then n else 0
      ensures Leaves(pages.heap.base, old(Here()), Here())
    {
      hide S.CacheOk, Heap.Valid, AllBacked, NoPage, S.Spare, PagesLeft, Leaves, PageMap, Claimed, PageClaimed,
           PagesUsed, InMemory;
      LeavesNothing(pages.heap.base, Here());
      objects := [];
      ghost var m, c0, spare, left := 0, Claim(), S.Spare(View()), PagesLeft(pages.heap.blocks, pages.heap.base);
      BulkStarts(pages.heap.base, c0, num);
      for i := 0 to n
        invariant Valid() && pages.heap.base == old(pages.heap.base) && |objects| == i && S.Distinct(objects)
        invariant forall o :: o in objects ==> o !in old(live)
        invariant live == old(live) + S.Elements(objects)
        invariant Supply() == old(Supply()) - i
        invariant BulkAt(pages.heap.base, c0, Claim(), spare, num, n, i, m, S.Spare(View()))
        invariant Leaves(pages.heap.base, old(Here()), Here())
      {
        SupplyFacts();
        ghost var s, c, free := Here(), Claim(), S.Spare(View());
        var o := KmemCacheAlloc();
        LeavesInTurn(pages.heap.base, old(Here()), s, Here());
        if o == 0 {
          SupplyFacts();
          BulkRefused(pages.heap.base, c0, c, spare, num, n, i, m, free);
          s := Here();
          FreeAll(objects);
          LeavesInTurn(pages.heap.base, old(Here()), s, Here());
          return -1, objects;
        }
        BulkStep(pages.heap.base, c0, c, spare, num, n, i, m, free);
        if free == 0 { m := m + 1; }
        objects := objects + [o];
        assert S.Elements(objects) == S.Elements(objects[..i]) + {o};
      }
      SupplyFacts();
      BulkServed(pages.heap.base, c0, Claim(), spare, num, n, m, S.Spare(View()));
      r := n;
    }

    /** kmem_cache_free_bulk. NULL entries are skipped. */
    method FreeBulk(objects: seq<nat>)
      requires Valid() && forall o :: o in objects ==> o == 0 || o in live
      requires forall i, j :: 0 <= i < j < |objects| && objects[i] == objects[j] ==> objects[i] == 0
      modifies this, pages`words, pages.heap`mem
      ensures Valid() && live == old(live) - S.Elements(objects)
    {
      hide S.CacheOk, Heap.Valid, AllBacked, InMemory, Leaves, PageMap, S.Spare, PagesBacked, S.PageOf;
      NullNotLive(View());
      for i := 0 to |objects|
        invariant Valid()
        invariant forall j :: i <= j < |objects| ==> objects[j] == 0 || objects[j] in live
        invariant live == old(live) - S.Elements(objects[..i])
      {
        var panicked := KmemCacheFree(objects[i]);
        assert objects[..i + 1] == objects[..i] + [objects[i]];
      }
      assert objects[..|objects|] == objects;
    }
  }

  /** Asking for one object more than there are gets none and the answer -1. */
  method OneTooMany(cache: KmemCache, n: nat) returns (r: int)
    requires cache.Valid() && n == cache.Supply() + 1
    modifies cache, cache.pages, cache.pages.heap
    ensures r == -1 && cache.Valid() && cache.live == old(cache.live) && cache.Supply() == old(cache.Supply())
  {
    hide KmemCache.Valid, KmemCache.Supply;
    var objects;
    r, objects := cache.AllocBulk(n);
  }

  datatype Op = Take(n: nat) | Free(o: nat)

  function HeldAfter(held: set<nat>, op: Op, got: seq<nat>): set<nat> {
    if op.Take? then held + S.Elements(got) else held - {op.o}
  }

  /** The pages an operation takes. */
  ghost function UsedBy(cache: KmemCache, op: Op): (m: nat)
    reads cache, cache.pages, cache.pages.heap
    ensures m <= PagesLeft(cache.pages.heap.blocks, cache.pages.heap.base)
  {
    if op.Take? then cache.Used(op.n) else 0
  }

  /** One object takes a page exactly when nothing is spare and there is one. */
  lemma OneUsed(base: nat, c: Claims, spare: int, num: nat)
    requires spare >= 0 && num > 0
    ensures var left := PagesLeft(c.blocks, base);
      && PagesUsed(spare, num, left, 0) == 0
      && PagesUsed(spare, num, left, 1) == (if spare == 0 && left > 0 then 1 else 0)
      && Claimed(base, c, 0) == c && (left > 0 <==> !NoPage(c.blocks))
      && (left > 0 ==> Claimed(base, c, 1) == PageClaimed(base, c))
  {
    hide NoPage, PageTaken, RawTaken, AlignUp;
    assert PagesLeft(c.blocks, base) > 0 ==> Claimed(base, c, 1) == Claimed(base, PageClaimed(base, c), 0);
  }

  function SupplyAfter(held: set<nat>, supply: int, op: Op, got: seq<nat>): int {
    if op.Take? then supply - |got| else if op.o in held then supply + 1 else supply
  }

  /** An allocation of `n` (1 for kmem_cache_alloc) is given `n` distinct objects that nobody holds, or
      none exactly when fewer than `n` are to be had; a free is given none. */
  predicate Grants(held: set<nat>, supply: int, op: Op, got: seq<nat>) {
    && S.Distinct(got) && (forall o :: o in got ==> o !in held)
    && |got| == if op.Free? || supply < op.n then 0 else op.n
  }

  /** What the callers see of a run, with `supply` objects to be had at the start. */
  predicate Served(held: set<nat>, supply: int, ops: seq<Op>, given: seq<seq<nat>>, held': set<nat>, supply': int)
    decreases |ops|
  {
    if ops == [] then given == [] && held' == held && supply' == supply
    else
      && given != [] && Grants(held, supply, ops[0], given[0])
      && Served(HeldAfter(held, ops[0], given[0]), SupplyAfter(held, supply, ops[0], given[0]), ops[1..], given[1..],
                held', supply')
  }

  lemma StepConserves(held: set<nat>, supply: int, op: Op, got: seq<nat>)
    requires Grants(held, supply, op, got)
    ensures |HeldAfter(held, op, got)| + SupplyAfter(held, supply, op, got) == |held| + supply
  {
    match op {
      case Take(_) =>
        S.DistinctCount(got);
        assert held !! S.Elements(got);
      case Free(o) =>
        assert o in held ==> |held - {o}| == |held| - 1;
        assert o !in held ==> held - {o} == held;
    }
  }

  /** Held and to be had together never change. */
  lemma {:induction false} ServedConserves(held: set<nat>, supply: int, ops: seq<Op>, given: seq<seq<nat>>,
                                           held': set<nat>, supply': int)
    requires Served(held, supply, ops, given, held', supply')
    ensures |held'| + supply' == |held| + supply
    decreases |ops|
  {
    hide HeldAfter, SupplyAfter, Grants;
    if ops == [] {
    } else {
      StepConserves(held, supply, ops[0], given[0]);
      ServedConserves(HeldAfter(held, ops[0], given[0]), SupplyAfter(held, supply, ops[0], given[0]), ops[1..],
                      given[1..], held', supply');
    }
  }

  /** One operation; frees of what is not held are not attempted. */
  method Execute(cache: KmemCache, op: Op, held: set<nat>) returns (got: seq<nat>)
    requires cache.Valid() && cache.live == held
    modifies cache, cache.pages, cache.pages.heap
    ensures cache.Valid() && cache.live == HeldAfter(held, op, got)
    ensures Grants(held, old(cache.Supply()), op, got)
    ensures cache.Supply() == SupplyAfter(held, old(cache.Supply()), op, got)
    ensures cache.pages.heap.base == old(cache.pages.heap.base)
    ensures Leaves(cache.pages.heap.base, old(cache.Here()), cache.Here())
    ensures cache.Claim() == Claimed(cache.pages.heap.base, old(cache.Claim()), old(UsedBy(cache, op)))
    ensures S.Spare(cache.View()) ==
            SupplyAfter(held, old(S.Spare(cache.View())) + cache.num * old(UsedBy(cache, op)), op, got)
  {
    hide S.CacheOk, Heap.Valid, AllBacked, NoPage, S.Spare, PagesLeft, Leaves, PageMap, PageClaimed,
         InMemory;
    cache.SupplyFacts();
    OneUsed(cache.pages.heap.base, cache.Claim(), S.Spare(cache.View()), cache.num);
    LeavesNothing(cache.pages.heap.base, cache.Here());
    got := [];
    assert S.Elements([]) == {};
    match op {
      case Take(n) =>
        if n == 1 {
          var o := cache.KmemCacheAlloc();
          if o != 0 { got := [o]; }
          assert S.Elements([o]) == {o};
        } else {
          var r, objects := cache.AllocBulk(n);
          if r == n { got := objects; }
        }
      case Free(o) =>
        if o in held {
          var panicked := cache.KmemCacheFree(o);
        }
    }
  }

  lemma CountsAgree(cache: KmemCache)
    requires cache.Valid()
    ensures cache.active == |cache.live|
    ensures forall p :: p in cache.full + cache.partial + cache.free <==> p in cache.headers
    ensures cache.active == S.SumInuse(cache.View(), cache.full + cache.partial + cache.free)
  {
    hide S.CacheOk, Heap.Valid, AllBacked, InMemory;
    S.ActiveIsSum(cache.View());
  }

  /** Every run of allocations, bulk allocations and frees of live objects keeps the invariant: the
      freelists are acyclic and disjoint from the live objects, every slab is on its list, active is
      the sum of inuse, and every slab's page is backed by a live heap block of its own. */
  method Run(cache: KmemCache, ops: seq<Op>, held: set<nat>) returns (given: seq<seq<nat>>, held': set<nat>)
    requires cache.Valid() && cache.live == held
    modifies cache, cache.pages, cache.pages.heap
    ensures Served(held, old(cache.Supply()), ops, given, held', cache.Supply())
    ensures cache.Valid() && cache.live == held' && cache.active == |held'|
    ensures forall p :: p in cache.full + cache.partial + cache.free <==> p in cache.headers
    ensures cache.active == S.SumInuse(cache.View(), cache.full + cache.partial + cache.free)
    decreases |ops|
  {
    hide KmemCache.Valid, KmemCache.Supply, HeldAfter, SupplyAfter, Grants, S.SumInuse;
    if ops == [] {
      CountsAgree(cache);
      return [], held;
    }
    var got := Execute(cache, ops[0], held);
    var rest;
    rest, held' := Run(cache, ops[1..], HeldAfter(held, ops[0], got));
    given := [got] + rest;
    assert given[1..] == rest;
  }
}
