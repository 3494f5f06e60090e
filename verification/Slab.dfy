/** Slabs as values: pages cut into objects, an intrusive freelist through the free ones, and three
    lists of slabs by how full they are.
 */
module Slab {
  import opened Division
  import opened Machine

  /** sizeof(struct slab) on i386, and where its fields are. */
  const HEADER: nat := 40
  const CACHE: nat := 8
  const S_MEM: nat := 12
  const INUSE: nat := 16
  const FREELIST: nat := 24
  const OBJECTS: nat := 28
  const MAGIC: nat := 32
  const END: nat := 36
  const RED_MAGIC: nat := 0x5A5A5A5A

  /** calculate_objects for an order-0 cache without colour alignment. */
  function ObjectsPerSlab(size: nat): nat
    requires size > 0
  {
    (PAGE_SIZE - HEADER) / size
  }

  datatype Header = Header(inuse: nat, freelist: nat)

  /** A cache: the slab headers by page, the words stored in free objects, the three lists, and what
      they stand for: each slab's chain of free objects and the set of live objects. */
  datatype Cache = Cache(
    size: nat, num: nat,
    headers: map<nat, Header>, links: map<nat, nat>,
    full: seq<nat>, partial: seq<nat>, free: seq<nat>,
    active: nat,
    chains: map<nat, seq<nat>>, live: set<nat>)

  // ----- objects -----

  function ObjectAt(c: Cache, page: nat, i: nat): nat { page + HEADER + i * c.size }

  predicate IsObject(c: Cache, page: nat, o: nat) {
    exists i: nat :: i < c.num && o == ObjectAt(c, page, i)
  }

  predicate Fits(c: Cache) { c.size >= 4 && c.num > 0 && HEADER + c.num * c.size <= PAGE_SIZE }

  function PageOf(o: nat): nat { o - o % PAGE_SIZE }

  /** A slab holds as many objects as fit in its page after the structure: all of them fit, one more does
      not. */
  lemma ObjectsPerSlabFit(size: nat)
    requires size > 0
    ensures HEADER + ObjectsPerSlab(size) * size <= PAGE_SIZE < HEADER + (ObjectsPerSlab(size) + 1) * size
    ensures ObjectsPerSlab(size) > 0 <==> size <= PAGE_SIZE - HEADER
  {
    var n := (PAGE_SIZE - HEADER) / size;
    assert PAGE_SIZE - HEADER == n * size + (PAGE_SIZE - HEADER) % size;
    assert (n + 1) * size == n * size + size;
    if n > 0 { MulMonotone(1, n, size); }
    assert n == 0 ==> n * size == 0;
  }

  /** calculate_objects with SLAB_HWCACHE_ALIGN: a remainder of a pointer's size or more counts as an object. */
  function FlaggedObjectsPerSlab(size: nat): nat
    requires size > 0
  {
    ObjectsPerSlab(size) + if (PAGE_SIZE - HEADER) % size >= 4 then 1 else 0
  }

  /** The objects counted with the flag fit in the page exactly when the remainder is under 4 bytes: of the
      sizes of the caches slab_init makes, only 8 does. */
  lemma FlaggedObjectsOverrun(size: nat)
    requires size > 0
    ensures HEADER + FlaggedObjectsPerSlab(size) * size <= PAGE_SIZE <==> (PAGE_SIZE - HEADER) % size < 4
    ensures size in {8, 16, 32, 64, 128, 256, 512, 1024, 2048, 4096, 8192} ==>
              (HEADER + FlaggedObjectsPerSlab(size) * size <= PAGE_SIZE <==> size == 8)
  {
    ObjectsPerSlabFit(size);
  }

  /** Masking an object's address recovers its slab. */
  lemma MaskRecoversSlab(c: Cache, page: nat, o: nat)
    requires Fits(c) && page % PAGE_SIZE == 0 && IsObject(c, page, o)
    ensures PageOf(o) == page && page < o && o + c.size <= page + PAGE_SIZE
  {
    var i: nat :| i < c.num && o == ObjectAt(c, page, i);
    MulMonotone(i + 1, c.num, c.size);
    assert (i + 1) * c.size == i * c.size + c.size;
    MaskedTo(page, HEADER + i * c.size);
  }

  lemma MaskedTo(page: nat, d: nat)
    requires page % PAGE_SIZE == 0 && d < PAGE_SIZE
    ensures PageOf(page + d) == page
  {
  }

  lemma ObjectsDistinct(c: Cache, page: nat, i: nat, j: nat)
    requires c.size > 0 && ObjectAt(c, page, i) == ObjectAt(c, page, j)
    ensures i == j
  {
    assert i * c.size == j * c.size;
    assert (i + 1) * c.size == i * c.size + c.size && (j + 1) * c.size == j * c.size + c.size;
    if i < j { MulMonotone(i + 1, j, c.size); } else if j < i { MulMonotone(j + 1, i, c.size); }
  }

  // ----- freelists -----

  /** `chain` is what following the links from `head` visits, up to NULL. */
  predicate IsChain(links: map<nat, nat>, head: nat, chain: seq<nat>)
    decreases |chain|
  {
    if chain == [] then head == 0
    else head != 0 && head == chain[0] && head in links && IsChain(links, links[head], chain[1..])
  }

  /** A chain depends only on the words of its own objects. */
  lemma {:induction false} ChainFrame(links: map<nat, nat>, links': map<nat, nat>, head: nat, chain: seq<nat>)
    requires IsChain(links, head, chain)
    requires forall o :: o in chain && o in links ==> o in links' && links'[o] == links[o]
    ensures IsChain(links', head, chain)
    decreases |chain|
  {
    if chain == [] {
    } else {
      assert chain[0] in chain;
      ChainFrame(links, links', links[head], chain[1..]);
    }
  }

  predicate Distinct(s: seq<nat>) {
    forall i, j :: 0 <= i < j < |s| ==> s[i] != s[j]
  }

  // ----- the invariant -----

  /** One slab: its freelist is an acyclic chain of exactly num - inuse of its objects, and the others
      are live. */
  ghost predicate SlabOk(c: Cache, page: nat)
    requires page in c.headers && page in c.chains
  {
    var h, chain := c.headers[page], c.chains[page];
    && page > 0 && page % PAGE_SIZE == 0
    && IsChain(c.links, h.freelist, chain) && Distinct(chain)
    && |chain| + h.inuse == c.num
    && (forall o :: o in chain ==> IsObject(c, page, o))
    && (forall o :: IsObject(c, page, o) ==> (o in c.live <==> o !in chain))
  }

  /** Every slab is on the list its fill calls for, once. */
  ghost predicate ListsOk(c: Cache) {
    && Distinct(c.full) && Distinct(c.partial) && Distinct(c.free)
    && (forall p :: p in c.full <==> p in c.headers && c.headers[p].inuse == c.num)
    && (forall p :: p in c.partial <==> p in c.headers && 0 < c.headers[p].inuse < c.num)
    && (forall p :: p in c.free <==> p in c.headers && c.headers[p].inuse == 0)
  }

  ghost predicate CacheOk(c: Cache) {
    && Fits(c)
    && c.headers.Keys == c.chains.Keys
    && (forall p :: p in c.headers ==> SlabOk(c, p))
    && (forall o :: o in c.live ==> PageOf(o) in c.headers && IsObject(c, PageOf(o), o))
    && ListsOk(c)
    && c.active == |c.live|
  }

  lemma EmptyOk(c: Cache)
    requires Fits(c) && c.headers == map[] && c.chains == map[] && c.live == {} && c.active == 0
    requires c.full == [] && c.partial == [] && c.free == []
    ensures CacheOk(c)
  {
  }

  // ----- list operations -----

  /** list_del. */
  function Without(s: seq<nat>, p: nat): (r: seq<nat>)
    ensures forall q :: q in r <==> q in s && q != p
  {
    if s == [] then [] else if s[0] == p then Without(s[1..], p) else [s[0]] + Without(s[1..], p)
  }

  lemma DistinctCons(x: nat, s: seq<nat>)
    ensures Distinct([x] + s) <==> Distinct(s) && x !in s
  {
    var t := [x] + s;
    if Distinct(t) {
      forall i, j | 0 <= i < j < |s| ensures s[i] != s[j] { assert t[i + 1] != t[j + 1]; }
      forall i | 0 <= i < |s| ensures s[i] != x { assert t[0] != t[i + 1]; }
    }
  }

  lemma {:induction false} WithoutDistinct(s: seq<nat>, p: nat)
    requires Distinct(s)
    ensures Distinct(Without(s, p)) && Distinct([p] + Without(s, p))
    decreases |s|
  {
    if s == [] {
    } else {
      assert s == [s[0]] + s[1..];
      DistinctCons(s[0], s[1..]);
      WithoutDistinct(s[1..], p);
      DistinctCons(s[0], Without(s[1..], p));
    }
    DistinctCons(p, Without(s, p));
  }

  /** list_del and list_add to the head of the list for the new fill, when the fill crosses a border. */
  function Relisted(c: Cache, p: nat, inuse: nat): (r: Cache)
    ensures r == c.(full := r.full, partial := r.partial, free := r.free)
  {
    if inuse == c.num then
      c.(full := [p] + Without(c.full, p), partial := Without(c.partial, p), free := Without(c.free, p))
    else if inuse == 0 then
      c.(full := Without(c.full, p), partial := Without(c.partial, p), free := [p] + Without(c.free, p))
    else
      c.(full := Without(c.full, p), partial := [p] + Without(c.partial, p), free := Without(c.free, p))
  }

  // ----- taking and returning an object -----

  /** The cache once the first free object of slab `p` is off its freelist, the lists still as before. */
  function Popped(c: Cache, p: nat): Cache
    requires p in c.headers && p in c.chains && c.chains[p] != [] && c.headers[p].freelist in c.links
  {
    var h := c.headers[p];
    c.(headers := c.headers[p := Header(h.inuse + 1, c.links[h.freelist])], chains := c.chains[p := c.chains[p][1..]],
       live := c.live + {h.freelist}, active := c.active + 1)
  }

  /** The cache after slab `p` gave away its first free object. */
  function Taken(c: Cache, p: nat): Cache
    requires p in c.headers && p in c.chains && c.chains[p] != [] && c.headers[p].freelist in c.links
  {
    var d, n := Popped(c, p), c.headers[p].inuse + 1;
    if n == c.num || n == 1 then Relisted(d, p, n) else d
  }

  /** The cache after live object `o` went back to the head of its slab's freelist. */
  function Returned(c: Cache, o: nat): Cache
    requires PageOf(o) in c.headers && PageOf(o) in c.chains && c.headers[PageOf(o)].inuse > 0 && c.active > 0
  {
    var p := PageOf(o);
    var h := c.headers[p];
    var h' := Header(h.inuse - 1, o);
    var d := c.(headers := c.headers[p := h'], links := c.links[o := h.freelist],
                chains := c.chains[p := [o] + c.chains[p]], live := c.live - {o}, active := c.active - 1);
    if h'.inuse == 0 || h'.inuse == c.num - 1 then Relisted(d, p, h'.inuse) else d
  }

  /** The freelist is last in, first out: the slab gives a returned object away again before any other, and is then
      as it was. */
  lemma TakenUndoesReturned(c: Cache, o: nat)
    requires o in c.live && PageOf(o) in c.headers && PageOf(o) in c.chains
    requires c.headers[PageOf(o)].inuse > 0 && c.active > 0
    ensures var p, d := PageOf(o), Returned(c, o);
      && p in d.headers && p in d.chains && d.chains[p] != [] && d.headers[p].freelist == o && o in d.links
      && var e := Taken(d, p);
      && e.headers == c.headers && e.chains == c.chains && e.live == c.live && e.active == c.active
      && e.links == c.links[o := c.headers[p].freelist]
  {
    hide Without, PageOf;
  }

  // ----- the operations keep the invariant -----

  lemma RelistedOk(c: Cache, d: Cache, p: nat)
    requires ListsOk(c) && c.num > 0 && p in d.headers && d.headers[p].inuse <= d.num
    requires d.num == c.num && d.full == c.full && d.partial == c.partial && d.free == c.free
    requires d.headers == c.headers[p := d.headers[p]]
    ensures ListsOk(Relisted(d, p, d.headers[p].inuse))
  {
    WithoutDistinct(c.full, p);
    WithoutDistinct(c.partial, p);
    WithoutDistinct(c.free, p);
  }

  /** When the fill does not cross a border the lists are right as they are. */
  lemma StillListed(c: Cache, d: Cache, p: nat)
    requires ListsOk(c) && p in c.headers && p in d.headers && d.num == c.num
    requires d.full == c.full && d.partial == c.partial && d.free == c.free
    requires d.headers == c.headers[p := d.headers[p]]
    requires 0 < c.headers[p].inuse < c.num && 0 < d.headers[p].inuse < c.num
    ensures ListsOk(d)
  {
  }

  /** A slab that is neither touched nor shares objects with the touched one stays as it was. */
  lemma OtherSlabOk(c: Cache, d: Cache, p: nat, q: nat, o: nat)
    requires Fits(c) && d.size == c.size && d.num == c.num
    requires q in c.headers && q in c.chains && SlabOk(c, q) && q != p && p % PAGE_SIZE == 0 && IsObject(c, p, o)
    requires q in d.headers && d.headers[q] == c.headers[q] && q in d.chains && d.chains[q] == c.chains[q]
    requires d.live == c.live + {o} || d.live == c.live - {o}
    requires forall x :: x in c.links && x != o ==> x in d.links && d.links[x] == c.links[x]
    ensures SlabOk(d, q)
  {
    MaskRecoversSlab(c, p, o);
    forall x | IsObject(c, q, x) ensures x != o { MaskRecoversSlab(c, q, x); }
    ChainFrame(c.links, d.links, c.headers[q].freelist, c.chains[q]);
    forall x ensures IsObject(d, q, x) <==> IsObject(c, q, x) {
      SameObjects(c, d, q, x);
    }
  }

  lemma SameObjects(c: Cache, d: Cache, p: nat, x: nat)
    requires d.size == c.size && d.num == c.num
    ensures IsObject(d, p, x) <==> IsObject(c, p, x)
  {
    if IsObject(c, p, x) {
      var i: nat :| i < c.num && x == ObjectAt(c, p, i);
      assert x == ObjectAt(d, p, i);
    }
    if IsObject(d, p, x) {
      var i: nat :| i < d.num && x == ObjectAt(d, p, i);
      assert x == ObjectAt(c, p, i);
    }
  }

  /** A slab that is not full has a free object to give. */
  lemma HasFree(c: Cache, p: nat)
    requires p in c.headers && p in c.chains && SlabOk(c, p) && c.headers[p].inuse < c.num
    ensures c.chains[p] != [] && c.headers[p].freelist == c.chains[p][0]
    ensures c.headers[p].freelist in c.links && c.headers[p].freelist != 0 && p % PAGE_SIZE == 0
  {
  }

  lemma TakenSlabOk(c: Cache, p: nat, d: Cache)
    requires Fits(c) && d.size == c.size && d.num == c.num && d.links == c.links
    requires p in c.headers && p in c.chains && SlabOk(c, p) && c.chains[p] != []
    requires c.headers[p].freelist in c.links && p in d.headers && p in d.chains
    requires d.headers[p] == Header(c.headers[p].inuse + 1, c.links[c.headers[p].freelist])
    requires d.chains[p] == c.chains[p][1..] && d.live == c.live + {c.headers[p].freelist}
    ensures SlabOk(d, p) && c.headers[p].freelist !in c.live && IsObject(c, p, c.headers[p].freelist)
  {
    var chain, o := c.chains[p], c.headers[p].freelist;
    assert chain == [o] + chain[1..] && o in chain;
    DistinctCons(o, chain[1..]);
    forall x ensures IsObject(d, p, x) <==> IsObject(c, p, x) { SameObjects(c, d, p, x); }
  }

  lemma ReturnedSlabOk(c: Cache, p: nat, o: nat, d: Cache)
    requires Fits(c) && d.size == c.size && d.num == c.num
    requires p in c.headers && p in c.chains && SlabOk(c, p) && IsObject(c, p, o) && o in c.live
    requires p in d.headers && p in d.chains && c.headers[p].inuse > 0
    requires d.headers[p] == Header(c.headers[p].inuse - 1, o) && d.links == c.links[o := c.headers[p].freelist]
    requires d.chains[p] == [o] + c.chains[p] && d.live == c.live - {o}
    ensures SlabOk(d, p)
  {
    var chain := c.chains[p];
    MaskRecoversSlab(c, p, o);
    DistinctCons(o, chain);
    ChainFrame(c.links, d.links, c.headers[p].freelist, chain);
    assert ([o] + chain)[1..] == chain;
    forall x ensures IsObject(d, p, x) <==> IsObject(c, p, x) { SameObjects(c, d, p, x); }
  }

  /** All slabs once the first free object of slab `p` is popped, before the lists are updated. */
  lemma TakenSlabsOk(c: Cache, p: nat, d: Cache)
    requires CacheOk(c) && p in c.headers && c.headers[p].inuse < c.num
    requires c.chains[p] != [] && c.headers[p].freelist in c.links && p % PAGE_SIZE == 0
    requires d == Popped(c, p)
    ensures forall q :: q in d.headers ==> SlabOk(d, q)
    ensures forall x :: x in d.live ==> PageOf(x) in d.headers && IsObject(d, PageOf(x), x)
    ensures c.headers[p].freelist !in c.live && IsObject(c, p, c.headers[p].freelist)
  {
    hide SlabOk, IsObject, ListsOk;
    var o := c.headers[p].freelist;
    TakenSlabOk(c, p, d);
    MaskRecoversSlab(c, p, o);
    forall q | q in d.headers ensures SlabOk(d, q) {
      if q != p { OtherSlabOk(c, d, p, q, o); }
    }
    forall x | x in d.live ensures PageOf(x) in d.headers && IsObject(d, PageOf(x), x) {
      SameObjects(c, d, PageOf(x), x);
    }
  }

  /** Taking an object: it was free, it is now live, nothing else changes. */
  lemma TakenOk(c: Cache, p: nat)
    requires CacheOk(c) && p in c.headers && c.headers[p].inuse < c.num
    ensures p in c.chains && c.chains[p] != [] && c.headers[p].freelist in c.links
    ensures CacheOk(Taken(c, p))
    ensures var o := c.headers[p].freelist;
      o != 0 && o !in c.live && IsObject(c, p, o) && Taken(c, p).live == c.live + {o}
  {
    hide SlabOk, IsObject, ListsOk, Relisted;
    HasFree(c, p);
    var h, o, d := c.headers[p], c.headers[p].freelist, Popped(c, p);
    TakenSlabsOk(c, p, d);
    if h.inuse + 1 == c.num || h.inuse + 1 == 1 {
      RelistedOk(c, d, p);
      SlabsUnlisted(d, Taken(c, p));
    } else {
      StillListed(c, d, p);
    }
  }

  /** The slabs do not depend on the lists. */
  lemma SlabsUnlisted(d: Cache, e: Cache)
    requires e == d.(full := e.full, partial := e.partial, free := e.free)
    ensures forall q :: q in d.headers && q in d.chains && SlabOk(d, q) ==> SlabOk(e, q)
    ensures forall q, x :: IsObject(e, q, x) <==> IsObject(d, q, x)
  {
    forall q, x ensures IsObject(e, q, x) <==> IsObject(d, q, x) { SameObjects(d, e, q, x); }
  }

  /** A live object's slab, and that it has something in use. */
  lemma LiveObject(c: Cache, o: nat)
    requires CacheOk(c) && o in c.live
    ensures o != 0 && PageOf(o) in c.headers && PageOf(o) in c.chains && IsObject(c, PageOf(o), o)
    ensures SlabOk(c, PageOf(o)) && PageOf(o) % PAGE_SIZE == 0
    ensures c.headers[PageOf(o)].inuse > 0 && c.active > 0
  {
    var p := PageOf(o);
    MaskRecoversSlab(c, p, o);
    ChainShort(c, p, o);
    assert |c.live| > 0 by { assert c.live != {}; }
  }

  /** The objects of a slab, as a set of size num. */
  ghost function Objects(c: Cache, p: nat, n: nat): (r: set<nat>)
    ensures forall x :: x in r <==> exists i: nat :: i < n && x == ObjectAt(c, p, i)
  {
    set i: nat | i < n :: ObjectAt(c, p, i)
  }

  lemma {:induction false} ObjectsCount(c: Cache, p: nat, n: nat)
    requires c.size > 0
    ensures |Objects(c, p, n)| == n
    decreases n
  {
    if n == 0 {
      assert Objects(c, p, 0) == {};
    } else {
      ObjectsCount(c, p, n - 1);
      forall i: nat | i < n - 1 ensures ObjectAt(c, p, i) != ObjectAt(c, p, n - 1) {
        if ObjectAt(c, p, i) == ObjectAt(c, p, n - 1) { ObjectsDistinct(c, p, i, n - 1); }
      }
      assert Objects(c, p, n) == Objects(c, p, n - 1) + {ObjectAt(c, p, n - 1)};
    }
  }

  function Elements(s: seq<nat>): set<nat> { set x | x in s }

  lemma {:induction false} DistinctCount(s: seq<nat>)
    requires Distinct(s)
    ensures |Elements(s)| == |s|
    decreases |s|
  {
    if s == [] {
      assert Elements(s) == {};
    } else {
      assert s == [s[0]] + s[1..];
      DistinctCons(s[0], s[1..]);
      DistinctCount(s[1..]);
      assert Elements(s) == {s[0]} + Elements(s[1..]);
    }
  }

  lemma SubsetSize(a: set<nat>, b: set<nat>)
    requires a <= b
    ensures |a| <= |b| && |b - a| == |b| - |a|
  {
    assert b == a + (b - a);
  }

  /** inuse is the number of the slab's live objects. */
  lemma InuseCountsLive(c: Cache, p: nat)
    requires Fits(c) && p in c.headers && p in c.chains && SlabOk(c, p)
    ensures |c.live * Objects(c, p, c.num)| == c.headers[p].inuse
  {
    var all, chain := Objects(c, p, c.num), Elements(c.chains[p]);
    ObjectsCount(c, p, c.num);
    DistinctCount(c.chains[p]);
    forall x ensures x in all <==> IsObject(c, p, x) {}
    assert chain <= all;
    SubsetSize(chain, all);
    assert c.live * all == all - chain;
  }

  lemma ChainShort(c: Cache, p: nat, o: nat)
    requires Fits(c) && p in c.headers && p in c.chains && SlabOk(c, p) && IsObject(c, p, o) && o in c.live
    ensures c.headers[p].inuse > 0
  {
    InuseCountsLive(c, p);
    assert o in c.live * Objects(c, p, c.num);
  }

  /** Returning a live object: it is free again, nothing else changes. */
  lemma ReturnedOk(c: Cache, o: nat)
    requires CacheOk(c) && o in c.live
    ensures PageOf(o) in c.headers && PageOf(o) in c.chains && c.active > 0
    ensures 0 < c.headers[PageOf(o)].inuse <= c.num
    ensures CacheOk(Returned(c, o)) && Returned(c, o).live == c.live - {o}
  {
    hide SlabOk, IsObject, ListsOk, Relisted;
    LiveObject(c, o);
    var p := PageOf(o);
    var h := c.headers[p];
    var d := c.(headers := c.headers[p := Header(h.inuse - 1, o)], links := c.links[o := h.freelist],
                chains := c.chains[p := [o] + c.chains[p]], live := c.live - {o}, active := c.active - 1);
    ReturnedSlabOk(c, p, o, d);
    forall q | q in d.headers ensures SlabOk(d, q) {
      if q != p { OtherSlabOk(c, d, p, q, o); }
    }
    forall x | x in d.live ensures PageOf(x) in d.headers && IsObject(d, PageOf(x), x) {
      SameObjects(c, d, PageOf(x), x);
    }
    InuseBounded(c, p);
    if h.inuse - 1 == 0 || h.inuse == c.num {
      RelistedOk(c, d, p);
      SlabsUnlisted(d, Returned(c, o));
    } else {
      StillListed(c, d, p);
    }
  }

  lemma SlabAligned(c: Cache, p: nat)
    requires p in c.headers && p in c.chains && SlabOk(c, p)
    ensures p > 0 && p % PAGE_SIZE == 0
  {
  }

  lemma InuseBounded(c: Cache, p: nat)
    requires p in c.headers && p in c.chains && SlabOk(c, p)
    ensures c.headers[p].inuse <= c.num
  {
  }

  // ----- a new slab -----

  /** The cache with page `p` added as an all-free slab whose words are `links`. */
  function Grown(c: Cache, p: nat, links: map<nat, nat>): Cache {
    c.(headers := c.headers[p := Header(0, ObjectAt(c, p, 0))], links := links, free := [p] + c.free,
       chains := c.chains[p := seq(c.num, i requires 0 <= i < c.num => ObjectAt(c, p, i))])
  }

  /** Object `i` points at the next one, the last at nothing. */
  predicate LinkedAt(c: Cache, p: nat, links: map<nat, nat>, i: nat) {
    && ObjectAt(c, p, i) in links
    && links[ObjectAt(c, p, i)] == if i + 1 < c.num then ObjectAt(c, p, i + 1) else 0
  }

  /** The words alloc_slab has written after `n` objects; all others are as before. */
  ghost predicate ThreadedTo(c: Cache, p: nat, links: map<nat, nat>, links': map<nat, nat>, n: nat) {
    && (forall x :: x in links ==> x in links')
    && (forall x :: x in links && !IsObject(c, p, x) ==> links'[x] == links[x])
    && (forall i: nat :: i < n ==> LinkedAt(c, p, links', i))
  }

  ghost predicate Threaded(c: Cache, p: nat, links: map<nat, nat>, links': map<nat, nat>) {
    ThreadedTo(c, p, links, links', c.num)
  }

  lemma ThreadStart(c: Cache, p: nat)
    ensures ThreadedTo(c, p, c.links, c.links, 0) && ObjectAt(c, p, 0) == p + HEADER
  {
  }

  lemma ThreadStep(c: Cache, p: nat, links: map<nat, nat>, links': map<nat, nat>, n: nat)
    requires c.size > 0 && n < c.num && ThreadedTo(c, p, links, links', n)
    ensures var word := if n + 1 < c.num then ObjectAt(c, p, n + 1) else 0;
      ThreadedTo(c, p, links, links'[ObjectAt(c, p, n) := word], n + 1)
    ensures ObjectAt(c, p, n + 1) == ObjectAt(c, p, n) + c.size
  {
    assert (n + 1) * c.size == n * c.size + c.size;
    hide ObjectAt;
    assert IsObject(c, p, ObjectAt(c, p, n));
    var word := if n + 1 < c.num then ObjectAt(c, p, n + 1) else 0;
    var now := links'[ObjectAt(c, p, n) := word];
    forall i: nat | i < n + 1 ensures LinkedAt(c, p, now, i) {
      if i < n {
        assert LinkedAt(c, p, links', i);
        if ObjectAt(c, p, i) == ObjectAt(c, p, n) { ObjectsDistinct(c, p, i, n); }
      }
    }
  }

  /** The objects of page `p` from number `i` on. */
  function ObjectsFrom(c: Cache, p: nat, i: nat): (s: seq<nat>)
    requires i <= c.num
    ensures |s| == c.num - i && forall j :: 0 <= j < |s| ==> s[j] == ObjectAt(c, p, i + j)
    decreases c.num - i
  {
    if i == c.num then [] else [ObjectAt(c, p, i)] + ObjectsFrom(c, p, i + 1)
  }

  lemma ObjectNotNull(c: Cache, p: nat, i: nat)
    requires p > 0
    ensures ObjectAt(c, p, i) > 0
  {
  }

  lemma ObjectsTail(c: Cache, p: nat, i: nat)
    requires i < c.num
    ensures ObjectsFrom(c, p, i) == [ObjectAt(c, p, i)] + ObjectsFrom(c, p, i + 1)
    ensures ObjectsFrom(c, p, i)[1..] == ObjectsFrom(c, p, i + 1)
  {
    hide ObjectAt;
  }

  lemma {:induction false} ThreadIsChain(c: Cache, p: nat, links: map<nat, nat>, links': map<nat, nat>, i: nat)
    requires p > 0 && i < c.num && Threaded(c, p, links, links')
    ensures IsChain(links', ObjectAt(c, p, i), ObjectsFrom(c, p, i))
    decreases c.num - i
  {
    hide ObjectAt, ObjectsFrom, IsObject;
    ObjectNotNull(c, p, i);
    assert LinkedAt(c, p, links', i);
    ObjectsTail(c, p, i);
    if i + 1 == c.num {
      assert ObjectsFrom(c, p, i)[1..] == [];
    } else {
      ThreadIsChain(c, p, links, links', i + 1);
    }
  }

  lemma NewSlabOk(c: Cache, p: nat, links': map<nat, nat>)
    requires CacheOk(c) && p > 0 && p % PAGE_SIZE == 0 && p !in c.headers && Threaded(c, p, c.links, links')
    ensures SlabOk(Grown(c, p, links'), p)
  {
    var d := Grown(c, p, links');
    ThreadIsChain(c, p, c.links, links', 0);
    var chain := d.chains[p];
    assert chain == ObjectsFrom(c, p, 0);
    forall i, j | 0 <= i < j < c.num ensures chain[i] != chain[j] {
      if chain[i] == chain[j] { ObjectsDistinct(c, p, i, j); }
    }
    forall o ensures IsObject(d, p, o) <==> IsObject(c, p, o) { SameObjects(c, d, p, o); }
    forall o | IsObject(c, p, o) ensures o in chain && o !in c.live {
      MaskRecoversSlab(c, p, o);
      var i: nat :| i < c.num && o == ObjectAt(c, p, i);
      assert chain[i] == o;
    }
  }

  /** Adding a fresh page keeps the invariant and the live objects. */
  lemma GrownOk(c: Cache, p: nat, links': map<nat, nat>)
    requires CacheOk(c) && p > 0 && p % PAGE_SIZE == 0 && p !in c.headers && Threaded(c, p, c.links, links')
    ensures CacheOk(Grown(c, p, links')) && Grown(c, p, links').live == c.live
  {
    hide SlabOk, IsObject, Threaded;
    var d := Grown(c, p, links');
    NewSlabOk(c, p, links');
    forall q | q in c.headers ensures SlabOk(d, q) { OldSlabOk(c, p, links', q); }
    forall x | x in d.live ensures PageOf(x) in d.headers && IsObject(d, PageOf(x), x) {
      SameObjects(c, d, PageOf(x), x);
    }
    DistinctCons(p, c.free);
  }

  lemma OldSlabOk(c: Cache, p: nat, links': map<nat, nat>, q: nat)
    requires CacheOk(c) && p % PAGE_SIZE == 0 && p !in c.headers && Threaded(c, p, c.links, links') && q in c.headers
    ensures SlabOk(Grown(c, p, links'), q)
  {
    hide ListsOk;
    var d := Grown(c, p, links');
    forall x | IsObject(c, q, x) ensures !IsObject(c, p, x) {
      MaskRecoversSlab(c, q, x);
      if IsObject(c, p, x) { MaskRecoversSlab(c, p, x); }
    }
    ChainFrame(c.links, links', c.headers[q].freelist, c.chains[q]);
    forall x ensures IsObject(d, q, x) <==> IsObject(c, q, x) { SameObjects(c, d, q, x); }
  }

  // ----- the active counter -----

  function SumInuse(c: Cache, pages: seq<nat>): nat
    requires forall p :: p in pages ==> p in c.headers
    decreases |pages|
  {
    if pages == [] then 0 else c.headers[pages[0]].inuse + SumInuse(c, pages[1..])
  }

  /** The live objects of some pages. */
  ghost function LiveIn(c: Cache, pages: seq<nat>): set<nat> {
    set o | o in c.live && PageOf(o) in pages
  }

  lemma {:induction false} SumCountsLive(c: Cache, pages: seq<nat>)
    requires CacheOk(c) && Distinct(pages) && forall p :: p in pages ==> p in c.headers
    ensures SumInuse(c, pages) == |LiveIn(c, pages)|
    decreases |pages|
  {
    hide SlabOk, ListsOk, Distinct;
    if pages == [] {
      assert LiveIn(c, pages) == {};
    } else {
      var p := pages[0];
      assert pages == [p] + pages[1..];
      DistinctCons(p, pages[1..]);
      SumCountsLive(c, pages[1..]);
      InuseCountsLive(c, p);
      SlabAligned(c, p);
      var mine, rest := c.live * Objects(c, p, c.num), LiveIn(c, pages[1..]);
      forall o | o in c.live ensures PageOf(o) == p <==> o in Objects(c, p, c.num) {
        if o in Objects(c, p, c.num) {
          assert IsObject(c, p, o);
          MaskRecoversSlab(c, p, o);
        }
      }
      assert LiveIn(c, pages) == mine + rest && mine !! rest;
    }
  }

  lemma DistinctConcat(a: seq<nat>, b: seq<nat>)
    requires Distinct(a) && Distinct(b) && forall x :: x in a ==> x !in b
    ensures Distinct(a + b)
  {
    var s := a + b;
    forall i, j | 0 <= i < j < |s| ensures s[i] != s[j] {
      if i < |a| <= j { assert a[i] in a && b[j - |a|] in b; }
    }
  }

  /** stats.active is the sum of inuse over all slabs, and the number of live objects. */
  lemma ActiveIsSum(c: Cache)
    requires CacheOk(c)
    ensures c.active == |c.live|
    ensures (forall p :: p in c.full + c.partial + c.free <==> p in c.headers)
    ensures c.active == SumInuse(c, c.full + c.partial + c.free)
    ensures Distinct(c.full + c.partial + c.free)
  {
    var pages := c.full + c.partial + c.free;
    forall p ensures p in pages <==> p in c.headers {
      if p in c.headers { InuseBounded(c, p); }
    }
    DistinctConcat(c.full, c.partial);
    DistinctConcat(c.full + c.partial, c.free);
    SumCountsLive(c, pages);
    assert LiveIn(c, pages) == c.live;
  }

  // ----- free objects -----

  /** The free objects of all slabs: what they hold less what is live. */
  function Spare(c: Cache): int { c.num * |c.headers.Keys| - c.active }

  /** The sum of num - inuse over `pages`. */
  function SumSpare(c: Cache, pages: seq<nat>): int
    requires forall p :: p in pages ==> p in c.headers
    decreases |pages|
  {
    if pages == [] then 0 else c.num - c.headers[pages[0]].inuse + SumSpare(c, pages[1..])
  }

  lemma {:induction false} SpareAndInuse(c: Cache, pages: seq<nat>)
    requires forall p :: p in pages ==> p in c.headers && c.headers[p].inuse <= c.num
    ensures SumSpare(c, pages) + SumInuse(c, pages) == c.num * |pages|
    ensures SumSpare(c, pages) >= 0
    ensures SumSpare(c, pages) == 0 <==> forall p :: p in pages ==> c.headers[p].inuse == c.num
    decreases |pages|
  {
    if pages == [] {
    } else {
      SpareAndInuse(c, pages[1..]);
      assert pages == [pages[0]] + pages[1..];
      OneMore(c.num, |pages[1..]|);
    }
  }

  /** They are the sum of num - inuse, and there are none exactly when no slab is partial or free. */
  lemma SpareIsSum(c: Cache)
    requires CacheOk(c)
    ensures forall p :: p in c.full + c.partial + c.free ==> p in c.headers
    ensures Spare(c) == SumSpare(c, c.full + c.partial + c.free) >= 0
    ensures Spare(c) == 0 <==> c.partial == [] && c.free == []
  {
    hide SlabOk, IsObject;
    ActiveIsSum(c);
    var pages := c.full + c.partial + c.free;
    forall p | p in c.headers ensures c.headers[p].inuse <= c.num { InuseBounded(c, p); }
    SpareAndInuse(c, pages);
    DistinctCount(pages);
    assert Elements(pages) == c.headers.Keys;
    if c.partial != [] { assert c.partial[0] in pages && c.headers[c.partial[0]].inuse < c.num; }
    if c.free != [] { assert c.free[0] in pages && c.headers[c.free[0]].inuse < c.num; }
  }

  lemma KeyCount(keys: set<nat>, p: nat)
    ensures |keys + {p}| == |keys| + if p in keys then 0 else 1
  {
    if p in keys { assert keys + {p} == keys; }
  }

  lemma SpareGap(num: nat, n: nat, m: nat)
    requires m == n || m == n + 1
    ensures num * m == num * n + if m == n then 0 else num
  {
    OneMore(num, n);
  }

  /** Taking, returning and growing move that number by one and by num. */
  lemma SpareMoves(c: Cache, d: Cache, p: nat)
    requires d.num == c.num
    requires d.headers.Keys == c.headers.Keys + {p}
    ensures Spare(d) - Spare(c) == c.active - d.active + if p in c.headers then 0 else c.num
  {
    KeyCount(c.headers.Keys, p);
    SpareGap(c.num, |c.headers.Keys|, |d.headers.Keys|);
  }
}
