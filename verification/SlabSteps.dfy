/** The slab allocator's updates one at a time, and what each keeps. */
module SlabSteps {
  import opened Common
  import opened Slab

  // ---------- Counting ----------

  function Below(n: nat): (r: set<nat>)
    ensures |r| == n && forall k: nat :: k in r <==> k < n
  {
    if n == 0 then {} else Below(n - 1) + {n - 1}
  }

  function Elements(s: seq<nat>): set<nat> { set x | x in s }

  function LiveChunks(h: Heap, p: nat, c: nat): set<nat>
    requires p in h.free && c < NUM_CLASSES
  {
    Below(Chunks(c)) - Elements(h.free[p])
  }

  lemma {:induction false} SizeOfDistinct(s: seq<nat>)
    requires Distinct(s)
    ensures |Elements(s)| == |s|
  {
    if s != [] {
      var rest := s[1..];
      SizeOfDistinct(rest);
      assert s == [s[0]] + rest;
      assert Elements(s) == Elements(rest) + {s[0]};
      assert s[0] !in rest;
    }
  }

  /** In one slab, live and free chunks make up the whole slab. */
  lemma SlabConserves(h: Heap, p: nat)
    requires p in h.headers && SlabOk(h, p)
    ensures |LiveChunks(h, p, h.headers[p].index)| + h.headers[p].freeChunks == Chunks(h.headers[p].index)
  {
    var n, free := Chunks(h.headers[p].index), h.free[p];
    SizeOfDistinct(free);
    forall k | k in free ensures k in Below(n) {
      var i: nat :| i < |free| && free[i] == k;
    }
    assert Elements(free) <= Below(n);
  }

  /** `list` are slabs of class `c`. */
  ghost predicate SlabsOf(h: Heap, c: nat, list: seq<nat>)
  {
    forall p | p in list :: p in h.headers && p in h.free && h.headers[p].index == c && SlabOk(h, p)
  }

  function TotalLive(h: Heap, c: nat, list: seq<nat>): nat
    requires c < NUM_CLASSES && forall p | p in list :: p in h.free
  {
    if list == [] then 0 else |LiveChunks(h, list[0], c)| + TotalLive(h, c, list[1..])
  }

  function TotalFree(h: Heap, list: seq<nat>): nat
    requires forall p | p in list :: p in h.headers
  {
    if list == [] then 0 else h.headers[list[0]].freeChunks + TotalFree(h, list[1..])
  }

  lemma {:induction false} ListConserves(h: Heap, c: nat, list: seq<nat>)
    requires c < NUM_CLASSES && SlabsOf(h, c, list)
    ensures TotalLive(h, c, list) + TotalFree(h, list) == |list| * Chunks(c)
  {
    if list != [] {
      SlabConserves(h, list[0]);
      assert forall q | q in list[1..] :: q in list;
      ListConserves(h, c, list[1..]);
      OneMore(|list| - 1, Chunks(c));
    }
  }

  lemma OneMore(a: nat, n: nat)
    ensures (a + 1) * n == a * n + n
  {
  }

  /** Live and free chunks of a class add up to its slabs' capacity. */
  lemma ClassConserves(h: Heap, c: nat)
    requires Valid(h, 0) && c < NUM_CLASSES
    ensures SlabsOf(h, c, h.order[c])
    ensures TotalLive(h, c, h.order[c]) + TotalFree(h, h.order[c]) == h.classes[c].numSlabs * Chunks(c)
  {
    ListMembers(h, c, 0);
    ListConserves(h, c, h.order[c]);
    assert ClassOk(h, c, 0);
  }

  lemma ListMembers(h: Heap, c: nat, spare: nat)
    requires Valid(h, spare) && c < NUM_CLASSES
    ensures SlabsOf(h, c, h.order[c])
  {
    assert ClassOk(h, c, spare);
  }

  lemma {:induction false} LiveBound(h: Heap, c: nat, list: seq<nat>)
    requires c < NUM_CLASSES && SlabsOf(h, c, list)
    requires forall p | p in list :: p in h.free && |h.free[p]| < Chunks(c)
    ensures |list| <= TotalLive(h, c, list)
  {
    if list != [] {
      SlabConserves(h, list[0]);
      assert forall q | q in list[1..] :: q in list;
      LiveBound(h, c, list[1..]);
    }
  }

  /** A class never holds more pages than live chunks, but for one spare slab. */
  lemma PagesBounded(h: Heap, c: nat)
    requires Valid(h, 0) && c < NUM_CLASSES
    ensures SlabsOf(h, c, h.order[c])
    ensures h.classes[c].numSlabs <= 1 || h.classes[c].numSlabs <= TotalLive(h, c, h.order[c])
  {
    ListMembers(h, c, 0);
    assert ClassOk(h, c, 0);
    if |h.order[c]| > 1 {
      forall p | p in h.order[c] ensures |h.free[p]| < Chunks(c) {
        assert p in h.headers && p in h.first && p > 0;
      }
      LiveBound(h, c, h.order[c]);
    }
  }

  // ---------- One chunk ----------

  /** A free list only looks at words of its own page. */
  lemma FreeListFrame(links: map<nat, nat>, links': map<nat, nat>, p: nat, c: nat, head: nat, list: seq<nat>)
    requires c < NUM_CLASSES && FreeList(links, p, c, head, list)
    requires forall a | a in links && p <= a < p + PAGE_SIZE :: a in links' && links'[a] == links[a]
    ensures FreeList(links', p, c, head, list)
  {
    forall i: nat | i < |list| ensures ChunkAt(p, c, list[i]) in links'
        && links'[ChunkAt(p, c, list[i])] == ChunkOrNull(p, c, list, i + 1)
    {
      ChunkBounds(p, c, list[i]);
    }
  }

  /** Taking the first free chunk of slab `p`. */
  function Take(h: Heap, p: nat): Heap
    requires p in h.headers && p in h.free && h.free[p] != []
    requires h.headers[p].freeHead in h.links && h.headers[p].freeChunks > 0
  {
    var s := h.headers[p];
    h.(headers := h.headers[p := s.(freeHead := h.links[s.freeHead], freeChunks := s.freeChunks - 1)],
       free := h.free[p := h.free[p][1..]])
  }

  lemma PopFree(links: map<nat, nat>, p: nat, c: nat, head: nat, list: seq<nat>)
    requires c < NUM_CLASSES && FreeList(links, p, c, head, list) && list != []
    ensures head == ChunkAt(p, c, list[0]) && head in links && list[0] !in list[1..]
    ensures FreeList(links, p, c, links[head], list[1..])
  {
    var rest := list[1..];
    assert links[ChunkAt(p, c, list[0])] == ChunkOrNull(p, c, list, 1);
    forall i: nat | i < |rest| ensures rest[i] < Chunks(c) && ChunkAt(p, c, rest[i]) in links
        && links[ChunkAt(p, c, rest[i])] == ChunkOrNull(p, c, rest, i + 1)
    {
      assert rest[i] == list[i + 1];
      assert links[ChunkAt(p, c, list[i + 1])] == ChunkOrNull(p, c, list, i + 2);
    }
  }

  lemma PushFree(links: map<nat, nat>, p: nat, c: nat, head: nat, list: seq<nat>, k: nat)
    requires c < NUM_CLASSES && FreeList(links, p, c, head, list) && k < Chunks(c) && k !in list
    ensures FreeList(links[ChunkAt(p, c, k) := head], p, c, ChunkAt(p, c, k), [k] + list)
  {
    var more, links' := [k] + list, links[ChunkAt(p, c, k) := head];
    forall i: nat | i < |more| ensures more[i] < Chunks(c) && ChunkAt(p, c, more[i]) in links'
        && links'[ChunkAt(p, c, more[i])] == ChunkOrNull(p, c, more, i + 1)
    {
      if i > 0 {
        assert more[i] == list[i - 1];
        assert list[i - 1] != k;
        if k < list[i - 1] {
          ChunksApart(p, c, k, list[i - 1]);
        } else {
          ChunksApart(p, c, list[i - 1], k);
        }
        assert links[ChunkAt(p, c, list[i - 1])] == ChunkOrNull(p, c, list, i);
      }
    }
  }

  /** A slab other than `p` is untouched by an update of `p` alone. */
  ghost predicate OnlySlab(h: Heap, h': Heap, p: nat)
  {
    && h'.first == h.first && h'.cursor == h.cursor && h'.order == h.order && h'.classes == h.classes
    && h'.large == h.large && p in h.headers && p in h'.headers && p in h'.free
    && h'.headers == h.headers[p := h'.headers[p]] && h'.free == h.free[p := h'.free[p]]
    && h'.headers[p].index == h.headers[p].index
    && h'.headers[p].next == h.headers[p].next && h'.headers[p].prev == h.headers[p].prev
    && (forall a | a in h.links && !(p <= a < p + PAGE_SIZE) :: a in h'.links && h'.links[a] == h.links[a])
  }

  lemma OnlySlabKeeps(h: Heap, h': Heap, p: nat, spare: nat)
    requires Valid(h, spare) && (spare == 0 || spare == p) && OnlySlab(h, h', p) && SlabOk(h', p)
    ensures Valid(h', p)
  {
    forall q | q in h'.headers ensures SlabOk(h', q) {
      if q != p {
        assert SlabOk(h, q);
        OtherSlabKept(h, h', p, q);
      }
    }
    forall c | 0 <= c < NUM_CLASSES ensures ClassOk(h', c, p) {
      assert ClassOk(h, c, spare);
      ListMembers(h, c, spare);
      assert 0 !in h.order[c];
      ClassKept(h, h', p, spare, c);
    }
    OnlySlabPages(h, h', p);
  }

  lemma OtherSlabKept(h: Heap, h': Heap, p: nat, q: nat)
    requires PagesOk(h) && OnlySlab(h, h', p) && q in h.headers && q != p && SlabOk(h, q)
    ensures q in h'.headers && SlabOk(h', q)
  {
    if p < q { PagesApart(p, q); } else { PagesApart(q, p); }
    FreeListFrame(h.links, h'.links, q, h.headers[q].index, h.headers[q].freeHead, h.free[q]);
  }

  lemma ClassKept(h: Heap, h': Heap, p: nat, spare: nat, c: nat)
    requires |h.classes| == |h.order| == NUM_CLASSES && c < NUM_CLASSES && (spare == 0 || spare == p)
    requires OnlySlab(h, h', p) && ClassOk(h, c, spare) && SlabsOf(h, c, h.order[c])
    requires 0 !in h.order[c]
    ensures ClassOk(h', c, p)
  {
  }

  lemma OnlySlabPages(h: Heap, h': Heap, p: nat)
    requires PagesOk(h) && OnlySlab(h, h', p)
    ensures PagesOk(h')
  {
    forall b, q ensures InLarge(h', b, q) == InLarge(h, b, q) {
    }
    forall q | q in h'.first && q !in h'.headers ensures exists b :: InLarge(h', b, q) {
      assert q !in h.headers;
      var b :| InLarge(h, b, q);
      assert InLarge(h', b, q);
    }
  }

  /** The exemption ends once the slab is not fully free, or is the only one. */
  lemma Settle(h: Heap, p: nat)
    requires Valid(h, p) && p in h.headers
    requires |h.free[p]| < Chunks(h.headers[p].index) || |h.order[h.headers[p].index]| == 1
    ensures Valid(h, 0)
  {
    forall c | 0 <= c < NUM_CLASSES ensures ClassOk(h, c, 0) {
      assert ClassOk(h, c, p);
      ListMembers(h, c, p);
    }
  }

  lemma TakeValid(h: Heap, p: nat, spare: nat)
    requires Valid(h, spare) && (spare == 0 || spare == p) && p in h.headers && h.headers[p].freeHead != 0
    ensures h.free[p] != [] && h.headers[p].freeHead in h.links && h.headers[p].freeChunks > 0
    ensures Valid(Take(h, p), 0)
    ensures var k, c := h.free[p][0], h.headers[p].index;
      h.headers[p].freeHead == ChunkAt(p, c, k) && LiveChunk(Take(h, p), p, k) && !LiveChunk(h, p, k)
    ensures forall q, j :: LiveChunk(Take(h, p), q, j) <==> LiveChunk(h, q, j) || (q == p && j == h.free[p][0])
  {
    assert SlabOk(h, p);
    var c, list := h.headers[p].index, h.free[p];
    PopFree(h.links, p, c, h.headers[p].freeHead, list);
    assert list == [list[0]] + list[1..];
    OnlySlabKeeps(h, Take(h, p), p, spare);
    FreeAtMost(h, p);
    Settle(Take(h, p), p);
  }

  lemma FreeAtMost(h: Heap, p: nat)
    requires p in h.headers && SlabOk(h, p)
    ensures |h.free[p]| <= Chunks(h.headers[p].index)
  {
    SlabConserves(h, p);
  }

  /** Putting chunk `k` back in front of slab `p`'s free list. */
  function Give(h: Heap, p: nat, k: nat): Heap
    requires p in h.headers && h.headers[p].index < NUM_CLASSES && p in h.free
  {
    var s := h.headers[p];
    var a := ChunkAt(p, s.index, k);
    h.(links := h.links[a := s.freeHead],
       headers := h.headers[p := s.(freeHead := a, freeChunks := s.freeChunks + 1)],
       free := h.free[p := [k] + h.free[p]])
  }

  lemma GiveValid(h: Heap, p: nat, k: nat)
    requires Valid(h, 0) && LiveChunk(h, p, k)
    ensures Valid(Give(h, p, k), p) && Give(h, p, k).headers[p].freeChunks < 256
    ensures forall q, j :: LiveChunk(Give(h, p, k), q, j) <==> LiveChunk(h, q, j) && !(q == p && j == k)
  {
    GiveOnlySlab(h, p, k);
    OnlySlabKeeps(h, Give(h, p, k), p, 0);
    FreeAtMost(Give(h, p, k), p);
    SmallCount(h.headers[p].index);
  }

  lemma GiveOnlySlab(h: Heap, p: nat, k: nat)
    requires Valid(h, 0) && LiveChunk(h, p, k)
    ensures OnlySlab(h, Give(h, p, k), p) && SlabOk(Give(h, p, k), p)
  {
    assert SlabOk(h, p);
    var c := h.headers[p].index;
    PushFree(h.links, p, c, h.headers[p].freeHead, h.free[p], k);
    ChunkBounds(p, c, k);
  }

  lemma SmallCount(c: nat)
    requires c < NUM_CLASSES
    ensures Chunks(c) <= 126
  {
  }

  /** A word that does not start a page is written. */
  function Store(h: Heap, addr: nat, v: nat): Heap { h.(links := h.links[addr := v]) }

  lemma StoreOnlySlab(h: Heap, p: nat, k: nat, addr: nat, v: nat)
    requires Valid(h, 0) && LiveChunk(h, p, k)
    requires var a, c := ChunkAt(p, h.headers[p].index, k), h.headers[p].index; a <= addr < a + SizeOf(c)
    ensures OnlySlab(h, Store(h, addr, v), p) && SlabOk(Store(h, addr, v), p)
  {
    assert SlabOk(h, p);
    var c := h.headers[p].index;
    ChunkBounds(p, c, k);
    StoreBeside(h.links, p, c, h.headers[p].freeHead, h.free[p], k, addr, v);
  }

  /** No word of a chunk that is not free is part of the free list. */
  lemma StoreBeside(links: map<nat, nat>, p: nat, c: nat, head: nat, list: seq<nat>, k: nat, addr: nat, v: nat)
    requires c < NUM_CLASSES && FreeList(links, p, c, head, list) && k !in list
    requires ChunkAt(p, c, k) <= addr < ChunkAt(p, c, k) + SizeOf(c)
    ensures FreeList(links[addr := v], p, c, head, list)
  {
    var links' := links[addr := v];
    forall i: nat | i < |list| ensures ChunkAt(p, c, list[i]) in links'
        && links'[ChunkAt(p, c, list[i])] == ChunkOrNull(p, c, list, i + 1)
    {
      assert list[i] != k;
      if k < list[i] {
        ChunksApart(p, c, k, list[i]);
      } else {
        ChunksApart(p, c, list[i], k);
      }
    }
  }

  /** Whatever a chunk's owner writes anywhere in it, the allocator is not
      disturbed. */
  lemma StoreValid(h: Heap, p: nat, k: nat, addr: nat, v: nat)
    requires Valid(h, 0) && LiveChunk(h, p, k)
    requires var a, c := ChunkAt(p, h.headers[p].index, k), h.headers[p].index; a <= addr < a + SizeOf(c)
    ensures Valid(Store(h, addr, v), 0)
  {
    StoreOnlySlab(h, p, k, addr, v);
    var h' := Store(h, addr, v);
    OnlySlabKeeps(h, h', p, 0);
    forall d | 0 <= d < NUM_CLASSES ensures ClassOk(h', d, 0) {
      assert ClassOk(h, d, 0);
    }
  }
}
