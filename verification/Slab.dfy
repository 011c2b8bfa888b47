/** The kernel heap as the slab allocator and kmalloc see it: pages taken at an
    advancing cursor, slabs that keep their free list inside their own page, and
    large blocks of whole pages. Addresses are numbers; 0 is the null pointer. */
module Slab {
  import opened Common

  const SLAB_HEADER: nat := 40
  const SLAB_MAGIC: nat := 0x51AB_51AB_51AB_51AB
  const NUM_CLASSES: nat := 6

  datatype Header = Header(freeHead: nat, next: nat, prev: nat, index: nat, freeChunks: nat)
  datatype SizeClass = SizeClass(numSlabs: nat, firstSlab: nat)

  function SizeOf(c: nat): nat
    requires c < NUM_CLASSES
  {
    if c == 0 then 32 else if c == 1 then 64 else if c == 2 then 128
    else if c == 3 then 256 else if c == 4 then 512 else 1024
  }

  /** Chunks in a slab of each class. */
  function Chunks(c: nat): (n: nat)
    requires c < NUM_CLASSES
  {
    if c == 0 then 126 else if c == 1 then 63 else if c == 2 then 31
    else if c == 3 then 15 else if c == 4 then 7 else 3
  }

  /** The source computes the count as what fits behind the header, in one byte;
      no further chunk would fit. */
  lemma ChunksFit(c: nat)
    requires c < NUM_CLASSES
    ensures Chunks(c) == (PAGE_SIZE - SLAB_HEADER) / SizeOf(c) % 256
    ensures 0 < Chunks(c) && SLAB_HEADER + Chunks(c) * SizeOf(c) <= PAGE_SIZE
    ensures PAGE_SIZE < SLAB_HEADER + (Chunks(c) + 1) * SizeOf(c)
  {
  }

  function ChunkAt(p: nat, c: nat, k: nat): nat
    requires c < NUM_CLASSES
  {
    p + SLAB_HEADER + k * SizeOf(c)
  }

  /** Chunks lie inside their page, after the header, and do not overlap. */
  lemma ChunkBounds(p: nat, c: nat, k: nat)
    requires c < NUM_CLASSES && k < Chunks(c)
    ensures p + SLAB_HEADER <= ChunkAt(p, c, k) && ChunkAt(p, c, k) + SizeOf(c) <= p + PAGE_SIZE
  {
    ChunksFit(c);
    Ordered(k + 1, Chunks(c), SizeOf(c));
  }

  lemma ChunksApart(p: nat, c: nat, j: nat, k: nat)
    requires c < NUM_CLASSES && j < k
    ensures ChunkAt(p, c, j) + SizeOf(c) <= ChunkAt(p, c, k)
  {
    Ordered(j + 1, k, SizeOf(c));
  }

  /** `first` is the first word of every mapped heap page: a slab's magic or a
      large block's page count. `links` holds the first word of each chunk.
      `order` lists each class's slabs from the newest, `free` each slab's free
      chunks in list order, `large` each large block's page count. */
  datatype Heap = Heap(
    first: map<nat, nat>, cursor: nat, headers: map<nat, Header>, links: map<nat, nat>, classes: seq<SizeClass>,
    order: seq<seq<nat>>, free: map<nat, seq<nat>>, large: map<nat, nat>)

  function At(list: seq<nat>, i: int): nat { if 0 <= i < |list| then list[i] else 0 }

  function ChunkOrNull(p: nat, c: nat, list: seq<nat>, i: nat): nat
    requires c < NUM_CLASSES
  {
    if i < |list| then ChunkAt(p, c, list[i]) else 0
  }

  /** Starting at `head`, the links run through the chunks of `list` to null. */
  ghost predicate FreeList(links: map<nat, nat>, p: nat, c: nat, head: nat, list: seq<nat>)
    requires c < NUM_CLASSES
  {
    && Distinct(list)
    && head == ChunkOrNull(p, c, list, 0)
    && forall i: nat | i < |list| ::
         list[i] < Chunks(c) && ChunkAt(p, c, list[i]) in links
         && links[ChunkAt(p, c, list[i])] == ChunkOrNull(p, c, list, i + 1)
  }

  ghost predicate SlabOk(h: Heap, p: nat)
    requires p in h.headers
  {
    var s := h.headers[p];
    && s.index < NUM_CLASSES && p in h.first && h.first[p] == SLAB_MAGIC
    && p in h.free && FreeList(h.links, p, s.index, s.freeHead, h.free[p])
    && s.freeChunks == |h.free[p]|
    && |h.order| == NUM_CLASSES && p in h.order[s.index]
  }

  ghost predicate Linked(headers: map<nat, Header>, list: seq<nat>, c: nat)
  {
    && Distinct(list)
    && forall i: nat | i < |list| ::
         list[i] in headers && headers[list[i]].index == c
         && headers[list[i]].next == At(list, i + 1) && headers[list[i]].prev == At(list, i - 1)
  }

  /** Between calls a class with several slabs has no fully free one; `spare` is
      the slab that is exempt inside a call. */
  ghost predicate ClassOk(h: Heap, c: nat, spare: nat)
    requires c < NUM_CLASSES && |h.classes| == |h.order| == NUM_CLASSES
  {
    var list := h.order[c];
    && Linked(h.headers, list, c)
    && h.classes[c] == SizeClass(|list|, At(list, 0))
    && (|list| > 1 ==> forall p | p in list && p != spare :: p in h.free && |h.free[p]| < Chunks(c))
  }

  ghost predicate Covers(b: nat, n: nat, p: nat) { p % PAGE_SIZE == 0 && b <= p < b + n * PAGE_SIZE }

  ghost predicate InLarge(h: Heap, b: nat, p: nat) { b in h.large && Covers(b, h.large[b], p) }

  /** Mapped pages are aligned, below the cursor, and each belongs to exactly one
      slab or large block. */
  ghost predicate PagesOk(h: Heap)
  {
    && h.cursor % PAGE_SIZE == 0
    && (forall p | p in h.first :: p % PAGE_SIZE == 0 && 0 < p < h.cursor)
    && (forall p | p in h.first && p !in h.headers :: exists b :: InLarge(h, b, p))
    && (forall p | p in h.headers :: p in h.first)
    && (forall b, p | InLarge(h, b, p) :: p in h.first && p !in h.headers)
    && (forall b, b', p | InLarge(h, b, p) && InLarge(h, b', p) :: b == b')
    && (forall b | b in h.large :: InLarge(h, b, b) && h.first[b] == h.large[b] < SLAB_MAGIC)
    && (forall b | b in h.large :: b + h.large[b] * PAGE_SIZE <= h.cursor)
  }

  ghost predicate Valid(h: Heap, spare: nat)
  {
    && 0 < h.cursor && |h.classes| == |h.order| == NUM_CLASSES
    && PagesOk(h)
    && (forall p | p in h.headers :: SlabOk(h, p))
    && (forall c | 0 <= c < NUM_CLASSES :: ClassOk(h, c, spare))
  }

  // ---------- Blocks in use ----------

  ghost predicate LiveChunk(h: Heap, p: nat, k: nat)
  {
    && p in h.headers && h.headers[p].index < NUM_CLASSES && p in h.free
    && k < Chunks(h.headers[p].index) && k !in h.free[p]
  }

  ghost predicate ChunkBlock(h: Heap, p: nat, k: nat, a: nat, n: nat)
  {
    LiveChunk(h, p, k) && a == ChunkAt(p, h.headers[p].index, k) && n == SizeOf(h.headers[p].index)
  }

  ghost predicate LargeBlock(h: Heap, a: nat, n: nat)
  {
    a >= SIZE_HEADER && a - SIZE_HEADER in h.large && n + SIZE_HEADER == h.large[a - SIZE_HEADER] * PAGE_SIZE
  }

  /** `n` bytes from `a` on belong to whoever was given `a`. */
  ghost predicate Block(h: Heap, a: nat, n: nat)
  {
    (exists p, k :: ChunkBlock(h, p, k, a, n)) || LargeBlock(h, a, n)
  }

  function PageOf(a: nat): (p: nat)
    ensures p % PAGE_SIZE == 0 && p <= a < p + PAGE_SIZE
  {
    a - a % PAGE_SIZE
  }

  lemma SamePage(p: nat, a: nat)
    requires p % PAGE_SIZE == 0 && p <= a < p + PAGE_SIZE
    ensures PageOf(a) == p
  {
  }

  /** A live chunk's address leads back to its slab. */
  lemma ChunkDecodes(h: Heap, p: nat, k: nat, a: nat, n: nat)
    requires PagesOk(h) && ChunkBlock(h, p, k, a, n)
    ensures PageOf(a) == p && p + SLAB_HEADER <= a && a + n <= p + PAGE_SIZE
  {
    ChunkBounds(p, h.headers[p].index, k);
    SamePage(p, a);
  }

  lemma PagesApart(p: nat, q: nat)
    requires p % PAGE_SIZE == q % PAGE_SIZE == 0 && p < q
    ensures p + PAGE_SIZE <= q
  {
  }

  ghost predicate Apart(a: nat, n: nat, b: nat, m: nat) { a + n <= b || b + m <= a }

  lemma ChunksDisjoint(h: Heap, p: nat, k: nat, a: nat, n: nat, q: nat, j: nat, b: nat, m: nat)
    requires PagesOk(h) && ChunkBlock(h, p, k, a, n) && ChunkBlock(h, q, j, b, m)
    ensures if a == b then n == m else Apart(a, n, b, m)
  {
    ChunkBounds(p, h.headers[p].index, k);
    ChunkBounds(q, h.headers[q].index, j);
    if p < q {
      PagesApart(p, q);
    } else if q < p {
      PagesApart(q, p);
    } else if j < k {
      ChunksApart(p, h.headers[p].index, j, k);
    } else if k < j {
      ChunksApart(p, h.headers[p].index, k, j);
    }
  }

  lemma SlabOutsideLarge(h: Heap, p: nat, b: nat)
    requires PagesOk(h) && p in h.headers && b in h.large
    ensures Apart(p, PAGE_SIZE, b, h.large[b] * PAGE_SIZE)
  {
    assert !InLarge(h, b, p);
    assert InLarge(h, b, b);
    if p < b {
      PagesApart(p, b);
    }
  }

  lemma LargeApart(h: Heap, b: nat, d: nat)
    requires PagesOk(h) && b in h.large && d in h.large && b != d
    ensures Apart(b, h.large[b] * PAGE_SIZE, d, h.large[d] * PAGE_SIZE)
  {
    assert InLarge(h, b, b) && InLarge(h, d, d);
    assert !InLarge(h, b, d) && !InLarge(h, d, b);
  }

  lemma ChunkVersusLarge(h: Heap, p: nat, k: nat, a: nat, n: nat, b: nat, m: nat)
    requires PagesOk(h) && ChunkBlock(h, p, k, a, n) && LargeBlock(h, b, m)
    ensures a != b && Apart(a, n, b, m)
  {
    ChunkBounds(p, h.headers[p].index, k);
    SlabOutsideLarge(h, p, b - SIZE_HEADER);
    assert InLarge(h, b - SIZE_HEADER, b - SIZE_HEADER);
  }

  lemma LargeDisjoint(h: Heap, a: nat, n: nat, b: nat, m: nat)
    requires PagesOk(h) && LargeBlock(h, a, n) && LargeBlock(h, b, m)
    ensures if a == b then n == m else Apart(a, n, b, m)
  {
    if a != b {
      LargeApart(h, a - SIZE_HEADER, b - SIZE_HEADER);
    }
  }

  /** Blocks in use are pairwise disjoint. */
  lemma BlocksDisjoint(h: Heap, a: nat, n: nat, b: nat, m: nat)
    requires Valid(h, 0) && Block(h, a, n) && Block(h, b, m)
    ensures if a == b then n == m else Apart(a, n, b, m)
  {
    if p, k :| ChunkBlock(h, p, k, a, n) {
      if q, j :| ChunkBlock(h, q, j, b, m) {
        ChunksDisjoint(h, p, k, a, n, q, j, b, m);
      } else {
        ChunkVersusLarge(h, p, k, a, n, b, m);
      }
    } else if q, j :| ChunkBlock(h, q, j, b, m) {
      ChunkVersusLarge(h, q, j, b, m, a, n);
    } else {
      LargeDisjoint(h, a, n, b, m);
    }
  }

  lemma ChunkAvoidsHeaders(h: Heap, q: nat, k: nat, a: nat, n: nat, p: nat)
    requires PagesOk(h) && ChunkBlock(h, q, k, a, n)
    ensures p in h.headers ==> Apart(a, n, p, SLAB_HEADER)
    ensures p in h.large ==> Apart(a, n, p, SIZE_HEADER)
  {
    ChunkBounds(q, h.headers[q].index, k);
    if p in h.headers {
      if p < q {
        PagesApart(p, q);
      } else if q < p {
        PagesApart(q, p);
      }
    }
    if p in h.large {
      SlabOutsideLarge(h, q, p);
      assert InLarge(h, p, p);
    }
  }

  lemma LargeAvoidsHeaders(h: Heap, a: nat, n: nat, p: nat)
    requires PagesOk(h) && LargeBlock(h, a, n)
    ensures p in h.headers ==> Apart(a, n, p, SLAB_HEADER)
    ensures p in h.large ==> Apart(a, n, p, SIZE_HEADER)
  {
    if p in h.headers {
      SlabOutsideLarge(h, p, a - SIZE_HEADER);
    }
    if p in h.large && p != a - SIZE_HEADER {
      LargeApart(h, p, a - SIZE_HEADER);
      assert InLarge(h, p, p);
    }
  }

  /** No block reaches into a slab's header or a large block's size word. */
  lemma BlocksAvoidHeaders(h: Heap, a: nat, n: nat, p: nat)
    requires Valid(h, 0) && Block(h, a, n)
    ensures p in h.headers ==> Apart(a, n, p, SLAB_HEADER)
    ensures p in h.large ==> Apart(a, n, p, SIZE_HEADER)
  {
    if q, k :| ChunkBlock(h, q, k, a, n) {
      ChunkAvoidsHeaders(h, q, k, a, n, p);
    } else {
      LargeAvoidsHeaders(h, a, n, p);
    }
  }
}
