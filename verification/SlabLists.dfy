/** Slabs entering and leaving their class, and large blocks coming and going. */
module SlabLists {
  import opened Common
  import opened Slab
  import opened SlabSteps

  function Count(n: nat): (r: seq<nat>)
    ensures |r| == n && forall i: nat | i < n :: r[i] == i
  {
    if n == 0 then [] else Count(n - 1) + [n - 1]
  }

  /** The slab keeps its own state; only its neighbours may have changed. */
  ghost predicate SameSlab(h: Heap, h': Heap, q: nat)
  {
    && q in h.headers && q in h'.headers && q in h.free && q in h'.free && h'.free[q] == h.free[q]
    && q in h.first && q in h'.first && h'.first[q] == h.first[q]
    && h'.headers[q] == h.headers[q].(next := h'.headers[q].next, prev := h'.headers[q].prev)
    && (forall a | a in h.links && q <= a < q + PAGE_SIZE :: a in h'.links && h'.links[a] == h.links[a])
  }

  lemma SameSlabOk(h: Heap, h': Heap, q: nat)
    requires SameSlab(h, h', q) && SlabOk(h, q)
    requires |h'.order| == NUM_CLASSES && q in h'.order[h.headers[q].index]
    ensures SlabOk(h', q)
  {
    FreeListFrame(h.links, h'.links, q, h.headers[q].index, h.headers[q].freeHead, h.free[q]);
  }

  /** The links of a list of another class are not touched. */
  lemma SameClass(h: Heap, h': Heap, c: nat, spare: nat)
    requires |h.classes| == |h.order| == |h'.classes| == |h'.order| == NUM_CLASSES
    requires c < NUM_CLASSES && ClassOk(h, c, 0) && h'.order[c] == h.order[c] && h'.classes[c] == h.classes[c]
    requires forall q | q in h.order[c] :: q in h'.headers && h'.headers[q] == h.headers[q]
    requires forall q | q in h.order[c] && q in h.free :: q in h'.free && h'.free[q] == h.free[q]
    requires 0 !in h.order[c]
    ensures ClassOk(h', c, spare)
  {
  }

  // ---------- A new slab ----------

  function Pushed(headers: map<nat, Header>, list: seq<nat>, p: nat, s: Header): map<nat, Header>
    requires list != [] ==> list[0] in headers
  {
    (if list == [] then headers else headers[list[0] := headers[list[0]].(prev := p)])[p := s]
  }

  lemma PushedLinked(headers: map<nat, Header>, list: seq<nat>, p: nat, s: Header, c: nat)
    requires Linked(headers, list, c) && p !in headers
    requires s.index == c && s.next == At(list, 0) && s.prev == 0
    ensures Linked(Pushed(headers, list, p, s), [p] + list, c)
  {
    var more, headers' := [p] + list, Pushed(headers, list, p, s);
    forall i: nat | i < |more| ensures more[i] in headers' && headers'[more[i]].index == c
        && headers'[more[i]].next == At(more, i + 1) && headers'[more[i]].prev == At(more, i - 1)
    {
      if i > 0 {
        assert more[i] == list[i - 1];
        assert At(more, i + 1) == At(list, i);
        if i > 1 {
          assert list[i - 1] != list[0];
          assert At(more, i - 1) == At(list, i - 2);
        }
      }
    }
  }

  function NewHeader(c: nat, p: nat, next: nat): Header
    requires c < NUM_CLASSES
  {
    Header(ChunkAt(p, c, 0), next, 0, c, Chunks(c))
  }

  /** The page at the cursor becomes the newest slab of class `c`. */
  function WithSlab(h: Heap, c: nat, links: map<nat, nat>): Heap
    requires c < NUM_CLASSES && |h.classes| == |h.order| == NUM_CLASSES
    requires h.order[c] != [] ==> h.order[c][0] in h.headers
  {
    var p, list := h.cursor, h.order[c];
    h.(first := h.first[p := SLAB_MAGIC], cursor := p + PAGE_SIZE, links := links,
       headers := Pushed(h.headers, list, p, NewHeader(c, p, At(list, 0))),
       classes := h.classes[c := SizeClass(h.classes[c].numSlabs + 1, p)],
       order := h.order[c := [p] + list], free := h.free[p := Count(Chunks(c))])
  }

  /** `links` threads the new page's chunks and keeps every other word. */
  ghost predicate Threaded(h: Heap, c: nat, links: map<nat, nat>)
    requires c < NUM_CLASSES
  {
    && FreeList(links, h.cursor, c, ChunkAt(h.cursor, c, 0), Count(Chunks(c)))
    && forall a | a in h.links && a < h.cursor :: a in links && links[a] == h.links[a]
  }

  /** No slab of class `c` has a free chunk. */
  ghost predicate Full(h: Heap, c: nat)
    requires c < |h.order|
  {
    forall q | q in h.order[c] :: q in h.headers && q in h.free && h.free[q] == []
  }

  lemma {:induction false} NewSlabValid(h: Heap, c: nat, links: map<nat, nat>)
    requires Valid(h, 0) && c < NUM_CLASSES && Threaded(h, c, links) && Full(h, c)
    ensures Valid(WithSlab(h, c, links), h.cursor)
    ensures forall q, k :: LiveChunk(WithSlab(h, c, links), q, k) <==> LiveChunk(h, q, k)
  {
    NewSlabSlabs(h, c, links);
    NewSlabPages(h, c, links);
    forall d | 0 <= d < NUM_CLASSES ensures ClassOk(WithSlab(h, c, links), d, h.cursor) {
      NewSlabClass(h, c, links, d);
    }
  }

  lemma NewSlabSlabs(h: Heap, c: nat, links: map<nat, nat>)
    requires Valid(h, 0) && c < NUM_CLASSES && Threaded(h, c, links) && Full(h, c)
    ensures forall q | q in WithSlab(h, c, links).headers :: SlabOk(WithSlab(h, c, links), q)
    ensures forall q, k :: LiveChunk(WithSlab(h, c, links), q, k) <==> LiveChunk(h, q, k)
  {
    var h' := WithSlab(h, c, links);
    NewSlabOk(h, c, links);
    forall q | q in h'.headers && q != h.cursor ensures SameSlab(h, h', q) && SlabOk(h', q) {
      OldSlabOk(h, c, links, q);
    }
    NothingLive(h', h.cursor, c);
  }

  lemma NewSlabOk(h: Heap, c: nat, links: map<nat, nat>)
    requires Valid(h, 0) && c < NUM_CLASSES && Threaded(h, c, links) && Full(h, c)
    ensures h.cursor !in h.headers
    ensures h.cursor in WithSlab(h, c, links).headers && SlabOk(WithSlab(h, c, links), h.cursor)
  {
    assert WithSlab(h, c, links).order[c][0] == h.cursor;
  }

  lemma OldSlabOk(h: Heap, c: nat, links: map<nat, nat>, q: nat)
    requires Valid(h, 0) && c < NUM_CLASSES && Threaded(h, c, links) && Full(h, c)
    requires q in WithSlab(h, c, links).headers && q != h.cursor
    ensures SameSlab(h, WithSlab(h, c, links), q) && SlabOk(WithSlab(h, c, links), q)
  {
    var h' := WithSlab(h, c, links);
    assert SlabOk(h, q) && q < h.cursor;
    PagesApart(q, h.cursor);
    assert q in h'.order[h.headers[q].index];
    SameSlabOk(h, h', q);
  }

  lemma NothingLive(h: Heap, p: nat, c: nat)
    requires c < NUM_CLASSES && p in h.headers && h.headers[p].index == c && p in h.free
    requires h.free[p] == Count(Chunks(c))
    ensures forall k :: !LiveChunk(h, p, k)
  {
    forall k: nat | k < Chunks(c) ensures k in h.free[p] {
      assert Count(Chunks(c))[k] == k;
    }
  }

  lemma NewSlabClass(h: Heap, c: nat, links: map<nat, nat>, d: nat)
    requires Valid(h, 0) && c < NUM_CLASSES && Full(h, c) && d < NUM_CLASSES
    ensures ClassOk(WithSlab(h, c, links), d, h.cursor)
  {
    var h' := WithSlab(h, c, links);
    assert h.cursor !in h.headers;
    assert ClassOk(h, d, 0);
    ListMembers(h, d, 0);
    ListMembers(h, c, 0);
    if d == c {
      PushedLinked(h.headers, h.order[c], h.cursor, NewHeader(c, h.cursor, At(h.order[c], 0)), c);
    } else {
      assert 0 !in h.order[d];
      SameClass(h, h', d, h.cursor);
    }
  }

  lemma NewSlabPages(h: Heap, c: nat, links: map<nat, nat>)
    requires PagesOk(h) && 0 < h.cursor && c < NUM_CLASSES && |h.classes| == |h.order| == NUM_CLASSES
    requires h.order[c] != [] ==> h.order[c][0] in h.headers
    ensures PagesOk(WithSlab(h, c, links))
  {
    assert h.cursor !in h.first;
    NewSlabHeaders(h, c, links);
    PagesFrame(h, WithSlab(h, c, links));
  }

  lemma NewSlabHeaders(h: Heap, c: nat, links: map<nat, nat>)
    requires c < NUM_CLASSES && |h.classes| == |h.order| == NUM_CLASSES
    requires h.order[c] != [] ==> h.order[c][0] in h.headers
    ensures forall q :: q in WithSlab(h, c, links).headers <==> q in h.headers || q == h.cursor
  {
  }

  /** The pages of large blocks do not care about slabs. */
  lemma PagesFrame(h: Heap, h': Heap)
    requires PagesOk(h) && h'.large == h.large && h.cursor <= h'.cursor && h'.cursor % PAGE_SIZE == 0
    requires forall q :: q in h'.first && q !in h'.headers <==> q in h.first && q !in h.headers
    requires forall q | q in h'.first && q !in h'.headers :: h'.first[q] == h.first[q]
    requires forall q | q in h'.headers :: q in h'.first && q % PAGE_SIZE == 0 && 0 < q < h'.cursor
    ensures PagesOk(h')
  {
    forall b, q ensures InLarge(h', b, q) == InLarge(h, b, q) {
    }
    forall q | q in h'.first && q !in h'.headers ensures exists b :: InLarge(h', b, q) {
      var b :| InLarge(h, b, q);
      assert InLarge(h', b, q);
    }
  }

  // ---------- A slab leaves ----------

  function Unlinked(headers: map<nat, Header>, p: nat): map<nat, Header>
    requires p in headers
  {
    var s := headers[p];
    var h1 := if s.prev in headers then headers[s.prev := headers[s.prev].(next := s.next)] else headers;
    var h2 := if s.next in h1 then h1[s.next := h1[s.next].(prev := s.prev)] else h1;
    h2 - {p}
  }

  /** Taking out the slab at `i` joins its two neighbours. */
  lemma UnlinkedAt(headers: map<nat, Header>, list: seq<nat>, c: nat, i: nat, k: nat)
    requires Linked(headers, list, c) && i < |list| && k < |list| && k != i && 0 !in headers
    ensures var headers' := Unlinked(headers, list[i]);
      list[k] in headers' && headers'[list[k]] == headers[list[k]].(
        next := if k + 1 == i then At(list, i + 1) else At(list, k + 1),
        prev := if k == i + 1 then At(list, i - 1) else At(list, k - 1))
  {
    var s := headers[list[i]];
    assert list[k] != list[i];
    assert s.prev == At(list, i - 1) && s.next == At(list, i + 1);
    if i > 0 {
      assert s.prev == list[i - 1];
    }
    if i + 1 < |list| {
      assert s.next == list[i + 1];
    }
  }

  lemma ErasedAt(list: seq<nat>, i: nat, j: nat)
    requires i < |list| && j + 1 < |list|
    ensures var k := if j < i then j else j + 1;
      && Erased(list, i)[j] == list[k]
      && At(Erased(list, i), j + 1) == (if k + 1 == i then At(list, i + 1) else At(list, k + 1))
      && At(Erased(list, i), j - 1) == (if k == i + 1 then At(list, i - 1) else At(list, k - 1))
  {
  }

  lemma UnlinkedLinked(headers: map<nat, Header>, list: seq<nat>, c: nat, i: nat)
    requires Linked(headers, list, c) && i < |list| && 0 !in headers
    ensures Linked(Unlinked(headers, list[i]), Erased(list, i), c)
  {
    var fewer, headers' := Erased(list, i), Unlinked(headers, list[i]);
    ErasedDistinct(list, i);
    forall j: nat | j < |fewer| ensures fewer[j] in headers' && headers'[fewer[j]].index == c
        && headers'[fewer[j]].next == At(fewer, j + 1) && headers'[fewer[j]].prev == At(fewer, j - 1)
    {
      ErasedAt(list, i, j);
      UnlinkedAt(headers, list, c, i, if j < i then j else j + 1);
    }
  }

  function WithoutSlab(h: Heap, c: nat, i: nat): Heap
    requires c < NUM_CLASSES && |h.classes| == |h.order| == NUM_CLASSES && i < |h.order[c]|
    requires h.order[c][i] in h.headers && h.classes[c].numSlabs > 0
  {
    var p := h.order[c][i];
    var s := h.headers[p];
    h.(first := h.first - {p}, headers := Unlinked(h.headers, p),
       classes := h.classes[c := SizeClass(h.classes[c].numSlabs - 1, if s.prev == 0 then s.next else h.classes[c].firstSlab)],
       order := h.order[c := Erased(h.order[c], i)], free := h.free - {p})
  }

  /** Slab `i` of class `c` is fully free and not the only one. */
  ghost predicate Removable(h: Heap, c: nat, i: nat)
  {
    && c < NUM_CLASSES && |h.order| == NUM_CLASSES && 1 < |h.order[c]| && i < |h.order[c]|
    && Valid(h, h.order[c][i]) && h.order[c][i] in h.free && |h.free[h.order[c][i]]| == Chunks(c)
  }

  lemma AllFree(h: Heap, p: nat)
    requires p in h.headers && SlabOk(h, p) && |h.free[p]| == Chunks(h.headers[p].index)
    ensures forall k :: !LiveChunk(h, p, k)
  {
    SlabConserves(h, p);
    var c := h.headers[p].index;
    assert LiveChunks(h, p, c) == {};
    forall k: nat | k in Below(Chunks(c)) ensures k in h.free[p] {
      assert k !in LiveChunks(h, p, c);
    }
  }

  lemma RemovableFacts(h: Heap, c: nat, i: nat)
    requires Removable(h, c, i)
    ensures var p := h.order[c][i];
      && p in h.headers && h.headers[p].index == c && SlabOk(h, p) && Linked(h.headers, h.order[c], c)
      && h.classes[c] == SizeClass(|h.order[c]|, At(h.order[c], 0)) && 0 !in h.headers
  {
    ListMembers(h, c, h.order[c][i]);
    assert ClassOk(h, c, h.order[c][i]);
  }

  lemma DestroyValid(h: Heap, c: nat, i: nat)
    requires Removable(h, c, i)
    ensures h.order[c][i] in h.headers && h.classes[c].numSlabs > 0
    ensures Valid(WithoutSlab(h, c, i), 0)
    ensures forall q, k :: LiveChunk(WithoutSlab(h, c, i), q, k) <==> LiveChunk(h, q, k)
  {
    RemovableFacts(h, c, i);
    DestroySlabs(h, c, i);
    DestroyPages(h, c, i);
    forall d | 0 <= d < NUM_CLASSES ensures ClassOk(WithoutSlab(h, c, i), d, 0) {
      DestroyClass(h, c, i, d);
    }
  }

  lemma UnlinkedSame(headers: map<nat, Header>, p: nat, q: nat)
    requires p in headers && q in headers && q != p
    ensures q in Unlinked(headers, p)
    ensures Unlinked(headers, p)[q] ==
      headers[q].(next := Unlinked(headers, p)[q].next, prev := Unlinked(headers, p)[q].prev)
    ensures q != headers[p].next && q != headers[p].prev ==> Unlinked(headers, p)[q] == headers[q]
  {
  }

  lemma DestroySlabs(h: Heap, c: nat, i: nat)
    requires Removable(h, c, i) && h.order[c][i] in h.headers && h.classes[c].numSlabs > 0
    ensures forall q | q in WithoutSlab(h, c, i).headers :: SlabOk(WithoutSlab(h, c, i), q)
    ensures forall q, k :: LiveChunk(WithoutSlab(h, c, i), q, k) <==> LiveChunk(h, q, k)
  {
    var p, h' := h.order[c][i], WithoutSlab(h, c, i);
    RemovableFacts(h, c, i);
    AllFree(h, p);
    UnlinkedKeys(h.headers, p);
    forall q | q in h.headers && q != p ensures SameSlab(h, h', q) && SlabOk(h', q) {
      DestroyOther(h, c, i, q);
    }
    SameLive(h, h', p);
  }

  lemma UnlinkedKeys(headers: map<nat, Header>, p: nat)
    requires p in headers
    ensures forall q :: q in Unlinked(headers, p) <==> q in headers && q != p
  {
  }

  lemma SameLive(h: Heap, h': Heap, p: nat)
    requires forall q :: q in h'.headers <==> q in h.headers && q != p
    requires forall q | q in h'.headers :: SameSlab(h, h', q)
    requires forall k :: !LiveChunk(h, p, k)
    ensures forall q, k :: LiveChunk(h', q, k) <==> LiveChunk(h, q, k)
  {
  }

  lemma DestroyOther(h: Heap, c: nat, i: nat, q: nat)
    requires Removable(h, c, i) && h.order[c][i] in h.headers && h.classes[c].numSlabs > 0
    requires q in h.headers && q != h.order[c][i]
    ensures SameSlab(h, WithoutSlab(h, c, i), q) && SlabOk(WithoutSlab(h, c, i), q)
  {
    RemovableFacts(h, c, i);
    ErasedDistinct(h.order[c], i);
    assert SlabOk(h, q);
    UnlinkedSame(h.headers, h.order[c][i], q);
    SameSlabOk(h, WithoutSlab(h, c, i), q);
  }

  lemma DestroyClass(h: Heap, c: nat, i: nat, d: nat)
    requires Removable(h, c, i) && h.order[c][i] in h.headers && h.classes[c].numSlabs > 0 && d < NUM_CLASSES
    ensures ClassOk(WithoutSlab(h, c, i), d, 0)
  {
    RemovableFacts(h, c, i);
    if d == c {
      DestroyOwnClass(h, c, i);
    } else {
      DestroyOtherClass(h, c, i, d);
    }
  }

  lemma DestroyOwnClass(h: Heap, c: nat, i: nat)
    requires Removable(h, c, i) && h.order[c][i] in h.headers && h.classes[c].numSlabs > 0
    ensures ClassOk(WithoutSlab(h, c, i), c, 0)
  {
    RemovableFacts(h, c, i);
    ListMembers(h, c, h.order[c][i]);
    assert ClassOk(h, c, h.order[c][i]);
    UnlinkedLinked(h.headers, h.order[c], c, i);
    OthersNotFree(h, c, i);
    assert At(Erased(h.order[c], i), 0) == WithoutSlab(h, c, i).classes[c].firstSlab;
  }

  lemma OthersNotFree(h: Heap, c: nat, i: nat)
    requires c < NUM_CLASSES && |h.order| == |h.classes| == NUM_CLASSES && i < |h.order[c]|
    requires ClassOk(h, c, h.order[c][i]) && |h.order[c]| > 1
    ensures forall p | p in Erased(h.order[c], i) :: p in h.free && p != h.order[c][i] && |h.free[p]| < Chunks(c)
  {
    ErasedDistinct(h.order[c], i);
  }

  lemma DestroyOtherClass(h: Heap, c: nat, i: nat, d: nat)
    requires Removable(h, c, i) && h.order[c][i] in h.headers && h.classes[c].numSlabs > 0
    requires d < NUM_CLASSES && d != c
    ensures ClassOk(WithoutSlab(h, c, i), d, 0)
  {
    var p, h' := h.order[c][i], WithoutSlab(h, c, i);
    RemovableFacts(h, c, i);
    assert ClassOk(h, d, p);
    ListMembers(h, d, p);
    assert p !in h.order[d] && ClassOk(h, d, 0);
    forall q | q in h.order[d] ensures q in h'.headers && h'.headers[q] == h.headers[q] {
      NeighboursOwn(h, c, i);
      UnlinkedSame(h.headers, p, q);
    }
    assert 0 !in h.order[d];
    SameClass(h, h', d, 0);
  }

  lemma NeighboursOwn(h: Heap, c: nat, i: nat)
    requires Removable(h, c, i) && h.order[c][i] in h.headers
    ensures var s := h.headers[h.order[c][i]];
      && (s.next in h.headers ==> h.headers[s.next].index == c)
      && (s.prev in h.headers ==> h.headers[s.prev].index == c)
  {
    RemovableFacts(h, c, i);
  }

  lemma DestroyPages(h: Heap, c: nat, i: nat)
    requires Removable(h, c, i) && h.order[c][i] in h.headers && h.classes[c].numSlabs > 0
    ensures PagesOk(WithoutSlab(h, c, i))
  {
    var p, h' := h.order[c][i], WithoutSlab(h, c, i);
    UnlinkedKeys(h.headers, p);
    PagesFrame(h, h');
  }

  // ---------- Large blocks ----------

  /** `first` gained (or lost) exactly the `n` pages from `b` on. */
  ghost predicate Gains(first: map<nat, nat>, first': map<nat, nat>, b: nat, n: nat)
  {
    && (forall q :: q in first' <==> q in first || Covers(b, n, q))
    && (forall q | q in first :: first'[q] == first[q])
  }

  ghost predicate Loses(first: map<nat, nat>, first': map<nat, nat>, b: nat, n: nat)
  {
    && (forall q :: q in first' <==> q in first && !Covers(b, n, q))
    && (forall q | q in first' :: first'[q] == first[q])
  }

  function WithLarge(h: Heap, n: nat, first: map<nat, nat>): Heap
  {
    h.(first := first, cursor := h.cursor + n * PAGE_SIZE, large := h.large[h.cursor := n])
  }

  lemma LargePages(h: Heap, n: nat, first: map<nat, nat>)
    requires PagesOk(h) && 0 < h.cursor && 0 < n < SLAB_MAGIC && Gains(h.first, first, h.cursor, n)
    requires h.cursor in first && first[h.cursor] == n
    ensures PagesOk(WithLarge(h, n, first))
  {
    LargeOwners(h, n, first);
    LargeOwned(h, n, first);
    LargeAlone(h, n, first);
    assert InLarge(WithLarge(h, n, first), h.cursor, h.cursor);
  }

  /** No page of the new block had an owner. */
  lemma LargeAlone(h: Heap, n: nat, first: map<nat, nat>)
    requires PagesOk(h) && 0 < h.cursor
    ensures var h' := WithLarge(h, n, first);
      forall b, b', q | InLarge(h', b, q) && InLarge(h', b', q) :: b == b'
    ensures forall q | Covers(h.cursor, n, q) :: q !in h.headers
  {
    LargeOwners(h, n, first);
    forall q | Covers(h.cursor, n, q) ensures q !in h.headers && forall b :: !InLarge(h, b, q) {
    }
  }

  lemma LargeOwned(h: Heap, n: nat, first: map<nat, nat>)
    requires PagesOk(h) && 0 < h.cursor && Gains(h.first, first, h.cursor, n)
    ensures forall q | q in first && q !in h.headers :: exists b :: InLarge(WithLarge(h, n, first), b, q)
  {
    var h' := WithLarge(h, n, first);
    LargeOwners(h, n, first);
    forall q | q in first && q !in h.headers ensures exists b :: InLarge(h', b, q) {
      if q in h.first {
        var b :| InLarge(h, b, q);
        assert InLarge(h', b, q);
      } else {
        assert InLarge(h', h.cursor, q);
      }
    }
  }

  /** The new block owns the new pages; the old owners are as before. */
  lemma LargeOwners(h: Heap, n: nat, first: map<nat, nat>)
    requires PagesOk(h) && 0 < h.cursor
    ensures h.cursor !in h.large && h.cursor !in h.first
    ensures var h' := WithLarge(h, n, first);
      forall b, q :: InLarge(h', b, q) <==> InLarge(h, b, q) || (b == h.cursor && Covers(h.cursor, n, q))
  {
    assert forall b | b in h.large :: InLarge(h, b, b);
  }

  lemma LargeValid(h: Heap, n: nat, first: map<nat, nat>)
    requires Valid(h, 0) && 0 < n < SLAB_MAGIC && Gains(h.first, first, h.cursor, n)
    requires h.cursor in first && first[h.cursor] == n
    ensures Valid(WithLarge(h, n, first), 0) && h.cursor !in h.large
  {
    LargePages(h, n, first);
    SlabsAlone(h, WithLarge(h, n, first));
  }

  /** Slabs and classes do not care about large blocks. */
  lemma SlabsAlone(h: Heap, h': Heap)
    requires Valid(h, 0) && h' == h.(first := h'.first, cursor := h'.cursor, large := h'.large)
    requires forall p | p in h.headers :: p in h'.first && h'.first[p] == h.first[p]
    ensures forall p | p in h'.headers :: SlabOk(h', p)
    ensures forall c | 0 <= c < NUM_CLASSES :: ClassOk(h', c, 0)
    ensures forall p, k :: LiveChunk(h', p, k) <==> LiveChunk(h, p, k)
  {
    forall p | p in h'.headers ensures SlabOk(h', p) {
      assert SlabOk(h, p);
    }
    forall c | 0 <= c < NUM_CLASSES ensures ClassOk(h', c, 0) {
      assert ClassOk(h, c, 0);
    }
  }

  function WithoutLarge(h: Heap, b: nat, first: map<nat, nat>): Heap
  {
    h.(first := first, large := h.large - {b})
  }

  lemma UnlargePages(h: Heap, b: nat, first: map<nat, nat>)
    requires PagesOk(h) && b in h.large && Loses(h.first, first, b, h.large[b])
    ensures PagesOk(WithoutLarge(h, b, first))
  {
    var h' := WithoutLarge(h, b, first);
    forall d, q ensures InLarge(h', d, q) <==> InLarge(h, d, q) && d != b {
    }
    forall p | p in h.headers ensures p in h'.first {
      assert !InLarge(h, b, p);
    }
    forall d, q | InLarge(h', d, q) ensures q in h'.first {
      assert InLarge(h, d, q) && !InLarge(h, b, q);
    }
    forall q | q in h'.first && q !in h'.headers ensures exists d :: InLarge(h', d, q) {
      var d :| InLarge(h, d, q);
      assert InLarge(h', d, q);
    }
  }

  lemma UnlargeValid(h: Heap, b: nat, first: map<nat, nat>)
    requires Valid(h, 0) && b in h.large && Loses(h.first, first, b, h.large[b])
    ensures Valid(WithoutLarge(h, b, first), 0)
  {
    UnlargePages(h, b, first);
    SlabsAlone(h, WithoutLarge(h, b, first));
  }

  // ---------- What each step does to the blocks in use ----------

  ghost predicate SameKinds(h: Heap, h': Heap)
  {
    forall p | p in h.headers && p in h'.headers :: h'.headers[p].index == h.headers[p].index
  }

  /** Exactly the block at `a` was added. */
  ghost predicate Added(h: Heap, h': Heap, a: nat, n: nat)
  {
    && (forall m :: !Block(h, a, m))
    && (forall b, m :: Block(h', b, m) <==> Block(h, b, m) || (b == a && m == n))
  }

  /** Exactly the block at `a` was removed. */
  ghost predicate Removed(h: Heap, h': Heap, a: nat)
  {
    forall b, m :: Block(h', b, m) <==> Block(h, b, m) && b != a
  }

  ghost predicate SameBlocks(h: Heap, h': Heap)
  {
    forall b, m :: Block(h', b, m) <==> Block(h, b, m)
  }

  lemma BlocksSame(h: Heap, h': Heap)
    requires SameKinds(h, h') && h'.large == h.large
    requires forall q, k :: LiveChunk(h', q, k) <==> LiveChunk(h, q, k)
    ensures SameBlocks(h, h')
  {
    forall b, m ensures Block(h', b, m) <==> Block(h, b, m) {
      forall q, k ensures ChunkBlock(h', q, k, b, m) <==> ChunkBlock(h, q, k, b, m) {
        assert LiveChunk(h', q, k) <==> LiveChunk(h, q, k);
      }
    }
  }

  lemma ChunkAlone(h: Heap, p: nat, k: nat, q: nat, j: nat, a: nat, n: nat, m: nat)
    requires PagesOk(h) && ChunkBlock(h, p, k, a, n) && ChunkBlock(h, q, j, a, m)
    ensures p == q && k == j && n == m
  {
    ChunkDecodes(h, p, k, a, n);
    ChunkDecodes(h, q, j, a, m);
    if k < j {
      ChunksApart(p, h.headers[p].index, k, j);
    } else if j < k {
      ChunksApart(p, h.headers[p].index, j, k);
    }
  }

  lemma OneChunkMore(h: Heap, h': Heap, p: nat, k: nat, a: nat, n: nat)
    requires PagesOk(h') && SameKinds(h, h') && h'.large == h.large && ChunkBlock(h', p, k, a, n)
    requires forall q, j :: LiveChunk(h', q, j) <==> LiveChunk(h, q, j) || (q == p && j == k)
    ensures forall b, m :: Block(h', b, m) <==> Block(h, b, m) || (b == a && m == n)
  {
    forall b, m ensures Block(h', b, m) <==> Block(h, b, m) || (b == a && m == n) {
      forall q, j ensures ChunkBlock(h', q, j, b, m) <==>
          ChunkBlock(h, q, j, b, m) || (q == p && j == k && b == a && m == n)
      {
        assert LiveChunk(h', q, j) <==> LiveChunk(h, q, j) || (q == p && j == k);
      }
    }
  }

  lemma ChunkAdded(h: Heap, h': Heap, p: nat, k: nat, a: nat, n: nat)
    requires PagesOk(h') && SameKinds(h, h') && h'.large == h.large && ChunkBlock(h', p, k, a, n)
    requires forall q, j :: LiveChunk(h', q, j) <==> LiveChunk(h, q, j) || (q == p && j == k)
    requires !LiveChunk(h, p, k)
    ensures Added(h, h', a, n)
  {
    OneChunkMore(h, h', p, k, a, n);
    forall m ensures !Block(h, a, m) {
      if q, j :| ChunkBlock(h, q, j, a, m) {
        assert LiveChunk(h, q, j) && LiveChunk(h', q, j);
        ChunkAlone(h', p, k, q, j, a, n, m);
      } else if LargeBlock(h, a, m) {
        ChunkVersusLarge(h', p, k, a, n, a, m);
      }
    }
  }

  lemma ChunkRemoved(h: Heap, h': Heap, p: nat, k: nat, a: nat, n: nat)
    requires PagesOk(h) && SameKinds(h, h') && h'.large == h.large && ChunkBlock(h, p, k, a, n)
    requires forall q, j :: LiveChunk(h', q, j) <==> LiveChunk(h, q, j) && !(q == p && j == k)
    ensures Removed(h, h', a)
  {
    forall b, m ensures Block(h', b, m) <==> Block(h, b, m) && b != a {
      forall q, j ensures ChunkBlock(h', q, j, b, m) <==> ChunkBlock(h, q, j, b, m) && b != a {
        assert LiveChunk(h', q, j) <==> LiveChunk(h, q, j) && !(q == p && j == k);
        if ChunkBlock(h, q, j, a, m) {
          ChunkAlone(h, p, k, q, j, a, n, m);
        }
      }
      if LargeBlock(h, a, m) {
        ChunkVersusLarge(h, p, k, a, n, a, m);
      }
    }
  }

  lemma LargeAdded(h: Heap, n: nat, first: map<nat, nat>)
    requires Valid(h, 0) && Valid(WithLarge(h, n, first), 0) && h.cursor !in h.large && n > 0
    ensures Added(h, WithLarge(h, n, first), h.cursor + SIZE_HEADER, n * PAGE_SIZE - SIZE_HEADER)
  {
    var h', a, size := WithLarge(h, n, first), h.cursor + SIZE_HEADER, n * PAGE_SIZE - SIZE_HEADER;
    forall b, m ensures Block(h', b, m) <==> Block(h, b, m) || (b == a && m == size) {
      forall q, j ensures ChunkBlock(h', q, j, b, m) <==> ChunkBlock(h, q, j, b, m) {
      }
    }
    forall m ensures !Block(h, a, m) {
      LargeIsNew(h, h', n, a, m);
    }
  }

  lemma LargeIsNew(h: Heap, h': Heap, n: nat, a: nat, m: nat)
    requires PagesOk(h') && h'.headers == h.headers && h'.free == h.free && h'.large == h.large[h.cursor := n]
    requires h.cursor !in h.large && n > 0 && a == h.cursor + SIZE_HEADER
    ensures !Block(h, a, m)
  {
    if q, j :| ChunkBlock(h, q, j, a, m) {
      assert ChunkBlock(h', q, j, a, m) && LargeBlock(h', a, n * PAGE_SIZE - SIZE_HEADER);
      ChunkVersusLarge(h', q, j, a, m, a, n * PAGE_SIZE - SIZE_HEADER);
    }
  }

  lemma LargeRemoved(h: Heap, b: nat, first: map<nat, nat>)
    requires Valid(h, 0) && b in h.large
    ensures Removed(h, WithoutLarge(h, b, first), b + SIZE_HEADER)
  {
    var h', a := WithoutLarge(h, b, first), b + SIZE_HEADER;
    assert InLarge(h, b, b);
    forall d, m ensures Block(h', d, m) <==> Block(h, d, m) && d != a {
      forall q, j ensures ChunkBlock(h', q, j, d, m) <==> ChunkBlock(h, q, j, d, m) && d != a {
        if ChunkBlock(h, q, j, a, m) {
          ChunkVersusLarge(h, q, j, a, m, a, h.large[b] * PAGE_SIZE - SIZE_HEADER);
        }
      }
    }
  }

  // ---------- Writes by owners ----------

  /** A word of memory is written; `first` holds the words that start a page. */
  function Written(h: Heap, addr: nat, v: nat): Heap
  {
    if addr % PAGE_SIZE == 0 then h.(first := h.first[addr := v]) else Store(h, addr, v)
  }

  /** Inside a large block, in a page other than its first. */
  lemma WritePageStart(h: Heap, b: nat, addr: nat, v: nat)
    requires Valid(h, 0) && InLarge(h, b, addr) && addr != b
    ensures Valid(h.(first := h.first[addr := v]), 0)
  {
    var h' := h.(first := h.first[addr := v]);
    forall d | d in h.large ensures d != addr {
      assert InLarge(h, d, d);
    }
    SlabsAlone(h, h');
    SameOwners(h, h');
  }

  lemma SameOwners(h: Heap, h': Heap)
    requires PagesOk(h) && h'.large == h.large && h'.headers == h.headers && h'.cursor == h.cursor
    requires h'.first.Keys == h.first.Keys && forall d | d in h.large :: h'.first[d] == h.first[d]
    ensures PagesOk(h')
  {
    forall b, q ensures InLarge(h', b, q) == InLarge(h, b, q) {
    }
    forall q | q in h'.first && q !in h'.headers ensures exists b :: InLarge(h', b, q) {
      var b :| InLarge(h, b, q);
      assert InLarge(h', b, q);
    }
  }

  lemma WriteLarge(h: Heap, b: nat, addr: nat, v: nat)
    requires Valid(h, 0) && b in h.large && b <= addr < b + h.large[b] * PAGE_SIZE
    ensures Valid(Store(h, addr, v), 0)
  {
    var h' := Store(h, addr, v);
    SameOwners(h, h');
    forall q | q in h'.headers ensures SlabOk(h', q) {
      assert SlabOk(h, q);
      SlabOutsideLarge(h, q, b);
      FreeListFrame(h.links, h'.links, q, h.headers[q].index, h.headers[q].freeHead, h.free[q]);
    }
    forall c | 0 <= c < NUM_CLASSES ensures ClassOk(h', c, 0) {
      assert ClassOk(h, c, 0);
    }
  }

  /** Whatever the owner of a block writes to any of its words, the allocator is
      not disturbed, and the blocks are the same. */
  lemma OwnerWrites(h: Heap, a: nat, n: nat, addr: nat, v: nat)
    requires Valid(h, 0) && Block(h, a, n) && a <= addr < a + n
    ensures Valid(Written(h, addr, v), 0) && SameBlocks(h, Written(h, addr, v))
    ensures addr % PAGE_SIZE == 0 ==> addr in h.first
  {
    if p, k :| ChunkBlock(h, p, k, a, n) {
      ChunkDecodes(h, p, k, a, n);
      InnerNotAligned(p, addr);
      StoreValid(h, p, k, addr, v);
    } else {
      LargeWord(h, a, n, addr);
      if addr % PAGE_SIZE == 0 {
        WritePageStart(h, a - SIZE_HEADER, addr, v);
      } else {
        WriteLarge(h, a - SIZE_HEADER, addr, v);
      }
    }
    BlocksSame(h, Written(h, addr, v));
  }

  lemma InnerNotAligned(p: nat, addr: nat)
    requires p % PAGE_SIZE == 0 && p < addr < p + PAGE_SIZE
    ensures addr % PAGE_SIZE != 0
  {
  }

  lemma LargeWord(h: Heap, a: nat, n: nat, addr: nat)
    requires PagesOk(h) && LargeBlock(h, a, n) && a <= addr < a + n
    ensures var b := a - SIZE_HEADER;
      && b < addr < b + h.large[b] * PAGE_SIZE
      && (addr % PAGE_SIZE == 0 ==> InLarge(h, b, addr) && addr in h.first)
  {
    if addr % PAGE_SIZE == 0 {
      assert InLarge(h, a - SIZE_HEADER, addr);
    }
  }
}
