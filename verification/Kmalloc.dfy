/** kmalloc and kfree over the slab allocator and whole-page blocks, in place. */
module Kmalloc {
  import opened Common
  import opened Slab
  import opened SlabSteps
  import opened SlabLists

  const WORD_BYTES: nat := 8

  /** The smallest class that fits, or NUM_CLASSES for the null class. */
  function ClassFor(bytes: nat): (c: nat)
    ensures c == NUM_CLASSES <==> bytes > 1024
    ensures c < NUM_CLASSES ==> bytes <= SizeOf(c) && (c > 0 ==> SizeOf(c - 1) < bytes)
    ensures c <= NUM_CLASSES
  {
    if bytes <= 32 then 0 else if bytes <= 64 then 1 else if bytes <= 128 then 2
    else if bytes <= 256 then 3 else if bytes <= 512 then 4 else if bytes <= 1024 then 5 else NUM_CLASSES
  }

  /** The first `i` chunks of the page point to their successors. */
  ghost predicate ThreadedUpTo(links: map<nat, nat>, p: nat, c: nat, i: nat)
    requires c < NUM_CLASSES
  {
    forall j: nat | j < i :: ChunkAt(p, c, j) in links && links[ChunkAt(p, c, j)] == ChunkAt(p, c, j + 1)
  }

  ghost predicate SameBelow(links: map<nat, nat>, links': map<nat, nat>, p: nat)
  {
    forall a | a in links && a < p :: a in links' && links'[a] == links[a]
  }

  ghost predicate Threading(links0: map<nat, nat>, links: map<nat, nat>, p: nat, c: nat, i: nat)
    requires c < NUM_CLASSES
  {
    ThreadedUpTo(links, p, c, i) && SameBelow(links0, links, p)
  }

  lemma ThreadStep(links0: map<nat, nat>, links: map<nat, nat>, p: nat, c: nat, i: nat)
    requires c < NUM_CLASSES && Threading(links0, links, p, c, i)
    ensures Threading(links0, links[ChunkAt(p, c, i) := ChunkAt(p, c, i + 1)], p, c, i + 1)
  {
    forall j: nat | j < i ensures ChunkAt(p, c, j) != ChunkAt(p, c, i) {
      ChunksApart(p, c, j, i);
    }
  }

  lemma WriteAbove(links0: map<nat, nat>, links: map<nat, nat>, p: nat, a: nat, v: nat)
    requires SameBelow(links0, links, p) && p <= a
    ensures SameBelow(links0, links[a := v], p)
  {
  }

  lemma ThreadLast(links: map<nat, nat>, p: nat, c: nat)
    requires c < NUM_CLASSES && ThreadedUpTo(links, p, c, Chunks(c) - 1)
    ensures FreeList(links[ChunkAt(p, c, Chunks(c) - 1) := 0], p, c, ChunkAt(p, c, 0), Count(Chunks(c)))
  {
    var n := Chunks(c);
    var links', list := links[ChunkAt(p, c, n - 1) := 0], Count(n);
    forall j: nat | j < n - 1 ensures ChunkAt(p, c, j) != ChunkAt(p, c, n - 1) {
      ChunksApart(p, c, j, n - 1);
    }
    forall i: nat | i < |list| ensures ChunkAt(p, c, list[i]) in links'
        && links'[ChunkAt(p, c, list[i])] == ChunkOrNull(p, c, list, i + 1)
    {
      assert list[i] == i;
    }
  }

  lemma EndThread(links0: map<nat, nat>, links: map<nat, nat>, p: nat, c: nat, last: nat)
    requires c < NUM_CLASSES && Threading(links0, links, p, c, Chunks(c) - 1) && last == ChunkAt(p, c, Chunks(c) - 1)
    ensures FreeList(links[last := 0], p, c, ChunkAt(p, c, 0), Count(Chunks(c)))
    ensures SameBelow(links0, links[last := 0], p)
  {
    ThreadLast(links, p, c);
    WriteAbove(links0, links, p, last, 0);
  }

  lemma HeadersKept(h: Heap, c: nat, links: map<nat, nat>)
    requires Valid(h, 0) && c < NUM_CLASSES && Threaded(h, c, links) && Full(h, c)
    ensures h.cursor in WithSlab(h, c, links).headers
    ensures WithSlab(h, c, links).headers[h.cursor].freeHead != 0
    ensures SameKinds(h, WithSlab(h, c, links))
  {
    assert h.cursor !in h.headers;
  }

  /** Slab `p` of class `c` after its first chunk was taken, seen from before. */
  lemma TakeAdds(h: Heap, p: nat, spare: nat)
    requires Valid(h, spare) && (spare == 0 || spare == p) && p in h.headers && h.headers[p].freeHead != 0
    ensures p in h.free && h.free[p] != [] && h.headers[p].freeHead in h.links && h.headers[p].freeChunks > 0
    ensures h.headers[p].index < NUM_CLASSES
    ensures Valid(Take(h, p), 0)
    ensures Added(h, Take(h, p), h.headers[p].freeHead, SizeOf(h.headers[p].index))
  {
    TakeValid(h, p, spare);
    var k, c := h.free[p][0], h.headers[p].index;
    ChunkAdded(h, Take(h, p), p, k, ChunkAt(p, c, k), SizeOf(c));
  }

  lemma CreateThenTake(h: Heap, h1: Heap, h2: Heap, a: nat, n: nat)
    requires SameBlocks(h, h1) && Added(h1, h2, a, n)
    ensures Added(h, h2, a, n)
  {
    forall m ensures !Block(h, a, m) {
      assert !Block(h1, a, m);
    }
    forall b, m ensures Block(h2, b, m) <==> Block(h, b, m) || (b == a && m == n) {
      assert Block(h1, b, m) <==> Block(h, b, m);
    }
  }

  lemma RemoveThenDestroy(h: Heap, h1: Heap, h2: Heap, a: nat)
    requires Removed(h, h1, a) && SameBlocks(h1, h2)
    ensures Removed(h, h2, a)
  {
    forall b, m ensures Block(h2, b, m) <==> Block(h, b, m) && b != a {
      assert Block(h1, b, m) <==> Block(h, b, m) && b != a;
    }
  }

  /** Slab `p` would be fully free with `more` chunks given back, and its class
      has another slab. */
  ghost predicate FullyFree(h: Heap, p: nat, more: nat)
  {
    && p in h.headers && h.headers[p].index < NUM_CLASSES && h.headers[p].index < |h.classes|
    && h.headers[p].freeChunks + more == Chunks(h.headers[p].index) && h.classes[h.headers[p].index].numSlabs > 1
  }

  lemma SlabOfBlock(h: Heap, a: nat)
    requires Valid(h, 0) && PageOf(a) in h.first
    ensures forall n: nat | Block(h, a, n) ::
      if LargeBlock(h, a, n) then h.first[PageOf(a)] != SLAB_MAGIC
      else h.first[PageOf(a)] == SLAB_MAGIC && exists k: nat :: ChunkBlock(h, PageOf(a), k, a, n)
  {
    forall n: nat | Block(h, a, n)
      ensures if LargeBlock(h, a, n) then h.first[PageOf(a)] != SLAB_MAGIC
        else h.first[PageOf(a)] == SLAB_MAGIC && exists k: nat :: ChunkBlock(h, PageOf(a), k, a, n)
    {
      BlockPage(h, a, n);
      if !LargeBlock(h, a, n) {
        var k := Decode(h, a, n);
      }
    }
  }

  lemma NotNull(h: Heap, h': Heap, a: nat, n: nat)
    requires Valid(h', 0) && Added(h, h', a, n)
    ensures a != 0
  {
    BlockPage(h', a, n);
  }

  class KernelMemory {
    var first: map<nat, nat>
    var cursor: nat
    var headers: map<nat, Header>
    var links: map<nat, nat>
    var classes: seq<SizeClass>
    ghost var order: seq<seq<nat>>
    ghost var free: map<nat, seq<nat>>
    ghost var large: map<nat, nat>

    ghost function State(): Heap
      reads this
    {
      Heap(first, cursor, headers, links, classes, order, free, large)
    }

    ghost predicate Valid()
      reads this
    {
      Slab.Valid(State(), 0)
    }

    constructor (start: nat)
      requires start > 0 && start % PAGE_SIZE == 0
      ensures Valid() && forall a, n :: !Block(State(), a, n)
    {
      first, cursor, headers, links := map[], start, map[], map[];
      var empty := SizeClass(0, 0);
      classes := [empty, empty, empty, empty, empty, empty];
      order := [[], [], [], [], [], []];
      free, large := map[], map[];
    }

    // ---------- Slabs ----------

    /** The free list of a new slab, written into its own chunks. */
    method ThreadChunks(page: nat, c: nat)
      requires c < NUM_CLASSES
      modifies this`links
      ensures FreeList(links, page, c, ChunkAt(page, c, 0), Count(Chunks(c)))
      ensures SameBelow(old(links), links, page)
    {
      var n := Chunks(c);
      for i := 0 to n - 1
        invariant Threading(old(links), links, page, c, i)
      {
        LinkChunk(page, c, i, old(links));
      }
      EndChunks(page, c, old(links));
    }

    method LinkChunk(page: nat, c: nat, i: nat, ghost links0: map<nat, nat>)
      requires c < NUM_CLASSES && Threading(links0, links, page, c, i)
      modifies this`links
      ensures Threading(links0, links, page, c, i + 1)
    {
      ThreadStep(links0, links, page, c, i);
      links := links[ChunkAt(page, c, i) := ChunkAt(page, c, i + 1)];
    }

    method EndChunks(page: nat, c: nat, ghost links0: map<nat, nat>)
      requires c < NUM_CLASSES && Threading(links0, links, page, c, Chunks(c) - 1)
      modifies this`links
      ensures FreeList(links, page, c, ChunkAt(page, c, 0), Count(Chunks(c)))
      ensures SameBelow(links0, links, page)
    {
      var last := ChunkAt(page, c, Chunks(c) - 1);
      EndThread(links0, links, page, c, last);
      links := links[last := 0];
    }

    /** A new page becomes the first slab of the class. */
    method CreateSlab(c: nat) returns (p: nat)
      requires c < NUM_CLASSES && |classes| == |order| == NUM_CLASSES
      requires classes[c].firstSlab == At(order[c], 0)
      requires order[c] != [] ==> order[c][0] in headers && order[c][0] != 0
      modifies this
      ensures p == old(cursor) && Threaded(old(State()), c, links)
      ensures State() == WithSlab(old(State()), c, links)
    {
      p := cursor;
      ThreadChunks(p, c);
      PushSlab(p, c);
    }

    method PushSlab(p: nat, c: nat)
      requires c < NUM_CLASSES && |classes| == |order| == NUM_CLASSES && p == cursor
      requires classes[c].firstSlab == At(order[c], 0)
      requires order[c] != [] ==> order[c][0] in headers && order[c][0] != 0
      modifies this
      ensures links == old(links) && State() == WithSlab(old(State()), c, links)
    {
      cursor := cursor + PAGE_SIZE;
      first := first[p := SLAB_MAGIC];
      var firstSlab := classes[c].firstSlab;
      if firstSlab != 0 {
        headers := headers[firstSlab := headers[firstSlab].(prev := p)];
      }
      headers := headers[p := Header(ChunkAt(p, c, 0), firstSlab, 0, c, Chunks(c))];
      classes := classes[c := SizeClass(classes[c].numSlabs + 1, p)];
      order := order[c := [p] + order[c]];
      free := free[p := Count(Chunks(c))];
    }

    /** The newest slab of the class with a free chunk, or null if all are full. */
    method FindSlab(c: nat) returns (slab: nat)
      requires Valid() && c < NUM_CLASSES
      ensures slab != 0 ==> slab in headers && headers[slab].index == c && headers[slab].freeHead != 0
      ensures slab == 0 ==> Full(State(), c)
    {
      ClassList(State(), c);
      slab := SearchFrom(classes[c].firstSlab, c, order[c]);
    }

    method SearchFrom(start: nat, c: nat, ghost list: seq<nat>) returns (slab: nat)
      requires start == At(list, 0) && Linked(headers, list, c) && Heads(State(), list)
      ensures slab != 0 ==> slab in headers && headers[slab].index == c && headers[slab].freeHead != 0
      ensures slab == 0 ==> forall q | q in list :: q in headers && q in free && free[q] == []
    {
      slab := start;
      ghost var i: nat := 0;
      while slab != 0 && headers[slab].freeHead == 0
        invariant i <= |list| && slab == At(list, i)
        invariant forall j: nat | j < i :: list[j] in free && free[list[j]] == []
        decreases |list| - i
      {
        assert slab == list[i] && slab in list;
        slab := headers[slab].next;
        i := i + 1;
      }
    }

    method TakeChunk(p: nat, ghost spare: nat) returns (chunk: nat)
      requires Slab.Valid(State(), spare) && (spare == 0 || spare == p)
      requires p in headers && headers[p].freeHead != 0
      modifies this
      ensures Valid() && chunk == old(headers[p]).freeHead && old(headers[p]).index < NUM_CLASSES
      ensures Added(old(State()), State(), chunk, SizeOf(old(headers[p]).index))
    {
      TakeAdds(State(), p, spare);
      chunk := PopChunk(p);
    }

    method PopChunk(p: nat) returns (chunk: nat)
      requires p in headers && p in free && free[p] != []
      requires headers[p].freeHead in links && headers[p].freeChunks > 0
      modifies this
      ensures chunk == old(headers[p]).freeHead && State() == Take(old(State()), p)
    {
      var s := headers[p];
      chunk := s.freeHead;
      headers := headers[p := s.(freeHead := links[s.freeHead], freeChunks := s.freeChunks - 1)];
      free := free[p := free[p][1..]];
    }

    /** slab::alloc: one chunk of the smallest class that fits. */
    method SlabAlloc(size: nat) returns (chunk: nat)
      requires Valid() && size <= 1024
      modifies this
      ensures Valid() && ClassFor(size) < NUM_CLASSES
      ensures Added(old(State()), State(), chunk, SizeOf(ClassFor(size)))
    {
      var c := ClassFor(size);
      var slab := FindSlab(c);
      if slab == 0 {
        HeadKnown(State(), c);
        slab := CreateSlab(c);
        NewSlabValid(old(State()), c, links);
        HeadersKept(old(State()), c, links);
        BlocksSame(old(State()), State());
        ghost var h1 := State();
        chunk := TakeChunk(slab, slab);
        CreateThenTake(old(State()), h1, State(), chunk, SizeOf(c));
      } else {
        chunk := TakeChunk(slab, 0);
      }
    }

    /** try_get_slab: the first word of the page decides. On a block in use the
        answer is the slab it was cut from, or null for a large block. */
    method TryGetSlab(addr: nat) returns (p: nat)
      requires addr != 0 ==> PageOf(addr) in first
      ensures p != 0 <==> PageOf(addr) != 0 && first[PageOf(addr)] == SLAB_MAGIC
      ensures p != 0 ==> p == PageOf(addr)
      ensures Valid() ==> forall n: nat | Block(State(), addr, n) ::
        if LargeBlock(State(), addr, n) then p == 0 else exists k: nat :: ChunkBlock(State(), p, k, addr, n)
    {
      if addr == 0 {
        return 0;
      }
      var page := PageOf(addr);
      if Valid() {
        SlabOfBlock(State(), addr);
      }
      if first[page] == SLAB_MAGIC {
        return page;
      }
      return 0;
    }

    /** destroy_slab: refuses the only slab of a class, otherwise joins the
        neighbours and gives the page back. */
    method DestroySlab(c: nat, p: nat, ghost i: nat)
      requires c < NUM_CLASSES && |classes| == |order| == NUM_CLASSES && i < |order[c]| && p == order[c][i]
      requires Neighbourly(headers, order[c], i)
      requires classes[c] == SizeClass(|order[c]|, At(order[c], 0))
      modifies this
      ensures State() == if |old(order)[c]| == 1 then old(State()) else WithoutSlab(old(State()), c, i)
    {
      var prev, next := headers[p].prev, headers[p].next;
      if prev == 0 && next == 0 {
        return;
      }
      Unlink(c, p, prev, next);
      first, headers := first - {p}, headers - {p};
      order := order[c := Erased(order[c], i)];
      free := free - {p};
    }

    method Unlink(c: nat, p: nat, prev: nat, next: nat)
      requires c < |classes| && p in headers && prev == headers[p].prev && next == headers[p].next
      requires classes[c].numSlabs > 0 && prev != p && next != p
      requires (prev != 0 <==> prev in headers) && (next != 0 <==> next in headers)
      modifies this`headers, this`classes
      ensures headers - {p} == Unlinked(old(headers), p)
      ensures classes == old(classes)[c :=
        SizeClass(old(classes)[c].numSlabs - 1, if prev == 0 then next else old(classes)[c].firstSlab)]
    {
      if prev != 0 {
        headers := headers[prev := headers[prev].(next := next)];
      } else {
        classes := classes[c := classes[c].(firstSlab := next)];
      }
      if next != 0 {
        headers := headers[next := headers[next].(prev := prev)];
      }
      classes := classes[c := classes[c].(numSlabs := classes[c].numSlabs - 1)];
    }

    method PushChunk(p: nat, addr: nat, ghost k: nat)
      requires p in headers && headers[p].index < NUM_CLASSES && p in free
      requires addr == ChunkAt(p, headers[p].index, k)
      modifies this
      ensures State() == Give(old(State()), p, k)
    {
      var s := headers[p];
      links := links[addr := s.freeHead];
      headers := headers[p := s.(freeHead := addr, freeChunks := s.freeChunks + 1)];
      free := free[p := [k] + free[p]];
    }

    /** Give back a slab that is fully free, unless it is the only one. */
    method Trim(p: nat)
      requires p in headers && Slab.Valid(State(), p)
      modifies this
      ensures Valid() && SameBlocks(old(State()), State())
      ensures first == if FullyFree(old(State()), p, 0) then old(first) - {p} else old(first)
    {
      var c := headers[p].index;
      ghost var i := Position(State(), p);
      if headers[p].freeChunks == Chunks(c) && classes[c].numSlabs > 1 {
        DestroyValid(State(), c, i);
        UnlinkedKinds(State(), c, i);
        BlocksSame(State(), WithoutSlab(State(), c, i));
        Neighbours(headers, order[c], c, i);
        DestroySlab(c, p, i);
      } else {
        Settles(State(), p);
      }
    }

    /** slab::free of a live chunk removes exactly that block; the slab's page
        goes exactly if it was the last live chunk of one of several slabs. */
    method SlabFree(addr: nat, ghost n: nat)
      requires Valid() && (addr != 0 ==> PageOf(addr) in first)
      requires addr != 0 && first[PageOf(addr)] == SLAB_MAGIC ==> Block(State(), addr, n)
      modifies this
      ensures Valid()
      ensures if addr != 0 && old(first)[PageOf(addr)] == SLAB_MAGIC
        then Removed(old(State()), State(), addr)
          && first == (if FullyFree(old(State()), PageOf(addr), 1) then old(first) - {PageOf(addr)} else old(first))
        else State() == old(State())
    {
      var p := TryGetSlab(addr);
      if p == 0 {
        return;
      }
      ghost var k := Decode(State(), addr, n);
      GiveRemoves(State(), p, k, addr, n);
      PushChunk(p, addr, k);
      ghost var h1 := State();
      Trim(p);
      RemoveThenDestroy(old(State()), h1, State(), addr);
    }

    /** The owner of a block writes one of its words. */
    method Store(addr: nat, v: nat, ghost a: nat, ghost n: nat)
      requires Valid() && Block(State(), a, n) && a <= addr && addr + WORD_BYTES <= a + n
      requires (addr - a) % WORD_BYTES == 0
      modifies this`links, this`first
      ensures Valid() && SameBlocks(old(State()), State()) && State() == Written(old(State()), addr, v)
    {
      OwnerWrites(State(), a, n, addr, v);
      WriteWord(addr, v);
    }

    method WriteWord(addr: nat, v: nat)
      modifies this`links, this`first
      ensures State() == Written(old(State()), addr, v)
    {
      if addr % PAGE_SIZE == 0 {
        first := first[addr := v];
      } else {
        links := links[addr := v];
      }
    }

    // ---------- Whole pages ----------

    /** alloc_kernel: pages at the cursor, their number in the first word. A
        request whose page count comes out as zero is fatal to the kernel; here
        it returns null and changes nothing. */
    method AllocKernel(bytes: nat) returns (addr: nat)
      requires Valid() && bytes < WORD
      modifies this
      ensures Valid()
      ensures PagesFor(bytes) == 0 ==> addr == 0 && State() == old(State())
      ensures PagesFor(bytes) > 0 ==>
        && Added(old(State()), State(), addr, PagesFor(bytes) * PAGE_SIZE - SIZE_HEADER)
        && Gains(old(first), first, old(cursor), PagesFor(bytes))
    {
      var n := PagesFor(bytes);
      if n == 0 {
        return 0;
      }
      PagesForCovers(bytes);
      addr := cursor + SIZE_HEADER;
      MapLarge(n);
      LargeValid(old(State()), n, first);
      LargeAdded(old(State()), n, first);
    }

    method MapLarge(n: nat)
      requires PagesOk(State()) && 0 < n
      modifies this
      ensures State() == WithLarge(old(State()), n, first)
      ensures Gains(old(first), first, old(cursor), n) && old(cursor) in first && first[old(cursor)] == n
    {
      var b := cursor;
      MapPages(n);
      assert Covers(b, n, b) && b !in old(first);
      first := first[b := n];
      large := large[b := n];
    }

    /** The pages' contents are whatever was in the frames. */
    method MapPages(n: nat)
      requires PagesOk(State())
      modifies this`first, this`cursor
      ensures Gains(old(first), first, old(cursor), n) && cursor == old(cursor) + n * PAGE_SIZE
    {
      for i := 0 to n
        invariant cursor == old(cursor) + i * PAGE_SIZE
        invariant Gains(old(first), first, old(cursor), i)
      {
        var word: nat := *;
        CoversNext(old(cursor), i);
        assert !Covers(old(cursor), i, cursor) && cursor !in old(first);
        first := first[cursor := word];
        cursor := cursor + PAGE_SIZE;
      }
    }

    /** free_kernel: exactly the pages counted in the first word go. */
    method FreeKernel(addr: nat, ghost n: nat)
      requires Valid() && (addr != 0 ==> LargeBlock(State(), addr, n))
      modifies this
      ensures Valid()
      ensures addr == 0 ==> State() == old(State())
      ensures addr != 0 ==> Removed(old(State()), State(), addr)
      ensures addr != 0 ==> Loses(old(first), first, addr - SIZE_HEADER, (n + SIZE_HEADER) / PAGE_SIZE)
    {
      if addr == 0 {
        return;
      }
      var b := PageOf(addr);
      LargeHeader(State(), addr, n);
      var numPages := first[b];
      if numPages == 0 {
        return;
      }
      UnmapPages(b, numPages);
      large := large - {b};
      UnlargeValid(old(State()), b, first);
      LargeRemoved(old(State()), b, first);
    }

    method UnmapPages(b: nat, n: nat)
      requires b % PAGE_SIZE == 0
      modifies this`first
      ensures Loses(old(first), first, b, n)
    {
      for i := 0 to n
        invariant Loses(old(first), first, b, i)
      {
        CoversNext(b, i);
        first := first - {b + i * PAGE_SIZE};
      }
    }

    // ---------- kmalloc and kfree ----------

    /** Null exactly for an empty request or one whose page count comes out as
        zero. A block covers the request exactly if adding the header and
        rounding up does not pass 64 bits. */
    method KMalloc(size: nat) returns (r: nat, ghost n: nat)
      requires Valid() && size < WORD
      modifies this
      ensures Valid()
      ensures r == 0 <==> size == 0 || PagesFor(size) == 0
      ensures r == 0 ==> State() == old(State())
      ensures r != 0 ==>
        && Added(old(State()), State(), r, n)
        && (size <= n <==> size + SIZE_HEADER + PAGE_SIZE - 1 < WORD)
    {
      n := 0;
      PagesForCovers(size);
      if size == 0 {
        return 0, 0;
      } else if size <= 1024 {
        n := SizeOf(ClassFor(size));
        r := SlabAlloc(size);
        NotNull(old(State()), State(), r, n);
      } else {
        r := AllocKernel(size);
        if PagesFor(size) > 0 {
          n := PagesFor(size) * PAGE_SIZE - SIZE_HEADER;
          NotNull(old(State()), State(), r, n);
        }
      }
    }

    /** A pointer from kmalloc goes back to the allocator it came from: a large
        block takes its pages with it, a chunk its slab's page exactly if it was
        the last live chunk there and the class has another slab. */
    method KFree(ptr: nat, ghost n: nat)
      requires Valid() && (ptr != 0 ==> Block(State(), ptr, n))
      modifies this
      ensures Valid()
      ensures ptr == 0 ==> State() == old(State())
      ensures ptr != 0 ==> Removed(old(State()), State(), ptr)
      ensures ptr != 0 && old(LargeBlock(State(), ptr, n)) ==>
        Loses(old(first), first, ptr - SIZE_HEADER, (n + SIZE_HEADER) / PAGE_SIZE)
      ensures ptr != 0 && !old(LargeBlock(State(), ptr, n)) ==>
        first == if FullyFree(old(State()), PageOf(ptr), 1) then old(first) - {PageOf(ptr)} else old(first)
    {
      if ptr == 0 {
        return;
      }
      BlockPage(State(), ptr, n);
      var slab := TryGetSlab(ptr);
      if slab != 0 {
        SlabFree(ptr, n);
      } else {
        FreeKernel(ptr, n);
      }
    }

    // ---------- Whole runs ----------

    /** Any sequence of requests, in which only pointers that are still held are
        freed or written through: afterwards the blocks in use are exactly the
        pointers still held, and each is as large as was asked for. */
    method Serve(requests: seq<Request>) returns (live: seq<Held>)
      requires Valid() && forall a, n :: !Block(State(), a, n)
      requires forall r | r in requests && r.Malloc? :: r.size < WORD
      modifies this
      ensures Valid() && OwnedExactly(State(), live)
    {
      live := [];
      for i := 0 to |requests|
        invariant Valid() && OwnedExactly(State(), live)
      {
        assert requests[i] in requests;
        live := ServeOne(requests[i], live);
      }
    }

    method ServeOne(r: Request, live: seq<Held>) returns (live': seq<Held>)
      requires Valid() && OwnedExactly(State(), live)
      requires r.Malloc? ==> r.size < WORD
      modifies this
      ensures Valid() && OwnedExactly(State(), live')
    {
      live' := live;
      match r
      case Malloc(size) =>
        live' := ServeMalloc(size, live);
      case Free(which) =>
        if which < |live| {
          live' := ServeFree(which, live);
        }
      case Write(which, word, v) =>
        if which < |live| {
          ServeWrite(live[which], word, v, live);
        }
    }

    method ServeMalloc(size: nat, live: seq<Held>) returns (live': seq<Held>)
      requires Valid() && OwnedExactly(State(), live) && size < WORD
      modifies this
      ensures Valid() && OwnedExactly(State(), live')
    {
      ghost var h := State();
      var ptr: nat;
      ghost var n: nat;
      ptr, n := KMalloc(size);
      live' := live;
      if ptr != 0 {
        OwnsMore(h, State(), live, Held(ptr, size), n);
        live' := live + [Held(ptr, size)];
      }
    }

    method ServeFree(which: nat, live: seq<Held>) returns (live': seq<Held>)
      requires Valid() && OwnedExactly(State(), live) && which < |live|
      modifies this
      ensures Valid() && OwnedExactly(State(), live')
    {
      ghost var h := State();
      var x := live[which];
      assert x in live && Covered(State(), x);
      ghost var n: nat :| Block(State(), x.ptr, n) && (x.size <= n <==> Fits(x.size));
      BlockPage(State(), x.ptr, n);
      KFree(x.ptr, n);
      OwnsLess(h, State(), live, which);
      live' := Erased(live, which);
    }

    method ServeWrite(x: Held, word: nat, v: nat, ghost live: seq<Held>)
      requires Valid() && OwnedExactly(State(), live) && x in live
      modifies this
      ensures Valid() && OwnedExactly(State(), live)
    {
      ghost var h := State();
      assert Covered(State(), x);
      var offset := word * WORD_BYTES;
      if Fits(x.size) && offset + WORD_BYTES <= x.size {
        ghost var n: nat :| Block(State(), x.ptr, n) && (x.size <= n <==> Fits(x.size));
        WholeWords(x.ptr, word);
        Store(x.ptr + offset, v, x.ptr, n);
        OwnsSame(h, State(), live);
      }
    }
  }

  /** A pointer that a client holds, and the size it asked for. */
  datatype Held = Held(ptr: nat, size: nat)

  /** A client asks for memory, gives back the pointer at some position of the
      list of those it still has, or writes through it. */
  datatype Request = Malloc(size: nat) | Free(which: nat) | Write(which: nat, word: nat, v: nat)

  /** The size with header and rounding fits 64 bits. */
  predicate Fits(size: nat) { size + SIZE_HEADER + PAGE_SIZE - 1 < WORD }

  lemma WholeWords(a: nat, word: nat)
    ensures (a + word * WORD_BYTES - a) % WORD_BYTES == 0
  {
  }

  ghost predicate Covered(h: Heap, x: Held) { exists n: nat :: Block(h, x.ptr, n) && (x.size <= n <==> Fits(x.size)) }

  ghost predicate Owned(h: Heap, a: nat) { exists n: nat :: Block(h, a, n) }

  /** The pointers are distinct, are exactly the blocks in use, and each block
      covers its request unless the size overflows. */
  ghost predicate OwnedExactly(h: Heap, live: seq<Held>)
  {
    && (forall i, j | 0 <= i < j < |live| :: live[i].ptr != live[j].ptr)
    && (forall x | x in live :: Covered(h, x))
    && (forall a: nat | Owned(h, a) :: exists x :: x in live && x.ptr == a)
  }

  lemma OwnsMore(h: Heap, h': Heap, live: seq<Held>, x: Held, n: nat)
    requires OwnedExactly(h, live) && Added(h, h', x.ptr, n) && (x.size <= n <==> Fits(x.size))
    ensures OwnedExactly(h', live + [x])
  {
    var live' := live + [x];
    assert live'[|live|] == x && Block(h', x.ptr, n);
    forall y | y in live ensures Covered(h', y) && y.ptr != x.ptr {
      var m: nat :| Block(h, y.ptr, m) && (y.size <= m <==> Fits(y.size));
      assert Block(h', y.ptr, m);
    }
    forall a: nat | Owned(h', a) ensures exists y :: y in live' && y.ptr == a {
      var m: nat :| Block(h', a, m);
      if a == x.ptr {
        assert x in live';
      } else {
        assert Block(h, a, m) && Owned(h, a);
        var y :| y in live && y.ptr == a;
        assert y in live';
      }
    }
  }

  lemma OwnsLess(h: Heap, h': Heap, live: seq<Held>, i: nat)
    requires OwnedExactly(h, live) && i < |live| && Removed(h, h', live[i].ptr)
    ensures OwnedExactly(h', Erased(live, i))
  {
    ErasedDistinct(live, i);
    forall y | y in Erased(live, i) ensures Covered(h', y) {
      var m: nat :| Block(h, y.ptr, m) && (y.size <= m <==> Fits(y.size));
      assert Block(h', y.ptr, m);
    }
    forall a: nat | Owned(h', a) ensures exists y :: y in Erased(live, i) && y.ptr == a {
      var m: nat :| Block(h', a, m);
      assert Block(h, a, m) && Owned(h, a) && a != live[i].ptr;
      var y :| y in live && y.ptr == a;
      assert y in Erased(live, i);
    }
  }

  lemma OwnsSame(h: Heap, h': Heap, live: seq<Held>)
    requires OwnedExactly(h, live) && SameBlocks(h, h')
    ensures OwnedExactly(h', live)
  {
    forall x | x in live ensures Covered(h', x) {
      var m: nat :| Block(h, x.ptr, m) && (x.size <= m <==> Fits(x.size));
      assert Block(h', x.ptr, m);
    }
    forall a: nat | Owned(h', a) ensures Owned(h, a) {
      var m: nat :| Block(h', a, m);
      assert Block(h, a, m);
    }
  }

  lemma HeadKnown(h: Heap, c: nat)
    requires Valid(h, 0) && c < NUM_CLASSES
    ensures h.classes[c].firstSlab == At(h.order[c], 0)
    ensures h.order[c] != [] ==> h.order[c][0] in h.headers && h.order[c][0] != 0
  {
    assert ClassOk(h, c, 0);
    ListMembers(h, c, 0);
  }

  /** A null head means an empty free list. */
  ghost predicate Heads(h: Heap, list: seq<nat>)
  {
    forall p | p in list :: p != 0 && p in h.headers && p in h.free && (h.headers[p].freeHead == 0 ==> h.free[p] == [])
  }

  lemma ClassList(h: Heap, c: nat)
    requires Valid(h, 0) && c < NUM_CLASSES
    ensures Linked(h.headers, h.order[c], c) && Heads(h, h.order[c]) && h.classes[c].firstSlab == At(h.order[c], 0)
  {
    assert ClassOk(h, c, 0);
    ListMembers(h, c, 0);
    forall p | p in h.order[c] ensures p != 0 && (h.headers[p].freeHead == 0 ==> h.free[p] == []) {
      if h.headers[p].freeHead == 0 {
        NullHead(h, p);
      }
    }
  }

  lemma NullHead(h: Heap, p: nat)
    requires p in h.headers && SlabOk(h, p) && h.headers[p].freeHead == 0
    ensures h.free[p] == []
  {
  }

  /** The slab's links are null exactly at the ends, and name other slabs. */
  ghost predicate Neighbourly(headers: map<nat, Header>, list: seq<nat>, i: nat)
  {
    && i < |list| && list[i] in headers
    && var s := headers[list[i]];
       && (s.prev != 0 <==> i > 0) && (s.next != 0 <==> i + 1 < |list|)
       && (s.prev != 0 <==> s.prev in headers) && (s.next != 0 <==> s.next in headers)
       && s.prev != list[i] && s.next != list[i]
  }

  lemma Neighbours(headers: map<nat, Header>, list: seq<nat>, c: nat, i: nat)
    requires Linked(headers, list, c) && i < |list| && 0 !in headers
    ensures Neighbourly(headers, list, i)
  {
    var s := headers[list[i]];
    if i > 0 {
      assert s.prev == list[i - 1] && list[i - 1] in headers;
    }
    if i + 1 < |list| {
      assert s.next == list[i + 1] && list[i + 1] in headers;
    }
  }

  /** Where slab `p` stands in its class. */
  lemma Position(h: Heap, p: nat) returns (i: nat)
    requires Valid(h, p) && p in h.headers
    ensures var c := h.headers[p].index;
      && c < NUM_CLASSES && i < |h.order[c]| && h.order[c][i] == p && Linked(h.headers, h.order[c], c)
      && h.classes[c] == SizeClass(|h.order[c]|, At(h.order[c], 0)) && 0 !in h.headers
      && p in h.free && h.headers[p].freeChunks == |h.free[p]|
      && (h.headers[p].freeChunks == Chunks(c) && |h.order[c]| > 1 ==> Removable(h, c, i))
  {
    assert SlabOk(h, p);
    var c := h.headers[p].index;
    assert ClassOk(h, c, p);
    i :| 0 <= i < |h.order[c]| && h.order[c][i] == p;
  }

  lemma Settles(h: Heap, p: nat)
    requires Valid(h, p) && p in h.headers
    requires !(h.headers[p].freeChunks == Chunks(h.headers[p].index) && h.classes[h.headers[p].index].numSlabs > 1)
    ensures Valid(h, 0)
  {
    var i := Position(h, p);
    FreeAtMost(h, p);
    Settle(h, p);
  }

  lemma UnlinkedKinds(h: Heap, c: nat, i: nat)
    requires Removable(h, c, i) && h.order[c][i] in h.headers && h.classes[c].numSlabs > 0
    ensures SameKinds(h, WithoutSlab(h, c, i))
  {
    forall q | q in h.headers && q in WithoutSlab(h, c, i).headers
      ensures WithoutSlab(h, c, i).headers[q].index == h.headers[q].index
    {
      UnlinkedSame(h.headers, h.order[c][i], q);
    }
  }

  /** A block in a slab page is a chunk of that slab. */
  lemma Decode(h: Heap, a: nat, n: nat) returns (k: nat)
    requires Valid(h, 0) && Block(h, a, n) && PageOf(a) in h.first && h.first[PageOf(a)] == SLAB_MAGIC
    ensures ChunkBlock(h, PageOf(a), k, a, n)
  {
    if LargeBlock(h, a, n) {
      var b := a - SIZE_HEADER;
      assert InLarge(h, b, b);
      SamePage(b, a);
      assert false;
    }
    var p, j :| ChunkBlock(h, p, j, a, n);
    ChunkDecodes(h, p, j, a, n);
    k := j;
  }

  lemma GiveRemoves(h: Heap, p: nat, k: nat, a: nat, n: nat)
    requires Valid(h, 0) && ChunkBlock(h, p, k, a, n)
    ensures Valid(Give(h, p, k), p) && Removed(h, Give(h, p, k), a)
  {
    GiveValid(h, p, k);
    ChunkRemoved(h, Give(h, p, k), p, k, a, n);
  }

  lemma CoversNext(b: nat, i: nat)
    requires b % PAGE_SIZE == 0
    ensures forall q :: Covers(b, i + 1, q) <==> Covers(b, i, q) || q == b + i * PAGE_SIZE
    ensures !Covers(b, i, b + i * PAGE_SIZE)
  {
  }

  lemma LargeHeader(h: Heap, a: nat, n: nat)
    requires Valid(h, 0) && LargeBlock(h, a, n)
    ensures var b := a - SIZE_HEADER;
      && PageOf(a) == b && b in h.large && b in h.first && h.first[b] == h.large[b] && 0 < h.large[b] < SLAB_MAGIC
      && h.large[b] == (n + SIZE_HEADER) / PAGE_SIZE && b % PAGE_SIZE == 0
  {
    var b := a - SIZE_HEADER;
    assert InLarge(h, b, b);
    SamePage(b, a);
  }

  /** The first word of a block's page tells which allocator made it. */
  lemma BlockPage(h: Heap, a: nat, n: nat)
    requires Valid(h, 0) && Block(h, a, n)
    ensures PageOf(a) in h.first && a != 0
    ensures h.first[PageOf(a)] == SLAB_MAGIC <==> !LargeBlock(h, a, n)
    ensures PageOf(a) != 0
  {
    if LargeBlock(h, a, n) {
      LargeHeader(h, a, n);
    } else {
      var p, k :| ChunkBlock(h, p, k, a, n);
      ChunkDecodes(h, p, k, a, n);
      assert SlabOk(h, p);
    }
  }
}
