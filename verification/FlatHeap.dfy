/** The heap that the slab allocator and kmalloc work on, a flat map from page
    addresses to first words, is what they see of the kernel's address space:
    alloc_kernel and free_kernel change the two alike. */
module FlatHeap {
  import opened Common
  import opened Pmm
  import opened PageTables
  import opened Addresses
  import opened Vmm
  import opened KernelHeap
  import Slab
  import SlabLists
  import Kmalloc

  const UPPER_HALF: nat := 0x8_0000_0000

  /** Page number `n` of space `root` is mapped to ordinary memory. */
  ghost predicate Held(pages: imap<Place, Entry>, root: nat, n: nat)
  {
    Place(root, Path(n)) in pages && pages[Place(root, Path(n))].addr < MAX_NUM_FRAMES
  }

  ghost function FirstWord(pages: imap<Place, Entry>, m: Memory, root: nat, n: nat): nat
  {
    if Held(pages, root, n) then NumberIn(m[pages[Place(root, Path(n))].addr][0]) else 0
  }

  ghost predicate ShownAs(a: nat, word: nat, n: nat, pages: imap<Place, Entry>, m: Memory, root: nat)
  {
    UPPER_HALF <= n < PAGE_NUMBERS && a == Canonical(n) && Held(pages, root, n) && word == FirstWord(pages, m, root, n)
  }

  /** Every address in `first` is that of a mapped page with that first word. */
  ghost predicate Shows(first: map<nat, nat>, pages: imap<Place, Entry>, m: Memory, root: nat)
  {
    forall a | a in first :: exists n: nat :: ShownAs(a, first[a], n, pages, m, root)
  }

  /** The `count` pages from number `n` on, at `b` and behind it, are added. */
  ghost function Grown(first: map<nat, nat>, pages: imap<Place, Entry>, m: Memory, root: nat, n: nat, b: nat,
                       count: nat): map<nat, nat>
  {
    map a | a in first.Keys + (set x: nat | b <= x < b + count * PAGE_SIZE && Slab.Covers(b, count, x)) ::
      if a in first then first[a] else FirstWord(pages, m, root, n + Index(b, a))
  }

  function Index(b: nat, a: nat): (i: nat) { if b <= a then (a - b) / PAGE_SIZE else 0 }

  lemma IndexOf(b: nat, count: nat, a: nat)
    requires b % PAGE_SIZE == 0 && Slab.Covers(b, count, a)
    ensures Index(b, a) < count && a == b + Index(b, a) * PAGE_SIZE
  {
  }

  /** Page `i` of the range that starts with page `n` at address `b`. */
  ghost predicate NthHeld(pages: imap<Place, Entry>, root: nat, n: nat, b: nat, i: nat)
  {
    && UPPER_HALF <= n && n + i < PAGE_NUMBERS && Held(pages, root, n + i)
    && b + i * PAGE_SIZE == Canonical(n + i)
  }

  lemma GrownGains(first: map<nat, nat>, pages: imap<Place, Entry>, m: Memory, root: nat, n: nat, b: nat, count: nat)
    requires b % PAGE_SIZE == 0 && (forall a | a in first :: a < b) && count > 0
    ensures var first' := Grown(first, pages, m, root, n, b, count);
      && SlabLists.Gains(first, first', b, count)
      && b in first' && first'[b] == FirstWord(pages, m, root, n)
  {
    assert Slab.Covers(b, count, b);
    IndexOf(b, count, b);
  }

  lemma GrownShows(first: map<nat, nat>, pages: imap<Place, Entry>, m: Memory, root: nat, n: nat, b: nat, count: nat)
    requires Shows(first, pages, m, root) && b % PAGE_SIZE == 0
    requires forall i: nat | i < count :: NthHeld(pages, root, n, b, i)
    ensures Shows(Grown(first, pages, m, root, n, b, count), pages, m, root)
  {
    var first' := Grown(first, pages, m, root, n, b, count);
    forall a | a in first' ensures exists k: nat :: ShownAs(a, first'[a], k, pages, m, root) {
      if a in first {
        var k := ShownNumber(first, pages, m, root, a);
      } else {
        IndexOf(b, count, a);
        NthShown(pages, m, root, n, b, Index(b, a));
      }
    }
  }

  lemma NthShown(pages: imap<Place, Entry>, m: Memory, root: nat, n: nat, b: nat, i: nat)
    requires NthHeld(pages, root, n, b, i)
    ensures ShownAs(b + i * PAGE_SIZE, FirstWord(pages, m, root, n + i), n + i, pages, m, root)
  {
  }

  /** A page that stays mapped to the same contents is shown as before. */
  lemma StillShown(a: nat, word: nat, k: nat, pages0: imap<Place, Entry>, m0: Memory, pages: imap<Place, Entry>,
                   m: Memory, root: nat)
    requires ShownAs(a, word, k, pages0, m0, root)
    requires var key := Place(root, Path(k));
      key in pages && pages[key] == pages0[key] && m[pages[key].addr] == m0[pages[key].addr]
    ensures ShownAs(a, word, k, pages, m, root)
  {
  }

  lemma ShownBelow(a: nat, word: nat, k: nat, pages0: imap<Place, Entry>, m0: Memory, root: nat, n: nat)
    requires ShownAs(a, word, k, pages0, m0, root) && AllBelow(pages0, root, n) && n <= PAGE_NUMBERS
    ensures n < PAGE_NUMBERS ==> a < Canonical(n)
  {
    NumberOfPath(k);
    if n < PAGE_NUMBERS {
      CanonicalStep(k, n - k);
    }
  }

  lemma ShownKept(first: map<nat, nat>, pages0: imap<Place, Entry>, m0: Memory, pages: imap<Place, Entry>, m: Memory,
                  root: nat, n: nat, b: nat)
    requires Shows(first, pages0, m0, root) && AllBelow(pages0, root, n) && n < PAGE_NUMBERS && b == Canonical(n)
    requires SameContents(pages0, m0, m)
    requires forall k: Place | k in pages0 :: k in pages && pages[k] == pages0[k]
    ensures Shows(first, pages, m, root)
    ensures forall a | a in first :: a < b
  {
    forall a | a in first ensures a < b && exists k: nat :: ShownAs(a, first[a], k, pages, m, root) {
      var k := ShownNumber(first, pages0, m0, root, a);
      ShownBelow(a, first[a], k, pages0, m0, root, n);
      StillShown(a, first[a], k, pages0, m0, pages, m, root);
    }
  }

  lemma ShownNumber(first: map<nat, nat>, pages: imap<Place, Entry>, m: Memory, root: nat, a: nat) returns (k: nat)
    requires Shows(first, pages, m, root) && a in first
    ensures ShownAs(a, first[a], k, pages, m, root)
  {
    k :| ShownAs(a, first[a], k, pages, m, root);
  }

  /** Mapping a range at the end of the heap is a gain of the flat heap. */
  lemma MappedAsGains(first: map<nat, nat>, pages0: imap<Place, Entry>, m0: Memory, pages: imap<Place, Entry>,
                      m: Memory, free0: set<nat>, root: nat, n: nat, b: nat, count: nat)
    requires Shows(first, pages0, m0, root) && UPPER_HALF <= n && n + count <= PAGE_NUMBERS && count > 0
    requires RangeMapped(pages0, pages, free0, root, n, count, KERNEL_DATA) && AllBelow(pages0, root, n)
    requires SameContents(pages0, m0, m) && (forall f | f in free0 :: f < MAX_NUM_FRAMES) && b == Canonical(n)
    ensures var first' := Grown(first, pages, m, root, n, b, count);
      && SlabLists.Gains(first, first', b, count) && Shows(first', pages, m, root)
      && b in first' && first'[b] == FirstWord(pages, m, root, n)
  {
    RangeApart(pages0, pages, free0, root, n, count);
    ShownKept(first, pages0, m0, pages, m, root, n, b);
    CanonicalAligned(n);
    RangeHeld(pages0, pages, free0, root, n, b, count);
    GrownGains(first, pages, m, root, n, b, count);
    GrownShows(first, pages, m, root, n, b, count);
  }

  lemma RangeHeld(pages0: imap<Place, Entry>, pages: imap<Place, Entry>, free0: set<nat>, root: nat, n: nat,
                  b: nat, count: nat)
    requires RangeMapped(pages0, pages, free0, root, n, count, KERNEL_DATA)
    requires UPPER_HALF <= n && n + count <= PAGE_NUMBERS && b == Canonical(n)
    requires forall f | f in free0 :: f < MAX_NUM_FRAMES
    ensures forall i: nat | i < count :: NthHeld(pages, root, n, b, i)
  {
    forall i: nat | i < count ensures NthHeld(pages, root, n, b, i) {
      CanonicalStep(n, i);
      NumberOfPath(n + i);
      assert InRange(Path(n + i), n, count);
    }
  }

  ghost function Shrunk(first: map<nat, nat>, b: nat, count: nat): map<nat, nat>
  {
    map a | a in first && !Slab.Covers(b, count, a) :: first[a]
  }

  lemma OutsideRange(a: nat, k: nat, n: nat, count: nat)
    requires UPPER_HALF <= n && n + count <= PAGE_NUMBERS && k < PAGE_NUMBERS
    requires a == Canonical(k) && !Slab.Covers(Canonical(n), count, a)
    ensures !InRange(Path(k), n, count)
  {
    NumberOfPath(k);
    if n <= k < n + count {
      CanonicalStep(n, k - n);
      CanonicalAligned(k);
    }
  }

  /** Unmapping a range is a loss of the flat heap. */
  lemma UnmappedAsLoses(first: map<nat, nat>, pages: imap<Place, Entry>, m: Memory, pages': imap<Place, Entry>,
                        m': Memory, root: nat, n: nat, count: nat)
    requires Shows(first, pages, m, root) && UPPER_HALF <= n && n + count <= PAGE_NUMBERS
    requires RangeUnmapped(pages, pages', root, n, count) && SameContents(pages', m, m')
    ensures var first' := Shrunk(first, Canonical(n), count);
      SlabLists.Loses(first, first', Canonical(n), count) && Shows(first', pages', m', root)
  {
    var first' := Shrunk(first, Canonical(n), count);
    forall a | a in first' ensures exists k: nat :: ShownAs(a, first'[a], k, pages', m', root) {
      var k: nat :| ShownAs(a, first[a], k, pages, m, root);
      OutsideRange(a, k, n, count);
      StillShown(a, first[a], k, pages, m, pages', m', root);
    }
  }

  ghost predicate Seen(first: map<nat, nat>, heap: Allocator)
    reads heap.vm
  {
    Shows(first, heap.vm.Mapped(), heap.vm.mem, heap.vm.kernelRoot)
  }

  /** alloc_kernel, seen flat: the returned block starts behind the size word of
      exactly the pages gained, as in the heap under kmalloc. */
  method AllocSeen(heap: Allocator, bytes: nat, ghost first: map<nat, nat>)
    returns (r: Option<nat>, ghost first': map<nat, nat>)
    requires heap.Valid() && bytes < WORD && heap.Next() + PagesFor(bytes) <= heap.End() && Seen(first, heap)
    modifies heap`kheap, heap.vm`mem, heap.vm.pmm, heap.vm.pmm.bitmap
    ensures heap.Valid()
    ensures r.Some? ==>
      var b := Canonical(old(heap.Next()));
      && r.value == b + SIZE_HEADER && Seen(first', heap)
      && SlabLists.Gains(first, first', b, PagesFor(bytes)) && b in first' && first'[b] == PagesFor(bytes)
  {
    ghost var pages0, m0, free0, n := heap.vm.Mapped(), heap.vm.mem, heap.vm.pmm.Free(), heap.Next();
    r := heap.AllocKernel(bytes);
    first' := first;
    if r.Some? {
      first' := SeenAfterAlloc(heap, first, pages0, m0, old(heap.vm.Leaked()), free0, n, PagesFor(bytes),
                               old(heap.kheap).Path());
    }
  }

  lemma SeenAfterAlloc(heap: Allocator, first: map<nat, nat>, pages0: imap<Place, Entry>, m0: Memory,
                       leaked0: set<nat>, free0: set<nat>, n: nat, count: nat, p: seq<nat>)
    returns (first': map<nat, nat>)
    requires Shows(first, pages0, m0, heap.vm.kernelRoot) && forall f | f in free0 :: f < MAX_NUM_FRAMES
    requires heap.AllocatedSoFar(pages0, m0, leaked0, free0, n, count) && count > 0
    requires heap.IsAllocation(p, count) && n == Number(p)
    ensures SlabLists.Gains(first, first', Canonical(n), count) && Seen(first', heap)
    ensures Canonical(n) in first' && first'[Canonical(n)] == count
  {
    var root, pages, m := heap.vm.kernelRoot, heap.vm.Mapped(), heap.vm.mem;
    HeapBounds(heap.vm.kernelStart, heap.vm.heapEnd);
    MappedAsGains(first, pages0, m0, pages, m, free0, root, n, Canonical(n), count);
    PathOfNumber(p);
    first' := Grown(first, pages, m, root, n, Canonical(n), count);
  }

  lemma HeapBounds(start: nat, end: nat)
    requires 256 <= start && end <= RADIX
    ensures UPPER_HALF <= (start + 1) * SLOT_PAGES && end * SLOT_PAGES <= PAGE_NUMBERS
  {
  }

  /** free_kernel, seen flat: exactly the block's pages are lost. */
  method FreeSeen(heap: Allocator, virt: nat, ghost p: seq<nat>, ghost count: nat, ghost first: map<nat, nat>)
    returns (ghost first': map<nat, nat>)
    requires heap.Valid() && heap.IsAllocation(p, count) && virt == Canonical(Number(p)) + SIZE_HEADER
    requires Seen(first, heap)
    modifies heap.vm`mem, heap.vm.pmm, heap.vm.pmm.bitmap
    ensures heap.Valid() && Seen(first', heap)
    ensures SlabLists.Loses(first, first', virt - SIZE_HEADER, count)
  {
    ghost var pages, m, n := heap.vm.Mapped(), heap.vm.mem, Number(p);
    HeapBounds(heap.vm.kernelStart, heap.vm.heapEnd);
    heap.FreeAllocation(virt, p, count);
    UnmappedAsLoses(first, pages, m, heap.vm.Mapped(), heap.vm.mem, heap.vm.kernelRoot, n, count);
    first' := Shrunk(first, Canonical(n), count);
  }
}
