/** The kernel heap: a cursor over the top-level slots behind the kernel's own,
    and the allocations cut from it. */
module KernelHeap {
  import opened Common
  import opened Pmm
  import opened PageTables
  import opened Addresses
  import opened Vmm

  const KERNEL_DATA := Flags(true, false, false, true, false)

  // ---------- Words as numbers ----------

  function Bit(b: bool): nat { if b then 1 else 0 }

  function LowBits(n: nat): (bool, bool, bool, bool, bool)
  {
    (n % 2 == 1, n / 2 % 2 == 1, n / 2 / 2 % 2 == 1, n / 2 / 2 / 2 % 2 == 1, n / 2 / 2 / 2 / 2 % 2 == 1)
  }

  function LowNumber(b: (bool, bool, bool, bool, bool)): nat
  {
    Bit(b.0) + 2 * (Bit(b.1) + 2 * (Bit(b.2) + 2 * (Bit(b.3) + 2 * Bit(b.4))))
  }

  lemma LowBitsRoundTrip(n: nat)
    requires n < 32
    ensures LowNumber(LowBits(n)) == n
    ensures n < 16 ==> !LowBits(n).4
  {
  }

  function Assemble(low: (bool, bool, bool, bool, bool), mid: (bool, bool, bool, bool, bool), top: nat): Entry
  {
    Entry(low.0, low.1, low.2, low.3, low.4, mid.0, mid.1, mid.2, mid.3,
          top % 8, top / 8 % 0x100_0000_0000, top / 0x800_0000_0000 % 2048, top / 0x40_0000_0000_0000 % 2 == 1)
  }

  /** The 64-bit number `n` seen as a table entry, field by field. */
  function WordOf(n: nat): Entry
  {
    Assemble(LowBits(n % 32), LowBits(n / 32 % 16), n / 512)
  }

  function HighNumber(e: Entry): nat
  {
    e.avl + 8 * (e.addr + 0x100_0000_0000 * (e.hi + 2048 * Bit(e.nx)))
  }

  function NumberIn(e: Entry): nat
  {
    LowNumber((e.p, e.rw, e.us, e.pwt, e.pcd)) + 32 * LowNumber((e.a, e.d, e.ps, e.g, false)) + 512 * HighNumber(e)
  }

  lemma AssembledParts(low: (bool, bool, bool, bool, bool), mid: (bool, bool, bool, bool, bool), top: nat)
    requires !mid.4 && top < 0x80_0000_0000_0000
    ensures var e := Assemble(low, mid, top);
      && (e.p, e.rw, e.us, e.pwt, e.pcd) == low
      && (e.a, e.d, e.ps, e.g, false) == mid
      && HighNumber(e) == top
  {
    HighFields(top);
  }

  lemma SplitNumber(n: nat)
    ensures n % 32 + 32 * (n / 32 % 16) + 512 * (n / 512) == n
  {
  }

  lemma WordRoundTrip(n: nat)
    requires n < WORD
    ensures NumberIn(WordOf(n)) == n
  {
    var x, y, top := n % 32, n / 32 % 16, n / 512;
    SplitNumber(n);
    assert x < 32 && y < 16 && top < 0x80_0000_0000_0000;
    PartsRoundTrip(x, y, top);
  }

  method WordFor(n: nat) returns (e: Entry)
    requires n < WORD
    ensures NumberIn(e) == n
  {
    WordRoundTrip(n);
    e := WordOf(n);
  }

  lemma PartsRoundTrip(x: nat, y: nat, top: nat)
    requires x < 32 && y < 16 && top < 0x80_0000_0000_0000
    ensures NumberIn(Assemble(LowBits(x), LowBits(y), top)) == x + 32 * y + 512 * top
  {
    LowBitsRoundTrip(x);
    LowBitsRoundTrip(y);
    AssembledParts(LowBits(x), LowBits(y), top);
  }

  lemma HighFields(top: nat)
    requires top < 0x80_0000_0000_0000
    ensures top == top % 8 + 8 * (top / 8 % 0x100_0000_0000
      + 0x100_0000_0000 * (top / 0x800_0000_0000 % 2048 + 2048 * Bit(top / 0x40_0000_0000_0000 % 2 == 1)))
  {
    var a := top / 8;
    var b := top / 0x800_0000_0000;
    assert b == a / 0x100_0000_0000;
    assert a == a % 0x100_0000_0000 + 0x100_0000_0000 * b;
    assert b == b % 2048 + 2048 * (b / 2048);
    assert b / 2048 == top / 0x40_0000_0000_0000;
  }

  // ---------- The heap ----------

  /** Every page of space `root` has a number below `n`. */
  ghost predicate AllBelow(pages: imap<Place, Entry>, root: nat, n: nat)
  {
    forall p: seq<nat> | |p| == LEVELS && Place(root, p) in pages :: Number(p) < n
  }

  lemma NextIsUnmapped(m: Memory, o: Spaces, free: set<nat>, p: seq<nat>, frame: nat)
    requires Inv(m, o, free) && IsPath(p) && Owns(o, o.kernelRoot, p)
    requires AllBelow(Pages(m, o), o.kernelRoot, Number(p))
    ensures Place(o.kernelRoot, p) !in Pages(m, o)
    ensures Replaced(m, o, o.kernelRoot, p, frame) == {}
  {
    assert Lookup(m, o.kernelRoot, p).None?;
  }

  lemma NextAllBelow(pages: imap<Place, Entry>, root: nat, p: seq<nat>, e: Entry)
    requires |p| == LEVELS && AllBelow(pages, root, Number(p))
    ensures AllBelow(pages[Place(root, p) := e], root, Number(p) + 1)
  {
  }

  /** Pages of `pages0` that are still mapped keep their contents when only
      tables and free frames are written. */
  lemma ContentsKept(pages0: imap<Place, Entry>, m0: Memory, m: Memory, m': Memory, o: Spaces, free: set<nat>)
    requires Inv(m, o, free) && SameContents(pages0, m0, m)
    requires forall k: Place | k in pages0 :: k in Pages(m, o) && Pages(m, o)[k] == pages0[k]
    requires forall f: nat | f !in free && NotTable(m, o, f) :: m'[f] == m[f]
    ensures SameContents(pages0, m0, m')
  {
    forall k: Place | k in pages0 && pages0[k].addr < MAX_NUM_FRAMES ensures m'[pages0[k].addr] == m0[pages0[k].addr] {
      PageNotTable(m, o, free, k);
    }
  }

  /** While nothing of `pages0` lies in the range, mapping the range leaves all
      of `pages0` mapped. */
  lemma RangeApart(pages0: imap<Place, Entry>, pages: imap<Place, Entry>, free: set<nat>, root: nat, first: nat, count: nat)
    requires AllBelow(pages0, root, first) && RangeMapped(pages0, pages, free, root, first, count, KERNEL_DATA)
    ensures forall k: Place | k in pages0 :: k in pages && pages[k] == pages0[k]
  {
  }

  /** One more page at the end of a range, in a space with nothing beyond. */
  lemma RangeExtends(pages0: imap<Place, Entry>, m0: Memory, mid: imap<Place, Entry>, m: Memory, free: set<nat>,
                     after: imap<Place, Entry>, m': Memory, o: Spaces, free0: set<nat>, first: nat, page: nat, p: seq<nat>)
    requires RangeMapped(pages0, mid, free0, o.kernelRoot, first, page, KERNEL_DATA)
    requires SameContents(pages0, m0, m) && AllBelow(pages0, o.kernelRoot, first)
    requires Inv(m, o, free) && mid == Pages(m, o) && free <= free0
    requires IsPath(p) && Number(p) == first + page
    requires var k := Place(o.kernelRoot, p);
      k in after && after == mid[k := after[k]] && after[k].addr in free && Maps(after[k], after[k].addr, KERNEL_DATA)
    requires forall f: nat | f !in free && NotTable(m, o, f) :: m'[f] == m[f]
    ensures RangeMapped(pages0, after, free0, o.kernelRoot, first, page + 1, KERNEL_DATA)
    ensures SameContents(pages0, m0, m')
  {
    RangeGrows(pages0, mid, after, free0, o.kernelRoot, first, page, KERNEL_DATA, p);
    RangeApart(pages0, mid, free0, o.kernelRoot, first, page);
    ContentsKept(pages0, m0, m, m', o, free);
  }

  lemma PagesInUse(m: Memory, o: Spaces, free: set<nat>)
    requires Inv(m, o, free)
    ensures forall k | k in Pages(m, o) :: Pages(m, o)[k].addr !in free
    ensures forall f | f in free :: f !in o.reserved
  {
    forall k | k in Pages(m, o) ensures Pages(m, o)[k].addr !in free {
      PageReached(m, o, k);
    }
  }

  lemma ContentsBeside(pages0: imap<Place, Entry>, m0: Memory, m: Memory, m': Memory, free0: set<nat>, f: nat)
    requires SameContents(pages0, m0, m) && f in free0
    requires forall k | k in pages0 :: pages0[k].addr !in free0
    requires forall g: nat | g < MAX_NUM_FRAMES && g != f :: m'[g] == m[g]
    ensures SameContents(pages0, m0, m')
  {
  }

  /** The first `count` pages from `first` on are unmapped, all others as before. */
  ghost predicate RangeUnmapped(before: imap<Place, Entry>, after: imap<Place, Entry>, root: nat, first: nat, count: nat)
  {
    && (forall k: Place :: k in after <==> k in before && !(k.space == root && InRange(k.path, first, count)))
    && (forall k: Place | k in after :: after[k] == before[k])
  }

  lemma RangeShrinks(before: imap<Place, Entry>, mid: imap<Place, Entry>, after: imap<Place, Entry>,
                     free0: set<nat>, free: set<nat>, free': set<nat>, root: nat, first: nat, count: nat, next: seq<nat>)
    requires RangeUnmapped(before, mid, root, first, count)
    requires forall f: nat :: f in free <==> f in free0 || HeldPage(before, root, first, count, f)
    requires IsPath(next) && Number(next) == first + count
    requires var k := Place(root, next);
      && after == (imap x | x in mid && x != k :: mid[x])
      && free' == free + (if k in mid then {mid[k].addr} else {})
    ensures RangeUnmapped(before, after, root, first, count + 1)
    ensures forall f: nat :: f in free' <==> f in free0 || HeldPage(before, root, first, count + 1, f)
  {
    var k := Place(root, next);
    forall p: seq<nat> ensures InRange(p, first, count + 1) <==> InRange(p, first, count) || p == next {
      RangeStep(p, first, count, next);
    }
    RangeStep(next, first, count, next);
    assert k in mid <==> k in before;
    assert InRange(next, first, count + 1);
    forall f: nat
      ensures HeldPage(before, root, first, count + 1, f) <==>
        HeldPage(before, root, first, count, f) || (k in before && before[k].addr == f)
    {
    }
  }

  lemma ContentsLeft(m0: Memory, m: Memory, m': Memory, o: Spaces, free: set<nat>, left: imap<Place, Entry>)
    requires Inv(m, o, free) && SameContents(Pages(m, o), m0, m)
    requires forall k: Place | k in left :: k in Pages(m, o) && Pages(m, o)[k] == left[k]
    requires forall f: nat | NotTable(m, o, f) :: m'[f] == m[f]
    ensures SameContents(left, m0, m')
  {
    forall k: Place | k in left && left[k].addr < MAX_NUM_FRAMES ensures m'[left[k].addr] == m0[left[k].addr] {
      PageNotTable(m, o, free, k);
    }
  }

  lemma NothingInRange(pages: imap<Place, Entry>, root: nat, first: nat)
    ensures RangeUnmapped(pages, pages, root, first, 0)
    ensures forall f: nat :: !HeldPage(pages, root, first, 0, f)
  {
  }

  lemma AlignedCanonical(virt: nat, page: nat, n: nat)
    requires page % PAGE_SIZE == 0 && page <= virt < page + PAGE_SIZE
    requires Canonical(n) <= virt < Canonical(n) + PAGE_SIZE
    ensures page == Canonical(n)
  {
    CanonicalAligned(n);
    assert page / PAGE_SIZE == virt / PAGE_SIZE == Canonical(n) / PAGE_SIZE;
  }

  lemma TopBounds(n: nat, p: seq<nat>)
    requires IsPath(p) && n == Number(p)
    ensures p[0] * SLOT_PAGES <= n < (p[0] + 1) * SLOT_PAGES
  {
  }

  lemma RangeInUse(pages0: imap<Place, Entry>, pages: imap<Place, Entry>, free0: set<nat>, root: nat,
                   first: nat, count: nat, reserved: iset<nat>)
    requires RangeMapped(pages0, pages, free0, root, first, count, KERNEL_DATA)
    requires forall f | f in free0 :: f !in reserved
    ensures forall q: seq<nat> | InRange(q, first, count) && Place(root, q) in pages ::
      pages[Place(root, q)].addr !in reserved
  {
  }

  lemma AllocFreeCancel(pages0: imap<Place, Entry>, pages1: imap<Place, Entry>, pages2: imap<Place, Entry>,
                        free0: set<nat>, root: nat, first: nat, count: nat)
    requires AllBelow(pages0, root, first) && RangeMapped(pages0, pages1, free0, root, first, count, KERNEL_DATA)
    requires RangeUnmapped(pages1, pages2, root, first, count)
    ensures pages2 == pages0
  {
    forall k: Place ensures k in pages2 <==> k in pages0 {
      assert k in pages0 && k.space == root && |k.path| == LEVELS ==> Number(k.path) < first;
    }
  }

  /** A cursor before the end of the heap is in one of its slots. */
  lemma InHeap(h: Heap, start: nat, end: nat)
    requires h.Valid() && start * SLOT_PAGES <= Number(h.Path()) < end * SLOT_PAGES
    ensures start <= h.pml4Idx < end
  {
  }

  lemma TopOf(p: seq<nat>, end: nat)
    requires |p| == 4 && Number(p) < end * SLOT_PAGES && end <= RADIX
    ensures p[0] < end
  {
  }

  lemma BehindSlot(p: seq<nat>, top: nat)
    requires |p| == LEVELS && top <= p[0]
    ensures top * SLOT_PAGES <= Number(p)
  {
  }

  lemma OwnPath(p: seq<nat>, start: nat, end: nat)
    requires IsPath(p) && start * SLOT_PAGES <= Number(p) < end * SLOT_PAGES
    ensures start <= p[0] < end
  {
  }

  /** map_heap_page on a process's own heap: the page at the cursor is mapped in
      that user space alone, and the cursor moves on. */
  method MapUserHeapPage(vm: AddressSpaces, root: nat, uheap: Heap, frame: nat, flags: Flags)
    returns (r: Option<nat>, next: Heap)
    requires vm.Valid() && root in vm.users && uheap.Valid() && uheap.pml4Idx < vm.kernelStart
    requires Detached(vm.mem, vm.Owners(), vm.pmm.Free(), frame)
    modifies vm`mem, vm.pmm, vm.pmm.bitmap
    ensures vm.Valid() && vm.pmm.Drift() == old(vm.pmm.Drift()) && next.Valid()
    ensures r.None? ==> next == uheap && vm.Mapped() == old(vm.Mapped()) && vm.Leaked() == old(vm.Leaked())
    ensures r.Some? ==>
      var k := Place(root, uheap.Path());
      && r.value == Canonical(Number(k.path)) && Indices(r.value) == k.path
      && Number(next.Path()) == Number(uheap.Path()) + 1
      && k in vm.Mapped() && Maps(vm.Mapped()[k], frame, flags)
      && vm.Mapped() == old(vm.Mapped())[k := vm.Mapped()[k]]
      && vm.Leaked() == old(vm.Leaked()) - {frame} +
           (if k in old(vm.Mapped()) then {old(vm.Mapped())[k].addr} else {})
  {
    var virt, after := StepCursor(uheap);
    var p := uheap.Path();
    ReplacedPage(vm.mem, vm.Owners(), vm.pmm.Free(), root, p, frame);
    var ok := vm.MapAt(root, p, frame, flags);
    if ok {
      return Some(virt), after;
    }
    return None, uheap;
  }

  class Allocator {
    const vm: AddressSpaces
    var kheap: Heap

    constructor AfterBoot(vm: AddressSpaces)
      requires vm.Valid() && 256 <= vm.kernelStart && vm.kernelStart + 1 < vm.heapEnd
      requires AllBelow(vm.Mapped(), vm.kernelRoot, (vm.kernelStart + 1) * SLOT_PAGES)
      ensures Valid() && this.vm == vm && kheap == Heap(vm.kernelStart + 1, 0, 0, 0)
    {
      this.vm, kheap := vm, Heap(vm.kernelStart + 1, 0, 0, 0);
    }

    ghost function Next(): nat
      reads this
    {
      Number(kheap.Path())
    }

    /** The first page number of the heap, and the first one behind it. */
    ghost function First(): nat { (vm.kernelStart + 1) * SLOT_PAGES }
    ghost function End(): nat { vm.heapEnd * SLOT_PAGES }

    /** The cursor is in the heap or just behind it, and all mapped pages of the
        heap lie below it. */
    ghost predicate Valid()
      reads this, vm, vm.pmm, vm.pmm.bitmap
    {
      && vm.Valid() && kheap.Valid() && 256 <= vm.kernelStart
      && First() <= Next() <= End()
      && AllBelow(vm.Mapped(), vm.kernelRoot, Next())
    }

    /** map_heap_page on the kernel heap: maps the page at the cursor, which was
        unmapped, and moves the cursor on. A user space sees the page exactly if
        it held the entry of its top-level slot. */
    method MapHeapPage(frame: nat, flags: Flags) returns (r: Option<nat>)
      requires Valid() && Next() < End()
      requires Detached(vm.mem, vm.Owners(), vm.pmm.Free(), frame) || frame in vm.reserved
      modifies this`kheap, vm`mem, vm.pmm, vm.pmm.bitmap
      ensures Valid() && vm.pmm.Drift() == old(vm.pmm.Drift()) && vm.pmm.Free() <= old(vm.pmm.Free())
      ensures forall f: nat | f !in old(vm.pmm.Free()) && NotTable(old(vm.mem), vm.Owners(), f) ::
        vm.mem[f] == old(vm.mem)[f]
      ensures r.Some? ==>
        var k := Place(vm.kernelRoot, old(kheap).Path());
        && r.value == Canonical(old(Next())) && Indices(r.value) == k.path && r.value % PAGE_SIZE == 0
        && Next() == old(Next()) + 1
        && k !in old(vm.Mapped()) && k in vm.Mapped()
        && vm.Mapped() == old(vm.Mapped())[k := vm.Mapped()[k]] && Maps(vm.Mapped()[k], frame, flags)
        && vm.Leaked() == old(vm.Leaked()) - {frame}
        && k.path[0] < NUM_PT_ENTRIES && SeenBy(old(vm.mem), vm.mem, vm.Owners(), k.path)
      ensures SameUpper(old(vm.mem), vm.mem, vm.Owners())
    {
      InHeap(kheap, vm.kernelStart + 1, vm.heapEnd);
      ghost var o := vm.Owners();
      var p := kheap.Path();
      var virt, next := StepCursor(kheap);
      NextIsUnmapped(vm.mem, o, vm.pmm.Free(), p, frame);
      var ok := vm.MapAt(vm.kernelRoot, p, frame, flags);
      if !ok { return None; }
      NextAllBelow(old(vm.Mapped()), vm.kernelRoot, p, vm.Mapped()[Place(vm.kernelRoot, p)]);
      SeenExactly(old(vm.mem), vm.mem, o, vm.pmm.Free(), p);
      kheap := next;
      r := Some(virt);
    }

    /** map_phys: a device or firmware page at the same offset in the heap. */
    method MapPhys(phys: nat, flags: Flags) returns (r: Option<nat>)
      requires Valid() && Next() < End()
      requires phys / PAGE_SIZE in vm.reserved || Detached(vm.mem, vm.Owners(), vm.pmm.Free(), phys / PAGE_SIZE)
      modifies this`kheap, vm`mem, vm.pmm, vm.pmm.bitmap
      ensures Valid() && vm.pmm.Drift() == old(vm.pmm.Drift())
      ensures r.Some? ==>
        var k := Place(vm.kernelRoot, Indices(r.value));
        && r.value % PAGE_SIZE == phys % PAGE_SIZE && k !in old(vm.Mapped()) && k in vm.Mapped()
        && vm.Mapped() == old(vm.Mapped())[k := vm.Mapped()[k]]
        && Maps(vm.Mapped()[k], phys / PAGE_SIZE, flags.(write := true, global := true))
        && vm.Leaked() == old(vm.Leaked()) - {phys / PAGE_SIZE}
        && k.path[0] < NUM_PT_ENTRIES && SeenBy(old(vm.mem), vm.mem, vm.Owners(), k.path)
      ensures SameUpper(old(vm.mem), vm.mem, vm.Owners())
    {
      r := MapHeapPage(phys / PAGE_SIZE, flags.(write := true, global := true));
      if r.Some? {
        var virt := AtOffset(r.value, phys);
        r := Some(virt);
      }
    }

    /** A fresh frame at the cursor: alloc_frame followed by map_heap_page. */
    method MapFreshPage() returns (r: Option<nat>)
      requires Valid() && Next() < End()
      modifies this`kheap, vm`mem, vm.pmm, vm.pmm.bitmap
      ensures Valid() && vm.pmm.Drift() == old(vm.pmm.Drift()) && vm.pmm.Free() <= old(vm.pmm.Free())
      ensures forall f: nat | f !in old(vm.pmm.Free()) && NotTable(old(vm.mem), vm.Owners(), f) ::
        vm.mem[f] == old(vm.mem)[f]
      ensures r.Some? ==>
        var k := Place(vm.kernelRoot, old(kheap).Path());
        && r.value == Canonical(old(Next())) && Indices(r.value) == k.path && r.value % PAGE_SIZE == 0
        && Next() == old(Next()) + 1
        && k !in old(vm.Mapped()) && k in vm.Mapped() && vm.Mapped()[k].addr in old(vm.pmm.Free())
        && vm.Mapped() == old(vm.Mapped())[k := vm.Mapped()[k]]
        && Maps(vm.Mapped()[k], vm.Mapped()[k].addr, KERNEL_DATA)
        && vm.Leaked() == old(vm.Leaked())
        && k.path[0] < NUM_PT_ENTRIES && SeenBy(old(vm.mem), vm.mem, vm.Owners(), k.path)
      ensures SameUpper(old(vm.mem), vm.mem, vm.Owners())
    {
      ghost var o := vm.Owners();
      var frame := vm.TakeFrame();
      if frame.None? { return None; }
      Claim(vm.mem, o, old(vm.pmm.Free()), frame.value);
      r := MapHeapPage(frame.value, KERNEL_DATA);
    }

    /** free_kernel_page, and each round of free_kernel: gives back the page at
        a heap address. Giving back a device page would break the rule that no
        device frame is free. */
    method UnmapHeapPage(virt: nat)
      requires Valid() && virt % PAGE_SIZE == 0 && vm.kernelStart < Indices(virt)[0] < vm.heapEnd
      requires var k := Place(vm.kernelRoot, Indices(virt));
        k in vm.Mapped() ==> vm.Mapped()[k].addr < MAX_NUM_FRAMES
      modifies vm`mem, vm.pmm, vm.pmm.bitmap
      ensures vm.pmm.Valid() && vm.pmm.Drift() == old(vm.pmm.Drift()) && vm.Leaked() == old(vm.Leaked())
      ensures var k := Place(vm.kernelRoot, Indices(virt));
        && (Valid() <==> !(k in old(vm.Mapped()) && old(vm.Mapped())[k].addr in vm.reserved))
        && vm.Mapped() == (imap x | x in old(vm.Mapped()) && x != k :: old(vm.Mapped())[x])
        && vm.pmm.Free() == old(vm.pmm.Free()) +
             (if k in old(vm.Mapped()) then {old(vm.Mapped())[k].addr} else {})
      ensures forall f: nat | NotTable(old(vm.mem), vm.Owners(), f) :: vm.mem[f] == old(vm.mem)[f]
    {
      vm.UnmapPage(vm.kernelRoot, virt);
    }

    /** The first `page` rounds of map_heap_pages, from page number `first` on,
        have been done. */
    ghost predicate AllocatedSoFar(pages0: imap<Place, Entry>, m0: Memory, leaked0: set<nat>, free0: set<nat>,
                                   first: nat, page: nat)
      reads this, vm, vm.pmm, vm.pmm.bitmap
    {
      && Valid() && vm.Leaked() == leaked0 && vm.pmm.Free() <= free0
      && Next() == first + page
      && RangeMapped(pages0, vm.Mapped(), free0, vm.kernelRoot, first, page, KERNEL_DATA)
      && SameContents(pages0, m0, vm.mem)
      && AllBelow(pages0, vm.kernelRoot, first)
      && SameUpper(m0, vm.mem, vm.Owners())
    }

    method AllocRound(ghost first: nat, ghost page: nat, ghost pages0: imap<Place, Entry>, ghost m0: Memory,
                      ghost leaked0: set<nat>, ghost free0: set<nat>)
      returns (r: Option<nat>)
      requires AllocatedSoFar(pages0, m0, leaked0, free0, first, page)
      requires Next() < End()
      modifies this`kheap, vm`mem, vm.pmm, vm.pmm.bitmap
      ensures Valid() && vm.pmm.Drift() == old(vm.pmm.Drift())
      ensures r.Some? ==> AllocatedSoFar(pages0, m0, leaked0, free0, first, page + 1)
      ensures r.Some? ==> r.value == Canonical(old(Next()))
    {
      ghost var mid, m, free, p := vm.Mapped(), vm.mem, vm.pmm.Free(), kheap.Path();
      InHeap(kheap, vm.kernelStart + 1, vm.heapEnd);
      r := MapFreshPage();
      if r.Some? {
        RangeExtends(pages0, m0, mid, m, free, vm.Mapped(), vm.mem, vm.Owners(), free0, first, page, p);
      }
    }

    /** The first word of page `p` is the number `count`. */
    ghost predicate HeaderIs(p: seq<nat>, count: nat)
      reads this, vm
    {
      var k := Place(vm.kernelRoot, p);
      && k in vm.Mapped() && vm.Mapped()[k].addr < MAX_NUM_FRAMES
      && NumberIn(vm.mem[vm.Mapped()[k].addr][0]) == count
    }

    /** The loop of map_heap_pages. No page at all leaves it without a first
        page, which the kernel treats as fatal. */
    method AllocPages(count: nat) returns (r: Option<nat>)
      requires Valid() && Next() + count <= End()
      modifies this`kheap, vm`mem, vm.pmm, vm.pmm.bitmap
      ensures Valid() && vm.pmm.Drift() == old(vm.pmm.Drift())
      ensures r.Some? ==>
        && count > 0 && r.value == Canonical(old(Next()))
        && AllocatedSoFar(old(vm.Mapped()), old(vm.mem), old(vm.Leaked()), old(vm.pmm.Free()), old(Next()), count)
      ensures count == 0 ==>
        kheap == old(kheap) && vm.mem == old(vm.mem) && vm.pmm.Free() == old(vm.pmm.Free())
    {
      ghost var pages0, m0, leaked0, free0, n0 := vm.Mapped(), vm.mem, vm.Leaked(), vm.pmm.Free(), Next();
      RangeEmpty(pages0, free0, vm.kernelRoot, n0, KERNEL_DATA);
      r := None;
      for page := 0 to count
        invariant vm.pmm.Valid() && vm.pmm.Drift() == old(vm.pmm.Drift())
        invariant AllocatedSoFar(pages0, m0, leaked0, free0, n0, page)
        invariant r == if page == 0 then None else Some(Canonical(n0))
        invariant page == 0 ==> kheap == old(kheap) && vm.mem == old(vm.mem) && vm.pmm.Free() == old(vm.pmm.Free())
      {
        var next := AllocRound(n0, page, pages0, m0, leaked0, free0);
        if next.None? { return None; }
        if r.None? {
          r := next;
        }
      }
    }

    method WriteHeader(p: seq<nat>, count: nat, ghost pages0: imap<Place, Entry>, ghost m0: Memory,
                       ghost leaked0: set<nat>, ghost free0: set<nat>, ghost first: nat)
      requires AllocatedSoFar(pages0, m0, leaked0, free0, first, count) && count < WORD
      requires InRange(p, first, count)
      requires forall f | f in free0 :: f !in vm.reserved
      requires forall k | k in pages0 :: pages0[k].addr !in free0
      modifies vm`mem
      ensures AllocatedSoFar(pages0, m0, leaked0, free0, first, count) && HeaderIs(p, count)
    {
      ghost var f := vm.Mapped()[Place(vm.kernelRoot, p)].addr;
      assert f in free0;
      ghost var m := vm.mem;
      StoreNumber(p, count);
      ContentsBeside(pages0, m0, m, vm.mem, free0, f);
      SameUpperTwice(m0, m, vm.mem, vm.Owners());
    }

    method StoreNumber(p: seq<nat>, n: nat)
      requires Valid() && n < WORD && |p| == LEVELS && Place(vm.kernelRoot, p) in vm.Mapped()
      requires vm.Mapped()[Place(vm.kernelRoot, p)].addr !in vm.reserved
      modifies vm`mem
      ensures Valid() && vm.Mapped() == old(vm.Mapped()) && vm.Leaked() == old(vm.Leaked()) && HeaderIs(p, n)
      ensures SameUpper(old(vm.mem), vm.mem, vm.Owners())
      ensures forall g: nat | g < MAX_NUM_FRAMES && g != vm.Mapped()[Place(vm.kernelRoot, p)].addr ::
        vm.mem[g] == old(vm.mem)[g]
    {
      var word := WordFor(n);
      vm.StoreWord(vm.kernelRoot, p, 0, word);
    }

    /** `p` is the first page of an allocation of `count` pages: it is mapped in
        the heap, its first word is `count`, and no page of the allocation is
        device memory. */
    ghost predicate IsAllocation(p: seq<nat>, count: nat)
      reads this, vm
    {
      && IsPath(p) && First() <= Number(p) && HeaderIs(p, count)
      && Number(p) + count <= End()
      && forall q: seq<nat> | InRange(q, Number(p), count) && Place(vm.kernelRoot, q) in vm.Mapped() ::
           vm.Mapped()[Place(vm.kernelRoot, q)].addr !in vm.reserved
    }

    /** alloc_kernel: contiguous, previously unmapped pages that hold a header
        word with their number. The request fits behind the header exactly if
        adding header and rounding does not pass 64 bits. */
    method AllocKernel(bytes: nat) returns (r: Option<nat>)
      requires Valid() && bytes < WORD && Next() + PagesFor(bytes) <= End()
      modifies this`kheap, vm`mem, vm.pmm, vm.pmm.bitmap
      ensures Valid() && vm.pmm.Drift() == old(vm.pmm.Drift())
      ensures r.Some? ==>
        && r.value == Canonical(old(Next())) + SIZE_HEADER && PagesFor(bytes) > 0
        && AllocatedSoFar(old(vm.Mapped()), old(vm.mem), old(vm.Leaked()), old(vm.pmm.Free()),
                          old(Next()), PagesFor(bytes))
        && IsAllocation(old(kheap).Path(), PagesFor(bytes))
        && (SIZE_HEADER + bytes <= PagesFor(bytes) * PAGE_SIZE <==> bytes + SIZE_HEADER + PAGE_SIZE - 1 < WORD)
    {
      ghost var pages0, m0, leaked0, free0, n0 := vm.Mapped(), vm.mem, vm.Leaked(), vm.pmm.Free(), Next();
      var count, p := PagesFor(bytes), kheap.Path();
      PagesInUse(vm.mem, vm.Owners(), free0);
      r := AllocPages(count);
      if r.Some? {
        FinishAllocation(p, count, pages0, m0, leaked0, free0, n0);
        PagesForCovers(bytes);
        r := Some(r.value + SIZE_HEADER);
      }
    }

    /** The end of map_heap_pages: the header goes into the first page. */
    method FinishAllocation(p: seq<nat>, count: nat, ghost pages0: imap<Place, Entry>, ghost m0: Memory,
                            ghost leaked0: set<nat>, ghost free0: set<nat>, ghost n0: nat)
      requires AllocatedSoFar(pages0, m0, leaked0, free0, n0, count) && 0 < count < WORD
      requires |p| == LEVELS && p[1] < RADIX && p[2] < RADIX && p[3] < RADIX
      requires n0 == Number(p) && First() <= n0
      requires forall f | f in free0 :: f !in vm.reserved
      requires forall k | k in pages0 :: pages0[k].addr !in free0
      modifies vm`mem
      ensures AllocatedSoFar(pages0, m0, leaked0, free0, n0, count) && IsAllocation(p, count)
    {
      TopOf(p, vm.heapEnd);
      WriteHeader(p, count, pages0, m0, leaked0, free0, n0);
      RangeInUse(pages0, vm.Mapped(), free0, vm.kernelRoot, n0, count, vm.reserved);
    }

    /** Exactly the user spaces that held the entry of a page's top-level slot
        when it was allocated see the page. */
    lemma AllocationSeen(m0: Memory, pages0: imap<Place, Entry>, leaked0: set<nat>, free0: set<nat>,
                         first: nat, count: nat, p: seq<nat>)
      requires AllocatedSoFar(pages0, m0, leaked0, free0, first, count) && Synced(m0, vm.Owners())
      requires InRange(p, first, count)
      ensures p[0] < NUM_PT_ENTRIES && SeenBy(m0, vm.mem, vm.Owners(), p)
    {
      SeenExactly(m0, vm.mem, vm.Owners(), vm.pmm.Free(), p);
    }

    /** The first `page` rounds of free_kernel have been done. */
    ghost predicate FreedSoFar(pages0: imap<Place, Entry>, m0: Memory, leaked0: set<nat>, free0: set<nat>,
                               first: nat, page: nat)
      reads this, vm, vm.pmm, vm.pmm.bitmap
    {
      && Valid() && vm.Leaked() == leaked0
      && RangeUnmapped(pages0, vm.Mapped(), vm.kernelRoot, first, page)
      && SameContents(vm.Mapped(), m0, vm.mem)
      && forall f: nat :: f in vm.pmm.Free() <==> f in free0 || HeldPage(pages0, vm.kernelRoot, first, page, f)
    }

    /** UnmapHeapPage on anything but a device page. */
    method UnmapOrdinary(virt: nat, ghost p: seq<nat>)
      requires Valid() && virt % PAGE_SIZE == 0 && Indices(virt) == p && vm.kernelStart < p[0] < vm.heapEnd
      requires var k := Place(vm.kernelRoot, p); k in vm.Mapped() ==> vm.Mapped()[k].addr !in vm.reserved
      modifies vm`mem, vm.pmm, vm.pmm.bitmap
      ensures Valid() && vm.pmm.Drift() == old(vm.pmm.Drift()) && vm.Leaked() == old(vm.Leaked())
      ensures var k := Place(vm.kernelRoot, p);
        && vm.Mapped() == (imap x | x in old(vm.Mapped()) && x != k :: old(vm.Mapped())[x])
        && vm.pmm.Free() == old(vm.pmm.Free()) +
             (if k in old(vm.Mapped()) then {old(vm.Mapped())[k].addr} else {})
      ensures forall f: nat | NotTable(old(vm.mem), vm.Owners(), f) :: vm.mem[f] == old(vm.mem)[f]
    {
      ghost var k := Place(vm.kernelRoot, p);
      if k in vm.Mapped() {
        PageReached(vm.mem, vm.Owners(), k);
      }
      UnmapHeapPage(virt);
    }

    method FreeRound(virt: nat, ghost p: seq<nat>, ghost pages0: imap<Place, Entry>, ghost m0: Memory,
                     ghost leaked0: set<nat>, ghost free0: set<nat>, ghost first: nat, ghost page: nat)
      requires FreedSoFar(pages0, m0, leaked0, free0, first, page)
      requires virt % PAGE_SIZE == 0 && Indices(virt) == p && vm.kernelStart < p[0] < vm.heapEnd
      requires IsPath(p) && Number(p) == first + page
      requires Place(vm.kernelRoot, p) in pages0 ==> pages0[Place(vm.kernelRoot, p)].addr !in vm.reserved
      modifies vm`mem, vm.pmm, vm.pmm.bitmap
      ensures FreedSoFar(pages0, m0, leaked0, free0, first, page + 1)
      ensures vm.pmm.Drift() == old(vm.pmm.Drift())
    {
      ghost var mid, m, free := vm.Mapped(), vm.mem, vm.pmm.Free();
      UnmapOrdinary(virt, p);
      ContentsLeft(m0, m, vm.mem, vm.Owners(), free, vm.Mapped());
      RangeShrinks(pages0, mid, vm.Mapped(), free0, free, vm.pmm.Free(), vm.kernelRoot, first, page, p);
    }

    /** free_kernel: unmaps exactly the pages counted in the header and gives
        back exactly their frames. */
    method FreeKernel(virt: nat, ghost count: nat)
      requires Valid() && (virt != 0 ==> InOwnPage(virt) && IsAllocation(Indices(virt), count))
      modifies vm`mem, vm.pmm, vm.pmm.bitmap
      ensures vm.pmm.Valid() && vm.pmm.Drift() == old(vm.pmm.Drift())
      ensures FreedSoFar(old(vm.Mapped()), old(vm.mem), old(vm.Leaked()), old(vm.pmm.Free()),
                         Number(Indices(virt)), if virt == 0 then 0 else count)
    {
      ghost var pages0, m0, leaked0, free0, n0 :=
        vm.Mapped(), vm.mem, vm.Leaked(), vm.pmm.Free(), Number(Indices(virt));
      NothingInRange(pages0, vm.kernelRoot, n0);
      if virt == 0 { return; }
      var page := PageAlign(virt);
      AlignedCanonical(virt, page, n0);
      TopBounds(n0, Indices(virt));
      var numPages := ReadHeader(page, count);
      FreePages(page, numPages, pages0, m0, leaked0, free0, n0);
    }

    method FreePages(page: nat, count: nat, ghost pages0: imap<Place, Entry>, ghost m0: Memory, ghost leaked0: set<nat>,
                     ghost free0: set<nat>, ghost n0: nat)
      requires FreedSoFar(pages0, m0, leaked0, free0, n0, 0)
      requires page == Canonical(n0) && First() <= n0 && n0 + count <= End()
      requires forall q: seq<nat> | InRange(q, n0, count) && Place(vm.kernelRoot, q) in pages0 ::
        pages0[Place(vm.kernelRoot, q)].addr !in vm.reserved
      modifies vm`mem, vm.pmm, vm.pmm.bitmap
      ensures FreedSoFar(pages0, m0, leaked0, free0, n0, count)
      ensures vm.pmm.Drift() == old(vm.pmm.Drift())
    {
      for i := 0 to count
        invariant vm.pmm.Valid() && vm.pmm.Drift() == old(vm.pmm.Drift())
        invariant FreedSoFar(pages0, m0, leaked0, free0, n0, i)
      {
        var next, p := NthPage(page, i, n0);
        OwnPath(p, vm.kernelStart + 1, vm.heapEnd);
        FreeRound(next, p, pages0, m0, leaked0, free0, n0, i);
      }
    }

    method ReadHeader(page: nat, ghost count: nat) returns (n: nat)
      requires Valid() && HeaderIs(Indices(page), count)
      ensures n == count
    {
      assert Reaches(vm.mem, vm.Owners(), vm.kernelRoot, [], vm.kernelRoot);
      var pte := vm.FindPte(vm.kernelRoot, page);
      n := NumberIn(vm.mem[vm.mem[pte.value.0][pte.value.1].addr][0]);
    }

    /** free_kernel on the pointer that alloc_kernel returned. */
    method FreeAllocation(virt: nat, ghost p: seq<nat>, ghost count: nat)
      requires Valid() && IsAllocation(p, count) && virt == Canonical(Number(p)) + SIZE_HEADER
      modifies vm`mem, vm.pmm, vm.pmm.bitmap
      ensures FreedSoFar(old(vm.Mapped()), old(vm.mem), old(vm.Leaked()), old(vm.pmm.Free()), Number(p), count)
    {
      InsidePage(p, SIZE_HEADER);
      FreeKernel(virt, count);
    }

    /** What alloc_kernel maps, free_kernel unmaps, and nothing is lost. */
    method AllocThenFree(bytes: nat) returns (ok: bool)
      requires Valid() && bytes < WORD && Next() + PagesFor(bytes) <= End()
      modifies this`kheap, vm`mem, vm.pmm, vm.pmm.bitmap
      ensures Valid()
      ensures ok ==> vm.Mapped() == old(vm.Mapped()) && vm.Leaked() == old(vm.Leaked())
    {
      ghost var pages0, n0, count := vm.Mapped(), Next(), PagesFor(bytes);
      var r := AllocKernel(bytes);
      if r.None? { return false; }
      ghost var pages1 := vm.Mapped();
      FreeAllocation(r.value, old(kheap).Path(), count);
      AllocFreeCancel(pages0, pages1, vm.Mapped(), old(vm.pmm.Free()), vm.kernelRoot, n0, count);
      ok := true;
    }

    /** While the heap has not left the slot that init_kheap populated, every user
        space translates every kernel-half address as the kernel does. */
    lemma KernelHalfAgrees(u: nat, q: seq<nat>)
      requires Valid() && vm.kernelStart + 1 in vm.shared && Next() <= (vm.kernelStart + 2) * SLOT_PAGES
      requires u in vm.users && IsPath(q) && vm.kernelStart <= q[0]
      ensures Lookup(vm.mem, u, q) == Lookup(vm.mem, vm.kernelRoot, q)
    {
      KernelHalfShared(vm.mem, vm.Owners(), u, q);
      if vm.kernelStart + 1 < q[0] < vm.heapEnd {
        BehindSlot(q, vm.kernelStart + 2);
        assert Place(vm.kernelRoot, q) !in vm.Mapped();
      }
    }

    /** Where the kernel half stops being shared: once the cursor has left the
        slot that init_kheap populated, the next page is the kernel's alone, and
        every user space that exists at that moment fails to translate it. */
    method MapBeyondShared() returns (r: Option<nat>)
      requires Valid() && kheap == Heap(vm.kernelStart + 2, 0, 0, 0) && vm.kernelStart + 2 < vm.heapEnd
      requires !vm.mem[vm.kernelRoot][vm.kernelStart + 2].p
      modifies this`kheap, vm`mem, vm.pmm, vm.pmm.bitmap
      ensures Valid()
      ensures r.Some? ==>
        && Lookup(vm.mem, vm.kernelRoot, Indices(r.value)).Some?
        && forall u: nat | u in vm.users :: Lookup(vm.mem, u, Indices(r.value)) == None
    {
      ghost var m0 := vm.mem;
      r := MapFreshPage();
      if r.Some? {
        SeenExactly(m0, vm.mem, vm.Owners(), vm.pmm.Free(), old(kheap).Path());
      }
    }
  }

  /** The cursor does leave a slot: its last page is followed by the first page
      of the next one. */
  lemma CursorLeavesSlot(top: nat)
    ensures AdvanceHeap(Heap(top, 511, 511, 511)) == Heap(top + 1, 0, 0, 0)
    ensures Number(Heap(top, 511, 511, 511).Path()) + 1 == (top + 1) * SLOT_PAGES
  {
  }
}
