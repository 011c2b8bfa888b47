/** The virtual memory manager: mapping, unmapping, creating, cloning and
    freeing address spaces over the frame allocator. */
module Vmm {
  import opened Common
  import opened Pmm
  import opened PageTables
  import opened Addresses
  import opened Cloning

  datatype Flags = Flags(write: bool, user: bool, cacheDisable: bool, global: bool, nx: bool)

  const USER_TABLE := Flags(false, true, false, false, false)

  /** What the populate functions do to an entry that leads to a table; only
      the top level leaves bit 7 alone. */
  function PopulateTable(e: Entry, depth: nat, frame: nat, flags: Flags): Entry
  {
    e.(p := true, rw := true, us := flags.user, pwt := false, pcd := false, a := false,
       ps := if depth == 0 then e.ps else false, addr := frame)
  }

  function PopulatePte(e: Entry, frame: nat, flags: Flags): Entry
  {
    e.(p := true, rw := flags.write, us := flags.user, pwt := false, pcd := flags.cacheDisable,
       a := false, d := false, ps := false, g := flags.global, addr := frame, nx := flags.nx)
  }

  ghost predicate Maps(e: Entry, frame: nat, flags: Flags)
  {
    e.p && e.addr == frame && e.rw == flags.write && e.us == flags.user && e.pcd == flags.cacheDisable
    && e.g == flags.global && e.nx == flags.nx
  }

  /** Frame `f` held one of the first `count` pages from `first` on. */
  ghost predicate HeldPage(pages: imap<Place, Entry>, root: nat, first: nat, count: nat, f: nat)
  {
    exists p: seq<nat> :: InRange(p, first, count) && Place(root, p) in pages && pages[Place(root, p)].addr == f
  }

  /** The first `count` pages from `first` on are mapped with `flags`, in
      frames taken from `free`; all other pages are as in `before`. */
  ghost predicate RangeMapped(before: imap<Place, Entry>, after: imap<Place, Entry>, free: set<nat>,
                              root: nat, first: nat, count: nat, flags: Flags)
  {
    && (forall k: Place | !(k.space == root && InRange(k.path, first, count)) :: k in after <==> k in before)
    && (forall k: Place | !(k.space == root && InRange(k.path, first, count)) && k in before :: after[k] == before[k])
    && (forall p: seq<nat> | InRange(p, first, count) ::
          && Place(root, p) in after && after[Place(root, p)].addr in free
          && Maps(after[Place(root, p)], after[Place(root, p)].addr, flags))
  }

  lemma RangeGrows(before: imap<Place, Entry>, mid: imap<Place, Entry>, after: imap<Place, Entry>, free: set<nat>,
                   root: nat, first: nat, count: nat, flags: Flags, next: seq<nat>)
    requires RangeMapped(before, mid, free, root, first, count, flags)
    requires IsPath(next) && Number(next) == first + count
    requires var k := Place(root, next);
      k in after && after == mid[k := after[k]] && after[k].addr in free && Maps(after[k], after[k].addr, flags)
    ensures RangeMapped(before, after, free, root, first, count + 1, flags)
    ensures forall f: nat :: HeldPage(before, root, first, count + 1, f) <==>
      HeldPage(before, root, first, count, f) || (Place(root, next) in mid && mid[Place(root, next)].addr == f)
  {
    var k := Place(root, next);
    forall p: seq<nat> ensures InRange(p, first, count + 1) <==> InRange(p, first, count) || p == next {
      RangeStep(p, first, count, next);
    }
    RangeStep(next, first, count, next);
    assert !InRange(k.path, first, count);
    assert k in mid <==> k in before;
    assert InRange(next, first, count + 1);
    forall f: nat
      ensures HeldPage(before, root, first, count + 1, f) <==>
        HeldPage(before, root, first, count, f) || (k in before && before[k].addr == f)
    {
    }
  }

  lemma LossGrows(before: imap<Place, Entry>, leaked0: set<nat>, mid: imap<Place, Entry>, leaked: set<nat>,
                  leaked': set<nat>, root: nat, first: nat, count: nat, next: seq<nat>)
    requires forall f: nat :: f in leaked <==> f in leaked0 || HeldPage(before, root, first, count, f)
    requires leaked' == leaked + var k := Place(root, next); if k in mid then {mid[k].addr} else {}
    requires forall f: nat :: HeldPage(before, root, first, count + 1, f) <==>
      HeldPage(before, root, first, count, f) || (Place(root, next) in mid && mid[Place(root, next)].addr == f)
    ensures forall f: nat :: f in leaked' <==> f in leaked0 || HeldPage(before, root, first, count + 1, f)
  {
  }

  lemma RoundGrows(before: imap<Place, Entry>, mid: imap<Place, Entry>, after: imap<Place, Entry>, free: set<nat>,
                   leaked0: set<nat>, leaked: set<nat>, leaked': set<nat>, root: nat, first: nat, count: nat,
                   flags: Flags, next: seq<nat>)
    requires RangeMapped(before, mid, free, root, first, count, flags)
    requires forall f: nat :: f in leaked <==> f in leaked0 || HeldPage(before, root, first, count, f)
    requires IsPath(next) && Number(next) == first + count
    requires var k := Place(root, next);
      && k in after && after == mid[k := after[k]] && after[k].addr in free && Maps(after[k], after[k].addr, flags)
      && leaked' == leaked + if k in mid then {mid[k].addr} else {}
    ensures RangeMapped(before, after, free, root, first, count + 1, flags)
    ensures forall f: nat :: f in leaked' <==> f in leaked0 || HeldPage(before, root, first, count + 1, f)
  {
    RangeGrows(before, mid, after, free, root, first, count, flags, next);
    LossGrows(before, leaked0, mid, leaked, leaked', root, first, count, next);
  }

  lemma RangeEmpty(pages: imap<Place, Entry>, free: set<nat>, root: nat, first: nat, flags: Flags)
    ensures RangeMapped(pages, pages, free, root, first, 0, flags)
    ensures forall f: nat :: !HeldPage(pages, root, first, 0, f)
  {
  }

  lemma PruneAny(m: Memory, o: Spaces, free: set<nat>, r: nat, p: seq<nat>, h: nat)
    requires Inv(m, o, free) && Owns(o, r, p) && |p| == LEVELS && Last(p) < NUM_PT_ENTRIES
    requires Walk(m, r, Init(p)) == Some(h) && h < MAX_NUM_FRAMES && Lookup(m, r, p) == Some(m[h][Last(p)])
    ensures var g := m[h][Last(p)].addr;
      var m' := SetEntry(m, h, Last(p), ZERO_ENTRY);
      && g !in free && Place(r, p) in Pages(m, o) && Pages(m, o)[Place(r, p)].addr == g
      && (Inv(m', o, free + {g}) <==> g !in o.reserved)
      && Loose(m', o, free + {g}) == Loose(m, o, free)
      && Pages(m', o) == (imap k | k in Pages(m, o) && k != Place(r, p) :: Pages(m, o)[k])
      && forall f: nat | NotTable(m, o, f) :: m'[f] == m[f]
  {
    if m[h][Last(p)].addr in o.reserved {
      PruneDevice(m, o, free, r, p, h);
    } else {
      PrunePage(m, o, free, r, p, h);
    }
  }

  class AddressSpaces {
    const pmm: FrameAllocator
    const kernelRoot: nat
    const kernelStart: nat
    ghost const heapEnd: nat
    ghost const reserved: iset<nat>
    var mem: Memory
    ghost var users: set<nat>
    ghost var shared: set<nat>

    ghost function Owners(): Spaces
      reads this
    {
      Spaces(kernelRoot, kernelStart, heapEnd, shared, users, reserved)
    }

    ghost predicate Valid()
      reads this, pmm, pmm.bitmap
    {
      pmm.Valid() && Inv(mem, Owners(), pmm.Free())
    }

    ghost function Mapped(): imap<Place, Entry>
      reads this
    {
      Pages(mem, Owners())
    }

    ghost function Leaked(): set<nat>
      requires pmm.Valid()
      reads this, pmm, pmm.bitmap
    {
      Loose(mem, Owners(), pmm.Free())
    }

    /** What the boot loader leaves: a kernel table with nothing in the slots
        meant for the heap, in a frame that is neither free nor a device's. */
    constructor Boot(pmm: FrameAllocator, kernelRoot: nat, kernelStart: nat, mem: Memory,
                     ghost heapEnd: nat, ghost reserved: iset<nat>)
      requires pmm.Valid() && kernelRoot < MAX_NUM_FRAMES && kernelRoot !in pmm.Free() && kernelRoot !in reserved
      requires kernelStart < heapEnd <= NUM_PT_ENTRIES
      requires forall i: nat | kernelStart < i < heapEnd :: !mem[kernelRoot][i].p
      requires forall f: nat | f in pmm.Free() :: f !in reserved
      ensures Valid() && users == {} && shared == {} && this.pmm == pmm && this.mem == mem
      ensures this.kernelRoot == kernelRoot && this.kernelStart == kernelStart
      ensures this.heapEnd == heapEnd && this.reserved == reserved
      ensures Mapped() == imap[]
    {
      this.pmm, this.kernelRoot, this.kernelStart, this.mem := pmm, kernelRoot, kernelStart, mem;
      this.heapEnd, this.reserved, users, shared := heapEnd, reserved, {}, {};
      new;
      BootInv(mem, Owners(), pmm.Free());
    }

    /** init_kheap: the three tables for the first page of the slot after the
        kernel's. From then on every user space that is made holds that slot. */
    method InitKheap() returns (ok: bool)
      requires Valid() && users == {} && kernelStart + 1 < heapEnd
      modifies this`mem, this`shared, pmm, pmm.bitmap
      ensures Valid() && users == {} && pmm.Drift() == old(pmm.Drift())
      ensures Mapped() == old(Mapped()) && Leaked() == old(Leaked())
      ensures ok ==> shared == old(shared) + {kernelStart + 1}
    {
      var p := [kernelStart + 1, 0, 0, 0];
      var pt := EnsureTables(kernelRoot, p, Flags(false, false, false, false, false));
      if pt.None? { return false; }
      HeapSlotPresent(mem, Owners(), p, pt.value);
      ShareSlot(mem, Owners(), pmm.Free(), kernelStart + 1);
      shared := shared + {kernelStart + 1};
      ok := true;
    }

    /** alloc_frame, as far as address spaces are concerned. */
    method TakeFrame() returns (r: Option<nat>)
      requires pmm.Valid()
      modifies pmm, pmm.bitmap
      ensures pmm.Valid() && pmm.Drift() == old(pmm.Drift())
      ensures r.Some? ==> r.value in old(pmm.Free()) && pmm.Free() == old(pmm.Free()) - {r.value}
      ensures r.None? ==> pmm.Free() == old(pmm.Free())
    {
      r := pmm.AllocFrame();
    }

    /** The walk of find_pte: the page's entry if all four levels are present. */
    method FindPteAt(root: nat, p: seq<nat>) returns (r: Option<(nat, nat)>)
      requires root < MAX_NUM_FRAMES && |p| == LEVELS
      ensures r.Some? <==> Lookup(mem, root, p).Some?
      ensures r.Some? ==>
        && r.value.0 < MAX_NUM_FRAMES && r.value.1 < NUM_PT_ENTRIES
        && Walk(mem, root, Init(p)) == Some(r.value.0) && r.value.1 == Last(p)
        && Lookup(mem, root, p) == Some(mem[r.value.0][r.value.1])
    {
      FourSteps(mem, root, p);
      if p[0] >= NUM_PT_ENTRIES || !mem[root][p[0]].p { return None; }
      var pdpt := mem[root][p[0]].addr;
      if pdpt >= MAX_NUM_FRAMES || p[1] >= NUM_PT_ENTRIES || !mem[pdpt][p[1]].p { return None; }
      var pd := mem[pdpt][p[1]].addr;
      if pd >= MAX_NUM_FRAMES || p[2] >= NUM_PT_ENTRIES || !mem[pd][p[2]].p { return None; }
      var pt := mem[pd][p[2]].addr;
      if pt >= MAX_NUM_FRAMES || p[3] >= NUM_PT_ENTRIES || !mem[pt][p[3]].p { return None; }
      return Some((pt, p[3]));
    }

    method FindPte(root: nat, virt: nat) returns (r: Option<(nat, nat)>)
      requires root < MAX_NUM_FRAMES
      ensures r.Some? <==> Lookup(mem, root, Indices(virt)).Some?
      ensures r.Some? ==>
        && r.value.0 < MAX_NUM_FRAMES && r.value.1 < NUM_PT_ENTRIES
        && Walk(mem, root, Init(Indices(virt))) == Some(r.value.0) && r.value.1 == Last(Indices(virt))
        && Lookup(mem, root, Indices(virt)) == Some(mem[r.value.0][r.value.1])
    {
      r := FindPteAt(root, Indices(virt));
    }

    /** One ensure_*_present step: the table below entry `i` of table `h`,
        made empty and linked in if it was absent. `None` is the panic. */
    method EnsurePresent(h: nat, i: nat, depth: nat, flags: Flags, ghost root: nat, ghost p: seq<nat>)
      returns (r: Option<nat>)
      requires Valid()
      requires |p| == depth + 1 < LEVELS && Last(p) == i < NUM_PT_ENTRIES
      requires Owns(Owners(), root, p) && Reaches(mem, Owners(), root, Init(p), h)
      modifies this`mem, pmm, pmm.bitmap
      ensures Valid() && pmm.Drift() == old(pmm.Drift())
      ensures r.Some? ==>
        Ensured(old(mem), old(pmm.Free()), mem, pmm.Free(), Owners(), root, p, h, r.value)
      ensures r.None? ==> mem == old(mem) && pmm.Free() == old(pmm.Free())
    {
      ghost var o, free := Owners(), pmm.Free();
      if mem[h][i].p {
        EnsuredPresent(mem, o, free, root, p, h, mem[h][i].addr);
        return Some(mem[h][i].addr);
      }
      r := TakeFrame();
      if r.None? { return; }
      var e := PopulateTable(mem[h][i], depth, r.value, flags);
      EnsuredByGraft(mem, o, free, root, p, h, e);
      mem := SetEntry(mem, h, i, e);
      mem := mem[r.value := ZeroFrame()];
    }

    /** The three ensure_*_present steps on the way to a page's table. */
    method EnsureTables(root: nat, p: seq<nat>, flags: Flags) returns (pt: Option<nat>)
      requires Valid() && IsPath(p) && Owns(Owners(), root, p)
      modifies this`mem, pmm, pmm.bitmap
      ensures Valid() && pmm.Drift() == old(pmm.Drift())
      ensures Mapped() == old(Mapped()) && Leaked() == old(Leaked())
      ensures Deepened(old(mem), old(pmm.Free()), mem, pmm.Free(), Owners())
      ensures pt.Some? ==> Reaches(mem, Owners(), root, Init(p), pt.value)
    {
      assert Init(p) == p[..3] && Init(p[..3]) == p[..2] && Init(p[..2]) == p[..1] && Init(p[..1]) == [];
      ghost var o, m0, free0 := Owners(), mem, pmm.Free();
      assert Reaches(mem, o, root, [], root);
      pt := EnsurePresent(root, p[0], 0, flags, root, p[..1]);
      if pt.None? { return; }
      ghost var m1, free1 := mem, pmm.Free();
      pt := EnsurePresent(pt.value, p[1], 1, flags, root, p[..2]);
      DeepenedTwice(m0, free0, m1, free1, mem, pmm.Free(), o);
      if pt.None? { return; }
      ghost var m2, free2 := mem, pmm.Free();
      pt := EnsurePresent(pt.value, p[2], 2, flags, root, p[..3]);
      DeepenedTwice(m0, free0, m2, free2, mem, pmm.Free(), o);
    }

    /** The body shared by map_page_to_frame and map_heap_page: a flat-map
        update at one page, which loses the frame mapped there before, if any. */
    method MapAt(root: nat, p: seq<nat>, frame: nat, flags: Flags) returns (ok: bool)
      requires Valid() && IsPath(p) && Owns(Owners(), root, p)
      requires Detached(mem, Owners(), pmm.Free(), frame) || (root == kernelRoot && frame in reserved)
      modifies this`mem, pmm, pmm.bitmap
      ensures Valid() && pmm.Drift() == old(pmm.Drift()) && pmm.Free() <= old(pmm.Free())
      ensures forall f: nat | f !in old(pmm.Free()) && NotTable(old(mem), Owners(), f) :: mem[f] == old(mem)[f]
      ensures SameUpper(old(mem), mem, Owners())
      ensures ok ==> Place(root, p) in Mapped() && Maps(Mapped()[Place(root, p)], frame, flags)
      ensures ok ==> Mapped() == old(Mapped())[Place(root, p) := Mapped()[Place(root, p)]]
      ensures ok ==> Leaked() == old(Leaked()) - {frame} + Replaced(old(mem), Owners(), root, p, frame)
      ensures !ok ==> Mapped() == old(Mapped()) && Leaked() == old(Leaked())
    {
      ghost var o := Owners();
      var pt := EnsureTables(root, p, flags);
      if pt.None? { return false; }
      var e := PopulatePte(mem[pt.value][p[3]], frame, flags);
      LinkPage(old(mem), old(pmm.Free()), mem, pmm.Free(), o, root, p, pt.value, e);
      mem := SetEntry(mem, pt.value, p[3], e);
      ok := true;
    }

    /** map_page_to_frame for a page-aligned address. */
    method MapPageToFrame(root: nat, virt: nat, frame: nat, flags: Flags) returns (ok: bool)
      requires Valid() && virt % PAGE_SIZE == 0 && Owns(Owners(), root, Indices(virt))
      requires Detached(mem, Owners(), pmm.Free(), frame)
      modifies this`mem, pmm, pmm.bitmap
      ensures Valid() && pmm.Drift() == old(pmm.Drift()) && pmm.Free() <= old(pmm.Free())
      ensures forall f: nat | f !in old(pmm.Free()) && NotTable(old(mem), Owners(), f) :: mem[f] == old(mem)[f]
      ensures SameUpper(old(mem), mem, Owners())
      ensures var k := Place(root, Indices(virt));
        ok ==>
            && k in Mapped() && Maps(Mapped()[k], frame, flags)
            && Mapped() == old(Mapped())[k := Mapped()[k]]
            && Leaked() == old(Leaked()) - {frame} + Replaced(old(mem), Owners(), root, k.path, frame)
      ensures !ok ==> Mapped() == old(Mapped()) && Leaked() == old(Leaked())
    {
      ok := MapAt(root, Indices(virt), frame, flags);
    }

    /** unmap_page: a flat-map removal that returns the page's frame. An
        unmapped page is left alone. The spaces stay well-formed exactly if the
        page was not a device's, whose frame would become free as well. */
    method UnmapPage(root: nat, virt: nat)
      requires Valid() && virt % PAGE_SIZE == 0 && Owns(Owners(), root, Indices(virt))
      requires var k := Place(root, Indices(virt)); k in Mapped() ==> Mapped()[k].addr < MAX_NUM_FRAMES
      modifies this`mem, pmm, pmm.bitmap
      ensures pmm.Valid() && pmm.Drift() == old(pmm.Drift()) && Leaked() == old(Leaked())
      ensures var k := Place(root, Indices(virt));
        && (Valid() <==> !(k in old(Mapped()) && old(Mapped())[k].addr in reserved))
        && Mapped() == (imap x | x in old(Mapped()) && x != k :: old(Mapped())[x])
        && pmm.Free() == old(pmm.Free()) + (if k in old(Mapped()) then {old(Mapped())[k].addr} else {})
      ensures forall f: nat | NotTable(old(mem), Owners(), f) :: mem[f] == old(mem)[f]
    {
      ghost var o := Owners();
      assert Reaches(mem, o, root, [], root);
      var pte := FindPte(root, virt);
      if pte.None? { return; }
      var pt, i := pte.value.0, pte.value.1;
      PruneAny(mem, o, pmm.Free(), root, Indices(virt), pt);
      pmm.FreeFrame(mem[pt][i].addr);
      mem := SetEntry(mem, pt, i, ZERO_ENTRY);
    }

    /** create_user_pml4: an empty user space under the kernel's upper entries. */
    method CreateUserPml4() returns (r: Option<nat>)
      requires Valid()
      modifies this`mem, this`users, pmm, pmm.bitmap
      ensures Valid() && pmm.Drift() == old(pmm.Drift())
      ensures Mapped() == old(Mapped()) && Leaked() == old(Leaked())
      ensures r.Some? ==>
        && r.value in old(pmm.Free()) && pmm.Free() == old(pmm.Free()) - {r.value}
        && users == old(users) + {r.value} && r.value !in old(users)
        && mem == old(mem)[r.value := mem[r.value]]
        && (forall i: nat | kernelStart <= i < NUM_PT_ENTRIES :: mem[r.value][i] == mem[kernelRoot][i])
        && forall q: seq<nat>, f: nat | Reaches(mem, Owners(), r.value, q, f) :: q == []
      ensures r.None? ==> mem == old(mem) && users == old(users) && pmm.Free() == old(pmm.Free())
    {
      r := NewRootFrame(kernelRoot);
      if r.Some? {
        Enrol(r.value);
      }
    }

    /** A fresh frame, zeroed, with the upper entries of `from`. */
    method NewRootFrame(from: nat) returns (r: Option<nat>)
      requires Valid() && (from in users || from == kernelRoot)
      modifies this`mem, pmm, pmm.bitmap
      ensures Valid() && pmm.Drift() == old(pmm.Drift())
      ensures Mapped() == old(Mapped())
      ensures r.Some? ==>
        && r.value in old(pmm.Free()) && pmm.Free() == old(pmm.Free()) - {r.value}
        && Detached(mem, Owners(), pmm.Free(), r.value)
        && Leaked() == old(Leaked()) + {r.value}
        && mem == old(mem)[r.value := mem[r.value]]
        && (forall i: nat | i < kernelStart :: !mem[r.value][i].p)
        && r.value < MAX_NUM_FRAMES && from < MAX_NUM_FRAMES
        && SameUpperEntries(mem, from, mem, r.value, kernelStart)
      ensures r.None? ==> mem == old(mem) && pmm.Free() == old(pmm.Free())
    {
      ghost var o, free := Owners(), pmm.Free();
      r := TakeFrame();
      if r.None? { return; }
      Claim(mem, o, free, r.value);
      assert !Reaches(mem, o, from, [], r.value);
      assert !Reaches(mem, o, kernelRoot, [], r.value);
      assert NotTable(mem, o, r.value);
      CopyUpperEntries(r.value, from);
      Fill(old(mem), o, pmm.Free(), r.value, mem[r.value]);
    }

    method CopyUpperEntries(g: nat, from: nat)
      requires g < MAX_NUM_FRAMES && from < MAX_NUM_FRAMES && g != from && kernelStart < NUM_PT_ENTRIES
      modifies this`mem
      ensures mem == old(mem)[g := mem[g]]
      ensures forall j: nat | j < kernelStart :: !mem[g][j].p
      ensures forall j: nat | kernelStart <= j < NUM_PT_ENTRIES :: mem[g][j] == old(mem)[from][j]
    {
      mem := mem[g := ZeroFrame()];
      for i := kernelStart to NUM_PT_ENTRIES
        invariant mem == old(mem)[g := mem[g]]
        invariant forall j: nat | j < kernelStart :: !mem[g][j].p
        invariant forall j: nat | kernelStart <= j < i :: mem[g][j] == old(mem)[from][j]
      {
        mem := SetEntry(mem, g, i, mem[from][i]);
      }
    }

    ghost method Enrol(g: nat)
      requires Valid() && Detached(mem, Owners(), pmm.Free(), g)
      requires forall i: nat | i < kernelStart :: !mem[g][i].p
      requires forall i: nat | kernelStart <= i < NUM_PT_ENTRIES ::
        mem[g][i] == mem[kernelRoot][i] || Missed(mem, Owners(), g, i)
      modifies this`users
      ensures Valid() && users == old(users) + {g} && g !in old(users)
      ensures Mapped() == old(Mapped()) && Leaked() == old(Leaked()) - {g}
      ensures Reaches(mem, Owners(), g, [], g)
      ensures forall q: seq<nat>, f: nat | Reaches(mem, Owners(), g, q, f) :: q == []
    {
      AddRoot(mem, Owners(), pmm.Free(), g);
      users := users + {g};
    }

    /** The nested loops of clone_user_pml4, one per level: copies what lies
        below table `src` of space `root` to the empty table `dst` of `copy`. */
    method CloneTable(depth: nat, src: nat, dst: nat, ghost root: nat, ghost copy: nat, ghost p: seq<nat>)
      returns (ok: bool)
      requires Valid() && |p| == depth < LEVELS
      requires Copying(mem, pmm.Free(), Owners(), root, copy, p, src, dst)
      requires dst < MAX_NUM_FRAMES && forall j: nat | j < Limit(kernelStart, depth) :: !mem[dst][j].p
      modifies this`mem, pmm, pmm.bitmap
      decreases LEVELS - depth
      ensures Valid() && pmm.Drift() == old(pmm.Drift()) && Leaked() == old(Leaked())
      ensures ok ==> Cloned(old(mem), old(pmm.Free()), mem, pmm.Free(), Owners(), root, copy, p, dst,
                            Limit(kernelStart, depth))
      ensures ok ==> SameUpper(old(mem), mem, Owners())
    {
      ghost var o, m0, free0 := Owners(), mem, pmm.Free();
      CopyStart(m0, free0, o, root, copy, p, src, dst);
      var limit := if depth == 0 then kernelStart else NUM_PT_ENTRIES;
      for i := 0 to limit
        invariant Valid() && pmm.Drift() == old(pmm.Drift()) && Leaked() == old(Leaked())
        invariant Owners() == o
        invariant Cloned(m0, free0, mem, pmm.Free(), o, root, copy, p, dst, i)
        invariant SameUpper(m0, mem, o)
      {
        ok := CloneEntry(depth, src, dst, i, root, copy, p, m0, free0);
        if !ok { return; }
      }
      ok := true;
    }

    method CloneEntry(depth: nat, src: nat, dst: nat, i: nat, ghost root: nat, ghost copy: nat, ghost p: seq<nat>,
                      ghost m0: Memory, ghost free0: set<nat>)
      returns (ok: bool)
      requires Valid() && |p| == depth < LEVELS
      requires Copying(m0, free0, Owners(), root, copy, p, src, dst)
      requires i < Limit(kernelStart, depth)
      requires Cloned(m0, free0, mem, pmm.Free(), Owners(), root, copy, p, dst, i)
      modifies this`mem, pmm, pmm.bitmap
      decreases LEVELS - depth, 1
      ensures Valid() && pmm.Drift() == old(pmm.Drift()) && Leaked() == old(Leaked())
      ensures ok ==> Cloned(m0, free0, mem, pmm.Free(), Owners(), root, copy, p, dst, i + 1)
      ensures ok ==> SameUpper(old(mem), mem, Owners())
    {
      ghost var o, m, free := Owners(), mem, pmm.Free();
      CopyContext(m0, free0, m, free, o, root, copy, p, src, dst, i);
      if !mem[src][i].p {
        CopyAbsent(m0, free0, m, free, o, root, copy, p, src, dst, i);
        return true;
      }
      if depth == LEVELS - 1 {
        ok := ClonePage(src, dst, i, root, copy, p, m0, free0);
        return;
      }
      ok := CloneChild(depth, src, dst, i, root, copy, p, m0, free0);
    }

    method CloneChild(depth: nat, src: nat, dst: nat, i: nat, ghost root: nat, ghost copy: nat, ghost p: seq<nat>,
                      ghost m0: Memory, ghost free0: set<nat>)
      returns (ok: bool)
      requires Valid() && |p| == depth < LEVELS - 1
      requires Copying(m0, free0, Owners(), root, copy, p, src, dst)
      requires Cloned(m0, free0, mem, pmm.Free(), Owners(), root, copy, p, dst, i)
      requires src < MAX_NUM_FRAMES && i < Limit(kernelStart, depth) && i < NUM_PT_ENTRIES && mem[src][i].p
      modifies this`mem, pmm, pmm.bitmap
      decreases LEVELS - depth, 0
      ensures Valid() && pmm.Drift() == old(pmm.Drift()) && Leaked() == old(Leaked())
      ensures ok ==> Cloned(m0, free0, mem, pmm.Free(), Owners(), root, copy, p, dst, i + 1)
      ensures ok ==> SameUpper(old(mem), mem, Owners())
    {
      ghost var o, m, free := Owners(), mem, pmm.Free();
      CopyContext(m0, free0, m, free, o, root, copy, p, src, dst, i);
      var child := EnsurePresent(dst, i, depth, USER_TABLE, copy, p + [i]);
      if child.None? { return false; }
      ghost var m1, free1 := mem, pmm.Free();
      ChildReady(m0, free0, m, free, m1, free1, o, root, copy, p, src, dst, i, child.value);
      ok := CloneTable(depth + 1, mem[src][i].addr, child.value, root, copy, p + [i]);
      if ok {
        CopyEntry(m0, free0, m, free, m1, free1, mem, pmm.Free(), o, root, copy, p, src, dst, i, child.value);
      }
    }

    /** The innermost body: a fresh frame with the page's contents, mapped with
        the page's own flags. */
    method ClonePage(src: nat, dst: nat, i: nat, ghost root: nat, ghost copy: nat, ghost p: seq<nat>,
                     ghost m0: Memory, ghost free0: set<nat>)
      returns (ok: bool)
      requires Valid() && |p| == LEVELS - 1 && i < NUM_PT_ENTRIES
      requires Copying(m0, free0, Owners(), root, copy, p, src, dst)
      requires Cloned(m0, free0, mem, pmm.Free(), Owners(), root, copy, p, dst, i)
      requires src < MAX_NUM_FRAMES && mem[src][i].p
      modifies this`mem, pmm, pmm.bitmap
      ensures Valid() && pmm.Drift() == old(pmm.Drift()) && Leaked() == old(Leaked())
      ensures ok ==> Cloned(m0, free0, mem, pmm.Free(), Owners(), root, copy, p, dst, i + 1)
      ensures ok ==> SameUpper(old(mem), mem, Owners())
    {
      ghost var free := pmm.Free();
      var frame := TakeFrame();
      if frame.None? { return false; }
      CopyPage(m0, free0, mem, free, Owners(), root, copy, p, src, dst, i, frame.value);
      CopyUpper(m0, free0, mem, free, Owners(), root, copy, p, src, dst, i, frame.value);
      var page := mem[mem[src][i].addr];
      mem := SetEntry(mem, dst, i, mem[src][i].(addr := frame.value));
      mem := mem[frame.value := page];
      ok := true;
    }

    /** clone_user_pml4. A panic part-way leaves every space well-formed. */
    method CloneUserPml4(root: nat) returns (r: Option<nat>)
      requires Valid() && root in users
      modifies this`mem, this`users, pmm, pmm.bitmap
      ensures Valid() && pmm.Drift() == old(pmm.Drift()) && Leaked() == old(Leaked())
      ensures r.Some? ==>
        && r.value in old(pmm.Free()) && r.value !in old(users) && users == old(users) + {r.value}
        && IsolatedCopy(old(mem), old(pmm.Free()), mem, old(Owners()), Owners(), root, r.value)
        && old(pmm.Free()) == pmm.Free() + FramesOf(mem, Owners(), r.value)
        && pmm.Free() !! FramesOf(mem, Owners(), r.value)
        && r.value < MAX_NUM_FRAMES && root < MAX_NUM_FRAMES
        && SameUpperEntries(old(mem), root, mem, r.value, kernelStart)
    {
      ghost var o0, free0 := Owners(), pmm.Free();
      r := NewRootFrame(root);
      if r.None? { return; }
      InheritsUpper(mem, o0, root, r.value);
      Enrol(r.value);
      ghost var m1, o := mem, Owners();
      assert Reaches(mem, o, root, [], root);
      var ok := CloneTable(0, root, r.value, root, r.value, []);
      if !ok { return None; }
      CloneIsIsolated(old(mem), free0, o0, m1, mem, pmm.Free(), o, root, r.value);
      CloneTakes(old(mem), free0, o0, m1, mem, pmm.Free(), o, root, r.value);
    }

    /** The nested loops of free_user_pml4, one per level: everything below
        table `t` is cleared and its frames returned, each while in use. */
    method FreeTable(depth: nat, t: nat, ghost root: nat, ghost p: seq<nat>)
      requires Valid() && |p| == depth < LEVELS
      requires root in users && Reaches(mem, Owners(), root, p, t)
      modifies this`mem, pmm, pmm.bitmap
      decreases LEVELS - depth
      ensures Valid() && pmm.Drift() == old(pmm.Drift()) && Leaked() == old(Leaked())
      ensures Freed(old(mem), old(pmm.Free()), mem, pmm.Free(), Owners(), root, p, t, Limit(kernelStart, depth))
    {
      ghost var o, m0, free0 := Owners(), mem, pmm.Free();
      var limit := if depth == 0 then kernelStart else NUM_PT_ENTRIES;
      for i := 0 to limit
        invariant Valid() && pmm.Drift() == old(pmm.Drift()) && Leaked() == old(Leaked())
        invariant Freed(m0, free0, mem, pmm.Free(), o, root, p, t, i)
      {
        if mem[t][i].p {
          FreeEntry(depth, t, i, root, p, m0, free0);
        } else {
          FreeAbsent(m0, free0, mem, pmm.Free(), o, root, p, t, i);
        }
      }
    }

    method FreeEntry(depth: nat, t: nat, i: nat, ghost root: nat, ghost p: seq<nat>,
                     ghost m0: Memory, ghost free0: set<nat>)
      requires Valid() && |p| == depth < LEVELS && i < Limit(kernelStart, depth) && i < NUM_PT_ENTRIES
      requires root in users && Reaches(mem, Owners(), root, p, t) && t < MAX_NUM_FRAMES && mem[t][i].p
      requires Freed(m0, free0, mem, pmm.Free(), Owners(), root, p, t, i)
      modifies this`mem, pmm, pmm.bitmap
      decreases LEVELS - depth, 0
      ensures Valid() && pmm.Drift() == old(pmm.Drift()) && Leaked() == old(Leaked())
      ensures Freed(m0, free0, mem, pmm.Free(), Owners(), root, p, t, i + 1)
    {
      ghost var o, m, free := Owners(), mem, pmm.Free();
      var g := mem[t][i].addr;
      FreeContext(m, free, o, root, p, t, i);
      if depth < LEVELS - 1 {
        FreeTable(depth + 1, g, root, p + [i]);
        FreedIsEmptied(m, free, mem, pmm.Free(), o, root, p + [i], g, NUM_PT_ENTRIES);
      } else {
        LeafIsEmptied(m, free, o, root, p + [i], g);
      }
      FreeEmptied(m0, free0, m, free, mem, pmm.Free(), o, root, p, t, i, g);
      pmm.FreeFrame(g);
      mem := SetEntry(mem, t, i, mem[t][i].(p := false));
    }

    /** free_user_pml4: returns exactly the frames of the space, leaves every
        other space alone; the kernel's own space is refused. */
    method FreeUserPml4(root: nat)
      requires Valid() && (root in users || root == kernelRoot)
      modifies this`mem, this`users, pmm, pmm.bitmap
      ensures Valid() && pmm.Drift() == old(pmm.Drift()) && Leaked() == old(Leaked())
      ensures root == kernelRoot ==> mem == old(mem) && users == old(users) && pmm.Free() == old(pmm.Free())
      ensures root != kernelRoot ==>
        && users == old(users) - {root}
        && pmm.Free() == old(pmm.Free()) + FramesOf(old(mem), old(Owners()), root)
        && (forall k: Place :: k in Mapped() <==> k in old(Mapped()) && k.space != root)
        && (forall k: Place | k in Mapped() :: Mapped()[k] == old(Mapped())[k])
        && (forall f: nat | f < MAX_NUM_FRAMES && f !in pmm.Free() :: mem[f] == old(mem)[f])
    {
      if root == kernelRoot { return; }
      ghost var o := Owners();
      assert Reaches(mem, o, root, [], root);
      FreeTable(0, root, root, []);
      DropEmptied(old(mem), old(pmm.Free()), mem, pmm.Free(), o, root);
      mem := mem[root := ZeroFrame()];
      pmm.FreeFrame(root);
      users := users - {root};
    }

    /** Cloning a space and freeing the clone gives back every frame taken and
        brings the counter back to where it was. */
    method CloneThenFree(root: nat) returns (ok: bool)
      requires Valid() && root in users
      modifies this`mem, this`users, pmm, pmm.bitmap
      ensures Valid()
      ensures ok ==> users == old(users) && Mapped() == old(Mapped())
      ensures ok ==> pmm.Free() == old(pmm.Free()) && pmm.freeFrames == old(pmm.freeFrames)
      ensures ok ==> forall f: nat | f < MAX_NUM_FRAMES && f !in pmm.Free() :: mem[f] == old(mem)[f]
    {
      ghost var o, m0, free0 := Owners(), mem, pmm.Free();
      var r := CloneUserPml4(root);
      if r.None? { return false; }
      ghost var o1, m1, free1 := Owners(), mem, pmm.Free();
      FreeUserPml4(r.value);
      CloneFreeCancel(m0, free0, o, m1, free1, o1, mem, pmm.Free(), root, r.value);
      SameCounter(old(pmm.freeFrames), pmm.freeFrames, pmm.Free());
      ok := true;
    }

    /** One round of map_pages: a fresh frame at the page `p`. */
    method MapNext(root: nat, p: seq<nat>, flags: Flags) returns (ok: bool)
      requires Valid() && root in users && IsPath(p) && Owns(Owners(), root, p)
      modifies this`mem, pmm, pmm.bitmap
      ensures Valid() && pmm.Drift() == old(pmm.Drift()) && pmm.Free() <= old(pmm.Free())
      ensures var k := Place(root, p);
        ok ==>
          && k in Mapped() && Mapped()[k].addr in old(pmm.Free()) && Maps(Mapped()[k], Mapped()[k].addr, flags)
          && Mapped() == old(Mapped())[k := Mapped()[k]]
          && Leaked() == old(Leaked()) + (if k in old(Mapped()) then {old(Mapped())[k].addr} else {})
    {
      ghost var o := Owners();
      var frame := TakeFrame();
      if frame.None? { return false; }
      Claim(mem, o, old(pmm.Free()), frame.value);
      ReplacedPage(mem, o, pmm.Free(), root, p, frame.value);
      ok := MapAt(root, p, frame.value, flags);
    }

    /** The first `page` rounds of map_pages have been done: what is lost is
        what the pages held before. */
    ghost predicate MappedSoFar(pages0: imap<Place, Entry>, leaked0: set<nat>, free0: set<nat>,
                                root: nat, first: nat, page: nat, flags: Flags)
      reads this, pmm, pmm.bitmap
    {
      && Valid() && pmm.Free() <= free0
      && RangeMapped(pages0, Mapped(), free0, root, first, page, flags)
      && forall f: nat :: f in Leaked() <==> f in leaked0 || HeldPage(pages0, root, first, page, f)
    }

    /** The loop of map_pages over `count` pages from page number `first` on.
        Mapping over mapped pages replaces them and loses their frames. */
    method MapRange(root: nat, first: nat, count: nat, flags: Flags) returns (ok: bool)
      requires Valid() && root in users && first + count <= kernelStart * SLOT_PAGES
      modifies this`mem, pmm, pmm.bitmap
      ensures Valid() && pmm.Drift() == old(pmm.Drift())
      ensures ok ==> MappedSoFar(old(Mapped()), old(Leaked()), old(pmm.Free()),
                                 root, first, count, flags)
    {
      ghost var pages0, leaked0, free0 := Mapped(), Leaked(), pmm.Free();
      RangeEmpty(pages0, free0, root, first, flags);
      for page := 0 to count
        invariant pmm.Valid() && pmm.Drift() == old(pmm.Drift())
        invariant MappedSoFar(pages0, leaked0, free0, root, first, page, flags)
      {
        ok := MapRound(root, first, page, flags, pages0, leaked0, free0);
        if !ok { return; }
      }
      ok := true;
    }

    method MapRound(root: nat, first: nat, page: nat, flags: Flags, ghost pages0: imap<Place, Entry>,
                    ghost leaked0: set<nat>, ghost free0: set<nat>)
      returns (ok: bool)
      requires MappedSoFar(pages0, leaked0, free0, root, first, page, flags)
      requires root in users && first + page < kernelStart * SLOT_PAGES
      modifies this`mem, pmm, pmm.bitmap
      ensures Valid() && pmm.Drift() == old(pmm.Drift())
      ensures ok ==> MappedSoFar(pages0, leaked0, free0, root, first, page + 1, flags)
    {
      ghost var mid := Mapped();
      ghost var leaked := Leaked();
      var p := PathOfPage(first + page, kernelStart);
      ok := MapNext(root, p, flags);
      if ok {
        RoundGrows(pages0, mid, Mapped(), free0, leaked0, leaked, Leaked(), root, first, page, flags, p);
      }
    }

    /** map_pages: every page that overlaps the byte range. */
    method MapPages(root: nat, virt: nat, bytes: nat, flags: Flags) returns (ok: bool)
      requires Valid() && root in users && bytes > 0
      requires virt / PAGE_SIZE + PageCount(virt, bytes) <= kernelStart * SLOT_PAGES
      modifies this`mem, pmm, pmm.bitmap
      ensures Valid() && pmm.Drift() == old(pmm.Drift())
      ensures ok ==> RangeMapped(old(Mapped()), Mapped(), old(pmm.Free()),
                                 root, virt / PAGE_SIZE, PageCount(virt, bytes), flags)
      ensures ok ==> forall f: nat :: f in Leaked() <==>
        f in old(Leaked()) || HeldPage(old(Mapped()), root, virt / PAGE_SIZE, PageCount(virt, bytes), f)
    {
      ok := MapRange(root, virt / PAGE_SIZE, PageCount(virt, bytes), flags);
    }

    /** A store of one word through the page `p`, as the processor does it. */
    method StoreWord(root: nat, p: seq<nat>, i: nat, v: Entry)
      requires Valid() && i < NUM_PT_ENTRIES && |p| == LEVELS && Place(root, p) in Mapped()
      requires Mapped()[Place(root, p)].addr !in reserved
      modifies this`mem
      ensures Valid() && Mapped() == old(Mapped()) && Leaked() == old(Leaked())
      ensures SameUpper(old(mem), mem, Owners())
      ensures var f := Mapped()[Place(root, p)].addr;
        f < MAX_NUM_FRAMES && mem == old(mem)[f := old(mem)[f][i := v]]
    {
      ghost var o, k := Owners(), Place(root, p);
      assert Reaches(mem, o, root, [], root);
      StoreIsolated(mem, o, pmm.Free(), k, i, v);
      StoreKeepsFrames(mem, o, pmm.Free(), k, i, v);
      var pte := FindPteAt(root, p);
      mem := SetEntry(mem, mem[pte.value.0][pte.value.1].addr, i, v);
    }
  }
}
