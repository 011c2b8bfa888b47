/** Four-level page tables in physical memory, the walks through them, and the
    ownership discipline that every address-space operation keeps. */
module PageTables {
  import opened Common
  import opened Pmm

  const NUM_PT_ENTRIES: nat := 512
  const LEVELS: nat := 4

  /** A 64-bit table entry by bit field. `d`, `ps` and `g` are bits 6 to 8,
      ignored or reserved at some levels; `hi` is bits 52 to 62. */
  datatype Entry = Entry(
    p: bool, rw: bool, us: bool, pwt: bool, pcd: bool, a: bool, d: bool, ps: bool, g: bool,
    avl: nat, addr: nat, hi: nat, nx: bool)

  const ZERO_ENTRY := Entry(false, false, false, false, false, false, false, false, false, 0, 0, 0, false)

  /** A frame is 512 words, whether it serves as a table or as a page. */
  type Frame = t: seq<Entry> | |t| == NUM_PT_ENTRIES
    ghost witness seq(NUM_PT_ENTRIES, _ => ZERO_ENTRY)

  type Memory = m: seq<Frame> | |m| == MAX_NUM_FRAMES
    ghost witness seq(MAX_NUM_FRAMES, _ => ZeroFrame())

  function ZeroFrame(): Frame { seq(NUM_PT_ENTRIES, _ => ZERO_ENTRY) }

  function SetEntry(m: Memory, f: nat, i: nat, e: Entry): Memory
    requires f < MAX_NUM_FRAMES && i < NUM_PT_ENTRIES
  {
    m[f := m[f][i := e]]
  }

  predicate NoEntries(m: Memory, f: nat)
    requires f < MAX_NUM_FRAMES
  {
    forall i: nat :: 0 <= i < NUM_PT_ENTRIES ==> !m[f][i].p
  }

  // ---------- Walks ----------

  function Init(p: seq<nat>): seq<nat>
    requires p != []
  {
    p[..|p| - 1]
  }

  function Last(p: seq<nat>): nat
    requires p != []
  {
    p[|p| - 1]
  }

  predicate Extends(q: seq<nat>, p: seq<nat>)
  {
    |p| <= |q| && q[..|p|] == p
  }

  function Step(m: Memory, h: nat, i: nat): Option<nat>
  {
    if h < MAX_NUM_FRAMES && i < NUM_PT_ENTRIES && m[h][i].p then Some(m[h][i].addr) else None
  }

  /** The frame that the indices `p` lead to from the table `r`. */
  function Walk(m: Memory, r: nat, p: seq<nat>): Option<nat>
    decreases |p|
  {
    if p == [] then Some(r) else
      var h := Walk(m, r, Init(p));
      if h.None? then None else Step(m, h.value, Last(p))
  }

  /** The present leaf entry for the four indices `p`. */
  function Lookup(m: Memory, r: nat, p: seq<nat>): Option<Entry>
    requires |p| == LEVELS
  {
    var h := Walk(m, r, Init(p));
    if h.Some? && Step(m, h.value, Last(p)).Some? then Some(m[h.value][Last(p)]) else None
  }

  function Then(m: Memory, h: Option<nat>, i: nat): Option<nat>
  {
    if h.None? then None else Step(m, h.value, i)
  }

  lemma FourSteps(m: Memory, r: nat, p: seq<nat>)
    requires |p| == LEVELS
    ensures Init(p) == p[..3] && Last(p) == p[3]
    ensures Walk(m, r, Init(p)) == Then(m, Then(m, Step(m, r, p[0]), p[1]), p[2])
  {
    assert Init(p[..3]) == p[..2] && Init(p[..2]) == p[..1] && Init(p[..1]) == [];
    assert Walk(m, r, p[..1]) == Step(m, r, p[0]);
    assert Walk(m, r, p[..2]) == Then(m, Step(m, r, p[0]), p[1]);
  }

  /** Nothing lies below an absent entry or an empty table. */
  lemma {:induction false} NothingBelow(m: Memory, r: nat, p: seq<nat>, q: seq<nat>)
    requires Extends(q, p) && |p| < |q|
    requires var h := Walk(m, r, p); h.Some? ==> h.value >= MAX_NUM_FRAMES || NoEntries(m, h.value)
    ensures Walk(m, r, q) == None
    decreases |q|
  {
    if |q| == |p| + 1 {
      assert Init(q) == p;
    } else {
      assert Init(q)[..|p|] == q[..|p|];
      NothingBelow(m, r, p, Init(q));
    }
  }

  // ---------- Ownership ----------

  /** The address spaces in existence. A user space owns what lies below its
      entries under `kernelStart`; the kernel space owns what lies below its
      heap entries, those after `kernelStart` and before `heapEnd`, where the
      boot loader's own entries begin again. The heap entries in `shared` are
      held by every user space. Frames in `reserved` are device or firmware
      memory that the frame allocator never hands out. */
  datatype Spaces = Spaces(
    kernelRoot: nat, kernelStart: nat, heapEnd: nat, shared: set<nat>, users: set<nat>, reserved: iset<nat>)

  ghost predicate Owns(o: Spaces, r: nat, p: seq<nat>)
  {
    && |p| <= LEVELS
    && (r in o.users || r == o.kernelRoot)
    && (p != [] ==> if r == o.kernelRoot then o.kernelStart < p[0] < o.heapEnd else p[0] < o.kernelStart)
  }

  ghost predicate Reaches(m: Memory, o: Spaces, r: nat, p: seq<nat>, f: nat)
  {
    Owns(o, r, p) && Walk(m, r, p) == Some(f)
  }

  /** No table or page belongs to two places. */
  ghost predicate Unique(m: Memory, o: Spaces)
  {
    forall r: nat, p: seq<nat>, r': nat, p': seq<nat>, f: nat | Reaches(m, o, r, p, f) && Reaches(m, o, r', p', f) && f !in o.reserved ::
      r == r' && p == p'
  }

  ghost predicate Frames(m: Memory, o: Spaces, free: set<nat>)
  {
    && (forall f: nat | f in free :: f < MAX_NUM_FRAMES && f !in o.reserved)
    && forall r: nat, p: seq<nat>, f: nat | Reaches(m, o, r, p, f) ::
         && f !in free
         && (f in o.reserved ==> |p| == LEVELS && r == o.kernelRoot)
         && (f !in o.reserved ==> f < MAX_NUM_FRAMES)
  }

  /** User space `r` has missed the kernel's entry `i`: a heap entry that was
      populated after the space was made. */
  ghost predicate Missed(m: Memory, o: Spaces, r: nat, i: nat)
    requires r < MAX_NUM_FRAMES && i < NUM_PT_ENTRIES
  {
    o.kernelStart < i < o.heapEnd && !m[r][i].p && i !in o.shared
  }

  /** Every user space holds the kernel's own entries in its kernel half, but
      for those it has missed. */
  ghost predicate Synced(m: Memory, o: Spaces)
  {
    && o.kernelStart < o.heapEnd <= NUM_PT_ENTRIES
    && o.kernelRoot < MAX_NUM_FRAMES
    && o.kernelRoot !in o.users
    && (forall i | i in o.shared :: o.kernelStart < i < o.heapEnd && m[o.kernelRoot][i].p)
    && (forall r: nat | r in o.users :: r < MAX_NUM_FRAMES)
    && forall r: nat, i: nat | r in o.users && o.kernelStart <= i < NUM_PT_ENTRIES ::
         m[r][i] == m[o.kernelRoot][i] || Missed(m, o, r, i)
  }

  /** The upper entries of every user space are as before. */
  ghost predicate SameUpper(m: Memory, m': Memory, o: Spaces)
  {
    forall r: nat, i: nat | r in o.users && r < MAX_NUM_FRAMES && o.kernelStart <= i < NUM_PT_ENTRIES ::
      m'[r][i] == m[r][i]
  }

  lemma SameUpperTwice(m0: Memory, m: Memory, m': Memory, o: Spaces)
    requires SameUpper(m0, m, o) && SameUpper(m, m', o)
    ensures SameUpper(m0, m', o)
  {
  }

  ghost predicate Inv(m: Memory, o: Spaces, free: set<nat>)
  {
    Unique(m, o) && Frames(m, o, free) && Synced(m, o)
  }

  /** In use, but not part of any address space. */
  ghost predicate Detached(m: Memory, o: Spaces, free: set<nat>, g: nat)
  {
    && g < MAX_NUM_FRAMES && g !in free && g !in o.reserved
    && forall r: nat, p: seq<nat> :: !Reaches(m, o, r, p, g)
  }

  /** Frames in use that no address space accounts for. */
  ghost function Loose(m: Memory, o: Spaces, free: set<nat>): set<nat>
  {
    set f: nat | f < MAX_NUM_FRAMES && Detached(m, o, free, f)
  }

  // ---------- The flat view ----------

  datatype Place = Place(space: nat, path: seq<nat>)

  /** What the tables mean: a flat map from pages to their entries. */
  ghost function Pages(m: Memory, o: Spaces): imap<Place, Entry>
  {
    imap k: Place | Owns(o, k.space, k.path) && |k.path| == LEVELS && Lookup(m, k.space, k.path).Some?
      :: Lookup(m, k.space, k.path).value
  }

  // ---------- How writes change walks ----------

  lemma PrefixKept(q: seq<nat>, p: seq<nat>)
    requires q != []
    ensures Extends(Init(q), p) ==> Extends(q, p)
  {
    if |p| < |q| {
      assert Init(q)[..|p|] == q[..|p|];
    }
  }

  lemma SamePlace(m: Memory, o: Spaces, free: set<nat>, r: nat, p: seq<nat>, h: nat, r': nat, q: seq<nat>)
    requires Inv(m, o, free) && Owns(o, r, p) && p != [] && q != [] && Owns(o, r', q)
    requires Reaches(m, o, r, Init(p), h) && Reaches(m, o, r', Init(q), h) && Last(p) == Last(q)
    ensures r == r' && p == q && Extends(q, p)
  {
    assert r' == r && Init(q) == Init(p);
    assert q == Init(q) + [Last(q)] && p == Init(p) + [Last(p)];
  }

  lemma {:induction false} WriteElsewhere(
    m: Memory, o: Spaces, free: set<nat>, r: nat, p: seq<nat>, h: nat, e: Entry, r': nat, q: seq<nat>)
    requires Inv(m, o, free) && Owns(o, r, p) && p != [] && Last(p) < NUM_PT_ENTRIES
    requires Reaches(m, o, r, Init(p), h) && h < MAX_NUM_FRAMES
    requires Owns(o, r', q) && !(r' == r && Extends(q, p))
    ensures Walk(SetEntry(m, h, Last(p), e), r', q) == Walk(m, r', q)
    decreases |q|
  {
    if q != [] {
      PrefixKept(q, p);
      WriteElsewhere(m, o, free, r, p, h, e, r', Init(q));
      if Reaches(m, o, r', Init(q), h) && Last(q) == Last(p) {
        SamePlace(m, o, free, r, p, h, r', q);
      }
    }
  }

  /** Not in use as a table: a page, or a frame outside every space. */
  ghost predicate NotTable(m: Memory, o: Spaces, f: nat)
  {
    f < MAX_NUM_FRAMES && forall r: nat, q: seq<nat> | Reaches(m, o, r, q, f) :: |q| == LEVELS
  }

  lemma {:induction false} WriteNonTable(m: Memory, o: Spaces, f: nat, c: Frame, r: nat, q: seq<nat>)
    requires NotTable(m, o, f) && Owns(o, r, q)
    ensures Walk(m[f := c], r, q) == Walk(m, r, q)
    decreases |q|
  {
    if q != [] {
      WriteNonTable(m, o, f, c, r, Init(q));
      assert !Reaches(m, o, r, Init(q), f);
    }
  }

  /** Filling a frame that is no table changes no translation. */
  lemma Fill(m: Memory, o: Spaces, free: set<nat>, f: nat, c: Frame)
    requires Inv(m, o, free) && NotTable(m, o, f)
    ensures Inv(m[f := c], o, free)
    ensures forall r: nat, q: seq<nat> | Owns(o, r, q) :: Walk(m[f := c], r, q) == Walk(m, r, q)
    ensures Loose(m[f := c], o, free) == Loose(m, o, free)
    ensures Pages(m[f := c], o) == Pages(m, o)
    ensures forall g: nat :: Detached(m[f := c], o, free, g) <==> Detached(m, o, free, g)
  {
    var m' := m[f := c];
    forall r: nat, q: seq<nat> | Owns(o, r, q)
      ensures Walk(m', r, q) == Walk(m, r, q)
    {
      WriteNonTable(m, o, f, c, r, q);
    }
    SameWalks(m, m', o);
    forall k: Place | Owns(o, k.space, k.path) && |k.path| == LEVELS
      ensures Lookup(m', k.space, k.path) == Lookup(m, k.space, k.path)
    {
      assert !Reaches(m, o, k.space, Init(k.path), f);
    }
    forall r: nat | r in o.users || r == o.kernelRoot ensures r != f {
      assert Reaches(m, o, r, [], r);
    }
  }

  lemma SameWalks(m: Memory, m': Memory, o: Spaces)
    requires forall r: nat, q: seq<nat> | Owns(o, r, q) :: Walk(m', r, q) == Walk(m, r, q)
    ensures forall r: nat, q: seq<nat>, f: nat :: Reaches(m', o, r, q, f) <==> Reaches(m, o, r, q, f)
  {
  }

  /** The walk after the entry for `p` was made to lead to `g`, or cleared. */
  ghost function Rewired(m: Memory, r: nat, p: seq<nat>, g: Option<nat>, r': nat, q: seq<nat>): Option<nat>
  {
    if r' == r && q == p then g
    else if r' == r && Extends(q, p) then None
    else Walk(m, r', q)
  }

  lemma WriteRewires(m: Memory, o: Spaces, free: set<nat>, r: nat, p: seq<nat>, h: nat, e: Entry)
    requires Inv(m, o, free) && Owns(o, r, p) && p != [] && Last(p) < NUM_PT_ENTRIES
    requires Reaches(m, o, r, Init(p), h) && h < MAX_NUM_FRAMES
    requires |p| < LEVELS && e.p ==> e.addr < MAX_NUM_FRAMES && e.addr != h && NoEntries(m, e.addr)
    ensures forall r': nat, q: seq<nat> | Owns(o, r', q) ::
      Walk(SetEntry(m, h, Last(p), e), r', q) == Rewired(m, r, p, if e.p then Some(e.addr) else None, r', q)
  {
    var m' := SetEntry(m, h, Last(p), e);
    forall r': nat, q: seq<nat> | Owns(o, r', q)
      ensures Walk(m', r', q) == Rewired(m, r, p, if e.p then Some(e.addr) else None, r', q)
    {
      if !(r' == r && Extends(q, p)) {
        WriteElsewhere(m, o, free, r, p, h, e, r', q);
      } else {
        WriteElsewhere(m, o, free, r, p, h, e, r, Init(p));
        assert Walk(m', r, p) == if e.p then Some(e.addr) else None;
        if q != p {
          assert q[..|q|] == q;
          if e.p {
            assert m'[e.addr] == m[e.addr];
          }
          NothingBelow(m', r, p, q);
        }
      }
    }
  }

  /** Linking a detached frame into an owned table: only the named path and
      what would lie below it change. */
  lemma Link(m: Memory, o: Spaces, free: set<nat>, r: nat, p: seq<nat>, h: nat, e: Entry)
    requires Inv(m, o, free) && Owns(o, r, p) && p != [] && Last(p) < NUM_PT_ENTRIES
    requires Reaches(m, o, r, Init(p), h)
    requires e.p
    requires |p| < LEVELS ==> e.addr < MAX_NUM_FRAMES && NoEntries(m, e.addr) && Walk(m, r, p) == None
    requires Detached(m, o, free, e.addr) || (|p| == LEVELS && r == o.kernelRoot && e.addr in o.reserved)
    ensures h < MAX_NUM_FRAMES && Inv(SetEntry(m, h, Last(p), e), o, free)
    ensures forall r': nat, q: seq<nat> | Owns(o, r', q) ::
      Walk(SetEntry(m, h, Last(p), e), r', q) == Rewired(m, r, p, Some(e.addr), r', q)
    ensures Loose(SetEntry(m, h, Last(p), e), o, free) == Loose(m, o, free) - {e.addr} + Replaced(m, o, r, p, e.addr)
    ensures Pages(SetEntry(m, h, Last(p), e), o) ==
      if |p| == LEVELS then Pages(m, o)[Place(r, p) := e] else Pages(m, o)
    ensures SameUpper(m, SetEntry(m, h, Last(p), e), o)
  {
    assert h !in o.reserved && h < MAX_NUM_FRAMES;
    var m', g := SetEntry(m, h, Last(p), e), e.addr;
    assert Detached(m, o, free, g) ==> !Reaches(m, o, r, Init(p), g);
    WriteRewires(m, o, free, r, p, h, e);
    RewiredReaches(m, m', o, r, p, Some(g));
    SyncKept(m, o, free, r, p, h, e);
    LinkedLoose(m, m', o, free, r, p, g);
    forall q: seq<nat> | Owns(o, r, q) && Extends(q, p) && q != p
      ensures |p| < LEVELS ==> Walk(m, r, q) == None
    {
      if |p| < LEVELS {
        assert q[..|q|] == q;
        NothingBelow(m, r, p, q);
      }
    }
    WritePages(m, o, free, r, p, h, e);
  }

  /** The frame that mapping over a mapped page leaves without an owner. */
  ghost function Replaced(m: Memory, o: Spaces, r: nat, p: seq<nat>, g: nat): set<nat>
  {
    var before := Walk(m, r, p);
    if before.Some? && before.value !in o.reserved && before.value != g then {before.value} else {}
  }

  lemma LinkedLoose(m: Memory, m': Memory, o: Spaces, free: set<nat>, r: nat, p: seq<nat>, g: nat)
    requires Inv(m, o, free) && Owns(o, r, p)
    requires Detached(m, o, free, g) || g in o.reserved
    requires RewiredTo(m, m', o, r, p, Some(g))
    ensures Loose(m', o, free) == Loose(m, o, free) - {g} + Replaced(m, o, r, p, g)
  {
    assert Reaches(m', o, r, p, g);
    forall f: nat | f != g
      ensures Detached(m', o, free, f) <==> Detached(m, o, free, f) || f in Replaced(m, o, r, p, g)
    {
      RewiredDetached(m, m', o, free, r, p, Some(g), f);
    }
  }

  lemma RewiredDetached(
    m: Memory, m': Memory, o: Spaces, free: set<nat>, r: nat, p: seq<nat>, g: Option<nat>, f: nat)
    requires Inv(m, o, free) && Owns(o, r, p)
    requires RewiredTo(m, m', o, r, p, g) && g != Some(f)
    ensures Detached(m', o, free, f) <==>
      Detached(m, o, free, f) || (Walk(m, r, p) == Some(f) && f !in o.reserved)
  {
    if Walk(m, r, p) == Some(f) {
      assert Reaches(m, o, r, p, f);
      forall r': nat, q: seq<nat> | f !in o.reserved ensures !Reaches(m', o, r', q, f) {
      }
    } else {
      forall r': nat, q: seq<nat> ensures Reaches(m', o, r', q, f) <==> Reaches(m, o, r', q, f) {
      }
    }
  }

  lemma LookupElsewhere(
    m: Memory, o: Spaces, free: set<nat>, r: nat, p: seq<nat>, h: nat, e: Entry, r': nat, q: seq<nat>)
    requires Inv(m, o, free) && Owns(o, r, p) && p != [] && Last(p) < NUM_PT_ENTRIES
    requires Reaches(m, o, r, Init(p), h) && h < MAX_NUM_FRAMES
    requires Owns(o, r', q) && |q| == LEVELS && !(r' == r && Extends(q, p))
    ensures Lookup(SetEntry(m, h, Last(p), e), r', q) == Lookup(m, r', q)
  {
    PrefixKept(q, p);
    WriteElsewhere(m, o, free, r, p, h, e, r', Init(q));
    if Reaches(m, o, r', Init(q), h) && Last(q) == Last(p) {
      SamePlace(m, o, free, r, p, h, r', q);
    }
  }

  /** Writing the entry for `p` changes no page but the one it names. */
  lemma WritePages(m: Memory, o: Spaces, free: set<nat>, r: nat, p: seq<nat>, h: nat, e: Entry)
    requires Inv(m, o, free) && Owns(o, r, p) && p != [] && Last(p) < NUM_PT_ENTRIES
    requires Reaches(m, o, r, Init(p), h) && h < MAX_NUM_FRAMES
    requires |p| < LEVELS ==> forall q: seq<nat> | Owns(o, r, q) && Extends(q, p) && q != p ::
        Walk(m, r, q) == None && Walk(SetEntry(m, h, Last(p), e), r, q) == None
    ensures Pages(SetEntry(m, h, Last(p), e), o) ==
      if |p| < LEVELS then Pages(m, o)
      else if e.p then Pages(m, o)[Place(r, p) := e]
      else imap k | k in Pages(m, o) && k != Place(r, p) :: Pages(m, o)[k]
  {
    var m' := SetEntry(m, h, Last(p), e);
    forall k: Place | Owns(o, k.space, k.path) && |k.path| == LEVELS && k != Place(r, p)
      ensures Lookup(m', k.space, k.path) == Lookup(m, k.space, k.path)
    {
      if k.space == r && Extends(k.path, p) {
        BothAbsent(m, m', r, p, k.path);
      } else {
        LookupElsewhere(m, o, free, r, p, h, e, k.space, k.path);
      }
    }
    if |p| == LEVELS {
      WriteElsewhere(m, o, free, r, p, h, e, r, Init(p));
    }
    PagesAgree(m, m', o, Place(r, p));
  }

  lemma BothAbsent(m: Memory, m': Memory, r: nat, p: seq<nat>, q: seq<nat>)
    requires |q| == LEVELS && Extends(q, p) && q != p
    requires |p| < LEVELS ==> Walk(m, r, q) == None && Walk(m', r, q) == None
    ensures Lookup(m', r, q) == Lookup(m, r, q)
  {
    assert q[..|q|] == q;
  }

  lemma PagesAgree(m: Memory, m': Memory, o: Spaces, x: Place)
    requires forall k: Place | Owns(o, k.space, k.path) && |k.path| == LEVELS && k != x ::
      Lookup(m', k.space, k.path) == Lookup(m, k.space, k.path)
    ensures |x.path| != LEVELS || !Owns(o, x.space, x.path) ==> Pages(m', o) == Pages(m, o)
    ensures |x.path| == LEVELS && Owns(o, x.space, x.path) ==>
      var e := Lookup(m', x.space, x.path);
      Pages(m', o) ==
        if e.Some? then Pages(m, o)[x := e.value]
        else imap k | k in Pages(m, o) && k != x :: Pages(m, o)[k]
  {
    forall k: Place | k != x
      ensures k in Pages(m', o) <==> k in Pages(m, o)
      ensures k in Pages(m, o) ==> Pages(m', o)[k] == Pages(m, o)[k]
    {
    }
  }

  /** The reachability that results from rewiring the entry for `p`. */
  ghost predicate RewiredTo(m: Memory, m': Memory, o: Spaces, r: nat, p: seq<nat>, g: Option<nat>)
  {
    forall r': nat, q: seq<nat>, f: nat ::
      Reaches(m', o, r', q, f) <==>
        if r' == r && q == p then Owns(o, r, p) && g == Some(f) else Reaches(m, o, r', q, f)
  }

  lemma RewiredReaches(m: Memory, m': Memory, o: Spaces, r: nat, p: seq<nat>, g: Option<nat>)
    requires forall r': nat, q: seq<nat> | Owns(o, r', q) :: Walk(m', r', q) == Rewired(m, r, p, g, r', q)
    requires |p| < LEVELS ==>
      var before := Walk(m, r, p);
      before.Some? ==> before.value < MAX_NUM_FRAMES && NoEntries(m, before.value)
    ensures RewiredTo(m, m', o, r, p, g)
  {
    forall r': nat, q: seq<nat> | Owns(o, r', q) && r' == r && Extends(q, p) && q != p
      ensures Walk(m, r', q) == None
    {
      assert q[..|q|] == q;
      NothingBelow(m, r, p, q);
    }
  }

  lemma SyncKept(m: Memory, o: Spaces, free: set<nat>, r: nat, p: seq<nat>, h: nat, e: Entry)
    requires Inv(m, o, free) && Owns(o, r, p) && p != [] && Last(p) < NUM_PT_ENTRIES
    requires Reaches(m, o, r, Init(p), h) && h < MAX_NUM_FRAMES
    requires r == o.kernelRoot && |p| == 1 ==> !m[h][Last(p)].p
    ensures Synced(SetEntry(m, h, Last(p), e), o)
    ensures SameUpper(m, SetEntry(m, h, Last(p), e), o)
  {
    assert h !in o.reserved;
    forall r': nat | r' in o.users || r' == o.kernelRoot
      ensures h == r' ==> r' == r && |p| == 1
    {
      assert Reaches(m, o, r', [], r');
    }
  }

  /** Clearing an entry: what it led to becomes detached. */
  lemma Unlink(m: Memory, o: Spaces, free: set<nat>, r: nat, p: seq<nat>, h: nat, e: Entry, g: nat)
    requires Inv(m, o, free) && Owns(o, r, p) && p != [] && Last(p) < NUM_PT_ENTRIES
    requires Reaches(m, o, r, Init(p), h) && Reaches(m, o, r, p, g)
    requires r == o.kernelRoot ==> |p| > 1
    requires !e.p
    requires |p| < LEVELS ==> NoEntries(m, g)
    ensures h < MAX_NUM_FRAMES && Inv(SetEntry(m, h, Last(p), e), o, free)
    ensures forall r': nat, q: seq<nat> | Owns(o, r', q) ::
      Walk(SetEntry(m, h, Last(p), e), r', q) == Rewired(m, r, p, None, r', q)
    ensures g !in o.reserved ==> Detached(SetEntry(m, h, Last(p), e), o, free, g)
    ensures Loose(SetEntry(m, h, Last(p), e), o, free) ==
      Loose(m, o, free) + (if g in o.reserved then {} else {g})
    ensures Pages(SetEntry(m, h, Last(p), e), o) ==
      if |p| == LEVELS then imap k | k in Pages(m, o) && k != Place(r, p) :: Pages(m, o)[k] else Pages(m, o)
  {
    assert h !in o.reserved && h < MAX_NUM_FRAMES;
    var m' := SetEntry(m, h, Last(p), e);
    WriteRewires(m, o, free, r, p, h, e);
    RewiredReaches(m, m', o, r, p, None);
    SyncKept(m, o, free, r, p, h, e);
    UnlinkedLoose(m, m', o, free, r, p, g);
    forall q: seq<nat> | Owns(o, r, q) && Extends(q, p) && q != p
      ensures Walk(m, r, q) == None
    {
      assert q[..|q|] == q;
      NothingBelow(m, r, p, q);
    }
    WritePages(m, o, free, r, p, h, e);
  }

  lemma UnlinkedLoose(m: Memory, m': Memory, o: Spaces, free: set<nat>, r: nat, p: seq<nat>, g: nat)
    requires Inv(m, o, free) && Reaches(m, o, r, p, g)
    requires RewiredTo(m, m', o, r, p, None)
    ensures Loose(m', o, free) == Loose(m, o, free) + (if g in o.reserved then {} else {g})
    ensures g !in o.reserved ==> Detached(m', o, free, g)
  {
    forall f: nat
      ensures Detached(m', o, free, f) <==> Detached(m, o, free, f) || (f == g && g !in o.reserved)
    {
      RewiredDetached(m, m', o, free, r, p, None, f);
    }
  }

  // ---------- Frames and roots coming and going ----------

  lemma Claim(m: Memory, o: Spaces, free: set<nat>, g: nat)
    requires Inv(m, o, free) && g in free
    ensures Inv(m, o, free - {g}) && Detached(m, o, free - {g}, g)
    ensures Loose(m, o, free - {g}) == Loose(m, o, free) + {g}
  {
  }

  lemma Release(m: Memory, o: Spaces, free: set<nat>, g: nat)
    requires Inv(m, o, free) && Detached(m, o, free, g)
    ensures Inv(m, o, free + {g})
    ensures Loose(m, o, free + {g}) == Loose(m, o, free) - {g}
  {
  }

  /** Taking a free frame, filling it and linking it in as a table or page. */
  lemma Graft(m: Memory, o: Spaces, free: set<nat>, r: nat, p: seq<nat>, h: nat, e: Entry, c: Frame)
    requires Inv(m, o, free) && Owns(o, r, p) && p != [] && Last(p) < NUM_PT_ENTRIES
    requires Reaches(m, o, r, Init(p), h) && Walk(m, r, p) == None
    requires e.p && e.addr in free
    requires |p| < LEVELS ==> c == ZeroFrame()
    ensures h < MAX_NUM_FRAMES && e.addr < MAX_NUM_FRAMES && e.addr != h
    ensures var m' := SetEntry(m, h, Last(p), e)[e.addr := c];
      && Inv(m', o, free - {e.addr})
      && Loose(m', o, free - {e.addr}) == Loose(m, o, free)
      && Reaches(m', o, r, p, e.addr)
      && Pages(m', o) == (if |p| == LEVELS then Pages(m, o)[Place(r, p) := e] else Pages(m, o))
      && RewiredTo(m, m', o, r, p, Some(e.addr))
    ensures !NotTable(m, o, h)
  {
    var g := e.addr;
    Claim(m, o, free, g);
    assert !Reaches(m, o, r, Init(p), g);
    Fill(m, o, free - {g}, g, c);
    var m1 := m[g := c];
    Link(m1, o, free - {g}, r, p, h, e);
    assert SetEntry(m, h, Last(p), e)[g := c] == SetEntry(m1, h, Last(p), e);
    assert Reaches(m, o, r, Init(p), h) && |Init(p)| < LEVELS;
    GraftRewires(m, m1, SetEntry(m1, h, Last(p), e), o, r, p, g);
  }

  lemma GraftUpper(m: Memory, o: Spaces, free: set<nat>, r: nat, p: seq<nat>, h: nat, e: Entry, c: Frame)
    requires Inv(m, o, free) && Owns(o, r, p) && p != [] && Last(p) < NUM_PT_ENTRIES
    requires Reaches(m, o, r, Init(p), h) && h < MAX_NUM_FRAMES && e.addr in free && e.addr < MAX_NUM_FRAMES
    ensures SameUpper(m, SetEntry(m, h, Last(p), e)[e.addr := c], o)
  {
    forall r': nat | r' in o.users ensures r' != e.addr && (h == r' ==> r' == r && |p| == 1) {
      assert Reaches(m, o, r', [], r');
    }
  }

  lemma GraftRewires(m: Memory, m1: Memory, m': Memory, o: Spaces, r: nat, p: seq<nat>, g: nat)
    requires Owns(o, r, p) && Walk(m, r, p) == None
    requires forall r': nat, q: seq<nat> | Owns(o, r', q) :: Walk(m1, r', q) == Walk(m, r', q)
    requires forall r': nat, q: seq<nat> | Owns(o, r', q) :: Walk(m', r', q) == Rewired(m1, r, p, Some(g), r', q)
    ensures RewiredTo(m, m', o, r, p, Some(g))
    ensures Reaches(m', o, r, p, g)
  {
    forall r': nat, q: seq<nat> | Owns(o, r', q)
      ensures Walk(m', r', q) == Rewired(m, r, p, Some(g), r', q)
    {
      assert Rewired(m1, r, p, Some(g), r', q) == Rewired(m, r, p, Some(g), r', q);
    }
    RewiredReaches(m, m', o, r, p, Some(g));
  }

  /** Clearing the entry of a page or of an emptied table and giving its frame
      back. */
  lemma Prune(m: Memory, o: Spaces, free: set<nat>, r: nat, p: seq<nat>, h: nat, e: Entry, g: nat)
    requires Inv(m, o, free) && Owns(o, r, p) && p != [] && Last(p) < NUM_PT_ENTRIES
    requires Reaches(m, o, r, Init(p), h) && Reaches(m, o, r, p, g) && g !in o.reserved
    requires r == o.kernelRoot ==> |p| > 1
    requires !e.p
    requires |p| < LEVELS ==> g < MAX_NUM_FRAMES && NoEntries(m, g)
    ensures h < MAX_NUM_FRAMES && g < MAX_NUM_FRAMES && g !in free && !NotTable(m, o, h)
    ensures var m' := SetEntry(m, h, Last(p), e);
      && Inv(m', o, free + {g})
      && Loose(m', o, free + {g}) == Loose(m, o, free)
      && Pages(m', o) ==
           (if |p| == LEVELS then imap k | k in Pages(m, o) && k != Place(r, p) :: Pages(m, o)[k] else Pages(m, o))
      && forall r': nat, q: seq<nat> | Owns(o, r', q) :: Walk(m', r', q) == Rewired(m, r, p, None, r', q)
  {
    Unlink(m, o, free, r, p, h, e, g);
    Release(SetEntry(m, h, Last(p), e), o, free, g);
    assert Reaches(m, o, r, Init(p), h) && |Init(p)| < LEVELS;
  }

  /** Unmapping a page, seen from its own entry. */
  lemma PrunePage(m: Memory, o: Spaces, free: set<nat>, r: nat, p: seq<nat>, h: nat)
    requires Inv(m, o, free) && Owns(o, r, p) && |p| == LEVELS && Last(p) < NUM_PT_ENTRIES
    requires Walk(m, r, Init(p)) == Some(h) && h < MAX_NUM_FRAMES && Lookup(m, r, p) == Some(m[h][Last(p)])
    requires m[h][Last(p)].addr !in o.reserved
    ensures var g := m[h][Last(p)].addr;
      var m' := SetEntry(m, h, Last(p), ZERO_ENTRY);
      && g < MAX_NUM_FRAMES && g !in free
      && Place(r, p) in Pages(m, o) && Pages(m, o)[Place(r, p)].addr == g
      && Inv(m', o, free + {g})
      && Loose(m', o, free + {g}) == Loose(m, o, free)
      && Pages(m', o) == (imap k | k in Pages(m, o) && k != Place(r, p) :: Pages(m, o)[k])
      && forall f: nat | NotTable(m, o, f) :: m'[f] == m[f]
  {
    var g := m[h][Last(p)].addr;
    assert Reaches(m, o, r, Init(p), h) && Reaches(m, o, r, p, g);
    Prune(m, o, free, r, p, h, ZERO_ENTRY, g);
  }

  /** Unmapping a device page hands its frame to the allocator, which breaks the
      rule that no device frame is free. */
  lemma PruneDevice(m: Memory, o: Spaces, free: set<nat>, r: nat, p: seq<nat>, h: nat)
    requires Inv(m, o, free) && Owns(o, r, p) && |p| == LEVELS && Last(p) < NUM_PT_ENTRIES
    requires Walk(m, r, Init(p)) == Some(h) && h < MAX_NUM_FRAMES && Lookup(m, r, p) == Some(m[h][Last(p)])
    requires m[h][Last(p)].addr in o.reserved
    ensures var g := m[h][Last(p)].addr;
      var m' := SetEntry(m, h, Last(p), ZERO_ENTRY);
      && g !in free && Place(r, p) in Pages(m, o) && Pages(m, o)[Place(r, p)].addr == g
      && !Inv(m', o, free + {g})
      && Loose(m', o, free + {g}) == Loose(m, o, free)
      && Pages(m', o) == (imap k | k in Pages(m, o) && k != Place(r, p) :: Pages(m, o)[k])
      && forall f: nat | NotTable(m, o, f) :: m'[f] == m[f]
  {
    var g := m[h][Last(p)].addr;
    var m' := SetEntry(m, h, Last(p), ZERO_ENTRY);
    assert Reaches(m, o, r, Init(p), h) && Reaches(m, o, r, p, g);
    Unlink(m, o, free, r, p, h, ZERO_ENTRY, g);
    forall f: nat ensures Detached(m', o, free + {g}, f) <==> Detached(m', o, free, f) {
    }
    assert g in free + {g};
  }

  /** Only empty tables, in frames that were free, have been added. */
  ghost predicate Deepened(m: Memory, free: set<nat>, m': Memory, free': set<nat>, o: Spaces)
  {
    && free' <= free
    && (forall r: nat, q: seq<nat>, f: nat | Reaches(m, o, r, q, f) :: Reaches(m', o, r, q, f))
    && (forall r: nat, q: seq<nat>, f: nat | Reaches(m', o, r, q, f) ::
          Reaches(m, o, r, q, f) || (f in free && |q| < LEVELS))
    && (forall f: nat | f !in free && NotTable(m, o, f) :: m'[f] == m[f])
    && SameUpper(m, m', o)
  }

  lemma DeepenedTwice(
    m: Memory, free: set<nat>, m1: Memory, free1: set<nat>, m2: Memory, free2: set<nat>, o: Spaces)
    requires Deepened(m, free, m1, free1, o) && Deepened(m1, free1, m2, free2, o)
    ensures Deepened(m, free, m2, free2, o)
  {
    forall f: nat | f !in free && NotTable(m, o, f) ensures NotTable(m1, o, f) {
    }
  }

  lemma DeepenedKeeps(m: Memory, free: set<nat>, m': Memory, free': set<nat>, o: Spaces, f: nat)
    requires Inv(m, o, free) && Deepened(m, free, m', free', o)
    ensures Detached(m, o, free, f) ==> Detached(m', o, free', f)
    ensures forall r: nat, p: seq<nat> | Owns(o, r, p) && |p| == LEVELS :: Walk(m', r, p) == Walk(m, r, p)
  {
    forall r: nat, p: seq<nat> | Owns(o, r, p) && |p| == LEVELS ensures Walk(m', r, p) == Walk(m, r, p) {
      if Walk(m, r, p).Some? {
        assert Reaches(m, o, r, p, Walk(m, r, p).value);
      } else if Walk(m', r, p).Some? {
        assert Reaches(m', o, r, p, Walk(m', r, p).value);
      }
    }
  }

  /** Mapping a page once its tables are there. */
  lemma LinkPage(
    m: Memory, free: set<nat>, m1: Memory, free1: set<nat>, o: Spaces, r: nat, p: seq<nat>, h: nat, e: Entry)
    requires Inv(m, o, free) && Inv(m1, o, free1) && Deepened(m, free, m1, free1, o)
    requires Pages(m1, o) == Pages(m, o) && Loose(m1, o, free1) == Loose(m, o, free)
    requires Owns(o, r, p) && |p| == LEVELS && Last(p) < NUM_PT_ENTRIES
    requires Reaches(m1, o, r, Init(p), h) && e.p
    requires Detached(m, o, free, e.addr) || (r == o.kernelRoot && e.addr in o.reserved)
    ensures h < MAX_NUM_FRAMES
    ensures var m' := SetEntry(m1, h, Last(p), e);
      && Inv(m', o, free1)
      && Loose(m', o, free1) == Loose(m, o, free) - {e.addr} + Replaced(m, o, r, p, e.addr)
      && Pages(m', o) == Pages(m, o)[Place(r, p) := e]
      && SameUpper(m, m', o)
      && forall f: nat | f !in free && NotTable(m, o, f) :: m'[f] == m[f]
  {
    DeepenedKeeps(m, free, m1, free1, o, e.addr);
    Link(m1, o, free1, r, p, h, e);
    forall f: nat | f !in free && NotTable(m, o, f) ensures f != h {
      assert Reaches(m1, o, r, Init(p), h) && |Init(p)| < LEVELS;
    }
  }

  /** What one ensure_*_present step achieves: the table `child` is at `p`;
      if it was missing, it is a free frame made into an empty table. */
  ghost predicate Ensured(
    m: Memory, free: set<nat>, m': Memory, free': set<nat>, o: Spaces, r: nat, p: seq<nat>, h: nat, child: nat)
  {
    && Inv(m', o, free') && Loose(m', o, free') == Loose(m, o, free) && Pages(m', o) == Pages(m, o)
    && Deepened(m, free, m', free', o)
    && Reaches(m', o, r, p, child)
    && (Walk(m, r, p).Some? ==> m' == m && free' == free)
    && (Walk(m, r, p).None? ==>
          && child in free && free' == free - {child}
          && child < MAX_NUM_FRAMES && NoEntries(m', child)
          && RewiredTo(m, m', o, r, p, Some(child)))
    && (forall f: nat | f < MAX_NUM_FRAMES && f != h && f !in free :: m'[f] == m[f])
  }

  lemma EnsuredPresent(m: Memory, o: Spaces, free: set<nat>, r: nat, p: seq<nat>, h: nat, child: nat)
    requires Inv(m, o, free) && Reaches(m, o, r, p, child)
    ensures Ensured(m, free, m, free, o, r, p, h, child)
  {
  }

  lemma EnsuredByGraft(m: Memory, o: Spaces, free: set<nat>, r: nat, p: seq<nat>, h: nat, e: Entry)
    requires Inv(m, o, free) && Owns(o, r, p) && p != [] && |p| < LEVELS && Last(p) < NUM_PT_ENTRIES
    requires Reaches(m, o, r, Init(p), h) && h < MAX_NUM_FRAMES && !m[h][Last(p)].p
    requires e.p && e.addr in free
    ensures h < MAX_NUM_FRAMES && e.addr < MAX_NUM_FRAMES
    ensures Ensured(m, free, SetEntry(m, h, Last(p), e)[e.addr := ZeroFrame()], free - {e.addr}, o, r, p, h, e.addr)
  {
    Graft(m, o, free, r, p, h, e, ZeroFrame());
    GraftUpper(m, o, free, r, p, h, e, ZeroFrame());
    var m' := SetEntry(m, h, Last(p), e)[e.addr := ZeroFrame()];
    RewiringDeepens(m, free, m', o, r, p, h, e.addr);
  }

  lemma RewiringDeepens(
    m: Memory, free: set<nat>, m': Memory, o: Spaces, r: nat, p: seq<nat>, h: nat, g: nat)
    requires RewiredTo(m, m', o, r, p, Some(g)) && Walk(m, r, p) == None && |p| < LEVELS && g in free
    requires forall f: nat | f < MAX_NUM_FRAMES && f != h && f != g :: m'[f] == m[f]
    requires !NotTable(m, o, h) && SameUpper(m, m', o)
    ensures Deepened(m, free, m', free - {g}, o)
  {
  }

  /** A frame set up with the kernel's upper entries and nothing below them
      becomes a new, empty user space. */
  lemma AddRoot(m: Memory, o: Spaces, free: set<nat>, g: nat)
    requires Inv(m, o, free) && Detached(m, o, free, g)
    requires forall i: nat | i < o.kernelStart :: !m[g][i].p
    requires forall i: nat | o.kernelStart <= i < NUM_PT_ENTRIES :: m[g][i] == m[o.kernelRoot][i] || Missed(m, o, g, i)
    ensures g !in o.users && g != o.kernelRoot
    ensures var o' := o.(users := o.users + {g});
      && Inv(m, o', free)
      && Loose(m, o', free) == Loose(m, o, free) - {g}
      && Pages(m, o') == Pages(m, o)
      && Reaches(m, o', g, [], g)
      && forall q: seq<nat>, f: nat | Reaches(m, o', g, q, f) :: q == []
  {
    var o' := o.(users := o.users + {g});
    NewRoot(m, o, free, g);
    AddedSynced(m, o, g);
    forall r: nat, q: seq<nat>, f: nat
      ensures Reaches(m, o', r, q, f) <==> Reaches(m, o, r, q, f) || (r == g && q == [] && f == g)
    {
    }
    assert Reaches(m, o', g, [], g);
    assert Reaches(m, o, o.kernelRoot, [], o.kernelRoot);
    forall k: Place ensures k in Pages(m, o') <==> k in Pages(m, o) {
      assert k.space == g && Owns(o', g, k.path) && k.path != [] ==> Walk(m, g, k.path) == None;
    }
  }

  ghost predicate SameUpperEntries(m: Memory, r: nat, m': Memory, r': nat, start: nat)
    requires r < MAX_NUM_FRAMES && r' < MAX_NUM_FRAMES
  {
    forall i: nat | start <= i < NUM_PT_ENTRIES :: m'[r'][i] == m[r][i]
  }

  /** A copy of a user space's upper entries has missed what the original has. */
  lemma InheritsUpper(m: Memory, o: Spaces, r: nat, g: nat)
    requires Synced(m, o) && r in o.users && r < MAX_NUM_FRAMES && g < MAX_NUM_FRAMES
    requires SameUpperEntries(m, r, m, g, o.kernelStart)
    ensures forall i: nat | o.kernelStart <= i < NUM_PT_ENTRIES :: m[g][i] == m[o.kernelRoot][i] || Missed(m, o, g, i)
  {
  }

  lemma AddedSynced(m: Memory, o: Spaces, g: nat)
    requires Synced(m, o) && g < MAX_NUM_FRAMES && g != o.kernelRoot
    requires forall i: nat | o.kernelStart <= i < NUM_PT_ENTRIES :: m[g][i] == m[o.kernelRoot][i] || Missed(m, o, g, i)
    ensures Synced(m, o.(users := o.users + {g}))
  {
  }

  lemma NewRoot(m: Memory, o: Spaces, free: set<nat>, g: nat)
    requires Inv(m, o, free) && Detached(m, o, free, g)
    requires forall i: nat | i < o.kernelStart :: !m[g][i].p
    ensures g !in o.users && g != o.kernelRoot
    ensures forall q: seq<nat> | q != [] && q[0] < o.kernelStart :: Walk(m, g, q) == None
  {
    assert !Reaches(m, o, g, [], g);
    forall q: seq<nat> | q != [] && q[0] < o.kernelStart
      ensures Walk(m, g, q) == None
    {
      EmptyBelow(m, g, o.kernelStart, q);
    }
  }

  lemma {:induction false} EmptyBelow(m: Memory, g: nat, limit: nat, q: seq<nat>)
    requires g < MAX_NUM_FRAMES && limit <= NUM_PT_ENTRIES
    requires forall i: nat | i < limit :: !m[g][i].p
    requires q != [] && q[0] < limit
    ensures Walk(m, g, q) == None
    decreases |q|
  {
    if |q| > 1 {
      EmptyBelow(m, g, limit, Init(q));
    } else {
      assert Walk(m, g, Init(q)) == Some(g);
    }
  }

  /** A user space with nothing left in its user half can be dropped. */
  lemma DropRoot(m: Memory, o: Spaces, free: set<nat>, r: nat)
    requires Inv(m, o, free) && r in o.users
    requires forall i: nat | i < o.kernelStart :: !m[r][i].p
    ensures var o' := o.(users := o.users - {r});
      && Inv(m, o', free)
      && Detached(m, o', free, r)
      && Loose(m, o', free) == Loose(m, o, free) + {r}
      && Pages(m, o') == Pages(m, o)
  {
    var o' := o.(users := o.users - {r});
    assert Reaches(m, o, r, [], r);
    forall q: seq<nat> | q != [] && q[0] < o.kernelStart ensures Walk(m, r, q) == None {
      EmptyBelow(m, r, o.kernelStart, q);
    }
    forall r': nat, q: seq<nat>, f: nat
      ensures Reaches(m, o, r', q, f) <==> Reaches(m, o', r', q, f) || (r' == r && q == [] && f == r)
    {
    }
    forall k: Place ensures k in Pages(m, o') <==> k in Pages(m, o) {
      assert k.space == r && Owns(o, r, k.path) && k.path != [] ==> Walk(m, r, k.path) == None;
    }
  }

  // ---------- Boot ----------

  /** A kernel table with nothing in its heap slots is a well-formed start. */
  lemma BootInv(m: Memory, o: Spaces, free: set<nat>)
    requires o.users == {} && o.shared == {} && o.kernelStart < o.heapEnd <= NUM_PT_ENTRIES
    requires o.kernelRoot < MAX_NUM_FRAMES && o.kernelRoot !in free && o.kernelRoot !in o.reserved
    requires forall i: nat | o.kernelStart < i < o.heapEnd :: !m[o.kernelRoot][i].p
    requires forall f: nat | f in free :: f < MAX_NUM_FRAMES && f !in o.reserved
    ensures Inv(m, o, free) && Pages(m, o) == imap[]
  {
    forall r: nat, q: seq<nat>, f: nat | Reaches(m, o, r, q, f) ensures r == f == o.kernelRoot && q == [] {
      if q != [] {
        AbsentBelow(m, r, q);
      }
    }
    forall k: Place ensures k !in Pages(m, o) {
      if k in Pages(m, o) {
        PageReached(m, o, k);
      }
    }
  }

  lemma HeapSlotPresent(m: Memory, o: Spaces, p: seq<nat>, pt: nat)
    requires Synced(m, o) && |p| == LEVELS && Reaches(m, o, o.kernelRoot, Init(p), pt) && p[0] < NUM_PT_ENTRIES
    ensures m[o.kernelRoot][p[0]].p
  {
    assert Init(p)[0] == p[0];
    if !m[o.kernelRoot][p[0]].p {
      AbsentBelow(m, o.kernelRoot, Init(p));
    }
  }

  /** A heap slot that is present before the first user space is shared. */
  lemma ShareSlot(m: Memory, o: Spaces, free: set<nat>, i: nat)
    requires Inv(m, o, free) && o.users == {} && o.kernelStart < i < o.heapEnd && m[o.kernelRoot][i].p
    ensures var o' := o.(shared := o.shared + {i});
      Inv(m, o', free) && Pages(m, o') == Pages(m, o) && Loose(m, o', free) == Loose(m, o, free)
  {
    var o' := o.(shared := o.shared + {i});
    forall r: nat, q: seq<nat>, f: nat ensures Reaches(m, o', r, q, f) <==> Reaches(m, o, r, q, f) {
    }
  }

  // ---------- What the invariant buys ----------

  /** Below an entry that two roots have in common, they translate alike. */
  lemma {:induction false} SameBelow(m: Memory, r: nat, r': nat, q: seq<nat>)
    requires r < MAX_NUM_FRAMES && r' < MAX_NUM_FRAMES
    requires q != [] && q[0] < NUM_PT_ENTRIES && m[r][q[0]] == m[r'][q[0]]
    ensures Walk(m, r, q) == Walk(m, r', q)
    ensures |q| == LEVELS ==> Lookup(m, r, q) == Lookup(m, r', q)
    decreases |q|
  {
    if |q| == 1 {
      assert Init(q) == [];
    } else {
      SameBelow(m, r, r', Init(q));
    }
  }

  /** A user space translates a kernel-half address as the kernel does exactly if
      its own top-level entry is present or the kernel has nothing there. That is
      always so outside the heap and in its shared slots. */
  lemma KernelHalfShared(m: Memory, o: Spaces, r: nat, q: seq<nat>)
    requires Synced(m, o) && r in o.users
    requires |q| == LEVELS && o.kernelStart <= q[0] < NUM_PT_ENTRIES
    ensures Lookup(m, r, q) == Lookup(m, o.kernelRoot, q) <==> m[r][q[0]].p || Lookup(m, o.kernelRoot, q).None?
    ensures q[0] == o.kernelStart || q[0] >= o.heapEnd || q[0] in o.shared ==>
      Lookup(m, r, q) == Lookup(m, o.kernelRoot, q)
  {
    if m[r][q[0]] == m[o.kernelRoot][q[0]] {
      SameBelow(m, r, o.kernelRoot, q);
    }
    if !m[r][q[0]].p {
      AbsentBelow(m, r, q);
    }
  }

  lemma {:induction false} AbsentBelow(m: Memory, r: nat, q: seq<nat>)
    requires r < MAX_NUM_FRAMES && q != [] && q[0] < NUM_PT_ENTRIES && !m[r][q[0]].p
    ensures Walk(m, r, q) == None
    ensures |q| == LEVELS ==> Lookup(m, r, q) == None
    decreases |q|
  {
    if |q| == 1 {
      assert Init(q) == [];
    } else {
      AbsentBelow(m, r, Init(q));
    }
  }

  /** Every user space sees the kernel's page at `p` exactly if it held the
      entry of `p`'s top-level slot in `m0`. */
  ghost predicate SeenBy(m0: Memory, m: Memory, o: Spaces, p: seq<nat>)
    requires |p| == LEVELS && p[0] < NUM_PT_ENTRIES
  {
    forall u: nat | u in o.users && u < MAX_NUM_FRAMES ::
      Lookup(m, u, p) == Lookup(m, o.kernelRoot, p) <==> m0[u][p[0]].p
  }

  /** After the kernel has mapped a heap page, a user space translates it as the
      kernel does exactly if it already held the entry of its slot: all do in a
      shared slot, and none does in a slot that was just populated. */
  lemma SeenExactly(m0: Memory, m: Memory, o: Spaces, free: set<nat>, p: seq<nat>)
    requires Synced(m0, o) && Inv(m, o, free) && SameUpper(m0, m, o)
    requires |p| == LEVELS && p[0] < NUM_PT_ENTRIES && Place(o.kernelRoot, p) in Pages(m, o)
    ensures SeenBy(m0, m, o, p)
    ensures p[0] in o.shared ==>
      forall u: nat | u in o.users :: Lookup(m, u, p) == Lookup(m, o.kernelRoot, p)
    ensures forall u: nat | u in o.users && u < MAX_NUM_FRAMES && m0[u][p[0]] == m0[o.kernelRoot][p[0]] ::
      Lookup(m, u, p) == Lookup(m, o.kernelRoot, p) <==> m0[o.kernelRoot][p[0]].p
    ensures !m0[o.kernelRoot][p[0]].p ==>
      forall u: nat | u in o.users :: Lookup(m, u, p) == None
  {
    forall u: nat | u in o.users
      ensures Lookup(m, u, p) == Lookup(m, o.kernelRoot, p) <==> m0[u][p[0]].p
      ensures p[0] in o.shared ==> Lookup(m, u, p) == Lookup(m, o.kernelRoot, p)
      ensures !m0[o.kernelRoot][p[0]].p ==> Lookup(m, u, p) == None
    {
      assert m[u][p[0]] == m0[u][p[0]];
      KernelHalfShared(m, o, u, p);
      if !m[u][p[0]].p {
        AbsentBelow(m, u, p);
      }
    }
  }

  /** Isolation: a store through one page changes no translation anywhere and
      no word of any other page, in the same or another space. */
  lemma StoreIsolated(m: Memory, o: Spaces, free: set<nat>, k: Place, i: nat, v: Entry)
    requires Inv(m, o, free) && k in Pages(m, o) && i < NUM_PT_ENTRIES
    requires Pages(m, o)[k].addr !in o.reserved
    ensures Pages(m, o)[k].addr < MAX_NUM_FRAMES
    ensures var m' := SetEntry(m, Pages(m, o)[k].addr, i, v);
      && Inv(m', o, free)
      && Pages(m', o) == Pages(m, o) && SameUpper(m, m', o)
      && (forall k' | k' in Pages(m, o) && k' != k && Pages(m, o)[k'].addr < MAX_NUM_FRAMES ::
            m'[Pages(m, o)[k'].addr] == m[Pages(m, o)[k'].addr])
  {
    var f := Pages(m, o)[k].addr;
    PageReached(m, o, k);
    assert NotTable(m, o, f);
    Fill(m, o, free, f, m[f][i := v]);
    forall r: nat | r in o.users ensures r != f {
      assert Reaches(m, o, r, [], r);
    }
    forall k' | k' in Pages(m, o) && k' != k ensures Pages(m, o)[k'].addr != f {
      PageReached(m, o, k');
    }
  }

  /** No two pages, of one space or of two, share a frame, and no page's frame
      is free. */
  lemma NoSharedFrames(m: Memory, o: Spaces, free: set<nat>, k: Place, k': Place)
    requires Inv(m, o, free) && k in Pages(m, o) && k' in Pages(m, o) && k != k'
    requires Pages(m, o)[k].addr !in o.reserved
    ensures Pages(m, o)[k].addr != Pages(m, o)[k'].addr && Pages(m, o)[k].addr !in free
  {
    PageReached(m, o, k);
    PageReached(m, o, k');
  }

  /** In a user space, what mapping over a page loses is the page's frame. */
  lemma ReplacedPage(m: Memory, o: Spaces, free: set<nat>, r: nat, p: seq<nat>, g: nat)
    requires Inv(m, o, free) && Owns(o, r, p) && |p| == LEVELS && r in o.users && Detached(m, o, free, g)
    ensures Replaced(m, o, r, p, g) ==
      if Place(r, p) in Pages(m, o) then {Pages(m, o)[Place(r, p)].addr} else {}
  {
    if Place(r, p) in Pages(m, o) {
      PageReached(m, o, Place(r, p));
    }
  }

  lemma PageNotTable(m: Memory, o: Spaces, free: set<nat>, k: Place)
    requires Inv(m, o, free) && k in Pages(m, o) && Pages(m, o)[k].addr < MAX_NUM_FRAMES
    ensures NotTable(m, o, Pages(m, o)[k].addr) && Pages(m, o)[k].addr !in free
  {
    PageReached(m, o, k);
  }

  /** The pages of `pages` hold what they held in `m0`. */
  ghost predicate SameContents(pages: imap<Place, Entry>, m0: Memory, m: Memory)
  {
    forall k: Place | k in pages && pages[k].addr < MAX_NUM_FRAMES :: m[pages[k].addr] == m0[pages[k].addr]
  }

  lemma StoreKeepsFrames(m: Memory, o: Spaces, free: set<nat>, k: Place, i: nat, v: Entry)
    requires Inv(m, o, free) && k in Pages(m, o) && i < NUM_PT_ENTRIES
    requires Pages(m, o)[k].addr !in o.reserved
    ensures Pages(m, o)[k].addr < MAX_NUM_FRAMES
    ensures Loose(SetEntry(m, Pages(m, o)[k].addr, i, v), o, free) == Loose(m, o, free)
  {
    var f := Pages(m, o)[k].addr;
    PageReached(m, o, k);
    assert NotTable(m, o, f);
    Fill(m, o, free, f, m[f][i := v]);
  }

  lemma PageReached(m: Memory, o: Spaces, k: Place)
    requires k in Pages(m, o)
    ensures Reaches(m, o, k.space, k.path, Pages(m, o)[k].addr)
  {
  }
}
