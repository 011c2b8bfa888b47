/** What copying and tearing down part of an address space means, and how one
    table entry at a time achieves it. */
module Cloning {
  import opened Common
  import opened Pmm
  import opened PageTables

  ghost predicate Below(q: seq<nat>, p: seq<nat>) { |p| < |q| && Extends(q, p) }

  /** How many entries of a table at this depth belong to the space: a root's
      upper entries are the kernel's. */
  function Limit(kernelStart: nat, depth: nat): nat
  {
    if depth == 0 then kernelStart else NUM_PT_ENTRIES
  }

  lemma SplitBelow(q: seq<nat>, p: seq<nat>, i: nat)
    requires Below(q, p)
    ensures Extends(q, p + [i]) <==> q[|p|] == i
    ensures q[|p|] == i ==> q == p + [i] || Below(q, p + [i])
  {
    assert q[..|p| + 1] == q[..|p|] + [q[|p|]];
    assert q[..|q|] == q;
  }

  lemma BelowDeeper(q: seq<nat>, p: seq<nat>, i: nat)
    requires Below(q, p + [i])
    ensures Below(q, p) && q[|p|] == i
  {
    assert q[..|p|] == q[..|p| + 1][..|p|];
    assert (p + [i])[..|p|] == p;
  }

  // ---------- Copying ----------

  /** A page of the copy: same flags, same contents. */
  ghost predicate PageCopied(m0: Memory, e0: Entry, m: Memory, e: Option<Entry>)
  {
    && e.Some? && e.value == e0.(addr := e.value.addr)
    && e0.addr < MAX_NUM_FRAMES && e.value.addr < MAX_NUM_FRAMES
    && m[e.value.addr] == m0[e0.addr]
  }

  /** In space `r2`, what lies below the first `lo` entries of the table `dst`
      at `p` is a copy of what lies below them in space `r`, in frames that
      were free; below the other entries there is nothing; nothing else has
      changed. */
  ghost predicate Cloned(
    m0: Memory, free0: set<nat>, m: Memory, free: set<nat>, o: Spaces,
    r: nat, r2: nat, p: seq<nat>, dst: nat, lo: nat)
  {
    && free <= free0
    && (forall r': nat, q: seq<nat>, f: nat | !(r' == r2 && Below(q, p)) ::
          Reaches(m, o, r', q, f) <==> Reaches(m0, o, r', q, f))
    && (forall q: seq<nat> | Owns(o, r2, q) && Below(q, p) ::
          Walk(m, r2, q).Some? <==> q[|p|] < lo && Walk(m0, r, q).Some?)
    && (forall q: seq<nat>, f: nat | Reaches(m, o, r2, q, f) && Below(q, p) :: f in free0)
    && (forall f: nat | f < MAX_NUM_FRAMES && f !in free0 && f != dst :: m[f] == m0[f])
    && (forall q: seq<nat> | Owns(o, r2, q) && Below(q, p) && |q| == LEVELS && q[|p|] < lo ::
          Lookup(m0, r, q).Some? ==> PageCopied(m0, Lookup(m0, r, q).value, m, Lookup(m, r2, q)))
  }

  /** The setting in which a table is copied. */
  ghost predicate Copying(
    m0: Memory, free0: set<nat>, o: Spaces, r: nat, r2: nat, p: seq<nat>, src: nat, dst: nat)
  {
    && Inv(m0, o, free0) && |p| < LEVELS
    && r in o.users && r2 in o.users && r != r2
    && Reaches(m0, o, r, p, src) && Reaches(m0, o, r2, p, dst)
  }

  lemma CopyStart(m0: Memory, free0: set<nat>, o: Spaces, r: nat, r2: nat, p: seq<nat>, src: nat, dst: nat)
    requires Copying(m0, free0, o, r, r2, p, src, dst)
    requires dst < MAX_NUM_FRAMES
    requires forall j: nat | j < Limit(o.kernelStart, |p|) :: !m0[dst][j].p
    ensures Cloned(m0, free0, m0, free0, o, r, r2, p, dst, 0)
  {
    forall q: seq<nat> | Owns(o, r2, q) && Below(q, p) ensures Walk(m0, r2, q) == None {
      var next := q[..|p| + 1];
      assert Init(next) == p by { assert q[..|p| + 1][..|p|] == q[..|p|]; }
      assert Last(next) == q[|p|];
      assert Walk(m0, r2, next) == Step(m0, dst, q[|p|]);
      if |q| > |p| + 1 {
        NothingBelow(m0, r2, next, q);
      } else {
        assert next == q;
      }
    }
  }

  lemma CopyAbsent(
    m0: Memory, free0: set<nat>, m: Memory, free: set<nat>, o: Spaces,
    r: nat, r2: nat, p: seq<nat>, src: nat, dst: nat, i: nat)
    requires Copying(m0, free0, o, r, r2, p, src, dst)
    requires Cloned(m0, free0, m, free, o, r, r2, p, dst, i)
    requires Walk(m0, r, p + [i]) == None
    ensures Cloned(m0, free0, m, free, o, r, r2, p, dst, i + 1)
  {
    forall q: seq<nat> | Owns(o, r2, q) && Below(q, p) && q[|p|] == i
      ensures Walk(m0, r, q) == None
    {
      SplitBelow(q, p, i);
      if q != p + [i] {
        NothingBelow(m0, r, p + [i], q);
      }
    }
  }

  /** Where the copy of entry `i` stands before it is made. */
  lemma CopyContext(
    m0: Memory, free0: set<nat>, m: Memory, free: set<nat>, o: Spaces,
    r: nat, r2: nat, p: seq<nat>, src: nat, dst: nat, i: nat)
    requires Copying(m0, free0, o, r, r2, p, src, dst)
    requires Cloned(m0, free0, m, free, o, r, r2, p, dst, i) && Inv(m, o, free)
    requires i < Limit(o.kernelStart, |p|)
    ensures Init(p + [i]) == p && Last(p + [i]) == i
    ensures Owns(o, r, p + [i]) && Owns(o, r2, p + [i]) && i < NUM_PT_ENTRIES
    ensures src < MAX_NUM_FRAMES && dst < MAX_NUM_FRAMES && m[src] == m0[src]
    ensures Reaches(m, o, r, p, src) && Reaches(m, o, r2, p, dst) && Walk(m, r2, p + [i]) == None
    ensures m0[src][i].p ==>
      var f := m0[src][i].addr;
      Reaches(m0, o, r, p + [i], f) && Reaches(m, o, r, p + [i], f) && f < MAX_NUM_FRAMES && m[f] == m0[f]
    ensures !m0[src][i].p ==> Walk(m0, r, p + [i]) == None
    ensures r2 != o.kernelRoot
  {
    var p' := p + [i];
    assert Init(p') == p && Last(p') == i;
    assert Below(p', p) && p'[|p|] == i by { assert p'[..|p|] == p; }
    assert Owns(o, r, p') && Owns(o, r2, p');
    assert Reaches(m, o, r, p, src) && Reaches(m, o, r2, p, dst);
    assert src !in o.reserved && src != dst && src !in free0;
    if m0[src][i].p {
      var f := m0[src][i].addr;
      assert Reaches(m0, o, r, p', f);
      assert f !in o.reserved && f !in free0 && f != dst;
    }
  }

  /** Copying a page. */
  lemma CopyLeaf(
    m0: Memory, free0: set<nat>, m: Memory, free: set<nat>, o: Spaces,
    r: nat, r2: nat, p: seq<nat>, src: nat, dst: nat, i: nat, g: nat, m2: Memory)
    requires Copying(m0, free0, o, r, r2, p, src, dst) && |p| == LEVELS - 1
    requires Cloned(m0, free0, m, free, o, r, r2, p, dst, i) && Inv(m, o, free)
    requires src < MAX_NUM_FRAMES && dst < MAX_NUM_FRAMES && i < NUM_PT_ENTRIES && g in free && g < MAX_NUM_FRAMES
    requires Owns(o, r, p + [i]) && m0[src][i].p && m0[src][i].addr < MAX_NUM_FRAMES
    requires m2 == SetEntry(m, dst, i, m0[src][i].(addr := g))[g := m0[m0[src][i].addr]]
    requires RewiredTo(m, m2, o, r2, p + [i], Some(g))
    ensures Cloned(m0, free0, m2, free - {g}, o, r, r2, p, dst, i + 1)
  {
    var p' := p + [i];
    assert Init(p') == p && Last(p') == i;
    assert Owns(o, r2, p');
    assert Reaches(m, o, r2, p, dst);
    assert dst !in free;
    forall q: seq<nat> | Owns(o, r2, q) && Below(q, p)
      ensures Walk(m2, r2, q).Some? <==> q[|p|] < i + 1 && Walk(m0, r, q).Some?
      ensures |q| == LEVELS && q[|p|] < i + 1 && Lookup(m0, r, q).Some? ==>
        PageCopied(m0, Lookup(m0, r, q).value, m2, Lookup(m2, r2, q))
    {
      CopyLeafAt(m0, free0, m, free, o, r, r2, p, src, dst, i, g, m2, q);
    }
  }

  lemma CopyLeafAt(
    m0: Memory, free0: set<nat>, m: Memory, free: set<nat>, o: Spaces,
    r: nat, r2: nat, p: seq<nat>, src: nat, dst: nat, i: nat, g: nat, m2: Memory, q: seq<nat>)
    requires Copying(m0, free0, o, r, r2, p, src, dst) && |p| == LEVELS - 1
    requires Cloned(m0, free0, m, free, o, r, r2, p, dst, i) && Inv(m, o, free)
    requires src < MAX_NUM_FRAMES && dst < MAX_NUM_FRAMES && i < NUM_PT_ENTRIES && g in free && g < MAX_NUM_FRAMES
    requires Owns(o, r, p + [i]) && m0[src][i].p && m0[src][i].addr < MAX_NUM_FRAMES
    requires m2 == SetEntry(m, dst, i, m0[src][i].(addr := g))[g := m0[m0[src][i].addr]]
    requires RewiredTo(m, m2, o, r2, p + [i], Some(g))
    requires Owns(o, r2, q) && Below(q, p)
    ensures Walk(m2, r2, q).Some? <==> q[|p|] < i + 1 && Walk(m0, r, q).Some?
    ensures q[|p|] < i + 1 && Lookup(m0, r, q).Some? ==>
      PageCopied(m0, Lookup(m0, r, q).value, m2, Lookup(m2, r2, q))
  {
    var p' := p + [i];
    assert Init(p') == p && Last(p') == i;
    assert Owns(o, r2, p');
    assert Reaches(m, o, r2, p, dst) && Reaches(m2, o, r2, p, dst);
    assert dst !in free;
    SplitBelow(q, p, i);
    assert Init(q) == p && q == p + [q[|p|]];
    if q == p' {
      assert Reaches(m2, o, r2, q, g);
    } else {
      KeptReach(m, m2, o, r2, p', Some(g), q);
      if q[|p|] < i && Lookup(m0, r, q).Some? {
        var e := Lookup(m, r2, q).value;
        assert Reaches(m, o, r2, q, e.addr);
        assert e.addr !in free;
        assert e.addr != dst;
      }
    }
  }

  /** One page copied into the free frame `g`, as a step of the whole. */
  lemma CopyPage(
    m0: Memory, free0: set<nat>, m: Memory, free: set<nat>, o: Spaces,
    r: nat, r2: nat, p: seq<nat>, src: nat, dst: nat, i: nat, g: nat)
    requires Copying(m0, free0, o, r, r2, p, src, dst) && |p| == LEVELS - 1
    requires Cloned(m0, free0, m, free, o, r, r2, p, dst, i) && Inv(m, o, free)
    requires src < MAX_NUM_FRAMES && i < Limit(o.kernelStart, |p|) && m[src][i].p && g in free
    ensures g < MAX_NUM_FRAMES && dst < MAX_NUM_FRAMES && m[src][i].addr < MAX_NUM_FRAMES
    ensures var m2 := SetEntry(m, dst, i, m[src][i].(addr := g))[g := m[m[src][i].addr]];
      && Inv(m2, o, free - {g})
      && Loose(m2, o, free - {g}) == Loose(m, o, free)
      && Cloned(m0, free0, m2, free - {g}, o, r, r2, p, dst, i + 1)
  {
    CopyContext(m0, free0, m, free, o, r, r2, p, src, dst, i);
    var e, page := m[src][i].(addr := g), m[m[src][i].addr];
    Graft(m, o, free, r2, p + [i], dst, e, page);
    CopyLeaf(m0, free0, m, free, o, r, r2, p, src, dst, i, g, SetEntry(m, dst, i, e)[g := page]);
  }

  lemma CopyUpper(
    m0: Memory, free0: set<nat>, m: Memory, free: set<nat>, o: Spaces,
    r: nat, r2: nat, p: seq<nat>, src: nat, dst: nat, i: nat, g: nat)
    requires Copying(m0, free0, o, r, r2, p, src, dst) && |p| == LEVELS - 1 && i < NUM_PT_ENTRIES
    requires Cloned(m0, free0, m, free, o, r, r2, p, dst, i) && Inv(m, o, free)
    requires src < MAX_NUM_FRAMES && m[src][i].p && g in free
    ensures dst < MAX_NUM_FRAMES && g < MAX_NUM_FRAMES && m[src][i].addr < MAX_NUM_FRAMES
    ensures SameUpper(m, SetEntry(m, dst, i, m[src][i].(addr := g))[g := m[m[src][i].addr]], o)
  {
    CopyContext(m0, free0, m, free, o, r, r2, p, src, dst, i);
    GraftUpper(m, o, free, r2, p + [i], dst, m[src][i].(addr := g), m[m[src][i].addr]);
  }

  lemma KeptReach(m: Memory, m': Memory, o: Spaces, r: nat, p: seq<nat>, g: Option<nat>, q: seq<nat>)
    requires RewiredTo(m, m', o, r, p, g) && Owns(o, r, q) && q != p
    ensures Walk(m', r, q) == Walk(m, r, q)
  {
    if Walk(m, r, q).Some? {
      assert Reaches(m, o, r, q, Walk(m, r, q).value);
    } else if Walk(m', r, q).Some? {
      assert Reaches(m', o, r, q, Walk(m', r, q).value);
    }
  }

  /** A freshly grafted table is ready to receive what lies below entry `i`. */
  lemma ChildReady(
    m0: Memory, free0: set<nat>, m: Memory, free: set<nat>, m1: Memory, free1: set<nat>, o: Spaces,
    r: nat, r2: nat, p: seq<nat>, src: nat, dst: nat, i: nat, child: nat)
    requires Copying(m0, free0, o, r, r2, p, src, dst) && |p| < LEVELS - 1
    requires Cloned(m0, free0, m, free, o, r, r2, p, dst, i) && Inv(m, o, free)
    requires src < MAX_NUM_FRAMES && i < Limit(o.kernelStart, |p|) && m[src][i].p
    requires Ensured(m, free, m1, free1, o, r2, p + [i], dst, child)
    ensures m1[src] == m[src]
    ensures Copying(m1, free1, o, r, r2, p + [i], m1[src][i].addr, child)
    ensures child < MAX_NUM_FRAMES && NoEntries(m1, child)
  {
    CopyContext(m0, free0, m, free, o, r, r2, p, src, dst, i);
    assert src !in free && src != dst;
  }

  /** The state while entry `i` is being copied: its table `child` has been
      grafted, and everything below it cloned. */
  ghost predicate CopyingChild(
    m0: Memory, free0: set<nat>, m: Memory, free: set<nat>, m1: Memory, m2: Memory, free2: set<nat>, o: Spaces,
    r: nat, r2: nat, p: seq<nat>, src: nat, dst: nat, i: nat, child: nat)
  {
    && Copying(m0, free0, o, r, r2, p, src, dst) && |p| < LEVELS - 1
    && Cloned(m0, free0, m, free, o, r, r2, p, dst, i) && Inv(m, o, free)
    && child in free
    && (forall f: nat | f < MAX_NUM_FRAMES && f != dst && f !in free :: m1[f] == m[f])
    && RewiredTo(m, m1, o, r2, p + [i], Some(child))
    && Owns(o, r2, p + [i]) && Walk(m0, r, p + [i]).Some?
    && Cloned(m1, free - {child}, m2, free2, o, r, r2, p + [i], child, NUM_PT_ENTRIES)
  }

  /** Copying a table with all that lies below it. */
  lemma CopyTable(
    m0: Memory, free0: set<nat>, m: Memory, free: set<nat>, m1: Memory, m2: Memory, free2: set<nat>, o: Spaces,
    r: nat, r2: nat, p: seq<nat>, src: nat, dst: nat, i: nat, child: nat)
    requires CopyingChild(m0, free0, m, free, m1, m2, free2, o, r, r2, p, src, dst, i, child)
    ensures Cloned(m0, free0, m2, free2, o, r, r2, p, dst, i + 1)
  {
    var p' := p + [i];
    forall r': nat, q: seq<nat>, f: nat | !(r' == r2 && Below(q, p))
      ensures Reaches(m2, o, r', q, f) <==> Reaches(m0, o, r', q, f)
    {
      if Below(q, p') { BelowDeeper(q, p, i); }
      assert q == p' ==> Below(q, p) by { assert p'[..|p|] == p; }
    }
    forall q: seq<nat> | Owns(o, r2, q) && Below(q, p)
      ensures Walk(m2, r2, q).Some? <==> q[|p|] < i + 1 && Walk(m0, r, q).Some?
      ensures forall f: nat | Reaches(m2, o, r2, q, f) :: f in free0
      ensures |q| == LEVELS && q[|p|] < i + 1 && Lookup(m0, r, q).Some? ==>
        PageCopied(m0, Lookup(m0, r, q).value, m2, Lookup(m2, r2, q))
    {
      if q[|p|] == i {
        CopyTableHere(m0, free0, m, free, m1, m2, free2, o, r, r2, p, src, dst, i, child, q);
      } else {
        CopyTableBefore(m0, free0, m, free, m1, m2, free2, o, r, r2, p, src, dst, i, child, q);
      }
    }
  }

  lemma CopyEntry(
    m0: Memory, free0: set<nat>, m: Memory, free: set<nat>, m1: Memory, free1: set<nat>,
    m2: Memory, free2: set<nat>, o: Spaces,
    r: nat, r2: nat, p: seq<nat>, src: nat, dst: nat, i: nat, child: nat)
    requires Copying(m0, free0, o, r, r2, p, src, dst) && |p| < LEVELS - 1
    requires Cloned(m0, free0, m, free, o, r, r2, p, dst, i) && Inv(m, o, free)
    requires src < MAX_NUM_FRAMES && i < Limit(o.kernelStart, |p|) && i < NUM_PT_ENTRIES && m[src][i].p
    requires Ensured(m, free, m1, free1, o, r2, p + [i], dst, child)
    requires Cloned(m1, free1, m2, free2, o, r, r2, p + [i], child, NUM_PT_ENTRIES)
    ensures Cloned(m0, free0, m2, free2, o, r, r2, p, dst, i + 1)
  {
    CopyContext(m0, free0, m, free, o, r, r2, p, src, dst, i);
    CopyTable(m0, free0, m, free, m1, m2, free2, o, r, r2, p, src, dst, i, child);
  }

  lemma SameWalk(m: Memory, m': Memory, o: Spaces, r: nat, q: seq<nat>)
    requires Owns(o, r, q)
    requires forall f: nat :: Reaches(m', o, r, q, f) <==> Reaches(m, o, r, q, f)
    ensures Walk(m', r, q) == Walk(m, r, q)
  {
    if Walk(m, r, q).Some? {
      assert Reaches(m, o, r, q, Walk(m, r, q).value);
    } else if Walk(m', r, q).Some? {
      assert Reaches(m', o, r, q, Walk(m', r, q).value);
    }
  }

  /** A page keeps its entry and contents when neither its table nor its own
      frame is written. */
  lemma SamePage(m: Memory, m': Memory, o: Spaces, r: nat, q: seq<nat>)
    requires Owns(o, r, q) && |q| == LEVELS && Walk(m', r, Init(q)) == Walk(m, r, Init(q))
    requires forall f: nat | f < MAX_NUM_FRAMES && (Reaches(m, o, r, Init(q), f) || Reaches(m, o, r, q, f)) ::
      m'[f] == m[f]
    ensures Lookup(m', r, q) == Lookup(m, r, q)
    ensures Lookup(m, r, q).Some? && Lookup(m, r, q).value.addr < MAX_NUM_FRAMES ==>
      m'[Lookup(m, r, q).value.addr] == m[Lookup(m, r, q).value.addr]
  {
    if Walk(m, r, Init(q)).Some? {
      var h := Walk(m, r, Init(q)).value;
      assert Reaches(m, o, r, Init(q), h);
      if Lookup(m, r, q).Some? {
        assert Reaches(m, o, r, q, Lookup(m, r, q).value.addr);
      }
    }
  }

  /** Entries before the one being copied stay as they were. */
  lemma CopyTableBefore(
    m0: Memory, free0: set<nat>, m: Memory, free: set<nat>, m1: Memory, m2: Memory, free2: set<nat>, o: Spaces,
    r: nat, r2: nat, p: seq<nat>, src: nat, dst: nat, i: nat, child: nat, q: seq<nat>)
    requires CopyingChild(m0, free0, m, free, m1, m2, free2, o, r, r2, p, src, dst, i, child)
    requires Owns(o, r2, q) && Below(q, p) && q[|p|] != i
    ensures Walk(m2, r2, q).Some? <==> q[|p|] < i + 1 && Walk(m0, r, q).Some?
    ensures forall f: nat | Reaches(m2, o, r2, q, f) :: f in free0
    ensures |q| == LEVELS && q[|p|] < i + 1 && Lookup(m0, r, q).Some? ==>
      PageCopied(m0, Lookup(m0, r, q).value, m2, Lookup(m2, r2, q))
  {
    NotBelowSibling(q, p, i);
    SameWalk(m, m2, o, r2, q);
    if |q| == LEVELS && q[|p|] < i && Lookup(m0, r, q).Some? {
      assert q[..|q| - 1][..|p|] == q[..|p|];
      NotBelowSibling(Init(q), p, i);
      SameWalk(m, m2, o, r2, Init(q));
      assert Reaches(m, o, r2, p, dst);
      forall f: nat | f < MAX_NUM_FRAMES && (Reaches(m, o, r2, Init(q), f) || Reaches(m, o, r2, q, f))
        ensures m2[f] == m[f]
      {
        assert f !in free && f != dst;
      }
      SamePage(m, m2, o, r2, q);
    }
  }

  lemma NotBelowSibling(q: seq<nat>, p: seq<nat>, i: nat)
    requires Below(q, p) && q[|p|] != i
    ensures q != p + [i] && !Below(q, p + [i])
  {
    if Below(q, p + [i]) {
      BelowDeeper(q, p, i);
    }
  }

  /** What lies below the entry being copied comes from the recursive copy. */
  lemma CopyTableHere(
    m0: Memory, free0: set<nat>, m: Memory, free: set<nat>, m1: Memory, m2: Memory, free2: set<nat>, o: Spaces,
    r: nat, r2: nat, p: seq<nat>, src: nat, dst: nat, i: nat, child: nat, q: seq<nat>)
    requires CopyingChild(m0, free0, m, free, m1, m2, free2, o, r, r2, p, src, dst, i, child)
    requires Owns(o, r2, q) && Below(q, p) && q[|p|] == i
    ensures Walk(m2, r2, q).Some? <==> Walk(m0, r, q).Some?
    ensures forall f: nat | Reaches(m2, o, r2, q, f) :: f in free0
    ensures |q| == LEVELS && Lookup(m0, r, q).Some? ==>
      PageCopied(m0, Lookup(m0, r, q).value, m2, Lookup(m2, r2, q))
  {
    SplitBelow(q, p, i);
    if q == p + [i] {
      assert Reaches(m1, o, r2, q, child);
      assert Reaches(m2, o, r2, q, child);
      assert Walk(m2, r2, q) == Some(child);
      assert |q| < LEVELS;
    } else {
      CopyBelowHere(m0, free0, m, free, m1, m2, free2, o, r, r2, p, src, dst, i, child, q);
      if |q| == LEVELS && Lookup(m0, r, q).Some? {
        SourceUntouched(m0, free0, m, free, m1, m2, free2, o, r, r2, p, src, dst, i, child, q);
        IndicesInRange(m0, r, q, |p| + 1);
        assert PageCopied(m1, Lookup(m1, r, q).value, m2, Lookup(m2, r2, q));
      }
    }
  }

  lemma CopyBelowHere(
    m0: Memory, free0: set<nat>, m: Memory, free: set<nat>, m1: Memory, m2: Memory, free2: set<nat>, o: Spaces,
    r: nat, r2: nat, p: seq<nat>, src: nat, dst: nat, i: nat, child: nat, q: seq<nat>)
    requires CopyingChild(m0, free0, m, free, m1, m2, free2, o, r, r2, p, src, dst, i, child)
    requires Owns(o, r2, q) && Below(q, p + [i])
    ensures Walk(m2, r2, q).Some? <==> Walk(m0, r, q).Some?
    ensures forall f: nat | Reaches(m2, o, r2, q, f) :: f in free0
  {
    assert Owns(o, r, q);
    SameWalk(m0, m1, o, r, q);
    if Walk(m1, r, q).Some? {
      IndicesInRange(m1, r, q, |p| + 1);
    }
  }

  lemma {:induction false} IndicesInRange(m: Memory, r: nat, q: seq<nat>, j: nat)
    requires Walk(m, r, q).Some? && j < |q|
    ensures q[j] < NUM_PT_ENTRIES
    decreases |q|
  {
    if j < |q| - 1 {
      IndicesInRange(m, r, Init(q), j);
    }
  }

  lemma SourceUntouched(
    m0: Memory, free0: set<nat>, m: Memory, free: set<nat>, m1: Memory, m2: Memory, free2: set<nat>, o: Spaces,
    r: nat, r2: nat, p: seq<nat>, src: nat, dst: nat, i: nat, child: nat, q: seq<nat>)
    requires CopyingChild(m0, free0, m, free, m1, m2, free2, o, r, r2, p, src, dst, i, child)
    requires Owns(o, r, q) && |q| == LEVELS && Lookup(m0, r, q).Some?
    ensures Lookup(m1, r, q) == Lookup(m0, r, q)
    ensures Lookup(m0, r, q).value.addr < MAX_NUM_FRAMES ==>
      m1[Lookup(m0, r, q).value.addr] == m0[Lookup(m0, r, q).value.addr]
  {
    SameWalk(m0, m1, o, r, Init(q));
    forall f: nat | f < MAX_NUM_FRAMES && (Reaches(m0, o, r, Init(q), f) || Reaches(m0, o, r, q, f))
      ensures m1[f] == m0[f]
    {
      assert f !in free0 && f != dst;
    }
    SamePage(m0, m1, o, r, q);
  }

  // ---------- Tearing down ----------

  /** In space `r`, everything below the first `lo` entries of the table `t` at
      `p` is gone and its frames are free; nothing else has changed. */
  ghost predicate Freed(
    m0: Memory, free0: set<nat>, m: Memory, free: set<nat>, o: Spaces, r: nat, p: seq<nat>, t: nat, lo: nat)
  {
    && (forall r': nat, q: seq<nat>, f: nat ::
          Reaches(m, o, r', q, f) <==>
            Reaches(m0, o, r', q, f) && !(r' == r && Below(q, p) && q[|p|] < lo))
    && (forall f: nat ::
          f in free <==> f in free0 || FreedAt(m0, o, r, p, lo, f))
    && (forall f: nat | f < MAX_NUM_FRAMES && f !in free && f != t :: m[f] == m0[f])
    && t < MAX_NUM_FRAMES && lo <= NUM_PT_ENTRIES
    && (forall j: nat | j < lo :: !m[t][j].p)
    && (forall j: nat | lo <= j < NUM_PT_ENTRIES :: m[t][j] == m0[t][j])
  }

  ghost predicate FreedAt(m0: Memory, o: Spaces, r: nat, p: seq<nat>, lo: nat, f: nat)
  {
    exists q: seq<nat> :: Reaches(m0, o, r, q, f) && Below(q, p) && q[|p|] < lo
  }

  lemma FreeAbsent(
    m0: Memory, free0: set<nat>, m: Memory, free: set<nat>, o: Spaces, r: nat, p: seq<nat>, t: nat, i: nat)
    requires Freed(m0, free0, m, free, o, r, p, t, i)
    requires i < NUM_PT_ENTRIES && !m[t][i].p && Reaches(m0, o, r, p, t)
    ensures Freed(m0, free0, m, free, o, r, p, t, i + 1)
  {
    forall q: seq<nat> | Owns(o, r, q) && Below(q, p) && q[|p|] == i ensures Walk(m0, r, q) == None {
      SplitBelow(q, p, i);
      assert Init(p + [i]) == p;
      assert Walk(m0, r, p + [i]) == None;
      if q != p + [i] {
        NothingBelow(m0, r, p + [i], q);
      }
    }
    forall f: nat ensures FreedAt(m0, o, r, p, i, f) <==> FreedAt(m0, o, r, p, i + 1, f) {
      if FreedAt(m0, o, r, p, i + 1, f) {
        var q: seq<nat> :| Reaches(m0, o, r, q, f) && Below(q, p) && q[|p|] < i + 1;
        assert q[|p|] < i;
      }
    }
  }

  /** Everything below `p` is gone, and its frames are free. */
  ghost predicate Emptied(
    m: Memory, free: set<nat>, m1: Memory, free1: set<nat>, o: Spaces, r: nat, p: seq<nat>, g: nat)
  {
    && (forall r': nat, q: seq<nat>, f: nat ::
          Reaches(m1, o, r', q, f) <==> Reaches(m, o, r', q, f) && !(r' == r && Below(q, p)))
    && (forall f: nat ::
          f in free1 <==> f in free || exists q: seq<nat> :: Reaches(m, o, r, q, f) && Below(q, p))
    && (forall f: nat | f < MAX_NUM_FRAMES && f !in free1 && f != g :: m1[f] == m[f])
  }

  lemma FreedIsEmptied(
    m: Memory, free: set<nat>, m1: Memory, free1: set<nat>, o: Spaces, r: nat, p: seq<nat>, g: nat, lo: nat)
    requires Freed(m, free, m1, free1, o, r, p, g, lo)
    requires lo == Limit(o.kernelStart, |p|) && r in o.users && r != o.kernelRoot
    ensures Emptied(m, free, m1, free1, o, r, p, g)
  {
    forall q: seq<nat>, f: nat | Reaches(m, o, r, q, f) && Below(q, p) ensures q[|p|] < lo {
      IndicesInRange(m, r, q, |p|);
    }
    forall f: nat
      ensures FreedAt(m, o, r, p, lo, f) <==> exists q: seq<nat> :: Reaches(m, o, r, q, f) && Below(q, p)
    {
    }
  }

  lemma LeafIsEmptied(m: Memory, free: set<nat>, o: Spaces, r: nat, p: seq<nat>, g: nat)
    requires |p| == LEVELS
    ensures Emptied(m, free, m, free, o, r, p, g)
  {
  }

  lemma FreeStep(
    m0: Memory, free0: set<nat>, m: Memory, free: set<nat>, m1: Memory, free1: set<nat>, o: Spaces,
    r: nat, p: seq<nat>, t: nat, i: nat, g: nat, e: Entry, m2: Memory)
    requires Freed(m0, free0, m, free, o, r, p, t, i) && i < NUM_PT_ENTRIES
    requires Reaches(m, o, r, p, t) && Reaches(m, o, r, p + [i], g)
    requires Inv(m1, o, free1)
    requires Emptied(m, free, m1, free1, o, r, p + [i], g) && g !in free1 && t != g
    requires m2 == SetEntry(m1, t, i, e) && !e.p
    requires RewiredTo(m1, m2, o, r, p + [i], None)
    ensures Freed(m0, free0, m2, free1 + {g}, o, r, p, t, i + 1)
  {
    var p' := p + [i];
    assert p'[..|p|] == p;
    forall r': nat, q: seq<nat>, f: nat
      ensures Reaches(m2, o, r', q, f) <==>
        Reaches(m, o, r', q, f) && !(r' == r && Below(q, p) && q[|p|] == i)
    {
      if Below(q, p) { SplitBelow(q, p, i); }
      if Below(q, p') { BelowDeeper(q, p, i); }
    }
    assert Reaches(m1, o, r, p, t);
    assert t !in free1;
    forall f: nat ensures f in free1 + {g} <==> f in free0 || FreedAt(m0, o, r, p, i + 1, f) {
      FreedFrames(m0, free0, m, free, free1, o, r, p, i, g, f);
    }
  }

  lemma FreedFrames(
    m0: Memory, free0: set<nat>, m: Memory, free: set<nat>, free1: set<nat>, o: Spaces,
    r: nat, p: seq<nat>, i: nat, g: nat, f: nat)
    requires forall q: seq<nat> ::
      Reaches(m, o, r, q, f) <==> Reaches(m0, o, r, q, f) && !(Below(q, p) && q[|p|] < i)
    requires f in free <==> f in free0 || FreedAt(m0, o, r, p, i, f)
    requires Reaches(m, o, r, p + [i], g)
    requires f in free1 <==> f in free || exists q: seq<nat> :: Reaches(m, o, r, q, f) && Below(q, p + [i])
    ensures f in free1 + {g} <==> f in free0 || FreedAt(m0, o, r, p, i + 1, f)
  {
    var p' := p + [i];
    assert p'[..|p|] == p;
    if f == g {
      assert Reaches(m0, o, r, p', f) && Below(p', p) && p'[|p|] < i + 1;
    } else if f in free1 {
      if f !in free0 && !FreedAt(m0, o, r, p, i, f) {
        var q: seq<nat> :| Reaches(m, o, r, q, f) && Below(q, p');
        BelowDeeper(q, p, i);
        assert Reaches(m0, o, r, q, f) && Below(q, p) && q[|p|] < i + 1;
      }
    } else if FreedAt(m0, o, r, p, i + 1, f) {
      var q: seq<nat> :| Reaches(m0, o, r, q, f) && Below(q, p) && q[|p|] < i + 1;
      assert q[|p|] == i;
      SplitBelow(q, p, i);
      assert false;
    }
  }

  lemma FreeContext(m: Memory, free: set<nat>, o: Spaces, r: nat, p: seq<nat>, t: nat, i: nat)
    requires Inv(m, o, free) && |p| < LEVELS && r in o.users
    requires Reaches(m, o, r, p, t) && t < MAX_NUM_FRAMES
    requires i < Limit(o.kernelStart, |p|) && i < NUM_PT_ENTRIES && m[t][i].p
    ensures Reaches(m, o, r, p + [i], m[t][i].addr) && m[t][i].addr != t
    ensures Init(p + [i]) == p && Last(p + [i]) == i
    ensures m[t][i].addr < MAX_NUM_FRAMES
  {
    var p' := p + [i];
    assert Init(p') == p && Last(p') == i;
    assert p'[0] == if p == [] then i else p[0];
    assert Reaches(m, o, r, p', m[t][i].addr);
  }

  /** Giving back an emptied table or a page and clearing its entry. */
  lemma FreeEmptied(
    m0: Memory, free0: set<nat>, m: Memory, free: set<nat>, m1: Memory, free1: set<nat>, o: Spaces,
    r: nat, p: seq<nat>, t: nat, i: nat, g: nat)
    requires Inv(m, o, free) && Inv(m1, o, free1) && r in o.users && |p| < LEVELS
    requires Freed(m0, free0, m, free, o, r, p, t, i) && t < MAX_NUM_FRAMES
    requires i < Limit(o.kernelStart, |p|) && i < NUM_PT_ENTRIES
    requires Reaches(m, o, r, p, t) && Reaches(m, o, r, p + [i], g) && m[t][i].p
    requires Emptied(m, free, m1, free1, o, r, p + [i], g)
    requires |p| < LEVELS - 1 ==> g < MAX_NUM_FRAMES && NoEntries(m1, g)
    ensures g < MAX_NUM_FRAMES && g !in free1 && m1[t][i].p
    ensures var m2 := SetEntry(m1, t, i, m1[t][i].(p := false));
      && Inv(m2, o, free1 + {g})
      && Loose(m2, o, free1 + {g}) == Loose(m1, o, free1)
      && Freed(m0, free0, m2, free1 + {g}, o, r, p, t, i + 1)
  {
    FreeContext(m, free, o, r, p, t, i);
    var p' := p + [i];
    assert Reaches(m1, o, r, p, t) && Reaches(m1, o, r, p', g);
    assert t !in free1 && t != g;
    assert m1[t] == m[t];
    var e := m1[t][i].(p := false);
    Prune(m1, o, free1, r, p', t, e, g);
    var m2 := SetEntry(m1, t, i, e);
    RewiredReaches(m1, m2, o, r, p', None);
    FreeStep(m0, free0, m, free, m1, free1, o, r, p, t, i, g, e, m2);
  }

  // ---------- Whole spaces ----------

  /** Space `r2` is an isolated copy of `r`: page for page mapped alike, with
      the same flags and contents, in frames that were free; everything that
      was in use is untouched. */
  ghost predicate IsolatedCopy(m0: Memory, free0: set<nat>, m: Memory, o0: Spaces, o: Spaces, r: nat, r2: nat)
  {
    && (forall q: seq<nat> :: Place(r2, q) in Pages(m, o) <==> Place(r, q) in Pages(m0, o0))
    && (forall q: seq<nat> | Place(r, q) in Pages(m0, o0) ::
          && PageCopied(m0, Pages(m0, o0)[Place(r, q)], m, Some(Pages(m, o)[Place(r2, q)]))
          && Pages(m, o)[Place(r2, q)].addr in free0)
    && (forall k: Place | k.space != r2 :: k in Pages(m, o) <==> k in Pages(m0, o0))
    && (forall k: Place | k.space != r2 && k in Pages(m0, o0) :: Pages(m, o)[k] == Pages(m0, o0)[k])
    && (forall f: nat | f < MAX_NUM_FRAMES && f !in free0 :: m[f] == m0[f])
  }

  /** The frames that make up space `r`: its root, tables and pages. */
  ghost function FramesOf(m: Memory, o: Spaces, r: nat): set<nat>
  {
    set f: nat | f < MAX_NUM_FRAMES && PartOf(m, o, r, f)
  }

  ghost predicate PartOf(m: Memory, o: Spaces, r: nat, f: nat)
  {
    exists q: seq<nat> :: Reaches(m, o, r, q, f)
  }

  lemma CloneIsIsolated(
    m0: Memory, free0: set<nat>, o0: Spaces, m1: Memory, m: Memory, free: set<nat>, o: Spaces, r: nat, g: nat)
    requires Inv(m0, o0, free0) && r in o0.users && g in free0 && g !in o0.users
    requires o == o0.(users := o0.users + {g})
    requires m1 == m0[g := m1[g]] && Inv(m1, o, free0 - {g}) && Inv(m, o, free)
    requires Pages(m1, o) == Pages(m0, o0)
    requires Cloned(m1, free0 - {g}, m, free, o, r, g, [], g, o.kernelStart)
    ensures IsolatedCopy(m0, free0, m, o0, o, r, g)
  {
    forall q: seq<nat>
      ensures Place(g, q) in Pages(m, o) <==> Place(r, q) in Pages(m0, o0)
      ensures Place(r, q) in Pages(m0, o0) ==>
        && PageCopied(m0, Pages(m0, o0)[Place(r, q)], m, Some(Pages(m, o)[Place(g, q)]))
        && Pages(m, o)[Place(g, q)].addr in free0
    {
      ClonedPage(m0, free0, o0, m1, m, free, o, r, g, q);
    }
    forall k: Place | k.space != g && Owns(o, k.space, k.path) && |k.path| == LEVELS
      ensures Lookup(m, k.space, k.path) == Lookup(m1, k.space, k.path)
    {
      ClonedElsewhere(m0, free0, o0, m1, m, free, o, r, g, k);
    }
    forall k: Place | k.space != g
      ensures k in Pages(m, o) <==> k in Pages(m1, o)
      ensures k in Pages(m1, o) ==> Pages(m, o)[k] == Pages(m1, o)[k]
    {
    }
  }

  lemma ClonedElsewhere(
    m0: Memory, free0: set<nat>, o0: Spaces, m1: Memory, m: Memory, free: set<nat>, o: Spaces, r: nat, g: nat, k: Place)
    requires Inv(m0, o0, free0) && g in free0 && g !in o0.users
    requires o == o0.(users := o0.users + {g})
    requires m1 == m0[g := m1[g]] && Inv(m1, o, free0 - {g})
    requires Cloned(m1, free0 - {g}, m, free, o, r, g, [], g, o.kernelStart)
    requires k.space != g && Owns(o, k.space, k.path) && |k.path| == LEVELS
    ensures Lookup(m, k.space, k.path) == Lookup(m1, k.space, k.path)
  {
    SameWalk(m1, m, o, k.space, Init(k.path));
    if Walk(m1, k.space, Init(k.path)).Some? {
      var h := Walk(m1, k.space, Init(k.path)).value;
      assert Reaches(m1, o, k.space, Init(k.path), h);
      assert Reaches(m1, o, g, [], g);
      assert h !in free0 - {g} && h != g;
    }
  }

  lemma ClonedPage(
    m0: Memory, free0: set<nat>, o0: Spaces, m1: Memory, m: Memory, free: set<nat>, o: Spaces, r: nat, g: nat,
    q: seq<nat>)
    requires Inv(m0, o0, free0) && r in o0.users && g in free0 && g !in o0.users
    requires o == o0.(users := o0.users + {g})
    requires m1 == m0[g := m1[g]] && Inv(m1, o, free0 - {g})
    requires Pages(m1, o) == Pages(m0, o0)
    requires Cloned(m1, free0 - {g}, m, free, o, r, g, [], g, o.kernelStart)
    ensures Place(g, q) in Pages(m, o) <==> Place(r, q) in Pages(m0, o0)
    ensures Place(r, q) in Pages(m0, o0) ==>
      && PageCopied(m0, Pages(m0, o0)[Place(r, q)], m, Some(Pages(m, o)[Place(g, q)]))
      && Pages(m, o)[Place(g, q)].addr in free0
  {
    if |q| == LEVELS && Owns(o, g, q) {
      assert q[..0] == [];
      assert Below(q, []);
      assert Owns(o, r, q);
      assert Walk(m, g, q).Some? <==> Walk(m1, r, q).Some?;
      if Place(r, q) in Pages(m1, o) {
        PageReached(m1, o, Place(r, q));
        PageReached(m, o, Place(g, q));
        var f := Pages(m1, o)[Place(r, q)].addr;
        assert Reaches(m1, o, g, [], g);
        assert f != g;
      }
    }
  }

  /** Making the copy took exactly the frames that make it up. */
  lemma CloneTakes(
    m0: Memory, free0: set<nat>, o0: Spaces, m1: Memory, m: Memory, free: set<nat>, o: Spaces, r: nat, g: nat)
    requires Inv(m0, o0, free0) && r in o0.users && g in free0 && g !in o0.users
    requires o == o0.(users := o0.users + {g})
    requires m1 == m0[g := m1[g]] && Inv(m1, o, free0 - {g}) && Inv(m, o, free)
    requires Loose(m1, o, free0 - {g}) == Loose(m, o, free)
    requires Cloned(m1, free0 - {g}, m, free, o, r, g, [], g, o.kernelStart)
    ensures free0 == free + FramesOf(m, o, g) && free !! FramesOf(m, o, g)
  {
    assert Reaches(m, o, g, [], g) by { assert Reaches(m1, o, g, [], g); }
    forall q: seq<nat>, f: nat | Reaches(m, o, g, q, f) ensures f in free0 && f !in free {
      assert q != [] ==> Below(q, []) by { assert q[..0] == []; }
    }
    forall f: nat | f in free0 && f !in free ensures f in FramesOf(m, o, g) {
      if f != g && f !in FramesOf(m, o, g) {
        NobodyElse(m0, free0, o0, m1, m, free, o, r, g, f);
        assert false;
      }
    }
  }

  lemma NobodyElse(
    m0: Memory, free0: set<nat>, o0: Spaces, m1: Memory, m: Memory, free: set<nat>, o: Spaces, r: nat, g: nat, f: nat)
    requires Inv(m0, o0, free0) && Inv(m1, o, free0 - {g})
    requires Cloned(m1, free0 - {g}, m, free, o, r, g, [], g, o.kernelStart)
    requires o == o0.(users := o0.users + {g})
    requires f in free0 && f !in free && f != g && f !in FramesOf(m, o, g)
    ensures f in Loose(m, o, free)
  {
    forall r': nat, q: seq<nat> ensures !Reaches(m, o, r', q, f) {
      if r' != g {
        assert Reaches(m, o, r', q, f) <==> Reaches(m1, o, r', q, f);
      }
    }
  }

  /** An emptied user space can be dropped with its root; what is left is every
      other space, as it was, and its frames are exactly the ones returned. */
  lemma DropEmptied(m0: Memory, free0: set<nat>, m: Memory, free: set<nat>, o: Spaces, r: nat)
    requires Inv(m0, o, free0) && Inv(m, o, free) && r in o.users
    requires Freed(m0, free0, m, free, o, r, [], r, o.kernelStart)
    ensures var m' := m[r := ZeroFrame()];
      var o' := o.(users := o.users - {r});
      && Inv(m', o', free + {r})
      && Loose(m', o', free + {r}) == Loose(m, o, free)
      && (forall k: Place :: k in Pages(m', o') <==> k in Pages(m0, o) && k.space != r)
      && (forall k: Place | k in Pages(m', o') :: Pages(m', o')[k] == Pages(m0, o)[k])
      && free + {r} == free0 + FramesOf(m0, o, r) && r !in free
  {
    var o' := o.(users := o.users - {r});
    DropRoot(m, o, free, r);
    Fill(m, o', free, r, ZeroFrame());
    Release(m[r := ZeroFrame()], o', free, r);
    DroppedFrames(m0, free0, m, free, o, r);
    forall k: Place
      ensures k in Pages(m, o) <==> k in Pages(m0, o) && k.space != r
      ensures k in Pages(m, o) ==> Pages(m, o)[k] == Pages(m0, o)[k]
    {
      DroppedPage(m0, free0, m, free, o, r, k);
    }
  }

  lemma DroppedFrames(m0: Memory, free0: set<nat>, m: Memory, free: set<nat>, o: Spaces, r: nat)
    requires Inv(m0, o, free0) && Inv(m, o, free) && r in o.users
    requires Freed(m0, free0, m, free, o, r, [], r, o.kernelStart)
    ensures free + {r} == free0 + FramesOf(m0, o, r) && r !in free
  {
    assert Reaches(m0, o, r, [], r) && Reaches(m, o, r, [], r);
    forall f: nat ensures f in free + {r} <==> f in free0 + FramesOf(m0, o, r) {
      if PartOf(m0, o, r, f) {
        var q: seq<nat> :| Reaches(m0, o, r, q, f);
        assert q != [] ==> Below(q, []) by { assert q[..0] == []; }
      }
    }
  }

  lemma DroppedPage(m0: Memory, free0: set<nat>, m: Memory, free: set<nat>, o: Spaces, r: nat, k: Place)
    requires Inv(m0, o, free0) && Inv(m, o, free) && r in o.users
    requires Freed(m0, free0, m, free, o, r, [], r, o.kernelStart)
    ensures k in Pages(m, o) <==> k in Pages(m0, o) && k.space != r
    ensures k in Pages(m, o) ==> Pages(m, o)[k] == Pages(m0, o)[k]
  {
    if Owns(o, k.space, k.path) && |k.path| == LEVELS {
      var r', q := k.space, k.path;
      assert q[..0] == [] && Below(q, []);
      if r' == r {
        assert !Reaches(m, o, r, q, if Walk(m, r, q).Some? then Walk(m, r, q).value else r);
      } else {
        SameWalk(m0, m, o, r', Init(q));
        if Walk(m, r', Init(q)).Some? {
          var h := Walk(m, r', Init(q)).value;
          assert Reaches(m, o, r', Init(q), h);
          assert Reaches(m, o, r, [], r);
          assert h !in free && h != r;
        }
      }
    }
  }

  /** Clone and free cancel out. */
  lemma CloneFreeCancel(
    m0: Memory, free0: set<nat>, o: Spaces, m1: Memory, free1: set<nat>, o1: Spaces,
    m2: Memory, free2: set<nat>, r: nat, g: nat)
    requires Synced(m1, o1) && g !in o.users && o1 == o.(users := o.users + {g})
    requires IsolatedCopy(m0, free0, m1, o, o1, r, g)
    requires free0 == free1 + FramesOf(m1, o1, g)
    requires forall k: Place :: k in Pages(m2, o) <==> k in Pages(m1, o1) && k.space != g
    requires forall k: Place | k in Pages(m2, o) :: Pages(m2, o)[k] == Pages(m1, o1)[k]
    requires free2 == free1 + FramesOf(m1, o1, g)
    requires forall f: nat | f < MAX_NUM_FRAMES && f !in free2 :: m2[f] == m1[f]
    ensures Pages(m2, o) == Pages(m0, o) && free2 == free0
    ensures forall f: nat | f < MAX_NUM_FRAMES && f !in free2 :: m2[f] == m0[f]
  {
    PagesBack(Pages(m0, o), Pages(m1, o1), Pages(m2, o), g);
  }

  lemma PagesBack(p0: imap<Place, Entry>, p1: imap<Place, Entry>, p2: imap<Place, Entry>, g: nat)
    requires forall k: Place | k.space == g :: k !in p0
    requires forall k: Place | k.space != g :: k in p1 <==> k in p0
    requires forall k: Place | k.space != g && k in p0 :: p1[k] == p0[k]
    requires forall k: Place :: k in p2 <==> k in p1 && k.space != g
    requires forall k: Place | k in p2 :: p2[k] == p1[k]
    ensures p2 == p0
  {
  }
}
