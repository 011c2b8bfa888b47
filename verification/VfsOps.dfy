/** Operations that walk or change the mount tree, in place. */
module VfsOps {
  import opened Common
  import opened Tokens
  import opened Vfs

  // ---------- A new child ----------

  function WithChild(t: Tree, d: nat, name: string, isDir: bool): Tree
    requires d in t.nodes
  {
    var c := t.next;
    var n := t.nodes[d];
    t.(nodes := t.nodes[d := n.(children := n.children + [c])][c := Inode(n.mount, Some(d), name, isDir, [])],
       next := c + 1)
  }

  lemma ChildKeeps(t: Tree, d: nat, name: string, isDir: bool)
    requires WellFormed(t) && d in t.nodes && t.nodes[d].isDir && name != []
    requires LookupFrom(t, d, name, 0) == None
    ensures WellFormed(WithChild(t, d, name, isDir))
  {
    var t' := WithChild(t, d, name, isDir);
    assert NodeOk(t, d);
    assert t.next !in t.nodes;
    forall i | i in t'.nodes ensures NodeOk(t', i) {
      if i == d {
        ChildOfParent(t, d, name, isDir);
      } else if i == t.next {
        NewChild(t, d, name, isDir);
      } else {
        assert NodeOk(t, i);
        ChildElsewhere(t, d, name, isDir, i);
      }
    }
    forall m | 0 <= m < |t'.mounts| ensures MountOk(t', m) {
      assert MountOk(t, m);
    }
  }

  lemma SameNames(t: Tree, t': Tree, cs: seq<nat>)
    requires NamesDiffer(t, cs)
    requires forall c | c in cs :: c in t.nodes && c in t'.nodes && t'.nodes[c].name == t.nodes[c].name
    ensures NamesDiffer(t', cs)
  {
  }

  lemma OneMoreName(t: Tree, cs: seq<nat>, c: nat)
    requires NamesDiffer(t, cs) && c in t.nodes
    requires forall k | 0 <= k < |cs| && cs[k] in t.nodes :: t.nodes[cs[k]].name != t.nodes[c].name
    ensures NamesDiffer(t, cs + [c])
  {
  }

  lemma NewChild(t: Tree, d: nat, name: string, isDir: bool)
    requires WellFormed(t) && d in t.nodes && t.next !in t.nodes
    ensures NodeOk(WithChild(t, d, name, isDir), t.next)
  {
    assert NodeOk(t, d);
    assert WithChild(t, d, name, isDir).nodes[d].children[|t.nodes[d].children|] == t.next;
  }

  lemma ChildElsewhere(t: Tree, d: nat, name: string, isDir: bool, i: nat)
    requires d in t.nodes && i in t.nodes && i != d && t.next !in t.nodes && NodeOk(t, i)
    ensures NodeOk(WithChild(t, d, name, isDir), i)
  {
    var t' := WithChild(t, d, name, isDir);
    forall c | c in t'.nodes[i].children ensures ChildOk(t', i, c) {
      assert ChildOk(t, i, c);
    }
    SameNames(t, t', t.nodes[i].children);
  }

  lemma ChildOfParent(t: Tree, d: nat, name: string, isDir: bool)
    requires d in t.nodes && t.nodes[d].isDir && name != [] && t.next !in t.nodes && NodeOk(t, d)
    requires LookupFrom(t, d, name, 0) == None
    ensures NodeOk(WithChild(t, d, name, isDir), d)
  {
    var t', cs := WithChild(t, d, name, isDir), t.nodes[d].children;
    LookupFound(t, d, name, 0);
    forall c | c in cs ensures ChildOk(t, d, c) && ChildOk(t', d, c) {
    }
    SameNames(t, t', cs);
    OneMoreName(t', cs, t.next);
  }

  /** The names stay spellable exactly if the new name is. */
  lemma NamesKept(t: Tree, d: nat, name: string, isDir: bool)
    requires WellFormed(t) && d in t.nodes && name != []
    ensures NamesOk(WithChild(t, d, name, isDir)) <==> NamesOk(t) && IsName(name)
  {
    var t' := WithChild(t, d, name, isDir);
    assert NodeOk(t, d);
    assert t.next !in t.nodes;
    if NamesOk(t') {
      forall i | i in t.nodes && t.nodes[i].name != [] ensures IsName(t.nodes[i].name) {
        assert t'.nodes[i].name == t.nodes[i].name;
      }
      assert t'.nodes[t.next].name == name;
    }
  }

  // ---------- What a new child does to paths ----------

  lemma {:induction false} LookupKept(t: Tree, d: nat, name: string, isDir: bool, e: nat, token: string, k: nat)
    requires d in t.nodes && t.next !in t.nodes && e in t.nodes && k <= |t.nodes[e].children| && NodeOk(t, e)
    ensures var t' := WithChild(t, d, name, isDir);
      && (LookupFrom(t, e, token, k).Some? ==> LookupFrom(t', e, token, k) == LookupFrom(t, e, token, k))
      && (LookupFrom(t, e, token, k).None? ==>
            LookupFrom(t', e, token, k) == if e == d && token == name then Some(t.next) else None)
    decreases |t.nodes[e].children| - k
  {
    var t', cs := WithChild(t, d, name, isDir), t.nodes[e].children;
    if k < |cs| {
      assert cs[k] in cs && ChildOk(t, e, cs[k]);
      LookupKept(t, d, name, isDir, e, token, k + 1);
    } else if e == d {
      assert t'.nodes[e].children[k] == t.next;
      assert LookupFrom(t', e, token, k + 1) == None;
    }
  }

  lemma EnteredKept(t: Tree, d: nat, name: string, isDir: bool, c: nat)
    requires d in t.nodes
    ensures Entered(WithChild(t, d, name, isDir), c) == Entered(t, c)
  {
    MountsKept(t, WithChild(t, d, name, isDir), c, 0);
  }

  lemma {:induction false} MountsKept(t: Tree, t': Tree, c: nat, m: nat)
    requires t'.mounts == t.mounts && m <= |t.mounts|
    ensures MountFrom(t', c, m) == MountFrom(t, c, m)
    decreases |t.mounts| - m
  {
    if m < |t.mounts| {
      MountsKept(t, t', c, m + 1);
    }
  }

  lemma StepKept(t: Tree, d: nat, name: string, isDir: bool, i: nat, token: string)
    requires WellFormed(t) && d in t.nodes && t.next !in t.nodes && i in t.nodes && t.nodes[i].mount < |t.mounts|
    requires Step(t, i, token).Some?
    ensures Step(WithChild(t, d, name, isDir), i, token) == Step(t, i, token)
  {
    UpKept(t, d, name, isDir, i);
    assert NodeOk(t, i);
    LookupKept(t, d, name, isDir, i, token, 0);
    if LookupFrom(t, i, token, 0).Some? {
      EnteredKept(t, d, name, isDir, LookupFrom(t, i, token, 0).value);
    }
  }

  /** Every path that led somewhere still leads there. */
  lemma {:induction false} PathsKept(t: Tree, d: nat, name: string, isDir: bool, i: nat, tokens: seq<string>)
    requires WellFormed(t) && d in t.nodes && t.next !in t.nodes && i in t.nodes && t.nodes[i].mount < |t.mounts|
    requires Resolve(t, i, tokens).Some?
    ensures Resolve(WithChild(t, d, name, isDir), i, tokens) == Resolve(t, i, tokens)
    decreases |tokens|
  {
    if tokens != [] {
      StepKept(t, d, name, isDir, i, tokens[0]);
      PathsKept(t, d, name, isDir, Step(t, i, tokens[0]).value, tokens[1..]);
    }
  }

  /** The path used to make it leads to the new inode. */
  lemma NewChildFound(t: Tree, i: nat, tokens: seq<string>, name: string, isDir: bool)
    requires WellFormed(t) && t.next !in t.nodes && i in t.nodes && t.nodes[i].mount < |t.mounts|
    requires Resolve(t, i, tokens).Some? && name != [] && name != "." && name != ".."
    requires Resolve(t, i, tokens).value in t.nodes
    requires LookupFrom(t, Resolve(t, i, tokens).value, name, 0) == None
    ensures var d := Resolve(t, i, tokens).value;
      Resolve(WithChild(t, d, name, isDir), i, tokens + [name]) == Some(t.next)
  {
    var d := Resolve(t, i, tokens).value;
    var t' := WithChild(t, d, name, isDir);
    PathsKept(t, d, name, isDir, i, tokens);
    ResolveConcat(t', i, tokens, [name]);
    assert NodeOk(t, d);
    LookupKept(t, d, name, isDir, d, name, 0);
    Unmounted(t);
    EnteredKept(t, d, name, isDir, t.next);
    assert [name][1..] == [];
    assert NodeOk(t, d);
  }

  /** mkdir accepts "." and ".." as names of new directories, but no path leads
      to a directory that is called so. */
  lemma DotStaysHidden(t: Tree, d: nat, name: string, isDir: bool, i: nat, token: string)
    requires WellFormed(t) && d in t.nodes && t.next !in t.nodes && i in t.nodes && (name == "." || name == "..")
    ensures var t' := WithChild(t, d, name, isDir);
      && t'.nodes[i].mount < |t'.mounts|
      && (Step(t', i, token).Some? ==> Step(t', i, token).value in t.nodes)
  {
    var t' := WithChild(t, d, name, isDir);
    assert NodeOk(t, i);
    if token == ".." {
      UpInside(t, i);
      UpKept(t, d, name, isDir, i);
    } else if token != [] && token != "." {
      assert NodeOk(t, i);
      LookupKept(t, d, name, isDir, i, token, 0);
      LookupFound(t, i, token, 0);
      var c := LookupFrom(t, i, token, 0);
      if c.Some? {
        EnteredKept(t, d, name, isDir, c.value);
        NameThenUp(t, i, token);
      }
    }
  }

  lemma UpKept(t: Tree, d: nat, name: string, isDir: bool, i: nat)
    requires WellFormed(t) && d in t.nodes && t.next !in t.nodes && i in t.nodes && t.nodes[i].mount < |t.mounts|
    ensures Up(WithChild(t, d, name, isDir), i) == Up(t, i)
  {
    assert MountOk(t, t.nodes[i].mount);
  }

  lemma UpInside(t: Tree, i: nat)
    requires WellFormed(t) && i in t.nodes && t.nodes[i].mount < |t.mounts|
    ensures Up(t, i).Some? ==> Up(t, i).value in t.nodes
  {
    assert MountOk(t, t.nodes[i].mount);
    var mp := t.mounts[t.nodes[i].mount];
    if mp.mountedOn.Some? && t.nodes[mp.mountedOn.value].parent.Some? {
      ParentBelow(t, mp.mountedOn.value);
    }
    if t.nodes[i].parent.Some? {
      ParentBelow(t, i);
    }
  }

  lemma {:induction false} DotNeverResolves(
    t: Tree, d: nat, name: string, isDir: bool, i: nat, tokens: seq<string>)
    requires WellFormed(t) && d in t.nodes && t.next !in t.nodes && i in t.nodes && (name == "." || name == "..")
    ensures var t' := WithChild(t, d, name, isDir);
      t'.nodes[i].mount < |t'.mounts| && Resolve(t', i, tokens) != Some(t.next)
    decreases |tokens|
  {
    var t' := WithChild(t, d, name, isDir);
    assert NodeOk(t, i);
    if tokens != [] {
      DotStaysHidden(t, d, name, isDir, i, tokens[0]);
      var j := Step(t', i, tokens[0]);
      if j.Some? {
        DotNeverResolves(t, d, name, isDir, j.value, tokens[1..]);
      }
    }
  }

  lemma Unmounted(t: Tree)
    requires WellFormed(t)
    ensures Entered(t, t.next) == t.next
  {
    forall m | 0 <= m < |t.mounts| && t.mounts[m].mountedOn.Some? ensures t.mounts[m].mountedOn.value < t.next {
      assert MountOk(t, m) && NodeOk(t, t.mounts[m].mountedOn.value);
    }
  }

  /** No path text leads to a new directory whose name holds a slash. */
  lemma SlashNeverResolves(t: Tree, d: nat, name: string, isDir: bool, path: string)
    requires WellFormed(t) && d in t.nodes && t.nodes[d].isDir && '/' in name && LookupFrom(t, d, name, 0) == None
    ensures var t' := WithChild(t, d, name, isDir);
      && t'.mounts != [] && t'.mounts[0].root in t'.nodes && t'.nodes[t'.mounts[0].root].mount < |t'.mounts|
      && !LeadsTo(t', path, t.next)
  {
    var t' := WithChild(t, d, name, isDir);
    ChildKeeps(t, d, name, isDir);
    assert MountOk(t', 0);
    ReachableExactly(t', t.next);
    NewChildName(t, d, name, isDir);
  }

  lemma NewChildName(t: Tree, d: nat, name: string, isDir: bool)
    requires WellFormed(t) && d in t.nodes && name != []
    ensures name in NamesUp(WithChild(t, d, name, isDir), t.next)
  {
    assert NodeOk(t, d);
  }

  // ---------- A new mount ----------

  /** An empty file system, mounted on what the path resolved to. */
  function WithMount(t: Tree, on: Option<nat>): Tree
  {
    var r := t.next;
    t.(nodes := t.nodes[r := Inode(|t.mounts|, on, [], true, [])],
       mounts := t.mounts + [Mount(on, r)], next := r + 1)
  }

  /** Whatever a path resolves to is a root, or has nothing mounted on it. */
  lemma NothingOnVisible(t: Tree, x: nat)
    requires WellFormed(t) && Visible(t, x) && !IsRoot(t, x)
    ensures MountFrom(t, x, 0) == None
  {
    assert MountOk(t, 0);
    assert Entered(t, x) == x;
    EnteredRoot(t, x);
  }

  lemma MountKeeps(t: Tree, on: Option<nat>)
    requires WellFormed(t) && (on.Some? ==> Visible(t, on.value))
    ensures WellFormed(WithMount(t, on)) && (NamesOk(t) ==> NamesOk(WithMount(t, on)))
  {
    var t' := WithMount(t, on);
    FreshNode(t);
    forall i | i in t'.nodes ensures NodeOk(t', i) {
      if i != t.next {
        MountElsewhere(t, on, i);
      }
    }
    forall m | 0 <= m < |t'.mounts| ensures MountOk(t', m) {
      if m < |t.mounts| {
        assert MountOk(t, m);
      } else if on.Some? {
        assert NodeOk(t, on.value);
      }
    }
    if on.Some? && !IsRoot(t, on.value) {
      NothingOnVisible(t, on.value);
    }
    forall m, k | 0 <= m < k < |t'.mounts| && t'.mounts[m].mountedOn == t'.mounts[k].mountedOn
      && t'.mounts[m].mountedOn.Some? ensures IsRoot(t', t'.mounts[m].mountedOn.value)
    {
      assert MountOk(t, m);
      if k < |t.mounts| {
        assert IsRoot(t, t.mounts[m].mountedOn.value);
      }
    }
  }

  lemma FreshNode(t: Tree)
    requires WellFormed(t)
    ensures t.next !in t.nodes
  {
    forall i | i in t.nodes ensures i < t.next {
      assert NodeOk(t, i);
    }
  }

  lemma MountElsewhere(t: Tree, on: Option<nat>, i: nat)
    requires WellFormed(t) && i in t.nodes && t.next !in t.nodes
    ensures NodeOk(WithMount(t, on), i)
  {
    var t' := WithMount(t, on);
    assert NodeOk(t, i);
    forall c | c in t'.nodes[i].children ensures ChildOk(t', i, c) {
      assert ChildOk(t, i, c);
    }
    SameNames(t, t', t.nodes[i].children);
  }

  lemma {:induction false} MountFromNew(t: Tree, on: Option<nat>, c: nat, m: nat)
    requires m <= |t.mounts|
    ensures var r := MountFrom(t, c, m);
      MountFrom(WithMount(t, on), c, m) == if r.Some? then r else if on == Some(c) then Some(|t.mounts|) else None
    decreases |t.mounts| - m
  {
    var t' := WithMount(t, on);
    if m < |t.mounts| {
      MountFromNew(t, on, c, m + 1);
    } else {
      assert MountFrom(t', c, m + 1) == None;
    }
  }

  lemma {:induction false} LookupAfterMount(t: Tree, on: Option<nat>, e: nat, token: string, k: nat)
    requires WellFormed(t) && t.next !in t.nodes && e in t.nodes && k <= |t.nodes[e].children|
    ensures LookupFrom(WithMount(t, on), e, token, k) == LookupFrom(t, e, token, k)
    decreases |t.nodes[e].children| - k
  {
    assert NodeOk(t, e);
    var cs := t.nodes[e].children;
    if k < |cs| {
      assert cs[k] in cs && ChildOk(t, e, cs[k]);
      LookupAfterMount(t, on, e, token, k + 1);
    }
  }

  /** Mounting changes exactly the steps that led onto the covered inode: they
      now lead to the new root. Mounting over a root changes no step at all. */
  lemma MountCovers(t: Tree, x: nat, i: nat, token: string)
    requires WellFormed(t) && Visible(t, x) && t.next !in t.nodes && i in t.nodes && t.nodes[i].mount < |t.mounts|
    ensures var r := Step(t, i, token);
      Step(WithMount(t, Some(x)), i, token) ==
        if r == Some(x) && !IsRoot(t, x) && token != [] && token != "." && token != ".." then Some(t.next) else r
  {
    var t' := WithMount(t, Some(x));
    assert NodeOk(t, i);
    if token == ".." {
      assert MountOk(t, t.nodes[i].mount);
    } else if token != [] && token != "." {
      LookupAfterMount(t, Some(x), i, token, 0);
      LookupFound(t, i, token, 0);
      var c := LookupFrom(t, i, token, 0);
      if c.Some? {
        MountFromNew(t, Some(x), c.value, 0);
        NotRoot(t, c.value);
        EnteredRoot(t, c.value);
        if !IsRoot(t, x) {
          NothingOnVisible(t, x);
        }
      }
    }
  }

  lemma EnteredRoot(t: Tree, c: nat)
    requires WellFormed(t)
    ensures MountFrom(t, c, 0).Some? ==> IsRoot(t, Entered(t, c))
  {
    var m := MountFrom(t, c, 0);
    if m.Some? {
      assert MountOk(t, m.value);
    }
  }

  // ---------- The calls ----------

  /** Absolute paths start at the root, others at the working directory if there
      is one. */
  function Start(t: Tree, path: string, cwd: Option<nat>): nat
    requires t.mounts != []
  {
    if (path != [] && path[0] == '/') || cwd.None? then t.mounts[0].root else cwd.value
  }

  lemma ParentBelow(t: Tree, i: nat)
    requires WellFormed(t) && i in t.nodes && t.nodes[i].parent.Some?
    ensures t.nodes[i].parent.value in t.nodes && t.nodes[i].parent.value < i
  {
    assert NodeOk(t, i);
    if IsRoot(t, i) {
      assert MountOk(t, t.nodes[i].mount);
    } else {
      assert NodeOk(t, t.nodes[i].parent.value);
      assert ChildOk(t, t.nodes[i].parent.value, i);
    }
  }

  /** getcwd has reached `i` (or the top) and put the names below it in front. */
  ghost predicate Ascended(t: Tree, start: nat, i: Option<nat>, names: seq<string>)
  {
    && start in t.nodes && (i.Some? ==> i.value in t.nodes)
    && (if i.Some? then NamesUp(t, i.value) else []) + names == NamesUp(t, start)
  }

  lemma AscendOne(t: Tree, start: nat, i: nat, names: seq<string>)
    requires WellFormed(t) && i in t.nodes && Ascended(t, start, Some(i), names)
    ensures var n := t.nodes[i];
      && Ascended(t, start, n.parent, if n.name == [] then names else [n.name] + names)
      && (n.parent.Some? ==> n.parent.value < i)
  {
    var n := t.nodes[i];
    if n.parent.Some? {
      ParentBelow(t, i);
    }
    Regroup(if n.parent.Some? then NamesUp(t, n.parent.value) else [], n.name, names);
  }

  lemma Regroup(above: seq<string>, name: string, names: seq<string>)
    ensures above + ([name] + names) == above + [name] + names && above + [] + names == above + names
  {
  }

  lemma StartVisible(t: Tree, path: string, cwd: Option<nat>)
    requires WellFormed(t) && (cwd.Some? ==> Visible(t, cwd.value))
    ensures Visible(t, Start(t, path, cwd))
  {
    RootStays(t);
  }

  class FileSystem {
    var nodes: map<nat, Inode>
    var mounts: seq<Mount>
    var next: nat

    ghost function State(): Tree
      reads this
    {
      Tree(nodes, mounts, next)
    }

    ghost predicate Valid()
      reads this
    {
      WellFormed(State())
    }

    /** The root file system, empty, registered at "/". */
    constructor ()
      ensures Valid() && NamesOk(State()) && nodes == map[0 := Inode(0, None, [], true, [])]
    {
      nodes := map[0 := Inode(0, None, [], true, [])];
      mounts := [Mount(None, 0)];
      next := 1;
    }

    method Lookup(d: nat, name: string) returns (r: Option<nat>)
      requires d in nodes && forall c | c in nodes[d].children :: c in nodes
      ensures r == LookupFrom(State(), d, name, 0)
    {
      var children := nodes[d].children;
      for i := 0 to |children|
        invariant LookupFrom(State(), d, name, i) == LookupFrom(State(), d, name, 0)
      {
        var inode := children[i];
        if nodes[inode].name == name {
          return Some(inode);
        }
      }
      return None;
    }

    method FindMountAt(inode: nat) returns (r: Option<nat>)
      ensures r == MountFrom(State(), inode, 0)
    {
      for m := 0 to |mounts|
        invariant MountFrom(State(), inode, m) == MountFrom(State(), inode, 0)
      {
        if mounts[m].mountedOn == Some(inode) {
          return Some(m);
        }
      }
      return None;
    }

    /** One token of resolve_path. */
    method Follow(current: nat, token: string) returns (r: Option<nat>)
      requires Valid() && Visible(State(), current)
      ensures r == Step(State(), current, token)
      ensures r.Some? ==> Visible(State(), r.value)
    {
      assert NodeOk(State(), current);
      if token == [] || token == "." {
        return Some(current);
      }
      if token == ".." {
        r := GoUp(current);
      } else {
        var child := Lookup(current, token);
        if child.None? {
          return None;
        }
        var m := FindMountAt(child.value);
        r := Some(if m.Some? then mounts[m.value].root else child.value);
      }
      if r.Some? {
        StepVisible(State(), current, token);
      }
    }

    method GoUp(current: nat) returns (r: Option<nat>)
      requires Valid() && current in nodes && nodes[current].mount < |mounts|
      ensures r == Up(State(), current)
    {
      var mp := mounts[nodes[current].mount];
      if current == mp.root && mp.mountedOn != None {
        assert MountOk(State(), nodes[current].mount);
        r := nodes[mp.mountedOn.value].parent;
      } else if nodes[current].parent != None {
        r := nodes[current].parent;
      } else {
        r := Some(current);
      }
    }

    method ResolveTokens(path: string, tokens: seq<string>, cwd: Option<nat>) returns (r: Option<nat>)
      requires Valid() && (cwd.Some? ==> Visible(State(), cwd.value))
      ensures Visible(State(), Start(State(), path, cwd))
      ensures r == Resolve(State(), Start(State(), path, cwd), tokens)
      ensures r.Some? ==> Visible(State(), r.value)
    {
      StartVisible(State(), path, cwd);
      var current: nat := mounts[0].root;
      if !(path != [] && path[0] == '/') && cwd != None {
        current := cwd.value;
      }
      assert tokens[0..] == tokens;
      for k := 0 to |tokens|
        invariant Visible(State(), current)
        invariant Resolve(State(), current, tokens[k..]) == Resolve(State(), Start(State(), path, cwd), tokens)
      {
        var step := Follow(current, tokens[k]);
        assert tokens[k..][0] == tokens[k] && tokens[k..][1..] == tokens[k + 1..];
        if step.None? {
          return None;
        }
        current := step.value;
      }
      return Some(current);
    }

    method ResolvePath(path: string, cwd: Option<nat>) returns (r: Option<nat>)
      requires Valid() && (cwd.Some? ==> Visible(State(), cwd.value))
      ensures Visible(State(), Start(State(), path, cwd))
      ensures r == Resolve(State(), Start(State(), path, cwd), Parts(path))
      ensures r.Some? ==> Visible(State(), r.value)
    {
      var tokens := Split(path, '/');
      r := ResolveTokens(path, tokens, cwd);
    }

    /** Whatever an absolute path leads to, getcwd names it by a path that leads
        there again. */
    method CwdLeadsBack(path: string) returns (first: Option<nat>, again: Option<nat>)
      requires Valid() && path != [] && path[0] == '/'
      ensures Visible(State(), Start(State(), path, None))
      ensures first == Resolve(State(), Start(State(), path, None), Parts(path)) && again == first
    {
      first := ResolvePath(path, None);
      again := first;
      if first.Some? {
        PartsFree(path);
        CwdResolves(State(), Parts(path));
        var cwd := GetCwd(first.value);
        again := ResolvePath(cwd, None);
      }
    }

    method GetCwd(inode: nat) returns (path: string)
      requires Valid() && inode in nodes
      ensures path == Cwd(State(), inode)
    {
      var names: seq<string> := [];
      var i := Some(inode);
      while i.Some?
        invariant Ascended(State(), inode, i, names)
        decreases if i.Some? then i.value + 1 else 0
      {
        var n := nodes[i.value];
        AscendOne(State(), inode, i.value, names);
        if n.name != [] {
          names := [n.name] + names;
        }
        i := n.parent;
      }
      assert [] + names == names;
      assert names == NamesUp(State(), inode);
      var joined := Join(names, '/');
      path := "/" + joined;
    }

    method AddChild(d: nat, name: string, isDir: bool) returns (r: int)
      requires Valid() && d in nodes && nodes[d].isDir && name != []
      modifies this
      ensures Valid()
      ensures if old(LookupFrom(State(), d, name, 0)) == None
        then r == 0 && State() == WithChild(old(State()), d, name, isDir)
        else r == -1 && State() == old(State())
    {
      assert NodeOk(State(), d);
      var existing := Lookup(d, name);
      if existing != None {
        return -1;
      }
      ChildKeeps(State(), d, name, isDir);
      var c := Append(d, name, isDir);
      return 0;
    }

    /** A new inode at the end of a directory, whatever is in it. */
    method Append(d: nat, name: string, isDir: bool) returns (c: nat)
      requires d in nodes
      modifies this
      ensures c == old(next) && State() == WithChild(old(State()), d, name, isDir)
    {
      c := next;
      var n := nodes[d];
      next := next + 1;
      nodes := nodes[d := n.(children := n.children + [c])];
      nodes := nodes[c := Inode(n.mount, Some(d), name, isDir, [])];
    }

    /** Calling it without a last name to make is not defined. */
    method Mkdir(path: string, cwd: Option<nat>) returns (r: int)
      requires Valid() && (cwd.Some? ==> Visible(State(), cwd.value)) && Parts(path) != []
      modifies this
      ensures Valid() && old(Visible(State(), Start(State(), path, cwd)))
      ensures var tokens := Parts(path);
        var name := tokens[|tokens| - 1];
        var d := old(Resolve(State(), Start(State(), path, cwd), tokens[..|tokens| - 1]));
        if d.Some? && d.value in old(nodes) && old(nodes)[d.value].isDir
          && LookupFrom(old(State()), d.value, name, 0) == None
        then r == 0 && State() == WithChild(old(State()), d.value, name, true)
        else r == -1 && State() == old(State())
    {
      var tokens := Split(path, '/');
      var name := tokens[|tokens| - 1];
      NonEmptyMembers(Tokenized(path, '/'), name);
      var d := ResolveTokens(path, tokens[..|tokens| - 1], cwd);
      if d.None? || !nodes[d.value].isDir {
        return -1;
      }
      r := AddChild(d.value, name, true);
    }

    /** Mount an empty file system on what the path names. */
    method MountEmpty(path: string, cwd: Option<nat>)
      requires Valid() && (cwd.Some? ==> Visible(State(), cwd.value))
      modifies this
      ensures Valid() && old(Visible(State(), Start(State(), path, cwd)))
      ensures State() == WithMount(old(State()), old(Resolve(State(), Start(State(), path, cwd), Parts(path))))
    {
      var on := ResolvePath(path, cwd);
      MountKeeps(State(), on);
      Attach(on);
    }

    method Attach(on: Option<nat>)
      modifies this
      ensures State() == WithMount(old(State()), on)
    {
      var root := next;
      next := next + 1;
      nodes := nodes[root := Inode(|mounts|, None, [], true, [])];
      nodes := nodes[root := nodes[root].(parent := on)];
      mounts := mounts + [Mount(on, root)];
    }
  }
}
