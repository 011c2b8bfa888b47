/** The mount tree and path resolution on it. Inodes are named in the order they
    are made, so a parent's name is smaller than its children's. */
module Vfs {
  import opened Common
  import opened Tokens

  datatype Inode = Inode(mount: nat, parent: Option<nat>, name: string, isDir: bool, children: seq<nat>)

  datatype Mount = Mount(mountedOn: Option<nat>, root: nat)

  /** `mounts` in the order of registration; the first is the root file system.
      `next` is the name of the next inode. */
  datatype Tree = Tree(nodes: map<nat, Inode>, mounts: seq<Mount>, next: nat)

  // ---------- Well-formed trees ----------

  predicate IsRoot(t: Tree, i: nat)
  {
    i in t.nodes && t.nodes[i].mount < |t.mounts| && t.mounts[t.nodes[i].mount].root == i
  }

  ghost predicate ChildOk(t: Tree, d: nat, c: nat)
  {
    && d in t.nodes && c in t.nodes && d < c && t.nodes[d].isDir
    && t.nodes[c].parent == Some(d) && t.nodes[c].mount == t.nodes[d].mount && t.nodes[c].name != []
  }

  ghost predicate NamesDiffer(t: Tree, cs: seq<nat>)
  {
    forall j, k | 0 <= j < k < |cs| && cs[j] in t.nodes && cs[k] in t.nodes :: t.nodes[cs[j]].name != t.nodes[cs[k]].name
  }

  ghost predicate NodeOk(t: Tree, i: nat)
    requires i in t.nodes
  {
    var n := t.nodes[i];
    && i < t.next && n.mount < |t.mounts|
    && (forall c | c in n.children :: ChildOk(t, i, c))
    && NamesDiffer(t, n.children)
    && (!IsRoot(t, i) ==> n.parent.Some? && n.parent.value in t.nodes && i in t.nodes[n.parent.value].children)
  }

  ghost predicate MountOk(t: Tree, m: nat)
    requires m < |t.mounts|
  {
    var mp := t.mounts[m];
    && mp.root in t.nodes && t.nodes[mp.root].mount == m && t.nodes[mp.root].name == []
    && t.nodes[mp.root].parent == mp.mountedOn
    && (mp.mountedOn.Some? ==> mp.mountedOn.value in t.nodes && mp.mountedOn.value < mp.root)
  }

  /** No two mounts on the same inode, unless it is itself a mount's root. */
  ghost predicate WellFormed(t: Tree)
  {
    && t.mounts != [] && t.mounts[0].mountedOn == None
    && (forall i | i in t.nodes :: NodeOk(t, i))
    && (forall m | 0 <= m < |t.mounts| :: MountOk(t, m))
    && (forall m, k | 0 <= m < k < |t.mounts| && t.mounts[m].mountedOn == t.mounts[k].mountedOn
          && t.mounts[m].mountedOn.Some? :: IsRoot(t, t.mounts[m].mountedOn.value))
  }

  predicate IsName(s: string) { s != [] && s != "." && s != ".." && '/' !in s }

  /** Every inode but the roots has a name that a path can spell. */
  ghost predicate NamesOk(t: Tree)
  {
    forall i | i in t.nodes && t.nodes[i].name != [] :: IsName(t.nodes[i].name)
  }

  // ---------- Resolution ----------

  /** The first child from position `i` on with that name. */
  function LookupFrom(t: Tree, d: nat, name: string, i: nat): (r: Option<nat>)
    requires d in t.nodes && i <= |t.nodes[d].children|
    decreases |t.nodes[d].children| - i
  {
    var cs := t.nodes[d].children;
    if i == |cs| then None
    else if cs[i] in t.nodes && t.nodes[cs[i]].name == name then Some(cs[i])
    else LookupFrom(t, d, name, i + 1)
  }

  function MountFrom(t: Tree, c: nat, m: nat): (r: Option<nat>)
    requires m <= |t.mounts|
    ensures r.Some? ==> m <= r.value < |t.mounts| && t.mounts[r.value].mountedOn == Some(c)
    ensures r.None? ==> forall k | m <= k < |t.mounts| :: t.mounts[k].mountedOn != Some(c)
    decreases |t.mounts| - m
  {
    if m == |t.mounts| then None
    else if t.mounts[m].mountedOn == Some(c) then Some(m)
    else MountFrom(t, c, m + 1)
  }

  /** Where stepping onto `c` ends up: a mount hides what it covers. */
  function Entered(t: Tree, c: nat): nat
  {
    var m := MountFrom(t, c, 0);
    if m.Some? then t.mounts[m.value].root else c
  }

  function Up(t: Tree, i: nat): Option<nat>
    requires i in t.nodes && t.nodes[i].mount < |t.mounts|
  {
    var mp := t.mounts[t.nodes[i].mount];
    if i == mp.root && mp.mountedOn.Some? then
      if mp.mountedOn.value in t.nodes then t.nodes[mp.mountedOn.value].parent else None
    else if t.nodes[i].parent.Some? then t.nodes[i].parent
    else Some(i)
  }

  function Step(t: Tree, i: nat, token: string): Option<nat>
    requires i in t.nodes && t.nodes[i].mount < |t.mounts|
  {
    if token == [] || token == "." then Some(i)
    else if token == ".." then Up(t, i)
    else
      var c := LookupFrom(t, i, token, 0);
      if c.None? then None else Some(Entered(t, c.value))
  }

  function Resolve(t: Tree, i: nat, tokens: seq<string>): Option<nat>
    requires i in t.nodes && t.nodes[i].mount < |t.mounts|
    decreases |tokens|
  {
    if tokens == [] then Some(i)
    else
      var j := Step(t, i, tokens[0]);
      if j.None? || j.value !in t.nodes || t.nodes[j.value].mount >= |t.mounts| then None
      else Resolve(t, j.value, tokens[1..])
  }

  // ---------- Lookup in a well-formed directory ----------

  lemma {:induction false} LookupFound(t: Tree, d: nat, name: string, i: nat)
    requires d in t.nodes && NodeOk(t, d) && i <= |t.nodes[d].children|
    ensures var r := LookupFrom(t, d, name, i);
      && (r.Some? ==> r.value in t.nodes[d].children && ChildOk(t, d, r.value) && t.nodes[r.value].name == name)
      && (r.None? ==> forall k | i <= k < |t.nodes[d].children| && t.nodes[d].children[k] in t.nodes ::
            t.nodes[t.nodes[d].children[k]].name != name)
    decreases |t.nodes[d].children| - i
  {
    if i < |t.nodes[d].children| {
      assert t.nodes[d].children[i] in t.nodes[d].children;
      LookupFound(t, d, name, i + 1);
    }
  }

  /** Sibling names are distinct, so a child is found under its own name. */
  lemma LookupChild(t: Tree, d: nat, c: nat)
    requires WellFormed(t) && d in t.nodes && c in t.nodes[d].children
    ensures c in t.nodes && LookupFrom(t, d, t.nodes[c].name, 0) == Some(c)
  {
    assert NodeOk(t, d) && ChildOk(t, d, c);
    LookupFound(t, d, t.nodes[c].name, 0);
    var cs := t.nodes[d].children;
    var k :| 0 <= k < |cs| && cs[k] == c;
  }

  lemma NotRoot(t: Tree, c: nat)
    requires WellFormed(t) && c in t.nodes && t.nodes[c].name != []
    ensures !IsRoot(t, c)
  {
    assert NodeOk(t, c) && MountOk(t, t.nodes[c].mount);
  }

  /** Stepping into a name and then up comes back, across a mount point too. */
  lemma NameThenUp(t: Tree, i: nat, token: string)
    requires WellFormed(t) && i in t.nodes && t.nodes[i].mount < |t.mounts|
    requires token != [] && token != "." && token != ".."
    requires Step(t, i, token).Some?
    ensures var j := Step(t, i, token).value;
      j in t.nodes && i < j && t.nodes[j].mount < |t.mounts| && Step(t, j, "..") == Some(i)
  {
    assert NodeOk(t, i);
    LookupFound(t, i, token, 0);
    var c := LookupFrom(t, i, token, 0).value;
    var m := MountFrom(t, c, 0);
    assert NodeOk(t, c);
    if m.Some? {
      assert MountOk(t, m.value);
    } else {
      NotRoot(t, c);
    }
  }

  // ---------- What paths can reach ----------

  /** The named inode through which `i` is reached: a mount's root through what
      it is mounted on, anything else through itself. */
  function Anchor(t: Tree, i: nat): Option<nat>
    requires i in t.nodes && t.nodes[i].mount < |t.mounts|
  {
    var mp := t.mounts[t.nodes[i].mount];
    if i == mp.root then mp.mountedOn else Some(i)
  }

  predicate AnchorOk(t: Tree, i: nat, a: nat)
  {
    && a in t.nodes && t.nodes[a].name != [] && Entered(t, a) == i
    && t.nodes[a].parent.Some? && t.nodes[a].parent.value < i
  }

  predicate Visible(t: Tree, i: nat)
    requires t.mounts != []
  {
    && i in t.nodes && t.nodes[i].mount < |t.mounts|
    && (i == t.mounts[0].root ||
        (var a := Anchor(t, i); a.Some? && AnchorOk(t, i, a.value) && Visible(t, t.nodes[a.value].parent.value)))
  }

  lemma RootStays(t: Tree)
    requires WellFormed(t)
    ensures Visible(t, t.mounts[0].root) && Step(t, t.mounts[0].root, "..") == Some(t.mounts[0].root)
  {
    assert MountOk(t, 0);
  }

  /** Resolution never leaves the visible part of the tree. */
  lemma StepVisible(t: Tree, i: nat, token: string)
    requires WellFormed(t) && Visible(t, i) && Step(t, i, token).Some?
    ensures Visible(t, Step(t, i, token).value)
  {
    if token == ".." {
      if i == t.mounts[0].root {
        RootStays(t);
      }
    } else if token != [] && token != "." {
      NameThenUp(t, i, token);
      assert NodeOk(t, i);
      LookupFound(t, i, token, 0);
      var c := LookupFrom(t, i, token, 0).value;
      NotRoot(t, c);
      assert NodeOk(t, c);
      var m := MountFrom(t, c, 0);
      if m.Some? {
        assert MountOk(t, m.value);
      }
      assert Anchor(t, Entered(t, c)) == Some(c);
    }
  }

  lemma {:induction false} ResolveVisible(t: Tree, i: nat, tokens: seq<string>)
    requires WellFormed(t) && Visible(t, i) && Resolve(t, i, tokens).Some?
    ensures Visible(t, Resolve(t, i, tokens).value)
    decreases |tokens|
  {
    if tokens != [] {
      StepVisible(t, i, tokens[0]);
      ResolveVisible(t, Step(t, i, tokens[0]).value, tokens[1..]);
    }
  }

  lemma {:induction false} ResolveConcat(t: Tree, i: nat, a: seq<string>, b: seq<string>)
    requires i in t.nodes && t.nodes[i].mount < |t.mounts| && Resolve(t, i, a).Some?
    ensures var j := Resolve(t, i, a).value;
      j in t.nodes && t.nodes[j].mount < |t.mounts| && Resolve(t, i, a + b) == Resolve(t, j, b)
    decreases |a|
  {
    if a == [] {
      assert a + b == b;
    } else {
      ResolveConcat(t, Step(t, i, a[0]).value, a[1..], b);
      assert (a + b)[0] == a[0] && (a + b)[1..] == a[1..] + b;
    }
  }

  // ---------- Dots can be cancelled ----------

  function Normal(names: seq<string>, tokens: seq<string>): seq<string>
    decreases |tokens|
  {
    if tokens == [] then names
    else if tokens[0] == [] || tokens[0] == "." then Normal(names, tokens[1..])
    else if tokens[0] == ".." then Normal(if names == [] then [] else names[..|names| - 1], tokens[1..])
    else Normal(names + [tokens[0]], tokens[1..])
  }

  ghost predicate AllNames(names: seq<string>)
  {
    forall k | 0 <= k < |names| :: names[k] != [] && names[k] != "." && names[k] != ".."
  }

  lemma ResolveOne(t: Tree, i: nat, token: string)
    requires i in t.nodes && t.nodes[i].mount < |t.mounts| && Resolve(t, i, [token]).Some?
    ensures Resolve(t, i, [token]) == Step(t, i, token)
  {
    assert [token][1..] == [];
  }

  lemma LastName(t: Tree, i: nat, names: seq<string>)
    requires WellFormed(t) && i in t.nodes && t.nodes[i].mount < |t.mounts|
    requires names != [] && AllNames(names) && Resolve(t, i, names).Some?
    ensures var j := Resolve(t, i, names).value;
      && j in t.nodes && t.nodes[j].mount < |t.mounts|
      && Step(t, j, "..").Some? && Resolve(t, i, names[..|names| - 1]) == Step(t, j, "..")
  {
    var front, last := names[..|names| - 1], names[|names| - 1];
    assert names == front + [last];
    PrefixResolves(t, i, front, [last]);
    ResolveConcat(t, i, front, [last]);
    var p := Resolve(t, i, front).value;
    ResolveOne(t, p, last);
    NameThenUp(t, p, last);
  }

  lemma {:induction false} PrefixResolves(t: Tree, i: nat, a: seq<string>, b: seq<string>)
    requires i in t.nodes && t.nodes[i].mount < |t.mounts| && Resolve(t, i, a + b).Some?
    ensures Resolve(t, i, a).Some?
    decreases |a|
  {
    if a != [] {
      assert (a + b)[0] == a[0] && (a + b)[1..] == a[1..] + b;
      PrefixResolves(t, Step(t, i, a[0]).value, a[1..], b);
    }
  }

  lemma {:induction false} NormalFrom(t: Tree, names: seq<string>, tokens: seq<string>)
    requires WellFormed(t) && AllNames(names)
    requires Visible(t, t.mounts[0].root) && Resolve(t, t.mounts[0].root, names).Some?
    requires Visible(t, Resolve(t, t.mounts[0].root, names).value)
    requires Resolve(t, Resolve(t, t.mounts[0].root, names).value, tokens).Some?
    ensures Resolve(t, t.mounts[0].root, Normal(names, tokens)) ==
      Resolve(t, Resolve(t, t.mounts[0].root, names).value, tokens)
    ensures AllNames(Normal(names, tokens))
    decreases |tokens|
  {
    if tokens != [] {
      var root, token, rest := t.mounts[0].root, tokens[0], tokens[1..];
      var i := Resolve(t, root, names).value;
      StepVisible(t, i, token);
      if token == ".." {
        if names == [] {
          RootStays(t);
          NormalFrom(t, [], rest);
        } else {
          LastName(t, root, names);
          NormalFrom(t, names[..|names| - 1], rest);
        }
      } else if token == [] || token == "." {
        NormalFrom(t, names, rest);
      } else {
        ResolveConcat(t, root, names, [token]);
        assert [token][1..] == [];
        NormalFrom(t, names + [token], rest);
      }
    }
  }

  /** An absolute path that resolves leads where its normal form leads. */
  lemma NormalForm(t: Tree, tokens: seq<string>)
    requires WellFormed(t) && t.mounts[0].root in t.nodes && t.nodes[t.mounts[0].root].mount < |t.mounts|
    requires Resolve(t, t.mounts[0].root, tokens).Some?
    ensures Resolve(t, t.mounts[0].root, Normal([], tokens)) == Resolve(t, t.mounts[0].root, tokens)
    ensures AllNames(Normal([], tokens))
  {
    RootStays(t);
    NormalFrom(t, [], tokens);
  }

  // ---------- The path of a directory ----------

  /** The names met on the way up, roots skipped. */
  function NamesUp(t: Tree, i: nat): seq<string>
    requires i in t.nodes
  {
    var n := t.nodes[i];
    (if n.parent.Some? && n.parent.value in t.nodes && n.parent.value < i then NamesUp(t, n.parent.value) else [])
    + (if n.name == [] then [] else [n.name])
  }

  function Cwd(t: Tree, i: nat): string
    requires i in t.nodes
  {
    "/" + Joined(NamesUp(t, i), '/')
  }

  lemma NamesOfAnchor(t: Tree, i: nat)
    requires WellFormed(t) && Visible(t, i) && i != t.mounts[0].root
    ensures var a := Anchor(t, i).value;
      var p := t.nodes[a].parent.value;
      p in t.nodes && NamesUp(t, i) == NamesUp(t, p) + [t.nodes[a].name]
  {
    var a := Anchor(t, i).value;
    assert NodeOk(t, i) && NodeOk(t, a) && MountOk(t, t.nodes[i].mount);
    NotRoot(t, a);
    assert ChildOk(t, t.nodes[a].parent.value, a) by {
      assert NodeOk(t, t.nodes[a].parent.value);
    }
  }

  /** A path of plain names that resolves is met again, name by name, on the way
      up. */
  lemma {:induction false} NamesTraced(t: Tree, names: seq<string>)
    requires WellFormed(t) && Visible(t, t.mounts[0].root) && AllNames(names)
    requires Resolve(t, t.mounts[0].root, names).Some?
    ensures var i := Resolve(t, t.mounts[0].root, names).value;
      i in t.nodes && NamesUp(t, i) == names
    decreases |names|
  {
    var root := t.mounts[0].root;
    if names == [] {
      assert MountOk(t, 0);
    } else {
      var front, last := names[..|names| - 1], names[|names| - 1];
      assert names == front + [last];
      PrefixResolves(t, root, front, [last]);
      ResolveConcat(t, root, front, [last]);
      ResolveVisible(t, root, front);
      NamesTraced(t, front);
      var p := Resolve(t, root, front).value;
      ResolveOne(t, p, last);
      NamedStep(t, p, last);
    }
  }

  /** Stepping onto a name puts that name at the end of the way up. */
  lemma NamedStep(t: Tree, p: nat, name: string)
    requires WellFormed(t) && Visible(t, p) && name != [] && name != "." && name != ".." && Step(t, p, name).Some?
    ensures var i := Step(t, p, name).value;
      i in t.nodes && NamesUp(t, i) == NamesUp(t, p) + [name]
  {
    var i := Step(t, p, name).value;
    NameThenUp(t, p, name);
    StepVisible(t, p, name);
    RootStays(t);
    assert i != t.mounts[0].root;
    NamesOfAnchor(t, i);
    assert NodeOk(t, p);
    LookupFound(t, p, name, 0);
    var c := LookupFrom(t, p, name, 0).value;
    NotRoot(t, c);
    assert NodeOk(t, c);
    var m := MountFrom(t, c, 0);
    if m.Some? {
      assert MountOk(t, m.value);
    }
    assert Anchor(t, i) == Some(c);
  }

  lemma {:induction false} NormalFree(names: seq<string>, tokens: seq<string>, d: char)
    requires Free(names, d) && Free(tokens, d)
    ensures Free(Normal(names, tokens), d)
    decreases |tokens|
  {
    if tokens != [] {
      assert tokens[0] in tokens && forall p | p in tokens[1..] :: p in tokens;
      if tokens[0] == ".." {
        NormalFree(if names == [] then [] else names[..|names| - 1], tokens[1..], d);
      } else if tokens[0] == [] || tokens[0] == "." {
        NormalFree(names, tokens[1..], d);
      } else {
        NormalFree(names + [tokens[0]], tokens[1..], d);
      }
    }
  }

  /** The names in the text of a path. */
  function Parts(path: string): seq<string> { NonEmpty(Tokenized(path, '/')) }

  /** getcwd gives the normal form of whatever path led to the directory, and
      resolving it leads back, for every inode that any path reaches. */
  lemma CwdResolves(t: Tree, tokens: seq<string>)
    requires WellFormed(t) && t.mounts[0].root in t.nodes && t.nodes[t.mounts[0].root].mount < |t.mounts|
    requires Free(tokens, '/') && Resolve(t, t.mounts[0].root, tokens).Some?
    ensures var root, i := t.mounts[0].root, Resolve(t, t.mounts[0].root, tokens).value;
      && i in t.nodes && NamesUp(t, i) == Normal([], tokens)
      && Cwd(t, i) == "/" + Joined(Normal([], tokens), '/')
      && Resolve(t, root, Parts(Cwd(t, i))) == Some(i)
  {
    var names := Normal([], tokens);
    RootStays(t);
    NormalForm(t, tokens);
    NamesTraced(t, names);
    NormalFree([], tokens, '/');
    assert forall p | p in names :: p != [];
    SplitPath(names, '/');
  }

  /** Following the names met on the way up leads back down, if none is a dot. */
  lemma {:induction false} NamesLead(t: Tree, i: nat)
    requires WellFormed(t) && Visible(t, i) && Visible(t, t.mounts[0].root) && AllNames(NamesUp(t, i))
    ensures Resolve(t, t.mounts[0].root, NamesUp(t, i)) == Some(i)
    decreases i
  {
    assert MountOk(t, 0);
    assert NodeOk(t, i);
    if i != t.mounts[0].root {
      var a := Anchor(t, i).value;
      var p := t.nodes[a].parent.value;
      NamesOfAnchor(t, i);
      assert NamesUp(t, i)[|NamesUp(t, p)|] == t.nodes[a].name;
      assert forall k | 0 <= k < |NamesUp(t, p)| :: NamesUp(t, i)[k] == NamesUp(t, p)[k];
      NamesLead(t, p);
      assert NodeOk(t, a);
      NotRoot(t, a);
      LookupChild(t, p, a);
      ResolveConcat(t, t.mounts[0].root, NamesUp(t, p), [t.nodes[a].name]);
      assert [t.nodes[a].name][1..] == [];
    }
  }

  /** Some list of tokens leads to the inode. */
  lemma TokensReach(t: Tree, i: nat)
    requires WellFormed(t) && t.mounts[0].root in t.nodes && t.nodes[t.mounts[0].root].mount < |t.mounts|
    requires i in t.nodes
    ensures (exists tokens: seq<string> :: Resolve(t, t.mounts[0].root, tokens) == Some(i)) <==>
      Visible(t, i) && AllNames(NamesUp(t, i))
  {
    RootStays(t);
    if tokens: seq<string> :| Resolve(t, t.mounts[0].root, tokens) == Some(i) {
      ResolveVisible(t, t.mounts[0].root, tokens);
      NormalForm(t, tokens);
      NamesTraced(t, Normal([], tokens));
    }
    if Visible(t, i) && AllNames(NamesUp(t, i)) {
      NamesLead(t, i);
    }
  }

  // ---------- Paths as text ----------

  lemma PartsFree(path: string)
    ensures Free(Parts(path), '/')
  {
    FieldsAreFree(path, '/');
    forall p | p in Parts(path) ensures '/' !in p {
      NonEmptyMembers(Tokenized(path, '/'), p);
    }
  }

  /** The text of an absolute path leads to the inode. */
  ghost predicate LeadsTo(t: Tree, path: string, i: nat)
    requires t.mounts != [] && t.mounts[0].root in t.nodes && t.nodes[t.mounts[0].root].mount < |t.mounts|
  {
    path != [] && path[0] == '/' && Resolve(t, t.mounts[0].root, Parts(path)) == Some(i)
  }

  /** Exactly the inodes that no mount hides, and whose names on the way up are no
      dots and hold no slash, can be reached by a path. */
  lemma ReachableExactly(t: Tree, i: nat)
    requires WellFormed(t) && t.mounts[0].root in t.nodes && t.nodes[t.mounts[0].root].mount < |t.mounts|
    requires i in t.nodes
    ensures (exists path: string :: LeadsTo(t, path, i)) <==>
      Visible(t, i) && AllNames(NamesUp(t, i)) && Free(NamesUp(t, i), '/')
  {
    TokensReach(t, i);
    if path: string :| LeadsTo(t, path, i) {
      PartsFree(path);
      CwdResolves(t, Parts(path));
      NormalFree([], Parts(path), '/');
    }
    if Visible(t, i) && AllNames(NamesUp(t, i)) && Free(NamesUp(t, i), '/') {
      RootStays(t);
      NamesLead(t, i);
      NamesAreParts(t, i);
      assert LeadsTo(t, "/" + Joined(NamesUp(t, i), '/'), i);
    }
  }

  lemma NamesAreParts(t: Tree, i: nat)
    requires i in t.nodes && AllNames(NamesUp(t, i)) && Free(NamesUp(t, i), '/')
    ensures Parts("/" + Joined(NamesUp(t, i), '/')) == NamesUp(t, i)
  {
    assert forall p | p in NamesUp(t, i) :: p != [];
    SplitPath(NamesUp(t, i), '/');
  }
}
