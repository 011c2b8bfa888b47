/** The boot file system: a tree built from the paths of an archive, entry by
    entry. */
module Initramfs {
  import opened Common
  import opened Tokens
  import opened Vfs
  import opened VfsOps

  /** Following children by name alone, as lookup does. */
  function Descend(t: Tree, d: nat, tokens: seq<string>): Option<nat>
    requires d in t.nodes
    decreases |tokens|
  {
    if tokens == [] then Some(d)
    else
      var c := LookupFrom(t, d, tokens[0], 0);
      if c.Some? && c.value in t.nodes then Descend(t, c.value, tokens[1..]) else None
  }

  /** insert_inode: missing directories on the way are made, and the last name is
      appended without looking. */
  function Inserted(t: Tree, d: nat, tokens: seq<string>, isDir: bool): Tree
    requires d in t.nodes && tokens != []
    decreases |tokens|
  {
    if |tokens| == 1 then WithChild(t, d, tokens[0], isDir)
    else
      var c := LookupFrom(t, d, tokens[0], 0);
      if c.Some? && c.value in t.nodes then Inserted(t, c.value, tokens[1..], isDir)
      else Inserted(WithChild(t, d, tokens[0], true), t.next, tokens[1..], isDir)
  }

  /** What exists on the way is a directory, as the source trusts. */
  ghost predicate DirsOnWay(t: Tree, d: nat, tokens: seq<string>)
    requires d in t.nodes
    decreases |tokens|
  {
    && t.nodes[d].isDir
    && (|tokens| > 1 ==>
          var c := LookupFrom(t, d, tokens[0], 0);
          c.Some? && c.value in t.nodes ==> DirsOnWay(t, c.value, tokens[1..]))
  }

  ghost predicate Named(tokens: seq<string>) { forall p | p in tokens :: p != [] }

  // ---------- One more child ----------

  lemma NamedTail(tokens: seq<string>)
    requires Named(tokens) && tokens != []
    ensures Named(tokens[1..]) && tokens[0] != []
  {
    assert tokens[0] in tokens && forall p | p in tokens[1..] :: p in tokens;
  }

  /** A second child of the same name breaks the tree. */
  lemma DuplicateBreaks(t: Tree, d: nat, name: string, isDir: bool)
    requires WellFormed(t) && d in t.nodes && LookupFrom(t, d, name, 0).Some?
    ensures !WellFormed(WithChild(t, d, name, isDir))
  {
    var t', cs := WithChild(t, d, name, isDir), t.nodes[d].children;
    assert NodeOk(t, d);
    LookupFound(t, d, name, 0);
    var j :| 0 <= j < |cs| && cs[j] in t.nodes && t.nodes[cs[j]].name == name;
    assert cs[j] in cs && ChildOk(t, d, cs[j]);
    var all := t'.nodes[d].children;
    assert all[j] == cs[j] && all[|cs|] == t.next && t.next !in t.nodes;
    assert !NamesDiffer(t', all);
    assert !NodeOk(t', d);
  }

  /** A directory that was just made holds nothing. */
  lemma FreshDirectory(t: Tree, d: nat, name: string, tokens: seq<string>)
    requires WellFormed(t) && d in t.nodes && tokens != []
    ensures var t' := WithChild(t, d, name, true);
      DirsOnWay(t', t.next, tokens) && Descend(t', t.next, tokens) == None
  {
    assert NodeOk(t, d);
    assert LookupFrom(WithChild(t, d, name, true), t.next, tokens[0], 0) == None;
  }

  // ---------- Inserting ----------

  /** The tree stays well-formed exactly if the path led nowhere before. */
  lemma {:induction false} InsertExactly(t: Tree, d: nat, tokens: seq<string>, isDir: bool)
    requires WellFormed(t) && d in t.nodes && tokens != [] && Named(tokens) && DirsOnWay(t, d, tokens)
    ensures WellFormed(Inserted(t, d, tokens, isDir)) <==> Descend(t, d, tokens) == None
    decreases |tokens|
  {
    NamedTail(tokens);
    var c := LookupFrom(t, d, tokens[0], 0);
    if |tokens| == 1 {
      assert tokens[1..] == [];
      if c.Some? {
        LookupInside(t, d, tokens[0]);
        DuplicateBreaks(t, d, tokens[0], isDir);
      } else {
        ChildKeeps(t, d, tokens[0], isDir);
      }
    } else if c.Some? {
      LookupInside(t, d, tokens[0]);
      InsertExactly(t, c.value, tokens[1..], isDir);
    } else {
      ChildKeeps(t, d, tokens[0], true);
      FreshDirectory(t, d, tokens[0], tokens[1..]);
      InsertExactly(WithChild(t, d, tokens[0], true), t.next, tokens[1..], isDir);
    }
  }

  lemma LookupInside(t: Tree, d: nat, name: string)
    requires WellFormed(t) && d in t.nodes && LookupFrom(t, d, name, 0).Some?
    ensures LookupFrom(t, d, name, 0).value in t.nodes
  {
    assert NodeOk(t, d);
    LookupFound(t, d, name, 0);
  }

  /** What was found before is found again. */
  lemma {:induction false} LookupSurvives(t: Tree, d: nat, tokens: seq<string>, isDir: bool, e: nat, name: string)
    requires WellFormed(t) && d in t.nodes && tokens != [] && Named(tokens) && DirsOnWay(t, d, tokens) && e in t.nodes
    ensures var t' := Inserted(t, d, tokens, isDir);
      e in t'.nodes && (LookupFrom(t, e, name, 0).Some? ==> LookupFrom(t', e, name, 0) == LookupFrom(t, e, name, 0))
    decreases |tokens|
  {
    NamedTail(tokens);
    FreshNode(t);
    var c := LookupFrom(t, d, tokens[0], 0);
    if |tokens| == 1 {
      assert NodeOk(t, e);
      LookupKept(t, d, tokens[0], isDir, e, name, 0);
    } else if c.Some? {
      LookupInside(t, d, tokens[0]);
      LookupSurvives(t, c.value, tokens[1..], isDir, e, name);
    } else {
      assert NodeOk(t, e);
      LookupKept(t, d, tokens[0], true, e, name, 0);
      ChildKeeps(t, d, tokens[0], true);
      FreshDirectory(t, d, tokens[0], tokens[1..]);
      LookupSurvives(WithChild(t, d, tokens[0], true), t.next, tokens[1..], isDir, e, name);
    }
  }

  /** Every path that led somewhere still leads there. */
  lemma {:induction false} PathSurvives(t: Tree, d: nat, tokens: seq<string>, isDir: bool, e: nat, path: seq<string>)
    requires WellFormed(t) && d in t.nodes && tokens != [] && Named(tokens) && DirsOnWay(t, d, tokens) && e in t.nodes
    requires Descend(t, e, path).Some?
    ensures var t' := Inserted(t, d, tokens, isDir);
      e in t'.nodes && Descend(t', e, path) == Descend(t, e, path)
    decreases |path|
  {
    if path == [] {
      LookupSurvives(t, d, tokens, isDir, e, []);
    } else {
      LookupSurvives(t, d, tokens, isDir, e, path[0]);
      PathSurvives(t, d, tokens, isDir, LookupFrom(t, e, path[0], 0).value, path[1..]);
    }
  }

  /** What a path leads to once an inode was inserted there. */
  function FoundAfter(before: Option<nat>, t': Tree): Option<int> {
    if before.Some? then Some(before.value) else Some(t'.next - 1)
  }

  /** The inserted inode is found under its path exactly if nothing was there
      before; otherwise the older one hides it. */
  lemma {:induction false} InsertFound(t: Tree, d: nat, tokens: seq<string>, isDir: bool)
    requires WellFormed(t) && d in t.nodes && tokens != [] && Named(tokens) && DirsOnWay(t, d, tokens)
    ensures var t' := Inserted(t, d, tokens, isDir);
      && d in t'.nodes && t'.next > t.next
      && Descend(t', d, tokens) == FoundAfter(Descend(t, d, tokens), t')
    decreases |tokens|
  {
    NamedTail(tokens);
    FreshNode(t);
    var name, rest := tokens[0], tokens[1..];
    if |tokens| == 1 {
      assert rest == [];
      LastFound(t, d, name, isDir);
    } else if LookupFrom(t, d, name, 0).Some? {
      LookupInside(t, d, name);
      var c := LookupFrom(t, d, name, 0).value;
      InsertFound(t, c, rest, isDir);
      LookupSurvives(t, c, rest, isDir, d, name);
    } else {
      var t1 := WithChild(t, d, name, true);
      assert NodeOk(t, d);
      LookupKept(t, d, name, true, d, name, 0);
      ChildKeeps(t, d, name, true);
      FreshDirectory(t, d, name, rest);
      LookupSurvives(t1, t.next, rest, isDir, d, name);
      InsertFound(t1, t.next, rest, isDir);
    }
  }

  lemma LastFound(t: Tree, d: nat, name: string, isDir: bool)
    requires WellFormed(t) && d in t.nodes && t.next !in t.nodes
    ensures var t' := WithChild(t, d, name, isDir);
      && Descend(t', d, [name]) == FoundAfter(Descend(t, d, [name]), t')
  {
    assert [name][1..] == [];
    assert NodeOk(t, d);
    LookupKept(t, d, name, isDir, d, name, 0);
    if LookupFrom(t, d, name, 0).Some? {
      LookupInside(t, d, name);
    }
  }

  // ---------- In place ----------

  lemma PartsNamed(path: string)
    ensures Named(Parts(path))
  {
    forall p | p in Parts(path) ensures p != [] {
      NonEmptyMembers(Tokenized(path, '/'), p);
    }
  }

  /** One directory further down, made if it is missing. */
  method Enter(fs: FileSystem, d: nat, name: string, ghost rest: seq<string>, ghost isDir: bool) returns (c: nat)
    requires fs.Valid() && d in fs.nodes && name != [] && rest != [] && DirsOnWay(fs.State(), d, [name] + rest)
    modifies fs
    ensures fs.Valid() && c in fs.nodes && DirsOnWay(fs.State(), c, rest)
    ensures Inserted(fs.State(), c, rest, isDir) == Inserted(old(fs.State()), d, [name] + rest, isDir)
  {
    ghost var t := fs.State();
    assert ([name] + rest)[0] == name && ([name] + rest)[1..] == rest;
    assert NodeOk(t, d);
    var existing := fs.Lookup(d, name);
    if existing.Some? {
      LookupInside(t, d, name);
      return existing.value;
    }
    ChildKeeps(t, d, name, true);
    FreshDirectory(t, d, name, rest);
    c := fs.Append(d, name, true);
  }

  /** The next name of the list and the rest. */
  lemma NextName(tokens: seq<string>, i: nat)
    requires Named(tokens) && i + 1 < |tokens|
    ensures tokens[i..] == [tokens[i]] + tokens[i + 1..] && tokens[i] != [] && tokens[i + 1..] != []
  {
    assert tokens[i] in tokens;
    assert |tokens[i + 1..]| > 0;
  }

  /** All but the last name are entered. */
  method EnterAll(fs: FileSystem, root: nat, tokens: seq<string>, ghost isDir: bool) returns (current: nat)
    requires fs.Valid() && root in fs.nodes && tokens != [] && Named(tokens) && DirsOnWay(fs.State(), root, tokens)
    modifies fs
    ensures current in fs.nodes
    ensures WithChild(fs.State(), current, tokens[|tokens| - 1], isDir) ==
      Inserted(old(fs.State()), root, tokens, isDir)
  {
    current := root;
    ghost var whole := Inserted(fs.State(), root, tokens, isDir);
    assert tokens[0..] == tokens;
    for i := 0 to |tokens| - 1
      invariant fs.Valid() && current in fs.nodes && DirsOnWay(fs.State(), current, tokens[i..])
      invariant Inserted(fs.State(), current, tokens[i..], isDir) == whole
    {
      NextName(tokens, i);
      current := Enter(fs, current, tokens[i], tokens[i + 1..], isDir);
    }
    assert tokens[|tokens| - 1..] == [tokens[|tokens| - 1]];
  }

  /** insert_inode on the file system whose root is `root`. */
  method InsertInode(fs: FileSystem, root: nat, path: string, isDir: bool) returns (c: nat)
    requires fs.Valid() && root in fs.nodes && Parts(path) != [] && DirsOnWay(fs.State(), root, Parts(path))
    modifies fs
    ensures fs.State() == Inserted(old(fs.State()), root, Parts(path), isDir) && c == fs.next - 1
    ensures fs.Valid() <==> old(Descend(fs.State(), root, Parts(path))) == None
  {
    var tokens := Split(path, '/');
    PartsNamed(path);
    InsertExactly(fs.State(), root, tokens, isDir);
    var current := EnterAll(fs, root, tokens, isDir);
    c := fs.Append(current, tokens[|tokens| - 1], isDir);
  }
}
