/** klist: a circular doubly linked list, proved to be a sequence. */
module KList {
  import opened Common

  function Succ(n: nat, i: nat): nat { if i + 1 == n then 0 else i + 1 }
  function Pred(n: nat, i: nat): nat
    requires n > 0
  {
    if i == 0 then n - 1 else i - 1
  }

  function RotatedNext<T>(s: seq<T>): seq<T> { seq(|s|, i requires 0 <= i < |s| => s[Succ(|s|, i)]) }
  function RotatedPrev<T>(s: seq<T>): seq<T> { seq(|s|, i requires 0 <= i < |s| => s[Pred(|s|, i)]) }

  /** Where `x` first occurs, or the length. */
  function FirstAt<T(==)>(s: seq<T>, x: T): (i: nat)
    ensures i <= |s| && x !in s[..i] && (i < |s| ==> s[i] == x)
  {
    if s == [] || s[0] == x then 0
    else
      var i := 1 + FirstAt(s[1..], x);
      assert s[..i] == [s[0]] + s[1..][..i - 1];
      i
  }

  lemma ReversedTwice<T>(s: seq<T>)
    ensures Reversed(Reversed(s)) == s
  {
    var r := Reversed(Reversed(s));
    forall i | 0 <= i < |s| ensures r[i] == s[i] {
      assert r[i] == Reversed(s)[|s| - 1 - i];
    }
  }

  /** Rotation moves one element from one end to the other, and back. */
  lemma RotatedIs<T>(x: T, s: seq<T>)
    ensures RotatedNext([x] + s) == s + [x] && RotatedPrev(s + [x]) == [x] + s
  {
  }

  lemma RotateBack<T>(s: seq<T>)
    ensures RotatedPrev(RotatedNext(s)) == s && RotatedNext(RotatedPrev(s)) == s
  {
  }

  class Node<T> {
    var prev: Node?<T>
    var next: Node?<T>
    var data: T

    constructor (data: T)
      ensures this.data == data
    {
      this.data := data;
      prev, next := null, null;
    }
  }

  /** Following next from the first node visits `nodes` in order and comes back;
      prev is the way back. */
  ghost predicate Ring<T>(nodes: seq<Node<T>>)
    reads nodes
  {
    && Distinct(nodes)
    && (forall i: nat {:trigger nodes[i].next} | i < |nodes| :: nodes[i].next == nodes[Succ(|nodes|, i)])
    && (forall i: nat {:trigger nodes[i].prev} | i < |nodes| :: nodes[i].prev == nodes[Pred(|nodes|, i)])
  }

  ghost predicate Holds<T>(nodes: seq<Node<T>>, contents: seq<T>)
    reads nodes
  {
    |nodes| == |contents| && forall i: nat | i < |nodes| :: nodes[i].data == contents[i]
  }

  lemma HoldsReversed<T>(nodes: seq<Node<T>>, contents: seq<T>)
    requires Holds(nodes, contents)
    ensures Holds(Reversed(nodes), Reversed(contents))
  {
  }

  lemma HoldsErased<T>(nodes: seq<Node<T>>, contents: seq<T>, i: nat)
    requires Holds(nodes, contents) && i < |nodes|
    ensures Holds(Erased(nodes, i), Erased(contents, i))
  {
  }

  lemma HoldsRotated<T>(nodes: seq<Node<T>>, contents: seq<T>)
    requires Holds(nodes, contents)
    ensures Holds(RotatedNext(nodes), RotatedNext(contents))
    ensures Holds(RotatedPrev(nodes), RotatedPrev(contents))
  {
  }

  /** The same ring, entered one node later or earlier. */
  lemma RingNext<T>(nodes: seq<Node<T>>)
    requires Ring(nodes)
    ensures Ring(RotatedNext(nodes))
  {
    var n, r := |nodes|, RotatedNext(nodes);
    forall i: nat | i < n ensures r[i].next == r[Succ(n, i)] && r[i].prev == r[Pred(n, i)] {
      var j := Succ(n, i);
      assert r[i] == nodes[j];
      assert nodes[j].next == nodes[Succ(n, j)] && nodes[j].prev == nodes[Pred(n, j)];
    }
  }

  lemma RingPrev<T>(nodes: seq<Node<T>>)
    requires Ring(nodes)
    ensures Ring(RotatedPrev(nodes))
  {
    var n, r := |nodes|, RotatedPrev(nodes);
    forall i: nat | i < n ensures r[i].next == r[Succ(n, i)] && r[i].prev == r[Pred(n, i)] {
      var j := Pred(n, i);
      assert r[i] == nodes[j];
      assert nodes[j].next == nodes[Succ(n, j)] && nodes[j].prev == nodes[Pred(n, j)];
    }
  }

  /** `n` goes between the last and the first node of a ring. */
  method Splice<T>(n: Node<T>, first: Node<T>, last: Node<T>, ghost nodes: seq<Node<T>>)
    requires Ring(nodes) && n !in nodes && nodes != [] && first == nodes[0] && last == nodes[|nodes| - 1]
    modifies n`next, n`prev, last`next, first`prev
    ensures Ring(nodes + [n])
  {
    n.next := first;
    n.prev := last;
    last.next := n;
    first.prev := n;
    ghost var more := nodes + [n];
    forall i: nat | i < |more| ensures more[i].next == more[Succ(|more|, i)] {
      if i + 1 < |nodes| {
        assert more[i] == nodes[i] != last;
      }
    }
    forall i: nat | i < |more| ensures more[i].prev == more[Pred(|more|, i)] {
      if 0 < i < |nodes| {
        assert more[i] == nodes[i] != first;
      }
    }
  }

  /** Taking out a position of a ring: who comes after and before the others. */
  lemma ErasedNeighbours<T>(s: seq<T>, i: nat, j: nat)
    requires i < |s| && j + 1 < |s|
    ensures var n, k := |s|, if j < i then j else j + 1;
      && Erased(s, i)[j] == s[k] && k != i
      && Erased(s, i)[Succ(n - 1, j)] == (if Succ(n, k) == i then s[Succ(n, i)] else s[Succ(n, k)])
      && Erased(s, i)[Pred(n - 1, j)] == (if Pred(n, k) == i then s[Pred(n, i)] else s[Pred(n, k)])
  {
  }

  lemma ErasedLast<T>(s: seq<T>)
    requires s != []
    ensures Erased(s, |s| - 1) == s[..|s| - 1]
  {
  }

  /** The ring's pointers once position `i` has been bypassed. */
  ghost predicate Bypassed<T>(nodes: seq<Node<T>>, i: nat)
    requires i < |nodes|
    reads nodes
  {
    var n := |nodes|;
    && (forall k: nat {:trigger nodes[k].next} | k < n && k != i ::
          nodes[k].next == nodes[if Succ(n, k) == i then Succ(n, i) else Succ(n, k)])
    && (forall k: nat {:trigger nodes[k].prev} | k < n && k != i ::
          nodes[k].prev == nodes[if Pred(n, k) == i then Pred(n, i) else Pred(n, k)])
  }

  lemma RingErased<T>(nodes: seq<Node<T>>, i: nat)
    requires i < |nodes| && Distinct(nodes) && Bypassed(nodes, i)
    ensures Ring(Erased(nodes, i))
  {
    var n, fewer := |nodes|, Erased(nodes, i);
    ErasedDistinct(nodes, i);
    forall j: nat | j < |fewer|
      ensures fewer[j].next == fewer[Succ(n - 1, j)] && fewer[j].prev == fewer[Pred(n - 1, j)]
    {
      ErasedNeighbours(nodes, i, j);
    }
  }

  method Detach<T>(n: Node<T>, prev: Node<T>, next: Node<T>, ghost nodes: seq<Node<T>>, ghost i: nat)
    requires Ring(nodes) && i < |nodes| && |nodes| > 1 && n == nodes[i]
    requires prev == nodes[Pred(|nodes|, i)] && next == nodes[Succ(|nodes|, i)]
    modifies prev`next, next`prev
    ensures Ring(Erased(nodes, i)) && n.next == old(n.next) && n.prev == old(n.prev)
  {
    Bypass(prev, next, nodes, i);
    RingErased(nodes, i);
  }

  method Bypass<T>(prev: Node<T>, next: Node<T>, ghost nodes: seq<Node<T>>, ghost i: nat)
    requires Ring(nodes) && i < |nodes| && |nodes| > 1
    requires prev == nodes[Pred(|nodes|, i)] && next == nodes[Succ(|nodes|, i)]
    modifies prev`next, next`prev
    ensures Bypassed(nodes, i) && nodes[i].next == old(nodes[i].next) && nodes[i].prev == old(nodes[i].prev)
  {
    prev.next := next;
    next.prev := prev;
    ghost var n := |nodes|;
    assert forall k: nat | k < n :: nodes[k] == prev <==> k == Pred(n, i);
    assert forall k: nat | k < n :: nodes[k] == next <==> k == Succ(n, i);
  }

  class KList<T(==)> {
    var head: Node?<T>
    var size: nat
    ghost var nodes: seq<Node<T>>
    ghost var contents: seq<T>

    ghost predicate Valid()
      reads this, nodes
    {
      && size == |nodes|
      && head == (if nodes == [] then null else nodes[0])
      && Ring(nodes) && Holds(nodes, contents)
    }

    constructor ()
      ensures Valid() && contents == [] && nodes == []
    {
      head, size, nodes, contents := null, 0, [], [];
    }

    // ---------- Insertion ----------

    /** Put a new node between the last node and the first. */
    method LinkBeforeHead(n: Node<T>)
      requires Valid() && n !in nodes
      modifies this`head, nodes, n
      ensures Ring(nodes + [n])
      ensures head == if nodes == [] then n else old(head)
      ensures forall m | m in nodes + [n] :: m.data == old(m.data)
    {
      if size == 0 {
        head := n;
        n.next, n.prev := n, n;
      } else {
        Splice(n, head, head.prev, nodes);
      }
    }

    method PushBack(x: T)
      requires Valid()
      modifies this, nodes
      ensures Valid() && contents == old(contents) + [x]
      ensures fresh(set n | n in nodes && n !in old(nodes))
    {
      var n := new Node(x);
      LinkBeforeHead(n);
      size := size + 1;
      nodes := nodes + [n];
      contents := contents + [x];
    }

    method PushFront(x: T)
      requires Valid()
      modifies this, nodes
      ensures Valid() && contents == [x] + old(contents)
      ensures fresh(set n | n in nodes && n !in old(nodes))
    {
      var n := new Node(x);
      LinkBeforeHead(n);
      RingPrev(nodes + [n]);
      RotatedIs(n, nodes);
      head := n;
      size := size + 1;
      nodes := [n] + nodes;
      contents := [x] + contents;
    }

    // ---------- Removal ----------

    /** The node at position `i` is no longer part of the list. */
    ghost method Forget(i: nat)
      requires i < |nodes| == size + 1 && Ring(Erased(nodes, i)) && Holds(nodes, contents)
      requires head == if size == 0 then null else Erased(nodes, i)[0]
      modifies this`nodes, this`contents
      ensures Valid() && nodes == Erased(old(nodes), i) && contents == Erased(old(contents), i)
    {
      HoldsErased(nodes, contents, i);
      nodes := Erased(nodes, i);
      contents := Erased(contents, i);
    }

    /** The node at position `i` goes; if it was the first, the next one is. */
    method RemoveNode(n: Node?<T>, ghost i: nat) returns (removed: bool)
      requires Valid() && (n != null && nodes != [] ==> i < |nodes| && n == nodes[i])
      modifies this, nodes
      ensures Valid() && removed == (n != null && old(nodes) != [])
      ensures removed ==> nodes == Erased(old(nodes), i) && contents == Erased(old(contents), i)
      ensures !removed ==> nodes == old(nodes) && contents == old(contents)
    {
      if size == 0 || n == null {
        return false;
      }
      size := size - 1;
      if size == 0 {
        head := null;
      } else {
        if n == head {
          head := n.next;
        }
        Detach(n, n.prev, n.next, nodes, i);
      }
      Forget(i);
      return true;
    }

    /** The node `steps` after the first, going round. */
    method Walk(steps: nat) returns (n: Node<T>)
      requires Valid() && nodes != []
      ensures n == nodes[steps % |nodes|]
    {
      n := head;
      for i := 0 to steps
        invariant n == nodes[i % |nodes|]
      {
        NextModulo(i, |nodes|);
        n := n.next;
      }
    }

    method At(pos: nat) returns (x: T)
      requires Valid() && contents != []
      ensures x == contents[pos % |contents|]
    {
      var n := Walk(pos);
      x := n.data;
    }

    method Front() returns (x: T)
      requires Valid() && contents != []
      ensures x == contents[0]
    {
      x := head.data;
    }

    method Back() returns (x: T)
      requires Valid() && contents != []
      ensures x == contents[|contents| - 1]
    {
      x := head.prev.data;
    }

    method Erase(pos: nat) returns (erased: bool)
      requires Valid()
      modifies this, nodes
      ensures Valid() && erased == (pos < |old(contents)|)
      ensures contents == if erased then Erased(old(contents), pos) else old(contents)
      ensures forall n | n in nodes :: n in old(nodes)
    {
      if size == 0 || pos >= size {
        return false;
      }
      var n := Walk(pos);
      erased := RemoveNode(n, pos);
    }

    /** The first element equal to `x` goes. */
    method Remove(x: T) returns (removed: bool)
      requires Valid()
      modifies this, nodes
      ensures Valid() && removed == (x in old(contents))
      ensures contents ==
        if FirstAt(old(contents), x) < |old(contents)| then Erased(old(contents), FirstAt(old(contents), x))
        else old(contents)
      ensures forall n | n in nodes :: n in old(nodes)
    {
      if size == 0 {
        return false;
      }
      var n := head;
      var i := 0;
      while i < size
        invariant 0 <= i <= size && Valid() && contents == old(contents) && nodes == old(nodes)
        invariant n == nodes[if i == size then 0 else i]
        invariant x !in contents[..i]
      {
        if n.data == x {
          FirstUnique(contents, x, i);
          removed := RemoveNode(n, i);
          return;
        }
        n := n.next;
        i := i + 1;
      }
      FirstUnique(contents, x, i);
      return false;
    }

    method PopFront()
      requires Valid()
      modifies this, nodes
      ensures Valid() && contents == if old(contents) == [] then [] else old(contents)[1..]
      ensures forall n | n in nodes :: n in old(nodes)
    {
      if size == 0 {
        return;
      }
      var n := head;
      size := size - 1;
      if size == 0 {
        head := null;
      } else {
        Detach(n, n.prev, n.next, nodes, 0);
        head := n.next;
      }
      Forget(0);
    }

    method PopBack()
      requires Valid()
      modifies this, nodes
      ensures Valid() && size == if old(size) == 0 then 0 else old(size) - 1
      ensures nodes <= old(nodes)
      ensures contents == if old(contents) == [] then [] else old(contents)[..|old(contents)| - 1]
    {
      if size == 0 {
        return;
      }
      var n := head.prev;
      ghost var i := |nodes| - 1;
      ErasedLast(nodes);
      ErasedLast(contents);
      size := size - 1;
      if size == 0 {
        head := null;
      } else {
        Detach(n, n.prev, n.next, nodes, i);
      }
      Forget(i);
    }

    method Clear()
      requires Valid()
      modifies this, nodes
      ensures Valid() && contents == [] && nodes == []
    {
      while size != 0
        invariant Valid() && nodes <= old(nodes)
        decreases size
      {
        PopBack();
      }
    }

    // ---------- Turning ----------

    method RotateNext()
      requires Valid()
      modifies this
      ensures Valid() && contents == RotatedNext(old(contents))
      ensures forall n | n in nodes :: n in old(nodes)
    {
      RingNext(nodes);
      HoldsRotated(nodes, contents);
      if size != 0 {
        head := head.next;
      }
      nodes, contents := RotatedNext(nodes), RotatedNext(contents);
    }

    method RotatePrev()
      requires Valid()
      modifies this
      ensures Valid() && contents == RotatedPrev(old(contents))
      ensures forall n | n in nodes :: n in old(nodes)
    {
      RingPrev(nodes);
      HoldsRotated(nodes, contents);
      if size != 0 {
        head := head.prev;
      }
      nodes, contents := RotatedPrev(nodes), RotatedPrev(contents);
    }

    /** Swapping both pointers of every node turns the ring round. */
    method Reverse()
      requires Valid()
      modifies this, nodes
      ensures Valid() && contents == Reversed(old(contents))
      ensures forall n | n in nodes :: n in old(nodes)
    {
      if size == 0 {
        return;
      }
      SwapAll(head, size, nodes, contents);
      head := head.next;
      nodes, contents := Reversed(nodes), Reversed(contents);
    }
  }

  ghost predicate Straight<T>(nodes: seq<Node<T>>, j: nat)
    requires j < |nodes|
    reads nodes
  {
    nodes[j].next == nodes[Succ(|nodes|, j)] && nodes[j].prev == nodes[Pred(|nodes|, j)]
  }

  ghost predicate Turned<T>(nodes: seq<Node<T>>, j: nat)
    requires j < |nodes|
    reads nodes
  {
    nodes[j].next == nodes[Pred(|nodes|, j)] && nodes[j].prev == nodes[Succ(|nodes|, j)]
  }

  lemma RingTurned<T>(nodes: seq<Node<T>>)
    requires Distinct(nodes) && forall j: nat | j < |nodes| :: Turned(nodes, j)
    ensures Ring(Reversed(nodes))
  {
    ReversedDistinct(nodes);
    var n, r := |nodes|, Reversed(nodes);
    forall i: nat | i < n ensures r[i].next == r[Succ(n, i)] && r[i].prev == r[Pred(n, i)] {
      TurnedAt(nodes, i);
    }
  }

  lemma TurnedAt<T>(nodes: seq<Node<T>>, i: nat)
    requires i < |nodes| && Turned(nodes, |nodes| - 1 - i)
    ensures Straight(Reversed(nodes), i)
  {
  }

  lemma ReversedDistinct<T>(s: seq<T>)
    requires Distinct(s)
    ensures Distinct(Reversed(s))
  {
    var n, r := |s|, Reversed(s);
    forall i, j | 0 <= i < j < n ensures r[i] != r[j] {
      assert r[i] == s[n - 1 - i] && r[j] == s[n - 1 - j];
    }
  }

  method SwapOne<T>(n: Node<T>, ghost nodes: seq<Node<T>>, ghost i: nat) returns (next: Node<T>)
    requires Distinct(nodes) && i < |nodes| && n == nodes[i] && Straight(nodes, i)
    modifies n`next, n`prev
    ensures Turned(nodes, i) && next == nodes[Succ(|nodes|, i)]
    ensures forall j: nat | j < |nodes| && j != i && old(Turned(nodes, j)) :: Turned(nodes, j)
    ensures forall j: nat | j < |nodes| && j != i && old(Straight(nodes, j)) :: Straight(nodes, j)
  {
    next := n.next;
    n.next := n.prev;
    n.prev := next;
  }

  method SwapAll<T>(first: Node<T>, size: nat, ghost nodes: seq<Node<T>>, ghost contents: seq<T>)
    requires Ring(nodes) && Holds(nodes, contents) && size == |nodes| > 0 && first == nodes[0]
    modifies nodes
    ensures Ring(Reversed(nodes)) && first.next == nodes[size - 1]
    ensures Holds(Reversed(nodes), Reversed(contents))
  {
    var n := first;
    for i := 0 to size
      invariant n == nodes[if i == size then 0 else i]
      invariant Holds(nodes, contents)
      invariant forall j: nat | j < i :: Turned(nodes, j)
      invariant forall j: nat | i <= j < size :: Straight(nodes, j)
    {
      n := SwapOne(n, nodes, i);
    }
    RingTurned(nodes);
    HoldsReversed(nodes, contents);
    assert Turned(nodes, 0);
  }

  lemma NextModulo(i: nat, n: nat)
    requires n > 0
    ensures (i + 1) % n == Succ(n, i % n)
  {
    var q, r := i / n, i % n;
    assert i + 1 == q * n + (r + 1);
    if r + 1 == n {
      assert i + 1 == (q + 1) * n;
      QuotientIs(i + 1, n, q + 1);
    } else {
      QuotientIs(i + 1, n, q);
    }
  }

  lemma FirstUnique<T>(s: seq<T>, x: T, i: nat)
    requires i <= |s| && x !in s[..i] && (i < |s| ==> s[i] == x)
    ensures FirstAt(s, x) == i && (x in s <==> i < |s|)
  {
    assert forall j | 0 <= j < i :: s[j] in s[..i];
    var f := FirstAt(s, x);
    assert forall j | 0 <= j < f :: s[j] in s[..f];
  }
}
