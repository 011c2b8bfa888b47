/** The binary min-heap that keeps sleepers by deadline, as operations on the
    node array and as the object that performs them in place. */
module MinHeap {

  datatype Node<T> = Node(key: nat, value: T)

  function Left(i: nat): nat { 2 * i + 1 }
  function Right(i: nat): nat { 2 * i + 2 }
  function Parent(i: nat): nat
    requires i > 0
  {
    (i - 1) / 2
  }

  ghost predicate IsHeap<T>(s: seq<Node<T>>)
  {
    forall i: nat | 0 < i < |s| :: s[Parent(i)].key <= s[i].key
  }

  function Swap<T>(s: seq<T>, i: nat, j: nat): seq<T>
    requires i < |s| && j < |s|
  {
    s[i := s[j]][j := s[i]]
  }

  lemma SwapPermutes<T>(s: seq<T>, i: nat, j: nat)
    requires i < |s| && j < |s|
    ensures multiset(Swap(s, i, j)) == multiset(s)
  {
  }

  // ---------- Insertion ----------

  function SiftUp<T>(s: seq<Node<T>>, i: nat): (r: seq<Node<T>>)
    requires i < |s|
    ensures |r| == |s|
    decreases i
  {
    if i == 0 || s[Parent(i)].key <= s[i].key then s
    else SiftUp(Swap(s, i, Parent(i)), Parent(i))
  }

  function Inserted<T>(s: seq<Node<T>>, key: nat, value: T): (r: seq<Node<T>>)
    ensures |r| == |s| + 1
  {
    SiftUp(s + [Node(key, value)], |s|)
  }

  /** Heap order but for the edge above `i`, which may be skipped. */
  ghost predicate HeapExceptUp<T>(s: seq<Node<T>>, i: nat)
  {
    && (forall j: nat | 0 < j < |s| && j != i :: s[Parent(j)].key <= s[j].key)
    && (forall j: nat | 0 < j < |s| && i > 0 && Parent(j) == i :: s[Parent(i)].key <= s[j].key)
  }

  lemma {:induction false} SiftUpCorrect<T>(s: seq<Node<T>>, i: nat)
    requires i < |s| && HeapExceptUp(s, i)
    ensures IsHeap(SiftUp(s, i)) && multiset(SiftUp(s, i)) == multiset(s)
    decreases i
  {
    if i > 0 && s[Parent(i)].key > s[i].key {
      SwapUp(s, i);
      SwapPermutes(s, i, Parent(i));
      SiftUpCorrect(Swap(s, i, Parent(i)), Parent(i));
    }
  }

  lemma SwapUp<T>(s: seq<Node<T>>, i: nat)
    requires 0 < i < |s| && HeapExceptUp(s, i) && s[Parent(i)].key > s[i].key
    ensures HeapExceptUp(Swap(s, i, Parent(i)), Parent(i))
  {
    var p := Parent(i);
    var t := Swap(s, i, p);
    forall j: nat | 0 < j < |s| && j != p ensures t[Parent(j)].key <= t[j].key {
      if Parent(j) == p && j != i {
        assert s[p].key <= s[j].key;
      }
    }
    forall j: nat | 0 < j < |s| && p > 0 && Parent(j) == p ensures t[Parent(p)].key <= t[j].key {
      assert s[Parent(p)].key <= s[p].key <= s[j].key || j == i;
    }
  }

  lemma InsertCorrect<T>(s: seq<Node<T>>, key: nat, value: T)
    requires IsHeap(s)
    ensures IsHeap(Inserted(s, key, value))
    ensures multiset(Inserted(s, key, value)) == multiset(s) + multiset{Node(key, value)}
  {
    SiftUpCorrect(s + [Node(key, value)], |s|);
  }

  // ---------- Removal ----------

  function Smallest<T>(s: seq<Node<T>>, root: nat): (r: nat)
    requires root < |s|
    ensures r < |s| && r in {root, Left(root), Right(root)}
  {
    var l := Left(root);
    var a := if l < |s| && s[l].key < s[root].key then l else root;
    var r := Right(root);
    if r < |s| && s[r].key < s[a].key then r else a
  }

  function Heapified<T>(s: seq<Node<T>>, root: nat): (r: seq<Node<T>>)
    requires root < |s|
    ensures |r| == |s|
    decreases |s| - root
  {
    var c := Smallest(s, root);
    if c == root then s else Heapified(Swap(s, root, c), c)
  }

  function Popped<T>(s: seq<Node<T>>): (r: seq<Node<T>>)
    requires s != []
    ensures |r| == |s| - 1
  {
    if |s| == 1 then [] else Heapified(s[0 := s[|s| - 1]][..|s| - 1], 0)
  }

  /** Heap order but for the edges below `i`, which may be skipped. */
  ghost predicate HeapExceptDown<T>(s: seq<Node<T>>, i: nat)
  {
    && (forall j: nat | 0 < j < |s| && Parent(j) != i :: s[Parent(j)].key <= s[j].key)
    && (forall j: nat | 0 < j < |s| && i > 0 && Parent(j) == i :: s[Parent(i)].key <= s[j].key)
  }

  lemma {:induction false} HeapifyCorrect<T>(s: seq<Node<T>>, root: nat)
    requires root < |s| && HeapExceptDown(s, root)
    ensures IsHeap(Heapified(s, root)) && multiset(Heapified(s, root)) == multiset(s)
    decreases |s| - root
  {
    var c := Smallest(s, root);
    ChildrenOf(s, root);
    if c != root {
      SwapPermutes(s, root, c);
      HeapifyCorrect(Swap(s, root, c), c);
    }
  }

  lemma ChildrenOf<T>(s: seq<Node<T>>, root: nat)
    requires root < |s|
    ensures forall j: nat | 0 < j < |s| && Parent(j) == root :: s[Smallest(s, root)].key <= s[j].key
    ensures s[Smallest(s, root)].key <= s[root].key
  {
    forall j: nat | 0 < j < |s| && Parent(j) == root ensures j == Left(root) || j == Right(root) {
    }
  }

  lemma PopCorrect<T>(s: seq<Node<T>>)
    requires IsHeap(s) && s != []
    ensures IsHeap(Popped(s))
    ensures multiset(Popped(s)) + multiset{s[0]} == multiset(s)
  {
    if |s| > 1 {
      var t := s[0 := s[|s| - 1]][..|s| - 1];
      LastToFront(s);
      HeapifyCorrect(t, 0);
    }
  }

  lemma LastToFront<T>(s: seq<Node<T>>)
    requires IsHeap(s) && |s| > 1
    ensures var t := s[0 := s[|s| - 1]][..|s| - 1];
      HeapExceptDown(t, 0) && multiset(t) + multiset{s[0]} == multiset(s)
  {
    var t := s[0 := s[|s| - 1]][..|s| - 1];
    forall j: nat | 0 < j < |t| && Parent(j) != 0 ensures t[Parent(j)].key <= t[j].key {
      assert t[j] == s[j] && t[Parent(j)] == s[Parent(j)];
    }
    var middle := s[1..|s| - 1];
    assert s == [s[0]] + middle + [s[|s| - 1]];
    assert t == [s[|s| - 1]] + middle;
  }

  lemma {:induction false} RootIsLeast<T>(s: seq<Node<T>>, i: nat)
    requires IsHeap(s) && i < |s|
    ensures s[0].key <= s[i].key
    decreases i
  {
    if i > 0 {
      RootIsLeast(s, Parent(i));
    }
  }

  ghost predicate IsLeast<T>(s: seq<Node<T>>, i: nat)
    requires i < |s|
  {
    forall j: nat | j < |s| :: s[i].key <= s[j].key
  }

  lemma LeastAtRoot<T>(s: seq<Node<T>>)
    requires IsHeap(s) && s != []
    ensures IsLeast(s, 0)
  {
    forall j: nat | j < |s| ensures s[0].key <= s[j].key {
      RootIsLeast(s, j);
    }
  }

  // ---------- Draining ----------

  function Drained<T>(s: seq<Node<T>>): seq<Node<T>>
    decreases |s|
  {
    if s == [] then [] else [s[0]] + Drained(Popped(s))
  }

  /** Repeated pops give every node back, in order of their keys. */
  lemma {:induction false} DrainSorts<T>(s: seq<Node<T>>)
    requires IsHeap(s)
    ensures multiset(Drained(s)) == multiset(s)
    ensures forall i, j | 0 <= i < j < |Drained(s)| :: Drained(s)[i].key <= Drained(s)[j].key
    decreases |s|
  {
    if s != [] {
      PopCorrect(s);
      DrainSorts(Popped(s));
      var rest := Drained(Popped(s));
      assert multiset(Drained(s)) == multiset{s[0]} + multiset(rest);
      RootComesFirst(s, rest);
    }
  }

  lemma RootComesFirst<T>(s: seq<Node<T>>, rest: seq<Node<T>>)
    requires IsHeap(s) && s != [] && multiset(s) == multiset{s[0]} + multiset(rest)
    ensures forall j | 0 <= j < |rest| :: s[0].key <= rest[j].key
  {
    forall j | 0 <= j < |rest| ensures s[0].key <= rest[j].key {
      assert rest[j] in multiset(rest);
      assert rest[j] in multiset(s);
      var i :| 0 <= i < |s| && s[i] == rest[j];
      RootIsLeast(s, i);
    }
  }

  // ---------- The object ----------

  class KMinHeap<T> {
    var nodes: seq<Node<T>>

    constructor ()
      ensures nodes == []
    {
      nodes := [];
    }

    /** In a heap, a value of least key. */
    method Peak() returns (value: T)
      requires nodes != []
      ensures value == nodes[0].value
      ensures IsHeap(nodes) ==> exists i: nat :: i < |nodes| && nodes[i].value == value && IsLeast(nodes, i)
    {
      value := nodes[0].value;
      if IsHeap(nodes) {
        LeastAtRoot(nodes);
      }
    }

    method Insert(key: nat, value: T)
      modifies this
      ensures nodes == Inserted(old(nodes), key, value)
    {
      nodes := nodes + [Node(key, value)];
      var i := |nodes| - 1;
      while i != 0
        invariant 0 <= i < |nodes|
        invariant SiftUp(nodes, i) == Inserted(old(nodes), key, value)
      {
        var parent := (i - 1) / 2;
        if nodes[parent].key <= nodes[i].key {
          break;
        }
        nodes := Swap(nodes, i, parent);
        i := parent;
      }
    }

    method MinHeapify(root: nat)
      requires root < |nodes|
      modifies this
      ensures nodes == Heapified(old(nodes), root)
      decreases |nodes| - root
    {
      var l, r, smallest := 2 * root + 1, 2 * root + 2, root;
      if l < |nodes| && nodes[l].key < nodes[root].key {
        smallest := l;
      }
      if r < |nodes| && nodes[r].key < nodes[smallest].key {
        smallest := r;
      }
      assert smallest == Smallest(nodes, root);
      if smallest == root {
        return;
      }
      nodes := Swap(nodes, root, smallest);
      MinHeapify(smallest);
    }

    method Pop()
      requires nodes != []
      modifies this
      ensures nodes == Popped(old(nodes))
    {
      if |nodes| == 1 {
        nodes := [];
        return;
      }
      nodes := nodes[0 := nodes[|nodes| - 1]];
      nodes := nodes[..|nodes| - 1];
      MinHeapify(0);
    }
  }
}
