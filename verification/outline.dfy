/**
  The node abstraction of the outline binding: a node carries a payload and an
  ordered, possibly empty sequence of child nodes. The whole node value is its
  identity (the source requires nodes to be hashable), so two nodes are "the
  same item" exactly when they are equal values.
 */
module Outline {

  datatype Node<T> = Node(value: T, children: seq<Node<T>>)

  /** A node offers a disclosure triangle exactly when it has at least one child. */
  predicate IsExpandable<T>(n: Node<T>) {
    |n.children| > 0
  }

  /** Number of nodes in the tree rooted at `n`, `n` included. */
  function Size<T>(n: Node<T>): nat {
    1 + ForestSize(n.children)
  }

  /** Number of nodes in a forest. */
  function ForestSize<T>(forest: seq<Node<T>>): nat {
    if |forest| == 0 then 0 else Size(forest[0]) + ForestSize(forest[1..])
  }

  /** Every node of the forest, each tree in pre-order, the trees left to right. */
  function Nodes<T>(forest: seq<Node<T>>): (r: seq<Node<T>>)
    ensures |r| == ForestSize(forest)
    decreases ForestSize(forest)
  {
    if |forest| == 0 then []
    else
      assert ForestSize(forest) == 1 + ForestSize(forest[0].children) + ForestSize(forest[1..]);
      [forest[0]] + Nodes(forest[0].children) + Nodes(forest[1..])
  }

  /** How many of the given nodes are expandable. */
  function ExpandableCount<T>(ns: seq<Node<T>>): (r: nat)
    ensures r <= |ns|
  {
    if |ns| == 0 then 0
    else (if IsExpandable(ns[0]) then 1 else 0) + ExpandableCount(ns[1..])
  }

  /** No value occurs twice in `s`. */
  predicate NoDuplicates<X(==)>(s: seq<X>) {
    forall i, j | 0 <= i < j < |s| :: s[i] != s[j]
  }

  /** A forest in which every node identity is used once. */
  predicate DistinctNodes<T(==)>(forest: seq<Node<T>>) {
    NoDuplicates(Nodes(forest))
  }

  lemma {:induction false} ForestSizeConcat<T>(a: seq<Node<T>>, b: seq<Node<T>>)
    ensures ForestSize(a + b) == ForestSize(a) + ForestSize(b)
    decreases |a|
  {
    if |a| == 0 {
      assert a + b == b;
    } else {
      assert (a + b)[1..] == a[1..] + b;
      ForestSizeConcat(a[1..], b);
    }
  }

  /** The nodes of two forests side by side are those of the first, then those of the second. */
  lemma {:induction false} NodesConcat<T>(a: seq<Node<T>>, b: seq<Node<T>>)
    ensures Nodes(a + b) == Nodes(a) + Nodes(b)
    decreases |a|
  {
    if |a| == 0 {
      assert a + b == b;
    } else {
      assert (a + b)[0] == a[0];
      assert (a + b)[1..] == a[1..] + b;
      NodesConcat(a[1..], b);
    }
  }

  /** A single node of a forest spans strictly fewer nodes than the forest. */
  lemma {:induction false} ElementSmaller<T>(forest: seq<Node<T>>, i: nat)
    requires i < |forest|
    ensures Size(forest[i]) <= ForestSize(forest)
    ensures ForestSize(forest[i].children) < ForestSize(forest)
    decreases i
  {
    if i > 0 {
      ElementSmaller(forest[1..], i - 1);
    }
  }

  lemma {:induction false} ExpandableCountConcat<T>(a: seq<Node<T>>, b: seq<Node<T>>)
    ensures ExpandableCount(a + b) == ExpandableCount(a) + ExpandableCount(b)
    decreases |a|
  {
    if |a| == 0 {
      assert a + b == b;
    } else {
      assert (a + b)[1..] == a[1..] + b;
      ExpandableCountConcat(a[1..], b);
    }
  }

  /** Dropping the first element keeps a sequence free of duplicates, and that
      element does not occur again. */
  lemma NoDuplicatesTail<X>(s: seq<X>)
    requires |s| > 0
    requires NoDuplicates(s)
    ensures NoDuplicates(s[1..])
    ensures s[0] !in s[1..]
  {
  }

  /** A sequence without duplicates holds each value at most once. */
  lemma {:induction false} NoDuplicatesCount<X>(s: seq<X>, x: X)
    requires NoDuplicates(s)
    ensures multiset(s)[x] <= 1
    decreases |s|
  {
    if |s| > 0 {
      assert s == [s[0]] + s[1..];
      NoDuplicatesCount(s[1..], x);
      if s[0] == x {
        assert x !in s[1..];
      }
    }
  }

  /** Having no duplicates is a property of the multiset of a sequence: a
      permutation of a duplicate-free sequence holds each of its values once. */
  lemma {:induction false} NoDuplicatesPermutation<X>(a: seq<X>, b: seq<X>)
    requires NoDuplicates(a)
    requires multiset(a) == multiset(b)
    ensures NoDuplicates(b)
    ensures forall x :: multiset(b)[x] == (if x in a then 1 else 0)
  {
    forall x
      ensures multiset(b)[x] == (if x in a then 1 else 0)
    {
      NoDuplicatesCount(a, x);
    }
    forall i, j | 0 <= i < j < |b|
      ensures b[i] != b[j]
    {
      var x := b[i];
      assert b == b[..i] + [b[i]] + b[i + 1..j] + [b[j]] + b[j + 1..];
      assert multiset(b)[x] >= 1 + multiset([b[j]])[x];
    }
  }
}
