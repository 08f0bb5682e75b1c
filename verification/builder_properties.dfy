/**
  What the appends made by the outline builder amount to: one batch at top
  level, then one batch per expandable node in pre-order; parents always
  before their children; every node exactly once; and a snapshot whose root
  list, child lists and item order reproduce the emitted forest.
 */
module BuilderProperties {
  import opened Wrappers
  import opened Outline
  import opened SectionSnapshot
  import opened SnapshotBuilder

  /** Each batch names an expandable node among `ns` as its parent and holds that node's children. */
  lemma {:induction false} ChildBatchesShape<T>(ns: seq<Node<T>>, a: Append<T>)
    requires a in ChildBatches(ns)
    ensures a.parent.Some? && a.parent.value in ns
    ensures IsExpandable(a.parent.value) && a.items == a.parent.value.children
    decreases |ns|
  {
    var c := ns[0];
    var head := if IsExpandable(c) then [Append(c.children, Some(c))] else [];
    assert ChildBatches(ns) == head + ChildBatches(ns[1..]);
    if a !in head {
      ChildBatchesShape(ns[1..], a);
    }
  }

  /** Every expandable node among `ns` gets its batch. */
  lemma {:induction false} ChildBatchesComplete<T>(ns: seq<Node<T>>, n: Node<T>)
    requires n in ns
    requires IsExpandable(n)
    ensures Append(n.children, Some(n)) in ChildBatches(ns)
    decreases |ns|
  {
    if ns[0] != n {
      ChildBatchesComplete(ns[1..], n);
    }
  }

  /** A list of child batches puts nothing at top level. */
  lemma {:induction false} ChildBatchesHaveNoRootItems<T>(ns: seq<Node<T>>)
    ensures RootItems(ChildBatches(ns)) == []
    decreases |ns|
  {
    if |ns| > 0 {
      var head := if IsExpandable(ns[0]) then [Append(ns[0].children, Some(ns[0]))] else [];
      RootItemsConcat(head, ChildBatches(ns[1..]));
      ChildBatchesHaveNoRootItems(ns[1..]);
    }
  }

  /** With distinct parents, the items recorded under `n` are exactly `n`'s children. */
  lemma {:induction false} ChildBatchesChildren<T>(ns: seq<Node<T>>, n: Node<T>)
    requires NoDuplicates(ns)
    ensures ChildrenOf(ChildBatches(ns), n) == (if n in ns then n.children else [])
    decreases |ns|
  {
    if |ns| > 0 {
      var c := ns[0];
      var head := if IsExpandable(c) then [Append(c.children, Some(c))] else [];
      assert ChildBatches(ns) == head + ChildBatches(ns[1..]);
      ChildrenOfConcat(head, ChildBatches(ns[1..]), n);
      assert ChildrenOf(head, n) == (if c == n then n.children else []);
      NoDuplicatesTail(ns);
      ChildBatchesChildren(ns[1..], n);
      assert n in ns <==> n == c || n in ns[1..];
    }
  }

  /** The appends below a batch, in closed form: one batch for each expandable
      node of the forest, in pre-order. */
  lemma {:induction false} ExpansionsInPreOrder<T>(cs: seq<Node<T>>)
    ensures Expansions(cs) == ChildBatches(Nodes(cs))
    decreases ForestSize(cs)
  {
    if |cs| > 0 {
      var c := cs[0];
      assert ForestSize(cs) == 1 + ForestSize(c.children) + ForestSize(cs[1..]);
      ExpansionsInPreOrder(c.children);
      ExpansionsInPreOrder(cs[1..]);
      ExpandInPreOrder(c);
      calc {
        ChildBatches(Nodes(cs));
        ChildBatches([c] + Nodes(c.children) + Nodes(cs[1..]));
        { ChildBatchesConcat([c] + Nodes(c.children), Nodes(cs[1..])); }
        ChildBatches([c] + Nodes(c.children)) + ChildBatches(Nodes(cs[1..]));
        { ChildBatchesConcat([c], Nodes(c.children)); }
        ChildBatches([c]) + ChildBatches(Nodes(c.children)) + ChildBatches(Nodes(cs[1..]));
        Expand(c) + Expansions(cs[1..]);
      }
    }
  }

  /** One step of the closed form: a node expands to its own batch, if it has
      one, followed by the batches of its subtree. */
  lemma {:induction false} ExpandInPreOrder<T>(c: Node<T>)
    requires Expansions(c.children) == ChildBatches(Nodes(c.children))
    ensures Expand(c) == ChildBatches([c]) + ChildBatches(Nodes(c.children))
  {
  }

  /** `addNodes(children, to: parent)` appends `children` under `parent`, then
      one batch per expandable node below, each holding that node's children in
      their own order, the batches in pre-order of their parents. */
  lemma {:induction false} BatchesInPreOrder<T>(cs: seq<Node<T>>, parent: Option<Node<T>>)
    ensures Batches(cs, parent) == [Append(cs, parent)] + ChildBatches(Nodes(cs))
  {
    ExpansionsInPreOrder(cs);
  }

  /** One append for the roots plus one per expandable node of the forest. */
  lemma AppendCount<T>(roots: seq<Node<T>>)
    ensures |Batches(roots, None)| == 1 + ExpandableCount(Nodes(roots))
  {
    BatchesInPreOrder(roots, None);
  }

  /** The first append is the emitted roots, in order, at top level, and nothing
      else is ever put at top level. */
  lemma RootsFirst<T>(roots: seq<Node<T>>)
    ensures Batches(roots, None)[0] == Append(roots, None)
    ensures RootItems(Batches(roots, None)) == roots
  {
    var log := Batches(roots, None);
    BatchesInPreOrder(roots, None);
    RootItemsConcat([Append(roots, None)], ChildBatches(Nodes(roots)));
    ChildBatchesHaveNoRootItems(Nodes(roots));
  }

  /** In a log made of a top-level append followed by child batches, every
      append under `n` names an expandable parent and holds its children. */
  lemma ParentedAppendsSound<T>(log: Snapshot<T>, head: Append<T>, ns: seq<Node<T>>, n: Node<T>, i: nat)
    requires head.parent.None?
    requires log == [head] + ChildBatches(ns)
    requires i < |log| && log[i].parent == Some(n)
    ensures n in ns && IsExpandable(n) && log[i].items == n.children
  {
    var rest := ChildBatches(ns);
    assert i > 0;
    assert log[i] == rest[i - 1];
    ChildBatchesShape(ns, rest[i - 1]);
  }

  /** In a log made of a top-level append followed by child batches, every
      expandable parent has an append under it. */
  lemma ParentedAppendsComplete<T>(log: Snapshot<T>, head: Append<T>, ns: seq<Node<T>>, n: Node<T>)
    requires log == [head] + ChildBatches(ns)
    requires n in ns && IsExpandable(n)
    ensures exists i | 0 <= i < |log| :: log[i].parent == Some(n)
  {
    var rest := ChildBatches(ns);
    ChildBatchesComplete(ns, n);
    var k :| 0 <= k < |rest| && rest[k] == Append(n.children, Some(n));
    assert log[k + 1] == rest[k];
  }

  /** A node gets an append under it exactly when it is a node of the forest
      with at least one child, and that append holds its children in order. */
  lemma AppendedUnderIffExpandable<T>(roots: seq<Node<T>>, n: Node<T>)
    ensures (exists i | 0 <= i < |Batches(roots, None)| :: Batches(roots, None)[i].parent == Some(n))
        <==> n in Nodes(roots) && IsExpandable(n)
    ensures forall i | 0 <= i < |Batches(roots, None)| && Batches(roots, None)[i].parent == Some(n) ::
      Batches(roots, None)[i].items == n.children
  {
    var log := Batches(roots, None);
    BatchesInPreOrder(roots, None);
    if n in Nodes(roots) && IsExpandable(n) {
      ParentedAppendsComplete(log, Append(roots, None), Nodes(roots), n);
    }
    forall i | 0 <= i < |log| && log[i].parent == Some(n)
      ensures n in Nodes(roots) && IsExpandable(n) && log[i].items == n.children
    {
      ParentedAppendsSound(log, Append(roots, None), Nodes(roots), n, i);
    }
  }

  /** The parent of every batch made on top of `s` is an item by the time the batch is appended. */
  lemma {:induction false} BatchesParentsFirst<T>(s: Snapshot<T>, cs: seq<Node<T>>, parent: Option<Node<T>>)
    requires ParentPresent(s, Append(cs, parent))
    ensures ParentsFirst(s, Batches(cs, parent))
    decreases ForestSize(cs), 1
  {
    var a := [Append(cs, parent)];
    ParentsFirstConcat(s, a, Expansions(cs));
    assert ParentsFirst(s + a, a[1..]);
    MembersConcat(s, a);
    assert Members(a) == cs + Members([]);
    ExpansionsParentsFirst(s + a, cs);
  }

  lemma {:induction false} ExpansionsParentsFirst<T>(s: Snapshot<T>, cs: seq<Node<T>>)
    requires forall c | c in cs :: c in Members(s)
    ensures ParentsFirst(s, Expansions(cs))
    decreases ForestSize(cs), 0
  {
    if |cs| > 0 {
      var c := cs[0];
      assert ForestSize(cs) == 1 + ForestSize(c.children) + ForestSize(cs[1..]);
      ParentsFirstConcat(s, Expand(c), Expansions(cs[1..]));
      if IsExpandable(c) {
        BatchesParentsFirst(s, c.children, Some(c));
      }
      MembersConcat(s, Expand(c));
      ExpansionsParentsFirst(s + Expand(c), cs[1..]);
    }
  }

  /** A parent is always appended before any of its children. */
  lemma ParentsAppendedFirst<T>(roots: seq<Node<T>>)
    ensures ParentsFirst([], Batches(roots, None))
  {
    BatchesParentsFirst([], roots, None);
  }

  /** The items appended for a batch are the nodes of its forest, counted with multiplicity. */
  lemma {:induction false} BatchesMembers<T>(cs: seq<Node<T>>, parent: Option<Node<T>>)
    ensures multiset(Members(Batches(cs, parent))) == multiset(Nodes(cs))
    decreases ForestSize(cs), 2
  {
    var a := [Append(cs, parent)];
    MembersConcat(a, Expansions(cs));
    assert Members(a) == cs + Members([]);
    ExpansionsMembers(cs);
  }

  lemma {:induction false} ExpansionsMembers<T>(cs: seq<Node<T>>)
    ensures multiset(cs) + multiset(Members(Expansions(cs))) == multiset(Nodes(cs))
    decreases ForestSize(cs), 1
  {
    if |cs| > 0 {
      var c := cs[0];
      var rest := cs[1..];
      assert ForestSize(cs) == 1 + ForestSize(c.children) + ForestSize(rest);
      assert Members(Expansions(cs)) == Members(Expand(c)) + Members(Expansions(rest)) by {
        assert Expansions(cs) == Expand(c) + Expansions(rest);
        MembersConcat(Expand(c), Expansions(rest));
      }
      ExpandMembers(c);
      ExpansionsMembers(rest);
      PreOrderMultiset(cs, Members(Expand(c)), Members(Expansions(rest)),
                       Nodes(c.children), Nodes(rest), Nodes(cs));
    }
  }

  /** The multiset bookkeeping of one step of `ExpansionsMembers`. */
  lemma PreOrderMultiset<X>(cs: seq<X>, below: seq<X>, after: seq<X>, sub: seq<X>, later: seq<X>, all: seq<X>)
    requires |cs| > 0
    requires all == [cs[0]] + sub + later
    requires multiset(below) == multiset(sub)
    requires multiset(cs[1..]) + multiset(after) == multiset(later)
    ensures multiset(cs) + multiset(below + after) == multiset(all)
  {
    assert cs == [cs[0]] + cs[1..];
  }

  lemma {:induction false} ExpandMembers<T>(c: Node<T>)
    ensures multiset(Members(Expand(c))) == multiset(Nodes(c.children))
    decreases Size(c), 0
  {
    if IsExpandable(c) {
      BatchesMembers(c.children, Some(c));
    } else {
      assert c.children == [];
    }
  }

  /** The snapshot holds every node of the forest and nothing else, and as many
      items as the forest has nodes. */
  lemma MembersCoverForest<T>(roots: seq<Node<T>>)
    ensures forall x :: x in Members(Batches(roots, None)) <==> x in Nodes(roots)
    ensures |Members(Batches(roots, None))| == ForestSize(roots)
  {
    var members := Members(Batches(roots, None));
    BatchesMembers(roots, None);
    assert |multiset(members)| == |multiset(Nodes(roots))|;
    forall x
      ensures x in members <==> x in Nodes(roots)
    {
      assert x in members <==> x in multiset(members);
      assert x in Nodes(roots) <==> x in multiset(Nodes(roots));
    }
  }

  /** For a forest of distinct nodes, every node is appended exactly once. */
  lemma EveryNodeOnce<T>(roots: seq<Node<T>>)
    requires DistinctNodes(roots)
    ensures forall n :: multiset(Members(Batches(roots, None)))[n] == (if n in Nodes(roots) then 1 else 0)
  {
    BatchesMembers(roots, None);
    NoDuplicatesPermutation(Nodes(roots), Members(Batches(roots, None)));
  }

  /** For a forest of distinct nodes, every append satisfies the section
      snapshot's demands: the parent is already there, the items are new. */
  lemma AppendsAccepted<T>(roots: seq<Node<T>>)
    requires DistinctNodes(roots)
    ensures AcceptsAll([], Batches(roots, None))
  {
    var log := Batches(roots, None);
    ParentsAppendedFirst(roots);
    BatchesMembers(roots, None);
    NoDuplicatesPermutation(Nodes(roots), Members(log));
    assert [] + log == log;
    DistinctItemsAccepted([], log);
  }

  /** For a forest of distinct nodes, the items recorded under `n` are its own
      children when it is a node of the forest, and nothing otherwise. */
  lemma ChildListReproduced<T>(roots: seq<Node<T>>, n: Node<T>)
    requires DistinctNodes(roots)
    ensures ChildrenOf(Batches(roots, None), n) == (if n in Nodes(roots) then n.children else [])
  {
    var head := [Append(roots, None)];
    BatchesInPreOrder(roots, None);
    ChildrenOfConcat(head, ChildBatches(Nodes(roots)), n);
    assert ChildrenOf(head, n) == [] + ChildrenOf([], n);
    ChildBatchesChildren(Nodes(roots), n);
  }

  /** For a forest of distinct nodes, the snapshot's root list is the emitted
      roots and the child list of every node of the forest is its own children. */
  lemma StructureReproduced<T>(roots: seq<Node<T>>)
    requires DistinctNodes(roots)
    ensures RootItems(Batches(roots, None)) == roots
    ensures forall n | n in Nodes(roots) :: ChildrenOf(Batches(roots, None), n) == n.children
  {
    RootsFirst(roots);
    forall n | n in Nodes(roots)
      ensures ChildrenOf(Batches(roots, None), n) == n.children
    {
      ChildListReproduced(roots, n);
    }
  }

  /** The child list recorded in `s` for each of `ns` is that node's own children. */
  predicate ChildListsAgree<T(==)>(s: Snapshot<T>, ns: seq<Node<T>>) {
    forall n | n in ns :: ChildrenOf(s, n) == n.children
  }

  /** Agreement over a forest gives agreement on its first tree's root, on that
      root's subtree and on the remaining trees. */
  lemma ChildListsAgreeSplit<T>(s: Snapshot<T>, cs: seq<Node<T>>)
    requires |cs| > 0
    requires ChildListsAgree(s, Nodes(cs))
    ensures ChildrenOf(s, cs[0]) == cs[0].children
    ensures ChildListsAgree(s, Nodes(cs[0].children))
    ensures ChildListsAgree(s, Nodes(cs[1..]))
  {
  }

  /** Walking a snapshot whose child lists agree with a forest lists that forest in pre-order. */
  lemma {:induction false} WalkFollowsForest<T>(s: Snapshot<T>, cs: seq<Node<T>>, fuel: nat)
    requires fuel >= ForestSize(cs)
    requires ChildListsAgree(s, Nodes(cs))
    ensures Walk(s, cs, fuel) == Nodes(cs)
    decreases ForestSize(cs)
  {
    if |cs| > 0 {
      var c := cs[0];
      var rest := cs[1..];
      assert ForestSize(cs) == 1 + ForestSize(c.children) + ForestSize(rest);
      ChildListsAgreeSplit(s, cs);
      WalkFollowsForest(s, c.children, fuel - 1);
      WalkFollowsForest(s, rest, fuel);
      calc {
        Walk(s, cs, fuel);
        [c] + Walk(s, ChildrenOf(s, c), fuel - 1) + Walk(s, rest, fuel);
        [c] + Nodes(c.children) + Nodes(rest);
        Nodes(cs);
      }
    }
  }

  /** A snapshot whose root list is `roots`, whose child lists agree with the
      forest and which holds as many items as the forest has nodes lists its
      items in the forest's pre-order. */
  lemma ItemsFollowForest<T>(s: Snapshot<T>, roots: seq<Node<T>>)
    requires RootItems(s) == roots
    requires |Members(s)| == ForestSize(roots)
    requires ChildListsAgree(s, Nodes(roots))
    ensures Items(s) == Nodes(roots)
  {
    WalkFollowsForest(s, roots, |Members(s)|);
  }

  /** For a forest of distinct nodes, the snapshot lists its items in the
      forest's pre-order: each node followed by its whole subtree, before its
      next sibling. */
  lemma ItemsInPreOrder<T>(roots: seq<Node<T>>)
    requires DistinctNodes(roots)
    ensures Items(Batches(roots, None)) == Nodes(roots)
  {
    var log := Batches(roots, None);
    StructureReproduced(roots);
    assert RootItems(log) == roots;
    MembersCoverForest(roots);
    assert |Members(log)| == ForestSize(roots);
    ItemsFollowForest(log, roots);
  }

  /** Distinct identities are needed: a forest that repeats a tree gets one
      merged child list per repeated parent, and its items come out doubled. */
  lemma RepeatedNodesMergeChildLists()
    ensures var b := Node(1, []);
            var a := Node(0, [b]);
            ChildrenOf(Batches([a, a], None), a) == [b, b] &&
            Items(Batches([a, a], None)) == [a, b, b, a, b, b] &&
            Nodes([a, a]) == [a, b, a, b]
  {
    var b := Node(1, []);
    var a := Node(0, [b]);
    var root := Append([a, a], None);
    var under := Append([b], Some(a));
    assert [b][1..] == [] && [a][1..] == [] && [a, a][1..] == [a];
    assert Nodes([b]) == [b];
    assert Nodes([a]) == [a] + Nodes([b]) + Nodes([]);
    assert Nodes([a, a]) == [a] + Nodes([b]) + Nodes([a]);
    var ns := [a, b, a, b];
    assert ns[1..] == [b, a, b] && ns[1..][1..] == [a, b] && ns[1..][1..][1..] == [b];
    assert ChildBatches([b]) == [] + ChildBatches([]);
    assert ChildBatches([a, b]) == [under] + ChildBatches([b]);
    assert ChildBatches([b, a, b]) == [] + ChildBatches([a, b]);
    assert ChildBatches(ns) == [under] + ChildBatches([b, a, b]);
    assert Nodes([a, a]) == ns;
    assert ChildBatches(Nodes([a, a])) == [under, under];
    BatchesInPreOrder([a, a], None);
    var log := Batches([a, a], None);
    assert log == [root, under, under];
    assert log[1..] == [under, under] && log[1..][1..] == [under];
    ChildListOfA(log, a, b);
    assert ChildrenOf(log, a) == [b, b];
    assert RootItems([under]) == [] + RootItems([]);
    assert RootItems([under, under]) == [] + RootItems([under]);
    assert RootItems(log) == [a, a] + RootItems([under, under]);
    assert Members([under]) == [b] + Members([]);
    assert Members([under, under]) == [b] + Members([under]);
    assert Members(log) == [a, a] + Members([under, under]);
    WalkDoubled(log, a, b);
  }

  /** The merged child list of `a` in the snapshot of `RepeatedNodesMergeChildLists`. */
  lemma ChildListOfA<T>(log: Snapshot<T>, a: Node<T>, b: Node<T>)
    requires a != b
    requires log == [Append([a, a], None), Append([b], Some(a)), Append([b], Some(a))]
    ensures ChildrenOf(log, a) == [b, b]
    ensures ChildrenOf(log, b) == []
  {
    var under := Append([b], Some(a));
    assert log[1..] == [under, under] && log[1..][1..] == [under] && [under][1..] == [];
    assert ChildrenOf([under], a) == [b] + ChildrenOf([], a);
    assert ChildrenOf([under, under], a) == [b] + ChildrenOf([under], a);
    assert ChildrenOf([under], b) == [] + ChildrenOf([], b);
    assert ChildrenOf([under, under], b) == [] + ChildrenOf([under], b);
  }

  /** The walk of that snapshot lists each copy of `b` under each copy of `a`. */
  lemma WalkDoubled<T>(log: Snapshot<T>, a: Node<T>, b: Node<T>)
    requires RootItems(log) == [a, a]
    requires |Members(log)| == 4
    requires ChildrenOf(log, a) == [b, b]
    requires ChildrenOf(log, b) == []
    ensures Items(log) == [a, b, b, a, b, b]
  {
    assert [b, b][1..] == [b] && [b][1..] == [] && [a, a][1..] == [a] && [a][1..] == [];
    assert Walk(log, [b], 3) == [b] + Walk(log, [], 2) + Walk(log, [], 3);
    assert Walk(log, [b, b], 3) == [b] + Walk(log, [], 2) + Walk(log, [b], 3);
    assert Walk(log, [a], 4) == [a] + Walk(log, [b, b], 3) + Walk(log, [], 4);
    assert Walk(log, [a, a], 4) == [a] + Walk(log, [b, b], 3) + Walk(log, [a], 4);
  }
}
