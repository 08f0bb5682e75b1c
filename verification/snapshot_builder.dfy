/**
  The outline data source's reaction to one emitted forest: starting from an
  empty section snapshot, append the roots at top level, then, for each
  expandable node, append its children under it and descend into them.
 */
module SnapshotBuilder {
  import opened Wrappers
  import opened Outline
  import opened SectionSnapshot

  /** The appends made for a batch `children` under `parent`, as a function
      following the same recursion as `addNodes`: the batch itself, then the
      appends made for each child in turn. The properties of the builder are
      stated about this form; `BatchesInPreOrder` equates it with the closed form. */
  function Batches<T>(children: seq<Node<T>>, parent: Option<Node<T>>): (r: Snapshot<T>)
    ensures |r| >= 1
    decreases ForestSize(children), 2
  {
    [Append(children, parent)] + Expansions(children)
  }

  /** The appends made for the expandable nodes among `cs`, left to right. */
  function Expansions<T>(cs: seq<Node<T>>): Snapshot<T>
    decreases ForestSize(cs), 1
  {
    if |cs| == 0 then []
    else
      assert ForestSize(cs) == Size(cs[0]) + ForestSize(cs[1..]);
      Expand(cs[0]) + Expansions(cs[1..])
  }

  /** The appends made for one node: none for a leaf, otherwise its children
      under it followed by what they expand to. */
  function Expand<T>(n: Node<T>): Snapshot<T>
    decreases Size(n), 0
  {
    if IsExpandable(n) then Batches(n.children, Some(n)) else []
  }

  /** The closed form of the appends below a batch: for each expandable node
      among `ns`, in order, its children under it. Applied to the pre-order
      `Nodes` of a forest, this is one batch per expandable node of the forest. */
  function ChildBatches<T>(ns: seq<Node<T>>): (r: Snapshot<T>)
    ensures |r| == ExpandableCount(ns)
  {
    if |ns| == 0 then []
    else
      var head := if IsExpandable(ns[0]) then [Append(ns[0].children, Some(ns[0]))] else [];
      head + ChildBatches(ns[1..])
  }

  lemma {:induction false} ChildBatchesConcat<T>(a: seq<Node<T>>, b: seq<Node<T>>)
    ensures ChildBatches(a + b) == ChildBatches(a) + ChildBatches(b)
    decreases |a|
  {
    if |a| == 0 {
      assert a + b == b;
    } else {
      assert (a + b)[0] == a[0];
      assert (a + b)[1..] == a[1..] + b;
      ChildBatchesConcat(a[1..], b);
    }
  }

  /** The closed form of a single tree: its root's batch, if it has children,
      then the batches of the rest of the tree. */
  lemma TreeChildBatches<T>(c: Node<T>)
    ensures IsExpandable(c) ==>
              ChildBatches(Nodes([c])) == [Append(c.children, Some(c))] + ChildBatches(Nodes(c.children))
    ensures !IsExpandable(c) ==> ChildBatches(Nodes([c])) == []
  {
    assert [c][1..] == [];
    assert Nodes([c]) == [c] + Nodes(c.children);
    ChildBatchesConcat([c], Nodes(c.children));
    if !IsExpandable(c) {
      assert Nodes(c.children) == [];
    }
  }

  /** One turn of the loop over the children: the snapshot grows by the batches
      of the current child's tree, and so covers one more child. */
  lemma ClosedFormStep<T>(cs: seq<Node<T>>, i: nat, batch: Snapshot<T>, before: Snapshot<T>, after: Snapshot<T>)
    requires i < |cs|
    requires before == batch + ChildBatches(Nodes(cs[..i]))
    requires IsExpandable(cs[i]) ==>
               after == before + [Append(cs[i].children, Some(cs[i]))] + ChildBatches(Nodes(cs[i].children))
    requires !IsExpandable(cs[i]) ==> after == before
    ensures after == batch + ChildBatches(Nodes(cs[..i + 1]))
  {
    assert cs[..i + 1] == cs[..i] + [cs[i]];
    NodesConcat(cs[..i], [cs[i]]);
    ChildBatchesConcat(Nodes(cs[..i]), Nodes([cs[i]]));
    TreeChildBatches(cs[i]);
  }

  /** The nested `addNodes(_:to:)`: append `children` under `parent`, then recurse
      into every expandable child, threading the one snapshot through. What it
      appends is the batch itself followed by one batch per expandable node of
      the forest, in pre-order. Each recursive call is on a strictly smaller
      forest, so the traversal ends. */
  method AddNodes<T(==,!new)>(snapshot: Snapshot<T>, children: seq<Node<T>>, parent: Option<Node<T>>)
    returns (result: Snapshot<T>)
    ensures result == snapshot + [Append(children, parent)] + ChildBatches(Nodes(children))
    decreases ForestSize(children)
  {
    result := AppendItems(snapshot, children, parent);
    ghost var batch := snapshot + [Append(children, parent)];
    var i := 0;
    while i < |children|
      invariant 0 <= i <= |children|
      invariant result == batch + ChildBatches(Nodes(children[..i]))
    {
      var child := children[i];
      ghost var before := result;
      if IsExpandable(child) {
        ElementSmaller(children, i);
        result := AddNodes(result, child.children, Some(child));
      }
      ClosedFormStep(children, i, batch, before, result);
      i := i + 1;
    }
    assert children[..|children|] == children;
  }
}
