/**
  The outline data source's handling of emitted forests: every `next` event
  builds a snapshot from scratch with the builder and applies it, replacing
  whatever was shown before.
 */
module OutlineDataSource {
  import opened Wrappers
  import opened Outline
  import opened SectionSnapshot
  import opened SnapshotBuilder
  import opened BuilderProperties

  /** The snapshot built for one emitted forest: a fresh, empty snapshot filled
      by `addNodes(nodes, to: nil)`. */
  method SnapshotForEmission<T(==,!new)>(nodes: seq<Node<T>>) returns (snapshot: Snapshot<T>)
    ensures snapshot == Batches(nodes, None)
    ensures |snapshot| > 0 && snapshot[0] == Append(nodes, None)
    ensures RootItems(snapshot) == nodes
  {
    var empty: Snapshot<T> := [];
    snapshot := AddNodes(empty, nodes, None);
    BatchesInPreOrder(nodes, None);
    assert snapshot == Batches(nodes, None);
    RootsFirst(nodes);
  }

  /** The snapshot last applied after a run of `next` events, none before the
      first. Each event starts from an empty snapshot, so what is applied depends
      on the latest forest alone. */
  method ApplyEmissions<T(==,!new)>(emissions: seq<seq<Node<T>>>) returns (applied: Option<Snapshot<T>>)
    ensures |emissions| == 0 ==> applied == None
    ensures |emissions| > 0 ==> applied == Some(Batches(emissions[|emissions| - 1], None))
  {
    applied := None;
    var i := 0;
    while i < |emissions|
      invariant 0 <= i <= |emissions|
      invariant i == 0 ==> applied == None
      invariant i > 0 ==> applied == Some(Batches(emissions[i - 1], None))
    {
      var snapshot := SnapshotForEmission(emissions[i]);
      applied := Some(snapshot);
      i := i + 1;
    }
  }
}
