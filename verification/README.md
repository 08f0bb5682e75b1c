# Outline snapshot builder of RxUIKit, in Dafny

RxUIKit binds a stream of node forests to a `UICollectionView` in outline
(expandable list) style. For every emitted forest the data source
`OutlineCollectionViewDiffableDataSource` builds a new section snapshot. It
starts from an empty snapshot and calls the nested recursive
`addNodes(_:to:)`. That call appends a batch of sibling nodes under a parent, or
at top level when the parent is `nil`. It then descends into every child that
is expandable, meaning it has at least one child. The finished snapshot is
applied to the collection view.

This project models that builder and proves what the snapshot it produces
contains.

- `wrappers.dfy` (`Wrappers`): `Option`, used for the parent argument.
- `outline.dfy` (`Outline`): the node datatype. It also defines
  `isExpandable`, forest size, the pre-order list of all nodes (`Nodes`) and
  distinctness of node identities.
- `section_snapshot.dfy` (`SectionSnapshot`): the section snapshot, seen only
  through `append(_:to:)`. A snapshot is the log of its appends. Its members,
  root list, per-parent child lists and flat item order (`Items`) are read off
  that log. The file also states what the snapshot requires of an append: the
  parent is already present and the items are new.
- `snapshot_builder.dfy` (`SnapshotBuilder`): `AddNodes`, a recursive method
  with a loop that mirrors the Swift nested function step by step. It is proved
  against a closed form of the appends it makes: the batch itself, then
  `ChildBatches(Nodes(children))`, one batch per expandable node in pre-order.
  The file also defines `Batches`, the same recursion written as a function,
  which the properties in the next file are stated about.
- `builder_properties.dfy` (`BuilderProperties`): the theorems about the
  builder. The central one is a closed form: the appends are the root batch,
  then one batch per expandable node in pre-order. From it follow the append
  count, parent attribution, parents-before-children, coverage, and the
  reproduction of the forest's structure and pre-order item list.
- `data_source.dfy` (`OutlineDataSource`): one emission handled from an empty
  snapshot, and a run of emissions of which only the latest is shown.

A node is the datatype value `Node(value, children)`. Its identity is the
whole value, which stands in for the source's `Hashable` requirement on nodes.
The snapshot parent of each node comes from structural containment, the
`child` passed down in the recursion. It never comes from the protocol's
`parent` property, and neither does the source's.

## Model

| member | source | states |
|---|---|---|
| SectionSnapshot.AppendItems | Sources/RxUIKit/UICollectionView+Rx.swift:29 | An append adds exactly the given items to the snapshot. They go, in order, to the end of the root list when there is no parent, or to the end of that parent's child list. Every other list is unchanged. |
| SnapshotBuilder.AddNodes | Sources/RxUIKit/UICollectionView+Rx.swift:28-33 | The recursive builder, run on any starting snapshot, appends `children` under `parent` and then exactly one batch per expandable node of that forest. The batches come in pre-order of their parents, and each holds that node's children in their own order. On the finite trees the model represents, each recursive call is on a strictly smaller forest, so the builder terminates. |
| SnapshotBuilder.ChildBatches | Sources/RxUIKit/UICollectionView+Rx.swift:29-31 | For a list of nodes, one append per expandable node, so as many appends as expandable nodes. Each append holds its parent's own children and names that parent. |
| BuilderProperties.ExpansionsInPreOrder | Sources/RxUIKit/UICollectionView+Rx.swift:30-32 | The descent into the expandable children of a batch makes exactly one append per expandable node below it. The appends come in pre-order of those nodes. |
| BuilderProperties.BatchesInPreOrder | Sources/RxUIKit/UICollectionView+Rx.swift:28-33 | In closed form, `addNodes(cs, to: p)` appends `cs` under `p`, then one batch per expandable node of the forest in pre-order, each holding that node's children in their own order. |
| BuilderProperties.AppendCount | Sources/RxUIKit/UICollectionView+Rx.swift:30-31 | Only expandable children are descended into, so the number of append calls is 1 plus the number of expandable nodes in the forest. |
| BuilderProperties.RootsFirst | Sources/RxUIKit/UICollectionView+Rx.swift:27-35 | The first append places exactly the emitted roots, in their order, with no parent. Nothing else ever lands at top level, so the root list equals the roots. |
| BuilderProperties.AppendedUnderIffExpandable | Sources/RxUIKit/UICollectionView+Rx.swift:14-31 | A node receives an append under it if and only if it is a node of the forest and has at least one child. Every such append holds that node's children, in order. |
| BuilderProperties.ParentsAppendedFirst | Sources/RxUIKit/UICollectionView+Rx.swift:28-32 | Every parent named by an append is already in the snapshot when that append is made. |
| BuilderProperties.BatchesMembers | Sources/RxUIKit/UICollectionView+Rx.swift:28-33 | Under any parent, the items appended for a batch and everything below it are exactly the nodes of that forest, with the same multiplicities. |
| BuilderProperties.MembersCoverForest | Sources/RxUIKit/UICollectionView+Rx.swift:27-35 | For an emitted forest, a node is in the snapshot if and only if it is a node of the forest. The snapshot holds as many items as the forest has nodes. |
| BuilderProperties.EveryNodeOnce | Sources/RxUIKit/UICollectionView+Rx.swift:28-35 | When node identities are distinct, every node of the forest is appended exactly once and nothing else is appended. |
| BuilderProperties.AppendsAccepted | Sources/RxUIKit/UICollectionView+Rx.swift:28-35 | When node identities are distinct, each append meets the snapshot's demands: the parent is present, and the items are pairwise distinct and not yet present. |
| BuilderProperties.ChildListReproduced | Sources/RxUIKit/UICollectionView+Rx.swift:29-31 | When node identities are distinct, the child list recorded for a node is its own children when it belongs to the forest, and empty otherwise. |
| BuilderProperties.StructureReproduced | Sources/RxUIKit/UICollectionView+Rx.swift:28-35 | When node identities are distinct, the snapshot's root list is the emitted roots and every node of the forest has its own children as its child list. The parent-to-children structure reproduces the forest; `ChildListReproduced` adds that nodes outside it have no children. |
| BuilderProperties.ItemsFollowForest | Sources/RxUIKit/UICollectionView+Rx.swift:27-36 | A snapshot whose root list and child lists agree with a forest, and which holds as many items as the forest has nodes, lists its items in that forest's pre-order. |
| BuilderProperties.ItemsInPreOrder | Sources/RxUIKit/UICollectionView+Rx.swift:27-36 | When node identities are distinct, the built snapshot's flat item list is the forest in pre-order: each node is followed by its whole subtree before its next sibling. |
| BuilderProperties.RepeatedNodesMergeChildLists | Sources/RxUIKit/UICollectionView+Rx.swift:28-33 | The distinct-identity requirement is needed. When the forest `[a, a]` repeats a tree `a = Node(0, [b])`, both batches under `a` merge into the child list `[b, b]`, and the item list `[a, b, b, a, b, b]` differs from the pre-order `[a, b, a, b]`. |
| OutlineDataSource.SnapshotForEmission | Sources/RxUIKit/UICollectionView+Rx.swift:26-36 | One emission is built from an empty snapshot, so the result is a function of the emitted roots alone, and equal forests give equal snapshots. The first append is the roots at top level, and the root list equals the roots. |
| OutlineDataSource.ApplyEmissions | Sources/RxUIKit/UICollectionView+Rx.swift:25-39 | After a run of emissions, the snapshot last applied is the one built from the latest forest alone, and nothing is applied before the first emission. No state carries over between emissions. |

## Left out

- RxSwift/RxCocoa plumbing is not modelled: `Binder(self)`, `.on(observedEvent)`, and error and completion events. Only `next` events are modelled, as `ApplyEmissions`.
- `target.apply(snapshot, to: .main, animatingDifferences: false)` and the diffing and rendering inside UIKit are library code that is not visible here. The model stops at the built snapshot. `SectionSnapshot.Items` is the snapshot's flat list of all items, roots each followed by their whole subtree; it is not what is on screen.
- Expansion state is not modelled. The builder never calls `expand(_:)`, and items appended under a parent start collapsed, so after `apply` only the root items are visible until the user expands a node.
- Cyclic or unbounded node graphs cannot be represented: `Node` is an inductive datatype, so every modelled forest is finite and acyclic. A class adopting `OutlineNodeType` whose `children` leads back to the node, or a computed `children` with no bound, makes `addNodes` recurse without end. The termination that `AddNodes` proves holds only for finite trees.
- Duplicate node identities are handled by UIKit, not by this code. The properties that need distinct identities require `DistinctNodes` instead of modelling that behaviour. `BatchesMembers`, `MembersCoverForest` and `ParentsAppendedFirst` hold for any forest.
- `Reactive.nodes(source:)` is a thin wrapper. It constructs the data source and hands it to RxCocoa's `items(dataSource:)`, so there is no logic to model.
- The protocol's `parent` property is declared but never read by the builder, and it is not modelled.
- The `OutlineSection` enum, the `#if canImport(UIKit)` and `@available` gating, and `Package.swift` are configuration and are not modelled.
- A user-written `Hashable` conformance that ignores some fields is not modelled. Node identity here is value equality of the whole node.
- `SectionSnapshot.Items` walks the snapshot with a depth bound equal to its number of items, so that the walk is total on any log. For snapshots built from a forest of distinct nodes, `Items` is then the forest's pre-order, as `ItemsInPreOrder` proves. With repeated nodes it is not, as `RepeatedNodesMergeChildLists` shows: for the forest `[a, a]` with `a = Node(0, [b])`, both batches under `a` land in one child list `[b, b]`, so `Items` is `[a, b, b, a, b, b]` rather than `[a, b, a, b]`.
