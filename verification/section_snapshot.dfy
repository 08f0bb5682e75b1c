/**
  The section snapshot that the outline builder fills, seen only through its
  `append(_:to:)` operation. A snapshot is held as the log of the appends made
  to it since it was created empty; its root list, its per-parent child lists
  and its flat item order are all read off that log.
 */
module SectionSnapshot {
  import opened Wrappers
  import opened Outline

  /** One `append(_:to:)` call: `items`, in order, go to the end of the child
      list of `parent`, or to the end of the root list when there is no parent. */
  datatype Append<T> = Append(items: seq<Node<T>>, parent: Option<Node<T>>)

  type Snapshot<T> = seq<Append<T>>

  /** Every item of the snapshot, in the order the items were appended. */
  function Members<T>(s: Snapshot<T>): seq<Node<T>> {
    if |s| == 0 then [] else s[0].items + Members(s[1..])
  }

  /** The top-level items, in order. */
  function RootItems<T>(s: Snapshot<T>): seq<Node<T>> {
    if |s| == 0 then []
    else (if s[0].parent.None? then s[0].items else []) + RootItems(s[1..])
  }

  /** The items appended under `n`, in order. */
  function ChildrenOf<T(==)>(s: Snapshot<T>, n: Node<T>): seq<Node<T>> {
    if |s| == 0 then []
    else (if s[0].parent == Some(n) then s[0].items else []) + ChildrenOf(s[1..], n)
  }

  lemma {:induction false} MembersConcat<T>(a: Snapshot<T>, b: Snapshot<T>)
    ensures Members(a + b) == Members(a) + Members(b)
    decreases |a|
  {
    if |a| == 0 {
      assert a + b == b;
    } else {
      assert (a + b)[1..] == a[1..] + b;
      MembersConcat(a[1..], b);
    }
  }

  lemma {:induction false} RootItemsConcat<T>(a: Snapshot<T>, b: Snapshot<T>)
    ensures RootItems(a + b) == RootItems(a) + RootItems(b)
    decreases |a|
  {
    if |a| == 0 {
      assert a + b == b;
    } else {
      assert (a + b)[1..] == a[1..] + b;
      RootItemsConcat(a[1..], b);
    }
  }

  lemma {:induction false} ChildrenOfConcat<T>(a: Snapshot<T>, b: Snapshot<T>, n: Node<T>)
    ensures ChildrenOf(a + b, n) == ChildrenOf(a, n) + ChildrenOf(b, n)
    decreases |a|
  {
    if |a| == 0 {
      assert a + b == b;
    } else {
      assert (a + b)[1..] == a[1..] + b;
      ChildrenOfConcat(a[1..], b, n);
    }
  }

  /** `append(items, to: parent)`: the snapshot grows by exactly `items`, which
      land at the end of the root list or of `parent`'s child list, and every
      other list is left as it was. */
  function AppendItems<T(==,!new)>(s: Snapshot<T>, items: seq<Node<T>>, parent: Option<Node<T>>): (r: Snapshot<T>)
    ensures Members(r) == Members(s) + items
    ensures RootItems(r) == RootItems(s) + (if parent.None? then items else [])
    ensures forall n :: ChildrenOf(r, n) == ChildrenOf(s, n) + (if parent == Some(n) then items else [])
  {
    var a := [Append(items, parent)];
    MembersConcat(s, a);
    RootItemsConcat(s, a);
    assert Members(a) == items;
    assert forall n :: ChildrenOf(s + a, n) == ChildrenOf(s, n) + (if parent == Some(n) then items else []) by {
      forall n
        ensures ChildrenOf(s + a, n) == ChildrenOf(s, n) + (if parent == Some(n) then items else [])
      {
        ChildrenOfConcat(s, a, n);
        assert ChildrenOf(a, n) == (if parent == Some(n) then items else []) + ChildrenOf([], n);
      }
    }
    s + a
  }

  /** The parent named by `a`, if any, is already an item of `s`. */
  predicate ParentPresent<T(==)>(s: Snapshot<T>, a: Append<T>) {
    a.parent.Some? ==> a.parent.value in Members(s)
  }

  /** What a section snapshot demands of an append: the parent is already an
      item, and the new items are pairwise distinct and not yet items. */
  predicate Accepts<T(==)>(s: Snapshot<T>, a: Append<T>) {
    && ParentPresent(s, a)
    && NoDuplicates(a.items)
    && (forall x | x in a.items :: x !in Members(s))
  }

  /** Every parent named in `log` is present by the time its append is made on top of `s`. */
  predicate ParentsFirst<T(==)>(s: Snapshot<T>, log: Snapshot<T>)
    decreases |log|
  {
    |log| == 0 || (ParentPresent(s, log[0]) && ParentsFirst(s + [log[0]], log[1..]))
  }

  /** Every append of `log`, made in order on top of `s`, is accepted. */
  predicate AcceptsAll<T(==)>(s: Snapshot<T>, log: Snapshot<T>)
    decreases |log|
  {
    |log| == 0 || (Accepts(s, log[0]) && AcceptsAll(s + [log[0]], log[1..]))
  }

  lemma {:induction false} ParentsFirstConcat<T>(s: Snapshot<T>, a: Snapshot<T>, b: Snapshot<T>)
    ensures ParentsFirst(s, a + b) <==> ParentsFirst(s, a) && ParentsFirst(s + a, b)
    decreases |a|
  {
    if |a| == 0 {
      assert a + b == b;
      assert s + a == s;
    } else {
      assert (a + b)[0] == a[0];
      assert (a + b)[1..] == a[1..] + b;
      assert s + [a[0]] + a[1..] == s + a;
      ParentsFirstConcat(s + [a[0]], a[1..], b);
    }
  }

  /** The middle part of a sequence without duplicates has none either and
      shares nothing with the part before it. */
  lemma NoDuplicatesMiddle<X>(p: seq<X>, q: seq<X>, r: seq<X>)
    requires NoDuplicates(p + q + r)
    ensures NoDuplicates(q)
    ensures forall x | x in q :: x !in p
  {
    var m := p + q + r;
    forall i, j | 0 <= i < j < |q|
      ensures q[i] != q[j]
    {
      assert q[i] == m[|p| + i] && q[j] == m[|p| + j];
    }
    forall x | x in q
      ensures x !in p
    {
      var j :| 0 <= j < |q| && q[j] == x;
      forall i | 0 <= i < |p|
        ensures p[i] != x
      {
        assert p[i] == m[i] && x == m[|p| + j];
      }
    }
  }

  /** A log that names its parents first and whose items are all distinct from
      each other and from the items of `s` is accepted append by append. */
  lemma {:induction false} DistinctItemsAccepted<T>(s: Snapshot<T>, log: Snapshot<T>)
    requires ParentsFirst(s, log)
    requires NoDuplicates(Members(s + log))
    ensures AcceptsAll(s, log)
    decreases |log|
  {
    if |log| > 0 {
      var s' := s + [log[0]];
      assert s' + log[1..] == s + log;
      MembersConcat(s, log);
      assert Members(log) == log[0].items + Members(log[1..]);
      assert Members(s + log) == Members(s) + log[0].items + Members(log[1..]);
      NoDuplicatesMiddle(Members(s), log[0].items, Members(log[1..]));
      DistinctItemsAccepted(s', log[1..]);
    }
  }

  /** The items shown for `xs` and, depth-first, the children recorded for each
      of them; `fuel` bounds the depth so that a cyclic log still yields a value. */
  function Walk<T(==)>(s: Snapshot<T>, xs: seq<Node<T>>, fuel: nat): seq<Node<T>>
    decreases fuel, |xs|
  {
    if fuel == 0 || |xs| == 0 then []
    else [xs[0]] + Walk(s, ChildrenOf(s, xs[0]), fuel - 1) + Walk(s, xs[1..], fuel)
  }

  /** All of the snapshot's items in order, whether expanded or collapsed: each
      root followed by its whole subtree. For a snapshot without repeated items
      no chain of parents is longer than the number of items, so that number is
      enough fuel. */
  function Items<T(==)>(s: Snapshot<T>): seq<Node<T>> {
    Walk(s, RootItems(s), |Members(s)|)
  }
}
