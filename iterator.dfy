/** The iterator of iterator.go: a cursor (next, i) on the leaf chain,
    slot i of leaf next, which yields the tree's entries in ascending key
    order one at a time, and ForEach, which runs one over the whole tree. */
module Iteration {
  import opened Outcomes
  import opened Keys
  import opened OrderedMap
  import opened Chain
  import opened Nodes
  import opened Invariant
  import opened TreeFacts
  import opened Tree

  // ------------------------------------------------------------ the cursor on values

  /** The entries of the first a leaves of the chain. */
  ghost function Before(t: State, sh: Shape, a: nat): seq<Entry>
    requires a <= |sh.leaves|
  {
    Flatten(SegsOf(t, sh, sh.leaves)[..a])
  }

  /** Cursor (next, i) stands at the a-th leaf of the chain, after the first
      `consumed` entries of the tree: at slot i of that leaf, which is in
      use, or, past the last leaf, at nothing or at an empty leaf. */
  ghost predicate Cursor(t: State, sh: Shape, next: Option<NodeId>, i: int, a: nat, consumed: nat) {
    && a <= |sh.leaves|
    && (a < |sh.leaves| ==>
          && next == Some(sh.leaves[a]) && sh.leaves[a] < |t.nodes| && t.nodes[sh.leaves[a]].WellSized()
          && 0 <= i < t.nodes[sh.leaves[a]].keyNum && consumed == |Before(t, sh, a)| + i)
    && (a == |sh.leaves| ==>
          && i == 0 && consumed == |Before(t, sh, a)|
          && (next.Some? ==> next.value < |t.nodes| && t.nodes[next.value].keyNum == 0))
  }

  /** Below every live node there is a leaf, so a tree with a root has one. */
  lemma LeafBelow(t: State, sh: Shape, x: NodeId)
    requires Inv(t, sh, NoPending) && x < |t.nodes| && x !in sh.dead
    ensures sh.leaves != []
    decreases sh.height[x]
  {
    assert NodeOK(t, sh, NoPending, x);
    if !t.nodes[x].leaf {
      assert KidOK(t, sh, NoPending, x, 0);
      LeafBelow(t, sh, t.nodes[x].pointers[0].id);
    }
  }

  /** Iterator(): the cursor at slot 0 of the leftmost leaf is at the start
      of the contents. */
  lemma CursorStart(t: State, sh: Shape, es: seq<Entry>)
    requires Sealed(t, sh, NoPending, es)
    ensures Cursor(t, sh, t.leftmost, 0, 0, 0)
  {
    Unseal(t, sh, NoPending, es);
    var ls := sh.leaves;
    assert Before(t, sh, 0) == [];
    if ls != [] {
      assert NodeOK(t, sh, NoPending, ls[0]);
    } else if t.root.Some? {
      LeafBelow(t, sh, t.root.value);
    }
  }

  /** Before(a) followed by the entries from leaf a on is the contents. */
  lemma BeforeAround(t: State, sh: Shape, es: seq<Entry>, a: nat)
    requires Sealed(t, sh, NoPending, es) && a < |sh.leaves|
    ensures sh.leaves[a] < |t.nodes| && t.nodes[sh.leaves[a]].WellSized()
    ensures t.nodes[sh.leaves[a]].keyNum >= 1
    ensures es == Before(t, sh, a) + t.nodes[sh.leaves[a]].Entries() + Flatten(SegsOf(t, sh, sh.leaves)[a + 1..])
    ensures Before(t, sh, a + 1) == Before(t, sh, a) + t.nodes[sh.leaves[a]].Entries()
  {
    Unseal(t, sh, NoPending, es);
    var ss := SegsOf(t, sh, sh.leaves);
    assert NodeOK(t, sh, NoPending, sh.leaves[a]);
    FlattenAround(ss, a);
    FlattenSnoc(ss, a);
  }

  /** HasNext: the cursor is on an entry exactly when entries are left. */
  lemma CursorHasNext(t: State, sh: Shape, es: seq<Entry>, next: Option<NodeId>, i: int, a: nat, consumed: nat)
    requires Sealed(t, sh, NoPending, es) && Cursor(t, sh, next, i, a, consumed)
    ensures next.Some? ==> next.value < |t.nodes|
    ensures (next.Some? && next.value < |t.nodes| && i < t.nodes[next.value].keyNum) <==> consumed < |es|
    ensures consumed <= |es|
  {
    var ss := SegsOf(t, sh, sh.leaves);
    if a < |sh.leaves| {
      BeforeAround(t, sh, es, a);
    } else {
      Unseal(t, sh, NoPending, es);
      assert ss[..a] == ss;
    }
  }

  /** The leaf after the a-th one on the chain: the one its link names,
      holding some entries, or none when the a-th leaf is the last. */
  lemma ChainNext(t: State, sh: Shape, es: seq<Entry>, a: nat)
    requires Sealed(t, sh, NoPending, es) && a < |sh.leaves|
    ensures sh.leaves[a] < |t.nodes|
    ensures var ls, n := sh.leaves, t.nodes[sh.leaves[a]];
            && (a + 1 < |ls| ==> n.Next() == Child(ls[a + 1]) && ls[a + 1] < |t.nodes|
                                   && t.nodes[ls[a + 1]].WellSized() && t.nodes[ls[a + 1]].keyNum >= 1)
            && (a + 1 == |ls| ==> n.Next() == Nil)
  {
    Unseal(t, sh, NoPending, es);
    if a + 1 < |sh.leaves| {
      assert NodeOK(t, sh, NoPending, sh.leaves[a + 1]);
    }
  }

  /** Element i of e, in the middle of a concatenation. */
  lemma ConcatAt<T>(b: seq<T>, e: seq<T>, r: seq<T>, i: int)
    requires 0 <= i < |e|
    ensures (b + e + r)[|b| + i] == e[i]
  {
  }

  /** On a slot in use, the cursor is at a leaf of the chain. */
  lemma CursorOnChain(t: State, sh: Shape, next: Option<NodeId>, i: int, a: nat, consumed: nat)
    requires Cursor(t, sh, next, i, a, consumed)
    requires next.Some? && next.value < |t.nodes| && i < t.nodes[next.value].keyNum
    ensures a < |sh.leaves| && next == Some(sh.leaves[a])
  {
  }

  /** Next: the entry under the cursor is the next one of the contents. */
  lemma CursorEntry(t: State, sh: Shape, es: seq<Entry>, next: Option<NodeId>, i: int, a: nat, consumed: nat)
    requires Sealed(t, sh, NoPending, es) && Cursor(t, sh, next, i, a, consumed)
    requires next.Some? && next.value < |t.nodes| && i < t.nodes[next.value].keyNum
    ensures consumed < |es| && t.nodes[next.value].WellSized()
    ensures es[consumed] == Entry(t.nodes[next.value].keys[i], ValueOf(t.nodes[next.value].pointers[i]))
  {
    CursorOnChain(t, sh, next, i, a, consumed);
    BeforeAround(t, sh, es, a);
    var n := t.nodes[next.value];
    ConcatAt(Before(t, sh, a), n.Entries(), Flatten(SegsOf(t, sh, sh.leaves)[a + 1..]), i);
  }

  /** Next: one step on, within the leaf, or to the first slot of the next
      leaf of the chain, or past the last one, the cursor is after the
      entry it was on. */
  lemma CursorStep(t: State, sh: Shape, es: seq<Entry>, next: Option<NodeId>, i: int, a: nat, consumed: nat)
    requires Sealed(t, sh, NoPending, es) && Cursor(t, sh, next, i, a, consumed)
    requires next.Some? && next.value < |t.nodes| && i < t.nodes[next.value].keyNum
    ensures var n := t.nodes[next.value];
            && (i + 1 < n.keyNum ==> Cursor(t, sh, next, i + 1, a, consumed + 1))
            && (i + 1 == n.keyNum ==> n.Next() == Nil || n.Next().Child?)
            && (i + 1 == n.keyNum && n.Next() == Nil ==> Cursor(t, sh, None, 0, a + 1, consumed + 1))
            && (i + 1 == n.keyNum && n.Next().Child? ==> Cursor(t, sh, Some(n.Next().id), 0, a + 1, consumed + 1))
  {
    CursorOnChain(t, sh, next, i, a, consumed);
    var n := t.nodes[next.value];
    if i + 1 == n.keyNum {
      BeforeAround(t, sh, es, a);
      ChainNext(t, sh, es, a);
      assert |Before(t, sh, a + 1)| == consumed + 1;
    }
  }

  // ------------------------------------------------------------ Iterator

  class Iterator {
    /** The tree whose arena the cursor walks. */
    const tree: BPTree
    /** The leaf the cursor is on, or none when it has gone past the last. */
    var next: Option<NodeId>
    /** The slot of that leaf the cursor is on. */
    var i: int
    /** The position of `next` in the leaf chain. */
    ghost var leaf: nat
    /** How many entries have been yielded. */
    ghost var consumed: nat

    ghost predicate Valid()
      reads this, tree
    {
      tree.Valid() && Cursor(tree.Fields(), tree.shape, next, i, leaf, consumed)
    }

    /** Iterator(): a cursor at slot 0 of the leftmost leaf, before every
        entry of the tree. */
    constructor (t: BPTree)
      requires t.Valid()
      ensures tree == t && Valid() && consumed == 0
      ensures next == t.leftmost && i == 0
    {
      tree := t;
      next := t.leftmost;
      i := 0;
      leaf := 0;
      consumed := 0;
      new;
      CursorStart(t.Fields(), t.shape, t.contents);
    }

    /** HasNext(): the cursor is on a slot in use, exactly when some
        entry has not been yielded yet. */
    function HasNext(): (b: bool)
      reads this, tree
      requires Valid()
      ensures b <==> consumed < |tree.contents|
    {
      CursorHasNext(tree.Fields(), tree.shape, tree.contents, next, i, leaf, consumed);
      next.Some? && i < tree.nodes[next.value].keyNum
    }

    /** Next(): the key and value of the next entry in key order, with the
        cursor moved past it; Failure, and the cursor left where it is, when
        every entry has been yielded. */
    method Next() returns (r: Result<(Bytes, Bytes)>)
      requires Valid()
      modifies this
      ensures Valid()
      ensures r.Failure? <==> old(consumed) == |tree.contents|
      ensures r.Failure? ==> r.error == "there is no next node" && consumed == old(consumed)
      ensures r.Success? ==> consumed == old(consumed) + 1
      ensures r.Success? ==> old(consumed) < |tree.contents| && tree.contents[old(consumed)] == Entry(r.value.0, r.value.1)
    {
      ghost var t, sh, es := tree.Fields(), tree.shape, tree.contents;
      CursorHasNext(t, sh, es, next, i, leaf, consumed);
      if !HasNext() {
        return Failure("there is no next node");
      }
      CursorEntry(t, sh, es, next, i, leaf, consumed);
      CursorStep(t, sh, es, next, i, leaf, consumed);
      var n := tree.nodes[next.value];
      var key, value := n.keys[i], ValueOf(n.pointers[i]);
      i := i + 1;
      consumed := consumed + 1;
      if i == n.keyNum {
        var nextPointer := n.Next();
        if nextPointer != Nil {
          next := Some(nextPointer.id);
        } else {
          next := None;
        }
        i := 0;
        leaf := leaf + 1;
      }
      return Success((key, value));
    }
  }

  /** ForEach(action): an iterator run to the end; the calls of action are
      the entries visited, in order, which are the tree's contents, sorted
      by key. */
  method ForEach(t: BPTree) returns (visited: seq<Entry>)
    requires t.Valid()
    ensures visited == t.contents && Sorted(visited)
  {
    SealedSorted(t.Fields(), t.shape, NoPending, t.contents);
    var it := new Iterator(t);
    visited := [];
    while it.HasNext()
      invariant it.Valid() && it.tree == t
      invariant it.consumed <= |t.contents| && visited == t.contents[..it.consumed]
      decreases |t.contents| - it.consumed
    {
      var r := it.Next();
      visited := visited + [Entry(r.value.0, r.value.1)];
    }
    assert t.contents[..it.consumed] == t.contents;
  }
}
