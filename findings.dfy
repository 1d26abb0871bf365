/** deleteAtLeafAndRebalance as written, on the three places where it departs
    from what deletion in a B+ tree evidently means to do; the tree's own
    Delete (module Tree) does the intended thing in each case. */
module Findings {
  import opened Outcomes
  import opened Keys
  import opened Seqs
  import opened OrderedMap
  import opened Nodes
  import opened Invariant
  import opened TreeFacts

  // ------------------------------------------------------------ the root leaf

  /** How the first lines of deleteAtLeafAndRebalance end: the key is not in
      the leaf, or pointerPositionOf is called on a nil parent, or the
      rebalancing lines below are reached. */
  datatype Opening = KeyAbsent | NilParent | Reached

  /** deleteAtLeafAndRebalance(n, key) as written up to its parent check:
      keyPosition, then n.parent.pointerPositionOf(n), which ranges over the
      parent's pointers before the code asks whether there is a parent. */
  function OpeningAsWritten(n: Node, key: Bytes): Opening
    requires n.WellSized()
  {
    if key !in n.Keys() then KeyAbsent
    else if n.parent.None? then NilParent
    else Reached
  }

  /** In every tree whose root is a leaf, deleting a key it holds
      dereferences the nil parent: the branch for a root leaf, which empties
      the tree when its last key goes, is never reached. */
  lemma RootLeafDeleteAsWritten(t: State, sh: Shape, es: seq<Entry>, key: Bytes)
    requires Sealed(t, sh, NoPending, es) && t.root.Some?
    requires t.root.value < |t.nodes| && t.nodes[t.root.value].leaf && t.nodes[t.root.value].WellSized()
    requires key in t.nodes[t.root.value].Keys()
    ensures OpeningAsWritten(t.nodes[t.root.value], key) == NilParent
  {
    Unseal(t, sh, NoPending, es);
  }

  // ------------------------------------------------------------ borrowing

  /** What a rebalancing step leaves: the parent and the two leaves, or a panic. */
  datatype Outcome = Panic(reason: string) | Done(parent: Node, left: Node, right: Node)

  /** The left borrow as written: n is the leaf after its key was deleted,
      x its left sibling at slot leafPointerPos - 1 of the parent p. The last
      entry of x moves to the front of n and the separator becomes n's first
      key; tryMerge stays true, so the merge branch runs as well: the
      parent loses that separator through deleteAt, and panics when it falls
      below minKeyNum. */
  function LeftBorrowAsWritten(minKeyNum: int, p: Node, x: Node, n: Node, leafPointerPos: int): Outcome
    requires p.WellSized() && x.WellSized() && n.WellSized() && !p.leaf
    requires 1 <= leafPointerPos <= p.keyNum && 1 <= x.keyNum && n.keyNum < |n.keys|
  {
    var lkp := leafPointerPos - 1;
    var n1 := Inserted(n, 0, x.keys[x.keyNum - 1], x.pointers[x.keyNum - 1]);
    var x1 := Deleted(x, x.keyNum - 1);
    var p1 := p.(keys := p.keys[lkp := n1.keys[0]]);
    var p2 := Deleted(p1, lkp);
    if p2.keyNum < minKeyNum then Panic("not implemented parent.keyNum < t.minKeyNum")
    else Done(p2, x1, n1)
  }

  /** A successful left borrow never leaves the parent as it should: it
      panics when the parent had minKeyNum keys, and otherwise the parent no
      longer points to one of the two leaves, both of which still hold
      entries: to the left sibling when the leaf is at slot 1 (deleteAt(0)
      drops pointer 0), else to the leaf itself. Either way the entries of
      that leaf can no longer be reached from the root. */
  lemma LeftBorrowAsWrittenDropsLeaf(minKeyNum: int, p: Node, x: Node, n: Node, leafPointerPos: int)
    requires p.WellSized() && x.WellSized() && n.WellSized() && !p.leaf
    requires 1 <= leafPointerPos <= p.keyNum && 1 <= x.keyNum && n.keyNum < |n.keys|
    requires 1 <= minKeyNum < x.keyNum
    requires forall a, b :: 0 <= a < b <= p.keyNum ==> p.pointers[a] != p.pointers[b]
    ensures var r := LeftBorrowAsWritten(minKeyNum, p, x, n, leafPointerPos);
            && (r.Panic? <==> p.keyNum <= minKeyNum)
            && (r.Done? ==>
                  var lost := if leafPointerPos == 1 then 0 else leafPointerPos;
                  && p.Kids()[lost] !in r.parent.Kids()
                  && r.left.keyNum >= 1 && r.right.keyNum >= 1)
  {
    var lkp := leafPointerPos - 1;
    var n1 := Inserted(n, 0, x.keys[x.keyNum - 1], x.pointers[x.keyNum - 1]);
    var p1 := p.(keys := p.keys[lkp := n1.keys[0]]);
    var p2 := Deleted(p1, lkp);
    var lost := if leafPointerPos == 1 then 0 else leafPointerPos;
    assert p1.Kids() == p.Kids();
    assert p2.Kids() == SeqRemove(p.Kids(), lost);
    if p.Kids()[lost] in p2.Kids() {
      var j := IndexOf(p2.Kids(), p.Kids()[lost]);
      if j < lost {
        assert p.pointers[j] == p.pointers[lost];
      } else {
        assert p.pointers[lost] == p.pointers[j + 1];
      }
    }
  }

  /** findLeaf's choice of child in node n for key: past every key not
      above it, and stopping at the first key above it. */
  predicate Routes(n: Node, key: Bytes, position: int)
    requires n.WellSized()
  {
    && 0 <= position <= n.keyNum
    && (forall j :: 0 <= j < position ==> !Less(key, n.keys[j]))
    && (position < n.keyNum ==> Less(key, n.keys[position]))
  }

  /** The right borrow as written: n is the leaf after its key was deleted,
      y its right sibling at slot leafPointerPos + 1 of the parent p. The
      first entry of y moves to the end of n, and y's new first key is
      written to parent key max(leafPointerPos - 1, 0). */
  function RightBorrowAsWritten(p: Node, n: Node, y: Node, leafPointerPos: int): Outcome
    requires p.WellSized() && n.WellSized() && y.WellSized()
    requires 0 <= leafPointerPos < p.keyNum && 2 <= y.keyNum && n.keyNum < |n.keys|
  {
    var lkp := if leafPointerPos - 1 < 0 then 0 else leafPointerPos - 1;
    var n1 := Appended(n, y.keys[0], y.pointers[0]);
    var y1 := Deleted(y, 0);
    Done(p.(keys := p.keys[lkp := y1.keys[0]]), n1, y1)
  }

  /** Unless the leaf is the parent's first child, the right borrow writes
      the new separator one slot too far left: the parent's keys stop being
      ascending, the separator right of the leaf is left as it was, and the
      key moved into the leaf routes, by findLeaf's rule, to a child left of
      the leaf, so Get no longer finds it. */
  lemma RightBorrowAsWrittenMisroutes(p: Node, n: Node, y: Node, leafPointerPos: int)
    requires p.WellSized() && n.WellSized() && y.WellSized()
    requires 1 <= leafPointerPos < p.keyNum && 2 <= y.keyNum && n.keyNum < |n.keys|
    requires Ascending(y.Keys()) && !Less(y.keys[0], p.keys[leafPointerPos])
    ensures var r := RightBorrowAsWritten(p, n, y, leafPointerPos);
            && r.Done?
            && r.left.keys[n.keyNum] == y.keys[0]
            && r.parent.keys[leafPointerPos] == p.keys[leafPointerPos]
            && !Ascending(r.parent.Keys())
            && forall position :: Routes(r.parent, y.keys[0], position) ==> position < leafPointerPos
  {
    var r := RightBorrowAsWritten(p, n, y, leafPointerPos);
    var p1, m := r.parent, y.keys[0];
    assert Less(y.Keys()[0], y.Keys()[1]);
    assert p1.keys[leafPointerPos - 1] == y.keys[1];
    LessTotal(m, p.keys[leafPointerPos]);
    if m != p.keys[leafPointerPos] {
      LessTransitive(p.keys[leafPointerPos], m, y.keys[1]);
    }
    assert Less(p1.Keys()[leafPointerPos], p1.Keys()[leafPointerPos - 1]);
    LessTotal(p1.keys[leafPointerPos], p1.keys[leafPointerPos - 1]);
    forall position | Routes(p1, m, position) ensures position < leafPointerPos {
      if position >= leafPointerPos {
        assert false;
      }
    }
  }
}
