/** The steps that absorb a pending split into the level above:
    putIntoNewRoot, which grows the tree by a level, putIntoParent, which
    adds the new child to a parent with room, and putIntoParentAndSplit,
    which splits a full parent and leaves that split pending in turn. None
    of them changes a leaf's entries, so the contents stay as they are. */
module ParentSteps {
  import opened Outcomes
  import opened Keys
  import opened Seqs
  import opened OrderedMap
  import opened Chain
  import opened Nodes
  import opened Invariant
  import opened LeafSteps
  import opened SplitSteps
  import opened Config

  /** x.parent = g. */
  function WithParent(ns: seq<Node>, x: NodeId, g: NodeId): (ns': seq<Node>)
    requires x < |ns|
    ensures |ns'| == |ns| && ns'[x].parent == Some(g)
  {
    ns[x := ns[x].(parent := Some(g))]
  }

  // ------------------------------------------------------------ the pending split's parent

  /** The child ranges of a node lie within its own range. */
  lemma SlotBounds(n: Node, lo: Bound, hi: Bound, j: int)
    requires n.WellSized() && 0 <= j <= n.keyNum
    requires forall i :: 0 <= i < n.keyNum ==> InRange(n.keys[i], lo, hi)
    ensures BoundLe(lo, SlotLo(n, lo, j)) && BoundLe(SlotHi(n, hi, j), hi)
  {
  }

  /** A child's range as its parent's slot gives it is not empty. */
  lemma EffRange(t: State, sh: Shape, pd: Pending, x: NodeId)
    requires Fits(t, sh, pd) && PendingOK(t, sh, pd) && x < |t.nodes| && NodeOK(t, sh, pd, x)
    requires IsLeft(pd, x) ==> NodeOK(t, sh, pd, pd.right)
    ensures BoundLess(sh.lo[x], EffHi(sh, pd, x))
  {
    if IsLeft(pd, x) {
      BoundLessTransitive(sh.lo[x], sh.hi[x], sh.hi[pd.right]);
    }
  }

  /** Every live node's slot range is non-empty. */
  lemma AllEffRange(t: State, sh: Shape, pd: Pending)
    requires Fits(t, sh, pd) && PendingOK(t, sh, pd) && AllNodesOK(t, sh, pd)
    ensures forall x :: 0 <= x < |t.nodes| && x !in sh.dead ==> BoundLess(sh.lo[x], EffHi(sh, pd, x))
  {
    forall x | 0 <= x < |t.nodes| && x !in sh.dead ensures BoundLess(sh.lo[x], EffHi(sh, pd, x)) {
      EffRange(t, sh, pd, x);
    }
  }

  /** No node is listed in two child slots of the same parent. */
  lemma KidsDistinct(t: State, sh: Shape, pd: Pending, i: NodeId)
    requires Fits(t, sh, pd) && i < |t.nodes| && NodeOK(t, sh, pd, i) && !t.nodes[i].leaf
    requires forall x :: 0 <= x < |t.nodes| && x !in sh.dead ==> BoundLess(sh.lo[x], EffHi(sh, pd, x))
    ensures forall s1, s2 :: 0 <= s1 < s2 <= t.nodes[i].keyNum ==> t.nodes[i].pointers[s1] != t.nodes[i].pointers[s2]
  {
    var n := t.nodes[i];
    forall s1, s2 | 0 <= s1 < s2 <= n.keyNum ensures n.pointers[s1] != n.pointers[s2] {
      KidPairDistinct(t, sh, pd, i, s1, s2);
    }
  }

  lemma KidPairDistinct(t: State, sh: Shape, pd: Pending, i: NodeId, s1: int, s2: int)
    requires Fits(t, sh, pd) && i < |t.nodes| && NodeOK(t, sh, pd, i) && !t.nodes[i].leaf
    requires 0 <= s1 < s2 <= t.nodes[i].keyNum
    requires forall x :: 0 <= x < |t.nodes| && x !in sh.dead ==> BoundLess(sh.lo[x], EffHi(sh, pd, x))
    ensures t.nodes[i].pointers[s1] != t.nodes[i].pointers[s2]
  {
    var n := t.nodes[i];
    assert KidOK(t, sh, pd, i, s1) && KidOK(t, sh, pd, i, s2);
    var x := n.pointers[s1].id;
    assert BoundLess(sh.lo[x], EffHi(sh, pd, x));
    assert BoundLe(At(n.keys[s1]), At(n.keys[s2 - 1])) by {
      if s1 < s2 - 1 {
        assert n.keys[s1] == n.Keys()[s1];
        assert n.keys[s2 - 1] == n.Keys()[s2 - 1];
      }
    }
    if n.pointers[s1] == n.pointers[s2] {
      BoundOrder(At(n.keys[s1]), sh.lo[x], EffHi(sh, pd, x));
    }
  }

  /** What the invariant says of the parent p of a pending split of l into
      l and r at key: p is a live internal node, l sits in its slot j, and j
      is where a scan for the first key above key stops. */
  lemma PendingSlot(t: State, sh: Shape, pd: Pending) returns (j: int)
    requires Inv(t, sh, pd) && pd.Split? && pd.parent.Some?
    ensures var p, n := pd.parent.value, t.nodes[pd.parent.value];
            && p < |t.nodes| && p !in sh.dead && !n.leaf && NodeOK(t, sh, pd, p)
            && 0 <= j <= n.keyNum && n.pointers[j] == Child(pd.left)
            && sh.lo[pd.left] == SlotLo(n, sh.lo[p], j) && sh.hi[pd.right] == SlotHi(n, sh.hi[p], j)
            && sh.height[pd.left] + 1 == sh.height[p]
            && (forall i :: 0 <= i < j ==> Less(n.keys[i], pd.key))
            && (j < n.keyNum ==> Less(pd.key, n.keys[j]))
            && BoundLess(sh.lo[pd.left], At(pd.key)) && BoundLess(At(pd.key), sh.hi[pd.right])
  {
    var l, r, p := pd.left, pd.right, pd.parent.value;
    var n := t.nodes[p];
    assert && p < |t.nodes| && p !in sh.dead && NodeOK(t, sh, pd, p) && Child(l) in n.Kids()
           && BoundLess(sh.lo[l], At(pd.key)) && BoundLess(At(pd.key), sh.hi[r]) by {
      assert NodeOK(t, sh, pd, l) && NodeOK(t, sh, pd, r);
      assert ParentOK(t, sh, pd, l);
    }
    j := IndexOf(n.Kids(), Child(l));
    assert KidOK(t, sh, pd, p, j);
    BelowSlot(n, sh.lo[p], j, pd.key);
  }

  /** Every key before slot j lies below a key above the slot's lower end. */
  lemma BelowSlot(n: Node, lo: Bound, j: int, key: Bytes)
    requires n.WellSized() && Ascending(n.Keys()) && 0 <= j <= n.keyNum
    requires BoundLess(SlotLo(n, lo, j), At(key))
    ensures forall i :: 0 <= i < j ==> Less(n.keys[i], key)
  {
    forall i | 0 <= i < j ensures Less(n.keys[i], key) {
      assert BoundLe(At(n.keys[i]), SlotLo(n, lo, j)) by {
        if i < j - 1 {
          assert n.keys[i] == n.Keys()[i] && n.keys[j - 1] == n.Keys()[j - 1];
        }
      }
      BoundOrder(At(n.keys[i]), SlotLo(n, lo, j), At(key));
    }
  }

  // ------------------------------------------------------------ the parent with the new child

  /** p with key and r put in at slot j as if it had room: its keys with key
      inserted at j, its children with r inserted right after slot j. */
  function Combined(n: Node, j: int, key: Bytes, r: NodeId): (v: Node)
    requires n.WellSized() && 0 <= j <= n.keyNum
    ensures v.WellSized() && v.keyNum == n.keyNum + 1 && v.leaf == n.leaf
    ensures v.Keys() == SeqInsert(n.Keys(), j, key) && v.Kids() == SeqInsert(n.Kids(), j + 1, Child(r))
  {
    var v := Node(n.leaf, n.parent, SeqInsert(n.Keys(), j, key), n.keyNum + 1, SeqInsert(n.Kids(), j + 1, Child(r)));
    assert v.Keys() == v.keys;
    assert v.Kids() == v.pointers;
    v
  }

  /** The combined node's keys ascend within p's range. */
  lemma CombinedKeys(t: State, sh: Shape, pd: Pending, j: int)
    requires Fits(t, sh, pd) && pd.Split? && pd.parent.Some? && pd.parent.value < |t.nodes|
    requires var p, n := pd.parent.value, t.nodes[pd.parent.value];
             && NodeOK(t, sh, pd, p) && 0 <= j <= n.keyNum
             && sh.lo[pd.left] == SlotLo(n, sh.lo[p], j) && sh.hi[pd.right] == SlotHi(n, sh.hi[p], j)
             && (forall i :: 0 <= i < j ==> Less(n.keys[i], pd.key))
             && (j < n.keyNum ==> Less(pd.key, n.keys[j]))
             && BoundLess(sh.lo[pd.left], At(pd.key)) && BoundLess(At(pd.key), sh.hi[pd.right])
    ensures var p, n := pd.parent.value, t.nodes[pd.parent.value];
            var v := Combined(n, j, pd.key, pd.right);
            && Ascending(v.Keys())
            && (forall i :: 0 <= i < v.keyNum ==> InRange(v.keys[i], sh.lo[p], sh.hi[p]))
  {
    var p, n := pd.parent.value, t.nodes[pd.parent.value];
    var ks := n.Keys();
    assert forall i :: 0 <= i < j ==> Less(ks[i], pd.key);
    assert j < |ks| ==> Less(pd.key, ks[j]);
    AscendingInsert(ks, j, pd.key);
    SlotBounds(n, sh.lo[p], sh.hi[p], j);
    BoundOrder(sh.lo[p], sh.lo[pd.left], At(pd.key));
    BoundOrder(At(pd.key), sh.hi[pd.right], sh.hi[p]);
    var v := Combined(n, j, pd.key, pd.right);
    forall i | 0 <= i < v.keyNum ensures InRange(v.keys[i], sh.lo[p], sh.hi[p]) {
      assert v.keys[i] == v.Keys()[i];
      if i < j {
        assert v.keys[i] == n.keys[i];
      } else if i > j {
        assert v.keys[i] == n.keys[i - 1];
      }
    }
  }

  /** The facts about the child in slot s of the combined node: a live node
      one level below p whose range is the slot's; it is l, r or one of p's
      other children, which answer to p and are not part of the split. */
  predicate CombinedKid(t: State, sh: Shape, pd: Pending, v: Node, s: int)
    requires Fits(t, sh, pd) && pd.Split? && pd.parent.Some? && pd.parent.value < |t.nodes|
    requires v.WellSized() && 0 <= s <= v.keyNum
  {
    var p, c := pd.parent.value, v.pointers[s];
    && c.Child? && c.id < |t.nodes| && c.id !in sh.dead && c.id != p
    && sh.height[c.id] + 1 == sh.height[p]
    && sh.lo[c.id] == SlotLo(v, sh.lo[p], s) && sh.hi[c.id] == SlotHi(v, sh.hi[p], s)
    && t.root != Some(c.id)
    && (c.id == pd.left || c.id == pd.right || (t.nodes[c.id].parent == Some(p) && !IsRight(pd, c.id)))
  }

  lemma CombinedSlot(t: State, sh: Shape, pd: Pending, j: int, s: int)
    requires Fits(t, sh, pd) && PendingOK(t, sh, pd) && pd.Split? && pd.parent.Some? && pd.parent.value < |t.nodes|
    requires var p, n := pd.parent.value, t.nodes[pd.parent.value];
             && NodeOK(t, sh, pd, p) && !n.leaf && 0 <= j <= n.keyNum
             && n.pointers[j] == Child(pd.left)
             && sh.lo[pd.left] == SlotLo(n, sh.lo[p], j) && sh.hi[pd.right] == SlotHi(n, sh.hi[p], j)
             && sh.height[pd.left] + 1 == sh.height[p]
             && (forall s1, s2 :: 0 <= s1 < s2 <= n.keyNum ==> n.pointers[s1] != n.pointers[s2])
    requires 0 <= s <= t.nodes[pd.parent.value].keyNum + 1
    ensures var v := Combined(t.nodes[pd.parent.value], j, pd.key, pd.right);
            CombinedKid(t, sh, pd, v, s)
  {
    if s <= j {
      CombinedSlotLow(t, sh, pd, j, s);
    } else {
      CombinedSlotHigh(t, sh, pd, j, s);
    }
  }

  lemma CombinedSlotLow(t: State, sh: Shape, pd: Pending, j: int, s: int)
    requires Fits(t, sh, pd) && PendingOK(t, sh, pd) && pd.Split? && pd.parent.Some? && pd.parent.value < |t.nodes|
    requires var p, n := pd.parent.value, t.nodes[pd.parent.value];
             && NodeOK(t, sh, pd, p) && !n.leaf && 0 <= j <= n.keyNum
             && n.pointers[j] == Child(pd.left)
             && sh.lo[pd.left] == SlotLo(n, sh.lo[p], j) && sh.hi[pd.right] == SlotHi(n, sh.hi[p], j)
             && sh.height[pd.left] + 1 == sh.height[p]
             && (forall s1, s2 :: 0 <= s1 < s2 <= n.keyNum ==> n.pointers[s1] != n.pointers[s2])
    requires 0 <= s <= j
    ensures var v := Combined(t.nodes[pd.parent.value], j, pd.key, pd.right);
            CombinedKid(t, sh, pd, v, s)
  {
    var p, n := pd.parent.value, t.nodes[pd.parent.value];
    var v := Combined(n, j, pd.key, pd.right);
    assert v.pointers == v.Kids();
    assert KidOK(t, sh, pd, p, s);
    if s < j {
      assert v.pointers[s] == n.pointers[s] != Child(pd.left);
      assert v.keys[s] == n.keys[s];
    } else {
      assert v.keys[s] == pd.key;
    }
    if s > 0 {
      assert v.keys[s - 1] == n.keys[s - 1];
    }
  }

  lemma CombinedSlotHigh(t: State, sh: Shape, pd: Pending, j: int, s: int)
    requires Fits(t, sh, pd) && PendingOK(t, sh, pd) && pd.Split? && pd.parent.Some? && pd.parent.value < |t.nodes|
    requires var p, n := pd.parent.value, t.nodes[pd.parent.value];
             && NodeOK(t, sh, pd, p) && !n.leaf && 0 <= j <= n.keyNum
             && n.pointers[j] == Child(pd.left)
             && sh.lo[pd.left] == SlotLo(n, sh.lo[p], j) && sh.hi[pd.right] == SlotHi(n, sh.hi[p], j)
             && sh.height[pd.left] + 1 == sh.height[p]
             && (forall s1, s2 :: 0 <= s1 < s2 <= n.keyNum ==> n.pointers[s1] != n.pointers[s2])
    requires j < s <= t.nodes[pd.parent.value].keyNum + 1
    ensures var v := Combined(t.nodes[pd.parent.value], j, pd.key, pd.right);
            CombinedKid(t, sh, pd, v, s)
  {
    var p, n := pd.parent.value, t.nodes[pd.parent.value];
    var v := Combined(n, j, pd.key, pd.right);
    assert v.pointers == v.Kids();
    if s == j + 1 {
      assert v.keys[s - 1] == pd.key;
    } else {
      assert KidOK(t, sh, pd, p, s - 1);
      assert v.pointers[s] == n.pointers[s - 1] != Child(pd.left);
      assert v.keys[s - 1] == n.keys[s - 2];
    }
    if s < v.keyNum {
      assert v.keys[s] == n.keys[s - 1];
    }
  }

  /** Everything the absorbing steps need to know about the pending split's
      parent p and the slot j holding l. */
  predicate AtSlot(t: State, sh: Shape, pd: Pending, j: int)
    requires Fits(t, sh, pd)
  {
    && pd.Split? && pd.parent.Some? && pd.parent.value < |t.nodes|
    && var p, n := pd.parent.value, t.nodes[pd.parent.value];
    && p !in sh.dead && !n.leaf && n.WellSized() && 0 <= j <= n.keyNum && n.pointers[j] == Child(pd.left)
    && sh.height[pd.left] + 1 == sh.height[p]
    && (forall s1, s2 :: 0 <= s1 < s2 <= n.keyNum ==> n.pointers[s1] != n.pointers[s2])
    && var v := Combined(n, j, pd.key, pd.right);
    && Ascending(v.Keys())
    && (forall i :: 0 <= i < v.keyNum ==> InRange(v.keys[i], sh.lo[p], sh.hi[p]))
    && (forall s :: 0 <= s <= v.keyNum ==> CombinedKid(t, sh, pd, v, s))
    && (forall s1, s2 :: 0 <= s1 < s2 <= v.keyNum ==> v.pointers[s1] != v.pointers[s2])
  }

  /** r is new among p's children, so the combined node's children are
      distinct. */
  lemma CombinedDistinct(t: State, sh: Shape, pd: Pending, j: int)
    requires Fits(t, sh, pd) && pd.Split? && pd.parent.Some? && pd.parent.value < |t.nodes|
    requires var p, n := pd.parent.value, t.nodes[pd.parent.value];
             && NodeOK(t, sh, pd, p) && !n.leaf && 0 <= j <= n.keyNum
             && (forall s1, s2 :: 0 <= s1 < s2 <= n.keyNum ==> n.pointers[s1] != n.pointers[s2])
    ensures var v := Combined(t.nodes[pd.parent.value], j, pd.key, pd.right);
            forall s1, s2 :: 0 <= s1 < s2 <= v.keyNum ==> v.pointers[s1] != v.pointers[s2]
  {
    var p, n := pd.parent.value, t.nodes[pd.parent.value];
    var v := Combined(n, j, pd.key, pd.right);
    assert v.pointers == v.Kids();
    forall s | 0 <= s <= n.keyNum ensures n.pointers[s] != Child(pd.right) {
      assert KidOK(t, sh, pd, p, s);
    }
    forall s1, s2 | 0 <= s1 < s2 <= v.keyNum ensures v.pointers[s1] != v.pointers[s2] {
      var a := if s1 <= j then s1 else s1 - 1;
      var b := if s2 <= j then s2 else s2 - 1;
      if s1 != j + 1 && s2 != j + 1 {
        assert v.pointers[s1] == n.pointers[a] && v.pointers[s2] == n.pointers[b];
      } else if s1 == j + 1 {
        assert v.pointers[s2] == n.pointers[b];
      } else {
        assert v.pointers[s1] == n.pointers[a];
      }
    }
  }

  /** The slot of l in its parent, and why a scan of the parent's keys for
      the first key above `key` stops there. */
  lemma Slot(t: State, sh: Shape, pd: Pending) returns (j: int)
    requires Inv(t, sh, pd) && pd.Split? && pd.parent.Some?
    ensures AtSlot(t, sh, pd, j)
    ensures var n := t.nodes[pd.parent.value];
            && (forall i :: 0 <= i < j ==> Less(n.keys[i], pd.key))
            && (j < n.keyNum ==> Less(pd.key, n.keys[j]))
  {
    j := PendingSlot(t, sh, pd);
    var p, n := pd.parent.value, t.nodes[pd.parent.value];
    CombinedKeys(t, sh, pd, j);
    AllEffRange(t, sh, pd);
    KidsDistinct(t, sh, pd, p);
    var v := Combined(n, j, pd.key, pd.right);
    forall s | 0 <= s <= v.keyNum ensures CombinedKid(t, sh, pd, v, s) {
      CombinedSlot(t, sh, pd, j, s);
    }
    CombinedDistinct(t, sh, pd, j);
  }

  // ------------------------------------------------------------ putIntoParent

  /** The arena after putIntoParent(p, key, l, r) with l in slot j of p. */
  function Absorbed(t: State, p: NodeId, j: int, key: Bytes, l: NodeId, r: NodeId): State
    requires p < |t.nodes| && l < |t.nodes| && r < |t.nodes|
    requires t.nodes[p].WellSized() && 0 <= j <= t.nodes[p].keyNum < |t.nodes[p].keys|
  {
    var ns := t.nodes[p := ChildInserted(t.nodes[p], j, key, l, r)];
    t.(nodes := WithParent(WithParent(ns, l, p), r, p))
  }

  /** A precondition shared by the putIntoParent lemmas. */
  predicate AbsorbPre(t: State, sh: Shape, pd: Pending, j: int)
    requires Fits(t, sh, pd)
  {
    && AtSlot(t, sh, pd, j)
    && t.nodes[pd.parent.value].keyNum < |t.nodes[pd.parent.value].keys|
  }

  /** The parent is neither half of the split. */
  lemma ParentApart(t: State, sh: Shape, pd: Pending, j: int)
    requires Fits(t, sh, pd) && AtSlot(t, sh, pd, j)
    ensures pd.parent.value != pd.left && pd.parent.value != pd.right
  {
    var n := t.nodes[pd.parent.value];
    var v := Combined(n, j, pd.key, pd.right);
    assert CombinedKid(t, sh, pd, v, j) && CombinedKid(t, sh, pd, v, j + 1);
    assert v.pointers[j] == v.Kids()[j] == Child(pd.left);
    assert v.pointers[j + 1] == v.Kids()[j + 1] == Child(pd.right);
  }

  /** How putIntoParent changes what one node looks like: l and r now
      answer to p for their own ranges, p has new children, and nothing else
      changes. */
  lemma AbsorbView(t: State, sh: Shape, pd: Pending, j: int, x: NodeId)
    requires Fits(t, sh, pd) && PendingOK(t, sh, pd) && AbsorbPre(t, sh, pd, j) && x < |t.nodes|
    ensures var p, l, r := pd.parent.value, pd.left, pd.right;
            var t' := Absorbed(t, p, j, pd.key, l, r);
            && Fits(t', sh, NoPending) && |t'.nodes| == |t.nodes|
            && (x != p && x != l && x != r ==> t'.nodes[x] == t.nodes[x])
            && (x != p ==> UpOf(t', sh, x) == UpOf(t, sh, x))
            && (x == l || x == r ==> t'.nodes[x] == t.nodes[x].(parent := Some(p)))
            && t'.nodes[p].parent == t.nodes[p].parent
            && ViewOf(t', sh, NoPending, x)
               == if x == l || x == r then View(sh.height[x], sh.lo[x], sh.hi[x], Some(p), false, false, false)
                  else ViewOf(t, sh, pd, x)
  {
    ParentApart(t, sh, pd, j);
  }

  /** No node lists itself as a child. */
  lemma NotOwnKid(t: State, sh: Shape, pd: Pending, i: NodeId)
    requires Fits(t, sh, pd) && i < |t.nodes| && NodeOK(t, sh, pd, i)
    ensures !t.nodes[i].leaf ==> Child(i) !in t.nodes[i].Kids()
  {
    var n := t.nodes[i];
    if !n.leaf {
      forall s | 0 <= s <= n.keyNum ensures n.pointers[s] != Child(i) {
        assert KidOK(t, sh, pd, i, s);
      }
    }
  }

  /** Slot s of p after putIntoParent holds a fitting child. */
  lemma AbsorbParentSlot(t: State, sh: Shape, pd: Pending, j: int, s: int)
    requires Fits(t, sh, pd) && PendingOK(t, sh, pd) && AbsorbPre(t, sh, pd, j)
    requires 0 <= s <= t.nodes[pd.parent.value].keyNum + 1
    ensures var p := pd.parent.value;
            var t' := Absorbed(t, p, j, pd.key, pd.left, pd.right);
            Fits(t', sh, NoPending) && t'.nodes[p].WellSized() && s <= t'.nodes[p].keyNum
            && KidOK(t', sh, NoPending, p, s)
  {
    var p, n := pd.parent.value, t.nodes[pd.parent.value];
    var t' := Absorbed(t, p, j, pd.key, pd.left, pd.right);
    var m := ChildInserted(n, j, pd.key, pd.left, pd.right);
    ParentApart(t, sh, pd, j);
    assert t'.nodes[p] == m;
    ChildInsertedKids(n, j, pd.key, pd.left, pd.right);
    var v := Combined(n, j, pd.key, pd.right);
    assert CombinedKid(t, sh, pd, v, s);
    assert m.pointers[s] == m.Kids()[s] == v.Kids()[s] == v.pointers[s];
    if s > 0 {
      assert m.keys[s - 1] == m.Keys()[s - 1] == v.Keys()[s - 1] == v.keys[s - 1];
    }
    if s < m.keyNum {
      assert m.keys[s] == m.Keys()[s] == v.Keys()[s] == v.keys[s];
    }
    var x := v.pointers[s].id;
    AbsorbView(t, sh, pd, j, x);
  }

  /** p after putIntoParent keeps the invariant. */
  lemma AbsorbParent(t: State, sh: Shape, pd: Pending, j: int)
    requires Fits(t, sh, pd) && PendingOK(t, sh, pd) && AbsorbPre(t, sh, pd, j)
    requires NodeOK(t, sh, pd, pd.parent.value)
    ensures var p := pd.parent.value;
            var t' := Absorbed(t, p, j, pd.key, pd.left, pd.right);
            Fits(t', sh, NoPending) && NodeOK(t', sh, NoPending, p)
  {
    var p, n := pd.parent.value, t.nodes[pd.parent.value];
    var t' := Absorbed(t, p, j, pd.key, pd.left, pd.right);
    var m := ChildInserted(n, j, pd.key, pd.left, pd.right);
    ParentApart(t, sh, pd, j);
    assert t'.nodes[p] == m;
    ChildInsertedKids(n, j, pd.key, pd.left, pd.right);
    var v := Combined(n, j, pd.key, pd.right);
    assert Local(t.order, m) by {
      assert m.Keys() == v.Keys();
      forall s | m.keyNum < s < |m.pointers| ensures m.pointers[s] == Nil {
        assert m.pointers[s] == n.pointers[s];
      }
    }
    forall i | 0 <= i < m.keyNum ensures InRange(m.keys[i], sh.lo[p], sh.hi[p]) {
      assert m.keys[i] == m.Keys()[i] == v.Keys()[i] == v.keys[i];
    }
    forall s | 0 <= s <= m.keyNum ensures KidOK(t', sh, NoPending, p, s) {
      AbsorbParentSlot(t, sh, pd, j, s);
    }
    AbsorbView(t, sh, pd, j, p);
    if t.root != Some(p) {
      assert ParentOK(t, sh, pd, p);
      var g := t.nodes[p].parent.value;
      NotOwnKid(t, sh, pd, p);
      AbsorbView(t, sh, pd, j, g);
    }
  }

  /** p after putIntoParent lists both halves. */
  lemma AbsorbLists(t: State, sh: Shape, pd: Pending, j: int)
    requires Fits(t, sh, pd) && AbsorbPre(t, sh, pd, j)
    ensures var p := pd.parent.value;
            var t' := Absorbed(t, p, j, pd.key, pd.left, pd.right);
            && UpFits(pd.left, UpOf(t', sh, p)) && UpFits(pd.right, UpOf(t', sh, p))
            && forall y :: Child(y) in t.nodes[p].Kids() ==> Child(y) in t'.nodes[p].Kids()
  {
    var p, n := pd.parent.value, t.nodes[pd.parent.value];
    var t' := Absorbed(t, p, j, pd.key, pd.left, pd.right);
    ParentApart(t, sh, pd, j);
    ChildInsertedKids(n, j, pd.key, pd.left, pd.right);
    var ks := t'.nodes[p].Kids();
    assert ks[j] == n.Kids()[j] == Child(pd.left);
    assert ks[j + 1] == Child(pd.right);
    forall y | Child(y) in n.Kids() ensures Child(y) in ks {
      var s := IndexOf(n.Kids(), Child(y));
      if s <= j {
        assert ks[s] == Child(y);
      } else {
        assert ks[s + 1] == Child(y);
      }
    }
  }

  /** l and r after putIntoParent keep the invariant. */
  lemma AbsorbHalf(t: State, sh: Shape, pd: Pending, j: int, x: NodeId)
    requires Fits(t, sh, pd) && PendingOK(t, sh, pd) && AbsorbPre(t, sh, pd, j)
    requires (x == pd.left || x == pd.right) && NodeOK(t, sh, pd, x)
    ensures var t' := Absorbed(t, pd.parent.value, j, pd.key, pd.left, pd.right);
            Fits(t', sh, NoPending) && NodeOK(t', sh, NoPending, x)
  {
    var p := pd.parent.value;
    var t' := Absorbed(t, p, j, pd.key, pd.left, pd.right);
    ParentApart(t, sh, pd, j);
    AbsorbView(t, sh, pd, j, x);
    var n := t.nodes[x];
    if !n.leaf {
      forall s | 0 <= s <= n.keyNum ensures KidSame(t, sh, pd, t', sh, NoPending, n.pointers[s]) {
        assert KidOK(t, sh, pd, x, s);
        AbsorbView(t, sh, pd, j, n.pointers[s].id);
      }
    }
    AbsorbLists(t, sh, pd, j);
    NodeKept(t, sh, pd, t', sh, NoPending, x);
  }

  /** Every other node keeps the invariant through putIntoParent. */
  lemma AbsorbOther(t: State, sh: Shape, pd: Pending, j: int, i: NodeId)
    requires Fits(t, sh, pd) && PendingOK(t, sh, pd) && AbsorbPre(t, sh, pd, j)
    requires i < |t.nodes| && i != pd.parent.value && i != pd.left && i != pd.right
    requires NodeOK(t, sh, pd, i)
    ensures var t' := Absorbed(t, pd.parent.value, j, pd.key, pd.left, pd.right);
            Fits(t', sh, NoPending) && NodeOK(t', sh, NoPending, i)
  {
    var p := pd.parent.value;
    var t' := Absorbed(t, p, j, pd.key, pd.left, pd.right);
    ParentApart(t, sh, pd, j);
    AbsorbView(t, sh, pd, j, i);
    var n := t.nodes[i];
    if !n.leaf {
      forall s | 0 <= s <= n.keyNum ensures KidSame(t, sh, pd, t', sh, NoPending, n.pointers[s]) {
        assert KidOK(t, sh, pd, i, s);
        AbsorbView(t, sh, pd, j, n.pointers[s].id);
      }
    }
    var g := EffParent(t, pd, i);
    if g.Some? && g.value < |t.nodes| {
      AbsorbView(t, sh, pd, j, g.value);
      AbsorbLists(t, sh, pd, j);
    }
    NodeFrame(t, sh, pd, t', sh, NoPending, i);
  }

  lemma AbsorbNodes(t: State, sh: Shape, pd: Pending, j: int)
    requires Fits(t, sh, pd) && PendingOK(t, sh, pd) && AllNodesOK(t, sh, pd) && AbsorbPre(t, sh, pd, j)
    ensures var t' := Absorbed(t, pd.parent.value, j, pd.key, pd.left, pd.right);
            Fits(t', sh, NoPending) && AllNodesOK(t', sh, NoPending)
  {
    var p := pd.parent.value;
    forall i | 0 <= i < |t.nodes| && i !in sh.dead
      ensures NodeOK(Absorbed(t, p, j, pd.key, pd.left, pd.right), sh, NoPending, i)
    {
      if i == p {
        AbsorbParent(t, sh, pd, j);
      } else if i == pd.left || i == pd.right {
        AbsorbHalf(t, sh, pd, j, i);
      } else {
        AbsorbOther(t, sh, pd, j, i);
      }
    }
    AbsorbView(t, sh, pd, j, p);
  }

  lemma AbsorbRoot(t: State, sh: Shape, pd: Pending, j: int)
    requires Fits(t, sh, pd) && PendingOK(t, sh, pd) && RootOK(t, sh, pd) && AbsorbPre(t, sh, pd, j)
    ensures var t' := Absorbed(t, pd.parent.value, j, pd.key, pd.left, pd.right);
            Fits(t', sh, NoPending) && RootOK(t', sh, NoPending) && PendingOK(t', sh, NoPending)
  {
    AbsorbView(t, sh, pd, j, t.root.value);
  }

  /** Only an internal node's keys and the halves' parent fields change, so
      the chain and every leaf's entries stay. */
  lemma AbsorbChain(t: State, sh: Shape, pd: Pending, j: int)
    requires Fits(t, sh, pd) && PendingOK(t, sh, pd) && ChainOK(t, sh) && AbsorbPre(t, sh, pd, j)
    ensures var t' := Absorbed(t, pd.parent.value, j, pd.key, pd.left, pd.right);
            Fits(t', sh, NoPending) && ChainOK(t', sh) && Entries(t', sh) == Entries(t, sh)
  {
    var p := pd.parent.value;
    var t' := Absorbed(t, p, j, pd.key, pd.left, pd.right);
    ParentApart(t, sh, pd, j);
    var ls := sh.leaves;
    forall a | 0 <= a < |ls| ensures t'.nodes[ls[a]].Next() == t.nodes[ls[a]].Next() && t'.nodes[ls[a]].leaf
      && Seg(t', sh, ls[a]) == Seg(t, sh, ls[a])
    {
      AbsorbView(t, sh, pd, j, ls[a]);
    }
    ChainKept(t, sh, t', sh);
  }

  /** putIntoParent: with room in l's parent p, r goes in right after l with
      key between them; the invariant holds with nothing pending and the
      contents are unchanged. */
  lemma AbsorbStep(t: State, sh: Shape, pd: Pending) returns (j: int)
    requires Inv(t, sh, pd) && pd.Split? && pd.parent.Some?
    requires t.nodes[pd.parent.value].keyNum < |t.nodes[pd.parent.value].keys|
    ensures AtSlot(t, sh, pd, j)
    ensures var n := t.nodes[pd.parent.value];
            && (forall i :: 0 <= i < j ==> Less(n.keys[i], pd.key))
            && (j < n.keyNum ==> Less(pd.key, n.keys[j]))
    ensures var t' := Absorbed(t, pd.parent.value, j, pd.key, pd.left, pd.right);
            Inv(t', sh, NoPending) && Entries(t', sh) == Entries(t, sh)
  {
    j := Slot(t, sh, pd);
    AbsorbNodes(t, sh, pd, j);
    AbsorbRoot(t, sh, pd, j);
    AbsorbChain(t, sh, pd, j);
  }

  // ------------------------------------------------------------ putIntoNewRoot

  /** The new root of putIntoNewRoot: one key, l and r as its children. */
  function NewRootNode(order: int, key: Bytes, l: NodeId, r: NodeId): (n: Node)
    requires order >= 3
    ensures n.WellSized() && n.keyNum == 1 && !n.leaf && n.parent == None
    ensures n.Keys() == [key] && n.Kids() == [Child(l), Child(r)]
  {
    var b := Blank(false, order);
    var n := b.(keyNum := 1, keys := b.keys[0 := key], pointers := b.pointers[0 := Child(l)][1 := Child(r)]);
    assert n.Keys() == [key] && n.Kids() == [Child(l), Child(r)];
    n
  }

  /** The arena after putIntoNewRoot(key, l, r): the new root is appended. */
  function Grown(t: State, key: Bytes, l: NodeId, r: NodeId): State
    requires t.order >= 3 && l < |t.nodes| && r < |t.nodes|
  {
    var m := |t.nodes|;
    var ns := t.nodes + [NewRootNode(t.order, key, l, r)];
    t.(nodes := WithParent(WithParent(ns, l, m), r, m), root := Some(m))
  }

  /** The new root answers for every key, one level above l. */
  function GrownShape(sh: Shape, l: NodeId): Shape
    requires l < |sh.height|
  {
    sh.(lo := sh.lo + [NegInf], hi := sh.hi + [PosInf], height := sh.height + [sh.height[l] + 1])
  }

  predicate GrowPre(t: State, sh: Shape, pd: Pending)
    requires Fits(t, sh, pd)
  {
    t.order >= 3 && pd.Split? && pd.parent.None? && PendingOK(t, sh, pd) && RootOK(t, sh, pd)
  }

  lemma GrowView(t: State, sh: Shape, pd: Pending, x: NodeId)
    requires Fits(t, sh, pd) && GrowPre(t, sh, pd) && x < |t.nodes|
    ensures var l, r := pd.left, pd.right;
            var t', sh' := Grown(t, pd.key, l, r), GrownShape(sh, l);
            && Fits(t', sh', NoPending) && |t'.nodes| == |t.nodes| + 1
            && (x != l && x != r ==> t'.nodes[x] == t.nodes[x])
            && (x == l || x == r ==> t'.nodes[x] == t.nodes[x].(parent := Some(|t.nodes|)))
            && UpOf(t', sh', x) == UpOf(t, sh, x)
            && sh'.lo[x] == sh.lo[x] && sh'.hi[x] == sh.hi[x] && sh'.height[x] == sh.height[x]
            && ViewOf(t', sh', NoPending, x)
               == if x == l || x == r then View(sh.height[x], sh.lo[x], sh.hi[x], Some(|t.nodes|), false, false, false)
                  else ViewOf(t, sh, pd, x)
  {
  }

  /** l and r after putIntoNewRoot keep the invariant. */
  lemma GrowHalf(t: State, sh: Shape, pd: Pending, x: NodeId)
    requires Fits(t, sh, pd) && GrowPre(t, sh, pd)
    requires (x == pd.left || x == pd.right) && NodeOK(t, sh, pd, x)
    ensures var t', sh' := Grown(t, pd.key, pd.left, pd.right), GrownShape(sh, pd.left);
            Fits(t', sh', NoPending) && NodeOK(t', sh', NoPending, x)
  {
    var t', sh' := Grown(t, pd.key, pd.left, pd.right), GrownShape(sh, pd.left);
    GrowView(t, sh, pd, x);
    var n := t.nodes[x];
    if !n.leaf {
      forall s | 0 <= s <= n.keyNum ensures KidSame(t, sh, pd, t', sh', NoPending, n.pointers[s]) {
        assert KidOK(t, sh, pd, x, s);
        GrowView(t, sh, pd, n.pointers[s].id);
      }
    }
    assert t'.nodes[|t.nodes|].Kids() == [Child(pd.left), Child(pd.right)];
    NodeKept(t, sh, pd, t', sh', NoPending, x);
  }

  /** Every other old node keeps the invariant through putIntoNewRoot. */
  lemma GrowOther(t: State, sh: Shape, pd: Pending, i: NodeId)
    requires Fits(t, sh, pd) && GrowPre(t, sh, pd)
    requires i < |t.nodes| && i != pd.left && i != pd.right && NodeOK(t, sh, pd, i)
    ensures var t', sh' := Grown(t, pd.key, pd.left, pd.right), GrownShape(sh, pd.left);
            Fits(t', sh', NoPending) && NodeOK(t', sh', NoPending, i)
  {
    var t', sh' := Grown(t, pd.key, pd.left, pd.right), GrownShape(sh, pd.left);
    GrowView(t, sh, pd, i);
    var n := t.nodes[i];
    if !n.leaf {
      forall s | 0 <= s <= n.keyNum ensures KidSame(t, sh, pd, t', sh', NoPending, n.pointers[s]) {
        assert KidOK(t, sh, pd, i, s);
        GrowView(t, sh, pd, n.pointers[s].id);
      }
    }
    var g := EffParent(t, pd, i);
    if g.Some? && g.value < |t.nodes| {
      GrowView(t, sh, pd, g.value);
    }
    NodeFrame(t, sh, pd, t', sh', NoPending, i);
  }

  /** The new root keeps the invariant: l and r fill its two slots. */
  lemma GrowNew(t: State, sh: Shape, pd: Pending)
    requires Fits(t, sh, pd) && GrowPre(t, sh, pd)
    requires NodeOK(t, sh, pd, pd.left) && NodeOK(t, sh, pd, pd.right)
    ensures var t', sh' := Grown(t, pd.key, pd.left, pd.right), GrownShape(sh, pd.left);
            Fits(t', sh', NoPending) && NodeOK(t', sh', NoPending, |t.nodes|)
  {
    var m := |t.nodes|;
    var t', sh' := Grown(t, pd.key, pd.left, pd.right), GrownShape(sh, pd.left);
    GrowView(t, sh, pd, pd.left);
    GrowView(t, sh, pd, pd.right);
    var n := t'.nodes[m];
    assert n == NewRootNode(t.order, pd.key, pd.left, pd.right);
    assert n.keys[0] == n.Keys()[0] == pd.key;
    assert n.pointers[0] == n.Kids()[0] && n.pointers[1] == n.Kids()[1];
    assert KidOK(t', sh', NoPending, m, 0);
    assert KidOK(t', sh', NoPending, m, 1);
  }

  lemma GrowNodes(t: State, sh: Shape, pd: Pending)
    requires Fits(t, sh, pd) && GrowPre(t, sh, pd) && AllNodesOK(t, sh, pd)
    ensures var t', sh' := Grown(t, pd.key, pd.left, pd.right), GrownShape(sh, pd.left);
            Fits(t', sh', NoPending) && AllNodesOK(t', sh', NoPending)
  {
    var t', sh' := Grown(t, pd.key, pd.left, pd.right), GrownShape(sh, pd.left);
    forall i | 0 <= i < |t'.nodes| && i !in sh'.dead ensures NodeOK(t', sh', NoPending, i) {
      if i == |t.nodes| {
        GrowNew(t, sh, pd);
      } else if i == pd.left || i == pd.right {
        GrowHalf(t, sh, pd, i);
      } else {
        GrowOther(t, sh, pd, i);
      }
    }
  }

  lemma GrowRoot(t: State, sh: Shape, pd: Pending)
    requires Fits(t, sh, pd) && GrowPre(t, sh, pd)
    ensures var t', sh' := Grown(t, pd.key, pd.left, pd.right), GrownShape(sh, pd.left);
            Fits(t', sh', NoPending) && RootOK(t', sh', NoPending) && PendingOK(t', sh', NoPending)
  {
    var t', sh' := Grown(t, pd.key, pd.left, pd.right), GrownShape(sh, pd.left);
    forall y | 0 <= y < |t'.nodes| && y !in sh'.dead ensures sh'.height[y] <= sh'.height[|t.nodes|] {
      if y < |t.nodes| {
        assert sh.height[y] <= sh.height[pd.left];
      }
    }
  }

  lemma GrowChain(t: State, sh: Shape, pd: Pending)
    requires Fits(t, sh, pd) && GrowPre(t, sh, pd) && ChainOK(t, sh)
    ensures var t', sh' := Grown(t, pd.key, pd.left, pd.right), GrownShape(sh, pd.left);
            Fits(t', sh', NoPending) && ChainOK(t', sh') && Entries(t', sh') == Entries(t, sh)
  {
    var t', sh' := Grown(t, pd.key, pd.left, pd.right), GrownShape(sh, pd.left);
    var ls := sh.leaves;
    forall a | 0 <= a < |ls| ensures t'.nodes[ls[a]].Next() == t.nodes[ls[a]].Next() && t'.nodes[ls[a]].leaf
      && sh'.lo[ls[a]] == sh.lo[ls[a]] && sh'.hi[ls[a]] == sh.hi[ls[a]]
      && Seg(t', sh', ls[a]) == Seg(t, sh, ls[a])
    {
      GrowView(t, sh, pd, ls[a]);
    }
    ChainKept(t, sh, t', sh');
  }

  /** putIntoNewRoot: when the root itself has split, a new root above the
      halves restores the invariant, one level taller, with the contents
      unchanged. */
  lemma GrowStep(t: State, sh: Shape, pd: Pending)
    requires Inv(t, sh, pd) && pd.Split? && pd.parent.None?
    ensures var t', sh' := Grown(t, pd.key, pd.left, pd.right), GrownShape(sh, pd.left);
            Inv(t', sh', NoPending) && Entries(t', sh') == Entries(t, sh)
  {
    GrowNodes(t, sh, pd);
    GrowRoot(t, sh, pd);
    GrowChain(t, sh, pd);
  }

  // ------------------------------------------------------------ putIntoParentAndSplit

  /** The halves of a full internal node split while r goes in after slot j:
      the combined node's keys before mp stay, key mp moves up, the rest go
      right, and the children follow; the pointer slots past the children
      are nil. */
  lemma DivideParts(order: int, n: Node, j: int, key: Bytes, r: NodeId, mp: int)
    requires order >= 3 && |n.keys| == order - 1 && n.WellSized() && n.keyNum == |n.keys| && 0 <= j <= n.keyNum
    requires 1 <= mp < |n.keys|
    ensures var v := Combined(n, j, key, r);
            var left, right, mid := InternalHalves(n, j, key, r, mp).0, InternalHalves(n, j, key, r, mp).1, InternalHalves(n, j, key, r, mp).2;
            && mid == v.keys[mp]
            && left.leaf == n.leaf && !right.leaf && left.parent == n.parent && right.parent == None
            && |left.keys| == |right.keys| == order - 1 && |left.pointers| == |right.pointers| == order
            && left.WellSized() && right.WellSized()
            && left.keyNum == mp && right.keyNum == |n.keys| - mp
            && left.Keys() == v.Keys()[..mp] && right.Keys() == v.Keys()[mp + 1..]
            && (forall s :: 0 <= s <= mp ==> left.pointers[s] == v.pointers[s])
            && (forall s :: 0 <= s <= right.keyNum ==> right.pointers[s] == v.pointers[mp + 1 + s])
            && (forall s :: mp < s < |left.pointers| ==> left.pointers[s] == Nil)
            && (forall s :: right.keyNum < s < |right.pointers| ==> right.pointers[s] == Nil)
  {
    var v := Combined(n, j, key, r);
    assert n.keys == n.Keys() && n.pointers == n.Kids();
    assert v.keys == v.Keys() == SeqInsert(n.keys, j, key);
    assert v.pointers == v.Kids() == SeqInsert(n.pointers, j + 1, Child(r));
  }

  /** The halves' keys ascend within the two parts of the range, split at
      the key that moves up. */
  lemma DivideRanges(v: Node, mp: int, left: Node, right: Node, mid: Bytes, lo: Bound, hi: Bound)
    requires v.WellSized() && left.WellSized() && right.WellSized() && 1 <= mp < v.keyNum
    requires Ascending(v.Keys()) && forall i :: 0 <= i < v.keyNum ==> InRange(v.keys[i], lo, hi)
    requires mid == v.keys[mp] && left.Keys() == v.Keys()[..mp] && right.Keys() == v.Keys()[mp + 1..]
    ensures Ascending(left.Keys()) && Ascending(right.Keys())
    ensures BoundLess(lo, At(mid)) && BoundLess(At(mid), hi)
    ensures forall i :: 0 <= i < left.keyNum ==> InRange(left.keys[i], lo, At(mid))
    ensures forall i :: 0 <= i < right.keyNum ==> InRange(right.keys[i], At(mid), hi)
  {
    var ks := v.Keys();
    assert ks[0] == v.keys[0] && ks[mp] == v.keys[mp];
    assert InRange(v.keys[0], lo, hi) && InRange(v.keys[mp], lo, hi);
    BoundOrder(lo, At(ks[0]), At(mid));
    forall i | 0 <= i < left.keyNum ensures InRange(left.keys[i], lo, At(mid)) {
      assert left.keys[i] == left.Keys()[i] == ks[i];
      assert InRange(v.keys[i], lo, hi);
    }
    forall i | 0 <= i < right.keyNum ensures InRange(right.keys[i], At(mid), hi) {
      assert right.keys[i] == right.Keys()[i] == ks[mp + 1 + i];
      assert InRange(v.keys[mp + 1 + i], lo, hi);
    }
  }

  /** One re-parenting loop of putIntoParentAndSplit: every node that a slot
      of ps points to gets parent g. */
  function AdoptAll(ns: seq<Node>, ps: seq<Pointer>, g: NodeId): (ns': seq<Node>)
    ensures |ns'| == |ns|
    ensures forall x :: 0 <= x < |ns| ==> ns'[x] == if Child(x) in ps then ns[x].(parent := Some(g)) else ns[x]
  {
    seq(|ns|, x requires 0 <= x < |ns| => if Child(x) in ps then ns[x].(parent := Some(g)) else ns[x])
  }

  /** The arena after putIntoParentAndSplit, given its halves: p keeps the
      left half, the right half is appended as m, l and r answer to ins, the
      half they went into, and then the loops over both halves' pointer slots
      make every child answer to its half. */
  function Regrouped(ns: seq<Node>, p: NodeId, left: Node, right: Node, l: NodeId, r: NodeId, ins: NodeId): seq<Node>
    requires p < |ns| && l < |ns| && r < |ns|
  {
    var ns1 := WithParent(WithParent(ns[p := left] + [right], l, ins), r, ins);
    AdoptAll(AdoptAll(ns1, left.pointers, p), right.pointers, |ns|)
  }

  lemma RegroupedAt(ns: seq<Node>, p: NodeId, left: Node, right: Node, l: NodeId, r: NodeId, ins: NodeId, x: NodeId)
    requires p < |ns| && l < |ns| && r < |ns| && x <= |ns| && p != l && p != r
    requires Child(l) in left.pointers || Child(l) in right.pointers
    requires Child(r) in left.pointers || Child(r) in right.pointers
    ensures var ns', m := Regrouped(ns, p, left, right, l, r, ins), |ns|;
            && |ns'| == m + 1
            && (x == p && Child(p) !in left.pointers && Child(p) !in right.pointers ==> ns'[x] == left)
            && (x == m && Child(m) !in left.pointers && Child(m) !in right.pointers ==> ns'[x] == right)
            && (x < m && x != p ==> ns'[x] == ns[x].(parent := ns'[x].parent))
            && (x < m && x != p && Child(x) !in left.pointers && Child(x) !in right.pointers ==> ns'[x] == ns[x])
            && (Child(x) in right.pointers ==> ns'[x].parent == Some(m))
            && (Child(x) in left.pointers && Child(x) !in right.pointers ==> ns'[x].parent == Some(p))
  {
  }

  /** The arena after putIntoParentAndSplit(p, key, l, r) with l in slot j
      of the full node p. */
  function Divided(t: State, p: NodeId, j: int, key: Bytes, l: NodeId, r: NodeId): State
    requires p < |t.nodes| && l < |t.nodes| && r < |t.nodes|
    requires t.nodes[p].WellSized() && 1 <= |t.nodes[p].keys| && 0 <= j <= |t.nodes[p].keys|
  {
    var n := t.nodes[p];
    var mp := Ceil(|n.keys|, 2);
    var halves := InternalHalves(n, j, key, r, mp);
    t.(nodes := Regrouped(t.nodes, p, halves.0, halves.1, l, r, if j >= mp then |t.nodes| else p))
  }

  /** The key putIntoParentAndSplit moves up. */
  function DividedKey(n: Node, j: int, key: Bytes, r: NodeId): Bytes
    requires n.WellSized() && 1 <= |n.keys| && 0 <= j <= |n.keys|
  {
    InternalHalves(n, j, key, r, Ceil(|n.keys|, 2)).2
  }

  predicate DividePre(t: State, sh: Shape, pd: Pending, j: int)
    requires Fits(t, sh, pd)
  {
    && t.order >= 3 && AtSlot(t, sh, pd, j)
    && Local(t.order, t.nodes[pd.parent.value])
    && t.nodes[pd.parent.value].keyNum == |t.nodes[pd.parent.value].keys|
  }

  /** A child pointer is in a sequence padded with nil slots exactly when it
      is in the unpadded part. */
  lemma InPadded(a: seq<Pointer>, k: nat, x: NodeId)
    ensures Child(x) in a + Fill(k, Nil) <==> Child(x) in a
  {
    if Child(x) in a + Fill(k, Nil) {
      var i :| 0 <= i < |a| + k && (a + Fill(k, Nil))[i] == Child(x);
      assert i < |a|;
      assert a[i] == Child(x);
    }
    if Child(x) in a {
      var i :| 0 <= i < |a| && a[i] == Child(x);
      assert (a + Fill(k, Nil))[i] == Child(x);
    }
  }

  /** An element of a sequence without repeats is on one side of a cut only. */
  lemma DistinctCut<T>(s: seq<T>, k: int, i: int)
    requires 0 <= k <= |s| && 0 <= i < |s|
    requires forall a, b :: 0 <= a < b < |s| ==> s[a] != s[b]
    ensures (i < k ==> s[i] in s[..k] && s[i] !in s[k..]) && (i >= k ==> s[i] in s[k..] && s[i] !in s[..k])
  {
    if i < k {
      assert s[..k][i] == s[i];
    } else {
      assert s[k..][i - k] == s[i];
    }
  }

  /** Which half lists a child of the combined node. */
  lemma DivideMembers(order: int, n: Node, j: int, key: Bytes, r: NodeId, x: NodeId)
    requires order >= 3 && |n.keys| == order - 1 && n.WellSized() && n.keyNum == |n.keys| && 0 <= j <= n.keyNum
    ensures var v, mp := Combined(n, j, key, r), Ceil(|n.keys|, 2);
            var halves := InternalHalves(n, j, key, r, mp);
            && (Child(x) in halves.0.pointers <==> Child(x) in v.pointers[..mp + 1])
            && (Child(x) in halves.1.pointers <==> Child(x) in v.pointers[mp + 1..])
  {
    var v, mp := Combined(n, j, key, r), Ceil(|n.keys|, 2);
    SplitSizes(order);
    var L := |n.keys|;
    assert n.pointers == n.Kids();
    assert v.pointers == v.Kids() == SeqInsert(n.pointers, j + 1, Child(r));
    InPadded(v.pointers[..mp + 1], L - mp, x);
    InPadded(v.pointers[mp + 1..], mp, x);
  }

  /** A child is listed by one of the halves exactly when the combined node
      lists it. */
  lemma DivideListed(order: int, n: Node, j: int, key: Bytes, r: NodeId, x: NodeId)
    requires order >= 3 && |n.keys| == order - 1 && n.WellSized() && n.keyNum == |n.keys| && 0 <= j <= n.keyNum
    ensures var v := Combined(n, j, key, r);
            var halves := InternalHalves(n, j, key, r, Ceil(|n.keys|, 2));
            (Child(x) in halves.0.pointers || Child(x) in halves.1.pointers) <==> Child(x) in v.pointers
  {
    var v, mp := Combined(n, j, key, r), Ceil(|n.keys|, 2);
    SplitSizes(order);
    DivideMembers(order, n, j, key, r, x);
    assert v.pointers == v.pointers[..mp + 1] + v.pointers[mp + 1..];
  }

  /** l and r are listed by the halves, and neither is p. */
  lemma DivideEnds(t: State, sh: Shape, pd: Pending, j: int)
    requires Fits(t, sh, pd) && DividePre(t, sh, pd, j)
    ensures var n := t.nodes[pd.parent.value];
            var halves := InternalHalves(n, j, pd.key, pd.right, Ceil(|n.keys|, 2));
            && pd.parent.value != pd.left && pd.parent.value != pd.right
            && Child(pd.left) in Combined(n, j, pd.key, pd.right).pointers
            && Child(pd.right) in Combined(n, j, pd.key, pd.right).pointers
            && (Child(pd.left) in halves.0.pointers || Child(pd.left) in halves.1.pointers)
            && (Child(pd.right) in halves.0.pointers || Child(pd.right) in halves.1.pointers)
  {
    var n := t.nodes[pd.parent.value];
    var v := Combined(n, j, pd.key, pd.right);
    ParentApart(t, sh, pd, j);
    assert v.pointers == v.Kids();
    assert v.pointers[j] == n.pointers[j] == Child(pd.left);
    assert v.pointers[j + 1] == Child(pd.right);
    DivideListed(t.order, n, j, pd.key, pd.right, pd.left);
    DivideListed(t.order, n, j, pd.key, pd.right, pd.right);
  }

  /** The combined node lists neither itself nor the node about to be
      appended. */
  lemma DivideSelfFree(t: State, sh: Shape, pd: Pending, j: int)
    requires Fits(t, sh, pd) && DividePre(t, sh, pd, j)
    ensures var v := Combined(t.nodes[pd.parent.value], j, pd.key, pd.right);
            Child(pd.parent.value) !in v.pointers && Child(|t.nodes|) !in v.pointers
  {
    var v := Combined(t.nodes[pd.parent.value], j, pd.key, pd.right);
    forall s | 0 <= s <= v.keyNum ensures v.pointers[s] != Child(pd.parent.value) && v.pointers[s] != Child(|t.nodes|) {
      assert CombinedKid(t, sh, pd, v, s);
    }
  }

  /** After putIntoParentAndSplit, p holds the left half and the new node m
      the right half. */
  lemma DivideHalves(t: State, sh: Shape, pd: Pending, j: int)
    requires Fits(t, sh, pd) && DividePre(t, sh, pd, j)
    ensures var p, n, m := pd.parent.value, t.nodes[pd.parent.value], |t.nodes|;
            var halves := InternalHalves(n, j, pd.key, pd.right, Ceil(|n.keys|, 2));
            var t' := Divided(t, p, j, pd.key, pd.left, pd.right);
            && |t'.nodes| == m + 1 && t'.order == t.order && t'.root == t.root && t'.leftmost == t.leftmost
            && t'.nodes[p] == halves.0 && t'.nodes[m] == halves.1
  {
    var p, n, m := pd.parent.value, t.nodes[pd.parent.value], |t.nodes|;
    var mp := Ceil(|n.keys|, 2);
    var halves := InternalHalves(n, j, pd.key, pd.right, mp);
    var v := Combined(n, j, pd.key, pd.right);
    DivideEnds(t, sh, pd, j);
    DivideSelfFree(t, sh, pd, j);
    DivideListed(t.order, n, j, pd.key, pd.right, p);
    DivideListed(t.order, n, j, pd.key, pd.right, m);
    RegroupedAt(t.nodes, p, halves.0, halves.1, pd.left, pd.right, if j >= mp then m else p, p);
    RegroupedAt(t.nodes, p, halves.0, halves.1, pd.left, pd.right, if j >= mp then m else p, m);
  }

  /** After putIntoParentAndSplit, any other node of the arena keeps all but
      its parent, and keeps that too unless the combined node lists it. */
  lemma DivideRest(t: State, sh: Shape, pd: Pending, j: int, x: NodeId)
    requires Fits(t, sh, pd) && DividePre(t, sh, pd, j) && x < |t.nodes| && x != pd.parent.value
    ensures var p, n := pd.parent.value, t.nodes[pd.parent.value];
            var v := Combined(n, j, pd.key, pd.right);
            var t' := Divided(t, p, j, pd.key, pd.left, pd.right);
            && |t'.nodes| == |t.nodes| + 1
            && t'.nodes[x] == t.nodes[x].(parent := t'.nodes[x].parent)
            && (Child(x) !in v.pointers ==> t'.nodes[x] == t.nodes[x])
  {
    var p, n, m := pd.parent.value, t.nodes[pd.parent.value], |t.nodes|;
    var mp := Ceil(|n.keys|, 2);
    var halves := InternalHalves(n, j, pd.key, pd.right, mp);
    DivideEnds(t, sh, pd, j);
    DivideListed(t.order, n, j, pd.key, pd.right, x);
    RegroupedAt(t.nodes, p, halves.0, halves.1, pd.left, pd.right, if j >= mp then m else p, x);
  }

  /** The tree after putIntoParentAndSplit, its shape and what is pending:
      p's right half, to go into p's parent. */
  function DividedState(t: State, sh: Shape, pd: Pending, j: int): State
    requires Fits(t, sh, pd) && DividePre(t, sh, pd, j)
  {
    Divided(t, pd.parent.value, j, pd.key, pd.left, pd.right)
  }

  function DividedShape(t: State, sh: Shape, pd: Pending, j: int): Shape
    requires Fits(t, sh, pd) && DividePre(t, sh, pd, j)
  {
    var p := pd.parent.value;
    HalvedShape(sh, p, DividedKey(t.nodes[p], j, pd.key, pd.right), sh.leaves)
  }

  function DividedPending(t: State, sh: Shape, pd: Pending, j: int): Pending
    requires Fits(t, sh, pd) && DividePre(t, sh, pd, j)
  {
    var p := pd.parent.value;
    Split(t.nodes[p].parent, p, |t.nodes|, DividedKey(t.nodes[p], j, pd.key, pd.right))
  }

  /** Child slot s of the combined node: its node now answers to the half
      the slot went into. */
  lemma DivideAdopt(t: State, sh: Shape, pd: Pending, j: int, s: int)
    requires Fits(t, sh, pd) && DividePre(t, sh, pd, j)
    requires 0 <= s <= t.nodes[pd.parent.value].keyNum + 1
    ensures var p, n, m := pd.parent.value, t.nodes[pd.parent.value], |t.nodes|;
            var v := Combined(n, j, pd.key, pd.right);
            var t' := Divided(t, p, j, pd.key, pd.left, pd.right);
            && CombinedKid(t, sh, pd, v, s) && |t'.nodes| == m + 1
            && t'.nodes[v.pointers[s].id].parent == Some(if s <= Ceil(|n.keys|, 2) then p else m)
  {
    var p, n, m := pd.parent.value, t.nodes[pd.parent.value], |t.nodes|;
    var mp := Ceil(|n.keys|, 2);
    var halves := InternalHalves(n, j, pd.key, pd.right, mp);
    var v := Combined(n, j, pd.key, pd.right);
    assert CombinedKid(t, sh, pd, v, s);
    var c := v.pointers[s].id;
    SplitSizes(t.order);
    DistinctCut(v.pointers, mp + 1, s);
    DivideMembers(t.order, n, j, pd.key, pd.right, c);
    DivideEnds(t, sh, pd, j);
    RegroupedAt(t.nodes, p, halves.0, halves.1, pd.left, pd.right, if j >= mp then m else p, c);
  }

  /** What the halves of putIntoParentAndSplit look like, slot by slot:
      left has the combined node's first mp keys and mp + 1 children and
      answers for the range below mid; right has the rest past mid and
      answers for the range from mid on. */
  predicate HalvesOK(t: State, sh: Shape, pd: Pending, j: int, mp: int, left: Node, right: Node, mid: Bytes)
    requires Fits(t, sh, pd) && DividePre(t, sh, pd, j)
  {
    var p, n := pd.parent.value, t.nodes[pd.parent.value];
    var v := Combined(n, j, pd.key, pd.right);
    && 1 <= mp < |n.keys| && mid == v.keys[mp]
    && !left.leaf && !right.leaf && left.parent == n.parent && right.parent == None
    && Local(t.order, left) && Local(t.order, right)
    && left.keyNum == mp && right.keyNum == |n.keys| - mp
    && (forall i :: 0 <= i < mp ==> left.keys[i] == v.keys[i])
    && (forall i :: 0 <= i < right.keyNum ==> right.keys[i] == v.keys[mp + 1 + i])
    && (forall s :: 0 <= s <= mp ==> left.pointers[s] == v.pointers[s])
    && (forall s :: 0 <= s <= right.keyNum ==> right.pointers[s] == v.pointers[mp + 1 + s])
    && BoundLess(sh.lo[p], At(mid)) && BoundLess(At(mid), sh.hi[p])
    && (forall i :: 0 <= i < left.keyNum ==> InRange(left.keys[i], sh.lo[p], At(mid)))
    && (forall i :: 0 <= i < right.keyNum ==> InRange(right.keys[i], At(mid), sh.hi[p]))
  }

  lemma DivideHalvesOK(t: State, sh: Shape, pd: Pending, j: int, mp: int)
    requires Fits(t, sh, pd) && DividePre(t, sh, pd, j) && 1 <= mp < |t.nodes[pd.parent.value].keys|
    ensures var n := t.nodes[pd.parent.value];
            var halves := InternalHalves(n, j, pd.key, pd.right, mp);
            HalvesOK(t, sh, pd, j, mp, halves.0, halves.1, halves.2)
  {
    var p, n := pd.parent.value, t.nodes[pd.parent.value];
    var v := Combined(n, j, pd.key, pd.right);
    var halves := InternalHalves(n, j, pd.key, pd.right, mp);
    var left, right, mid := halves.0, halves.1, halves.2;
    DivideParts(t.order, n, j, pd.key, pd.right, mp);
    DivideRanges(v, mp, left, right, mid, sh.lo[p], sh.hi[p]);
    forall i | 0 <= i < mp ensures left.keys[i] == v.keys[i] {
      assert left.keys[i] == left.Keys()[i];
    }
    forall i | 0 <= i < right.keyNum ensures right.keys[i] == v.keys[mp + 1 + i] {
      assert right.keys[i] == right.Keys()[i];
    }
  }

  /** Where putIntoParentAndSplit leaves each node: p holds left, the
      appended node right, every other node keeps all but its parent, and the
      combined node's children answer to their half. */
  predicate Layout(t: State, sh: Shape, pd: Pending, j: int, mp: int, left: Node, right: Node, mid: Bytes,
                   t': State, sh': Shape, pd': Pending)
    requires Fits(t, sh, pd) && DividePre(t, sh, pd, j)
  {
    var p, n, m := pd.parent.value, t.nodes[pd.parent.value], |t.nodes|;
    var v := Combined(n, j, pd.key, pd.right);
    && |t'.nodes| == m + 1 && t'.order == t.order && t'.root == t.root && t'.leftmost == t.leftmost
    && sh' == HalvedShape(sh, p, mid, sh.leaves) && pd' == Split(n.parent, p, m, mid)
    && t'.nodes[p] == left && t'.nodes[m] == right
    && (forall x :: 0 <= x < m && x != p ==> t'.nodes[x] == t.nodes[x].(parent := t'.nodes[x].parent))
    && (forall x :: 0 <= x < m && x != p && Child(x) !in v.pointers ==> t'.nodes[x] == t.nodes[x])
    && p != pd.left && p != pd.right && Child(pd.left) in v.pointers && Child(pd.right) in v.pointers
    && (forall s :: 0 <= s <= v.keyNum ==>
          (CombinedKid(t, sh, pd, v, s) && t'.nodes[v.pointers[s].id].parent == Some(if s <= mp then p else m)))
  }

  predicate Divides(t: State, sh: Shape, pd: Pending, j: int, mp: int, left: Node, right: Node, mid: Bytes,
                    t': State, sh': Shape, pd': Pending)
    requires Fits(t, sh, pd) && DividePre(t, sh, pd, j)
  {
    HalvesOK(t, sh, pd, j, mp, left, right, mid) && Layout(t, sh, pd, j, mp, left, right, mid, t', sh', pd')
  }

  lemma DivideLaid(t: State, sh: Shape, pd: Pending, j: int)
    requires Fits(t, sh, pd) && DividePre(t, sh, pd, j)
    ensures var n := t.nodes[pd.parent.value];
            var halves := InternalHalves(n, j, pd.key, pd.right, Ceil(|n.keys|, 2));
            Layout(t, sh, pd, j, Ceil(|n.keys|, 2), halves.0, halves.1, halves.2,
                   DividedState(t, sh, pd, j), DividedShape(t, sh, pd, j), DividedPending(t, sh, pd, j))
  {
    DivideHalves(t, sh, pd, j);
    DivideEnds(t, sh, pd, j);
    DivideKept(t, sh, pd, j);
    DivideAdopted(t, sh, pd, j);
  }

  /** The nodes other than p keep everything but possibly their parent
      field, and the ones p does not list keep that too. */
  lemma DivideKept(t: State, sh: Shape, pd: Pending, j: int)
    requires Fits(t, sh, pd) && DividePre(t, sh, pd, j)
    ensures var p, n, m := pd.parent.value, t.nodes[pd.parent.value], |t.nodes|;
            var v := Combined(n, j, pd.key, pd.right);
            var t' := DividedState(t, sh, pd, j);
            |t'.nodes| == m + 1 &&
            forall x :: 0 <= x < m && x != p ==>
              && t'.nodes[x] == t.nodes[x].(parent := t'.nodes[x].parent)
              && (Child(x) !in v.pointers ==> t'.nodes[x] == t.nodes[x])
  {
    var p, m := pd.parent.value, |t.nodes|;
    DivideHalves(t, sh, pd, j);
    forall x | 0 <= x < m && x != p
      ensures var t' := Divided(t, p, j, pd.key, pd.left, pd.right);
              && t'.nodes[x] == t.nodes[x].(parent := t'.nodes[x].parent)
              && (Child(x) !in Combined(t.nodes[p], j, pd.key, pd.right).pointers ==> t'.nodes[x] == t.nodes[x])
    {
      DivideRest(t, sh, pd, j, x);
    }
  }

  /** Every child of the combined node answers to the half that lists it. */
  lemma DivideAdopted(t: State, sh: Shape, pd: Pending, j: int)
    requires Fits(t, sh, pd) && DividePre(t, sh, pd, j)
    ensures var p, n, m := pd.parent.value, t.nodes[pd.parent.value], |t.nodes|;
            var v := Combined(n, j, pd.key, pd.right);
            var t' := DividedState(t, sh, pd, j);
            |t'.nodes| == m + 1 &&
            forall s :: 0 <= s <= v.keyNum ==>
              CombinedKid(t, sh, pd, v, s) && t'.nodes[v.pointers[s].id].parent == Some(if s <= Ceil(|n.keys|, 2) then p else m)
  {
    var p, n, m := pd.parent.value, t.nodes[pd.parent.value], |t.nodes|;
    var v := Combined(n, j, pd.key, pd.right);
    DivideHalves(t, sh, pd, j);
    forall s | 0 <= s <= v.keyNum
      ensures var t' := Divided(t, p, j, pd.key, pd.left, pd.right);
              CombinedKid(t, sh, pd, v, s) && t'.nodes[v.pointers[s].id].parent == Some(if s <= Ceil(|n.keys|, 2) then p else m)
    {
      DivideAdopt(t, sh, pd, j, s);
    }
  }

  /** A node of the wrong height is not a child of the combined node. */
  lemma NotCombined(t: State, sh: Shape, pd: Pending, j: int, y: NodeId)
    requires Fits(t, sh, pd) && DividePre(t, sh, pd, j) && y < |t.nodes|
    requires sh.height[y] + 1 != sh.height[pd.parent.value]
    ensures Child(y) !in Combined(t.nodes[pd.parent.value], j, pd.key, pd.right).pointers
  {
    var v := Combined(t.nodes[pd.parent.value], j, pd.key, pd.right);
    forall s | 0 <= s <= v.keyNum ensures v.pointers[s] != Child(y) {
      assert CombinedKid(t, sh, pd, v, s);
    }
  }

  /** Changing a node's parent field changes nothing else about it. */
  lemma Reparented(n: Node, g: Option<NodeId>)
    ensures var n' := n.(parent := g);
            && n'.leaf == n.leaf && n'.WellSized() == n.WellSized() && n'.Next() == n.Next()
            && (n.WellSized() ==> n'.Kids() == n.Kids() && n'.Keys() == n.Keys() && n'.Entries() == n.Entries())
  {
  }

  /** A node other than p keeps its range and height. */
  lemma DivShapeAt(t: State, sh: Shape, pd: Pending, j: int, mp: int, left: Node, right: Node, mid: Bytes,
                   t': State, sh': Shape, pd': Pending, x: NodeId)
    requires Fits(t, sh, pd) && DividePre(t, sh, pd, j) && Layout(t, sh, pd, j, mp, left, right, mid, t', sh', pd')
    requires x < |t.nodes| && x != pd.parent.value
    ensures Fits(t', sh', pd')
    ensures sh'.lo[x] == sh.lo[x] && sh'.hi[x] == sh.hi[x] && sh'.height[x] == sh.height[x]
    ensures sh'.leaves == sh.leaves && sh'.dead == sh.dead
  {
    var p, m := pd.parent.value, |t.nodes|;
    assert sh' == HalvedShape(sh, p, mid, sh.leaves) && |t'.nodes| == m + 1;
    HalvedKeeps(sh, p, mid, sh.leaves, x);
  }

  /** Halving node p leaves the range and height of every other node. */
  lemma HalvedKeeps(sh: Shape, p: NodeId, key: Bytes, leaves: seq<NodeId>, x: NodeId)
    requires |sh.lo| == |sh.hi| == |sh.height| && p < |sh.hi| && x < |sh.hi| && x != p
    ensures var s' := HalvedShape(sh, p, key, leaves);
            && |s'.lo| == |s'.hi| == |s'.height| == |sh.lo| + 1
            && s'.lo[x] == sh.lo[x] && s'.hi[x] == sh.hi[x] && s'.height[x] == sh.height[x]
            && s'.leaves == leaves && s'.dead == sh.dead
  {
  }

  /** A node other than p keeps its range and height, and all but its
      parent field. */
  lemma DivView(t: State, sh: Shape, pd: Pending, j: int, mp: int, left: Node, right: Node, mid: Bytes,
                t': State, sh': Shape, pd': Pending, x: NodeId)
    requires Fits(t, sh, pd) && DividePre(t, sh, pd, j) && Layout(t, sh, pd, j, mp, left, right, mid, t', sh', pd')
    requires x < |t.nodes| && x != pd.parent.value
    ensures Fits(t', sh', pd')
    ensures sh'.lo[x] == sh.lo[x] && sh'.hi[x] == sh.hi[x] && sh'.height[x] == sh.height[x]
    ensures sh'.leaves == sh.leaves && sh'.dead == sh.dead
    ensures t'.nodes[x] == t.nodes[x].(parent := t'.nodes[x].parent) && UpOf(t', sh', x) == UpOf(t, sh, x)
  {
    DivShapeAt(t, sh, pd, j, mp, left, right, mid, t', sh', pd', x);
    assert t'.nodes[x] == t.nodes[x].(parent := t'.nodes[x].parent);
    Reparented(t.nodes[x], t'.nodes[x].parent);
  }

  /** A node the combined node does not list, other than p, is untouched
      and keeps its view. */
  lemma DivSame(t: State, sh: Shape, pd: Pending, j: int, mp: int, left: Node, right: Node, mid: Bytes,
                t': State, sh': Shape, pd': Pending, x: NodeId)
    requires Fits(t, sh, pd) && DividePre(t, sh, pd, j) && Layout(t, sh, pd, j, mp, left, right, mid, t', sh', pd')
    requires x < |t.nodes| && x != pd.parent.value
    requires Child(x) !in Combined(t.nodes[pd.parent.value], j, pd.key, pd.right).pointers
    ensures Fits(t', sh', pd')
    ensures t'.nodes[x] == t.nodes[x] && ViewOf(t', sh', pd', x) == ViewOf(t, sh, pd, x)
  {
    DivView(t, sh, pd, j, mp, left, right, mid, t', sh', pd', x);
  }

  /** p keeps its view, now as the pending left half. */
  lemma DivSelfView(t: State, sh: Shape, pd: Pending, j: int, mp: int, left: Node, right: Node, mid: Bytes,
                    t': State, sh': Shape, pd': Pending)
    requires Fits(t, sh, pd) && DividePre(t, sh, pd, j) && Layout(t, sh, pd, j, mp, left, right, mid, t', sh', pd')
    requires left.parent == t.nodes[pd.parent.value].parent
    ensures var p := pd.parent.value;
            && Fits(t', sh', pd')
            && sh'.lo[p] == sh.lo[p] && sh'.hi[p] == At(mid) && sh'.height[p] == sh.height[p]
            && ViewOf(t', sh', pd', p) == ViewOf(t, sh, pd, p)
  {
  }

  /** The appended node is the pending right half, with the upper part of
      p's range. */
  lemma DivNewView(t: State, sh: Shape, pd: Pending, j: int, mp: int, left: Node, right: Node, mid: Bytes,
                   t': State, sh': Shape, pd': Pending)
    requires Fits(t, sh, pd) && DividePre(t, sh, pd, j) && Layout(t, sh, pd, j, mp, left, right, mid, t', sh', pd')
    requires right.parent == None && (t.root.Some? ==> t.root.value < |t.nodes|)
    ensures var p, m := pd.parent.value, |t.nodes|;
            && Fits(t', sh', pd')
            && sh'.lo[m] == At(mid) && sh'.hi[m] == sh.hi[p] && sh'.height[m] == sh.height[p]
            && ViewOf(t', sh', pd', m) == View(sh.height[p], At(mid), sh.hi[p], None, true, false, false)
  {
  }

  /** The node in slot s of the combined node keeps all but its parent and
      now answers to its half for its own range. */
  lemma DivKidView(t: State, sh: Shape, pd: Pending, j: int, mp: int, left: Node, right: Node, mid: Bytes,
                   t': State, sh': Shape, pd': Pending, s: int)
    requires Fits(t, sh, pd) && DividePre(t, sh, pd, j) && Layout(t, sh, pd, j, mp, left, right, mid, t', sh', pd')
    requires 0 <= s <= t.nodes[pd.parent.value].keyNum + 1
    ensures var p, n, m := pd.parent.value, t.nodes[pd.parent.value], |t.nodes|;
            var v := Combined(n, j, pd.key, pd.right);
            var c := v.pointers[s];
            var g := if s <= mp then p else m;
            && CombinedKid(t, sh, pd, v, s) && Fits(t', sh', pd')
            && t'.nodes[c.id] == t.nodes[c.id].(parent := Some(g))
            && ViewOf(t', sh', pd', c.id) == View(sh.height[c.id], sh.lo[c.id], sh.hi[c.id], Some(g), false, false, false)
  {
    var p, n := pd.parent.value, t.nodes[pd.parent.value];
    var v := Combined(n, j, pd.key, pd.right);
    assert CombinedKid(t, sh, pd, v, s);
  }

  /** A child that fits slot s of the combined node v, for s up to mp,
      fits slot s of the left half, whose range ends at mid. */
  lemma LeftSlotFits(v: Node, left: Node, mp: int, mid: Bytes, lo: Bound, hi: Bound, h: nat, i: NodeId, s: int, cv: View)
    requires v.WellSized() && left.WellSized() && left.keyNum == mp < v.keyNum && mid == v.keys[mp]
    requires forall k :: 0 <= k < mp ==> left.keys[k] == v.keys[k]
    requires 0 <= s <= mp && KidSpan(v, lo, hi, h, s, cv) && cv.parent == Some(i)
    ensures KidFits(left, lo, At(mid), h, i, s, cv)
  {
    if s > 0 {
      assert left.keys[s - 1] == v.keys[s - 1];
    }
    if s < mp {
      assert left.keys[s] == v.keys[s];
    }
  }

  /** A child that fits slot mp + 1 + s of the combined node v fits slot s
      of the right half, whose range starts at mid. */
  lemma RightSlotFits(v: Node, right: Node, mp: int, mid: Bytes, lo: Bound, hi: Bound, h: nat, i: NodeId, s: int, cv: View)
    requires v.WellSized() && right.WellSized() && 0 <= mp && right.keyNum == v.keyNum - mp - 1 && mid == v.keys[mp]
    requires forall k :: 0 <= k < right.keyNum ==> right.keys[k] == v.keys[mp + 1 + k]
    requires 0 <= s <= right.keyNum && KidSpan(v, lo, hi, h, mp + 1 + s, cv) && cv.parent == Some(i)
    ensures KidFits(right, At(mid), hi, h, i, s, cv)
  {
    if s > 0 {
      assert right.keys[s - 1] == v.keys[mp + s];
    }
    if s < right.keyNum {
      assert right.keys[s] == v.keys[mp + 1 + s];
    }
  }

  /** Slot s of the left half holds the combined node's child s. */
  lemma DivLeftSlot(t: State, sh: Shape, pd: Pending, j: int, mp: int, left: Node, right: Node, mid: Bytes,
                    t': State, sh': Shape, pd': Pending, s: int)
    requires Fits(t, sh, pd) && DividePre(t, sh, pd, j) && Divides(t, sh, pd, j, mp, left, right, mid, t', sh', pd')
    requires 0 <= s <= left.keyNum
    ensures Fits(t', sh', pd') && t'.nodes[pd.parent.value].WellSized() && s <= t'.nodes[pd.parent.value].keyNum
    ensures KidOK(t', sh', pd', pd.parent.value, s)
  {
    var p, n := pd.parent.value, t.nodes[pd.parent.value];
    var v := Combined(n, j, pd.key, pd.right);
    DivKidView(t, sh, pd, j, mp, left, right, mid, t', sh', pd', s);
    DivSelfView(t, sh, pd, j, mp, left, right, mid, t', sh', pd');
    var c := v.pointers[s].id;
    assert left.pointers[s] == Child(c);
    LeftSlotFits(v, left, mp, mid, sh.lo[p], sh.hi[p], sh.height[p], p, s, ViewOf(t', sh', pd', c));
  }

  /** Slot s of the right half holds the combined node's child past mid. */
  lemma DivRightSlot(t: State, sh: Shape, pd: Pending, j: int, mp: int, left: Node, right: Node, mid: Bytes,
                     t': State, sh': Shape, pd': Pending, s: int)
    requires Fits(t, sh, pd) && DividePre(t, sh, pd, j) && Divides(t, sh, pd, j, mp, left, right, mid, t', sh', pd')
    requires (t.root.Some? ==> t.root.value < |t.nodes|) && 0 <= s <= right.keyNum
    ensures Fits(t', sh', pd') && t'.nodes[|t.nodes|].WellSized() && s <= t'.nodes[|t.nodes|].keyNum
    ensures KidOK(t', sh', pd', |t.nodes|, s)
  {
    var p, n, m := pd.parent.value, t.nodes[pd.parent.value], |t.nodes|;
    var v := Combined(n, j, pd.key, pd.right);
    DivKidView(t, sh, pd, j, mp, left, right, mid, t', sh', pd', mp + 1 + s);
    DivNewView(t, sh, pd, j, mp, left, right, mid, t', sh', pd');
    var c := v.pointers[mp + 1 + s].id;
    assert right.pointers[s] == Child(c);
    assert t'.nodes[m] == right;
    assert ViewOf(t', sh', pd', c).parent == Some(m);
    assert KidSpan(v, sh.lo[p], sh.hi[p], sh.height[p], mp + 1 + s, ViewOf(t', sh', pd', c));
    RightSlotFits(v, right, mp, mid, sh.lo[p], sh.hi[p], sh.height[p], m, s, ViewOf(t', sh', pd', c));
  }

  /** p, now the left half, keeps the invariant: its children are the
      combined node's first mp + 1, and its parent still lists it. */
  lemma DivLeft(t: State, sh: Shape, pd: Pending, j: int, mp: int, left: Node, right: Node, mid: Bytes,
                t': State, sh': Shape, pd': Pending)
    requires Fits(t, sh, pd) && DividePre(t, sh, pd, j) && Divides(t, sh, pd, j, mp, left, right, mid, t', sh', pd')
    requires NodeOK(t, sh, pd, pd.parent.value)
    ensures Fits(t', sh', pd') && NodeOK(t', sh', pd', pd.parent.value)
  {
    var p := pd.parent.value;
    DivSelfView(t, sh, pd, j, mp, left, right, mid, t', sh', pd');
    forall s | 0 <= s <= left.keyNum ensures KidOK(t', sh', pd', p, s) {
      DivLeftSlot(t, sh, pd, j, mp, left, right, mid, t', sh', pd', s);
    }
    if t.root != Some(p) {
      assert ParentOK(t, sh, pd, p);
      var g := t.nodes[p].parent.value;
      NotOwnKid(t, sh, pd, p);
      DivView(t, sh, pd, j, mp, left, right, mid, t', sh', pd', g);
    }
  }

  /** The appended node, the right half, keeps the invariant: its children
      are the combined node's past mid. */
  lemma DivRight(t: State, sh: Shape, pd: Pending, j: int, mp: int, left: Node, right: Node, mid: Bytes,
                 t': State, sh': Shape, pd': Pending)
    requires Fits(t, sh, pd) && DividePre(t, sh, pd, j) && Divides(t, sh, pd, j, mp, left, right, mid, t', sh', pd')
    requires NodeOK(t, sh, pd, pd.parent.value) && (t.root.Some? ==> t.root.value < |t.nodes|)
    ensures Fits(t', sh', pd') && NodeOK(t', sh', pd', |t.nodes|)
  {
    var m := |t.nodes|;
    DivNewView(t, sh, pd, j, mp, left, right, mid, t', sh', pd');
    forall s | 0 <= s <= right.keyNum ensures KidOK(t', sh', pd', m, s) {
      DivRightSlot(t, sh, pd, j, mp, left, right, mid, t', sh', pd', s);
    }
  }

  /** The combined node lists every child of p. */
  lemma KidsCombined(n: Node, j: int, key: Bytes, r: NodeId, y: NodeId)
    requires n.WellSized() && 0 <= j <= n.keyNum && Child(y) in n.Kids()
    ensures Child(y) in Combined(n, j, key, r).pointers
  {
    var v := Combined(n, j, key, r);
    var s := IndexOf(n.Kids(), Child(y));
    assert v.pointers == v.Kids();
    if s <= j {
      assert v.Kids()[s] == Child(y);
    } else {
      assert v.Kids()[s + 1] == Child(y);
    }
  }

  /** A node answering to a node other than p, and not a pending right
      half, is not a child of the combined node. */
  lemma NotCombinedKid(t: State, sh: Shape, pd: Pending, j: int, i: NodeId, y: NodeId)
    requires Fits(t, sh, pd) && DividePre(t, sh, pd, j) && y < |t.nodes| && i != pd.parent.value
    requires ViewOf(t, sh, pd, y).parent == Some(i) && !ViewOf(t, sh, pd, y).right
    ensures Child(y) !in Combined(t.nodes[pd.parent.value], j, pd.key, pd.right).pointers
  {
    var v := Combined(t.nodes[pd.parent.value], j, pd.key, pd.right);
    forall s | 0 <= s <= v.keyNum ensures v.pointers[s] != Child(y) {
      assert CombinedKid(t, sh, pd, v, s);
    }
  }

  /** The children of a child of the combined node keep their views. */
  lemma DivGrandkids(t: State, sh: Shape, pd: Pending, j: int, mp: int, left: Node, right: Node, mid: Bytes,
                     t': State, sh': Shape, pd': Pending, c: NodeId)
    requires Fits(t, sh, pd) && DividePre(t, sh, pd, j) && Layout(t, sh, pd, j, mp, left, right, mid, t', sh', pd')
    requires c < |t.nodes| && NodeOK(t, sh, pd, c) && sh.height[c] + 1 == sh.height[pd.parent.value]
    ensures Fits(t', sh', pd')
    ensures !t.nodes[c].leaf ==> forall q :: 0 <= q <= t.nodes[c].keyNum ==>
              KidSame(t, sh, pd, t', sh', pd', t.nodes[c].pointers[q])
  {
    var nc := t.nodes[c];
    DivShapeAt(t, sh, pd, j, mp, left, right, mid, t', sh', pd', c);
    if !nc.leaf {
      forall q | 0 <= q <= nc.keyNum ensures KidSame(t, sh, pd, t', sh', pd', nc.pointers[q]) {
        assert KidOK(t, sh, pd, c, q);
        var y := nc.pointers[q].id;
        NotCombined(t, sh, pd, j, y);
        DivSame(t, sh, pd, j, mp, left, right, mid, t', sh', pd', y);
      }
    }
  }

  /** The half a child of the combined node went into lists it. */
  lemma DivListed(t: State, sh: Shape, pd: Pending, j: int, mp: int, left: Node, right: Node, mid: Bytes,
                  t': State, sh': Shape, pd': Pending, s: int)
    requires Fits(t, sh, pd) && DividePre(t, sh, pd, j) && Divides(t, sh, pd, j, mp, left, right, mid, t', sh', pd')
    requires 0 <= s <= t.nodes[pd.parent.value].keyNum + 1
    ensures var v := Combined(t.nodes[pd.parent.value], j, pd.key, pd.right);
            var g := if s <= mp then pd.parent.value else |t.nodes|;
            && Fits(t', sh', pd') && g < |t'.nodes|
            && UpFits(v.pointers[s].id, UpOf(t', sh', g))
  {
    var v := Combined(t.nodes[pd.parent.value], j, pd.key, pd.right);
    if s <= mp {
      assert left.Kids()[s] == left.pointers[s] == v.pointers[s];
    } else {
      assert right.Kids()[s - mp - 1] == right.pointers[s - mp - 1] == v.pointers[s];
    }
  }

  /** A child of the combined node keeps the invariant: it answers to its
      half, which lists it, and its own children are untouched. */
  lemma DivKid(t: State, sh: Shape, pd: Pending, j: int, mp: int, left: Node, right: Node, mid: Bytes,
               t': State, sh': Shape, pd': Pending, s: int, c: NodeId)
    requires Fits(t, sh, pd) && DividePre(t, sh, pd, j) && Divides(t, sh, pd, j, mp, left, right, mid, t', sh', pd')
    requires 0 <= s <= t.nodes[pd.parent.value].keyNum + 1
    requires Combined(t.nodes[pd.parent.value], j, pd.key, pd.right).pointers[s] == Child(c)
    requires c < |t.nodes| && NodeOK(t, sh, pd, c)
    ensures Fits(t', sh', pd') && NodeOK(t', sh', pd', c)
  {
    DivKidView(t, sh, pd, j, mp, left, right, mid, t', sh', pd', s);
    DivShapeAt(t, sh, pd, j, mp, left, right, mid, t', sh', pd', c);
    DivGrandkids(t, sh, pd, j, mp, left, right, mid, t', sh', pd', c);
    DivListed(t, sh, pd, j, mp, left, right, mid, t', sh', pd', s);
    NodeKept(t, sh, pd, t', sh', pd', c);
  }

  /** Every other node keeps the invariant: it, its view and its
      children's views are untouched, and its parent is not p. */
  lemma DivOther(t: State, sh: Shape, pd: Pending, j: int, mp: int, left: Node, right: Node, mid: Bytes,
                 t': State, sh': Shape, pd': Pending, i: NodeId)
    requires Fits(t, sh, pd) && DividePre(t, sh, pd, j) && Layout(t, sh, pd, j, mp, left, right, mid, t', sh', pd')
    requires i < |t.nodes| && i != pd.parent.value && NodeOK(t, sh, pd, i)
    requires Child(i) !in Combined(t.nodes[pd.parent.value], j, pd.key, pd.right).pointers
    requires left.parent == t.nodes[pd.parent.value].parent
    ensures Fits(t', sh', pd') && NodeOK(t', sh', pd', i)
  {
    var p, n := pd.parent.value, t.nodes[pd.parent.value];
    DivSame(t, sh, pd, j, mp, left, right, mid, t', sh', pd', i);
    DivView(t, sh, pd, j, mp, left, right, mid, t', sh', pd', i);
    var ni := t.nodes[i];
    if !ni.leaf {
      forall q | 0 <= q <= ni.keyNum ensures KidSame(t, sh, pd, t', sh', pd', ni.pointers[q]) {
        assert KidOK(t, sh, pd, i, q);
        var y := ni.pointers[q].id;
        if y == p {
          DivSelfView(t, sh, pd, j, mp, left, right, mid, t', sh', pd');
        } else {
          NotCombinedKid(t, sh, pd, j, i, y);
          DivSame(t, sh, pd, j, mp, left, right, mid, t', sh', pd', y);
        }
      }
    }
    var g := EffParent(t, pd, i);
    if g.Some? && g.value < |t.nodes| && UpFits(i, UpOf(t, sh, g.value)) {
      if g.value == p {
        KidsCombined(n, j, pd.key, pd.right, i);
      } else {
        DivView(t, sh, pd, j, mp, left, right, mid, t', sh', pd', g.value);
      }
    }
    NodeFrame(t, sh, pd, t', sh', pd', i);
  }

  lemma DivNode(t: State, sh: Shape, pd: Pending, j: int, mp: int, left: Node, right: Node, mid: Bytes,
                t': State, sh': Shape, pd': Pending, i: NodeId)
    requires Fits(t, sh, pd) && DividePre(t, sh, pd, j) && Divides(t, sh, pd, j, mp, left, right, mid, t', sh', pd')
    requires NodeOK(t, sh, pd, pd.parent.value) && (t.root.Some? ==> t.root.value < |t.nodes|)
    requires i < |t'.nodes| && i !in sh'.dead && (i < |t.nodes| ==> NodeOK(t, sh, pd, i))
    ensures Fits(t', sh', pd') && NodeOK(t', sh', pd', i)
  {
    var p, n, m := pd.parent.value, t.nodes[pd.parent.value], |t.nodes|;
    var v := Combined(n, j, pd.key, pd.right);
    DivSelfView(t, sh, pd, j, mp, left, right, mid, t', sh', pd');
    if i == p {
      DivLeft(t, sh, pd, j, mp, left, right, mid, t', sh', pd');
    } else if i == m {
      DivRight(t, sh, pd, j, mp, left, right, mid, t', sh', pd');
    } else {
      DivShapeAt(t, sh, pd, j, mp, left, right, mid, t', sh', pd', i);
      DivOld(t, sh, pd, j, mp, left, right, mid, t', sh', pd', i);
    }
  }

  /** Any old node other than p keeps the invariant. */
  lemma DivOld(t: State, sh: Shape, pd: Pending, j: int, mp: int, left: Node, right: Node, mid: Bytes,
               t': State, sh': Shape, pd': Pending, i: NodeId)
    requires Fits(t, sh, pd) && DividePre(t, sh, pd, j) && Divides(t, sh, pd, j, mp, left, right, mid, t', sh', pd')
    requires i < |t.nodes| && i != pd.parent.value && NodeOK(t, sh, pd, i)
    ensures Fits(t', sh', pd') && NodeOK(t', sh', pd', i)
  {
    var v := Combined(t.nodes[pd.parent.value], j, pd.key, pd.right);
    if Child(i) in v.pointers {
      var s := IndexOf(v.pointers, Child(i));
      DivKid(t, sh, pd, j, mp, left, right, mid, t', sh', pd', s, i);
    } else {
      DivOther(t, sh, pd, j, mp, left, right, mid, t', sh', pd', i);
    }
  }

  lemma DivNodes(t: State, sh: Shape, pd: Pending, j: int, mp: int, left: Node, right: Node, mid: Bytes,
                 t': State, sh': Shape, pd': Pending)
    requires Fits(t, sh, pd) && DividePre(t, sh, pd, j) && Divides(t, sh, pd, j, mp, left, right, mid, t', sh', pd')
    requires AllNodesOK(t, sh, pd) && (t.root.Some? ==> t.root.value < |t.nodes|)
    ensures Fits(t', sh', pd') && AllNodesOK(t', sh', pd')
  {
    DivSelfView(t, sh, pd, j, mp, left, right, mid, t', sh', pd');
    DivShapeAt(t, sh, pd, j, mp, left, right, mid, t', sh', pd', pd.left);
    forall i | 0 <= i < |t'.nodes| && i !in sh'.dead ensures NodeOK(t', sh', pd', i) {
      DivNode(t, sh, pd, j, mp, left, right, mid, t', sh', pd', i);
    }
  }

  /** The root is not a child of the combined node. */
  lemma RootNotCombined(t: State, sh: Shape, pd: Pending, j: int, x: NodeId)
    requires Fits(t, sh, pd) && DividePre(t, sh, pd, j) && t.root == Some(x)
    ensures Child(x) !in Combined(t.nodes[pd.parent.value], j, pd.key, pd.right).pointers
  {
    var v := Combined(t.nodes[pd.parent.value], j, pd.key, pd.right);
    forall s | 0 <= s <= v.keyNum ensures v.pointers[s] != Child(x) {
      assert CombinedKid(t, sh, pd, v, s);
    }
  }

  /** The root stays, at its height, with no parent and the full range;
      the new pending split is p's, with p's parent as its parent. */
  lemma DivRoot(t: State, sh: Shape, pd: Pending, j: int, mp: int, left: Node, right: Node, mid: Bytes,
                t': State, sh': Shape, pd': Pending)
    requires Fits(t, sh, pd) && DividePre(t, sh, pd, j) && Divides(t, sh, pd, j, mp, left, right, mid, t', sh', pd')
    requires RootOK(t, sh, pd) && PendingOK(t, sh, pd) && NodeOK(t, sh, pd, pd.parent.value)
    ensures Fits(t', sh', pd') && RootOK(t', sh', pd') && PendingOK(t', sh', pd')
  {
    var p, m := pd.parent.value, |t.nodes|;
    var x := t.root.value;
    DivSelfView(t, sh, pd, j, mp, left, right, mid, t', sh', pd');
    DivNewView(t, sh, pd, j, mp, left, right, mid, t', sh', pd');
    if x != p {
      RootNotCombined(t, sh, pd, j, x);
      DivSame(t, sh, pd, j, mp, left, right, mid, t', sh', pd', x);
      DivShapeAt(t, sh, pd, j, mp, left, right, mid, t', sh', pd', x);
    }
    DivHeights(t, sh, pd, j, mp, left, right, mid, t', sh', pd');
    if t.root != Some(p) {
      assert ParentOK(t, sh, pd, p);
    }
  }

  /** No node rises above the root. */
  lemma DivHeights(t: State, sh: Shape, pd: Pending, j: int, mp: int, left: Node, right: Node, mid: Bytes,
                   t': State, sh': Shape, pd': Pending)
    requires Fits(t, sh, pd) && DividePre(t, sh, pd, j) && Divides(t, sh, pd, j, mp, left, right, mid, t', sh', pd')
    requires RootOK(t, sh, pd) && PendingOK(t, sh, pd) && NodeOK(t, sh, pd, pd.parent.value)
    ensures Fits(t', sh', pd')
    ensures forall y :: 0 <= y < |t'.nodes| && y !in sh'.dead ==> sh'.height[y] <= sh'.height[t.root.value]
  {
    var p := pd.parent.value;
    assert t.root.value < |t.nodes| && p < |t.nodes| && p !in sh.dead;
    Heightened(sh.height, sh.dead, t.root.value, p);
  }

  /** Appending a copy of p's height keeps x the highest of the live nodes. */
  lemma Heightened(hs: seq<nat>, dead: set<NodeId>, x: NodeId, p: NodeId)
    requires x < |hs| && p < |hs| && p !in dead
    requires forall y :: 0 <= y < |hs| && y !in dead ==> hs[y] <= hs[x]
    ensures forall y :: 0 <= y < |hs| + 1 && y !in dead ==> (hs + [hs[p]])[y] <= (hs + [hs[p]])[x]
  {
  }

  /** A leaf keeps its link, its range and its entries. */
  lemma DivLeaf(t: State, sh: Shape, pd: Pending, j: int, mp: int, left: Node, right: Node, mid: Bytes,
                t': State, sh': Shape, pd': Pending, x: NodeId)
    requires Fits(t, sh, pd) && DividePre(t, sh, pd, j) && Layout(t, sh, pd, j, mp, left, right, mid, t', sh', pd')
    requires x < |t.nodes| && t.nodes[x].leaf
    ensures Fits(t', sh', pd')
    ensures t'.nodes[x].Next() == t.nodes[x].Next() && t'.nodes[x].leaf
    ensures sh'.lo[x] == sh.lo[x] && sh'.hi[x] == sh.hi[x] && Seg(t', sh', x) == Seg(t, sh, x)
  {
    DivView(t, sh, pd, j, mp, left, right, mid, t', sh', pd', x);
    Reparented(t.nodes[x], t'.nodes[x].parent);
  }

  /** The chain and every leaf's entries stay: only internal nodes and
      parent fields change. */
  lemma DivChain(t: State, sh: Shape, pd: Pending, j: int, mp: int, left: Node, right: Node, mid: Bytes,
                 t': State, sh': Shape, pd': Pending)
    requires Fits(t, sh, pd) && DividePre(t, sh, pd, j) && Layout(t, sh, pd, j, mp, left, right, mid, t', sh', pd')
    requires ChainOK(t, sh)
    ensures Fits(t', sh', pd') && ChainOK(t', sh') && Entries(t', sh') == Entries(t, sh)
  {
    var ls := sh.leaves;
    forall a | 0 <= a < |ls| ensures t'.nodes[ls[a]].Next() == t.nodes[ls[a]].Next() && t'.nodes[ls[a]].leaf
      && sh'.lo[ls[a]] == sh.lo[ls[a]] && sh'.hi[ls[a]] == sh.hi[ls[a]]
      && Seg(t', sh', ls[a]) == Seg(t, sh, ls[a])
    {
      DivLeaf(t, sh, pd, j, mp, left, right, mid, t', sh', pd', ls[a]);
    }
    DivShapeAt(t, sh, pd, j, mp, left, right, mid, t', sh', pd', pd.left);
    ChainKept(t, sh, t', sh');
  }

  /** putIntoParentAndSplit: when l's parent p is full, p splits around the
      combined node's middle key, and the split moves one level up with p's
      parent as its parent; the contents are unchanged. */
  lemma DivideStep(t: State, sh: Shape, pd: Pending) returns (j: int)
    requires Inv(t, sh, pd) && pd.Split? && pd.parent.Some?
    requires t.nodes[pd.parent.value].keyNum == |t.nodes[pd.parent.value].keys|
    ensures AtSlot(t, sh, pd, j)
    ensures var n := t.nodes[pd.parent.value];
            && (forall i :: 0 <= i < j ==> Less(n.keys[i], pd.key))
            && (j < n.keyNum ==> Less(pd.key, n.keys[j]))
    ensures Fits(t, sh, pd) && DividePre(t, sh, pd, j)
    ensures var t', sh', pd' := DividedState(t, sh, pd, j), DividedShape(t, sh, pd, j), DividedPending(t, sh, pd, j);
            && Inv(t', sh', pd') && Entries(t', sh') == Entries(t, sh)
            && pd'.left == pd.parent.value && pd'.parent == t.nodes[pd.parent.value].parent
            && sh'.height[pd'.left] == sh.height[pd.left] + 1
  {
    j := Slot(t, sh, pd);
    var p, n := pd.parent.value, t.nodes[pd.parent.value];
    assert NodeOK(t, sh, pd, p);
    var mp := Ceil(|n.keys|, 2);
    SplitSizes(t.order);
    var halves := InternalHalves(n, j, pd.key, pd.right, mp);
    var t', sh', pd' := DividedState(t, sh, pd, j), DividedShape(t, sh, pd, j), DividedPending(t, sh, pd, j);
    DivideHalvesOK(t, sh, pd, j, mp);
    DivideLaid(t, sh, pd, j);
    DivNodes(t, sh, pd, j, mp, halves.0, halves.1, halves.2, t', sh', pd');
    DivRoot(t, sh, pd, j, mp, halves.0, halves.1, halves.2, t', sh', pd');
    DivChain(t, sh, pd, j, mp, halves.0, halves.1, halves.2, t', sh', pd');
  }
}
