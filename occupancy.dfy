/** Minimum occupancy across the steps of Put and Delete: every live node
    other than the root keeps at least minKeyNum keys. A split leaves both
    halves at or above it, a new root or a parent that absorbs a split only
    gains keys, a leaf that loses a key stays at or above it or borrows, and
    a borrow takes a key only from a sibling that has one to spare. Each
    lemma is generic in the minimum mk and in the split point mp. */
module Occupancy {
  import opened Outcomes
  import opened Keys
  import opened Nodes
  import opened Invariant
  import opened LeafSteps
  import opened SplitSteps
  import opened ParentSteps
  import opened DeleteSteps
  import opened Config

  /** Replacing leaf f by m, with nothing pending: m keeps the minimum, or
      has no fewer keys than before, or f is the root. */
  lemma OccupiedWithLeaf(t: State, sh: Shape, mk: int, f: NodeId, m: Node)
    requires Occupied(t, sh, NoPending, mk) && f < |t.nodes|
    requires t.root == Some(f) || mk <= m.keyNum || t.nodes[f].keyNum <= m.keyNum
    ensures Occupied(WithLeaf(t, f, m), sh, NoPending, mk)
  {
    var t' := WithLeaf(t, f, m);
    forall i | 0 <= i < |t'.nodes| && i !in sh.dead && (t'.root != Some(i) || IsLeft(NoPending, i))
      ensures mk <= t'.nodes[i].keyNum
    {
      if i != f {
        assert t'.nodes[i] == t.nodes[i];
      }
    }
  }

  /** A leaf split: x keeps the lower half l and the appended node the upper
      half r, both at or above the minimum; x, the pending left half, counts
      even when it is the root. */
  lemma OccupiedHalved(t: State, sh: Shape, mk: int, x: NodeId, l: Node, r: Node, key: Bytes, leaves: seq<NodeId>)
    requires Occupied(t, sh, NoPending, mk) && x < |t.nodes| && x < |sh.hi| && x < |sh.height|
    requires mk <= l.keyNum && mk <= r.keyNum
    ensures Occupied(Halved(t, x, l, r), HalvedShape(sh, x, key, leaves), Split(t.nodes[x].parent, x, |t.nodes|, key), mk)
  {
    var t', sh', pd' := Halved(t, x, l, r), HalvedShape(sh, x, key, leaves), Split(t.nodes[x].parent, x, |t.nodes|, key);
    assert sh'.dead == sh.dead;
    forall i | 0 <= i < |t'.nodes| && i !in sh'.dead && (t'.root != Some(i) || IsLeft(pd', i))
      ensures mk <= t'.nodes[i].keyNum
    {
      if i != x && i < |t.nodes| {
        assert t'.nodes[i] == t.nodes[i];
      }
    }
  }

  /** A new root over the halves of the old one: the old root, the pending
      left half, already kept the minimum, and the new root is exempt. */
  lemma OccupiedGrown(t: State, sh: Shape, mk: int, key: Bytes, l: NodeId, r: NodeId)
    requires t.order >= 3 && l < |t.nodes| && r < |t.nodes| && l < |sh.height|
    requires Occupied(t, sh, Split(None, l, r, key), mk) && t.root == Some(l)
    ensures Occupied(Grown(t, key, l, r), GrownShape(sh, l), NoPending, mk)
  {
    var t', sh' := Grown(t, key, l, r), GrownShape(sh, l);
    forall i | 0 <= i < |t'.nodes| && i !in sh'.dead && (t'.root != Some(i) || IsLeft(NoPending, i))
      ensures mk <= t'.nodes[i].keyNum
    {
      assert i < |t.nodes|;
      assert t'.nodes[i].keyNum == t.nodes[i].keyNum;
    }
  }

  /** A parent with room absorbing a split gains a key; every other node
      keeps its count, and the pending left half is no longer the root. */
  lemma OccupiedAbsorbed(t: State, sh: Shape, mk: int, p: NodeId, j: int, key: Bytes, l: NodeId, r: NodeId)
    requires p < |t.nodes| && l < |t.nodes| && r < |t.nodes|
    requires t.nodes[p].WellSized() && 0 <= j <= t.nodes[p].keyNum < |t.nodes[p].keys|
    requires Occupied(t, sh, Split(Some(p), l, r, key), mk)
    ensures Occupied(Absorbed(t, p, j, key, l, r), sh, NoPending, mk)
  {
    var t' := Absorbed(t, p, j, key, l, r);
    forall i | 0 <= i < |t'.nodes| && i !in sh.dead && (t'.root != Some(i) || IsLeft(NoPending, i))
      ensures mk <= t'.nodes[i].keyNum
    {
      assert t'.nodes[i].keyNum >= t.nodes[i].keyNum;
    }
  }

  /** The key counts of the arena after putIntoParentAndSplit: p holds the
      left half's, the appended node the right half's; adopting children
      only changes parent fields. */
  lemma RegroupedCounts(ns: seq<Node>, p: NodeId, left: Node, right: Node, l: NodeId, r: NodeId, ins: NodeId)
    requires p < |ns| && l < |ns| && r < |ns|
    ensures var ns' := Regrouped(ns, p, left, right, l, r, ins);
            && |ns'| == |ns| + 1
            && (forall x :: 0 <= x < |ns'| ==>
                  ns'[x].keyNum == if x == p then left.keyNum else if x == |ns| then right.keyNum else ns[x].keyNum)
  {
    var ns1 := WithParent(WithParent(ns[p := left] + [right], l, ins), r, ins);
    assert forall x :: 0 <= x < |ns1| ==>
             ns1[x].keyNum == if x == p then left.keyNum else if x == |ns| then right.keyNum else ns[x].keyNum;
  }

  /** A full parent p splitting into halves of mp and |keys| - mp keys, both
      at or above the minimum; p becomes the pending left half. */
  lemma OccupiedDivided(t: State, sh: Shape, mk: int, p: NodeId, j: int, key: Bytes, l: NodeId, r: NodeId,
                        mp: int, mkey: Bytes)
    requires p < |t.nodes| && l < |t.nodes| && r < |t.nodes| && p < |sh.hi| && p < |sh.height|
    requires t.nodes[p].WellSized() && 1 <= |t.nodes[p].keys| && 0 <= j <= |t.nodes[p].keys|
    requires mp == Ceil(|t.nodes[p].keys|, 2) && 1 <= mp <= |t.nodes[p].keys|
    requires mk <= mp && mk <= |t.nodes[p].keys| - mp
    requires Occupied(t, sh, Split(Some(p), l, r, key), mk)
    ensures Occupied(Divided(t, p, j, key, l, r), HalvedShape(sh, p, mkey, sh.leaves),
                     Split(t.nodes[p].parent, p, |t.nodes|, mkey), mk)
  {
    var n := t.nodes[p];
    var halves := InternalHalves(n, j, key, r, mp);
    assert halves.0.keyNum == mp && halves.1.keyNum == |n.keys| - mp;
    RegroupedCounts(t.nodes, p, halves.0, halves.1, l, r, if j >= mp then |t.nodes| else p);
    var t', sh', pd' := Divided(t, p, j, key, l, r), HalvedShape(sh, p, mkey, sh.leaves),
                        Split(t.nodes[p].parent, p, |t.nodes|, mkey);
    assert t'.nodes == Regrouped(t.nodes, p, halves.0, halves.1, l, r, if j >= mp then |t.nodes| else p);
    assert sh'.dead == sh.dead;
    forall i | 0 <= i < |t'.nodes| && i !in sh'.dead && (t'.root != Some(i) || IsLeft(pd', i))
      ensures mk <= t'.nodes[i].keyNum
    {
      if i != p && i < |t.nodes| {
        assert t'.nodes[i].keyNum == t.nodes[i].keyNum;
      }
    }
  }

  /** Dropping the root leaf f marks it dead; every other node was already
      below the root. */
  lemma OccupiedEmptied(t: State, sh: Shape, mk: int, f: NodeId, m: Node)
    requires Occupied(t, sh, NoPending, mk) && f < |t.nodes| && t.root == Some(f)
    ensures Occupied(Emptied(t, f, m), EmptiedShape(sh, f), NoPending, mk)
  {
    var t', sh' := Emptied(t, f, m), EmptiedShape(sh, f);
    forall i | 0 <= i < |t'.nodes| && i !in sh'.dead
      ensures mk <= t'.nodes[i].keyNum
    {
      assert i != f && t'.nodes[i] == t.nodes[i];
    }
  }

  /** A borrow between siblings x and y under p: both new leaves keep the
      minimum, and p only has a key replaced. */
  lemma OccupiedReseparated(t: State, sh: Shape, mk: int, p: NodeId, s: int, x: NodeId, y: NodeId,
                            x': Node, y': Node, m: Bytes)
    requires p < |t.nodes| && x < |t.nodes| && y < |t.nodes| && 1 <= s <= |t.nodes[p].keys|
    requires Occupied(t, sh, NoPending, mk) && mk <= x'.keyNum && mk <= y'.keyNum
    ensures Occupied(Reseparated(t, p, s, x, y, x', y', m), sh, NoPending, mk)
  {
    var t' := Reseparated(t, p, s, x, y, x', y', m);
    forall i | 0 <= i < |t'.nodes| && i !in sh.dead && (t'.root != Some(i) || IsLeft(NoPending, i))
      ensures mk <= t'.nodes[i].keyNum
    {
      if i != x && i != y {
        assert t'.nodes[i].keyNum == t.nodes[i].keyNum;
      }
    }
  }
}
