/** The shape a B+ tree keeps between operations, stated over the tree's
    fields taken together as one value. Ghost bookkeeping (Shape) gives every
    node the key range [lo, hi) it answers for and its height above the
    leaves, and lists the leaves in chain order; a split that its parent has
    not yet absorbed is described by a Pending record. The tree's contents
    are the entries of its leaves, read along the chain. */
module Invariant {
  import opened Outcomes
  import opened Keys
  import opened Seqs
  import opened OrderedMap
  import opened Chain
  import opened Nodes

  /** The tree's fields: order, node arena, root and leftmost leaf. */
  datatype State = State(order: int, nodes: seq<Node>, root: Option<NodeId>, leftmost: Option<NodeId>)

  /** Per node: its key range and height; the leaves in chain order; the
      nodes a merge has unlinked. */
  datatype Shape = Shape(lo: seq<Bound>, hi: seq<Bound>, height: seq<nat>, leaves: seq<NodeId>, dead: set<NodeId>)

  /** Node `left` has been split and `right` holds its upper half from
      `key` on, but `parent` (None: left is the root) does not yet point to
      `right`. */
  datatype Pending = NoPending | Split(parent: Option<NodeId>, left: NodeId, right: NodeId, key: Bytes)

  predicate Fits(t: State, sh: Shape, pd: Pending) {
    && |sh.lo| == |t.nodes| && |sh.hi| == |t.nodes| && |sh.height| == |t.nodes|
    && (pd.Split? ==> pd.left < |t.nodes| && pd.right < |t.nodes|)
    && (forall d :: d in sh.dead ==> d < |t.nodes|)
  }

  predicate IsLeft(pd: Pending, c: NodeId) {
    pd.Split? && pd.left == c
  }

  predicate IsRight(pd: Pending, c: NodeId) {
    pd.Split? && pd.right == c
  }

  /** The upper end of the range c's parent slot gives it: a pending left
      half still answers, through its parent, for its right half's range. */
  function EffHi(sh: Shape, pd: Pending, c: NodeId): Bound
    requires c < |sh.hi| && (pd.Split? ==> pd.right < |sh.hi|)
  {
    if IsLeft(pd, c) then sh.hi[pd.right] else sh.hi[c]
  }

  /** The range of child slot j of n, when n answers for [lo, hi). */
  function SlotLo(n: Node, lo: Bound, j: int): Bound
    requires n.WellSized() && 0 <= j <= n.keyNum
  {
    if j == 0 then lo else At(n.keys[j - 1])
  }

  function SlotHi(n: Node, hi: Bound, j: int): Bound
    requires n.WellSized() && 0 <= j <= n.keyNum
  {
    if j == n.keyNum then hi else At(n.keys[j])
  }

  /** The parent a node answers to: a pending left half's is the pending
      parent, since the split has cleared or not yet fixed its own field. */
  function EffParent(t: State, pd: Pending, c: NodeId): Option<NodeId>
    requires c < |t.nodes|
  {
    if IsLeft(pd, c) then pd.parent else t.nodes[c].parent
  }

  /** What the invariant of other nodes needs to know about node c. */
  datatype View = View(height: nat, lo: Bound, effHi: Bound, parent: Option<NodeId>,
                       right: bool, root: bool, dead: bool)

  function ViewOf(t: State, sh: Shape, pd: Pending, c: NodeId): View
    requires Fits(t, sh, pd) && c < |t.nodes|
  {
    View(sh.height[c], sh.lo[c], EffHi(sh, pd, c), EffParent(t, pd, c),
         IsRight(pd, c), t.root == Some(c), c in sh.dead)
  }

  /** What the invariant of node g's children needs to know about g. */
  datatype Up = Up(leaf: bool, wellSized: bool, kids: seq<Pointer>, dead: bool)

  function UpOf(t: State, sh: Shape, g: NodeId): Up
    requires g < |t.nodes|
  {
    var n := t.nodes[g];
    Up(n.leaf, n.WellSized(), if n.WellSized() then n.Kids() else [], g in sh.dead)
  }

  /** Shape of a node by itself: slot counts, at least one key, ascending
      keys, values in a leaf's slots in use, nil in an internal node's unused
      pointer slots. */
  predicate Local(order: int, n: Node) {
    && |n.keys| == order - 1 && |n.pointers| == order && n.WellSized()
    && n.keyNum >= 1
    && Ascending(n.Keys())
    && (n.leaf ==> forall j :: 0 <= j < n.keyNum ==> n.pointers[j].Value?)
    && (!n.leaf ==> forall j :: n.keyNum < j < |n.pointers| ==> n.pointers[j] == Nil)
  }

  /** A node's keys lie in its non-empty range; leaves sit at height 0 and
      on the chain, internal nodes above. */
  predicate Ranged(n: Node, lo: Bound, hi: Bound, height: nat, chained: bool)
    requires n.WellSized()
  {
    && BoundLess(lo, hi)
    && (forall j :: 0 <= j < n.keyNum ==> InRange(n.keys[j], lo, hi))
    && (n.leaf ==> height == 0 && chained)
    && (!n.leaf ==> height >= 1)
  }

  /** Child slot j of internal node n (node i, range [lo, hi), height h)
      holds a child seen as v: live, one level down, answering for exactly
      the slot's range, answering to i, neither the root nor a pending right
      half. */
  predicate KidFits(n: Node, lo: Bound, hi: Bound, h: nat, i: NodeId, j: int, v: View)
    requires n.WellSized() && 0 <= j <= n.keyNum
  {
    KidSpan(n, lo, hi, h, j, v) && v.parent == Some(i)
  }

  /** KidFits but for the parent the child answers to. */
  predicate KidSpan(n: Node, lo: Bound, hi: Bound, h: nat, j: int, v: View)
    requires n.WellSized() && 0 <= j <= n.keyNum
  {
    && !v.dead && v.height + 1 == h
    && v.lo == SlotLo(n, lo, j) && v.effHi == SlotHi(n, hi, j)
    && !v.right && !v.root
  }

  predicate KidOK(t: State, sh: Shape, pd: Pending, i: NodeId, j: int)
    requires Fits(t, sh, pd) && i < |t.nodes| && t.nodes[i].WellSized() && 0 <= j <= t.nodes[i].keyNum
  {
    var p := t.nodes[i].pointers[j];
    && p.Child? && p.id < |t.nodes|
    && KidFits(t.nodes[i], sh.lo[i], sh.hi[i], sh.height[i], i, j, ViewOf(t, sh, pd, p.id))
  }

  /** Node i, seen from its parent g: a live internal node listing i among
      its children. */
  predicate UpFits(i: NodeId, u: Up) {
    !u.leaf && u.wellSized && !u.dead && Child(i) in u.kids
  }

  predicate ParentOK(t: State, sh: Shape, pd: Pending, i: NodeId)
    requires i < |t.nodes|
  {
    var g := EffParent(t, pd, i);
    g.Some? && g.value < |t.nodes| && UpFits(i, UpOf(t, sh, g.value))
  }

  predicate NodeOK(t: State, sh: Shape, pd: Pending, i: NodeId)
    requires Fits(t, sh, pd) && i < |t.nodes|
  {
    var n := t.nodes[i];
    var v := ViewOf(t, sh, pd, i);
    && Local(t.order, n)
    && Ranged(n, sh.lo[i], sh.hi[i], sh.height[i], i in sh.leaves)
    && (!n.leaf ==> forall j :: 0 <= j <= n.keyNum ==> KidOK(t, sh, pd, i, j))
    && (!v.root && !v.right ==> ParentOK(t, sh, pd, i))
  }

  /** An empty tree has no root, no leaves and nothing pending, and its
      leftmost leaf, if any, is empty. A root is live, has no parent,
      answers for every key and stands at least as high as any live node. */
  predicate RootOK(t: State, sh: Shape, pd: Pending)
    requires Fits(t, sh, pd)
  {
    match t.root
    case None =>
      && sh.leaves == [] && pd == NoPending
      && (t.leftmost.Some? ==> t.leftmost.value < |t.nodes| && t.nodes[t.leftmost.value].keyNum == 0)
    case Some(x) =>
      && x < |t.nodes| && x !in sh.dead && t.nodes[x].parent == None
      && sh.lo[x] == NegInf && EffHi(sh, pd, x) == PosInf
      && (forall y :: 0 <= y < |t.nodes| && y !in sh.dead ==> sh.height[y] <= sh.height[x])
  }

  predicate PendingOK(t: State, sh: Shape, pd: Pending)
    requires Fits(t, sh, pd)
  {
    pd.Split? ==>
      && pd.left != pd.right && pd.left !in sh.dead && pd.right !in sh.dead
      && t.root != Some(pd.right)
      && sh.height[pd.left] == sh.height[pd.right]
      && sh.hi[pd.left] == At(pd.key) && sh.lo[pd.right] == At(pd.key)
      && (pd.parent.None? <==> t.root == Some(pd.left))
  }

  /** The leaves are distinct live leaves, each linked to the next and
      answering for the range right after the previous one's; the first is
      the leftmost leaf and starts below every key, the last ends above every
      key and links to nothing. */
  predicate ChainOK(t: State, sh: Shape)
    requires |sh.lo| == |t.nodes| && |sh.hi| == |t.nodes|
  {
    var ls := sh.leaves;
    && (forall a :: 0 <= a < |ls| ==> ls[a] < |t.nodes| && ls[a] !in sh.dead && t.nodes[ls[a]].leaf)
    && (forall a, b :: 0 <= a < b < |ls| ==> ls[a] != ls[b])
    && (forall a :: 0 <= a < |ls| - 1 ==> t.nodes[ls[a]].Next() == Child(ls[a + 1]) && sh.hi[ls[a]] == sh.lo[ls[a + 1]])
    && (ls != [] ==>
          && t.leftmost == Some(ls[0]) && sh.lo[ls[0]] == NegInf
          && sh.hi[ls[|ls| - 1]] == PosInf && t.nodes[ls[|ls| - 1]].Next() == Nil)
  }

  /** The tree invariant, with a split possibly pending. */
  predicate Inv(t: State, sh: Shape, pd: Pending) {
    && t.order >= 3
    && Fits(t, sh, pd)
    && RootOK(t, sh, pd)
    && PendingOK(t, sh, pd)
    && AllNodesOK(t, sh, pd)
    && ChainOK(t, sh)
  }

  /** Minimum occupancy: every live node holds at least mk keys, except
      the root, unless that root is the left half of a split still being
      pushed up (a new root will be grown over it). */
  predicate Occupied(t: State, sh: Shape, pd: Pending, mk: int) {
    forall i :: 0 <= i < |t.nodes| && i !in sh.dead && (t.root != Some(i) || IsLeft(pd, i)) ==>
      mk <= t.nodes[i].keyNum
  }

  predicate AllNodesOK(t: State, sh: Shape, pd: Pending)
    requires Fits(t, sh, pd)
  {
    forall i :: 0 <= i < |t.nodes| && i !in sh.dead ==> NodeOK(t, sh, pd, i)
  }

  /** Leaf x's entries with its range. */
  function Seg(t: State, sh: Shape, x: NodeId): Segment {
    if x < |t.nodes| && x < |sh.lo| && x < |sh.hi| && t.nodes[x].WellSized()
    then Segment(t.nodes[x].Entries(), sh.lo[x], sh.hi[x])
    else Segment([], NegInf, PosInf)
  }

  function SegsOf(t: State, sh: Shape, ls: seq<NodeId>): (ss: seq<Segment>)
    ensures |ss| == |ls| && forall a :: 0 <= a < |ls| ==> ss[a] == Seg(t, sh, ls[a])
  {
    seq(|ls|, a requires 0 <= a < |ls| => Seg(t, sh, ls[a]))
  }

  /** The tree's contents: its leaves' entries in chain order. */
  function Entries(t: State, sh: Shape): seq<Entry> {
    Flatten(SegsOf(t, sh, sh.leaves))
  }

  // ------------------------------------------------------------ frames

  /** A step that keeps the chain's leaves, their links, ranges and entries,
      keeps the chain and the contents. */
  lemma ChainKept(t: State, sh: Shape, t': State, sh': Shape)
    requires |sh.lo| == |t.nodes| && |sh.hi| == |t.nodes| && |sh'.lo| == |t'.nodes| && |sh'.hi| == |t'.nodes|
    requires |t.nodes| <= |t'.nodes| && ChainOK(t, sh)
    requires sh'.leaves == sh.leaves && sh'.dead == sh.dead && t'.leftmost == t.leftmost
    requires forall b :: 0 <= b < |sh.leaves| ==>
               t'.nodes[sh.leaves[b]].Next() == t.nodes[sh.leaves[b]].Next() && t'.nodes[sh.leaves[b]].leaf
    requires forall b :: 0 <= b < |sh.leaves| ==> sh'.lo[sh.leaves[b]] == sh.lo[sh.leaves[b]]
    requires forall b :: 0 <= b < |sh.leaves| ==> sh'.hi[sh.leaves[b]] == sh.hi[sh.leaves[b]]
    requires forall b :: 0 <= b < |sh.leaves| ==> Seg(t', sh', sh.leaves[b]) == Seg(t, sh, sh.leaves[b])
    ensures ChainOK(t', sh') && Entries(t', sh') == Entries(t, sh)
  {
    SegsKept(t, sh, t', sh');
    ChainRelinked(t, sh, t', sh', -1);
  }

  /** Keeping every leaf's segment keeps the contents. */
  lemma SegsKept(t: State, sh: Shape, t': State, sh': Shape)
    requires sh'.leaves == sh.leaves
    requires forall b :: 0 <= b < |sh.leaves| ==> Seg(t', sh', sh.leaves[b]) == Seg(t, sh, sh.leaves[b])
    ensures Entries(t', sh') == Entries(t, sh)
  {
    assert SegsOf(t', sh', sh.leaves) == SegsOf(t, sh, sh.leaves);
  }

  /** A step that replaces the segments of the leaves at a and a + 1 by sx
      and sy and keeps every other leaf's segment replaces those two
      segments' entries in the contents. */
  lemma SegsReplaced(t: State, sh: Shape, t': State, sh': Shape, a: int, sx: Segment, sy: Segment)
    requires sh'.leaves == sh.leaves && 0 <= a && a + 1 < |sh.leaves|
    requires forall b :: 0 <= b < |sh.leaves| ==>
               Seg(t', sh', sh.leaves[b]) == if b == a then sx else if b == a + 1 then sy else Seg(t, sh, sh.leaves[b])
    ensures var ss := SegsOf(t, sh, sh.leaves);
            Entries(t', sh') == Flatten(ss[..a]) + sx.entries + sy.entries + Flatten(ss[a + 2..])
  {
    var ss := SegsOf(t, sh, sh.leaves);
    assert SegsOf(t', sh', sh.leaves) == ss[a := sx][a + 1 := sy];
    FlattenPairAt(ss, a, sx, sy);
  }

  /** A step that keeps the chain's leaves and their links and moves only
      the boundary between the leaves at a and a + 1 keeps the chain. */
  lemma ChainRebounded(t: State, sh: Shape, t': State, sh': Shape, a: int)
    requires |sh.lo| == |t.nodes| && |sh.hi| == |t.nodes| && |sh'.lo| == |t'.nodes| && |sh'.hi| == |t'.nodes|
    requires |t.nodes| <= |t'.nodes| && ChainOK(t, sh)
    requires sh'.leaves == sh.leaves && sh'.dead == sh.dead && t'.leftmost == t.leftmost
    requires 0 <= a < |sh.leaves| - 1 && sh'.hi[sh.leaves[a]] == sh'.lo[sh.leaves[a + 1]]
    requires forall b :: 0 <= b < |sh.leaves| ==>
               t'.nodes[sh.leaves[b]].Next() == t.nodes[sh.leaves[b]].Next() && t'.nodes[sh.leaves[b]].leaf
    requires forall b :: 0 <= b < |sh.leaves| && b != a ==> sh'.hi[sh.leaves[b]] == sh.hi[sh.leaves[b]]
    requires forall b :: 0 <= b < |sh.leaves| && b != a + 1 ==> sh'.lo[sh.leaves[b]] == sh.lo[sh.leaves[b]]
    ensures ChainOK(t', sh')
  {
    ChainRelinked(t, sh, t', sh', a);
  }

  /** The links between consecutive leaves survive a step that keeps each
      leaf's successor and moves at most the boundary after the leaf at a
      (none when a is -1). */
  lemma ChainRelinked(t: State, sh: Shape, t': State, sh': Shape, a: int)
    requires |sh.lo| == |t.nodes| && |sh.hi| == |t.nodes| && |sh'.lo| == |t'.nodes| && |sh'.hi| == |t'.nodes|
    requires |t.nodes| <= |t'.nodes| && ChainOK(t, sh)
    requires -1 <= a && (a >= 0 ==> a + 1 < |sh.leaves| && sh'.hi[sh.leaves[a]] == sh'.lo[sh.leaves[a + 1]])
    requires forall b :: 0 <= b < |sh.leaves| ==> t'.nodes[sh.leaves[b]].Next() == t.nodes[sh.leaves[b]].Next()
    requires forall b :: 0 <= b < |sh.leaves| && b != a ==> sh'.hi[sh.leaves[b]] == sh.hi[sh.leaves[b]]
    requires forall b :: 0 <= b < |sh.leaves| && b != a + 1 ==> sh'.lo[sh.leaves[b]] == sh.lo[sh.leaves[b]]
    ensures var ls := sh.leaves;
            forall b :: 0 <= b < |ls| - 1 ==> t'.nodes[ls[b]].Next() == Child(ls[b + 1]) && sh'.hi[ls[b]] == sh'.lo[ls[b + 1]]
  {
    var ls := sh.leaves;
    forall b | 0 <= b < |ls| - 1 ensures t'.nodes[ls[b]].Next() == Child(ls[b + 1]) && sh'.hi[ls[b]] == sh'.lo[ls[b + 1]] {
      if b != a {
        assert sh'.hi[ls[b]] == sh.hi[ls[b]] && sh'.lo[ls[b + 1]] == sh.lo[ls[b + 1]];
      }
    }
  }

  /** Node i keeps its invariant when it, its view and its children's views
      are unchanged and its parent still lists it. */
  lemma NodeFrame(t: State, sh: Shape, pd: Pending, t': State, sh': Shape, pd': Pending, i: NodeId)
    requires Fits(t, sh, pd) && Fits(t', sh', pd') && i < |t.nodes| && i < |t'.nodes|
    requires NodeOK(t, sh, pd, i)
    requires t'.order == t.order && t'.nodes[i] == t.nodes[i]
    requires ViewOf(t', sh', pd', i) == ViewOf(t, sh, pd, i) && sh'.hi[i] == sh.hi[i]
    requires i in sh.leaves ==> i in sh'.leaves
    requires !t.nodes[i].leaf ==> forall j :: 0 <= j <= t.nodes[i].keyNum ==>
               KidSame(t, sh, pd, t', sh', pd', t.nodes[i].pointers[j])
    requires UpKept(t, sh, pd, t', sh', i)
    ensures NodeOK(t', sh', pd', i)
  {
    var n := t.nodes[i];
    if !n.leaf {
      forall j | 0 <= j <= n.keyNum ensures KidOK(t', sh', pd', i, j) {
        assert KidOK(t, sh, pd, i, j);
        assert KidSame(t, sh, pd, t', sh', pd', n.pointers[j]);
      }
    }
  }

  /** Node i keeps its invariant when only its parent field changes, its
      range, height and children's views are unchanged, and its new parent,
      if it needs one, lists it. */
  lemma NodeKept(t: State, sh: Shape, pd: Pending, t': State, sh': Shape, pd': Pending, i: NodeId)
    requires Fits(t, sh, pd) && Fits(t', sh', pd') && i < |t.nodes| && i < |t'.nodes|
    requires NodeOK(t, sh, pd, i)
    requires t'.order == t.order && t'.nodes[i] == t.nodes[i].(parent := t'.nodes[i].parent)
    requires sh'.lo[i] == sh.lo[i] && sh'.hi[i] == sh.hi[i] && sh'.height[i] == sh.height[i]
    requires i in sh.leaves ==> i in sh'.leaves
    requires !t.nodes[i].leaf ==> forall j :: 0 <= j <= t.nodes[i].keyNum ==>
               KidSame(t, sh, pd, t', sh', pd', t.nodes[i].pointers[j])
    requires t'.root != Some(i) && !IsRight(pd', i) ==> ParentOK(t', sh', pd', i)
    ensures NodeOK(t', sh', pd', i)
  {
    var n := t.nodes[i];
    if !n.leaf {
      forall j | 0 <= j <= n.keyNum ensures KidOK(t', sh', pd', i, j) {
        assert KidOK(t, sh, pd, i, j);
        assert KidSame(t, sh, pd, t', sh', pd', n.pointers[j]);
      }
    }
  }

  /** Pointer p names a node whose view is unchanged. */
  predicate KidSame(t: State, sh: Shape, pd: Pending, t': State, sh': Shape, pd': Pending, p: Pointer)
    requires Fits(t, sh, pd) && Fits(t', sh', pd')
  {
    p.Child? && p.id < |t.nodes| ==> p.id < |t'.nodes| && ViewOf(t', sh', pd', p.id) == ViewOf(t, sh, pd, p.id)
  }

  /** Node i's parent, if it listed i, still does. */
  predicate UpKept(t: State, sh: Shape, pd: Pending, t': State, sh': Shape, i: NodeId)
    requires i < |t.nodes|
  {
    var g := EffParent(t, pd, i);
    g.Some? && g.value < |t.nodes| && UpFits(i, UpOf(t, sh, g.value)) ==>
      g.value < |t'.nodes| && UpFits(i, UpOf(t', sh', g.value))
  }

  // ------------------------------------------------------------ contents

  /** A leaf on the chain contributes a well-formed segment. */
  lemma LeafSegment(t: State, sh: Shape, pd: Pending, x: NodeId)
    requires Fits(t, sh, pd) && x < |t.nodes| && NodeOK(t, sh, pd, x) && t.nodes[x].leaf
    ensures SegmentOK(Seg(t, sh, x))
  {
    var n := t.nodes[x];
    var es := n.Entries();
    assert forall j :: 0 <= j < |es| ==> es[j].key == n.keys[j];
    assert Sorted(es) by {
      forall a, b | 0 <= a < b < |es| ensures Less(es[a].key, es[b].key) {
        assert es[a].key == n.Keys()[a] && es[b].key == n.Keys()[b];
      }
    }
  }

  /** The chain's segments tile the key space. */
  lemma InvTiled(t: State, sh: Shape, pd: Pending)
    requires Inv(t, sh, pd)
    ensures Tiled(SegsOf(t, sh, sh.leaves))
  {
    var ls := sh.leaves;
    var ss := SegsOf(t, sh, ls);
    forall a | 0 <= a < |ss| ensures SegmentOK(ss[a]) {
      assert NodeOK(t, sh, pd, ls[a]);
      LeafSegment(t, sh, pd, ls[a]);
    }
    forall a | 0 <= a < |ss| - 1 ensures ss[a].hi == ss[a + 1].lo {
      assert t.nodes[ls[a]].WellSized() by {
        assert NodeOK(t, sh, pd, ls[a]);
      }
      assert t.nodes[ls[a + 1]].WellSized() by {
        assert NodeOK(t, sh, pd, ls[a + 1]);
      }
    }
  }

  /** The tree's contents are sorted by key. */
  lemma EntriesSorted(t: State, sh: Shape, pd: Pending)
    requires Inv(t, sh, pd)
    ensures Sorted(Entries(t, sh))
  {
    InvTiled(t, sh, pd);
    ChainSorted(SegsOf(t, sh, sh.leaves));
  }

  /** Looking a key up in the tree is looking it up in the leaf whose range
      holds it. */
  lemma EntriesLookup(t: State, sh: Shape, pd: Pending, x: NodeId, k: Bytes)
    requires Inv(t, sh, pd) && x < |t.nodes| && x !in sh.dead && t.nodes[x].leaf
    requires InRange(k, sh.lo[x], sh.hi[x])
    ensures t.nodes[x].WellSized()
    ensures Lookup(Entries(t, sh), k) == Lookup(t.nodes[x].Entries(), k)
  {
    assert NodeOK(t, sh, pd, x);
    var a := ChainIndex(t, sh, pd, x);
    InvTiled(t, sh, pd);
    ChainLookup(SegsOf(t, sh, sh.leaves), a, k);
  }

  /** Where live leaf x sits on the chain. */
  lemma ChainIndex(t: State, sh: Shape, pd: Pending, x: NodeId) returns (a: nat)
    requires Inv(t, sh, pd) && x < |t.nodes| && x !in sh.dead && t.nodes[x].leaf
    ensures a < |sh.leaves| && sh.leaves[a] == x
  {
    assert NodeOK(t, sh, pd, x);
    a := IndexOf(sh.leaves, x);
  }
}
