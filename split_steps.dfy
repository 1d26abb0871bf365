/** The steps of an insertion into a full leaf: putIntoLeafAndSplit, which
    leaves a split pending; putIntoNewRoot and putIntoParent, which absorb
    it; and putIntoParentAndSplit, which absorbs it by splitting the parent
    and leaves the parent's split pending. Each keeps the tree invariant;
    only the leaf split changes the contents, as Insert does. */
module SplitSteps {
  import opened Outcomes
  import opened Keys
  import opened Seqs
  import opened OrderedMap
  import opened Chain
  import opened Nodes
  import opened Invariant
  import opened LeafSteps

  // ------------------------------------------------------------ leaf split

  /** The two halves of a full leaf after putIntoLeafAndSplit: valid nodes,
      linked left to right to n's successor, the left one's keys below the
      right one's first key, together holding n's entries with the new one
      inserted. */
  lemma LeafSplitNode(order: int, n: Node, pos: int, k: Bytes, v: Bytes, rid: NodeId, mp: int, lo: Bound, hi: Bound)
    requires Local(order, n) && n.leaf && n.keyNum == |n.keys| && 1 <= mp <= |n.keys| && 0 <= pos <= n.keyNum
    requires forall j :: 0 <= j < n.keyNum ==> InRange(n.keys[j], lo, hi)
    requires InRange(k, lo, hi)
    requires forall j :: 0 <= j < pos ==> Less(n.keys[j], k)
    requires pos < n.keyNum ==> Less(k, n.keys[pos])
    ensures var l, r := LeafHalves(n, pos, k, v, rid, mp).0, LeafHalves(n, pos, k, v, rid, mp).1;
            && Local(order, l) && Local(order, r) && l.leaf && r.leaf && l.parent == None && r.parent == None
            && l.Next() == Child(rid) && r.Next() == n.Next()
            && BoundLess(lo, At(r.keys[0])) && BoundLess(At(r.keys[0]), hi)
            && (forall j :: 0 <= j < l.keyNum ==> InRange(l.keys[j], lo, At(r.keys[0])))
            && (forall j :: 0 <= j < r.keyNum ==> InRange(r.keys[j], At(r.keys[0]), hi))
            && l.Entries() + r.Entries() == Insert(n.Entries(), k, v)
  {
    var l, r := LeafHalves(n, pos, k, v, rid, mp).0, LeafHalves(n, pos, k, v, rid, mp).1;
    var es, e := n.Entries(), l.Entries() + r.Entries();
    LeafHalvesEntries(n, pos, k, v, rid, mp);
    assert e == Insert(es, k, v) && Sorted(e) && KeysAtLeast(e, lo) && KeysBelow(e, hi) by {
      InsertPlace(n, pos, k, v);
      KeysEntries(n);
      InsertSorted(es, k, v);
      assert KeysAtLeast(es, lo) && KeysBelow(es, hi);
      InsertKeys(es, k, v, lo, hi);
    }
    HalvesOrdered(l, r, lo, hi);
    LeafHalvesValues(n, pos, k, v, rid, mp);
    assert BoundLess(lo, At(r.keys[0])) && BoundLess(At(r.keys[0]), hi) by {
      BoundOrder(lo, At(l.keys[0]), At(r.keys[0]));
      BoundOrder(At(r.keys[0]), At(r.keys[0]), hi);
    }
  }

  /** The halves' slots in use hold values. */
  lemma LeafHalvesValues(n: Node, pos: int, k: Bytes, v: Bytes, rid: NodeId, mp: int)
    requires n.WellSized() && n.keyNum == |n.keys| && 1 <= mp <= |n.keys| && 0 <= pos <= n.keyNum
    requires forall j :: 0 <= j < n.keyNum ==> n.pointers[j].Value?
    ensures var l, r := LeafHalves(n, pos, k, v, rid, mp).0, LeafHalves(n, pos, k, v, rid, mp).1;
            && |l.pointers| == |r.pointers| == |n.pointers|
            && (forall j :: 0 <= j < mp ==> l.pointers[j].Value?)
            && (forall j :: 0 <= j < |n.keys| + 1 - mp ==> r.pointers[j].Value?)
  {
    var L := |n.keys|;
    var ps := SeqInsert(n.pointers[..L], pos, Value(v));
    assert forall j :: 0 <= j < |ps| ==> ps[j].Value?;
  }

  /** The arena after a split of node x: x holds the left half, the right
      half is appended. */
  function Halved(t: State, x: NodeId, l: Node, r: Node): State
    requires x < |t.nodes|
  {
    t.(nodes := t.nodes[x := l] + [r])
  }

  /** The ghost shape after a split of x at key: x answers for the range
      below key, the appended node for the rest of x's range, at x's height. */
  function HalvedShape(sh: Shape, x: NodeId, key: Bytes, leaves: seq<NodeId>): Shape
    requires x < |sh.hi| && x < |sh.height|
  {
    sh.(lo := sh.lo + [At(key)], hi := sh.hi[x := At(key)] + [sh.hi[x]],
        height := sh.height + [sh.height[x]], leaves := leaves)
  }

  /** The chain with the new leaf right after the one at index a. */
  function ChainAfter(ls: seq<NodeId>, a: nat, id: NodeId): seq<NodeId>
    requires a < |ls|
  {
    ls[..a + 1] + [id] + ls[a + 1..]
  }

  /** What the invariant needs of the halves of leaf f split at key. */
  predicate LeafHalvesOK(t: State, sh: Shape, f: NodeId, l: Node, r: Node, key: Bytes)
    requires f < |t.nodes| && f < |sh.lo| && f < |sh.hi|
  {
    && Local(t.order, l) && Local(t.order, r) && l.leaf && r.leaf && l.parent == None && r.parent == None
    && l.Next() == Child(|t.nodes|) && r.Next() == t.nodes[f].Next()
    && BoundLess(sh.lo[f], At(key)) && BoundLess(At(key), sh.hi[f])
    && (forall j :: 0 <= j < l.keyNum ==> InRange(l.keys[j], sh.lo[f], At(key)))
    && (forall j :: 0 <= j < r.keyNum ==> InRange(r.keys[j], At(key), sh.hi[f]))
  }

  /** An old node's invariant after the leaf split. */
  lemma LeafSplitOld(t: State, sh: Shape, f: NodeId, a: nat, l: Node, r: Node, key: Bytes, i: NodeId)
    requires Fits(t, sh, NoPending) && f < |t.nodes| && i < |t.nodes| && t.nodes[f].leaf
    requires a < |sh.leaves| && sh.leaves[a] == f
    requires NodeOK(t, sh, NoPending, i) && LeafHalvesOK(t, sh, f, l, r, key)
    ensures var N := |t.nodes|;
            NodeOK(Halved(t, f, l, r), HalvedShape(sh, f, key, ChainAfter(sh.leaves, a, N)),
                   Split(t.nodes[f].parent, f, N, key), i)
  {
    var N := |t.nodes|;
    var t', sh', pd' := Halved(t, f, l, r), HalvedShape(sh, f, key, ChainAfter(sh.leaves, a, N)),
                        Split(t.nodes[f].parent, f, N, key);
    var pd := NoPending;
    assert Fits(t', sh', pd');
    forall x | 0 <= x < N ensures ViewOf(t', sh', pd', x) == ViewOf(t, sh, pd, x) {
    }
    assert forall x :: 0 <= x < |sh.leaves| ==> sh.leaves[x] in sh'.leaves by {
      forall x | 0 <= x < |sh.leaves| ensures sh.leaves[x] in sh'.leaves {
        if x <= a {
          assert sh'.leaves[x] == sh.leaves[x];
        } else {
          assert sh'.leaves[x + 1] == sh.leaves[x];
        }
      }
    }
    var g := EffParent(t, pd, i);
    if g.Some? && g.value < N && g.value != f {
      assert UpOf(t', sh', g.value) == UpOf(t, sh, g.value);
    }
    if i != f {
      NodeFrame(t, sh, pd, t', sh', pd', i);
    } else {
      assert f in sh'.leaves;
    }
  }

  /** The new leaf's invariant. */
  lemma LeafSplitNew(t: State, sh: Shape, f: NodeId, a: nat, l: Node, r: Node, key: Bytes)
    requires Fits(t, sh, NoPending) && f < |t.nodes| && a < |sh.leaves| && sh.leaves[a] == f
    requires sh.height[f] == 0 && (forall d :: d in sh.dead ==> d < |t.nodes|)
    requires LeafHalvesOK(t, sh, f, l, r, key)
    ensures var N := |t.nodes|;
            NodeOK(Halved(t, f, l, r), HalvedShape(sh, f, key, ChainAfter(sh.leaves, a, N)),
                   Split(t.nodes[f].parent, f, N, key), N)
  {
    var N := |t.nodes|;
    assert ChainAfter(sh.leaves, a, N)[a + 1] == N;
  }

  lemma LeafSplitNodes(t: State, sh: Shape, f: NodeId, a: nat, l: Node, r: Node, key: Bytes)
    requires Fits(t, sh, NoPending) && AllNodesOK(t, sh, NoPending) && f < |t.nodes| && f !in sh.dead
    requires t.nodes[f].leaf && a < |sh.leaves| && sh.leaves[a] == f
    requires LeafHalvesOK(t, sh, f, l, r, key)
    ensures var N := |t.nodes|;
            var t', sh', pd' := Halved(t, f, l, r), HalvedShape(sh, f, key, ChainAfter(sh.leaves, a, N)),
                                Split(t.nodes[f].parent, f, N, key);
            Fits(t', sh', pd') && AllNodesOK(t', sh', pd')
  {
    var N := |t.nodes|;
    var t', sh', pd' := Halved(t, f, l, r), HalvedShape(sh, f, key, ChainAfter(sh.leaves, a, N)),
                        Split(t.nodes[f].parent, f, N, key);
    assert Fits(t', sh', pd') && sh'.dead == sh.dead && |t'.nodes| == N + 1 by {
      assert NodeOK(t, sh, NoPending, f);
    }
    forall i | 0 <= i < N + 1 && i !in sh'.dead ensures NodeOK(t', sh', pd', i) {
      if i < N {
        assert NodeOK(t, sh, NoPending, i);
        LeafSplitOld(t, sh, f, a, l, r, key, i);
      } else {
        assert sh.height[f] == 0 by {
          assert NodeOK(t, sh, NoPending, f);
        }
        LeafSplitNew(t, sh, f, a, l, r, key);
      }
    }
  }

  lemma LeafSplitRoot(t: State, sh: Shape, f: NodeId, a: nat, l: Node, r: Node, key: Bytes)
    requires Inv(t, sh, NoPending) && f < |t.nodes| && f !in sh.dead
    requires t.nodes[f].leaf && a < |sh.leaves| && sh.leaves[a] == f
    requires LeafHalvesOK(t, sh, f, l, r, key)
    ensures var N := |t.nodes|;
            var t', sh', pd' := Halved(t, f, l, r), HalvedShape(sh, f, key, ChainAfter(sh.leaves, a, N)),
                                Split(t.nodes[f].parent, f, N, key);
            Fits(t', sh', pd') && RootOK(t', sh', pd') && PendingOK(t', sh', pd')
  {
    assert NodeOK(t, sh, NoPending, f);
  }

  lemma ChainAfterAt(ls: seq<NodeId>, a: nat, id: NodeId, b: int)
    requires a < |ls| && 0 <= b <= |ls|
    ensures |ChainAfter(ls, a, id)| == |ls| + 1
    ensures ChainAfter(ls, a, id)[b] == if b <= a then ls[b] else if b == a + 1 then id else ls[b - 1]
  {
  }

  /** One link of the chain after the split. */
  lemma LeafSplitLink(t: State, sh: Shape, f: NodeId, a: nat, l: Node, r: Node, key: Bytes, b: nat)
    requires |sh.lo| == |t.nodes| && |sh.hi| == |t.nodes| && |sh.height| == |t.nodes|
    requires ChainOK(t, sh) && f < |t.nodes| && a < |sh.leaves| && sh.leaves[a] == f
    requires LeafHalvesOK(t, sh, f, l, r, key) && b < |sh.leaves|
    ensures var N := |t.nodes|;
            var t', sh' := Halved(t, f, l, r), HalvedShape(sh, f, key, ChainAfter(sh.leaves, a, N));
            var ls' := sh'.leaves;
            t'.nodes[ls'[b]].Next() == Child(ls'[b + 1]) && sh'.hi[ls'[b]] == sh'.lo[ls'[b + 1]]
  {
    var N := |t.nodes|;
    var ls := sh.leaves;
    ChainAfterAt(ls, a, N, b);
    ChainAfterAt(ls, a, N, b + 1);
    if b < a {
      assert ls[b] != f;
    } else if b == a + 1 {
      assert ls[b] != f;
    } else if b > a + 1 {
      assert ls[b - 1] != f && ls[b] != f;
    }
  }

  /** The chain's setting before a leaf split. */
  predicate ChainSplitting(t: State, sh: Shape, f: NodeId, a: nat, l: Node, r: Node, key: Bytes) {
    && |sh.lo| == |t.nodes| && |sh.hi| == |t.nodes| && |sh.height| == |t.nodes|
    && ChainOK(t, sh) && (forall d :: d in sh.dead ==> d < |t.nodes|)
    && f < |t.nodes| && a < |sh.leaves| && sh.leaves[a] == f
    && LeafHalvesOK(t, sh, f, l, r, key)
  }

  lemma LeafSplitMembers(t: State, sh: Shape, f: NodeId, a: nat, l: Node, r: Node, key: Bytes)
    requires ChainSplitting(t, sh, f, a, l, r, key)
    ensures var N := |t.nodes|;
            var t', sh' := Halved(t, f, l, r), HalvedShape(sh, f, key, ChainAfter(sh.leaves, a, N));
            var ls' := sh'.leaves;
            && (forall b :: 0 <= b < |ls'| ==> ls'[b] < |t'.nodes| && ls'[b] !in sh'.dead && t'.nodes[ls'[b]].leaf)
            && (forall b, c :: 0 <= b < c < |ls'| ==> ls'[b] != ls'[c])
  {
    var N := |t.nodes|;
    var ls := sh.leaves;
    var t', sh' := Halved(t, f, l, r), HalvedShape(sh, f, key, ChainAfter(ls, a, N));
    var ls' := sh'.leaves;
    forall b | 0 <= b < |ls'| ensures ls'[b] < |t'.nodes| && ls'[b] !in sh'.dead && t'.nodes[ls'[b]].leaf {
      ChainAfterAt(ls, a, N, b);
    }
    forall b, c | 0 <= b < c < |ls'| ensures ls'[b] != ls'[c] {
      ChainAfterAt(ls, a, N, b);
      ChainAfterAt(ls, a, N, c);
    }
  }

  lemma LeafSplitLinks(t: State, sh: Shape, f: NodeId, a: nat, l: Node, r: Node, key: Bytes)
    requires ChainSplitting(t, sh, f, a, l, r, key)
    ensures var N := |t.nodes|;
            var t', sh' := Halved(t, f, l, r), HalvedShape(sh, f, key, ChainAfter(sh.leaves, a, N));
            var ls' := sh'.leaves;
            forall b :: 0 <= b < |ls'| - 1 ==>
              t'.nodes[ls'[b]].Next() == Child(ls'[b + 1]) && sh'.hi[ls'[b]] == sh'.lo[ls'[b + 1]]
  {
    var N := |t.nodes|;
    var t', sh' := Halved(t, f, l, r), HalvedShape(sh, f, key, ChainAfter(sh.leaves, a, N));
    var ls' := sh'.leaves;
    forall b | 0 <= b < |ls'| - 1
      ensures t'.nodes[ls'[b]].Next() == Child(ls'[b + 1]) && sh'.hi[ls'[b]] == sh'.lo[ls'[b + 1]]
    {
      LeafSplitLink(t, sh, f, a, l, r, key, b);
    }
  }

  lemma LeafSplitEnds(t: State, sh: Shape, f: NodeId, a: nat, l: Node, r: Node, key: Bytes)
    requires ChainSplitting(t, sh, f, a, l, r, key)
    ensures var N := |t.nodes|;
            var t', sh' := Halved(t, f, l, r), HalvedShape(sh, f, key, ChainAfter(sh.leaves, a, N));
            var ls' := sh'.leaves;
            && t'.leftmost == Some(ls'[0]) && sh'.lo[ls'[0]] == NegInf
            && sh'.hi[ls'[|ls'| - 1]] == PosInf && t'.nodes[ls'[|ls'| - 1]].Next() == Nil
  {
    var N := |t.nodes|;
    var ls := sh.leaves;
    ChainAfterAt(ls, a, N, 0);
    ChainAfterAt(ls, a, N, |ls|);
    if a != 0 {
      assert ls[0] != f;
    }
    if a != |ls| - 1 {
      assert ls[|ls| - 1] != f;
    }
  }

  lemma LeafSplitChain(t: State, sh: Shape, f: NodeId, a: nat, l: Node, r: Node, key: Bytes)
    requires |sh.lo| == |t.nodes| && |sh.hi| == |t.nodes| && |sh.height| == |t.nodes|
    requires ChainOK(t, sh) && (forall d :: d in sh.dead ==> d < |t.nodes|)
    requires f < |t.nodes| && a < |sh.leaves| && sh.leaves[a] == f
    requires LeafHalvesOK(t, sh, f, l, r, key)
    ensures var N := |t.nodes|;
            ChainOK(Halved(t, f, l, r), HalvedShape(sh, f, key, ChainAfter(sh.leaves, a, N)))
  {
    LeafSplitMembers(t, sh, f, a, l, r, key);
    LeafSplitLinks(t, sh, f, a, l, r, key);
    LeafSplitEnds(t, sh, f, a, l, r, key);
  }

  lemma LeafSplitSeg(t: State, sh: Shape, f: NodeId, l: Node, r: Node, key: Bytes, ls': seq<NodeId>, x: NodeId)
    requires |sh.lo| == |t.nodes| && |sh.hi| == |t.nodes| && |sh.height| == |t.nodes|
    requires f < |t.nodes| && x < |t.nodes| && x != f
    ensures Seg(Halved(t, f, l, r), HalvedShape(sh, f, key, ls'), x) == Seg(t, sh, x)
  {
  }

  lemma LeafSplitEntries(t: State, sh: Shape, f: NodeId, a: nat, l: Node, r: Node, key: Bytes)
    requires |sh.lo| == |t.nodes| && |sh.hi| == |t.nodes| && |sh.height| == |t.nodes|
    requires ChainOK(t, sh) && f < |t.nodes| && a < |sh.leaves| && sh.leaves[a] == f
    requires l.WellSized() && r.WellSized()
    ensures var N := |t.nodes|;
            var ss := SegsOf(t, sh, sh.leaves);
            Entries(Halved(t, f, l, r), HalvedShape(sh, f, key, ChainAfter(sh.leaves, a, N)))
              == Flatten(ss[..a]) + (l.Entries() + r.Entries()) + Flatten(ss[a + 1..])
  {
    var N := |t.nodes|;
    var ls := sh.leaves;
    var t', sh' := Halved(t, f, l, r), HalvedShape(sh, f, key, ChainAfter(ls, a, N));
    var ss := SegsOf(t, sh, ls);
    var ss' := SegsOf(t', sh', sh'.leaves);
    var mid := [Seg(t', sh', f), Seg(t', sh', N)];
    assert ss' == ss[..a] + mid + ss[a + 1..] by {
      forall b | 0 <= b < |ss'| ensures ss'[b] == (ss[..a] + mid + ss[a + 1..])[b] {
        ChainAfterAt(ls, a, N, b);
        if b < a {
          LeafSplitSeg(t, sh, f, l, r, key, sh'.leaves, ls[b]);
        } else if b > a + 1 {
          LeafSplitSeg(t, sh, f, l, r, key, sh'.leaves, ls[b - 1]);
        }
      }
    }
    FlattenReplace(ss[..a], mid, ss[a + 1..]);
    FlattenPair(Seg(t', sh', f), Seg(t', sh', N));
  }

  /** putIntoLeafAndSplit: the full leaf f keeps the lower half of its
      entries with (k, v) inserted, a new leaf appended to the arena takes
      the upper half and f's place in the chain after f, and the split is
      left pending for f's parent. The contents become Insert(contents, k, v). */
  lemma LeafSplitStep(t: State, sh: Shape, f: NodeId, pos: int, k: Bytes, v: Bytes, mp: int) returns (a: nat)
    requires Inv(t, sh, NoPending) && KeyLeaf(t, sh, f, k)
    requires t.nodes[f].WellSized() && t.nodes[f].keyNum == |t.nodes[f].keys|
    requires 1 <= mp <= |t.nodes[f].keys| && 0 <= pos <= t.nodes[f].keyNum
    requires forall j :: 0 <= j < pos ==> Less(t.nodes[f].keys[j], k)
    requires pos < t.nodes[f].keyNum ==> Less(k, t.nodes[f].keys[pos])
    ensures var N := |t.nodes|;
            var l, r := LeafHalves(t.nodes[f], pos, k, v, N, mp).0, LeafHalves(t.nodes[f], pos, k, v, N, mp).1;
            && l.keyNum >= 1 && r.keyNum >= 1
            && a < |sh.leaves| && sh.leaves[a] == f
            && var t', sh', pd' := Halved(t, f, l, r), HalvedShape(sh, f, r.keys[0], ChainAfter(sh.leaves, a, N)),
                                   Split(t.nodes[f].parent, f, N, r.keys[0]);
               Inv(t', sh', pd') && Entries(t', sh') == Insert(Entries(t, sh), k, v)
  {
    var N := |t.nodes|;
    var n := t.nodes[f];
    var l, r := LeafHalves(n, pos, k, v, N, mp).0, LeafHalves(n, pos, k, v, N, mp).1;
    LeafFacts(t, sh, f, k);
    LeafSplitNode(t.order, n, pos, k, v, N, mp, sh.lo[f], sh.hi[f]);
    var key := r.keys[0];
    assert LeafHalvesOK(t, sh, f, l, r, key);
    a := ChainIndex(t, sh, NoPending, f);
    LeafSplitNodes(t, sh, f, a, l, r, key);
    LeafSplitRoot(t, sh, f, a, l, r, key);
    LeafSplitChain(t, sh, f, a, l, r, key);
    LeafSplitEntries(t, sh, f, a, l, r, key);
    LeafContents(t, sh, f, a, l, k);
  }
}
