/** The steps of deleteAtLeafAndRebalance: removing the last key of a root
    leaf, which empties the tree, and the two redistributions of an
    underfull leaf, which borrow the nearest entry of the left or the right
    sibling and move the parent's separator between the two leaves. A
    deletion that leaves enough keys is LeafSteps.RemoveStep. */
module DeleteSteps {
  import opened Outcomes
  import opened Keys
  import opened Seqs
  import opened OrderedMap
  import opened Chain
  import opened Nodes
  import opened Invariant
  import opened LeafSteps
  import opened ParentSteps
  import opened Borrow

  // ------------------------------------------------------------ a root leaf

  /** A tree whose root is a leaf has no other live node, and that leaf is
      its whole chain. */
  lemma RootLeafAlone(t: State, sh: Shape, f: NodeId)
    requires Inv(t, sh, NoPending) && t.root == Some(f) && f < |t.nodes| && t.nodes[f].leaf
    ensures forall y :: 0 <= y < |t.nodes| && y !in sh.dead ==> y == f
    ensures sh.leaves == [f]
  {
    assert NodeOK(t, sh, NoPending, f);
    forall y | 0 <= y < |t.nodes| && y !in sh.dead ensures y == f {
      if y != f {
        assert false;
      }
    }
    var ls := sh.leaves;
    assert f in ls;
    forall a | 0 <= a < |ls| ensures ls[a] == f {
    }
    if |ls| > 1 {
      assert false;
    }
  }

  /** The tree after its root leaf lost its last key: no root, the emptied
      node still the leftmost. */
  function Emptied(t: State, f: NodeId, m: Node): State
    requires f < |t.nodes|
  {
    t.(nodes := t.nodes[f := m], root := None)
  }

  /** No leaves, and the emptied leaf unlinked too. */
  function EmptiedShape(sh: Shape, f: NodeId): Shape {
    sh.(leaves := [], dead := sh.dead + {f})
  }

  /** deleteAt on a root leaf holding only k, followed by root = nil: the
      tree is empty and its contents are the old ones without k. */
  lemma EmptyRootStep(t: State, sh: Shape, f: NodeId, k: Bytes)
    requires Inv(t, sh, NoPending) && t.root == Some(f) && f < |t.nodes| && t.nodes[f].leaf
    requires t.nodes[f].WellSized() && t.nodes[f].keyNum == 1 && t.nodes[f].keys[0] == k
    ensures var t', sh' := Emptied(t, f, Deleted(t.nodes[f], 0)), EmptiedShape(sh, f);
            && Inv(t', sh', NoPending) && Entries(t', sh') == [] == Remove(Entries(t, sh), k)
            && t'.leftmost == Some(f) && t'.nodes[f].keyNum == 0
  {
    RootLeafAlone(t, sh, f);
    var n := t.nodes[f];
    var ss := SegsOf(t, sh, sh.leaves);
    assert ss == [Seg(t, sh, f)];
    FlattenSingle(Seg(t, sh, f));
    assert Entries(t, sh) == [Entry(k, ValueOf(n.pointers[0]))];
  }

  /** deleteAt on a root leaf that keeps a key is RemoveStep; the root stays. */
  lemma RootRemoveStep(t: State, sh: Shape, f: NodeId, pos: int, k: Bytes)
    requires Inv(t, sh, NoPending) && t.root == Some(f) && f < |t.nodes| && t.nodes[f].leaf
    requires t.nodes[f].WellSized() && 0 <= pos < t.nodes[f].keyNum && t.nodes[f].keyNum >= 2
    requires t.nodes[f].keys[pos] == k
    ensures var t' := WithLeaf(t, f, Deleted(t.nodes[f], pos));
            Inv(t', sh, NoPending) && Entries(t', sh) == Remove(Entries(t, sh), k) && t'.root == Some(f)
  {
    assert NodeOK(t, sh, NoPending, f);
    RemoveStep(t, sh, f, pos, k);
  }

  // ------------------------------------------------------------ moving a separator

  /** Leaves x and y sit in child slots s - 1 and s of live internal node p. */
  predicate Siblings(t: State, sh: Shape, p: NodeId, s: int, x: NodeId, y: NodeId) {
    && p < |t.nodes| && p !in sh.dead && !t.nodes[p].leaf && t.nodes[p].WellSized()
    && 1 <= s <= t.nodes[p].keyNum
    && t.nodes[p].pointers[s - 1] == Child(x) && t.nodes[p].pointers[s] == Child(y)
    && x < |t.nodes| && y < |t.nodes| && t.nodes[x].leaf && t.nodes[y].leaf
  }

  /** Leaves x' and y' can stand in for x and y with m as the key between
      them: the same parents and links, valid shapes, x's keys from x's lower
      end up to m, and y's from m up to y's upper end. */
  predicate Regrouping(t: State, sh: Shape, x: NodeId, y: NodeId, x': Node, y': Node, m: Bytes)
    requires x < |t.nodes| && y < |t.nodes| && x < |sh.lo| && y < |sh.hi|
  {
    && LeafIn(t.order, x', sh.lo[x], At(m)) && LeafIn(t.order, y', At(m), sh.hi[y])
    && x'.parent == t.nodes[x].parent && y'.parent == t.nodes[y].parent
    && x'.Next() == t.nodes[x].Next() && y'.Next() == t.nodes[y].Next()
  }

  predicate Reseparates(t: State, sh: Shape, p: NodeId, s: int, x: NodeId, y: NodeId, x': Node, y': Node, m: Bytes) {
    Inv(t, sh, NoPending) && Siblings(t, sh, p, s, x, y) && Regrouping(t, sh, x, y, x', y', m)
  }

  /** x and y replaced by x' and y', and p's key s - 1 by m. */
  function Reseparated(t: State, p: NodeId, s: int, x: NodeId, y: NodeId, x': Node, y': Node, m: Bytes): State
    requires p < |t.nodes| && x < |t.nodes| && y < |t.nodes| && 1 <= s <= |t.nodes[p].keys|
  {
    t.(nodes := t.nodes[x := x'][y := y'][p := t.nodes[p].(keys := t.nodes[p].keys[s - 1 := m])])
  }

  /** x's range now ends, and y's begins, at m. */
  function ReseparatedShape(sh: Shape, x: NodeId, y: NodeId, m: Bytes): Shape
    requires x < |sh.hi| && y < |sh.lo|
  {
    sh.(hi := sh.hi[x := At(m)], lo := sh.lo[y := At(m)])
  }

  /** What the invariant says of two sibling leaves and their parent. */
  predicate SiblingSetting(t: State, sh: Shape, p: NodeId, s: int, x: NodeId, y: NodeId) {
    && t.order >= 3 && Fits(t, sh, NoPending) && Siblings(t, sh, p, s, x, y)
    && x != y && x != p && y != p && x !in sh.dead && y !in sh.dead
    && t.nodes[x].parent == Some(p) && t.nodes[y].parent == Some(p)
    && t.root != Some(x) && t.root != Some(y)
    && NodeOK(t, sh, NoPending, p) && NodeOK(t, sh, NoPending, x) && NodeOK(t, sh, NoPending, y)
    && var n := t.nodes[p];
       && sh.lo[x] == SlotLo(n, sh.lo[p], s - 1) && sh.hi[x] == At(n.keys[s - 1]) == sh.lo[y]
       && sh.hi[y] == SlotHi(n, sh.hi[p], s)
       && (forall j :: 0 <= j <= n.keyNum && j != s - 1 ==> n.pointers[j] != Child(x))
       && (forall j :: 0 <= j <= n.keyNum && j != s ==> n.pointers[j] != Child(y))
  }

  /** The same, with the leaves that are to replace the siblings. */
  predicate Setting(t: State, sh: Shape, p: NodeId, s: int, x: NodeId, y: NodeId, x': Node, y': Node, m: Bytes) {
    SiblingSetting(t, sh, p, s, x, y) && Regrouping(t, sh, x, y, x', y', m)
  }

  lemma SiblingFacts(t: State, sh: Shape, p: NodeId, s: int, x: NodeId, y: NodeId)
    requires Inv(t, sh, NoPending) && Siblings(t, sh, p, s, x, y)
    ensures SiblingSetting(t, sh, p, s, x, y)
  {
    assert NodeOK(t, sh, NoPending, p);
    assert KidOK(t, sh, NoPending, p, s - 1) && KidOK(t, sh, NoPending, p, s);
    assert NodeOK(t, sh, NoPending, x) && NodeOK(t, sh, NoPending, y);
    NotOwnKid(t, sh, NoPending, p);
    assert t.nodes[p].Kids()[s - 1] == Child(x) && t.nodes[p].Kids()[s] == Child(y);
    AllEffRange(t, sh, NoPending);
    KidsDistinct(t, sh, NoPending, p);
  }

  /** Sibling leaves are neighbours on the chain. */
  lemma ChainNeighbours(t: State, sh: Shape, p: NodeId, s: int, x: NodeId, y: NodeId, x': Node, y': Node, m: Bytes) returns (a: nat)
    requires Inv(t, sh, NoPending) && Setting(t, sh, p, s, x, y, x', y', m)
    ensures a + 1 < |sh.leaves| && sh.leaves[a] == x && sh.leaves[a + 1] == y
  {
    a := ChainIndex(t, sh, NoPending, x);
    var b := ChainIndex(t, sh, NoPending, y);
    InvTiled(t, sh, NoPending);
    var ss := SegsOf(t, sh, sh.leaves);
    assert ss[a].hi == sh.hi[x] && ss[b].lo == sh.lo[y];
    TiledAdjacent(ss, a, b);
  }

  /** Replacing key s - 1 of a node by m, strictly inside the outer ends of
      slots s - 1 and s, keeps its keys ascending and in range, and moves
      only the boundary between those two slots. */
  lemma SeparatorMoved(n: Node, lo: Bound, hi: Bound, s: int, m: Bytes)
    requires n.WellSized() && Ascending(n.Keys()) && 1 <= s <= n.keyNum
    requires forall i :: 0 <= i < n.keyNum ==> InRange(n.keys[i], lo, hi)
    requires BoundLess(SlotLo(n, lo, s - 1), At(m)) && BoundLess(At(m), SlotHi(n, hi, s))
    ensures var n' := n.(keys := n.keys[s - 1 := m]);
            && n'.WellSized() && Ascending(n'.Keys())
            && (forall i :: 0 <= i < n'.keyNum ==> InRange(n'.keys[i], lo, hi))
            && (forall j :: 0 <= j <= n.keyNum ==>
                  && SlotLo(n', lo, j) == (if j == s then At(m) else SlotLo(n, lo, j))
                  && SlotHi(n', hi, j) == (if j == s - 1 then At(m) else SlotHi(n, hi, j)))
  {
    var n' := n.(keys := n.keys[s - 1 := m]);
    var ks := n.Keys();
    assert forall i :: 0 <= i < n.keyNum ==> n.keys[i] == ks[i];
    SlotBounds(n, lo, hi, s - 1);
    SlotBounds(n, lo, hi, s);
    BoundOrder(lo, SlotLo(n, lo, s - 1), At(m));
    BoundOrder(At(m), SlotHi(n, hi, s), hi);
    AscendingReplaced(ks, s - 1, m);
    assert n'.Keys() == ks[s - 1 := m];
  }

  /** t', sh' are t, sh after the regrouping, spelled out node by node. */
  predicate Layout(t: State, sh: Shape, p: NodeId, s: int, x: NodeId, y: NodeId, x': Node, y': Node, m: Bytes,
                   t': State, sh': Shape)
    requires Fits(t, sh, NoPending) && Siblings(t, sh, p, s, x, y)
  {
    && t'.order == t.order && t'.root == t.root && t'.leftmost == t.leftmost && |t'.nodes| == |t.nodes|
    && t'.nodes[x] == x' && t'.nodes[y] == y' && t'.nodes[p] == t.nodes[p].(keys := t.nodes[p].keys[s - 1 := m])
    && (forall i :: 0 <= i < |t.nodes| && i != x && i != y && i != p ==> t'.nodes[i] == t.nodes[i])
    && sh'.height == sh.height && sh'.leaves == sh.leaves && sh'.dead == sh.dead
    && |sh'.lo| == |sh.lo| && |sh'.hi| == |sh.hi|
    && sh'.hi[x] == At(m) && sh'.lo[y] == At(m) && sh'.lo[x] == sh.lo[x] && sh'.hi[y] == sh.hi[y]
    && (forall i :: 0 <= i < |t.nodes| && i != x ==> sh'.hi[i] == sh.hi[i])
    && (forall i :: 0 <= i < |t.nodes| && i != y ==> sh'.lo[i] == sh.lo[i])
  }

  lemma ReseparatedLaid(t: State, sh: Shape, p: NodeId, s: int, x: NodeId, y: NodeId, x': Node, y': Node, m: Bytes)
    requires Setting(t, sh, p, s, x, y, x', y', m)
    ensures Layout(t, sh, p, s, x, y, x', y', m, Reseparated(t, p, s, x, y, x', y', m), ReseparatedShape(sh, x, y, m))
  {
  }

  /** The views of nodes other than x and y do not change. */
  lemma RegroupedView(t: State, sh: Shape, p: NodeId, s: int, x: NodeId, y: NodeId, x': Node, y': Node, m: Bytes,
                      t': State, sh': Shape, c: NodeId)
    requires Setting(t, sh, p, s, x, y, x', y', m) && Layout(t, sh, p, s, x, y, x', y', m, t', sh')
    requires c < |t.nodes| && c != x && c != y
    ensures Fits(t', sh', NoPending) && ViewOf(t', sh', NoPending, c) == ViewOf(t, sh, NoPending, c)
  {
  }

  /** What children see of an internal node does not change. */
  lemma RegroupedUp(t: State, sh: Shape, p: NodeId, s: int, x: NodeId, y: NodeId, x': Node, y': Node, m: Bytes,
                    t': State, sh': Shape, g: NodeId)
    requires Setting(t, sh, p, s, x, y, x', y', m) && Layout(t, sh, p, s, x, y, x', y', m, t', sh')
    requires g < |t.nodes| && !t.nodes[g].leaf
    ensures UpOf(t', sh', g) == UpOf(t, sh, g)
  {
    if g == p {
      assert t'.nodes[p].Kids() == t.nodes[p].Kids();
    }
  }

  lemma RegroupedLeaf(t: State, sh: Shape, p: NodeId, s: int, x: NodeId, y: NodeId, x': Node, y': Node, m: Bytes,
                      t': State, sh': Shape, z: NodeId)
    requires Setting(t, sh, p, s, x, y, x', y', m) && Layout(t, sh, p, s, x, y, x', y', m, t', sh')
    requires z == x || z == y
    ensures Fits(t', sh', NoPending) && NodeOK(t', sh', NoPending, z)
  {
    RegroupedUp(t, sh, p, s, x, y, x', y', m, t', sh', p);
    assert Child(z) in t.nodes[p].Kids() by {
      if z == x {
        assert t.nodes[p].Kids()[s - 1] == Child(x);
      } else {
        assert t.nodes[p].Kids()[s] == Child(y);
      }
    }
    if z == x {
      BoundOrder(sh.lo[x], At(x'.keys[0]), At(m));
      assert Ranged(x', sh'.lo[x], sh'.hi[x], sh'.height[x], x in sh'.leaves);
    } else {
      BoundOrder(At(m), At(y'.keys[0]), sh.hi[y]);
      assert Ranged(y', sh'.lo[y], sh'.hi[y], sh'.height[y], y in sh'.leaves);
    }
  }

  lemma RegroupedParent(t: State, sh: Shape, p: NodeId, s: int, x: NodeId, y: NodeId, x': Node, y': Node, m: Bytes,
                        t': State, sh': Shape)
    requires Setting(t, sh, p, s, x, y, x', y', m) && Layout(t, sh, p, s, x, y, x', y', m, t', sh')
    ensures Fits(t', sh', NoPending) && NodeOK(t', sh', NoPending, p)
  {
    var n, n' := t.nodes[p], t'.nodes[p];
    BoundOrder(sh.lo[x], At(x'.keys[0]), At(m));
    BoundOrder(At(m), At(y'.keys[0]), sh.hi[y]);
    SeparatorMoved(n, sh.lo[p], sh.hi[p], s, m);
    assert Local(t.order, n');
    RegroupedParentKids(t, sh, p, s, x, y, x', y', m, t', sh');
    if t.root != Some(p) {
      assert ParentOK(t, sh, NoPending, p);
      NotOwnKid(t, sh, NoPending, p);
      RegroupedUp(t, sh, p, s, x, y, x', y', m, t', sh', n.parent.value);
    }
  }

  /** Every child of p still fits its slot of p. */
  lemma RegroupedParentKids(t: State, sh: Shape, p: NodeId, s: int, x: NodeId, y: NodeId, x': Node, y': Node, m: Bytes,
                            t': State, sh': Shape)
    requires Setting(t, sh, p, s, x, y, x', y', m) && Layout(t, sh, p, s, x, y, x', y', m, t', sh')
    ensures Fits(t', sh', NoPending) && t'.nodes[p].WellSized() && t'.nodes[p].keyNum == t.nodes[p].keyNum
    ensures forall j :: 0 <= j <= t'.nodes[p].keyNum ==> KidOK(t', sh', NoPending, p, j)
  {
    var n, n' := t.nodes[p], t'.nodes[p];
    BoundOrder(sh.lo[x], At(x'.keys[0]), At(m));
    BoundOrder(At(m), At(y'.keys[0]), sh.hi[y]);
    SeparatorMoved(n, sh.lo[p], sh.hi[p], s, m);
    forall j | 0 <= j <= n'.keyNum ensures KidOK(t', sh', NoPending, p, j) {
      RegroupedParentKid(t, sh, p, s, x, y, x', y', m, t', sh', j);
    }
  }

  lemma RegroupedParentKid(t: State, sh: Shape, p: NodeId, s: int, x: NodeId, y: NodeId, x': Node, y': Node, m: Bytes,
                           t': State, sh': Shape, j: int)
    requires Setting(t, sh, p, s, x, y, x', y', m) && Layout(t, sh, p, s, x, y, x', y', m, t', sh')
    requires 0 <= j <= t.nodes[p].keyNum
    requires var n' := t'.nodes[p];
             && n'.WellSized() && n'.keyNum == t.nodes[p].keyNum
             && (forall j :: 0 <= j <= t.nodes[p].keyNum ==>
                   && SlotLo(n', sh.lo[p], j) == (if j == s then At(m) else SlotLo(t.nodes[p], sh.lo[p], j))
                   && SlotHi(n', sh.hi[p], j) == (if j == s - 1 then At(m) else SlotHi(t.nodes[p], sh.hi[p], j)))
    ensures Fits(t', sh', NoPending) && KidOK(t', sh', NoPending, p, j)
  {
    assert KidOK(t, sh, NoPending, p, j);
    var c := t.nodes[p].pointers[j].id;
    if c == x || c == y {
      RegroupedParentPair(t, sh, p, s, x, y, x', y', m, t', sh', j);
    } else {
      RegroupedParentOther(t, sh, p, s, x, y, x', y', m, t', sh', j);
    }
  }

  /** The slots of x and y in p. */
  lemma RegroupedParentPair(t: State, sh: Shape, p: NodeId, s: int, x: NodeId, y: NodeId, x': Node, y': Node, m: Bytes,
                            t': State, sh': Shape, j: int)
    requires Setting(t, sh, p, s, x, y, x', y', m) && Layout(t, sh, p, s, x, y, x', y', m, t', sh')
    requires 0 <= j <= t.nodes[p].keyNum && KidOK(t, sh, NoPending, p, j)
    requires t.nodes[p].pointers[j].id == x || t.nodes[p].pointers[j].id == y
    requires var n' := t'.nodes[p];
             && n'.WellSized() && n'.keyNum == t.nodes[p].keyNum
             && (forall j :: 0 <= j <= t.nodes[p].keyNum ==>
                   && SlotLo(n', sh.lo[p], j) == (if j == s then At(m) else SlotLo(t.nodes[p], sh.lo[p], j))
                   && SlotHi(n', sh.hi[p], j) == (if j == s - 1 then At(m) else SlotHi(t.nodes[p], sh.hi[p], j)))
    ensures Fits(t', sh', NoPending) && KidOK(t', sh', NoPending, p, j)
  {
    if t.nodes[p].pointers[j].id == x {
      assert j == s - 1;
    } else {
      assert j == s;
    }
  }

  /** The slots of p's other children. */
  lemma RegroupedParentOther(t: State, sh: Shape, p: NodeId, s: int, x: NodeId, y: NodeId, x': Node, y': Node, m: Bytes,
                             t': State, sh': Shape, j: int)
    requires Setting(t, sh, p, s, x, y, x', y', m) && Layout(t, sh, p, s, x, y, x', y', m, t', sh')
    requires 0 <= j <= t.nodes[p].keyNum && KidOK(t, sh, NoPending, p, j)
    requires t.nodes[p].pointers[j].id != x && t.nodes[p].pointers[j].id != y
    requires var n' := t'.nodes[p];
             && n'.WellSized() && n'.keyNum == t.nodes[p].keyNum
             && (forall j :: 0 <= j <= t.nodes[p].keyNum ==>
                   && SlotLo(n', sh.lo[p], j) == (if j == s then At(m) else SlotLo(t.nodes[p], sh.lo[p], j))
                   && SlotHi(n', sh.hi[p], j) == (if j == s - 1 then At(m) else SlotHi(t.nodes[p], sh.hi[p], j)))
    ensures Fits(t', sh', NoPending) && KidOK(t', sh', NoPending, p, j)
  {
    var c := t.nodes[p].pointers[j].id;
    assert j != s - 1 && j != s;
    RegroupedView(t, sh, p, s, x, y, x', y', m, t', sh', c);
  }

  lemma RegroupedOther(t: State, sh: Shape, p: NodeId, s: int, x: NodeId, y: NodeId, x': Node, y': Node, m: Bytes,
                       t': State, sh': Shape, i: NodeId)
    requires Setting(t, sh, p, s, x, y, x', y', m) && Layout(t, sh, p, s, x, y, x', y', m, t', sh')
    requires i < |t.nodes| && i != x && i != y && i != p && NodeOK(t, sh, NoPending, i)
    ensures Fits(t', sh', NoPending) && NodeOK(t', sh', NoPending, i)
  {
    var n := t.nodes[i];
    RegroupedView(t, sh, p, s, x, y, x', y', m, t', sh', i);
    if !n.leaf {
      forall j | 0 <= j <= n.keyNum ensures KidSame(t, sh, NoPending, t', sh', NoPending, n.pointers[j]) {
        assert KidOK(t, sh, NoPending, i, j);
        RegroupedView(t, sh, p, s, x, y, x', y', m, t', sh', n.pointers[j].id);
      }
    }
    var g := n.parent;
    if g.Some? && g.value < |t.nodes| && !t.nodes[g.value].leaf {
      RegroupedUp(t, sh, p, s, x, y, x', y', m, t', sh', g.value);
    }
    NodeFrame(t, sh, NoPending, t', sh', NoPending, i);
  }

  lemma RegroupedNodes(t: State, sh: Shape, p: NodeId, s: int, x: NodeId, y: NodeId, x': Node, y': Node, m: Bytes,
                       t': State, sh': Shape)
    requires Setting(t, sh, p, s, x, y, x', y', m) && Layout(t, sh, p, s, x, y, x', y', m, t', sh')
    requires AllNodesOK(t, sh, NoPending)
    ensures Fits(t', sh', NoPending) && AllNodesOK(t', sh', NoPending)
  {
    forall i | 0 <= i < |t'.nodes| && i !in sh'.dead ensures NodeOK(t', sh', NoPending, i) {
      if i == x || i == y {
        RegroupedLeaf(t, sh, p, s, x, y, x', y', m, t', sh', i);
      } else if i == p {
        RegroupedParent(t, sh, p, s, x, y, x', y', m, t', sh');
      } else {
        RegroupedOther(t, sh, p, s, x, y, x', y', m, t', sh', i);
      }
    }
  }

  lemma RegroupedRoot(t: State, sh: Shape, p: NodeId, s: int, x: NodeId, y: NodeId, x': Node, y': Node, m: Bytes,
                      t': State, sh': Shape)
    requires Setting(t, sh, p, s, x, y, x', y', m) && Layout(t, sh, p, s, x, y, x', y', m, t', sh')
    requires RootOK(t, sh, NoPending)
    ensures Fits(t', sh', NoPending) && RootOK(t', sh', NoPending)
  {
    var r := t.root.value;
    if r == p {
      assert t'.nodes[p].parent == t.nodes[p].parent;
    }
  }

  /** The facts the chain lemmas share: the regrouping, and where x and y
      stand on the chain. */
  predicate ChainSetting(t: State, sh: Shape, p: NodeId, s: int, x: NodeId, y: NodeId, x': Node, y': Node, m: Bytes,
                         t': State, sh': Shape, a: nat) {
    && Fits(t, sh, NoPending) && Siblings(t, sh, p, s, x, y) && Regrouping(t, sh, x, y, x', y', m) && x != y
    && Layout(t, sh, p, s, x, y, x', y', m, t', sh')
    && ChainOK(t, sh) && a + 1 < |sh.leaves| && sh.leaves[a] == x && sh.leaves[a + 1] == y
  }

  /** The chain's facts about one position b. */
  lemma RegroupedLink(t: State, sh: Shape, p: NodeId, s: int, x: NodeId, y: NodeId, x': Node, y': Node, m: Bytes,
                      t': State, sh': Shape, a: nat, b: nat)
    requires ChainSetting(t, sh, p, s, x, y, x', y', m, t', sh', a)
    requires b < |sh.leaves|
    ensures var ls := sh.leaves;
            && t'.nodes[ls[b]].leaf && t'.nodes[ls[b]].Next() == t.nodes[ls[b]].Next()
            && (b != a ==> sh'.hi[ls[b]] == sh.hi[ls[b]])
            && (b != a + 1 ==> sh'.lo[ls[b]] == sh.lo[ls[b]])
  {
    var ls := sh.leaves;
    if b != a {
      assert ls[b] != x;
    }
    if b != a + 1 {
      assert ls[b] != y;
    }
  }

  lemma RegroupedChain(t: State, sh: Shape, p: NodeId, s: int, x: NodeId, y: NodeId, x': Node, y': Node, m: Bytes,
                       t': State, sh': Shape, a: nat)
    requires ChainSetting(t, sh, p, s, x, y, x', y', m, t', sh', a)
    ensures |sh'.lo| == |t'.nodes| && |sh'.hi| == |t'.nodes| && ChainOK(t', sh')
  {
    var ls := sh.leaves;
    forall b | 0 <= b < |ls|
      ensures && t'.nodes[ls[b]].Next() == t.nodes[ls[b]].Next() && t'.nodes[ls[b]].leaf
              && (b != a ==> sh'.hi[ls[b]] == sh.hi[ls[b]]) && (b != a + 1 ==> sh'.lo[ls[b]] == sh.lo[ls[b]])
    {
      RegroupedLink(t, sh, p, s, x, y, x', y', m, t', sh', a, b);
    }
    assert sh'.hi[ls[a]] == sh'.lo[ls[a + 1]];
    ChainRebounded(t, sh, t', sh', a);
  }

  lemma RegroupedSeg(t: State, sh: Shape, p: NodeId, s: int, x: NodeId, y: NodeId, x': Node, y': Node, m: Bytes,
                     t': State, sh': Shape, a: nat, b: nat)
    requires Setting(t, sh, p, s, x, y, x', y', m) && Layout(t, sh, p, s, x, y, x', y', m, t', sh')
    requires ChainOK(t, sh) && a + 1 < |sh.leaves| && sh.leaves[a] == x && sh.leaves[a + 1] == y
    requires b < |sh.leaves|
    ensures Seg(t', sh', sh.leaves[b]) == if b == a then Segment(x'.Entries(), sh.lo[x], At(m))
                                          else if b == a + 1 then Segment(y'.Entries(), At(m), sh.hi[y])
                                          else Seg(t, sh, sh.leaves[b])
  {
    RegroupedLink(t, sh, p, s, x, y, x', y', m, t', sh', a, b);
    var ls := sh.leaves;
    if b != a && b != a + 1 {
      assert ls[b] != x && ls[b] != y && ls[b] != p;
    }
  }

  lemma RegroupedEntries(t: State, sh: Shape, p: NodeId, s: int, x: NodeId, y: NodeId, x': Node, y': Node, m: Bytes,
                         t': State, sh': Shape, a: nat)
    requires Setting(t, sh, p, s, x, y, x', y', m) && Layout(t, sh, p, s, x, y, x', y', m, t', sh')
    requires ChainOK(t, sh) && a + 1 < |sh.leaves| && sh.leaves[a] == x && sh.leaves[a + 1] == y
    ensures var ss := SegsOf(t, sh, sh.leaves);
            Entries(t', sh') == Flatten(ss[..a]) + x'.Entries() + y'.Entries() + Flatten(ss[a + 2..])
  {
    var ls := sh.leaves;
    var sx, sy := Segment(x'.Entries(), sh.lo[x], At(m)), Segment(y'.Entries(), At(m), sh.hi[y]);
    forall b | 0 <= b < |ls|
      ensures Seg(t', sh', ls[b]) == if b == a then sx else if b == a + 1 then sy else Seg(t, sh, ls[b])
    {
      RegroupedSeg(t, sh, p, s, x, y, x', y', m, t', sh', a, b);
    }
    SegsReplaced(t, sh, t', sh', a, sx, sy);
  }

  /** Moving the separator between two sibling leaves, with the leaves
      regrouped to match, keeps the invariant; the contents change in those
      two leaves' places only. */
  lemma ReseparateStep(t: State, sh: Shape, p: NodeId, s: int, x: NodeId, y: NodeId, x': Node, y': Node, m: Bytes)
    returns (a: nat)
    requires Reseparates(t, sh, p, s, x, y, x', y', m)
    ensures var t', sh' := Reseparated(t, p, s, x, y, x', y', m), ReseparatedShape(sh, x, y, m);
            && Inv(t', sh', NoPending)
            && a + 1 < |sh.leaves| && sh.leaves[a] == x && sh.leaves[a + 1] == y
            && var ss := SegsOf(t, sh, sh.leaves);
               Entries(t', sh') == Flatten(ss[..a]) + x'.Entries() + y'.Entries() + Flatten(ss[a + 2..])
  {
    var t', sh' := Reseparated(t, p, s, x, y, x', y', m), ReseparatedShape(sh, x, y, m);
    SiblingFacts(t, sh, p, s, x, y);
    a := ChainNeighbours(t, sh, p, s, x, y, x', y', m);
    ReseparatedLaid(t, sh, p, s, x, y, x', y', m);
    RegroupedNodes(t, sh, p, s, x, y, x', y', m, t', sh');
    RegroupedRoot(t, sh, p, s, x, y, x', y', m, t', sh');
    RegroupedChain(t, sh, p, s, x, y, x', y', m, t', sh', a);
    RegroupedEntries(t, sh, p, s, x, y, x', y', m, t', sh', a);
  }

  // ------------------------------------------------------------ delete steps

  /** Sibling leaves are valid and meet at the separator. */
  lemma SiblingLeaves(t: State, sh: Shape, p: NodeId, s: int, x: NodeId, y: NodeId)
    requires SiblingSetting(t, sh, p, s, x, y)
    ensures LeafIn(t.order, t.nodes[x], sh.lo[x], sh.hi[x]) && LeafIn(t.order, t.nodes[y], sh.lo[y], sh.hi[y])
  {
    assert NodeOK(t, sh, NoPending, x) && NodeOK(t, sh, NoPending, y);
  }

  /** The arena after leaf f, losing its key at pos, borrows its left
      sibling x's last entry, whose key becomes separator s of parent p. */
  function LeftBorrowed(t: State, p: NodeId, s: int, x: NodeId, f: NodeId, pos: int): State
    requires p < |t.nodes| && x < |t.nodes| && f < |t.nodes| && 1 <= s <= |t.nodes[p].keys|
    requires t.nodes[x].WellSized() && t.nodes[f].WellSized()
    requires 1 <= t.nodes[x].keyNum && 0 <= pos < t.nodes[f].keyNum
  {
    var l, n := t.nodes[x], t.nodes[f];
    var c := l.keyNum - 1;
    Reseparated(t, p, s, x, f, Deleted(l, c), Inserted(Deleted(n, pos), 0, l.keys[c], l.pointers[c]), l.keys[c])
  }

  /** The ranges after a left borrow: x's last key now divides x from f. */
  function LeftBorrowedShape(t: State, sh: Shape, x: NodeId, f: NodeId): Shape
    requires x < |t.nodes| && x < |sh.hi| && f < |sh.lo| && t.nodes[x].WellSized() && 1 <= t.nodes[x].keyNum
  {
    ReseparatedShape(sh, x, f, t.nodes[x].keys[t.nodes[x].keyNum - 1])
  }

  /** The leaves a left borrow leaves behind regroup x and f around x's
      last key: x keeps all but its last entry, and f gets that entry in
      front in place of k. */
  lemma LeftBorrowLeaves(t: State, sh: Shape, p: NodeId, s: int, x: NodeId, f: NodeId, pos: int, k: Bytes)
    requires Inv(t, sh, NoPending) && Siblings(t, sh, p, s, x, f)
    requires t.nodes[x].WellSized() && t.nodes[f].WellSized()
    requires t.nodes[x].keyNum >= 2 && 0 <= pos < t.nodes[f].keyNum && t.nodes[f].keys[pos] == k
    ensures var l, n := t.nodes[x], t.nodes[f];
            var c := l.keyNum - 1;
            var m, v := l.keys[c], l.pointers[c];
            var l', n' := Deleted(l, c), Inserted(Deleted(n, pos), 0, m, v);
            var e := Entry(m, ValueOf(v));
            && Regrouping(t, sh, x, f, l', n', m) && InRange(k, sh.lo[f], sh.hi[f])
            && l.Entries() == l'.Entries() + [e] && n'.Entries() == [e] + Remove(n.Entries(), k)
  {
    var l, n := t.nodes[x], t.nodes[f];
    var c := l.keyNum - 1;
    var m, v := l.keys[c], l.pointers[c];
    assert LeafIn(t.order, l, sh.lo[x], sh.lo[f]) && LeafIn(t.order, n, sh.lo[f], sh.hi[f]) by {
      SiblingFacts(t, sh, p, s, x, f);
      SiblingLeaves(t, sh, p, s, x, f);
    }
    assert InRange(m, sh.lo[x], sh.lo[f]) && v.Value? && InRange(k, sh.lo[f], sh.hi[f]);
    LastRemoved(t.order, l, sh.lo[x], sh.lo[f]);
    FrontBorrowed(t.order, n, pos, k, m, v, sh.lo[f], sh.hi[f]);
  }

  /** Borrowing from the left sibling x: leaf f loses k and takes x's last
      entry, whose key becomes the separator in the parent. */
  lemma LeftBorrowStep(t: State, sh: Shape, p: NodeId, s: int, x: NodeId, f: NodeId, pos: int, k: Bytes)
    requires Inv(t, sh, NoPending) && Siblings(t, sh, p, s, x, f)
    requires t.nodes[x].WellSized() && t.nodes[f].WellSized()
    requires t.nodes[x].keyNum >= 2 && 0 <= pos < t.nodes[f].keyNum && t.nodes[f].keys[pos] == k
    ensures Inv(LeftBorrowed(t, p, s, x, f, pos), LeftBorrowedShape(t, sh, x, f), NoPending)
    ensures Entries(LeftBorrowed(t, p, s, x, f, pos), LeftBorrowedShape(t, sh, x, f)) == Remove(Entries(t, sh), k)
  {
    var l, n := t.nodes[x], t.nodes[f];
    var c := l.keyNum - 1;
    var m, v := l.keys[c], l.pointers[c];
    var l', n' := Deleted(l, c), Inserted(Deleted(n, pos), 0, m, v);
    var e := Entry(m, ValueOf(v));
    LeftBorrowLeaves(t, sh, p, s, x, f, pos, k);
    var a := ReseparateStep(t, sh, p, s, x, f, l', n', m);
    var t', sh' := Reseparated(t, p, s, x, f, l', n', m), ReseparatedShape(sh, x, f, m);
    assert Entries(t', sh') == Remove(Entries(t, sh), k) by {
      var ss := SegsOf(t, sh, sh.leaves);
      SiblingFacts(t, sh, p, s, x, f);
      LeafContents(t, sh, f, a + 1, n', k);
      assert ss[a].entries == l.Entries();
      FlattenShiftRight(ss, a, l'.Entries(), n'.Entries(), e, Remove(n.Entries(), k));
    }
  }

  /** The arena after leaf f, losing its key at pos, borrows its right
      sibling y's first entry; y's next key becomes separator s of parent p. */
  function RightBorrowed(t: State, p: NodeId, s: int, f: NodeId, y: NodeId, pos: int): State
    requires p < |t.nodes| && f < |t.nodes| && y < |t.nodes| && 1 <= s <= |t.nodes[p].keys|
    requires t.nodes[f].WellSized() && t.nodes[y].WellSized()
    requires 0 <= pos < t.nodes[f].keyNum && 2 <= t.nodes[y].keyNum
  {
    var n, r := t.nodes[f], t.nodes[y];
    Reseparated(t, p, s, f, y, Appended(Deleted(n, pos), r.keys[0], r.pointers[0]), Deleted(r, 0), r.keys[1])
  }

  /** The ranges after a right borrow: y's second key now divides f from y. */
  function RightBorrowedShape(t: State, sh: Shape, f: NodeId, y: NodeId): Shape
    requires y < |t.nodes| && f < |sh.hi| && y < |sh.lo| && t.nodes[y].WellSized() && 2 <= t.nodes[y].keyNum
  {
    ReseparatedShape(sh, f, y, t.nodes[y].keys[1])
  }

  /** The leaves a right borrow leaves behind regroup f and y around y's
      second key: f gets y's first entry at its end in place of k, and y
      keeps the rest. */
  lemma RightBorrowLeaves(t: State, sh: Shape, p: NodeId, s: int, f: NodeId, y: NodeId, pos: int, k: Bytes)
    requires Inv(t, sh, NoPending) && Siblings(t, sh, p, s, f, y)
    requires t.nodes[f].WellSized() && t.nodes[y].WellSized()
    requires t.nodes[y].keyNum >= 2 && 0 <= pos < t.nodes[f].keyNum && t.nodes[f].keys[pos] == k
    ensures var n, r := t.nodes[f], t.nodes[y];
            var m, v := r.keys[1], r.pointers[0];
            var n', r' := Appended(Deleted(n, pos), r.keys[0], v), Deleted(r, 0);
            var e := Entry(r.keys[0], ValueOf(v));
            && Regrouping(t, sh, f, y, n', r', m) && InRange(k, sh.lo[f], sh.hi[f])
            && n'.Entries() == Remove(n.Entries(), k) + [e] && r.Entries() == [e] + r'.Entries()
  {
    var n, r := t.nodes[f], t.nodes[y];
    var m, v := r.keys[1], r.pointers[0];
    assert sh.hi[f] == sh.lo[y] && LeafIn(t.order, n, sh.lo[f], sh.lo[y]) && LeafIn(t.order, r, sh.lo[y], sh.hi[y]) by {
      SiblingFacts(t, sh, p, s, f, y);
      SiblingLeaves(t, sh, p, s, f, y);
    }
    assert InRange(r.keys[0], sh.lo[y], sh.hi[y]) && v.Value? && InRange(k, sh.lo[f], sh.lo[y]);
    FirstRemoved(t.order, r, sh.lo[y], sh.hi[y]);
    BackBorrowed(t.order, n, pos, k, r.keys[0], v, sh.lo[f], sh.lo[y], At(m));
  }

  /** Borrowing from the right sibling y: leaf f loses k and takes y's first
      entry, and y's next key becomes the separator in the parent. */
  lemma RightBorrowStep(t: State, sh: Shape, p: NodeId, s: int, f: NodeId, y: NodeId, pos: int, k: Bytes)
    requires Inv(t, sh, NoPending) && Siblings(t, sh, p, s, f, y)
    requires t.nodes[f].WellSized() && t.nodes[y].WellSized()
    requires t.nodes[y].keyNum >= 2 && 0 <= pos < t.nodes[f].keyNum && t.nodes[f].keys[pos] == k
    ensures Inv(RightBorrowed(t, p, s, f, y, pos), RightBorrowedShape(t, sh, f, y), NoPending)
    ensures Entries(RightBorrowed(t, p, s, f, y, pos), RightBorrowedShape(t, sh, f, y)) == Remove(Entries(t, sh), k)
  {
    var n, r := t.nodes[f], t.nodes[y];
    var m, v := r.keys[1], r.pointers[0];
    var n', r' := Appended(Deleted(n, pos), r.keys[0], v), Deleted(r, 0);
    var e := Entry(r.keys[0], ValueOf(v));
    RightBorrowLeaves(t, sh, p, s, f, y, pos, k);
    var a := ReseparateStep(t, sh, p, s, f, y, n', r', m);
    var t', sh' := Reseparated(t, p, s, f, y, n', r', m), ReseparatedShape(sh, f, y, m);
    assert Entries(t', sh') == Remove(Entries(t, sh), k) by {
      var ss := SegsOf(t, sh, sh.leaves);
      SiblingFacts(t, sh, p, s, f, y);
      LeafContents(t, sh, f, a, n', k);
      assert ss[a + 1].entries == r.Entries();
      FlattenShiftLeft(ss, a, n'.Entries(), r'.Entries(), e, Remove(n.Entries(), k));
    }
  }
}
