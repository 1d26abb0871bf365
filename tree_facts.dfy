/** Facts about the whole tree that the BPTree methods rely on between the
    steps: the empty tree and the first root leaf, routing a key down to its
    leaf, looking a key up in that leaf, what the invariant says about a
    leaf's parent and about the split that is being pushed up, and each step
    of Put and Delete restated over the sealed invariant. */
module TreeFacts {
  import opened Outcomes
  import opened Keys
  import opened Seqs
  import opened OrderedMap
  import opened Chain
  import opened Nodes
  import opened Invariant
  import opened LeafSteps
  import opened SplitSteps
  import opened ParentSteps
  import opened DeleteSteps
  import opened Config
  import opened Occupancy

  // ------------------------------------------------------------ the sealed invariant

  /** A term that no formula mentions except the proof of Unseal. */
  predicate Marker(z: int) {
    true
  }

  /** Inv with contents es and minimum occupancy, kept behind a quantifier that only Marker
      instantiates. The BPTree methods hold the invariant in this form and
      reason about the tree through the lemmas below, each a small proof of
      its own, instead of having the solver unfold the whole invariant at
      every step of every method. The order and the slot counts of the shape
      stay in view. */
  ghost predicate Sealed(t: State, sh: Shape, pd: Pending, es: seq<Entry>) {
    && t.order >= 3 && Fits(t, sh, pd)
    && forall z {:trigger Marker(z)} :: Marker(z) ==>
         Inv(t, sh, pd) && Entries(t, sh) == es && Occupied(t, sh, pd, MinKeyNum(t.order))
  }

  lemma Seal(t: State, sh: Shape, pd: Pending, es: seq<Entry>)
    requires Inv(t, sh, pd) && Entries(t, sh) == es && Occupied(t, sh, pd, MinKeyNum(t.order))
    ensures Sealed(t, sh, pd, es)
  {
  }

  lemma Unseal(t: State, sh: Shape, pd: Pending, es: seq<Entry>)
    requires Sealed(t, sh, pd, es)
    ensures Inv(t, sh, pd) && Entries(t, sh) == es && Occupied(t, sh, pd, MinKeyNum(t.order))
  {
    assert Marker(0);
  }

  // ------------------------------------------------------------ new trees

  /** New(): no nodes, no root, no leftmost leaf. */
  function EmptyState(order: int): State {
    State(order, [], None, None)
  }

  function EmptyShape(): Shape {
    Shape([], [], [], [], {})
  }

  /** The tree New returns keeps the invariant and holds nothing. */
  lemma EmptyTree(order: int)
    requires order >= 3
    ensures Inv(EmptyState(order), EmptyShape(), NoPending)
    ensures Entries(EmptyState(order), EmptyShape()) == []
    ensures Sealed(EmptyState(order), EmptyShape(), NoPending, [])
  {
    assert Inv(EmptyState(order), EmptyShape(), NoPending);
    Seal(EmptyState(order), EmptyShape(), NoPending, []);
  }

  /** The root leaf initializeRoot makes: the one entry in slot 0, no parent,
      no successor. */
  function FirstLeaf(order: int, key: Bytes, value: Bytes): (n: Node)
    requires order >= 3
    ensures n.leaf && n.parent == None && n.WellSized() && n.keyNum == 1
    ensures n.keys[0] == key && n.pointers[0] == Value(value)
    ensures |n.keys| == order - 1 && |n.pointers| == order && n.Next() == Nil
  {
    var b := Blank(true, order);
    b.(keys := b.keys[0 := key], keyNum := 1, pointers := b.pointers[0 := Value(value)])
  }

  /** initializeRoot: the tree whose one node is that leaf. The nodes of an
      earlier tree emptied by Delete are no longer reachable once root and
      leftmost both point to the new leaf, so the arena starts over. */
  function FirstState(order: int, key: Bytes, value: Bytes): State
    requires order >= 3
  {
    State(order, [FirstLeaf(order, key, value)], Some(0), Some(0))
  }

  function FirstShape(): Shape {
    Shape([NegInf], [PosInf], [0], [0], {})
  }

  /** The tree initializeRoot makes keeps the invariant and holds exactly
      the one entry. */
  lemma FirstTree(order: int, key: Bytes, value: Bytes)
    requires order >= 3
    ensures Inv(FirstState(order, key, value), FirstShape(), NoPending)
    ensures Entries(FirstState(order, key, value), FirstShape()) == [Entry(key, value)]
    ensures Sealed(FirstState(order, key, value), FirstShape(), NoPending, [Entry(key, value)])
  {
    var t, sh := FirstState(order, key, value), FirstShape();
    var n := FirstLeaf(order, key, value);
    assert n.Keys() == [key];
    assert n.Next() == Nil;
    assert Ascending(n.Keys());
    assert Local(order, n);
    assert InRange(key, NegInf, PosInf);
    assert Ranged(n, NegInf, PosInf, 0, true);
    assert t.nodes[0] == n && t.order == order && t.root == Some(0);
    assert sh.lo[0] == NegInf && sh.hi[0] == PosInf && sh.height[0] == 0 && 0 in sh.leaves;
    assert NodeOK(t, sh, NoPending, 0);
    assert n.Entries() == [Entry(key, value)] by {
      assert |n.Entries()| == 1 && n.Entries()[0] == Entry(key, ValueOf(Value(value)));
    }
    assert Seg(t, sh, 0) == Segment([Entry(key, value)], NegInf, PosInf);
    assert SegsOf(t, sh, [0]) == [Segment([Entry(key, value)], NegInf, PosInf)];
    FlattenSingle(Segment([Entry(key, value)], NegInf, PosInf));
    Seal(t, sh, NoPending, [Entry(key, value)]);
  }

  /** A tree without a root holds nothing. */
  lemma NoRootEmpty(t: State, sh: Shape, es: seq<Entry>)
    requires Sealed(t, sh, NoPending, es) && t.root.None?
    ensures es == []
  {
    Unseal(t, sh, NoPending, es);
  }

  /** The contents are sorted by key. */
  lemma SealedSorted(t: State, sh: Shape, pd: Pending, es: seq<Entry>)
    requires Sealed(t, sh, pd, es)
    ensures Sorted(es)
  {
    Unseal(t, sh, pd, es);
    EntriesSorted(t, sh, pd);
  }

  // ------------------------------------------------------------ findLeaf

  /** The root answers for every key. */
  lemma RouteStart(t: State, sh: Shape, es: seq<Entry>, key: Bytes)
    requires Sealed(t, sh, NoPending, es) && t.root.Some?
    ensures t.root.value < |t.nodes| && t.root.value !in sh.dead
    ensures InRange(key, sh.lo[t.root.value], sh.hi[t.root.value])
    ensures t.nodes[t.root.value].WellSized()
  {
    Unseal(t, sh, NoPending, es);
    assert NodeOK(t, sh, NoPending, t.root.value);
  }

  /** One step of findLeaf: below a live internal node whose range holds
      key, the child in the slot ChildPosition picks is a live node one
      level down whose range holds key. */
  lemma RouteStep(t: State, sh: Shape, es: seq<Entry>, i: NodeId, key: Bytes, position: int)
    requires Sealed(t, sh, NoPending, es) && i < |t.nodes| && i !in sh.dead && !t.nodes[i].leaf
    requires InRange(key, sh.lo[i], sh.hi[i])
    requires t.nodes[i].WellSized() && 0 <= position <= t.nodes[i].keyNum
    requires forall j :: 0 <= j < position ==> !Less(key, t.nodes[i].keys[j])
    requires position < t.nodes[i].keyNum ==> Less(key, t.nodes[i].keys[position])
    ensures t.nodes[i].pointers[position].Child?
    ensures var c := t.nodes[i].pointers[position].id;
            && c < |t.nodes| && c !in sh.dead && sh.height[c] < sh.height[i]
            && InRange(key, sh.lo[c], sh.hi[c]) && t.nodes[c].WellSized()
  {
    Unseal(t, sh, NoPending, es);
    var n := t.nodes[i];
    assert NodeOK(t, sh, NoPending, i);
    assert KidOK(t, sh, NoPending, i, position);
    assert NodeOK(t, sh, NoPending, n.pointers[position].id);
    if position > 0 {
      LessTotal(key, n.keys[position - 1]);
    }
  }

  // ------------------------------------------------------------ a key in its leaf

  /** Key's leaf: a node shaped as the invariant wants, and the only one
      that can hold key. */
  lemma LeafEntries(t: State, sh: Shape, es: seq<Entry>, f: NodeId, key: Bytes)
    requires Sealed(t, sh, NoPending, es) && KeyLeaf(t, sh, f, key)
    ensures Local(t.order, t.nodes[f])
    ensures Lookup(es, key) == Lookup(t.nodes[f].Entries(), key)
  {
    Unseal(t, sh, NoPending, es);
    LeafFacts(t, sh, f, key);
    EntriesLookup(t, sh, NoPending, f, key);
  }

  /** Only one live leaf answers for a key: the chain's ranges are apart. */
  lemma KeyLeafUnique(t: State, sh: Shape, es: seq<Entry>, f: NodeId, g: NodeId, key: Bytes)
    requires Sealed(t, sh, NoPending, es) && KeyLeaf(t, sh, f, key) && KeyLeaf(t, sh, g, key)
    ensures f == g
  {
    Unseal(t, sh, NoPending, es);
    var a := ChainIndex(t, sh, NoPending, f);
    var b := ChainIndex(t, sh, NoPending, g);
    InvTiled(t, sh, NoPending);
    var ss := SegsOf(t, sh, sh.leaves);
    if a < b {
      TiledApart(ss, a, b);
      BoundOrder(At(key), sh.hi[f], sh.lo[g]);
      BoundOrder(At(key), sh.lo[g], At(key));
    } else if b < a {
      TiledApart(ss, b, a);
      BoundOrder(At(key), sh.hi[g], sh.lo[f]);
      BoundOrder(At(key), sh.lo[f], At(key));
    }
  }

  /** The tree holds key exactly when key's leaf does, with the value of the
      slot that holds it. */
  lemma LeafLookup(t: State, sh: Shape, es: seq<Entry>, f: NodeId, key: Bytes, pos: int)
    requires Sealed(t, sh, NoPending, es) && KeyLeaf(t, sh, f, key) && t.nodes[f].WellSized()
    requires -1 <= pos < t.nodes[f].keyNum
    requires pos >= 0 ==> t.nodes[f].keys[pos] == key
    requires pos == -1 ==> forall j :: 0 <= j < t.nodes[f].keyNum ==> t.nodes[f].keys[j] != key
    ensures Lookup(es, key) == if pos == -1 then None else Some(ValueOf(t.nodes[f].pointers[pos]))
  {
    if pos == -1 {
      LeafLookupAbsent(t, sh, es, f, key);
    } else {
      LeafLookupAt(t, sh, es, f, key, pos);
    }
  }

  /** LeafLookup's case where key's leaf does not hold key. */
  lemma LeafLookupAbsent(t: State, sh: Shape, es: seq<Entry>, f: NodeId, key: Bytes)
    requires Sealed(t, sh, NoPending, es) && KeyLeaf(t, sh, f, key) && t.nodes[f].WellSized()
    requires forall j :: 0 <= j < t.nodes[f].keyNum ==> t.nodes[f].keys[j] != key
    ensures Lookup(es, key) == None
  {
    Unseal(t, sh, NoPending, es);
    EntriesLookup(t, sh, NoPending, f, key);
    LookupAbsent(t.nodes[f].Entries(), key);
  }

  /** LeafLookup's case where key's leaf holds key at pos. */
  lemma LeafLookupAt(t: State, sh: Shape, es: seq<Entry>, f: NodeId, key: Bytes, pos: int)
    requires Sealed(t, sh, NoPending, es) && KeyLeaf(t, sh, f, key) && t.nodes[f].WellSized()
    requires 0 <= pos < t.nodes[f].keyNum && t.nodes[f].keys[pos] == key
    ensures Lookup(es, key) == Some(ValueOf(t.nodes[f].pointers[pos]))
  {
    Unseal(t, sh, NoPending, es);
    EntriesLookup(t, sh, NoPending, f, key);
    assert NodeOK(t, sh, NoPending, f);
    LeafSegment(t, sh, NoPending, f);
    LookupAt(t.nodes[f].Entries(), pos);
  }

  /** Where putIntoLeaf's scan stops without an exact match, no key of the
      leaf equals key: those before are smaller, those from there on larger. */
  lemma NotInLeaf(n: Node, key: Bytes, pos: int)
    requires n.WellSized() && Ascending(n.Keys()) && 0 <= pos <= n.keyNum
    requires forall j :: 0 <= j < pos ==> Less(n.keys[j], key)
    requires pos < n.keyNum ==> Less(key, n.keys[pos])
    ensures forall j :: 0 <= j < n.keyNum ==> n.keys[j] != key
  {
    forall j | pos < j < n.keyNum ensures Less(key, n.keys[j]) {
      assert Less(n.Keys()[pos], n.Keys()[j]);
      LessTransitive(key, n.keys[pos], n.keys[j]);
    }
  }

  // ------------------------------------------------------------ a leaf's parent

  /** A live node without a parent is the root. */
  lemma OrphanIsRoot(t: State, sh: Shape, es: seq<Entry>, f: NodeId)
    requires Sealed(t, sh, NoPending, es) && f < |t.nodes| && f !in sh.dead && t.nodes[f].parent == None
    ensures t.root == Some(f)
  {
    Unseal(t, sh, NoPending, es);
    assert NodeOK(t, sh, NoPending, f);
  }

  /** The parent p of a live leaf is a live internal node whose children are
      all live leaves; the slots past them are nil, so none holds a value. */
  lemma LeafParent(t: State, sh: Shape, es: seq<Entry>, f: NodeId, p: NodeId)
    requires Sealed(t, sh, NoPending, es) && f < |t.nodes| && f !in sh.dead && t.nodes[f].leaf
    requires t.nodes[f].parent == Some(p)
    ensures p < |t.nodes| && p !in sh.dead && !t.nodes[p].leaf && t.nodes[p].WellSized()
    ensures Child(f) in t.nodes[p].Kids()
    ensures forall j :: t.nodes[p].keyNum < j < |t.nodes[p].pointers| ==> t.nodes[p].pointers[j] == Nil
    ensures forall j :: 0 <= j <= t.nodes[p].keyNum ==>
              && t.nodes[p].pointers[j].Child? && t.nodes[p].pointers[j].id < |t.nodes|
              && t.nodes[t.nodes[p].pointers[j].id].leaf
              && t.nodes[t.nodes[p].pointers[j].id].WellSized()
    ensures forall j :: 0 <= j < |t.nodes[p].pointers| ==> !t.nodes[p].pointers[j].Value?
  {
    Unseal(t, sh, NoPending, es);
    assert NodeOK(t, sh, NoPending, f);
    assert NodeOK(t, sh, NoPending, p);
    var n := t.nodes[p];
    var s := IndexOf(n.Kids(), Child(f));
    assert KidOK(t, sh, NoPending, p, s);
    LeafSiblings(t, sh, es, p, s);
  }

  /** The children of a parent whose child s is a leaf are all live, well
      sized leaves. */
  lemma LeafSiblings(t: State, sh: Shape, es: seq<Entry>, p: NodeId, s: int)
    requires Sealed(t, sh, NoPending, es) && p < |t.nodes| && p !in sh.dead && !t.nodes[p].leaf
    requires t.nodes[p].WellSized() && 0 <= s <= t.nodes[p].keyNum
    requires t.nodes[p].pointers[s].Child? && t.nodes[p].pointers[s].id < |t.nodes|
    requires t.nodes[t.nodes[p].pointers[s].id].leaf
    ensures forall j :: 0 <= j <= t.nodes[p].keyNum ==>
              && t.nodes[p].pointers[j].Child? && t.nodes[p].pointers[j].id < |t.nodes|
              && t.nodes[t.nodes[p].pointers[j].id].leaf
              && t.nodes[t.nodes[p].pointers[j].id].WellSized()
  {
    Unseal(t, sh, NoPending, es);
    var n := t.nodes[p];
    assert NodeOK(t, sh, NoPending, p);
    assert KidOK(t, sh, NoPending, p, s);
    forall j | 0 <= j <= n.keyNum
      ensures n.pointers[j].Child? && n.pointers[j].id < |t.nodes|
      ensures t.nodes[n.pointers[j].id].leaf && t.nodes[n.pointers[j].id].WellSized()
    {
      assert KidOK(t, sh, NoPending, p, j);
      assert NodeOK(t, sh, NoPending, n.pointers[j].id);
    }
  }

  /** pointerPositionOf finds a leaf in its parent: no nil slot comes before
      it, so the scan stops at one of the slots in use. */
  lemma LeafSlot(n: Node, f: NodeId, pos: int)
    requires n.WellSized() && Child(f) in n.Kids()
    requires forall j :: 0 <= j <= n.keyNum ==> n.pointers[j].Child?
    requires forall j :: n.keyNum < j < |n.pointers| ==> n.pointers[j] == Nil
    requires -1 <= pos < |n.pointers|
    requires pos >= 0 ==> n.pointers[pos] == Child(f)
    requires pos == -1 <==> forall j :: 0 <= j < |n.pointers| && n.pointers[j] == Child(f) ==> Nil in n.pointers[..j]
    ensures 0 <= pos <= n.keyNum && n.pointers[pos] == Child(f)
  {
    var s := IndexOf(n.Kids(), Child(f));
    assert n.pointers[s] == Child(f);
    assert Nil !in n.pointers[..s] by {
      forall j | 0 <= j < s ensures n.pointers[..s][j] != Nil {
        assert n.pointers[j].Child?;
      }
    }
  }

  // ------------------------------------------------------------ pushing a split up

  /** The slot the scan of putIntoParent picks is that of the left half:
      both are the first slot whose key lies above the split key. */
  lemma SlotsAgree(n: Node, key: Bytes, position: int, j: int)
    requires n.WellSized() && 0 <= position <= n.keyNum && 0 <= j <= n.keyNum
    requires forall i :: 0 <= i < position ==> !Less(key, n.keys[i])
    requires position < n.keyNum ==> Less(key, n.keys[position])
    requires forall i :: 0 <= i < j ==> Less(n.keys[i], key)
    requires j < n.keyNum ==> Less(key, n.keys[j])
    ensures position == j
  {
    if position < j {
      LessTotal(key, n.keys[position]);
    }
  }

  /** While a split is pending the tree has a root, at least as high as the
      split's left half. */
  lemma PendingBelowRoot(t: State, sh: Shape, pd: Pending, es: seq<Entry>)
    requires Sealed(t, sh, pd, es) && pd.Split?
    ensures t.root.Some? && t.root.value < |t.nodes|
    ensures sh.height[pd.left] <= sh.height[t.root.value]
  {
    Unseal(t, sh, pd, es);
  }

  /** The parent a split waits for is a live internal node shaped as the
      invariant wants. */
  lemma PendingParent(t: State, sh: Shape, pd: Pending, es: seq<Entry>)
    requires Sealed(t, sh, pd, es) && pd.Split? && pd.parent.Some?
    ensures pd.parent.value < |t.nodes| && !t.nodes[pd.parent.value].leaf
    ensures Local(t.order, t.nodes[pd.parent.value])
  {
    Unseal(t, sh, pd, es);
    assert NodeOK(t, sh, pd, pd.left);
    assert ParentOK(t, sh, pd, pd.left);
    assert NodeOK(t, sh, pd, pd.parent.value);
  }

  // ------------------------------------------------------------ the steps, sealed

  /** OverwriteStep over the sealed invariant. */
  lemma SealedOverwrite(t: State, sh: Shape, es: seq<Entry>, f: NodeId, pos: int, k: Bytes, v: Bytes)
    requires Sealed(t, sh, NoPending, es) && KeyLeaf(t, sh, f, k)
    requires 0 <= pos < t.nodes[f].keyNum <= |t.nodes[f].keys| < |t.nodes[f].pointers|
    requires t.nodes[f].keys[pos] == k
    ensures Sealed(WithLeaf(t, f, Overwritten(t.nodes[f], pos, v)), sh, NoPending, Insert(es, k, v))
  {
    Unseal(t, sh, NoPending, es);
    OverwriteStep(t, sh, f, pos, k, v);
    OccupiedWithLeaf(t, sh, MinKeyNum(t.order), f, Overwritten(t.nodes[f], pos, v));
    Seal(WithLeaf(t, f, Overwritten(t.nodes[f], pos, v)), sh, NoPending, Insert(es, k, v));
  }

  /** InsertStep over the sealed invariant. */
  lemma SealedInsert(t: State, sh: Shape, es: seq<Entry>, f: NodeId, pos: int, k: Bytes, v: Bytes)
    requires Sealed(t, sh, NoPending, es) && KeyLeaf(t, sh, f, k)
    requires 0 <= pos <= t.nodes[f].keyNum < |t.nodes[f].keys|
    requires |t.nodes[f].pointers| == |t.nodes[f].keys| + 1
    requires forall j :: 0 <= j < pos ==> Less(t.nodes[f].keys[j], k)
    requires pos < t.nodes[f].keyNum ==> Less(k, t.nodes[f].keys[pos])
    ensures Sealed(WithLeaf(t, f, Inserted(t.nodes[f], pos, k, Value(v))), sh, NoPending, Insert(es, k, v))
  {
    Unseal(t, sh, NoPending, es);
    InsertStep(t, sh, f, pos, k, v);
    OccupiedWithLeaf(t, sh, MinKeyNum(t.order), f, Inserted(t.nodes[f], pos, k, Value(v)));
    Seal(WithLeaf(t, f, Inserted(t.nodes[f], pos, k, Value(v))), sh, NoPending, Insert(es, k, v));
  }

  /** LeafSplitStep over the sealed invariant, for the halves l and r that
      putIntoLeafAndSplit makes. */
  lemma SealedLeafSplit(t: State, sh: Shape, es: seq<Entry>, f: NodeId, pos: int, k: Bytes, v: Bytes, mp: int,
                        l: Node, r: Node)
    returns (a: nat)
    requires Sealed(t, sh, NoPending, es) && KeyLeaf(t, sh, f, k)
    requires t.nodes[f].WellSized() && t.nodes[f].keyNum == |t.nodes[f].keys|
    requires mp == Ceil(|t.nodes[f].keys|, 2) && 1 <= mp <= |t.nodes[f].keys| && 0 <= pos <= t.nodes[f].keyNum
    requires forall j :: 0 <= j < pos ==> Less(t.nodes[f].keys[j], k)
    requires pos < t.nodes[f].keyNum ==> Less(k, t.nodes[f].keys[pos])
    requires (l, r) == LeafHalves(t.nodes[f], pos, k, v, |t.nodes|, mp)
    ensures a < |sh.leaves| && r.keyNum >= 1 && |r.keys| >= 1
    ensures Sealed(Halved(t, f, l, r), HalvedShape(sh, f, r.keys[0], ChainAfter(sh.leaves, a, |t.nodes|)),
                   Split(t.nodes[f].parent, f, |t.nodes|, r.keys[0]), Insert(es, k, v))
  {
    Unseal(t, sh, NoPending, es);
    a := LeafSplitStep(t, sh, f, pos, k, v, mp);
    LeafFacts(t, sh, f, k);
    SplitSizes(t.order);
    OccupiedHalved(t, sh, MinKeyNum(t.order), f, l, r, r.keys[0], ChainAfter(sh.leaves, a, |t.nodes|));
    Seal(Halved(t, f, l, r), HalvedShape(sh, f, r.keys[0], ChainAfter(sh.leaves, a, |t.nodes|)),
         Split(t.nodes[f].parent, f, |t.nodes|, r.keys[0]), Insert(es, k, v));
  }

  /** GrowStep over the sealed invariant. */
  lemma SealedGrow(t: State, sh: Shape, es: seq<Entry>, key: Bytes, l: NodeId, r: NodeId)
    requires Sealed(t, sh, Split(None, l, r, key), es)
    ensures Sealed(Grown(t, key, l, r), GrownShape(sh, l), NoPending, es)
  {
    Unseal(t, sh, Split(None, l, r, key), es);
    GrowStep(t, sh, Split(None, l, r, key));
    OccupiedGrown(t, sh, MinKeyNum(t.order), key, l, r);
    Seal(Grown(t, key, l, r), GrownShape(sh, l), NoPending, es);
  }

  /** AbsorbStep over the sealed invariant, at the slot putIntoParent's scan
      picks. */
  lemma SealedAbsorb(t: State, sh: Shape, es: seq<Entry>, p: NodeId, key: Bytes, l: NodeId, r: NodeId, position: int)
    requires Sealed(t, sh, Split(Some(p), l, r, key), es)
    requires p < |t.nodes| && t.nodes[p].WellSized() && t.nodes[p].keyNum < |t.nodes[p].keys|
    requires 0 <= position <= t.nodes[p].keyNum
    requires forall i :: 0 <= i < position ==> !Less(key, t.nodes[p].keys[i])
    requires position < t.nodes[p].keyNum ==> Less(key, t.nodes[p].keys[position])
    ensures Sealed(Absorbed(t, p, position, key, l, r), sh, NoPending, es)
  {
    var pd := Split(Some(p), l, r, key);
    Unseal(t, sh, pd, es);
    var j := AbsorbStep(t, sh, pd);
    SlotsAgree(t.nodes[p], key, position, j);
    OccupiedAbsorbed(t, sh, MinKeyNum(t.order), p, position, key, l, r);
    Seal(Absorbed(t, p, position, key, l, r), sh, NoPending, es);
  }

  /** DivideStep over the sealed invariant, at the slot putIntoParentAndSplit's
      scan picks: that slot holds l, and the split of p waits for p's own
      parent one level up. */
  lemma SealedDivide(t: State, sh: Shape, es: seq<Entry>, p: NodeId, key: Bytes, l: NodeId, r: NodeId, position: int)
    requires Sealed(t, sh, Split(Some(p), l, r, key), es)
    requires p < |t.nodes| && t.nodes[p].WellSized() && t.nodes[p].keyNum == |t.nodes[p].keys|
    requires 0 <= position <= t.nodes[p].keyNum
    requires forall i :: 0 <= i < position ==> !Less(key, t.nodes[p].keys[i])
    requires position < t.nodes[p].keyNum ==> Less(key, t.nodes[p].keys[position])
    ensures |t.nodes[p].keys| >= 2 && t.nodes[p].pointers[position] == Child(l)
    ensures sh.height[p] == sh.height[l] + 1
    ensures var mk := DividedKey(t.nodes[p], position, key, r);
            Sealed(Divided(t, p, position, key, l, r), HalvedShape(sh, p, mk, sh.leaves),
                   Split(t.nodes[p].parent, p, |t.nodes|, mk), es)
  {
    var pd := Split(Some(p), l, r, key);
    Unseal(t, sh, pd, es);
    var j := DivideStep(t, sh, pd);
    SlotsAgree(t.nodes[p], key, position, j);
    var mk := DividedKey(t.nodes[p], position, key, r);
    PendingParent(t, sh, pd, es);
    SplitSizes(t.order);
    OccupiedDivided(t, sh, MinKeyNum(t.order), p, position, key, l, r, Ceil(|t.nodes[p].keys|, 2), mk);
    Seal(Divided(t, p, position, key, l, r), HalvedShape(sh, p, mk, sh.leaves),
         Split(t.nodes[p].parent, p, |t.nodes|, mk), es);
  }

  /** RemoveStep over the sealed invariant, for a leaf left with at least
      minKeyNum keys. */
  lemma SealedRemove(t: State, sh: Shape, es: seq<Entry>, f: NodeId, pos: int, k: Bytes)
    requires Sealed(t, sh, NoPending, es) && KeyLeaf(t, sh, f, k)
    requires 0 <= pos < t.nodes[f].keyNum && MinKeyNum(t.order) <= t.nodes[f].keyNum - 1 && t.nodes[f].WellSized()
    requires t.nodes[f].keys[pos] == k
    ensures Sealed(WithLeaf(t, f, Deleted(t.nodes[f], pos)), sh, NoPending, Remove(es, k))
  {
    Unseal(t, sh, NoPending, es);
    RemoveStep(t, sh, f, pos, k);
    OccupiedWithLeaf(t, sh, MinKeyNum(t.order), f, Deleted(t.nodes[f], pos));
    Seal(WithLeaf(t, f, Deleted(t.nodes[f], pos)), sh, NoPending, Remove(es, k));
  }

  /** EmptyRootStep over the sealed invariant. */
  lemma SealedEmptyRoot(t: State, sh: Shape, es: seq<Entry>, f: NodeId, k: Bytes)
    requires Sealed(t, sh, NoPending, es) && t.root == Some(f) && f < |t.nodes| && t.nodes[f].leaf
    requires t.nodes[f].WellSized() && t.nodes[f].keyNum == 1 && t.nodes[f].keys[0] == k
    ensures Sealed(Emptied(t, f, Deleted(t.nodes[f], 0)), EmptiedShape(sh, f), NoPending, Remove(es, k))
  {
    Unseal(t, sh, NoPending, es);
    EmptyRootStep(t, sh, f, k);
    OccupiedEmptied(t, sh, MinKeyNum(t.order), f, Deleted(t.nodes[f], 0));
    Seal(Emptied(t, f, Deleted(t.nodes[f], 0)), EmptiedShape(sh, f), NoPending, Remove(es, k));
  }

  /** RootRemoveStep over the sealed invariant. */
  lemma SealedRootRemove(t: State, sh: Shape, es: seq<Entry>, f: NodeId, pos: int, k: Bytes)
    requires Sealed(t, sh, NoPending, es) && t.root == Some(f) && f < |t.nodes| && t.nodes[f].leaf
    requires t.nodes[f].WellSized() && 0 <= pos < t.nodes[f].keyNum && t.nodes[f].keyNum >= 2
    requires t.nodes[f].keys[pos] == k
    ensures Sealed(WithLeaf(t, f, Deleted(t.nodes[f], pos)), sh, NoPending, Remove(es, k))
  {
    Unseal(t, sh, NoPending, es);
    RootRemoveStep(t, sh, f, pos, k);
    OccupiedWithLeaf(t, sh, MinKeyNum(t.order), f, Deleted(t.nodes[f], pos));
    Seal(WithLeaf(t, f, Deleted(t.nodes[f], pos)), sh, NoPending, Remove(es, k));
  }

  /** LeftBorrowStep over the sealed invariant, for the leaves l1 and n1
      that the left borrow of deleteAtLeafAndRebalance makes of x and f,
      when x has a key to spare. */
  lemma SealedLeftBorrow(t: State, sh: Shape, es: seq<Entry>, p: NodeId, s: int, x: NodeId, f: NodeId, pos: int, k: Bytes,
                         l1: Node, n1: Node)
    requires Sealed(t, sh, NoPending, es) && Siblings(t, sh, p, s, x, f)
    requires t.nodes[x].WellSized() && t.nodes[f].WellSized()
    requires MinKeyNum(t.order) < t.nodes[x].keyNum && 0 <= pos < t.nodes[f].keyNum && t.nodes[f].keys[pos] == k
    requires var l, c := t.nodes[x], t.nodes[x].keyNum - 1;
             l1 == Deleted(l, c) && n1 == Inserted(Deleted(t.nodes[f], pos), 0, l.keys[c], l.pointers[c])
    ensures n1.keys[0] == t.nodes[x].keys[t.nodes[x].keyNum - 1]
    ensures Sealed(t.(nodes := t.nodes[x := l1][f := n1][p := t.nodes[p].(keys := t.nodes[p].keys[s - 1 := n1.keys[0]])]),
                   LeftBorrowedShape(t, sh, x, f), NoPending, Remove(es, k))
  {
    var c := t.nodes[x].keyNum - 1;
    assert LeftBorrowed(t, p, s, x, f, pos) == Reseparated(t, p, s, x, f, l1, n1, t.nodes[x].keys[c]);
    Unseal(t, sh, NoPending, es);
    LeftBorrowStep(t, sh, p, s, x, f, pos, k);
    assert KidOK(t, sh, NoPending, p, s) by {
      assert NodeOK(t, sh, NoPending, p);
    }
    OccupiedReseparated(t, sh, MinKeyNum(t.order), p, s, x, f, l1, n1, t.nodes[x].keys[c]);
    Seal(Reseparated(t, p, s, x, f, l1, n1, t.nodes[x].keys[c]), LeftBorrowedShape(t, sh, x, f), NoPending, Remove(es, k));
  }

  /** RightBorrowStep over the sealed invariant, when y has a key to spare. */
  lemma SealedRightBorrow(t: State, sh: Shape, es: seq<Entry>, p: NodeId, s: int, f: NodeId, y: NodeId, pos: int, k: Bytes)
    requires Sealed(t, sh, NoPending, es) && Siblings(t, sh, p, s, f, y)
    requires t.nodes[f].WellSized() && t.nodes[y].WellSized()
    requires MinKeyNum(t.order) < t.nodes[y].keyNum && 0 <= pos < t.nodes[f].keyNum && t.nodes[f].keys[pos] == k
    ensures Sealed(RightBorrowed(t, p, s, f, y, pos), RightBorrowedShape(t, sh, f, y), NoPending, Remove(es, k))
  {
    Unseal(t, sh, NoPending, es);
    RightBorrowStep(t, sh, p, s, f, y, pos, k);
    assert KidOK(t, sh, NoPending, p, s - 1) by {
      assert NodeOK(t, sh, NoPending, p);
    }
    var n, r := t.nodes[f], t.nodes[y];
    OccupiedReseparated(t, sh, MinKeyNum(t.order), p, s, f, y,
                        Appended(Deleted(n, pos), r.keys[0], r.pointers[0]), Deleted(r, 0), r.keys[1]);
    Seal(RightBorrowed(t, p, s, f, y, pos), RightBorrowedShape(t, sh, f, y), NoPending, Remove(es, k));
  }

  // ------------------------------------------------------------ when Delete needs a merge

  /** Slot j of n is the first that points to f: the one pointerPositionOf
      finds. */
  predicate FirstSlot(n: Node, f: NodeId, j: int) {
    && 0 <= j < |n.pointers| && n.pointers[j] == Child(f)
    && forall i :: 0 <= i < j ==> n.pointers[i] != Child(f)
  }

  /** Child slot j of n holds a node with more than mk keys: a sibling that
      can lend one. */
  predicate CanLend(t: State, n: Node, j: int, mk: int) {
    && 0 <= j <= n.keyNum && j < |n.pointers| && n.pointers[j].Child? && n.pointers[j].id < |t.nodes|
    && mk < t.nodes[n.pointers[j].id].keyNum
  }

  /** Deleting key from leaf f needs the merge that deleteAtLeafAndRebalance
      leaves unfinished: f holds key and has a parent, is left with fewer
      than minKeyNum keys, and neither the sibling just before nor the one
      just after f's slot in the parent can lend a key. */
  ghost predicate NeedsMerge(t: State, f: NodeId, key: Bytes) {
    && f < |t.nodes| && t.nodes[f].WellSized() && key in t.nodes[f].Keys()
    && t.nodes[f].parent.Some? && t.nodes[f].parent.value < |t.nodes|
    && t.nodes[f].keyNum - 1 < MinKeyNum(t.order)
    && var n := t.nodes[t.nodes[f].parent.value];
       forall j :: FirstSlot(n, f, j) ==>
         !CanLend(t, n, j - 1, MinKeyNum(t.order)) && !CanLend(t, n, j + 1, MinKeyNum(t.order))
  }

  /** Delete(key) on a tree needs a merge: the tree has a root, and key's
      leaf needs one. */
  ghost predicate DeleteNeedsMerge(t: State, sh: Shape, key: Bytes) {
    t.root.Some? && exists f :: KeyLeaf(t, sh, f, key) && NeedsMerge(t, f, key)
  }

  /** For a leaf f holding key under parent p, found at slot j: a merge is
      needed exactly when f falls below mk and each neighbour slot that
      exists holds a sibling with no key to spare. */
  lemma NeedsMergeAt(t: State, f: NodeId, key: Bytes, p: NodeId, j: int, mk: int)
    requires f < |t.nodes| && t.nodes[f].WellSized() && key in t.nodes[f].Keys()
    requires t.nodes[f].parent == Some(p) && p < |t.nodes| && FirstSlot(t.nodes[p], f, j)
    requires t.nodes[p].WellSized() && j <= t.nodes[p].keyNum
    requires forall i :: 0 <= i <= t.nodes[p].keyNum ==>
               t.nodes[p].pointers[i].Child? && t.nodes[p].pointers[i].id < |t.nodes|
    requires mk == MinKeyNum(t.order)
    ensures NeedsMerge(t, f, key) <==>
              && t.nodes[f].keyNum - 1 < mk
              && (j - 1 >= 0 ==> t.nodes[t.nodes[p].pointers[j - 1].id].keyNum <= mk)
              && (j + 1 < t.nodes[p].keyNum + 1 ==> t.nodes[t.nodes[p].pointers[j + 1].id].keyNum <= mk)
  {
    var n := t.nodes[p];
    forall i | FirstSlot(n, f, i) ensures i == j {
    }
  }

  /** A leaf that does not hold key needs no merge to lose it. */
  lemma NoMergeAbsent(t: State, f: NodeId, key: Bytes)
    requires f < |t.nodes| && t.nodes[f].WellSized()
    requires forall j :: 0 <= j < t.nodes[f].keyNum ==> t.nodes[f].keys[j] != key
    ensures !NeedsMerge(t, f, key)
  {
    var ks := t.nodes[f].Keys();
    forall k | 0 <= k < |ks| ensures ks[k] != key {
      assert ks[k] == t.nodes[f].keys[k];
    }
  }
}
