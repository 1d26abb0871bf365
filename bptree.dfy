/** The BPTree object: its root, leftmost leaf, order, size and minimum key
    count, with the nodes it allocates kept in an arena `nodes` indexed by
    NodeId. Get, Put and Delete walk and update the arena the way the
    pointer-based tree walks and updates its nodes. The ghost `shape` holds
    the ranges, heights and leaf chain the invariant is stated over, and
    the ghost `contents` the key/value pairs the tree stands for. */
module Tree {
  import opened Outcomes
  import opened Keys
  import opened Seqs
  import opened OrderedMap
  import opened Config
  import opened Nodes
  import opened Invariant
  import opened LeafSteps
  import opened SplitSteps
  import opened ParentSteps
  import opened DeleteSteps
  import opened TreeFacts

  /** The adopt loops of putIntoParentAndSplit: every node some slot of ps
      points to gets g as its parent. */
  method AdoptChildren(ns: seq<Node>, ps: seq<Pointer>, g: NodeId) returns (ns': seq<Node>)
    ensures ns' == AdoptAll(ns, ps, g)
  {
    ns' := ns;
    var i := 0;
    while i < |ps|
      invariant 0 <= i <= |ps|
      invariant ns' == AdoptAll(ns, ps[..i], g)
    {
      assert ps[..i + 1] == ps[..i] + [ps[i]];
      if ps[i].Child? && ps[i].id < |ns'| {
        ns' := ns'[ps[i].id := ns'[ps[i].id].(parent := Some(g))];
      }
      i := i + 1;
    }
    assert ps[..i] == ps;
  }

  class BPTree {
    var root: Option<NodeId>
    /** The leftmost leaf, where iteration starts. */
    var leftmost: Option<NodeId>
    var order: int
    /** The number of keys in the tree. */
    var size: int
    /** ceil(order, 2) - 1, the fewest keys a leaf keeps before it borrows. */
    var minKeyNum: int
    var nodes: seq<Node>
    ghost var shape: Shape
    ghost var contents: seq<Entry>

    function Fields(): State
      reads this
    {
      State(order, nodes, root, leftmost)
    }

    /** The nodes form a B+ tree holding es, with split `pd` on its way up. */
    ghost predicate Pushing(pd: Pending, es: seq<Entry>)
      reads this
    {
      Sealed(Fields(), shape, pd, es) && minKeyNum == MinKeyNum(order)
    }

    /** A B+ tree holding `contents`. */
    ghost predicate Consistent()
      reads this
    {
      Pushing(NoPending, contents)
    }

    ghost predicate Valid()
      reads this
    {
      Consistent() && size == |contents|
    }

    /** New(options...): an empty tree whose order is the default one or the
        last option's. Every option comes out of Order, which rejects orders
        below 3. */
    constructor (options: seq<TreeOption>)
      requires forall i :: 0 <= i < |options| ==> options[i].order >= 3
      ensures Valid() && contents == [] && order == OrderAfter(options)
      ensures options == [] ==> order == DefaultOrder
      ensures options != [] ==> order == options[|options| - 1].order
      ensures minKeyNum == MinKeyNum(order) && size == 0
      ensures root == None && leftmost == None
    {
      var o := DefaultOrder;
      var i := 0;
      while i < |options|
        invariant 0 <= i <= |options| && o == OrderAfter(options[..i]) && o >= 3
      {
        assert options[..i + 1][i] == options[i];
        o := options[i].order;
        i := i + 1;
      }
      assert options[..i] == options;
      order := o;
      minKeyNum := Ceil(o, 2) - 1;
      root := None;
      leftmost := None;
      size := 0;
      nodes := [];
      shape := EmptyShape();
      contents := [];
      EmptyTree(o);
    }

    /** Size(). */
    function Size(): (n: int)
      reads this
      requires Valid()
      ensures n == |contents|
    {
      size
    }

    // ---------------------------------------------------------------- Get

    /** findLeaf: from the root down, at each internal node the child whose
        range holds key. The leaf reached is the only one that can hold key. */
    method FindLeaf(key: Bytes) returns (leaf: NodeId)
      requires Consistent() && root.Some?
      ensures KeyLeaf(Fields(), shape, leaf, key) && Local(order, nodes[leaf])
      ensures Lookup(contents, key) == Lookup(nodes[leaf].Entries(), key)
    {
      RouteStart(Fields(), shape, contents, key);
      leaf := root.value;
      while !nodes[leaf].leaf
        invariant leaf < |nodes| && leaf !in shape.dead && nodes[leaf].WellSized()
        invariant InRange(key, shape.lo[leaf], shape.hi[leaf])
        decreases shape.height[leaf]
      {
        var position := ChildPosition(nodes[leaf], key);
        RouteStep(Fields(), shape, contents, leaf, key, position);
        leaf := nodes[leaf].pointers[position].id;
      }
      LeafEntries(Fields(), shape, contents, leaf, key);
    }

    /** Get(key): the value stored under key and true, or nil and false. */
    method Get(key: Bytes) returns (value: Bytes, found: bool)
      requires Valid()
      ensures found <==> Lookup(contents, key).Some?
      ensures value == if found then Lookup(contents, key).value else []
    {
      if root == None {
        NoRootEmpty(Fields(), shape, contents);
        return [], false;
      }
      var leaf := FindLeaf(key);
      var n := nodes[leaf];
      var i := 0;
      while i < n.keyNum
        invariant 0 <= i <= n.keyNum
        invariant forall j :: 0 <= j < i ==> n.keys[j] != key
      {
        if Compare(key, n.keys[i]) == 0 {
          LeafLookup(Fields(), shape, contents, leaf, key, i);
          return ValueOf(n.pointers[i]), true;
        }
        i := i + 1;
      }
      LeafLookup(Fields(), shape, contents, leaf, key, -1);
      return [], false;
    }

    // ---------------------------------------------------------------- Put

    /** Put(key, value): store value under key, overwriting an earlier
        value. Returns the overwritten value and true, or nil and false. */
    method Put(key: Bytes, value: Bytes) returns (previous: Bytes, overridden: bool)
      requires Valid()
      modifies this
      ensures Valid() && order == old(order)
      ensures contents == Insert(old(contents), key, value)
      ensures overridden <==> Lookup(old(contents), key).Some?
      ensures previous == if overridden then Lookup(old(contents), key).value else []
    {
      if root == None {
        InitializeRoot(key, value);
        return [], false;
      }
      var leaf := FindLeaf(key);
      previous, overridden := PutIntoLeaf(leaf, key, value);
    }

    /** initializeRoot: a root leaf holding key and value, which is also the
        leftmost leaf. */
    method InitializeRoot(key: Bytes, value: Bytes)
      requires Valid() && root == None
      modifies this
      ensures Valid() && order == old(order)
      ensures old(contents) == [] && contents == [Entry(key, value)]
    {
      NoRootEmpty(Fields(), shape, contents);
      FirstTree(order, key, value);
      nodes := [FirstLeaf(order, key, value)];
      root := Some(0);
      leftmost := root;
      size := size + 1;
      shape := FirstShape();
      contents := [Entry(key, value)];
    }

    /** putIntoLeaf: overwrite key's value in leaf f, or insert key there
        when f has room, or split f and push the split up as far as it goes. */
    method PutIntoLeaf(f: NodeId, k: Bytes, v: Bytes) returns (previous: Bytes, overridden: bool)
      requires Valid() && KeyLeaf(Fields(), shape, f, k) && nodes[f].WellSized()
      modifies this
      ensures Valid() && order == old(order)
      ensures contents == Insert(old(contents), k, v)
      ensures overridden <==> Lookup(old(contents), k).Some?
      ensures previous == if overridden then Lookup(old(contents), k).value else []
    {
      SealedSorted(Fields(), shape, NoPending, contents);
      InsertLength(contents, k, v);
      LeafEntries(Fields(), shape, contents, f, k);
      var n := nodes[f];
      var insertPos, exact := InsertPosition(n, k);
      if exact {
        LeafLookup(Fields(), shape, contents, f, k, insertPos);
        SealedOverwrite(Fields(), shape, contents, f, insertPos, k, v);
        previous := ValueOf(n.pointers[insertPos]);
        nodes := nodes[f := Overwritten(n, insertPos, v)];
        contents := Insert(contents, k, v);
        return previous, true;
      }
      NotInLeaf(n, k, insertPos);
      LeafLookup(Fields(), shape, contents, f, k, -1);
      if n.keyNum < |n.keys| {
        SealedInsert(Fields(), shape, contents, f, insertPos, k, v);
        var m := Nodes.InsertAt(n, insertPos, k, Value(v));
        nodes := nodes[f := m];
      } else {
        var parent := n.parent;
        var left, right := PutIntoLeafAndSplit(f, insertPos, k, v);
        PushUp(parent, left, right, nodes[right].keys[0], Insert(contents, k, v));
      }
      size := size + 1;
      contents := Insert(contents, k, v);
      return [], false;
    }

    /** The loop at the end of putIntoLeaf: the split of left and right
        around insertKey goes into their parent if it has room, into a new
        root if they have no parent, and otherwise splits the parent too and
        goes on one level up. */
    method PushUp(parent0: Option<NodeId>, left0: NodeId, right0: NodeId, insertKey0: Bytes, ghost es: seq<Entry>)
      requires Pushing(Split(parent0, left0, right0, insertKey0), es)
      modifies this
      ensures Pushing(NoPending, es)
      ensures contents == old(contents) && size == old(size) && order == old(order)
    {
      var parent: Option<NodeId>, left: NodeId, right: NodeId, insertKey: Bytes := parent0, left0, right0, insertKey0;
      PendingBelowRoot(Fields(), shape, Split(parent, left, right, insertKey), es);
      while true
        invariant Pushing(Split(parent, left, right, insertKey), es)
        invariant root.Some? && root.value < |shape.height| && left < |shape.height|
        invariant shape.height[left] <= shape.height[root.value]
        invariant contents == old(contents) && size == old(size) && order == old(order)
        decreases shape.height[root.value] - shape.height[left]
      {
        if parent == None {
          PutIntoNewRoot(insertKey, left, right, es);
          break;
        }
        var p := parent.value;
        PendingParent(Fields(), shape, Split(parent, left, right, insertKey), es);
        if nodes[p].keyNum < |nodes[p].keys| {
          PutIntoParent(p, insertKey, left, right, es);
          break;
        }
        var grand := nodes[p].parent;
        insertKey, left, right := PutIntoParentAndSplit(p, insertKey, left, right, es);
        parent := grand;
        PendingBelowRoot(Fields(), shape, Split(parent, left, right, insertKey), es);
      }
    }

    /** putIntoLeafAndSplit on the full leaf f, with k going in at insertPos:
        f keeps the lower half, a new leaf appended to the arena takes the
        upper half and f's place in the chain right after f, and neither has
        a parent yet. The split now waits for f's old parent. */
    method PutIntoLeafAndSplit(f: NodeId, insertPos: int, k: Bytes, v: Bytes) returns (left: NodeId, right: NodeId)
      requires Consistent() && KeyLeaf(Fields(), shape, f, k) && Local(order, nodes[f])
      requires nodes[f].keyNum == |nodes[f].keys| && 0 <= insertPos <= nodes[f].keyNum
      requires forall j :: 0 <= j < insertPos ==> Less(nodes[f].keys[j], k)
      requires insertPos < nodes[f].keyNum ==> Less(k, nodes[f].keys[insertPos])
      modifies this
      ensures left == f && right == old(|nodes|) && right < |nodes| && nodes[right].keyNum >= 1
      ensures |nodes[right].keys| >= 1
      ensures Pushing(Split(old(nodes[f].parent), left, right, nodes[right].keys[0]), Insert(old(contents), k, v))
      ensures contents == old(contents) && size == old(size) && order == old(order)
    {
      var n := nodes[f];
      var mp := Ceil(|n.keys|, 2);
      CeilHalf(|n.keys|);
      left := f;
      right := |nodes|;
      var l, r := SplitLeaf(n, insertPos, k, v, right);
      ghost var a := SealedLeafSplit(Fields(), shape, contents, f, insertPos, k, v, mp, l, r);
      nodes := nodes[f := l] + [r];
      shape := HalvedShape(shape, f, r.keys[0], ChainAfter(shape.leaves, a, right));
    }

    /** putIntoNewRoot: a new root with key between l and r, the old root l
        and its new sibling r as its children. */
    method PutIntoNewRoot(key: Bytes, l: NodeId, r: NodeId, ghost es: seq<Entry>)
      requires Pushing(Split(None, l, r, key), es)
      modifies this
      ensures Pushing(NoPending, es)
      ensures contents == old(contents) && size == old(size) && order == old(order)
    {
      SealedGrow(Fields(), shape, es, key, l, r);
      var newRoot := NewRootNode(order, key, l, r);
      var m := |nodes|;
      nodes := nodes + [newRoot];
      nodes := nodes[l := nodes[l].(parent := Some(m))];
      nodes := nodes[r := nodes[r].(parent := Some(m))];
      root := Some(m);
      shape := GrownShape(shape, l);
    }

    /** putIntoParent: parent p has room, so key and r go in right after l,
        and both halves answer to p. */
    method PutIntoParent(p: NodeId, key: Bytes, l: NodeId, r: NodeId, ghost es: seq<Entry>)
      requires Pushing(Split(Some(p), l, r, key), es) && p < |nodes| && Local(order, nodes[p])
      requires nodes[p].keyNum < |nodes[p].keys|
      modifies this
      ensures Pushing(NoPending, es)
      ensures contents == old(contents) && size == old(size) && order == old(order)
    {
      var insertPos := ChildPosition(nodes[p], key);
      SealedAbsorb(Fields(), shape, es, p, key, l, r, insertPos);
      var m := InsertChild(nodes[p], insertPos, key, l, r);
      nodes := nodes[p := m];
      nodes := nodes[l := nodes[l].(parent := Some(p))];
      nodes := nodes[r := nodes[r].(parent := Some(p))];
    }

    /** putIntoParentAndSplit: parent p is full, so it takes key and r and
        splits in two; the lower half stays at p, the upper half is appended
        to the arena, every child answers to the half that holds it, and the
        split of p, around middleKey, now waits for p's own parent. */
    method PutIntoParentAndSplit(p: NodeId, key: Bytes, l: NodeId, r: NodeId, ghost es: seq<Entry>)
      returns (middleKey: Bytes, left: NodeId, right: NodeId)
      requires Pushing(Split(Some(p), l, r, key), es) && p < |nodes| && Local(order, nodes[p])
      requires nodes[p].keyNum == |nodes[p].keys|
      modifies this
      ensures left == p && Pushing(Split(old(nodes[p].parent), left, right, middleKey), es)
      ensures root == old(root) && |old(shape.height)| <= |shape.height|
      ensures forall i :: 0 <= i < |old(shape.height)| ==> shape.height[i] == old(shape.height[i])
      ensures l < |shape.height| && shape.height[left] == old(shape.height[l]) + 1
      ensures contents == old(contents) && size == old(size) && order == old(order)
    {
      ghost var t0, sh0 := Fields(), shape;
      var n := nodes[p];
      var insertPos := ChildPosition(n, key);
      SealedDivide(t0, sh0, es, p, key, l, r, insertPos);
      var lower, upper, mk := SplitInternal(n, insertPos, key, l, r);
      right := |nodes|;
      var insertNode := if insertPos >= Ceil(|n.keys|, 2) then right else p;
      var ns := nodes[p := lower] + [upper];
      ns := ns[l := ns[l].(parent := Some(insertNode))];
      ns := ns[r := ns[r].(parent := Some(insertNode))];
      ns := AdoptChildren(ns, lower.pointers, p);
      ns := AdoptChildren(ns, upper.pointers, right);
      nodes := ns;
      shape := HalvedShape(sh0, p, mk, sh0.leaves);
      middleKey, left := mk, p;
      assert Fields() == Divided(t0, p, insertPos, key, l, r);
    }

    // ---------------------------------------------------------------- Delete

    /** Delete(key): remove key and return its value, or nothing when key
        is absent. When the leaf would have to merge with a sibling
        (unfinished in the source), the tree is left as it was and Failure
        reports it: exactly when key's leaf would fall below minKeyNum keys
        and neither adjacent sibling has a key to spare. */
    method Delete(key: Bytes) returns (r: Result<Option<Bytes>>)
      requires Valid()
      modifies this
      ensures Valid() && order == old(order)
      ensures r.Success? ==> contents == Remove(old(contents), key) && r.value == Lookup(old(contents), key)
      ensures r.Failure? ==> contents == old(contents) && Lookup(old(contents), key).Some?
      ensures r.Failure? ==> unchanged(this)
      ensures r.Failure? ==> r.error == "merge not implemented"
      ensures r.Failure? <==> DeleteNeedsMerge(old(Fields()), old(shape), key)
    {
      if root == None {
        NoRootEmpty(Fields(), shape, contents);
        return Success(None);
      }
      ghost var t0, sh0, es0 := Fields(), shape, contents;
      var leaf := FindLeaf(key);
      forall g | KeyLeaf(t0, sh0, g, key) ensures g == leaf {
        KeyLeafUnique(t0, sh0, es0, leaf, g, key);
      }
      r := DeleteAtLeafAndRebalance(leaf, key);
      RemoveLength(old(contents), key);
      if r.Success? && r.value.Some? {
        size := size - 1;
      }
    }

    /** deleteAtLeafAndRebalance on key's leaf f, with the root check made
        before f's parent is looked at: a root leaf just loses key (and the
        tree its root once that leaf is empty); any other leaf loses key and,
        if that leaves it below minKeyNum keys, borrows the last entry of its
        left sibling or else the first entry of its right sibling, with the
        separator between the two in the parent moved accordingly. */
    method DeleteAtLeafAndRebalance(f: NodeId, key: Bytes) returns (r: Result<Option<Bytes>>)
      requires Consistent() && KeyLeaf(Fields(), shape, f, key) && Local(order, nodes[f])
      modifies this
      ensures Consistent() && size == old(size) && order == old(order)
      ensures r.Success? ==> contents == Remove(old(contents), key) && r.value == Lookup(old(contents), key)
      ensures r.Failure? ==> contents == old(contents) && Lookup(old(contents), key).Some?
      ensures r.Failure? ==> unchanged(this)
      ensures r.Failure? ==> r.error == "merge not implemented"
      ensures r.Failure? <==> NeedsMerge(old(Fields()), f, key)
    {
      ghost var t0 := Fields();
      var n := nodes[f];
      var keyPos := KeyPosition(n, key);
      if keyPos == -1 {
        NoMergeAbsent(t0, f, key);
        LeafLookup(Fields(), shape, contents, f, key, -1);
        RemoveAbsent(contents, key);
        return Success(None);
      }
      LeafLookup(Fields(), shape, contents, f, key, keyPos);
      var value := ValueOf(n.pointers[keyPos]);
      if n.parent == None {
        DeleteAtRootLeaf(f, keyPos, key);
        return Success(Some(value));
      }
      var removed := DeleteAtInnerLeaf(f, keyPos, key);
      if removed {
        return Success(Some(value));
      }
      return Failure("merge not implemented");
    }

    /** The non-root branches of deleteAtLeafAndRebalance: leaf f loses key,
        at keyPos; if that leaves it below minKeyNum keys it borrows from a
        sibling, and when neither sibling can lend, nothing changes and false
        reports the merge that would be needed. */
    method DeleteAtInnerLeaf(f: NodeId, keyPos: int, key: Bytes) returns (removed: bool)
      requires Consistent() && KeyLeaf(Fields(), shape, f, key) && Local(order, nodes[f]) && nodes[f].parent.Some?
      requires 0 <= keyPos < nodes[f].keyNum && nodes[f].keys[keyPos] == key
      modifies this
      ensures Consistent() && size == old(size) && order == old(order)
      ensures removed ==> contents == Remove(old(contents), key)
      ensures !removed ==> contents == old(contents) && unchanged(this)
      ensures !removed <==> NeedsMerge(old(Fields()), f, key)
    {
      SplitSizes(order);
      ghost var t0 := Fields();
      var n := nodes[f];
      var p := n.parent.value;
      LeafParent(Fields(), shape, contents, f, p);
      var parent := nodes[p];
      var leafPointerPos := PointerPositionOf(parent, f);
      LeafSlot(parent, f, leafPointerPos);
      assert n.Keys()[keyPos] == key;
      NeedsMergeAt(t0, f, key, p, leafPointerPos, minKeyNum);
      var leafKeyPosInParent := leafPointerPos - 1;
      if leafKeyPosInParent < 0 {
        leafKeyPosInParent := 0;
      }
      var m := DeleteAt(n, keyPos);
      if m.keyNum >= minKeyNum {
        SealedRemove(Fields(), shape, contents, f, keyPos, key);
        nodes := nodes[f := m];
        contents := Remove(contents, key);
        return true;
      }
      removed := RebalanceLeaf(p, leafPointerPos, leafKeyPosInParent, f, keyPos, key, m);
    }

    /** The sibling branches of deleteAtLeafAndRebalance, for leaf f in slot
        leafPointerPos of parent p, left with m below minKeyNum keys: borrow
        from the left sibling if it has a key to spare, else from the right
        one if that has; otherwise nothing changes and false reports the
        merge that would be needed. */
    method RebalanceLeaf(p: NodeId, leafPointerPos: int, leafKeyPosInParent: int, f: NodeId, keyPos: int, key: Bytes, m: Node)
      returns (borrowed: bool)
      requires Consistent() && f < |nodes| && nodes[f].leaf && nodes[f].WellSized() && nodes[f].parent == Some(p)
      requires p < |nodes| && p !in shape.dead && !nodes[p].leaf && nodes[p].WellSized()
      requires forall j :: 0 <= j <= nodes[p].keyNum ==>
                 && nodes[p].pointers[j].Child? && nodes[p].pointers[j].id < |nodes|
                 && nodes[nodes[p].pointers[j].id].leaf && nodes[nodes[p].pointers[j].id].WellSized()
      requires 0 <= leafPointerPos <= nodes[p].keyNum && nodes[p].pointers[leafPointerPos] == Child(f)
      requires leafKeyPosInParent == if leafPointerPos >= 1 then leafPointerPos - 1 else 0
      requires 0 <= keyPos < nodes[f].keyNum && nodes[f].keys[keyPos] == key && m == Deleted(nodes[f], keyPos)
      modifies this
      ensures Consistent() && size == old(size) && order == old(order)
      ensures borrowed ==> contents == Remove(old(contents), key)
      ensures !borrowed ==> contents == old(contents) && unchanged(this)
      ensures !borrowed <==>
                && (leafPointerPos - 1 >= 0 ==> old(nodes[nodes[p].pointers[leafPointerPos - 1].id].keyNum) <= minKeyNum)
                && (leafPointerPos + 1 < old(nodes[p].keyNum) + 1 ==>
                      old(nodes[nodes[p].pointers[leafPointerPos + 1].id].keyNum) <= minKeyNum)
    {
      var parent := nodes[p];
      var leftSibPos := leafPointerPos - 1;
      if leftSibPos >= 0 {
        var x := parent.pointers[leftSibPos].id;
        if nodes[x].keyNum > minKeyNum {
          BorrowFromLeft(p, leafPointerPos, leafKeyPosInParent, x, f, keyPos, key, m);
          return true;
        }
      }
      var rightSibPos := leafPointerPos + 1;
      if rightSibPos < parent.keyNum + 1 {
        var y := parent.pointers[rightSibPos].id;
        if nodes[y].keyNum > minKeyNum {
          BorrowFromRight(p, rightSibPos, leafPointerPos, f, y, keyPos, key, m);
          return true;
        }
      }
      return false;
    }

    /** The root branch of deleteAtLeafAndRebalance: the root leaf f loses
        key, at keyPos; when none is left the tree loses its root. */
    method DeleteAtRootLeaf(f: NodeId, keyPos: int, key: Bytes)
      requires Consistent() && f < |nodes| && nodes[f].leaf && nodes[f].parent == None && f !in shape.dead
      requires nodes[f].WellSized() && 0 <= keyPos < nodes[f].keyNum && nodes[f].keys[keyPos] == key
      modifies this
      ensures Consistent() && contents == Remove(old(contents), key)
      ensures size == old(size) && order == old(order)
    {
      OrphanIsRoot(Fields(), shape, contents, f);
      var m := DeleteAt(nodes[f], keyPos);
      if m.keyNum == 0 {
        SealedEmptyRoot(Fields(), shape, contents, f, key);
        nodes := nodes[f := m];
        root := None;
        shape := EmptiedShape(shape, f);
      } else {
        SealedRootRemove(Fields(), shape, contents, f, keyPos, key);
        nodes := nodes[f := m];
      }
      contents := Remove(contents, key);
    }

    /** The left-borrow branch of deleteAtLeafAndRebalance: leaf f, which
        became m on losing key, takes the last entry of its left sibling x,
        and that entry's key becomes the separator between them in parent p,
        at index leafKeyPosInParent = s - 1. */
    method BorrowFromLeft(p: NodeId, s: int, leafKeyPosInParent: int, x: NodeId, f: NodeId, keyPos: int, key: Bytes, m: Node)
      requires Consistent() && Siblings(Fields(), shape, p, s, x, f) && leafKeyPosInParent == s - 1
      requires nodes[x].WellSized() && nodes[f].WellSized() && nodes[x].keyNum > minKeyNum
      requires 0 <= keyPos < nodes[f].keyNum && nodes[f].keys[keyPos] == key && m == Deleted(nodes[f], keyPos)
      modifies this
      ensures Consistent() && contents == Remove(old(contents), key)
      ensures size == old(size) && order == old(order)
    {
      SplitSizes(order);
      var leftSib := nodes[x];
      var c := leftSib.keyNum - 1;
      ghost var t0, sh0 := Fields(), shape;
      var n1 := Nodes.InsertAt(m, 0, leftSib.keys[c], leftSib.pointers[c]);
      var l1 := DeleteAt(leftSib, c);
      SealedLeftBorrow(t0, sh0, contents, p, s, x, f, keyPos, key, l1, n1);
      var parent := nodes[p];
      nodes := nodes[x := l1][f := n1][p := parent.(keys := parent.keys[leafKeyPosInParent := n1.keys[0]])];
      shape := LeftBorrowedShape(t0, sh0, x, f);
      contents := Remove(contents, key);
    }

    /** The right-borrow branch of deleteAtLeafAndRebalance: leaf f, which
        became m on losing key, takes the first entry of its right sibling y,
        and y's new first key becomes the separator between them in parent
        p, at index leafPointerPos = s - 1. */
    method BorrowFromRight(p: NodeId, s: int, leafPointerPos: int, f: NodeId, y: NodeId, keyPos: int, key: Bytes, m: Node)
      requires Consistent() && Siblings(Fields(), shape, p, s, f, y) && leafPointerPos == s - 1
      requires nodes[f].WellSized() && nodes[y].WellSized() && nodes[y].keyNum > minKeyNum
      requires 0 <= keyPos < nodes[f].keyNum && nodes[f].keys[keyPos] == key && m == Deleted(nodes[f], keyPos)
      modifies this
      ensures Consistent() && contents == Remove(old(contents), key)
      ensures size == old(size) && order == old(order)
    {
      SplitSizes(order);
      var rightSib := nodes[y];
      ghost var t0, sh0 := Fields(), shape;
      SealedRightBorrow(t0, sh0, contents, p, s, f, y, keyPos, key);
      var appended := Append(m, rightSib.keys[0], rightSib.pointers[0]);
      var n1 := appended.value;
      var r1 := DeleteAt(rightSib, 0);
      assert r1.keys[0] == rightSib.keys[1] by {
        DeletedKeys(rightSib, 0);
        assert r1.Keys()[0] == r1.keys[0] && rightSib.Keys()[1] == rightSib.keys[1];
      }
      var parent := nodes[p];
      nodes := nodes[f := n1][y := r1][p := parent.(keys := parent.keys[leafPointerPos := r1.keys[0]])];
      shape := RightBorrowedShape(t0, sh0, f, y);
      assert Fields() == RightBorrowed(t0, p, s, f, y, keyPos);
      contents := Remove(contents, key);
    }
  }
}
