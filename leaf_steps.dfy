/** Changes confined to one leaf: overwriting a value (putIntoLeaf's exact
    match), inserting into a leaf with room (putIntoLeaf's shift loop), and
    deleting a key that leaves the leaf with enough keys (deleteAt). Each
    keeps the tree invariant and changes the contents as the reference
    ordered map does. */
module LeafSteps {
  import opened Outcomes
  import opened Keys
  import opened Seqs
  import opened OrderedMap
  import opened Chain
  import opened Nodes
  import opened Invariant

  /** Leaf f replaced by m, nothing else changed. */
  function WithLeaf(t: State, f: NodeId, m: Node): State
    requires f < |t.nodes|
  {
    t.(nodes := t.nodes[f := m])
  }

  /** The chain's segments after one leaf's entries change. */
  lemma SegsReplace(t: State, sh: Shape, f: NodeId, m: Node, a: nat)
    requires f < |t.nodes| && a < |sh.leaves| && sh.leaves[a] == f
    requires forall b :: 0 <= b < |sh.leaves| && b != a ==> sh.leaves[b] != f
    ensures SegsOf(WithLeaf(t, f, m), sh, sh.leaves) == SegsOf(t, sh, sh.leaves)[a := Seg(WithLeaf(t, f, m), sh, f)]
  {
  }

  /** One node's invariant survives the replacement of leaf f. */
  lemma LeafReplaceAt(t: State, sh: Shape, f: NodeId, m: Node, i: NodeId)
    requires Fits(t, sh, NoPending) && f < |t.nodes| && i < |t.nodes|
    requires NodeOK(t, sh, NoPending, i) && t.nodes[f].leaf
    requires Local(t.order, m) && m.leaf && m.parent == t.nodes[f].parent
    requires forall j :: 0 <= j < m.keyNum ==> InRange(m.keys[j], sh.lo[f], sh.hi[f])
    ensures NodeOK(WithLeaf(t, f, m), sh, NoPending, i)
  {
    var t' := WithLeaf(t, f, m);
    var pd := NoPending;
    forall x | 0 <= x < |t.nodes| ensures ViewOf(t', sh, pd, x) == ViewOf(t, sh, pd, x) {
    }
    var g := EffParent(t, pd, i);
    if g.Some? && g.value < |t.nodes| && g.value != f {
      assert UpOf(t', sh, g.value) == UpOf(t, sh, g.value);
    }
    if i != f {
      NodeFrame(t, sh, pd, t', sh, pd, i);
    } else {
      assert ViewOf(t', sh, pd, i) == ViewOf(t, sh, pd, i);
    }
  }

  /** Replacing a live leaf by one with the same links, a valid shape and
      keys in the leaf's range keeps the invariant; the tree's contents
      change in that leaf's place only. */
  lemma LeafReplace(t: State, sh: Shape, f: NodeId, m: Node) returns (a: nat)
    requires Inv(t, sh, NoPending) && f < |t.nodes| && f !in sh.dead && t.nodes[f].leaf
    requires Local(t.order, m) && m.leaf && m.parent == t.nodes[f].parent && m.Next() == t.nodes[f].Next()
    requires forall j :: 0 <= j < m.keyNum ==> InRange(m.keys[j], sh.lo[f], sh.hi[f])
    ensures Inv(WithLeaf(t, f, m), sh, NoPending)
    ensures a < |sh.leaves| && sh.leaves[a] == f
    ensures var ss := SegsOf(t, sh, sh.leaves);
            Entries(WithLeaf(t, f, m), sh) == Flatten(ss[..a]) + m.Entries() + Flatten(ss[a + 1..])
  {
    LeafReplaceNodes(t, sh, f, m);
    LeafReplaceChain(t, sh, f, m);
    a := ChainIndex(t, sh, NoPending, f);
    LeafReplaceEntries(t, sh, f, m, a);
  }

  lemma LeafReplaceNodes(t: State, sh: Shape, f: NodeId, m: Node)
    requires Fits(t, sh, NoPending) && AllNodesOK(t, sh, NoPending) && f < |t.nodes| && f !in sh.dead && t.nodes[f].leaf
    requires Local(t.order, m) && m.leaf && m.parent == t.nodes[f].parent
    requires forall j :: 0 <= j < m.keyNum ==> InRange(m.keys[j], sh.lo[f], sh.hi[f])
    ensures AllNodesOK(WithLeaf(t, f, m), sh, NoPending)
  {
    forall i | 0 <= i < |t.nodes| && i !in sh.dead ensures NodeOK(WithLeaf(t, f, m), sh, NoPending, i) {
      LeafReplaceAt(t, sh, f, m, i);
    }
  }

  lemma LeafReplaceChain(t: State, sh: Shape, f: NodeId, m: Node)
    requires |sh.lo| == |t.nodes| && |sh.hi| == |t.nodes| && ChainOK(t, sh) && f < |t.nodes| && t.nodes[f].leaf
    requires m.leaf && m.Next() == t.nodes[f].Next()
    ensures ChainOK(WithLeaf(t, f, m), sh)
  {
    var t' := WithLeaf(t, f, m);
    forall x | 0 <= x < |t.nodes| ensures t'.nodes[x].leaf == t.nodes[x].leaf && t'.nodes[x].Next() == t.nodes[x].Next() {
    }
  }

  lemma LeafReplaceEntries(t: State, sh: Shape, f: NodeId, m: Node, a: nat)
    requires f < |t.nodes| && a < |sh.leaves| && sh.leaves[a] == f && m.WellSized()
    requires forall b :: 0 <= b < |sh.leaves| && b != a ==> sh.leaves[b] != f
    requires |sh.lo| == |t.nodes| && |sh.hi| == |t.nodes|
    ensures var ss := SegsOf(t, sh, sh.leaves);
            Entries(WithLeaf(t, f, m), sh) == Flatten(ss[..a]) + m.Entries() + Flatten(ss[a + 1..])
  {
    var t' := WithLeaf(t, f, m);
    var ss := SegsOf(t, sh, sh.leaves);
    SegsReplace(t, sh, f, m, a);
    var ss' := SegsOf(t', sh, sh.leaves);
    FlattenAround(ss', a);
    assert ss'[..a] == ss[..a];
    assert ss'[a + 1..] == ss[a + 1..];
  }

  // ------------------------------------------------------------ the steps

  /** Inserting k where every key before is smaller and every key after is
      larger keeps keys ascending. */
  lemma AscendingInsert(ks: seq<Bytes>, pos: int, k: Bytes)
    requires Ascending(ks) && 0 <= pos <= |ks|
    requires forall j :: 0 <= j < pos ==> Less(ks[j], k)
    requires pos < |ks| ==> Less(k, ks[pos])
    ensures Ascending(SeqInsert(ks, pos, k))
  {
    forall j | pos < j < |ks| ensures Less(k, ks[j]) {
      LessTransitive(k, ks[pos], ks[j]);
    }
    var r := SeqInsert(ks, pos, k);
    forall a, b | 0 <= a < b < |r| ensures Less(r[a], r[b]) {
      if a < pos && b > pos {
        LessTransitive(r[a], k, r[b]);
      }
    }
  }

  lemma AscendingRemove(ks: seq<Bytes>, pos: int)
    requires Ascending(ks) && 0 <= pos < |ks|
    ensures Ascending(SeqRemove(ks, pos))
  {
    var r := SeqRemove(ks, pos);
    forall a, b | 0 <= a < b < |r| ensures Less(r[a], r[b]) {
      if a < pos && b >= pos {
        assert r[a] == ks[a] && r[b] == ks[b + 1];
      }
    }
  }

  /** A key's leaf, as Get, Put and Delete find it: a live leaf whose range
      holds the key. */
  predicate KeyLeaf(t: State, sh: Shape, f: NodeId, k: Bytes) {
    && f < |t.nodes| && f < |sh.lo| && f < |sh.hi| && f !in sh.dead
    && t.nodes[f].leaf && InRange(k, sh.lo[f], sh.hi[f])
  }

  /** The facts about leaf f that every step uses. */
  lemma LeafFacts(t: State, sh: Shape, f: NodeId, k: Bytes)
    requires Inv(t, sh, NoPending) && KeyLeaf(t, sh, f, k)
    ensures Local(t.order, t.nodes[f])
    ensures forall j :: 0 <= j < t.nodes[f].keyNum ==> InRange(t.nodes[f].keys[j], sh.lo[f], sh.hi[f])
  {
    assert NodeOK(t, sh, NoPending, f);
  }

  /** When leaf f's entries become Insert(entries, k, v), the tree's become
      Insert(contents, k, v); likewise for Remove. */
  lemma LeafContents(t: State, sh: Shape, f: NodeId, a: nat, m: Node, k: Bytes)
    requires Inv(t, sh, NoPending) && KeyLeaf(t, sh, f, k) && a < |sh.leaves| && sh.leaves[a] == f
    ensures t.nodes[f].WellSized()
    ensures var ss := SegsOf(t, sh, sh.leaves);
            forall v :: Insert(Entries(t, sh), k, v) == Flatten(ss[..a]) + Insert(t.nodes[f].Entries(), k, v) + Flatten(ss[a + 1..])
    ensures var ss := SegsOf(t, sh, sh.leaves);
            Remove(Entries(t, sh), k) == Flatten(ss[..a]) + Remove(t.nodes[f].Entries(), k) + Flatten(ss[a + 1..])
  {
    assert NodeOK(t, sh, NoPending, f);
    InvTiled(t, sh, NoPending);
    var ss := SegsOf(t, sh, sh.leaves);
    forall v {
      ChainInsert(ss, a, k, v);
    }
    ChainRemove(ss, a, k);
  }

  /** putIntoLeaf on an exact match: the value in slot pos is overwritten. */
  function Overwritten(n: Node, pos: int, v: Bytes): Node
    requires 0 <= pos < |n.pointers|
  {
    n.(pointers := n.pointers[pos := Value(v)])
  }

  lemma OverwriteNode(order: int, n: Node, pos: int, k: Bytes, v: Bytes)
    requires Local(order, n) && n.leaf && 0 <= pos < n.keyNum && n.keys[pos] == k
    ensures var m := Overwritten(n, pos, v);
            Local(order, m) && m.keys == n.keys && m.keyNum == n.keyNum && m.Next() == n.Next()
            && m.Entries() == Insert(n.Entries(), k, v)
  {
    var m := Overwritten(n, pos, v);
    assert m.Keys() == n.Keys();
    var es := n.Entries();
    forall j | 0 <= j < pos ensures es[j].key != k && Less(es[j].key, k) {
      assert es[j].key == n.Keys()[j] && k == n.Keys()[pos];
    }
    InsertOverwrite(es, k, v, pos);
    assert m.Entries() == es[pos := Entry(k, v)];
  }

  lemma OverwriteStep(t: State, sh: Shape, f: NodeId, pos: int, k: Bytes, v: Bytes)
    requires Inv(t, sh, NoPending) && KeyLeaf(t, sh, f, k)
    requires 0 <= pos < t.nodes[f].keyNum <= |t.nodes[f].keys| < |t.nodes[f].pointers|
    requires t.nodes[f].keys[pos] == k
    ensures var t' := WithLeaf(t, f, Overwritten(t.nodes[f], pos, v));
            Inv(t', sh, NoPending) && Entries(t', sh) == Insert(Entries(t, sh), k, v)
  {
    LeafFacts(t, sh, f, k);
    OverwriteNode(t.order, t.nodes[f], pos, k, v);
    var a := LeafReplace(t, sh, f, Overwritten(t.nodes[f], pos, v));
    LeafContents(t, sh, f, a, Overwritten(t.nodes[f], pos, v), k);
  }

  lemma InsertNode(order: int, n: Node, pos: int, k: Bytes, v: Bytes, lo: Bound, hi: Bound)
    requires Local(order, n) && n.leaf && 0 <= pos <= n.keyNum < |n.keys|
    requires forall j :: 0 <= j < n.keyNum ==> InRange(n.keys[j], lo, hi)
    requires InRange(k, lo, hi)
    requires forall j :: 0 <= j < pos ==> Less(n.keys[j], k)
    requires pos < n.keyNum ==> Less(k, n.keys[pos])
    ensures var m := Inserted(n, pos, k, Value(v));
            && Local(order, m) && m.Next() == n.Next()
            && (forall j :: 0 <= j < m.keyNum ==> InRange(m.keys[j], lo, hi))
            && m.Entries() == Insert(n.Entries(), k, v)
  {
    var m := Inserted(n, pos, k, Value(v));
    InsertedKeys(n, m, pos, k, Value(v));
    AscendingInsert(n.Keys(), pos, k);
    assert forall j :: 0 <= j < m.keyNum ==> m.keys[j] == m.Keys()[j];
    assert forall j :: 0 <= j < n.keyNum ==> n.keys[j] == n.Keys()[j];
    assert m.pointers[..m.keyNum] == SeqInsert(n.pointers[..n.keyNum], pos, Value(v));
    forall j | 0 <= j < m.keyNum ensures m.pointers[j].Value? {
      assert m.pointers[j] == m.pointers[..m.keyNum][j];
    }
    InsertPlace(n, pos, k, v);
  }

  /** The slot putIntoLeaf's scan stops at is where Insert puts the entry. */
  lemma InsertPlace(n: Node, pos: int, k: Bytes, v: Bytes)
    requires n.WellSized() && Ascending(n.Keys()) && 0 <= pos <= n.keyNum
    requires forall j :: 0 <= j < pos ==> Less(n.keys[j], k)
    requires pos < n.keyNum ==> Less(k, n.keys[pos])
    ensures SeqInsert(n.Entries(), pos, Entry(k, v)) == Insert(n.Entries(), k, v)
  {
    var es := n.Entries();
    forall j | 0 <= j < pos ensures Less(es[j].key, k) {
      assert es[j].key == n.keys[j];
    }
    forall j | pos <= j < |es| ensures Less(k, es[j].key) {
      assert es[j].key == n.Keys()[j];
      if j > pos {
        assert n.Keys()[pos] == n.keys[pos];
        LessTransitive(k, n.Keys()[pos], n.Keys()[j]);
      }
    }
    OrderedMap.InsertAt(es, k, v, pos);
  }

  /** A node's keys ascend exactly when its entries are sorted. */
  lemma KeysEntries(m: Node)
    requires m.WellSized()
    ensures |m.Entries()| == m.keyNum
    ensures forall j :: 0 <= j < m.keyNum ==> m.Entries()[j].key == m.keys[j]
    ensures Ascending(m.Keys()) <==> Sorted(m.Entries())
  {
    var es := m.Entries();
    assert forall j :: 0 <= j < m.keyNum ==> m.Keys()[j] == m.keys[j];
    if Sorted(es) {
      forall a, b | 0 <= a < b < m.keyNum ensures Less(m.Keys()[a], m.Keys()[b]) {
        assert es[a].key == m.Keys()[a];
      }
    }
  }

  /** Two nodes whose entries together are sorted and lie in [lo, hi):
      each one's keys ascend, the left one's lie below the right one's first
      key and the right one's from it on. */
  lemma HalvesOrdered(l: Node, r: Node, lo: Bound, hi: Bound)
    requires l.WellSized() && r.WellSized() && r.keyNum >= 1
    requires var e := l.Entries() + r.Entries(); Sorted(e) && KeysAtLeast(e, lo) && KeysBelow(e, hi)
    ensures Ascending(l.Keys()) && Ascending(r.Keys())
    ensures forall j :: 0 <= j < l.keyNum ==> InRange(l.keys[j], lo, At(r.keys[0]))
    ensures forall j :: 0 <= j < r.keyNum ==> InRange(r.keys[j], At(r.keys[0]), hi)
  {
    var a, b := l.Entries(), r.Entries();
    var e := a + b;
    KeysEntries(l);
    KeysEntries(r);
    assert Sorted(a) by {
      forall x, y | 0 <= x < y < |a| ensures Less(a[x].key, a[y].key) {
        assert e[x] == a[x] && e[y] == a[y];
      }
    }
    assert Sorted(b) by {
      forall x, y | 0 <= x < y < |b| ensures Less(b[x].key, b[y].key) {
        assert e[|a| + x] == b[x] && e[|a| + y] == b[y];
      }
    }
    forall j | 0 <= j < l.keyNum ensures InRange(l.keys[j], lo, At(r.keys[0])) {
      assert e[j] == a[j] && e[|a|] == b[0];
    }
    forall j | 0 <= j < r.keyNum ensures InRange(r.keys[j], At(r.keys[0]), hi) {
      assert e[|a| + j] == b[j];
      if j > 0 {
        assert e[|a|] == b[0];
      }
    }
  }

  /** putIntoLeaf into a leaf with room: key and value go in at the first
      slot whose key is larger. */
  lemma InsertStep(t: State, sh: Shape, f: NodeId, pos: int, k: Bytes, v: Bytes)
    requires Inv(t, sh, NoPending) && KeyLeaf(t, sh, f, k)
    requires 0 <= pos <= t.nodes[f].keyNum < |t.nodes[f].keys|
    requires |t.nodes[f].pointers| == |t.nodes[f].keys| + 1
    requires forall j :: 0 <= j < pos ==> Less(t.nodes[f].keys[j], k)
    requires pos < t.nodes[f].keyNum ==> Less(k, t.nodes[f].keys[pos])
    ensures var t' := WithLeaf(t, f, Inserted(t.nodes[f], pos, k, Value(v)));
            Inv(t', sh, NoPending) && Entries(t', sh) == Insert(Entries(t, sh), k, v)
  {
    LeafFacts(t, sh, f, k);
    InsertNode(t.order, t.nodes[f], pos, k, v, sh.lo[f], sh.hi[f]);
    var a := LeafReplace(t, sh, f, Inserted(t.nodes[f], pos, k, Value(v)));
    LeafContents(t, sh, f, a, Inserted(t.nodes[f], pos, k, Value(v)), k);
  }

  lemma RemoveNode(order: int, n: Node, pos: int, k: Bytes, lo: Bound, hi: Bound)
    requires Local(order, n) && n.leaf && 0 <= pos < n.keyNum && n.keyNum >= 2 && n.keys[pos] == k
    requires forall j :: 0 <= j < n.keyNum ==> InRange(n.keys[j], lo, hi)
    ensures var m := Deleted(n, pos);
            && Local(order, m) && m.Next() == n.Next()
            && (forall j :: 0 <= j < m.keyNum ==> InRange(m.keys[j], lo, hi))
            && m.Entries() == Remove(n.Entries(), k)
  {
    var m := Deleted(n, pos);
    var ks := n.Keys();
    assert m.Keys() == SeqRemove(ks, pos);
    AscendingRemove(ks, pos);
    assert forall j :: 0 <= j < m.keyNum ==> m.keys[j] == m.Keys()[j];
    assert forall j :: 0 <= j < n.keyNum ==> n.keys[j] == ks[j];
    assert m.Next() == n.Next();
    var es := n.Entries();
    forall j | 0 <= j < pos ensures es[j].key != k {
      assert es[j].key == ks[j] && k == ks[pos];
    }
    RemoveAt(es, k, pos);
    assert m.Entries() == SeqRemove(es, pos);
  }

  /** deleteAt on a leaf that keeps at least one key. */
  lemma RemoveStep(t: State, sh: Shape, f: NodeId, pos: int, k: Bytes)
    requires Inv(t, sh, NoPending) && KeyLeaf(t, sh, f, k)
    requires 0 <= pos < t.nodes[f].keyNum && t.nodes[f].keyNum >= 2 && t.nodes[f].WellSized()
    requires t.nodes[f].keys[pos] == k
    ensures var t' := WithLeaf(t, f, Deleted(t.nodes[f], pos));
            Inv(t', sh, NoPending) && Entries(t', sh) == Remove(Entries(t, sh), k)
  {
    LeafFacts(t, sh, f, k);
    RemoveNode(t.order, t.nodes[f], pos, k, sh.lo[f], sh.hi[f]);
    var a := LeafReplace(t, sh, f, Deleted(t.nodes[f], pos));
    LeafContents(t, sh, f, a, Deleted(t.nodes[f], pos), k);
  }
}
