/** The node-level half of a redistribution between two sibling leaves:
    taking the last entry off the left leaf or the first off the right one,
    deleting the key from the underfull leaf, and putting the borrowed entry
    in front of or behind its remaining keys. Each is stated by the leaf's
    keys in use and its entries. */
module Borrow {
  import opened Keys
  import opened Seqs
  import opened OrderedMap
  import opened Nodes
  import opened Invariant
  import opened LeafSteps

  /** Every key of ks lies in [lo, hi). */
  predicate Within(ks: seq<Bytes>, lo: Bound, hi: Bound) {
    forall i :: 0 <= i < |ks| ==> InRange(ks[i], lo, hi)
  }

  /** A valid leaf whose keys lie in [lo, hi). */
  predicate LeafIn(order: int, n: Node, lo: Bound, hi: Bound) {
    && Local(order, n) && n.leaf
    && forall j :: 0 <= j < n.keyNum ==> InRange(n.keys[j], lo, hi)
  }

  /** A leaf's slots apart from its keys: their sizes and the values in use. */
  predicate Slots(order: int, n: Node) {
    && |n.keys| == order - 1 && |n.pointers| == order && n.WellSized() && n.leaf
    && (forall j :: 0 <= j < n.keyNum ==> n.pointers[j].Value?)
  }

  /** LeafIn in terms of the keys in use. */
  lemma LeafInKeys(order: int, n: Node, lo: Bound, hi: Bound)
    requires Slots(order, n)
    ensures LeafIn(order, n, lo, hi) <==> n.keyNum >= 1 && Ascending(n.Keys()) && Within(n.Keys(), lo, hi)
  {
    assert forall j :: 0 <= j < n.keyNum ==> n.keys[j] == n.Keys()[j];
  }

  // ------------------------------------------------------------ slots

  lemma DeletedSlots(order: int, n: Node, pos: int)
    requires Slots(order, n) && 0 <= pos < n.keyNum
    ensures Slots(order, Deleted(n, pos))
  {
    var m := Deleted(n, pos);
    forall j | 0 <= j < m.keyNum ensures m.pointers[j].Value? {
      if j < pos {
        assert m.pointers[j] == n.pointers[j];
      } else {
        assert m.pointers[j] == n.pointers[j + 1];
      }
    }
  }

  lemma InsertedSlots(order: int, n: Node, pos: int, key: Bytes, p: Pointer)
    requires Slots(order, n) && 0 <= pos <= n.keyNum < |n.keys| && p.Value?
    ensures Slots(order, Inserted(n, pos, key, p))
  {
    var m := Inserted(n, pos, key, p);
    forall j | 0 <= j < m.keyNum ensures m.pointers[j].Value? {
      if j < pos {
        assert m.pointers[j] == n.pointers[j];
      } else if j > pos {
        assert m.pointers[j] == n.pointers[j - 1];
      }
    }
  }

  lemma AppendedSlots(order: int, n: Node, key: Bytes, p: Pointer)
    requires Slots(order, n) && n.keyNum < |n.keys| && p.Value?
    ensures Slots(order, Appended(n, key, p))
  {
  }

  // ------------------------------------------------------------ key runs

  /** Without its last key, an ascending run lies below that key. */
  lemma WithinInit(ks: seq<Bytes>, lo: Bound, hi: Bound)
    requires Ascending(ks) && Within(ks, lo, hi) && |ks| >= 1
    ensures var c := |ks| - 1; Ascending(ks[..c]) && Within(ks[..c], lo, At(ks[c]))
  {
    var c := |ks| - 1;
    forall i | 0 <= i < c ensures InRange(ks[..c][i], lo, At(ks[c])) {
      assert Less(ks[i], ks[c]);
    }
  }

  /** Without its first key, an ascending run lies from its second key on. */
  lemma WithinTail(ks: seq<Bytes>, lo: Bound, hi: Bound)
    requires Ascending(ks) && Within(ks, lo, hi) && |ks| >= 2
    ensures Ascending(ks[1..]) && Within(ks[1..], At(ks[1]), hi) && Less(ks[0], ks[1])
  {
    assert Less(ks[0], ks[1]);
    forall i | 0 <= i < |ks| - 1 ensures InRange(ks[1..][i], At(ks[1]), hi) {
      if i > 0 {
        assert Less(ks[1], ks[i + 1]);
      }
    }
  }

  /** Removing a key keeps a run ascending and in its range. */
  lemma WithinRemove(ks: seq<Bytes>, pos: int, lo: Bound, hi: Bound)
    requires Ascending(ks) && Within(ks, lo, hi) && 0 <= pos < |ks|
    ensures Ascending(SeqRemove(ks, pos)) && Within(SeqRemove(ks, pos), lo, hi)
  {
    AscendingRemove(ks, pos);
  }

  /** A key below the range [mid, hi) of a run goes in front of it. */
  lemma WithinCons(m: Bytes, ks: seq<Bytes>, mid: Bound, hi: Bound)
    requires Ascending(ks) && Within(ks, mid, hi) && BoundLess(At(m), mid) && BoundLess(mid, hi)
    ensures Ascending([m] + ks) && Within([m] + ks, At(m), hi)
  {
    forall j | 0 <= j < |ks| ensures Less(m, ks[j]) && InRange(ks[j], At(m), hi) {
      BoundOrder(At(m), mid, At(ks[j]));
    }
    AscendingInsert(ks, 0, m);
    assert SeqInsert(ks, 0, m) == [m] + ks;
    BoundOrder(At(m), mid, hi);
  }

  /** A key at or above the range [lo, mid) of a run, and below hi, goes
      behind it. */
  lemma WithinSnoc(ks: seq<Bytes>, m: Bytes, lo: Bound, mid: Bound, hi: Bound)
    requires Ascending(ks) && Within(ks, lo, mid)
    requires BoundLe(lo, mid) && BoundLe(mid, At(m)) && BoundLess(At(m), hi)
    ensures Ascending(ks + [m]) && Within(ks + [m], lo, hi)
  {
    forall j | 0 <= j < |ks| ensures Less(ks[j], m) && InRange(ks[j], lo, hi) {
      BoundOrder(At(ks[j]), mid, At(m));
      BoundOrder(At(ks[j]), At(m), hi);
    }
    AscendingInsert(ks, |ks|, m);
    assert SeqInsert(ks, |ks|, m) == ks + [m];
    BoundOrder(lo, mid, At(m));
  }

  // ------------------------------------------------------------ the donors

  /** The left sibling gives up its last entry: the rest lie below its key. */
  lemma LastRemoved(order: int, l: Node, lo: Bound, hi: Bound)
    requires LeafIn(order, l, lo, hi) && l.keyNum >= 2
    ensures var c := l.keyNum - 1; var l' := Deleted(l, c);
            && LeafIn(order, l', lo, At(l.keys[c])) && l'.parent == l.parent && l'.Next() == l.Next()
            && l.Entries() == l'.Entries() + [Entry(l.keys[c], ValueOf(l.pointers[c]))]
  {
    var c := l.keyNum - 1;
    var l' := Deleted(l, c);
    var ks := l.Keys();
    LeafInKeys(order, l, lo, hi);
    DeletedKeys(l, c);
    DeletedSlots(order, l, c);
    assert SeqRemove(ks, c) == ks[..c];
    WithinInit(ks, lo, hi);
    LeafInKeys(order, l', lo, At(ks[c]));
    SeqRemoveEnds(l.Entries());
  }

  /** The right sibling gives up its first entry: the rest lie from its
      second key on. */
  lemma FirstRemoved(order: int, r: Node, lo: Bound, hi: Bound)
    requires LeafIn(order, r, lo, hi) && r.keyNum >= 2
    ensures var r' := Deleted(r, 0);
            && LeafIn(order, r', At(r.keys[1]), hi) && r'.parent == r.parent && r'.Next() == r.Next()
            && r'.keys[0] == r.keys[1] && Less(r.keys[0], r.keys[1])
            && r.Entries() == [Entry(r.keys[0], ValueOf(r.pointers[0]))] + r'.Entries()
  {
    var r' := Deleted(r, 0);
    var ks := r.Keys();
    LeafInKeys(order, r, lo, hi);
    DeletedKeys(r, 0);
    DeletedSlots(order, r, 0);
    assert SeqRemove(ks, 0) == ks[1..];
    WithinTail(ks, lo, hi);
    LeafInKeys(order, r', At(ks[1]), hi);
    assert r'.keys[0] == r'.Keys()[0];
    SeqRemoveEnds(r.Entries());
  }

  // ------------------------------------------------------------ the taker

  /** deleteAt(pos) on a leaf: the other keys in order, possibly none, and
      the entries as the reference map removes k. */
  lemma KeyRemoved(order: int, n: Node, pos: int, k: Bytes, lo: Bound, hi: Bound)
    requires LeafIn(order, n, lo, hi) && 0 <= pos < n.keyNum && n.keys[pos] == k
    ensures var n0 := Deleted(n, pos);
            && Slots(order, n0) && Ascending(n0.Keys()) && Within(n0.Keys(), lo, hi)
            && n0.parent == n.parent && n0.Next() == n.Next()
            && n0.Entries() == Remove(n.Entries(), k)
  {
    var ks := n.Keys();
    LeafInKeys(order, n, lo, hi);
    DeletedKeys(n, pos);
    DeletedSlots(order, n, pos);
    WithinRemove(ks, pos, lo, hi);
    var es := n.Entries();
    forall j | 0 <= j < pos ensures es[j].key != k {
      assert es[j].key == ks[j] && k == ks[pos];
    }
    RemoveAt(es, k, pos);
  }

  /** insertAt(0, m, v) on a leaf whose keys lie above m. */
  lemma FrontInserted(order: int, n: Node, m: Bytes, v: Pointer, mid: Bound, hi: Bound)
    requires Slots(order, n) && n.keyNum < |n.keys| && v.Value?
    requires Ascending(n.Keys()) && Within(n.Keys(), mid, hi)
    requires BoundLess(At(m), mid) && BoundLess(mid, hi)
    ensures var n' := Inserted(n, 0, m, v);
            && LeafIn(order, n', At(m), hi) && n'.parent == n.parent && n'.Next() == n.Next() && n'.keys[0] == m
            && n'.Entries() == [Entry(m, ValueOf(v))] + n.Entries()
  {
    var n' := Inserted(n, 0, m, v);
    InsertedKeys(n, n', 0, m, v);
    InsertedSlots(order, n, 0, m, v);
    assert SeqInsert(n.Keys(), 0, m) == [m] + n.Keys();
    assert SeqInsert(n.Entries(), 0, Entry(m, ValueOf(v))) == [Entry(m, ValueOf(v))] + n.Entries();
    WithinCons(m, n.Keys(), mid, hi);
    LeafInKeys(order, n', At(m), hi);
    assert n'.keys[0] == n'.Keys()[0];
  }

  /** append(m, v) on a leaf whose keys lie below m. */
  lemma BackAppended(order: int, n: Node, m: Bytes, v: Pointer, lo: Bound, mid: Bound, hi: Bound)
    requires Slots(order, n) && n.keyNum < |n.keys| && v.Value?
    requires Ascending(n.Keys()) && Within(n.Keys(), lo, mid)
    requires BoundLe(lo, mid) && BoundLe(mid, At(m)) && BoundLess(At(m), hi)
    ensures var n' := Appended(n, m, v);
            && LeafIn(order, n', lo, hi) && n'.parent == n.parent && n'.Next() == n.Next()
            && n'.Entries() == n.Entries() + [Entry(m, ValueOf(v))]
  {
    var n' := Appended(n, m, v);
    AppendedKeys(n, m, v);
    AppendedSlots(order, n, m, v);
    WithinSnoc(n.Keys(), m, lo, mid, hi);
    LeafInKeys(order, n', lo, hi);
  }

  /** The leaf the key is deleted from, with the left sibling's last entry
      (key m, below the leaf's range [mid, hi)) put in front. */
  lemma FrontBorrowed(order: int, n: Node, pos: int, k: Bytes, m: Bytes, v: Pointer, mid: Bound, hi: Bound)
    requires LeafIn(order, n, mid, hi) && 0 <= pos < n.keyNum && n.keys[pos] == k && v.Value?
    requires BoundLess(At(m), mid)
    ensures var n' := Inserted(Deleted(n, pos), 0, m, v);
            && LeafIn(order, n', At(m), hi) && n'.parent == n.parent && n'.Next() == n.Next() && n'.keys[0] == m
            && n'.Entries() == [Entry(m, ValueOf(v))] + Remove(n.Entries(), k)
  {
    KeyRemoved(order, n, pos, k, mid, hi);
    assert InRange(n.keys[0], mid, hi);
    BoundOrder(mid, At(n.keys[0]), hi);
    FrontInserted(order, Deleted(n, pos), m, v, mid, hi);
  }

  /** The leaf the key is deleted from, with the right sibling's first entry
      (key m, at or above the leaf's range [lo, mid) and below hi) appended. */
  lemma BackBorrowed(order: int, n: Node, pos: int, k: Bytes, m: Bytes, v: Pointer, lo: Bound, mid: Bound, hi: Bound)
    requires LeafIn(order, n, lo, mid) && 0 <= pos < n.keyNum && n.keys[pos] == k && v.Value?
    requires BoundLe(mid, At(m)) && BoundLess(At(m), hi)
    ensures var n' := Appended(Deleted(n, pos), m, v);
            && LeafIn(order, n', lo, hi) && n'.parent == n.parent && n'.Next() == n.Next()
            && n'.Entries() == Remove(n.Entries(), k) + [Entry(m, ValueOf(v))]
  {
    KeyRemoved(order, n, pos, k, lo, mid);
    assert InRange(n.keys[0], lo, mid);
    BoundOrder(lo, At(n.keys[0]), mid);
    BackAppended(order, Deleted(n, pos), m, v, lo, mid, hi);
  }
}
