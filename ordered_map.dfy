/** The abstract value of the tree: a strictly ascending sequence of key/value
    entries. Lookup, Insert and Remove are the reference definitions that the
    tree's Get, Put and Delete are proved against. */
module OrderedMap {
  import opened Outcomes
  import opened Keys

  datatype Entry = Entry(key: Bytes, value: Bytes)

  /** The keys are strictly ascending, hence pairwise distinct. */
  predicate Sorted(es: seq<Entry>) {
    forall i, j :: 0 <= i < j < |es| ==> Less(es[i].key, es[j].key)
  }

  /** The value stored under k, if any (first match). */
  function Lookup(es: seq<Entry>, k: Bytes): Option<Bytes> {
    if es == [] then None
    else if es[0].key == k then Some(es[0].value)
    else Lookup(es[1..], k)
  }

  /** Overwrite the entry for k, or insert it before the first larger key. */
  function Insert(es: seq<Entry>, k: Bytes, v: Bytes): seq<Entry> {
    if es == [] then [Entry(k, v)]
    else if es[0].key == k then [Entry(k, v)] + es[1..]
    else if Less(k, es[0].key) then [Entry(k, v)] + es
    else [es[0]] + Insert(es[1..], k, v)
  }

  /** Drop the entry for k, if any. */
  function Remove(es: seq<Entry>, k: Bytes): seq<Entry> {
    if es == [] then []
    else if es[0].key == k then es[1..]
    else [es[0]] + Remove(es[1..], k)
  }

  /** The same entries as a Dafny map. */
  function ToMap(es: seq<Entry>): map<Bytes, Bytes> {
    if es == [] then map[] else ToMap(es[1..])[es[0].key := es[0].value]
  }

  /** Every key in es lies at or above lo / below hi. */
  predicate KeysAtLeast(es: seq<Entry>, lo: Bound) {
    forall i :: 0 <= i < |es| ==> BoundLe(lo, At(es[i].key))
  }

  predicate KeysBelow(es: seq<Entry>, hi: Bound) {
    forall i :: 0 <= i < |es| ==> BoundLess(At(es[i].key), hi)
  }

  // ---------------------------------------------------------------- Lookup

  lemma {:induction false} LookupFound(es: seq<Entry>, k: Bytes)
    ensures Lookup(es, k).Some? <==> exists i :: 0 <= i < |es| && es[i].key == k
  {
    if es != [] {
      LookupFound(es[1..], k);
      if es[0].key != k {
        forall i | 0 < i < |es| && es[i].key == k
          ensures exists i' :: 0 <= i' < |es[1..]| && es[1..][i'].key == k
        {
          assert es[1..][i - 1].key == k;
        }
      }
    }
  }

  /** In a sorted sequence the entry at i is what Lookup finds for its key. */
  lemma {:induction false} LookupAt(es: seq<Entry>, i: int)
    requires Sorted(es) && 0 <= i < |es|
    ensures Lookup(es, es[i].key) == Some(es[i].value)
  {
    if i > 0 {
      assert Less(es[0].key, es[i].key);
      LookupAt(es[1..], i - 1);
    }
  }

  lemma {:induction false} LookupAbsent(es: seq<Entry>, k: Bytes)
    requires forall i :: 0 <= i < |es| ==> es[i].key != k
    ensures Lookup(es, k) == None
  {
    LookupFound(es, k);
  }

  lemma {:induction false} LookupConcat(a: seq<Entry>, b: seq<Entry>, k: Bytes)
    ensures Lookup(a + b, k) == if Lookup(a, k).Some? then Lookup(a, k) else Lookup(b, k)
  {
    if a != [] {
      assert (a + b)[1..] == a[1..] + b;
      LookupConcat(a[1..], b, k);
    } else {
      assert a + b == b;
    }
  }

  /** The map view agrees with Lookup everywhere. */
  lemma {:induction false} ToMapLookup(es: seq<Entry>, k: Bytes)
    ensures k in ToMap(es) <==> Lookup(es, k).Some?
    ensures k in ToMap(es) ==> ToMap(es)[k] == Lookup(es, k).value
  {
    if es != [] {
      ToMapLookup(es[1..], k);
    }
  }

  // ---------------------------------------------------------------- Insert

  lemma {:induction false} InsertKeys(es: seq<Entry>, k: Bytes, v: Bytes, lo: Bound, hi: Bound)
    requires KeysAtLeast(es, lo) && KeysBelow(es, hi) && InRange(k, lo, hi)
    ensures KeysAtLeast(Insert(es, k, v), lo) && KeysBelow(Insert(es, k, v), hi)
  {
    if es != [] && es[0].key != k && !Less(k, es[0].key) {
      InsertKeys(es[1..], k, v, lo, hi);
    }
  }

  /** Insert keeps a strict lower bound that the old keys and k respect. */
  lemma {:induction false} InsertAbove(es: seq<Entry>, k: Bytes, v: Bytes, x: Bytes)
    requires forall i :: 0 <= i < |es| ==> Less(x, es[i].key)
    requires Less(x, k)
    ensures forall i :: 0 <= i < |Insert(es, k, v)| ==> Less(x, Insert(es, k, v)[i].key)
  {
    if es != [] && es[0].key != k && !Less(k, es[0].key) {
      InsertAbove(es[1..], k, v, x);
    }
  }

  lemma {:induction false} InsertSorted(es: seq<Entry>, k: Bytes, v: Bytes)
    requires Sorted(es)
    ensures Sorted(Insert(es, k, v))
  {
    if es == [] {
    } else if es[0].key == k {
    } else if Less(k, es[0].key) {
      forall j | 0 < j < |es| ensures Less(k, es[j].key) {
        LessTransitive(k, es[0].key, es[j].key);
      }
    } else {
      LessTotal(k, es[0].key);
      InsertSorted(es[1..], k, v);
      InsertAbove(es[1..], k, v, es[0].key);
    }
  }

  /** Lookup after Insert: the new value under k, the old one elsewhere. */
  lemma {:induction false} LookupInsert(es: seq<Entry>, k: Bytes, v: Bytes, k': Bytes)
    ensures Lookup(Insert(es, k, v), k') == if k' == k then Some(v) else Lookup(es, k')
  {
    if es != [] && es[0].key != k && !Less(k, es[0].key) {
      LookupInsert(es[1..], k, v, k');
    }
  }

  /** When everything before i is smaller and everything from i on is larger,
      Insert puts the new entry at index i. */
  lemma {:induction false} InsertAt(es: seq<Entry>, k: Bytes, v: Bytes, i: int)
    requires 0 <= i <= |es|
    requires forall j :: 0 <= j < i ==> Less(es[j].key, k)
    requires forall j :: i <= j < |es| ==> Less(k, es[j].key)
    ensures Insert(es, k, v) == es[..i] + [Entry(k, v)] + es[i..]
  {
    if i == 0 {
      if es != [] {
        LessTotal(k, es[0].key);
      }
    } else {
      LessTotal(k, es[0].key);
      InsertAt(es[1..], k, v, i - 1);
      assert es[..i] == [es[0]] + es[1..][..i - 1];
      assert es[i..] == es[1..][i - 1..];
    }
  }

  /** When the entry at i has key k and no earlier one does, Insert overwrites it. */
  lemma {:induction false} InsertOverwrite(es: seq<Entry>, k: Bytes, v: Bytes, i: int)
    requires 0 <= i < |es| && es[i].key == k
    requires forall j :: 0 <= j < i ==> es[j].key != k && Less(es[j].key, k)
    ensures Insert(es, k, v) == es[i := Entry(k, v)]
  {
    if i > 0 {
      LessTotal(k, es[0].key);
      InsertOverwrite(es[1..], k, v, i - 1);
      assert es[i := Entry(k, v)] == [es[0]] + es[1..][i - 1 := Entry(k, v)];
    }
  }

  lemma {:induction false} InsertLength(es: seq<Entry>, k: Bytes, v: Bytes)
    requires Sorted(es)
    ensures |Insert(es, k, v)| == |es| + (if Lookup(es, k).None? then 1 else 0)
  {
    if es != [] && es[0].key != k {
      if Less(k, es[0].key) {
        LookupAbsentBelow(es, k);
      } else {
        InsertLength(es[1..], k, v);
      }
    }
  }

  /** Nothing is found below the smallest key of a sorted sequence. */
  lemma LookupAbsentBelow(es: seq<Entry>, k: Bytes)
    requires Sorted(es) && es != [] && Less(k, es[0].key)
    ensures Lookup(es, k) == None
  {
    forall i | 0 <= i < |es| ensures es[i].key != k {
      if i > 0 {
        LessTransitive(k, es[0].key, es[i].key);
      }
    }
    LookupAbsent(es, k);
  }

  // ---------------------------------------------------------------- Remove

  /** When the entry at i is the first with key k, Remove cuts it out. */
  lemma {:induction false} RemoveAt(es: seq<Entry>, k: Bytes, i: int)
    requires 0 <= i < |es| && es[i].key == k
    requires forall j :: 0 <= j < i ==> es[j].key != k
    ensures Remove(es, k) == es[..i] + es[i + 1..]
  {
    if i > 0 {
      RemoveAt(es[1..], k, i - 1);
      assert es[..i] == [es[0]] + es[1..][..i - 1];
      assert es[i + 1..] == es[1..][i..];
    }
  }

  lemma {:induction false} RemoveAbsent(es: seq<Entry>, k: Bytes)
    requires Lookup(es, k) == None
    ensures Remove(es, k) == es
  {
    if es != [] {
      RemoveAbsent(es[1..], k);
    }
  }

  /** Lookup after Remove: nothing under k, the old value elsewhere. */
  lemma {:induction false} LookupRemove(es: seq<Entry>, k: Bytes, k': Bytes)
    requires Sorted(es)
    ensures Lookup(Remove(es, k), k') == if k' == k then None else Lookup(es, k')
  {
    if es != [] {
      if es[0].key == k {
        if k' == k {
          forall i | 0 <= i < |es[1..]| ensures es[1..][i].key != k {
            assert Less(es[0].key, es[i + 1].key);
          }
          LookupAbsent(es[1..], k);
        }
      } else {
        LookupRemove(es[1..], k, k');
      }
    }
  }

  lemma {:induction false} RemoveLength(es: seq<Entry>, k: Bytes)
    ensures |Remove(es, k)| == |es| - (if Lookup(es, k).Some? then 1 else 0)
  {
    if es != [] && es[0].key != k {
      RemoveLength(es[1..], k);
    }
  }

  lemma {:induction false} RemoveSorted(es: seq<Entry>, k: Bytes)
    requires Sorted(es)
    ensures Sorted(Remove(es, k))
  {
    if es != [] && es[0].key != k {
      RemoveSorted(es[1..], k);
      RemoveSubset(es[1..], k);
    }
  }

  /** Every entry left by Remove was already there. */
  lemma {:induction false} RemoveSubset(es: seq<Entry>, k: Bytes)
    ensures forall i :: 0 <= i < |Remove(es, k)| ==> Remove(es, k)[i] in es
  {
    if es != [] && es[0].key != k {
      RemoveSubset(es[1..], k);
    }
  }

  // ---------------------------------------------------------------- map view

  /** Insert is the map update and Remove the map removal. */
  lemma InsertIsMapUpdate(es: seq<Entry>, k: Bytes, v: Bytes)
    ensures ToMap(Insert(es, k, v)) == ToMap(es)[k := v]
  {
    forall k' ensures (k' in ToMap(Insert(es, k, v))) == (k' in ToMap(es)[k := v])
      && (k' in ToMap(es)[k := v] ==> ToMap(Insert(es, k, v))[k'] == ToMap(es)[k := v][k'])
    {
      ToMapLookup(Insert(es, k, v), k');
      ToMapLookup(es, k');
      LookupInsert(es, k, v, k');
    }
  }

  lemma RemoveIsMapRemoval(es: seq<Entry>, k: Bytes)
    requires Sorted(es)
    ensures ToMap(Remove(es, k)) == ToMap(es) - {k}
  {
    forall k' ensures (k' in ToMap(Remove(es, k))) == (k' in ToMap(es) - {k})
      && (k' in ToMap(es) - {k} ==> ToMap(Remove(es, k))[k'] == (ToMap(es) - {k})[k'])
    {
      ToMapLookup(Remove(es, k), k');
      ToMapLookup(es, k');
      LookupRemove(es, k, k');
    }
  }

  // ------------------------------------------------- pieces of a sequence

  /** Entries wholly below k are untouched by inserting k after them. */
  lemma {:induction false} InsertPrefix(a: seq<Entry>, rest: seq<Entry>, k: Bytes, v: Bytes)
    requires KeysBelow(a, At(k))
    ensures Insert(a + rest, k, v) == a + Insert(rest, k, v)
  {
    if a != [] {
      assert (a + rest)[0] == a[0];
      assert (a + rest)[1..] == a[1..] + rest;
      LessTotal(a[0].key, k);
      InsertPrefix(a[1..], rest, k, v);
      assert a == [a[0]] + a[1..];
    } else {
      assert a + rest == rest;
    }
  }

  /** Entries wholly above k are untouched by inserting k before them. */
  lemma {:induction false} InsertSuffix(b: seq<Entry>, c: seq<Entry>, k: Bytes, v: Bytes)
    requires forall i :: 0 <= i < |c| ==> Less(k, c[i].key)
    ensures Insert(b + c, k, v) == Insert(b, k, v) + c
  {
    if b == [] {
      assert b + c == c;
      if c != [] {
        LessTotal(k, c[0].key);
      }
    } else {
      assert (b + c)[0] == b[0];
      assert (b + c)[1..] == b[1..] + c;
      if b[0].key == k {
        assert [Entry(k, v)] + (b[1..] + c) == [Entry(k, v)] + b[1..] + c;
      } else if Less(k, b[0].key) {
        assert [Entry(k, v)] + (b + c) == [Entry(k, v)] + b + c;
      } else {
        InsertSuffix(b[1..], c, k, v);
        assert [b[0]] + (Insert(b[1..], k, v) + c) == [b[0]] + Insert(b[1..], k, v) + c;
      }
    }
  }

  /** Inserting k between entries below it and entries above it changes the
      middle part alone. */
  lemma InsertMiddle(a: seq<Entry>, b: seq<Entry>, c: seq<Entry>, k: Bytes, v: Bytes)
    requires KeysBelow(a, At(k))
    requires forall i :: 0 <= i < |c| ==> Less(k, c[i].key)
    ensures Insert(a + b + c, k, v) == a + Insert(b, k, v) + c
  {
    var bc, ib := b + c, Insert(b, k, v);
    assert a + b + c == a + bc;
    assert a + (ib + c) == a + ib + c;
    InsertPrefix(a, bc, k, v);
    InsertSuffix(b, c, k, v);
  }

  /** Removing k skips a prefix that does not hold it. */
  lemma {:induction false} RemovePrefix(a: seq<Entry>, rest: seq<Entry>, k: Bytes)
    requires forall i :: 0 <= i < |a| ==> a[i].key != k
    ensures Remove(a + rest, k) == a + Remove(rest, k)
  {
    if a != [] {
      assert (a + rest)[0] == a[0];
      assert (a + rest)[1..] == a[1..] + rest;
      RemovePrefix(a[1..], rest, k);
      assert a == [a[0]] + a[1..];
    } else {
      assert a + rest == rest;
    }
  }

  /** Removing k leaves a suffix that does not hold it alone. */
  lemma {:induction false} RemoveSuffix(b: seq<Entry>, c: seq<Entry>, k: Bytes)
    requires forall i :: 0 <= i < |c| ==> c[i].key != k
    ensures Remove(b + c, k) == Remove(b, k) + c
  {
    if b == [] {
      assert b + c == c;
      RemoveAbsent(c, k) by { LookupAbsent(c, k); }
    } else {
      assert (b + c)[0] == b[0];
      assert (b + c)[1..] == b[1..] + c;
      RemoveSuffix(b[1..], c, k);
    }
  }

  lemma SortedConcat(a: seq<Entry>, b: seq<Entry>)
    requires Sorted(a) && Sorted(b)
    requires forall i, j :: 0 <= i < |a| && 0 <= j < |b| ==> Less(a[i].key, b[j].key)
    ensures Sorted(a + b)
  {
  }
}
