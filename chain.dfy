/** The leaf chain seen as values: each leaf contributes a segment, its
    entries together with the key range [lo, hi) it answers for. Segments
    that tile the key space left to right concatenate to a sorted entry
    sequence, and a key's lookup, insertion and removal only concern the one
    segment whose range holds it. */
module Chain {
  import opened Keys
  import opened OrderedMap

  datatype Segment = Segment(entries: seq<Entry>, lo: Bound, hi: Bound)

  /** A segment's entries are sorted and lie in its non-empty range. */
  predicate SegmentOK(s: Segment) {
    && Sorted(s.entries)
    && KeysAtLeast(s.entries, s.lo)
    && KeysBelow(s.entries, s.hi)
    && BoundLess(s.lo, s.hi)
  }

  /** Every segment is well formed and each one's range starts where the
      previous one's ends. */
  predicate Tiled(ss: seq<Segment>) {
    && (forall i :: 0 <= i < |ss| ==> SegmentOK(ss[i]))
    && (forall i :: 0 <= i < |ss| - 1 ==> ss[i].hi == ss[i + 1].lo)
  }

  /** The entries of the segments, one after the other. */
  function Flatten(ss: seq<Segment>): seq<Entry> {
    if ss == [] then [] else ss[0].entries + Flatten(ss[1..])
  }

  lemma {:induction false} FlattenConcat(a: seq<Segment>, b: seq<Segment>)
    ensures Flatten(a + b) == Flatten(a) + Flatten(b)
  {
    if a == [] {
      assert a + b == b;
    } else {
      assert (a + b)[0] == a[0];
      assert (a + b)[1..] == a[1..] + b;
      FlattenConcat(a[1..], b);
    }
  }

  lemma FlattenSingle(s: Segment)
    ensures Flatten([s]) == s.entries
  {
    assert [s][1..] == [];
    assert s.entries + [] == s.entries;
  }

  /** The entries around segment i. */
  lemma FlattenAround(ss: seq<Segment>, i: int)
    requires 0 <= i < |ss|
    ensures Flatten(ss) == Flatten(ss[..i]) + ss[i].entries + Flatten(ss[i + 1..])
  {
    assert ss == ss[..i] + ss[i..];
    FlattenConcat(ss[..i], ss[i..]);
    FlattenCons(ss, i);
  }

  /** The entries up to and including segment i. */
  lemma FlattenSnoc(ss: seq<Segment>, i: int)
    requires 0 <= i < |ss|
    ensures Flatten(ss[..i + 1]) == Flatten(ss[..i]) + ss[i].entries
  {
    assert ss[..i + 1] == ss[..i] + [ss[i]];
    FlattenConcat(ss[..i], [ss[i]]);
    FlattenSingle(ss[i]);
  }

  /** The entries from segment i on. */
  lemma FlattenCons(ss: seq<Segment>, i: int)
    requires 0 <= i < |ss|
    ensures Flatten(ss[i..]) == ss[i].entries + Flatten(ss[i + 1..])
  {
    assert ss[i..][1..] == ss[i + 1..];
  }

  /** Segment a's last entry e moves to the front of segment a + 1, whose
      other entries stand for zs. */
  lemma FlattenShiftRight(ss: seq<Segment>, a: int, xs: seq<Entry>, ys: seq<Entry>, e: Entry, zs: seq<Entry>)
    requires 0 <= a && a + 1 < |ss| && xs + [e] == ss[a].entries && ys == [e] + zs
    ensures Flatten(ss[..a]) + xs + ys + Flatten(ss[a + 2..]) == Flatten(ss[..a + 1]) + zs + Flatten(ss[a + 2..])
  {
    FlattenSnoc(ss, a);
    assert Flatten(ss[..a]) + xs + ys == Flatten(ss[..a]) + (xs + [e]) + zs;
  }

  /** Segment a + 1's first entry e moves to the back of segment a, whose
      other entries stand for zs. */
  lemma FlattenShiftLeft(ss: seq<Segment>, a: int, xs: seq<Entry>, ys: seq<Entry>, e: Entry, zs: seq<Entry>)
    requires 0 <= a && a + 1 < |ss| && xs == zs + [e] && [e] + ys == ss[a + 1].entries
    ensures Flatten(ss[..a]) + xs + ys + Flatten(ss[a + 2..]) == Flatten(ss[..a]) + zs + Flatten(ss[a + 1..])
  {
    FlattenCons(ss, a + 1);
    assert Flatten(ss[..a]) + xs + ys + Flatten(ss[a + 2..])
        == Flatten(ss[..a]) + zs + (([e] + ys) + Flatten(ss[a + 2..]));
  }

  /** The entries of three runs of segments in a row. */
  lemma FlattenReplace(pre: seq<Segment>, mid: seq<Segment>, post: seq<Segment>)
    ensures Flatten(pre + mid + post) == Flatten(pre) + Flatten(mid) + Flatten(post)
  {
    FlattenConcat(pre + mid, post);
    FlattenConcat(pre, mid);
  }

  lemma FlattenPair(s: Segment, t: Segment)
    ensures Flatten([s, t]) == s.entries + t.entries
  {
    assert [s, t] == [s] + [t];
    FlattenConcat([s], [t]);
    FlattenSingle(s);
    FlattenSingle(t);
  }

  /** The entries after segments a and a + 1 are replaced. */
  lemma FlattenPairAt(ss: seq<Segment>, a: int, s: Segment, t: Segment)
    requires 0 <= a && a + 1 < |ss|
    ensures Flatten(ss[a := s][a + 1 := t]) == Flatten(ss[..a]) + s.entries + t.entries + Flatten(ss[a + 2..])
  {
    var ss' := ss[a := s][a + 1 := t];
    assert ss' == ss[..a] + [s, t] + ss[a + 2..];
    FlattenReplace(ss[..a], [s, t], ss[a + 2..]);
    FlattenPair(s, t);
  }

  lemma TiledSlice(ss: seq<Segment>, i: int, j: int)
    requires 0 <= i <= j <= |ss| && Tiled(ss)
    ensures Tiled(ss[i..j])
  {
    var t := ss[i..j];
    forall x | 0 <= x < |t| ensures SegmentOK(t[x]) {
      assert t[x] == ss[i + x];
    }
    forall x | 0 <= x < |t| - 1 ensures t[x].hi == t[x + 1].lo {
      assert t[x] == ss[i + x] && t[x + 1] == ss[i + x + 1];
    }
  }

  /** A tiled run's ranges widen left to right: the first lo lies below the
      last hi, and the first hi is at most the last hi. */
  lemma {:induction false} RangeOrdered(ss: seq<Segment>)
    requires ss != [] && Tiled(ss)
    ensures BoundLess(ss[0].lo, ss[|ss| - 1].hi)
    ensures BoundLe(ss[0].hi, ss[|ss| - 1].hi)
  {
    if |ss| > 1 {
      var tail := ss[1..];
      TiledSlice(ss, 1, |ss|);
      RangeOrdered(tail);
      BoundOrder(ss[0].lo, ss[0].hi, tail[|tail| - 1].hi);
      BoundOrder(ss[0].hi, tail[0].hi, tail[|tail| - 1].hi);
    }
  }

  /** In a tiled run, the segment that starts where segment a ends is the
      next one. */
  lemma TiledAdjacent(ss: seq<Segment>, a: int, b: int)
    requires Tiled(ss) && 0 <= a < |ss| && 0 <= b < |ss| && ss[a].hi == ss[b].lo
    ensures b == a + 1
  {
    assert SegmentOK(ss[a]) && SegmentOK(ss[b]);
    if b <= a {
      TiledSlice(ss, b, a + 1);
      RangeOrdered(ss[b..a + 1]);
      assert ss[b..a + 1][0] == ss[b] && ss[b..a + 1][a - b] == ss[a];
      BoundOrder(ss[b].lo, ss[a].hi, ss[b].lo);
    } else if b > a + 1 {
      TiledApart(ss, a + 1, b);
      assert SegmentOK(ss[a + 1]);
      BoundOrder(ss[a + 1].lo, ss[a + 1].hi, ss[b].lo);
    }
  }

  /** In a tiled run, a segment's range ends at or below the start of every
      later one's, so no key lies in the ranges of two segments. */
  lemma {:induction false} TiledApart(ss: seq<Segment>, a: int, b: int)
    requires Tiled(ss) && 0 <= a < b < |ss|
    ensures BoundLe(ss[a].hi, ss[b].lo)
    decreases b - a
  {
    if b > a + 1 {
      TiledApart(ss, a + 1, b);
      assert SegmentOK(ss[a + 1]);
      BoundOrder(ss[a + 1].lo, ss[a + 1].hi, ss[b].lo);
    }
  }

  /** Every key of a tiled run lies in [first lo, last hi). */
  lemma {:induction false} FlattenBounds(ss: seq<Segment>)
    requires ss != [] && Tiled(ss)
    ensures KeysAtLeast(Flatten(ss), ss[0].lo)
    ensures KeysBelow(Flatten(ss), ss[|ss| - 1].hi)
  {
    var es := Flatten(ss);
    if |ss| == 1 {
      assert ss == [ss[0]];
      FlattenSingle(ss[0]);
    } else {
      var tail := ss[1..];
      TiledSlice(ss, 1, |ss|);
      FlattenBounds(tail);
      RangeOrdered(tail);
      var a, b := ss[0].entries, Flatten(tail);
      assert es == a + b;
      assert SegmentOK(ss[0]);
      forall j | 0 <= j < |es|
        ensures BoundLe(ss[0].lo, At(es[j].key)) && BoundLess(At(es[j].key), ss[|ss| - 1].hi)
      {
        if j < |a| {
          assert es[j] == a[j];
          BoundOrder(At(es[j].key), ss[0].hi, tail[|tail| - 1].hi);
        } else {
          assert es[j] == b[j - |a|];
          BoundOrder(ss[0].lo, ss[0].hi, At(es[j].key));
        }
      }
    }
  }

  /** The segments before segment i hold only keys below its range, the ones
      after it only keys above. */
  lemma Outside(ss: seq<Segment>, i: int, k: Bytes)
    requires Tiled(ss) && 0 <= i < |ss|
    requires InRange(k, ss[i].lo, ss[i].hi)
    ensures var a := Flatten(ss[..i]); forall j :: 0 <= j < |a| ==> Less(a[j].key, k)
    ensures var c := Flatten(ss[i + 1..]); forall j :: 0 <= j < |c| ==> Less(k, c[j].key)
  {
    var a, c := Flatten(ss[..i]), Flatten(ss[i + 1..]);
    if i > 0 {
      TiledSlice(ss, 0, i);
      FlattenBounds(ss[..i]);
      forall j | 0 <= j < |a| ensures Less(a[j].key, k) {
        BoundOrder(At(a[j].key), ss[i].lo, At(k));
      }
    } else {
      assert ss[..i] == [];
    }
    if i < |ss| - 1 {
      TiledSlice(ss, i + 1, |ss|);
      FlattenBounds(ss[i + 1..]);
      forall j | 0 <= j < |c| ensures Less(k, c[j].key) {
        BoundOrder(At(k), ss[i].hi, At(c[j].key));
      }
    } else {
      assert ss[i + 1..] == [];
    }
  }

  /** Looking a key up in the whole chain is looking it up in the segment
      whose range holds it. */
  lemma ChainLookup(ss: seq<Segment>, i: int, k: Bytes)
    requires Tiled(ss) && 0 <= i < |ss|
    requires InRange(k, ss[i].lo, ss[i].hi)
    ensures Lookup(Flatten(ss), k) == Lookup(ss[i].entries, k)
  {
    FlattenAround(ss, i);
    var a, b, c := Flatten(ss[..i]), ss[i].entries, Flatten(ss[i + 1..]);
    Outside(ss, i, k);
    LookupAbsent(a, k);
    LookupAbsent(c, k);
    LookupConcat(a, b, k);
    LookupConcat(a + b, c, k);
  }

  /** Inserting a key into the chain is inserting it into the segment whose
      range holds it. */
  lemma ChainInsert(ss: seq<Segment>, i: int, k: Bytes, v: Bytes)
    requires Tiled(ss) && 0 <= i < |ss|
    requires InRange(k, ss[i].lo, ss[i].hi)
    ensures Insert(Flatten(ss), k, v) == Flatten(ss[..i]) + Insert(ss[i].entries, k, v) + Flatten(ss[i + 1..])
  {
    var a, b, c := Flatten(ss[..i]), ss[i].entries, Flatten(ss[i + 1..]);
    FlattenAround(ss, i);
    assert KeysBelow(a, At(k)) && forall j :: 0 <= j < |c| ==> Less(k, c[j].key) by {
      Outside(ss, i, k);
    }
    InsertMiddle(a, b, c, k, v);
  }

  /** Removing a key from the chain is removing it from the segment whose
      range holds it. */
  lemma ChainRemove(ss: seq<Segment>, i: int, k: Bytes)
    requires Tiled(ss) && 0 <= i < |ss|
    requires InRange(k, ss[i].lo, ss[i].hi)
    ensures Remove(Flatten(ss), k) == Flatten(ss[..i]) + Remove(ss[i].entries, k) + Flatten(ss[i + 1..])
  {
    var a, b, c := Flatten(ss[..i]), ss[i].entries, Flatten(ss[i + 1..]);
    FlattenAround(ss, i);
    Outside(ss, i, k);
    forall j | 0 <= j < |a| ensures a[j].key != k {
      LessTotal(a[j].key, k);
    }
    forall j | 0 <= j < |c| ensures c[j].key != k {
      LessTotal(k, c[j].key);
    }
    RemovePrefix(a, b + c, k);
    RemoveSuffix(b, c, k);
    assert a + b + c == a + (b + c);
    assert a + (Remove(b, k) + c) == a + Remove(b, k) + c;
  }

  /** The entries of a tiled chain are sorted. */
  lemma {:induction false} ChainSorted(ss: seq<Segment>)
    requires Tiled(ss)
    ensures Sorted(Flatten(ss))
  {
    if ss != [] {
      var a, b := ss[0].entries, Flatten(ss[1..]);
      assert SegmentOK(ss[0]);
      TiledSlice(ss, 1, |ss|);
      ChainSorted(ss[1..]);
      if |ss| > 1 {
        FlattenBounds(ss[1..]);
        forall x, y | 0 <= x < |a| && 0 <= y < |b| ensures Less(a[x].key, b[y].key) {
          BoundOrder(At(a[x].key), ss[0].hi, At(b[y].key));
        }
      } else {
        assert ss[1..] == [];
      }
      SortedConcat(a, b);
    }
  }
}
