/** Byte strings, their lexicographic order (Go's bytes.Compare) and the key
    ranges that the tree's ghost state attaches to every node. */
module Keys {

  type Byte = b: int | 0 <= b < 256
  type Bytes = seq<Byte>

  /** bytes.Compare: -1, 0 or +1 as x sorts before, equal to or after y. A proper
      prefix sorts first. */
  function Compare(x: Bytes, y: Bytes): (c: int)
    ensures c == -1 || c == 0 || c == 1
    ensures c == 0 <==> x == y
    decreases |x|
  {
    if |x| == 0 then (if |y| == 0 then 0 else -1)
    else if |y| == 0 then 1
    else if x[0] < y[0] then -1
    else if x[0] > y[0] then 1
    else
      var c := Compare(x[1..], y[1..]);
      assert c == 0 ==> x == [x[0]] + x[1..] == [y[0]] + y[1..] == y;
      c
  }

  /** less(x, y) of the source. */
  predicate Less(x: Bytes, y: Bytes) {
    Compare(x, y) < 0
  }

  lemma {:induction false} CompareAntisymmetric(x: Bytes, y: Bytes)
    ensures Compare(y, x) == -Compare(x, y)
    decreases |x|
  {
    if |x| > 0 && |y| > 0 && x[0] == y[0] {
      CompareAntisymmetric(x[1..], y[1..]);
    }
  }

  lemma {:induction false} LessTransitive(a: Bytes, b: Bytes, c: Bytes)
    requires Less(a, b) && Less(b, c)
    ensures Less(a, c)
    decreases |a|
  {
    if |a| > 0 && |b| > 0 && |c| > 0 && a[0] == b[0] == c[0] {
      LessTransitive(a[1..], b[1..], c[1..]);
    }
  }

  /** Distinct keys are ordered one way or the other, never both. */
  lemma LessTotal(x: Bytes, y: Bytes)
    ensures x == y || Less(x, y) || Less(y, x)
    ensures !(Less(x, y) && Less(y, x))
  {
    CompareAntisymmetric(x, y);
  }

  /** One end of a key range: below every key, a key, or above every key. */
  datatype Bound = NegInf | At(key: Bytes) | PosInf

  predicate BoundLess(a: Bound, b: Bound) {
    match a
    case NegInf => !b.NegInf?
    case At(x) => b.PosInf? || (b.At? && Less(x, b.key))
    case PosInf => false
  }

  predicate BoundLe(a: Bound, b: Bound) {
    a == b || BoundLess(a, b)
  }

  /** The half-open range [lo, hi) holds k. */
  predicate InRange(k: Bytes, lo: Bound, hi: Bound) {
    BoundLe(lo, At(k)) && BoundLess(At(k), hi)
  }

  lemma BoundLessTransitive(a: Bound, b: Bound, c: Bound)
    requires BoundLess(a, b) && BoundLess(b, c)
    ensures BoundLess(a, c)
  {
    if a.At? && b.At? && c.At? {
      LessTransitive(a.key, b.key, c.key);
    }
  }

  /** The mixed forms of transitivity, and asymmetry. */
  lemma BoundOrder(a: Bound, b: Bound, c: Bound)
    ensures BoundLe(a, b) && BoundLess(b, c) ==> BoundLess(a, c)
    ensures BoundLess(a, b) && BoundLe(b, c) ==> BoundLess(a, c)
    ensures BoundLe(a, b) && BoundLe(b, c) ==> BoundLe(a, c)
    ensures BoundLess(a, b) ==> !BoundLe(b, a)
  {
    if BoundLess(a, b) && BoundLess(b, c) {
      BoundLessTransitive(a, b, c);
    }
    if BoundLess(a, b) && a.At? && b.At? {
      LessTotal(a.key, b.key);
    }
  }

  /** Strictly ascending keys, as every node keeps them. */
  predicate Ascending(s: seq<Bytes>) {
    forall i, j :: 0 <= i < j < |s| ==> Less(s[i], s[j])
  }

  /** Replacing key i by one strictly between its neighbours keeps the keys
      ascending. */
  lemma AscendingReplaced(s: seq<Bytes>, i: int, m: Bytes)
    requires Ascending(s) && 0 <= i < |s|
    requires i > 0 ==> Less(s[i - 1], m)
    requires i + 1 < |s| ==> Less(m, s[i + 1])
    ensures Ascending(s[i := m])
  {
    var s' := s[i := m];
    forall a, b | 0 <= a < b < |s'| ensures Less(s'[a], s'[b]) {
      if a == i {
        if i + 1 < b {
          LessTransitive(m, s[i + 1], s[b]);
        }
      } else if b == i {
        if a < i - 1 {
          LessTransitive(s[a], s[i - 1], m);
        }
      }
    }
  }
}
