/** Insertion into and removal from a sequence at an index: the shape of every
    shift loop in the tree. */
module Seqs {

  function SeqInsert<T>(s: seq<T>, i: int, x: T): (r: seq<T>)
    requires 0 <= i <= |s|
    ensures |r| == |s| + 1 && r[i] == x
    ensures forall j :: 0 <= j < i ==> r[j] == s[j]
    ensures forall j :: i < j < |r| ==> r[j] == s[j - 1]
  {
    s[..i] + [x] + s[i..]
  }

  function SeqRemove<T>(s: seq<T>, i: int): (r: seq<T>)
    requires 0 <= i < |s|
    ensures |r| == |s| - 1
    ensures forall j :: 0 <= j < i ==> r[j] == s[j]
    ensures forall j :: i <= j < |r| ==> r[j] == s[j + 1]
  {
    s[..i] + s[i + 1..]
  }

  /** A position of an element of s. */
  lemma IndexOf<T>(s: seq<T>, x: T) returns (i: int)
    requires x in s
    ensures 0 <= i < |s| && s[i] == x
  {
    i :| 0 <= i < |s| && s[i] == x;
  }

  /** Removing the first or the last element splits it off. */
  lemma SeqRemoveEnds<T>(s: seq<T>)
    requires |s| >= 1
    ensures s == [s[0]] + SeqRemove(s, 0)
    ensures s == SeqRemove(s, |s| - 1) + [s[|s| - 1]]
  {
    var n := |s| - 1;
    assert s[..0] + s[1..] == s[1..];
    assert [s[0]] + s[1..] == s;
    assert s[..n] + s[n + 1..] == s[..n];
    assert s[..n] + [s[n]] == s;
  }

  /** One step of a shift-right loop that moves s[j-1] up to j: the copied
      prefix shrinks by one and the shifted run grows by one. */
  lemma ShiftRightStep<T>(o: seq<T>, s: seq<T>, j: int, len: int)
    requires 0 < j <= len < |o|
    requires s == o[..j + 1] + o[j..len] + o[len + 1..]
    ensures s[j := s[j - 1]] == o[..j] + o[j - 1..len] + o[len + 1..]
  {
    assert s[j - 1] == o[j - 1];
    var t := s[j := s[j - 1]];
    var want := o[..j] + o[j - 1..len] + o[len + 1..];
    assert |t| == |want|;
    forall i | 0 <= i < |t| ensures t[i] == want[i] {
      if i < j {
      } else if i <= len {
        assert want[i] == o[j - 1..len][i - j];
      } else {
        assert want[i] == o[len + 1..][i - len - 1];
      }
    }
  }

  /** Cutting a sequence with x inserted at i at position m: the cut falls
      after the insertion (i < m) or at or before it (i >= m). */
  lemma SeqInsertCut<T>(s: seq<T>, i: int, x: T, m: int)
    requires 0 <= i <= |s| && 0 <= m <= |s|
    ensures i < m ==> SeqInsert(s, i, x)[..m] == SeqInsert(s[..m - 1], i, x)
    ensures i < m ==> SeqInsert(s, i, x)[m..] == s[m - 1..]
    ensures i >= m ==> SeqInsert(s, i, x)[..m] == s[..m]
    ensures i >= m ==> SeqInsert(s, i, x)[m..] == SeqInsert(s[m..], i - m, x)
  {
    var r := SeqInsert(s, i, x);
    if i < m {
      assert r[..m] == SeqInsert(s[..m - 1], i, x);
      assert r[m..] == s[m - 1..];
    } else {
      assert r[..m] == s[..m];
      assert r[m..] == SeqInsert(s[m..], i - m, x);
    }
  }

  /** A run shifted one slot right, with x written into the vacated slot,
      is x inserted into the run. */
  lemma ShiftedInsert<T>(s: seq<T>, from: int, to: int, x: T)
    requires 0 <= from <= to < |s|
    ensures (s[..from + 1] + s[from..to] + s[to + 1..])[from := x] == SeqInsert(s[..to], from, x) + s[to + 1..]
  {
    var t := (s[..from + 1] + s[from..to] + s[to + 1..])[from := x];
    var want := SeqInsert(s[..to], from, x) + s[to + 1..];
    assert |t| == |want|;
    forall i | 0 <= i < |t| ensures t[i] == want[i] {
      if i < from {
      } else if i == from {
      } else if i <= to {
        assert t[i] == s[from..to][i - from - 1];
      } else {
        assert t[i] == s[to + 1..][i - to - 1];
      }
    }
  }

  /** A run shifted one slot right, with x and y written into the vacated
      slot and the one after it. */
  lemma ShiftedPair<T>(s: seq<T>, from: int, to: int, x: T, y: T)
    requires 0 <= from < to < |s|
    ensures (s[..from + 1] + s[from..to] + s[to + 1..])[from := x][from + 1 := y]
            == s[..from] + [x, y] + s[from + 1..to] + s[to + 1..]
  {
    var t := (s[..from + 1] + s[from..to] + s[to + 1..])[from := x][from + 1 := y];
    var want := s[..from] + [x, y] + s[from + 1..to] + s[to + 1..];
    assert |t| == |want|;
    forall i | 0 <= i < |t| ensures t[i] == want[i] {
      if i < from {
      } else if i <= from + 1 {
      } else if i <= to {
        assert t[i] == s[from..to][i - from - 1];
        assert want[i] == s[from + 1..to][i - from - 2];
      } else {
        assert t[i] == s[to + 1..][i - to - 1];
        assert want[i] == s[to + 1..][i - to - 1];
      }
    }
  }
}
