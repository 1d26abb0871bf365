/** The node layer. A node of order `order` has order-1 key slots and order
    pointer slots, of which keyNum keys are in use. A leaf's first keyNum
    pointers hold the values and its last slot links to the next leaf; an
    internal node's first keyNum+1 pointers are its children. Nodes live in
    the tree's arena and refer to one another by index. Every operation here
    takes a node and returns the node as the source leaves it. */
module Nodes {
  import opened Outcomes
  import opened Keys
  import opened Seqs
  import opened OrderedMap
  import opened Config

  /** A node's index in the tree's arena: the model's node pointer. */
  type NodeId = nat

  /** What a pointer slot holds: nothing, a value (leaf) or a node. */
  datatype Pointer = Nil | Value(bytes: Bytes) | Child(id: NodeId)

  /** asValue(): the value of a leaf slot; anything else reads as a nil slice. */
  function ValueOf(p: Pointer): Bytes {
    if p.Value? then p.bytes else []
  }

  /** n copies of x: a freshly made Go slice of nil keys or nil pointers. */
  function Fill<T>(n: nat, x: T): (s: seq<T>)
    ensures |s| == n && forall i :: 0 <= i < n ==> s[i] == x
  {
    seq(n, _ => x)
  }

  /** Go's copy(dst, src): the first min(len(dst), len(src)) elements of src
      over the front of dst. */
  function Copy<T>(dst: seq<T>, src: seq<T>): (r: seq<T>)
    ensures |r| == |dst|
    ensures forall i :: 0 <= i < |r| ==> r[i] == if i < |src| then src[i] else dst[i]
  {
    if |src| < |dst| then src + dst[|src|..] else src[..|dst|]
  }

  /** Pair keys with the values of the matching pointer slots. */
  function EntriesOf(ks: seq<Bytes>, ps: seq<Pointer>): (es: seq<Entry>)
    requires |ks| <= |ps|
    ensures |es| == |ks|
    ensures forall i :: 0 <= i < |ks| ==> es[i] == Entry(ks[i], ValueOf(ps[i]))
  {
    seq(|ks|, i requires 0 <= i < |ks| => Entry(ks[i], ValueOf(ps[i])))
  }

  lemma EntriesOfInsert(ks: seq<Bytes>, ps: seq<Pointer>, pos: int, k: Bytes, p: Pointer)
    requires |ks| == |ps| && 0 <= pos <= |ks|
    ensures EntriesOf(SeqInsert(ks, pos, k), SeqInsert(ps, pos, p)) == SeqInsert(EntriesOf(ks, ps), pos, Entry(k, ValueOf(p)))
  {
  }

  datatype Node = Node(leaf: bool, parent: Option<NodeId>, keys: seq<Bytes>, keyNum: int, pointers: seq<Pointer>)
  {
    /** One more pointer slot than key slots, and keyNum of the keys in use. */
    predicate WellSized() {
      0 <= keyNum <= |keys| && |pointers| == |keys| + 1
    }

    /** The keys in use. */
    function Keys(): seq<Bytes>
      requires WellSized()
    {
      keys[..keyNum]
    }

    /** The entries of a leaf, in slot order. */
    function Entries(): seq<Entry>
      requires WellSized()
    {
      EntriesOf(keys[..keyNum], pointers[..keyNum])
    }

    /** The children of an internal node, in slot order. */
    function Kids(): seq<Pointer>
      requires WellSized()
    {
      pointers[..keyNum + 1]
    }

    /** next(): the pointer in the last slot, a leaf's link to its successor. */
    function Next(): Pointer {
      if pointers == [] then Nil else pointers[|pointers| - 1]
    }
  }

  /** A node as the source allocates it: make'd key and pointer slices, no
      keys, no parent. */
  function Blank(leaf: bool, order: nat): (n: Node)
    requires order >= 1
    ensures n.WellSized() && n.keyNum == 0 && n.parent == None && n.leaf == leaf
    ensures |n.keys| == order - 1 && |n.pointers| == order
  {
    Node(leaf, None, Fill(order - 1, []), 0, Fill(order, Nil))
  }

  /** setNext(p): store p in the last slot. */
  function SetNext(n: Node, p: Pointer): (m: Node)
    requires n.pointers != []
    ensures m.Next() == p
    ensures m == n.(pointers := n.pointers[..|n.pointers| - 1] + [p])
  {
    n.(pointers := n.pointers[|n.pointers| - 1 := p])
  }

  /** keyPosition: the index of key among the keys in use, or -1. */
  method KeyPosition(n: Node, key: Bytes) returns (pos: int)
    requires n.WellSized()
    ensures -1 <= pos < n.keyNum
    ensures pos >= 0 ==> n.keys[pos] == key && forall j :: 0 <= j < pos ==> n.keys[j] != key
    ensures pos == -1 <==> forall j :: 0 <= j < n.keyNum ==> n.keys[j] != key
  {
    pos := 0;
    while pos < n.keyNum
      invariant 0 <= pos <= n.keyNum
      invariant forall j :: 0 <= j < pos ==> n.keys[j] != key
    {
      if Compare(key, n.keys[pos]) == 0 {
        return;
      }
      if pos == n.keyNum - 1 {
        return -1;
      }
      pos := pos + 1;
    }
    return -1;
  }

  /** The child slot for key: the first separator above key, or keyNum when
      there is none. findLeaf, putIntoParent and putIntoParentAndSplit all
      scan for it the same way. */
  method ChildPosition(n: Node, key: Bytes) returns (position: int)
    requires n.WellSized()
    ensures 0 <= position <= n.keyNum
    ensures forall j :: 0 <= j < position ==> !Less(key, n.keys[j])
    ensures position < n.keyNum ==> Less(key, n.keys[position])
  {
    position := 0;
    while position < n.keyNum
      invariant 0 <= position <= n.keyNum
      invariant forall j :: 0 <= j < position ==> !Less(key, n.keys[j])
    {
      if Less(key, n.keys[position]) {
        break;
      } else {
        position := position + 1;
      }
    }
  }

  /** The scan of putIntoLeaf: the first slot whose key is not below key,
      and whether it holds key itself. */
  method InsertPosition(n: Node, key: Bytes) returns (position: int, exact: bool)
    requires n.WellSized()
    ensures 0 <= position <= n.keyNum
    ensures forall j :: 0 <= j < position ==> Less(n.keys[j], key)
    ensures exact <==> position < n.keyNum && n.keys[position] == key
    ensures !exact && position < n.keyNum ==> Less(key, n.keys[position])
  {
    position := 0;
    while position < n.keyNum
      invariant 0 <= position <= n.keyNum
      invariant forall j :: 0 <= j < position ==> Less(n.keys[j], key)
    {
      var cmp := Compare(key, n.keys[position]);
      if cmp == 0 {
        return position, true;
      } else if cmp < 0 {
        break;
      }
      CompareAntisymmetric(key, n.keys[position]);
      position := position + 1;
    }
    exact := false;
  }

  /** pointerPositionOf(x): the first slot holding x, provided no nil slot
      comes before it; -1 otherwise. Only meaningful on internal nodes, whose
      slots hold nodes or nil. */
  method PointerPositionOf(n: Node, x: NodeId) returns (pos: int)
    requires forall j :: 0 <= j < |n.pointers| ==> !n.pointers[j].Value?
    ensures -1 <= pos < |n.pointers|
    ensures pos >= 0 ==> n.pointers[pos] == Child(x)
    ensures pos >= 0 ==> forall j :: 0 <= j < pos ==> n.pointers[j] != Nil && n.pointers[j] != Child(x)
    ensures pos == -1 <==> forall j :: 0 <= j < |n.pointers| && n.pointers[j] == Child(x) ==>
                              Nil in n.pointers[..j]
  {
    pos := 0;
    while pos < |n.pointers|
      invariant 0 <= pos <= |n.pointers|
      invariant forall j :: 0 <= j < pos ==> n.pointers[j] != Nil && n.pointers[j] != Child(x)
    {
      if n.pointers[pos] == Nil {
        break;
      }
      if n.pointers[pos].id == x {
        return;
      }
      pos := pos + 1;
    }
    forall j | 0 <= j < |n.pointers| && n.pointers[j] == Child(x) ensures Nil in n.pointers[..j] {
      assert j > pos;
      assert n.pointers[..j][pos] == Nil;
    }
    return -1;
  }

  /** n with key and p inserted at slot position among the slots in use,
      the slots after them unchanged. */
  function Inserted(n: Node, position: int, key: Bytes, p: Pointer): (m: Node)
    requires n.WellSized() && 0 <= position <= n.keyNum < |n.keys|
    ensures m.WellSized() && m.keyNum == n.keyNum + 1 && |m.keys| == |n.keys|
    ensures m.leaf == n.leaf && m.parent == n.parent
    ensures m.keys[position] == key && m.pointers[position] == p
  {
    n.(keyNum := n.keyNum + 1,
       keys := SeqInsert(n.keys[..n.keyNum], position, key) + n.keys[n.keyNum + 1..],
       pointers := SeqInsert(n.pointers[..n.keyNum], position, p) + n.pointers[n.keyNum + 1..])
  }

  /** insertAt(position, key, p): shift the slots [position, keyNum) one to
      the right and put key and p at position. */
  method InsertAt(n: Node, position: int, key: Bytes, p: Pointer) returns (m: Node)
    requires n.WellSized() && 0 <= position <= n.keyNum < |n.keys|
    ensures m == Inserted(n, position, key, p)
  {
    var kn := n.keyNum;
    var ks := ShiftRight(n.keys, position, kn);
    var ps := ShiftRight(n.pointers, position, kn);
    ShiftedInsert(n.keys, position, kn, key);
    ShiftedInsert(n.pointers, position, kn, p);
    m := n.(keyNum := kn + 1, keys := ks[position := key], pointers := ps[position := p]);
  }

  /** What keys and entries become when insertAt has shifted the slots. */
  lemma InsertedKeys(n: Node, m: Node, position: int, key: Bytes, p: Pointer)
    requires n.WellSized() && 0 <= position <= n.keyNum < |n.keys|
    requires m == Inserted(n, position, key, p)
    ensures m.WellSized() && m.Keys() == SeqInsert(n.Keys(), position, key)
    ensures m.Entries() == SeqInsert(n.Entries(), position, Entry(key, ValueOf(p)))
    ensures m.Next() == n.Next()
  {
    var kn := n.keyNum;
    assert m.keys[..kn + 1] == SeqInsert(n.keys[..kn], position, key);
    assert m.pointers[..kn + 1] == SeqInsert(n.pointers[..kn], position, p);
    EntriesOfInsert(n.keys[..kn], n.pointers[..kn], position, key, p);
  }

  /** n with separator k inserted at key slot pos, l in pointer slot pos
      and r right after it; the slots after them shift one to the right. */
  function ChildInserted(n: Node, pos: int, k: Bytes, l: NodeId, r: NodeId): (m: Node)
    requires n.WellSized() && 0 <= pos <= n.keyNum < |n.keys|
    ensures m.WellSized() && m.keyNum == n.keyNum + 1 && |m.keys| == |n.keys|
    ensures m.leaf == n.leaf && m.parent == n.parent
  {
    n.(keyNum := n.keyNum + 1,
       keys := SeqInsert(n.keys[..n.keyNum], pos, k) + n.keys[n.keyNum + 1..],
       pointers := n.pointers[..pos] + [Child(l), Child(r)] + n.pointers[pos + 1..n.keyNum + 1] + n.pointers[n.keyNum + 2..])
  }

  /** Inserting next to the slot holding l: the keys in use get k at pos,
      the children get r right after l, and the slots past them keep n's. */
  lemma ChildInsertedKids(n: Node, pos: int, k: Bytes, l: NodeId, r: NodeId)
    requires n.WellSized() && 0 <= pos <= n.keyNum < |n.keys| && n.pointers[pos] == Child(l)
    ensures var m := ChildInserted(n, pos, k, l, r);
            && m.Keys() == SeqInsert(n.Keys(), pos, k)
            && m.Kids() == SeqInsert(n.Kids(), pos + 1, Child(r))
            && forall s :: n.keyNum + 1 < s < |m.pointers| ==> m.pointers[s] == n.pointers[s]
  {
    var m := ChildInserted(n, pos, k, l, r);
    assert m.Keys() == SeqInsert(n.Keys(), pos, k);
    assert m.Kids() == SeqInsert(n.Kids(), pos + 1, Child(r));
  }

  /** The insertion of putIntoParent and of putIntoParentAndSplit: key k goes
      to slot pos, l and r to pointer slots pos and pos+1, and the keys and
      pointers after them shift one to the right. */
  method InsertChild(n: Node, pos: int, k: Bytes, l: NodeId, r: NodeId) returns (m: Node)
    requires n.WellSized() && 0 <= pos <= n.keyNum < |n.keys|
    ensures m == ChildInserted(n, pos, k, l, r)
    ensures m.WellSized() && m.Keys() == SeqInsert(n.Keys(), pos, k)
  {
    var kn := n.keyNum;
    var ks := ShiftRight(n.keys, pos, kn);
    var ps := ShiftRight(n.pointers, pos, kn + 1);
    ShiftedInsert(n.keys, pos, kn, k);
    ShiftedPair(n.pointers, pos, kn + 1, Child(l), Child(r));
    m := n.(keyNum := kn + 1, keys := ks[pos := k], pointers := ps[pos := Child(l)][pos + 1 := Child(r)]);
    assert m.Keys() == m.keys[..kn + 1];
  }

  /** n without the key at keyPosition and without one pointer: a leaf's
      pointer at keyPosition, an internal node's pointer right of the key,
      except at key 0, where pointer 0 goes; the vacated slots are cleared. */
  function Deleted(n: Node, keyPosition: int): (m: Node)
    requires n.WellSized() && 0 <= keyPosition < n.keyNum
    ensures m.WellSized() && m.keyNum == n.keyNum - 1 && |m.keys| == |n.keys|
    ensures m.leaf == n.leaf && m.parent == n.parent
  {
    var pp := if !n.leaf && keyPosition != 0 then keyPosition + 1 else keyPosition;
    var pn := if n.leaf then n.keyNum else n.keyNum + 1;
    n.(keyNum := n.keyNum - 1,
       keys := SeqRemove(n.keys[..n.keyNum], keyPosition) + [[]] + n.keys[n.keyNum..],
       pointers := SeqRemove(n.pointers[..pn], pp) + [Nil] + n.pointers[pn..])
  }

  /** deleteAt(keyPosition): remove the key at keyPosition and a pointer, and
      shift the rest left, clearing the slots that fall vacant. A leaf loses
      the pointer at keyPosition; an internal node the pointer right of the
      key, except at key 0, where it loses pointer 0. */
  method DeleteAt(n: Node, keyPosition: int) returns (m: Node)
    requires n.WellSized() && 0 <= keyPosition < n.keyNum
    ensures m == Deleted(n, keyPosition)
  {
    var pointerPosition := keyPosition;
    if !n.leaf && keyPosition != 0 {
      pointerPosition := pointerPosition + 1;
    }
    var ks := ShiftLeft(n.keys, keyPosition, n.keyNum);
    ks := ks[n.keyNum - 1 := []];
    var pointerNum := n.keyNum;
    if !n.leaf {
      pointerNum := pointerNum + 1;
    }
    var ps := ShiftLeft(n.pointers, pointerPosition, pointerNum);
    ps := ps[pointerNum - 1 := Nil];
    m := n.(keyNum := n.keyNum - 1, keys := ks, pointers := ps);
    assert ks == SeqRemove(n.keys[..n.keyNum], keyPosition) + [[]] + n.keys[n.keyNum..];
    assert ps == SeqRemove(n.pointers[..pointerNum], pointerPosition) + [Nil] + n.pointers[pointerNum..];
  }

  /** What keys and entries become when deleteAt has shifted the slots. */
  lemma DeletedKeys(n: Node, keyPosition: int)
    requires n.WellSized() && 0 <= keyPosition < n.keyNum
    ensures var m := Deleted(n, keyPosition);
            m.Keys() == SeqRemove(n.Keys(), keyPosition)
            && (n.leaf ==> m.Entries() == SeqRemove(n.Entries(), keyPosition) && m.Next() == n.Next())
  {
    var m := Deleted(n, keyPosition);
    assert m.Keys() == SeqRemove(n.Keys(), keyPosition);
    if n.leaf {
      assert m.Entries() == SeqRemove(n.Entries(), keyPosition);
    }
  }

  /** One shift loop of insertAt: s[j] := s[j-1] for to >= j > from, which
      opens slot from by moving the run s[from..to] one slot up. */
  method ShiftRight<T>(s: seq<T>, from: int, to: int) returns (r: seq<T>)
    requires 0 <= from <= to < |s|
    ensures r == s[..from + 1] + s[from..to] + s[to + 1..]
  {
    r := s;
    var j := to;
    assert r == s[..j + 1] + s[j..to] + s[to + 1..];
    while j > from
      invariant from <= j <= to
      invariant r == s[..j + 1] + s[j..to] + s[to + 1..]
    {
      ShiftRightStep(s, r, j, to);
      r := r[j := r[j - 1]];
      j := j - 1;
    }
  }

  /** One shift loop of deleteAt: s[j] := s[j+1] for from <= j < to-1. */
  method ShiftLeft<T>(s: seq<T>, from: int, to: int) returns (r: seq<T>)
    requires 0 <= from < to <= |s|
    ensures r == SeqRemove(s[..to], from) + s[to - 1..]
  {
    r := s;
    var j := from;
    while j < to - 1
      invariant from <= j <= to - 1 && |r| == |s|
      invariant forall i :: 0 <= i < from ==> r[i] == s[i]
      invariant forall i :: from <= i < j ==> r[i] == s[i + 1]
      invariant forall i :: j <= i < |r| ==> r[i] == s[i]
    {
      r := r[j := r[j + 1]];
      j := j + 1;
    }
    assert r == SeqRemove(s[..to], from) + s[to - 1..];
  }

  /** A leaf after append(key, p): both stored in the first free slot. */
  function Appended(n: Node, key: Bytes, p: Pointer): (m: Node)
    requires n.WellSized() && n.keyNum < |n.keys|
    ensures m.WellSized() && m.keyNum == n.keyNum + 1 && |m.keys| == |n.keys|
    ensures m.leaf == n.leaf && m.parent == n.parent
  {
    n.(keyNum := n.keyNum + 1, keys := n.keys[n.keyNum := key], pointers := n.pointers[n.keyNum := p])
  }

  lemma AppendedKeys(n: Node, key: Bytes, p: Pointer)
    requires n.WellSized() && n.keyNum < |n.keys|
    ensures var m := Appended(n, key, p);
            m.Keys() == n.Keys() + [key] && m.Entries() == n.Entries() + [Entry(key, ValueOf(p))] && m.Next() == n.Next()
  {
    var m := Appended(n, key, p);
    assert m.Keys() == n.Keys() + [key];
    assert m.Entries() == n.Entries() + [Entry(key, ValueOf(p))];
  }

  /** append(key, p): put key and p right after the last entry of a leaf.
      The internal-node branch of the source panics, unimplemented. */
  method Append(n: Node, key: Bytes, p: Pointer) returns (r: Result<Node>)
    requires n.WellSized() && n.keyNum < |n.keys|
    ensures n.leaf <==> r.Success?
    ensures r.Success? ==> r.value == Appended(n, key, p)
    ensures r.Success? ==> r.value.WellSized() && r.value.Keys() == n.Keys() + [key]
    ensures r.Success? ==> r.value.Entries() == n.Entries() + [Entry(key, ValueOf(p))]
    ensures r.Success? ==> r.value.Next() == n.Next()
    ensures r.Failure? ==> r.error == "not implemented"
  {
    if n.leaf {
      var m := n.(keyNum := n.keyNum + 1, keys := n.keys[n.keyNum := key], pointers := n.pointers[n.keyNum := p]);
      AppendedKeys(n, key, p);
      r := Success(m);
    } else {
      r := Failure("not implemented");
    }
  }

  /** The clean-up loops of both splits: nil in the key slots [from, L) and in
      the matching pointer slots (shifted by `shift`, 0 for a leaf and 1 for an
      internal node, whose pointer i+1 follows key i). */
  method ClearFrom(n: Node, from: int, shift: int) returns (m: Node)
    requires n.WellSized() && 0 <= from <= |n.keys| && (shift == 0 || shift == 1)
    ensures m == n.(keys := n.keys[..from] + Fill(|n.keys| - from, []),
                    pointers := n.pointers[..from + shift] + Fill(|n.keys| - from, Nil)
                                + n.pointers[|n.keys| + shift..])
  {
    var L := |n.keys|;
    m := n;
    var i := L - 1;
    while i >= from
      invariant from - 1 <= i <= L - 1
      invariant m == n.(keys := m.keys, pointers := m.pointers)
      invariant |m.keys| == L && |m.pointers| == L + 1
      invariant forall j :: 0 <= j < L ==> m.keys[j] == if j > i then [] else n.keys[j]
      invariant forall j :: 0 <= j <= L ==>
                  m.pointers[j] == if i + shift < j < L + shift then Nil else n.pointers[j]
    {
      m := m.(keys := m.keys[i := []], pointers := m.pointers[i + shift := Nil]);
      i := i - 1;
    }
    assert m.keys == n.keys[..from] + Fill(L - from, []);
    assert m.pointers == n.pointers[..from + shift] + Fill(L - from, Nil) + n.pointers[L + shift..];
  }

  lemma FillSplit<T>(a: nat, b: nat, x: T)
    ensures Fill(a + b, x) == Fill(a, x) + Fill(b, x)
    ensures Fill(a + b, x)[a..] == Fill(b, x) && Fill(a + b, x)[..a] == Fill(a, x)
  {
    assert Fill(a + b, x) == Fill(a, x) + Fill(b, x);
  }

  /** The two leaves a split of the full leaf n produces when k with v
      goes in at insertPos and the first mp entries stay left: with K and P
      the key and value slots after the insertion, the left leaf holds
      K[..mp], P[..mp] and links to rightId, the right leaf holds the rest
      and takes over n's link. Neither has a parent yet. */
  function LeafHalves(n: Node, insertPos: int, k: Bytes, v: Bytes, rightId: NodeId, mp: int): (Node, Node)
    requires n.WellSized() && 1 <= mp <= |n.keys| && 0 <= insertPos <= |n.keys|
  {
    var L := |n.keys|;
    var ks := SeqInsert(n.keys, insertPos, k);
    var ps := SeqInsert(n.pointers[..L], insertPos, Value(v));
    (Node(true, None, ks[..mp] + Fill(L - mp, []), mp, ps[..mp] + Fill(L - mp, Nil) + [Child(rightId)]),
     Node(true, None, ks[mp..] + Fill(mp - 1, []), L + 1 - mp, ps[mp..] + Fill(mp - 1, Nil) + [n.Next()]))
  }

  /** The split leaves hold n's entries with the new one inserted, in
      order, the left one linking to the right one and the right one to n's
      successor. */
  lemma LeafHalvesEntries(n: Node, insertPos: int, k: Bytes, v: Bytes, rightId: NodeId, mp: int)
    requires n.WellSized() && n.keyNum == |n.keys| && 1 <= mp <= |n.keys| && 0 <= insertPos <= |n.keys|
    ensures var left, right := LeafHalves(n, insertPos, k, v, rightId, mp).0, LeafHalves(n, insertPos, k, v, rightId, mp).1;
            && left.WellSized() && right.WellSized() && |left.keys| == |right.keys| == |n.keys|
            && left.keyNum == mp && right.keyNum == |n.keys| + 1 - mp
            && left.Entries() + right.Entries() == SeqInsert(n.Entries(), insertPos, Entry(k, v))
            && left.Next() == Child(rightId) && right.Next() == n.Next()
  {
    var left, right := LeafHalves(n, insertPos, k, v, rightId, mp).0, LeafHalves(n, insertPos, k, v, rightId, mp).1;
    var L := |n.keys|;
    var ks := SeqInsert(n.keys, insertPos, k);
    var ps := SeqInsert(n.pointers[..L], insertPos, Value(v));
    assert left.keys[..mp] == ks[..mp] && left.pointers[..mp] == ps[..mp];
    assert right.keys[..L + 1 - mp] == ks[mp..] && right.pointers[..L + 1 - mp] == ps[mp..];
    EntriesOfInsert(n.keys, n.pointers[..L], insertPos, k, Value(v));
    assert n.keys[..n.keyNum] == n.keys;
    var es := EntriesOf(ks, ps);
    assert es == SeqInsert(n.Entries(), insertPos, Entry(k, v));
    assert left.Entries() == es[..mp];
    assert right.Entries() == es[mp..];
    assert es[..mp] + es[mp..] == es;
  }

  /** The node-level part of putIntoLeafAndSplit on a full leaf n: the right
      half goes to a fresh leaf (which will sit at arena index rightId), n
      keeps the left half, and the new entry goes into the half that
      insertPos falls in; the left half keeps ceil(order-1, 2) entries. */
  method SplitLeaf(n: Node, insertPos: int, k: Bytes, v: Bytes, rightId: NodeId) returns (left: Node, right: Node)
    requires n.leaf && n.WellSized() && |n.keys| >= 2 && n.keyNum == |n.keys| && 0 <= insertPos <= n.keyNum
    ensures (left, right) == LeafHalves(n, insertPos, k, v, rightId, Ceil(|n.keys|, 2))
  {
    var middlePos := Ceil(|n.keys|, 2);
    CeilHalf(|n.keys|);
    if insertPos >= middlePos {
      var l0, r0 := CutLeaf(n, middlePos, rightId);
      right := InsertAt(r0, insertPos - middlePos, k, Value(v));
      left := l0;
      LeafHigh(n, insertPos, k, v, rightId, middlePos, l0, r0, right);
    } else {
      var l0, r0 := CutLeaf(n, middlePos - 1, rightId);
      left := InsertAt(l0, insertPos, k, Value(v));
      right := r0;
      LeafLow(n, insertPos, k, v, rightId, middlePos, l0, left, r0);
    }
  }

  /** A full leaf cut at copyFrom: the left part keeps the slots before
      copyFrom, has no parent and links to rightId; the right part is a leaf
      with the slots from copyFrom on and n's link. */
  function LeafCut(n: Node, copyFrom: int, rightId: NodeId): (halves: (Node, Node))
    requires n.WellSized() && 0 <= copyFrom <= |n.keys|
    ensures halves.0.WellSized() && halves.0.keyNum == copyFrom && |halves.0.keys| == |n.keys|
    ensures halves.1.WellSized() && halves.1.keyNum == |n.keys| - copyFrom && |halves.1.keys| == |n.keys|
  {
    var L := |n.keys|;
    (n.(parent := None, keyNum := copyFrom, keys := n.keys[..copyFrom] + Fill(L - copyFrom, []),
        pointers := n.pointers[..copyFrom] + Fill(L - copyFrom, Nil) + [Child(rightId)]),
     Node(true, None, n.keys[copyFrom..] + Fill(copyFrom, []), L - copyFrom,
          n.pointers[copyFrom..L] + Fill(copyFrom, Nil) + [n.Next()]))
  }

  /** The copying part of SplitLeaf: the keys and values from copyFrom on go
      to a blank leaf that takes over n's next link, and n keeps the rest,
      drops its parent and links to the new leaf. */
  method CutLeaf(n: Node, copyFrom: int, rightId: NodeId) returns (left: Node, right: Node)
    requires n.WellSized() && n.keyNum == |n.keys| && 0 <= copyFrom <= |n.keys|
    ensures (left, right) == LeafCut(n, copyFrom, rightId)
  {
    var L := |n.keys|;
    right := Blank(true, L + 1);
    right := right.(keys := Copy(right.keys, n.keys[copyFrom..]));
    right := right.(pointers := Copy(right.pointers, n.pointers[copyFrom..L]));
    CopyFill(L, n.keys[copyFrom..], []);
    CopyFill(L + 1, n.pointers[copyFrom..L], Nil);
    FillSplit(copyFrom, 1, Nil);
    assert right.pointers == (n.pointers[copyFrom..L] + Fill(copyFrom, Nil)) + [Nil];
    right := SetNext(right, n.Next());
    right := right.(keyNum := L - copyFrom);
    left := n.(parent := None, keyNum := copyFrom);
    left := ClearFrom(left, copyFrom, 0);
    assert left.pointers == (n.pointers[..copyFrom] + Fill(L - copyFrom, Nil)) + [n.pointers[L]];
    left := SetNext(left, Child(rightId));
  }

  /** Go's copy into a blank slice: src, then the rest of the blank. */
  lemma CopyFill<T>(len: nat, src: seq<T>, z: T)
    requires |src| <= len
    ensures Copy(Fill(len, z), src) == src + Fill(len - |src|, z)
  {
    var c := Copy(Fill(len, z), src);
    assert |c| == |src + Fill(len - |src|, z)|;
    forall i | 0 <= i < len ensures c[i] == (src + Fill(len - |src|, z))[i] {
    }
  }

  /** SplitLeaf when k goes into the right half: r0 is the right leaf
      before k is inserted into it. */
  lemma LeafHigh(n: Node, insertPos: int, k: Bytes, v: Bytes, rightId: NodeId, mp: int, left: Node, r0: Node, right: Node)
    requires n.leaf && n.WellSized() && |n.keys| >= 2 && n.keyNum == |n.keys|
    requires 1 <= mp <= insertPos <= n.keyNum
    requires (left, r0) == LeafCut(n, mp, rightId)
    requires right == Inserted(r0, insertPos - mp, k, Value(v))
    ensures (left, right) == LeafHalves(n, insertPos, k, v, rightId, mp)
  {
    var L := |n.keys|;
    SeqInsertCut(n.keys, insertPos, k, mp);
    SeqInsertCut(n.pointers[..L], insertPos, Value(v), mp);
    assert n.pointers[..L][..mp] == n.pointers[..mp];
    assert n.pointers[..L][mp..] == n.pointers[mp..L];
    FillSplit<Bytes>(1, mp - 1, []);
    FillSplit(1, mp - 1, Nil);
    assert r0.keys[..L - mp] == n.keys[mp..];
    assert r0.keys[L - mp + 1..] == Fill(mp - 1, []);
    assert r0.pointers[..L - mp] == n.pointers[mp..L];
    assert r0.pointers[L - mp + 1..] == Fill(mp - 1, Nil) + [n.Next()];
    var ks := SeqInsert(n.keys, insertPos, k);
    var ps := SeqInsert(n.pointers[..L], insertPos, Value(v));
    assert left == Node(true, None, ks[..mp] + Fill(L - mp, []), mp, ps[..mp] + Fill(L - mp, Nil) + [Child(rightId)]);
    assert right == Node(true, None, ks[mp..] + Fill(mp - 1, []), L + 1 - mp, ps[mp..] + Fill(mp - 1, Nil) + [n.Next()]);
  }

  /** SplitLeaf when k goes into the left half: l0 is the left leaf before
      k is inserted into it. */
  lemma LeafLow(n: Node, insertPos: int, k: Bytes, v: Bytes, rightId: NodeId, mp: int, l0: Node, left: Node, right: Node)
    requires n.leaf && n.WellSized() && |n.keys| >= 2 && n.keyNum == |n.keys|
    requires 0 <= insertPos < mp <= |n.keys|
    requires (l0, right) == LeafCut(n, mp - 1, rightId)
    requires left == Inserted(l0, insertPos, k, Value(v))
    ensures (left, right) == LeafHalves(n, insertPos, k, v, rightId, mp)
  {
    var L := |n.keys|;
    SeqInsertCut(n.keys, insertPos, k, mp);
    SeqInsertCut(n.pointers[..L], insertPos, Value(v), mp);
    assert n.pointers[..L][..mp - 1] == n.pointers[..mp - 1];
    assert n.pointers[..L][mp - 1..] == n.pointers[mp - 1..L];
    FillSplit<Bytes>(1, L - mp, []);
    FillSplit(1, L - mp, Nil);
    assert l0.keys[..mp - 1] == n.keys[..mp - 1];
    assert l0.keys[mp..] == Fill(L - mp, []);
    assert l0.pointers[..mp - 1] == n.pointers[..mp - 1];
    assert l0.pointers[mp..] == Fill(L - mp, Nil) + [Child(rightId)];
    var ks := SeqInsert(n.keys, insertPos, k);
    var ps := SeqInsert(n.pointers[..L], insertPos, Value(v));
    assert left == Node(true, None, ks[..mp] + Fill(L - mp, []), mp, ps[..mp] + Fill(L - mp, Nil) + [Child(rightId)]);
    assert right == Node(true, None, ks[mp..] + Fill(mp - 1, []), L + 1 - mp, ps[mp..] + Fill(mp - 1, Nil) + [n.Next()]);
  }

  /** The two nodes and the separator a split of the full internal node n
      produces when separator k with new right child r goes in at insertPos
      and mp keys stay left: with K the keys after the insertion and C the
      pointers with Child(r) inserted after slot insertPos, the left node
      keeps K[..mp] and C[..mp+1], K[mp] moves up, and the right node, with
      no parent yet, holds K[mp+1..] and C[mp+1..]. */
  function InternalHalves(n: Node, insertPos: int, k: Bytes, r: NodeId, mp: int): (Node, Node, Bytes)
    requires n.WellSized() && 1 <= mp <= |n.keys| && 0 <= insertPos <= |n.keys|
  {
    var L := |n.keys|;
    var ks := SeqInsert(n.keys, insertPos, k);
    var cs := SeqInsert(n.pointers, insertPos + 1, Child(r));
    (n.(keyNum := mp, keys := ks[..mp] + Fill(L - mp, []), pointers := cs[..mp + 1] + Fill(L - mp, Nil)),
     Node(false, None, ks[mp + 1..] + Fill(mp, []), L - mp, cs[mp + 1..] + Fill(mp, Nil)),
     ks[mp])
  }

  /** The split nodes' keys around the separator are n's keys with k
      inserted, and their children are n's children with r inserted after
      slot insertPos. */
  lemma InternalHalvesKeys(n: Node, insertPos: int, k: Bytes, r: NodeId, mp: int)
    requires n.WellSized() && n.keyNum == |n.keys| && 1 <= mp <= |n.keys| && 0 <= insertPos <= |n.keys|
    ensures var left, right, middleKey := InternalHalves(n, insertPos, k, r, mp).0, InternalHalves(n, insertPos, k, r, mp).1, InternalHalves(n, insertPos, k, r, mp).2;
            && left.WellSized() && right.WellSized() && |left.keys| == |right.keys| == |n.keys|
            && left.keyNum == mp && right.keyNum == |n.keys| - mp
            && left.Keys() + [middleKey] + right.Keys() == SeqInsert(n.Keys(), insertPos, k)
            && left.Kids() + right.Kids() == SeqInsert(n.Kids(), insertPos + 1, Child(r))
  {
    var left, right, middleKey := InternalHalves(n, insertPos, k, r, mp).0, InternalHalves(n, insertPos, k, r, mp).1, InternalHalves(n, insertPos, k, r, mp).2;
    var L := |n.keys|;
    var ks := SeqInsert(n.keys, insertPos, k);
    var cs := SeqInsert(n.pointers, insertPos + 1, Child(r));
    assert n.keys[..n.keyNum] == n.keys && n.pointers[..n.keyNum + 1] == n.pointers;
    assert left.Keys() == ks[..mp] && right.Keys() == ks[mp + 1..];
    assert ks[..mp] + [ks[mp]] + ks[mp + 1..] == ks;
    assert left.Kids() == cs[..mp + 1] && right.Kids() == cs[mp + 1..];
    assert cs[..mp + 1] + cs[mp + 1..] == cs;
  }

  /** The node-level part of putIntoParentAndSplit on a full internal node n
      whose slot insertPos holds l, when l has split in two around k with r
      the new right half: the right half of n goes to a fresh internal node,
      n keeps the left half with ceil(order-1, 2) keys, and the first key of
      the right half moves up as middleKey. The clean-up of the right half in
      the source is deleteAt(0) of an internal node. */
  method SplitInternal(n: Node, insertPos: int, k: Bytes, l: NodeId, r: NodeId) returns (left: Node, right: Node, middleKey: Bytes)
    requires n.WellSized() && |n.keys| >= 2 && n.keyNum == |n.keys| && 0 <= insertPos <= n.keyNum
    requires n.pointers[insertPos] == Child(l)
    ensures (left, right, middleKey) == InternalHalves(n, insertPos, k, r, Ceil(|n.keys|, 2))
  {
    var middlePos := Ceil(|n.keys|, 2);
    CeilHalf(|n.keys|);
    if insertPos >= middlePos {
      var l0, r0 := CutInternal(n, middlePos);
      var r1 := InsertChild(r0, insertPos - middlePos, k, l, r);
      left := l0;
      middleKey := r1.keys[0];
      right := DeleteAt(r1, 0);
      InternalHigh(n, insertPos, k, l, r, middlePos, l0, r0, r1, right);
    } else {
      var l0, r0 := CutInternal(n, middlePos - 1);
      left := InsertChild(l0, insertPos, k, l, r);
      middleKey := r0.keys[0];
      right := DeleteAt(r0, 0);
      InternalLow(n, insertPos, k, l, r, middlePos, l0, left, r0, right);
    }
  }

  /** A full internal node cut at copyFrom: the left part keeps the keys
      before copyFrom and the pointers up to and including copyFrom; the
      right part is an internal node with the keys and pointers from copyFrom
      on. */
  function InternalCut(n: Node, copyFrom: int): (halves: (Node, Node))
    requires n.WellSized() && 0 <= copyFrom <= |n.keys|
    ensures halves.0.WellSized() && halves.0.keyNum == copyFrom && |halves.0.keys| == |n.keys|
    ensures halves.0.leaf == n.leaf && halves.0.parent == n.parent
    ensures halves.1.WellSized() && halves.1.keyNum == |n.keys| - copyFrom && |halves.1.keys| == |n.keys|
    ensures !halves.1.leaf && halves.1.parent == None
  {
    var L := |n.keys|;
    (n.(keyNum := copyFrom, keys := n.keys[..copyFrom] + Fill(L - copyFrom, []),
        pointers := n.pointers[..copyFrom + 1] + Fill(L - copyFrom, Nil)),
     Node(false, None, n.keys[copyFrom..] + Fill(copyFrom, []), L - copyFrom, n.pointers[copyFrom..] + Fill(copyFrom, Nil)))
  }

  /** The copying part of SplitInternal: the keys from copyFrom on and the
      pointers from copyFrom on go to a blank internal node, and n keeps the
      keys before copyFrom with the pointers up to and including copyFrom. */
  method CutInternal(n: Node, copyFrom: int) returns (left: Node, right: Node)
    requires n.WellSized() && n.keyNum == |n.keys| && 0 <= copyFrom <= |n.keys|
    ensures (left, right) == InternalCut(n, copyFrom)
  {
    var L := |n.keys|;
    right := Blank(false, L + 1);
    right := right.(keys := Copy(right.keys, n.keys[copyFrom..]));
    right := right.(pointers := Copy(right.pointers, n.pointers[copyFrom..]));
    right := right.(keyNum := L - copyFrom);
    FillSplit<Bytes>(L - copyFrom, copyFrom, []);
    FillSplit(L + 1 - copyFrom, copyFrom, Nil);
    assert right.keys == n.keys[copyFrom..] + Fill(copyFrom, []);
    assert right.pointers == n.pointers[copyFrom..] + Fill(copyFrom, Nil);
    left := n.(keyNum := copyFrom);
    left := ClearFrom(left, copyFrom, 1);
    assert n.pointers[L + 1..] == [];
    assert left.pointers == n.pointers[..copyFrom + 1] + Fill(L - copyFrom, Nil);
  }

  /** SplitInternal when k goes into the right half. */
  lemma InternalHigh(n: Node, insertPos: int, k: Bytes, l: NodeId, r: NodeId, mp: int,
                     left: Node, r0: Node, r1: Node, right: Node)
    requires n.WellSized() && n.keyNum == |n.keys| && 1 <= mp <= insertPos <= |n.keys|
    requires n.pointers[insertPos] == Child(l)
    requires (left, r0) == InternalCut(n, mp)
    requires r1 == ChildInserted(r0, insertPos - mp, k, l, r)
    requires right == Deleted(r1, 0)
    ensures (left, right, r1.keys[0]) == InternalHalves(n, insertPos, k, r, mp)
  {
    HighSlots(n.keys, insertPos, k, mp, [], r0.keys, r1.keys, right.keys);
    HighChildren(n.pointers, insertPos, Child(l), Child(r), mp, Nil, r0.pointers, r1.pointers, right.pointers);
  }

  /** The keys of InternalHigh, as sequences: s holds the L keys, z is the
      cleared value. */
  lemma HighSlots<T>(s: seq<T>, i: int, x: T, mp: int, z: T, s0: seq<T>, s1: seq<T>, s2: seq<T>)
    requires 1 <= mp <= i <= |s|
    requires s0 == s[mp..] + Fill(mp, z)
    requires s1 == SeqInsert(s0[..|s| - mp], i - mp, x) + s0[|s| - mp + 1..]
    requires s2 == SeqRemove(s1[..|s| - mp + 1], 0) + [z] + s1[|s| - mp + 1..]
    ensures var t := SeqInsert(s, i, x);
            && s[..mp] + Fill(|s| - mp, z) == t[..mp] + Fill(|s| - mp, z)
            && s1[0] == t[mp] && s2 == t[mp + 1..] + Fill(mp, z)
  {
    var t := SeqInsert(s, i, x);
    var L := |s|;
    assert s[..mp] == t[..mp];
    assert |s2| == L;
    forall j | 0 <= j < L ensures s2[j] == (t[mp + 1..] + Fill(mp, z))[j] {
      if j < L - mp {
        assert s2[j] == s1[j + 1];
        if j + 1 < i - mp {
          assert s1[j + 1] == s0[j + 1] == s[mp + j + 1];
        } else if j + 1 == i - mp {
        } else {
          assert s1[j + 1] == s0[j] == s[mp + j];
        }
      } else if j == L - mp {
      } else {
        assert s2[j] == s1[j] == s0[j] == z;
      }
    }
  }

  /** The pointers of InternalHigh, as sequences: s holds the L+1 pointers,
      x sits at slot i, and y goes in right after it. */
  lemma HighChildren<T>(s: seq<T>, i: int, x: T, y: T, mp: int, z: T, s0: seq<T>, s1: seq<T>, s2: seq<T>)
    requires 1 <= mp <= i < |s| && s[i] == x
    requires s0 == s[mp..] + Fill(mp, z)
    requires var L := |s| - 1;
             s1 == s0[..i - mp] + [x, y] + s0[i - mp + 1..L - mp + 1] + s0[L - mp + 2..]
    requires var L := |s| - 1;
             s2 == SeqRemove(s1[..L - mp + 2], 0) + [z] + s1[L - mp + 2..]
    ensures var t := SeqInsert(s, i + 1, y);
            && s[..mp + 1] == t[..mp + 1]
            && s2 == t[mp + 1..] + Fill(mp, z)
  {
    var t := SeqInsert(s, i + 1, y);
    var L := |s| - 1;
    assert s[..mp + 1] == t[..mp + 1];
    assert |s2| == L + 1;
    forall j | 0 <= j <= L ensures s2[j] == (t[mp + 1..] + Fill(mp, z))[j] {
      if j <= L - mp {
        assert s2[j] == s1[j + 1];
        if j + 1 < i - mp {
          assert s1[j + 1] == s0[j + 1] == s[mp + j + 1];
        } else if j + 1 == i - mp {
          assert s1[j + 1] == x == s[i];
        } else if j + 1 == i - mp + 1 {
        } else {
          assert s1[j + 1] == s0[j] == s[mp + j];
        }
      } else if j == L - mp + 1 {
      } else {
        assert s2[j] == s1[j] == s0[j - 1] == z;
      }
    }
  }

  /** SplitInternal when k goes into the left half. */
  lemma InternalLow(n: Node, insertPos: int, k: Bytes, l: NodeId, r: NodeId, mp: int,
                    l0: Node, left: Node, r0: Node, right: Node)
    requires n.WellSized() && n.keyNum == |n.keys| && 0 <= insertPos < mp <= |n.keys|
    requires n.pointers[insertPos] == Child(l)
    requires (l0, r0) == InternalCut(n, mp - 1)
    requires left == ChildInserted(l0, insertPos, k, l, r)
    requires right == Deleted(r0, 0)
    ensures (left, right, r0.keys[0]) == InternalHalves(n, insertPos, k, r, mp)
  {
    var L := |n.keys|;
    var ks := SeqInsert(n.keys, insertPos, k);
    var cs := SeqInsert(n.pointers, insertPos + 1, Child(r));
    SeqInsertCut(n.keys, insertPos, k, mp);
    FillSplit<Bytes>(1, L - mp, []);
    FillSplit(1, L - mp, Nil);
    assert l0.keys[..mp - 1] == n.keys[..mp - 1];
    assert l0.keys[mp..] == Fill(L - mp, []);
    assert left.keys == ks[..mp] + Fill(L - mp, []);
    assert l0.pointers[mp + 1..] == Fill(L - mp, Nil);
    assert left.pointers == cs[..mp + 1] + Fill(L - mp, Nil);
    assert ks[mp..] == n.keys[mp - 1..];
    assert right.keys == ks[mp + 1..] + Fill(mp, []);
    assert cs[mp + 1..] == n.pointers[mp..];
    assert right.pointers == cs[mp + 1..] + Fill(mp, Nil);
  }
}
