/** A canonical trie is determined by its entries, and so is its root hash. */
module TrieUnique {
  import opened Bytes
  import opened TrieNode

  /** The slot of a branch that key k selects. */
  function Slot(k: Nibbles): int {
    if k == [] then 16 else k[0]
  }

  lemma {:induction false} SomeEntry(n: Node) returns (k: Nibbles)
    requires Canonical(n) && n != Null
    ensures At(n, k) != []
  {
    match n
    case Leaf(p, v) =>
      k := p;
    case Ext(p, c) =>
      var tail := SomeEntry(c.Deref());
      k := p + tail;
      assert k[|p|..] == tail;
    case Branch(cs, v) =>
      var i, j :| 0 <= i < j <= 16 && Used(cs, v, i) && Used(cs, v, j);
      assert CanonicalRef(cs[i]);
      var tail := SomeEntry(cs[i].Deref());
      k := [i] + tail;
      assert k[1..] == tail;
  }

  lemma SlotEntry(n: Node, i: int) returns (k: Nibbles)
    requires Canonical(n) && n.Branch? && 0 <= i <= 16 && Used(n.children, n.value, i)
    ensures At(n, k) != [] && Slot(k) == i
  {
    if i == 16 {
      k := [];
    } else {
      assert CanonicalRef(n.children[i]);
      var tail := SomeEntry(n.children[i].Deref());
      k := [i] + tail;
      assert k[1..] == tail;
    }
  }

  /** A branch holds two entries that part at once. */
  lemma BranchEntries(n: Node) returns (k: Nibbles, l: Nibbles)
    requires Canonical(n) && n.Branch?
    ensures At(n, k) != [] && At(n, l) != [] && Slot(k) != Slot(l)
  {
    var i, j :| 0 <= i < j <= 16 && Used(n.children, n.value, i) && Used(n.children, n.value, j);
    k := SlotEntry(n, i);
    l := SlotEntry(n, j);
  }

  lemma BranchIsNotPair(a: Node, b: Node)
    requires Canonical(a) && Canonical(b) && SameEntries(a, b) && a.Branch?
    ensures b.Branch?
  {
    var k, l := BranchEntries(a);
    assert At(b, k) != [] && At(b, l) != [];
  }

  lemma ExtIsNotLeaf(a: Node, b: Node)
    requires Canonical(a) && Canonical(b) && SameEntries(a, b) && a.Ext?
    ensures b.Ext?
  {
    var c := a.child.Deref();
    var k, l := BranchEntries(c);
    var p := a.path;
    assert (p + k)[|p|..] == k && (p + l)[|p|..] == l;
    assert At(a, p + k) != [] && At(a, p + l) != [];
    assert At(b, p + k) != [] && At(b, p + l) != [];
    if b.Branch? {
      BranchIsNotPair(b, a);
    }
  }

  /** An extension's path is the whole common prefix of its keys. */
  lemma ExtPathPrefix(a: Node, b: Node)
    requires Canonical(a) && Canonical(b) && SameEntries(a, b) && a.Ext? && b.Ext?
    ensures b.path <= a.path
  {
    var p, q := a.path, b.path;
    var k, l := BranchEntries(a.child.Deref());
    assert (p + k)[|p|..] == k && (p + l)[|p|..] == l;
    assert At(b, p + k) != [] && At(b, p + l) != [];
    assert q <= p + k && q <= p + l;
  }

  lemma {:induction false} RefUnique(a: Ref, b: Ref)
    requires CanonicalRef(a) && CanonicalRef(b) && SameEntries(a.Deref(), b.Deref())
    ensures a == b
    decreases a, 0
  {
    Unique(a.Deref(), b.Deref());
  }

  lemma ExtChildEntries(a: Node, b: Node)
    requires a.Ext? && b.Ext? && a.path == b.path && SameEntries(a, b)
    ensures SameEntries(a.child.Deref(), b.child.Deref())
  {
    forall k: Nibbles
      ensures At(a.child.Deref(), k) == At(b.child.Deref(), k)
    {
      assert (a.path + k)[|a.path|..] == k;
      assert At(a, a.path + k) == At(b, a.path + k);
    }
  }

  lemma BranchChildEntries(a: Node, b: Node, i: nat)
    requires a.Branch? && b.Branch? && |a.children| == |b.children| == 16 && SameEntries(a, b) && i < 16
    ensures SameEntries(a.children[i].Deref(), b.children[i].Deref())
  {
    forall k: Nibbles
      ensures At(a.children[i].Deref(), k) == At(b.children[i].Deref(), k)
    {
      assert ([i] + k)[1..] == k;
      assert At(a, [i] + k) == At(b, [i] + k);
    }
  }

  /** Two canonical tries with the same entries are the same trie. */
  lemma {:induction false} Unique(a: Node, b: Node)
    requires Canonical(a) && Canonical(b) && SameEntries(a, b)
    ensures a == b
    decreases a, 1
  {
    match a
    case Null =>
      if b != Null {
        var _ := SomeEntry(b);
      }
    case Leaf(p, v) =>
      assert At(b, p) == v;
      if b.Ext? {
        ExtIsNotLeaf(b, a);
      } else if b.Branch? {
        BranchIsNotPair(b, a);
      } else {
        assert b.Leaf?;
      }
    case Ext(p, c) =>
      ExtIsNotLeaf(a, b);
      ExtPathPrefix(a, b);
      ExtPathPrefix(b, a);
      ExtChildEntries(a, b);
      RefUnique(c, b.child);
    case Branch(cs, v) =>
      BranchIsNotPair(a, b);
      assert At(a, []) == At(b, []);
      forall i | 0 <= i < 16
        ensures cs[i] == b.children[i]
      {
        assert CanonicalRef(cs[i]) && CanonicalRef(b.children[i]);
        BranchChildEntries(a, b, i);
        RefUnique(cs[i], b.children[i]);
      }
  }
}
