/** What the node rewrites of removal do to the entries: merging and grafting. */
module TrieRemoval {
  import opened Bytes
  import opened TrieNode
  import opened TrieUnique
  import opened TrieSteps
  import opened TrieStray

  /** How `deleteAt` goes wrong: it throws, reads a nibble past the end of the key or never returns; or it takes a
      value for the hash of a node, and writes what comes of that. */
  datatype Fault = Throw | Mislead

  /** The key goes on below a leaf, and the leaf's value is followed as if it were a hash. This is harmless only
      where nothing is found in the end. */
  ghost predicate LeafFault(v: ByteString, k: Nibbles, f: Finder, w: Fault) {
    match w
    case Throw => Follow(v, k, f).Stops?
    case Mislead => Follow(v, k, f).Writes?
  }

  /** The last slot left in a branch is its value, and that is tested for leading to a pair: this throws when it
      is too long for a hash. */
  ghost predicate LastFault(v: ByteString, f: Finder, w: Fault) {
    match w
    case Throw => |v| > 32
    case Mislead => TakenForPair(v, f)
  }

  ghost predicate Faulty(n: Node, k: Nibbles, f: Finder, w: Fault) {
    match n
    case Null => false
    case Leaf(p, v) => p < k && LeafFault(v, k[|p|..], f, w)
    case Ext(p, c) => p <= k && Faulty(c.Deref(), k[|p|..], f, w)
    case Branch(cs, v) =>
      if k == [] then w.Throw? && v == []
      else k[0] < |cs| && (Faulty(cs[k[0]].Deref(), k[1..], f, w) || (LeavesValue(cs, v, k) && LastFault(v, f, w)))
  }

  /** Removing k empties its slot, and only the value is left. */
  predicate LeavesValue(cs: seq<Ref>, v: ByteString, k: Nibbles)
    requires k != [] && k[0] < |cs|
  {
    var c := cs[k[0]].Deref();
    && c.Leaf? && c.path == k[1..]
    && v != []
    && forall j :: 0 <= j < |cs| && j != k[0] ==> cs[j].IsEmpty()
  }

  lemma GraftedShape(p: Nibbles, c: Ref)
    requires Pair(c.Deref()) && Canonical(c.Deref())
    ensures Canonical(Grafted(p, c.Deref())) && SameEntries(Ext(p, c), Grafted(p, c.Deref()))
    ensures forall x :: Occurs(Grafted(p, c.Deref()), x) == Occurs(c.Deref(), x)
  {
    var n := c.Deref();
    var g := Grafted(p, n);
    assert g.path[..|p|] == p && g.path[|p|..] == n.path;
    assert Tail(g, |p|) == n;
    CleveEntries(g, |p|, c);
  }

  /** `merge` on a child slot. */
  lemma MergeSlotEntries(cs: seq<Ref>, v: ByteString, u: nibble)
    requires |cs| == 16 && OnlyUsed(cs, v, u)
    ensures SameEntries(Branch(cs, v), Ext([u], cs[u]))
    ensures forall x :: Occurs(Branch(cs, v), x) == RefOccurs(cs[u], x)
  {
    assert !Used(cs, v, 16);
    forall k: Nibbles
      ensures At(Branch(cs, v), k) == At(Ext([u], cs[u]), k)
    {
      if k != [] && k[0] != u {
        assert !Used(cs, v, k[0]);
      }
    }
    forall i | 0 <= i < 16
      ensures cs[i] == NoChildren()[u := cs[u]][i]
    {
      assert i != u ==> !Used(cs, v, i);
    }
    assert cs == NoChildren()[u := cs[u]];
    forall x
      ensures AllOccurs(cs, x) == RefOccurs(cs[u], x)
    {
      OneSlotOccurs(u, cs[u], x);
    }
  }

  /** `merge` on the value slot. */
  lemma MergeValueEntries(cs: seq<Ref>, v: ByteString)
    requires |cs| == 16 && OnlyUsed(cs, v, 16)
    ensures SameEntries(Branch(cs, v), Leaf([], v))
    ensures forall x :: Occurs(Branch(cs, v), x) == 0
  {
    forall k: Nibbles
      ensures At(Branch(cs, v), k) == At(Leaf([], v), k)
    {
      if k != [] {
        assert !Used(cs, v, k[0]);
      }
    }
    forall i | 0 <= i < 16
      ensures cs[i] == EMPTY_REF
    {
      assert !Used(cs, v, i);
    }
    forall x
      ensures AllOccurs(cs, x) == 0
    {
      AllOccursEmpty(cs, x);
    }
  }

  /** What removal makes of a, under a key it holds. */
  ghost predicate Deleted(a: Node, b: Node, k: Nibbles) {
    At(a, k) != [] && Canonical(b) && Updated(a, b, k, []) && (b == Null <==> a.Leaf?)
  }

  lemma DeletedVia(a: Node, mid: Node, b: Node, k: Nibbles)
    requires At(a, k) != [] && Updated(a, mid, k, []) && SameEntries(mid, b)
    requires Canonical(b) && (b == Null <==> a.Leaf?)
    ensures Deleted(a, b, k)
  {
    forall x
      ensures At(b, x) == if x == k then [] else At(a, x)
    {
      assert At(mid, x) == At(b, x);
    }
  }

  lemma LeafDeleted(n: Node)
    requires n.Leaf? && Canonical(n)
    ensures Deleted(n, Null, n.path)
  {
  }

  /** Deleting below an extension. */
  lemma ExtDeleted(n: Node, r: Ref, k: Nibbles)
    requires n.Ext? && n.path <= k && Updated(n.child.Deref(), r.Deref(), k[|n.path|..], [])
    ensures Updated(n, Ext(n.path, r), k, [])
  {
    ExtUpdated(n.path, n.child, r, k, []);
  }

  ghost predicate SomeUsed(n: Node)
    requires n.Branch?
  {
    exists j :: 0 <= j <= 16 && Used(n.children, n.value, j)
  }

  /** A branch without its value still uses a slot. */
  lemma ValueDropped(n: Node)
    requires n.Branch? && Canonical(n)
    ensures SomeUsed(Branch(n.children, [])) && Updated(n, Branch(n.children, []), [], [])
    ensures !OnlyUsed(n.children, [], 16)
  {
    var i, j :| 0 <= i < j <= 16 && Used(n.children, n.value, i) && Used(n.children, n.value, j);
    assert Used(n.children, [], i);
  }

  /** A branch whose child k was rewritten still uses a slot; it is only the value exactly when the
      child was a leaf and the others are empty. */
  lemma ChildDropped(n: Node, k: Nibbles, r: Ref)
    requires n.Branch? && Canonical(n) && k != []
    requires CanonicalRef(r) && Deleted(n.children[k[0]].Deref(), r.Deref(), k[1..])
    ensures var mid := Branch(n.children[k[0] := r], n.value);
            && SomeUsed(mid) && Updated(n, mid, k, [])
            && (OnlyUsed(mid.children, mid.value, 16) <==> LeavesValue(n.children, n.value, k))
            && (LeavesValue(n.children, n.value, k) ==> r.Deref() == Null)
  {
    BranchUpdated(n.children, n.value, r, k, []);
    var i, j :| 0 <= i < j <= 16 && Used(n.children, n.value, i) && Used(n.children, n.value, j);
    var ds := n.children[k[0] := r];
    assert i != k[0] ==> Used(ds, n.value, i);
    assert j != k[0] ==> Used(ds, n.value, j);
    ValueLeft(n.children, n.value, k, r);
  }

  lemma ValueLeft(cs: seq<Ref>, v: ByteString, k: Nibbles, r: Ref)
    requires |cs| == 16 && k != [] && CanonicalRef(r)
    requires r.Deref() == Null <==> cs[k[0]].Deref().Leaf?
    requires cs[k[0]].Deref().Leaf? ==> cs[k[0]].Deref().path == k[1..]
    ensures OnlyUsed(cs[k[0] := r], v, 16) <==> LeavesValue(cs, v, k)
  {
    var ds := cs[k[0] := r];
    assert forall j :: 0 <= j < 16 && j != k[0] ==> cs[j] == ds[j];
    if OnlyUsed(ds, v, 16) {
      forall j | 0 <= j < 16
        ensures ds[j].IsEmpty()
      {
        assert !Used(ds, v, j);
      }
      assert ds[k[0]].IsEmpty();
    }
  }

  /** Removal below a branch goes wrong when it does in the child, or when the child is the entry that keeps the
      branch's value company. */
  lemma FaultyBranch(n: Node, k: Nibbles, f: Finder, w: Fault)
    requires n.Branch? && Canonical(n) && k != []
    ensures var c := n.children[k[0]].Deref();
            && (Faulty(n, k, f, w) <==> Faulty(c, k[1..], f, w) || (LeavesValue(n.children, n.value, k) && LastFault(n.value, f, w)))
            && (LeavesValue(n.children, n.value, k) ==> At(n, k) != [] && !Faulty(c, k[1..], f, w))
            && At(n, k) == At(c, k[1..])
  {
    hide LastFault; hide LeafFault;
    var c := n.children[k[0]];
    assert CanonicalRef(c);
    assert Canonical(c.Deref());
    assert At(n, k) == At(c.Deref(), k[1..]);
  }

  ghost predicate KeysOfLength(n: Node, len: int) {
    forall x :: At(n, x) != [] ==> |x| == len
  }

  lemma ExtLengths(n: Node, len: int)
    requires n.Ext? && KeysOfLength(n, len)
    ensures KeysOfLength(n.child.Deref(), len - |n.path|)
  {
    forall x | At(n.child.Deref(), x) != []
      ensures |x| == len - |n.path|
    {
      assert (n.path + x)[|n.path|..] == x;
      assert At(n, n.path + x) != [];
    }
  }

  lemma BranchLengths(n: Node, i: nibble, len: int)
    requires n.Branch? && i < |n.children| && KeysOfLength(n, len)
    ensures KeysOfLength(n.children[i].Deref(), len - 1)
  {
    forall x | At(n.children[i].Deref(), x) != []
      ensures |x| == len - 1
    {
      assert ([i] + x)[1..] == x;
      assert At(n, [i] + x) != [];
    }
  }

  /** Removal never goes wrong where all keys have one length. */
  lemma {:induction false} NeverFaulty(n: Node, k: Nibbles, f: Finder, w: Fault)
    requires Canonical(n) && KeysOfLength(n, |k|)
    ensures !Faulty(n, k, f, w)
  {
    hide Size; hide TwoUsed; hide Used; hide LeafFault; hide LastFault;
    match n
    case Null =>
    case Leaf(p, v) =>
      assert At(n, p) != [];
    case Ext(p, c) =>
      if p <= k {
        ExtLengths(n, |k|);
        hide KeysOfLength;
        NeverFaulty(c.Deref(), k[|p|..], f, w);
      }
    case Branch(cs, v) =>
      NeverFaultyBranch(n, k, f, w);
      if k != [] {
        BranchLengths(n, k[0], |k|);
        hide KeysOfLength;
        FaultyBranch(n, k, f, w);
        NeverFaulty(cs[k[0]].Deref(), k[1..], f, w);
      }
  }

  lemma NeverFaultyBranch(n: Node, k: Nibbles, f: Finder, w: Fault)
    requires Canonical(n) && n.Branch? && KeysOfLength(n, |k|)
    ensures k == [] ==> !Faulty(n, k, f, w)
    ensures k != [] ==> !LeavesValue(n.children, n.value, k) && CanonicalRef(n.children[k[0]])
  {
    hide Size; hide TwoUsed; hide Used; hide LeafFault; hide LastFault;
    if k == [] {
      var l, m := BranchEntries(n);
    } else {
      assert At(n, []) == n.value;
    }
  }
}
