/** What the node rewrites of insertion do to the entries: cleaving, branching and descending. */
module TrieSteps {
  import opened Bytes
  import opened TrieNode
  import opened TrieUnique

  predicate Pair(n: Node) {
    n.Leaf? || n.Ext?
  }

  /** The pair with s nibbles cut off its path. */
  function Tail(n: Node, s: nat): Node
    requires Pair(n) && s <= |n.path|
  {
    if n.Leaf? then Leaf(n.path[s..], n.value) else Ext(n.path[s..], n.child)
  }

  lemma TailCanonical(n: Node, s: nat)
    requires Pair(n) && s <= |n.path| && Canonical(n) && (n.Ext? ==> s < |n.path|)
    ensures Canonical(Tail(n, s)) && forall x :: Occurs(Tail(n, s), x) == Occurs(n, x)
  {
  }

  /** Inserting under k must part from this pair at its first nibble. */
  predicate Parts(n: Node, k: Nibbles) {
    Pair(n) && Shared(k, n.path) == 0 && (n.Leaf? ==> n.path != k)
  }

  /** The nodes `cleve` and `branch` hand to the next step. They are never stored, and no canonical
      trie contains one: an extension over a pair, or a branch with fewer than two slots in use. */
  ghost predicate Provisional(n: Node) {
    (n.Ext? && !n.child.Deref().Branch?) || (n.Branch? && !TwoUsed(n.children, n.value))
  }

  /** The nodes that insertion meets: canonical ones, the extension `cleve` leaves for a pair that is
      about to branch, and the one-slot node `branch` leaves for a key that takes another slot. */
  ghost predicate Mergeable(n: Node, k: Nibbles) {
    match n
    case Null => true
    case Leaf(p, v) => v != []
    case Ext(p, c) => p != [] && CanonicalRef(c) && (c.Deref().Branch? || (p <= k && Parts(c.Deref(), k[|p|..])))
    case Branch(cs, v) =>
      && |cs| == 16
      && (forall i :: 0 <= i < 16 ==> CanonicalRef(cs[i]))
      && (exists i :: 0 <= i <= 16 && i != Slot(k) && Used(cs, v, i))
  }

  /** Insertion replaces this pair before it can go on. */
  predicate Rewrites(n: Node, k: Nibbles) {
    Pair(n) && !(n.Leaf? && n.path == k) && !(n.Ext? && n.path <= k)
  }

  /** What insertion makes of a: canonical, with v at k, and a branch where the trie needs one. */
  ghost predicate Merged(a: Node, b: Node, k: Nibbles, v: ByteString) {
    Canonical(b) && b != Null && Updated(a, b, k, v) && (a.Branch? || Parts(a, k) ==> b.Branch?)
  }

  lemma MergedVia(a: Node, mid: Node, b: Node, k: Nibbles, v: ByteString)
    requires SameEntries(a, mid) && Merged(mid, b, k, v)
    requires a.Branch? || Parts(a, k) ==> mid.Branch?
    ensures Merged(a, b, k, v)
  {
    forall x
      ensures At(b, x) == if x == k then v else At(a, x)
    {
      assert At(a, x) == At(mid, x);
    }
  }

  lemma CanonicalMergeable(n: Node, k: Nibbles)
    requires Canonical(n)
    ensures Mergeable(n, k)
  {
  }

  /** Sixteen empty slots. */
  function NoChildren(): (cs: seq<Ref>)
    ensures |cs| == 16 && forall i :: 0 <= i < 16 ==> cs[i] == EMPTY_REF
  {
    seq(16, _ => EMPTY_REF)
  }

  /** `cleve`: the head of the path over the tail. */
  lemma CleveEntries(n: Node, s: nat, c: Ref)
    requires Pair(n) && s <= |n.path| && c.Deref() == Tail(n, s)
    ensures SameEntries(n, Ext(n.path[..s], c))
  {
    var p := n.path;
    forall x: Nibbles
      ensures At(n, x) == At(Ext(p[..s], c), x)
    {
      assert p == p[..s] + p[s..];
      if p[..s] <= x {
        assert x == p[..s] + x[s..];
        assert p <= x <==> p[s..] <= x[s..];
        if p <= x {
          assert x[s..][|p| - s..] == x[|p|..];
        }
      }
    }
  }

  /** `branch` on an empty leaf path: the value moves to slot 16. */
  lemma BranchValueEntries(v: ByteString)
    ensures SameEntries(Leaf([], v), Branch(NoChildren(), v))
  {
  }

  /** `branch` on a non-empty path: everything moves under its first nibble. */
  lemma BranchSlotEntries(n: Node, c: Ref)
    requires Pair(n) && |n.path| > 0
    requires SameEntries(c.Deref(), Tail(n, 1))
    ensures SameEntries(n, Branch(NoChildren()[n.path[0] := c], []))
  {
    var p := n.path;
    var b := Branch(NoChildren()[p[0] := c], []);
    forall x: Nibbles
      ensures At(n, x) == At(b, x)
    {
      if x != [] && x[0] == p[0] {
        assert x == [x[0]] + x[1..] && p == [p[0]] + p[1..];
        assert At(c.Deref(), x[1..]) == At(Tail(n, 1), x[1..]);
        assert p <= x <==> p[1..] <= x[1..];
        if p <= x {
          assert x[1..][|p| - 1..] == x[|p|..];
        }
      }
    }
  }

  /** `branch` leaves a shorter pair in the slot, rather than the child itself. */
  predicate MovesTail(n: Node)
    requires Pair(n)
  {
    n.path != [] && (n.Leaf? || |n.path| > 1)
  }

  /** The one-slot node `branch` makes of a pair. */
  function Branched(n: Node): Node
    requires Pair(n) && (n.Ext? ==> n.path != [])
  {
    if n.path == [] then Branch(NoChildren(), n.value)
    else
      var c := if n.Leaf? || |n.path| > 1 then Seal(Tail(n, 1)) else n.child;
      Branch(NoChildren()[n.path[0] := c], [])
  }

  lemma BranchedEntries(n: Node)
    requires Pair(n) && Canonical(n)
    ensures SameEntries(n, Branched(n))
  {
    if n.path == [] {
      BranchValueEntries(n.value);
    } else {
      if n.Ext? && |n.path| == 1 {
        EmptyExtEntries(n.child);
        BranchSlotEntries(n, n.child);
      } else {
        BranchSlotEntries(n, Seal(Tail(n, 1)));
      }
    }
  }

  /** Only one slot of it is used, so no canonical trie contains it; a key that parts from the pair
      uses a second slot. */
  lemma BranchedShape(n: Node, k: Nibbles)
    requires Pair(n) && Canonical(n) && Parts(n, k)
    ensures Mergeable(Branched(n), k) && Provisional(Branched(n))
  {
    var b := Branched(n);
    if n.path == [] {
      assert Used(b.children, b.value, 16);
    } else {
      if !(n.Ext? && |n.path| == 1) {
        TailCanonical(n, 1);
      }
      assert Used(b.children, b.value, n.path[0]);
      assert Slot(k) != n.path[0];
    }
  }

  lemma OneSlotOccurs(i: nat, c: Ref, x: Hash)
    requires i < 16
    ensures AllOccurs(NoChildren()[i := c], x) == RefOccurs(c, x)
  {
    AllOccursEmpty(NoChildren(), x);
    AllOccursUpdate(NoChildren(), i, c, x);
  }

  lemma BranchedOccurs(n: Node, x: Hash)
    requires Pair(n) && Canonical(n)
    ensures Occurs(Branched(n), x) == (if MovesTail(n) then Self(Tail(n, 1), x) else 0) + Occurs(n, x)
  {
    if n.path == [] {
      AllOccursEmpty(NoChildren(), x);
    } else {
      var c := Branched(n).children[n.path[0]];
      OneSlotOccurs(n.path[0], c, x);
      if MovesTail(n) {
        TailCanonical(n, 1);
        SealCanonical(Tail(n, 1));
        SealOccurs(c);
      }
    }
  }

  /** The extension `cleve` makes of a pair is ready for a key that leaves the path after s nibbles. */
  lemma ClevedShape(n: Node, k: Nibbles)
    requires Rewrites(n, k) && Canonical(n) && Shared(k, n.path) > 0
    ensures var s := Shared(k, n.path);
            && (n.Ext? ==> s < |n.path|)
            && n.path[..s] <= k
            && Mergeable(Ext(n.path[..s], Seal(Tail(n, s))), k)
            && Provisional(Ext(n.path[..s], Seal(Tail(n, s))))
  {
    hide Size; hide Used; hide TwoUsed;
    var s := Shared(k, n.path);
    SharedIsPrefix(k, n.path);
    TailCanonical(n, s);
    SealCanonical(Tail(n, s));
    assert n.path[..s] == k[..s];
    var q, l := n.path[s..], k[s..];
    assert s < |n.path| && s < |k| ==> q[0] != l[0];
    assert Shared(l, q) == 0;
    assert n.path == n.path[..s] + q && k == k[..s] + l;
  }

  /** `place` on a branch: only the empty key changes. */
  lemma PlaceBranch(n: Node, v: ByteString)
    requires n.Branch? && Mergeable(n, []) && v != []
    ensures Canonical(Branch(n.children, v)) && Updated(n, Branch(n.children, v), [], v)
  {
    var i :| 0 <= i < 16 && Used(n.children, n.value, i);
    assert Used(n.children, v, i) && Used(n.children, v, 16);
  }

  /** An extension without a path is transparent. */
  lemma EmptyExtEntries(c: Ref)
    ensures SameEntries(Ext([], c), c.Deref())
  {
    forall x: Nibbles
      ensures At(Ext([], c), x) == At(c.Deref(), x)
    {
      assert x[0..] == x;
    }
  }

  /** Updating below an extension updates the extension. */
  lemma ExtUpdated(p: Nibbles, c: Ref, d: Ref, k: Nibbles, v: ByteString)
    requires p <= k && Updated(c.Deref(), d.Deref(), k[|p|..], v)
    ensures Updated(Ext(p, c), Ext(p, d), k, v)
  {
    forall x: Nibbles
      ensures At(Ext(p, d), x) == if x == k then v else At(Ext(p, c), x)
    {
      if p <= x {
        assert x == p + x[|p|..] && k == p + k[|p|..];
      }
    }
  }

  /** Filling the slot of k, in a branch that uses another one, leaves it canonical. */
  lemma BranchRefilled(cs: seq<Ref>, v: ByteString, k: Nibbles, c: Ref)
    requires k != [] && Mergeable(Branch(cs, v), k) && CanonicalRef(c) && !c.IsEmpty()
    ensures Canonical(Branch(cs[k[0] := c], v))
  {
    var i :| 0 <= i <= 16 && i != k[0] && Used(cs, v, i);
    var ds := cs[k[0] := c];
    assert Used(ds, v, i) && Used(ds, v, k[0]);
  }

  /** Updating one child updates the branch. */
  lemma BranchUpdated(cs: seq<Ref>, val: ByteString, c: Ref, k: Nibbles, v: ByteString)
    requires |cs| == 16 && k != [] && Updated(cs[k[0]].Deref(), c.Deref(), k[1..], v)
    ensures Updated(Branch(cs, val), Branch(cs[k[0] := c], val), k, v)
  {
    forall x: Nibbles
      ensures At(Branch(cs[k[0] := c], val), x) == if x == k then v else At(Branch(cs, val), x)
    {
      if x != [] && x[0] == k[0] {
        assert x == [x[0]] + x[1..] && k == [k[0]] + k[1..];
      }
    }
  }

  /** Merging below an extension merges the extension. */
  lemma ExtMerged(n: Node, r: Ref, k: Nibbles, v: ByteString)
    requires n.Ext? && Mergeable(n, k) && n.path <= k
    requires CanonicalRef(r) && Merged(n.child.Deref(), r.Deref(), k[|n.path|..], v)
    ensures Merged(n, Ext(n.path, r), k, v)
  {
    ExtUpdated(n.path, n.child, r, k, v);
    SharedIsPrefix(k, n.path);
  }

  /** Merging a child merges the branch. */
  lemma BranchMerged(n: Node, r: Ref, k: Nibbles, v: ByteString)
    requires n.Branch? && Mergeable(n, k) && k != []
    requires CanonicalRef(r) && Merged(n.children[k[0]].Deref(), r.Deref(), k[1..], v)
    ensures Merged(n, Branch(n.children[k[0] := r], n.value), k, v)
  {
    BranchUpdated(n.children, n.value, r, k, v);
    BranchRefilled(n.children, n.value, k, r);
  }
}
