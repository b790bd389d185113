/** What a removal that takes a value for a hash does to the entries. */
module TrieAstray {
  import opened Options
  import opened Bytes
  import opened TrieNode
  import opened TrieSteps
  import opened TrieStray
  import opened TrieRemoval
  import opened TrieBlocked

  /** All that is stored at and below e has given way to what put holds. */
  ghost predicate Displaced(n: Node, m: Node, e: Nibbles, put: Node) {
    forall x :: At(m, x) == if e <= x then At(put, x[|e|..]) else At(n, x)
  }

  /** What comes in the place of a value that was followed with the rest k of the key: what is left of the node it
      led to, or an empty value if nothing is. */
  ghost function Replacement(v: ByteString, k: Nibbles, f: Finder): Option<Node> {
    var fate := Follow(v, k, f);
    if fate.Writes? && fate.node.Some? then Refitted(Leaf([], v), fate.node.value, f) else None
  }

  /** What comes in the place of the value at e. */
  ghost function PutAt(n: Node, k: Nibbles, f: Finder, e: Nibbles): Option<Node>
    requires e <= k
  {
    if At(n, k) != [] then Taken(At(n, e), f) else Replacement(At(n, e), k[|e|..], f)
  }

  /** The store finds every node of the trie. */
  ghost predicate AllKnown(n: Node, f: Finder) {
    forall h :: Occurs(n, h) > 0 ==> h in f.known
  }

  lemma ExtKnown(n: Node, f: Finder)
    requires n.Ext? && AllKnown(n, f)
    ensures AllKnown(n.child.Deref(), f) && !Missing(n.child, f)
  {
    var c := n.child;
    assert c.Hashed? ==> RefOccurs(c, c.hash) > 0 && Occurs(n, c.hash) > 0;
    forall h | Occurs(c.Deref(), h) > 0
      ensures h in f.known
    {
      assert Occurs(n, h) > 0;
    }
  }

  lemma BranchKnown(n: Node, i: nat, f: Finder)
    requires n.Branch? && i < |n.children| && AllKnown(n, f)
    ensures AllKnown(n.children[i].Deref(), f) && !Missing(n.children[i], f)
  {
    var c := n.children[i];
    forall h | RefOccurs(c, h) > 0
      ensures h in f.known
    {
      AllOccursUpdate(n.children, i, c, h);
      assert n.children[i := c] == n.children;
      OneOfAll(n.children, i, h);
    }
    assert c.Hashed? ==> RefOccurs(c, c.hash) > 0;
    assert forall h :: Occurs(c.Deref(), h) > 0 ==> RefOccurs(c, h) > 0;
  }

  lemma {:induction false} OneOfAll(cs: seq<Ref>, i: nat, h: Hash)
    requires i < |cs| && RefOccurs(cs[i], h) > 0
    ensures AllOccurs(cs, h) > 0
  {
    if i > 0 {
      OneOfAll(cs[1..], i - 1, h);
    }
  }

  lemma GraftedAt(p: Nibbles, n: Node, x: Nibbles)
    requires Pair(n)
    ensures At(Grafted(p, n), x) == if p <= x then At(n, x[|p|..]) else []
  {
    var g := Grafted(p, n);
    assert g.path[|p|..] == n.path && g.path[..|p|] == p;
    if p <= x {
      var y := x[|p|..];
      assert x == p + y;
      assert g.path <= x <==> n.path <= y;
      if n.path <= y {
        assert x[|g.path|..] == y[|n.path|..];
      }
      assert g.path == x <==> n.path == y;
    } else {
      assert !(g.path <= x);
    }
  }

  /** Whatever comes below the path of a leaf. */
  lemma LeafRefitted(n: Node, b: Node, f: Finder) returns (put: Option<Node>)
    requires n.Leaf?
    ensures put == Refitted(Leaf([], n.value), b, f)
    ensures Refitted(n, b, f).Some? <==> put.Some?
    ensures put.Some? ==> Pair(put.value) && Refitted(n, b, f) == Some(Grafted(n.path, put.value))
  {
    put := Refitted(Leaf([], n.value), b, f);
    if put.Some? {
      var q := if Pair(b) then b else if TakenForPair([], f) then Taken([], f).value else Leaf([], []);
      assert [] + q.path == q.path;
      assert n.path + [] == n.path;
    }
  }

  lemma LeafDisplaced(n: Node, k: Nibbles, f: Finder, m: Node)
    requires n.Leaf? && Canonical(n) && Faulty(n, k, f, Mislead) && Stray(n, k, f, {}) == Writes(Some(m))
    ensures BlockedAt(n, k, f, Mislead, n.path) && PutAt(n, k, f, n.path).Some?
    ensures Displaced(n, m, n.path, PutAt(n, k, f, n.path).value)
  {
    var p := n.path;
    var fate := Follow(n.value, k[|p|..], f);
    assert StrayPast(n, k[|p|..], f, {}) == fate;
    assert EndsAbove(n, k, p) && At(n, p) == n.value && At(n, k) == [];
    hide Stray; hide StrayPast; hide Follow;
    var put := LeafRefitted(n, fate.node.value, f);
    forall x: Nibbles
      ensures At(m, x) == if p <= x then At(put.value, x[|p|..]) else At(n, x)
    {
      GraftedAt(p, put.value, x);
    }
  }

  lemma PrefixUnder(p: Nibbles, e: Nibbles, x: Nibbles)
    ensures p + e <= x <==> p <= x && e <= x[|p|..]
    ensures p + e <= x ==> x[|p + e|..] == x[|p|..][|e|..]
    ensures p <= x ==> p + x[|p|..] == x
  {
    if p + e <= x {
      assert p == (p + e)[..|p|] == x[..|p|];
      assert e == (p + e)[|p|..] == x[|p|..|p + e|];
    }
    if p <= x && e <= x[|p|..] {
      assert x == p + x[|p|..];
    }
  }

  lemma DisplacedUnder(n: Node, p: Nibbles, c: Node, m: Node, d: Node, e: Nibbles, put: Node)
    requires Under(n, p, c) && Under(m, p, d) && (forall x :: !(p <= x) ==> At(m, x) == At(n, x))
    requires Displaced(c, d, e, put)
    ensures Displaced(n, m, p + e, put)
  {
    hide At;
    forall x: Nibbles
      ensures At(m, x) == if p + e <= x then At(put, x[|p + e|..]) else At(n, x)
    {
      PrefixUnder(p, e, x);
      if p <= x {
        var y := x[|p|..];
        assert At(m, p + y) == At(d, y) && At(n, p + y) == At(c, y);
      }
    }
  }

  lemma PutUnder(n: Node, p: Nibbles, c: Node, k: Nibbles, f: Finder, e: Nibbles)
    requires Under(n, p, c) && e <= k
    ensures PutAt(n, p + k, f, p + e) == PutAt(c, k, f, e)
  {
    assert (p + k)[|p + e|..] == k[|e|..];
    assert At(n, p + k) == At(c, k) && At(n, p + e) == At(c, e);
  }

  lemma ExtRefitted(n: Node, b: Node, f: Finder)
    requires n.Ext? && b != Null
    ensures Refitted(n, b, f).Some? && Under(Refitted(n, b, f).value, n.path, b)
    ensures forall x :: !(n.path <= x) ==> At(Refitted(n, b, f).value, x) == []
  {
    var m := Refitted(n, b, f).value;
    if Pair(b) {
      forall x: Nibbles
        ensures At(m, n.path + x) == At(b, x)
      {
        GraftedAt(n.path, b, n.path + x);
        assert (n.path + x)[|n.path|..] == x;
      }
      forall x: Nibbles | !(n.path <= x)
        ensures At(m, x) == []
      {
        GraftedAt(n.path, b, x);
      }
    } else {
      ExtUnder(m);
    }
  }

  /** A branch with something written by mistake in a slot that was in use stays a branch. */
  lemma SlotReplaced(n: Node, i: nibble, b: Node, f: Finder)
    requires n.Branch? && Canonical(n) && !n.children[i].IsEmpty() && b != Null
    ensures Settled(n.children[i := Seal(b)], n.value, i, f) == Writes(Some(Branch(n.children[i := Seal(b)], n.value)))
  {
    var cs := n.children[i := Seal(b)];
    var u, w :| 0 <= u < w <= 16 && Used(n.children, n.value, u) && Used(n.children, n.value, w);
    assert Used(cs, n.value, u) && Used(cs, n.value, w);
  }

  lemma BranchReplaced(n: Node, i: nibble, r: Ref, m: Node)
    requires n.Branch? && |n.children| == 16 && m == Branch(n.children[i := r], n.value)
    ensures Under(m, [i], r.Deref()) && forall x :: !([i] <= x) ==> At(m, x) == At(n, x)
  {
    BranchUnder(m, i);
    forall x: Nibbles | !([i] <= x)
      ensures At(m, x) == At(n, x)
    {
      assert x != [] ==> x[0] != i;
    }
  }

  /** A removal that goes astray leaves every entry alone that does not lie at or below one stored key e. The value
      there, and with it all below, gives way to what the value led to. */
  lemma {:induction false} AstrayDisplaces(n: Node, k: Nibbles, f: Finder, m: Node) returns (e: Nibbles)
    requires Canonical(n) && AllKnown(n, f) && Faulty(n, k, f, Mislead) && Stray(n, k, f, {}) == Writes(Some(m))
    ensures BlockedAt(n, k, f, Mislead, e) && e <= k && PutAt(n, k, f, e).Some?
    ensures Displaced(n, m, e, PutAt(n, k, f, e).value)
    decreases n, 1
  {
    match n
    case Leaf(p, v) =>
      e := p;
      LeafDisplaced(n, k, f, m);
    case Ext(p, c) =>
      ExtKnown(n, f);
      ExtUnder(n);
      var l := k[|p|..];
      assert k == p + l;
      var fate := Stray(c.Deref(), l, f, {});
      assert Stray(n, k, f, {}) == Above(n, fate, f);
      var b := fate.node.value;
      ExtRefitted(n, b, f);
      var d := AstrayDisplaces(c.Deref(), l, f, b);
      e := p + d;
      hide BlockedAt; hide PutAt; hide Displaced; hide Stray; hide Under;
      BlockedAtUnder(n, p, c.Deref(), l, f, Mislead, d);
      PutUnder(n, p, c.Deref(), l, f, d);
      DisplacedUnder(n, p, c.Deref(), m, b, d, PutAt(c.Deref(), l, f, d).value);
    case Branch(cs, v) =>
      e := BranchDisplaces(n, k, f, m);
  }

  lemma BranchDisplaces(n: Node, k: Nibbles, f: Finder, m: Node) returns (e: Nibbles)
    requires n.Branch? && k != []
    requires Canonical(n) && AllKnown(n, f) && Faulty(n, k, f, Mislead) && Stray(n, k, f, {}) == Writes(Some(m))
    ensures BlockedAt(n, k, f, Mislead, e) && e <= k && PutAt(n, k, f, e).Some?
    ensures Displaced(n, m, e, PutAt(n, k, f, e).value)
    decreases n, 0
  {
    var i, l := k[0], k[1..];
    var r := n.children[i];
    var c := r.Deref();
    BranchKnown(n, i, f);
    FaultyBranch(n, k, f, Mislead);
    SlipsBelow(n, k, f);
    if LeavesValue(n.children, n.value, k) {
      e := [];
      ValueDisplaced(n, k, f, m);
    } else {
      assert CanonicalRef(r) && [i] + l == k;
      hide LeavesValue; hide LastFault; hide At; hide Stray; hide Size; hide Occurs;
      var b := SlotWritten(n, k, f, m);
      var d := AstrayDisplaces(c, l, f, b);
      e := [i] + d;
      BranchUnder(n, i);
      BranchReplaced(n, i, Seal(b), m);
      hide BlockedAt; hide PutAt; hide Displaced; hide Under; hide Faulty; hide Canonical; hide AllKnown;
      BlockedAtUnder(n, [i], c, l, f, Mislead, d);
      PutUnder(n, [i], c, l, f, d);
      DisplacedUnder(n, [i], c, m, b, d, PutAt(c, l, f, d).value);
    }
  }

  lemma SlotWritten(n: Node, k: Nibbles, f: Finder, m: Node) returns (b: Node)
    requires n.Branch? && k != [] && Canonical(n) && Faulty(n.children[k[0]].Deref(), k[1..], f, Mislead)
    requires !Missing(n.children[k[0]], f) && Stray(n, k, f, {}) == Writes(Some(m))
    ensures Stray(n.children[k[0]].Deref(), k[1..], f, {}) == Writes(Some(b))
    ensures m == Branch(n.children[k[0] := Seal(b)], n.value)
  {
    SlipsBelow(n, k, f);
    var fate := Stray(n.children[k[0]].Deref(), k[1..], f, {});
    b := fate.node.value;
    assert !n.children[k[0]].IsEmpty();
    SlotReplaced(n, k[0], b, f);
  }

  lemma ValueDisplaced(n: Node, k: Nibbles, f: Finder, m: Node)
    requires n.Branch? && k != [] && Canonical(n) && LeavesValue(n.children, n.value, k)
    requires LastFault(n.value, f, Mislead) && !Missing(n.children[k[0]], f) && Stray(n, k, f, {}) == Writes(Some(m))
    ensures BlockedAt(n, k, f, Mislead, []) && PutAt(n, k, f, []).Some?
    ensures Displaced(n, m, [], PutAt(n, k, f, []).value)
  {
    ValueBlocks(n, k);
    SlipWrites(n, k, f);
    assert At(n, []) == n.value && PutAt(n, k, f, []) == Some(m);
    forall x: Nibbles
      ensures At(m, x) == if [] <= x then At(m, x[0..]) else At(n, x)
    {
      assert x[0..] == x;
    }
  }

  /** Where the key is stored there is a node for what is written. */
  lemma {:induction false} GraftWrites(n: Node, k: Nibbles, f: Finder)
    requires Canonical(n) && AllKnown(n, f) && Faulty(n, k, f, Mislead) && At(n, k) != []
    ensures Stray(n, k, f, {}).Writes? && Stray(n, k, f, {}).node.Some?
  {
    hide Size; hide LastFault;
    match n
    case Ext(p, c) =>
      ExtKnown(n, f);
      GraftWrites(c.Deref(), k[|p|..], f);
      assert Stray(n, k, f, {}) == Above(n, Stray(c.Deref(), k[|p|..], f, {}), f);
    case Branch(cs, v) =>
      BranchKnown(n, k[0], f);
      FaultyBranch(n, k, f, Mislead);
      SlipsBelow(n, k, f);
      if LeavesValue(cs, v, k) {
        SlipWrites(n, k, f);
      } else {
        assert CanonicalRef(cs[k[0]]);
        GraftWrites(cs[k[0]].Deref(), k[1..], f);
        var b := Stray(cs[k[0]].Deref(), k[1..], f, {}).node.value;
        SlotReplaced(n, k[0], b, f);
      }
  }

  lemma SlipWrites(n: Node, k: Nibbles, f: Finder)
    requires n.Branch? && k != [] && Canonical(n) && LeavesValue(n.children, n.value, k)
    requires LastFault(n.value, f, Mislead) && !Missing(n.children[k[0]], f)
    ensures Stray(n, k, f, {}) == Writes(Taken(n.value, f))
  {
    assert OnlyUsed(n.children[k[0] := EMPTY_REF], n.value, 16);
    ValueSlips(n, k, f);
  }
}
