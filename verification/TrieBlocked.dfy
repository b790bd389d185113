/** When removal goes wrong, told from the entries alone. */
module TrieBlocked {
  import opened Bytes
  import opened TrieNode
  import opened TrieUnique
  import opened TrieRemoval
  import opened TrieSteps
  import opened TrieStray

  /** Below key e only e itself and k are stored. */
  ghost predicate Alone(n: Node, e: Nibbles, k: Nibbles) {
    forall x :: At(n, x) != [] && e <= x ==> x == e || x == k
  }

  /** A stored key is a proper prefix of k and no other stored key extends it. */
  ghost predicate EndsAbove(n: Node, k: Nibbles, e: Nibbles) {
    e < k && At(n, e) != [] && Alone(n, e, e)
  }

  /** k is not stored, and two stored keys extend it and part right there. */
  ghost predicate PartsHere(n: Node, k: Nibbles, x: Nibbles, y: Nibbles) {
    At(n, k) == [] && At(n, k + x) != [] && At(n, k + y) != [] && Slot(x) != Slot(y)
  }

  /** k is stored, and is the only stored key to extend another. */
  ghost predicate OnlyExtends(n: Node, k: Nibbles, e: Nibbles) {
    At(n, k) != [] && e < k && At(n, e) != [] && Alone(n, e, k)
  }

  ghost predicate BlockedAt(n: Node, k: Nibbles, f: Finder, w: Fault, e: Nibbles) {
    || (EndsAbove(n, k, e) && LeafFault(At(n, e), k[|e|..], f, w))
    || (OnlyExtends(n, k, e) && LastFault(At(n, e), f, w))
  }

  ghost predicate Blocked(n: Node, k: Nibbles, f: Finder, w: Fault) {
    || (exists e :: BlockedAt(n, k, f, w, e))
    || (w.Throw? && exists x, y :: PartsHere(n, k, x, y))
  }

  /** c is what n holds under p. */
  ghost predicate Under(n: Node, p: Nibbles, c: Node) {
    forall x :: At(n, p + x) == At(c, x)
  }

  lemma AloneUnder(n: Node, p: Nibbles, c: Node, e: Nibbles, k: Nibbles)
    requires Under(n, p, c)
    ensures Alone(n, p + e, p + k) <==> Alone(c, e, k)
  {
    if Alone(n, p + e, p + k) {
      forall x | At(c, x) != [] && e <= x
        ensures x == e || x == k
      {
        assert At(n, p + x) != [] && p + e <= p + x;
        assert (p + x)[|p|..] == x && (p + e)[|p|..] == e && (p + k)[|p|..] == k;
      }
    }
    if Alone(c, e, k) {
      forall x | At(n, x) != [] && p + e <= x
        ensures x == p + e || x == p + k
      {
        var y := x[|p|..];
        assert x == p + y && e <= y;
        assert At(c, y) != [];
      }
    }
  }

  lemma EndsAboveUnder(n: Node, p: Nibbles, c: Node, k: Nibbles, e: Nibbles)
    requires Under(n, p, c)
    ensures EndsAbove(n, p + k, p + e) <==> EndsAbove(c, k, e)
  {
    AloneUnder(n, p, c, e, e);
    assert (p + e)[|p|..] == e && (p + k)[|p|..] == k;
  }

  lemma OnlyExtendsUnder(n: Node, p: Nibbles, c: Node, k: Nibbles, e: Nibbles)
    requires Under(n, p, c)
    ensures OnlyExtends(n, p + k, p + e) <==> OnlyExtends(c, k, e)
  {
    AloneUnder(n, p, c, e, k);
    assert (p + e)[|p|..] == e && (p + k)[|p|..] == k;
  }

  lemma PartsHereUnder(n: Node, p: Nibbles, c: Node, k: Nibbles, x: Nibbles, y: Nibbles)
    requires Under(n, p, c)
    ensures PartsHere(n, p + k, x, y) <==> PartsHere(c, k, x, y)
  {
    hide At; hide Slot;
    assert p + k + x == p + (k + x) && p + k + y == p + (k + y);
  }

  lemma BlockedAtUnder(n: Node, p: Nibbles, c: Node, k: Nibbles, f: Finder, w: Fault, e: Nibbles)
    requires Under(n, p, c)
    ensures BlockedAt(n, p + k, f, w, p + e) <==> BlockedAt(c, k, f, w, e)
  {
    hide Alone; hide OnlyExtends; hide LeafFault; hide LastFault; hide At;
    if |e| <= |k| {
      assert (p + k)[|p + e|..] == k[|e|..];
    }
    EndsAboveUnder(n, p, c, k, e);
    OnlyExtendsUnder(n, p, c, k, e);
  }

  /** Being blocked carries over from what is stored under p. */
  lemma BlockedBelow(n: Node, p: Nibbles, c: Node, k: Nibbles, f: Finder, w: Fault)
    requires Under(n, p, c) && Blocked(c, k, f, w)
    ensures Blocked(n, p + k, f, w)
  {
    hide BlockedAt; hide PartsHere; hide Under;
    if e :| BlockedAt(c, k, f, w, e) {
      BlockedAtUnder(n, p, c, k, f, w, e);
    } else {
      var x, y :| PartsHere(c, k, x, y);
      PartsHereUnder(n, p, c, k, x, y);
    }
  }

  /** And back, unless it is due to a key above p. */
  lemma BlockedAbove(n: Node, p: Nibbles, c: Node, k: Nibbles, f: Finder, w: Fault)
    requires Under(n, p, c) && Blocked(n, p + k, f, w)
    requires forall e :: e < p ==> !BlockedAt(n, p + k, f, w, e)
    ensures Blocked(c, k, f, w)
  {
    hide PartsHere; hide Under; hide LeafFault; hide LastFault; hide Alone;
    if e :| BlockedAt(n, p + k, f, w, e) {
      Splits(p, k, e);
      BlockedAtUnder(n, p, c, k, f, w, e[|p|..]);
    } else {
      var x, y :| PartsHere(n, p + k, x, y);
      PartsHereUnder(n, p, c, k, x, y);
    }
  }

  lemma Splits(p: Nibbles, k: Nibbles, e: Nibbles)
    requires e < p + k && !(e < p)
    ensures p <= e && e == p + e[|p|..]
  {
    assert forall i :: 0 <= i < |e| ==> e[i] == (p + k)[i];
  }

  lemma ExtUnder(n: Node)
    requires n.Ext?
    ensures Under(n, n.path, n.child.Deref())
  {
    forall x: Nibbles
      ensures At(n, n.path + x) == At(n.child.Deref(), x)
    {
      assert (n.path + x)[|n.path|..] == x;
    }
  }

  lemma BranchUnder(n: Node, i: nibble)
    requires n.Branch? && |n.children| == 16
    ensures Under(n, [i], n.children[i].Deref())
  {
    forall x: Nibbles
      ensures At(n, [i] + x) == At(n.children[i].Deref(), x)
    {
      assert ([i] + x)[1..] == x;
    }
  }

  /** A key that leaves an extension's path is not blocked. */
  lemma OffPath(n: Node, k: Nibbles, f: Finder, w: Fault)
    requires n.Ext? && !(n.path <= k)
    ensures !Blocked(n, k, f, w)
  {
    forall x, y
      ensures !PartsHere(n, k, x, y)
    {
      var p := n.path;
      if p <= k + x && p <= k + y && |k| < |p| {
        assert p[|k|] == (k + x)[|k|] == x[0] && p[|k|] == (k + y)[|k|] == y[0];
      }
    }
  }

  /** The value at a branch is left alone exactly when one other leaf is there. */
  lemma ValueBlocks(n: Node, k: Nibbles)
    requires n.Branch? && Canonical(n) && k != []
    ensures OnlyExtends(n, k, []) <==> LeavesValue(n.children, n.value, k)
  {
    var cs := n.children;
    var c := cs[k[0]];
    assert CanonicalRef(c);
    BranchUnder(n, k[0]);
    assert k == [k[0]] + k[1..];
    if LeavesValue(cs, n.value, k) {
      forall x | At(n, x) != []
        ensures x == [] || x == k
      {
        if x != [] {
          assert x == [x[0]] + x[1..];
          assert At(n, x) == At(cs[x[0]].Deref(), x[1..]);
        }
      }
      assert Canonical(c.Deref());
      assert At(n, k) == At(c.Deref(), k[1..]) != [];
    }
    if OnlyExtends(n, k, []) {
      forall j | 0 <= j < 16 && j != k[0]
        ensures cs[j].IsEmpty()
      {
        if !cs[j].IsEmpty() {
          var _ := SlotEntry(n, j);
        }
      }
      LeafAlone(n, k);
    }
  }

  /** A child that holds one entry is a leaf. */
  lemma LeafAlone(n: Node, k: Nibbles)
    requires n.Branch? && Canonical(n) && k != [] && OnlyExtends(n, k, [])
    ensures n.children[k[0]].Deref().Leaf? && n.children[k[0]].Deref().path == k[1..]
  {
    var c := n.children[k[0]].Deref();
    assert CanonicalRef(n.children[k[0]]);
    BranchUnder(n, k[0]);
    assert k == [k[0]] + k[1..];
    forall x: Nibbles
      ensures At(c, x) == At(Leaf(k[1..], At(n, k)), x)
    {
      assert At(n, [k[0]] + x) == At(c, x);
      if At(c, x) != [] {
        assert [] <= [k[0]] + x;
        assert ([k[0]] + x)[1..] == x;
      }
    }
    Unique(Leaf(k[1..], At(n, k)), c);
  }

  lemma LeafFaulty(n: Node, k: Nibbles, f: Finder, w: Fault)
    requires n.Leaf? && Canonical(n)
    ensures Faulty(n, k, f, w) <==> Blocked(n, k, f, w)
  {
    hide LeafFault; hide LastFault;
    if Faulty(n, k, f, w) {
      assert EndsAbove(n, k, n.path) && At(n, n.path) == n.value;
      assert BlockedAt(n, k, f, w, n.path);
    }
    forall x, y
      ensures !PartsHere(n, k, x, y)
    {
      if k + x == n.path && k + y == n.path {
        assert x == (k + x)[|k|..] && y == (k + y)[|k|..];
      }
    }
  }

  /** Removal of k goes wrong exactly when the entries, and what the store finds, say so. */
  lemma {:induction false} FaultyIsBlocked(n: Node, k: Nibbles, f: Finder, w: Fault)
    requires Canonical(n)
    ensures Faulty(n, k, f, w) <==> Blocked(n, k, f, w)
    decreases n, 1
  {
    hide LeafFault; hide LastFault;
    match n
    case Null =>
    case Leaf(p, v) =>
      LeafFaulty(n, k, f, w);
    case Ext(p, c) =>
      if p <= k {
        ExtFaulty(n, k, f, w);
      } else {
        OffPath(n, k, f, w);
      }
    case Branch(cs, v) =>
      if k == [] {
        var x, y := BranchEntries(n);
        assert [] + x == x && [] + y == y;
        assert v == [] ==> PartsHere(n, k, x, y);
      } else {
        BranchFaulty(n, k, f, w);
      }
  }

  lemma ExtFaulty(n: Node, k: Nibbles, f: Finder, w: Fault)
    requires n.Ext? && Canonical(n) && n.path <= k
    ensures Faulty(n, k, f, w) <==> Blocked(n, k, f, w)
    decreases n, 0
  {
    hide LeafFault; hide LastFault;
    var p, c := n.path, n.child.Deref();
    var l := k[|p|..];
    assert k == p + l;
    ExtUnder(n);
    FaultyIsBlocked(c, l, f, w);
    if Faulty(n, k, f, w) {
      BlockedBelow(n, p, c, l, f, w);
    }
    if Blocked(n, k, f, w) {
      BlockedAbove(n, p, c, l, f, w);
    }
  }

  lemma BranchFaulty(n: Node, k: Nibbles, f: Finder, w: Fault)
    requires n.Branch? && Canonical(n) && k != []
    ensures Faulty(n, k, f, w) <==> Blocked(n, k, f, w)
    decreases n, 0
  {
    hide LeafFault; hide LastFault; hide LeavesValue;
    var c := n.children[k[0]].Deref();
    assert CanonicalRef(n.children[k[0]]);
    assert k == [k[0]] + k[1..];
    BranchUnder(n, k[0]);
    FaultyBranch(n, k, f, w);
    ValueBlocks(n, k);
    FaultyIsBlocked(c, k[1..], f, w);
    assert At(n, []) == n.value;
    var x, y := BranchEntries(n);
    assert !EndsAbove(n, k, []) by {
      assert [] <= x && [] <= y;
    }
    assert BlockedAt(n, k, f, w, []) <==> LeavesValue(n.children, n.value, k) && LastFault(n.value, f, w);
    hide BlockedAt; hide Faulty;
    if Faulty(c, k[1..], f, w) {
      BlockedBelow(n, [k[0]], c, k[1..], f, w);
    }
    if Blocked(n, k, f, w) && !BlockedAt(n, k, f, w, []) {
      BlockedAbove(n, [k[0]], c, k[1..], f, w);
    }
  }

  // Whatever the store knows

  /** Removal goes wrong with some store: k has a stored key above it with nothing else below that one; or stored
      keys part right at k; or k is all that keeps a value company that is too long for a hash, or is the hash
      of a pair. */
  ghost predicate Risky(n: Node, k: Nibbles, names: Naming) {
    || (exists e :: EndsAbove(n, k, e))
    || (exists x, y :: PartsHere(n, k, x, y))
    || (exists e :: OnlyExtends(n, k, e) && HashOrLonger(At(n, e), names))
  }

  ghost predicate HashOrLonger(v: ByteString, names: Naming) {
    |v| > 32 || (names(LeftPadded(v)).Some? && Pair(names(LeftPadded(v)).value.preimage))
  }

  lemma RiskyIff(n: Node, k: Nibbles, names: Naming)
    requires Canonical(n)
    ensures Risky(n, k, names) <==> exists known, w :: Faulty(n, k, Finder(names, known), w)
  {
    if known, w :| Faulty(n, k, Finder(names, known), w) {
      FaultyIsRisky(n, k, Finder(names, known), w);
    }
    if Risky(n, k, names) {
      var known, w := RiskyIsFaulty(n, k, names);
    }
  }

  lemma FaultyIsRisky(n: Node, k: Nibbles, f: Finder, w: Fault)
    requires Canonical(n) && Faulty(n, k, f, w)
    ensures Risky(n, k, f.names)
  {
    hide Faulty; hide Canonical; hide EndsAbove; hide OnlyExtends; hide PartsHere; hide At;
    FaultyIsBlocked(n, k, f, w);
    if e :| BlockedAt(n, k, f, w, e) {
      if !EndsAbove(n, k, e) {
        assert OnlyExtends(n, k, e) && HashOrLonger(At(n, e), f.names);
      }
    }
  }

  lemma RiskyIsFaulty(n: Node, k: Nibbles, names: Naming) returns (known: set<Hash>, w: Fault)
    requires Canonical(n) && Risky(n, k, names)
    ensures Faulty(n, k, Finder(names, known), w)
  {
    hide Faulty; hide Canonical; hide EndsAbove; hide OnlyExtends; hide PartsHere; hide At;
    known, w := {}, Throw;
    if e :| EndsAbove(n, k, e) {
      assert BlockedAt(n, k, Finder(names, known), w, e);
    } else if x, y :| PartsHere(n, k, x, y) {
    } else {
      var e :| OnlyExtends(n, k, e) && HashOrLonger(At(n, e), names);
      if |At(n, e)| <= 32 {
        known, w := {names(LeftPadded(At(n, e))).value}, Mislead;
      }
      assert BlockedAt(n, k, Finder(names, known), w, e);
    }
    FaultyIsBlocked(n, k, Finder(names, known), w);
  }
}
