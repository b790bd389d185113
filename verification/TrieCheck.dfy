/** The debugging scan of the whole trie (`check`, `leftOvers`, `descendKey`, `descendList`). */
module TrieCheck {
  import opened TrieNode
  import opened TrieSteps
  import opened NodeStore
  import opened TrieDB

  /** The scan meets no extension that leads to a pair, and no slot that is neither a node nor a hash. */
  predicate ChecksOut(n: Node, wasExt: bool) {
    match n
    case Null => false
    case Leaf(_, _) => !wasExt
    case Ext(_, c) => !wasExt && ChecksOut(c.Deref(), true)
    case Branch(cs, _) => forall i :: 0 <= i < |cs| && !cs[i].IsEmpty() ==> ChecksOut(cs[i].Deref(), false)
  }

  lemma {:induction false} CanonicalChecksOut(n: Node, wasExt: bool)
    requires Canonical(n) && n != Null && (wasExt ==> n.Branch?)
    ensures ChecksOut(n, wasExt)
  {
    match n
    case Leaf(_, _) =>
    case Ext(_, c) => CanonicalChecksOut(c.Deref(), true);
    case Branch(cs, _) =>
      forall i | 0 <= i < |cs| && !cs[i].IsEmpty()
        ensures ChecksOut(cs[i].Deref(), false)
      {
        assert CanonicalRef(cs[i]);
        CanonicalChecksOut(cs[i].Deref(), false);
      }
  }

  lemma {:induction false} AllOccursPrefix(cs: seq<Ref>, i: nat, x: Hash)
    requires i < |cs|
    ensures AllOccurs(cs[..i + 1], x) == AllOccurs(cs[..i], x) + RefOccurs(cs[i], x)
    ensures RefOccurs(cs[i], x) <= AllOccurs(cs, x)
  {
    if i == 0 {
      assert cs[..1] == [cs[0]] && cs[..1][1..] == [];
    } else {
      assert cs[..i + 1][1..] == cs[1..][..i] && cs[..i][1..] == cs[1..][..i - 1];
      AllOccursPrefix(cs[1..], i - 1, x);
    }
  }

  /** Scans the node in a slot, striking out every hash on the way. */
  method DescendEntry(store: OverlayDB, r: Ref, wasExt: bool, keyMask: set<Hash>) returns (ok: bool, left: set<Hash>)
    requires store.Valid() && CoversRef(store.ledger, r)
    ensures ok == ChecksOut(r.Deref(), wasExt)
    ensures ok ==> forall h :: h in left <==> h in keyMask && RefOccurs(r, h) == 0
    decreases r
  {
    if r.Hashed? {
      assert RefOccurs(r, r.hash) > 0;
      ok, left := DescendList(store, store.Lookup(r.hash).value, wasExt, keyMask - {r.hash});
    } else {
      ok, left := DescendList(store, r.node, wasExt, keyMask);
    }
  }

  method DescendList(store: OverlayDB, n: Node, wasExt: bool, keyMask: set<Hash>) returns (ok: bool, left: set<Hash>)
    requires store.Valid() && forall x :: Occurs(n, x) <= store.ledger[x]
    ensures ok == ChecksOut(n, wasExt)
    ensures ok ==> forall h :: h in left <==> h in keyMask && Occurs(n, h) == 0
    decreases n
  {
    left := keyMask;
    if Pair(n) && !wasExt {
      ok := true;
      if n.Ext? {
        ok, left := DescendEntry(store, n.child, true, keyMask);
      }
    } else if n.Branch? {
      for i := 0 to |n.children|
        invariant forall j :: 0 <= j < i && !n.children[j].IsEmpty() ==> ChecksOut(n.children[j].Deref(), false)
        invariant forall h :: h in left <==> h in keyMask && AllOccurs(n.children[..i], h) == 0
      {
        forall x {
          AllOccursPrefix(n.children, i, x);
        }
        if !n.children[i].IsEmpty() {
          ok, left := DescendEntry(store, n.children[i], false, left);
          if !ok {
            return;
          }
        } else {
          assert forall x :: RefOccurs(n.children[i], x) == Occurs(Null, x);
        }
      }
      assert n.children[..|n.children|] == n.children;
      ok := true;
    } else {
      ok := false;
    }
  }

  /** `check` holds of every trie in order: the scan finds no fault, and what is live besides the trie, if that
      is asked, is only what others refer to. */
  method Check(t: GenericTrieDB, requireNoLeftOvers: bool) returns (b: bool)
    requires t.Valid()
    ensures b <==> !requireNoLeftOvers ||
                   forall h :: t.store.Count(h) > 0 ==> h == t.root || Occurs(t.root.preimage, h) > 0
    ensures t.others == multiset{} ==> b
  {
    var keys := t.store.Keys();
    var ok, left := true, keys - {t.root};
    if t.root != EMPTY_TRIE {
      CanonicalChecksOut(t.root.preimage, false);
      ok, left := DescendList(t.store, t.store.Lookup(t.root).value, false, keys - {t.root});
    }
    assert forall h :: h in left <==> t.store.Count(h) > 0 && h != t.root && Occurs(t.root.preimage, h) == 0;
    b := ok && (left == {} || !requireNoLeftOvers);
    if forall h :: t.store.Count(h) > 0 ==> h == t.root || Occurs(t.root.preimage, h) > 0 {
      assert left == {};
    }
    assert forall h :: t.store.Count(h) <= t.store.ledger[h];
  }
}
