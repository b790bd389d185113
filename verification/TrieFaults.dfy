/** Removals that go wrong, on tries grown from nothing: one for each way in which `Blocked` says they do, and one
    that comes off although it follows a value. */
module TrieFaults {
  import opened Options
  import opened Bytes
  import opened TrieNode
  import opened TrieUnique
  import opened TrieStray
  import opened TrieRemoval
  import opened TrieBlocked
  import opened NodeStore
  import opened TrieDB
  import opened TrieAstray

  const KEY: ByteString := [0x61]
  const REST: ByteString := [0x62]
  const LONGER: ByteString := [0x61, 0x62]

  lemma KeyNibbles()
    ensures AsNibbles(KEY) == [6, 1] && AsNibbles(REST) == [6, 2] && AsNibbles(LONGER) == [6, 1, 6, 2]
  {
    assert REST[1..] == [];
    assert KEY[1..] == [] && LONGER[1..] == [0x62] && LONGER[1..][1..] == [];
    assert AsNibbles([0x62]) == [6, 2] + [];
  }

  /** An empty trie over a new store, with no digest known to be that of a node. */
  method Fresh() returns (t: GenericTrieDB)
    ensures fresh(t) && fresh(t.store) && t.Valid() && t.root == EMPTY_TRIE && t.others == multiset{}
    ensures t.names == Nameless && !t.store.enforceRefs
  {
    var store := new OverlayDB(false, map[]);
    t := new GenericTrieDB(store, Nameless);
  }

  function Nameless(d: ByteString): Option<Hash> {
    None
  }

  /** A stored key is a proper prefix of the key removed, and its value leads nowhere. */
  method PastALeaf() returns (end: Ending)
    ensures end.Threw?
  {
    KeyNibbles();
    var t := Fresh();
    t.Insert(KEY, [0x78]);
    ghost var n, f := t.root.preimage, t.Found();
    assert EndsAbove(n, [6, 1, 6, 2], [6, 1]) && At(n, [6, 1]) == [0x78];
    assert BlockedAt(n, [6, 1, 6, 2], f, Throw, [6, 1]);
    FaultyIsBlocked(n, [6, 1, 6, 2], f, Throw);
    end := t.Remove(LONGER);
  }

  /** The key removed ends at a branch without a value. */
  method PastTheKey() returns (end: Ending)
    ensures end.Threw?
  {
    var t := Fresh();
    t.Insert([0x10], [0x78]);
    t.Insert([0x20], [0x79]);
    ghost var n, x, y := t.root.preimage, AsNibbles([0x10]), AsNibbles([0x20]);
    assert AsNibbles([]) == [] && x[0] == 1 && y[0] == 2;
    assert [] + x == x && [] + y == y;
    assert PartsHere(n, [], x, y);
    FaultyIsBlocked(n, [], t.Found(), Throw);
    end := t.Remove([]);
  }

  /** The key removed is all that keeps a value of 33 bytes company. */
  method LongValueLeft() returns (end: Ending)
    ensures end.Threw?
  {
    KeyNibbles();
    var t := Fresh();
    t.Insert(KEY, seq(33, _ => 0x78));
    t.Insert(LONGER, [0x79]);
    ghost var n, f := t.root.preimage, t.Found();
    assert OnlyExtends(n, [6, 1, 6, 2], [6, 1]);
    assert BlockedAt(n, [6, 1, 6, 2], f, Throw, [6, 1]);
    FaultyIsBlocked(n, [6, 1, 6, 2], f, Throw);
    end := t.Remove(LONGER);
  }

  // Two tries in one store

  /** A trie of one entry is one leaf, and its store holds nothing else. */
  method OneLeaf(key: ByteString) returns (t: GenericTrieDB)
    ensures fresh(t) && fresh(t.store) && t.store.Valid() && !t.store.enforceRefs
    ensures t.root == Sha3(Leaf(AsNibbles(key), [0x78])) && t.root in t.store.ledger && NoneProvisional(t.store.ledger)
  {
    t := Fresh();
    t.Insert(key, [0x78]);
    Unique(t.root.preimage, Leaf(AsNibbles(key), [0x78]));
    assert forall h :: h in t.store.ledger ==> h == t.root;
  }

  function Named(d: ByteString, h: Hash): Naming {
    v => if v == d then Some(h) else None
  }

  /** Beside such a trie a second, empty one, where the digest d of the first's root is known. */
  method Neighbours(d: ByteString, key: ByteString) returns (other: Hash, t: GenericTrieDB)
    requires |d| == 32
    ensures fresh(t) && fresh(t.store) && t.Valid() && t.root == EMPTY_TRIE && !t.store.enforceRefs
    ensures other == Sha3(Leaf(AsNibbles(key), [0x78])) && other in t.others && t.names == Named(d, other)
  {
    hide Canonical; hide NoneProvisional; hide Occurs; hide WellKept;
    var first := OneLeaf(key);
    other := first.root;
    t := new GenericTrieDB(first.store, Named(d, other));
  }

  lemma TakenFor(t: GenericTrieDB, d: ByteString, other: Hash)
    requires t.Valid() && |d| == 32 && other in t.others && t.names == Named(d, other)
    ensures Target(d, t.Found()) == Some(other) && (Target([], t.Found()).Some? ==> Target([], t.Found()) == Some(other))
    ensures AllKnown(t.root.preimage, t.Found())
  {
    assert LeftPadded(d) == d;
    OthersFound(t, other);
    forall h | Occurs(t.root.preimage, h) > 0
      ensures h in t.store.Known()
    {
      assert t.store.ledger[h] > 0;
      assert t.store.Lookup(h).Some?;
    }
  }

  /** A value that is the digest of a stored node is followed past its leaf, and what is left of that node comes in
      its place: an empty value, or the node itself where the digest is zero. */
  method FollowedAsAHash(d: ByteString) returns (held: ByteString, end: Ending, after: Hash)
    requires |d| == 32
    ensures held == d && end.WentAstray? && At(after.preimage, AsNibbles(KEY)) == []
  {
    KeyNibbles();
    var other, t := Neighbours(d, REST);
    t.Insert(KEY, d);
    held := t.AtKey(KEY);
    TakenFor(t, d, other);
    ghost var n, f := t.root.preimage, t.Found();
    FollowedAway(n, d, other, f);
    end := t.Remove(LONGER);
    after := t.root;
  }

  lemma FollowedAway(n: Node, d: ByteString, other: Hash, f: Finder)
    requires Canonical(n) && AllKnown(n, f) && d != [] && forall x :: At(n, x) == if x == [6, 1] then d else []
    requires Target(d, f) == Some(other) && other == Sha3(Leaf([6, 2], [0x78]))
    requires Target([], f).Some? ==> Target([], f) == Some(other)
    ensures Faulty(n, [6, 1, 6, 2], f, Mislead)
    ensures var fate := Stray(n, [6, 1, 6, 2], f, {});
            fate.Writes? && fate.node.Some? && At(fate.node.value, [6, 1]) == []
  {
    var k: Nibbles, p: Nibbles := [6, 1, 6, 2], [6, 1];
    Unique(n, Leaf(p, d));
    assert k[|p|..] == [6, 2];
    FollowIs(d, [6, 2], f);
    assert Follow(d, [6, 2], f) == Writes(Some(Null));
    assert StrayPast(n, [6, 2], f, {}) == Follow(d, [6, 2], f);
    var m := Stray(n, k, f, {}).node.value;
    hide Stray; hide Follow;
    LeafDisplaced(n, k, f, m);
    assert p[|p|..] == [];
  }

  /** And where it is all that is left in a branch, the stored node is put in its place: the key removed is there
      again, with the value that the other trie has under another key. */
  method GraftedAsAHash(d: ByteString) returns (held: ByteString, end: Ending, after: Hash)
    requires |d| == 32
    ensures held == d && end.WentAstray?
    ensures At(after.preimage, AsNibbles(KEY)) == [] && At(after.preimage, AsNibbles(LONGER)) == [0x78]
  {
    KeyNibbles();
    var other, t := Neighbours(d, REST);
    t.Insert(KEY, d);
    t.Insert(LONGER, [0x79]);
    held := t.AtKey(KEY);
    TakenFor(t, d, other);
    ghost var n, f := t.root.preimage, t.Found();
    GraftedOver(n, d, other, f);
    hide Stray; hide Faulty; hide Canonical; hide Occurs; hide WellKept;
    end := t.Remove(LONGER);
    after := t.root;
  }

  lemma GraftedOver(n: Node, d: ByteString, other: Hash, f: Finder)
    requires Canonical(n) && AllKnown(n, f) && |d| == 32
    requires forall x :: At(n, x) == if x == [6, 1] then d else if x == [6, 1, 6, 2] then [0x79] else []
    requires Target(d, f) == Some(other) && other == Sha3(Leaf([6, 2], [0x78]))
    ensures Faulty(n, [6, 1, 6, 2], f, Mislead)
    ensures var fate := Stray(n, [6, 1, 6, 2], f, {});
            && fate.Writes? && fate.node.Some?
            && At(fate.node.value, [6, 1]) == [] && At(fate.node.value, [6, 1, 6, 2]) == [0x78]
  {
    var k: Nibbles, p: Nibbles := [6, 1, 6, 2], [6, 1];
    assert OnlyExtends(n, k, p);
    assert BlockedAt(n, k, f, Mislead, p);
    FaultyIsBlocked(n, k, f, Mislead);
    GraftWrites(n, k, f);
    var m := Stray(n, k, f, {}).node.value;
    hide Stray; hide Faulty; hide Canonical;
    var e := AstrayDisplaces(n, k, f, m);
    assert e == p;
    assert k[|p|..] == [6, 2] && p[|p|..] == [];
  }

  /** Following a value is harmless where nothing is found in the end. */
  method FollowedInVain(d: ByteString) returns (end: Ending, before: Hash, after: Hash)
    requires |d| == 32
    ensures end.Done? && after == before
  {
    KeyNibbles();
    var other, t := Neighbours(d, KEY);
    t.Insert(KEY, d);
    TakenFor(t, d, other);
    ghost var n, f := t.root.preimage, t.Found();
    Unique(n, Leaf([6, 1], d));
    assert LONGER != [] && [6, 1, 6, 2][2..] == [6, 2];
    FollowIs(d, [6, 2], f);
    assert Follow(d, [6, 2], f) == Absent;
    before := t.root;
    end := t.Remove(LONGER);
    after := t.root;
  }
}
