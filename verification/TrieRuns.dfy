/** The trie as a map: what every run of updates, commits and rollbacks leaves behind. */
module TrieRuns {
  import opened Options
  import opened Bytes
  import opened TrieNode
  import opened TrieUnique
  import opened TrieStray
  import opened TrieRemoval
  import opened TrieBlocked
  import opened TrieDB
  import opened TrieHash

  type BytesMap = map<ByteString, ByteString>

  function Get(m: BytesMap, key: ByteString): ByteString {
    if key in m then m[key] else []
  }

  /** n holds exactly the entries of m. */
  ghost predicate Represents(n: Node, m: BytesMap) {
    && (forall key :: key in m ==> m[key] != [])
    && (forall key :: At(n, AsNibbles(key)) == Get(m, key))
    && (forall x :: At(n, x) != [] ==> exists key :: key in m && AsNibbles(key) == x)
  }

  lemma RepresentsEmpty()
    ensures Represents(Null, map[])
  {
  }

  lemma RepresentsUpdated(a: Node, b: Node, m: BytesMap, key: ByteString, v: ByteString)
    requires Represents(a, m) && Updated(a, b, AsNibbles(key), v)
    ensures Represents(b, if v == [] then m - {key} else m[key := v])
  {
    hide At; hide AsNibbles; hide Get;
    var m' := if v == [] then m - {key} else m[key := v];
    forall l: ByteString
      ensures l in m' ==> m'[l] != []
      ensures At(b, AsNibbles(l)) == Get(m', l)
    {
      PutGet(m, key, v, m', l);
      if AsNibbles(l) == AsNibbles(key) {
        AsNibblesInjective(l, key);
      }
    }
    forall x | At(b, x) != []
      ensures exists l :: l in m' && AsNibbles(l) == x
    {
      var l := if x == AsNibbles(key) then key else StoredKey(a, m, x);
      PutGet(m, key, v, m', l);
    }
  }

  ghost function StoredKey(n: Node, m: BytesMap, x: Nibbles): (l: ByteString)
    requires Represents(n, m) && At(n, x) != []
    ensures l in m && AsNibbles(l) == x
  {
    var l :| l in m && AsNibbles(l) == x;
    l
  }

  lemma PutGet(m: BytesMap, key: ByteString, v: ByteString, m': BytesMap, l: ByteString)
    requires m' == if v == [] then m - {key} else m[key := v]
    ensures l in m' <==> if l == key then v != [] else l in m
    ensures l in m' ==> m'[l] == if l == key then v else m[l]
    ensures Get(m', l) == if l == key then v else Get(m, l)
  {
  }

  /** The root depends only on the contents. */
  lemma RootDetermined(a: Node, b: Node, m: BytesMap)
    requires Canonical(a) && Canonical(b) && Represents(a, m) && Represents(b, m)
    ensures Sha3(a) == Sha3(b)
  {
    forall x
      ensures At(a, x) == At(b, x)
    {
      if key :| key in m && AsNibbles(key) == x {
        assert At(a, AsNibbles(key)) == Get(m, key) == At(b, AsNibbles(key));
      }
    }
    Unique(a, b);
  }

  // hash256

  /** es lists the entries of m, by nibbles. */
  ghost predicate Lists(es: seq<KeyValue>, m: BytesMap) {
    && (forall e :: e in es ==> exists key :: key in m && e == KeyValue(AsNibbles(key), m[key]))
    && (forall key :: key in m ==> KeyValue(AsNibbles(key), m[key]) in es)
  }

  lemma ListsAnother(es: seq<KeyValue>, m: BytesMap, key: ByteString, v: ByteString, fs: seq<KeyValue>)
    requires Lists(es, m) && key !in m
    requires forall x :: x in fs <==> x == KeyValue(AsNibbles(key), v) || x in es
    ensures Lists(fs, m[key := v])
  {
    var m' := m[key := v];
    forall e | e in fs
      ensures exists l :: l in m' && e == KeyValue(AsNibbles(l), m'[l])
    {
      if e in es {
        var l :| l in m && e == KeyValue(AsNibbles(l), m[l]);
        assert l in m' && e == KeyValue(AsNibbles(l), m'[l]);
      } else {
        assert key in m' && e == KeyValue(AsNibbles(key), m'[key]);
      }
    }
  }

  lemma ListsNot(es: seq<KeyValue>, m: BytesMap, key: ByteString)
    requires Lists(es, m) && key !in m
    ensures forall e :: e in es ==> e.key != AsNibbles(key)
  {
    forall e | e in es
      ensures e.key != AsNibbles(key)
    {
      var l :| l in m && e == KeyValue(AsNibbles(l), m[l]);
      if e.key == AsNibbles(key) {
        AsNibblesInjective(key, l);
      }
    }
  }

  lemma ListsRepresents(n: Node, es: seq<KeyValue>, m: BytesMap)
    requires Lists(es, m) && Agree(es, 0) && Holds(n, es, 0) && forall key :: key in m ==> m[key] != []
    ensures Represents(n, m)
  {
    forall key: ByteString
      ensures At(n, AsNibbles(key)) == Get(m, key)
    {
      var k := AsNibbles(key);
      if key in m {
        var i :| 0 <= i < |es| && es[i] == KeyValue(k, m[key]);
        assert es[i].key[0..] == k;
      } else if At(n, k) != [] {
        var i :| 0 <= i < |es| && es[i].key[0..] == k;
        assert es[i] in es;
        var l :| l in m && es[i] == KeyValue(AsNibbles(l), m[l]);
        AsNibblesInjective(key, l);
      }
    }
    forall x | At(n, x) != []
      ensures exists key :: key in m && AsNibbles(key) == x
    {
      var i :| 0 <= i < |es| && es[i].key[0..] == x;
      assert es[i].key[0..] == es[i].key && es[i] in es;
    }
  }

  lemma SpliceMembers(es: seq<KeyValue>, i: nat, e: KeyValue)
    requires i <= |es|
    ensures forall x :: x in es[..i] + [e] + es[i..] <==> x == e || x in es
  {
    assert es == es[..i] + es[i..];
  }

  /** Inserts a new key into an ordered map. */
  method InsertSorted(es: seq<KeyValue>, e: KeyValue) returns (r: seq<KeyValue>)
    requires Sorted(es) && e.value != [] && forall i :: 0 <= i < |es| ==> es[i].key != e.key
    ensures Sorted(r) && forall x :: x in r <==> x == e || x in es
  {
    var i := 0;
    while i < |es| && Less(es[i].key, e.key)
      invariant 0 <= i <= |es|
      invariant forall j :: 0 <= j < i ==> Less(es[j].key, e.key)
    {
      i := i + 1;
    }
    forall j | i <= j < |es|
      ensures Less(e.key, es[j].key)
    {
      LessTotal(es[i].key, e.key);
      if i < j {
        LessTransitive(e.key, es[i].key, es[j].key);
      }
    }
    r := es[..i] + [e] + es[i..];
    SpliceMembers(es, i, e);
  }

  lemma ListsNothing()
    ensures Sorted([]) && Lists([], map[])
  {
  }

  /** The `HexMap` that `rlp256` builds. */
  method HexMapOf(m: BytesMap) returns (es: seq<KeyValue>)
    requires forall key :: key in m ==> m[key] != []
    ensures Sorted(es) && Lists(es, m)
  {
    ListsNothing();
    hide AsNibbles; hide Lists; hide Sorted;
    es := [];
    var todo := m.Keys;
    ghost var done: BytesMap := map[];
    while todo != {}
      invariant todo <= m.Keys && Sorted(es) && Lists(es, done)
      invariant done.Keys == m.Keys - todo && forall key :: key in done ==> done[key] == m[key]
      decreases |todo|
    {
      var key :| key in todo;
      ListsNot(es, done, key);
      var fs := InsertSorted(es, KeyValue(AsNibbles(key), m[key]));
      ListsAnother(es, done, key, m[key], fs);
      es := fs;
      done := done[key := m[key]];
      todo := todo - {key};
    }
    assert done == m;
  }

  /** `hash256` of a map is the root of every trie that holds it. */
  method Hash256Map(m: BytesMap) returns (h: Hash)
    requires forall key :: key in m ==> m[key] != []
    ensures Canonical(h.preimage) && Represents(h.preimage, m)
    ensures forall n :: Canonical(n) && Represents(n, m) ==> Sha3(n) == h
  {
    var es := HexMapOf(m);
    h := Hash256(es);
    ListsRepresents(h.preimage, es, m);
    forall n | Canonical(n) && Represents(n, m)
      ensures Sha3(n) == h
    {
      RootDetermined(n, h.preimage, m);
    }
  }

  // Runs

  /** `Reopen` rolls the store back and opens the trie at the last committed root. */
  datatype Op =
    | Insert(key: ByteString, value: ByteString)
    | Remove(key: ByteString)
    | Commit
    | Reopen

  /** The map now, and as of the last commit. */
  datatype Maps = Maps(current: BytesMap, committed: BytesMap)

  function Step(s: Maps, op: Op): Maps {
    match op
    case Insert(k, v) => s.(current := s.current[k := v])
    case Remove(k) => s.(current := s.current - {k})
    case Commit => s.(committed := s.current)
    case Reopen => s.(current := s.committed)
  }

  function Replay(ops: seq<Op>): Maps {
    if ops == [] then Maps(map[], map[]) else Step(Replay(ops[..|ops| - 1]), ops[|ops| - 1])
  }

  /** Removing the key from the trie that holds m can go wrong: it does with some store. */
  ghost predicate Endangers(m: BytesMap, key: ByteString, names: Naming) {
    exists n :: Canonical(n) && Represents(n, m) && Risky(n, AsNibbles(key), names)
  }

  /** Inserted values are not empty, no removal can go wrong, and only a store with a disk commits. */
  ghost predicate Admissible(ops: seq<Op>, hasDisk: bool, names: Naming) {
    && (forall i :: 0 <= i < |ops| && ops[i].Insert? ==> ops[i].value != [])
    && (forall i :: 0 <= i < |ops| && ops[i].Remove? ==> !Endangers(Replay(ops[..i]).current, ops[i].key, names))
    && (hasDisk || forall i :: 0 <= i < |ops| ==> ops[i].Insert? || ops[i].Remove?)
  }

  ghost predicate AllOfLength(m: BytesMap, length: nat) {
    forall key :: key in m ==> |key| == length
  }

  ghost predicate OneLength(ops: seq<Op>, length: nat) {
    forall i :: 0 <= i < |ops| && (ops[i].Insert? || ops[i].Remove?) ==> |ops[i].key| == length
  }

  lemma {:induction false} ReplayOfLength(ops: seq<Op>, i: nat, length: nat)
    requires OneLength(ops, length) && i <= |ops|
    ensures AllOfLength(Replay(ops[..i]).current, length) && AllOfLength(Replay(ops[..i]).committed, length)
  {
    if i > 0 {
      ReplayOfLength(ops, i - 1, length);
      assert ops[..i][..i - 1] == ops[..i - 1];
    }
  }

  lemma OfLengthNeverFaulty(n: Node, m: BytesMap, key: ByteString, f: Finder, w: Fault)
    requires Canonical(n) && Represents(n, m) && AllOfLength(m, |key|)
    ensures !Faulty(n, AsNibbles(key), f, w)
  {
    forall x | At(n, x) != []
      ensures |x| == |AsNibbles(key)|
    {
      var l :| l in m && AsNibbles(l) == x;
    }
    NeverFaulty(n, AsNibbles(key), f, w);
  }

  /** Where all keys have one length, no removal can go wrong, whatever the values are. */
  lemma OneLengthAdmissible(ops: seq<Op>, hasDisk: bool, length: nat, names: Naming)
    requires OneLength(ops, length) && forall i :: 0 <= i < |ops| && ops[i].Insert? ==> ops[i].value != []
    requires hasDisk || forall i :: 0 <= i < |ops| ==> ops[i].Insert? || ops[i].Remove?
    ensures Admissible(ops, hasDisk, names)
  {
    hide Canonical; hide Represents; hide Risky; hide Faulty; hide Replay;
    forall i | 0 <= i < |ops| && ops[i].Remove?
      ensures !Endangers(Replay(ops[..i]).current, ops[i].key, names)
    {
      ReplayOfLength(ops, i, length);
      var m, key := Replay(ops[..i]).current, ops[i].key;
      forall n | Canonical(n) && Represents(n, m)
        ensures !Risky(n, AsNibbles(key), names)
      {
        OfLengthNotRisky(n, m, key, names);
      }
    }
  }

  lemma OfLengthNotRisky(n: Node, m: BytesMap, key: ByteString, names: Naming)
    requires Canonical(n) && Represents(n, m) && AllOfLength(m, |key|)
    ensures !Risky(n, AsNibbles(key), names)
  {
    hide Canonical; hide Represents; hide Risky; hide Faulty;
    RiskyIff(n, AsNibbles(key), names);
    forall known, w
      ensures !Faulty(n, AsNibbles(key), Finder(names, known), w)
    {
      OfLengthNeverFaulty(n, m, key, Finder(names, known), w);
    }
  }

  /** A root from which the committed map can be opened again. */
  ghost predicate Restorable(t: GenericTrieDB, root: Hash, m: BytesMap)
    reads t, t.store
  {
    Canonical(root.preimage) && Represents(root.preimage, m) && (root == EMPTY_TRIE || t.OnDisk(root.preimage))
  }

  /** What holds between the operations of a run. */
  ghost predicate InStep(t: GenericTrieDB, s: Maps, committedRoot: Hash)
    reads t, t.store
  {
    t.Valid() && Represents(t.root.preimage, s.current) && Restorable(t, committedRoot, s.committed)
  }

  lemma NotEndangered(n: Node, m: BytesMap, key: ByteString, f: Finder)
    requires Canonical(n) && Represents(n, m) && !Endangers(m, key, f.names)
    ensures !Faulty(n, AsNibbles(key), f, Throw) && !Faulty(n, AsNibbles(key), f, Mislead)
  {
    hide Canonical; hide Represents; hide Risky; hide Faulty;
    forall w | Faulty(n, AsNibbles(key), f, w)
      ensures false
    {
      FaultyIsRisky(n, AsNibbles(key), f, w);
    }
  }

  method Perform(t: GenericTrieDB, op: Op, committedRoot: Hash, ghost s: Maps) returns (newRoot: Hash)
    requires InStep(t, s, committedRoot)
    requires op.Insert? ==> op.value != []
    requires op.Remove? ==> !Endangers(s.current, op.key, t.names)
    requires op.Commit? || op.Reopen? ==> t.store.hasDisk
    modifies t`root, t`others, t.store`main, t.store`ledger, t.store`disk
    ensures InStep(t, Step(s, op), newRoot) && (!op.Reopen? ==> t.others == old(t.others))
  {
    newRoot := committedRoot;
    ghost var before := t.root.preimage;
    match op {
      case Insert(k, v) =>
        t.Insert(k, v);
        RepresentsUpdated(before, t.root.preimage, s.current, k, v);
      case Remove(k) =>
        NotEndangered(before, s.current, k, t.Found());
        var end := t.Remove(k);
        assert end.Done?;
        RepresentsUpdated(before, t.root.preimage, s.current, k, []);
      case Commit =>
        t.Commit();
        newRoot := t.root;
      case Reopen =>
        t.store.Rollback();
        var found := t.SetRoot(committedRoot);
        assert found;
    }
  }

  /** Every node of the trie can be looked up, and in memory nothing else is counted. */
  lemma StoreExact(t: GenericTrieDB)
    requires t.Valid()
    ensures forall h :: h == t.root || Occurs(t.root.preimage, h) > 0 ==> t.store.Lookup(h) == Some(h.preimage)
    ensures !t.store.hasDisk ==>
              forall h :: t.store.Count(h) == t.others[h] + (if h == t.root then 1 else 0) + Occurs(t.root.preimage, h)
  {
    forall h | h == t.root || Occurs(t.root.preimage, h) > 0
      ensures t.store.Lookup(h) == Some(h.preimage)
    {
      assert t.store.ledger[h] > 0;
    }
  }

  /** Runs the operations on an empty trie. Whatever the run, the trie is in order and holds exactly what
      the operations leave in a map, and the last committed map can be had back. */
  method Run(t: GenericTrieDB, ops: seq<Op>) returns (committedRoot: Hash)
    requires t.Valid() && t.root == EMPTY_TRIE && Admissible(ops, t.store.hasDisk, t.names)
    modifies t`root, t`others, t.store`main, t.store`ledger, t.store`disk
    ensures t.Valid() && Represents(t.root.preimage, Replay(ops).current)
    ensures Restorable(t, committedRoot, Replay(ops).committed)
    ensures forall n :: Canonical(n) && Represents(n, Replay(ops).current) ==> t.root == Sha3(n)
    ensures !t.store.hasDisk ==> t.others == old(t.others)
    ensures forall h :: h == t.root || Occurs(t.root.preimage, h) > 0 ==> t.store.Lookup(h) == Some(h.preimage)
    ensures !t.store.hasDisk ==>
              forall h :: t.store.Count(h) == t.others[h] + (if h == t.root then 1 else 0) + Occurs(t.root.preimage, h)
  {
    committedRoot := EMPTY_TRIE;
    RepresentsEmpty();
    ghost var s := Maps(map[], map[]);
    for i := 0 to |ops|
      invariant InStep(t, s, committedRoot) && s == Replay(ops[..i])
      invariant !t.store.hasDisk ==> t.others == old(t.others)
    {
      assert ops[..i + 1][..i] == ops[..i];
      committedRoot := Perform(t, ops[i], committedRoot, s);
      s := Step(s, ops[i]);
    }
    assert ops[..|ops|] == ops;
    StoreExact(t);
    forall n | Canonical(n) && Represents(n, Replay(ops).current)
      ensures t.root == Sha3(n)
    {
      RootDetermined(t.root.preimage, n, Replay(ops).current);
    }
  }

  /** The root after a run is the hash of the map that the operations leave. */
  method RunAndHash(t: GenericTrieDB, ops: seq<Op>) returns (h: Hash)
    requires t.Valid() && t.root == EMPTY_TRIE && Admissible(ops, t.store.hasDisk, t.names)
    modifies t`root, t`others, t.store`main, t.store`ledger, t.store`disk
    ensures t.root == h && Represents(h.preimage, Replay(ops).current)
  {
    hide Represents; hide Canonical; hide Admissible; hide Replay;
    var _ := Run(t, ops);
    ValuesNotEmpty(t.root.preimage, Replay(ops).current);
    h := Hash256Map(Replay(ops).current);
  }

  lemma ValuesNotEmpty(n: Node, m: BytesMap)
    requires Represents(n, m)
    ensures forall key :: key in m ==> m[key] != []
  {
  }
}
