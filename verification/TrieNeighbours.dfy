/** Two tries in one store: whatever the one does, the other keeps its contents. */
module TrieNeighbours {
  import opened TrieNode
  import opened TrieSteps
  import opened TrieStray
  import opened TrieRemoval
  import opened NodeStore
  import opened TrieDB
  import opened TrieRuns

  /** References that a trie holds to x. */
  ghost function Held(root: Hash, x: Hash): nat {
    (if x == root then 1 else 0) + Occurs(root.preimage, x)
  }

  /** Both are in order in one store, which counts the references of both. */
  ghost predicate Beside(a: GenericTrieDB, b: GenericTrieDB)
    reads a, b, a.store, b.store
  {
    && a != b && a.store == b.store && a.Valid() && b.Valid()
    && forall x :: Held(a.root, x) + Held(b.root, x) <= a.store.ledger[x]
  }

  ghost function HeldBy(root: Hash): (r: multiset<Hash>)
    ensures forall x :: r[x] == Held(root, x)
  {
    var r := multiset{root} + Hashes(root.preimage);
    assert forall x :: r[x] == Held(root, x) by {
      forall x
        ensures r[x] == Held(root, x)
      {
        HashesCount(root.preimage, x);
      }
    }
    r
  }

  /** After a step of a, its neighbour accounts for the new references as those of another. */
  ghost method Resettle(a: GenericTrieDB, b: GenericTrieDB)
    requires a != b && a.store == b.store && a.Valid() && Canonical(b.root.preimage)
    requires forall x :: Held(b.root, x) <= a.others[x]
    modifies b`others
    ensures Beside(a, b)
  {
    hide Occurs; hide Canonical; hide Provisional; hide WellKept;
    a.RootFacts();
    b.others := a.store.ledger - HeldBy(b.root);
  }

  /** A second, empty trie in the store of another. */
  method OpenBeside(a: GenericTrieDB, names: Naming) returns (b: GenericTrieDB)
    requires a.Valid()
    modifies a`others, a.store`main, a.store`ledger
    ensures fresh(b) && Beside(a, b) && b.names == names && b.root == EMPTY_TRIE && a.root == old(a.root)
  {
    hide Canonical; hide Provisional; hide WellKept;
    a.RootFacts();
    b := new GenericTrieDB(a.store, names);
    Resettle(b, a);
  }

  /** One operation of a. */
  method Take(a: GenericTrieDB, b: GenericTrieDB, op: Op, ghost m: BytesMap)
    requires Beside(a, b) && Represents(a.root.preimage, m)
    requires op.Insert? ==> op.value != []
    requires op.Remove? ==> !Endangers(m, op.key, a.names)
    requires op.Insert? || op.Remove? || (op.Commit? && a.store.hasDisk)
    modifies a`root, b`others, a.store`main, a.store`ledger, a.store`disk
    ensures Beside(a, b) && b.root == old(b.root)
    ensures Represents(a.root.preimage, Step(Maps(m, m), op).current)
  {
    hide Represents; hide Occurs; hide Canonical; hide WellKept; hide Faulty; hide Stray; hide Endangers; hide NoneProvisional;
    ghost var before := a.root.preimage;
    assert forall x :: Held(b.root, x) <= a.others[x];
    match op {
      case Insert(k, v) =>
        a.Insert(k, v);
        RepresentsUpdated(before, a.root.preimage, m, k, v);
      case Remove(k) =>
        NotEndangered(before, m, k, a.Found());
        var end := a.Remove(k);
        assert end.Done?;
        RepresentsUpdated(before, a.root.preimage, m, k, []);
      case Commit =>
        a.Commit();
    }
    Resettle(a, b);
  }

  /** An operation of the one or the other. */
  datatype Turn = Turn(byA: bool, op: Op)

  /** What one of the two does in a run. */
  function Own(turns: seq<Turn>, byA: bool): seq<Op> {
    if turns == [] then []
    else
      var t := turns[|turns| - 1];
      Own(turns[..|turns| - 1], byA) + if t.byA == byA then [t.op] else []
  }

  /** Neither rolls the store back, and what each does is admissible on its own. */
  ghost predicate Orderly(turns: seq<Turn>, hasDisk: bool, names: bool -> Naming) {
    forall i :: 0 <= i < |turns| ==> Fitting(turns[..i], turns[i], hasDisk, names)
  }

  ghost predicate Fitting(past: seq<Turn>, t: Turn, hasDisk: bool, names: bool -> Naming) {
    && (t.op.Insert? ==> t.op.value != [])
    && (t.op.Remove? ==> !Endangers(Replay(Own(past, t.byA)).current, t.op.key, names(t.byA)))
    && (t.op.Insert? || t.op.Remove? || (t.op.Commit? && hasDisk))
  }

  lemma OwnNext(turns: seq<Turn>, i: nat, byA: bool)
    requires i < |turns|
    ensures var ops, next := Own(turns[..i], byA), Own(turns[..i + 1], byA);
            Replay(next).current ==
              if turns[i].byA == byA then Step(Replay(ops), turns[i].op).current else Replay(ops).current
  {
    assert turns[..i + 1][..i] == turns[..i];
    var ops, next := Own(turns[..i], byA), Own(turns[..i + 1], byA);
    if turns[i].byA == byA {
      assert next[..|next| - 1] == ops;
    } else {
      assert next == ops + [] == ops;
    }
  }

  /** However the operations on two tries in one store interleave, each represents what its own operations leave,
      and has the root that those contents determine. */
  method Interleave(a: GenericTrieDB, b: GenericTrieDB, turns: seq<Turn>, ghost names: bool -> Naming)
    requires Beside(a, b) && a.root == EMPTY_TRIE && b.root == EMPTY_TRIE
    requires names(true) == a.names && names(false) == b.names && Orderly(turns, a.store.hasDisk, names)
    modifies a`root, a`others, b`root, b`others, a.store`main, a.store`ledger, a.store`disk
    ensures Beside(a, b)
    ensures Represents(a.root.preimage, Replay(Own(turns, true)).current)
    ensures Represents(b.root.preimage, Replay(Own(turns, false)).current)
    ensures forall n :: Canonical(n) && Represents(n, Replay(Own(turns, true)).current) ==> a.root == Sha3(n)
    ensures forall n :: Canonical(n) && Represents(n, Replay(Own(turns, false)).current) ==> b.root == Sha3(n)
  {
    RepresentsEmpty();
    hide Represents; hide Occurs; hide WellKept; hide Endangers; hide NoneProvisional;
    for i := 0 to |turns|
      invariant Beside(a, b)
      invariant Represents(a.root.preimage, Replay(Own(turns[..i], true)).current)
      invariant Represents(b.root.preimage, Replay(Own(turns[..i], false)).current)
    {
      assert Fitting(turns[..i], turns[i], a.store.hasDisk, names);
      OwnNext(turns, i, true);
      OwnNext(turns, i, false);
      ghost var m := Replay(Own(turns[..i], turns[i].byA)).current;
      hide Own; hide Replay;
      if turns[i].byA {
        Take(a, b, turns[i].op, m);
      } else {
        Take(b, a, turns[i].op, m);
      }
    }
    assert turns[..|turns|] == turns;
    forall n | Canonical(n) && Represents(n, Replay(Own(turns, true)).current)
      ensures a.root == Sha3(n)
    {
      RootDetermined(a.root.preimage, n, Replay(Own(turns, true)).current);
    }
    forall n | Canonical(n) && Represents(n, Replay(Own(turns, false)).current)
      ensures b.root == Sha3(n)
    {
      RootDetermined(b.root.preimage, n, Replay(Own(turns, false)).current);
    }
  }
}
