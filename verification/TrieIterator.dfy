/** `GenericTrieDB::iterator`: a walk over the trie with an explicit trail of half-visited nodes. */
module TrieIterator {
  import opened Bytes
  import opened TrieNode
  import opened TrieSteps
  import opened TrieHash
  import opened TrieEntries
  import opened TrieSeek
  import opened NodeStore
  import opened TrieDB

  const ENTERING := 255
  const VALUE := 16
  const EXITING := 17

  /** A node on the trail, the key that leads to it, and the slot the walk is at. */
  datatype TrailNode = TrailNode(node: Node, key: Nibbles, child: int)

  /** Slots are visited in the order 16, 0, 1, ..., 15, 17. */
  function Increment(child: int): int {
    if child == VALUE then 0 else if child == 15 then EXITING else child + 1
  }

  /** The entries of a branch from a slot on. */
  function EntriesFrom(n: Node, child: int): seq<KeyValue>
    requires n.Branch?
  {
    if child == VALUE then Entries(n) else if 0 <= child < 16 then ChildEntries(n.children, child) else []
  }

  /** What is still to come below a node on the trail, after the slot it is at. */
  function Pending(t: TrailNode): seq<KeyValue> {
    if t.child == ENTERING then Prefixed(t.key, Entries(t.node))
    else if t.node.Branch? then Prefixed(t.key, EntriesFrom(t.node, Increment(t.child)))
    else []
  }

  /** All that is still to come. */
  function Rest(trail: seq<TrailNode>): seq<KeyValue> {
    if trail == [] then [] else Pending(trail[|trail| - 1]) + Rest(trail[..|trail| - 1])
  }

  /** What is still to come of a search that has k left to match. */
  function Aim(trail: seq<TrailNode>, k: Nibbles): seq<KeyValue> {
    if k == [] || trail == [] then Rest(trail)
    else
      var t := trail[|trail| - 1];
      Prefixed(t.key, Seek(Entries(t.node), k)) + Rest(trail[..|trail| - 1])
  }

  /** The walk stands at an entry. */
  predicate AtEntry(trail: seq<TrailNode>) {
    trail != [] &&
    var t := trail[|trail| - 1];
    t.node.Leaf? || (t.node.Branch? && t.child == VALUE)
  }

  /** The entry the walk stands at (`iterator::at`). */
  function Current(trail: seq<TrailNode>): KeyValue
    requires AtEntry(trail)
  {
    var t := trail[|trail| - 1];
    KeyValue(t.key, t.node.value)
  }

  /** The trail stands at the first of es, and the others are to come. */
  ghost predicate StandsAt(trail: seq<TrailNode>, es: seq<KeyValue>) {
    if es == [] then trail == []
    else AtEntry(trail) && Current(trail) == es[0] && Rest(trail) == es[1..]
  }

  // Termination

  ghost function Cost(n: Node): nat
    decreases n, 1
  {
    match n
    case Null => 1
    case Leaf(_, _) => 2
    case Ext(_, c) => 1 + RefCost(c)
    case Branch(cs, _) => 2 + ChildCost(cs, 0)
  }

  ghost function RefCost(r: Ref): nat
    ensures RefCost(r) == Cost(r.Deref())
    decreases r, 1
  {
    match r
    case Inline(n) => Cost(n)
    case Hashed(h) => Cost(h.preimage)
  }

  ghost function ChildCost(cs: seq<Ref>, i: nat): nat
    decreases cs, 0, 16 - i
  {
    if i < |cs| && i < 16 then 1 + RefCost(cs[i]) + ChildCost(cs, i + 1) else 0
  }

  ghost function CostFrom(n: Node, child: int): nat
    requires n.Branch?
  {
    if child == VALUE then ChildCost(n.children, 0) else if 0 <= child < 16 then ChildCost(n.children, child) else 0
  }

  /** Steps left below a node on the trail. */
  ghost function Work(t: TrailNode): nat {
    if t.child == ENTERING then Cost(t.node)
    else if t.node.Branch? then 1 + CostFrom(t.node, Increment(t.child))
    else 1
  }

  ghost function TotalWork(trail: seq<TrailNode>): nat {
    if trail == [] then 0 else Work(trail[|trail| - 1]) + TotalWork(trail[..|trail| - 1])
  }

  lemma Push(trail: seq<TrailNode>, t: TrailNode)
    ensures Rest(trail + [t]) == Pending(t) + Rest(trail)
    ensures TotalWork(trail + [t]) == Work(t) + TotalWork(trail)
    ensures forall k :: k != [] ==> Aim(trail + [t], k) == Prefixed(t.key, Seek(Entries(t.node), k)) + Rest(trail)
  {
    assert (trail + [t])[..|trail|] == trail;
  }

  /** `NibbleSlice::isEarlierThan`: the order of keys, a proper prefix first. */
  method IsEarlierThan(key: Nibbles, k: Nibbles) returns (b: bool)
    ensures b == Less(key, k)
  {
    var i := 0;
    while i < |k| && i < |key|
      invariant 0 <= i <= |k| && i <= |key| && key[..i] == k[..i]
    {
      if key[i] != k[i] {
        LessCommonPrefix(key[..i], key[i..], k[i..]);
        assert key == key[..i] + key[i..] && k == key[..i] + k[i..];
        return key[i] < k[i];
      }
      i := i + 1;
    }
    LessCommonPrefix(key[..i], key[i..], k[i..]);
    assert key == key[..i] + key[i..] && k == key[..i] + k[i..];
    b := i < |k|;
  }

  /** The branch t, off the trail, is about to be looked at from slot t.child on, with k left to match there. */
  ghost predicate CanScan(t: TrailNode, k: Nibbles) {
    t.node.Branch? && |t.node.children| == 16 && 0 <= t.child <= 17 && (k != [] ==> t.child < 16)
  }

  ghost function Candidate(t: TrailNode, k: Nibbles): seq<KeyValue>
    requires CanScan(t, k)
  {
    if k == [] then Prefixed(t.key, EntriesFrom(t.node, t.child))
    else Prefixed(t.key + [t.child], Seek(RefEntries(t.node.children[t.child]), k)) + Pending(t)
  }

  /** A search with nibbles left to match is about to enter a node. */
  ghost predicate Searching(trail: seq<TrailNode>, k: Nibbles) {
    k != [] ==> trail != [] && trail[|trail| - 1].child == ENTERING
  }

  lemma ValueSplit(t: TrailNode, below: seq<KeyValue>)
    requires CanScan(t, []) && t.child == VALUE && t.node.value != []
    ensures Candidate(t, []) + below == [KeyValue(t.key, t.node.value)] + (Pending(t) + below)
  {
    PrefixedConcat(t.key, [KeyValue([], t.node.value)], ChildEntries(t.node.children, 0));
    assert t.key + [] == t.key;
    assert Prefixed(t.key, [KeyValue([], t.node.value)]) == [KeyValue(t.key, t.node.value)];
  }

  /** Entering a slot splits what is to come. */
  lemma SlotSplit(t: TrailNode, k: Nibbles, below: seq<KeyValue>)
    requires CanScan(t, k) && t.child < 16
    ensures var es := RefEntries(t.node.children[t.child]);
            Candidate(t, k) + below ==
              Prefixed(t.key + [t.child], if k == [] then es else Seek(es, k)) + (Pending(t) + below)
  {
    var es := RefEntries(t.node.children[t.child]);
    PrefixedConcat(t.key, Prefixed([t.child], es), ChildEntries(t.node.children, t.child + 1));
    PrefixedTwice(t.key, [t.child], es);
  }

  lemma SlotEntered(below: seq<TrailNode>, t: TrailNode, k: Nibbles)
    requires CanScan(t, k) && t.child < 16
    ensures var trail := below + [t] + [TrailNode(t.node.children[t.child].Deref(), t.key + [t.child], ENTERING)];
            && Aim(trail, k) == Candidate(t, k) + Rest(below)
            && TotalWork(trail) <= CostFrom(t.node, t.child) + TotalWork(below)
  {
    Push(below, t);
    Push(below + [t], TrailNode(t.node.children[t.child].Deref(), t.key + [t.child], ENTERING));
    SlotSplit(t, k, Rest(below));
  }

  /** An unused slot contributes nothing. */
  lemma SlotSkip(t: TrailNode, k: Nibbles)
    requires CanScan(t, k) && t.child <= 16 && !Used(t.node.children, t.node.value, t.child)
    ensures var u := t.(child := Increment(t.child));
            && Candidate(u, []) == Candidate(t, k)
            && CostFrom(u.node, u.child) <= CostFrom(t.node, t.child)
  {
    var u := t.(child := Increment(t.child));
    if t.child < 16 {
      assert RefEntries(t.node.children[t.child]) == Entries(Null) == [];
      assert Prefixed([t.child], []) + ChildEntries(t.node.children, t.child + 1) == ChildEntries(t.node.children, t.child + 1);
    } else {
      assert Entries(t.node) == ChildEntries(t.node.children, 0);
    }
    assert EntriesFrom(t.node, t.child) == EntriesFrom(u.node, u.child);
  }

  lemma StartPending(n: Node)
    ensures Rest([TrailNode(n, [], ENTERING)]) == Entries(n)
  {
    PrefixedNothing(Entries(n));
    Push([], TrailNode(n, [], ENTERING));
    assert [] + [TrailNode(n, [], ENTERING)] == [TrailNode(n, [], ENTERING)];
  }

  lemma LeafPending(t: TrailNode)
    requires t.node.Leaf? && t.child == ENTERING
    ensures Pending(t) == [KeyValue(t.key + t.node.path, t.node.value)]
  {
  }

  lemma LeafEntered(below: seq<TrailNode>, t: TrailNode)
    requires t.node.Leaf? && t.child == ENTERING
    ensures var trail := below + [TrailNode(t.node, t.key + t.node.path, 0)];
            AtEntry(trail) && StandsAt(trail, Pending(t) + Rest(below))
  {
    var u := TrailNode(t.node, t.key + t.node.path, 0);
    Push(below, u);
    NothingPending(u, below);
    LeafPending(t);
    assert (Pending(t) + Rest(below))[1..] == Rest(below);
  }

  lemma ExtEntered(below: seq<TrailNode>, t: TrailNode)
    requires t.node.Ext? && t.child == ENTERING
    ensures var trail := below + [TrailNode(t.node.child.Deref(), t.key + t.node.path, ENTERING)];
            Rest(trail) == Pending(t) + Rest(below) && TotalWork(trail) < Work(t) + TotalWork(below)
  {
    var n := t.node.child.Deref();
    PrefixedTwice(t.key, t.node.path, Entries(n));
    Push(below, TrailNode(n, t.key + t.node.path, ENTERING));
  }

  lemma NothingPending(t: TrailNode, below: seq<TrailNode>)
    requires if t.child == ENTERING then t.node.Null? else !t.node.Branch?
    ensures Pending(t) + Rest(below) == Rest(below) && Work(t) > 0
  {
    assert Pending(t) == [];
  }

  lemma BranchPending(t: TrailNode, child: int)
    requires t.node.Branch? && |t.node.children| == 16
    requires t.child == ENTERING || 0 <= t.child <= 16
    requires child == if t.child == ENTERING then VALUE else Increment(t.child)
    ensures CanScan(t.(child := child), []) && Candidate(t.(child := child), []) == Pending(t)
    ensures CostFrom(t.node, child) < Work(t)
  {
  }

  /** A node whose references can all be looked up. */
  ghost predicate Reachable(n: Node, ledger: multiset<Hash>) {
    Canonical(n) && forall x :: Occurs(n, x) > 0 ==> x in ledger
  }

  ghost predicate Good(t: TrailNode, ledger: multiset<Hash>) {
    && Reachable(t.node, ledger)
    && (t.child == ENTERING || (t.node.Leaf? && t.child == 0) || (t.node.Branch? && 0 <= t.child <= 16))
  }

  ghost predicate GoodTrail(trail: seq<TrailNode>, ledger: multiset<Hash>) {
    forall i :: 0 <= i < |trail| ==> Good(trail[i], ledger)
  }

  ghost predicate Held(r: Ref, ledger: multiset<Hash>) {
    r.Hashed? ==> r.hash in ledger
  }

  lemma ExtReaches(n: Node, ledger: multiset<Hash>)
    requires n.Ext? && Reachable(n, ledger)
    ensures Reachable(n.child.Deref(), ledger) && Held(n.child, ledger)
  {
    SealOccurs(n.child);
    assert n.child.Hashed? ==> Occurs(n, n.child.hash) > 0;
  }

  lemma BranchReaches(n: Node, i: nat, ledger: multiset<Hash>)
    requires n.Branch? && Reachable(n, ledger) && i < 16
    ensures Reachable(n.children[i].Deref(), ledger) && Held(n.children[i], ledger)
  {
    var c := n.children[i];
    assert CanonicalRef(c);
    SealOccurs(c);
    forall x
      ensures RefOccurs(c, x) <= Occurs(n, x)
    {
      AllOccursUpdate(n.children, i, c, x);
    }
    assert c.Hashed? ==> RefOccurs(c, c.hash) > 0;
  }

  method Deref(db: OverlayDB, r: Ref) returns (n: Node)
    requires db.Valid() && Held(r, db.ledger)
    ensures n == r.Deref()
  {
    if r.Inline? {
      n := r.node;
    } else {
      n := db.Lookup(r.hash).value;
    }
  }

  /** The loop over the slots of the branch on top: stops at its value, enters a child, or leaves. */
  method Scan(db: OverlayDB, below: seq<TrailNode>, t0: TrailNode, key: Nibbles)
    returns (found: bool, trail: seq<TrailNode>, k: Nibbles)
    requires db.Valid() && GoodTrail(below, db.ledger) && Reachable(t0.node, db.ledger) && CanScan(t0, key)
    ensures GoodTrail(trail, db.ledger) && (key == [] ==> k == [])
    ensures found ==> AtEntry(trail) && StandsAt(trail, Candidate(t0, key) + Rest(below))
    ensures !found ==> Aim(trail, k) == Candidate(t0, key) + Rest(below) && Searching(trail, k)
    ensures !found ==> TotalWork(trail) <= CostFrom(t0.node, t0.child) + TotalWork(below)
  {
    k := key;
    var t := t0;
    while t.child != EXITING
      invariant t == t0.(child := t.child) && CanScan(t, k)
      invariant CostFrom(t.node, t.child) <= CostFrom(t0.node, t0.child)
      invariant Candidate(t, k) == Candidate(t0, key) && (key == [] ==> k == [])
      decreases if t.child == VALUE then 18 else 17 - t.child
    {
      if t.child == VALUE && t.node.value != [] {
        trail := below + [t];
        Push(below, t);
        ValueSplit(t, Rest(below));
        return true, trail, k;
      }
      if t.child != VALUE && !t.node.children[t.child].IsEmpty() {
        trail := EnterSlot(db, below, t, k);
        return false, trail, k;
      }
      SlotSkip(t, k);
      k := [];
      t := t.(child := Increment(t.child));
    }
    return false, below, [];
  }

  /** Takes up the child in the current slot. */
  method EnterSlot(db: OverlayDB, below: seq<TrailNode>, t: TrailNode, k: Nibbles) returns (trail: seq<TrailNode>)
    requires db.Valid() && GoodTrail(below, db.ledger) && Reachable(t.node, db.ledger) && CanScan(t, k) && t.child < 16
    ensures GoodTrail(trail, db.ledger) && Searching(trail, k)
    ensures Aim(trail, k) == Candidate(t, k) + Rest(below)
    ensures TotalWork(trail) <= CostFrom(t.node, t.child) + TotalWork(below)
  {
    hide Size; hide Occurs; hide Rest; hide Aim; hide Candidate; hide TotalWork; hide CostFrom; hide TwoUsed; hide WellKept;
    BranchReaches(t.node, t.child, db.ledger);
    var n := Deref(db, t.node.children[t.child]);
    trail := below + [t] + [TrailNode(n, t.key + [t.child], ENTERING)];
    SlotEntered(below, t, k);
  }

  /** Entering a leaf or an extension: stands at the leaf, or goes on into the node below. */
  method EnterPair(db: OverlayDB, below: seq<TrailNode>, t: TrailNode) returns (done: bool, trail: seq<TrailNode>)
    requires db.Valid() && GoodTrail(below, db.ledger) && Good(t, db.ledger) && Pair(t.node) && t.child == ENTERING
    ensures GoodTrail(trail, db.ledger) && done == t.node.Leaf?
    ensures done ==> AtEntry(trail) && StandsAt(trail, Pending(t) + Rest(below))
    ensures !done ==> trail == below + [TrailNode(t.node.child.Deref(), t.key + t.node.path, ENTERING)]
    ensures !done ==> Rest(trail) == Pending(t) + Rest(below) && TotalWork(trail) < Work(t) + TotalWork(below)
  {
    var key := t.key + t.node.path;
    if t.node.Leaf? {
      done, trail := true, below + [TrailNode(t.node, key, 0)];
      LeafEntered(below, t);
    } else {
      ExtReaches(t.node, db.ledger);
      var n := Deref(db, t.node.child);
      done, trail := false, below + [TrailNode(n, key, ENTERING)];
      ExtEntered(below, t);
    }
  }

  /** One round of `next()`: resolves the node on top. */
  method Round(db: OverlayDB, trail: seq<TrailNode>) returns (done: bool, trail': seq<TrailNode>)
    requires db.Valid() && GoodTrail(trail, db.ledger) && trail != []
    ensures GoodTrail(trail', db.ledger)
    ensures done ==> AtEntry(trail') && StandsAt(trail', Rest(trail))
    ensures !done ==> Rest(trail') == Rest(trail) && TotalWork(trail') < TotalWork(trail)
  {
    var below, t := trail[..|trail| - 1], trail[|trail| - 1];
    assert Rest(trail) == Pending(t) + Rest(below) && TotalWork(trail) == Work(t) + TotalWork(below);
    if t.child == ENTERING {
      if t.node.Null? {
        NothingPending(t, below);
        return false, below;
      }
      if Pair(t.node) {
        done, trail' := EnterPair(db, below, t);
        return;
      }
      BranchPending(t, VALUE);
      t := t.(child := VALUE);
    } else {
      if !t.node.Branch? {
        NothingPending(t, below);
        return false, below;
      }
      BranchPending(t, Increment(t.child));
      t := t.(child := Increment(t.child));
    }
    var k;
    done, trail', k := Scan(db, below, t, []);
  }

  /** The search of a node about to be entered, with k left to match. */
  ghost function Target(t: TrailNode, k: Nibbles): seq<KeyValue> {
    Prefixed(t.key, Seek(Entries(t.node), k))
  }

  lemma AimTop(trail: seq<TrailNode>, k: Nibbles)
    requires trail != [] && trail[|trail| - 1].child == ENTERING
    ensures Aim(trail, k) == Target(trail[|trail| - 1], k) + Rest(trail[..|trail| - 1])
  {
    SeekEmptyKey(Entries(trail[|trail| - 1].node));
  }

  lemma PairEntries(n: Node)
    requires Pair(n)
    ensures n.Leaf? ==> Entries(n) == Prefixed(n.path, [KeyValue([], n.value)])
    ensures n.Ext? ==> Entries(n) == Prefixed(n.path, Entries(n.child.Deref()))
  {
    assert n.path + [] == n.path;
  }

  /** What is to come of a pair whose path does not start the search key. */
  lemma PairMissed(t: TrailNode, k: Nibbles)
    requires Pair(t.node) && !(t.node.path <= k)
    ensures Less(k, t.node.path) ==> Target(t, k) == Target(t, [])
    ensures !Less(k, t.node.path) ==> Target(t, k) == []
  {
    PairEntries(t.node);
    var es := if t.node.Leaf? then [KeyValue([], t.node.value)] else Entries(t.node.child.Deref());
    SeekEmptyKey(Entries(t.node));
    if Less(k, t.node.path) {
      SeekEarlier(t.node.path, es, k);
    } else {
      SeekLater(t.node.path, es, k);
    }
  }

  /** The search goes on below an extension with the rest of the key. */
  lemma ExtSought(t: TrailNode, k: Nibbles)
    requires t.node.Ext? && t.node.path <= k
    ensures Target(t, k) == Target(TrailNode(t.node.child.Deref(), t.key + t.node.path, ENTERING), k[|t.node.path|..])
  {
    var p, es := t.node.path, Entries(t.node.child.Deref());
    assert k == p + k[|p|..];
    SeekPrefixed(p, es, k[|p|..]);
    PrefixedTwice(t.key, p, Seek(es, k[|p|..]));
  }

  /** A leaf is found by its own key only. */
  lemma LeafSought(t: TrailNode, k: Nibbles)
    requires t.node.Leaf? && t.node.path <= k
    ensures Target(t, k) == if k == t.node.path then Target(t, []) else []
  {
    var p := t.node.path;
    PairEntries(t.node);
    SeekEmptyKey(Entries(t.node));
    assert k == p + k[|p|..];
    SeekPrefixed(p, [KeyValue([], t.node.value)], k[|p|..]);
  }

  lemma BranchSought(t: TrailNode, k: Nibbles)
    requires t.node.Branch? && |t.node.children| == 16 && t.child == ENTERING
    ensures var u := t.(child := if k == [] then VALUE else k[0]);
            var l := if k == [] then k else k[1..];
            CanScan(u, l) && Candidate(u, l) == Target(t, k) && CostFrom(u.node, u.child) < Work(t)
  {
    SeekEmptyKey(Entries(t.node));
    if k != [] {
      var u := t.(child := k[0]);
      var es := RefEntries(t.node.children[k[0]]);
      SeekBranch(t.node.children, t.node.value, k);
      PrefixedConcat(t.key, Prefixed([k[0]], Seek(es, k[1..])), ChildEntries(t.node.children, k[0] as int + 1));
      PrefixedTwice(t.key, [k[0]], Seek(es, k[1..]));
      SlotSplit(u, [], []);
      SeekEmptyKey(es);
      ChildCostDrops(t.node.children, 0, k[0]);
    }
  }

  lemma {:induction false} ChildCostDrops(cs: seq<Ref>, i: nat, j: nat)
    requires |cs| == 16 && i <= j < 16
    ensures ChildCost(cs, j) <= ChildCost(cs, i)
    decreases j - i
  {
    if i < j {
      ChildCostDrops(cs, i + 1, j);
    }
  }

  /** Entering a leaf or an extension in search of k. */
  method EnterPairFor(db: OverlayDB, below: seq<TrailNode>, t: TrailNode, key: Nibbles)
    returns (done: bool, trail: seq<TrailNode>, k: Nibbles)
    requires db.Valid() && GoodTrail(below, db.ledger) && Good(t, db.ledger) && Pair(t.node) && t.child == ENTERING
    ensures GoodTrail(trail, db.ledger)
    ensures done ==> AtEntry(trail) && StandsAt(trail, Target(t, key) + Rest(below))
    ensures !done ==> Aim(trail, k) == Target(t, key) + Rest(below) && Searching(trail, k)
    ensures !done ==> TotalWork(trail) < Work(t) + TotalWork(below)
  {
    k := key;
    var p := t.node.path;
    SharedIsPrefix(k, p);
    if Shared(k, p) != |p| {
      PairMissed(t, k);
      var earlier := IsEarlierThan(k, p);
      if !earlier {
        assert [] + Rest(below) == Rest(below);
        return false, below, [];
      }
      k := [];
    }
    SeekEmptyKey(Entries(t.node));
    ghost var onPath := p <= k;
    if onPath && t.node.Leaf? {
      LeafSought(t, k);
    }
    if onPath && t.node.Ext? {
      ExtSought(t, k);
    }
    k := k[if |k| < |p| then |k| else |p|..];
    if t.node.Leaf? && k != [] {
      assert [] + Rest(below) == Rest(below);
      return false, below, [];
    }
    done, trail := EnterPair(db, below, t);
    if !done {
      AimTop(trail, k);
    }
  }

  /** One round of `next(key)`. */
  method RoundFor(db: OverlayDB, trail: seq<TrailNode>, key: Nibbles) returns (done: bool, trail': seq<TrailNode>, k: Nibbles)
    requires db.Valid() && GoodTrail(trail, db.ledger) && trail != [] && Searching(trail, key)
    ensures GoodTrail(trail', db.ledger)
    ensures done ==> AtEntry(trail') && StandsAt(trail', Aim(trail, key))
    ensures !done ==> Aim(trail', k) == Aim(trail, key) && Searching(trail', k) && TotalWork(trail') < TotalWork(trail)
  {
    k := key;
    var below, t := trail[..|trail| - 1], trail[|trail| - 1];
    if t.child == ENTERING {
      AimTop(trail, k);
      if t.node.Null? {
        assert Target(t, k) == [] && [] + Rest(below) == Rest(below);
        return false, below, [];
      }
      if Pair(t.node) {
        done, trail', k := EnterPairFor(db, below, t, k);
        return;
      }
      BranchSought(t, k);
      if k != [] {
        t := t.(child := k[0]);
        k := k[1..];
      } else {
        t := t.(child := VALUE);
      }
    } else {
      if !t.node.Branch? {
        NothingPending(t, below);
        return false, below, [];
      }
      BranchPending(t, Increment(t.child));
      t := t.(child := Increment(t.child));
    }
    done, trail', k := Scan(db, below, t, k);
  }

  class Iterator {
    var trail: seq<TrailNode>
    const that: GenericTrieDB

    ghost predicate Valid()
      reads this, that, that.store
    {
      that.Valid() && GoodTrail(trail, that.store.ledger)
    }

    /** `begin()`. */
    constructor (db: GenericTrieDB)
      requires db.Valid()
      ensures Valid() && that == db && fresh(this)
      ensures StandsAt(trail, Entries(db.root.preimage))
    {
      that := db;
      trail := [TrailNode(db.store.Lookup(db.root).value, [], ENTERING)];
      new;
      StartPending(db.root.preimage);
      Next();
    }

    /** `lower_bound(key)`. */
    constructor LowerBound(db: GenericTrieDB, key: ByteString)
      requires db.Valid()
      ensures Valid() && that == db && fresh(this)
      ensures StandsAt(trail, Seek(Entries(db.root.preimage), AsNibbles(key)))
    {
      that := db;
      trail := [TrailNode(db.store.Lookup(db.root).value, [], ENTERING)];
      new;
      AimTop(trail, AsNibbles(key));
      PrefixedNothing(Seek(Entries(db.root.preimage), AsNibbles(key)));
      assert trail[..0] == [];
      NextFor(AsNibbles(key));
    }

    /** `next(key)`: on to the first entry not below the key. */
    method NextFor(key: Nibbles)
      requires Valid() && Searching(trail, key)
      modifies this`trail
      ensures Valid() && StandsAt(trail, old(Aim(trail, key)))
    {
      var k := key;
      while trail != []
        invariant Valid() && Searching(trail, k) && Aim(trail, k) == old(Aim(trail, key))
        decreases TotalWork(trail)
      {
        var done;
        done, trail, k := RoundFor(that.store, trail, k);
        if done {
          return;
        }
      }
    }

    /** `next()`: on to the next entry. */
    method Next()
      requires Valid()
      modifies this`trail
      ensures Valid() && StandsAt(trail, old(Rest(trail)))
    {
      while trail != []
        invariant Valid() && Rest(trail) == old(Rest(trail))
        decreases TotalWork(trail)
      {
        var done;
        done, trail := Round(that.store, trail);
        if done {
          return;
        }
      }
    }
  }

  /** Walks to the end, collecting entries. */
  method Walk(it: Iterator, ghost all: seq<KeyValue>) returns (es: seq<KeyValue>)
    requires it.Valid() && StandsAt(it.trail, all)
    modifies it`trail
    ensures es == all
  {
    hide Rest; hide Current; hide GoodTrail; hide NodeStore.WellKept; hide Canonical; hide Occurs;
    es := [];
    while it.trail != []
      invariant it.Valid() && |es| <= |all| && es == all[..|es|] && StandsAt(it.trail, all[|es|..])
      decreases |all| - |es|
    {
      assert all[|es|..][1..] == all[|es| + 1..];
      es := es + [Current(it.trail)];
      it.Next();
    }
  }

  /** Iterating from `begin()` visits every stored entry exactly once, in ascending key order. */
  method Visit(db: GenericTrieDB) returns (es: seq<KeyValue>)
    requires db.Valid()
    ensures Sorted(es)
    ensures forall k, v :: KeyValue(k, v) in es <==> v != [] && At(db.root.preimage, k) == v
  {
    ghost var n := db.root.preimage;
    var it := new Iterator(db);
    es := Walk(it, Entries(n));
    EntriesSorted(n);
    forall k, v
      ensures KeyValue(k, v) in Entries(n) <==> v != [] && At(n, k) == v
    {
      EntriesExact(n, k, v);
    }
  }

  /** Iterating from `lower_bound(key)` visits exactly the entries with keys not below it, in order. */
  method VisitFrom(db: GenericTrieDB, key: ByteString) returns (es: seq<KeyValue>)
    requires db.Valid()
    ensures Sorted(es)
    ensures forall k, v :: KeyValue(k, v) in es <==> v != [] && At(db.root.preimage, k) == v && !Less(k, AsNibbles(key))
  {
    ghost var n := db.root.preimage;
    var it := new Iterator.LowerBound(db, key);
    es := Walk(it, Seek(Entries(n), AsNibbles(key)));
    SeekExact(n, AsNibbles(key), es);
  }

  lemma SeekExact(n: Node, key: Nibbles, es: seq<KeyValue>)
    requires Canonical(n) && es == Seek(Entries(n), key)
    ensures Sorted(es)
    ensures forall k, v :: KeyValue(k, v) in es <==> v != [] && At(n, k) == v && !Less(k, key)
  {
    hide At; hide Entries; hide Canonical; hide Seek; hide Less;
    EntriesSorted(n);
    var j := SeekSplits(Entries(n), key);
    forall k, v
      ensures KeyValue(k, v) in es <==> v != [] && At(n, k) == v && !Less(k, key)
    {
      EntriesExact(n, k, v);
      assert Entries(n) == Entries(n)[..j] + es;
    }
  }
}
