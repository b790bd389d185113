/** `GenericTrieDB` over a node store. */
module TrieDB {
  import opened Options
  import opened Bytes
  import opened TrieNode
  import opened TrieSteps
  import opened TrieStray
  import opened TrieRemoval
  import opened NodeStore

  /** References to x that a caller hands over with a node: its own entry, unless it was never stored,
      and everything below it. */
  ghost function Owned(n: Node, x: Hash): nat {
    Own(n, x) + Occurs(n, x)
  }

  ghost function Own(n: Node, x: Hash): nat {
    if Provisional(n) then 0 else Self(n, x)
  }

  /** The ledger covers all the references owned with a node. */
  ghost predicate Covers(ledger: multiset<Hash>, n: Node) {
    forall x :: Owned(n, x) <= ledger[x]
  }

  ghost predicate CoversRef(ledger: multiset<Hash>, r: Ref) {
    forall x :: RefOccurs(r, x) <= ledger[x]
  }

  /** The references owned with a were given up, and those below b taken. */
  ghost predicate Traded(before: multiset<Hash>, after: multiset<Hash>, a: Node, b: Node) {
    forall x :: after[x] == before[x] - Owned(a, x) + Occurs(b, x)
  }

  ghost predicate TradedRef(before: multiset<Hash>, after: multiset<Hash>, a: Ref, b: Ref) {
    forall x :: after[x] == before[x] - RefOccurs(a, x) + RefOccurs(b, x)
  }

  ghost predicate NoneProvisional(ledger: multiset<Hash>) {
    forall h :: h in ledger ==> !Provisional(h.preimage)
  }

  lemma ExtTraded(l0: multiset<Hash>, l1: multiset<Hash>, l2: multiset<Hash>, n: Node, r: Ref, b: Node)
    requires n.Ext?
    requires forall x :: l1[x] == l0[x] - RefOccurs(n.child, x) + RefOccurs(r, x) - Own(n, x)
    requires forall x :: l2[x] == l1[x] - RefOccurs(r, x) + Occurs(b, x)
    ensures Traded(l0, l2, n, b)
  {
  }

  lemma BranchTraded(l0: multiset<Hash>, l1: multiset<Hash>, l2: multiset<Hash>, n: Node, i: nat, r: Ref, b: Node)
    requires n.Branch? && i < |n.children|
    requires forall x :: l1[x] == l0[x] - RefOccurs(n.children[i], x) + RefOccurs(r, x) - Own(n, x)
    requires forall x :: l2[x] == l1[x] - AllOccurs(n.children[i := r], x) + Occurs(b, x)
    ensures Traded(l0, l2, n, b)
  {
    forall x
      ensures l2[x] == l0[x] - Owned(n, x) + Occurs(b, x)
    {
      AllOccursUpdate(n.children, i, r, x);
    }
  }

  lemma NotProvisional(n: Node)
    requires Canonical(n)
    ensures !Provisional(n)
  {
  }

  lemma RefTraded(l0: multiset<Hash>, l1: multiset<Hash>, l2: multiset<Hash>, a: Ref, b: Ref)
    requires CanonicalRef(a) && CanonicalRef(b) && !Provisional(a.Deref())
    requires Traded(l0, l1, a.Deref(), b.Deref()) && forall x :: l2[x] == l1[x] + Self(b.Deref(), x)
    ensures TradedRef(l0, l2, a, b)
  {
    hide Canonical; hide Size; hide Occurs; hide Provisional;
    SealOccurs(a);
    SealOccurs(b);
  }

  /** The outcome of a removal: not there, the rewritten node, an exception, or what was written after a value was
      taken for the hash of a node. */
  datatype Removal = NotFound | Removed(node: Node) | Failed | Misled(written: Option<Node>)

  /** Removal fails, or takes a value for a hash, exactly as foreseen; where references are enforced, nodes killed
      on the way may no longer mislead. */
  ghost predicate Foreseen(orig: Node, k: Nibbles, res: Removal, f: Finder, enforceRefs: bool) {
    && (res.Failed? <==> Faulty(orig, k, f, Throw))
    && (res.Misled? ==> Faulty(orig, k, f, Mislead))
    && (!enforceRefs && Faulty(orig, k, f, Mislead) ==> res.Misled?)
    && (!enforceRefs && res.Misled? ==> Stray(orig, k, f, {}) == Writes(res.written))
    && res != Misled(Some(Null))
  }

  /** Otherwise it changes nothing when the key is not there, or deletes it and gives up every reference it
      drops. */
  ghost predicate Outcome(orig: Node, k: Nibbles, res: Removal, before: multiset<Hash>, after: multiset<Hash>) {
    && (res.NotFound? ==> At(orig, k) == [] && after == before)
    && (res.Removed? ==> Deleted(orig, res.node, k) && Traded(before, after, orig, res.node))
  }

  /** One reference to h was given up, if there was one. */
  ghost predicate Robbed(before: multiset<Hash>, after: multiset<Hash>, h: Hash) {
    forall x :: after[x] == before[x] - if x == h && x in before then 1 else 0
  }

  /** How a removal ends: as it should; in an exception, past the end of the key or not at all; or having written
      what a value taken for a hash led to. */
  datatype Ending = Done | Threw | WentAstray

  lemma NullShort()
    ensures Size(Null) < 32
  {
  }

  /** What misleads still does once some nodes are forgotten only if it did before. */
  lemma LastFaultFewer(v: ByteString, f: Finder, g: Finder, enforceRefs: bool)
    requires f.names == g.names && Fewer(f.known, g.known, enforceRefs)
    ensures LastFault(v, g, Throw) <==> LastFault(v, f, Throw)
    ensures LastFault(v, g, Mislead) ==> LastFault(v, f, Mislead)
    ensures !enforceRefs && LastFault(v, f, Mislead) ==> LastFault(v, g, Mislead)
  {
  }

  lemma LeafSlips(n: Node, k: Nibbles, r: Ref, f: Finder)
    requires n.Branch? && |n.children| == 16 && k != [] && !Missing(n.children[k[0]], f)
    requires LeavesValue(n.children, n.value, k) && CanonicalRef(r) && r.Deref() == Null
    requires OnlyUsed(n.children[k[0] := r], n.value, 16) && LastFault(n.value, f, Mislead)
    ensures Stray(n, k, f, {}) == Writes(Taken(n.value, f))
  {
    NullShort();
    ValueSlips(n, k, f);
  }

  /** `uniqueInUse`: the one slot in use besides `except`, or 255. */
  method UniqueInUse(cs: seq<Ref>, v: ByteString, except: int) returns (used: int)
    ensures used == 255 || (0 <= used <= 16 && used != except && Used(cs, v, used))
    ensures used != 255 ==> forall j :: 0 <= j <= 16 && j != used && j != except ==> !Used(cs, v, j)
    ensures used == 255 ==>
              || (forall j :: 0 <= j <= 16 && j != except ==> !Used(cs, v, j))
              || (exists i, j :: 0 <= i < j <= 16 && i != except && j != except && Used(cs, v, i) && Used(cs, v, j))
  {
    used := 255;
    for i := 0 to 17
      invariant used == 255 ==> forall j :: 0 <= j < i && j != except ==> !Used(cs, v, j)
      invariant used != 255 ==> 0 <= used < i && used != except && Used(cs, v, used)
      invariant used != 255 ==> forall j :: 0 <= j < i && j != used && j != except ==> !Used(cs, v, j)
    {
      if i != except && Used(cs, v, i) {
        if used == 255 {
          used := i;
        } else {
          return 255;
        }
      }
    }
  }

  class GenericTrieDB {
    var root: Hash
    const store: OverlayDB
    /** Which strings are hashes of which nodes, should a value be one. */
    const names: Naming

    /** References that other tries in the same store hold. */
    ghost var others: multiset<Hash>

    /** The store is in order and holds, besides what others refer to, exactly the current trie. */
    ghost predicate Valid()
      reads this, store
    {
      && store.Valid()
      && Canonical(root.preimage) && NoneProvisional(others)
      && (forall x :: store.ledger[x] == others[x] + (if x == root then 1 else 0) + Occurs(root.preimage, x))
    }

    /** Between steps: the store is in order and holds no provisional node. */
    ghost predicate Working()
      reads this, store
    {
      store.Valid() && NoneProvisional(store.ledger)
    }

    lemma RootFacts()
      requires Valid()
      ensures Working() && root in store.ledger && Covers(store.ledger, root.preimage)
      ensures !Provisional(root.preimage)
    {
      forall h | h in store.ledger
        ensures !Provisional(h.preimage)
      {
        if h != root && h !in others {
          OccursCanonical(root.preimage, h);
        }
      }
    }

    /** Opens an empty trie in a store that may hold others: the constructor followed by `init`. */
    constructor (store: OverlayDB, names: Naming)
      requires store.Valid() && NoneProvisional(store.ledger)
      modifies store`main, store`ledger
      ensures Valid() && this.store == store && this.names == names && root == EMPTY_TRIE
      ensures others == old(store.ledger)
    {
      this.store := store;
      this.names := names;
      others := store.ledger;
      root := EMPTY_TRIE;
      new;
      store.Insert(EMPTY_TRIE, Null);
    }

    // Store access

    ghost function Found(): Finder
      reads this, store
    {
      Finder(names, store.Known())
    }

    /** `node` of a value taken for a hash. */
    function Resolve(v: ByteString): (r: Option<Node>)
      requires store.Valid()
      reads this, store
      ensures r == Taken(v, Found())
    {
      if |v| > 32 then None
      else
        var h := names(LeftPadded(v));
        if h.None? then None else store.Lookup(h.value)
    }

    /** `killNode`. On a provisional node it has no effect, for the store holds none. */
    method KillNode(n: Node)
      requires Working() && forall x :: Own(n, x) <= store.ledger[x]
      modifies store`main, store`ledger
      ensures Working()
      ensures forall x :: store.ledger[x] == old(store.ledger)[x] - Own(n, x)
      ensures Fewer(old(store.Known()), store.Known(), store.enforceRefs)
    {
      if Size(n) >= 32 {
        store.Kill(Sha3(n));
      }
    }

    /** Kills a node unless it sits inside another one, or was never stored. */
    method KillUnless(inLine: bool, n: Node)
      requires Working() && (forall x :: Own(n, x) <= store.ledger[x])
      requires !inLine ==> !Provisional(n)
      requires inLine && !Provisional(n) ==> Size(n) < 32
      modifies store`main, store`ledger
      ensures Working()
      ensures forall x :: store.ledger[x] == old(store.ledger)[x] - Own(n, x)
    {
      if !inLine {
        KillNode(n);
      }
    }

    /** `streamNode`: the slot for a node, with the node stored when it is long. */
    method StreamNode(n: Node) returns (r: Ref)
      requires Working() && !Provisional(n)
      modifies store`main, store`ledger
      ensures Working() && r == Seal(n)
      ensures forall x :: store.ledger[x] == old(store.ledger)[x] + Self(n, x)
      ensures Size(n) < 32 ==> store.main == old(store.main)
    {
      if Size(n) < 32 {
        r := Inline(n);
      } else {
        store.Insert(Sha3(n), n);
        r := Hashed(Sha3(n));
      }
    }

    // Insertion

    method Place(orig: Node, k: Nibbles, v: ByteString) returns (b: Node)
      requires Working() && Mergeable(orig, k) && v != []
      requires !orig.Ext?
      requires orig.Leaf? ==> orig.path == k
      requires orig.Branch? ==> k == []
      requires Covers(store.ledger, orig)
      modifies store`main, store`ledger
      ensures Working() && Merged(orig, b, k, v)
      ensures Traded(old(store.ledger), store.ledger, orig, b)
    {
      KillNode(orig);
      match orig {
        case Null =>
          b := Leaf(k, v);
        case Leaf(p, _) =>
          b := Leaf(p, v);
        case Branch(cs, _) =>
          b := Branch(cs, v);
          PlaceBranch(orig, v);
      }
    }

    method Cleve(orig: Node, s: nat) returns (top: Node)
      requires Working() && Pair(orig) && Canonical(orig)
      requires 0 < s <= |orig.path| && (orig.Ext? ==> s < |orig.path|)
      requires Covers(store.ledger, orig)
      modifies store`main, store`ledger
      ensures Working()
      ensures top == Ext(orig.path[..s], Seal(Tail(orig, s)))
      ensures Traded(old(store.ledger), store.ledger, orig, top)
    {
      KillNode(orig);
      TailCanonical(orig, s);
      var r := StreamNode(Tail(orig, s));
      top := Ext(orig.path[..s], r);
      SealCanonical(Tail(orig, s));
      SealOccurs(r);
    }

    method BranchOff(orig: Node) returns (b: Node)
      requires Working() && Pair(orig) && Canonical(orig)
      requires Covers(store.ledger, orig)
      modifies store`main, store`ledger
      ensures Working()
      ensures b == Branched(orig)
      ensures Traded(old(store.ledger), store.ledger, orig, b)
    {
      KillNode(orig);
      forall x {
        BranchedOccurs(orig, x);
      }
      if |orig.path| == 0 {
        b := Branch(NoChildren(), orig.value);
      } else {
        var c;
        if orig.Leaf? || |orig.path| > 1 {
          TailCanonical(orig, 1);
          c := StreamNode(Tail(orig, 1));
        } else {
          c := orig.child;
        }
        b := Branch(NoChildren()[orig.path[0] := c], []);
      }
    }

    ghost predicate CanMerge(orig: Node, k: Nibbles, v: ByteString, inLine: bool)
      reads this, store
    {
      && Working() && Mergeable(orig, k) && v != [] && Covers(store.ledger, orig)
      && (!inLine ==> !Provisional(orig))
      && (inLine && !Provisional(orig) ==> Size(orig) < 32)
    }

    /** `mergeAt`. The recursive calls that keep the key are made on nodes that need no further
        rewriting before they descend. */
    method MergeAt(orig: Node, k: Nibbles, v: ByteString, inLine: bool) returns (b: Node)
      requires CanMerge(orig, k, v, inLine)
      modifies store`main, store`ledger
      ensures Working() && Merged(orig, b, k, v)
      ensures Traded(old(store.ledger), store.ledger, orig, b)
      decreases |k|, if Rewrites(orig, k) then 3 else 1
    {
      if orig.Null? {
        b := Place(orig, k, v);
      } else if orig.Leaf? && orig.path == k {
        b := Place(orig, k, v);
      } else if orig.Ext? && orig.path <= k {
        b := MergeBelowExt(orig, k, v, inLine);
      } else if Pair(orig) {
        b := MergeRewriting(orig, k, v, inLine);
      } else if k == [] {
        b := Place(orig, k, v);
      } else {
        b := MergeBelowBranch(orig, k, v, inLine);
      }
    }

    /** The key goes on past the extension's path. */
    method MergeBelowExt(orig: Node, k: Nibbles, v: ByteString, inLine: bool) returns (b: Node)
      requires CanMerge(orig, k, v, inLine) && orig.Ext? && orig.path <= k
      modifies store`main, store`ledger
      ensures Working() && Merged(orig, b, k, v)
      ensures Traded(old(store.ledger), store.ledger, orig, b)
      decreases |k|, 0
    {
      KillUnless(inLine, orig);
      var r := MergeAtAux(orig.child, k[|orig.path|..], v);
      b := Ext(orig.path, r);
      ExtMerged(orig, r, k, v);
    }

    /** Cleave where the keys part, or branch when they share nothing, and start again. */
    method MergeRewriting(orig: Node, k: Nibbles, v: ByteString, inLine: bool) returns (b: Node)
      requires CanMerge(orig, k, v, inLine) && Rewrites(orig, k)
      modifies store`main, store`ledger
      ensures Working() && Merged(orig, b, k, v)
      ensures Traded(old(store.ledger), store.ledger, orig, b)
      decreases |k|, 2
    {
      var sh := Shared(k, orig.path);
      if sh > 0 {
        ClevedShape(orig, k);
        var cleved := Cleve(orig, sh);
        b := MergeAt(cleved, k, v, true);
        CleveEntries(orig, sh, cleved.child);
        MergedVia(orig, cleved, b, k, v);
      } else {
        BranchedShape(orig, k);
        var branched := BranchOff(orig);
        b := MergeAt(branched, k, v, true);
        BranchedEntries(orig);
        MergedVia(orig, branched, b, k, v);
      }
    }

    /** The key goes on into one of the sixteen children. */
    method MergeBelowBranch(orig: Node, k: Nibbles, v: ByteString, inLine: bool) returns (b: Node)
      requires CanMerge(orig, k, v, inLine) && orig.Branch? && k != []
      modifies store`main, store`ledger
      ensures Working() && Merged(orig, b, k, v)
      ensures Traded(old(store.ledger), store.ledger, orig, b)
      decreases |k|, 0
    {
      var c := orig.children[k[0]];
      forall x {
        AllOccursUpdate(orig.children, k[0], c, x);
      }
      KillUnless(inLine, orig);
      var r := MergeAtAux(c, k[1..], v);
      b := Branch(orig.children[k[0] := r], orig.value);
      forall x {
        AllOccursUpdate(orig.children, k[0], r, x);
      }
      BranchMerged(orig, r, k, v);
    }

    /** `mergeAtAux`: rewrites the node in a child slot. */
    method MergeAtAux(orig: Ref, k: Nibbles, v: ByteString) returns (r: Ref)
      requires Working() && CanonicalRef(orig) && v != []
      requires CoversRef(store.ledger, orig)
      modifies store`main, store`ledger
      ensures Working()
      ensures CanonicalRef(r) && Merged(orig.Deref(), r.Deref(), k, v)
      ensures TradedRef(old(store.ledger), store.ledger, orig, r)
      decreases |k|, 4
    {
      var n := orig.Deref();
      var isRemovable := false;
      if orig.Hashed? {
        n := store.Lookup(orig.hash).value;
        isRemovable := true;
      } else {
        n := orig.node;
      }
      CanonicalMergeable(n, k);
      var b := MergeAt(n, k, v, !isRemovable);
      SealCanonical(b);
      r := StreamNode(b);
      SealOccurs(orig);
      SealOccurs(r);
    }

    method Insert(key: ByteString, value: ByteString)
      requires Valid() && value != []
      modifies this`root, store`main, store`ledger
      ensures Valid()
      ensures Updated(old(root).preimage, root.preimage, AsNibbles(key), value)
    {
      var rootValue := store.Lookup(root).value;
      RootFacts();
      var b := MergeAt(rootValue, AsNibbles(key), value, false);
      Replant(rootValue, b);
    }

    /** Makes b the root. The root is always referred to by hash, so a short old root is killed here. */
    method Replant(rootValue: Node, b: Node)
      requires store.Valid() && root == Sha3(rootValue) && Canonical(b)
      requires NoneProvisional(others)
      requires forall x :: store.ledger[x] == others[x] + (if x == root && Size(rootValue) < 32 then 1 else 0) + Occurs(b, x)
      modifies this`root, store`main, store`ledger
      ensures Valid() && root == Sha3(b)
    {
      if Size(rootValue) < 32 {
        store.Kill(root);
      }
      root := Sha3(b);
      store.Insert(root, b);
    }

    // Removal

    /** `isTwoItemNode` on a child slot. */
    method IsTwoItemNode(r: Ref) returns (b: bool)
      requires store.Valid() && (r.Hashed? ==> r.hash in store.ledger)
      ensures b == Pair(r.Deref())
    {
      if r.Hashed? {
        b := Pair(store.Lookup(r.hash).value);
      } else {
        b := Pair(r.node);
      }
    }

    /** `graft`: joins an extension path to the pair it leads to. */
    method Graft(p: Nibbles, c: Ref) returns (b: Node)
      requires Working() && CanonicalRef(c) && Pair(c.Deref()) && CoversRef(store.ledger, c)
      modifies store`main, store`ledger
      ensures Working() && Canonical(b) && b != Null && SameEntries(Ext(p, c), b)
      ensures forall x :: store.ledger[x] == old(store.ledger)[x] - RefOccurs(c, x) + Occurs(b, x)
    {
      GraftedShape(p, c);
      var n;
      if c.Inline? {
        n := c.node;
      } else {
        assert RefOccurs(c, c.hash) > 0;
        n := store.Lookup(c.hash).value;
        store.Kill(c.hash);
      }
      b := Grafted(p, n);
    }

    /** An extension, joined to the node below it when that is a pair. */
    method Rejoin(p: Nibbles, c: Ref) returns (b: Node)
      requires Working() && p != [] && CanonicalRef(c) && c.Deref() != Null && CoversRef(store.ledger, c)
      modifies store`main, store`ledger
      ensures Working() && Canonical(b) && b != Null && SameEntries(Ext(p, c), b)
      ensures forall x :: store.ledger[x] == old(store.ledger)[x] - RefOccurs(c, x) + Occurs(b, x)
    {
      assert c.Hashed? ==> RefOccurs(c, c.hash) > 0;
      var two := IsTwoItemNode(c);
      if two {
        b := Graft(p, c);
      } else {
        b := Ext(p, c);
      }
    }

    /** Puts a branch right that may have been left with one slot in use: `merge`, and `graft` where that
        would leave a pair over a pair. A value left over is tested like a child: if it is the hash of a pair,
        that pair takes its place and loses a reference. */
    method Rejig(mid: Node, except: int) returns (res: Removal)
      requires Working() && mid.Branch? && |mid.children| == 16
      requires forall i :: 0 <= i < 16 ==> CanonicalRef(mid.children[i])
      requires SomeUsed(mid) && (except == 16 ==> mid.value == [])
      requires except == 16 || except == 255
      requires forall x :: Occurs(mid, x) <= store.ledger[x]
      modifies store`main, store`ledger
      ensures Working() && res != NotFound
      ensures res.Failed? <==> OnlyUsed(mid.children, mid.value, 16) && LastFault(mid.value, old(Found()), Throw)
      ensures res.Misled? <==> OnlyUsed(mid.children, mid.value, 16) && LastFault(mid.value, old(Found()), Mislead)
      ensures res.Misled? ==> res.written == Taken(mid.value, old(Found()))
      ensures res.Misled? ==> Robbed(old(store.ledger), store.ledger, Sha3(res.written.value))
      ensures res.Removed? ==> Canonical(res.node) && res.node != Null && SameEntries(mid, res.node)
      ensures res.Removed? ==> forall x :: store.ledger[x] == old(store.ledger)[x] - Occurs(mid, x) + Occurs(res.node, x)
    {
      var used := UniqueInUse(mid.children, mid.value, except);
      if used == 255 {
        res := Removed(mid);
      } else if used != 16 {
        var c := mid.children[used];
        MergeSlotEntries(mid.children, mid.value, used);
        var b := Rejoin([used], c);
        res := Removed(b);
      } else {
        res := RejigValue(mid);
      }
    }

    method RejigValue(mid: Node) returns (res: Removal)
      requires Working() && mid.Branch? && |mid.children| == 16 && OnlyUsed(mid.children, mid.value, 16)
      modifies store`main, store`ledger
      ensures Working() && res != NotFound
      ensures res.Failed? <==> LastFault(mid.value, old(Found()), Throw)
      ensures res.Misled? <==> LastFault(mid.value, old(Found()), Mislead)
      ensures res.Misled? ==> res.written == Taken(mid.value, old(Found()))
      ensures res.Misled? ==> Robbed(old(store.ledger), store.ledger, Sha3(res.written.value))
      ensures res.Removed? ==> Canonical(res.node) && res.node != Null && SameEntries(mid, res.node)
      ensures res.Removed? ==> forall x :: store.ledger[x] == old(store.ledger)[x] - Occurs(mid, x) + Occurs(res.node, x)
    {
      if |mid.value| > 32 {
        return Failed;
      }
      var n := Resolve(mid.value);
      if n.Some? && Pair(n.value) {
        store.Kill(names(LeftPadded(mid.value)).value);
        res := Misled(Some(Grafted([], n.value)));
        assert Grafted([], n.value) == n.value;
      } else {
        MergeValueEntries(mid.children, mid.value);
        res := Removed(Leaf([], mid.value));
      }
    }

    // Removal astray: in nodes that a value led to, of which this trie owns nothing

    method KillAny(n: Node)
      requires store.Valid()
      modifies store`main, store`ledger
      ensures store.Valid() && Fewer(old(store.Known()), store.Known(), store.enforceRefs)
    {
      if Size(n) >= 32 {
        store.Kill(Sha3(n));
      }
    }

    method StreamAny(n: Node) returns (r: Ref)
      requires store.Valid()
      modifies store`main, store`ledger
      ensures store.Valid() && r == Seal(n) && (r.Hashed? ==> r.hash in store.ledger)
      ensures Size(n) < 32 ==> store.main == old(store.main)
    {
      if Size(n) < 32 {
        r := Inline(n);
      } else {
        store.Insert(Sha3(n), n);
        r := Hashed(Sha3(n));
      }
    }

    /** The end of `deleteAt` on a pair whose slot was written anew. */
    method Refit(n: Node, r: Ref) returns (b: Option<Node>)
      requires store.Valid() && Pair(n) && (r.Hashed? ==> r.hash in store.ledger) && (r.Deref() == Null ==> r.Inline?)
      requires r == Seal(r.Deref())
      modifies store`main, store`ledger
      ensures store.Valid() && Alike(Writes(b), Writes(Refitted(n, r.Deref(), old(Found()))))
      ensures !store.enforceRefs ==> b == Refitted(n, r.Deref(), old(Found()))
    {
      KillAny(n);
      if r.IsEmpty() {
        var t := Resolve([]);
        if t.Some? && Pair(t.value) {
          store.Kill(names(LeftPadded([])).value);
          b := Some(Grafted(n.path, t.value));
        } else {
          b := Some(if n.Leaf? then Leaf(n.path, []) else Ext(n.path, r));
        }
      } else if Pair(r.Deref()) {
        if r.Hashed? {
          store.Kill(r.hash);
        }
        b := Some(Grafted(n.path, r.Deref()));
      } else {
        b := if n.Leaf? then None else Some(Ext(n.path, r));
      }
    }

    /** The end of `deleteAt` on a branch, of which slot `written` was written anew. */
    method Settle(cs: seq<Ref>, v: ByteString, written: int) returns (res: Fate)
      requires store.Valid()
      modifies store`main, store`ledger
      ensures store.Valid() && Alike(res, Settled(cs, v, written, old(Found())))
      ensures res.Writes? ==> res.node.Some? && res.node.value != Null
      ensures !store.enforceRefs ==> res == Settled(cs, v, written, old(Found()))
    {
      var used := UniqueInUse(cs, v, 255);
      if used == 255 {
        return Writes(Some(Branch(cs, v)));
      }
      assert OnlyUsed(cs, v, used);
      SettledIs(cs, v, written, Found(), used);
      if used == 16 {
        if |v| > 32 {
          return Stops;
        }
        var t := Resolve(v);
        if t.Some? && Pair(t.value) {
          store.Kill(names(LeftPadded(v)).value);
          res := Writes(t);
        } else {
          res := Writes(Some(Leaf([], v)));
        }
      } else {
        var c := cs[used];
        var two := (used == written || c.Inline? || store.Exists(c.hash)) && Pair(c.Deref());
        if two && c.Hashed? {
          store.Kill(c.hash);
        }
        res := Writes(Some(if two then Grafted([used], c.Deref()) else Ext([used], c)));
      }
    }

    /** `deleteAt` on any node. */
    method StrayAt(n: Node, k: Nibbles, seen: set<Hash>) returns (res: Fate)
      requires store.Valid()
      modifies store`main, store`ledger
      ensures store.Valid() && Alike(res, Stray(n, k, old(Found()), seen))
      ensures !store.enforceRefs ==> res == Stray(n, k, old(Found()), seen)
      ensures res.Absent? ==> store.main == old(store.main) && store.ledger == old(store.ledger)
      ensures res == Writes(Some(Null)) ==> Fewer(old(store.Known()), store.Known(), store.enforceRefs)
      decreases |k|, |store.Known() - seen|, n, 2
    {
      match n {
        case Null =>
          res := Absent;
        case Leaf(p, v) =>
          if p == k {
            KillAny(n);
            res := Writes(Some(Null));
          } else if p <= k {
            res := StrayPair(n, k, seen);
          } else {
            res := Absent;
          }
        case Ext(p, _) =>
          if p <= k {
            res := StrayPair(n, k, seen);
          } else {
            res := Absent;
          }
        case Branch(cs, v) =>
          if k != [] {
            if k[0] < |cs| {
              res := StrayBranch(n, k, seen);
            } else {
              res := Absent;
            }
          } else if v == [] {
            res := Stops;
          } else {
            KillAny(n);
            res := Settle(cs, [], 16);
          }
      }
    }

    method StrayPair(n: Node, k: Nibbles, seen: set<Hash>) returns (res: Fate)
      requires store.Valid() && Pair(n) && n.path <= k && (n.Leaf? ==> n.path != k)
      modifies store`main, store`ledger
      ensures store.Valid() && Alike(res, Stray(n, k, old(Found()), seen)) && res != Writes(Some(Null))
      ensures !store.enforceRefs ==> res == Stray(n, k, old(Found()), seen)
      ensures res.Absent? ==> store.main == old(store.main) && store.ledger == old(store.ledger)
      decreases |k|, |store.Known() - seen|, n, 1
    {
      ghost var f := Found();
      var s := if n.path == [] then seen else {};
      ghost var below: Fate;
      if n.Leaf? {
        below := StrayPast(n, k[|n.path|..], f, s);
        res := StrayFollow(n, k[|n.path|..], s);
      } else {
        below := StrayBelow(n.child, k[|n.path|..], f, s);
        res := StrayChild(n.child, k[|n.path|..], s);
      }
      assert Stray(n, k, f, seen) == Above(n, below, f);
      hide Stray; hide StrayPast; hide StrayBelow;
      if res.Writes? && res.node.Some? {
        res := RefitStray(n, res.node.value, below.node.value, f);
      }
    }

    /** Writes b in the slot of a pair. Where references are enforced it may not be quite the node foreseen. */
    method RefitStray(n: Node, b: Node, ghost foreseen: Node, ghost f: Finder) returns (res: Fate)
      requires store.Valid() && Pair(n) && SameKind(b, foreseen) && f.names == names
      requires !store.enforceRefs ==> b == foreseen && (b == Null ==> f == Found())
      modifies store`main, store`ledger
      ensures store.Valid() && Alike(res, Writes(Refitted(n, foreseen, f))) && res != Writes(Some(Null))
      ensures !store.enforceRefs ==> res == Writes(Refitted(n, foreseen, f))
    {
      NullShort();
      var r := StreamAny(b);
      RefittedAlike(n, b, foreseen, Found(), f);
      hide Refitted;
      var c := Refit(n, r);
      res := Writes(c);
    }

    /** Follows a leaf's value. The source does not notice that it has been there before, and does not return. */
    method StrayFollow(n: Node, k: Nibbles, seen: set<Hash>) returns (res: Fate)
      requires store.Valid() && n.Leaf?
      modifies store`main, store`ledger
      ensures store.Valid() && Alike(res, StrayPast(n, k, old(Found()), seen))
      ensures !store.enforceRefs ==> res == StrayPast(n, k, old(Found()), seen)
      ensures res.Absent? ==> store.main == old(store.main) && store.ledger == old(store.ledger)
      ensures res == Writes(Some(Null)) ==> Fewer(old(store.Known()), store.Known(), store.enforceRefs)
      decreases |k|, |store.Known() - seen|, n, 0
    {
      var t := Resolve(n.value);
      if t.None? {
        return Stops;
      }
      var h := names(LeftPadded(n.value)).value;
      if h in seen {
        return Stops;
      }
      FewerLeft(store.Known(), seen, h);
      res := StrayAt(t.value, k, seen + {h});
    }

    method StrayChild(c: Ref, k: Nibbles, seen: set<Hash>) returns (res: Fate)
      requires store.Valid()
      modifies store`main, store`ledger
      ensures store.Valid() && Alike(res, StrayBelow(c, k, old(Found()), seen))
      ensures !store.enforceRefs ==> res == StrayBelow(c, k, old(Found()), seen)
      ensures res.Absent? ==> store.main == old(store.main) && store.ledger == old(store.ledger)
      ensures res == Writes(Some(Null)) ==> Fewer(old(store.Known()), store.Known(), store.enforceRefs)
      decreases |k|, |store.Known() - seen|, c, 0
    {
      if c.Hashed? && !store.Exists(c.hash) {
        return if k == [] then Writes(None) else Stops;
      }
      res := StrayAt(c.Deref(), k, seen);
    }

    method StrayBranch(n: Node, k: Nibbles, ghost seen: set<Hash>) returns (res: Fate)
      requires store.Valid() && n.Branch? && k != [] && k[0] < |n.children|
      modifies store`main, store`ledger
      ensures store.Valid() && Alike(res, Stray(n, k, old(Found()), {})) && res != Writes(Some(Null))
      ensures !store.enforceRefs ==> res == Stray(n, k, old(Found()), {})
      ensures res.Absent? ==> store.main == old(store.main) && store.ledger == old(store.ledger)
      decreases |k|, |store.Known() - seen|, n, 1
    {
      ghost var f := Found();
      ghost var below := StrayBelow(n.children[k[0]], k[1..], f, {});
      res := StrayChild(n.children[k[0]], k[1..], {});
      assert Stray(n, k, f, {}) == Across(n.children, n.value, k[0], below, f);
      hide Stray; hide StrayBelow;
      if res.Writes? && res.node.Some? {
        res := SettleStray(n, k[0], res.node.value, below.node.value, f);
      }
    }

    /** Writes b in a slot of a branch. */
    method SettleStray(n: Node, i: nibble, b: Node, ghost foreseen: Node, ghost f: Finder) returns (res: Fate)
      requires store.Valid() && n.Branch? && i < |n.children| && SameKind(b, foreseen) && f.names == names
      requires !store.enforceRefs ==> b == foreseen && (b == Null ==> f == Found())
      modifies store`main, store`ledger
      ensures store.Valid() && !res.Absent?
      ensures var want := Settled(n.children[i := Seal(foreseen)], n.value, i, f);
              Alike(res, want) && (!store.enforceRefs ==> res == want)
    {
      NullShort();
      var r := StreamAny(b);
      KillAny(n);
      SettledAlike(n.children, n.value, i, b, foreseen, Found(), f);
      hide Settled;
      res := Settle(n.children[i := r], n.value, i);
    }

    ghost predicate CanDelete(orig: Node)
      reads this, store
    {
      Working() && Canonical(orig) && Covers(store.ledger, orig)
    }

    /** `deleteAt`. */
    method DeleteAt(orig: Node, k: Nibbles) returns (res: Removal)
      requires CanDelete(orig)
      modifies store`main, store`ledger
      ensures store.Valid() && (res.NotFound? || res.Removed? ==> Working()) && Outcome(orig, k, res, old(store.ledger), store.ledger)
      ensures Foreseen(orig, k, res, old(Found()), store.enforceRefs)
      ensures res.NotFound? ==> store.main == old(store.main)
      ensures res == Removed(Null) ==> Fewer(old(store.Known()), store.Known(), store.enforceRefs)
      decreases orig, 1
    {
      match orig {
        case Null =>
          res := NotFound;
        case Leaf(p, v) =>
          if p == k {
            LeafDeleted(orig);
            KillNode(orig);
            res := Removed(Null);
          } else if p <= k {
            res := DeletePast(orig, k);
          } else {
            res := NotFound;
          }
        case Ext(p, _) =>
          if p <= k {
            res := DeleteBelowExt(orig, k);
          } else {
            res := NotFound;
          }
        case Branch(_, v) =>
          if k != [] {
            res := DeleteBelowBranch(orig, k);
          } else if v != [] {
            res := DeleteValue(orig);
          } else {
            res := Failed;
          }
      }
    }

    /** The key goes on past a leaf, whose value is followed as if it were the hash of the next node. */
    method DeletePast(orig: Node, k: Nibbles) returns (res: Removal)
      requires CanDelete(orig) && orig.Leaf? && orig.path < k
      modifies store`main, store`ledger
      ensures store.Valid() && !res.Removed? && Outcome(orig, k, res, old(store.ledger), store.ledger)
      ensures res.NotFound? ==> Working() && store.main == old(store.main)
      ensures Foreseen(orig, k, res, old(Found()), store.enforceRefs)
    {
      var fate := StrayPair(orig, k, {});
      match fate
      case Absent => res := NotFound;
      case Stops => res := Failed;
      case Writes(b) => res := Misled(b);
    }

    method DeleteBelowExt(orig: Node, k: Nibbles) returns (res: Removal)
      requires CanDelete(orig) && orig.Ext? && orig.path <= k
      modifies store`main, store`ledger
      ensures store.Valid() && (res.NotFound? || res.Removed? ==> Working()) && Outcome(orig, k, res, old(store.ledger), store.ledger)
      ensures Foreseen(orig, k, res, old(Found()), store.enforceRefs)
      ensures res.NotFound? ==> store.main == old(store.main)
      ensures res.Removed? ==> res.node != Null
      decreases orig, 0
    {
      var r;
      res, r := DeleteAtAux(orig.child, k[|orig.path|..]);
      if res.Removed? {
        KillNode(orig);
        ghost var between := store.ledger;
        var b := Rejoin(orig.path, r);
        ExtDeleted(orig, r, k);
        DeletedVia(orig, Ext(orig.path, r), b, k);
        ExtTraded(old(store.ledger), between, store.ledger, orig, r, b);
        res := Removed(b);
      } else if res.Misled? && res.written.Some? {
        RefittedAlike(orig, res.written.value, res.written.value, Found(), old(Found()));
        var b := Refit(orig, r);
        res := Misled(b);
      }
    }

    method DeleteValue(orig: Node) returns (res: Removal)
      requires CanDelete(orig) && orig.Branch? && orig.value != []
      modifies store`main, store`ledger
      ensures Working()
      ensures res.Removed? && Deleted(orig, res.node, []) && res.node != Null
      ensures Traded(old(store.ledger), store.ledger, orig, res.node)
    {
      KillNode(orig);
      var mid := Branch(orig.children, []);
      ValueDropped(orig);
      res := Rejig(mid, 16);
      DeletedVia(orig, mid, res.node, []);
    }

    method DeleteBelowBranch(orig: Node, k: Nibbles) returns (res: Removal)
      requires CanDelete(orig) && orig.Branch? && k != []
      modifies store`main, store`ledger
      ensures store.Valid() && (res.NotFound? || res.Removed? ==> Working()) && Outcome(orig, k, res, old(store.ledger), store.ledger)
      ensures Foreseen(orig, k, res, old(Found()), store.enforceRefs)
      ensures res.NotFound? ==> store.main == old(store.main)
      ensures res.Removed? ==> res.node != Null
      decreases orig, 0
    {
      hide Size; hide At; hide Faulty; hide TwoUsed; hide LeavesValue; hide LastFault; hide WellKept; hide AllFound;
      hide Stray; hide Settled; hide Alike;
      var c := orig.children[k[0]];
      forall x {
        AllOccursUpdate(orig.children, k[0], c, x);
      }
      ghost var f := Found();
      FaultyBranch(orig, k, f, Throw);
      FaultyBranch(orig, k, f, Mislead);
      var r;
      res, r := DeleteAtAux(c, k[1..]);
      if res.Removed? {
        KillNode(orig);
        ghost var between := store.ledger;
        ghost var g := Found();
        var mid := Branch(orig.children[k[0] := r], orig.value);
        forall x {
          AllOccursUpdate(orig.children, k[0], r, x);
        }
        ChildDropped(orig, k, r);
        res := Rejig(mid, 255);
        if LeavesValue(orig.children, orig.value, k) {
          LastFaultFewer(orig.value, f, g, store.enforceRefs);
          if res.Misled? {
            LeafSlips(orig, k, r, f);
          }
        }
        if res.Removed? {
          DeletedVia(orig, mid, res.node, k);
          BranchTraded(old(store.ledger), between, store.ledger, orig, k[0], r, res.node);
        }
      } else if res.Misled? && res.written.Some? {
        KillAny(orig);
        SettledAlike(orig.children, orig.value, k[0], r.Deref(), r.Deref(), Found(), f);
        SlipsBelow(orig, k, f);
        var fate := Settle(orig.children[k[0] := r], orig.value, k[0]);
        res := Misled(fate.node);
      } else if res.Misled? {
        SlipsBelow(orig, k, f);
      }
    }

    /** `deleteAtAux`: removal from the node in a child slot. */
    method DeleteAtAux(orig: Ref, k: Nibbles) returns (res: Removal, r: Ref)
      requires Working() && CanonicalRef(orig) && CoversRef(store.ledger, orig)
      modifies store`main, store`ledger
      ensures store.Valid() && (res.NotFound? || res.Removed? ==> Working()) && !Missing(orig, old(Found()))
      ensures Foreseen(orig.Deref(), k, res, old(Found()), store.enforceRefs)
      ensures res.Misled? && res.written.Some? ==>
                r == Seal(res.written.value) && (r.Hashed? ==> r.hash in store.ledger)
      ensures res.NotFound? ==> At(orig.Deref(), k) == [] && store.main == old(store.main) && store.ledger == old(store.ledger)
      ensures res.Removed? ==> CanonicalRef(r) && Deleted(orig.Deref(), r.Deref(), k)
      ensures res.Removed? ==> TradedRef(old(store.ledger), store.ledger, orig, r)
      ensures res.Removed? && r.Deref() == Null ==> Fewer(old(store.Known()), store.Known(), store.enforceRefs)
      decreases orig
    {
      r := orig;
      if orig.IsEmpty() {
        return NotFound, r;
      }
      NullShort();
      hide Size; hide Faulty; hide TwoUsed; hide AllOccurs; hide WellKept; hide AllFound;
      SealOccurs(orig);
      var n;
      if orig.Inline? {
        n := orig.node;
      } else {
        assert RefOccurs(orig, orig.hash) > 0;
        n := store.Lookup(orig.hash).value;
      }
      hide At; hide Occurs; hide RefOccurs;
      NotProvisional(n);
      res := DeleteAt(n, k);
      if res.Removed? {
        ghost var between := store.ledger;
        NotProvisional(res.node);
        SealCanonical(res.node);
        hide Provisional; hide Canonical; hide CanonicalRef;
        r := StreamNode(res.node);
        RefTraded(old(store.ledger), between, store.ledger, orig, r);
      } else if res.Misled? && res.written.Some? {
        r := StreamAny(res.written.value);
      }
    }

    /** Removes a key. A removal that takes a value for a hash ends in the root of what it has written, if there is
        a `Node` for that; what is left in the store by it or by one that throws is not described. */
    method Remove(key: ByteString) returns (end: Ending)
      requires Valid()
      modifies this`root, store`main, store`ledger
      ensures end.Threw? <==> Faulty(old(root).preimage, AsNibbles(key), old(Found()), Throw)
      ensures end.WentAstray? ==> Faulty(old(root).preimage, AsNibbles(key), old(Found()), Mislead)
      ensures !store.enforceRefs && Faulty(old(root).preimage, AsNibbles(key), old(Found()), Mislead) ==> end.WentAstray?
      ensures !store.enforceRefs && end.WentAstray? ==>
                var fate := Stray(old(root).preimage, AsNibbles(key), old(Found()), {});
                fate.Writes? && (fate.node.Some? ==> root == Sha3(fate.node.value))
      ensures end.Done? ==> Valid() && Updated(old(root).preimage, root.preimage, AsNibbles(key), [])
      ensures end.Done? && At(old(root).preimage, AsNibbles(key)) == [] ==>
                root == old(root) && store.main == old(store.main)
    {
      hide Faulty; hide Stray;
      var rv := store.Lookup(root).value;
      RootFacts();
      var res := DeleteAt(rv, AsNibbles(key));
      if res.Removed? {
        Replant(rv, res.node);
      } else if res.Misled? && res.written.Some? {
        if Size(rv) < 32 {
          store.Kill(root);
        }
        root := Sha3(res.written.value);
        store.Insert(root, res.written.value);
      }
      end := if res.Failed? then Threw else if res.Misled? then WentAstray else Done;
    }

    // Lookup

    method AtKey(key: ByteString) returns (v: ByteString)
      requires Valid()
      ensures v == At(root.preimage, AsNibbles(key))
    {
      v := AtAux(store.Lookup(root).value, AsNibbles(key));
    }

    /** `atAux`: follows the key through the store. */
    method AtAux(here: Node, k: Nibbles) returns (v: ByteString)
      requires store.Valid() && Canonical(here) && forall x :: Occurs(here, x) <= store.ledger[x]
      ensures v == At(here, k)
      decreases here
    {
      if here.Null? {
        return [];
      }
      var next: Ref;
      var rest: Nibbles;
      if Pair(here) {
        if here.Leaf? && here.path == k {
          return here.value;
        } else if here.Ext? && here.path <= k {
          next, rest := here.child, k[|here.path|..];
        } else {
          return [];
        }
      } else {
        if k == [] {
          return here.value;
        }
        next, rest := here.children[k[0]], k[1..];
        forall x {
          AllOccursUpdate(here.children, k[0], next, x);
        }
        if next.IsEmpty() {
          return [];
        }
      }
      assert CanonicalRef(next) && CoversRef(store.ledger, next);
      SealOccurs(next);
      if next.Inline? {
        v := AtAux(next.node, rest);
      } else {
        assert RefOccurs(next, next.hash) > 0;
        v := AtAux(store.Lookup(next.hash).value, rest);
      }
    }

    // Commit and reopen

    /** All of the trie below n, and n itself, is on disk. */
    ghost predicate OnDisk(n: Node)
      reads this, store
    {
      Sha3(n) in store.disk && forall x :: Occurs(n, x) > 0 ==> x in store.disk
    }

    /** Commits the store; the current trie is then on disk as a whole. */
    method Commit()
      requires Valid()
      modifies store`main, store`disk
      ensures Valid()
      ensures store.hasDisk ==> OnDisk(root.preimage)
      ensures forall h :: h in old(store.disk) ==> h in store.disk
    {
      store.Commit();
    }

    /** `setRoot`: false when the root is not found. A trie that is on disk as a whole, or an empty one that is
        not yet there, comes back as it was, whatever else the store holds. */
    method SetRoot(h: Hash) returns (ok: bool)
      requires store.Valid() && NoneProvisional(store.ledger)
      modifies this`root, this`others, store`main, store`ledger
      ensures root == h && others == old(store.ledger)
      ensures ok <==> h == EMPTY_TRIE || old(store.Exists(h))
      ensures Canonical(h.preimage) && ((h == EMPTY_TRIE && !old(store.Exists(h))) || OnDisk(h.preimage)) ==> Valid()
    {
      hide Canonical; hide Provisional; hide Occurs;
      root := h;
      others := store.ledger;
      FoundIff(store, h);
      if h == EMPTY_TRIE && !store.Exists(h) {
        NullCanonical();
        store.Insert(EMPTY_TRIE, Null);
      } else {
        store.Open(h);
      }
      ok := store.Lookup(h).Some?;
    }
  }

  lemma FoundIff(store: OverlayDB, h: Hash)
    ensures store.Lookup(h).Some? <==> store.Exists(h)
  {
  }

  lemma NullCanonical()
    ensures Canonical(Null) && forall x :: Occurs(Null, x) == 0
  {
  }

  /** Nothing that other tries in the store refer to is ever lost. */
  lemma OthersFound(t: GenericTrieDB, h: Hash)
    requires t.Valid() && h in t.others
    ensures t.store.Lookup(h) == Some(h.preimage) && (h !in t.store.disk ==> t.store.Count(h) >= t.others[h])
  {
    assert t.store.ledger[h] >= t.others[h] > 0;
  }
}
