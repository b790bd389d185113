/** Trie nodes as values, with SHA3 as an injective constructor over them.

    A node is what `RLP(node(h))` shows: null, a two-item list (leaf or extension, told apart by the
    hex-prefix flag) or a seventeen-item list. A child slot holds the node itself when its RLP is shorter
    than 32 bytes, and its hash otherwise. */
module TrieNode {
  import opened Bytes
  import Rlp
  import HexPrefix

  datatype Node =
    | Null
    | Leaf(path: Nibbles, value: ByteString)
    | Ext(path: Nibbles, child: Ref)
    | Branch(children: seq<Ref>, value: ByteString)

  datatype Ref = Inline(node: Node) | Hashed(hash: Hash) {
    /** The node a slot stands for. */
    function Deref(): Node {
      match this
      case Inline(n) => n
      case Hashed(h) => h.preimage
    }

    predicate IsEmpty() {
      this == Inline(Null)
    }
  }

  datatype Hash = Sha3(preimage: Node)

  const EMPTY_REF := Inline(Null)
  const EMPTY_TRIE := Sha3(Null)

  /** Number of bytes of the node's RLP. */
  function Size(n: Node): nat {
    match n
    case Null => Rlp.DataSize([])
    case Leaf(p, v) => Rlp.ListSize(Rlp.DataSize(HexPrefix.Encode(p, true)) + Rlp.DataSize(v))
    case Ext(p, c) => Rlp.ListSize(Rlp.DataSize(HexPrefix.Encode(p, false)) + RefSize(c))
    case Branch(cs, v) => Rlp.ListSize(RefsSize(cs) + Rlp.DataSize(v))
  }

  function RefSize(r: Ref): nat {
    match r
    case Inline(n) => Size(n)
    case Hashed(_) => 33
  }

  function RefsSize(cs: seq<Ref>): nat {
    if cs == [] then 0 else RefSize(cs[0]) + RefsSize(cs[1..])
  }

  /** The slot `streamNode` writes for a node. */
  function Seal(n: Node): (r: Ref)
    ensures r.Deref() == n
  {
    if Size(n) < 32 then Inline(n) else Hashed(Sha3(n))
  }

  /** The value stored under key k, empty when absent (`atAux`). */
  function At(n: Node, k: Nibbles): ByteString {
    match n
    case Null => []
    case Leaf(p, v) => if k == p then v else []
    case Ext(p, c) => if p <= k then At(c.Deref(), k[|p|..]) else []
    case Branch(cs, v) =>
      if k == [] then v
      else if k[0] < |cs| then At(cs[k[0]].Deref(), k[1..])
      else []
  }

  /** Slot i of a seventeen-item list is in use; slot 16 is the value. */
  predicate Used(cs: seq<Ref>, v: ByteString, i: int) {
    if i == 16 then v != [] else 0 <= i < |cs| && !cs[i].IsEmpty()
  }

  ghost predicate TwoUsed(cs: seq<Ref>, v: ByteString) {
    exists i, j :: 0 <= i < j <= 16 && Used(cs, v, i) && Used(cs, v, j)
  }

  /** The shape `check` demands, plus: every branch has two slots in use, extension paths and values are
      not empty, and each slot is inlined exactly when its node is short. */
  ghost predicate Canonical(n: Node) {
    match n
    case Null => true
    case Leaf(p, v) => v != []
    case Ext(p, c) => p != [] && c.Deref().Branch? && CanonicalRef(c)
    case Branch(cs, v) => |cs| == 16 && TwoUsed(cs, v) && forall i :: 0 <= i < 16 ==> CanonicalRef(cs[i])
  }

  ghost predicate CanonicalRef(r: Ref) {
    match r
    case Inline(n) => Canonical(n) && Size(n) < 32
    case Hashed(h) => Canonical(h.preimage) && Size(h.preimage) >= 32
  }

  lemma SealCanonical(n: Node)
    requires Canonical(n)
    ensures CanonicalRef(Seal(n))
  {
  }

  /** How often hash x is referred to in the fully expanded trie below a node. */
  ghost function Occurs(n: Node, x: Hash): nat {
    match n
    case Null => 0
    case Leaf(_, _) => 0
    case Ext(_, c) => RefOccurs(c, x)
    case Branch(cs, _) => AllOccurs(cs, x)
  }

  ghost function RefOccurs(r: Ref, x: Hash): nat {
    match r
    case Inline(n) => Occurs(n, x)
    case Hashed(h) => (if h == x then 1 else 0) + Occurs(h.preimage, x)
  }

  ghost function AllOccurs(cs: seq<Ref>, x: Hash): nat {
    if cs == [] then 0 else RefOccurs(cs[0], x) + AllOccurs(cs[1..], x)
  }

  /** All the references below a node, as a bag. */
  ghost function Hashes(n: Node): multiset<Hash> {
    match n
    case Null => multiset{}
    case Leaf(_, _) => multiset{}
    case Ext(_, c) => RefHashes(c)
    case Branch(cs, _) => AllHashes(cs)
  }

  ghost function RefHashes(r: Ref): multiset<Hash> {
    match r
    case Inline(n) => Hashes(n)
    case Hashed(h) => multiset{h} + Hashes(h.preimage)
  }

  ghost function AllHashes(cs: seq<Ref>): multiset<Hash> {
    if cs == [] then multiset{} else RefHashes(cs[0]) + AllHashes(cs[1..])
  }

  lemma {:induction false} HashesCount(n: Node, x: Hash)
    ensures Hashes(n)[x] == Occurs(n, x)
    decreases n, 1
  {
    match n
    case Null =>
    case Leaf(_, _) =>
    case Ext(_, c) => RefHashesCount(c, x);
    case Branch(cs, _) => AllHashesCount(cs, x);
  }

  lemma {:induction false} RefHashesCount(r: Ref, x: Hash)
    ensures RefHashes(r)[x] == RefOccurs(r, x)
    decreases r, 1
  {
    HashesCount(r.Deref(), x);
  }

  lemma {:induction false} AllHashesCount(cs: seq<Ref>, x: Hash)
    ensures AllHashes(cs)[x] == AllOccurs(cs, x)
    decreases cs, 0
  {
    if cs != [] {
      RefHashesCount(cs[0], x);
      AllHashesCount(cs[1..], x);
    }
  }

  /** The reference that a slot holding the node adds. */
  ghost function Self(n: Node, x: Hash): nat {
    if Size(n) >= 32 && x == Sha3(n) then 1 else 0
  }

  lemma SealOccurs(r: Ref)
    requires CanonicalRef(r)
    ensures forall x :: RefOccurs(r, x) == Self(r.Deref(), x) + Occurs(r.Deref(), x)
  {
  }

  lemma {:induction false} AllOccursUpdate(cs: seq<Ref>, i: nat, r: Ref, x: Hash)
    requires i < |cs|
    ensures RefOccurs(cs[i], x) <= AllOccurs(cs, x)
    ensures AllOccurs(cs[i := r], x) == AllOccurs(cs, x) - RefOccurs(cs[i], x) + RefOccurs(r, x)
  {
    if i == 0 {
      assert cs[i := r][1..] == cs[1..];
    } else {
      AllOccursUpdate(cs[1..], i - 1, r, x);
      assert cs[i := r][1..] == cs[1..][i - 1 := r];
    }
  }

  lemma {:induction false} AllOccursEmpty(cs: seq<Ref>, x: Hash)
    requires forall i :: 0 <= i < |cs| ==> cs[i] == EMPTY_REF
    ensures AllOccurs(cs, x) == 0
  {
    if cs != [] {
      AllOccursEmpty(cs[1..], x);
      assert RefOccurs(cs[0], x) == Occurs(Null, x) == 0;
    }
  }

  /** Everything a canonical trie refers to is canonical. */
  lemma {:induction false} OccursCanonical(n: Node, h: Hash)
    requires Canonical(n) && Occurs(n, h) > 0
    ensures Canonical(h.preimage)
    decreases n, 1
  {
    match n
    case Ext(_, c) => RefOccursCanonical(c, h);
    case Branch(cs, _) => AllOccursCanonical(cs, h);
  }

  lemma {:induction false} RefOccursCanonical(r: Ref, h: Hash)
    requires CanonicalRef(r) && RefOccurs(r, h) > 0
    ensures Canonical(h.preimage)
    decreases r, 1
  {
    if r != Hashed(h) {
      OccursCanonical(r.Deref(), h);
    }
  }

  lemma {:induction false} AllOccursCanonical(cs: seq<Ref>, h: Hash)
    requires (forall i :: 0 <= i < |cs| ==> CanonicalRef(cs[i])) && AllOccurs(cs, h) > 0
    ensures Canonical(h.preimage)
    decreases cs, 0
  {
    if RefOccurs(cs[0], h) > 0 {
      RefOccursCanonical(cs[0], h);
    } else {
      AllOccursCanonical(cs[1..], h);
    }
  }

  /** a and b hold the same entries. */
  ghost predicate SameEntries(a: Node, b: Node) {
    forall k :: At(a, k) == At(b, k)
  }

  /** b holds what a holds, with v at k. */
  ghost predicate Updated(a: Node, b: Node, k: Nibbles, v: ByteString) {
    forall x :: At(b, x) == if x == k then v else At(a, x)
  }
}
