/** Removal in any node the store finds, as on values: where `deleteAt` gets to once it has taken a value for a
    hash. Nothing is known of the nodes it meets there, and their children need not be in the store. */
module TrieStray {
  import opened Options
  import opened Bytes
  import Rlp
  import opened TrieNode
  import opened TrieSteps

  // Values taken for hashes

  /** The node, if any, that 32 bytes are the hash of. */
  type Naming = ByteString -> Option<Hash>

  /** What the store finds under 32 bytes: the node they name, if it knows that one. */
  datatype Finder = Finder(names: Naming, known: set<Hash>)

  /** What `toHash` makes of up to 32 bytes. */
  function LeftPadded(v: ByteString): ByteString
    requires |v| <= 32
  {
    Zeros(32 - |v|) + v
  }

  /** As a number it is the same. */
  lemma LeftPaddedIs(v: ByteString)
    requires |v| <= 32
    ensures |LeftPadded(v)| == 32 && Rlp.FromBigEndian(LeftPadded(v)) == Rlp.FromBigEndian(v)
  {
    LeadingZeros(32 - |v|, v);
  }

  lemma {:induction false} LeadingZeros(n: nat, v: ByteString)
    ensures Rlp.FromBigEndian(Zeros(n) + v) == Rlp.FromBigEndian(v)
  {
    if n > 0 {
      LeadingZeros(n - 1, v);
      assert Zeros(n) + v == [0] + (Zeros(n - 1) + v);
      Rlp.FromBigEndianFirst(0, Zeros(n - 1) + v);
    } else {
      assert Zeros(0) + v == v;
    }
  }

  /** The hash under which something is found when a value is taken for one. */
  ghost function Target(v: ByteString, f: Finder): (r: Option<Hash>)
    ensures r.Some? ==> r.value in f.known
  {
    if |v| > 32 then None
    else
      var h := f.names(LeftPadded(v));
      if h.Some? && h.value in f.known then h else None
  }

  /** The node found when a value is taken for a hash. */
  ghost function Taken(v: ByteString, f: Finder): Option<Node> {
    var h := Target(v, f);
    if h.Some? then Some(h.value.preimage) else None
  }

  ghost predicate TakenForPair(v: ByteString, f: Finder) {
    Taken(v, f).Some? && Pair(Taken(v, f).value)
  }

  // Rewriting

  /** The pair with p put in front of its path. */
  function Grafted(p: Nibbles, n: Node): Node
    requires Pair(n)
  {
    if n.Leaf? then Leaf(p + n.path, n.value) else Ext(p + n.path, n.child)
  }

  /** Slot u is the only one in use. */
  ghost predicate OnlyUsed(cs: seq<Ref>, v: ByteString, u: int) {
    0 <= u <= 16 && Used(cs, v, u) && forall j :: 0 <= j <= 16 && j != u ==> !Used(cs, v, j)
  }

  ghost predicate SomeOnly(cs: seq<Ref>, v: ByteString) {
    exists u :: OnlyUsed(cs, v, u)
  }

  /** How removal ends: the key is not there; it throws, reads past the key or never returns; or something is
      written, and that is a `Node` unless it has a branch below a leaf's path, or is made of a node not found. */
  datatype Fate = Absent | Stops | Writes(node: Option<Node>)

  /** What becomes of a pair over the node that was written below it. An empty slot is taken for a hash. */
  ghost function Refitted(n: Node, b: Node, f: Finder): Option<Node>
    requires Pair(n)
  {
    if Pair(b) then Some(Grafted(n.path, b))
    else if b == Null then
      if TakenForPair([], f) then Some(Grafted(n.path, Taken([], f).value))
      else Some(if n.Leaf? then Leaf(n.path, []) else Ext(n.path, EMPTY_REF))
    else if n.Leaf? then None
    else Some(Ext(n.path, Seal(b)))
  }

  ghost function Above(n: Node, below: Fate, f: Finder): (r: Fate)
    requires Pair(n)
    ensures r != Writes(Some(Null)) && (r.Absent? <==> below.Absent?) && (r.Stops? <==> below.Stops?)
  {
    if below.Writes? && below.node.Some? then Writes(Refitted(n, below.node.value, f)) else below
  }

  /** A slot leads to a pair: the one just written, or one that the store finds. */
  ghost predicate LeadsToPair(cs: seq<Ref>, u: int, written: int, f: Finder)
    requires 0 <= u < |cs|
  {
    (u == written || cs[u].Inline? || cs[u].hash in f.known) && Pair(cs[u].Deref())
  }

  /** What becomes of a branch that may have been left with one slot in use. */
  ghost function Settled(cs: seq<Ref>, v: ByteString, written: int, f: Finder): (r: Fate)
    ensures !r.Absent? && (r.Stops? ==> OnlyUsed(cs, v, 16))
    ensures r.Writes? ==> r.node.Some? && r.node.value != Null
  {
    if !SomeOnly(cs, v) then Writes(Some(Branch(cs, v)))
    else
      var u :| OnlyUsed(cs, v, u);
      if u == 16 then
        if |v| > 32 then Stops
        else if TakenForPair(v, f) then Writes(Taken(v, f))
        else Writes(Some(Leaf([], v)))
      else if LeadsToPair(cs, u, written, f) then Writes(Some(Grafted([u], cs[u].Deref())))
      else Writes(Some(Ext([u], cs[u])))
  }

  lemma SettledIs(cs: seq<Ref>, v: ByteString, written: int, f: Finder, u: int)
    requires OnlyUsed(cs, v, u)
    ensures Settled(cs, v, written, f) ==
            if u == 16 then
              if |v| > 32 then Stops
              else if TakenForPair(v, f) then Writes(Taken(v, f))
              else Writes(Some(Leaf([], v)))
            else if LeadsToPair(cs, u, written, f) then Writes(Some(Grafted([u], cs[u].Deref())))
            else Writes(Some(Ext([u], cs[u])))
  {
  }

  ghost function Across(cs: seq<Ref>, v: ByteString, i: nat, below: Fate, f: Finder): (r: Fate)
    requires i < |cs|
    ensures r != Writes(Some(Null)) && (r.Absent? <==> below.Absent?)
  {
    if below.Writes? && below.node.Some? then Settled(cs[i := Seal(below.node.value)], v, i, f) else below
  }

  /** What comes of removing k below a slot whose node is not found: that node passes for a branch of nothing. */
  ghost function Lost(k: Nibbles): Fate {
    if k == [] then Writes(None) else Stops
  }

  /** `deleteAt` on any node. `seen` are the nodes that values led into at this very key: to meet one of them again
      is never to return. */
  ghost function Stray(n: Node, k: Nibbles, f: Finder, seen: set<Hash>): (r: Fate)
    ensures r == Writes(Some(Null)) ==> n.Leaf? && n.path == k
    decreases |k|, |f.known - seen|, n, 1
  {
    match n
    case Null => Absent
    case Leaf(p, v) =>
      if p == k then Writes(Some(Null))
      else if p < k then Above(n, StrayPast(n, k[|p|..], f, if p == [] then seen else {}), f)
      else Absent
    case Ext(p, c) =>
      if p <= k then Above(n, StrayBelow(c, k[|p|..], f, if p == [] then seen else {}), f) else Absent
    case Branch(cs, v) =>
      if k == [] then if v == [] then Stops else Settled(cs, [], 16, f)
      else if k[0] >= |cs| then Absent
      else Across(cs, v, k[0], StrayBelow(cs[k[0]], k[1..], f, {}), f)
  }

  /** Past a leaf: its value is followed. */
  ghost function StrayPast(n: Node, k: Nibbles, f: Finder, seen: set<Hash>): Fate
    requires n.Leaf?
    decreases |k|, |f.known - seen|, n, 0
  {
    var h := Target(n.value, f);
    if h.None? || h.value in seen then Stops
    else
      FewerLeft(f.known, seen, h.value);
      Stray(h.value.preimage, k, f, seen + {h.value})
  }

  /** Into a child slot. */
  ghost function StrayBelow(r: Ref, k: Nibbles, f: Finder, seen: set<Hash>): Fate
    decreases |k|, |f.known - seen|, r, 0
  {
    if Missing(r, f) then Lost(k) else Stray(r.Deref(), k, f, seen)
  }

  ghost predicate Missing(r: Ref, f: Finder) {
    r.Hashed? && r.hash !in f.known
  }

  lemma FewerLeft(known: set<Hash>, seen: set<Hash>, h: Hash)
    requires h in known && h !in seen
    ensures |known - (seen + {h})| < |known - seen|
  {
    assert known - (seen + {h}) == known - seen - {h};
  }

  /** What comes of following a value, with the rest of the key. */
  ghost function Follow(v: ByteString, k: Nibbles, f: Finder): Fate {
    StrayPast(Leaf([], v), k, f, {})
  }

  lemma FollowIs(v: ByteString, k: Nibbles, f: Finder)
    requires Target(v, f).Some?
    ensures Follow(v, k, f) == Stray(Target(v, f).value.preimage, k, f, {Target(v, f).value})
  {
    var h := Target(v, f).value;
    assert {} + {h} == {h};
  }

  /** Two removals end alike, and write the same kind of node if any. */
  predicate Alike(a: Fate, b: Fate) {
    match a
    case Absent => b.Absent?
    case Stops => b.Stops?
    case Writes(x) => b.Writes? && (x.None? <==> b.node.None?) && (x.Some? ==> SameKind(x.value, b.node.value))
  }

  predicate SameKind(a: Node, b: Node) {
    (a.Null? <==> b.Null?) && (a.Branch? <==> b.Branch?)
  }

  /** A finder that does no less, or what was written is something: then nothing is looked up. */
  lemma RefittedAlike(n: Node, b: Node, c: Node, g: Finder, f: Finder)
    requires Pair(n) && SameKind(b, c)
    ensures Alike(Writes(Refitted(n, b, g)), Writes(Refitted(n, c, f)))
    ensures b == c && (b == Null ==> f == g) ==> Refitted(n, b, g) == Refitted(n, c, f)
  {
  }

  lemma SettledAlike(cs: seq<Ref>, v: ByteString, i: nibble, b: Node, c: Node, g: Finder, f: Finder)
    requires i < |cs| && SameKind(b, c)
    ensures Alike(Settled(cs[i := Seal(b)], v, i, g), Settled(cs[i := Seal(c)], v, i, f))
    ensures b == c && (b == Null ==> f == g) ==>
              Settled(cs[i := Seal(b)], v, i, g) == Settled(cs[i := Seal(c)], v, i, f)
    ensures b != Null ==> Settled(cs[i := Seal(c)], v, i, f).Writes?
  {
    var bs, ds := cs[i := Seal(b)], cs[i := Seal(c)];
    assert Size(Null) < 32;
    assert forall j :: 0 <= j <= 16 ==> (Used(bs, v, j) <==> Used(ds, v, j));
    assert b != Null ==> Used(bs, v, i);
    if u :| OnlyUsed(bs, v, u) {
      assert OnlyUsed(ds, v, u) && (b != Null ==> u == i);
      SettledIs(bs, v, i, g, u);
      SettledIs(ds, v, i, f, u);
    } else {
      assert forall u :: OnlyUsed(ds, v, u) ==> OnlyUsed(bs, v, u);
    }
  }

  /** What is written in a child slot of a branch. */
  lemma SlipsBelow(n: Node, k: Nibbles, f: Finder)
    requires n.Branch? && k != [] && k[0] < |n.children| && !Missing(n.children[k[0]], f)
    ensures var c := n.children[k[0]].Deref();
            Stray(n, k, f, {}) == Across(n.children, n.value, k[0], Stray(c, k[1..], f, {}), f)
  {
  }

  /** A leaf that keeps a branch's value company is removed, and the value taken for the hash of a pair. */
  lemma ValueSlips(n: Node, k: Nibbles, f: Finder)
    requires n.Branch? && k != [] && k[0] < |n.children| && !Missing(n.children[k[0]], f)
    requires n.children[k[0]].Deref().Leaf? && n.children[k[0]].Deref().path == k[1..]
    requires OnlyUsed(n.children[k[0] := EMPTY_REF], n.value, 16) && TakenForPair(n.value, f)
    ensures Stray(n, k, f, {}) == Writes(Taken(n.value, f))
  {
    assert Seal(Null) == EMPTY_REF;
    assert StrayBelow(n.children[k[0]], k[1..], f, {}) == Writes(Some(Null));
    SettledIs(n.children[k[0] := EMPTY_REF], n.value, k[0], f, 16);
  }
}
