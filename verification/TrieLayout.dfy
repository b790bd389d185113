/** The RLP of a trie node. Given a digest for hashes, a node's size is that of its RLP, and canonical nodes
    with the same RLP are the same node: hashing nodes is as good as hashing their bytes, as long as no two of
    the hashes at hand have the same digest. */
module TrieLayout {
  import opened Bytes
  import opened Rlp
  import RlpCanonical
  import opened TrieNode

  type Digest = Hash -> ByteString

  ghost predicate Wide(d: Digest) {
    forall h :: |d(h)| == 32
  }

  /** No two of these hashes have the same digest. */
  ghost predicate Apart(d: Digest, hs: iset<Hash>) {
    forall h, l :: h in hs && l in hs && d(h) == d(l) ==> h == l
  }

  /** All the hashes a node refers to are among these. */
  ghost predicate Among(n: Node, hs: iset<Hash>) {
    forall x :: Occurs(n, x) > 0 ==> x in hs
  }

  ghost predicate RefAmong(r: Ref, hs: iset<Hash>) {
    forall x :: RefOccurs(r, x) > 0 ==> x in hs
  }

  function Layout(n: Node, d: Digest): Item
    decreases n, 1
  {
    match n
    case Null => Data([])
    case Leaf(p, v) => List([Data(HexPrefix.Encode(p, true)), Data(v)])
    case Ext(p, c) => List([Data(HexPrefix.Encode(p, false)), RefLayout(c, d)])
    case Branch(cs, v) => List(RefLayouts(cs, d) + [Data(v)])
  }

  function RefLayout(r: Ref, d: Digest): Item
    decreases r, 1
  {
    match r
    case Inline(n) => Layout(n, d)
    case Hashed(h) => Data(d(h))
  }

  function RefLayouts(cs: seq<Ref>, d: Digest): (r: seq<Item>)
    ensures |r| == |cs|
    decreases cs, 0
  {
    if cs == [] then [] else [RefLayout(cs[0], d)] + RefLayouts(cs[1..], d)
  }

  lemma ItemsSizePair(a: Item, b: Item)
    ensures ItemsSize([a, b]) == ItemSize(a) + ItemSize(b)
  {
    assert [a, b][1..] == [b] && [b][1..] == [];
    assert ItemsSize([b]) == ItemSize(b) + ItemsSize([]);
  }

  lemma {:induction false} ItemsSizeSnoc(xs: seq<Item>, x: Item)
    ensures ItemsSize(xs + [x]) == ItemsSize(xs) + ItemSize(x)
  {
    if xs == [] {
      assert xs + [x] == [x] && [x][1..] == [];
    } else {
      assert (xs + [x])[1..] == xs[1..] + [x];
      ItemsSizeSnoc(xs[1..], x);
    }
  }

  /** `Size` is the size of the RLP. */
  lemma {:induction false} LayoutSize(n: Node, d: Digest)
    requires Wide(d)
    ensures ItemSize(Layout(n, d)) == Size(n)
    decreases n, 1
  {
    match n
    case Null =>
    case Leaf(p, v) => ItemsSizePair(Data(HexPrefix.Encode(p, true)), Data(v));
    case Ext(p, c) =>
      ItemsSizePair(Data(HexPrefix.Encode(p, false)), RefLayout(c, d));
      RefLayoutSize(c, d);
    case Branch(cs, v) =>
      ItemsSizeSnoc(RefLayouts(cs, d), Data(v));
      RefLayoutsSize(cs, d);
  }

  lemma {:induction false} RefLayoutSize(r: Ref, d: Digest)
    requires Wide(d)
    ensures ItemSize(RefLayout(r, d)) == RefSize(r)
    decreases r, 1
  {
    if r.Inline? {
      LayoutSize(r.node, d);
    }
  }

  lemma {:induction false} RefLayoutsSize(cs: seq<Ref>, d: Digest)
    requires Wide(d)
    ensures ItemsSize(RefLayouts(cs, d)) == RefsSize(cs)
    decreases cs, 0
  {
    if cs != [] {
      RefLayoutSize(cs[0], d);
      RefLayoutsSize(cs[1..], d);
      assert RefLayouts(cs, d)[1..] == RefLayouts(cs[1..], d);
    }
  }

  lemma {:induction false} RefLayoutAt(cs: seq<Ref>, d: Digest, i: nat)
    requires i < |cs|
    ensures RefLayouts(cs, d)[i] == RefLayout(cs[i], d)
  {
    if i > 0 {
      RefLayoutAt(cs[1..], d, i - 1);
    }
  }

  lemma PairPaths(a: Nibbles, la: bool, b: Nibbles, lb: bool)
    requires HexPrefix.Encode(a, la) == HexPrefix.Encode(b, lb)
    ensures a == b && la == lb
  {
    HexPrefix.Recovered(a, la);
    HexPrefix.Recovered(b, lb);
  }

  /** Canonical nodes with the same RLP are the same. */
  lemma {:induction false} LayoutInjective(a: Node, b: Node, d: Digest, hs: iset<Hash>)
    requires Canonical(a) && Canonical(b) && Wide(d) && Apart(d, hs) && Among(a, hs) && Among(b, hs)
    requires Layout(a, d) == Layout(b, d)
    ensures a == b
    decreases a, 1
  {
    hide HexPrefix.Encode;
    if a.Null? || b.Null? {
      assert Layout(Null, d).Data?;
    } else if a.Branch? || b.Branch? {
      assert |Layout(a, d).items| == |Layout(b, d).items|;
      BranchInjective(a, b, d, hs);
    } else {
      var x, y := Layout(a, d).items, Layout(b, d).items;
      assert x[0] == y[0] && x[1] == y[1];
      PairPaths(a.path, a.Leaf?, b.path, b.Leaf?);
      if a.Ext? {
        RefInjective(a.child, b.child, d, hs);
      }
    }
  }

  lemma {:induction false} BranchInjective(a: Node, b: Node, d: Digest, hs: iset<Hash>)
    requires Canonical(a) && Canonical(b) && Wide(d) && Apart(d, hs) && Among(a, hs) && Among(b, hs)
    requires Layout(a, d) == Layout(b, d) && a.Branch? && b.Branch?
    ensures a == b
    decreases a, 0
  {
    var x, y := Layout(a, d).items, Layout(b, d).items;
    assert x[16] == Data(a.value) && y[16] == Data(b.value);
    forall i | 0 <= i < 16
      ensures a.children[i] == b.children[i]
    {
      RefLayoutAt(a.children, d, i);
      RefLayoutAt(b.children, d, i);
      assert x[i] == RefLayout(a.children[i], d) && y[i] == RefLayout(b.children[i], d);
      assert CanonicalRef(a.children[i]) && CanonicalRef(b.children[i]);
      SlotAmong(a, i, hs);
      SlotAmong(b, i, hs);
      RefInjective(a.children[i], b.children[i], d, hs);
    }
  }

  lemma SlotAmong(n: Node, i: nat, hs: iset<Hash>)
    requires n.Branch? && Among(n, hs) && i < |n.children|
    ensures RefAmong(n.children[i], hs)
  {
    forall x | RefOccurs(n.children[i], x) > 0
      ensures x in hs
    {
      AllOccursUpdate(n.children, i, n.children[i], x);
      assert Occurs(n, x) > 0;
    }
  }

  lemma {:induction false} RefInjective(a: Ref, b: Ref, d: Digest, hs: iset<Hash>)
    requires CanonicalRef(a) && CanonicalRef(b) && Wide(d) && Apart(d, hs) && RefAmong(a, hs) && RefAmong(b, hs)
    requires RefLayout(a, d) == RefLayout(b, d)
    ensures a == b
    decreases a, 1
  {
    if a.Inline? && b.Inline? {
      assert Among(a.node, hs) && Among(b.node, hs) by {
        assert forall x :: RefOccurs(a, x) == Occurs(a.node, x) && RefOccurs(b, x) == Occurs(b.node, x);
      }
      LayoutInjective(a.node, b.node, d, hs);
    } else if a.Hashed? && b.Hashed? {
      assert RefOccurs(a, a.hash) > 0 && RefOccurs(b, b.hash) > 0;
    }
  }

  /** Equal bytes come from equal nodes, as long as no two of the hashes in them have the same digest. */
  lemma BytesInjective(a: Node, b: Node, d: Digest)
    requires Canonical(a) && Canonical(b) && Wide(d) && Fits(Layout(a, d)) && Fits(Layout(b, d))
    requires Apart(d, iset x | Occurs(a, x) > 0 || Occurs(b, x) > 0)
    requires Encode(Layout(a, d)) == Encode(Layout(b, d))
    ensures a == b
  {
    RlpCanonical.RoundTrip(Layout(a, d));
    RlpCanonical.RoundTrip(Layout(b, d));
    LayoutInjective(a, b, d, iset x | Occurs(a, x) > 0 || Occurs(b, x) > 0);
  }

  function IndexIn(hs: seq<Hash>, h: Hash): (i: nat)
    ensures h in hs ==> i < |hs| && hs[i] == h
  {
    if hs == [] || hs[0] == h then 0 else 1 + IndexIn(hs[1..], h)
  }

  /** Such digests exist: any 256 hashes can be told apart. */
  lemma SomeDigest(hs: seq<Hash>) returns (d: Digest)
    requires |hs| <= 256
    ensures Wide(d) && Apart(d, iset h | h in hs)
  {
    d := (h: Hash) => [if h in hs then IndexIn(hs, h) else 0] + seq(31, _ => 0);
    forall h, l | h in hs && l in hs && d(h) == d(l)
      ensures h == l
    {
      assert d(h)[0] == d(l)[0];
    }
  }

  /** The bytes of a node decode to: nothing for null; for a pair a list of its path, in hex-prefix form, and its
      value or child; for a branch a list of its sixteen children and its value. A child is there with its own list,
      or by its digest. */
  lemma LayoutItems(n: Node, d: Digest)
    requires Fits(Layout(n, d)) && (n.Branch? ==> |n.children| == 16)
    ensures Decode(Encode(Layout(n, d))).Ok?
    ensures var item := Decode(Encode(Layout(n, d))).value;
            match n
            case Null => item == Data([])
            case Leaf(p, v) => item == List([Data(HexPrefix.Encode(p, true)), Data(v)])
            case Ext(p, c) => item == List([Data(HexPrefix.Encode(p, false)), Child(c, d)])
            case Branch(cs, v) =>
              && item.List? && |item.items| == 17 && item.items[16] == Data(v)
              && forall i :: 0 <= i < 16 ==> item.items[i] == Child(cs[i], d)
  {
    hide HexPrefix.Encode; hide Encode; hide Decode; hide Fits;
    RlpCanonical.RoundTrip(Layout(n, d));
    if n.Branch? {
      forall i | 0 <= i < 16
        ensures RefLayouts(n.children, d)[i] == Child(n.children[i], d)
      {
        RefLayoutAt(n.children, d, i);
      }
    }
  }

  /** What stands for a child: its digest of 32 bytes, or all of it. */
  function Child(r: Ref, d: Digest): Item {
    if r.Hashed? then Data(d(r.hash)) else Layout(r.node, d)
  }
}
