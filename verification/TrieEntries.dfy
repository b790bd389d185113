/** The entries of a trie in iteration order: a node's own value first, then its children by nibble. */
module TrieEntries {
  import opened Bytes
  import opened TrieNode
  import opened TrieHash

  function Prefixed(p: Nibbles, es: seq<KeyValue>): (r: seq<KeyValue>)
    ensures |r| == |es|
    ensures forall i :: 0 <= i < |es| ==> r[i] == KeyValue(p + es[i].key, es[i].value)
  {
    seq(|es|, i requires 0 <= i < |es| => KeyValue(p + es[i].key, es[i].value))
  }

  function Entries(n: Node): seq<KeyValue>
    decreases n, 1
  {
    match n
    case Null => []
    case Leaf(p, v) => [KeyValue(p, v)]
    case Ext(p, c) => Prefixed(p, RefEntries(c))
    case Branch(cs, v) => (if v == [] then [] else [KeyValue([], v)]) + ChildEntries(cs, 0)
  }

  function RefEntries(r: Ref): seq<KeyValue>
    ensures RefEntries(r) == Entries(r.Deref())
    decreases r, 1
  {
    match r
    case Inline(n) => Entries(n)
    case Hashed(h) => Entries(h.preimage)
  }

  /** The entries of the child slots from i on. */
  function ChildEntries(cs: seq<Ref>, i: nat): seq<KeyValue>
    decreases cs, 0, 16 - i
  {
    if i < |cs| && i < 16 then Prefixed([i], RefEntries(cs[i])) + ChildEntries(cs, i + 1) else []
  }

  lemma PrefixedTwice(p: Nibbles, q: Nibbles, es: seq<KeyValue>)
    ensures Prefixed(p, Prefixed(q, es)) == Prefixed(p + q, es)
  {
    forall i | 0 <= i < |es|
      ensures p + (q + es[i].key) == p + q + es[i].key
    {
    }
  }

  lemma PrefixedConcat(p: Nibbles, a: seq<KeyValue>, b: seq<KeyValue>)
    ensures Prefixed(p, a + b) == Prefixed(p, a) + Prefixed(p, b)
  {
  }

  lemma PrefixedNothing(es: seq<KeyValue>)
    ensures Prefixed([], es) == es
  {
    forall i | 0 <= i < |es|
      ensures [] + es[i].key == es[i].key
    {
    }
  }

  lemma PrefixedSorted(p: Nibbles, es: seq<KeyValue>)
    requires Sorted(es)
    ensures Sorted(Prefixed(p, es))
  {
    forall i, j | 0 <= i < j < |es|
      ensures Less(p + es[i].key, p + es[j].key)
    {
      LessCommonPrefix(p, es[i].key, es[j].key);
    }
  }

  /** Every entry of the slots from i on has a key starting at i or above. */
  lemma {:induction false} ChildEntriesAbove(cs: seq<Ref>, i: nat)
    ensures forall e :: e in ChildEntries(cs, i) ==> e.key != [] && e.key[0] >= i
    decreases 16 - i
  {
    if i < |cs| && i < 16 {
      ChildEntriesAbove(cs, i + 1);
    }
  }

  lemma SortedConcat(a: seq<KeyValue>, b: seq<KeyValue>)
    requires Sorted(a) && Sorted(b) && forall x, y :: x in a && y in b ==> Less(x.key, y.key)
    ensures Sorted(a + b)
  {
  }

  /** The entries come in ascending key order, each once. */
  lemma {:induction false} EntriesSorted(n: Node)
    requires Canonical(n)
    ensures Sorted(Entries(n))
    decreases n, 1
  {
    match n
    case Null =>
    case Leaf(p, v) =>
    case Ext(p, c) =>
      EntriesSorted(c.Deref());
      PrefixedSorted(p, RefEntries(c));
    case Branch(cs, v) =>
      ChildEntriesSorted(cs, 0);
      ChildEntriesAbove(cs, 0);
      if v != [] {
        SortedConcat([KeyValue([], v)], ChildEntries(cs, 0));
      } else {
        assert Entries(n) == ChildEntries(cs, 0);
      }
  }

  lemma {:induction false} ChildEntriesSorted(cs: seq<Ref>, i: nat)
    requires |cs| == 16 && forall j :: 0 <= j < 16 ==> CanonicalRef(cs[j])
    ensures Sorted(ChildEntries(cs, i))
    decreases cs, 0, 16 - i
  {
    if i < 16 {
      assert CanonicalRef(cs[i]) && cs[i] in cs;
      RefEntriesSorted(cs[i]);
      PrefixedSorted([i], RefEntries(cs[i]));
      ChildEntriesSorted(cs, i + 1);
      ChildEntriesAbove(cs, i + 1);
      SortedConcat(Prefixed([i], RefEntries(cs[i])), ChildEntries(cs, i + 1));
    }
  }

  lemma {:induction false} RefEntriesSorted(r: Ref)
    requires CanonicalRef(r)
    ensures Sorted(RefEntries(r))
    decreases r, 1
  {
    EntriesSorted(r.Deref());
  }

  /** The entries are exactly what lookup finds. */
  lemma {:induction false} EntriesExact(n: Node, k: Nibbles, v: ByteString)
    requires Canonical(n)
    ensures KeyValue(k, v) in Entries(n) <==> v != [] && At(n, k) == v
    decreases n, 1
  {
    match n
    case Null =>
    case Leaf(p, w) =>
    case Ext(p, c) =>
      PrefixedMember(p, RefEntries(c), k, v);
      if p <= k {
        EntriesExact(c.Deref(), k[|p|..], v);
      }
    case Branch(cs, w) =>
      ChildEntriesExact(cs, 0, k, v);
      assert forall e :: e in Entries(n) <==> e in ChildEntries(cs, 0) || (w != [] && e == KeyValue([], w));
  }

  lemma PrefixedMember(p: Nibbles, es: seq<KeyValue>, k: Nibbles, v: ByteString)
    ensures KeyValue(k, v) in Prefixed(p, es) <==> p <= k && KeyValue(k[|p|..], v) in es
  {
    var r := Prefixed(p, es);
    if KeyValue(k, v) in r {
      var i :| 0 <= i < |r| && r[i] == KeyValue(k, v);
      assert k[|p|..] == es[i].key;
    }
    if p <= k && KeyValue(k[|p|..], v) in es {
      var i :| 0 <= i < |es| && es[i] == KeyValue(k[|p|..], v);
      assert p + k[|p|..] == k;
      assert r[i] == KeyValue(k, v);
    }
  }

  lemma {:induction false} ChildEntriesExact(cs: seq<Ref>, i: nat, k: Nibbles, v: ByteString)
    requires |cs| == 16 && forall j :: 0 <= j < 16 ==> CanonicalRef(cs[j])
    ensures KeyValue(k, v) in ChildEntries(cs, i) <==>
              k != [] && k[0] >= i && v != [] && At(cs[k[0]].Deref(), k[1..]) == v
    decreases cs, 0, 16 - i
  {
    if i < 16 {
      assert CanonicalRef(cs[i]) && cs[i] in cs;
      PrefixedMember([i], RefEntries(cs[i]), k, v);
      ChildEntriesExact(cs, i + 1, k, v);
      if [i] <= k {
        RefEntriesExact(cs[i], k[1..], v);
      }
    }
  }

  lemma {:induction false} RefEntriesExact(r: Ref, k: Nibbles, v: ByteString)
    requires CanonicalRef(r)
    ensures KeyValue(k, v) in RefEntries(r) <==> v != [] && At(r.Deref(), k) == v
    decreases r, 1
  {
    EntriesExact(r.Deref(), k, v);
  }
}
