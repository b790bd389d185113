/** `orderedTrieRoot`: the root over a list of values, each under the RLP of its index. */
module TrieOrdered {
  import opened Bytes
  import opened TrieNode
  import opened TrieRuns
  import RlpCanonical

  const UNSIGNED := 0x1_0000_0000

  lemma IndexFits(j: nat)
    requires j < UNSIGNED
    ensures |Rlp.BigEndian(j)| <= 4
  {
    Rlp.BigEndianFits(j, 4);
    assert Rlp.Pow256(2) == 0x1_0000;
  }

  function IndexKey(j: nat): ByteString
    requires j < UNSIGNED
  {
    IndexFits(j);
    Rlp.EncodeData(Rlp.BigEndian(j))
  }

  /** The key is the RLP of the index. */
  lemma IndexKeyIs(j: nat)
    requires j < UNSIGNED
    ensures Rlp.Decode(IndexKey(j)).Ok? && Rlp.Decode(IndexKey(j)).value.Data?
    ensures var b := Rlp.Decode(IndexKey(j)).value.data; Rlp.FromBigEndian(b) == j && (b != [] ==> b[0] != 0)
  {
    IndexFits(j);
    RlpCanonical.RoundTrip(Rlp.Data(Rlp.BigEndian(j)));
    Rlp.FromBigEndianOf(j);
  }

  /** No two indices share a key. */
  lemma IndexKeyInjective(i: nat, j: nat)
    requires i < UNSIGNED && j < UNSIGNED && IndexKey(i) == IndexKey(j)
    ensures i == j
  {
    IndexFits(i);
    IndexFits(j);
    var a, b := Rlp.BigEndian(i), Rlp.BigEndian(j);
    RlpCanonical.RoundTrip(Rlp.Data(a));
    RlpCanonical.RoundTrip(Rlp.Data(b));
    Rlp.FromBigEndianOf(i);
    Rlp.FromBigEndianOf(j);
  }

  /** m holds exactly the first n values, each under its index. */
  ghost predicate Indexed(m: BytesMap, data: seq<ByteString>, n: nat)
    requires n <= |data| <= UNSIGNED
  {
    && (forall j :: 0 <= j < n ==> IndexKey(j) in m && m[IndexKey(j)] == data[j])
    && (forall key :: key in m ==> exists j :: 0 <= j < n && IndexKey(j) == key)
  }

  /** The trie under h holds each value under its index and nothing else. */
  ghost predicate HoldsList(h: Hash, data: seq<ByteString>)
    requires |data| <= UNSIGNED
  {
    && (forall j :: 0 <= j < |data| ==> At(h.preimage, AsNibbles(IndexKey(j))) == data[j])
    && (forall x :: At(h.preimage, x) != [] ==> exists j :: 0 <= j < |data| && AsNibbles(IndexKey(j)) == x)
  }

  method OrderedTrieRoot(data: seq<ByteString>) returns (h: Hash)
    requires |data| <= UNSIGNED && forall j :: 0 <= j < |data| ==> data[j] != []
    ensures Canonical(h.preimage) && HoldsList(h, data)
  {
    hide IndexKey; hide AsNibbles; hide At; hide Canonical;
    var m: BytesMap := map[];
    for j := 0 to |data|
      invariant Indexed(m, data, j)
    {
      forall i | 0 <= i < j
        ensures IndexKey(i) != IndexKey(j)
      {
        if IndexKey(i) == IndexKey(j) {
          IndexKeyInjective(i, j);
        }
      }
      m := m[IndexKey(j) := data[j]];
    }
    h := Hash256Map(m);
    forall j | 0 <= j < |data|
      ensures At(h.preimage, AsNibbles(IndexKey(j))) == data[j]
    {
      assert IndexKey(j) in m;
    }
  }

  /** Lists with the same root are the same. */
  lemma OrderedRootInjective(h: Hash, a: seq<ByteString>, b: seq<ByteString>)
    requires |a| <= UNSIGNED && |b| <= UNSIGNED && HoldsList(h, a) && HoldsList(h, b)
    requires (forall j :: 0 <= j < |a| ==> a[j] != []) && (forall j :: 0 <= j < |b| ==> b[j] != [])
    ensures a == b
  {
    hide IndexKey; hide AsNibbles; hide At;
    if |a| < |b| {
      NotBeyond(h, a, b);
    } else if |b| < |a| {
      NotBeyond(h, b, a);
    } else {
      forall j | 0 <= j < |a|
        ensures a[j] == b[j]
      {
        assert At(h.preimage, AsNibbles(IndexKey(j))) == a[j];
      }
    }
  }

  lemma NotBeyond(h: Hash, a: seq<ByteString>, b: seq<ByteString>)
    requires |a| <= UNSIGNED && |b| <= UNSIGNED && HoldsList(h, a) && HoldsList(h, b)
    requires forall j :: 0 <= j < |b| ==> b[j] != []
    ensures |b| <= |a|
  {
    hide IndexKey; hide AsNibbles; hide At;
    if |a| < |b| {
      var x := AsNibbles(IndexKey(|a|));
      assert At(h.preimage, x) == b[|a|] != [];
      var j :| 0 <= j < |a| && AsNibbles(IndexKey(j)) == x;
      AsNibblesInjective(IndexKey(j), IndexKey(|a|));
      IndexKeyInjective(j, |a|);
    }
  }
}
