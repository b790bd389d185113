/** The entries of a trie from a given key on. */
module TrieSeek {
  import opened Bytes
  import opened TrieNode
  import opened TrieHash
  import opened TrieEntries

  /** What is left of an ordered list after dropping the keys below k. */
  function Seek(es: seq<KeyValue>, k: Nibbles): seq<KeyValue> {
    if es == [] then [] else if Less(es[0].key, k) then Seek(es[1..], k) else es
  }

  /** It starts at the least key not below k. */
  lemma {:induction false} SeekSplits(es: seq<KeyValue>, k: Nibbles) returns (j: nat)
    requires Sorted(es)
    ensures j <= |es| && Seek(es, k) == es[j..]
    ensures forall i :: 0 <= i < j ==> Less(es[i].key, k)
    ensures forall i :: j <= i < |es| ==> !Less(es[i].key, k)
  {
    if es == [] {
      j := 0;
    } else if Less(es[0].key, k) {
      var i := SeekSplits(es[1..], k);
      j := i + 1;
      assert es[1..][i..] == es[j..];
      forall l | j <= l < |es|
        ensures !Less(es[l].key, k)
      {
        assert es[l] == es[1..][l - 1];
      }
    } else {
      j := 0;
      forall l | 0 <= l < |es|
        ensures !Less(es[l].key, k)
      {
        if l > 0 && Less(es[l].key, k) {
          LessTransitive(es[0].key, es[l].key, k);
        }
      }
    }
  }

  lemma SeekEmptyKey(es: seq<KeyValue>)
    ensures Seek(es, []) == es
  {
  }

  lemma {:induction false} SeekAllBelow(a: seq<KeyValue>, b: seq<KeyValue>, k: Nibbles)
    requires forall e :: e in a ==> Less(e.key, k)
    ensures Seek(a + b, k) == Seek(b, k)
  {
    if a == [] {
      assert a + b == b;
    } else {
      assert a[0] in a && (a + b)[1..] == a[1..] + b;
      SeekAllBelow(a[1..], b, k);
    }
  }

  lemma {:induction false} SeekFront(a: seq<KeyValue>, b: seq<KeyValue>, k: Nibbles)
    requires forall e :: e in b ==> !Less(e.key, k)
    ensures Seek(a + b, k) == Seek(a, k) + b
  {
    if a == [] {
      assert a + b == b;
      assert b != [] ==> b[0] in b;
    } else {
      assert (a + b)[1..] == a[1..] + b;
      SeekFront(a[1..], b, k);
    }
  }

  lemma {:induction false} SeekPrefixed(p: Nibbles, es: seq<KeyValue>, k: Nibbles)
    ensures Seek(Prefixed(p, es), p + k) == Prefixed(p, Seek(es, k))
  {
    if es != [] {
      LessCommonPrefix(p, es[0].key, k);
      assert Prefixed(p, es)[1..] == Prefixed(p, es[1..]);
      SeekPrefixed(p, es[1..], k);
    }
  }

  /** A key below a path is below everything under the path. */
  lemma {:induction false} EarlierThanAll(k: Nibbles, p: Nibbles, x: Nibbles)
    requires Less(k, p)
    ensures Less(k, p + x)
  {
    assert (p + x)[0] == p[0];
    if k != [] && k[0] == p[0] {
      assert (p + x)[1..] == p[1..] + x;
      EarlierThanAll(k[1..], p[1..], x);
    }
  }

  /** A key above a path that it does not start with is above everything under the path. */
  lemma {:induction false} LaterThanAll(k: Nibbles, p: Nibbles, x: Nibbles)
    requires !(p <= k) && !Less(k, p)
    ensures Less(p + x, k)
  {
    assert (p + x)[0] == p[0];
    if p[0] == k[0] {
      assert (p + x)[1..] == p[1..] + x;
      assert k == [k[0]] + k[1..] && p == [p[0]] + p[1..];
      LaterThanAll(k[1..], p[1..], x);
    }
  }

  lemma SeekEarlier(p: Nibbles, es: seq<KeyValue>, k: Nibbles)
    requires Less(k, p)
    ensures Seek(Prefixed(p, es), k) == Prefixed(p, es)
  {
    if es != [] {
      EarlierThanAll(k, p, es[0].key);
      LessTotal(k, p + es[0].key);
    }
  }

  lemma SeekLater(p: Nibbles, es: seq<KeyValue>, k: Nibbles)
    requires !(p <= k) && !Less(k, p)
    ensures Seek(Prefixed(p, es), k) == []
  {
    forall e | e in Prefixed(p, es)
      ensures Less(e.key, k)
    {
      var i :| 0 <= i < |es| && e.key == p + es[i].key;
      LaterThanAll(k, p, es[i].key);
    }
    assert Prefixed(p, es) + [] == Prefixed(p, es);
    SeekAllBelow(Prefixed(p, es), [], k);
  }

  /** Within a branch, the search goes on in the slot of the next nibble; later slots follow whole. */
  lemma SeekBranch(cs: seq<Ref>, v: ByteString, k: Nibbles)
    requires |cs| == 16 && k != []
    ensures Seek(Entries(Branch(cs, v)), k) ==
              Prefixed([k[0]], Seek(RefEntries(cs[k[0]]), k[1..])) + ChildEntries(cs, k[0] as int + 1)
  {
    SeekChildren(cs, 0, k);
    SeekAllBelow(if v == [] then [] else [KeyValue([], v)], ChildEntries(cs, 0), k);
  }

  lemma {:induction false} SeekChildren(cs: seq<Ref>, i: nat, k: Nibbles)
    requires |cs| == 16 && k != [] && i <= k[0]
    ensures Seek(ChildEntries(cs, i), k) ==
              Prefixed([k[0]], Seek(RefEntries(cs[k[0]]), k[1..])) + ChildEntries(cs, k[0] as int + 1)
    decreases 16 - i
  {
    var here, later := Prefixed([i], RefEntries(cs[i])), ChildEntries(cs, i + 1);
    if i < k[0] {
      SeekAllBelow(here, later, k);
      SeekChildren(cs, i + 1, k);
    } else {
      ChildEntriesAbove(cs, i + 1);
      SeekFront(here, later, k);
      assert k == [i] + k[1..];
      SeekPrefixed([i], RefEntries(cs[i]), k[1..]);
    }
  }
}
