/** Building the trie directly from the sorted entries (`hash256rlp`, `hash256aux`, `hash256`). */
module TrieHash {
  import opened Bytes
  import opened TrieNode

  datatype KeyValue = KeyValue(key: Nibbles, value: ByteString)

  /** The contents of a `HexMap`: ascending keys, and no empty value. */
  ghost predicate Sorted(es: seq<KeyValue>) {
    && (forall i, j :: 0 <= i < j < |es| ==> Less(es[i].key, es[j].key))
    && (forall i :: 0 <= i < |es| ==> es[i].value != [])
  }

  /** All keys agree on their first `pre` nibbles. */
  ghost predicate Agree(es: seq<KeyValue>, pre: nat) {
    && (forall i :: 0 <= i < |es| ==> pre <= |es[i].key|)
    && (forall i :: 0 <= i < |es| ==> es[i].key[..pre] == es[0].key[..pre])
  }

  /** Some key parts from the first one right after `pre` nibbles. */
  ghost predicate Parting(es: seq<KeyValue>, pre: nat)
    requires Agree(es, pre)
  {
    exists j :: 0 < j < |es| && PartsAt(es[0].key, es[j].key, pre)
  }

  predicate PartsAt(a: Nibbles, b: Nibbles, pre: nat)
    requires pre <= |a| && pre <= |b|
  {
    |a| == pre || |b| == pre || a[pre] != b[pre]
  }

  /** n holds exactly the entries, under their keys without the first `pre` nibbles. */
  ghost predicate Holds(n: Node, es: seq<KeyValue>, pre: nat)
    requires Agree(es, pre)
  {
    && (forall i :: 0 <= i < |es| ==> At(n, es[i].key[pre..]) == es[i].value)
    && (forall x :: At(n, x) != [] ==> exists i :: 0 <= i < |es| && es[i].key[pre..] == x)
  }

  /** c holds exactly the entries whose next nibble is d. */
  ghost predicate HoldsSlot(c: Node, es: seq<KeyValue>, pre: nat, d: int)
    requires Agree(es, pre)
  {
    && (forall i :: 0 <= i < |es| && pre < |es[i].key| && es[i].key[pre] == d ==>
          At(c, es[i].key[pre + 1..]) == es[i].value)
    && (forall x :: At(c, x) != [] ==>
          exists i :: 0 <= i < |es| && pre < |es[i].key| && es[i].key[pre] == d && es[i].key[pre + 1..] == x)
  }

  /** Sorted keys that agree so far have their next nibbles in ascending order, and only the first may end. */
  lemma NextNibbles(es: seq<KeyValue>, pre: nat, i: nat, j: nat)
    requires Sorted(es) && Agree(es, pre) && i < j < |es|
    ensures pre < |es[j].key| && (pre < |es[i].key| ==> es[i].key[pre] <= es[j].key[pre])
  {
    var a, b := es[i].key, es[j].key;
    assert a == a[..pre] + a[pre..] && b == a[..pre] + b[pre..];
    LessCommonPrefix(a[..pre], a[pre..], b[pre..]);
  }

  /** The longest prefix all the keys agree on. */
  method SharedPrefix(es: seq<KeyValue>, pre: nat) returns (sharedPre: nat)
    requires |es| >= 2 && Agree(es, pre)
    ensures pre <= sharedPre && Agree(es, sharedPre) && Parting(es, sharedPre)
  {
    var first := es[0].key;
    sharedPre := |first|;
    var i := 1;
    while i < |es| && (i == 1 || sharedPre != 0)
      invariant 1 <= i <= |es| && pre <= sharedPre <= |first|
      invariant Agree(es[..i], sharedPre) && (i == 1 ==> sharedPre == |first|)
      invariant i > 1 ==> exists j :: 0 < j < i && sharedPre <= |es[j].key| && PartsAt(first, es[j].key, sharedPre)
    {
      var key := es[i].key;
      var x := if sharedPre < |key| then sharedPre else |key|;
      var shared := pre;
      while shared < x && first[shared] == key[shared]
        invariant pre <= shared <= x && first[..shared] == key[..shared]
      {
        shared := shared + 1;
      }
      ghost var before := sharedPre;
      sharedPre := shared;
      Shorter(es[..i], before, sharedPre);
      assert es[..i + 1] == es[..i] + [es[i]];
      if shared < before || i == 1 {
        assert PartsAt(first, es[i].key, sharedPre);
      }
      i := i + 1;
    }
    if i < |es| {
      forall k | 0 <= k < |es|
        ensures es[k].key[..0] == first[..0]
      {
      }
    } else {
      assert es[..i] == es;
    }
  }

  lemma Shorter(es: seq<KeyValue>, pre: nat, p: nat)
    requires |es| > 0 && Agree(es, pre) && p <= pre
    ensures Agree(es, p)
  {
    forall i | 0 <= i < |es|
      ensures es[i].key[..p] == es[0].key[..p]
    {
      assert es[i].key[..p] == es[i].key[..pre][..p];
    }
  }

  /** One key left: a leaf. */
  lemma LeafHolds(e: KeyValue, pre: nat)
    requires pre <= |e.key| && e.value != []
    ensures Canonical(Leaf(e.key[pre..], e.value)) && Holds(Leaf(e.key[pre..], e.value), [e], pre)
  {
    assert [e][0].key[pre..] == e.key[pre..];
  }

  /** All keys share more nibbles: an extension. */
  lemma ExtHolds(es: seq<KeyValue>, pre: nat, more: nat, c: Ref)
    requires |es| > 0 && pre < more && Agree(es, pre) && Agree(es, more) && Holds(c.Deref(), es, more)
    ensures Holds(Ext(es[0].key[pre..more], c), es, pre)
  {
    var p := es[0].key[pre..more];
    var n := Ext(p, c);
    forall i | 0 <= i < |es|
      ensures At(n, es[i].key[pre..]) == es[i].value && p + es[i].key[more..] == es[i].key[pre..]
    {
      assert p == es[0].key[..more][pre..] && es[i].key[..more][pre..] == es[i].key[pre..more];
      assert es[i].key[pre..] == p + es[i].key[more..];
      assert es[i].key[pre..][|p|..] == es[i].key[more..];
    }
    forall x | At(n, x) != []
      ensures exists i :: 0 <= i < |es| && es[i].key[pre..] == x
    {
      assert p <= x && At(c.Deref(), x[|p|..]) != [];
      var i :| 0 <= i < |es| && es[i].key[more..] == x[|p|..];
      assert x == p + x[|p|..];
    }
  }

  /** The entries es[b..n] are those whose next nibble is d. */
  lemma SlotHolds(c: Node, es: seq<KeyValue>, pre: nat, d: int, b: nat, n: nat)
    requires b < n <= |es| && Agree(es, pre) && Agree(es[b..n], pre + 1) && Holds(c, es[b..n], pre + 1)
    requires forall j :: 0 <= j < |es| ==> (b <= j < n <==> pre < |es[j].key| && es[j].key[pre] == d)
    ensures HoldsSlot(c, es, pre, d)
  {
    forall i | 0 <= i < |es| && pre < |es[i].key| && es[i].key[pre] == d
      ensures At(c, es[i].key[pre + 1..]) == es[i].value
    {
      assert es[i] == es[b..n][i - b];
    }
    forall x | At(c, x) != []
      ensures exists i :: 0 <= i < |es| && pre < |es[i].key| && es[i].key[pre] == d && es[i].key[pre + 1..] == x
    {
      var k :| 0 <= k < |es[b..n]| && es[b..n][k].key[pre + 1..] == x;
      assert es[b + k] == es[b..n][k];
    }
  }

  /** A slot whose entries start with one more nibble agrees on one more nibble. */
  lemma SlotAgrees(es: seq<KeyValue>, pre: nat, d: int, b: nat, n: nat)
    requires b < n <= |es| && Agree(es, pre)
    requires forall j :: b <= j < n ==> pre < |es[j].key| && es[j].key[pre] == d
    ensures Agree(es[b..n], pre + 1)
  {
    var s := es[b..n];
    forall i | 0 <= i < |s|
      ensures pre + 1 <= |s[i].key| && s[i].key[..pre + 1] == s[0].key[..pre + 1]
    {
      assert s[i] == es[b + i] && s[0] == es[b];
      assert s[i].key[..pre + 1] == s[i].key[..pre] + [s[i].key[pre]];
      assert s[0].key[..pre + 1] == s[0].key[..pre] + [s[0].key[pre]];
      assert es[b + i].key[..pre] == es[0].key[..pre] == es[b].key[..pre];
    }
  }

  ghost predicate HoldsSlots(cs: seq<Ref>, v: ByteString, es: seq<KeyValue>, pre: nat)
    requires Agree(es, pre)
  {
    && |cs| == 16 && |es| > 0
    && (forall d :: 0 <= d < 16 ==> HoldsSlot(cs[d].Deref(), es, pre, d))
    && v == if |es[0].key| == pre then es[0].value else []
  }

  /** Sixteen slots and a value make up the whole. */
  lemma BranchHolds(cs: seq<Ref>, v: ByteString, es: seq<KeyValue>, pre: nat)
    requires Sorted(es) && Agree(es, pre) && HoldsSlots(cs, v, es, pre)
    ensures Holds(Branch(cs, v), es, pre)
  {
    forall i | 0 <= i < |es|
      ensures At(Branch(cs, v), es[i].key[pre..]) == es[i].value
    {
      BranchHoldsEntry(cs, v, es, pre, i);
    }
    forall x | At(Branch(cs, v), x) != []
      ensures exists i :: 0 <= i < |es| && es[i].key[pre..] == x
    {
      var _ := BranchHoldsOnly(cs, v, es, pre, x);
    }
  }

  lemma BranchHoldsEntry(cs: seq<Ref>, v: ByteString, es: seq<KeyValue>, pre: nat, i: nat)
    requires Sorted(es) && Agree(es, pre) && HoldsSlots(cs, v, es, pre) && i < |es|
    ensures At(Branch(cs, v), es[i].key[pre..]) == es[i].value
  {
    var k := es[i].key;
    if |k| == pre {
      if i > 0 {
        NextNibbles(es, pre, 0, i);
      }
    } else {
      assert k[pre..][0] == k[pre] && k[pre..][1..] == k[pre + 1..];
      assert HoldsSlot(cs[k[pre]].Deref(), es, pre, k[pre]);
    }
  }

  lemma BranchHoldsOnly(cs: seq<Ref>, v: ByteString, es: seq<KeyValue>, pre: nat, x: Nibbles) returns (i: nat)
    requires Agree(es, pre) && HoldsSlots(cs, v, es, pre) && At(Branch(cs, v), x) != []
    ensures i < |es| && es[i].key[pre..] == x
  {
    if x == [] {
      i := 0;
      assert es[0].key[pre..] == [];
    } else {
      assert HoldsSlot(cs[x[0]].Deref(), es, pre, x[0]);
      i :| 0 <= i < |es| && pre < |es[i].key| && es[i].key[pre] == x[0] && es[i].key[pre + 1..] == x[1..];
      assert es[i].key[pre..] == [x[0]] + x[1..] == x;
    }
  }

  /** Where the keys part, at least two slots are used. */
  lemma BranchTwoUsed(cs: seq<Ref>, v: ByteString, es: seq<KeyValue>, pre: nat)
    requires Sorted(es) && Agree(es, pre) && Parting(es, pre) && HoldsSlots(cs, v, es, pre)
    ensures TwoUsed(cs, v)
  {
    var j :| 0 < j < |es| && PartsAt(es[0].key, es[j].key, pre);
    NextNibbles(es, pre, 0, j);
    var d := es[j].key[pre];
    EntryUses(cs, v, es, pre, j);
    if |es[0].key| == pre {
      assert Used(cs, v, 16);
    } else {
      EntryUses(cs, v, es, pre, 0);
    }
  }

  lemma EntryUses(cs: seq<Ref>, v: ByteString, es: seq<KeyValue>, pre: nat, j: nat)
    requires |cs| == 16 && Sorted(es) && Agree(es, pre) && j < |es| && pre < |es[j].key|
    requires HoldsSlot(cs[es[j].key[pre]].Deref(), es, pre, es[j].key[pre])
    ensures Used(cs, v, es[j].key[pre])
  {
    var c := cs[es[j].key[pre]].Deref();
    assert At(c, es[j].key[pre + 1..]) == es[j].value;
  }

  lemma EmptySlot(es: seq<KeyValue>, pre: nat, d: int)
    requires Agree(es, pre) && forall j :: 0 <= j < |es| && pre < |es[j].key| ==> es[j].key[pre] != d
    ensures HoldsSlot(Null, es, pre, d)
  {
  }

  /** `hash256rlp`, with the node it streams as its result. */
  method Hash256Rlp(es: seq<KeyValue>, pre: nat, ghost bound: nat) returns (n: Node)
    requires Sorted(es) && Agree(es, pre) && pre <= bound
    requires forall i :: 0 <= i < |es| ==> |es[i].key| <= bound
    ensures Canonical(n) && Holds(n, es, pre) && (|es| > 0 ==> n != Null)
    ensures |es| >= 2 && Parting(es, pre) ==> n.Branch?
    decreases bound - pre, 2
  {
    if |es| == 0 {
      n := Null;
    } else if |es| == 1 {
      LeafHolds(es[0], pre);
      assert es == [es[0]];
      n := Leaf(es[0].key[pre..], es[0].value);
    } else {
      var sharedPre := SharedPrefix(es, pre);
      if sharedPre > pre {
        var c := Hash256Aux(es, sharedPre, bound);
        ExtHolds(es, pre, sharedPre, c);
        NotParting(es, pre, sharedPre);
        n := Ext(es[0].key[pre..sharedPre], c);
      } else {
        n := Hash256Branch(es, pre, bound);
      }
    }
  }

  lemma NotParting(es: seq<KeyValue>, pre: nat, more: nat)
    requires |es| > 0 && pre < more && Agree(es, pre) && Agree(es, more)
    ensures !Parting(es, pre)
  {
    forall j | 0 < j < |es|
      ensures !PartsAt(es[0].key, es[j].key, pre)
    {
      assert es[j].key[pre] == es[j].key[..more][pre] == es[0].key[..more][pre];
    }
  }

  /** The entries before b, past those that end here, have next nibbles below i; the others do not. */
  ghost predicate SplitAt(es: seq<KeyValue>, pre: nat, b: nat, i: int) {
    && b <= |es|
    && (forall j :: 0 <= j < b && pre < |es[j].key| ==> es[j].key[pre] < i)
    && (forall j :: b <= j < |es| ==> pre < |es[j].key| && es[j].key[pre] >= i)
  }

  /** The end of the run of entries with next nibble i. */
  method RunEnd(es: seq<KeyValue>, pre: nat, b: nat, i: int) returns (e: nat)
    requires Sorted(es) && Agree(es, pre) && SplitAt(es, pre, b, i)
    ensures b <= e && SplitAt(es, pre, e, i + 1)
    ensures forall j :: 0 <= j < |es| ==> (b <= j < e <==> pre < |es[j].key| && es[j].key[pre] == i)
  {
    e := b;
    while e < |es| && es[e].key[pre] == i
      invariant b <= e <= |es|
      invariant forall j :: b <= j < e ==> es[j].key[pre] == i
    {
      e := e + 1;
    }
    forall j | e <= j < |es|
      ensures es[j].key[pre] > i
    {
      if e < j {
        NextNibbles(es, pre, e, j);
      }
    }
  }

  method Hash256Slot(es: seq<KeyValue>, pre: nat, b: nat, e: nat, i: int, ghost bound: nat) returns (c: Ref)
    requires Sorted(es) && Agree(es, pre) && b <= e <= |es| && pre <= bound
    requires forall j :: 0 <= j < |es| ==> |es[j].key| <= bound
    requires forall j :: 0 <= j < |es| ==> (b <= j < e <==> pre < |es[j].key| && es[j].key[pre] == i)
    ensures CanonicalRef(c) && HoldsSlot(c.Deref(), es, pre, i)
    decreases bound - pre, 0
  {
    if b == e {
      c := EMPTY_REF;
      EmptySlot(es, pre, i);
    } else {
      SlotAgrees(es, pre, i, b, e);
      assert |es[b].key| <= bound;
      c := Hash256Aux(es[b..e], pre + 1, bound);
      SlotHolds(c.Deref(), es, pre, i, b, e);
    }
  }

  /** All sixteen slots and the value. */
  method Hash256Branch(es: seq<KeyValue>, pre: nat, ghost bound: nat) returns (n: Node)
    requires |es| >= 2 && Sorted(es) && Agree(es, pre) && Parting(es, pre) && pre <= bound
    requires forall i :: 0 <= i < |es| ==> |es[i].key| <= bound
    ensures Canonical(n) && Holds(n, es, pre) && n.Branch?
    decreases bound - pre, 1
  {
    var b := if |es[0].key| == pre then 1 else 0;
    var cs: seq<Ref> := [];
    forall j | 0 < j < |es|
      ensures pre < |es[j].key|
    {
      NextNibbles(es, pre, 0, j);
    }
    for i := 0 to 16
      invariant |cs| == i && SplitAt(es, pre, b, i)
      invariant forall d :: 0 <= d < i ==> CanonicalRef(cs[d]) && HoldsSlot(cs[d].Deref(), es, pre, d)
    {
      var e := RunEnd(es, pre, b, i);
      var c := Hash256Slot(es, pre, b, e, i, bound);
      cs := cs + [c];
      b := e;
    }
    var v := if |es[0].key| == pre then es[0].value else [];
    BranchHolds(cs, v, es, pre);
    BranchTwoUsed(cs, v, es, pre);
    n := Branch(cs, v);
  }

  /** `hash256aux`: inline or by hash. */
  method Hash256Aux(es: seq<KeyValue>, pre: nat, ghost bound: nat) returns (r: Ref)
    requires |es| > 0 && Sorted(es) && Agree(es, pre) && pre <= bound
    requires forall i :: 0 <= i < |es| ==> |es[i].key| <= bound
    ensures CanonicalRef(r) && Holds(r.Deref(), es, pre)
    ensures |es| >= 2 && Parting(es, pre) ==> r.Deref().Branch?
    decreases bound - pre, 3
  {
    var n := Hash256Rlp(es, pre, bound);
    SealCanonical(n);
    r := if Size(n) < 32 then Inline(n) else Hashed(Sha3(n));
  }

  ghost function Longest(es: seq<KeyValue>): (m: nat)
    ensures forall i :: 0 <= i < |es| ==> |es[i].key| <= m
  {
    if es == [] then 0
    else
      var m := Longest(es[..|es| - 1]);
      var l := |es[|es| - 1].key|;
      if l > m then l else m
  }

  /** `hash256`: the root of the trie with these entries. */
  method Hash256(es: seq<KeyValue>) returns (h: Hash)
    requires Sorted(es)
    ensures Canonical(h.preimage) && Agree(es, 0) && Holds(h.preimage, es, 0)
  {
    var n := Hash256Rlp(es, 0, Longest(es));
    h := Sha3(n);
  }
}
