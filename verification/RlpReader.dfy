/** Reading RLP: the loops of `RLP.cpp`, and the list indexer with its cache. */
module RlpReader {
  import opened Bytes
  import opened Rlp
  import opened RlpCanonical
  import opened RlpFields
  import opened RlpStream

  /** The loop of `length` over the bytes of a written-out length. */
  method ReadLength(d: ByteString, size: nat) returns (ret: nat)
    requires size < |d|
    ensures ret == FromBigEndian(d[1..size + 1])
  {
    ret := 0;
    for i := 0 to size
      invariant ret == FromBigEndian(d[1..i + 1])
    {
      assert d[1..i + 2][..i] == d[1..i + 1];
      ret := ret * 256 + d[i + 1];
    }
  }

  /** `items`: how many items a payload holds. */
  method CountItems(payload: ByteString) returns (r: Result<nat>)
    ensures r.Ok? <==> Split(payload).Ok?
    ensures r.Ok? ==> r.value == |Split(payload).value|
    ensures r.Throw? ==> r.error == Split(payload).error
  {
    var d, i := payload, 0;
    while d != []
      invariant Split(payload).Ok? <==> Split(d).Ok?
      invariant Split(d).Ok? ==> |Split(payload).value| == i + |Split(d).value|
      invariant Split(d).Throw? ==> Split(payload).error == Split(d).error
      decreases |d|
    {
      var n := SizeAsEncoded(d);
      if n.Throw? {
        return Throw(n.error);
      }
      d := d[n.value..];
      i := i + 1;
    }
    r := Ok(i);
  }

  // The index cache

  const SIZE_MAX := 0xffff_ffff_ffff_ffff

  /** Item i of a payload and where it ends, scanning from the front: null past the end. */
  ghost function Reach(p: ByteString, i: nat): (r: Result<(ByteString, nat)>)
    ensures r.Ok? ==> r.value.1 <= |p|
  {
    if i == 0 then
      var n :- SizeAsEncoded(p);
      Ok((p[..n], n))
    else
      var r :- Reach(p, i - 1);
      if r.0 == [] then Ok(([], r.1))
      else
        var n :- SizeAsEncoded(p[r.1..]);
        Ok((p[r.1..][..n], r.1 + n))
  }

  ghost function Shown(r: Result<(ByteString, nat)>): Result<ByteString> {
    if r.Ok? then Ok(r.value.0) else Throw(r.error)
  }

  /** After the end there is nothing more, and after an error nothing but that error. */
  lemma {:induction false} ReachOn(p: ByteString, j: nat, i: nat)
    requires j <= i
    ensures Reach(p, j).Ok? && Reach(p, j).value.0 == [] ==> Reach(p, i) == Reach(p, j)
    ensures Reach(p, j).Throw? ==> Reach(p, i) == Throw(Reach(p, j).error)
    decreases i
  {
    hide SizeAsEncoded;
    if j < i {
      ReachOn(p, j, i - 1);
    }
  }

  /** Scanning on after the first item is scanning what is left. */
  lemma {:induction false} ReachShift(p: ByteString, n: nat, i: nat)
    requires p != [] && SizeAsEncoded(p) == Ok(n) && i > 0
    ensures Shown(Reach(p, i)) == Shown(Reach(p[n..], i - 1))
    ensures Reach(p, i).Ok? ==> Reach(p, i).value.1 == n + Reach(p[n..], i - 1).value.1
  {
    hide SizeAsEncoded;
    if i > 1 {
      ReachShift(p, n, i - 1);
      var r := Reach(p[n..], i - 2);
      if r.Ok? {
        assert p[n..][r.value.1..] == p[n + r.value.1..];
      }
    }
  }

  /** The scan finds what plain indexing does. */
  lemma {:induction false} ReachNth(p: ByteString, i: nat)
    ensures Nth(p, i) == Shown(Reach(p, i))
  {
    hide ActualSize;
    if p == [] {
      NullItem();
      ReachOn(p, 0, i);
    } else {
      var n := SizeAsEncoded(p);
      if n.Throw? {
        ReachOn(p, 0, i);
      } else if i > 0 {
        ReachShift(p, n.value, i);
        ReachNth(p[n.value..], i - 1);
      }
    }
  }

  /** An item found is exactly one item. */
  lemma ReachedExact(p: ByteString, i: nat)
    requires Reach(p, i).Ok?
    ensures SizeAsEncoded(Reach(p, i).value.0).Ok?
  {
    var rest := if i == 0 then p else p[Reach(p, i - 1).value.1..];
    hide ActualSize;
    NullItem();
    if Reach(p, i).value.0 != [] {
      var n := SizeAsEncoded(rest).value;
      PieceExact(rest, n);
    }
  }

  class RLP {
    const data: ByteString
    var lastIndex: nat
    var lastEnd: nat
    var lastItem: ByteString

    /** Where the cache stands: at an item found by the scan. */
    ghost predicate Stands()
      reads this
    {
      lastIndex < SIZE_MAX && Payload(data).Ok? && Reach(Payload(data).value, lastIndex).Ok? &&
      Reach(Payload(data).value, lastIndex).value.1 == lastEnd
    }

    /** Unused, or holding the item it stands at. */
    ghost predicate Valid()
      reads this
    {
      || (lastIndex == SIZE_MAX && lastItem == [])
      || (Stands() && lastItem == Reach(Payload(data).value, lastIndex).value.0)
    }

    /** Left by a scan that threw: the index is still that of the item before, but the item is not. */
    ghost predicate Broken()
      reads this
    {
      && Stands() && Reach(Payload(data).value, lastIndex).value.0 != []
      && lastItem == Payload(data).value[lastEnd..] && lastItem != [] && SizeAsEncoded(lastItem).Throw?
    }

    constructor (d: ByteString)
      ensures data == d && Valid()
    {
      data := d;
      lastIndex, lastEnd, lastItem := SIZE_MAX, 0, [];
    }

    /** `operator[]`, on any bytes and after any other lookups: what plain indexing gives, item, null or
        exception, exactly unless a scan has thrown and the item before the fault is asked for again. */
    method Index(i: nat) returns (r: Result<ByteString>)
      requires (Valid() || Broken()) && i < SIZE_MAX
      modifies this
      ensures Valid() || Broken()
      ensures r.Ok? ==> Valid()
      ensures r == Field(data, i) <==> !(old(Broken()) && i == old(lastIndex))
      ensures old(Broken()) && i == old(lastIndex) ==> r.Throw?
      ensures r.Throw? && Field(data, 0).Ok? ==> Broken() && lastIndex <= i
    {
      hide Payload; hide SizeAsEncoded; hide Reach; hide Field;
      FieldIs(data, 0);
      FieldIs(data, i);
      if i < lastIndex {
        r := Restart();
        if r.Throw? {
          if Payload(data).Ok? {
            ReachOn(Payload(data).value, 0, i);
          }
          return;
        }
      }
      while lastIndex < i && lastItem != []
        invariant Stands() && (Valid() || Broken()) && lastIndex <= i
        invariant Broken() <==> old(Broken()) && lastIndex == old(lastIndex) <= i
        decreases i - lastIndex
      {
        r := Advance();
        if r.Throw? {
          ReachOn(Payload(data).value, lastIndex + 1, i);
          return;
        }
      }
      ReachOn(Payload(data).value, lastIndex, i);
      ReachedExact(Payload(data).value, lastIndex);
      var n := SizeAsEncoded(lastItem);
      r := if n.Throw? then Throw(n.error) else Ok(lastItem);
    }

    /** Back to the first item. */
    method Restart() returns (r: Result<ByteString>)
      requires Valid() || Broken()
      modifies this
      ensures r.Throw? ==> unchanged(this)
      ensures r.Throw? ==> if Payload(data).Throw? then r == Throw(Payload(data).error)
                           else Reach(Payload(data).value, 0) == Throw(r.error)
      ensures r.Ok? ==> Stands() && Valid() && !Broken() && lastIndex == 0
    {
      hide Payload; hide ActualSize;
      var p := Payload(data);
      if p.Throw? {
        return Throw(p.error);
      }
      var n := SizeAsEncoded(p.value);
      if n.Throw? {
        return Throw(n.error);
      }
      ReachedExact(p.value, 0);
      lastEnd := n.value;
      lastItem := Cropped(p.value, 0, lastEnd);
      lastIndex := 0;
      r := Ok(lastItem);
    }

    /** On to the next item. The cached item is overwritten before its size is known to be good. */
    method Advance() returns (r: Result<ByteString>)
      requires Stands() && (Valid() || Broken()) && lastItem != [] && lastIndex + 1 < SIZE_MAX
      modifies this
      ensures r.Ok? ==> Stands() && Valid() && !Broken() && lastIndex == old(lastIndex) + 1
      ensures r.Ok? ==> !old(Broken())
      ensures r.Throw? ==> Broken() && lastIndex == old(lastIndex)
      ensures r.Throw? ==> Reach(Payload(data).value, lastIndex + 1) == Throw(r.error)
    {
      hide Payload; hide ActualSize;
      var p := Payload(data).value;
      lastItem := p[lastEnd..];
      var n := SizeAsEncoded(lastItem);
      if n.Throw? {
        NullItem();
        return Throw(n.error);
      }
      ReachedExact(p, lastIndex + 1);
      lastItem := Cropped(lastItem, 0, n.value);
      lastEnd := lastEnd + |lastItem|;
      lastIndex := lastIndex + 1;
      r := Ok(lastItem);
    }
  }

  /** Plain indexing is the scan of the payload. */
  lemma FieldIs(d: ByteString, i: nat)
    ensures Payload(d).Throw? ==> Field(d, i) == Throw(Payload(d).error)
    ensures Payload(d).Ok? ==> Field(d, i) == Shown(Reach(Payload(d).value, i))
  {
    hide Payload; hide Reach; hide Nth;
    if Payload(d).Ok? {
      ReachNth(Payload(d).value, i);
    }
  }

  /** Any sequence of lookups on a list whose items can all be told apart, in any order: the item at each
      index, or null past the end. */
  method Probe(list: RLP, indices: seq<nat>, ghost items: seq<ByteString>) returns (rs: seq<ByteString>)
    requires list.Valid() && Payload(list.data).Ok? && Split(Payload(list.data).value) == Ok(items)
    requires forall j :: 0 <= j < |indices| ==> indices[j] < SIZE_MAX
    modifies list
    ensures list.Valid() && |rs| == |indices|
    ensures forall j :: 0 <= j < |indices| ==> rs[j] == if indices[j] < |items| then items[indices[j]] else []
  {
    hide Payload; hide Split; hide Reach; hide Nth; hide VeryStrict;
    rs := [];
    for k := 0 to |indices|
      invariant list.Valid() && |rs| == k
      invariant forall j :: 0 <= j < k ==> rs[j] == if indices[j] < |items| then items[indices[j]] else []
    {
      NthSplit(Payload(list.data).value, items, indices[k]);
      NotBoth(list);
      var r := list.Index(indices[k]);
      rs := rs + [r.value];
    }
  }

  lemma NotBoth(list: RLP)
    requires list.Valid()
    ensures !list.Broken()
  {
    hide Payload; hide Reach; hide SizeAsEncoded;
    if list.Broken() {
      ReachedExact(Payload(list.data).value, list.lastIndex);
    }
  }

  /** A list whose second item is cut short: after asking for it, the first is gone as well. */
  method AfterAThrow() returns (first: Result<ByteString>, second: Result<ByteString>, again: Result<ByteString>)
    ensures first == Ok([0x01]) && second.Throw? && again.Throw?
  {
    var list := new RLP([0xc2, 0x01, 0x81]);
    var p := Payload(list.data).value;
    assert p == [0x01, 0x81];
    assert SizeAsEncoded(p) == Ok(1) && p[..1] == [0x01] && p[1..] == [0x81];
    assert SizeAsEncoded([0x81]) == Throw(BadRLP);
    assert Nth(p, 0) == Ok([0x01]);
    assert Nth(p, 1) == Nth([0x81], 0) == Throw(BadRLP);
    hide Payload; hide SizeAsEncoded; hide Nth;
    NotBoth(list);
    first := list.Index(0);
    NotBoth(list);
    second := list.Index(1);
    FieldIs(list.data, 1);
    assert list.lastIndex == 0;
    again := list.Index(0);
  }

  // Whole values

  /** `rlp(value)`: streaming a value into an empty stream yields its encoding, and it decodes again. */
  method EncodeItem(i: Item) returns (r: ByteString)
    requires Volume(i) < LIMIT
    ensures Fits(i) && r == Encode(i) && Decode(r) == Ok(i)
  {
    var s := new RLPStream();
    s.AppendItem(i);
    var out := s.Out();
    r := out.value;
    RoundTrip(i);
  }
}
