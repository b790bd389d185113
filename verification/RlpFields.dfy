/** Reading the fields of a structure: indexing, integers and fixed-width hashes. */
module RlpFields {
  import opened Bytes
  import opened Rlp
  import opened RlpCanonical

  /** Item i of a payload, scanning only as far as it: null past the end (`operator[]`). */
  function Nth(p: ByteString, i: nat): Result<ByteString>
    decreases i
  {
    var n :- SizeAsEncoded(p);
    if i == 0 || p == [] then Ok(p[..n]) else Nth(p[n..], i - 1)
  }

  function Field(d: ByteString, i: nat): Result<ByteString> {
    var p :- Payload(d);
    Nth(p, i)
  }

  /** The items of a list counted, zero if it is none (`itemCount`). */
  function ItemCount(d: ByteString): Result<nat> {
    if !IsList(d) then Ok(0)
    else
      var p :- Payload(d);
      var xs :- Split(p);
      Ok(|xs|)
  }

  /** Data without a leading zero. */
  function IsInt(d: ByteString): Result<bool> {
    if d == [] then Ok(false)
    else
      var _ :- RequireGood(d);
      if d[0] < 0x80 then Ok(d[0] != 0)
      else if d[0] == 0x80 then Ok(true)
      else if d[0] >= 0xc0 then Ok(false)
      else
        var at := if d[0] <= 0xb7 then 1 else 1 + (d[0] - 0xb7);
        if |d| <= at then Throw(BadRLP) else Ok(d[at] != 0)
  }

  /** An unsigned integer of at most `width` bytes (`toInt` under `Strict`). */
  function ToInt(d: ByteString, width: nat): Result<nat> {
    var _ :- RequireGood(d);
    var isInt :- IsInt(d);
    if !isInt || IsList(d) then Throw(BadCast)
    else
      var p :- Payload(d);
      if |p| > width then Throw(BadCast) else Ok(FromBigEndian(p))
  }

  /** Data of exactly `width` bytes (`toHash` under `VeryStrict`). */
  function ToHash(d: ByteString, width: nat): Result<ByteString> {
    var _ :- RequireGood(d);
    var p :- Payload(d);
    if !IsData(d) || |p| != width then Throw(BadCast) else Ok(p)
  }

  /** The bytes of data, empty for a list (`toBytes` under `LaissezFaire`). */
  function ToBytes(d: ByteString): Result<ByteString> {
    if !IsData(d) then Ok([]) else Payload(d)
  }

  function IntItem(n: nat): Item {
    Data(BigEndian(n))
  }

  /** Item i of a written list is read as written, and past the end there is nothing. */
  lemma {:induction false} NthReads(xs: seq<Item>, i: nat)
    requires AllFit(xs)
    ensures Nth(EncodeAll(xs), i) == Ok(if i < |xs| then Encode(xs[i]) else [])
  {
    hide Payload; hide ActualSize; hide Encode; hide Fits; hide ItemSize;
    if xs != [] {
      var d, n := EncodeAll(xs), ItemSize(xs[0]);
      ItemReads(xs[0], EncodeAll(xs[1..]), d);
      assert d[..n] == Encode(xs[0]) && d[n..] == EncodeAll(xs[1..]);
      if i > 0 {
        NthReads(xs[1..], i - 1);
      }
    } else {
      NullItem();
    }
  }

  lemma {:induction false} SplitCounts(xs: seq<Item>)
    requires AllFit(xs)
    ensures Split(EncodeAll(xs)).Ok? && |Split(EncodeAll(xs)).value| == |xs|
  {
    hide Payload; hide ActualSize; hide Encode; hide Fits; hide ItemSize;
    if xs != [] {
      var d, n := EncodeAll(xs), ItemSize(xs[0]);
      ItemReads(xs[0], EncodeAll(xs[1..]), d);
      assert d[n..] == EncodeAll(xs[1..]);
      SplitCounts(xs[1..]);
    }
  }

  /** A written list is read field by field as written, whatever follows it. */
  lemma FieldReads(xs: seq<Item>, rest: ByteString, d: ByteString, i: nat)
    requires Fits(List(xs)) && d == Encode(List(xs)) + rest
    ensures IsList(d) && ItemCount(d) == Ok(|xs|) && SizeAsEncoded(d).Ok?
    ensures Field(d, i) == Ok(if i < |xs| then Encode(xs[i]) else [])
  {
    hide Nth; hide Split; hide Payload; hide ActualSize;
    ItemReads(List(xs), rest, d);
    NthReads(xs, i);
    SplitCounts(xs);
  }

  /** Data without a leading zero is taken for an integer. */
  lemma IntRecognised(b: ByteString, d: ByteString)
    requires |b| < LIMIT && (b != [] ==> b[0] != 0) && d == EncodeData(b)
    ensures RequireGood(d).Ok? && IsInt(d) == Ok(true) && !IsList(d)
  {
    hide BigEndian;
    if b == [] {
      assert d == [0x80];
    } else if |b| == 1 && b[0] < 0x80 {
      assert d == b;
    } else if |b| < IMMEDIATE {
      assert d == [0x80 + |b|] + b;
    } else {
      LimitFits(|b|);
      var be := BigEndian(|b|);
      assert d == [0xb7 + |be|] + be + b;
      assert |be| > 0 && d[1 + |be|] == b[0];
    }
  }

  /** A written integer is read back exactly by a reader wide enough for it. */
  lemma IntReads(n: nat, width: nat)
    requires |BigEndian(n)| < LIMIT
    ensures ToInt(Encode(IntItem(n)), width) == if n < Pow256(width) then Ok(n) else Throw(BadCast)
  {
    hide BigEndian; hide FromBigEndian; hide Header; hide RequireGood; hide IsInt; hide Payload; hide ActualSize; hide Pow256;
    var b := BigEndian(n);
    var d := Encode(IntItem(n));
    assert d + [] == d;
    ItemReads(Data(b), [], d);
    IntRecognised(b, d);
    FromBigEndianOf(n);
    BigEndianFits(n, width);
  }

  /** A written hash is read back. */
  lemma HashReads(h: ByteString)
    requires 1 < |h| < LIMIT
    ensures ToHash(Encode(Data(h)), |h|) == Ok(h)
  {
    var d := Encode(Data(h));
    ItemReads(Data(h), [], d + []);
    assert d + [] == d;
  }

  // From fields back to bytes

  /** The first item of a string, cut out, is exactly one item. */
  lemma PieceExact(d: ByteString, n: nat)
    requires d != [] && SizeAsEncoded(d) == Ok(n)
    ensures VeryStrict(d[..n]).Ok?
  {
    hide FromBigEndian;
    var x := d[..n];
    assert x[0] == d[0];
    if LengthSize(d) > 0 {
      var size := LengthSize(d);
      assert n >= size + 1;
      assert x[1..size + 1] == d[1..size + 1];
      assert LongLength(x, size) == LongLength(d, size);
    }
  }

  /** The items found by splitting a payload are those found by indexing it, and each is exactly one item. */
  lemma {:induction false} NthSplit(p: ByteString, xs: seq<ByteString>, i: nat)
    requires Split(p) == Ok(xs)
    ensures Nth(p, i) == Ok(if i < |xs| then xs[i] else [])
    ensures i < |xs| ==> xs[i] != [] && VeryStrict(xs[i]).Ok?
    decreases i
  {
    hide ActualSize; hide VeryStrict;
    if p != [] {
      var n := SizeAsEncoded(p).value;
      assert xs[0] == p[..n] && Split(p[n..]) == Ok(xs[1..]);
      PieceExact(p, n);
      if i > 0 {
        NthSplit(p[n..], xs[1..], i - 1);
      }
    } else {
      NullItem();
    }
  }

  lemma NullItem()
    ensures SizeAsEncoded([]) == Ok(0)
  {
  }

  /** A payload whose items are those of a list is that list's. */
  lemma {:induction false} Rejoined(p: ByteString, xs: seq<ByteString>, items: seq<Item>)
    requires Split(p) == Ok(xs) && |items| == |xs|
    requires forall i :: 0 <= i < |xs| ==> Fits(items[i]) && Encode(items[i]) == xs[i]
    ensures AllFit(items) && EncodeAll(items) == p
  {
    hide ActualSize; hide Encode; hide Fits;
    if p != [] {
      var n := SizeAsEncoded(p).value;
      assert xs[0] == p[..n] && Split(p[n..]) == Ok(xs[1..]);
      var t := items[1..];
      forall i | 0 <= i < |t|
        ensures Fits(t[i]) && Encode(t[i]) == xs[1..][i]
      {
        assert t[i] == items[i + 1];
      }
      Rejoined(p[n..], xs[1..], t);
      Joined(p, n, items);
    } else {
      assert items == [];
      assert EncodeAll([]) == [];
    }
  }

  /** One item of data is the encoding of its payload. */
  lemma DataPiece(x: ByteString, b: ByteString)
    requires VeryStrict(x).Ok? && IsData(x) && Payload(x) == Ok(b)
    ensures Fits(Data(b)) && Encode(Data(b)) == x
  {
    hide Payload; hide VeryStrict;
    assert Decode(x) == Ok(Data(b));
    Canonical(x, Data(b));
  }

  /** One item read as an integer is the encoding of that integer. */
  lemma IntPiece(x: ByteString, width: nat, n: nat)
    requires VeryStrict(x).Ok? && ToInt(x, width) == Ok(n)
    ensures Fits(IntItem(n)) && Encode(IntItem(n)) == x && n < Pow256(width)
  {
    hide FromBigEndian; hide BigEndian; hide Pow256;
    var b := Payload(x).value;
    NoLeadingZero(x, b);
    BigEndianOf(b);
    DataPiece(x, b);
    BigEndianFits(n, width);
  }

  lemma NoLeadingZero(x: ByteString, b: ByteString)
    requires VeryStrict(x).Ok? && IsInt(x) == Ok(true) && IsData(x) && Payload(x) == Ok(b)
    ensures b != [] ==> b[0] != 0
  {
    hide FromBigEndian;
    if b != [] {
      assert b[0] == x[PayloadOffset(x)];
    }
  }

  /** Nothing has nothing in it, what is no list has no items, and no list is an integer. */
  lemma NothingThere(d: ByteString, i: nat, width: nat)
    ensures d == [] ==> Length(d) == Ok(0) && Field(d, i) == Ok([]) && ToInt(d, width) == Throw(BadRLP)
    ensures !IsList(d) ==> ItemCount(d) == Ok(0)
    ensures IsList(d) ==> ToInt(d, width) == Throw(BadCast)
  {
  }
}
