/** Encoding and strict decoding undo each other, both ways. */
module RlpCanonical {
  import opened Bytes
  import opened Rlp

  predicate Base(base: byte) {
    base == 0x80 || base == 0xc0
  }

  /** Not a single byte wrapped needlessly. */
  predicate Good(base: byte, n: nat, rest: ByteString) {
    base == 0x80 && n == 1 ==> rest != [] && rest[0] >= 0x80
  }

  /** A header reads back as the length it was made for. */
  lemma HeaderReads(base: byte, n: nat, rest: ByteString, d: ByteString)
    requires Base(base) && n < LIMIT && Good(base, n, rest) && d == Header(base, n) + rest
    ensures Length(d) == Ok(n) && PayloadOffset(d) == HeaderSize(n)
    ensures d[0] >= base && (IsList(d) <==> base == 0xc0)
  {
    if n >= IMMEDIATE {
      LongHeaderReads(base, n, rest, d);
    } else {
      assert d[0] == base + n;
    }
  }

  lemma LongHeaderReads(base: byte, n: nat, rest: ByteString, d: ByteString)
    requires Base(base) && IMMEDIATE <= n < LIMIT && d == Header(base, n) + rest
    ensures Length(d) == Ok(n) && PayloadOffset(d) == HeaderSize(n)
    ensures d[0] >= base && (IsList(d) <==> base == 0xc0)
  {
    LimitFits(n);
    var be := BigEndian(n);
    assert d[0] == base + 55 + |be|;
    assert d[1..|be| + 1] == be && d[1] == be[0];
    FromBigEndianOf(n);
    assert LongLength(d, |be|) == Ok(n);
  }

  /** A payload behind its header is found and measured, whatever follows. */
  lemma Framed(base: byte, p: ByteString, rest: ByteString, d: ByteString)
    requires Base(base) && |p| < LIMIT && Good(base, |p|, p) && d == Header(base, |p|) + p + rest
    ensures ActualSize(d) == Ok(HeaderSize(|p|) + |p|) && (IsList(d) <==> base == 0xc0) && d != []
    ensures Payload(d) == Ok(p)
  {
    assert d == Header(base, |p|) + (p + rest);
    HeaderReads(base, |p|, p + rest, d);
    assert d[HeaderSize(|p|)..HeaderSize(|p|) + |p|] == p;
  }

  /** A header that is read is the one made for that length. */
  lemma HeaderIs(d: ByteString)
    requires d != [] && d[0] >= 0x80 && Length(d).Ok?
    ensures var base := if d[0] < 0xc0 then 0x80 else 0xc0;
            var n := Length(d).value;
            && n < LIMIT && PayloadOffset(d) <= |d| && d[..PayloadOffset(d)] == Header(base, n)
            && Good(base, n, d[PayloadOffset(d)..])
  {
    var n := Length(d).value;
    var size := LengthSize(d);
    if size > 0 {
      BigEndianOf(d[1..size + 1]);
      assert d[..size + 1] == [d[0]] + d[1..size + 1];
    } else {
      assert d[..1] == [d[0]];
    }
  }

  /** The first item of a longer string is found at its own size. */
  lemma ItemReads(i: Item, rest: ByteString, d: ByteString)
    requires Fits(i) && d == Encode(i) + rest
    ensures ActualSize(d) == Ok(ItemSize(i)) && (i.List? <==> IsList(d)) && d != []
    ensures Payload(d) == Ok(if i.Data? then i.data else EncodeAll(i.items))
  {
    match i
    case Data(b) =>
      if |b| == 1 && b[0] < 0x80 {
        assert d[0] == b[0] && d[0..1] == b;
      } else {
        Framed(0x80, b, rest, d);
      }
    case List(xs) =>
      Framed(0xc0, EncodeAll(xs), rest, d);
  }

  /** Decoding an encoded value gives the value back. */
  lemma {:induction false} RoundTrip(i: Item)
    requires Fits(i)
    ensures Decode(Encode(i)) == Ok(i)
    decreases i, 1
  {
    ItemReads(i, [], Encode(i));
    if i.List? {
      RoundTripAll(i.items);
    }
  }

  lemma DecodeAllCons(x: Item, xs: seq<Item>)
    requires Fits(x) && AllFit(xs) && Decode(Encode(x)) == Ok(x) && DecodeAll(EncodeAll(xs)) == Ok(xs)
    ensures AllFit([x] + xs) && DecodeAll(EncodeAll([x] + xs)) == Ok([x] + xs)
  {
    AllFitCons(x, xs);
    var d, n := EncodeAll([x] + xs), ItemSize(x);
    ItemReads(x, EncodeAll(xs), d);
    assert d[..n] == Encode(x) && d[n..] == EncodeAll(xs);
    assert SizeAsEncoded(d) == Ok(n);
  }

  lemma {:induction false} RoundTripAll(xs: seq<Item>)
    requires AllFit(xs)
    ensures DecodeAll(EncodeAll(xs)) == Ok(xs)
    decreases xs, 0
  {
    if xs != [] {
      assert Fits(xs[0]);
      RoundTrip(xs[0]);
      RoundTripAll(xs[1..]);
      DecodeAllCons(xs[0], xs[1..]);
      assert xs == [xs[0]] + xs[1..];
    }
  }

  /** What strict decoding accepts is the encoding of what it returns: no value has two. */
  lemma {:induction false} Canonical(d: ByteString, i: Item)
    requires Decode(d) == Ok(i)
    ensures Fits(i) && Encode(i) == d
    decreases |d|, 1
  {
    if d[0] < 0x80 {
      assert d[0..1] == d;
    } else {
      var p := Unframed(d);
      if i.List? {
        CanonicalAll(p, i.items);
      }
    }
  }

  /** An accepted item is its payload behind the one header for it. */
  lemma Unframed(d: ByteString) returns (p: ByteString)
    requires VeryStrict(d).Ok? && d != [] && d[0] >= 0x80
    ensures Payload(d) == Ok(p) && |p| < |d| && |p| < LIMIT
    ensures var base := if d[0] < 0xc0 then 0x80 else 0xc0; d == Header(base, |p|) + p && Good(base, |p|, p)
  {
    hide Header; hide HeaderSize; hide LongLength;
    HeaderIs(d);
    var o := PayloadOffset(d);
    p := d[o..];
    assert d == d[..o] + p && d[o..o + |p|] == p;
  }

  lemma FirstDecoded(d: ByteString, xs: seq<Item>) returns (n: nat)
    requires d != [] && DecodeAll(d) == Ok(xs)
    ensures 0 < n <= |d| && xs != [] && Decode(d[..n]) == Ok(xs[0]) && DecodeAll(d[n..]) == Ok(xs[1..])
  {
    n := SizeAsEncoded(d).value;
  }

  lemma {:induction false} CanonicalAll(d: ByteString, xs: seq<Item>)
    requires DecodeAll(d) == Ok(xs)
    ensures AllFit(xs) && EncodeAll(xs) == d
    decreases |d|, 2
  {
    if d != [] {
      var n := FirstDecoded(d, xs);
      Canonical(d[..n], xs[0]);
      CanonicalAll(d[n..], xs[1..]);
      Joined(d, n, xs);
    }
  }

  lemma Joined(d: ByteString, n: nat, xs: seq<Item>)
    requires n <= |d| && xs != [] && Fits(xs[0]) && AllFit(xs[1..])
    requires Encode(xs[0]) == d[..n] && EncodeAll(xs[1..]) == d[n..]
    ensures AllFit(xs) && EncodeAll(xs) == d
  {
    hide Fits; hide Header; hide HeaderSize; hide BigEndian;
    assert d == d[..n] + d[n..];
    assert xs == [xs[0]] + xs[1..];
    AllFitCons(xs[0], xs[1..]);
  }

  lemma AllFitCons(x: Item, xs: seq<Item>)
    requires Fits(x) && AllFit(xs)
    ensures AllFit([x] + xs) && EncodeAll([x] + xs) == Encode(x) + EncodeAll(xs)
  {
    assert ([x] + xs)[1..] == xs;
  }
}
