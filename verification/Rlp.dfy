/** Recursive-length-prefix encoding (Appendix B of the Yellow Paper), and the decoder of `RLP.cpp`. */
module Rlp {
  import opened Bytes

  // Integers

  function High(n: nat): (r: nat)
    ensures n > 0 ==> r < n
  {
    n / 256
  }

  function Low(n: nat): byte {
    n % 256
  }

  /** The minimal big-endian form of n; empty for zero. */
  function BigEndian(n: nat): (r: ByteString)
    ensures r != [] ==> r[0] != 0
    ensures r == [] <==> n == 0
  {
    if n == 0 then [] else
      var r := BigEndian(High(n)) + [Low(n)];
      assert High(n) == 0 ==> r == [n];
      r
  }

  function FromBigEndian(b: ByteString): nat {
    if b == [] then 0 else FromBigEndian(b[..|b| - 1]) * 256 + b[|b| - 1]
  }

  lemma {:induction false} FromBigEndianOf(n: nat)
    ensures FromBigEndian(BigEndian(n)) == n
  {
    if n != 0 {
      FromBigEndianOf(High(n));
      var r := BigEndian(n);
      assert r[..|r| - 1] == BigEndian(High(n));
    }
  }

  lemma BigEndianStep(high: nat, low: byte)
    requires high + low > 0
    ensures high * 256 + low > 0 && BigEndian(high * 256 + low) == BigEndian(high) + [low]
  {
    var n := high * 256 + low;
    assert High(n) == high && Low(n) == low;
  }

  /** A big-endian number without leading zeros is the minimal one. */
  lemma {:induction false} BigEndianOf(b: ByteString)
    requires b == [] || b[0] != 0
    ensures BigEndian(FromBigEndian(b)) == b
    ensures b != [] ==> FromBigEndian(b) != 0
  {
    if b != [] {
      var i, last := b[..|b| - 1], b[|b| - 1];
      var n := FromBigEndian(i);
      assert FromBigEndian(b) == n * 256 + last;
      hide FromBigEndian; hide BigEndian;
      assert i != [] ==> i[0] == b[0];
      BigEndianOf(i);
      BigEndianStep(n, last);
      assert b == i + [last];
    }
  }

  function Pow256(k: nat): (r: nat)
    ensures r > 0
  {
    if k == 0 then 1 else 256 * Pow256(k - 1)
  }

  /** n takes at most k bytes exactly when it is below 256 to the k. */
  lemma {:induction false} BigEndianFits(n: nat, k: nat)
    ensures |BigEndian(n)| <= k <==> n < Pow256(k)
  {
    if n != 0 && k != 0 {
      BigEndianFits(High(n), k - 1);
    }
  }

  // Encoding

  datatype Item = Data(data: ByteString) | List(items: seq<Item>)

  /** Payloads below this many bytes have their length in the first byte. */
  const IMMEDIATE := 56

  /** Longer ones than this are rejected: the header must still be addable in 64 bits. */
  const LIMIT := 0xffff_ffff_ffff_feff

  lemma LimitFits(n: nat)
    requires n < LIMIT
    ensures |BigEndian(n)| <= 8 && LIMIT == 18446744073709551615 - 256
  {
    BigEndianFits(n, 8);
    assert Pow256(4) == 0x1_0000_0000;
    assert Pow256(6) == 256 * (256 * Pow256(4));
    assert Pow256(8) == 0x1_0000_0000_0000_0000;
  }

  function HeaderSize(n: nat): nat {
    if n < IMMEDIATE then 1 else 1 + |BigEndian(n)|
  }

  /** Header for a payload of n bytes: `base` is 0x80 for data and 0xc0 for lists. */
  function Header(base: byte, n: nat): (r: ByteString)
    requires base == 0x80 || base == 0xc0
    requires n < LIMIT
    ensures |r| == HeaderSize(n) <= 9
  {
    LimitFits(n);
    if n < IMMEDIATE then [base + n] else [base + IMMEDIATE - 1 + |BigEndian(n)|] + BigEndian(n)
  }

  function DataSize(d: ByteString): nat {
    if |d| == 1 && d[0] < 0x80 then 1 else HeaderSize(|d|) + |d|
  }

  function ListSize(payload: nat): nat {
    HeaderSize(payload) + payload
  }

  function ItemSize(i: Item): nat {
    match i
    case Data(d) => DataSize(d)
    case List(xs) => ListSize(ItemsSize(xs))
  }

  function ItemsSize(xs: seq<Item>): nat {
    if xs == [] then 0 else ItemSize(xs[0]) + ItemsSize(xs[1..])
  }

  /** All payloads are short enough to be decoded again. */
  predicate Fits(i: Item) {
    match i
    case Data(d) => |d| < LIMIT
    case List(xs) => ItemsSize(xs) < LIMIT && forall j :: 0 <= j < |xs| ==> Fits(xs[j])
  }

  predicate AllFit(xs: seq<Item>) {
    forall j :: 0 <= j < |xs| ==> Fits(xs[j])
  }

  function EncodeData(d: ByteString): (r: ByteString)
    requires |d| < LIMIT
    ensures |r| == DataSize(d) <= |d| + 9
  {
    if |d| == 1 && d[0] < 0x80 then d else Header(0x80, |d|) + d
  }

  function Encode(i: Item): (r: ByteString)
    requires Fits(i)
    ensures |r| == ItemSize(i) > 0
    decreases i, 1
  {
    match i
    case Data(d) => EncodeData(d)
    case List(xs) => Header(0xc0, ItemsSize(xs)) + EncodeAll(xs)
  }

  function EncodeAll(xs: seq<Item>): (r: ByteString)
    requires AllFit(xs)
    ensures |r| == ItemsSize(xs)
    decreases xs, 0
  {
    if xs == [] then [] else Encode(xs[0]) + EncodeAll(xs[1..])
  }

  // Decoding

  datatype Error = BadRLP | OversizeRLP | UndersizeRLP | BadCast | ItemCountTooLarge | ListStackNotEmpty

  datatype Result<+T> = Ok(value: T) | Throw(error: Error) {
    predicate IsFailure() {
      Throw?
    }
    function PropagateFailure<U>(): Result<U>
      requires Throw?
    {
      Throw(error)
    }
    function Extract(): T
      requires Ok?
    {
      value
    }
  }

  predicate IsNull(d: ByteString) {
    d == []
  }

  predicate IsEmpty(d: ByteString) {
    d != [] && (d[0] == 0x80 || d[0] == 0xc0)
  }

  predicate IsData(d: ByteString) {
    d != [] && d[0] < 0xc0
  }

  predicate IsList(d: ByteString) {
    d != [] && d[0] >= 0xc0
  }

  /** A single byte below 0x80 must stand for itself. */
  function RequireGood(d: ByteString): Result<()> {
    if d == [] then Throw(BadRLP)
    else if d[0] != 0x81 then Ok(())
    else if |d| < 2 || d[1] < 0x80 then Throw(BadRLP)
    else Ok(())
  }

  /** A length written out in `size` bytes after the first: minimal, not immediate, and within limits. */
  function LongLength(d: ByteString, size: nat): Result<nat>
    requires d != [] && size > 0
  {
    if |d| <= size then Throw(BadRLP)
    else if d[1] == 0 then Throw(BadRLP)
    else if size > 8 then Throw(UndersizeRLP)
    else
      var n := FromBigEndian(d[1..size + 1]);
      if n < IMMEDIATE then Throw(BadRLP)
      else if n >= LIMIT then Throw(UndersizeRLP)
      else Ok(n)
  }

  /** Payload size as given by the header. */
  function Length(d: ByteString): Result<nat> {
    if d == [] then Ok(0)
    else
      var _ :- RequireGood(d);
      if d[0] < 0x80 then Ok(1)
      else if d[0] <= 0xb7 then Ok(d[0] - 0x80)
      else if d[0] < 0xc0 then LongLength(d, d[0] - 0xb7)
      else if d[0] <= 0xf7 then Ok(d[0] - 0xc0)
      else LongLength(d, d[0] - 0xf7)
  }

  /** Bytes taken to write the length out. */
  function LengthSize(d: ByteString): nat {
    if IsData(d) && d[0] > 0xb7 then d[0] - 0xb7
    else if IsList(d) && d[0] > 0xf7 then d[0] - 0xf7
    else 0
  }

  function PayloadOffset(d: ByteString): nat {
    if d != [] && d[0] < 0x80 then 0 else 1 + LengthSize(d)
  }

  function ActualSize(d: ByteString): Result<nat> {
    if d == [] then Ok(0)
    else if d[0] < 0x80 then Ok(1)
    else
      var n :- Length(d);
      Ok(PayloadOffset(d) + n)
  }

  /** `vector_ref::cropped`: empty when out of bounds. */
  function Cropped(d: ByteString, begin: nat, count: nat): ByteString {
    if begin + count <= |d| then d[begin..begin + count] else []
  }

  /** The constructor under `VeryStrict`. */
  function VeryStrict(d: ByteString): Result<()> {
    var n :- ActualSize(d);
    if n < |d| then Throw(OversizeRLP) else if n > |d| then Throw(UndersizeRLP) else Ok(())
  }

  /** The size of the first item in d; throws if d is too short for it. */
  function SizeAsEncoded(d: ByteString): (r: Result<nat>)
    ensures r.Ok? ==> r.value <= |d| && (d != [] ==> r.value > 0)
  {
    var n :- ActualSize(d);
    if n > |d| then Throw(UndersizeRLP) else Ok(n)
  }

  function Payload(d: ByteString): Result<ByteString> {
    var l :- Length(d);
    if l > |d| then Throw(BadRLP) else Ok(Cropped(d, PayloadOffset(d), l))
  }

  /** The encodings of the items in a payload, one after the other (`items`, the iterator). */
  function Split(d: ByteString): Result<seq<ByteString>>
    decreases |d|
  {
    if d == [] then Ok([])
    else
      var n :- SizeAsEncoded(d);
      var rest :- Split(d[n..]);
      Ok([d[..n]] + rest)
  }

  /** A full traversal under the very strict constructor. */
  function Decode(d: ByteString): Result<Item>
    decreases |d|, 1
  {
    var _ :- VeryStrict(d);
    if IsNull(d) then Throw(BadRLP)
    else
      var p :- Payload(d);
      if IsData(d) then Ok(Data(p))
      else
        var xs :- DecodeAll(p);
        Ok(List(xs))
  }

  function DecodeAll(d: ByteString): Result<seq<Item>>
    decreases |d|, 2
  {
    if d == [] then Ok([])
    else
      var n :- SizeAsEncoded(d);
      var first :- Decode(d[..n]);
      var rest :- DecodeAll(d[n..]);
      Ok([first] + rest)
  }

  // What the encoding is, digit by digit

  /** The most significant byte comes first. */
  lemma {:induction false} BigEndianAt(n: nat, i: nat)
    requires i < |BigEndian(n)|
    ensures BigEndian(n)[i] == n / Pow256(|BigEndian(n)| - 1 - i) % 256
  {
    var r := BigEndian(n);
    if i + 1 < |r| {
      BigEndianAt(n / 256, i);
      DivideTwice(n, 256, Pow256(|r| - 2 - i));
    }
  }

  /** So it does in what is read. */
  lemma {:induction false} FromBigEndianFirst(a: byte, b: ByteString)
    ensures FromBigEndian([a] + b) == a * Pow256(|b|) + FromBigEndian(b)
  {
    var s := [a] + b;
    if b == [] {
      assert s[..0] == [];
    } else {
      var c := b[..|b| - 1];
      FromBigEndianFirst(a, c);
      assert s[..|s| - 1] == [a] + c;
      var x: nat, p := a, Pow256(|c|);
      assert x * (256 * p) == x * p * 256;
    }
  }

  /** Data: one byte below 128 stands for itself, up to 55 bytes have a byte in front, longer ones the length of
      their length and their length. */
  lemma EncodedData(d: ByteString)
    requires |d| < LIMIT
    ensures var e := Encode(Data(d));
            if |d| == 1 && d[0] < 128 then e == d
            else if |d| <= 55 then e == [128 + |d|] + d
            else
              var n := |e| - |d| - 1;
              && 1 <= n <= 8 && e[0] == 183 + n && e[1] != 0 && FromBigEndian(e[1..n + 1]) == |d| && e[n + 1..] == d
  {
    LimitFits(|d|);
    var be := BigEndian(|d|);
    FromBigEndianOf(|d|);
    if |d| > 55 {
      var e := Encode(Data(d));
      assert e == [183 + |be|] + be + d;
      assert e[1..|be| + 1] == be;
    }
  }

  /** A list: likewise, on top of 192, in front of the items one after the other. */
  lemma EncodedList(xs: seq<Item>)
    requires Fits(List(xs))
    ensures var e, p := Encode(List(xs)), EncodeAll(xs);
            if |p| <= 55 then e == [192 + |p|] + p
            else
              var n := |e| - |p| - 1;
              && 1 <= n <= 8 && e[0] == 247 + n && e[1] != 0 && FromBigEndian(e[1..n + 1]) == |p| && e[n + 1..] == p
  {
    var p := EncodeAll(xs);
    LimitFits(|p|);
    var be := BigEndian(|p|);
    FromBigEndianOf(|p|);
    if |p| > 55 {
      var e := Encode(List(xs));
      assert e == [247 + |be|] + be + p;
      assert e[1..|be| + 1] == be;
    }
  }
}
