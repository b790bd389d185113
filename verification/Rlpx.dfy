/** The RLPx frame coder (`RLPXFrameCoder.cpp`): both directions of one connection.
    Keccak, AES and the key agreement are arbitrary functions of the right widths; a MAC is the string of
    bytes fed to it so far, and the CTR cipher adds a keystream that depends on the key and the position. */
module Rlpx {
  import opened Options
  import opened Bits
  import opened Bytes
  import opened Rlp
  import opened RlpCanonical
  import opened RlpFields

  function XorAll(a: ByteString, b: ByteString): (r: ByteString)
    requires |a| == |b|
    ensures |r| == |a|
  {
    seq(|a|, i requires 0 <= i < |a| => Xor(a[i], b[i]))
  }

  lemma XorAllTwice(a: ByteString, b: ByteString)
    requires |a| == |b|
    ensures XorAll(XorAll(a, b), b) == a
  {
    hide Xor;
    forall i | 0 <= i < |a|
      ensures Xor(Xor(a[i], b[i]), b[i]) == a[i]
    {
      XorTwice(a[i], b[i]);
    }
  }

  // Primitives

  datatype Primitives = Primitives(
    keccak: ByteString -> ByteString,
    aes: (ByteString, ByteString) -> ByteString,
    keystream: (ByteString, nat) -> byte,
    publicKey: ByteString -> ByteString,
    agree: (ByteString, ByteString) -> Option<ByteString>)

  /** Digests of 32 bytes, blocks of 16, and a key agreement that gives both sides the same 32 bytes. */
  ghost predicate Sound(p: Primitives) {
    && (forall s :: |p.keccak(s)| == 32)
    && (forall k, b :: |b| == 16 ==> |p.aes(k, b)| == 16)
    && (forall a, b :: p.agree(a, p.publicKey(b)) == p.agree(b, p.publicKey(a)))
    && (forall a, q :: p.agree(a, q).Some? ==> |p.agree(a, q).value| == 32)
  }

  lemma SomePrimitives() returns (p: Primitives)
    ensures Sound(p)
  {
    p := Primitives(_ => seq(32, _ => 0), (_, _) => seq(16, _ => 0), (_, _) => 0, s => s, (_, _) => Some(seq(32, _ => 0)));
  }

  datatype Keys = Keys(aes: ByteString, mac: ByteString)

  /** One direction of a connection: the bytes fed to its MAC and the position in its keystream. */
  datatype Flow = Flow(mac: ByteString, pos: nat)

  function Crypt(p: Primitives, key: ByteString, pos: nat, data: ByteString): (r: ByteString)
    ensures |r| == |data|
  {
    seq(|data|, i requires 0 <= i < |data| => Xor(data[i], p.keystream(key, pos + i)))
  }

  /** Deciphering is enciphering at the same position. */
  lemma CryptTwice(p: Primitives, key: ByteString, pos: nat, data: ByteString)
    ensures Crypt(p, key, pos, Crypt(p, key, pos, data)) == data
  {
    hide Xor;
    forall i | 0 <= i < |data|
      ensures Xor(Xor(data[i], p.keystream(key, pos + i)), p.keystream(key, pos + i)) == data[i]
    {
      XorTwice(data[i], p.keystream(key, pos + i));
    }
  }

  /** Two pieces one after the other are enciphered as their concatenation. */
  lemma CryptConcat(p: Primitives, key: ByteString, pos: nat, a: ByteString, b: ByteString)
    ensures Crypt(p, key, pos, a) + Crypt(p, key, pos + |a|, b) == Crypt(p, key, pos, a + b)
  {
    hide Xor;
    var l, r := Crypt(p, key, pos, a) + Crypt(p, key, pos + |a|, b), Crypt(p, key, pos, a + b);
    forall i | 0 <= i < |a| + |b|
      ensures l[i] == r[i]
    {
      assert i >= |a| ==> pos + |a| + (i - |a|) == pos + i;
    }
  }

  ghost function Digest(p: Primitives, fed: ByteString): (r: ByteString)
    requires Sound(p)
    ensures |r| == 16
  {
    p.keccak(fed)[..16]
  }

  /** `updateMAC`: what the MAC has been fed once a seed is mixed in. */
  ghost function Mixed(p: Primitives, key: ByteString, fed: ByteString, seed: ByteString): ByteString
    requires Sound(p) && |seed| == 16
  {
    fed + XorAll(p.aes(key, Digest(p, fed)), seed)
  }

  ghost function AfterFrame(p: Primitives, key: ByteString, fed: ByteString, cipher: ByteString): ByteString
    requires Sound(p)
  {
    Mixed(p, key, fed + cipher, Digest(p, fed + cipher))
  }

  /** Byte for byte and bit for bit. */
  lemma XorAllIs(a: ByteString, b: ByteString, i: nat, j: nat)
    requires |a| == |b| && i < |a| && j < 8
    ensures XorAll(a, b)[i] / Pow2(j) % 2 == 1 <==> a[i] / Pow2(j) % 2 != b[i] / Pow2(j) % 2
  {
    XorIs(a[i], b[i], j);
  }

  lemma CryptIs(p: Primitives, key: ByteString, pos: nat, data: ByteString, i: nat, j: nat)
    requires i < |data| && j < 8
    ensures Crypt(p, key, pos, data)[i] / Pow2(j) % 2 == 1 <==>
            data[i] / Pow2(j) % 2 != p.keystream(key, pos + i) / Pow2(j) % 2
  {
    XorIs(data[i], p.keystream(key, pos + i), j);
  }

  /** What a MAC was fed in an update: sixteen bytes that, with the seed taken off, are the enciphered digest. */
  ghost predicate Fed(p: Primitives, key: ByteString, fed: ByteString, seed: ByteString, after: ByteString)
    requires Sound(p) && |seed| == 16
  {
    && |after| == |fed| + 16 && after[..|fed|] == fed
    && XorAll(after[|fed|..], seed) == p.aes(key, p.keccak(fed)[..16])
  }

  lemma MixedIs(p: Primitives, key: ByteString, fed: ByteString, seed: ByteString)
    requires Sound(p) && |seed| == 16
    ensures Fed(p, key, fed, seed, Mixed(p, key, fed, seed))
  {
    hide XorAll;
    var block := p.aes(key, p.keccak(fed)[..16]);
    var after := Mixed(p, key, fed, seed);
    assert after == fed + XorAll(block, seed);
    assert after[|fed|..] == XorAll(block, seed);
    XorAllTwice(block, seed);
  }

  /** After a frame its cipher text was fed, and then its digest, enciphered and with itself taken off. */
  lemma AfterFrameIs(p: Primitives, key: ByteString, fed: ByteString, cipher: ByteString)
    requires Sound(p)
    ensures Fed(p, key, fed + cipher, p.keccak(fed + cipher)[..16], AfterFrame(p, key, fed, cipher))
  {
    MixedIs(p, key, fed + cipher, p.keccak(fed + cipher)[..16]);
  }

  // Frames

  const TOO_LONG := 0x1_00_00_00

  function Padding(n: nat): (r: nat)
    ensures r < 16 && (n + r) % 16 == 0
  {
    (16 - n % 16) % 16
  }

  /** The first sixteen bytes of a header, filled up with zeros. */
  function HeaderBlock(header: ByteString): (r: ByteString)
    ensures |r| == 16
  {
    if |header| >= 16 then header[..16] else header + Zeros(16 - |header|)
  }

  function Padded(payload: ByteString): ByteString {
    payload + Zeros(Padding(|payload|))
  }

  ghost function HeaderCipher(p: Primitives, k: Keys, f: Flow, header: ByteString): (r: ByteString)
    ensures |r| == 16
  {
    Crypt(p, k.aes, f.pos, HeaderBlock(header))
  }

  ghost function HeaderFlow(p: Primitives, k: Keys, f: Flow, header: ByteString): Flow
    requires Sound(p)
  {
    Flow(Mixed(p, k.mac, f.mac, HeaderCipher(p, k, f, header)), f.pos + 16)
  }

  ghost function PayloadFlow(p: Primitives, k: Keys, f: Flow, payload: ByteString): Flow
    requires Sound(p)
  {
    Flow(AfterFrame(p, k.mac, f.mac, Crypt(p, k.aes, f.pos, Padded(payload))), f.pos + |Padded(payload)|)
  }

  /** The bytes on the wire for a header, and for a payload. */
  ghost function SealedHeader(p: Primitives, k: Keys, f: Flow, header: ByteString): (r: ByteString)
    requires Sound(p)
    ensures |r| == 32
  {
    HeaderCipher(p, k, f, header) + Digest(p, HeaderFlow(p, k, f, header).mac)
  }

  ghost function SealedPayload(p: Primitives, k: Keys, f: Flow, payload: ByteString): (r: ByteString)
    requires Sound(p)
    ensures |r| == |payload| + Padding(|payload|) + 16
  {
    Crypt(p, k.aes, f.pos, Padded(payload)) + Digest(p, PayloadFlow(p, k, f, payload).mac)
  }

  /** A frame on the wire, from a MAC that was fed f.mac and a keystream at f.pos: sixteen bytes of header filled up
      with zeros, enciphered, and their digest; the payload filled up with zeros to a multiple of sixteen, enciphered
      where the header ended, and its digest. */
  lemma OnTheWire(p: Primitives, k: Keys, f: Flow, header: ByteString, payload: ByteString)
    returns (clear: ByteString, filled: ByteString, mid: ByteString)
    requires Sound(p)
    ensures |clear| == 16 && forall i :: 0 <= i < 16 ==> clear[i] == if i < |header| then header[i] else 0
    ensures |payload| <= |filled| < |payload| + 16 && |filled| % 16 == 0
    ensures forall i :: 0 <= i < |filled| ==> filled[i] == if i < |payload| then payload[i] else 0
    ensures var a, g := SealedHeader(p, k, f, header), HeaderFlow(p, k, f, header);
            var b, end := SealedPayload(p, k, g, payload), PayloadFlow(p, k, g, payload);
            && a[..16] == Crypt(p, k.aes, f.pos, clear) && Fed(p, k.mac, f.mac, a[..16], mid)
            && a[16..] == p.keccak(mid)[..16]
            && |b| == |filled| + 16 && b[..|filled|] == Crypt(p, k.aes, f.pos + 16, filled)
            && Fed(p, k.mac, mid + b[..|filled|], p.keccak(mid + b[..|filled|])[..16], end.mac)
            && b[|filled|..] == p.keccak(end.mac)[..16] && end.pos == f.pos + 16 + |filled|
  {
    hide Crypt; hide Mixed; hide AfterFrame; hide Fed;
    clear, filled := HeaderBlock(header), Padded(payload);
    var a, g := SealedHeader(p, k, f, header), HeaderFlow(p, k, f, header);
    var b := SealedPayload(p, k, g, payload);
    mid := g.mac;
    assert a[..16] == HeaderCipher(p, k, f, header) && a[16..] == p.keccak(mid)[..16];
    assert b[..|filled|] == Crypt(p, k.aes, f.pos + 16, filled);
    MixedIs(p, k.mac, f.mac, a[..16]);
    AfterFrameIs(p, k.mac, mid, b[..|filled|]);
  }

  // Headers

  /** The low three bytes of a length. */
  function LengthBytes(n: nat): ByteString {
    [n / 65536 % 256, n / 256 % 256, n % 256]
  }

  function FrameLength(h: ByteString): nat
    requires |h| >= 3
  {
    var a: nat, b: nat, c: nat := h[0], h[1], h[2];
    (a * 256 + b) * 256 + c
  }

  function IntItems(ints: seq<nat>): (r: seq<Item>)
    ensures |r| == |ints|
  {
    seq(|ints|, i requires 0 <= i < |ints| => IntItem(ints[i]))
  }

  /** Protocol, sequence id and total size, each as wide as the reader takes it. */
  predicate HeaderInts(ints: seq<nat>) {
    && 1 <= |ints| <= 3 && ints[0] < 0x1_0000
    && (|ints| > 1 ==> ints[1] < 0x1_0000) && (|ints| > 2 ==> ints[2] < 0x1_0000_0000)
  }

  lemma IntSize(n: nat, k: nat)
    requires n < Pow256(k) && 1 <= k < IMMEDIATE
    ensures Fits(IntItem(n)) && ItemSize(IntItem(n)) <= k + 1
  {
    BigEndianFits(n, k);
  }

  lemma Widths()
    ensures Pow256(2) == 0x1_0000 && Pow256(4) == 0x1_0000_0000
  {
    assert Pow256(2) == 256 * Pow256(1);
  }

  lemma HeaderFits(ints: seq<nat>)
    requires HeaderInts(ints)
    ensures Fits(List(IntItems(ints))) && ItemSize(List(IntItems(ints))) <= 12
  {
    hide Pow256;
    Widths();
    var xs := IntItems(ints);
    IntSize(ints[0], 2);
    if |ints| > 1 {
      IntSize(ints[1], 2);
    }
    if |ints| > 2 {
      IntSize(ints[2], 4);
    }
    SmallList(xs);
  }

  lemma SmallList(xs: seq<Item>)
    requires 1 <= |xs| <= 3 && AllFit(xs) && ItemSize(xs[0]) <= 3
    requires (|xs| > 1 ==> ItemSize(xs[1]) <= 3) && (|xs| > 2 ==> ItemSize(xs[2]) <= 5)
    ensures Fits(List(xs)) && ItemSize(List(xs)) <= 12
  {
    hide Fits; hide ItemSize; hide BigEndian;
    var t := xs[1..];
    assert ItemsSize(xs) == ItemSize(xs[0]) + ItemsSize(t);
    if t != [] {
      assert ItemsSize(t) == ItemSize(xs[1]) + ItemsSize(t[1..]);
      if t[1..] != [] {
        assert ItemsSize(t[1..]) == ItemSize(xs[2]) + ItemsSize(t[1..][1..]);
      }
    }
    ListFits(xs);
  }

  lemma ListFits(xs: seq<Item>)
    requires AllFit(xs) && ItemsSize(xs) <= 11
    ensures Fits(List(xs)) && ItemSize(List(xs)) == ItemsSize(xs) + 1
  {
  }

  function HeaderOf(n: nat, ints: seq<nat>): (r: ByteString)
    requires HeaderInts(ints)
    ensures 3 < |r| <= 15
  {
    HeaderFits(ints);
    LengthBytes(n) + Encode(List(IntItems(ints)))
  }

  datatype FrameInfo = FrameInfo(length: nat, padding: nat, protocolId: nat, multiFrame: bool,
                                 sequenceId: nat, totalLength: nat)

  /** `RLPXFrameInfo`: a header as it is read once deciphered. */
  function ReadInfo(h: ByteString): Result<FrameInfo>
    requires |h| >= 3
  {
    var length := FrameLength(h);
    var data := h[3..];
    var _ :- SizeAsEncoded(data);
    var protocol :- Field(data, 0);
    var protocolId :- ToInt(protocol, 2);
    var count :- ItemCount(data);
    var sequenceId :- ReadOptional(data, 1, 2, count > 1);
    var totalLength :- ReadOptional(data, 2, 4, count == 3);
    Ok(FrameInfo(length, Padding(length), protocolId, count > 1, sequenceId, totalLength))
  }

  function ReadOptional(data: ByteString, i: nat, width: nat, there: bool): Result<nat> {
    if !there then Ok(0)
    else
      var d :- Field(data, i);
      ToInt(d, width)
  }

  /** What the reader makes of a header written for n bytes: the length modulo 2^24. */
  function Info(n: nat, ints: seq<nat>): FrameInfo
    requires HeaderInts(ints)
  {
    FrameInfo(n % TOO_LONG, Padding(n % TOO_LONG), ints[0], |ints| > 1,
              if |ints| > 1 then ints[1] else 0, if |ints| > 2 then ints[2] else 0)
  }

  lemma LengthReads(n: nat, h: ByteString)
    requires |h| >= 3 && h[..3] == LengthBytes(n)
    ensures FrameLength(h) == n % TOO_LONG
  {
    assert h[0] == h[..3][0] && h[1] == h[..3][1] && h[2] == h[..3][2];
    ThreeBytes(n);
  }

  lemma ThreeBytes(n: nat)
    ensures (n / 65536 % 256 * 256 + n / 256 % 256) * 256 + n % 256 == n % TOO_LONG
  {
    var a, b, c := n / 65536, n / 256 % 256, n % 256;
    assert n / 256 == 256 * a + b;
    Remainder(a / 256, (a % 256 * 256 + b) * 256 + c, n);
  }

  lemma Remainder(q: nat, r: nat, n: nat)
    requires n == TOO_LONG * q + r && r < TOO_LONG
    ensures n % TOO_LONG == r
  {
  }

  /** The length is three bytes, the most significant first. */
  lemma LengthBytesIs(n: nat)
    ensures |LengthBytes(n)| == 3 && FromBigEndian(LengthBytes(n)) == n % 0x100_0000
  {
    var b := LengthBytes(n);
    LengthReads(n, b) by {
      assert b[..3] == b;
    }
    assert b[..2] == [b[0], b[1]] && b[..2][..1] == [b[0]] && b[..2][..1][..0] == [];
    assert FromBigEndian(b[..2][..1]) == b[0];
    assert FromBigEndian(b[..2]) == FromBigEndian(b[..2][..1]) * 256 + b[1];
  }

  /** What a header is read as comes from the fields of the list behind the length, in this order. */
  lemma InfoFields(h: ByteString)
    requires |h| >= 3 && ReadInfo(h).Ok?
    ensures var info, d := ReadInfo(h).value, h[3..];
            && info.length < 0x100_0000 && LengthBytes(info.length) == h[..3]
            && ItemCount(d).Ok? && info.multiFrame == (ItemCount(d).value > 1)
            && Field(d, 0).Ok? && ToInt(Field(d, 0).value, 2) == Ok(info.protocolId)
            && (if ItemCount(d).value > 1 then Field(d, 1).Ok? && ToInt(Field(d, 1).value, 2) == Ok(info.sequenceId)
                else info.sequenceId == 0)
            && (if ItemCount(d).value == 3 then Field(d, 2).Ok? && ToInt(Field(d, 2).value, 4) == Ok(info.totalLength)
                else info.totalLength == 0)
  {
    hide ItemCount; hide Field; hide ToInt; hide SizeAsEncoded;
    var a: nat, b: nat, c: nat := h[0], h[1], h[2];
    var n := ReadInfo(h).value.length;
    assert n == (a * 256 + b) * 256 + c;
    DivisionIs(n, 65536, a, b * 256 + c);
    DivisionIs(n, 256, a * 256 + b, c);
    DivisionIs(a * 256 + b, 256, a, b);
  }

  lemma IntFieldReads(ints: seq<nat>, xs: seq<Item>, rest: ByteString, data: ByteString, i: nat, width: nat)
    requires xs == IntItems(ints) && Fits(List(xs)) && data == Encode(List(xs)) + rest
    requires i < |ints| && ints[i] < Pow256(width)
    ensures Field(data, i).Ok? && ToInt(Field(data, i).value, width) == Ok(ints[i])
  {
    hide Encode; hide ToInt; hide Field; hide BigEndian; hide Pow256;
    FieldReads(xs, rest, data, i);
    assert Fits(xs[i]);
    IntReads(ints[i], width);
  }

  /** Every header the writer makes is read as written, whatever follows it, but for lengths from 2^24 on. */
  lemma InfoReads(n: nat, ints: seq<nat>, rest: ByteString, h: ByteString)
    requires HeaderInts(ints) && h == HeaderOf(n, ints) + rest
    ensures ReadInfo(h) == Ok(Info(n, ints))
  {
    hide Field; hide ToInt; hide ItemCount; hide SizeAsEncoded; hide FrameLength; hide Encode; hide Padding; hide Pow256;
    Widths();
    HeaderFits(ints);
    var xs := IntItems(ints);
    var data := Encode(List(xs)) + rest;
    assert h[..3] == LengthBytes(n) && h[3..] == data;
    LengthReads(n, h);
    FieldReads(xs, rest, data, 0);
    IntFieldReads(ints, xs, rest, data, 0, 2);
    if |ints| > 1 {
      IntFieldReads(ints, xs, rest, data, 1, 2);
    }
    if |ints| > 2 {
      IntFieldReads(ints, xs, rest, data, 2, 4);
    }
  }

  /** The legacy header is that of a continuation frame of protocol 0 and sequence 0. */
  lemma LegacyHeader(n: nat)
    ensures HeaderInts([0, 0]) && LengthBytes(n) + [0xc2, 0x80, 0x80] == HeaderOf(n, [0, 0])
  {
    var xs := IntItems([0, 0]);
    assert xs == [Data([])] + [Data([])];
    HeaderFits([0, 0]);
    assert Encode(Data([])) == [0x80];
    AllFitCons(Data([]), [Data([])]);
    AllFitCons(Data([]), []);
    assert EncodeAll([Data([])]) == [0x80];
    assert EncodeAll(xs) == [0x80] + [0x80];
  }
}
