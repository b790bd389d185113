/** The frame coder as an object: cipher positions and MAC states advance on every call. */
module RlpxCoder {
  import opened Options
  import opened Bytes
  import opened Rlpx

  // Key material

  /** What one side puts into `setup`. */
  datatype Side = Side(originated: bool, secret: ByteString, nonce: ByteString,
                       remoteEphemeral: ByteString, remoteNonce: ByteString)

  predicate Nonces(s: Side) {
    |s.nonce| == 32 && |s.remoteNonce| == 32
  }

  /** Three rounds of hashing on top of the agreed secret: shared secret, AES secret, MAC secret. */
  function Derive(p: Primitives, agreed: ByteString, left: ByteString, right: ByteString): Keys {
    var shared := p.keccak(agreed + p.keccak(left + right));
    var aes := p.keccak(agreed + shared);
    Keys(aes, p.keccak(agreed + aes))
  }

  ghost function SideKeys(p: Primitives, s: Side): Option<Keys> {
    match p.agree(s.secret, s.remoteEphemeral)
    case None => None
    case Some(agreed) =>
      Some(if s.originated then Derive(p, agreed, s.remoteNonce, s.nonce) else Derive(p, agreed, s.nonce, s.remoteNonce))
  }

  ghost function StartEgress(k: Keys, s: Side, ack: ByteString, auth: ByteString): Flow
    requires |k.mac| == 32 && Nonces(s)
  {
    Flow(XorAll(k.mac, s.remoteNonce) + if s.originated then auth else ack, 0)
  }

  ghost function StartIngress(k: Keys, s: Side, ack: ByteString, auth: ByteString): Flow
    requires |k.mac| == 32 && Nonces(s)
  {
    Flow(XorAll(k.mac, s.nonce) + if s.originated then ack else auth, 0)
  }

  /** The two sides of one handshake: each has the other's public key and nonce. */
  ghost predicate Mirrored(p: Primitives, a: Side, b: Side) {
    && Nonces(a) && Nonces(b) && a.originated && !b.originated
    && a.remoteEphemeral == p.publicKey(b.secret) && b.remoteEphemeral == p.publicKey(a.secret)
    && a.remoteNonce == b.nonce && b.remoteNonce == a.nonce
  }

  /** The two sides derive the same keys, or fail together, and what one sends starts where the other receives. */
  lemma SidesAgree(p: Primitives, a: Side, b: Side, ack: ByteString, auth: ByteString)
    requires Sound(p) && Mirrored(p, a, b)
    ensures SideKeys(p, a) == SideKeys(p, b)
    ensures SideKeys(p, a).Some? ==>
              var k := SideKeys(p, a).value;
              && |k.mac| == 32
              && StartEgress(k, a, ack, auth) == StartIngress(k, b, ack, auth)
              && StartIngress(k, a, ack, auth) == StartEgress(k, b, ack, auth)
  {
  }

  // Buffers

  /** A buffer with bytes written over part of it. */
  ghost function Placed(buf: ByteString, at: nat, src: ByteString): (r: ByteString)
    requires at + |src| <= |buf|
    ensures |r| == |buf|
  {
    buf[..at] + src + buf[at + |src|..]
  }

  /** `copyTo`. */
  method Copy(buf: array<byte>, at: nat, src: ByteString)
    requires at + |src| <= buf.Length
    modifies buf
    ensures buf[..] == Placed(old(buf[..]), at, src)
  {
    for i := 0 to |src|
      invariant forall j :: 0 <= j < at || at + i <= j < buf.Length ==> buf[j] == old(buf[j])
      invariant forall j :: 0 <= j < i ==> buf[at + j] == src[j]
    {
      buf[at + i] := src[i];
    }
    forall j | at <= j < at + |src|
      ensures buf[j] == src[j - at]
    {
      assert buf[at + (j - at)] == src[j - at];
    }
  }

  /** A header block, enciphered in place, with its digest behind it. */
  lemma HeaderPlaced(header: ByteString, src: ByteString, cipher: ByteString, digest: ByteString)
    requires src == if |header| <= 32 then header else header[..32]
    requires |cipher| == 16 && |digest| == 16
    ensures var b := Placed(Zeros(32), 0, src);
            && b[..16] == HeaderBlock(header)
            && Placed(b, 0, cipher)[..16] == cipher
            && Placed(Placed(b, 0, cipher), 16, digest) == cipher + digest
  {
  }

  /** A payload and its padding enciphered one after the other, with their digest behind them. */
  lemma PayloadPlaced(head: ByteString, n: nat, a: ByteString, b: ByteString, digest: ByteString)
    requires |head| == 32 && n == |a| + |b| + 16 && |digest| == 16
    ensures var s := Placed(head + Zeros(n), 32, a);
            && s[32 + |a|..32 + |a| + |b|] == Zeros(|b|)
            && Placed(s, 32 + |a|, b)[32..32 + |a| + |b|] == a + b
            && Placed(Placed(s, 32 + |a|, b), 32 + |a| + |b|, digest) == head + (a + b + digest)
  {
    var s := Placed(head + Zeros(n), 32, a);
    assert s == head + a + Zeros(|b| + 16);
    assert Placed(s, 32 + |a|, b) == head + a + b + Zeros(16);
  }

  class FrameCoder {
    const p: Primitives
    var frameEncKey: ByteString
    var encPos: nat
    var frameDecKey: ByteString
    var decPos: nat
    var macEncKey: ByteString
    var egressMac: ByteString
    var ingressMac: ByteString

    /** Set up: both ciphers run under one key. */
    ghost predicate Valid()
      reads this
    {
      Sound(p) && frameEncKey == frameDecKey
    }

    ghost function Secrets(): Keys
      reads this
    {
      Keys(frameEncKey, macEncKey)
    }

    ghost function Egress(): Flow
      reads this
    {
      Flow(egressMac, encPos)
    }

    ghost function Ingress(): Flow
      reads this
    {
      Flow(ingressMac, decPos)
    }

    constructor (primitives: Primitives)
      ensures p == primitives && frameEncKey == [] && egressMac == [] && ingressMac == []
    {
      p := primitives;
      frameEncKey, encPos, frameDecKey, decPos, macEncKey, egressMac, ingressMac := [], 0, [], 0, [], [], [];
    }

    /** Fails exactly when the key agreement does, and then leaves the coder alone. */
    method Setup(s: Side, ackCipher: ByteString, authCipher: ByteString) returns (ok: bool)
      requires Sound(p) && frameEncKey == [] && egressMac == [] && ingressMac == [] && Nonces(s)
      modifies this
      ensures ok <==> SideKeys(p, s).Some?
      ensures !ok ==> unchanged(this)
      ensures ok ==> Valid() && Secrets() == SideKeys(p, s).value && |macEncKey| == 32
      ensures ok ==> Egress() == StartEgress(Secrets(), s, ackCipher, authCipher)
      ensures ok ==> Ingress() == StartIngress(Secrets(), s, ackCipher, authCipher)
      ensures ok <==> p.agree(s.secret, s.remoteEphemeral).Some?
      ensures ok ==>
                var e := p.agree(s.secret, s.remoteEphemeral).value;
                var initiator, recipient :=
                  if s.originated then s.nonce else s.remoteNonce, if s.originated then s.remoteNonce else s.nonce;
                && frameEncKey == frameDecKey == p.keccak(e + p.keccak(e + p.keccak(recipient + initiator)))
                && macEncKey == p.keccak(e + frameEncKey) && encPos == decPos == 0
      ensures ok ==>
                && |egressMac| >= 32 && XorAll(egressMac[..32], s.remoteNonce) == macEncKey
                && egressMac[32..] == (if s.originated then authCipher else ackCipher)
                && |ingressMac| >= 32 && XorAll(ingressMac[..32], s.nonce) == macEncKey
                && ingressMac[32..] == (if s.originated then ackCipher else authCipher)
    {
      var ephemeralShared := p.agree(s.secret, s.remoteEphemeral);
      if ephemeralShared.None? {
        return false;
      }
      ok := true;
      var e := ephemeralShared.value;
      var left := if s.originated then s.remoteNonce else s.nonce;
      var right := if s.originated then s.nonce else s.remoteNonce;
      var out := p.keccak(left + right);
      out := p.keccak(e + out);
      out := p.keccak(e + out);
      frameEncKey, frameDecKey := out, out;
      encPos, decPos := 0, 0;
      out := p.keccak(e + out);
      macEncKey := out;

      var keyMaterial := XorAll(out, s.remoteNonce);
      keyMaterial := keyMaterial + if s.originated then authCipher else ackCipher;
      egressMac := egressMac + keyMaterial;

      XorAllTwice(macEncKey, s.remoteNonce);
      keyMaterial := XorAll(XorAll(keyMaterial[..32], s.remoteNonce), s.nonce);
      keyMaterial := keyMaterial + if s.originated then ackCipher else authCipher;
      ingressMac := ingressMac + keyMaterial;
      XorAllTwice(macEncKey, s.nonce);
      hide XorAll;
      assert egressMac[..32] == XorAll(macEncKey, s.remoteNonce) && ingressMac[..32] == XorAll(macEncKey, s.nonce);
    }

    /** `updateMAC`; with no seed the digest itself is mixed in. */
    ghost function Updated(mac: ByteString, seed: ByteString): ByteString
      requires Sound(p) && (|seed| == 0 || |seed| == 16)
      reads this
    {
      Mixed(p, macEncKey, mac, if seed == [] then Digest(p, mac) else seed)
    }

    method UpdateMAC(mac: ByteString, seed: ByteString) returns (r: ByteString)
      requires Sound(p) && (|seed| == 0 || |seed| == 16)
      ensures r == Updated(mac, seed)
      ensures |r| == |mac| + 16 && r[..|mac|] == mac
      ensures var digest := p.keccak(mac)[..16];
              XorAll(r[|mac|..], if seed == [] then digest else seed) == p.aes(macEncKey, digest)
    {
      MixedIs(p, macEncKey, mac, if seed == [] then p.keccak(mac)[..16] else seed);
      var prevDigest := p.keccak(mac)[..16];
      var encDigest := p.aes(macEncKey, prevDigest);
      if |seed| != 0 {
        encDigest := XorAll(encDigest, seed);
      } else {
        encDigest := XorAll(encDigest, prevDigest);
      }
      r := mac + encDigest;
    }

    /** `egressDigest`: the digest so far, without ending the MAC. */
    method EgressDigest() returns (r: ByteString)
      requires Valid()
      ensures r == Digest(p, egressMac)
    {
      r := p.keccak(egressMac)[..16];
    }

    method IngressDigest() returns (r: ByteString)
      requires Valid()
      ensures r == Digest(p, ingressMac)
    {
      r := p.keccak(ingressMac)[..16];
    }

    /** Enciphers into a buffer and moves on in the keystream. */
    method Encipher(buf: array<byte>, at: nat, input: ByteString)
      requires at + |input| <= buf.Length
      modifies buf, this`encPos
      ensures buf[..] == Placed(old(buf[..]), at, Crypt(p, frameEncKey, old(encPos), input))
      ensures encPos == old(encPos) + |input|
    {
      Copy(buf, at, Crypt(p, frameEncKey, encPos, input));
      encPos := encPos + |input|;
    }

    /** `writeFrame`: one frame on the wire, sealed from where this direction stands. */
    method WriteFrame(header: ByteString, payload: ByteString) returns (out: array<byte>)
      requires Valid()
      modifies this`encPos, this`egressMac
      ensures Valid() && fresh(out)
      ensures var f := old(Egress());
              var g := HeaderFlow(p, Secrets(), f, header);
              && out[..] == SealedHeader(p, Secrets(), f, header) + SealedPayload(p, Secrets(), g, payload)
              && Egress() == PayloadFlow(p, Secrets(), g, payload)
    {
      hide Crypt; hide XorAll; hide Sound; hide Mixed; hide Digest;
      var headerWithMac := WriteHeader(header);
      var padding := Padding(|payload|);
      out := new byte[32 + |payload| + padding + 16](_ => 0);
      Copy(out, 0, headerWithMac[..]);
      assert out[..] == headerWithMac[..] + Zeros(|payload| + padding + 16);
      WritePayload(out, headerWithMac[..], payload, padding);
    }

    method WriteHeader(header: ByteString) returns (h: array<byte>)
      requires Valid()
      modifies this`encPos, this`egressMac
      ensures Valid() && fresh(h) && h.Length == 32
      ensures h[..] == SealedHeader(p, Secrets(), old(Egress()), header)
      ensures Egress() == HeaderFlow(p, Secrets(), old(Egress()), header)
    {
      hide Crypt; hide XorAll; hide Mixed; hide Sound; hide Digest; hide Placed; hide HeaderBlock;
      var src := if |header| <= 32 then header else header[..32];
      h := new byte[32](_ => 0);
      assert h[..] == Zeros(32);
      Copy(h, 0, src);
      ghost var cipher := HeaderCipher(p, Secrets(), Egress(), header);
      HeaderPlaced(header, src, cipher, cipher);
      Encipher(h, 0, h[..16]);
      egressMac := UpdateMAC(egressMac, h[..16]);
      HeaderPlaced(header, src, cipher, Digest(p, egressMac));
      var digest := EgressDigest();
      Copy(h, 16, digest);
    }

    method WritePayload(out: array<byte>, ghost head: ByteString, payload: ByteString, padding: nat)
      requires Valid() && padding == Padding(|payload|) && |head| == 32
      requires out[..] == head + Zeros(|payload| + padding + 16)
      modifies out, this`encPos, this`egressMac
      ensures Valid() && out[..] == head + SealedPayload(p, Secrets(), old(Egress()), payload)
      ensures Egress() == PayloadFlow(p, Secrets(), old(Egress()), payload)
    {
      hide Crypt; hide XorAll; hide Mixed; hide Sound; hide Digest; hide Placed; hide Zeros; hide Padding;
      var end := 32 + |payload|;
      ghost var a, b := Crypt(p, frameEncKey, encPos, payload), Crypt(p, frameEncKey, encPos + |payload|, Zeros(padding));
      PayloadPlaced(head, |payload| + padding + 16, a, b, Digest(p, []));
      CryptConcat(p, frameEncKey, encPos, payload, Zeros(padding));
      Encipher(out, 32, payload);
      Encipher(out, end, out[end..end + padding]);
      egressMac := UpdateMAC(egressMac + out[32..end + padding], []);
      PayloadPlaced(head, |payload| + padding + 16, a, b, Digest(p, egressMac));
      var digest := EgressDigest();
      Copy(out, end + padding, digest);
    }

    /** `writeSingleFramePacket`: the legacy header in front. */
    method WriteSingleFramePacket(packet: ByteString) returns (out: array<byte>)
      requires Valid()
      modifies this`encPos, this`egressMac
      ensures Valid() && fresh(out)
      ensures var f := old(Egress());
              && out[..] == Sealed(p, Secrets(), f, packet)
              && Egress() == Next(p, Secrets(), f, packet)
    {
      LegacyHeader(|packet|);
      out := WriteFrame(LengthBytes(|packet|) + [0xc2, 0x80, 0x80], packet);
    }

    /** `authAndDecryptHeader`: deciphers in place exactly when the MAC is the expected one; the MAC state
        moves on either way. */
    method AuthAndDecryptHeader(io: array<byte>) returns (ok: bool)
      requires Valid() && io.Length == 32
      modifies this`decPos, this`ingressMac, io
      ensures Valid() && ingressMac == Mixed(p, macEncKey, old(ingressMac), old(io[..16]))
      ensures ok <==> old(io[16..]) == Digest(p, ingressMac)
      ensures !ok ==> decPos == old(decPos) && io[..] == old(io[..])
      ensures ok ==> decPos == old(decPos) + 16
      ensures ok ==> io[..] == Crypt(p, frameDecKey, old(decPos), old(io[..16])) + old(io[16..])
    {
      hide Crypt; hide XorAll; hide Mixed; hide Sound; hide Digest;
      ingressMac := UpdateMAC(ingressMac, io[..16]);
      var expected := IngressDigest();
      if io[16..] != expected {
        return false;
      }
      ok := true;
      Copy(io, 0, Crypt(p, frameDecKey, decPos, io[..16]));
      decPos := decPos + 16;
    }

    /** `authAndDecryptFrame`: likewise for a padded payload with its MAC. */
    method AuthAndDecryptFrame(io: array<byte>) returns (ok: bool)
      requires Valid() && io.Length >= 16
      modifies this`decPos, this`ingressMac, io
      ensures Valid()
      ensures var n := io.Length - 16;
              && ingressMac == AfterFrame(p, macEncKey, old(ingressMac), old(io[..n]))
              && (ok <==> old(io[n..]) == Digest(p, ingressMac))
              && (!ok ==> decPos == old(decPos) && io[..] == old(io[..]))
              && (ok ==> decPos == old(decPos) + n)
              && (ok ==> io[..] == Crypt(p, frameDecKey, old(decPos), old(io[..n])) + old(io[n..]))
    {
      hide Crypt; hide XorAll; hide Mixed; hide Sound; hide Digest;
      var n := io.Length - 16;
      ingressMac := UpdateMAC(ingressMac + io[..n], []);
      var expected := IngressDigest();
      if io[n..] != expected {
        return false;
      }
      ok := true;
      Copy(io, 0, Crypt(p, frameDecKey, decPos, io[..n]));
      decPos := decPos + n;
    }
  }

  // Packets

  /** A packet on the wire: legacy header and payload. */
  ghost function Sealed(p: Primitives, k: Keys, f: Flow, packet: ByteString): (r: ByteString)
    requires Sound(p)
    ensures |r| == 32 + |packet| + Padding(|packet|) + 16
  {
    SealedHeader(p, k, f, PacketHeader(packet)) +
    SealedPayload(p, k, HeaderFlow(p, k, f, PacketHeader(packet)), packet)
  }

  function PacketHeader(packet: ByteString): (r: ByteString) {
    LengthBytes(|packet|) + [0xc2, 0x80, 0x80]
  }

  ghost function Next(p: Primitives, k: Keys, f: Flow, packet: ByteString): Flow
    requires Sound(p)
  {
    PayloadFlow(p, k, HeaderFlow(p, k, f, PacketHeader(packet)), packet)
  }
}
