/** Two sessions over one connection (`Session.cpp`): write queues, reads, and their frame coders in step. */
module RlpxSession {
  import opened Options
  import opened Bytes
  import opened Rlp
  import opened RlpCanonical
  import opened RlpFields
  import opened Rlpx
  import opened RlpxCoder

  // Runs of packets in one direction

  ghost function FlowAfter(p: Primitives, k: Keys, f: Flow, packets: seq<ByteString>): Flow
    requires Sound(p)
    decreases packets
  {
    if packets == [] then f else FlowAfter(p, k, Next(p, k, f, packets[0]), packets[1..])
  }

  ghost function Wire(p: Primitives, k: Keys, f: Flow, packets: seq<ByteString>): ByteString
    requires Sound(p)
    decreases packets
  {
    if packets == [] then [] else Sealed(p, k, f, packets[0]) + Wire(p, k, Next(p, k, f, packets[0]), packets[1..])
  }

  lemma {:induction false} OneMore(p: Primitives, k: Keys, f: Flow, packets: seq<ByteString>, last: ByteString)
    requires Sound(p)
    ensures FlowAfter(p, k, f, packets + [last]) == Next(p, k, FlowAfter(p, k, f, packets), last)
    ensures Wire(p, k, f, packets + [last]) == Wire(p, k, f, packets) + Sealed(p, k, FlowAfter(p, k, f, packets), last)
    decreases packets
  {
    hide Sealed; hide Next; hide Sound;
    var all := packets + [last];
    if packets == [] {
      assert all[1..] == [];
    } else {
      assert all[1..] == packets[1..] + [last];
      OneMore(p, k, Next(p, k, f, packets[0]), packets[1..], last);
    }
  }

  // Opening what was sealed

  /** From the same flow, a sealed header authenticates and deciphers to itself. */
  lemma HeaderOpens(p: Primitives, k: Keys, f: Flow, header: ByteString, io: ByteString)
    requires Sound(p) && io == SealedHeader(p, k, f, header)
    ensures Mixed(p, k.mac, f.mac, io[..16]) == HeaderFlow(p, k, f, header).mac
    ensures io[16..] == Digest(p, HeaderFlow(p, k, f, header).mac)
    ensures Crypt(p, k.aes, f.pos, io[..16]) == HeaderBlock(header)
  {
    hide Crypt; hide Mixed; hide Digest; hide Sound; hide HeaderBlock;
    assert io[..16] == HeaderCipher(p, k, f, header);
    CryptTwice(p, k.aes, f.pos, HeaderBlock(header));
  }

  /** From the same flow, a sealed payload authenticates and deciphers to itself and its padding. */
  lemma PayloadOpens(p: Primitives, k: Keys, f: Flow, payload: ByteString, io: ByteString, n: nat)
    requires Sound(p) && io == SealedPayload(p, k, f, payload) && n == |io| - 16
    ensures AfterFrame(p, k.mac, f.mac, io[..n]) == PayloadFlow(p, k, f, payload).mac
    ensures io[n..] == Digest(p, PayloadFlow(p, k, f, payload).mac)
    ensures n == |payload| + Padding(|payload|) && PayloadFlow(p, k, f, payload).pos == f.pos + n
    ensures |payload| <= n && Crypt(p, k.aes, f.pos, io[..n])[..|payload|] == payload
  {
    hide Crypt; hide AfterFrame; hide Digest; hide Sound; hide Padding;
    assert io[..n] == Crypt(p, k.aes, f.pos, Padded(payload));
    CryptTwice(p, k.aes, f.pos, Padded(payload));
  }

  /** The reader is told the packet's length exactly when that is below 2^24. */
  lemma LengthKept(packet: ByteString, mac: ByteString)
    ensures ReadInfo(HeaderBlock(PacketHeader(packet)) + mac).Ok?
    ensures ReadInfo(HeaderBlock(PacketHeader(packet)) + mac).value.length == |packet| <==> |packet| < TOO_LONG
    ensures |packet| < TOO_LONG ==>
              ReadInfo(HeaderBlock(PacketHeader(packet)) + mac).value.padding == Padding(|packet|)
  {
    hide Padding; hide ReadInfo;
    LegacyHeader(|packet|);
    var h := PacketHeader(packet);
    var rest := Zeros(16 - |h|) + mac;
    assert HeaderBlock(h) + mac == h + rest;
    InfoReads(|packet|, [0, 0], rest, h + rest);
  }

  /** A packet of 2^24 bytes announces that it has none. */
  lemma LengthLost(packet: ByteString, mac: ByteString)
    requires |packet| == TOO_LONG
    ensures ReadInfo(HeaderBlock(PacketHeader(packet)) + mac).Ok?
    ensures ReadInfo(HeaderBlock(PacketHeader(packet)) + mac).value.length == 0
  {
    hide Padding; hide ReadInfo;
    LegacyHeader(TOO_LONG);
    var h := PacketHeader(packet);
    var rest := Zeros(16 - |h|) + mac;
    assert HeaderBlock(h) + mac == h + rest;
    InfoReads(TOO_LONG, [0, 0], rest, h + rest);
  }

  // Packets

  /** All but the packet type. */
  function Body(msg: ByteString): ByteString {
    if msg == [] then [] else msg[1..]
  }

  /** `checkPacket`. */
  function CheckPacket(msg: ByteString): Result<bool> {
    if |msg| < 2 || msg[0] > 0x7f then Ok(false)
    else
      var _ :- VeryStrict(Body(msg));
      var n :- ActualSize(Body(msg));
      Ok(n + 1 == |msg|)
  }

  /** What `send` lets through is only ever refused for its type or for having no body. */
  lemma CheckedAs(msg: ByteString)
    requires CheckPacket(msg).Ok?
    ensures CheckPacket(msg) == Ok(|msg| >= 2 && msg[0] <= 0x7f)
  {
    hide ActualSize;
  }

  /** A packet passes exactly if its type is below 128 and one item of full length follows; the check throws exactly
      where the type allows it to look and no length can be read, or it is not that of the rest. */
  lemma CheckedIff(msg: ByteString)
    ensures CheckPacket(msg) == Ok(true) <==> |msg| >= 2 && msg[0] < 128 && ActualSize(msg[1..]) == Ok(|msg| - 1)
    ensures CheckPacket(msg).Throw? <==> |msg| >= 2 && msg[0] < 128 && ActualSize(msg[1..]) != Ok(|msg| - 1)
  {
    hide ActualSize;
  }

  /** A packet that is handed on: it is well formed, and its type, which is read as an integer, is not zero. */
  predicate Deliverable(msg: ByteString) {
    CheckPacket(msg) == Ok(true) && msg[0] != 0
  }

  lemma CheckedLength(msg: ByteString)
    requires CheckPacket(msg) == Ok(true)
    ensures |msg| >= 2
  {
    hide VeryStrict; hide ActualSize;
  }

  /** The type byte is read as an integer, and a zero byte is none. */
  lemma TypeRead(msg: ByteString)
    requires CheckPacket(msg) == Ok(true)
    ensures ToInt(msg[..1], 4) == if msg[0] == 0 then Throw(BadCast) else Ok(msg[0])
  {
    assert msg[..1] == [msg[0]] && msg[0] <= 0x7f by {
      hide VeryStrict; hide ActualSize;
    }
    var d := msg[..1];
    assert Length(d) == Ok(1) && d[0..1] == d;
    assert Payload(d) == Ok(d);
    assert d[..0] == [] && FromBigEndian(d) == FromBigEndian(d[..0]) * 256 + d[0];
  }

  /** A hello packet is well formed and cannot be read. */
  lemma HelloUnread()
    ensures CheckPacket([0x00, 0xc0]) == Ok(true) && !Deliverable([0x00, 0xc0])
    ensures ToInt([0x00, 0xc0][..1], 4) == Throw(BadCast)
  {
    var msg: ByteString := [0x00, 0xc0];
    assert Body(msg) == [0xc0];
    TypeRead(msg);
  }

  /** The disconnect packet for a protocol breach. */
  const GOODBYE: ByteString := [0x01, 0xc1, 0x02]

  /** Packet type 1, a list of reason 2. */
  lemma GoodbyeIs()
    ensures GOODBYE[0] == 1 && Decode(GOODBYE[1..]) == Ok(List([Data([2])]))
    ensures CheckPacket(GOODBYE) == Ok(true)
  {
    var e := Data([2]);
    assert EncodeAll([e]) == [2] by {
      assert [e][1..] == [];
    }
    assert Fits(List([e])) && Encode(List([e])) == [0xc1, 2];
    RoundTrip(List([e]));
    assert GOODBYE[1..] == [0xc1, 2];
  }

  /** Why a session was dropped; `Closed` is for every reason that is not the reader's. */
  datatype Drop = No | Closed | HeaderFailed | InfoFailed | FrameFailed | InvalidMessage

  class Session {
    const coder: FrameCoder
    /** Packets to go; the first is already a frame while a write is outstanding. */
    var writeQueue: seq<ByteString>
    /** A write is outstanding, or a thread is about to start one. */
    var writing: bool
    var starting: bool
    /** Bytes given to the socket that the peer has not read yet. */
    var outbox: ByteString
    var dropped: Drop
    /** An exception has left the read handler: nothing is read any more. */
    var stalled: bool
    /** Length of the frame whose header has been read. */
    var awaiting: Option<nat>
    /** Packets handed on for interpretation. */
    var received: seq<ByteString>

    /** Packets accepted by `send`, and those of them framed so far. */
    ghost var sent: seq<ByteString>
    ghost var framed: seq<ByteString>
    /** Where the incoming flow was before the current packet, and the bytes of its header if read. */
    ghost var base: Flow
    ghost var header: ByteString

    /** At most one write is outstanding or about to start, and while the socket is open one is exactly when
        something is queued; packets are framed in the order in which they were sent, and the rest wait
        unframed. */
    ghost predicate Valid()
      reads this, coder
    {
      && coder.Valid()
      && !(writing && starting)
      && (writing || starting ==> writeQueue != [])
      && (dropped.No? ==> (writing || starting <==> writeQueue != []))
      && sent == framed + (if writing then writeQueue[1..] else writeQueue)
      && (forall i :: 0 <= i < |sent| ==> CheckPacket(sent[i]).Ok?)
    }

    constructor (c: FrameCoder)
      requires c.Valid()
      ensures Valid() && coder == c && Listening() && sent == [] && received == [] && outbox == [] && framed == []
      ensures awaiting.None? && header == [] && base == c.Ingress()
    {
      coder := c;
      writeQueue, writing, starting, outbox, dropped, stalled := [], false, false, [], No, false;
      awaiting, received := None, [];
      sent, framed, header := [], [], [];
      base := c.Ingress();
    }

    /** `write`: frames the packet at the front, in place, and starts writing it; what is written to a closed
        socket is lost. */
    method Write()
      requires Valid() && starting
      modifies this`writeQueue, this`writing, this`starting, this`outbox, this`framed, coder`encPos, coder`egressMac
      ensures Valid() && writing && framed == old(framed + [writeQueue[0]])
      ensures coder.Egress() == Next(coder.p, coder.Secrets(), old(coder.Egress()), old(writeQueue[0]))
      ensures outbox == old(outbox) +
                if dropped.No? then Sealed(coder.p, coder.Secrets(), old(coder.Egress()), old(writeQueue[0])) else []
    {
      hide Sealed; hide Next; hide Sound; hide VeryStrict;
      framed := framed + [writeQueue[0]];
      var out := coder.WriteSingleFramePacket(writeQueue[0]);
      writeQueue := [out[..]] + writeQueue[1..];
      if dropped.No? {
        outbox := outbox + out[..];
      } else {
        assert outbox + [] == outbox;
      }
      starting, writing := false, true;
    }

    /** `send` up to the end of its guarded section: `checkPacket` throws on a malformed body and is not heeded
        otherwise; the packet is dropped if the socket is closed, and else queued, and whether to start writing is
        decided. */
    method Push(msg: ByteString) returns (r: Result<bool>)
      requires Valid()
      modifies this`writeQueue, this`starting, this`sent
      ensures Valid() && (r.Throw? <==> CheckPacket(msg).Throw?)
      ensures sent == if r.Ok? && dropped.No? then old(sent) + [msg] else old(sent)
      ensures r.Ok? ==> r.value == (dropped.No? && old(writeQueue) == [])
      ensures r == Ok(true) ==> starting
    {
      hide Sound; hide CheckPacket;
      var check := CheckPacket(msg);
      if check.Throw? {
        return Throw(check.error);
      }
      if !dropped.No? {
        return Ok(false);
      }
      writeQueue := writeQueue + [msg];
      sent := sent + [msg];
      var doWrite := |writeQueue| == 1;
      if doWrite {
        starting := true;
      }
      r := Ok(doWrite);
    }

    /** `send`, run without interruption. */
    method Send(msg: ByteString) returns (r: Result<bool>)
      requires Valid()
      modifies this`writeQueue, this`writing, this`starting, this`outbox, this`framed, this`sent
      modifies coder`encPos, coder`egressMac
      ensures Valid() && (r.Throw? <==> CheckPacket(msg).Throw?)
      ensures sent == if r.Ok? && dropped.No? then old(sent) + [msg] else old(sent)
      ensures Egressed(old(framed), old(coder.Egress()), old(outbox))
    {
      hide Sealed; hide Next; hide Sound; hide VeryStrict;
      r := Push(msg);
      if r == Ok(true) {
        Write();
      }
    }

    /** The guarded section of the completion callback of a write that succeeded: the next packet, if there is
        one, is to be written. */
    method Written()
      requires Valid() && writing
      modifies this`writeQueue, this`writing, this`starting
      ensures Valid() && !writing && writeQueue == old(writeQueue[1..]) && (starting <==> writeQueue != [])
    {
      hide Sound; hide VeryStrict;
      writeQueue := writeQueue[1..];
      writing := false;
      starting := writeQueue != [];
    }

    /** At most one more packet was framed, and went out as it should. */
    ghost predicate Egressed(wasFramed: seq<ByteString>, wasFlow: Flow, wasOut: ByteString)
      requires Sound(coder.p)
      reads this, coder
    {
      || (framed == wasFramed && coder.Egress() == wasFlow && outbox == wasOut)
      || (&& |framed| == |wasFramed| + 1 && framed[..|wasFramed|] == wasFramed
          && coder.Egress() == Next(coder.p, coder.Secrets(), wasFlow, framed[|wasFramed|])
          && outbox == wasOut + Sealed(coder.p, coder.Secrets(), wasFlow, framed[|wasFramed|]))
    }

    predicate Listening()
      reads this
    {
      dropped.No? && !stalled
    }

    /** Bytes the pending read waits for. */
    function Wanted(): nat
      reads this
    {
      if awaiting.None? then 32 else awaiting.value + Padding(awaiting.value) + 16
    }

    /** The first half of `doRead`: authenticates a header and takes the frame's length from it. */
    method ReadHeader(data: ByteString)
      requires Valid() && Listening() && awaiting.None? && |data| == 32
      modifies this`dropped, this`awaiting, this`header, coder`decPos, coder`ingressMac
      ensures Valid() && header == data
      ensures var mac := Mixed(coder.p, coder.macEncKey, old(coder.ingressMac), data[..16]);
              var plain := Crypt(coder.p, coder.frameDecKey, old(coder.decPos), data[..16]) + data[16..];
              && (data[16..] != Digest(coder.p, mac) ==> dropped.HeaderFailed? && coder.decPos == old(coder.decPos))
              && (data[16..] == Digest(coder.p, mac) ==>
                    && coder.Ingress() == Flow(mac, old(coder.decPos) + 16)
                    && (ReadInfo(plain).Throw? ==> dropped.InfoFailed?)
                    && (ReadInfo(plain).Ok? ==> dropped.No? && awaiting == Some(ReadInfo(plain).value.length)))
    {
      hide Sound; hide Mixed; hide Digest; hide Crypt; hide ReadInfo; hide VeryStrict;
      header := data;
      var io := new byte[32](i requires 0 <= i < 32 => data[i]);
      assert io[..] == data;
      var ok := coder.AuthAndDecryptHeader(io);
      if !ok {
        dropped := HeaderFailed;
        return;
      }
      var info := ReadInfo(io[..]);
      if info.Throw? {
        dropped := InfoFailed;
        return;
      }
      awaiting := Some(info.value.length);
    }

    /** `disconnect` for a protocol breach: says goodbye and closes the socket. */
    method Disconnect()
      requires Valid() && dropped.No?
      modifies this, coder`encPos, coder`egressMac
      ensures Valid() && dropped.InvalidMessage? && sent == old(sent) + [GOODBYE]
      ensures Egressed(old(framed), old(coder.Egress()), old(outbox))
      ensures received == old(received) && base == old(base) && header == old(header) && awaiting == old(awaiting)
      ensures stalled == old(stalled)
    {
      hide Sound; hide VeryStrict; hide Sealed; hide Next;
      GoodbyeIs();
      var _ := Send(GOODBYE);
      dropped := InvalidMessage;
    }

    /** The second half of `doRead`: authenticates the frame, checks the packet and hands it on, or says goodbye
        and closes. An exception from `checkPacket` or from reading the type leaves the handler, and no further read
        is started. */
    method ReadFrame(data: ByteString)
      requires Valid() && Listening() && awaiting.Some? && |data| == Wanted()
      modifies this, coder
      ensures Valid() && coder.Secrets() == old(coder.Secrets())
      ensures Egressed(old(framed), old(coder.Egress()), old(outbox)) && base == coder.Ingress() && header == []
      ensures var n := |data| - 16;
              var len := old(awaiting.value);
              var mac := AfterFrame(coder.p, coder.macEncKey, old(coder.ingressMac), data[..n]);
              var frame := Crypt(coder.p, coder.frameDecKey, old(coder.decPos), data[..n])[..len];
              && (data[n..] != Digest(coder.p, mac) ==> dropped.FrameFailed?)
              && (data[n..] == Digest(coder.p, mac) ==>
                    && coder.Ingress() == Flow(mac, old(coder.decPos) + n)
                    && (dropped.No? <==> CheckPacket(frame) != Ok(false))
                    && (!dropped.No? ==> dropped.InvalidMessage?)
                    && (Listening() <==> Deliverable(frame)))
              && received == old(received) + (if Listening() then [frame] else [])
      ensures (Listening() ==> awaiting.None?) && (stalled ==> dropped.No?)
      ensures sent == if dropped.InvalidMessage? then old(sent) + [GOODBYE] else old(sent)
    {
      hide Sound; hide AfterFrame; hide Digest; hide Crypt; hide VeryStrict; hide CheckPacket; hide Sealed; hide Next;
      hide ToInt;
      var ok, frame := OpenFrame(data, awaiting.value);
      base, header := coder.Ingress(), [];
      if !ok {
        dropped := FrameFailed;
        return;
      }
      var check := CheckPacket(frame);
      if check.Throw? {
        stalled := true;
      } else if !check.value {
        Disconnect();
      } else {
        CheckedLength(frame);
        TypeRead(frame);
        var packetType := ToInt(frame[..1], 4);
        if packetType.Throw? {
          stalled := true;
        } else {
          received := received + [frame];
          awaiting := None;
        }
      }
    }

    method OpenFrame(data: ByteString, len: nat) returns (ok: bool, frame: ByteString)
      requires coder.Valid() && len + 16 <= |data|
      modifies coder`decPos, coder`ingressMac
      ensures coder.Valid()
      ensures var n := |data| - 16;
              var mac := AfterFrame(coder.p, coder.macEncKey, old(coder.ingressMac), data[..n]);
              && coder.ingressMac == mac && (ok <==> data[n..] == Digest(coder.p, mac))
              && coder.decPos == old(coder.decPos) + (if ok then n else 0)
              && (ok ==> frame == Crypt(coder.p, coder.frameDecKey, old(coder.decPos), data[..n])[..len])
    {
      hide Sound; hide AfterFrame; hide Digest; hide Crypt;
      var io := new byte[|data|](i requires 0 <= i < |data| => data[i]);
      assert io[..] == data;
      ok := coder.AuthAndDecryptFrame(io);
      frame := io[..len];
    }
  }
}
