/** Whole runs of two connected sessions: every frame authenticates and packets arrive as sent. */
module RlpxRuns {
  import opened Options
  import opened Bytes
  import opened Rlp
  import opened Rlpx
  import opened RlpxCoder
  import opened RlpxSession

  // The bytes under way

  /** What the reader has taken of the current packet, and what is still under way, begin the frames of the
      packets not yet read; all of them, as long as nothing can have been lost. */
  ghost predicate UnderWay(p: Primitives, k: Keys, base: Flow, unread: seq<ByteString>,
                           header: ByteString, out: ByteString, all: bool)
    requires Sound(p)
  {
    header + out <= Wire(p, k, base, unread) && (all ==> header + out == Wire(p, k, base, unread))
  }

  lemma Relaxed(p: Primitives, k: Keys, base: Flow, unread: seq<ByteString>, header: ByteString, out: ByteString,
                open: bool, all: bool)
    requires Sound(p) && UnderWay(p, k, base, unread, header, out, open) && (all ==> open)
    ensures UnderWay(p, k, base, unread, header, out, all)
  {
  }

  lemma Extended(p: Primitives, k: Keys, base: Flow, unread: seq<ByteString>, header: ByteString, out: ByteString,
                 open: bool, last: ByteString)
    requires Sound(p) && UnderWay(p, k, base, unread, header, out, open)
    ensures var s := if open then Sealed(p, k, FlowAfter(p, k, base, unread), last) else [];
            UnderWay(p, k, base, unread + [last], header, out + s, open)
    ensures FlowAfter(p, k, base, unread + [last]) == Next(p, k, FlowAfter(p, k, base, unread), last)
  {
    hide Sound; hide Sealed; hide Next; hide Wire; hide FlowAfter;
    OneMore(p, k, base, unread, last);
    var s := if open then Sealed(p, k, FlowAfter(p, k, base, unread), last) else [];
    assert header + (out + s) == header + out + s;
  }

  /** A header's worth of bytes is the header of the next packet. */
  lemma HeaderUnderWay(p: Primitives, k: Keys, base: Flow, unread: seq<ByteString>, out: ByteString, all: bool)
    requires Sound(p) && UnderWay(p, k, base, unread, [], out, all) && |out| >= 32
    ensures unread != [] && out[..32] == SealedHeader(p, k, base, PacketHeader(unread[0]))
    ensures UnderWay(p, k, base, unread, out[..32], out[32..], all)
  {
    hide Sound; hide SealedHeader; hide SealedPayload; hide Next; hide PacketHeader; hide HeaderFlow;
    assert [] + out == out;
    assert out[..32] + out[32..] == out;
    if unread != [] {
      assert out[..32] == Wire(p, k, base, unread)[..32];
    }
  }

  /** The bytes read next are the payload, and what remains is under way from after the packet. */
  lemma PayloadUnderWay(p: Primitives, k: Keys, base: Flow, unread: seq<ByteString>, header: ByteString,
                        out: ByteString, all: bool, n: nat)
    requires Sound(p) && UnderWay(p, k, base, unread, header, out, all) && unread != [] && |header| == 32
    requires n == |unread[0]| + Padding(|unread[0]|) + 16 <= |out|
    ensures out[..n] == SealedPayload(p, k, HeaderFlow(p, k, base, PacketHeader(unread[0])), unread[0])
    ensures UnderWay(p, k, Next(p, k, base, unread[0]), unread[1..], [], out[n..], all)
  {
    hide Sound; hide SealedHeader; hide SealedPayload; hide Next; hide PacketHeader; hide HeaderFlow; hide Padding;
    var next := Next(p, k, base, unread[0]);
    var s := Sealed(p, k, base, unread[0]);
    var w := Wire(p, k, base, unread);
    assert w == s + Wire(p, k, next, unread[1..]);
    var m := |header| + |out|;
    assert header + out == w[..m];
    assert out == w[32..m];
    assert w[32..32 + n] == s[32..];
    assert out[..n] == w[32..32 + n];
    assert out[n..] == w[32 + n..m];
    assert w[32 + n..] == Wire(p, k, next, unread[1..]);
    assert w[32 + n..m] == w[32 + n..][..m - 32 - n];
    assert [] + out[n..] == out[n..];
  }

  /** As long as nothing is lost, bytes under way are enough for the pending read. */
  lemma NeverShort(p: Primitives, k: Keys, base: Flow, unread: seq<ByteString>, header: ByteString, out: ByteString)
    requires Sound(p) && UnderWay(p, k, base, unread, header, out, true) && out != []
    requires header == [] || (|header| == 32 && unread != [])
    ensures unread != []
    ensures |out| >= if header == [] then 32 else |unread[0]| + Padding(|unread[0]|) + 16
  {
    hide Sound; hide Sealed; hide Next; hide Padding;
    if unread != [] {
      assert |Wire(p, k, base, unread)| >= |Sealed(p, k, base, unread[0])|;
    }
  }

  // Two sessions

  /** None of the failures that only a broken connection could cause. */
  predicate Sane(d: Drop) {
    d.No? || d.Closed? || d.InvalidMessage?
  }

  /** A reader: where it stands in the flow, and what it has taken. */
  datatype Reader = Reader(base: Flow, header: ByteString, awaiting: Option<nat>, ingress: Flow,
                           received: seq<ByteString>)

  /** The reader stands between two of the packets framed, or after the header of one. */
  ghost predicate InStep(p: Primitives, k: Keys, r: Reader, framed: seq<ByteString>, egress: Flow,
                         out: ByteString, all: bool)
    requires Sound(p)
  {
    && r.received <= framed
    && var unread := framed[|r.received|..];
    && FlowAfter(p, k, r.base, unread) == egress
    && UnderWay(p, k, r.base, unread, r.header, out, all)
    && (r.awaiting.None? ==> r.header == [] && r.ingress == r.base)
    && (r.awaiting.Some? ==>
          && unread != [] && |r.header| == 32 && r.awaiting.value == |unread[0]|
          && r.ingress == HeaderFlow(p, k, r.base, PacketHeader(unread[0])))
  }

  ghost function Reading(r: Session): Reader
    reads r, r.coder
  {
    Reader(r.base, r.header, r.awaiting, r.coder.Ingress(), r.received)
  }

  ghost predicate Following(w: Session, r: Session)
    requires Sound(w.coder.p)
    reads w, r, w.coder, r.coder
  {
    InStep(w.coder.p, w.coder.Secrets(), Reading(r), w.framed, w.coder.Egress(), w.outbox, w.dropped.No?)
  }

  /** Well formed, but of type zero. */
  predicate Unreadable(packet: ByteString) {
    CheckPacket(packet) == Ok(true) && !Deliverable(packet)
  }

  ghost predicate Link(w: Session, r: Session)
    requires Sound(w.coder.p)
    reads w, r, w.coder, r.coder
  {
    && w.coder.p == r.coder.p && w.coder.Secrets() == r.coder.Secrets()
    && r.received <= w.framed && Sane(r.dropped)
    && (r.dropped.InvalidMessage? ==>
          |r.received| < |w.framed| && CheckPacket(w.framed[|r.received|]) == Ok(false))
    && (r.stalled ==> |r.received| < |w.framed| && Unreadable(w.framed[|r.received|]))
    && (forall i :: 0 <= i < |r.received| ==> Deliverable(r.received[i]))
    && (r.Listening() ==> Following(w, r))
  }

  ghost predicate Connected(a: Session, b: Session)
    reads a, b, a.coder, b.coder
  {
    a != b && a.coder != b.coder && a.Valid() && b.Valid() && Brief(a.sent) && Brief(b.sent) && Link(a, b) && Link(b, a)
  }

  /** Only packets whose length the header can carry were sent. */
  ghost predicate Brief(packets: seq<ByteString>) {
    forall i :: 0 <= i < |packets| ==> |packets[i]| < TOO_LONG
  }

  lemma BriefSnoc(packets: seq<ByteString>, last: ByteString)
    requires Brief(packets) && |last| < TOO_LONG
    ensures Brief(packets + [last])
  {
  }

  /** Framing at most one more packet keeps the reader in step, whether its bytes go out or are lost. */
  lemma StillInStep(p: Primitives, k: Keys, r: Reader, framed: seq<ByteString>, egress: Flow, out: ByteString,
                    open: bool, framed': seq<ByteString>, egress': Flow, out': ByteString, all: bool)
    requires Sound(p) && InStep(p, k, r, framed, egress, out, open) && (all ==> open)
    requires framed' == framed ==> egress' == egress && out' == out
    requires framed' != framed ==>
               && |framed'| == |framed| + 1 && framed'[..|framed|] == framed
               && egress' == Next(p, k, egress, framed'[|framed|])
               && out' == out + if open then Sealed(p, k, egress, framed'[|framed|]) else []
    ensures InStep(p, k, r, framed', egress', out', all)
  {
    hide Sound; hide Sealed; hide Next; hide UnderWay; hide FlowAfter; hide HeaderFlow; hide PacketHeader;
    var unread := framed[|r.received|..];
    if framed' != framed {
      var packet := framed'[|framed|];
      Extended(p, k, r.base, unread, r.header, out, open, packet);
      assert framed'[|r.received|..] == unread + [packet];
    }
    Relaxed(p, k, r.base, framed'[|r.received|..], r.header, out', open, all);
  }

  method ActSend(me: Session, peer: Session, msg: ByteString)
    requires Connected(me, peer) && |msg| < TOO_LONG
    modifies me, me.coder
    ensures Connected(me, peer) && me.dropped == old(me.dropped)
    ensures me.sent == if CheckPacket(msg).Ok? && me.dropped.No? then old(me.sent) + [msg] else old(me.sent)
  {
    hide Sound; hide InStep; hide VeryStrict; hide CheckPacket; hide Brief;
    BriefSnoc(me.sent, msg);
    var _ := me.Push(msg);
  }

  method ActWrite(me: Session, peer: Session)
    requires Connected(me, peer) && me.starting
    modifies me, me.coder
    ensures Connected(me, peer) && me.dropped == old(me.dropped) && me.sent == old(me.sent)
  {
    hide Sound; hide Sealed; hide Next; hide InStep; hide VeryStrict; hide CheckPacket; hide HeaderFlow; hide Brief;
    ghost var framed, out, flow := me.framed, me.outbox, me.coder.Egress();
    me.Write();
    if peer.Listening() {
      StillInStep(me.coder.p, me.coder.Secrets(), Reading(peer), framed, flow, out, me.dropped.No?,
                  me.framed, me.coder.Egress(), me.outbox, me.dropped.No?);
    }
  }

  method ActWritten(me: Session, peer: Session)
    requires Connected(me, peer) && me.writing
    modifies me, me.coder
    ensures Connected(me, peer) && me.dropped == old(me.dropped) && me.sent == old(me.sent)
  {
    hide Sound; hide InStep; hide VeryStrict; hide CheckPacket; hide Brief;
    me.Written();
  }

  /** The reader takes a header: it authenticates, and gives the length of the next packet. */
  method ActReadHeader(me: Session, peer: Session)
    requires Connected(me, peer) && me.Listening() && me.awaiting.None? && |peer.outbox| >= 32
    modifies me, me.coder, peer`outbox
    ensures Connected(me, peer) && me.Listening() && me.sent == old(me.sent) && me.received == old(me.received)
  {
    hide Sound; hide Sealed; hide Next; hide UnderWay; hide FlowAfter; hide VeryStrict; hide CheckPacket; hide HeaderBlock;
    hide HeaderFlow; hide SealedHeader; hide Mixed; hide Digest; hide Crypt; hide ReadInfo;
    ghost var p, k := me.coder.p, me.coder.Secrets();
    ghost var packet := HeaderFound(me, peer);
    var data := peer.outbox[..32];
    peer.outbox := peer.outbox[32..];
    HeaderReadAs(p, k, me.base, packet, data);
    me.ReadHeader(data);
  }

  lemma HeaderFound(me: Session, peer: Session) returns (packet: ByteString)
    requires Connected(me, peer) && me.Listening() && me.awaiting.None? && |peer.outbox| >= 32
    ensures |me.received| < |peer.framed| && packet == peer.framed[|me.received|] && |packet| < TOO_LONG
    ensures peer.outbox[..32] == SealedHeader(me.coder.p, me.coder.Secrets(), me.base, PacketHeader(packet))
    ensures UnderWay(me.coder.p, me.coder.Secrets(), me.base, peer.framed[|me.received|..],
                     peer.outbox[..32], peer.outbox[32..], peer.dropped.No?)
  {
    hide Sound; hide Sealed; hide Next; hide UnderWay; hide FlowAfter; hide VeryStrict; hide CheckPacket;
    hide HeaderFlow; hide SealedHeader;
    HeaderUnderWay(me.coder.p, me.coder.Secrets(), me.base, peer.framed[|me.received|..], peer.outbox, peer.dropped.No?);
    packet := peer.framed[|me.received|];
    assert packet == peer.sent[|me.received|];
  }

  /** A packet's sealed header authenticates from the same flow and gives the packet's length. */
  lemma HeaderReadAs(p: Primitives, k: Keys, f: Flow, packet: ByteString, data: ByteString)
    requires Sound(p) && data == SealedHeader(p, k, f, PacketHeader(packet)) && |packet| < TOO_LONG
    ensures var mac := Mixed(p, k.mac, f.mac, data[..16]);
            && data[16..] == Digest(p, mac)
            && Flow(mac, f.pos + 16) == HeaderFlow(p, k, f, PacketHeader(packet))
    ensures var info := ReadInfo(Crypt(p, k.aes, f.pos, data[..16]) + data[16..]);
            info.Ok? && info.value.length == |packet|
  {
    hide Sound; hide Mixed; hide Digest; hide Crypt; hide ReadInfo; hide HeaderBlock; hide Padding;
    HeaderOpens(p, k, f, PacketHeader(packet), data);
    LengthKept(packet, data[16..]);
  }

  /** A packet's sealed payload authenticates from the flow after its header and gives the packet. */
  lemma FrameReadAs(p: Primitives, k: Keys, f: Flow, packet: ByteString, data: ByteString, n: nat)
    requires Sound(p) && n == |packet| + Padding(|packet|) && |data| == n + 16
    requires data == SealedPayload(p, k, HeaderFlow(p, k, f, PacketHeader(packet)), packet)
    ensures var g := HeaderFlow(p, k, f, PacketHeader(packet));
            var mac := AfterFrame(p, k.mac, g.mac, data[..n]);
            && data[n..] == Digest(p, mac)
            && Flow(mac, g.pos + n) == Next(p, k, f, packet)
            && Crypt(p, k.aes, g.pos, data[..n])[..|packet|] == packet
  {
    hide Sound; hide AfterFrame; hide Digest; hide Crypt; hide HeaderFlow; hide Padding; hide SealedPayload; hide PayloadFlow;
    PayloadOpens(p, k, HeaderFlow(p, k, f, PacketHeader(packet)), packet, data, n);
    NextIs(p, k, f, packet, n);
  }

  lemma NextIs(p: Primitives, k: Keys, f: Flow, packet: ByteString, n: nat)
    requires Sound(p) && n == |packet| + Padding(|packet|)
    ensures Next(p, k, f, packet) == PayloadFlow(p, k, HeaderFlow(p, k, f, PacketHeader(packet)), packet)
  {
  }

  lemma PayloadFound(me: Session, peer: Session) returns (packet: ByteString)
    requires Connected(me, peer) && me.Listening() && me.awaiting.Some? && |peer.outbox| >= me.Wanted()
    ensures |me.received| < |peer.framed| && packet == peer.framed[|me.received|] && me.awaiting == Some(|packet|)
    ensures CheckPacket(packet).Ok?
    ensures var p, k, n := me.coder.p, me.coder.Secrets(), me.Wanted();
            && me.coder.Ingress() == HeaderFlow(p, k, me.base, PacketHeader(packet))
            && peer.outbox[..n] == SealedPayload(p, k, HeaderFlow(p, k, me.base, PacketHeader(packet)), packet)
            && var next := Next(p, k, me.base, packet);
            && InStep(p, k, Reader(next, [], None, next, me.received + [packet]), peer.framed, peer.coder.Egress(),
                      peer.outbox[n..], peer.dropped.No?)
  {
    hide Sound; hide Sealed; hide Next; hide UnderWay; hide VeryStrict; hide CheckPacket; hide Padding;
    hide HeaderFlow; hide SealedPayload;
    var unread := peer.framed[|me.received|..];
    packet := unread[0];
    assert packet == peer.sent[|me.received|];
    PayloadUnderWay(me.coder.p, me.coder.Secrets(), me.base, unread, me.header, peer.outbox, peer.dropped.No?, me.Wanted());
    assert unread[1..] == peer.framed[|me.received| + 1..];
    assert me.received + [packet] == peer.framed[..|me.received| + 1];
  }

  /** The frame read is the packet sent, and the reader ends up after it. */
  method TakeFrame(me: Session, peer: Session, ghost packet: ByteString)
    requires Connected(me, peer) && me.Listening() && me.awaiting == Some(|packet|) && |peer.outbox| >= me.Wanted()
    requires CheckPacket(packet).Ok?
    requires me.coder.Ingress() == HeaderFlow(me.coder.p, me.coder.Secrets(), me.base, PacketHeader(packet))
    requires peer.outbox[..me.Wanted()] ==
             SealedPayload(me.coder.p, me.coder.Secrets(), me.coder.Ingress(), packet)
    modifies me, me.coder, peer`outbox
    ensures me.Valid() && me.coder.Secrets() == old(me.coder.Secrets())
    ensures peer.outbox == old(peer.outbox[me.Wanted()..])
    ensures me.Egressed(old(me.framed), old(me.coder.Egress()), old(me.outbox))
    ensures CheckPacket(packet).Ok?
    ensures me.Listening() <==> Deliverable(packet)
    ensures me.Listening() ==>
              && me.awaiting.None? && me.header == [] && me.received == old(me.received) + [packet]
              && me.coder.Ingress() == me.base == Next(me.coder.p, me.coder.Secrets(), old(me.base), packet)
    ensures !me.Listening() ==> me.received == old(me.received)
    ensures me.stalled <==> Unreadable(packet)
    ensures if CheckPacket(packet).value then me.dropped.No? else me.dropped.InvalidMessage?
    ensures me.sent == if me.dropped.No? then old(me.sent) else old(me.sent) + [GOODBYE]
  {
    hide Sound; hide Sealed; hide Next; hide VeryStrict; hide CheckPacket; hide Padding; hide Link;
    hide HeaderFlow; hide SealedPayload; hide Digest; hide Crypt; hide AfterFrame;
    var n := me.Wanted();
    var data := peer.outbox[..n];
    peer.outbox := peer.outbox[n..];
    FrameReadAs(me.coder.p, me.coder.Secrets(), me.base, packet, data, n - 16);
    CheckedAs(packet);
    me.ReadFrame(data);
  }

  /** The reader takes a frame: it authenticates and is the packet sent; it is handed on unless it is
      invalid, and then the connection is closed. */
  method ActReadFrame(me: Session, peer: Session)
    requires Connected(me, peer) && me.Listening() && me.awaiting.Some? && |peer.outbox| >= me.Wanted()
    modifies me, me.coder, peer`outbox
    ensures Connected(me, peer) && |old(me.received)| < |peer.framed|
    ensures var packet := peer.framed[|old(me.received)|];
            && (Deliverable(packet) ==> me.Listening() && me.received == old(me.received) + [packet])
            && (!Deliverable(packet) ==> me.received == old(me.received))
            && (Unreadable(packet) ==> me.dropped.No? && me.stalled)
            && (CheckPacket(packet) != Ok(true) ==> me.dropped.InvalidMessage?)
    ensures me.sent == if me.dropped.No? then old(me.sent) else old(me.sent) + [GOODBYE]
  {
    hide Sound; hide Sealed; hide Next; hide InStep; hide VeryStrict; hide CheckPacket; hide Padding;
    hide HeaderFlow; hide SealedPayload;
    ghost var packet := PayloadFound(me, peer);
    hide Brief;
    ghost var framed, out, flow := me.framed, me.outbox, me.coder.Egress();
    BriefSnoc(me.sent, GOODBYE);
    TakeFrame(me, peer, packet);
    if peer.Listening() {
      StillInStep(me.coder.p, me.coder.Secrets(), Reading(peer), framed, flow, out, true,
                  me.framed, me.coder.Egress(), me.outbox, me.dropped.No?);
    }
  }

  // Runs

  /** What can happen to a session, in threads that interleave between guarded sections: a packet is queued, a
      write that was decided on starts, a write ends, the session is dropped (an error on the socket, the host,
      or what a packet asked for), bytes that were under way when it closed are lost, and bytes arrive. */
  datatype Event = Send(msg: ByteString) | Write | Written | Close | Lose(count: nat) | Read

  datatype Move = Move(byA: bool, event: Event)

  predicate Sendable(moves: seq<Move>) {
    forall i :: 0 <= i < |moves| ==> (moves[i].event.Send? ==> |moves[i].event.msg| < TOO_LONG)
  }

  /** The well-formed packets one side is asked to send. */
  function Messages(moves: seq<Move>, byA: bool): seq<ByteString> {
    if moves == [] then []
    else
      var m := moves[|moves| - 1];
      Messages(moves[..|moves| - 1], byA) + if m.byA == byA then Said(m.event) else []
  }

  function Said(e: Event): seq<ByteString> {
    if e.Send? && CheckPacket(e.msg).Ok? then [e.msg] else []
  }

  /** One event at one of the sessions. A write can end only where one is outstanding, and a read completes
      only once all its bytes have arrived. */
  method Act(me: Session, peer: Session, e: Event)
    requires Connected(me, peer) && (e.Send? ==> |e.msg| < TOO_LONG)
    modifies me, me.coder, peer`outbox
    ensures Connected(me, peer)
    ensures me.dropped.No? ==> old(me.dropped.No?) && me.sent == old(me.sent) + Said(e)
  {
    hide Sound; hide InStep; hide VeryStrict; hide CheckPacket; hide Padding;
    match e {
      case Send(msg) =>
        ActSend(me, peer, msg);
      case Write =>
        if me.starting {
          ActWrite(me, peer);
        }
      case Written =>
        if me.writing {
          ActWritten(me, peer);
        }
      case Close =>
        if me.dropped.No? {
          ActClose(me, peer);
        }
      case Lose(count) =>
        if !me.dropped.No? && count <= |me.outbox| {
          ActLose(me, peer, count);
        }
      case Read =>
        if me.Listening() && |peer.outbox| >= me.Wanted() {
          if me.awaiting.None? {
            ActReadHeader(me, peer);
          } else {
            ActReadFrame(me, peer);
          }
        }
    }
  }

  method ActClose(me: Session, peer: Session)
    requires Connected(me, peer) && me.dropped.No?
    modifies me`dropped
    ensures Connected(me, peer) && me.dropped.Closed?
  {
    hide Sound; hide VeryStrict; hide CheckPacket; hide HeaderFlow; hide FlowAfter; hide Wire;
    me.dropped := Closed;
  }

  method ActLose(me: Session, peer: Session, count: nat)
    requires Connected(me, peer) && !me.dropped.No? && count <= |me.outbox|
    modifies me`outbox
    ensures Connected(me, peer)
  {
    hide Sound; hide VeryStrict; hide CheckPacket; hide HeaderFlow; hide FlowAfter; hide Wire;
    var out := me.outbox;
    me.outbox := out[..|out| - count];
    assert peer.header + me.outbox == (peer.header + out)[..|peer.header| + |out| - count];
  }

  lemma FreshInStep(p: Primitives, k: Keys, f: Flow)
    requires Sound(p)
    ensures InStep(p, k, Reader(f, [], None, f, []), [], f, [], true)
  {
  }

  lemma AgreeTogether(p: Primitives, s: Side)
    ensures SideKeys(p, s).Some? <==> p.agree(s.secret, s.remoteEphemeral).Some?
  {
  }

  /** Two coders set up from the two sides of one handshake, and sessions over them, are connected; or both
      set-ups fail. */
  method Connect(p: Primitives, sideA: Side, sideB: Side, ack: ByteString, auth: ByteString)
    returns (ok: bool, a: Session?, b: Session?)
    requires Sound(p) && Mirrored(p, sideA, sideB)
    ensures ok <==> p.agree(sideA.secret, sideA.remoteEphemeral).Some?
    ensures ok <==> a != null && b != null
    ensures ok ==> fresh(a) && fresh(b) && fresh(a.coder) && fresh(b.coder) && Connected(a, b)
    ensures ok ==> a.sent == b.sent == a.received == b.received == [] && a.Listening() && b.Listening()
  {
    hide Derive; hide XorAll; hide Sound; hide InStep; hide StartEgress; hide StartIngress; hide SideKeys; hide VeryStrict;
    SidesAgree(p, sideA, sideB, ack, auth);
    AgreeTogether(p, sideA);
    var coderA := new FrameCoder(p);
    var coderB := new FrameCoder(p);
    var okA := coderA.Setup(sideA, ack, auth);
    var okB := coderB.Setup(sideB, ack, auth);
    if !okA {
      return false, null, null;
    }
    a := new Session(coderA);
    b := new Session(coderB);
    ok := true;
    FreshInStep(p, coderA.Secrets(), coderA.Egress());
    FreshInStep(p, coderA.Secrets(), coderB.Egress());
  }

  /** What holds after any run. */
  ghost predicate Delivered(w: Session, r: Session)
    reads w, r
  {
    // what arrived is what was sent, in order
    && r.received <= w.sent
    // nothing ever fails to authenticate or to parse, and a reader leaves only for an invalid packet
    && Sane(r.dropped)
    && (r.dropped.InvalidMessage? ==> |r.received| < |w.sent| && CheckPacket(w.sent[|r.received|]) == Ok(false))
    // it stops reading only at a packet of type zero, and what it hands on is neither
    && (r.stalled ==> |r.received| < |w.sent| && Unreadable(w.sent[|r.received|]))
    && (forall i :: 0 <= i < |r.received| ==> Deliverable(r.received[i]))
    // while the one is open and the other reads, the reader is never short of bytes, and once all is written and
    // read, all has arrived
    && (w.dropped.No? && r.Listening() ==>
          && (w.outbox != [] ==> |w.outbox| >= r.Wanted())
          && (w.writeQueue == [] && w.outbox == [] && r.awaiting.None? ==> r.received == w.sent))
  }

  lemma LinkDelivers(w: Session, r: Session)
    requires Connected(w, r) || Connected(r, w)
    ensures Delivered(w, r)
  {
    hide Sound; hide VeryStrict; hide CheckPacket; hide HeaderFlow; hide FlowAfter; hide Padding; hide Wire;
    if w.dropped.No? && r.Listening() {
      var unread := w.framed[|r.received|..];
      if w.outbox != [] {
        NeverShort(w.coder.p, w.coder.Secrets(), r.base, unread, r.header, w.outbox);
      } else if r.awaiting.None? {
        assert r.header + w.outbox == [];
        NothingUnderWay(w.coder.p, w.coder.Secrets(), r.base, unread);
      }
    }
  }

  lemma NothingUnderWay(p: Primitives, k: Keys, base: Flow, unread: seq<ByteString>)
    requires Sound(p) && Wire(p, k, base, unread) == []
    ensures unread == []
  {
    hide Sound; hide Next; hide Padding; hide Sealed;
  }

  /** One event at either session. */
  method Play(a: Session, b: Session, m: Move)
    requires Connected(a, b) && (m.event.Send? ==> |m.event.msg| < TOO_LONG)
    modifies a, b, a.coder, b.coder
    ensures Connected(a, b)
    ensures a.dropped.No? ==> old(a.dropped.No?) && a.sent == old(a.sent) + if m.byA then Said(m.event) else []
    ensures b.dropped.No? ==> old(b.dropped.No?) && b.sent == old(b.sent) + if m.byA then [] else Said(m.event)
  {
    assert a != b && a.coder != b.coder;
    hide Connected; hide Said;
    if m.byA {
      Act(a, b, m.event);
    } else {
      Turned(a, b);
      Act(b, a, m.event);
      Turned(b, a);
    }
  }

  /** Any run of events on two connected sessions. */
  method Run(a: Session, b: Session, moves: seq<Move>)
    requires Connected(a, b) && a.sent == b.sent == [] && Sendable(moves)
    modifies a, b, a.coder, b.coder
    ensures Connected(a, b) && Delivered(a, b) && Delivered(b, a)
    ensures a.dropped.No? ==> a.sent == Messages(moves, true)
    ensures b.dropped.No? ==> b.sent == Messages(moves, false)
  {
    hide Connected; hide Delivered; hide Messages; hide Said;
    NoMessages(moves[..0]);
    for i := 0 to |moves|
      invariant Connected(a, b)
      invariant a.dropped.No? ==> a.sent == Messages(moves[..i], true)
      invariant b.dropped.No? ==> b.sent == Messages(moves[..i], false)
    {
      MessagesNext(moves, i, moves[..i], moves[..i + 1], true);
      MessagesNext(moves, i, moves[..i], moves[..i + 1], false);
      Play(a, b, moves[i]);
    }
    assert moves[..|moves|] == moves;
    LinkDelivers(a, b);
    LinkDelivers(b, a);
  }

  lemma NoMessages(moves: seq<Move>)
    requires moves == []
    ensures Messages(moves, true) == Messages(moves, false) == []
  {
  }

  lemma MessagesNext(moves: seq<Move>, i: nat, before: seq<Move>, after: seq<Move>, byA: bool)
    requires i < |moves| && before == moves[..i] && after == moves[..i + 1]
    ensures Messages(after, byA) == Messages(before, byA) + if moves[i].byA == byA then Said(moves[i].event) else []
  {
    hide VeryStrict;
    assert after[..i] == before;
  }

  lemma Turned(a: Session, b: Session)
    requires Connected(a, b)
    ensures Connected(b, a)
  {
    hide InStep; hide Sound; hide CheckPacket; hide VeryStrict;
  }
}
