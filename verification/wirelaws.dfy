/** Everything a host puts on the wire, told from the bytes: how many frames, to whom, and what is in them. */
module WireLaws {
  import opened Words
  import opened Frames
  import opened FrameLayout
  import opened ArpCache
  import opened HostSpec
  import opened HostLaws
  import Checksum
  import RouteSpec

  // ---------- one event ----------

  /** `p` for `next`, to the hardware address the cache has. */
  ghost predicate SentOn(h: Host, next: IPv4Addr, p: seq<byte>, f: seq<byte>) {
    && SentBy(f, h.mac) && CarriesIp(f, p)
    && (next == h.broadcast || Lookup(h.cache, next) < |h.cache|)
    && f[0..6] == if next == h.broadcast then EVERYONE else Mac(h.cache[Lookup(h.cache, next)].ha)
  }

  /** A question to everyone who has `next`, which the cache does not know. */
  ghost predicate AsksFor(h: Host, next: IPv4Addr, f: seq<byte>) {
    && SentBy(f, h.mac) && f[0..6] == EVERYONE && CarriesArp(f, 1, h.mac, h.ip, NULL_ETH, next)
    && next != h.broadcast && Lookup(h.cache, next) == |h.cache|
  }

  /** The answer to the question `a`. */
  ghost predicate Answers(h: Host, a: Arp, f: seq<byte>) {
    SentBy(f, h.mac) && f[0..6] == Mac(a.sha) && CarriesArp(f, 2, h.mac, h.ip, a.sha, a.spa)
  }

  lemma EveryoneIs()
    ensures Mac(BROADCAST_ETH) == EVERYONE
  {}

  lemma RequestFrames(h: Host, next: IPv4Addr, p: seq<byte>)
    requires Lookup(h.cache, next) == |h.cache|
    ensures Request(h, next, p).frames ==
            if Lookup(h.cache, NULL_IP) < |h.cache| then [ArpFrame(h, OP_REQUEST, BROADCAST_ETH, next)] else []
  {
    AddedIsFound(h.cache, NULL_ETH, next);
    hide ArpFrame, Lookup;
  }

  /** A packet to be sent makes one frame, the packet or a question, or none if the cache is full. */
  lemma SendFrames(h: Host, next: IPv4Addr, p: seq<byte>)
    ensures var fs := SendIp(h, next, p).frames;
      && |fs| == (if NoRoom(h, next) then 0 else 1)
      && (fs != [] ==> if next == h.broadcast || Lookup(h.cache, next) < |h.cache| then SentOn(h, next, p, fs[0])
                       else AsksFor(h, next, fs[0]))
  {
    var k := Lookup(h.cache, next);
    EveryoneIs();
    if next == h.broadcast {
      IpFrameBytes(h, BROADCAST_ETH, p);
    } else if k < |h.cache| {
      IpFrameBytes(h, h.cache[k].ha, p);
    } else {
      RequestFrames(h, next, p);
      RequestBytes(h, next);
    }
    hide Request, EthFrame, ArpFrame, Lookup, CarriesIp, CarriesArp, SentBy, Mac;
  }

  /** Whatever is not ARP: nothing is sent unless a packet is to be sent. */
  lemma PacketEvent(h: Host, e: Event)
    requires ArpIn(e).None?
    ensures Asked(h.routes, e).None? ==> Step(h, e).frames == []
    ensures Asked(h.routes, e).Some? ==>
              var next, fs := Asked(h.routes, e).value, Step(h, e).frames;
              && |fs| == (if NoRoom(h, next) then 0 else 1)
              && (fs != [] ==> if next == h.broadcast || Lookup(h.cache, next) < |h.cache| then SentOn(h, next, PacketOf(h, e), fs[0])
                               else AsksFor(h, next, fs[0]))
  {
    hide *;
    StepAsks(h, e);
    if Asked(h.routes, e).Some? {
      SendFrames(h, Asked(h.routes, e).value, PacketOf(h, e));
    }
  }

  /** A packet waits for the sender of `a`. */
  predicate Awaited(h: Host, a: Arp) {
    var k := Lookup(h.cache, a.spa);
    k < |h.cache| && h.cache[k].pkt.Some?
  }

  lemma LearnFrames(h: Host, a: Arp)
    ensures Learn(h, a).host.mac == h.mac && Learn(h, a).host.ip == h.ip
    ensures var fs := Learn(h, a).frames;
      && |fs| == One(Awaited(h, a))
      && (Awaited(h, a) ==>
            && SentBy(fs[0], h.mac) && CarriesIp(fs[0], h.cache[Lookup(h.cache, a.spa)].pkt.value)
            && fs[0][0..6] == if a.spa == h.broadcast then EVERYONE else Mac(a.sha))
  {
    EveryoneIs();
    if Awaited(h, a) {
      IpFrameBytes(h, if a.spa == h.broadcast then BROADCAST_ETH else a.sha, h.cache[Lookup(h.cache, a.spa)].pkt.value);
    }
    hide EthFrame, Lookup, CarriesIp, SentBy, Mac;
  }

  lemma AnswerFrames(h: Host, a: Arp, merge: bool)
    ensures var fs := Answer(h, a, merge).frames;
      && |fs| == One(a.op == 1 && a.tpa == h.ip)
      && (a.op == 1 && a.tpa == h.ip ==> Answers(h, a, fs[0]))
  {
    ReplyBytes(h, a.sha, a.spa);
    hide ArpFrame, CarriesArp, SentBy, Mac, Add;
  }

  lemma SameAnswer(h: Host, g: Host, a: Arp)
    requires g.mac == h.mac && g.ip == h.ip
    ensures forall f: seq<byte> :: Answers(g, a, f) <==> Answers(h, a, f)
  {}

  /**
   An ARP packet: the packet that waited for its sender goes out, to that sender; then the answer, if
   and only if it asks for this host's address; nothing else.
   */
  lemma ArpEvent(h: Host, e: Event, a: Arp)
    requires ArpIn(e) == Some(a)
    ensures var fs := Step(h, e).frames;
      && |fs| == One(Awaited(h, a)) + One(a.op == 1 && a.tpa == h.ip)
      && (Awaited(h, a) ==>
            && SentBy(fs[0], h.mac) && CarriesIp(fs[0], h.cache[Lookup(h.cache, a.spa)].pkt.value)
            && fs[0][0..6] == if a.spa == h.broadcast then EVERYONE else Mac(a.sha))
      && (a.op == 1 && a.tpa == h.ip ==> Answers(h, a, fs[|fs| - 1]))
  {
    var first := Learn(h, a);
    ArpStep(h, e);
    LearnFrames(h, a);
    AnswerFrames(first.host, a, Lookup(h.cache, a.spa) < |h.cache|);
    SameAnswer(h, first.host, a);
    hide Step, Learn, Answer, Lookup, Answers, CarriesIp, SentBy, Mac, ArpIn;
  }

  // ---------- whole traces ----------

  lemma PacketSource(h: Host, e: Event)
    requires ArpIn(e).None?
    ensures forall f :: f in Step(h, e).frames ==> SentBy(f, h.mac)
  {
    PacketEvent(h, e);
    hide Step, ArpIn, Asked, NoRoom, SentBy, CarriesIp, CarriesArp, Lookup, PacketOf, Mac;
  }

  lemma ArpSource(h: Host, e: Event)
    requires ArpIn(e).Some?
    ensures forall f :: f in Step(h, e).frames ==> SentBy(f, h.mac)
  {
    var a := ArpIn(e).value;
    ArpEvent(h, e, a);
    var fs := Step(h, e).frames;
    hide Step, ArpIn, SentBy, CarriesIp, CarriesArp, Lookup, Awaited, Mac;
    forall i | 0 <= i < |fs|
      ensures SentBy(fs[i], h.mac)
    {
      if !(i == 0 && Awaited(h, a)) {
        assert i == |fs| - 1;
      }
    }
  }

  lemma StepSource(h: Host, e: Event)
    ensures forall f :: f in Step(h, e).frames ==> SentBy(f, h.mac)
  {
    hide *;
    if ArpIn(e).Some? {
      ArpSource(h, e);
    } else {
      PacketSource(h, e);
    }
  }

  /** Every frame a host ever sends carries its own hardware address as the source. */
  lemma {:induction false} EveryFrameIsSigned(h: Host, events: seq<Event>)
    requires Valid(h)
    ensures forall f :: f in Run(h, events).frames ==> SentBy(f, h.mac)
    decreases |events|
  {
    hide Step, Valid, View, TableStep, SetupOf, SentBy;
    if events != [] {
      StepRefines(h, events[0]);
      StepSource(h, events[0]);
      EveryFrameIsSigned(Step(h, events[0]).host, events[1..]);
      RunFirst(h, events);
    }
  }

  // ---------- packets ----------

  /** The bytes of an IPv4 packet that is a ping: complete, version 4, first fragment, protocol 1, type 8. */
  predicate IsPing(p: seq<byte>) {
    && |p| >= 20 && 0x40 <= p[0] < 0x50 && p[6] % 0x20 == 0 && p[7] == 0 && p[9] == 1
    && 4 * (p[0] as int - 0x40) + 8 <= 256 * (p[2] as int) + p[3] <= |p|
    && p[4 * (p[0] as int - 0x40)] == 8
  }

  lemma PingIsEcho(p: seq<byte>)
    ensures IsPing(p) <==> Delivered(p) != [] && EchoDecode(Delivered(p)[0].1).Some?
    ensures IsPing(p) ==> Delivered(p)[0].0.src == IPv4Addr(p[12], p[13], p[14], p[15])
  {
    DeliveredIff(p);
    if Delivered(p) != [] {
      EchoDecodeIff(Delivered(p)[0].1);
      var src := Delivered(p)[0].0.src;
      assert Ip4(src)[0] == p[12] && Ip4(src)[1] == p[13] && Ip4(src)[2] == p[14] && Ip4(src)[3] == p[15];
    }
    hide Delivered, EchoDecode;
  }

  lemma UpcallsOf(frame: seq<byte>)
    ensures Upcalls(frame) ==
            match EthDecode(frame)
            case Some(ep) => if ep.etherType == 0x0800 then Delivered(frame[ep.hdrLen..]) else []
            case None => []
  {
    hide EthDecode, Delivered;
  }

  /** An arriving frame makes the host send a packet exactly if it holds a ping to whose sender there is a route. */
  lemma OnlyPingsAreAnswered(routes: seq<RouteSpec.Route>, frame: seq<byte>, stale: byte)
    ensures Asked(routes, Arrive(frame, stale)) ==
            match EthDecode(frame)
            case None => None
            case Some(ep) =>
              var p := frame[ep.hdrLen..];
              if ep.etherType == 0x0800 && IsPing(p) then RouteSpec.NextHop(routes, IPv4Addr(p[12], p[13], p[14], p[15])) else None
  {
    UpcallsOf(frame);
    if EthDecode(frame).Some? {
      PingIsEcho(frame[EthDecode(frame).value.hdrLen..]);
    }
    hide EthDecode, Delivered, EchoDecode, Upcalls, IsPing, RouteSpec.NextHop;
  }

  lemma SendPacketIs(h: Host, dst: IPv4Addr, protocol: byte, payload: seq<byte>, len: uint16)
    requires len == (IPV4_HEADER + |payload|) % TWO_16
    ensures SendPacket(h, dst, protocol, payload) ==
            match RouteSpec.NextHop(h.routes, dst)
            case Some(next) => SendIp(h, next, IpHeader(len, protocol, h.ip, dst) + payload)
            case None => HostSpec.Result(h, [])
  {
    hide IpHeader, SendIp, RouteSpec.NextHop;
  }

  lemma FitsLength(n: nat)
    requires n < 0x1_0000
    ensures n % TWO_16 == n
  {}

  /** A packet handed to IPv4 goes to the next hop of its route, in a header with this host's address. */
  lemma SendPacketHandsOn(h: Host, dst: IPv4Addr, protocol: byte, payload: seq<byte>) returns (p: seq<byte>)
    requires 20 + |payload| < 0x1_0000
    ensures p == IpHeader(20 + |payload|, protocol, h.ip, dst) + payload && IsPacket(p, protocol, h.ip, dst, payload)
    ensures match RouteSpec.NextHop(h.routes, dst)
            case Some(next) => SendPacket(h, dst, protocol, payload) == SendIp(h, next, p)
            case None => SendPacket(h, dst, protocol, payload) == HostSpec.Result(h, [])
  {
    assert (IPV4_HEADER + |payload|) % TWO_16 == 20 + |payload| by { FitsLength(20 + |payload|); }
    hide *;
    p := IpHeader(20 + |payload|, protocol, h.ip, dst) + payload;
    PacketLayout(protocol, h.ip, dst, payload);
    SendPacketIs(h, dst, protocol, payload, 20 + |payload|);
  }

  /** An echo message with a good checksum. */
  ghost predicate IsEcho(m: seq<byte>, kind: byte, id: uint16, sequence: uint16) {
    && |m| >= 8 && m[0] == kind && m[1] == 0 && Checksum.Computed(m) == 0
    && m[4] == id / 256 && m[5] == id % 256 && m[6] == sequence / 256 && m[7] == sequence % 256
  }

  lemma EchoIs(kind: byte, e: Echo, stale: byte)
    requires 9 + e.len <= Checksum.MAX_LEN
    ensures IsEcho(EchoMessage(kind, e, stale), kind, e.id, e.sequence)
  {
    EchoStarts(kind, e, stale);
    EchoVerifies(kind, e, stale);
    hide EchoMessage, Checksum.Computed;
  }

  /** `f` brings `m` from `a` to `b`, in one IPv4 packet. */
  ghost predicate Brings(f: seq<byte>, a: Host, b: Host, m: seq<byte>) {
    && SentBy(f, a.mac) && f[0..6] == Mac(b.mac) && f[12..14] == [0x08, 0x00]
    && IsPacket(f[14..], 1, a.ip, b.ip, m)
  }

  /** `a` has a route straight to `b` and knows its hardware address. */
  ghost predicate Knows(a: Host, b: Host) {
    && RouteSpec.NextHop(a.routes, b.ip) == Some(b.ip) && b.ip != a.broadcast
    && Lookup(a.cache, b.ip) < |a.cache| && a.cache[Lookup(a.cache, b.ip)].ha == b.mac
  }

  lemma KnownIsReached(a: Host, b: Host, m: seq<byte>)
    requires Knows(a, b) && 20 + |m| < 0x1_0000
    ensures var fs := SendPacket(a, b.ip, PROTO_ICMP, m).frames; |fs| == 1 && Brings(fs[0], a, b, m)
    ensures SendPacket(a, b.ip, PROTO_ICMP, m).frames ==
            [EthFrame(a, b.mac, ET_IPV4, IpHeader(20 + |m|, PROTO_ICMP, a.ip, b.ip) + m)]
  {
    var p := SendPacketHandsOn(a, b.ip, PROTO_ICMP, m);
    IpFrameBytes(a, b.mac, p);
    hide SendPacket, IsPacket, IpHeader, EthFrame, Lookup, RouteSpec.NextHop, Mac;
  }

  lemma PingFrameOf(a: Host, b: Host, e: Echo, stale: byte)
    requires 20 + 10 + e.len < 0x1_0000
    ensures var m := EchoMessage(ECHO_REQUEST, e, stale);
      PingFrame(a, b, b.mac, e, stale) == EthFrame(a, b.mac, ET_IPV4, IpHeader(20 + |m|, PROTO_ICMP, a.ip, b.ip) + m)
  {
    hide EchoMessage, EthFrame, IpHeader;
  }

  /**
   A ping between two hosts that know each other: the request reaches the other host and no one else,
   and whatever the link appends to it, the answer reaches the first host, with the same identifier
   and sequence number, good checksums, and one byte more.
   */
  lemma PingComesBack(a: Host, b: Host, e: Echo, stale: byte, pad: seq<byte>, mine: byte) returns (m: seq<byte>, r: seq<byte>)
    requires Knows(a, b) && Knows(b, a) && 20 + 10 + e.len < 0x1_0000
    ensures var asked := SendPacket(a, b.ip, PROTO_ICMP, EchoMessage(ECHO_REQUEST, e, stale));
      && |asked.frames| == 1 && Brings(asked.frames[0], a, b, m) && IsEcho(m, 8, e.id, e.sequence)
      && var answered := Receive(b, asked.frames[0] + pad, mine);
         |answered.frames| == 1 && Brings(answered.frames[0], b, a, r) && IsEcho(r, 0, e.id, e.sequence)
    ensures |m| == 9 + e.len && |r| == |m| + 1
  {
    m := EchoMessage(ECHO_REQUEST, e, stale);
    r := EchoMessage(ECHO_REPLY, Echo(e.id, e.sequence, e.len + 1), mine);
    PingFrameOf(a, b, e, stale);
    hide *;
    EchoIs(ECHO_REQUEST, e, stale);
    EchoIs(ECHO_REPLY, Echo(e.id, e.sequence, e.len + 1), mine);
    KnownIsReached(a, b, m);
    KnownIsReached(b, a, r);
    PingIsAnswered(a, b, b.mac, e, stale, pad, mine);
  }
}
