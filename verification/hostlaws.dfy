/** Laws of a host over whole traces: what becomes of every packet, and when it goes to the null address. */
module HostLaws {
  import opened Words
  import opened Frames
  import opened ArpCache
  import opened HostSpec

  // ---------- every packet is somewhere ----------

  // All counts are of one packet `p`.

  function One(b: bool): nat {
    if b then 1 else 0
  }

  predicate Carries(frame: seq<byte>, p: seq<byte>) {
    |frame| >= ETH_HEADER && Word16(frame[12], frame[13]) == ET_IPV4 && frame[ETH_HEADER..] == p
  }

  /** How many of the frames carry `p` as an IPv4 packet. */
  function Carried(frames: seq<seq<byte>>, p: seq<byte>): nat {
    if frames == [] then 0 else One(Carries(frames[0], p)) + Carried(frames[1..], p)
  }

  /** How many entries of the cache hold `p`. */
  function Parked(cache: seq<Entry<seq<byte>>>, p: seq<byte>): nat {
    if cache == [] then 0 else One(cache[0].pkt == Some(p)) + Parked(cache[1..], p)
  }

  /** The event makes the host send `p`. */
  predicate Hands(h: Host, e: Event, p: seq<byte>) {
    ArpIn(e).None? && Asked(h.routes, e).Some? && PacketOf(h, e) == p
  }

  /** An unknown next hop and a full cache: the packet is lost. */
  predicate NoRoom(h: Host, next: IPv4Addr) {
    next != h.broadcast && Lookup(h.cache, next) == |h.cache| && Lookup(h.cache, NULL_IP) == |h.cache|
  }

  predicate Loses(h: Host, e: Event, p: seq<byte>) {
    Hands(h, e, p) && NoRoom(h, Asked(h.routes, e).value)
  }

  /** How often the host was given `p` to send, and how often it lost it. */
  function Handed(h: Host, events: seq<Event>, p: seq<byte>): nat
    decreases |events|
  {
    if events == [] then 0 else One(Hands(h, events[0], p)) + Handed(Step(h, events[0]).host, events[1..], p)
  }

  function Lost(h: Host, events: seq<Event>, p: seq<byte>): nat
    decreases |events|
  {
    if events == [] then 0 else One(Loses(h, events[0], p)) + Lost(Step(h, events[0]).host, events[1..], p)
  }

  lemma {:induction false} CarriedAppend(a: seq<seq<byte>>, b: seq<seq<byte>>, p: seq<byte>)
    ensures Carried(a + b, p) == Carried(a, p) + Carried(b, p)
  {
    hide Carries;
    if a == [] {
      assert a + b == b;
    } else {
      assert (a + b)[1..] == a[1..] + b;
      CarriedAppend(a[1..], b, p);
    }
  }

  lemma CarriedOne(frame: seq<byte>, p: seq<byte>)
    ensures Carried([frame], p) == One(Carries(frame, p)) && Carried([], p) == 0
  {
    hide Carries;
    assert [frame][1..] == [];
  }

  lemma {:induction false} ParkedUpdate(cache: seq<Entry<seq<byte>>>, k: nat, e: Entry<seq<byte>>, p: seq<byte>)
    requires k < |cache|
    ensures Parked(cache[k := e], p) == Parked(cache, p) - One(cache[k].pkt == Some(p)) + One(e.pkt == Some(p))
  {
    if k == 0 {
      assert cache[k := e][1..] == cache[1..];
    } else {
      assert cache[k := e][1..] == cache[1..][k - 1 := e];
      ParkedUpdate(cache[1..], k - 1, e, p);
    }
  }

  lemma {:induction false} NoneParked(cache: seq<Entry<seq<byte>>>, p: seq<byte>)
    requires forall i :: 0 <= i < |cache| ==> cache[i].pkt.None?
    ensures Parked(cache, p) == 0
  {
    if cache != [] {
      NoneParked(cache[1..], p);
    }
  }

  lemma NothingParked(p: seq<byte>)
    ensures Parked(EmptyCache(), p) == 0
  {
    NoneParked(EmptyCache(), p);
  }

  lemma IpFrameCarries(h: Host, dst: EthAddr, payload: seq<byte>, p: seq<byte>)
    ensures Carried([EthFrame(h, dst, ET_IPV4, payload)], p) == One(payload == p)
  {
    FrameNames(h, dst, ET_IPV4, payload);
    EthRoundTrip(dst, h.mac, ET_IPV4, payload);
    CarriedOne(EthFrame(h, dst, ET_IPV4, payload), p);
    hide EthHeader, Carried, EthDecode;
  }

  lemma ArpFrameCarries(h: Host, op: uint16, tha: EthAddr, tpa: IPv4Addr, p: seq<byte>)
    ensures Carried([ArpFrame(h, op, tha, tpa)], p) == 0
  {
    FrameNames(h, tha, ET_ARP, ArpPacket(op, h.mac, h.ip, if op == OP_REQUEST then NULL_ETH else tha, tpa));
    CarriedOne(ArpFrame(h, op, tha, tpa), p);
    hide EthFrame, Carried, ArpPacket;
  }

  /** Adding an address moves no packet. */
  lemma AddParksNothing(cache: seq<Entry<seq<byte>>>, ha: EthAddr, pa: IPv4Addr, p: seq<byte>)
    ensures Parked(Add(cache, ha, pa), p) == Parked(cache, p)
  {
    hide Parked, Lookup;
    var k := Lookup(cache, NULL_IP);
    if k < |cache| {
      ParkedUpdate(cache, k, cache[k].(ha := ha, pa := pa), p);
    }
  }

  /** A request for an unknown address: the packet waits, or there was no room for it. */
  lemma RequestLaw(h: Host, next: IPv4Addr, payload: seq<byte>, p: seq<byte>)
    requires Valid(h) && next != NULL_IP && Lookup(h.cache, next) == |h.cache|
    ensures var r := Request(h, next, payload);
      Carried(r.frames, p) == 0 &&
      Parked(r.host.cache, p) == Parked(h.cache, p) + One(payload == p && Lookup(h.cache, NULL_IP) < |h.cache|)
  {
    var n, c := Used(h.cache), Add(h.cache, NULL_ETH, next);
    RequestCache(h, next, payload, c, n);
    AddParksNothing(h.cache, NULL_ETH, next, p);
    AddView(h.cache, NULL_ETH, next);
    CarriedOne([], p);
    hide Parked, Carried, Lookup, View, ArpFrame;
    if n < |h.cache| {
      ArpFrameCarries(h, OP_REQUEST, BROADCAST_ETH, next, p);
      ParkedUpdate(c, n, c[n].(etherType := ET_IPV4, pkt := Some(payload)), p);
    }
  }

  /** A packet that is sent is on the wire, waits, or is lost for want of room. */
  lemma SendLaw(h: Host, next: IPv4Addr, payload: seq<byte>, p: seq<byte>)
    requires Valid(h)
    ensures var r := SendIp(h, next, payload);
      One(payload == p) + Parked(h.cache, p) ==
        Carried(r.frames, p) + Parked(r.host.cache, p) + One(payload == p && NoRoom(h, next))
  {
    hide Valid, Parked, Carried, EthFrame, ArpFrame;
    var k := Lookup(h.cache, next);
    CarriedOne([], p);
    if next == h.broadcast {
      IpFrameCarries(h, BROADCAST_ETH, payload, p);
    } else if k < |h.cache| {
      IpFrameCarries(h, h.cache[k].ha, payload, p);
    } else if next == NULL_IP {
      assert Add(h.cache, NULL_ETH, next) == h.cache;
    } else {
      RequestLaw(h, next, payload, p);
      hide Request, Lookup;
    }
  }

  /** Learning an address sends the packet that waited for it. */
  lemma LearnLaw(h: Host, a: Arp, p: seq<byte>)
    ensures Parked(h.cache, p) == Carried(Learn(h, a).frames, p) + Parked(Learn(h, a).host.cache, p)
  {
    hide Parked, Carried, EthFrame, Lookup;
    var k := Lookup(h.cache, a.spa);
    CarriedOne([], p);
    if k < |h.cache| {
      ParkedUpdate(h.cache, k, Learn(h, a).host.cache[k], p);
      if h.cache[k].pkt.Some? {
        IpFrameCarries(h, if a.spa == h.broadcast then BROADCAST_ETH else a.sha, h.cache[k].pkt.value, p);
      }
    }
  }

  lemma AnswerLaw(h: Host, a: Arp, merge: bool, p: seq<byte>)
    ensures Carried(Answer(h, a, merge).frames, p) == 0 && Parked(Answer(h, a, merge).host.cache, p) == Parked(h.cache, p)
  {
    hide Parked, Carried, ArpFrame, Add;
    CarriedOne([], p);
    AddParksNothing(h.cache, a.sha, a.spa, p);
    ArpFrameCarries(h, OP_REPLY, a.sha, a.spa, p);
    ArpFrameCarries(if merge then h else h.(cache := Add(h.cache, a.sha, a.spa)), OP_REPLY, a.sha, a.spa, p);
  }

  /** An ARP packet in two halves. */
  lemma ArpStep(h: Host, e: Event)
    requires ArpIn(e).Some?
    ensures var a := ArpIn(e).value;
      var merge := Lookup(h.cache, a.spa) < |h.cache|;
      var first := Learn(h, a);
      var second := Answer(first.host, a, merge);
      Step(h, e) == HostSpec.Result(second.host, first.frames + second.frames)
  {
    hide Learn, Answer, Lookup, ArpDecode;
  }

  lemma ArpLaw(h: Host, e: Event, p: seq<byte>)
    requires ArpIn(e).Some?
    ensures Parked(h.cache, p) == Carried(Step(h, e).frames, p) + Parked(Step(h, e).host.cache, p)
  {
    hide *;
    var a := ArpIn(e).value;
    var merge := Lookup(h.cache, a.spa) < |h.cache|;
    var first := Learn(h, a);
    ArpStep(h, e);
    LearnLaw(h, a, p);
    AnswerLaw(first.host, a, merge, p);
    CarriedAppend(first.frames, Answer(first.host, a, merge).frames, p);
  }

  /** One event: what waited and what was handed over is what is carried, waits, or is lost. */
  lemma StepLaw(h: Host, e: Event, p: seq<byte>)
    requires Valid(h)
    ensures One(Hands(h, e, p)) + Parked(h.cache, p) ==
            Carried(Step(h, e).frames, p) + Parked(Step(h, e).host.cache, p) + One(Loses(h, e, p))
  {
    hide Step, Parked, Carried, ArpIn, Asked, PacketOf, Valid, NoRoom, SendIp;
    if ArpIn(e).Some? {
      ArpLaw(h, e, p);
    } else {
      StepAsks(h, e);
      CarriedOne([], p);
      if Asked(h.routes, e).Some? {
        SendLaw(h, Asked(h.routes, e).value, PacketOf(h, e), p);
      }
    }
  }

  lemma RunFirst(h: Host, events: seq<Event>)
    requires events != []
    ensures var first := Step(h, events[0]);
      var rest := Run(first.host, events[1..]);
      Run(h, events) == HostSpec.Result(rest.host, first.frames + rest.frames)
  {
    hide Step;
  }

  /**
   Conservation over every trace: as often as a packet was handed over it is on the wire, waits in the
   cache, or was lost to a full cache; so none is sent twice, and no other is on the wire.
   */
  lemma {:induction false} EveryPacketIsSomewhere(h: Host, events: seq<Event>, p: seq<byte>)
    requires Valid(h)
    ensures Handed(h, events, p) + Parked(h.cache, p) ==
            Carried(Run(h, events).frames, p) + Parked(Run(h, events).host.cache, p) + Lost(h, events, p)
    decreases |events|
  {
    hide Step, Parked, Carried, Hands, Loses, Valid, View, TableStep, SetupOf, One;
    CarriedOne([], p);
    if events != [] {
      var first := Step(h, events[0]);
      StepRefines(h, events[0]);
      StepLaw(h, events[0], p);
      EveryPacketIsSomewhere(first.host, events[1..], p);
      RunFirst(h, events);
      hide Run;
      CarriedAppend(first.frames, Run(first.host, events[1..]).frames, p);
    }
  }

  // ---------- answers that are not sent ----------

  /** An IPv4 packet holds a ping. */
  predicate PingIn(p: seq<byte>) {
    Delivered(p) != [] && EchoDecode(Delivered(p)[0].1).Some?
  }

  /** A frame holds a ping. */
  predicate Pinged(frame: seq<byte>) {
    Upcalls(frame) != [] && EchoDecode(Upcalls(frame)[0].1).Some?
  }

  /** The answer to a ping is built, but there is no route for it, or no room in the cache. */
  function Unsent(h: Host, e: Event): nat {
    One(e.Arrive? && Pinged(e.frame) && Step(h, e).frames == [])
  }

  function UnsentIn(h: Host, events: seq<Event>): nat
    decreases |events|
  {
    if events == [] then 0 else Unsent(h, events[0]) + UnsentIn(Step(h, events[0]).host, events[1..])
  }

  lemma {:induction false} UnsentAppend(h: Host, events: seq<Event>, e: Event)
    ensures UnsentIn(h, events + [e]) == UnsentIn(h, events) + Unsent(Run(h, events).host, e)
    decreases |events|
  {
    hide Step, Unsent;
    if events == [] {
      assert events + [e] == [e] && [e][1..] == [];
    } else {
      assert (events + [e])[1..] == events[1..] + [e];
      UnsentAppend(Step(h, events[0]).host, events[1..], e);
      RunFirst(h, events);
    }
  }

  // ---------- 0.0.0.0 as a next hop ----------

  /** The hardware address in the first unused entry. */
  function Spare(cache: seq<Entry<seq<byte>>>): EthAddr {
    if Used(cache) < |cache| then cache[Used(cache)].ha else NULL_ETH
  }

  /** Unused entries but the first are blank. */
  ghost predicate RestBlank(cache: seq<Entry<seq<byte>>>) {
    forall i :: Used(cache) < i < |cache| ==> cache[i].ha == NULL_ETH
  }

  /** What an event does to the spare address: an entry made moves on, a packet from 0.0.0.0 overwrites it. */
  ghost function SpareStep(t: Table, c: Setup, e: Event, ha: EthAddr): EthAddr {
    if |TableStep(t, c, e)| > |t| then NULL_ETH
    else if |t| < CACHE_SIZE && ArpIn(e).Some? && ArpIn(e).value.spa == NULL_IP then ArpIn(e).value.sha
    else ha
  }

  ghost function SpareRun(t: Table, c: Setup, events: seq<Event>, ha: EthAddr): EthAddr
    decreases |events|
  {
    if events == [] then ha else SpareRun(TableStep(t, c, events[0]), c, events[1..], SpareStep(t, c, events[0], ha))
  }

  lemma SpareAfterUpdate(cache: seq<Entry<seq<byte>>>, k: nat, e: Entry<seq<byte>>)
    requires Shape(cache) && RestBlank(cache) && k < |cache| && k <= Used(cache) && e.pa == cache[k].pa
    requires k == Used(cache) ==> e.pkt.None?
    ensures Used(cache[k := e]) == Used(cache) && RestBlank(cache[k := e])
    ensures Spare(cache[k := e]) == if k == Used(cache) then e.ha else Spare(cache)
  {
    UpdateShape(cache, k, e);
    hide Used, Shape;
  }

  lemma SpareAfterAdd(cache: seq<Entry<seq<byte>>>, ha: EthAddr, pa: IPv4Addr)
    requires Shape(cache) && RestBlank(cache) && pa != NULL_IP && Lookup(cache, pa) == |cache|
    ensures RestBlank(Add(cache, ha, pa))
    ensures Spare(Add(cache, ha, pa)) == if Used(cache) < |cache| then NULL_ETH else Spare(cache)
  {
    if Used(cache) < |cache| {
      AddShape(cache, ha, pa);
    } else {
      assert Add(cache, ha, pa) == cache;
    }
    hide Shape, Lookup;
  }

  lemma SpareAfterSend(h: Host, next: IPv4Addr, payload: seq<byte>)
    requires Valid(h) && RestBlank(h.cache)
    ensures var r := SendIp(h, next, payload).host;
      RestBlank(r.cache) && Spare(r.cache) == if Used(r.cache) > Used(h.cache) then NULL_ETH else Spare(h.cache)
  {
    var k := Lookup(h.cache, next);
    if next != h.broadcast && k == |h.cache| {
      if next == NULL_IP {
        assert Add(h.cache, NULL_ETH, next) == h.cache;
      } else {
        var n, c := Used(h.cache), Add(h.cache, NULL_ETH, next);
        RequestCache(h, next, payload, c, n);
        AddView(h.cache, NULL_ETH, next);
        SpareAfterAdd(h.cache, NULL_ETH, next);
        if n < |h.cache| {
          SpareAfterUpdate(c, n, c[n].(etherType := ET_IPV4, pkt := Some(payload)));
        }
      }
    }
  }

  lemma SpareAfterArp(h: Host, a: Arp)
    requires Valid(h) && RestBlank(h.cache)
    ensures var merge := Lookup(h.cache, a.spa) < |h.cache|;
      var r := Answer(Learn(h, a).host, a, merge).host;
      RestBlank(r.cache) &&
      Spare(r.cache) == if Used(r.cache) > Used(h.cache) then NULL_ETH
                        else if Used(h.cache) < |h.cache| && a.spa == NULL_IP then a.sha
                        else Spare(h.cache)
  {
    var k, learnt := Lookup(h.cache, a.spa), Learn(h, a).host;
    if k < |h.cache| {
      SpareAfterUpdate(h.cache, k, learnt.cache[k]);
    } else if a.tpa == h.ip {
      if a.spa == NULL_IP {
        assert Add(h.cache, a.sha, a.spa) == h.cache;
      } else {
        AddView(h.cache, a.sha, a.spa);
        SpareAfterAdd(h.cache, a.sha, a.spa);
      }
    }
  }

  lemma StepSpare(h: Host, e: Event)
    requires Valid(h) && RestBlank(h.cache)
    ensures RestBlank(Step(h, e).host.cache)
    ensures Spare(Step(h, e).host.cache) == SpareStep(View(h.cache), SetupOf(h), e, Spare(h.cache))
  {
    StepRefines(h, e);
    ViewSize(h.cache);
    ViewSize(Step(h, e).host.cache);
    if ArpIn(e).Some? {
      SpareAfterArp(h, ArpIn(e).value);
      hide RestBlank, Spare, View, Shape, TableStep, Answer, Learn;
    } else {
      StepAsks(h, e);
      if Asked(h.routes, e).Some? {
        SpareAfterSend(h, Asked(h.routes, e).value, PacketOf(h, e));
      }
      hide RestBlank, Spare, View, Shape, TableStep, SendIp, PacketOf, Asked;
    }
  }

  lemma {:induction false} RunSpare(h: Host, events: seq<Event>)
    requires Valid(h) && RestBlank(h.cache)
    ensures Spare(Run(h, events).host.cache) == SpareRun(View(h.cache), SetupOf(h), events, Spare(h.cache))
    decreases |events|
  {
    hide Step, Valid, View, TableStep, RestBlank, Spare, SpareStep, SetupOf;
    if events != [] {
      StepRefines(h, events[0]);
      StepSpare(h, events[0]);
      RunSpare(Step(h, events[0]).host, events[1..]);
    }
  }

  /**
   Over every trace from a new host: a packet for 0.0.0.0 goes to the null address exactly when the
   table is not full and no ARP packet from 0.0.0.0, or only a null one, came since the last entry was made.
   */
  lemma ZeroAddressOverTraces(h: Host, events: seq<Event>, payload: seq<byte>)
    requires h.cache == EmptyCache()
    ensures EthFrame(h, NULL_ETH, ET_IPV4, payload) in SendIp(Run(h, events).host, NULL_IP, payload).frames <==>
            NULL_IP != h.broadcast && |TableRun(map[], SetupOf(h), events)| < CACHE_SIZE &&
            SpareRun(map[], SetupOf(h), events, NULL_ETH) == NULL_ETH
  {
    InitIsValid(h.mac, h.ip, h.broadcast, h.routes);
    var r := Run(h, events).host;
    assert RestBlank(h.cache) && Spare(h.cache) == NULL_ETH;
    CacheRefinesTable(h, events);
    RunSpare(h, events);
    RunKeepsMac(h, events);
    hide Run, TableRun, SpareRun, SendIp, EthFrame, View;
    ViewSize(r.cache);
    NullAddressIff(r, NULL_IP, payload);
    SameFrame(h, r, NULL_ETH, ET_IPV4, payload);
  }

  // ---------- a ping between two hosts ----------

  /** What `a` puts on the wire for a ping of `b`, however it addresses it. */
  function PingFrame(a: Host, b: Host, dst: EthAddr, e: Echo, stale: byte): seq<byte> {
    var message := EchoMessage(ECHO_REQUEST, e, stale);
    EthFrame(a, dst, ET_IPV4, IpHeader((IPV4_HEADER + |message|) % TWO_16, PROTO_ICMP, a.ip, b.ip) + message)
  }

  lemma PingFrameIs(a: Host, b: Host, dst: EthAddr, e: Echo, stale: byte, pad: seq<byte>)
    requires IPV4_HEADER + ICMP_HEADER + e.len + 1 <= 0xFFFF
    ensures var message := EchoMessage(ECHO_REQUEST, e, stale);
      var packet := IpHeader(IPV4_HEADER + |message|, PROTO_ICMP, a.ip, b.ip) + message;
      PingFrame(a, b, dst, e, stale) + pad == EthHeader(dst, a.mac, ET_IPV4) + (packet + pad)
  {
    hide EthHeader, IpHeader, EchoMessage;
    var message := EchoMessage(ECHO_REQUEST, e, stale);
    var packet := IpHeader(IPV4_HEADER + |message|, PROTO_ICMP, a.ip, b.ip) + message;
    assert (IPV4_HEADER + |message|) % TWO_16 == IPV4_HEADER + |message|;
    assert EthHeader(dst, a.mac, ET_IPV4) + packet + pad == EthHeader(dst, a.mac, ET_IPV4) + (packet + pad);
  }

  lemma PingIsDelivered(a: Host, b: Host, message: seq<byte>, pad: seq<byte>)
    requires IPV4_HEADER + |message| <= 0xFFFF
    ensures var packet := IpHeader(IPV4_HEADER + |message|, PROTO_ICMP, a.ip, b.ip) + message;
      Delivered(packet + pad) == [(Ip(PROTO_ICMP, a.ip, b.ip, IPV4_HEADER, IPV4_HEADER + |message|), message)]
  {
    IpRoundTrip(PROTO_ICMP, a.ip, b.ip, message, pad);
    hide IpHeader, IpDecode;
  }

  lemma ReceivePing(b: Host, frame: seq<byte>, src: IPv4Addr, packet: seq<byte>, message: seq<byte>, e: Echo, mine: byte)
    requires EthDecode(frame) == Some(EthPacket(ET_IPV4, ETH_HEADER)) && frame[ETH_HEADER..] == packet
    requires Delivered(packet) == [(Ip(PROTO_ICMP, src, b.ip, IPV4_HEADER, IPV4_HEADER + |message|), message)]
    requires EchoDecode(message) == Some(e)
    ensures Receive(b, frame, mine) == SendPacket(b, src, PROTO_ICMP, EchoMessage(ECHO_REPLY, e, mine))
  {
    hide EthDecode, Delivered, EchoDecode, EchoMessage, SendPacket;
  }

  /** The pinged host answers with the same identifier and sequence number, and one byte more than it was sent. */
  lemma PingIsAnswered(a: Host, b: Host, dst: EthAddr, e: Echo, stale: byte, pad: seq<byte>, mine: byte)
    requires IPV4_HEADER + ICMP_HEADER + e.len + 1 <= 0xFFFF
    ensures Receive(b, PingFrame(a, b, dst, e, stale) + pad, mine) ==
            SendPacket(b, a.ip, PROTO_ICMP, EchoMessage(ECHO_REPLY, Echo(e.id, e.sequence, e.len + 1), mine))
  {
    var message := EchoMessage(ECHO_REQUEST, e, stale);
    var packet := IpHeader(IPV4_HEADER + |message|, PROTO_ICMP, a.ip, b.ip) + message;
    hide *;
    PingFrameIs(a, b, dst, e, stale, pad);
    EthRoundTrip(dst, a.mac, ET_IPV4, packet + pad);
    PingIsDelivered(a, b, message, pad);
    EchoIsUnderstood(e, stale);
    ReceivePing(b, PingFrame(a, b, dst, e, stale) + pad, a.ip, packet + pad, message, Echo(e.id, e.sequence, e.len + 1), mine);
  }
}
