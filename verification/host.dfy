/** The ARP cache of src/net/arp.c as a value; `P` is what a deferred packet is. */
module ArpCache {
  import opened Words
  import opened Rings
  import opened Frames

  const CACHE_SIZE: nat := 16

  datatype Entry<P> = Entry(ha: EthAddr, pa: IPv4Addr, etherType: uint16, pkt: Option<P>)

  function EmptyCache<P>(): (r: seq<Entry<P>>)
    ensures |r| == CACHE_SIZE
  {
    seq(CACHE_SIZE, _ => Entry(NULL_ETH, NULL_IP, 0, None))
  }

  /** `arp_lookup`: index of the first entry for `pa`, or the size of the cache. */
  function Lookup<P>(cache: seq<Entry<P>>, pa: IPv4Addr): (k: nat)
    ensures k <= |cache|
    ensures k < |cache| ==> cache[k].pa == pa
    ensures forall i :: 0 <= i < k ==> cache[i].pa != pa
  {
    if cache == [] then 0
    else if cache[0].pa == pa then 0
    else
      var k := Lookup(cache[1..], pa);
      assert forall i :: 1 <= i < k + 1 ==> cache[i] == cache[1..][i - 1];
      k + 1
  }

  lemma LookupIs<P>(cache: seq<Entry<P>>, pa: IPv4Addr, k: nat)
    requires k <= |cache|
    requires k < |cache| ==> cache[k].pa == pa
    requires forall i :: 0 <= i < k ==> cache[i].pa != pa
    ensures Lookup(cache, pa) == k
  {}

  /** `arp_add`: fills the first empty entry; a full cache stays as it is. */
  function Add<P>(cache: seq<Entry<P>>, ha: EthAddr, pa: IPv4Addr): (r: seq<Entry<P>>)
    ensures |r| == |cache|
  {
    var k := Lookup(cache, NULL_IP);
    if k < |cache| then cache[k := cache[k].(ha := ha, pa := pa)] else cache
  }

  /** Number of used entries: they come first. */
  function Used<P>(cache: seq<Entry<P>>): nat {
    Lookup(cache, NULL_IP)
  }

  /** Used entries form a prefix and their addresses differ; unused entries hold no packet. */
  ghost predicate Shape<P>(cache: seq<Entry<P>>) {
    && (forall i :: 0 <= i < |cache| ==> (cache[i].pa == NULL_IP <==> Used(cache) <= i))
    && (forall i, j :: 0 <= i < j < Used(cache) ==> cache[i].pa != cache[j].pa)
    && (forall i :: Used(cache) <= i < |cache| ==> cache[i].pkt.None?)
  }

  /** Looking up an address just added finds the entry that was filled, if one was. */
  lemma AddedIsFound<P>(cache: seq<Entry<P>>, ha: EthAddr, pa: IPv4Addr)
    requires Lookup(cache, pa) == |cache|
    ensures Lookup(Add(cache, ha, pa), pa) == Lookup(cache, NULL_IP)
  {
    LookupIs(Add(cache, ha, pa), pa, Lookup(cache, NULL_IP));
  }

  // ---------- the cache as a map ----------

  ghost function Addresses<P>(cache: seq<Entry<P>>): (r: set<IPv4Addr>)
    ensures forall pa :: pa in r <==> Lookup(cache, pa) < |cache|
  {
    var r := set i | 0 <= i < |cache| :: cache[i].pa;
    forall pa: IPv4Addr
      ensures pa in r <==> Lookup(cache, pa) < |cache|
    {
      if Lookup(cache, pa) < |cache| {
        assert cache[Lookup(cache, pa)].pa in r;
      }
    }
    r
  }

  ghost function View<P>(cache: seq<Entry<P>>): map<IPv4Addr, EthAddr> {
    map pa: IPv4Addr | pa != NULL_IP && pa in Addresses(cache) :: cache[Lookup(cache, pa)].ha
  }

  lemma LookupIgnoresRest<P, Q>(c: seq<Entry<P>>, d: seq<Entry<Q>>, pa: IPv4Addr)
    requires |c| == |d| && forall i :: 0 <= i < |c| ==> c[i].pa == d[i].pa
    ensures Lookup(c, pa) == Lookup(d, pa)
  {
    LookupIs(d, pa, Lookup(c, pa));
  }

  lemma ViewKeys<P>(cache: seq<Entry<P>>)
    ensures forall pa: IPv4Addr :: pa in View(cache) <==> pa != NULL_IP && Lookup(cache, pa) < |cache|
    ensures forall pa: IPv4Addr :: pa in View(cache) ==> View(cache)[pa] == cache[Lookup(cache, pa)].ha
  {}

  /** The map has as many addresses as the cache has used entries. */
  lemma ViewSize<P>(cache: seq<Entry<P>>)
    requires Shape(cache)
    ensures |View(cache)| == Used(cache)
  {
    var n := Used(cache);
    var keys := seq(n, i requires 0 <= i < |cache| => cache[i].pa);
    CountDistinct(keys);
    forall pa: IPv4Addr
      ensures pa in View(cache).Keys <==> pa in Elements(keys)
    {
      var k := Lookup(cache, pa);
      if pa in View(cache) {
        assert keys[k] == pa;
      }
    }
    assert View(cache).Keys == Elements(keys);
  }

  /** In a well-shaped cache a used entry is the one its address leads to. */
  lemma LookupFound<P>(cache: seq<Entry<P>>, i: nat)
    requires Shape(cache) && i < Used(cache)
    ensures Lookup(cache, cache[i].pa) == i
  {
    LookupIs(cache, cache[i].pa, i);
  }

  lemma SameMap(m: map<IPv4Addr, EthAddr>, n: map<IPv4Addr, EthAddr>)
    requires forall pa: IPv4Addr :: pa in m <==> pa in n
    requires forall pa: IPv4Addr :: pa in m ==> m[pa] == n[pa]
    ensures m == n
  {
    assert m.Keys == n.Keys;
  }

  /** The view, by its two defining properties. */
  lemma ViewIs<P>(cache: seq<Entry<P>>, m: map<IPv4Addr, EthAddr>)
    requires forall pa: IPv4Addr :: pa in m <==> pa != NULL_IP && Lookup(cache, pa) < |cache|
    requires forall pa: IPv4Addr :: pa in m ==> m[pa] == cache[Lookup(cache, pa)].ha
    ensures View(cache) == m
  {
    ViewKeys(cache);
    SameMap(View(cache), m);
  }

  lemma UpdateShape<P>(cache: seq<Entry<P>>, k: nat, e: Entry<P>)
    requires Shape(cache) && k < |cache| && e.pa == cache[k].pa
    requires k >= Used(cache) ==> e.pkt.None?
    ensures Shape(cache[k := e]) && Used(cache[k := e]) == Used(cache)
  {
    var c := cache[k := e];
    LookupIgnoresRest(c, cache, NULL_IP);
    assert forall i :: 0 <= i < |c| ==> c[i].pa == cache[i].pa;
  }

  /** Learning a new hardware address for a known entry updates one key of the map. */
  lemma UpdateView<P>(cache: seq<Entry<P>>, k: nat, e: Entry<P>)
    requires Shape(cache) && k < |cache| && e.pa == cache[k].pa
    requires k >= Used(cache) ==> e.pkt.None?
    ensures Shape(cache[k := e]) && Used(cache[k := e]) == Used(cache)
    ensures View(cache[k := e]) == if k < Used(cache) then View(cache)[e.pa := e.ha] else View(cache)
  {
    var c := cache[k := e];
    UpdateShape(cache, k, e);
    ViewKeys(cache);
    forall pa: IPv4Addr
      ensures Lookup(c, pa) == Lookup(cache, pa)
    {
      LookupIgnoresRest(c, cache, pa);
    }
    if k < Used(cache) {
      LookupFound(cache, k);
      ViewIs(c, View(cache)[e.pa := e.ha]);
    } else {
      assert cache[k].pa == NULL_IP;
      ViewIs(c, View(cache));
    }
  }

  lemma AddShape<P>(cache: seq<Entry<P>>, ha: EthAddr, pa: IPv4Addr)
    requires Shape(cache) && pa != NULL_IP && Lookup(cache, pa) == |cache| && Used(cache) < |cache|
    ensures Shape(Add(cache, ha, pa)) && Used(Add(cache, ha, pa)) == Used(cache) + 1
  {
    LookupIs(Add(cache, ha, pa), NULL_IP, Used(cache) + 1);
  }

  /** Adding an address that is not there extends the map while there is room. */
  lemma AddView<P>(cache: seq<Entry<P>>, ha: EthAddr, pa: IPv4Addr)
    requires Shape(cache) && pa != NULL_IP && Lookup(cache, pa) == |cache|
    ensures Shape(Add(cache, ha, pa))
    ensures Used(Add(cache, ha, pa)) == if Used(cache) < |cache| then Used(cache) + 1 else Used(cache)
    ensures View(Add(cache, ha, pa)) == if Used(cache) < |cache| then View(cache)[pa := ha] else View(cache)
    ensures Used(cache) < |cache| ==> Lookup(Add(cache, ha, pa), pa) == Used(cache)
    ensures Used(cache) == |cache| ==> Add(cache, ha, pa) == cache
  {
    var n, c := Used(cache), Add(cache, ha, pa);
    if n < |cache| {
      AddShape(cache, ha, pa);
      ViewKeys(cache);
      forall qa: IPv4Addr | qa != NULL_IP
        ensures Lookup(c, qa) == if qa == pa then n else Lookup(cache, qa)
      {
        LookupIs(c, qa, if qa == pa then n else Lookup(cache, qa));
      }
      ViewIs(c, View(cache)[pa := ha]);
    }
  }

  /** A new entry that holds a packet. */
  lemma DeferView<P>(cache: seq<Entry<P>>, pa: IPv4Addr, etherType: uint16, pkt: P)
    requires Shape(cache) && pa != NULL_IP && Lookup(cache, pa) == |cache| && Used(cache) < |cache|
    ensures var c, k := Add(cache, NULL_ETH, pa), Used(cache);
      var d := c[k := c[k].(etherType := etherType, pkt := Some(pkt))];
      Shape(d) && View(d) == View(cache)[pa := NULL_ETH]
  {
    var c, k := Add(cache, NULL_ETH, pa), Used(cache);
    AddView(cache, NULL_ETH, pa);
    UpdateView(c, k, c[k].(etherType := etherType, pkt := Some(pkt)));
  }
}

/**
 One host on the wire: what it sends and what it remembers, as functions of what it is asked to
 send and of the frames it receives.
 */
module HostSpec {
  import opened Words
  import opened Frames
  import opened FrameLayout
  import opened ArpCache
  import RouteSpec

  /** A deferred packet is its bytes. */
  datatype Host = Host(mac: EthAddr, ip: IPv4Addr, broadcast: IPv4Addr, routes: seq<RouteSpec.Route>, cache: seq<Entry<seq<byte>>>)

  datatype Result = Result(host: Host, frames: seq<seq<byte>>)

  ghost predicate Valid(h: Host) {
    |h.cache| == CACHE_SIZE && Shape(h.cache)
  }

  /** A host starts with an empty table. */
  lemma InitIsValid(mac: EthAddr, ip: IPv4Addr, broadcast: IPv4Addr, routes: seq<RouteSpec.Route>)
    ensures Valid(Host(mac, ip, broadcast, routes, EmptyCache())) && View(EmptyCache<seq<byte>>()) == map[]
  {
    ViewIs(EmptyCache<seq<byte>>(), map[]);
  }

  /** The tail of `eth_send_intf`: a header in front of the payload. */
  function EthFrame(h: Host, dst: EthAddr, etherType: uint16, payload: seq<byte>): seq<byte> {
    EthHeader(dst, h.mac, etherType) + payload
  }

  /** `arp_send`. */
  function ArpFrame(h: Host, op: uint16, tha: EthAddr, tpa: IPv4Addr): seq<byte> {
    EthFrame(h, tha, ET_ARP, ArpPacket(op, h.mac, h.ip, if op == OP_REQUEST then NULL_ETH else tha, tpa))
  }

  /** An ARP frame, byte by byte. */
  ghost predicate IsArpFrame(h: Host, f: seq<byte>, op: uint16, tha: EthAddr, tpa: IPv4Addr) {
    && |f| == 42 && f[0..6] == Mac(tha) && SentBy(f, h.mac)
    && (op < 0x100 ==> CarriesArp(f, op, h.mac, h.ip, if op == 1 then NULL_ETH else tha, tpa))
  }

  lemma ArpBytes(h: Host, op: uint16, tha: EthAddr, tpa: IPv4Addr)
    ensures IsArpFrame(h, ArpFrame(h, op, tha, tpa), op, tha, tpa)
  {
    var packet := ArpPacket(op, h.mac, h.ip, if op == OP_REQUEST then NULL_ETH else tha, tpa);
    EthLayout(tha, h.mac, ET_ARP, packet);
    if op < 0x100 {
      ArpFrameLayout(tha, op, h.mac, h.ip, if op == 1 then NULL_ETH else tha, tpa);
    }
    hide EthHeader, ArpPacket, CarriesArp;
  }

  /** A request asks everyone. */
  lemma RequestBytes(h: Host, tpa: IPv4Addr)
    ensures var f := ArpFrame(h, OP_REQUEST, BROADCAST_ETH, tpa);
      |f| == 42 && f[0..6] == EVERYONE && SentBy(f, h.mac) && CarriesArp(f, 1, h.mac, h.ip, NULL_ETH, tpa)
  {
    ArpBytes(h, 1, BROADCAST_ETH, tpa);
    hide ArpFrame, CarriesArp, SentBy;
  }

  /** A reply goes to the one who asked. */
  lemma ReplyBytes(h: Host, tha: EthAddr, tpa: IPv4Addr)
    ensures var f := ArpFrame(h, OP_REPLY, tha, tpa);
      |f| == 42 && f[0..6] == Mac(tha) && SentBy(f, h.mac) && CarriesArp(f, 2, h.mac, h.ip, tha, tpa)
  {
    ArpBytes(h, 2, tha, tpa);
    hide ArpFrame, CarriesArp, SentBy;
  }

  lemma IpFrameBytes(h: Host, dst: EthAddr, payload: seq<byte>)
    ensures var f := EthFrame(h, dst, ET_IPV4, payload);
      |f| == 14 + |payload| && f[0..6] == Mac(dst) && SentBy(f, h.mac) && CarriesIp(f, payload)
  {
    EthLayout(dst, h.mac, ET_IPV4, payload);
    hide EthHeader;
  }

  /** The head of `arp_request`: the cache with an entry for `tpa`, if there is or can be one. */
  function WithEntry<P>(cache: seq<Entry<P>>, tpa: IPv4Addr): (r: seq<Entry<P>>)
    ensures |r| == |cache|
  {
    if Lookup(cache, tpa) < |cache| then cache else Add(cache, NULL_ETH, tpa)
  }

  /** `arp_request`: the packet waits in the entry, in place of one that waited there before. */
  function Request(h: Host, tpa: IPv4Addr, payload: seq<byte>): Result {
    var cache := WithEntry(h.cache, tpa);
    var k := Lookup(cache, tpa);
    if k < |cache|
    then Result(h.(cache := cache[k := cache[k].(etherType := ET_IPV4, pkt := Some(payload))]),
                [ArpFrame(h, OP_REQUEST, BROADCAST_ETH, tpa)])
    else Result(h.(cache := cache), [])
  }

  /** `eth_send_intf` of an IPv4 packet to the next hop `dst`. */
  function SendIp(h: Host, dst: IPv4Addr, payload: seq<byte>): Result {
    if dst == h.broadcast then Result(h, [EthFrame(h, BROADCAST_ETH, ET_IPV4, payload)])
    else
      var k := Lookup(h.cache, dst);
      if k < |h.cache| then Result(h, [EthFrame(h, h.cache[k].ha, ET_IPV4, payload)])
      else Request(h, dst, payload)
  }

  /** The first half of `arp_recv`: refresh the sender's entry and send what waited for it. */
  function Learn(h: Host, a: Arp): Result {
    var k := Lookup(h.cache, a.spa);
    if k == |h.cache| then Result(h, [])
    else
      var e := h.cache[k].(ha := a.sha);
      match e.pkt
      case None => Result(h.(cache := h.cache[k := e]), [])
      case Some(payload) =>
        Result(h.(cache := h.cache[k := e.(etherType := 0, pkt := None)]),
               [EthFrame(h, if a.spa == h.broadcast then BROADCAST_ETH else a.sha, ET_IPV4, payload)])
  }

  /** The second half: a packet for this host makes a new entry and, if a request, gets a reply. */
  function Answer(h: Host, a: Arp, merge: bool): Result {
    if a.tpa != h.ip then Result(h, [])
    else Result(if merge then h else h.(cache := Add(h.cache, a.sha, a.spa)),
                if a.op == OP_REQUEST then [ArpFrame(h, OP_REPLY, a.sha, a.spa)] else [])
  }

  /** Sending the packet that waited, with the sender's entry refreshed and emptied, is what `Learn` sends. */
  lemma LearnSends(h: Host, a: Arp, refreshed: Host, emptied: Host, payload: seq<byte>)
    requires Lookup(h.cache, a.spa) < |h.cache|
    requires var k := Lookup(h.cache, a.spa);
      h.cache[k].pkt == Some(payload) &&
      refreshed == h.(cache := h.cache[k := h.cache[k].(ha := a.sha)]) &&
      emptied == refreshed.(cache := refreshed.cache[k := refreshed.cache[k].(etherType := 0, pkt := None)])
    ensures SendIp(emptied, a.spa, payload) == Learn(h, a) && Learn(h, a).host == emptied && |Learn(h, a).frames| == 1
  {
    LookupIgnoresRest(emptied.cache, h.cache, a.spa);
    assert emptied.cache == Learn(h, a).host.cache;
  }

  /** Without a packet that waits nothing is sent. */
  lemma LearnIsSilent(h: Host, a: Arp, refreshed: Host)
    requires var k := Lookup(h.cache, a.spa);
      if k < |h.cache| then h.cache[k].pkt.None? && refreshed == h.(cache := h.cache[k := h.cache[k].(ha := a.sha)])
      else refreshed == h
    ensures Learn(h, a) == Result(refreshed, [])
  {}

  /** `arp_recv`. */
  function ReceiveArp(h: Host, p: seq<byte>): Result {
    match ArpDecode(p)
    case None => Result(h, [])
    case Some(a) =>
      var first := Learn(h, a);
      var second := Answer(first.host, a, Lookup(h.cache, a.spa) < |h.cache|);
      Result(second.host, first.frames + second.frames)
  }

  /** `ipv4_send`: a packet without a route is lost; the length field keeps 16 bits. */
  function SendPacket(h: Host, dst: IPv4Addr, protocol: byte, payload: seq<byte>): Result {
    match RouteSpec.NextHop(h.routes, dst)
    case Some(next) => SendIp(h, next, IpHeader((IPV4_HEADER + |payload|) % TWO_16, protocol, h.ip, dst) + payload)
    case None => Result(h, [])
  }

  /** `icmp_recv`: an echo request from `src` is answered; `stale` is a byte that was in the reply's buffer. */
  function ReceiveIcmp(h: Host, src: IPv4Addr, data: seq<byte>, stale: byte): Result {
    match EchoDecode(data)
    case Some(e) => SendPacket(h, src, PROTO_ICMP, EchoMessage(ECHO_REPLY, e, stale))
    case None => Result(h, [])
  }

  /** `ipv4_recv`. */
  function ReceiveIp(h: Host, p: seq<byte>, stale: byte): Result {
    var d := Delivered(p);
    if d == [] then Result(h, []) else ReceiveIcmp(h, d[0].0.src, d[0].1, stale)
  }

  /** `eth_recv`: malformed frames and unknown protocols leave the host as it is and send nothing. */
  function Receive(h: Host, frame: seq<byte>, stale: byte): Result {
    match EthDecode(frame)
    case Some(ep) =>
      if ep.etherType == ET_ARP then ReceiveArp(h, frame[ep.hdrLen..])
      else if ep.etherType == ET_IPV4 then ReceiveIp(h, frame[ep.hdrLen..], stale)
      else Result(h, [])
    case None => Result(h, [])
  }

  /** What `eth_recv` passes up through `ipv4_recv`. */
  function Upcalls(frame: seq<byte>): seq<(Ip, seq<byte>)> {
    match EthDecode(frame)
    case Some(ep) => if ep.etherType == ET_IPV4 then Delivered(frame[ep.hdrLen..]) else []
    case None => []
  }

  /** What `eth_recv` does with each kind of frame. */
  lemma ReceiveIs(h: Host, frame: seq<byte>)
    ensures match EthDecode(frame)
            case None =>
              Upcalls(frame) == [] && forall stale :: Receive(h, frame, stale) == Result(h, [])
            case Some(ep) =>
              && (ep.etherType == ET_ARP ==>
                    Upcalls(frame) == [] && forall stale :: Receive(h, frame, stale) == ReceiveArp(h, frame[ep.hdrLen..]))
              && (ep.etherType == ET_IPV4 ==>
                    && Upcalls(frame) == Delivered(frame[ep.hdrLen..])
                    && forall stale :: Receive(h, frame, stale) == ReceiveIp(h, frame[ep.hdrLen..], stale))
              && (ep.etherType != ET_ARP && ep.etherType != ET_IPV4 ==>
                    Upcalls(frame) == [] && forall stale :: Receive(h, frame, stale) == Result(h, []))
  {
    hide EthDecode, ReceiveArp, ReceiveIp, Delivered;
  }

  // ---------- traces ----------

  /** A packet is handed to the link for a next hop, or a frame arrives. */
  datatype Event = Send(next: IPv4Addr, payload: seq<byte>) | Arrive(frame: seq<byte>, stale: byte)

  function Step(h: Host, e: Event): Result {
    match e
    case Send(next, payload) => SendIp(h, next, payload)
    case Arrive(frame, stale) => Receive(h, frame, stale)
  }

  /** The host after a trace, and everything it sent. */
  function Run(h: Host, events: seq<Event>): Result
    decreases |events|
  {
    if events == [] then Result(h, [])
    else
      var first := Step(h, events[0]);
      var rest := Run(first.host, events[1..]);
      Result(rest.host, first.frames + rest.frames)
  }

  lemma {:induction false} RunAppend(h: Host, a: seq<Event>, b: seq<Event>)
    ensures Run(h, a + b) == Result(Run(Run(h, a).host, b).host, Run(h, a).frames + Run(Run(h, a).host, b).frames)
    decreases |a|
  {
    hide Step;
    if a == [] {
      assert a + b == b;
      assert [] + Run(h, b).frames == Run(h, b).frames;
    } else {
      assert (a + b)[1..] == a[1..] + b;
      RunAppend(Step(h, a[0]).host, a[1..], b);
    }
  }

  lemma RunOne(h: Host, e: Event)
    ensures Run(h, [e]) == Step(h, e)
  {
    hide Step;
    assert [e][1..] == [];
    assert Step(h, e).frames + [] == Step(h, e).frames;
  }

  /** The well-formed ARP packet in an arriving frame, if there is one. */
  function ArpIn(e: Event): Option<Arp> {
    if e.Arrive? then
      match EthDecode(e.frame)
      case Some(ep) => if ep.etherType == ET_ARP then ArpDecode(e.frame[ep.hdrLen..]) else None
      case None => None
    else None
  }

  /** Where an event makes the host send an IPv4 packet: a send, or an echo request that has a route back. */
  function Asked(routes: seq<RouteSpec.Route>, e: Event): Option<IPv4Addr> {
    match e
    case Send(next, _) => Some(next)
    case Arrive(frame, _) =>
      var up := Upcalls(frame);
      if up != [] && EchoDecode(up[0].1).Some? then RouteSpec.NextHop(routes, up[0].0.src) else None
  }

  // ---------- the 16-entry map of RFC 826 ----------

  type Table = map<IPv4Addr, EthAddr>

  /** What of a host stays the same over a trace and matters to its table. */
  datatype Setup = Setup(ip: IPv4Addr, broadcast: IPv4Addr, routes: seq<RouteSpec.Route>)

  function SetupOf(h: Host): Setup {
    Setup(h.ip, h.broadcast, h.routes)
  }

  /** Make room for an address, up to 16 of them. */
  ghost function Enter(t: Table, pa: IPv4Addr, ha: EthAddr): Table {
    if |t| < CACHE_SIZE then t[pa := ha] else t
  }

  /**
   What an event does to the table.  An ARP packet refreshes its sender's entry, and makes one if it
   is for this host; sending to an unknown address makes an entry without a hardware address.
   */
  ghost function TableStep(t: Table, c: Setup, e: Event): Table {
    match ArpIn(e)
    case Some(a) =>
      if a.spa == NULL_IP then t
      else if a.spa in t then t[a.spa := a.sha]
      else if a.tpa == c.ip then Enter(t, a.spa, a.sha)
      else t
    case None =>
      match Asked(c.routes, e)
      case Some(next) => if next == c.broadcast || next == NULL_IP || next in t then t else Enter(t, next, NULL_ETH)
      case None => t
  }

  ghost function TableRun(t: Table, c: Setup, events: seq<Event>): Table
    decreases |events|
  {
    if events == [] then t else TableRun(TableStep(t, c, events[0]), c, events[1..])
  }

  lemma ArpAsksNothing(routes: seq<RouteSpec.Route>, e: Event)
    ensures ArpIn(e).Some? ==> Asked(routes, e).None?
  {}

  lemma AnswerKeepsShape(h: Host, a: Arp, merge: bool)
    requires Valid(h) && merge == (Lookup(h.cache, a.spa) < |h.cache|)
    ensures Valid(Answer(h, a, merge).host)
    ensures View(Answer(h, a, merge).host.cache) ==
            if a.tpa == h.ip && !merge && a.spa != NULL_IP then Enter(View(h.cache), a.spa, a.sha) else View(h.cache)
  {
    ViewSize(h.cache);
    if a.tpa == h.ip && !merge {
      if a.spa == NULL_IP {
        assert Add(h.cache, a.sha, a.spa) == h.cache;
      } else {
        AddView(h.cache, a.sha, a.spa);
      }
    }
  }

  lemma LearnKeepsShape(h: Host, a: Arp)
    requires Valid(h)
    ensures Valid(Learn(h, a).host)
    ensures View(Learn(h, a).host.cache) ==
            if a.spa != NULL_IP && a.spa in View(h.cache) then View(h.cache)[a.spa := a.sha] else View(h.cache)
    ensures Lookup(Learn(h, a).host.cache, a.spa) == Lookup(h.cache, a.spa)
  {
    ViewKeys(h.cache);
    var k := Lookup(h.cache, a.spa);
    if k < |h.cache| {
      var e := Learn(h, a).host.cache[k];
      UpdateView(h.cache, k, e);
      LookupIgnoresRest(h.cache[k := e], h.cache, a.spa);
    }
  }

  lemma ReceiveArpRefines(h: Host, a: Arp)
    requires Valid(h)
    ensures var r := Answer(Learn(h, a).host, a, Lookup(h.cache, a.spa) < |h.cache|).host;
      Valid(r) && r.mac == h.mac && SetupOf(r) == SetupOf(h) &&
      View(r.cache) ==
        if a.spa == NULL_IP then View(h.cache)
        else if a.spa in View(h.cache) then View(h.cache)[a.spa := a.sha]
        else if a.tpa == h.ip then Enter(View(h.cache), a.spa, a.sha)
        else View(h.cache)
  {
    ViewKeys(h.cache);
    LearnKeepsShape(h, a);
    AnswerKeepsShape(Learn(h, a).host, a, Lookup(h.cache, a.spa) < |h.cache|);
  }

  /** The cache after a request for a new address: the new entry, holding the packet, or no change. */
  lemma RequestCache(h: Host, tpa: IPv4Addr, payload: seq<byte>, c: seq<Entry<seq<byte>>>, k: nat)
    requires Valid(h) && tpa != NULL_IP && Lookup(h.cache, tpa) == |h.cache|
    requires c == Add(h.cache, NULL_ETH, tpa) && k == Used(h.cache)
    ensures Request(h, tpa, payload).host.cache ==
            if k < |h.cache| then c[k := c[k].(etherType := ET_IPV4, pkt := Some(payload))] else h.cache
  {
    AddView(h.cache, NULL_ETH, tpa);
  }

  lemma RequestRefines(h: Host, tpa: IPv4Addr, payload: seq<byte>)
    requires Valid(h) && tpa != NULL_IP && Lookup(h.cache, tpa) == |h.cache|
    ensures Valid(Request(h, tpa, payload).host)
    ensures View(Request(h, tpa, payload).host.cache) == Enter(View(h.cache), tpa, NULL_ETH)
  {
    ViewSize(h.cache);
    RequestCache(h, tpa, payload, Add(h.cache, NULL_ETH, tpa), Used(h.cache));
    if Used(h.cache) < |h.cache| {
      DeferView(h.cache, tpa, ET_IPV4, payload);
    }
  }

  /** Sending to 0.0.0.0 finds an unused entry or, in a full cache, none: either way nothing is remembered. */
  lemma SendRefines(h: Host, next: IPv4Addr, payload: seq<byte>)
    requires Valid(h)
    ensures var r := SendIp(h, next, payload).host;
      Valid(r) && r.mac == h.mac && SetupOf(r) == SetupOf(h) &&
      View(r.cache) ==
        if next == h.broadcast || next == NULL_IP || next in View(h.cache) then View(h.cache)
        else Enter(View(h.cache), next, NULL_ETH)
  {
    ViewKeys(h.cache);
    if next != h.broadcast && next != NULL_IP && next !in View(h.cache) {
      RequestRefines(h, next, payload);
    }
  }

  /** The IPv4 packet an event makes the host send, if any. */
  function PacketOf(h: Host, e: Event): seq<byte> {
    match e
    case Send(_, payload) => payload
    case Arrive(frame, stale) =>
      var up := Upcalls(frame);
      if up != [] && EchoDecode(up[0].1).Some? then
        var reply := EchoMessage(ECHO_REPLY, EchoDecode(up[0].1).value, stale);
        IpHeader((IPV4_HEADER + |reply|) % TWO_16, PROTO_ICMP, h.ip, up[0].0.src) + reply
      else []
  }

  /** Whatever is not ARP sends one packet where `Asked` says, or none. */
  lemma StepAsks(h: Host, e: Event)
    requires ArpIn(e).None?
    ensures Step(h, e) == match Asked(h.routes, e)
            case Some(next) => SendIp(h, next, PacketOf(h, e))
            case None => Result(h, [])
  {
    hide SendIp, IpHeader, EchoMessage, Delivered, EchoDecode, RouteSpec.NextHop;
  }

  /** One event: the cache moves as the table does, and stays well shaped. */
  lemma StepRefines(h: Host, e: Event)
    requires Valid(h)
    ensures var r := Step(h, e).host;
      Valid(r) && r.mac == h.mac && SetupOf(r) == SetupOf(h) && View(r.cache) == TableStep(View(h.cache), SetupOf(h), e)
  {
    hide Valid, SendIp, Asked, PacketOf, Enter, View, Lookup, Learn, Answer, Upcalls, Delivered, ReceiveIp;
    if ArpIn(e).Some? {
      ReceiveArpRefines(h, ArpIn(e).value);
    } else {
      StepAsks(h, e);
      if Asked(h.routes, e).Some? {
        SendRefines(h, Asked(h.routes, e).value, PacketOf(h, e));
      }
    }
  }

  /** Main result: over any trace of sends and arriving frames, the cache is the table. */
  lemma {:induction false} CacheRefinesTable(h: Host, events: seq<Event>)
    requires Valid(h)
    ensures Valid(Run(h, events).host) && SetupOf(Run(h, events).host) == SetupOf(h)
    ensures View(Run(h, events).host.cache) == TableRun(View(h.cache), SetupOf(h), events)
    decreases |events|
  {
    hide Step, Valid, View, TableStep;
    if events != [] {
      StepRefines(h, events[0]);
      CacheRefinesTable(Step(h, events[0]).host, events[1..]);
    }
  }

  /** Sender address of the last ARP packet from `pa` in the trace, or `before` if there is none. */
  function LastHeard(events: seq<Event>, pa: IPv4Addr, before: EthAddr): EthAddr
    decreases |events|
  {
    if events == [] then before
    else
      var a := ArpIn(events[0]);
      LastHeard(events[1..], pa, if a.Some? && a.value.spa == pa then a.value.sha else before)
  }

  /** An address once in the table stays, and its entry is the last sender address heard from it. */
  lemma {:induction false} EntryIsLastHeard(t: Table, c: Setup, events: seq<Event>, pa: IPv4Addr)
    requires pa in t && pa != NULL_IP
    ensures pa in TableRun(t, c, events)
    ensures TableRun(t, c, events)[pa] == LastHeard(events, pa, t[pa])
    decreases |events|
  {
    hide ArpIn, Asked;
    if events != [] {
      EntryIsLastHeard(TableStep(t, c, events[0]), c, events[1..], pa);
    }
  }

  /**
   An entry is made without a hardware address by sending to it, or with the sender's by an ARP packet
   for this host.
   */
  lemma EntryIsMadeBy(t: Table, c: Setup, e: Event, pa: IPv4Addr)
    requires pa !in t && pa != NULL_IP
    ensures pa in TableStep(t, c, e) <==>
            |t| < CACHE_SIZE &&
            ((Asked(c.routes, e) == Some(pa) && pa != c.broadcast) ||
             (ArpIn(e).Some? && ArpIn(e).value.spa == pa && ArpIn(e).value.tpa == c.ip))
    ensures pa in TableStep(t, c, e) ==>
            TableStep(t, c, e)[pa] == if ArpIn(e).Some? then ArpIn(e).value.sha else NULL_ETH
  {
    ArpAsksNothing(c.routes, e);
    hide ArpIn, Asked;
  }

  /** Event `i` is the one that makes the entry for `pa`. */
  ghost predicate EntersAt(t: Table, c: Setup, events: seq<Event>, i: nat, pa: IPv4Addr) {
    i < |events| && pa !in TableRun(t, c, events[..i]) && pa in TableStep(TableRun(t, c, events[..i]), c, events[i])
  }

  lemma {:induction false} TableRunSplit(t: Table, c: Setup, events: seq<Event>, i: nat)
    requires i <= |events|
    ensures TableRun(t, c, events) == TableRun(TableRun(t, c, events[..i]), c, events[i..])
    decreases i
  {
    hide TableStep;
    if i == 0 {
      assert events[0..] == events;
    } else {
      assert events[..i][0] == events[0] && events[..i][1..] == events[1..][..i - 1] && events[i..] == events[1..][i - 1..];
      TableRunSplit(TableStep(t, c, events[0]), c, events[1..], i - 1);
    }
  }

  /** From the event that made it on, an entry is the last sender address heard from it, null if there was none. */
  lemma EnteredIsLastHeard(t: Table, c: Setup, events: seq<Event>, i: nat, pa: IPv4Addr)
    requires EntersAt(t, c, events, i, pa) && pa != NULL_IP
    ensures pa in TableRun(t, c, events) && TableRun(t, c, events)[pa] == LastHeard(events[i..], pa, NULL_ETH)
  {
    var u := TableRun(t, c, events[..i]);
    TableRunSplit(t, c, events, i);
    EntryIsMadeBy(u, c, events[i], pa);
    hide ArpIn, Asked, Enter;
    assert events[i..][0] == events[i] && events[i..][1..] == events[i + 1..];
    hide TableStep;
    EntryIsLastHeard(TableStep(u, c, events[i]), c, events[i + 1..], pa);
    assert TableRun(u, c, events[i..]) == TableRun(TableStep(u, c, events[i]), c, events[i + 1..]);
  }

  /** An address that has come into the table was entered by some event. */
  lemma {:induction false} WasEntered(t: Table, c: Setup, events: seq<Event>, pa: IPv4Addr) returns (i: nat)
    requires pa !in t && pa in TableRun(t, c, events)
    ensures i < |events| && EntersAt(t, c, events, i, pa)
    decreases |events|
  {
    hide TableStep;
    var u := TableStep(t, c, events[0]);
    if pa in u {
      i := 0;
      assert events[..0] == [];
    } else {
      var j := WasEntered(u, c, events[1..], pa);
      i := j + 1;
      assert events[..i][0] == events[0] && events[..i][1..] == events[1..][..j];
    }
  }

  /** The cache itself: the entry of an address entered at event `i` is what was last heard from it since. */
  lemma CacheIsLastHeard(h: Host, events: seq<Event>, i: nat, pa: IPv4Addr)
    requires Valid(h) && pa != NULL_IP && EntersAt(View(h.cache), SetupOf(h), events, i, pa)
    ensures var cache := Run(h, events).host.cache;
      Lookup(cache, pa) < |cache| && cache[Lookup(cache, pa)].ha == LastHeard(events[i..], pa, NULL_ETH)
  {
    hide Run, TableRun, EntersAt, LastHeard, Valid, View;
    CacheRefinesTable(h, events);
    EnteredIsLastHeard(View(h.cache), SetupOf(h), events, i, pa);
    ViewKeys(Run(h, events).host.cache);
  }

  // ---------- exactly when a packet goes to the null address ----------

  lemma FrameNames(h: Host, dst: EthAddr, etherType: uint16, payload: seq<byte>)
    ensures var f := EthFrame(h, dst, etherType, payload);
      |f| >= ETH_HEADER && EthAt(f, 0) == dst && f[12] == etherType / 256 && f[13] == etherType % 256
  {
    var f := EthFrame(h, dst, etherType, payload);
    assert f[..6] == dst.Bytes();
    assert EthAt(f, 0) == EthAt(f[..6], 0);
  }

  /**
   A packet is sent to the null address, rather than deferred, exactly when the entry found for its
   next hop has no hardware address.  For 0.0.0.0 that is the first unused entry.
   */
  lemma NullAddressIff(h: Host, next: IPv4Addr, payload: seq<byte>)
    ensures EthFrame(h, NULL_ETH, ET_IPV4, payload) in SendIp(h, next, payload).frames <==>
            next != h.broadcast && Lookup(h.cache, next) < |h.cache| && h.cache[Lookup(h.cache, next)].ha == NULL_ETH
    ensures next != NULL_IP ==>
              (EthFrame(h, NULL_ETH, ET_IPV4, payload) in SendIp(h, next, payload).frames <==>
               next != h.broadcast && next in View(h.cache) && View(h.cache)[next] == NULL_ETH)
  {
    hide EthFrame, EthHeader, ArpPacket, View;
    ViewKeys(h.cache);
    FrameNames(h, NULL_ETH, ET_IPV4, payload);
    var k := Lookup(h.cache, next);
    if next == h.broadcast {
      FrameNames(h, BROADCAST_ETH, ET_IPV4, payload);
    } else if k < |h.cache| {
      FrameNames(h, h.cache[k].ha, ET_IPV4, payload);
    } else {
      FrameNames(h, BROADCAST_ETH, ET_ARP, ArpPacket(OP_REQUEST, h.mac, h.ip, NULL_ETH, next));
    }
  }

  lemma SameFrame(h: Host, r: Host, dst: EthAddr, etherType: uint16, payload: seq<byte>)
    requires h.mac == r.mac
    ensures EthFrame(h, dst, etherType, payload) == EthFrame(r, dst, etherType, payload)
  {}

  lemma {:induction false} RunKeepsMac(h: Host, events: seq<Event>)
    requires Valid(h)
    ensures Run(h, events).host.mac == h.mac
    decreases |events|
  {
    hide Step, Valid, View, TableStep;
    if events != [] {
      StepRefines(h, events[0]);
      RunKeepsMac(Step(h, events[0]).host, events[1..]);
    }
  }

  /**
   Over every trace from a host that does not know the next hop: a packet goes to the null address
   exactly when the next hop has been entered and nothing, or null, was last heard from it since.
   */
  lemma NullAddressOverTraces(h: Host, events: seq<Event>, next: IPv4Addr, payload: seq<byte>)
    requires Valid(h) && next != NULL_IP && next !in View(h.cache)
    ensures EthFrame(h, NULL_ETH, ET_IPV4, payload) in SendIp(Run(h, events).host, next, payload).frames <==>
            next != h.broadcast &&
            exists i: nat :: i < |events| && EntersAt(View(h.cache), SetupOf(h), events, i, next) &&
                             LastHeard(events[i..], next, NULL_ETH) == NULL_ETH
  {
    hide EthFrame, SendIp, TableRun, LastHeard, View, EntersAt, Run, Valid;
    var r, t, c := Run(h, events).host, View(h.cache), SetupOf(h);
    CacheRefinesTable(h, events);
    RunKeepsMac(h, events);
    NullAddressIff(r, next, payload);
    SameFrame(h, r, NULL_ETH, ET_IPV4, payload);
    forall i: nat | i < |events| && EntersAt(t, c, events, i, next)
      ensures next in TableRun(t, c, events) && TableRun(t, c, events)[next] == LastHeard(events[i..], next, NULL_ETH)
    {
      EnteredIsLastHeard(t, c, events, i, next);
    }
    if next in TableRun(t, c, events) {
      var i := WasEntered(t, c, events, next);
    }
  }

  // ---------- resolving an address between two hosts ----------

  lemma ArpFrameArrives(sender: Host, receiver: Host, op: uint16, tha: EthAddr, tpa: IPv4Addr, pad: seq<byte>, stale: byte)
    ensures ArpIn(Arrive(ArpFrame(sender, op, tha, tpa) + pad, stale)) == Some(Arp(op, sender.mac, sender.ip, tpa))
    ensures Receive(receiver, ArpFrame(sender, op, tha, tpa) + pad, stale) ==
            var a := Arp(op, sender.mac, sender.ip, tpa);
            var first := Learn(receiver, a);
            var second := Answer(first.host, a, Lookup(receiver.cache, a.spa) < |receiver.cache|);
            Result(second.host, first.frames + second.frames)
  {
    var body := ArpPacket(op, sender.mac, sender.ip, if op == OP_REQUEST then NULL_ETH else tha, tpa);
    assert ArpFrame(sender, op, tha, tpa) + pad == EthHeader(tha, sender.mac, ET_ARP) + (body + pad);
    EthRoundTrip(tha, sender.mac, ET_ARP, body + pad);
    ArpRoundTrip(op, sender.mac, sender.ip, if op == OP_REQUEST then NULL_ETH else tha, tpa, pad);
  }

  /** Asking for a new address sends one request and parks the packet in an entry of its own. */
  lemma AskParksPacket(a: Host, ip: IPv4Addr, payload: seq<byte>)
    requires Valid(a) && ip != NULL_IP && ip != a.broadcast
    requires Lookup(a.cache, ip) == |a.cache| && Used(a.cache) < CACHE_SIZE
    ensures var r := SendIp(a, ip, payload);
      && |r.frames| == 1 && |r.frames[0]| == 42 && r.frames[0][0..6] == [0xFF, 0xFF, 0xFF, 0xFF, 0xFF, 0xFF]
      && SentBy(r.frames[0], a.mac) && CarriesArp(r.frames[0], 1, a.mac, a.ip, NULL_ETH, ip)
      && |r.host.cache| == |a.cache|
    ensures var r := SendIp(a, ip, payload);
      r.frames == [ArpFrame(a, OP_REQUEST, BROADCAST_ETH, ip)] &&
      Lookup(r.host.cache, ip) == Used(a.cache) &&
      r.host.cache[Used(a.cache)].pkt == Some(payload) &&
      r.host.mac == a.mac && r.host.ip == a.ip && r.host.broadcast == a.broadcast
  {
    var c, k := Add(a.cache, NULL_ETH, ip), Used(a.cache);
    RequestBytes(a, ip);
    hide ArpFrame, CarriesArp, SentBy;
    AddView(a.cache, NULL_ETH, ip);
    LookupIgnoresRest(c[k := c[k].(etherType := ET_IPV4, pkt := Some(payload))], c, ip);
  }

  /** The host asked replies to the asker, whatever the state of its own cache, after what it owed it. */
  lemma AskedReplies(a: Host, b: Host, pad: seq<byte>, stale: byte)
    ensures var r := Receive(b, ArpFrame(a, OP_REQUEST, BROADCAST_ETH, b.ip) + pad, stale);
      0 < |r.frames| <= 2 && r.frames[|r.frames| - 1] == ArpFrame(b, OP_REPLY, a.mac, a.ip)
  {
    ArpFrameArrives(a, b, OP_REQUEST, BROADCAST_ETH, b.ip, pad, stale);
  }

  /** The asked host learns the asker if it knew it or has room. */
  lemma AskedLearns(a: Host, b: Host, pad: seq<byte>, stale: byte)
    requires Valid(b) && a.ip != NULL_IP
    requires a.ip in View(b.cache) || Used(b.cache) < CACHE_SIZE
    ensures var r := Receive(b, ArpFrame(a, OP_REQUEST, BROADCAST_ETH, b.ip) + pad, stale).host;
      a.ip in View(r.cache) && View(r.cache)[a.ip] == a.mac
  {
    ArpFrameArrives(a, b, OP_REQUEST, BROADCAST_ETH, b.ip, pad, stale);
    ViewSize(b.cache);
    ReceiveArpRefines(b, Arp(OP_REQUEST, a.mac, a.ip, b.ip));
  }

  /** The reply releases the parked packet, once, to the address in the reply. */
  lemma ReplyReleasesPacket(a: Host, b: Host, k: nat, payload: seq<byte>, pad: seq<byte>, stale: byte)
    requires |a.cache| == CACHE_SIZE && k < |a.cache| && Lookup(a.cache, b.ip) == k && b.ip != a.broadcast
    requires a.cache[k].pkt == Some(payload)
    ensures var r := Receive(a, ArpFrame(b, OP_REPLY, a.mac, a.ip) + pad, stale);
      r.frames == [EthFrame(a, b.mac, ET_IPV4, payload)] &&
      r.host == a.(cache := a.cache[k := Entry(b.mac, b.ip, 0, None)])
  {
    ArpFrameArrives(b, a, OP_REPLY, a.mac, a.ip, pad, stale);
  }

  /** A second copy of the reply finds the slot empty and sends nothing. */
  lemma SecondReplyIsSilent(a: Host, b: Host, k: nat, pad: seq<byte>, stale: byte)
    requires |a.cache| == CACHE_SIZE && k < |a.cache| && Lookup(a.cache, b.ip) == k
    requires a.cache[k] == Entry(b.mac, b.ip, 0, None)
    ensures Receive(a, ArpFrame(b, OP_REPLY, a.mac, a.ip) + pad, stale) == Result(a, [])
  {
    ArpFrameArrives(b, a, OP_REPLY, a.mac, a.ip, pad, stale);
    assert a.cache[k := a.cache[k]] == a.cache;
  }

  lemma ReplyDelivers(a: Host, b: Host, k: nat, payload: seq<byte>, pad: seq<byte>, stale: byte, reply: seq<byte>, done: Result)
    requires reply == ArpFrame(b, OP_REPLY, a.mac, a.ip) && done == Receive(a, reply + pad, stale)
    requires |a.cache| == CACHE_SIZE && k < |a.cache| && Lookup(a.cache, b.ip) == k && b.ip != a.broadcast
    requires a.cache[k].pkt == Some(payload)
    ensures done.frames == [EthFrame(a, b.mac, ET_IPV4, payload)]
    ensures |done.host.cache| == |a.cache| && Lookup(done.host.cache, b.ip) == k
    ensures done.host.cache[k] == Entry(b.mac, b.ip, 0, None)
  {
    ReplyReleasesPacket(a, b, k, payload, pad, stale);
    LookupIgnoresRest(done.host.cache, a.cache, b.ip);
  }

  lemma RequestIsAnswered(a: Host, b: Host, asked: Result, pad: seq<byte>, stale: byte, replied: Result, reply: seq<byte>)
    requires asked.frames == [ArpFrame(a, OP_REQUEST, BROADCAST_ETH, b.ip)]
    requires asked.host.mac == a.mac && asked.host.ip == a.ip
    requires replied == Receive(b, asked.frames[0] + pad, stale)
    requires replied.frames != [] ==> reply == replied.frames[|replied.frames| - 1]
    ensures replied.frames != [] && reply == ArpFrame(b, OP_REPLY, asked.host.mac, asked.host.ip)
  {
    AskedReplies(a, b, pad, stale);
  }

  /**
   Two-host handshake: host `a` has a packet for the unknown address of host `b`.  It sends one
   request to everyone; `b` replies to `a`, even with a full cache; and the reply makes `a` map b's
   address to b's MAC and transmit the packet exactly once, to that MAC, with its slot empty again.
   */
  lemma Handshake(a: Host, b: Host, payload: seq<byte>, pad1: seq<byte>, pad2: seq<byte>, stale: byte,
                  asked: Result, replied: Result, reply: seq<byte>, done: Result)
    requires Valid(a) && b.ip != NULL_IP && b.ip != a.broadcast
    requires Lookup(a.cache, b.ip) == |a.cache| && Used(a.cache) < CACHE_SIZE
    requires asked == SendIp(a, b.ip, payload)
    requires asked.frames != [] ==> replied == Receive(b, asked.frames[0] + pad1, stale)
    requires replied.frames != [] ==> reply == replied.frames[|replied.frames| - 1]
    requires done == Receive(asked.host, reply + pad2, stale)
    ensures |asked.frames| == 1 && replied.frames != []
    ensures done.frames == [EthFrame(a, b.mac, ET_IPV4, payload)]
    ensures Lookup(done.host.cache, b.ip) == Used(a.cache) < |done.host.cache|
    ensures done.host.cache[Used(a.cache)] == Entry(b.mac, b.ip, 0, None)
    ensures Addressed(asked.frames[0], b.mac) && SentBy(asked.frames[0], a.mac)
    ensures CarriesArp(asked.frames[0], 1, a.mac, a.ip, NULL_ETH, b.ip)
    ensures |reply| == 42 && reply[0..6] == Mac(a.mac) && Addressed(reply, a.mac) && SentBy(reply, b.mac)
    ensures CarriesArp(reply, 2, b.mac, b.ip, a.mac, a.ip)
    ensures |done.frames[0]| == 14 + |payload| && done.frames[0][0..6] == Mac(b.mac) && Addressed(done.frames[0], b.mac)
    ensures SentBy(done.frames[0], a.mac) && CarriesIp(done.frames[0], payload)
  {
    ReplyBytes(b, a.mac, a.ip);
    IpFrameBytes(a, b.mac, payload);
    hide SendIp, Receive, ArpFrame, EthFrame, CarriesArp, CarriesIp, SentBy, Mac;
    AskParksPacket(a, b.ip, payload);
    SameFrame(a, asked.host, b.mac, ET_IPV4, payload);
    RequestIsAnswered(a, b, asked, pad1, stale, replied, reply);
    ReplyDelivers(asked.host, b, Used(a.cache), payload, pad2, stale, reply, done);
  }

  /** A second packet for an address still being resolved goes out at once, to the null address. */
  lemma PendingAddressIsUsed(a: Host, ip: IPv4Addr, first: seq<byte>, second: seq<byte>)
    requires Valid(a) && ip != NULL_IP && ip != a.broadcast
    requires Lookup(a.cache, ip) == |a.cache| && Used(a.cache) < CACHE_SIZE
    ensures SendIp(SendIp(a, ip, first).host, ip, second).frames == [EthFrame(a, NULL_ETH, ET_IPV4, second)]
  {
    AskParksPacket(a, ip, first);
    AddView(a.cache, NULL_ETH, ip);
  }
}
