/**
 Packet formats of src/net/eth.c, src/net/arp.c and src/net/ipv4.c: what the senders write and what
 the receivers read back.
 */
module Frames {
  import opened Words
  import Checksum

  datatype EthAddr = EthAddr(n0: byte, n1: byte, n2: byte, n3: byte, n4: byte, n5: byte) {
    function Bytes(): (r: seq<byte>)
      ensures |r| == 6
    {
      [n0, n1, n2, n3, n4, n5]
    }
  }

  datatype IPv4Addr = IPv4Addr(n0: byte, n1: byte, n2: byte, n3: byte) {
    function Bytes(): (r: seq<byte>)
      ensures |r| == 4
    {
      [n0, n1, n2, n3]
    }
  }

  function EthAt(p: seq<byte>, i: nat): EthAddr
    requires i + 6 <= |p|
  {
    EthAddr(p[i], p[i + 1], p[i + 2], p[i + 3], p[i + 4], p[i + 5])
  }

  function IpAt(p: seq<byte>, i: nat): IPv4Addr
    requires i + 4 <= |p|
  {
    IPv4Addr(p[i], p[i + 1], p[i + 2], p[i + 3])
  }

  const NULL_ETH := EthAddr(0, 0, 0, 0, 0, 0)
  const BROADCAST_ETH := EthAddr(0xFF, 0xFF, 0xFF, 0xFF, 0xFF, 0xFF)
  const NULL_IP := IPv4Addr(0, 0, 0, 0)

  const ET_IPV4: uint16 := 0x0800
  const ET_ARP: uint16 := 0x0806
  const ETH_HEADER: nat := 14
  const SNAP_HEADER: nat := 22
  const ARP_PACKET: nat := 28
  const IPV4_HEADER: nat := 20
  const PROTO_ICMP: byte := 1
  const OP_REQUEST: uint16 := 1
  const OP_REPLY: uint16 := 2
  const ICMP_HEADER: nat := 8
  const ECHO_REPLY: byte := 0
  const ECHO_REQUEST: byte := 8

  /** A 16-bit field, high byte first. */
  function Field(x: uint16): (r: seq<byte>)
    ensures |r| == 2 && Word16(r[0], r[1]) == x
  {
    [x / 256, x % 256]
  }

  // ---------- Ethernet ----------

  function EthHeader(dst: EthAddr, src: EthAddr, etherType: uint16): (r: seq<byte>)
    ensures |r| == ETH_HEADER
  {
    dst.Bytes() + src.Bytes() + Field(etherType)
  }

  datatype EthPacket = EthPacket(etherType: uint16, hdrLen: nat)

  /** `eth_decode`: a length field announces an 802.2 header if the frame is long enough for one. */
  function EthDecode(frame: seq<byte>): (r: Option<EthPacket>)
    ensures r.Some? ==> ETH_HEADER <= r.value.hdrLen <= |frame|
  {
    if |frame| < ETH_HEADER then None
    else
      var n := Word16(frame[12], frame[13]);
      if n <= 1500 && SNAP_HEADER <= |frame| then
        if frame[14] != 0xAA || frame[15] != 0xAA then None
        else Some(EthPacket(Word16(frame[20], frame[21]), SNAP_HEADER))
      else Some(EthPacket(n, ETH_HEADER))
  }

  /** A frame with an ethertype above 1500 is read back as it was built, padding and all. */
  lemma EthRoundTrip(dst: EthAddr, src: EthAddr, etherType: uint16, payload: seq<byte>)
    requires etherType > 1500
    ensures EthDecode(EthHeader(dst, src, etherType) + payload) == Some(EthPacket(etherType, ETH_HEADER))
    ensures (EthHeader(dst, src, etherType) + payload)[ETH_HEADER..] == payload
  {
    var frame := EthHeader(dst, src, etherType) + payload;
    assert frame[12] == Field(etherType)[0] && frame[13] == Field(etherType)[1];
  }

  // ---------- ARP ----------

  datatype Arp = Arp(op: uint16, sha: EthAddr, spa: IPv4Addr, tpa: IPv4Addr)

  function ArpPacket(op: uint16, sha: EthAddr, spa: IPv4Addr, tha: EthAddr, tpa: IPv4Addr): (r: seq<byte>)
    ensures |r| == ARP_PACKET
  {
    [0, 1, 8, 0, 6, 4] + Field(op) + sha.Bytes() + spa.Bytes() + tha.Bytes() + tpa.Bytes()
  }

  /** The checks at the head of `arp_recv`; the target hardware address is not looked at. */
  function ArpDecode(p: seq<byte>): Option<Arp> {
    if |p| < 8 then None
    else if Word16(p[0], p[1]) != 1 || Word16(p[2], p[3]) != ET_IPV4 || |p| < ARP_PACKET then None
    else Some(Arp(Word16(p[6], p[7]), EthAt(p, 8), IpAt(p, 14), IpAt(p, 24)))
  }

  lemma ArpRoundTrip(op: uint16, sha: EthAddr, spa: IPv4Addr, tha: EthAddr, tpa: IPv4Addr, pad: seq<byte>)
    ensures ArpDecode(ArpPacket(op, sha, spa, tha, tpa) + pad) == Some(Arp(op, sha, spa, tpa))
  {
    var p := ArpPacket(op, sha, spa, tha, tpa) + pad;
    assert p[0] == 0 && p[1] == 1 && p[2] == 8 && p[3] == 0;
    assert p[6] == Field(op)[0] && p[7] == Field(op)[1];
    assert p[8..14] == sha.Bytes() && p[14..18] == spa.Bytes() && p[24..28] == tpa.Bytes();
    assert EthAt(p, 8) == EthAt(p[8..14], 0) && IpAt(p, 14) == IpAt(p[14..18], 0) && IpAt(p, 24) == IpAt(p[24..28], 0);
  }

  // ---------- IPv4 ----------

  datatype Ip = Ip(protocol: byte, src: IPv4Addr, dst: IPv4Addr, start: nat, end: nat)

  /** Header of `ipv4_send_intf` before its checksum is filled in. */
  function IpHeaderBlank(len: uint16, protocol: byte, src: IPv4Addr, dst: IPv4Addr): (r: seq<byte>)
    ensures |r| == IPV4_HEADER
  {
    [0x45, 0] + Field(len) + [0, 0, 0, 0, 64, protocol, 0, 0] + src.Bytes() + dst.Bytes()
  }

  function IpHeader(len: uint16, protocol: byte, src: IPv4Addr, dst: IPv4Addr): (r: seq<byte>)
    ensures |r| == IPV4_HEADER
  {
    var blank := IpHeaderBlank(len, protocol, src, dst);
    Checksum.Stored(blank, 10, Checksum.Computed(blank))
  }

  /** What `ipv4_recv` passes on: the part of the packet between the header length and the total length. */
  function IpDecode(p: seq<byte>): (r: Option<Ip>)
    ensures r.Some? ==> r.value.end <= |p|
  {
    if |p| < IPV4_HEADER then None
    else if p[0] / 16 != 4 then None
    else if Word16(p[6], p[7]) % 0x2000 != 0 then None
    else if Word16(p[2], p[3]) > |p| then None
    else Some(Ip(p[9], IpAt(p, 12), IpAt(p, 16), 4 * (p[0] % 16 as int), Word16(p[2], p[3])))
  }

  /** What reaches the protocol above IPv4, which is ICMP only; an oversized header length leaves nothing. */
  function Delivered(p: seq<byte>): seq<(Ip, seq<byte>)> {
    match IpDecode(p)
    case Some(i) => if i.protocol == PROTO_ICMP then [(i, if i.start <= i.end then p[i.start..i.end] else [])] else []
    case None => []
  }

  lemma DeliveredIs(p: seq<byte>)
    ensures Delivered(p) ==
            if |p| < IPV4_HEADER || p[0] / 16 != 4 || Word16(p[6], p[7]) % 0x2000 != 0 || Word16(p[2], p[3]) > |p| || p[9] != PROTO_ICMP
            then []
            else
              var from, to := 4 * (p[0] % 16 as int), Word16(p[2], p[3]);
              [(Ip(p[9], IpAt(p, 12), IpAt(p, 16), from, to), if from <= to then p[from..to] else [])]
  {}

  // ---------- ICMP echo ----------

  /** `len` is the number of data bytes of the request. */
  datatype Echo = Echo(id: uint16, sequence: uint16, len: nat)

  /** The checks of `icmp_recv`: only an echo request is answered. */
  function EchoDecode(data: seq<byte>): Option<Echo> {
    if |data| < ICMP_HEADER || data[0] != ECHO_REQUEST then None
    else Some(Echo(Word16(data[4], data[5]), Word16(data[6], data[7]), |data| - ICMP_HEADER))
  }

  function EchoHeader(kind: byte, e: Echo): (r: seq<byte>)
    ensures |r| == ICMP_HEADER
  {
    [kind, 0, 0, 0] + Field(e.id) + Field(e.sequence)
  }

  /**
   An echo message before its checksum is filled in.  The data is copied from the message's own start,
   so it is the header over and over; the last byte is what the buffer held before.
   */
  function EchoBlank(kind: byte, e: Echo, stale: byte): (r: seq<byte>)
    ensures |r| == ICMP_HEADER + e.len + 1
  {
    seq(ICMP_HEADER + e.len, i requires i >= 0 => EchoHeader(kind, e)[i % ICMP_HEADER]) + [stale]
  }

  function EchoMessage(kind: byte, e: Echo, stale: byte): (r: seq<byte>)
    ensures |r| == ICMP_HEADER + e.len + 1
  {
    var blank := EchoBlank(kind, e, stale);
    Checksum.Stored(blank, 2, Checksum.Computed(blank))
  }

  /** What an echo message does carry. */
  lemma EchoCarries(kind: byte, e: Echo, stale: byte)
    ensures var m := EchoMessage(kind, e, stale);
      m[0] == kind && Word16(m[4], m[5]) == e.id && Word16(m[6], m[7]) == e.sequence
  {
    var blank, header := EchoBlank(kind, e, stale), EchoHeader(kind, e);
    assert forall i :: 0 <= i < ICMP_HEADER ==> blank[i] == header[i];
    assert header[4..6] == Field(e.id) && header[6..8] == Field(e.sequence);
    assert header[4] == header[4..6][0] && header[5] == header[4..6][1] && header[6] == header[6..8][0] && header[7] == header[6..8][1];
    hide Checksum.Computed, EchoHeader, EchoBlank;
  }

  /** A request is understood, with one byte of data more than was asked for. */
  lemma EchoIsUnderstood(e: Echo, stale: byte)
    ensures EchoDecode(EchoMessage(ECHO_REQUEST, e, stale)) == Some(Echo(e.id, e.sequence, e.len + 1))
  {
    EchoCarries(ECHO_REQUEST, e, stale);
    hide EchoMessage;
  }

  /** Every echo message passes the checksum, stray byte and all. */
  lemma EchoVerifies(kind: byte, e: Echo, stale: byte)
    requires ICMP_HEADER + e.len + 1 <= Checksum.MAX_LEN
    ensures Checksum.Computed(EchoMessage(kind, e, stale)) == 0
  {
    var blank := EchoBlank(kind, e, stale);
    assert blank[2] == EchoHeader(kind, e)[2] && blank[3] == EchoHeader(kind, e)[3];
    Checksum.StoredChecksumVerifies(blank, 2);
  }

  /** No echo reply returns the data of its request, as RFC 792 asks: it is one byte longer. */
  lemma EchoDataIsNeverReturned(data: seq<byte>, e: Echo, stale: byte)
    requires EchoDecode(data) == Some(e)
    ensures EchoMessage(ECHO_REPLY, e, stale)[ICMP_HEADER..] != data[ICMP_HEADER..]
  {
    assert |EchoMessage(ECHO_REPLY, e, stale)[ICMP_HEADER..]| == |data[ICMP_HEADER..]| + 1;
  }

  /** The header of every packet sent passes the Internet checksum of RFC 1071. */
  lemma IpHeaderVerifies(len: uint16, protocol: byte, src: IPv4Addr, dst: IPv4Addr)
    ensures Checksum.Computed(IpHeader(len, protocol, src, dst)) == 0
  {
    var blank := IpHeaderBlank(len, protocol, src, dst);
    assert blank[10] == 0 && blank[11] == 0;
    Checksum.StoredChecksumVerifies(blank, 10);
  }

  lemma IpRoundTrip(protocol: byte, src: IPv4Addr, dst: IPv4Addr, payload: seq<byte>, pad: seq<byte>)
    requires IPV4_HEADER + |payload| <= 0xFFFF
    ensures var p := IpHeader(IPV4_HEADER + |payload|, protocol, src, dst) + payload + pad;
      IpDecode(p) == Some(Ip(protocol, src, dst, IPV4_HEADER, IPV4_HEADER + |payload|)) &&
      p[IPV4_HEADER..IPV4_HEADER + |payload|] == payload
  {
    hide Checksum.Computed;
    var len: uint16 := IPV4_HEADER + |payload|;
    var blank, header := IpHeaderBlank(len, protocol, src, dst), IpHeader(len, protocol, src, dst);
    var p := header + payload + pad;
    assert forall i :: 0 <= i < IPV4_HEADER && i != 10 && i != 11 ==> p[i] == blank[i];
    assert blank[0] == 0x45 && blank[6] == 0 && blank[7] == 0 && blank[9] == protocol;
    assert blank[2] == Field(len)[0] && blank[3] == Field(len)[1];
    assert blank[12..16] == src.Bytes() && blank[16..20] == dst.Bytes();
    assert IpAt(p, 12) == IpAt(blank[12..16], 0) && IpAt(p, 16) == IpAt(blank[16..20], 0);
  }

  /** The bytes `eth_send_intf` hands to the device for an IPv4 packet. */
  function IpFrame(dstMac: EthAddr, srcMac: EthAddr, protocol: byte, src: IPv4Addr, dst: IPv4Addr, payload: seq<byte>): seq<byte>
    requires IPV4_HEADER + |payload| <= 0xFFFF
  {
    EthHeader(dstMac, srcMac, ET_IPV4) + (IpHeader(IPV4_HEADER + |payload|, protocol, src, dst) + payload)
  }

  /**
   Encapsulation round trip: for any payload that fits, whatever padding the link appends, the
   receiver recovers the addresses, the protocol and exactly the payload.
   */
  lemma EncapsulationRoundTrip(dstMac: EthAddr, srcMac: EthAddr, protocol: byte, src: IPv4Addr, dst: IPv4Addr,
                               payload: seq<byte>, pad: seq<byte>)
    requires IPV4_HEADER + |payload| <= 0xFFFF
    ensures var frame := IpFrame(dstMac, srcMac, protocol, src, dst, payload) + pad;
      EthDecode(frame) == Some(EthPacket(ET_IPV4, ETH_HEADER)) &&
      IpDecode(frame[ETH_HEADER..]) == Some(Ip(protocol, src, dst, IPV4_HEADER, IPV4_HEADER + |payload|)) &&
      frame[ETH_HEADER..][IPV4_HEADER..IPV4_HEADER + |payload|] == payload
  {
    var header := IpHeader(IPV4_HEADER + |payload|, protocol, src, dst);
    var frame := IpFrame(dstMac, srcMac, protocol, src, dst, payload) + pad;
    assert frame == EthHeader(dstMac, srcMac, ET_IPV4) + (header + payload + pad);
    EthRoundTrip(dstMac, srcMac, ET_IPV4, header + payload + pad);
    IpRoundTrip(protocol, src, dst, payload, pad);
  }
}
