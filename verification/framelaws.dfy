/** The bytes of a frame, at their offsets: what RFC 894, RFC 826, RFC 791 and RFC 792 call for. */
module FrameLayout {
  import opened Words
  import opened Frames
  import Checksum

  /** The six bytes of a hardware address and the four of an IPv4 address, as they are sent. */
  function Mac(a: EthAddr): seq<byte> { [a.n0, a.n1, a.n2, a.n3, a.n4, a.n5] }

  function Ip4(a: IPv4Addr): seq<byte> { [a.n0, a.n1, a.n2, a.n3] }

  const EVERYONE: seq<byte> := [0xFF, 0xFF, 0xFF, 0xFF, 0xFF, 0xFF]

  /** A card with address `mac` takes the frame. */
  predicate Addressed(frame: seq<byte>, mac: EthAddr) {
    |frame| >= 14 && (frame[0..6] == Mac(mac) || frame[0..6] == EVERYONE)
  }

  predicate SentBy(frame: seq<byte>, mac: EthAddr) {
    |frame| >= 14 && frame[6..12] == Mac(mac)
  }

  /** An IPv4 packet in an Ethernet frame. */
  predicate CarriesIp(frame: seq<byte>, packet: seq<byte>) {
    |frame| >= 14 && frame[12..14] == [0x08, 0x00] && frame[14..] == packet
  }

  /** An ARP packet in an Ethernet frame: hardware 1, protocol 0x800, lengths 6 and 4. */
  predicate CarriesArp(frame: seq<byte>, op: byte, sha: EthAddr, spa: IPv4Addr, tha: EthAddr, tpa: IPv4Addr) {
    && |frame| == 42 && frame[12..14] == [0x08, 0x06]
    && frame[14..22] == [0, 1, 0x08, 0x00, 6, 4, 0, op]
    && frame[22..28] == Mac(sha) && frame[28..32] == Ip4(spa)
    && frame[32..38] == Mac(tha) && frame[38..42] == Ip4(tpa)
  }

  lemma EthLayout(dst: EthAddr, src: EthAddr, etherType: uint16, payload: seq<byte>)
    ensures var f := EthHeader(dst, src, etherType) + payload;
      |f| == 14 + |payload| && f[0..6] == Mac(dst) && f[6..12] == Mac(src) &&
      f[12..14] == [etherType / 256, etherType % 256] && f[14..] == payload
  {
    var f := EthHeader(dst, src, etherType) + payload;
    assert f[0..6] == dst.Bytes() && f[6..12] == src.Bytes() && f[12..14] == Field(etherType);
  }

  lemma Joined<T>(a: seq<T>, b: seq<T>, i: nat, j: nat)
    requires i <= j <= |b|
    ensures (a + b)[|a| + i..|a| + j] == b[i..j]
  {}

  lemma ArpLayout(op: uint16, sha: EthAddr, spa: IPv4Addr, tha: EthAddr, tpa: IPv4Addr)
    ensures var p := ArpPacket(op, sha, spa, tha, tpa);
      |p| == 28 && p[0..8] == [0, 1, 0x08, 0x00, 6, 4, op / 256, op % 256] && p[8..14] == Mac(sha) &&
      p[14..18] == Ip4(spa) && p[18..24] == Mac(tha) && p[24..28] == Ip4(tpa)
  {
    var p := ArpPacket(op, sha, spa, tha, tpa);
    assert p[0..8] == [0, 1, 8, 0, 6, 4] + Field(op);
    assert p[8..14] == sha.Bytes() && p[14..18] == spa.Bytes() && p[18..24] == tha.Bytes() && p[24..28] == tpa.Bytes();
  }

  /** An ARP packet behind its Ethernet header. */
  lemma ArpFrameLayout(dst: EthAddr, op: byte, sha: EthAddr, spa: IPv4Addr, tha: EthAddr, tpa: IPv4Addr)
    ensures var f := EthHeader(dst, sha, 0x0806) + ArpPacket(op, sha, spa, tha, tpa);
      |f| == 42 && f[0..6] == Mac(dst) && SentBy(f, sha) && CarriesArp(f, op, sha, spa, tha, tpa)
  {
    var header, p := EthHeader(dst, sha, 0x0806), ArpPacket(op, sha, spa, tha, tpa);
    EthLayout(dst, sha, 0x0806, p);
    ArpLayout(op, sha, spa, tha, tpa);
    hide EthHeader, ArpPacket, Mac, Ip4;
    Joined(header, p, 0, 8);
    Joined(header, p, 8, 14);
    Joined(header, p, 14, 18);
    Joined(header, p, 18, 24);
    Joined(header, p, 24, 28);
  }

  lemma IpBlankLayout(len: uint16, protocol: byte, src: IPv4Addr, dst: IPv4Addr)
    ensures var p := IpHeaderBlank(len, protocol, src, dst);
      |p| == 20 && p[0..10] == [0x45, 0, len / 256, len % 256, 0, 0, 0, 0, 64, protocol] &&
      p[12..16] == Ip4(src) && p[16..20] == Ip4(dst)
  {
    var p := IpHeaderBlank(len, protocol, src, dst);
    assert p[2..4] == Field(len) && p[12..16] == src.Bytes() && p[16..20] == dst.Bytes();
    assert p[2] == p[2..4][0] && p[3] == p[2..4][1];
    assert p[0..10] == [0x45, 0] + Field(len) + [0, 0, 0, 0, 64, protocol];
  }

  /** Version 4, five words of header, the total length, no fragment, 64 hops, protocol, and the addresses. */
  lemma IpLayout(len: uint16, protocol: byte, src: IPv4Addr, dst: IPv4Addr)
    ensures var p := IpHeader(len, protocol, src, dst);
      |p| == 20 && p[0..10] == [0x45, 0, len / 256, len % 256, 0, 0, 0, 0, 64, protocol] &&
      p[12..16] == Ip4(src) && p[16..20] == Ip4(dst) && Checksum.Computed(p) == 0
  {
    var blank, p := IpHeaderBlank(len, protocol, src, dst), IpHeader(len, protocol, src, dst);
    IpBlankLayout(len, protocol, src, dst);
    IpHeaderVerifies(len, protocol, src, dst);
    hide Checksum.Computed, IpHeaderBlank;
    assert p[0..10] == blank[0..10] && p[12..16] == blank[12..16] && p[16..20] == blank[16..20];
  }

  /** A packet of protocol `protocol` between two hosts. */
  predicate IsPacket(p: seq<byte>, protocol: byte, src: IPv4Addr, dst: IPv4Addr, payload: seq<byte>) {
    && |p| == 20 + |payload| && |p| < 0x1_0000
    && p[0..10] == [0x45, 0, |p| / 256, |p| % 256, 0, 0, 0, 0, 64, protocol]
    && Checksum.Computed(p[0..20]) == 0
    && p[12..16] == Ip4(src) && p[16..20] == Ip4(dst) && p[20..] == payload
  }

  lemma PacketLayout(protocol: byte, src: IPv4Addr, dst: IPv4Addr, payload: seq<byte>)
    requires 20 + |payload| < 0x1_0000
    ensures IsPacket(IpHeader(20 + |payload|, protocol, src, dst) + payload, protocol, src, dst, payload)
  {
    var header := IpHeader(20 + |payload|, protocol, src, dst);
    IpLayout(20 + |payload|, protocol, src, dst);
    hide Checksum.Computed, IpHeader;
    var p := header + payload;
    assert p[0..20] == header && p[0..10] == header[0..10] && p[12..16] == header[12..16] && p[16..20] == header[16..20];
  }

  // ---------- what is accepted ----------

  lemma VersionIs(b: byte)
    ensures b / 16 == 4 <==> 0x40 <= b < 0x50
    ensures b / 16 == 4 ==> b % 16 == b - 0x40
  {}

  lemma LowThirteen(a: nat, r: nat)
    requires r < 0x2000
    ensures (0x2000 * a + r) % 0x2000 == r
  {}

  lemma TopThree(high: byte) returns (a: nat, b: nat)
    ensures b < 0x20 && b == high % 0x20 && high == 0x20 * a + b
  {
    a, b := high / 0x20, high % 0x20;
  }

  lemma FragmentIs(high: byte, low: byte)
    ensures Word16(high, low) % 0x2000 == 0 <==> high % 0x20 == 0 && low == 0
  {
    var a, b := TopThree(high);
    LowThirteen(a, 0x100 * b + low);
    assert Word16(high, low) == 0x2000 * a + (0x100 * b + low);
    hide Word16;
  }

  /**
   A packet reaches ICMP exactly if it is complete, of version 4, the first fragment, and of
   protocol 1; what arrives is what lies between the header, options included, and the total length.
   */
  lemma DeliveredIff(p: seq<byte>)
    ensures Delivered(p) != [] <==>
            |p| >= 20 && 0x40 <= p[0] < 0x50 && p[6] % 0x20 == 0 && p[7] == 0 && 256 * (p[2] as int) + p[3] <= |p| && p[9] == 1
    ensures Delivered(p) != [] ==>
              var from, to := 4 * (p[0] as int - 0x40), 256 * (p[2] as int) + p[3];
              && |Delivered(p)| == 1 && Delivered(p)[0].1 == (if from <= to then p[from..to] else [])
              && Ip4(Delivered(p)[0].0.src) == p[12..16] && Ip4(Delivered(p)[0].0.dst) == p[16..20]
  {
    DeliveredIs(p);
    if |p| >= 20 {
      VersionIs(p[0]);
      FragmentIs(p[6], p[7]);
      assert Word16(p[2], p[3]) == 256 * (p[2] as int) + p[3];
    }
    hide Delivered, Word16;
  }

  /** `arp_recv` takes exactly the packets of at least 28 bytes for Ethernet and IPv4; it does not look at the address lengths. */
  lemma ArpDecodeIff(p: seq<byte>)
    ensures ArpDecode(p).Some? <==> |p| >= 28 && p[0..4] == [0, 1, 0x08, 0x00]
    ensures ArpDecode(p).Some? ==>
              var a := ArpDecode(p).value;
              && a.op == 256 * (p[6] as int) + p[7]
              && Mac(a.sha) == p[8..14] && Ip4(a.spa) == p[14..18] && Ip4(a.tpa) == p[24..28]
  {
    if |p| >= 28 {
      assert p[0..4] == [p[0], p[1], p[2], p[3]];
    }
  }

  /** A type above 1500 is taken as it is; so is a length in a frame too short for a SNAP header. */
  lemma PlainFrame(f: seq<byte>)
    requires |f| >= 14 && (256 * (f[12] as int) + f[13] > 1500 || |f| < 22)
    ensures EthDecode(f) == Some(EthPacket(256 * (f[12] as int) + f[13], 14))
  {}

  lemma ShortFrame(f: seq<byte>)
    ensures |f| < 14 ==> EthDecode(f) == None
  {}

  /** An RFC 1042 frame: a length, the SNAP header, the type, and the payload behind it. */
  lemma SnapRoundTrip(dst: EthAddr, src: EthAddr, len: uint16, snap: seq<byte>, etherType: uint16, payload: seq<byte>)
    requires len <= 1500 && |snap| == 6
    ensures var f := EthHeader(dst, src, len) + (snap + [etherType / 256, etherType % 256] + payload);
      EthDecode(f) == (if snap[0] == 0xAA && snap[1] == 0xAA then Some(EthPacket(etherType, 22)) else None) && f[22..] == payload
  {
    var rest := snap + [etherType / 256, etherType % 256] + payload;
    var f := EthHeader(dst, src, len) + rest;
    EthLayout(dst, src, len, rest);
    hide EthHeader;
    assert f[12] == f[12..14][0] && f[13] == f[12..14][1];
    assert f[14] == f[14..][0] && f[15] == f[14..][1] && f[20] == f[14..][6] && f[21] == f[14..][7];
    assert f[22..] == f[14..][8..] == payload;
  }

  // ---------- echo messages ----------

  /** What an echo message begins with, but for its checksum. */
  function EchoHead(kind: byte, e: Echo): (r: seq<byte>)
    ensures |r| == 8
  {
    [kind, 0, 0, 0, e.id / 256, e.id % 256, e.sequence / 256, e.sequence % 256]
  }

  lemma EchoHeadIs(kind: byte, e: Echo)
    ensures EchoHeader(kind, e) == EchoHead(kind, e)
  {}

  lemma EchoBlankAt(kind: byte, e: Echo, stale: byte, i: nat)
    requires i < 8 + e.len
    ensures EchoBlank(kind, e, stale)[i] == EchoHead(kind, e)[i % 8]
  {
    EchoHeadIs(kind, e);
    hide EchoHeader, EchoHead;
  }

  lemma EchoStored(kind: byte, e: Echo, stale: byte)
    ensures var blank, m := EchoBlank(kind, e, stale), EchoMessage(kind, e, stale);
      |m| == |blank| == 9 + e.len && (forall i :: 0 <= i < |m| && i != 2 && i != 3 ==> m[i] == blank[i]) &&
      blank[8 + e.len] == stale
  {
    hide Checksum.Computed, EchoHeader;
  }

  /** An echo message, byte by byte: its data is its own header over and over, with the checksum still zero. */
  lemma EchoLayout(kind: byte, e: Echo, stale: byte)
    ensures var m := EchoMessage(kind, e, stale);
      |m| == 8 + e.len + 1 && m[8 + e.len] == stale &&
      (forall i :: 0 <= i < 8 + e.len && i != 2 && i != 3 ==> m[i] == EchoHead(kind, e)[i % 8])
  {
    EchoStored(kind, e, stale);
    hide EchoMessage, EchoBlank, EchoHead;
    var m := EchoMessage(kind, e, stale);
    forall i | 0 <= i < 8 + e.len && i != 2 && i != 3
      ensures m[i] == EchoHead(kind, e)[i % 8]
    {
      EchoBlankAt(kind, e, stale, i);
    }
  }

  /** `icmp_recv` takes for a ping whatever has 8 bytes and type 8, and reads identifier and sequence number at their offsets. */
  lemma EchoDecodeIff(m: seq<byte>)
    ensures EchoDecode(m).Some? <==> |m| >= 8 && m[0] == 8
    ensures EchoDecode(m).Some? ==>
              EchoDecode(m).value == Echo(256 * (m[4] as int) + m[5], 256 * (m[6] as int) + m[7], |m| - 8)
  {}

  /** Type, code, identifier and sequence number, at their offsets. */
  lemma EchoStarts(kind: byte, e: Echo, stale: byte)
    ensures var m := EchoMessage(kind, e, stale);
      && |m| == 9 + e.len && m[0] == kind && m[1] == 0
      && m[4] == e.id / 256 && m[5] == e.id % 256 && m[6] == e.sequence / 256 && m[7] == e.sequence % 256
  {
    EchoLayout(kind, e, stale);
    hide EchoMessage;
    var m := EchoMessage(kind, e, stale);
    assert m[0] == EchoHead(kind, e)[0 % 8] && m[1] == EchoHead(kind, e)[1 % 8] && m[4] == EchoHead(kind, e)[4 % 8];
    assert m[5] == EchoHead(kind, e)[5 % 8] && m[6] == EchoHead(kind, e)[6 % 8] && m[7] == EchoHead(kind, e)[7 % 8];
  }
}
