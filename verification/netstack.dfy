/**
 The path of a packet through src/net/buf.c, src/net/arp.c, src/net/eth.c, src/net/ipv4.c and the
 rings of src/drivers/intel_e1000.c, over real buffers.  `net` keeps the books of `NetState`.
 */
module NetStack {
  import opened Words
  import opened Links
  import opened NetBufs
  import opened Frames
  import opened ArpCache
  import opened NetState
  import Checksum
  import CopySpec
  import HostSpec
  import HostLaws
  import WireLaws
  import FrameLayout
  import RouteSpec
  import opened Routes

  /** The address argument of `eth_send_intf`, whose type depends on the protocol. */
  datatype Dest = ToEth(eth: EthAddr) | ToIp(ip: IPv4Addr)

  /** A header spliced in front of a packet. */
  lemma SplicePrefix(bytes: seq<byte>, at: nat, part: seq<byte>, end: nat)
    requires at + |part| <= end <= |bytes|
    ensures Splice(bytes, at, part)[at..end] == part + bytes[at + |part|..end]
  {
    var r := Splice(bytes, at, part);
    assert r[at..end] == r[at..at + |part|] + r[at + |part|..end];
    assert r[at + |part|..end] == r[at + |part|..][..end - at - |part|];
    assert bytes[at + |part|..end] == bytes[at + |part|..][..end - at - |part|];
  }

  lemma {:induction false} RemainderOf8(i: nat)
    ensures CopySpec.Remainder(i, ICMP_HEADER) == i % ICMP_HEADER
  {
    if i >= ICMP_HEADER {
      RemainderOf8(i - ICMP_HEADER);
    }
  }

  lemma RemainderIs(i: nat)
    ensures if i < ICMP_HEADER then CopySpec.Remainder(i, ICMP_HEADER) == i
            else CopySpec.Remainder(i, ICMP_HEADER) == CopySpec.Remainder(i - ICMP_HEADER, ICMP_HEADER) < ICMP_HEADER
  {}

  /** `len` bytes copied from a header to right behind it, as `memcpy` does it, repeat the header. */
  lemma HeaderRepeats(headed: seq<byte>, start: nat, len: nat, header: seq<byte>, i: nat)
    requires |header| == ICMP_HEADER && start + ICMP_HEADER + len <= |headed| && i < ICMP_HEADER + len
    requires headed[start..start + ICMP_HEADER] == header
    ensures CopySpec.Forward(headed, start + ICMP_HEADER, start, len)[start + i] == header[CopySpec.Remainder(i, ICMP_HEADER)]
  {
    RemainderIs(i);
    hide CopySpec.Forward, CopySpec.Remainder;
    if i < ICMP_HEADER {
      CopySpec.ForwardLeaves(headed, start + ICMP_HEADER, start, len, start + i);
      assert headed[start + i] == header[i];
    } else {
      var k := i - ICMP_HEADER;
      CopySpec.ForwardRepeats(headed, start + ICMP_HEADER, start, len, k);
      assert start + ICMP_HEADER + k == start + i;
    }
  }

  lemma EchoIsBuilt(bytes: seq<byte>, start: nat, kind: byte, e: Echo)
    requires start + ICMP_HEADER + e.len + 1 <= |bytes|
    ensures var headed := Splice(bytes, start, EchoHeader(kind, e));
      var copied := CopySpec.Forward(headed, start + ICMP_HEADER, start, e.len);
      |copied| == |bytes| &&
      copied[start..start + ICMP_HEADER + e.len + 1] == EchoBlank(kind, e, bytes[start + ICMP_HEADER + e.len])
  {
    var header, end := EchoHeader(kind, e), start + ICMP_HEADER + e.len;
    var headed := Splice(bytes, start, header);
    assert headed[start + ICMP_HEADER..][e.len] == bytes[start + ICMP_HEADER..][e.len];
    hide Splice, EchoHeader, CopySpec.Forward;
    var copied := CopySpec.Forward(headed, start + ICMP_HEADER, start, e.len);
    CopySpec.ForwardLeaves(headed, start + ICMP_HEADER, start, e.len, end);
    var part, blank := copied[start..end + 1], EchoBlank(kind, e, bytes[end]);
    forall i | 0 <= i < |part|
      ensures part[i] == blank[i]
    {
      if i < ICMP_HEADER + e.len {
        HeaderRepeats(headed, start, e.len, header, i);
        RemainderOf8(i);
      }
    }
  }

  /** Other ends of the same memory. */
  lemma Trimmed(d: Buf, from: nat, to: nat)
    requires to <= |d.Packet()|
    ensures var r := d.(start := d.start + from, end := d.start + to);
      r.Packet() == if from <= to then d.Packet()[from..to] else []
  {}

  /** Filling in a checksum that lies inside the packet. */
  lemma StoredInside(bytes: seq<byte>, start: nat, end: nat, c: uint16)
    requires start + 4 <= end <= |bytes|
    ensures bytes[start + 2 := c / 256][start + 3 := c % 256][start..end] == Checksum.Stored(bytes[start..end], 2, c)
  {}

  /** Nothing was sent for a frame exactly if the wire is as before. */
  lemma UnsentIs(h: HostSpec.Host, frame: seq<byte>, stale: byte, before: seq<seq<byte>>, after: seq<seq<byte>>)
    requires after == before + HostSpec.Receive(h, frame, stale).frames
    ensures HostLaws.Unsent(h, HostSpec.Arrive(frame, stale)) == HostLaws.One(HostLaws.Pinged(frame) && after == before)
  {
    hide HostSpec.Receive, HostLaws.Pinged;
  }

  class Stack {
    const pool: Pool
    const mac: EthAddr
    const ip: IPv4Addr
    const broadcast: IPv4Addr
    const table: RouteTable
    var dev: Device
    var arpCache: seq<Entry<NetBuf>>
    ghost var net: Net
    /** Packets handed to ICMP so far. */
    ghost var delivered: seq<(Ip, seq<byte>)>
    /** Frames the device has finished and the driver has not yet looked at. */
    ghost var queue: seq<Arrival>
    /** The host at the start, and everything that has happened to it since. */
    ghost const start: HostSpec.Host
    ghost var log: seq<HostSpec.Event>

    ghost predicate PoolMatches()
      reads this`net, pool, pool.head, pool.free
    {
      pool.Valid() && pool.head !in net.where && pool.free == net.free && pool.allocCount == net.count
    }

    ghost predicate DataMatches()
      reads this`net, net.contents.Keys
    {
      forall b :: b in net.contents ==> b.data == net.contents[b]
    }

    /** The books agree with the memory. */
    ghost predicate Coupled()
      reads this`net, this`dev, this`arpCache, pool, pool.head, pool.free, net.contents.Keys
    {
      PoolMatches() && DataMatches() && dev == net.dev && arpCache == net.arp
    }

    /** What every operation keeps. */
    ghost predicate Core()
      reads this`net, this`dev, this`arpCache, pool, pool.head, pool.free, net.contents.Keys
    {
      Coupled() && Inv(net)
    }

    /** The host as the wire sees it. */
    ghost function Host(): HostSpec.Host
      reads this`net, table`routes
    {
      HostSpec.Host(mac, ip, broadcast, table.routes, Cache(net))
    }

    /** The host and the frames on the wire are those of the trace. */
    ghost predicate Logged()
      reads this`net, this`log, table`routes
    {
      HostSpec.Run(start, log) == HostSpec.Result(Host(), net.wire)
    }

    /** How many buffers were lost, not counting answers to pings that could not be sent. */
    ghost function LostOtherwise(): int
      reads this`net, this`log
    {
      |Lost(net.where)| - HostLaws.UnsentIn(start, log)
    }

    /** `buf` is in the caller's hands with room for an Ethernet header. */
    ghost predicate Ready(buf: NetBuf)
      reads this`net
    {
      buf in net.where && net.where[buf] == Hand && buf in net.contents && HasRoom(net.contents[buf])
    }

    /** The receive setup of `eth_intel_init`: a buffer for every slot. */
    static method FillRxSlots() returns (p: Pool, bufs: seq<NetBuf>, descs: seq<RxDesc>,
                                         ghost where: map<NetBuf, Place>, ghost contents: map<NetBuf, Buf>)
      ensures p.Valid() && fresh(p) && fresh(p.head) && p.free == [] && p.head !in where && fresh(where.Keys)
      ensures |bufs| == RX_SLOTS == |where| == p.allocCount
      ensures Inv(Started(bufs, where, contents)) && descs == Started(bufs, where, contents).dev.rxDescs
      ensures RxOk(Started(bufs, where, contents), [])
      ensures where.Keys == contents.Keys && forall b :: b in contents ==> b.data == contents[b]
    {
      hide Inv, Circle, Filled, RxOk, InHand, Lost;
      p := new Pool();
      bufs, descs := [], [];
      where, contents := map[], map[];
      assert Filled(bufs, where, contents) by { NothingFilled(); }
      for i := 0 to RX_SLOTS
        invariant p.Valid() && fresh(p) && fresh(p.head) && p.free == [] && p.allocCount == i
        invariant fresh(where.Keys) && p.head !in where && where.Keys == contents.Keys
        invariant |bufs| == |descs| == i && Filled(bufs, where, contents)
        invariant forall j :: 0 <= j < i ==> descs[j] == RxDesc(bufs[j], NET_BUF_START, 0, false, false)
        invariant forall b :: b in contents ==> b.data == contents[b] && b.data.start == NET_BUF_START
      {
        var b := p.Alloc();
        FillOne(bufs, where, contents, b, b.data);
        bufs := bufs + [b];
        descs := descs + [RxDesc(b, b.data.start, 0, false, false)];
        where := where[b := Rx(i)];
        contents := contents[b := b.data];
      }
      FilledSize(bufs, where, contents);
      StartedIsValid(bufs, where, contents);
      StartedRing(bufs, where, contents);
    }

    /** The driver state after `eth_intel_init`, with an empty ARP cache. */
    constructor (mac: EthAddr, ip: IPv4Addr, broadcast: IPv4Addr, table: RouteTable)
      ensures Core() && fresh(pool) && fresh(pool.head) && fresh(net.contents.Keys)
      ensures this.table == table && Host() == HostSpec.Host(mac, ip, broadcast, table.routes, EmptyCache()) == start
      ensures Logged() && log == [] && HostSpec.Valid(start)
      ensures net == Started(dev.rxBufs, net.where, net.contents) && delivered == [] && RxOk(net, queue) && queue == []
    {
      hide Inv, RxOk, InHand, Lost;
      var p, bufs, descs, where, contents := FillRxSlots();
      pool := p;
      this.mac, this.ip, this.broadcast, this.table := mac, ip, broadcast, table;
      arpCache := EmptyCache();
      dev := Device(0, descs, bufs, 0, seq(TX_SLOTS, _ => TxDesc(None, 0, 0, true)), seq(TX_SLOTS, _ => None));
      net := Started(bufs, where, contents);
      delivered, queue, log := [], [], [];
      start := HostSpec.Host(mac, ip, broadcast, table.routes, EmptyCache());
      HostSpec.InitIsValid(mac, ip, broadcast, table.routes);
      assert Cache(Started(bufs, where, contents)) == EmptyCache();
    }

    // ---------- buffers in hand ----------

    /** `net_alloc_buf`. */
    method AllocBuf() returns (b: NetBuf)
      requires Core()
      modifies this`net, pool, pool.head, net.contents.Keys
      ensures Core() && b in net.where && net.where[b] == Hand
      ensures b in net.contents && net == Take(old(net), b, net.contents[b].bytes) && net.contents[b].WellFormed()
      ensures b !in old(net.where) || old(net.where[b]) == Free
      ensures Spares(old(net), net, {})
      ensures fresh(net.contents.Keys - old(net.contents.Keys))
      ensures Obtains(old(net), net, b)
    {
      hide Inv, Spares, Circle, InHand, Lost;
      FreeFacts(net);
      b := pool.Alloc();
      forall c | c in net.contents && c != b
        ensures c.data == net.contents[c]
      {
        assert c in net.free ==> c in pool.free;
      }
      TakeKeepsInv(net, b, b.data.bytes);
      ObtainedIs(net, Take(net, b, b.data.bytes), b);
      net := Take(net, b, b.data.bytes);
      assert PoolMatches();
      assert DataMatches();
    }

    /** `net_release_buf` of a buffer with one reference; `next` is what the books say afterwards. */
    method ReleaseBuf(b: NetBuf, ghost next: Net)
      requires PoolMatches() && DataMatches()
      requires b in net.contents && b in net.where && b !in net.free
      requires net.contents[b].WellFormed() && net.contents[b].refCount == 1
      requires forall c :: c in net.free ==> c in net.contents
      requires next.free == [b] + net.free && next.count == (net.count - 1) % TWO_32
      requires next.where.Keys == net.where.Keys && next.contents == net.contents[b := net.contents[b].(refCount := 0)]
      modifies this`net, pool, pool.head, net.contents.Keys
      ensures net == next && PoolMatches() && DataMatches()
    {
      hide Circle, InHand, Lost;
      pool.Release(b);
      assert forall c :: c in net.contents && c != b ==> c.data == net.contents[c];
      net := next;
    }

    /** `net_release_buf` of a buffer in hand. */
    method FreeBuf(b: NetBuf)
      requires Core() && b in net.where && net.where[b] == Hand
      modifies this`net, pool, pool.head, net.contents.Keys
      ensures Core() && b in net.where && net.where[b] == Free && Spares(old(net), net, {b})
      ensures Host() == old(Host()) && net.wire == old(net.wire)
      ensures Parts(old(net), net, b, false)
    {
      hide Inv, Spares, PoolMatches, DataMatches, Cache, InHand, Lost;
      HandFacts(net, b);
      FreeFacts(net);
      GiveKeepsInv(net, b);
      PartsIs(net, Give(net, b), b, Free);
      ReleaseBuf(b, Give(net, b));
    }

    /** An entry in the books that moves buffers between tables, but neither in or out of the pool. */
    ghost method Rebook(next: Net)
      requires PoolMatches() && DataMatches()
      requires next.free == net.free && next.count == net.count
      requires next.where.Keys == net.where.Keys && next.contents == net.contents
      modifies this`net
      ensures net == next && PoolMatches() && DataMatches()
    {
      net := next;
    }

    /** A write into the memory of a buffer, by the driver or by the device. */
    method Store(b: NetBuf, data: Buf, ghost next: Net)
      requires PoolMatches() && DataMatches() && b in net.contents && b in net.where && b !in net.free
      requires next.free == net.free && next.count == net.count && next.where.Keys == net.where.Keys
      requires next.contents == net.contents[b := data]
      modifies this`net, b`data
      ensures net == next && PoolMatches() && DataMatches() && b.data == data
    {
      hide Circle, InHand, Lost;
      b.data := data;
      net := next;
    }

    /** A write into a buffer that is in hand or being received; the reference stays. */
    method SetData(b: NetBuf, data: Buf)
      requires Core() && b in net.where && (net.where[b] == Hand || net.where[b].Rx?)
      requires data.WellFormed() && data.refCount == 1
      modifies this`net, b`data
      ensures Core() && b.data == data && net == Write(old(net), b, data) && Spares(old(net), net, {b})
      ensures net.contents.Keys == old(net.contents.Keys) && Host() == old(Host())
      ensures SameHands(old(net), net)
    {
      hide Inv, Spares, PoolMatches, DataMatches, Cache, InHand, Lost;
      HandFacts(net, b);
      WriteKeepsInv(net, b, data);
      CacheAfterWrite(net, b, data);
      Store(b, data, Write(net, b, data));
    }

    /** The memory of a buffer is what the books say. */
    lemma DataOf(b: NetBuf)
      requires Core() && b in net.where
      ensures b in net.contents && b.data == net.contents[b] && b.data.WellFormed()
      ensures net.where[b] != Free ==> b.data.refCount == 1
    {}

    lemma Shape()
      requires Core()
      ensures Sizes(net) && dev == net.dev && arpCache == net.arp && |Host().cache| == CACHE_SIZE
    {}

    // ---------- the driver's transmit side ----------

    /** The device transmits the oldest frame it has been handed. */
    method DeviceTransmit(j: nat)
      requires Core() && dev.txWrite < TX_SLOTS == |dev.txDescs| && NextToSend(dev.txWrite, dev.txDescs, j)
      modifies this`dev, this`net
      ensures Core() && Spares(old(net), net, {}) && Host() == old(Host())
      ensures dev == old(dev).(txDescs := dev.txDescs) && net.arp == old(net.arp) && net.wire == old(net.wire)
      ensures net.sent == old(net.sent) + [old(net.txFrames)[TxSlot(dev.txWrite, j)]]
      ensures |dev.txDescs| == TX_SLOTS && dev.txDescs[TxSlot(dev.txWrite, j)].done
      ensures fresh(net.contents.Keys - old(net.contents.Keys))
      ensures SameHands(old(net), net)
    {
      hide Inv, Spares, PoolMatches, DataMatches, InHand, Lost;
      var i := TxSlot(dev.txWrite, j);
      DeviceSizes(net);
      CompleteTxKeepsInv(net, j);
      UnsentFrame(net, i);
      hide Cache, InHand, Lost;
      CacheSpared(net, CompleteTx(net, i), {});
      dev := dev.(txDescs := dev.txDescs[i := dev.txDescs[i].(done := true)]);
      Rebook(CompleteTx(net, i));
    }

    /** The wait at the head of `eth_intel_send`: it ends when the device reports the descriptor done. */
    method AwaitDescriptor()
      requires Core()
      modifies this`dev, this`net
      ensures Core() && dev.txWrite == old(dev.txWrite) < |dev.txDescs| && dev.txDescs[dev.txWrite].done
      ensures dev.txBufs == old(dev.txBufs) && net.arp == old(net.arp) && net.wire == old(net.wire)
      ensures Spares(old(net), net, {})
      ensures fresh(net.contents.Keys - old(net.contents.Keys))
      ensures SameHands(old(net), net)
    {
      hide Core, Spares, InHand, Lost;
      Shape();
      SparesSelf(net);
      assert TxSlot(dev.txWrite, 0) == dev.txWrite;
      if !dev.txDescs[dev.txWrite].done {
        DeviceTransmit(0);
      }
    }

    /** Frees the packet that was sent with a finished descriptor. */
    method ReleaseSent(w: nat)
      requires Core() && w < |dev.txBufs| && w < |dev.txDescs| && dev.txBufs[w].Some? && dev.txDescs[w].done
      modifies this`dev, this`net, pool, pool.head, net.contents.Keys
      ensures old(dev).txBufs[w].value in old(net).contents && net == EmptySlot(old(net), w)
      ensures Core() && dev == old(dev).(txBufs := old(dev).txBufs[w := None])
      ensures net.arp == old(net.arp) && net.wire == old(net.wire)
      ensures Spares(old(net), net, {})
      ensures fresh(net.contents.Keys - old(net.contents.Keys))
      ensures SameHands(old(net), net)
    {
      hide Inv, Spares, PoolMatches, DataMatches, InHand, Lost;
      var oldBuf := dev.txBufs[w].value;
      DeviceSizes(net);
      EmptySlotKeepsInv(net, w);
      TxFacts(net, w);
      FreeFacts(net);
      SameHandsIs(net, EmptySlot(net, w), oldBuf, Free);
      ReleaseBuf(oldBuf, EmptySlot(net, w));
      dev := dev.(txBufs := dev.txBufs[w := None]);
    }

    /** Writes the descriptor for `buf` into the empty slot `txWrite` and moves on. */
    method PostDescriptor(buf: NetBuf)
      requires Core() && buf in net.where && net.where[buf] == Hand
      requires buf.data.start <= buf.data.end <= |buf.data.bytes|
      requires dev.txWrite < |dev.txBufs| && dev.txBufs[dev.txWrite].None?
      requires dev.txWrite < |dev.txDescs| && dev.txDescs[dev.txWrite].done
      modifies this`dev, this`net
      ensures buf in old(net).contents && net == Post(old(net), buf)
      ensures Core() && buf in net.where && net.where[buf] == Tx(old(dev.txWrite))
      ensures net.wire == old(net.wire) + [buf.data.Packet()] && net.arp == old(net.arp)
      ensures Spares(old(net), net, {buf})
      ensures fresh(net.contents.Keys - old(net.contents.Keys))
      ensures Parts(old(net), net, buf, false)
    {
      hide Inv, Spares, PoolMatches, InHand, Lost;
      var w := dev.txWrite;
      DeviceSizes(net);
      HandFacts(net, buf);
      PostKeepsInv(net, buf);
      var desc := TxDesc(Some(buf), buf.data.start, buf.data.end - buf.data.start, false);
      dev := dev.(txDescs := dev.txDescs[w := desc], txBufs := dev.txBufs[w := Some(buf)], txWrite := NextTx(w));
      PartsIs(net, Post(net, buf), buf, Tx(w));
      Rebook(Post(net, buf));
    }

    lemma SlotFacts(i: nat)
      requires Core() && i < |net.dev.txBufs| && net.dev.txBufs[i].Some?
      ensures net.dev.txBufs[i].value in net.contents
    {
      TxFacts(net, i);
    }

    lemma FinishSteps(s: Sending, buf: NetBuf)
      requires Core() && Undisturbed(net, s) && CanFinish(net, s, buf) && buf in net.where && net.where[buf] == Hand
      ensures s.oldBuf.Some? ==>
                net.dev.txBufs[s.slot].value in net.contents &&
                var m := EmptySlot(net, s.slot);
                CanFinish(m, s, buf) && Finish(net, s, buf) == Post(m, buf) &&
                buf in m.where && m.where[buf] == Hand && m.contents[buf] == net.contents[buf]
      ensures s.oldBuf.None? ==> Finish(net, s, buf) == Post(net, buf)
    {
      hide Inv, PoolMatches, DataMatches, Finish, Post, EmptySlot, InHand, Lost;
      if s.oldBuf.Some? {
        TxFacts(net, s.slot);
        HandSurvives(net, s.slot, buf);
        FinishIntoFull(net, s, buf);
      } else {
        FinishIntoEmpty(net, s, buf);
      }
    }

    /** `eth_intel_send` after its wait, when nobody else has sent meanwhile. */
    method FinishSend(s: Sending, buf: NetBuf)
      requires Core() && Undisturbed(net, s) && s.slot < |dev.txDescs| && dev.txDescs[s.slot].done
      requires buf in net.where && net.where[buf] == Hand && CanFinish(net, s, buf)
      modifies this`dev, this`net, pool, pool.head, net.contents.Keys
      ensures Core() && net == Finish(old(net), s, buf)
      ensures buf in net.where && net.where[buf] == Tx(s.slot)
      ensures net.wire == old(net.wire) + [old(buf.data.Packet())] && net.arp == old(net.arp)
      ensures Spares(old(net), net, {buf})
      ensures fresh(net.contents.Keys - old(net.contents.Keys))
      ensures Parts(old(net), net, buf, false)
    {
      hide Core, Spares, Finish, Buf.Packet, InHand, Lost;
      FinishSteps(s, buf);
      Shape();
      DataOf(buf);
      if s.oldBuf.Some? {
        ReleaseSent(s.slot);
        ghost var n1 := net;
        Shape();
        DataOf(buf);
        PostDescriptor(buf);
        SparesChain(old(net), n1, net, {}, {buf}, {buf});
      } else {
        PostDescriptor(buf);
      }
    }

    /** `eth_intel_send`, when nobody else sends during its wait. */
    method EthIntelSend(buf: NetBuf)
      requires Core() && buf in net.where && net.where[buf] == Hand
      requires buf.data.start <= buf.data.end <= |buf.data.bytes|
      modifies this`dev, this`net, pool, pool.head, net.contents.Keys
      ensures Core() && buf in net.where && net.where[buf] == Tx(old(dev.txWrite))
      ensures net.wire == old(net.wire) + [old(buf.data.Packet())] && net.arp == old(net.arp)
      ensures Spares(old(net), net, {buf})
      ensures fresh(net.contents.Keys - old(net.contents.Keys))
      ensures Parts(old(net), net, buf, false)
    {
      hide Core, Spares, Finish, Buf.Packet, InHand, Lost;
      Shape();
      DataOf(buf);
      var s := Sending(dev.txWrite, dev.txBufs[dev.txWrite]);
      AwaitDescriptor();
      ghost var n1 := net;
      Spared(old(net), n1, {}, buf);
      Shape();
      DataOf(buf);
      if s.oldBuf.Some? {
        SlotFacts(s.slot);
      }
      FinishSend(s, buf);
      SparesChain(old(net), n1, net, {}, {buf}, {buf});
    }

    // ---------- sending frames ----------

    /** Steps that leave the entries and the waiting packets alone leave the host alone. */
    twostate lemma SameHost(except: set<NetBuf>)
      requires old(Core()) && net.arp == old(net.arp) && Spares(old(net), net, except) && table.routes == old(table.routes)
      requires forall b :: b in except && b in old(net.where) ==> !old(net.where)[b].Deferred?
      ensures Host() == old(Host())
    {
      hide Inv, PoolMatches, DataMatches, Spares, Cache, InHand, Lost;
      CacheSpared(old(net), net, except);
    }

    /** Writes a header in front of a packet: `pkt->start -= sizeof(header)` and the stores behind it. */
    method PushHeader(pkt: NetBuf, header: seq<byte>)
      requires Core() && pkt in net.where && net.where[pkt] == Hand
      requires NET_BUF_FIELDS + |header| <= pkt.data.start <= pkt.data.end <= |pkt.data.bytes|
      modifies this`net, pkt`data
      ensures Core() && pkt in net.where && net.where[pkt] == Hand && Host() == old(Host())
      ensures pkt.data.start == old(pkt.data.start) - |header| && pkt.data.end == old(pkt.data.end) <= |pkt.data.bytes|
      ensures pkt.data.Packet() == header + old(pkt.data.Packet())
      ensures net.arp == old(net.arp) && net.wire == old(net.wire) && Spares(old(net), net, {pkt})
      ensures net.contents.Keys == old(net.contents.Keys)
      ensures SameHands(old(net), net)
    {
      hide Core, Spares, Cache, InHand, Lost;
      DataOf(pkt);
      var d := pkt.data;
      var start := d.start - |header|;
      SplicePrefix(d.bytes, start, header, d.end);
      SetData(pkt, d.(start := start, bytes := Splice(d.bytes, start, header)));
    }

    /** The tail of `eth_send_intf`: the header goes in front of the packet, and the frame to the device. */
    method Transmit(dst: EthAddr, etherType: uint16, pkt: NetBuf)
      requires Core() && Ready(pkt)
      modifies this`dev, this`net, pool, pool.head, net.contents.Keys
      ensures Core() && net.arp == old(net.arp)
      ensures net.wire == old(net.wire) + [HostSpec.EthFrame(Host(), dst, etherType, old(pkt.data.Packet()))]
      ensures Spares(old(net), net, {pkt})
      ensures fresh(net.contents.Keys - old(net.contents.Keys))
      ensures Host() == old(Host())
      ensures Parts(old(net), net, pkt, false)
    {
      hide Core, Spares, Cache, InHand, Lost;
      DataOf(pkt);
      PushHeader(pkt, EthHeader(dst, mac, etherType));
      ghost var n1 := net;
      EthIntelSend(pkt);
      SparesChain(old(net), n1, net, {pkt}, {pkt}, {pkt});
      SameHost({pkt});
    }

    /** The packet of `arp_send` in a new buffer. */
    method BuildArp(op: uint16, tha: EthAddr, tpa: IPv4Addr) returns (pkt: NetBuf)
      requires Core()
      modifies this`net, pool, pool.head, net.contents.Keys
      ensures Core() && Ready(pkt)
      ensures pkt.data.Packet() == ArpPacket(op, mac, ip, if op == OP_REQUEST then NULL_ETH else tha, tpa)
      ensures pkt !in old(net.where) || old(net.where[pkt]) == Free
      ensures Host() == old(Host()) && net.arp == old(net.arp) && net.wire == old(net.wire) && Spares(old(net), net, {})
      ensures fresh(net.contents.Keys - old(net.contents.Keys))
      ensures Obtains(old(net), net, pkt)
    {
      hide Core, Spares, Cache, ArpPacket, InHand, Lost;
      pkt := AllocBuf();
      SameHost({});
      ghost var n1 := net;
      DataOf(pkt);
      var d := pkt.data;
      var body := ArpPacket(op, mac, ip, if op == OP_REQUEST then NULL_ETH else tha, tpa);
      SplicePrefix(d.bytes, d.start, body, d.start + ARP_PACKET);
      SetData(pkt, d.(end := d.end + ARP_PACKET, bytes := Splice(d.bytes, d.start, body)));
      NewBufferSpared(old(net), n1, net, pkt);
      DataOf(pkt);
    }

    /** `arp_send`: builds the packet in a new buffer and sends it through `eth_send_intf`. */
    method ArpSend(op: uint16, tha: EthAddr, tpa: IPv4Addr)
      requires Core()
      modifies this`dev, this`arpCache, this`net, pool, pool.head, net.contents.Keys
      ensures Core() && net.arp == old(net.arp)
      ensures net.wire == old(net.wire) + [HostSpec.ArpFrame(Host(), op, tha, tpa)]
      ensures HostSpec.IsArpFrame(Host(), net.wire[|old(net.wire)|], op, tha, tpa)
      ensures Spares(old(net), net, {})
      ensures fresh(net.contents.Keys - old(net.contents.Keys))
      ensures Host() == old(Host())
      ensures SameHands(old(net), net)
      decreases 1
    {
      HostSpec.ArpBytes(Host(), op, tha, tpa);
      hide HostSpec.IsArpFrame, InHand, Lost;
      hide Core, Spares, Cache, ArpPacket, InHand, Lost;
      var pkt := BuildArp(op, tha, tpa);
      ghost var n1 := net;
      EthSendIntf(ToEth(tha), ET_ARP, pkt);
      NewBufferSpared(old(net), n1, net, pkt);
    }

    // ---------- the ARP cache ----------

    /** `arp_lookup`. */
    method ArpLookup(pa: IPv4Addr) returns (k: nat)
      requires Core()
      ensures k == Lookup(arpCache, pa) <= CACHE_SIZE == |arpCache|
      ensures k == Lookup(Host().cache, pa)
    {
      hide Inv, PoolMatches, DataMatches, Cache, InHand, Lost;
      Shape();
      k := 0;
      while k < CACHE_SIZE
        invariant k <= CACHE_SIZE
        invariant forall i :: 0 <= i < k ==> arpCache[i].pa != pa
      {
        if arpCache[k].pa == pa {
          break;
        }
        k := k + 1;
      }
      LookupIs(arpCache, pa, k);
      LookupInCache(net, pa);
    }

    /** Stores addresses in an entry. */
    method SetAddresses(k: nat, ha: EthAddr, pa: IPv4Addr)
      requires Core() && k < CACHE_SIZE
      modifies this`arpCache, this`net
      ensures Core() && net == Rename(old(net), k, ha, pa)
      ensures Host() == old(Host()).(cache := old(Host()).cache[k := old(Host()).cache[k].(ha := ha, pa := pa)])
      ensures Spares(old(net), net, {})
      ensures SameHands(old(net), net)
    {
      hide Inv, Spares, PoolMatches, DataMatches, Cache, InHand, Lost;
      DeviceSizes(net);
      RenameKeepsInv(net, k, ha, pa);
      CacheAfterRename(net, k, ha, pa);
      arpCache := arpCache[k := arpCache[k].(ha := ha, pa := pa)];
      Rebook(Rename(net, k, ha, pa));
    }

    /** `arp_add`: the new entry, or the size of a full cache. */
    method ArpAdd(ha: EthAddr, pa: IPv4Addr) returns (k: nat)
      requires Core()
      modifies this`arpCache, this`net
      ensures Core() && k == Lookup(old(Host()).cache, NULL_IP) <= CACHE_SIZE
      ensures Host() == old(Host()).(cache := Add(old(Host()).cache, ha, pa))
      ensures net.wire == old(net.wire) && net.contents == old(net.contents) && net.where == old(net.where) && net.dev == old(net.dev)
    {
      hide Inv, Spares, PoolMatches, DataMatches, Cache, InHand, Lost;
      Shape();
      k := ArpLookup(NULL_IP);
      if k != CACHE_SIZE {
        SetAddresses(k, ha, pa);
      }
    }

    /** The head of `arp_request`: finds or makes the entry for `tpa`. */
    method FindOrAdd(tpa: IPv4Addr) returns (k: nat)
      requires Core()
      modifies this`arpCache, this`net
      ensures Core() && k == Lookup(Host().cache, tpa) <= CACHE_SIZE == |arpCache|
      ensures Host() == old(Host()).(cache := HostSpec.WithEntry(old(Host()).cache, tpa))
      ensures net.wire == old(net.wire) && net.contents == old(net.contents) && net.where == old(net.where) && net.dev == old(net.dev)
    {
      hide Inv, Spares, PoolMatches, DataMatches, Cache, InHand, Lost;
      Shape();
      k := ArpLookup(tpa);
      if k == CACHE_SIZE {
        AddedIsFound(Host().cache, NULL_ETH, tpa);
        k := ArpAdd(NULL_ETH, tpa);
        Shape();
      }
    }

    /** The packet that waits in an entry is given up for a newer one. */
    method ForgetWaiting(k: nat)
      requires Core() && k < CACHE_SIZE <= |arpCache| && arpCache[k].pkt.Some?
      modifies this`arpCache, this`net, pool, pool.head, net.contents.Keys
      ensures Core() && net.wire == old(net.wire) && |arpCache| == CACHE_SIZE && arpCache[k].pkt.None?
      ensures Host() == old(Host()).(cache := old(Host()).cache[k := old(Host()).cache[k].(pkt := None)])
      ensures SparesHeld(old(net), net, {})
      ensures net.contents.Keys == old(net.contents.Keys)
      ensures SameHands(old(net), net)
    {
      hide Inv, Spares, SparesHeld, PoolMatches, DataMatches, Cache, Forget, InHand, Lost;
      DeviceSizes(net);
      CacheEntry(net, k);
      var waiting := arpCache[k].pkt.value;
      ForgetKeepsInv(net, k);
      WaitingFacts(net, k);
      ForgetFields(net, k);
      FreeFacts(net);
      CacheAfterForget(net, k);
      SparesIsMore(net, Forget(net, k), {waiting}, {});
      SameHandsIs(net, Forget(net, k), waiting, Free);
      ReleaseBuf(waiting, Forget(net, k));
      arpCache := arpCache[k := arpCache[k].(pkt := None)];
    }

    method ParkPacket(k: nat, pkt: NetBuf)
      requires Core() && k < CACHE_SIZE <= |arpCache| && arpCache[k].pkt.None? && Ready(pkt)
      modifies this`arpCache, this`net
      ensures Core() && net.wire == old(net.wire)
      ensures Host() == old(Host()).(cache :=
                old(Host()).cache[k := old(Host()).cache[k].(etherType := ET_IPV4, pkt := Some(pkt.data.Packet()))])
      ensures SparesHeld(old(net), net, {pkt}) && net.contents == old(net.contents)
      ensures Parts(old(net), net, pkt, false)
    {
      hide Inv, Spares, SparesHeld, PoolMatches, Cache, InHand, Lost;
      DeviceSizes(net);
      ParkKeepsInv(net, k, pkt);
      CacheAfterPark(net, k, pkt);
      SparesIsMore(net, Park(net, k, pkt), {pkt}, {pkt});
      arpCache := arpCache[k := arpCache[k].(etherType := ET_IPV4, pkt := Some(pkt))];
      PartsIs(net, Park(net, k, pkt), pkt, Deferred(k));
      Rebook(Park(net, k, pkt));
    }

    /** A packet nobody will send or release any more. */
    ghost method LosePacket(pkt: NetBuf)
      requires Core() && pkt in net.where && net.where[pkt] == Hand
      modifies this`net
      ensures Core() && net == Drop(old(net), pkt)
      ensures Host() == old(Host()) && SparesHeld(old(net), net, {pkt})
      ensures Parts(old(net), net, pkt, true)
    {
      hide Inv, Spares, SparesHeld, PoolMatches, DataMatches, InHand, Lost;
      DropKeepsInv(net, pkt);
      SparesIsMore(net, Drop(net, pkt), {pkt}, {pkt});
      assert Cache(Drop(net, pkt)) == Cache(net);
      PartsIs(net, Drop(net, pkt), pkt, Dropped);
      Rebook(Drop(net, pkt));
    }

    /** `pkt` waits in entry `k`; a packet that waited there is released. */
    method Wait(k: nat, pkt: NetBuf)
      requires Core() && k < CACHE_SIZE && Ready(pkt)
      modifies this`arpCache, this`net, pool, pool.head, net.contents.Keys
      ensures Core() && net.wire == old(net.wire)
      ensures Host() == old(Host()).(cache :=
                old(Host()).cache[k := old(Host()).cache[k].(etherType := ET_IPV4, pkt := Some(old(pkt.data.Packet())))])
      ensures SparesHeld(old(net), net, {pkt})
      ensures net.contents.Keys == old(net.contents.Keys)
      ensures Parts(old(net), net, pkt, false)
    {
      hide Core, Spares, SparesHeld, Cache, InHand, Lost;
      Shape();
      DataOf(pkt);
      if arpCache[k].pkt.Some? {
        ForgetWaiting(k);
        Held(old(net), net, {}, pkt);
        DataOf(pkt);
      } else {
        SameBooks(net, net, {});
      }
      ghost var n1 := net;
      Shape();
      ParkPacket(k, pkt);
      HeldChain(old(net), n1, net, {}, {pkt}, {pkt});
    }

    /** `arp_request`: the packet waits in the entry of `tpa`, or is lost if the cache is full. */
    method ArpRequest(tpa: IPv4Addr, pkt: NetBuf)
      requires Core() && Ready(pkt)
      modifies this`dev, this`arpCache, this`net, pool, pool.head, net.contents.Keys
      ensures Core()
      ensures Host() == HostSpec.Request(old(Host()), tpa, old(pkt.data.Packet())).host
      ensures net.wire == old(net.wire) + HostSpec.Request(old(Host()), tpa, old(pkt.data.Packet())).frames
      ensures SparesHeld(old(net), net, {pkt})
      ensures fresh(net.contents.Keys - old(net.contents.Keys))
      ensures Parts(old(net), net, pkt, net.wire == old(net.wire))
      decreases 2
    {
      hide Core, Spares, SparesHeld, Cache, InHand, Lost;
      DataOf(pkt);
      var k := FindOrAdd(tpa);
      Shape();
      ghost var n1 := net;
      SameBooks(old(net), n1, {pkt});
      if k != CACHE_SIZE {
        Wait(k, pkt);
        ghost var n2 := net;
        ArpSend(OP_REQUEST, BROADCAST_ETH, tpa);
        SparesIsMore(n2, net, {}, {pkt});
        HeldChain(old(net), n1, n2, {pkt}, {pkt}, {pkt});
        HeldChain(old(net), n2, net, {pkt}, {pkt}, {pkt});
      } else {
        LosePacket(pkt);
        HeldChain(old(net), n1, net, {pkt}, {pkt}, {pkt});
        assert net.wire == net.wire + [];
      }
    }

    // ---------- `eth_send_intf` ----------

    /** Finds the Ethernet address by protocol; a packet of any other protocol is lost. */
    method EthSendIntf(dst: Dest, etherType: uint16, pkt: NetBuf)
      requires Core() && Ready(pkt)
      requires etherType == ET_ARP ==> dst.ToEth?
      requires etherType == ET_IPV4 ==> dst.ToIp?
      modifies this`dev, this`arpCache, this`net, pool, pool.head, net.contents.Keys
      ensures Core() && SparesHeld(old(net), net, {pkt})
      ensures fresh(net.contents.Keys - old(net.contents.Keys))
      ensures etherType == ET_ARP ==>
                net.arp == old(net.arp) && Host() == old(Host()) && Spares(old(net), net, {pkt}) &&
                net.wire == old(net.wire) + [HostSpec.EthFrame(Host(), dst.eth, ET_ARP, old(pkt.data.Packet()))]
      ensures etherType == ET_IPV4 ==>
                Host() == HostSpec.SendIp(old(Host()), dst.ip, old(pkt.data.Packet())).host &&
                net.wire == old(net.wire) + HostSpec.SendIp(old(Host()), dst.ip, old(pkt.data.Packet())).frames
      ensures etherType != ET_ARP && etherType != ET_IPV4 ==>
                Host() == old(Host()) && net.wire == old(net.wire) && pkt in net.where && net.where[pkt] == Dropped
      ensures Parts(old(net), net, pkt, net.wire == old(net.wire))
      decreases if etherType == ET_IPV4 then 3 else 0
    {
      hide Core, Spares, SparesHeld, Cache, HostSpec.Request, HostSpec.EthFrame, InHand, Lost;
      if etherType == ET_ARP {
        Transmit(dst.eth, etherType, pkt);
        SparesIsMore(old(net), net, {pkt}, {pkt});
      } else if etherType == ET_IPV4 {
        if dst.ip == broadcast {
          Transmit(BROADCAST_ETH, etherType, pkt);
          SparesIsMore(old(net), net, {pkt}, {pkt});
        } else {
          Shape();
          var k := ArpLookup(dst.ip);
          if k == CACHE_SIZE {
            ArpRequest(dst.ip, pkt);
          } else {
            CacheEntry(net, k);
            Transmit(arpCache[k].ha, etherType, pkt);
            SparesIsMore(old(net), net, {pkt}, {pkt});
          }
        }
      } else {
        LosePacket(pkt);
      }
    }

    // ---------- receiving frames ----------

    /** The packet that waits in entry `k` is taken out to be sent. */
    method TakeWaiting(k: nat) returns (pkt: NetBuf, etherType: uint16)
      requires Core() && k < CACHE_SIZE <= |arpCache| && arpCache[k].pkt.Some?
      modifies this`arpCache, this`net
      ensures Core() && Ready(pkt) && etherType == ET_IPV4
      ensures pkt in old(net.where) && old(net.where)[pkt].Deferred?
      ensures old(Host()).cache[k].pkt == Some(pkt.data.Packet())
      ensures Host() == old(Host()).(cache := old(Host()).cache[k := old(Host()).cache[k].(etherType := 0, pkt := None)])
      ensures net.wire == old(net.wire) && SparesHeld(old(net), net, {}) && net.contents == old(net.contents)
      ensures Obtains(old(net), net, pkt)
    {
      hide Inv, Spares, SparesHeld, PoolMatches, Cache, InHand, Lost;
      DeviceSizes(net);
      CacheEntry(net, k);
      WaitingFacts(net, k);
      pkt, etherType := arpCache[k].pkt.value, arpCache[k].etherType;
      UnparkKeepsInv(net, k);
      CacheAfterUnpark(net, k);
      SparesIsMore(net, Unpark(net, k), {pkt}, {});
      arpCache := arpCache[k := arpCache[k].(etherType := 0, pkt := None)];
      ObtainedIs(net, Unpark(net, k), pkt);
      Rebook(Unpark(net, k));
    }

    /**
     The first half of `arp_recv`: an existing entry of the sender is refreshed, and a packet that
     waited for it is sent.  The entry is emptied before the packet goes out rather than after: on
     this path `eth_send_intf` finds the address and does not look at the entry's packet.
     */
    method LearnSender(a: Arp) returns (merge: bool)
      requires Core()
      modifies this`dev, this`arpCache, this`net, pool, pool.head, net.contents.Keys
      ensures Core() && merge == (Lookup(old(Host()).cache, a.spa) < CACHE_SIZE)
      ensures Host() == HostSpec.Learn(old(Host()), a).host
      ensures net.wire == old(net.wire) + HostSpec.Learn(old(Host()), a).frames
      ensures SparesHeld(old(net), net, {})
      ensures fresh(net.contents.Keys - old(net.contents.Keys))
      ensures SameHands(old(net), net)
    {
      hide Core, Spares, SparesHeld, Cache, HostSpec.SendIp, HostSpec.Learn, Lookup, InHand, Lost;
      Shape();
      var k := ArpLookup(a.spa);
      merge := k != CACHE_SIZE;
      ghost var h := Host();
      assert net.wire + [] == net.wire;
      if merge {
        CacheEntry(net, k);
        SetAddresses(k, a.sha, arpCache[k].pa);
        ghost var n1, h1 := net, Host();
        SparesIsMore(old(net), n1, {}, {});
        Shape();
        CacheEntry(net, k);
        if arpCache[k].pkt.Some? {
          var pkt, etherType := TakeWaiting(k);
          ghost var n2, h2 := net, Host();
          HeldChain(old(net), n1, n2, {}, {}, {});
          HostSpec.LearnSends(h, a, h1, h2, pkt.data.Packet());
          EthSendIntf(ToIp(a.spa), etherType, pkt);
          HeldChain(old(net), n2, net, {}, {pkt}, {pkt});
          NotHeld(old(net), net, pkt);
        } else {
          HostSpec.LearnIsSilent(h, a, h1);
        }
      } else {
        SameBooks(net, net, {});
        HostSpec.LearnIsSilent(h, a, h);
      }
    }

    /** The second half of `arp_recv`: a packet for this host makes an entry, and a request gets a reply. */
    method AnswerTarget(a: Arp, merge: bool)
      requires Core()
      modifies this`dev, this`arpCache, this`net, pool, pool.head, net.contents.Keys
      ensures Core()
      ensures Host() == HostSpec.Answer(old(Host()), a, merge).host
      ensures net.wire == old(net.wire) + HostSpec.Answer(old(Host()), a, merge).frames
      ensures SparesHeld(old(net), net, {})
      ensures fresh(net.contents.Keys - old(net.contents.Keys))
      ensures SameHands(old(net), net)
    {
      hide Core, Spares, SparesHeld, Cache, InHand, Lost;
      SameBooks(net, net, {});
      if a.tpa == ip {
        if !merge {
          var _ := ArpAdd(a.sha, a.spa);
          SameBooks(old(net), net, {});
        }
        ghost var n1 := net;
        if a.op == OP_REQUEST {
          ArpSend(OP_REPLY, a.sha, a.spa);
          SparesIsMore(n1, net, {}, {});
          HeldChain(old(net), n1, net, {}, {}, {});
        } else {
          assert net.wire == net.wire + [];
        }
      } else {
        assert net.wire == net.wire + [];
      }
    }

    /** `arp_recv`. */
    method ArpRecv(pkt: NetBuf)
      requires Core() && pkt in net.where && (net.where[pkt].Rx? || net.where[pkt] == Hand)
      modifies this`dev, this`arpCache, this`net, pool, pool.head, net.contents.Keys
      ensures Core()
      ensures Host() == HostSpec.ReceiveArp(old(Host()), old(pkt.data.Packet())).host
      ensures net.wire == old(net.wire) + HostSpec.ReceiveArp(old(Host()), old(pkt.data.Packet())).frames
      ensures SparesHeld(old(net), net, {})
      ensures fresh(net.contents.Keys - old(net.contents.Keys))
      ensures SameHands(old(net), net)
    {
      hide Core, Spares, SparesHeld, Cache, HostSpec.Learn, HostSpec.Answer, InHand, Lost;
      SameBooks(net, net, {});
      assert net.wire == net.wire + [];
      var data := pkt.data.Packet();
      if |data| < 8 {
        return;
      }
      var htype, ptype, op := Word16(data[0], data[1]), Word16(data[2], data[3]), Word16(data[6], data[7]);
      if htype != 1 || ptype != ET_IPV4 || |data| < ARP_PACKET {
        return;
      }
      var a := Arp(op, EthAt(data, 8), IpAt(data, 14), IpAt(data, 24));
      Shape();
      var merge := LearnSender(a);
      ghost var n1 := net;
      AnswerTarget(a, merge);
      HeldChain(old(net), n1, net, {}, {}, {});
    }

    // ---------- sending packets ----------

    /** `ipv4_send_intf`: header, checksum, and on to the next hop. */
    method Ipv4SendIntf(next: IPv4Addr, dst: IPv4Addr, protocol: byte, pkt: NetBuf)
      requires Core() && Ready(pkt) && NET_BUF_FIELDS + ETH_HEADER + IPV4_HEADER <= pkt.data.start
      modifies this`dev, this`arpCache, this`net, pool, pool.head, net.contents.Keys
      ensures Core() && SparesHeld(old(net), net, {pkt})
      ensures |old(pkt.data.Packet())| <= NET_BUF_SIZE
      ensures var p := IpHeader(IPV4_HEADER + |old(pkt.data.Packet())|, protocol, ip, dst) + old(pkt.data.Packet());
        Host() == HostSpec.SendIp(old(Host()), next, p).host &&
        net.wire == old(net.wire) + HostSpec.SendIp(old(Host()), next, p).frames
      ensures fresh(net.contents.Keys - old(net.contents.Keys))
      ensures Parts(old(net), net, pkt, net.wire == old(net.wire))
    {
      hide Core, Spares, SparesHeld, Cache, HostSpec.SendIp, IpHeaderBlank, InHand, Lost;
      DataOf(pkt);
      var blank := IpHeaderBlank(IPV4_HEADER + (pkt.data.end - pkt.data.start), protocol, ip, dst);
      var checksum := Checksum.NetChecksum(blank);
      PushHeader(pkt, Checksum.Stored(blank, 10, checksum));
      ghost var n1 := net;
      SparesIsMore(old(net), n1, {pkt}, {pkt});
      DataOf(pkt);
      EthSendIntf(ToIp(next), ET_IPV4, pkt);
      HeldChain(old(net), n1, net, {pkt}, {pkt}, {pkt});
    }

    /** `ipv4_send`: through the route found, or nowhere; a packet without a route is lost. */
    method Ipv4Send(dst: IPv4Addr, protocol: byte, pkt: NetBuf) returns (ghost event: seq<HostSpec.Event>)
      requires table.Valid()
      requires Core() && Ready(pkt) && NET_BUF_FIELDS + ETH_HEADER + IPV4_HEADER <= pkt.data.start
      modifies this`dev, this`arpCache, this`net, pool, pool.head, net.contents.Keys
      ensures Core() && SparesHeld(old(net), net, {pkt})
      ensures table.Valid() && |old(pkt.data.Packet())| <= NET_BUF_SIZE
      ensures Host() == HostSpec.SendPacket(old(Host()), dst, protocol, old(pkt.data.Packet())).host
      ensures net.wire == old(net.wire) + HostSpec.SendPacket(old(Host()), dst, protocol, old(pkt.data.Packet())).frames
      ensures HostSpec.Run(old(Host()), event) == HostSpec.SendPacket(old(Host()), dst, protocol, old(pkt.data.Packet()))
      ensures fresh(net.contents.Keys - old(net.contents.Keys))
      ensures Parts(old(net), net, pkt, net.wire == old(net.wire))
    {
      hide Inv, PoolMatches, DataMatches, Spares, SparesHeld, Cache, HostSpec.SendIp, IpHeader, RouteSpec.NextHop, InHand, Lost;
      DataOf(pkt);
      ghost var h := Host();
      var next := table.NextHop(dst);
      if next.Some? {
        ghost var p := IpHeader(IPV4_HEADER + |pkt.data.Packet()|, protocol, ip, dst) + pkt.data.Packet();
        HostSpec.RunOne(h, HostSpec.Send(next.value, p));
        event := [HostSpec.Send(next.value, p)];
        Ipv4SendIntf(next.value, dst, protocol, pkt);
      } else {
        event := [];
        assert net.wire == net.wire + [];
        LosePacket(pkt);
      }
    }

    // ---------- ICMP ----------

    /** The message, checksum and all, in an empty buffer; `stale` is what the buffer held where it ends. */
    method FillEcho(kind: byte, e: Echo, pkt: NetBuf) returns (ghost stale: byte)
      requires Core() && pkt in net.where && net.where[pkt] == Hand && pkt.data.start == pkt.data.end
      requires pkt.data.start + ICMP_HEADER + e.len + 1 <= NET_BUF_SIZE
      modifies this`net, pkt`data
      ensures Core() && pkt.data.start == old(pkt.data.start) && pkt.data.Packet() == EchoMessage(kind, e, stale)
      ensures pkt.data.start <= pkt.data.end <= |pkt.data.bytes|
      ensures Host() == old(Host()) && net.wire == old(net.wire) && Spares(old(net), net, {pkt})
      ensures net.where == old(net.where) && net.contents.Keys == old(net.contents.Keys)
      ensures SameHands(old(net), net)
    {
      hide Core, Spares, Cache, EchoHeader, EchoBlank, Splice, CopySpec.Forward, Checksum.Stored, Checksum.Computed, InHand, Lost;
      DataOf(pkt);
      var d := pkt.data;
      var end := d.start + ICMP_HEADER + e.len + 1;
      stale := d.bytes[end - 1];
      EchoIsBuilt(d.bytes, d.start, kind, e);
      var bytes := CopySpec.Forward(Splice(d.bytes, d.start, EchoHeader(kind, e)), d.start + ICMP_HEADER, d.start, e.len);
      var checksum := Checksum.NetChecksum(bytes[d.start..end]);
      StoredInside(bytes, d.start, end, checksum);
      SetData(pkt, d.(end := end, bytes := bytes[d.start + 2 := checksum / 256][d.start + 3 := checksum % 256]));
    }

    /** An echo message in a new buffer. */
    method BuildEcho(kind: byte, e: Echo) returns (pkt: NetBuf, ghost stale: byte)
      requires Core() && NET_BUF_START + ICMP_HEADER + e.len + 1 <= NET_BUF_SIZE
      modifies this`net, pool, pool.head, net.contents.Keys
      ensures Core() && Ready(pkt) && pkt.data.start == NET_BUF_START && pkt.data.Packet() == EchoMessage(kind, e, stale)
      ensures pkt !in old(net.where) || old(net.where[pkt]) == Free
      ensures Host() == old(Host()) && net.wire == old(net.wire) && Spares(old(net), net, {})
      ensures fresh(net.contents.Keys - old(net.contents.Keys))
      ensures Obtains(old(net), net, pkt)
    {
      hide Core, Spares, Cache, EchoMessage, Buf.Packet, InHand, Lost;
      pkt := AllocBuf();
      SameHost({});
      ghost var n1 := net;
      DataOf(pkt);
      stale := FillEcho(kind, e, pkt);
      NewBufferSpared(old(net), n1, net, pkt);
      DataOf(pkt);
    }

    /** `icmp_echo_request` and `icmp_echo_reply`: the message is built in a new buffer and sent. */
    method SendEcho(kind: byte, dst: IPv4Addr, e: Echo) returns (ghost stale: byte, ghost event: seq<HostSpec.Event>)
      requires Core() && table.Valid() && NET_BUF_START + ICMP_HEADER + e.len + 1 <= NET_BUF_SIZE
      modifies this`dev, this`arpCache, this`net, pool, pool.head, net.contents.Keys
      ensures Core() && table.Valid() && SparesHeld(old(net), net, {})
      ensures Host() == HostSpec.SendPacket(old(Host()), dst, PROTO_ICMP, EchoMessage(kind, e, stale)).host
      ensures net.wire == old(net.wire) + HostSpec.SendPacket(old(Host()), dst, PROTO_ICMP, EchoMessage(kind, e, stale)).frames
      ensures HostSpec.Run(old(Host()), event) == HostSpec.SendPacket(old(Host()), dst, PROTO_ICMP, EchoMessage(kind, e, stale))
      ensures fresh(net.contents.Keys - old(net.contents.Keys))
      ensures InHand(net.where) == old(InHand(net.where)) && |Lost(net.where)| == |old(Lost(net.where))| + HostLaws.One(net.wire == old(net.wire))
    {
      hide Core, Spares, SparesHeld, Cache, HostSpec.SendPacket, HostSpec.Run, EchoMessage, InHand, Lost;
      var pkt;
      pkt, stale := BuildEcho(kind, e);
      ghost var n1 := net;
      event := Ipv4Send(dst, PROTO_ICMP, pkt);
      NewBufferHeld(old(net), n1, net, pkt);
    }

    /** `icmp_recv`: an echo request is answered, everything else ignored. */
    method IcmpRecv(src: IPv4Addr, pkt: NetBuf) returns (ghost stale: byte)
      requires Core() && table.Valid() && pkt in net.where
      requires NET_BUF_START + |pkt.data.Packet()| + 1 <= NET_BUF_SIZE
      modifies this`dev, this`arpCache, this`net, pool, pool.head, net.contents.Keys
      ensures Core() && table.Valid() && SparesHeld(old(net), net, {})
      ensures Host() == HostSpec.ReceiveIcmp(old(Host()), src, old(pkt.data.Packet()), stale).host
      ensures net.wire == old(net.wire) + HostSpec.ReceiveIcmp(old(Host()), src, old(pkt.data.Packet()), stale).frames
      ensures fresh(net.contents.Keys - old(net.contents.Keys))
      ensures InHand(net.where) == old(InHand(net.where)) && |Lost(net.where)| == |old(Lost(net.where))| + HostLaws.One(EchoDecode(old(pkt.data.Packet())).Some? && net.wire == old(net.wire))
    {
      hide Core, Spares, SparesHeld, Cache, HostSpec.SendPacket, HostSpec.Run, EchoMessage, InHand, Lost;
      stale := 0;
      SameBooks(net, net, {});
      assert net.wire == net.wire + [];
      var data := pkt.data.Packet();
      if |data| < ICMP_HEADER {
        return;
      }
      var id, sequence := Word16(data[4], data[5]), Word16(data[6], data[7]);
      if data[0] == ECHO_REQUEST {
        ghost var event;
        stale, event := SendEcho(ECHO_REPLY, src, Echo(id, sequence, |data| - ICMP_HEADER));
      }
    }

    // ---------- receiving packets ----------

    /** Moves the ends of a packet to offsets `from` and `to` in it. */
    method TrimPacket(pkt: NetBuf, from: nat, to: nat)
      requires Core() && pkt in net.where && (net.where[pkt].Rx? || net.where[pkt] == Hand)
      requires to <= |pkt.data.Packet()|
      modifies this`net, pkt`data
      ensures Core() && Host() == old(Host()) && net.wire == old(net.wire)
      ensures pkt.data.Packet() == if from <= to then old(pkt.data.Packet())[from..to] else []
      ensures SparesHeld(old(net), net, {pkt}) && net.where == old(net.where)
      ensures net.contents.Keys == old(net.contents.Keys)
      ensures SameHands(old(net), net)
    {
      hide Core, Spares, SparesHeld, Cache, Buf.Packet, InHand, Lost;
      DataOf(pkt);
      var d := pkt.data;
      Trimmed(d, from, to);
      SetData(pkt, d.(start := d.start + from, end := d.start + to));
      SparesIsMore(old(net), net, {pkt}, {pkt});
    }

    /** The dispatch of `ipv4_recv`, for the one protocol that has a receiver. */
    method PassUp(pkt: NetBuf, header: Ip) returns (ghost stale: byte)
      requires Core() && table.Valid() && pkt in net.where && (net.where[pkt].Rx? || net.where[pkt] == Hand)
      requires NET_BUF_START + |pkt.data.Packet()| + 1 <= NET_BUF_SIZE
      modifies this`dev, this`arpCache, this`net, this`delivered, pool, pool.head, net.contents.Keys
      ensures Core() && table.Valid()
      ensures Host() == HostSpec.ReceiveIcmp(old(Host()), header.src, old(pkt.data.Packet()), stale).host
      ensures net.wire == old(net.wire) + HostSpec.ReceiveIcmp(old(Host()), header.src, old(pkt.data.Packet()), stale).frames
      ensures delivered == old(delivered) + [(header, old(pkt.data.Packet()))]
      ensures SparesHeld(old(net), net, {pkt})
      ensures pkt in net.where && net.where[pkt] == old(net.where[pkt])
      ensures fresh(net.contents.Keys - old(net.contents.Keys))
      ensures InHand(net.where) == old(InHand(net.where)) && |Lost(net.where)| == |old(Lost(net.where))| + HostLaws.One(EchoDecode(old(pkt.data.Packet())).Some? && net.wire == old(net.wire))
    {
      hide Core, Spares, SparesHeld, Cache, HostSpec.ReceiveIcmp, Buf.Packet, InHand, Lost;
      ghost var n1 := net;
      DataOf(pkt);
      SameBooks(net, net, {pkt});
      delivered := delivered + [(header, pkt.data.Packet())];
      stale := IcmpRecv(header.src, pkt);
      Held(n1, net, {}, pkt);
      HeldChain(n1, n1, net, {pkt}, {}, {pkt});
    }

    /** `ipv4_recv`: trims the packet to what the header says and hands it to ICMP. */
    method Ipv4Recv(pkt: NetBuf) returns (ghost stale: byte)
      requires Core() && table.Valid() && pkt in net.where && (net.where[pkt].Rx? || net.where[pkt] == Hand)
      requires NET_BUF_START + |pkt.data.Packet()| + 1 <= NET_BUF_SIZE
      modifies this`dev, this`arpCache, this`net, this`delivered, pool, pool.head, net.contents.Keys
      ensures Core() && table.Valid()
      ensures Host() == HostSpec.ReceiveIp(old(Host()), old(pkt.data.Packet()), stale).host
      ensures net.wire == old(net.wire) + HostSpec.ReceiveIp(old(Host()), old(pkt.data.Packet()), stale).frames
      ensures delivered == old(delivered) + Delivered(old(pkt.data.Packet()))
      ensures SparesHeld(old(net), net, {pkt})
      ensures pkt in net.where && net.where[pkt] == old(net.where[pkt])
      ensures fresh(net.contents.Keys - old(net.contents.Keys))
      ensures InHand(net.where) == old(InHand(net.where)) && |Lost(net.where)| == |old(Lost(net.where))| + HostLaws.One(HostLaws.PingIn(old(pkt.data.Packet())) && net.wire == old(net.wire))
    {
      hide Core, Spares, SparesHeld, Cache, HostSpec.ReceiveIcmp, Delivered, IpDecode, IpAt, Word16, Buf.Packet, InHand, Lost;
      stale := 0;
      assert net.wire == net.wire + [];
      SameBooks(net, net, {pkt});
      assert delivered == delivered + [];
      DataOf(pkt);
      var p := pkt.data.Packet();
      DeliveredIs(p);
      if |p| < IPV4_HEADER {
        return;
      }
      if p[0] / 16 != 4 {
        return;
      }
      if Word16(p[6], p[7]) % 0x2000 != 0 {
        return;
      }
      var ipEnd := Word16(p[2], p[3]);
      if ipEnd > |p| {
        return;
      }
      var ihl: nat := p[0] % 16;
      TrimPacket(pkt, 4 * ihl, ipEnd);
      SameBooks(net, net, {pkt});
      assert delivered == delivered + [];
      assert net.wire == net.wire + [];
      if p[9] == PROTO_ICMP {
        ghost var n1 := net;
        DataOf(pkt);
        stale := PassUp(pkt, Ip(p[9], IpAt(p, 12), IpAt(p, 16), 4 * ihl, ipEnd));
        HeldChain(old(net), n1, net, {pkt}, {pkt}, {pkt});
      }
    }

    /** The switch of `eth_recv`, on the payload of `frame`. */
    method Dispatch(pkt: NetBuf, ep: EthPacket, ghost frame: seq<byte>) returns (ghost stale: byte)
      requires Core() && table.Valid() && pkt in net.where && (net.where[pkt].Rx? || net.where[pkt] == Hand)
      requires EthDecode(frame) == Some(ep) && pkt.data.Packet() == frame[ep.hdrLen..]
      requires NET_BUF_START + |pkt.data.Packet()| + 1 <= NET_BUF_SIZE
      modifies this`dev, this`arpCache, this`net, this`delivered, pool, pool.head, net.contents.Keys
      ensures Core() && table.Valid()
      ensures Host() == HostSpec.Receive(old(Host()), frame, stale).host
      ensures net.wire == old(net.wire) + HostSpec.Receive(old(Host()), frame, stale).frames
      ensures delivered == old(delivered) + HostSpec.Upcalls(frame)
      ensures SparesHeld(old(net), net, {pkt})
      ensures pkt in net.where && net.where[pkt] == old(net.where[pkt])
      ensures fresh(net.contents.Keys - old(net.contents.Keys))
      ensures InHand(net.where) == old(InHand(net.where)) && |Lost(net.where)| == |old(Lost(net.where))| + HostLaws.One(HostLaws.Pinged(frame) && net.wire == old(net.wire))
    {
      hide Core, Spares, SparesHeld, Cache, EthDecode, HostSpec.ReceiveArp, HostSpec.ReceiveIp, Delivered, InHand, Lost;
      hide HostSpec.Receive, HostSpec.Upcalls, Buf.Packet, InHand, Lost;
      stale := 0;
      ghost var n1 := net;
      SameBooks(net, net, {pkt});
      assert net.wire == net.wire + [] && delivered == delivered + [];
      DataOf(pkt);
      HostSpec.ReceiveIs(Host(), frame);
      if ep.etherType == ET_ARP {
        ArpRecv(pkt);
        Held(n1, net, {}, pkt);
        HeldChain(n1, n1, net, {pkt}, {}, {pkt});
      } else if ep.etherType == ET_IPV4 {
        stale := Ipv4Recv(pkt);
      }
    }

    /** `eth_recv`. */
    method EthRecv(pkt: NetBuf) returns (ghost stale: byte)
      requires Core() && table.Valid() && pkt in net.where && (net.where[pkt].Rx? || net.where[pkt] == Hand)
      requires NET_BUF_START <= pkt.data.start
      modifies this`dev, this`arpCache, this`net, this`delivered, pool, pool.head, net.contents.Keys
      ensures Core() && table.Valid()
      ensures Host() == HostSpec.Receive(old(Host()), old(pkt.data.Packet()), stale).host
      ensures net.wire == old(net.wire) + HostSpec.Receive(old(Host()), old(pkt.data.Packet()), stale).frames
      ensures delivered == old(delivered) + HostSpec.Upcalls(old(pkt.data.Packet()))
      ensures SparesHeld(old(net), net, {pkt})
      ensures pkt in net.where && net.where[pkt] == old(net.where[pkt])
      ensures fresh(net.contents.Keys - old(net.contents.Keys))
      ensures InHand(net.where) == old(InHand(net.where)) && |Lost(net.where)| == |old(Lost(net.where))| + HostLaws.One(HostLaws.Pinged(old(pkt.data.Packet())) && net.wire == old(net.wire))
    {
      hide Core, Spares, SparesHeld, Cache, EthDecode, HostSpec.Receive, HostSpec.Upcalls, InHand, Lost;
      stale := 0;
      DataOf(pkt);
      var frame := pkt.data.Packet();
      var decoded := EthDecode(frame);
      if decoded.None? {
        HostSpec.ReceiveIs(Host(), frame);
        SameBooks(net, net, {pkt});
        assert net.wire == net.wire + [] && delivered == delivered + [];
        return;
      }
      var ep := decoded.value;
      TrimPacket(pkt, ep.hdrLen, |frame|);
      ghost var n1 := net;
      assert pkt.data.Packet() == frame[ep.hdrLen..];
      stale := Dispatch(pkt, ep, frame);
      HeldChain(old(net), n1, net, {pkt}, {pkt}, {pkt});
    }

    // ---------- what processes call ----------

    /** Sending leaves the receive ring in order. */
    twostate lemma SendKeepsRing(pkt: NetBuf)
      requires old(Core()) && Core() && SparesHeld(old(net), net, {pkt})
      requires pkt in old(net.where) && old(net.where)[pkt] == Hand
      requires RxOk(old(net), queue)
      ensures RxOk(net, queue)
    {
      hide Inv, RxOk, SparesHeld, PoolMatches, DataMatches, InHand, Lost;
      DeviceSizes(net);
      RingSpared(old(net), net, {pkt}, queue);
    }

    /** `ipv4_send` by a process. */
    method SendPacket(dst: IPv4Addr, protocol: byte, pkt: NetBuf)
      requires Core() && table.Valid() && Logged() && RxOk(net, queue)
      requires Ready(pkt) && NET_BUF_FIELDS + ETH_HEADER + IPV4_HEADER <= pkt.data.start
      modifies this`dev, this`arpCache, this`net, this`log, pool, pool.head, net.contents.Keys
      ensures Core() && table.Valid() && Logged() && RxOk(net, queue)
      ensures Host() == HostSpec.SendPacket(old(Host()), dst, protocol, old(pkt.data.Packet())).host
      ensures net.wire == old(net.wire) + HostSpec.SendPacket(old(Host()), dst, protocol, old(pkt.data.Packet())).frames
      ensures fresh(net.contents.Keys - old(net.contents.Keys))
      ensures Parts(old(net), net, pkt, net.wire == old(net.wire))
    {
      hide Core, RxOk, SparesHeld, Cache, HostSpec.SendPacket, HostSpec.Run, InHand, Lost;
      ghost var event := Ipv4Send(dst, protocol, pkt);
      SendKeepsRing(pkt);
      HostSpec.RunAppend(start, log, event);
      log := log + event;
    }

    /** A step that spares everything held leaves the receive ring in order. */
    twostate lemma StepKeepsRing()
      requires old(Core()) && Core() && SparesHeld(old(net), net, {})
      requires RxOk(old(net), queue)
      ensures RxOk(net, queue)
    {
      hide Inv, RxOk, SparesHeld, PoolMatches, DataMatches, InHand, Lost;
      DeviceSizes(net);
      RingSpared(old(net), net, {}, queue);
    }

    /** `icmp_echo_request` by a process. */
    method Ping(dst: IPv4Addr, e: Echo) returns (ghost stale: byte)
      requires Core() && table.Valid() && Logged() && RxOk(net, queue)
      requires NET_BUF_START + ICMP_HEADER + e.len + 1 <= NET_BUF_SIZE
      modifies this`dev, this`arpCache, this`net, this`log, pool, pool.head, net.contents.Keys
      ensures Core() && table.Valid() && Logged() && RxOk(net, queue)
      ensures Host() == HostSpec.SendPacket(old(Host()), dst, PROTO_ICMP, EchoMessage(ECHO_REQUEST, e, stale)).host
      ensures net.wire == old(net.wire) + HostSpec.SendPacket(old(Host()), dst, PROTO_ICMP, EchoMessage(ECHO_REQUEST, e, stale)).frames
      ensures fresh(net.contents.Keys - old(net.contents.Keys))
      ensures InHand(net.where) == old(InHand(net.where)) && |Lost(net.where)| == |old(Lost(net.where))| + HostLaws.One(net.wire == old(net.wire))
    {
      hide Core, RxOk, SparesHeld, Cache, HostSpec.SendPacket, HostSpec.Run, EchoMessage, InHand, Lost;
      ghost var event;
      stale, event := SendEcho(ECHO_REQUEST, dst, e);
      StepKeepsRing();
      HostSpec.RunAppend(start, log, event);
      log := log + event;
    }

    /** What the cache says of an address is what was last heard from it since it was entered. */
    lemma Remembers(i: nat, pa: IPv4Addr)
      requires Core() && Logged() && HostSpec.Valid(start) && pa != NULL_IP
      requires HostSpec.EntersAt(View(start.cache), HostSpec.SetupOf(start), log, i, pa)
      ensures var k := Lookup(arpCache, pa);
        k < |arpCache| && i < |log| && arpCache[k].ha == HostSpec.LastHeard(log[i..], pa, NULL_ETH)
    {
      hide Inv, HostSpec.Run, HostSpec.Valid, HostSpec.LastHeard, Cache, View, InHand, Lost;
      HostSpec.CacheIsLastHeard(start, log, i, pa);
      LookupInCache(net, pa);
      CacheEntry(net, Lookup(arpCache, pa));
    }

    /** Every packet this host was to send is on the wire, waits for an address, or was lost to a full cache. */
    lemma Conserved(p: seq<byte>)
      requires Core() && Logged() && HostSpec.Valid(start) && start.cache == EmptyCache()
      ensures HostLaws.Handed(start, log, p) ==
              HostLaws.Carried(net.wire, p) + HostLaws.Parked(Host().cache, p) + HostLaws.Lost(start, log, p)
    {
      hide Inv, PoolMatches, DataMatches, HostSpec.Run, HostSpec.Valid, HostLaws.Carried, HostLaws.Parked, Cache, InHand, Lost;
      HostLaws.EveryPacketIsSomewhere(start, log, p);
      HostLaws.NothingParked(p);
    }

    /** Every frame this host handed to the card carries its own hardware address as the source. */
    lemma Signed()
      requires Core() && Logged() && HostSpec.Valid(start)
      ensures forall f :: f in net.wire ==> FrameLayout.SentBy(f, mac)
    {
      hide Inv, PoolMatches, DataMatches, HostSpec.Run, HostSpec.Valid, FrameLayout.SentBy, Cache, InHand, Lost;
      HostSpec.RunKeepsMac(start, log);
      WireLaws.EveryFrameIsSigned(start, log);
    }

    // ---------- the driver's receive side ----------

    lemma RingInOrder(i: nat)
      requires Core() && RxOk(net, queue) && i < RX_SLOTS
      ensures Agrees(net) && i < |dev.rxDescs| && dev.rxDescs[i].buf in net.contents
      ensures dev.rxDescs[i].buf.data == net.contents[dev.rxDescs[i].buf]
    {}

    /** The device finishes the next receive descriptor; it stops one short of the tail. */
    method DeviceReceive(i: nat, frame: seq<byte>, errors: bool)
      requires Core() && RxOk(net, queue) && |queue| + 1 < RX_SLOTS
      requires i == Slot(dev.rxRead, |queue|) && NET_BUF_START + |frame| <= NET_BUF_SIZE
      modifies this`dev, this`net, this`queue, net.contents.Keys
      ensures Core() && RxOk(net, queue) && queue == old(queue) + [Arrival(frame, errors)]
      ensures Host() == old(Host()) && net.where == old(net.where) && net.wire == old(net.wire)
      ensures SameHands(old(net), net)
    {
      hide Inv, RxOk, Arrived, Cache, PoolMatches, DataMatches, InHand, Lost;
      RingInOrder(i);
      RingFacts(net, i);
      var d := dev.rxDescs[i];
      var b := d.buf;
      ghost var a := Arrival(frame, errors);
      FillKeepsInv(net, i, a);
      FillQueues(net, queue, a);
      ghost var next := Fill(net, i, a);
      dev := dev.(rxDescs := dev.rxDescs[i := d.(len := |frame|, done := true, errors := errors)]);
      Store(b, b.data.(bytes := Splice(b.data.bytes, d.off, frame)), next);
      queue := queue + [a];
    }

    method RecycleBuf(buf: NetBuf, ghost next: Net) returns (r: NetBuf)
      requires PoolMatches() && DataMatches() && buf in net.contents && buf in net.where && buf !in net.free
      requires net.contents[buf].refCount == 1 && net.contents[buf].WellFormed()
      requires forall c :: c in net.free ==> c in net.contents
      requires next.free == net.free && next.count == net.count && next.where.Keys == net.where.Keys
      requires next.contents == net.contents[buf := Buf(NET_BUF_START, NET_BUF_START, 1, net.contents[buf].bytes)]
      modifies this`net, pool, pool.head, net.contents.Keys
      ensures net == next && PoolMatches() && DataMatches() && r == buf && r.data == net.contents[buf]
    {
      hide Circle, InHand, Lost;
      r := pool.Recycle(buf);
      assert forall c :: c in net.contents && c != buf ==> c.data == net.contents[c];
      net := next;
    }

    /** Releases a received buffer and allocates its replacement, which is the same buffer again. */
    method Replace(buf: NetBuf) returns (r: NetBuf)
      requires Core() && buf in net.where && net.where[buf].Rx?
      modifies this`net, pool, pool.head, net.contents.Keys
      ensures Core() && r == buf && r in net.contents && r.data == net.contents[r] && r.data.start == NET_BUF_START
      ensures net.where == old(net.where) && net.wire == old(net.wire) && Host() == old(Host())
      ensures net.contents.Keys == old(net.contents.Keys) && SparesHeld(old(net), net, {buf})
      ensures SameHands(old(net), net)
    {
      hide Inv, Spares, SparesHeld, PoolMatches, Cache, InHand, Lost;
      HandFacts(net, buf);
      FreeFacts(net);
      ghost var data := Buf(NET_BUF_START, NET_BUF_START, 1, buf.data.bytes);
      WriteKeepsInv(net, buf, data);
      CacheAfterWrite(net, buf, data);
      SparesIsMore(net, Write(net, buf, data), {buf}, {buf});
      hide DataMatches, InHand, Lost;
      r := RecycleBuf(buf, Write(net, buf, data));
    }

    /** Receives the frame in a buffer and puts a fresh buffer in its place. */
    method ReceiveInto(buf: NetBuf, len: nat, ghost frame: seq<byte>) returns (r: NetBuf, off: nat, ghost stale: byte)
      requires Core() && table.Valid() && buf in net.where && net.where[buf].Rx? && buf in net.contents
      requires buf.data.start == NET_BUF_START && Slice(net.contents[buf].bytes, NET_BUF_START, len) == Some(frame)
      modifies this`dev, this`arpCache, this`net, this`delivered, pool, pool.head, net.contents.Keys
      ensures Core() && table.Valid() && r == buf && off == NET_BUF_START
      ensures buf in net.contents && net.contents[buf].start == NET_BUF_START
      ensures Host() == HostSpec.Receive(old(Host()), frame, stale).host
      ensures net.wire == old(net.wire) + HostSpec.Receive(old(Host()), frame, stale).frames
      ensures delivered == old(delivered) + HostSpec.Upcalls(frame)
      ensures SparesHeld(old(net), net, {buf})
      ensures fresh(net.contents.Keys - old(net.contents.Keys))
      ensures InHand(net.where) == old(InHand(net.where)) && |Lost(net.where)| == |old(Lost(net.where))| + HostLaws.One(HostLaws.Pinged(frame) && net.wire == old(net.wire))
    {
      hide Core, Spares, SparesHeld, Cache, HostSpec.Receive, HostSpec.Upcalls, InHand, Lost;
      DataOf(buf);
      SetData(buf, buf.data.(end := buf.data.start + len));
      ghost var n1 := net;
      SparesIsMore(old(net), n1, {buf}, {buf});
      assert buf.data.Packet() == frame;
      stale := EthRecv(buf);
      ghost var n2 := net;
      HeldChain(old(net), n1, n2, {buf}, {buf}, {buf});
      r := Replace(buf);
      HeldChain(old(net), n2, net, {buf}, {buf}, {buf});
      off := r.data.start;
    }

    /** Gives the first slot back to the device. */
    method ReturnSlot(buf: NetBuf, off: nat, ghost before: Net)
      requires Core() && off == NET_BUF_START
      requires Inv(before) && RxOk(before, queue) && queue != []
      requires SparesHeld(before, net, {before.dev.rxBufs[before.dev.rxRead]})
      requires buf == before.dev.rxBufs[before.dev.rxRead] && buf in net.contents
      requires net.contents[before.dev.rxBufs[before.dev.rxRead]].start == NET_BUF_START
      modifies this`dev, this`net, this`queue
      ensures Core() && queue == old(queue)[1..] && RxOk(net, queue)
      ensures Host() == old(Host()) && net.wire == old(net.wire) && net.contents == old(net.contents)
      ensures dev.rxRead == NextRx(before.dev.rxRead)
      ensures SameHands(old(net), net)
    {
      hide Inv, RxOk, Cache, PoolMatches, DataMatches, InHand, Lost;
      DeviceSizes(net);
      HandBackDequeues(before, net, queue);
      var r := dev.rxRead;
      SameTables(net, HandBack(net, buf, off));
      dev := dev.(rxDescs := dev.rxDescs[r := dev.rxDescs[r].(buf := buf, off := off, done := false)], rxRead := NextRx(r));
      Rebook(HandBack(net, buf, off));
      queue := queue[1..];
    }

    /** One iteration of the loop of `eth_intel_poll`. */
    method PollOne() returns (ghost stale: byte)
      requires Core() && table.Valid() && Logged() && RxOk(net, queue) && queue != []
      modifies this`dev, this`arpCache, this`net, this`delivered, this`queue, this`log, pool, pool.head, net.contents.Keys
      ensures Core() && table.Valid() && RxOk(net, queue) && queue == old(queue)[1..]
      ensures Logged() && log == old(log) + EventOf(old(queue)[0], stale)
      ensures delivered == old(delivered) + UpcallsOf(old(queue)[..1])
      ensures dev.rxRead == NextRx(old(dev.rxRead))
      ensures fresh(net.contents.Keys - old(net.contents.Keys))
      ensures InHand(net.where) == old(InHand(net.where))
      ensures LostOtherwise() == old(LostOtherwise())
    {
      hide Spares, SparesHeld, RxOk, Inv, PoolMatches, DataMatches, Cache, HostSpec.Receive, HostSpec.Upcalls, HostSpec.Run;
      hide InHand, Lost, HostLaws.UnsentIn, HostLaws.Unsent, HostLaws.Pinged;
      Shape();
      FrontOfQueue(net, queue);
      stale := 0;
      var r := dev.rxRead;
      var desc := dev.rxDescs[r];
      var buf, off := desc.buf, desc.off;
      ghost var before, a, h := net, queue[0], Host();
      assert queue[..1] == [a] && [a][1..] == [];
      if desc.errors {
        SameBooks(net, net, {dev.rxBufs[r]});
        assert log == log + [];
      } else {
        DataOf(dev.rxBufs[r]);
        buf, off, stale := ReceiveInto(dev.rxBufs[r], desc.len, a.frame);
        HostSpec.RunOne(h, HostSpec.Arrive(a.frame, stale));
        HostSpec.RunAppend(start, log, [HostSpec.Arrive(a.frame, stale)]);
        HostLaws.UnsentAppend(start, log, HostSpec.Arrive(a.frame, stale));
        UnsentIs(h, a.frame, stale, before.wire, net.wire);
        log := log + [HostSpec.Arrive(a.frame, stale)];
      }
      ReturnSlot(buf, off, before);
    }

    lemma FrontOfRing()
      requires Core() && RxOk(net, queue)
      ensures dev.rxRead < |dev.rxDescs| == RX_SLOTS && (dev.rxDescs[dev.rxRead].done <==> queue != [])
    {
      FrontOfQueue(net, queue);
    }

    /**
     `eth_intel_poll`: takes every finished frame once, in ring order, and leaves every descriptor
     pointing at the start of the buffer kept for its slot.
     */
    method Poll() returns (ghost stales: seq<byte>)
      requires Core() && table.Valid() && RxOk(net, queue) && Logged()
      modifies this`dev, this`arpCache, this`net, this`delivered, this`queue, this`log, pool, pool.head, net.contents.Keys
      ensures Core() && table.Valid() && RxOk(net, queue) && queue == [] && Logged()
      ensures |stales| == |old(queue)| && log == old(log) + EventsOf(old(queue), stales)
      ensures delivered == old(delivered) + UpcallsOf(old(queue))
      ensures dev.rxRead == RingAt(old(dev.rxRead), |old(queue)|)
      ensures fresh(net.contents.Keys - old(net.contents.Keys))
      ensures InHand(net.where) == old(InHand(net.where))
      ensures LostOtherwise() == old(LostOtherwise())
    {
      hide Core, RxOk, Logged, Cache, EventsOf, EventOf, UpcallsOf, HostSpec.Upcalls, RingAt, InHand, LostOtherwise;
      ghost var q, done := queue, 0;
      stales := [];
      assert log == log + [] && delivered == delivered + [];
      assert q[..0] == [];
      NothingReceived();
      FrontOfRing();
      RingIndex(dev.rxRead, 0);
      while dev.rxDescs[dev.rxRead].done
        invariant Core() && table.Valid() && RxOk(net, queue) && done <= |q| && queue == q[done..]
        invariant dev.rxRead < |dev.rxDescs| && (dev.rxDescs[dev.rxRead].done <==> queue != [])
        invariant Logged() && |stales| == done && log == old(log) + EventsOf(q[..done], stales)
        invariant delivered == old(delivered) + UpcallsOf(q[..done])
        invariant InHand(net.where) == old(InHand(net.where))
        invariant LostOtherwise() == old(LostOtherwise())
        invariant dev.rxRead == RingAt(old(dev.rxRead), done)
        invariant fresh(net.contents.Keys - old(net.contents.Keys))
        decreases |q| - done
      {
        RingIndex(old(dev.rxRead), done);
        UpcallsAppend(q[..done], q[done]);
        assert q[..done + 1] == q[..done] + [q[done]] && q[done..][..1] == [q[done]];
        ghost var stale := PollOne();
        EventsAppend(q[..done], stales, q[done], stale);
        stales := stales + [stale];
        done := done + 1;
        FrontOfRing();
      }
      assert q[..done] == q;
    }
  }
}
