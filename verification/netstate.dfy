/**
 The bookkeeping of network buffers as a value: where each buffer is, what it holds, and the tables
 of the driver and of the ARP cache that refer to buffers.
 */
module NetState {
  import opened Words
  import opened Rings
  import opened NetBufs
  import opened Frames
  import opened ArpCache
  import HostSpec

  const RX_SLOTS: nat := 32
  const TX_SLOTS: nat := 8

  /** `Hand`: some function or process holds it.  `Dropped`: nothing refers to it any more. */
  datatype Place = Free | Rx(slot: nat) | Tx(slot: nat) | Deferred(slot: nat) | Hand | Dropped

  /** A descriptor's address is a buffer and an offset into it. */
  datatype RxDesc = RxDesc(buf: NetBuf, off: nat, len: nat, done: bool, errors: bool)
  datatype TxDesc = TxDesc(buf: Option<NetBuf>, off: nat, len: nat, done: bool)

  /** `s_device` of src/drivers/intel_e1000.c. */
  datatype Device = Device(rxRead: nat, rxDescs: seq<RxDesc>, rxBufs: seq<NetBuf>,
                           txWrite: nat, txDescs: seq<TxDesc>, txBufs: seq<Option<NetBuf>>)

  /**
   `wire` lists the frames handed to the device, `txFrames` the last one of each transmit slot, and
   `sent` what the device has read from memory and transmitted.
   */
  datatype Net = Net(dev: Device, arp: seq<Entry<NetBuf>>, free: seq<NetBuf>, count: uint32,
                     where: map<NetBuf, Place>, contents: map<NetBuf, Buf>,
                     wire: seq<seq<byte>>, txFrames: seq<seq<byte>>, sent: seq<seq<byte>>)

  predicate HasRoom(b: Buf) {
    NET_BUF_FIELDS + ETH_HEADER <= b.start <= b.end <= |b.bytes|
  }

  // ---------- the invariant ----------

  ghost predicate Sizes(n: Net) {
    && |n.arp| == CACHE_SIZE
    && |n.dev.rxDescs| == RX_SLOTS && |n.dev.rxBufs| == RX_SLOTS && n.dev.rxRead < RX_SLOTS
    && |n.dev.txDescs| == TX_SLOTS && |n.dev.txBufs| == TX_SLOTS && n.dev.txWrite < TX_SLOTS
    && |n.txFrames| == TX_SLOTS
  }

  ghost predicate PoolOk(n: Net) {
    && n.where.Keys == n.contents.Keys
    && Distinct(n.free)
    && (forall b :: b in n.free ==> b in n.where && n.where[b] == Free)
    && n.count == (|n.where| - |n.free|) % TWO_32
  }

  /** The place a buffer is in refers back to it, so no buffer is in two places. */
  ghost predicate Placed(n: Net, b: NetBuf)
    requires b in n.where
  {
    match n.where[b]
    case Free => b in n.free
    case Rx(i) => i < |n.dev.rxBufs| && n.dev.rxBufs[i] == b
    case Tx(i) => i < |n.dev.txBufs| && n.dev.txBufs[i] == Some(b)
    case Deferred(i) => i < |n.arp| && n.arp[i].pkt == Some(b)
    case _ => true
  }

  ghost predicate Placement(n: Net) {
    && (forall b :: b in n.where ==> Placed(n, b))
    && (forall i :: 0 <= i < |n.dev.rxBufs| ==> n.dev.rxBufs[i] in n.where && n.where[n.dev.rxBufs[i]] == Rx(i))
    && (forall i :: 0 <= i < |n.dev.txBufs| && n.dev.txBufs[i].Some? ==>
          n.dev.txBufs[i].value in n.where && n.where[n.dev.txBufs[i].value] == Tx(i))
    && (forall i :: 0 <= i < |n.arp| && n.arp[i].pkt.Some? ==>
          n.arp[i].pkt.value in n.where && n.where[n.arp[i].pkt.value] == Deferred(i))
  }

  /** Exactly the buffers outside the free list have a reference. */
  ghost predicate Counted(n: Net) {
    forall b :: b in n.where && b in n.contents ==>
      n.contents[b].WellFormed() && n.contents[b].refCount == if n.where[b] == Free then 0 else 1
  }

  function Slice(bytes: seq<byte>, off: nat, len: nat): Option<seq<byte>> {
    if off + len <= |bytes| then Some(bytes[off..off + len]) else None
  }

  /** A transmit descriptor that is not done describes the buffer in its slot, and the frame is still in it. */
  ghost predicate InFlight(n: Net) {
    forall i :: 0 <= i < |n.dev.txDescs| && i < |n.dev.txBufs| && i < |n.txFrames| && !n.dev.txDescs[i].done ==>
      n.dev.txBufs[i].Some? && n.dev.txDescs[i].buf == n.dev.txBufs[i] && n.dev.txBufs[i].value in n.contents &&
      Slice(n.contents[n.dev.txBufs[i].value].bytes, n.dev.txDescs[i].off, n.dev.txDescs[i].len) == Some(n.txFrames[i])
  }

  /** The slot `j` steps behind the one written next, which is the oldest. */
  function TxSlot(w: nat, j: nat): (i: nat)
    requires w < TX_SLOTS && j <= TX_SLOTS
    ensures i < TX_SLOTS
  {
    if w + j < TX_SLOTS then w + j else w + j - TX_SLOTS
  }

  function UnsentAt(descs: seq<TxDesc>, frames: seq<seq<byte>>, i: nat): seq<seq<byte>>
    requires i < |descs| && i < |frames|
  {
    if descs[i].done then [] else [frames[i]]
  }

  /** The frames of the unfinished descriptors from the `j`-th oldest on. */
  function Unsent(w: nat, descs: seq<TxDesc>, frames: seq<seq<byte>>, j: nat): seq<seq<byte>>
    requires w < TX_SLOTS && |descs| == TX_SLOTS == |frames| && j <= TX_SLOTS
    decreases TX_SLOTS - j
  {
    if j == TX_SLOTS then []
    else UnsentAt(descs, frames, TxSlot(w, j)) + Unsent(w, descs, frames, j + 1)
  }

  ghost predicate DoneFirst(w: nat, descs: seq<TxDesc>)
    requires w < TX_SLOTS && |descs| == TX_SLOTS
  {
    forall j, k :: 0 <= j < k < TX_SLOTS && !descs[TxSlot(w, j)].done ==> !descs[TxSlot(w, k)].done
  }

  /** Descriptors finish oldest first, and what was handed over is what was sent and what is unsent. */
  ghost predicate InOrder(w: nat, descs: seq<TxDesc>, frames: seq<seq<byte>>, wire: seq<seq<byte>>, sent: seq<seq<byte>>)
    requires w < TX_SLOTS && |descs| == TX_SLOTS == |frames|
  {
    DoneFirst(w, descs) && wire == sent + Unsent(w, descs, frames, 0)
  }

  ghost predicate TxInOrder(n: Net)
    requires Sizes(n)
  {
    InOrder(n.dev.txWrite, n.dev.txDescs, n.txFrames, n.wire, n.sent)
  }

  /** A packet that waits for an address is an IPv4 packet with room for its Ethernet header. */
  ghost predicate Waiting(n: Net) {
    forall i :: 0 <= i < |n.arp| && n.arp[i].pkt.Some? && n.arp[i].pkt.value in n.contents ==>
      n.arp[i].etherType == ET_IPV4 && HasRoom(n.contents[n.arp[i].pkt.value])
  }

  ghost predicate Inv(n: Net) {
    Sizes(n) && PoolOk(n) && Placement(n) && Counted(n) && InFlight(n) && Waiting(n) && TxInOrder(n)
  }

  /** After `eth_intel_init`: a buffer in every receive slot, every transmit descriptor done. */
  function Started(bufs: seq<NetBuf>, where: map<NetBuf, Place>, contents: map<NetBuf, Buf>): Net {
    Net(Device(0, seq(|bufs|, i requires 0 <= i < |bufs| => RxDesc(bufs[i], NET_BUF_START, 0, false, false)), bufs,
               0, seq(TX_SLOTS, _ => TxDesc(None, 0, 0, true)), seq(TX_SLOTS, _ => None)),
        EmptyCache(), [], |where| % TWO_32, where, contents, [], seq(TX_SLOTS, _ => []), [])
  }

  /** The first |bufs| receive slots hold the only buffers there are. */
  ghost predicate Filled(bufs: seq<NetBuf>, where: map<NetBuf, Place>, contents: map<NetBuf, Buf>) {
    && where.Keys == contents.Keys && |where| == |bufs|
    && (forall i :: 0 <= i < |bufs| ==> bufs[i] in where && where[bufs[i]] == Rx(i))
    && (forall b :: b in where ==> where[b].Rx? && where[b].slot < |bufs| && bufs[where[b].slot] == b)
    && (forall b :: b in contents ==> contents[b].WellFormed() && contents[b].refCount == 1)
  }

  lemma FillOne(bufs: seq<NetBuf>, where: map<NetBuf, Place>, contents: map<NetBuf, Buf>, b: NetBuf, data: Buf)
    requires Filled(bufs, where, contents) && b !in where && data.WellFormed() && data.refCount == 1
    ensures Filled(bufs + [b], where[b := Rx(|bufs|)], contents[b := data])
  {}

  lemma NothingFilled()
    ensures Filled([], map[], map[])
  {}

  lemma FilledSize(bufs: seq<NetBuf>, where: map<NetBuf, Place>, contents: map<NetBuf, Buf>)
    requires Filled(bufs, where, contents)
    ensures |where| == |bufs|
  {}

  lemma {:induction false} AllDone(w: nat, descs: seq<TxDesc>, frames: seq<seq<byte>>, j: nat)
    requires w < TX_SLOTS && |descs| == TX_SLOTS == |frames| && j <= TX_SLOTS
    requires forall i :: 0 <= i < TX_SLOTS ==> descs[i].done
    ensures Unsent(w, descs, frames, j) == []
    decreases TX_SLOTS - j
  {
    if j < TX_SLOTS {
      AllDone(w, descs, frames, j + 1);
    }
  }

  lemma StartedInOrder(bufs: seq<NetBuf>, where: map<NetBuf, Place>, contents: map<NetBuf, Buf>)
    requires |bufs| == RX_SLOTS
    ensures TxInOrder(Started(bufs, where, contents))
  {
    var n := Started(bufs, where, contents);
    AllDone(n.dev.txWrite, n.dev.txDescs, n.txFrames, 0);
  }

  lemma StartedIsValid(bufs: seq<NetBuf>, where: map<NetBuf, Place>, contents: map<NetBuf, Buf>)
    requires Filled(bufs, where, contents) && |bufs| == RX_SLOTS
    ensures Inv(Started(bufs, where, contents))
  {
    hide InOrder;
    assert TxInOrder(Started(bufs, where, contents)) by { StartedInOrder(bufs, where, contents); }
  }

  lemma DeviceSizes(n: Net)
    requires Inv(n)
    ensures Sizes(n)
  {}

  lemma TxSizes(n: Net)
    requires Inv(n)
    ensures |n.dev.txDescs| == TX_SLOTS == |n.dev.txBufs| && n.dev.txWrite < TX_SLOTS == |n.txFrames|
  {}

  lemma HandFacts(n: Net, b: NetBuf)
    requires Inv(n) && b in n.where && n.where[b] != Free
    ensures b in n.contents && b !in n.free && n.contents[b].WellFormed() && n.contents[b].refCount == 1
  {}

  lemma TxFacts(n: Net, i: nat)
    requires Inv(n) && i < |n.dev.txBufs| && n.dev.txBufs[i].Some?
    ensures var b := n.dev.txBufs[i].value;
      b in n.contents && b in n.where && n.where[b] == Tx(i) && b !in n.free &&
      n.contents[b].WellFormed() && n.contents[b].refCount == 1
  {}

  lemma WaitingFacts(n: Net, k: nat)
    requires Inv(n) && k < |n.arp| && n.arp[k].pkt.Some?
    ensures var b := n.arp[k].pkt.value;
      b in n.contents && b in n.where && n.where[b] == Deferred(k) && b !in n.free &&
      n.contents[b].WellFormed() && n.contents[b].refCount == 1 && HasRoom(n.contents[b]) && n.arp[k].etherType == ET_IPV4
  {}

  lemma FreeFacts(n: Net)
    requires Inv(n)
    ensures n.where.Keys == n.contents.Keys
    ensures forall b :: b in n.free ==> b in n.where && n.where[b] == Free
    ensures n.free != [] ==> forall b :: b in n.free[1..] ==> b in n.free
  {}

  // ---------- what the invariant means ----------

  /** Each buffer is in exactly one place, and has its one reference exactly outside the free list. */
  lemma EachBufferInOnePlace(n: Net, b: NetBuf)
    requires Inv(n) && b in n.where
    ensures b in n.free <==> n.where[b] == Free
    ensures forall i :: 0 <= i < RX_SLOTS ==> (n.dev.rxBufs[i] == b <==> n.where[b] == Rx(i))
    ensures forall i :: 0 <= i < TX_SLOTS ==> (n.dev.txBufs[i] == Some(b) <==> n.where[b] == Tx(i))
    ensures forall i :: 0 <= i < CACHE_SIZE ==> (n.arp[i].pkt == Some(b) <==> n.where[b] == Deferred(i))
    ensures b in n.contents && n.contents[b].refCount == if b in n.free then 0 else 1
  {
    assert Placed(n, b);
  }

  /** The buffers that are not in the pool. */
  ghost function Outstanding(n: Net): set<NetBuf> {
    set b | b in n.where && n.where[b] != Free
  }

  /** `g_netBufAllocCount` counts the buffers outside the pool. */
  lemma CountIsOutstanding(n: Net)
    requires Inv(n)
    ensures n.count == |Outstanding(n)| % TWO_32
  {
    hide Counted, InFlight, Waiting, InOrder;
    CountDistinct(n.free);
    forall b | b in n.where && n.where[b] == Free
      ensures b in n.free
    {
      assert Placed(n, b);
    }
    assert n.where.Keys == Outstanding(n) + Elements(n.free);
    assert Outstanding(n) !! Elements(n.free);
  }

  /** Until its descriptor reports done, a frame handed to the device stays in its slot's buffer, unchanged. */
  lemma UnsentStays(n: Net, i: nat)
    requires Inv(n) && i < TX_SLOTS && !n.dev.txDescs[i].done
    ensures n.dev.txBufs[i].Some? && n.dev.txDescs[i].buf == n.dev.txBufs[i]
    ensures var b := n.dev.txBufs[i].value;
      b in n.where && n.where[b] == Tx(i) && b !in n.free && b in n.contents && n.contents[b].refCount == 1 &&
      Slice(n.contents[b].bytes, n.dev.txDescs[i].off, n.dev.txDescs[i].len) == Some(n.txFrames[i])
  {}

  lemma {:induction false} UnsentLength(w: nat, descs: seq<TxDesc>, frames: seq<seq<byte>>, j: nat)
    requires w < TX_SLOTS && |descs| == TX_SLOTS == |frames| && j <= TX_SLOTS
    ensures |Unsent(w, descs, frames, j)| <= TX_SLOTS - j
    decreases TX_SLOTS - j
  {
    if j < TX_SLOTS {
      UnsentLength(w, descs, frames, j + 1);
    }
  }

  /** What the device has sent is, in order and unchanged, the front of what it was handed; at most 8 frames lag. */
  lemma SentInOrder(n: Net)
    requires Inv(n)
    ensures n.sent <= n.wire && |n.wire| - |n.sent| <= TX_SLOTS
    ensures (forall i :: 0 <= i < TX_SLOTS ==> n.dev.txDescs[i].done) ==> n.sent == n.wire
  {
    UnsentLength(n.dev.txWrite, n.dev.txDescs, n.txFrames, 0);
    if forall i :: 0 <= i < TX_SLOTS ==> n.dev.txDescs[i].done {
      AllDone(n.dev.txWrite, n.dev.txDescs, n.txFrames, 0);
    }
  }

  // ---------- what a step spares ----------

  /** The receive ring is as it was. */
  ghost predicate RxKept(n: Net, m: Net) {
    m.dev.rxRead == n.dev.rxRead && m.dev.rxDescs == n.dev.rxDescs && m.dev.rxBufs == n.dev.rxBufs
  }

  /** Buffers that are not free, not being transmitted and not in `except` keep place and contents. */
  ghost predicate Spares(n: Net, m: Net, except: set<NetBuf>) {
    RxKept(n, m) && forall b :: b in n.where && b in n.contents && b !in except && n.where[b] != Free && !n.where[b].Tx? ==>
      b in m.where && b in m.contents && m.where[b] == n.where[b] && m.contents[b] == n.contents[b]
  }

  /** Buffers that are received, held or dropped, and not in `except`, keep place and contents. */
  ghost predicate SparesHeld(n: Net, m: Net, except: set<NetBuf>) {
    RxKept(n, m) &&
    forall b :: b in n.where && b in n.contents && b !in except && (n.where[b].Rx? || n.where[b] == Hand || n.where[b] == Dropped) ==>
      b in m.where && b in m.contents && m.where[b] == n.where[b] && m.contents[b] == n.contents[b]
  }

  lemma SparesIsMore(n: Net, m: Net, except: set<NetBuf>, more: set<NetBuf>)
    requires Spares(n, m, except) && forall b :: b in except && b !in more && b in n.where ==> n.where[b].Deferred?
    ensures SparesHeld(n, m, more)
  {}

  lemma HeldChain(n: Net, m: Net, o: Net, s: set<NetBuf>, t: set<NetBuf>, u: set<NetBuf>)
    requires SparesHeld(n, m, s) && SparesHeld(m, o, t) && s <= u && t <= u
    ensures SparesHeld(n, o, u)
  {}

  /** An exception that was not held to begin with is none. */
  lemma NotHeld(n: Net, m: Net, b: NetBuf)
    requires SparesHeld(n, m, {b}) && b in n.where && n.where[b].Deferred?
    ensures SparesHeld(n, m, {})
  {}

  lemma Held(n: Net, m: Net, except: set<NetBuf>, b: NetBuf)
    requires SparesHeld(n, m, except) && b in n.where && b in n.contents && b !in except
    requires n.where[b].Rx? || n.where[b] == Hand || n.where[b] == Dropped
    ensures b in m.where && b in m.contents && m.where[b] == n.where[b] && m.contents[b] == n.contents[b]
  {}

  lemma Spared(n: Net, m: Net, except: set<NetBuf>, b: NetBuf)
    requires Spares(n, m, except) && b in n.where && b in n.contents && b !in except
    requires n.where[b] != Free && !n.where[b].Tx?
    ensures b in m.where && b in m.contents && m.where[b] == n.where[b] && m.contents[b] == n.contents[b]
  {}

  lemma SparesSelf(n: Net)
    ensures Spares(n, n, {})
  {}

  lemma SparesChain(n: Net, m: Net, o: Net, s: set<NetBuf>, t: set<NetBuf>, u: set<NetBuf>)
    requires Spares(n, m, s) && Spares(m, o, t) && s <= u && t <= u
    ensures Spares(n, o, u)
  {}

  lemma SameBooks(n: Net, m: Net, except: set<NetBuf>)
    requires m.where == n.where && m.contents == n.contents && m.dev == n.dev
    ensures SparesHeld(n, m, except)
  {}

  /** What happens to a buffer taken from the pool does not count against the buffers there were. */
  lemma NewBufferSpared(n: Net, m: Net, o: Net, b: NetBuf)
    requires Spares(n, m, {}) && Spares(m, o, {b}) && (b in n.where ==> n.where[b] == Free)
    ensures Spares(n, o, {})
  {}

  /** Likewise if only held buffers are spared afterwards. */
  lemma NewBufferHeld(n: Net, m: Net, o: Net, b: NetBuf)
    requires Spares(n, m, {}) && SparesHeld(m, o, {b}) && (b in n.where ==> n.where[b] == Free)
    ensures SparesHeld(n, o, {})
  {}

  // ---------- steps ----------

  /** `net_alloc_buf` returned `b` holding `bytes`. */
  function Take(n: Net, b: NetBuf, bytes: seq<byte>): Net {
    n.(free := if n.free == [] then [] else n.free[1..],
       count := (n.count + 1) % TWO_32,
       where := n.where[b := Hand],
       contents := n.contents[b := Buf(NET_BUF_START, NET_BUF_START, 1, bytes)])
  }

  /** `net_release_buf` of the only reference to `b`. */
  function Give(n: Net, b: NetBuf): Net
    requires b in n.contents
  {
    n.(free := [b] + n.free,
       count := (n.count - 1) % TWO_32,
       where := n.where[b := Free],
       contents := n.contents[b := n.contents[b].(refCount := 0)])
  }

  function Write(n: Net, b: NetBuf, data: Buf): Net {
    n.(contents := n.contents[b := data])
  }

  /** Takes the buffer out of a transmit slot whose descriptor is done. */
  function EmptySlot(n: Net, i: nat): Net
    requires i < |n.dev.txBufs| && n.dev.txBufs[i].Some? && n.dev.txBufs[i].value in n.contents
  {
    Give(n, n.dev.txBufs[i].value).(dev := n.dev.(txBufs := n.dev.txBufs[i := None]))
  }

  function NextTx(i: nat): nat {
    (i + 1) % TX_SLOTS
  }

  /** Writes the descriptor of the next transmit slot. */
  function Post(n: Net, b: NetBuf): Net
    requires n.dev.txWrite < |n.dev.txDescs| && n.dev.txWrite < |n.dev.txBufs| && n.dev.txWrite < |n.txFrames|
    requires b in n.contents && n.contents[b].start <= n.contents[b].end
  {
    var w, data := n.dev.txWrite, n.contents[b];
    n.(dev := n.dev.(txDescs := n.dev.txDescs[w := TxDesc(Some(b), data.start, data.end - data.start, false)],
                     txBufs := n.dev.txBufs[w := Some(b)],
                     txWrite := NextTx(w)),
       where := n.where[b := Tx(w)],
       wire := n.wire + [data.Packet()],
       txFrames := n.txFrames[w := data.Packet()])
  }

  /** The places of buffers concern only these tables. */
  lemma SamePlacement(n: Net, m: Net)
    requires Placement(n) && m.where == n.where && m.free == n.free
    requires m.arp == n.arp && m.dev.rxBufs == n.dev.rxBufs && m.dev.txBufs == n.dev.txBufs
    ensures Placement(m)
  {
    forall c | c in m.where
      ensures Placed(m, c)
    {
      assert Placed(n, c);
    }
  }

  lemma CountWraps(count: uint32, k: int, d: int)
    requires count == k % TWO_32
    ensures (count + d) % TWO_32 == (k + d) % TWO_32
  {
    var q := k / TWO_32;
    assert k + d == count + d + q * TWO_32;
  }

  lemma TakeKeepsPool(n: Net, b: NetBuf, bytes: seq<byte>)
    requires PoolOk(n)
    requires if n.free == [] then b !in n.where else b == n.free[0]
    ensures PoolOk(Take(n, b, bytes))
  {
    CountWraps(n.count, |n.where| - |n.free|, 1);
  }

  lemma TakeKeepsPlacement(n: Net, b: NetBuf, bytes: seq<byte>)
    requires PoolOk(n) && Placement(n)
    requires if n.free == [] then b !in n.where else b == n.free[0]
    ensures Placement(Take(n, b, bytes))
  {
    var m := Take(n, b, bytes);
    forall c | c in m.where
      ensures Placed(m, c)
    {
      if c != b { assert Placed(n, c); }
    }
  }

  lemma TakeKeepsContents(n: Net, b: NetBuf, bytes: seq<byte>)
    requires PoolOk(n) && Placement(n) && Counted(n) && InFlight(n) && Waiting(n) && |bytes| == NET_BUF_SIZE
    requires if n.free == [] then b !in n.where else b == n.free[0]
    ensures Counted(Take(n, b, bytes)) && InFlight(Take(n, b, bytes)) && Waiting(Take(n, b, bytes))
  {}

  lemma TakeSpares(n: Net, b: NetBuf, bytes: seq<byte>)
    requires PoolOk(n) && if n.free == [] then b !in n.where else b == n.free[0]
    ensures Spares(n, Take(n, b, bytes), {})
  {}

  lemma TakeKeepsInv(n: Net, b: NetBuf, bytes: seq<byte>)
    requires Inv(n) && |bytes| == NET_BUF_SIZE
    requires if n.free == [] then b !in n.where else b == n.free[0]
    ensures Inv(Take(n, b, bytes)) && Spares(n, Take(n, b, bytes), {})
  {
    hide PoolOk, Placement, Counted, InFlight, Waiting, InOrder, Spares;
    TakeKeepsPool(n, b, bytes);
    TakeKeepsPlacement(n, b, bytes);
    TakeKeepsContents(n, b, bytes);
    TakeSpares(n, b, bytes);
  }

  lemma GiveKeepsPool(n: Net, b: NetBuf)
    requires PoolOk(n) && b in n.where && n.where[b] != Free
    ensures PoolOk(Give(n, b))
  {
    CountWraps(n.count, |n.where| - |n.free|, -1);
    assert b !in n.free;
  }

  lemma MoveKeepsPool(n: Net, m: Net, b: NetBuf, p: Place)
    requires PoolOk(n) && b in n.where && n.where[b] != Free && p != Free
    requires m.where == n.where[b := p] && m.free == n.free && m.count == n.count && m.contents == n.contents
    ensures PoolOk(m)
  {
    assert m.where.Keys == n.where.Keys;
  }

  lemma EmptySlotKeepsPlacement(n: Net, i: nat)
    requires PoolOk(n) && Placement(n) && i < |n.dev.txBufs| && n.dev.txBufs[i].Some?
    requires n.dev.txBufs[i].value in n.contents
    ensures Placement(EmptySlot(n, i)) && PoolOk(EmptySlot(n, i))
  {
    GiveKeepsPool(n, n.dev.txBufs[i].value);
    var b, m := n.dev.txBufs[i].value, EmptySlot(n, i);
    forall c | c in m.where
      ensures Placed(m, c)
    {
      if c != b { assert Placed(n, c); }
    }
  }

  lemma EmptySlotKeepsContents(n: Net, i: nat)
    requires Sizes(n) && PoolOk(n) && Placement(n) && Counted(n) && InFlight(n) && Waiting(n)
    requires i < TX_SLOTS && n.dev.txBufs[i].Some? && n.dev.txDescs[i].done
    ensures n.dev.txBufs[i].value in n.contents
    ensures Counted(EmptySlot(n, i)) && InFlight(EmptySlot(n, i)) && Waiting(EmptySlot(n, i))
  {}

  lemma EmptySlotSpares(n: Net, i: nat)
    requires PoolOk(n) && Placement(n) && i < |n.dev.txBufs| && n.dev.txBufs[i].Some?
    requires n.dev.txBufs[i].value in n.contents
    ensures Spares(n, EmptySlot(n, i), {})
  {}

  lemma EmptySlotKeepsInv(n: Net, i: nat)
    requires Inv(n) && i < TX_SLOTS && n.dev.txBufs[i].Some? && n.dev.txDescs[i].done
    ensures n.dev.txBufs[i].value in n.contents
    ensures Inv(EmptySlot(n, i)) && Spares(n, EmptySlot(n, i), {})
  {
    hide InOrder;
    EmptySlotKeepsPlacement(n, i);
    EmptySlotKeepsContents(n, i);
    EmptySlotSpares(n, i);
  }

  lemma PostKeepsPlacement(n: Net, b: NetBuf)
    requires Sizes(n) && PoolOk(n) && Placement(n) && b in n.where && n.where[b] == Hand
    requires n.dev.txBufs[n.dev.txWrite].None?
    requires n.contents[b].start <= n.contents[b].end
    ensures Placement(Post(n, b)) && PoolOk(Post(n, b))
  {
    var m := Post(n, b);
    MoveKeepsPool(n, m, b, Tx(n.dev.txWrite));
    hide PoolOk;
    forall c | c in m.where
      ensures Placed(m, c)
    {
      if c != b { assert Placed(n, c); }
    }
  }

  lemma PostKeepsInFlight(n: Net, b: NetBuf)
    requires Sizes(n) && InFlight(n) && b in n.contents
    requires n.contents[b].start <= n.contents[b].end <= |n.contents[b].bytes|
    ensures InFlight(Post(n, b))
  {}

  lemma PostKeepsContents(n: Net, b: NetBuf)
    requires Sizes(n) && PoolOk(n) && Placement(n) && Counted(n) && InFlight(n) && Waiting(n)
    requires b in n.where && n.where[b] == Hand
    requires n.contents[b].start <= n.contents[b].end <= |n.contents[b].bytes|
    ensures Counted(Post(n, b)) && InFlight(Post(n, b)) && Waiting(Post(n, b))
  {
    PostKeepsInFlight(n, b);
    hide InFlight, Slice;
  }

  lemma Regroup(a: seq<seq<byte>>, b: seq<seq<byte>>, c: seq<seq<byte>>)
    ensures a + (b + c) == a + b + c
  {}

  lemma PostIsLast(w: nat, descs: seq<TxDesc>, frames: seq<seq<byte>>, d: TxDesc, f: seq<byte>)
    requires w < TX_SLOTS && |descs| == TX_SLOTS == |frames| && !d.done
    ensures Unsent(NextTx(w), descs[w := d], frames[w := f], TX_SLOTS - 1) == [f]
    ensures Unsent(w, descs, frames, TX_SLOTS) == []
  {
    assert TxSlot(NextTx(w), TX_SLOTS - 1) == w;
    assert Unsent(NextTx(w), descs[w := d], frames[w := f], TX_SLOTS) == [];
  }

  lemma PostMoves(w: nat, j: nat)
    requires w < TX_SLOTS && j + 1 < TX_SLOTS
    ensures NextTx(w) < TX_SLOTS && TxSlot(NextTx(w), j) == TxSlot(w, j + 1) != w
  {}

  lemma UnsentStep(w: nat, descs: seq<TxDesc>, frames: seq<seq<byte>>, j: nat)
    requires w < TX_SLOTS && |descs| == TX_SLOTS == |frames| && j < TX_SLOTS
    ensures Unsent(w, descs, frames, j) == UnsentAt(descs, frames, TxSlot(w, j)) + Unsent(w, descs, frames, j + 1)
  {}

  /** A new frame queues up behind the unsent ones. */
  lemma {:induction false} PostQueues(w: nat, descs: seq<TxDesc>, frames: seq<seq<byte>>, d: TxDesc, f: seq<byte>, j: nat)
    requires w < TX_SLOTS && |descs| == TX_SLOTS == |frames| && j < TX_SLOTS && !d.done
    ensures Unsent(NextTx(w), descs[w := d], frames[w := f], j) == Unsent(w, descs, frames, j + 1) + [f]
    decreases TX_SLOTS - j
  {
    hide Unsent, TxSlot, NextTx;
    if j + 1 == TX_SLOTS {
      PostIsLast(w, descs, frames, d, f);
    } else {
      PostMoves(w, j);
      UnsentStep(w, descs, frames, j + 1);
      UnsentStep(NextTx(w), descs[w := d], frames[w := f], j);
      PostQueues(w, descs, frames, d, f, j + 1);
      Regroup(UnsentAt(descs, frames, TxSlot(w, j + 1)), Unsent(w, descs, frames, j + 2), [f]);
    }
  }

  lemma PostKeepsDoneFirst(w: nat, descs: seq<TxDesc>, d: TxDesc)
    requires w < TX_SLOTS && |descs| == TX_SLOTS && !d.done && DoneFirst(w, descs)
    ensures DoneFirst(NextTx(w), descs[w := d])
  {
    var v, ds := NextTx(w), descs[w := d];
    forall j, k | 0 <= j < k < TX_SLOTS && !ds[TxSlot(v, j)].done
      ensures !ds[TxSlot(v, k)].done
    {
      if k + 1 < TX_SLOTS {
        assert TxSlot(v, j) == TxSlot(w, j + 1) && TxSlot(v, k) == TxSlot(w, k + 1);
      }
    }
  }

  lemma {:induction false} SkipDone(w: nat, descs: seq<TxDesc>, frames: seq<seq<byte>>, j: nat)
    requires w < TX_SLOTS && |descs| == TX_SLOTS == |frames| && j <= TX_SLOTS
    requires forall k :: 0 <= k < j ==> descs[TxSlot(w, k)].done
    ensures Unsent(w, descs, frames, 0) == Unsent(w, descs, frames, j)
    decreases j
  {
    hide Unsent, TxSlot;
    if j > 0 {
      SkipDone(w, descs, frames, j - 1);
      UnsentStep(w, descs, frames, j - 1);
    }
  }

  lemma PostKeepsOrder(w: nat, descs: seq<TxDesc>, frames: seq<seq<byte>>, wire: seq<seq<byte>>, sent: seq<seq<byte>>,
                       d: TxDesc, f: seq<byte>)
    requires w < TX_SLOTS && |descs| == TX_SLOTS == |frames| && !d.done && descs[w].done
    requires InOrder(w, descs, frames, wire, sent)
    ensures InOrder(NextTx(w), descs[w := d], frames[w := f], wire + [f], sent)
  {
    hide DoneFirst, Unsent;
    assert TxSlot(w, 0) == w;
    hide TxSlot;
    PostKeepsDoneFirst(w, descs, d);
    PostQueues(w, descs, frames, d, f, 0);
    SkipDone(w, descs, frames, 1);
    assert wire + [f] == sent + (Unsent(w, descs, frames, 1) + [f]);
  }

  lemma PostSpares(n: Net, b: NetBuf)
    requires Sizes(n) && b in n.contents && n.contents[b].start <= n.contents[b].end
    ensures Spares(n, Post(n, b), {b})
  {}

  lemma PostKeepsInv(n: Net, b: NetBuf)
    requires Inv(n) && b in n.where && n.where[b] == Hand
    requires n.dev.txBufs[n.dev.txWrite].None? && n.dev.txDescs[n.dev.txWrite].done
    requires n.contents[b].start <= n.contents[b].end <= |n.contents[b].bytes|
    ensures Inv(Post(n, b)) && Spares(n, Post(n, b), {b})
  {
    hide InOrder, UnsentAt;
    PostKeepsPlacement(n, b);
    PostKeepsContents(n, b);
    PostSpares(n, b);
    hide PoolOk, Placement, Counted, InFlight, Waiting, Spares, Buf.Packet;
    var w, data := n.dev.txWrite, n.contents[b];
    PostKeepsOrder(w, n.dev.txDescs, n.txFrames, n.wire, n.sent,
                   TxDesc(Some(b), data.start, data.end - data.start, false), data.Packet());
  }

  lemma GiveKeepsContents(n: Net, b: NetBuf)
    requires PoolOk(n) && Placement(n) && Counted(n) && InFlight(n) && Waiting(n) && b in n.where && n.where[b] == Hand
    ensures b in n.contents && Counted(Give(n, b)) && InFlight(Give(n, b)) && Waiting(Give(n, b))
    ensures Spares(n, Give(n, b), {b})
  {}

  function Seen(n: Net, e: Entry<NetBuf>): Entry<seq<byte>> {
    Entry(e.ha, e.pa, e.etherType,
          if e.pkt.Some? && e.pkt.value in n.contents then Some(n.contents[e.pkt.value].Packet()) else None)
  }

  function Cache(n: Net): seq<Entry<seq<byte>>> {
    seq(|n.arp|, i requires 0 <= i < |n.arp| => Seen(n, n.arp[i]))
  }

  lemma GiveKeepsCache(n: Net, b: NetBuf)
    requires Placement(n) && b in n.contents && b in n.where && n.where[b] == Hand
    ensures Cache(Give(n, b)) == Cache(n)
  {
    forall i | 0 <= i < |n.arp|
      ensures Seen(Give(n, b), n.arp[i]) == Seen(n, n.arp[i])
    {}
  }

  lemma GiveKeepsPlacement(n: Net, b: NetBuf)
    requires PoolOk(n) && Placement(n) && b in n.where && n.where[b] == Hand
    ensures PoolOk(Give(n, b)) && Placement(Give(n, b))
  {
    var m := Give(n, b);
    GiveKeepsPool(n, b);
    forall c | c in m.where
      ensures Placed(m, c)
    {
      if c != b { assert Placed(n, c); }
    }
  }

  lemma GiveKeepsInv(n: Net, b: NetBuf)
    requires Inv(n) && b in n.where && n.where[b] == Hand
    ensures b in n.contents && Inv(Give(n, b)) && Spares(n, Give(n, b), {b}) && Cache(Give(n, b)) == Cache(n)
  {
    hide PoolOk, Placement, Counted, InFlight, Waiting, InOrder, Spares, Cache;
    GiveKeepsContents(n, b);
    GiveKeepsPlacement(n, b);
    GiveKeepsCache(n, b);
  }

  // ---------- the ARP cache ----------

  /** The packet that waited in entry `k` is released. */
  function Forget(n: Net, k: nat): Net
    requires k < |n.arp| && n.arp[k].pkt.Some? && n.arp[k].pkt.value in n.contents
  {
    Give(n, n.arp[k].pkt.value).(arp := n.arp[k := n.arp[k].(pkt := None)])
  }

  lemma ForgetFields(n: Net, k: nat)
    requires k < |n.arp| && n.arp[k].pkt.Some? && n.arp[k].pkt.value in n.contents && n.arp[k].pkt.value in n.where
    ensures var m, b := Forget(n, k), n.arp[k].pkt.value;
      m.dev == n.dev && m.wire == n.wire && m.arp == n.arp[k := n.arp[k].(pkt := None)] &&
      m.free == [b] + n.free && m.count == (n.count - 1) % TWO_32 && m.where == n.where[b := Free] && m.where.Keys == n.where.Keys &&
      m.contents == n.contents[b := n.contents[b].(refCount := 0)] && m.contents.Keys == n.contents.Keys
  {}

  /** `b` waits in entry `k`. */
  function Park(n: Net, k: nat, b: NetBuf): Net
    requires k < |n.arp|
  {
    n.(arp := n.arp[k := n.arp[k].(etherType := ET_IPV4, pkt := Some(b))], where := n.where[b := Deferred(k)])
  }

  /** The packet in entry `k` is taken out to be sent. */
  function Unpark(n: Net, k: nat): Net
    requires k < |n.arp| && n.arp[k].pkt.Some?
  {
    n.(arp := n.arp[k := n.arp[k].(etherType := 0, pkt := None)], where := n.where[n.arp[k].pkt.value := Hand])
  }

  /** New addresses in entry `k`. */
  function Rename(n: Net, k: nat, ha: EthAddr, pa: IPv4Addr): Net
    requires k < |n.arp|
  {
    n.(arp := n.arp[k := n.arp[k].(ha := ha, pa := pa)])
  }

  function Drop(n: Net, b: NetBuf): Net {
    n.(where := n.where[b := Dropped])
  }

  lemma ForgetKeepsPlacement(n: Net, k: nat)
    requires PoolOk(n) && Placement(n) && k < |n.arp| && n.arp[k].pkt.Some? && n.arp[k].pkt.value in n.contents
    ensures Placement(Forget(n, k)) && PoolOk(Forget(n, k))
  {
    var b, m := n.arp[k].pkt.value, Forget(n, k);
    GiveKeepsPool(n, b);
    forall c | c in m.where
      ensures Placed(m, c)
    {
      if c != b { assert Placed(n, c); }
    }
  }

  lemma ForgetKeepsContents(n: Net, k: nat)
    requires PoolOk(n) && Placement(n) && Counted(n) && InFlight(n) && Waiting(n) && k < |n.arp| && n.arp[k].pkt.Some?
    ensures n.arp[k].pkt.value in n.contents
    ensures Counted(Forget(n, k)) && InFlight(Forget(n, k)) && Waiting(Forget(n, k))
    ensures Spares(n, Forget(n, k), {n.arp[k].pkt.value})
  {}

  lemma ForgetKeepsInv(n: Net, k: nat)
    requires Inv(n) && k < CACHE_SIZE && n.arp[k].pkt.Some?
    ensures n.arp[k].pkt.value in n.contents
    ensures Inv(Forget(n, k)) && Spares(n, Forget(n, k), {n.arp[k].pkt.value})
  {
    hide PoolOk, Placement, Counted, InFlight, Waiting, InOrder, Spares;
    ForgetKeepsContents(n, k);
    ForgetKeepsPlacement(n, k);
  }

  lemma ParkKeepsPlacement(n: Net, k: nat, b: NetBuf)
    requires PoolOk(n) && Placement(n) && k < |n.arp| && n.arp[k].pkt.None? && b in n.where && n.where[b] == Hand
    ensures Placement(Park(n, k, b)) && PoolOk(Park(n, k, b))
  {
    var m := Park(n, k, b);
    MoveKeepsPool(n, m, b, Deferred(k));
    hide PoolOk;
    forall c | c in m.where
      ensures Placed(m, c)
    {
      if c != b { assert Placed(n, c); }
    }
  }

  lemma ParkKeepsContents(n: Net, k: nat, b: NetBuf)
    requires Counted(n) && InFlight(n) && Waiting(n) && k < |n.arp| && b in n.where && n.where[b] == Hand
    requires b in n.contents && HasRoom(n.contents[b])
    ensures Counted(Park(n, k, b)) && InFlight(Park(n, k, b)) && Waiting(Park(n, k, b))
    ensures Spares(n, Park(n, k, b), {b})
  {
    hide HasRoom, Slice;
  }

  lemma ParkKeepsInv(n: Net, k: nat, b: NetBuf)
    requires Inv(n) && k < CACHE_SIZE && n.arp[k].pkt.None? && b in n.where && n.where[b] == Hand
    requires HasRoom(n.contents[b])
    ensures Inv(Park(n, k, b)) && Spares(n, Park(n, k, b), {b})
  {
    hide PoolOk, Placement, Counted, InFlight, Waiting, InOrder, Spares, HasRoom;
    HandFacts(n, b);
    ParkKeepsPlacement(n, k, b);
    ParkKeepsContents(n, k, b);
  }

  lemma UnparkKeepsPlacement(n: Net, k: nat)
    requires PoolOk(n) && Placement(n) && k < |n.arp| && n.arp[k].pkt.Some?
    ensures Placement(Unpark(n, k)) && PoolOk(Unpark(n, k))
  {
    var b, m := n.arp[k].pkt.value, Unpark(n, k);
    MoveKeepsPool(n, m, b, Hand);
    hide PoolOk;
    forall c | c in m.where
      ensures Placed(m, c)
    {
      if c != b { assert Placed(n, c); }
    }
  }

  lemma UnparkKeepsContents(n: Net, k: nat)
    requires Counted(n) && InFlight(n) && Waiting(n) && k < |n.arp| && n.arp[k].pkt.Some?
    requires n.arp[k].pkt.value in n.where && n.where[n.arp[k].pkt.value] != Free
    ensures Counted(Unpark(n, k)) && InFlight(Unpark(n, k)) && Waiting(Unpark(n, k))
    ensures Spares(n, Unpark(n, k), {n.arp[k].pkt.value})
  {
    hide HasRoom, Slice;
  }

  lemma UnparkKeepsInv(n: Net, k: nat)
    requires Inv(n) && k < CACHE_SIZE && n.arp[k].pkt.Some?
    ensures Inv(Unpark(n, k)) && Spares(n, Unpark(n, k), {n.arp[k].pkt.value})
  {
    hide PoolOk, Placement, Counted, InFlight, Waiting, InOrder, Spares, HasRoom;
    WaitingFacts(n, k);
    UnparkKeepsPlacement(n, k);
    UnparkKeepsContents(n, k);
  }

  lemma RenameKeepsPlacement(n: Net, k: nat, ha: EthAddr, pa: IPv4Addr)
    requires Placement(n) && k < |n.arp|
    ensures Placement(Rename(n, k, ha, pa))
  {
    var m := Rename(n, k, ha, pa);
    forall c | c in m.where
      ensures Placed(m, c)
    {
      assert Placed(n, c);
    }
  }

  lemma RenameKeepsContents(n: Net, k: nat, ha: EthAddr, pa: IPv4Addr)
    requires Counted(n) && InFlight(n) && Waiting(n) && PoolOk(n) && k < |n.arp|
    ensures Counted(Rename(n, k, ha, pa)) && InFlight(Rename(n, k, ha, pa)) && Waiting(Rename(n, k, ha, pa))
    ensures PoolOk(Rename(n, k, ha, pa)) && Spares(n, Rename(n, k, ha, pa), {})
  {
    hide HasRoom, Slice;
  }

  lemma RenameKeepsInv(n: Net, k: nat, ha: EthAddr, pa: IPv4Addr)
    requires Inv(n) && k < CACHE_SIZE
    ensures Inv(Rename(n, k, ha, pa)) && Spares(n, Rename(n, k, ha, pa), {})
  {
    hide PoolOk, Placement, Counted, InFlight, Waiting, InOrder, Spares;
    RenameKeepsPlacement(n, k, ha, pa);
    RenameKeepsContents(n, k, ha, pa);
  }

  lemma DropKeepsPlacement(n: Net, b: NetBuf)
    requires PoolOk(n) && Placement(n) && b in n.where && n.where[b] == Hand
    ensures PoolOk(Drop(n, b)) && Placement(Drop(n, b))
  {
    var m := Drop(n, b);
    MoveKeepsPool(n, m, b, Dropped);
    hide PoolOk;
    forall c | c in m.where
      ensures Placed(m, c)
    {
      if c != b { assert Placed(n, c); }
    }
  }

  lemma DropKeepsContents(n: Net, b: NetBuf)
    requires Counted(n) && InFlight(n) && Waiting(n) && b in n.where && n.where[b] == Hand
    ensures Counted(Drop(n, b)) && InFlight(Drop(n, b)) && Waiting(Drop(n, b)) && Spares(n, Drop(n, b), {b})
  {
    hide HasRoom, Slice;
  }

  lemma DropKeepsInv(n: Net, b: NetBuf)
    requires Inv(n) && b in n.where && n.where[b] == Hand
    ensures Inv(Drop(n, b)) && Spares(n, Drop(n, b), {b})
  {
    hide PoolOk, Placement, Counted, InFlight, Waiting, InOrder, Spares;
    DropKeepsPlacement(n, b);
    DropKeepsContents(n, b);
  }

  lemma WriteKeepsFrames(n: Net, b: NetBuf, data: Buf)
    requires Placement(n) && InFlight(n) && Waiting(n) && b in n.where && (n.where[b] == Hand || n.where[b].Rx?)
    ensures InFlight(Write(n, b, data)) && Waiting(Write(n, b, data))
  {
    hide Placed, Slice, HasRoom;
  }

  lemma WriteSpares(n: Net, b: NetBuf, data: Buf)
    ensures Spares(n, Write(n, b, data), {b})
  {}

  lemma WriteKeepsBooks(n: Net, b: NetBuf, data: Buf)
    requires PoolOk(n) && b in n.where
    ensures PoolOk(Write(n, b, data))
  {
    assert Write(n, b, data).contents.Keys == n.contents.Keys;
  }

  lemma WriteKeepsCounts(n: Net, b: NetBuf, data: Buf)
    requires Counted(n) && b in n.where && n.where[b] != Free && data.WellFormed() && data.refCount == 1
    ensures Counted(Write(n, b, data))
  {}

  lemma WriteKeepsContents(n: Net, b: NetBuf, data: Buf)
    requires PoolOk(n) && Placement(n) && Counted(n) && InFlight(n) && Waiting(n)
    requires b in n.where && (n.where[b] == Hand || n.where[b].Rx?) && data.WellFormed() && data.refCount == 1
    ensures Counted(Write(n, b, data)) && InFlight(Write(n, b, data)) && Waiting(Write(n, b, data))
    ensures PoolOk(Write(n, b, data)) && Spares(n, Write(n, b, data), {b})
  {
    hide *;
    WriteKeepsFrames(n, b, data);
    WriteSpares(n, b, data);
    WriteKeepsBooks(n, b, data);
    WriteKeepsCounts(n, b, data);
  }

  /** A buffer that is held or being received may be rewritten. */
  lemma WriteKeepsInv(n: Net, b: NetBuf, data: Buf)
    requires Inv(n) && b in n.where && (n.where[b] == Hand || n.where[b].Rx?)
    requires data.WellFormed() && data.refCount == 1
    ensures Inv(Write(n, b, data)) && Spares(n, Write(n, b, data), {b})
  {
    hide PoolOk, Counted, InFlight, Waiting, InOrder, Spares;
    hide Placement;
    WriteKeepsContents(n, b, data);
    SamePlacement(n, Write(n, b, data));
  }

  /** What the device reads through transmit descriptor `i`. */
  function FrameAt(n: Net, i: nat): seq<byte>
    requires i < |n.dev.txDescs|
  {
    var d := n.dev.txDescs[i];
    if d.buf.Some? && d.buf.value in n.contents && Slice(n.contents[d.buf.value].bytes, d.off, d.len).Some?
    then Slice(n.contents[d.buf.value].bytes, d.off, d.len).value
    else []
  }

  /** The device transmits the frame of descriptor `i` and reports it done. */
  function CompleteTx(n: Net, i: nat): Net
    requires i < |n.dev.txDescs|
  {
    n.(dev := n.dev.(txDescs := n.dev.txDescs[i := n.dev.txDescs[i].(done := true)]), sent := n.sent + [FrameAt(n, i)])
  }

  /** The `j`-th oldest descriptor is the first unfinished one. */
  predicate NextToSend(w: nat, descs: seq<TxDesc>, j: nat)
    requires w < TX_SLOTS && |descs| == TX_SLOTS
  {
    j < TX_SLOTS && !descs[TxSlot(w, j)].done && forall k :: 0 <= k < j ==> descs[TxSlot(w, k)].done
  }

  lemma {:induction false} UnsentBehind(w: nat, descs: seq<TxDesc>, frames: seq<seq<byte>>, i: nat, d: TxDesc, j: nat)
    requires w < TX_SLOTS && |descs| == TX_SLOTS == |frames| && i < j <= TX_SLOTS
    ensures Unsent(w, descs[TxSlot(w, i) := d], frames, j) == Unsent(w, descs, frames, j)
    decreases TX_SLOTS - j
  {
    if j < TX_SLOTS {
      UnsentStep(w, descs, frames, j);
      UnsentStep(w, descs[TxSlot(w, i) := d], frames, j);
      assert TxSlot(w, i) != TxSlot(w, j);
      hide Unsent, TxSlot;
      UnsentBehind(w, descs, frames, i, d, j + 1);
    }
  }

  lemma CompleteKeepsDoneFirst(w: nat, descs: seq<TxDesc>, j: nat)
    requires w < TX_SLOTS && |descs| == TX_SLOTS && DoneFirst(w, descs) && NextToSend(w, descs, j)
    ensures var i := TxSlot(w, j); DoneFirst(w, descs[i := descs[i].(done := true)])
    ensures var i := TxSlot(w, j); forall k :: 0 <= k <= j ==> descs[i := descs[i].(done := true)][TxSlot(w, k)].done
  {}

  lemma UnsentAfterComplete(w: nat, descs: seq<TxDesc>, frames: seq<seq<byte>>, j: nat)
    requires w < TX_SLOTS && |descs| == TX_SLOTS == |frames| && DoneFirst(w, descs) && NextToSend(w, descs, j)
    ensures var i := TxSlot(w, j);
      Unsent(w, descs, frames, 0) == [frames[i]] + Unsent(w, descs[i := descs[i].(done := true)], frames, 0)
  {
    hide DoneFirst, TxSlot;
    var i := TxSlot(w, j);
    var ds := descs[i := descs[i].(done := true)];
    CompleteKeepsDoneFirst(w, descs, j);
    SkipDone(w, descs, frames, j);
    assert Unsent(w, descs, frames, j) == [frames[i]] + Unsent(w, descs, frames, j + 1);
    hide Unsent, NextToSend;
    SkipDone(w, ds, frames, j + 1);
    UnsentBehind(w, descs, frames, j, ds[i], j + 1);
  }

  /** Finishing the oldest unfinished descriptor moves its frame from the unsent to the sent ones. */
  lemma CompleteKeepsOrder(w: nat, descs: seq<TxDesc>, frames: seq<seq<byte>>, wire: seq<seq<byte>>, sent: seq<seq<byte>>, j: nat)
    requires w < TX_SLOTS && |descs| == TX_SLOTS == |frames|
    requires InOrder(w, descs, frames, wire, sent) && NextToSend(w, descs, j)
    ensures var i := TxSlot(w, j);
      InOrder(w, descs[i := descs[i].(done := true)], frames, wire, sent + [frames[i]])
  {
    hide DoneFirst, TxSlot, Unsent, NextToSend;
    CompleteKeepsDoneFirst(w, descs, j);
    UnsentAfterComplete(w, descs, frames, j);
  }

  lemma CompleteKeepsTables(n: Net, i: nat)
    requires Inv(n) && i < TX_SLOTS
    ensures var m := CompleteTx(n, i);
      Sizes(m) && PoolOk(m) && Placement(m) && Counted(m) && InFlight(m) && Waiting(m) && Spares(n, m, {})
  {
    hide InOrder, Placement, Slice;
    SamePlacement(n, CompleteTx(n, i));
  }

  lemma UnsentFrame(n: Net, i: nat)
    requires Inv(n) && i < TX_SLOTS && !n.dev.txDescs[i].done
    ensures FrameAt(n, i) == n.txFrames[i]
  {}

  lemma CompleteTxKeepsInv(n: Net, j: nat)
    requires Inv(n) && NextToSend(n.dev.txWrite, n.dev.txDescs, j)
    ensures var m := CompleteTx(n, TxSlot(n.dev.txWrite, j)); Inv(m) && Spares(n, m, {})
  {
    CompleteKeepsTables(n, TxSlot(n.dev.txWrite, j));
    UnsentFrame(n, TxSlot(n.dev.txWrite, j));
    CompleteKeepsOrder(n.dev.txWrite, n.dev.txDescs, n.txFrames, n.wire, n.sent, j);
  }

  // ---------- buffers that nothing refers to ----------

  /** The buffers some function or process holds. */
  ghost function InHand(where: map<NetBuf, Place>): set<NetBuf> {
    set b | b in where && where[b] == Hand
  }

  /** The buffers that will never be released. */
  ghost function Lost(where: map<NetBuf, Place>): set<NetBuf> {
    set b | b in where && where[b] == Dropped
  }

  /** The same buffers are held, and none is lost. */
  ghost predicate SameHands(n: Net, m: Net) {
    InHand(m.where) == InHand(n.where) && Lost(m.where) == Lost(n.where)
  }

  /** `b` is held now, and was not before. */
  ghost predicate Obtains(n: Net, m: Net, b: NetBuf) {
    InHand(m.where) == InHand(n.where) + {b} && Lost(m.where) == Lost(n.where) && b !in InHand(n.where) && b !in Lost(n.where)
  }

  /** `b` is no longer held; it is lost, or else in one of the tables or the pool. */
  ghost predicate Parts(n: Net, m: Net, b: NetBuf, lost: bool) {
    InHand(m.where) == InHand(n.where) - {b} && Lost(m.where) == if lost then Lost(n.where) + {b} else Lost(n.where)
  }

  lemma HandIs(where: map<NetBuf, Place>, b: NetBuf)
    ensures b in InHand(where) <==> b in where && where[b] == Hand
    ensures b in Lost(where) <==> b in where && where[b] == Dropped
  {}

  /** One buffer moves: only the step to `Dropped` loses it. */
  lemma MoveLoses(where: map<NetBuf, Place>, b: NetBuf, p: Place)
    ensures InHand(where[b := p]) == if p == Hand then InHand(where) + {b} else InHand(where) - {b}
    ensures Lost(where[b := p]) == if p == Dropped then Lost(where) + {b} else Lost(where) - {b}
    ensures b !in InHand(where) ==> InHand(where) - {b} == InHand(where)
    ensures b !in Lost(where) ==> Lost(where) - {b} == Lost(where)
  {}

  /** From the pool into some hand. */
  lemma ObtainedIs(n: Net, m: Net, b: NetBuf)
    requires m.where == n.where[b := Hand] && (b in n.where ==> n.where[b] != Hand && n.where[b] != Dropped)
    ensures Obtains(n, m, b)
  {
    MoveLoses(n.where, b, Hand);
  }

  lemma PartsIs(n: Net, m: Net, b: NetBuf, p: Place)
    requires b in n.where && n.where[b] == Hand && m.where == n.where[b := p] && p != Hand
    ensures Parts(n, m, b, p == Dropped)
  {
    MoveLoses(n.where, b, p);
  }

  /** Between tables and pool. */
  lemma SameHandsIs(n: Net, m: Net, b: NetBuf, p: Place)
    requires b in n.where && n.where[b] != Hand && n.where[b] != Dropped
    requires m.where == n.where[b := p] && p != Hand && p != Dropped
    ensures SameHands(n, m)
  {
    MoveLoses(n.where, b, p);
  }

  // ---------- senders that wait ----------

  /** What `eth_intel_send` remembers while it waits for its descriptor. */
  datatype Sending = Sending(slot: nat, oldBuf: Option<NetBuf>)

  function Begin(n: Net): Sending
    requires n.dev.txWrite < |n.dev.txBufs|
  {
    Sending(n.dev.txWrite, n.dev.txBufs[n.dev.txWrite])
  }

  /** `net_release_buf`, whatever the reference count is. */
  function ReleaseOnce(n: Net, b: NetBuf): Net
    requires b in n.contents
  {
    if n.contents[b].refCount == 1 then Give(n, b)
    else n.(contents := n.contents[b := n.contents[b].(refCount := (n.contents[b].refCount - 1) % TWO_32)])
  }

  predicate CanFinish(n: Net, s: Sending, buf: NetBuf) {
    && |n.dev.txBufs| == TX_SLOTS == |n.dev.txDescs| && |n.txFrames| == TX_SLOTS
    && n.dev.txWrite < TX_SLOTS && s.slot < TX_SLOTS
    && (s.oldBuf.Some? ==> s.oldBuf.value in n.contents)
    && buf in n.contents && n.contents[buf].start <= n.contents[buf].end <= |n.contents[buf].bytes|
  }

  /** What `eth_intel_send` does after its wait: the descriptor is the one it remembers, the slot the current one. */
  function Finish(n: Net, s: Sending, buf: NetBuf): Net
    requires CanFinish(n, s, buf)
  {
    var r, data, w := if s.oldBuf.Some? then ReleaseOnce(n, s.oldBuf.value) else n, n.contents[buf], n.dev.txWrite;
    r.(dev := r.dev.(txDescs := r.dev.txDescs[s.slot := TxDesc(Some(buf), data.start, data.end - data.start, false)],
                     txBufs := r.dev.txBufs[w := Some(buf)],
                     txWrite := NextTx(w)),
       where := r.where[buf := Tx(w)],
       wire := r.wire + [data.Packet()],
       txFrames := r.txFrames[w := data.Packet()])
  }

  /** Nobody else has sent during the wait. */
  predicate Undisturbed(n: Net, s: Sending) {
    n.dev.txWrite == s.slot < |n.dev.txBufs| && n.dev.txBufs[s.slot] == s.oldBuf
  }

  lemma GiveFields(n: Net, b: NetBuf)
    requires b in n.contents
    ensures var m := Give(n, b); m.dev == n.dev && m.wire == n.wire && m.txFrames == n.txFrames
  {}

  lemma Overwritten<T>(s: seq<T>, i: nat, x: T, y: T)
    requires i < |s|
    ensures s[i := x][i := y] == s[i := y]
  {}

  lemma HandSurvives(n: Net, i: nat, buf: NetBuf)
    requires Inv(n) && i < TX_SLOTS && n.dev.txBufs[i].Some? && buf in n.where && n.where[buf] == Hand
    ensures n.dev.txBufs[i].value in n.contents && buf in n.contents
    ensures var m := EmptySlot(n, i);
      buf in m.where && m.where[buf] == Hand && buf in m.contents && m.contents[buf] == n.contents[buf] &&
      m.dev.txWrite == n.dev.txWrite && m.dev.txDescs == n.dev.txDescs && m.dev.txBufs == n.dev.txBufs[i := None]
  {
    TxFacts(n, i);
  }

  lemma FinishIntoFull(n: Net, s: Sending, buf: NetBuf)
    requires CanFinish(n, s, buf) && Undisturbed(n, s) && s.oldBuf.Some? && s.oldBuf.value != buf
    requires n.contents[s.oldBuf.value].refCount == 1
    ensures var m := EmptySlot(n, s.slot);
      CanFinish(m, s, buf) && Finish(n, s, buf) == Post(m, buf)
  {
    GiveFields(n, s.oldBuf.value);
    Overwritten(n.dev.txBufs, s.slot, None, Some(buf));
    hide Give, NextTx, Buf.Packet;
  }

  lemma FinishIntoEmpty(n: Net, s: Sending, buf: NetBuf)
    requires CanFinish(n, s, buf) && Undisturbed(n, s) && s.oldBuf.None?
    ensures Finish(n, s, buf) == Post(n, buf)
  {
    hide NextTx, Buf.Packet;
  }

  lemma FinishIsAtomic(n: Net, s: Sending, buf: NetBuf)
    requires Inv(n) && CanFinish(n, s, buf) && Undisturbed(n, s) && buf in n.where && n.where[buf] == Hand
    ensures s.oldBuf.Some? ==> n.dev.txBufs[s.slot].value in n.contents
    ensures Finish(n, s, buf) == if s.oldBuf.Some? then Post(EmptySlot(n, s.slot), buf) else Post(n, buf)
  {
    hide Inv, Finish, Post, EmptySlot;
    if s.oldBuf.Some? {
      TxFacts(n, s.slot);
      FinishIntoFull(n, s, buf);
    } else {
      FinishIntoEmpty(n, s, buf);
    }
  }

  lemma UndisturbedKeepsInv(n: Net, s: Sending, buf: NetBuf)
    requires Inv(n) && CanFinish(n, s, buf) && Undisturbed(n, s) && buf in n.where && n.where[buf] == Hand
    requires n.dev.txDescs[s.slot].done
    ensures Inv(Finish(n, s, buf))
  {
    FinishIsAtomic(n, s, buf);
    hide *;
    if s.oldBuf.Some? {
      EmptySlotKeepsInv(n, s.slot);
      HandSurvives(n, s.slot, buf);
      PostKeepsInv(EmptySlot(n, s.slot), buf);
    } else {
      PostKeepsInv(n, buf);
    }
  }

  lemma DisturbedBreaksInv(n: Net, s: Sending, buf: NetBuf)
    requires Inv(n) && CanFinish(n, s, buf) && !Undisturbed(n, s) && buf in n.where && n.where[buf] == Hand
    requires n.dev.txBufs[s.slot].None? ==> s.oldBuf.None?
    ensures !Inv(Finish(n, s, buf))
  {
    hide Counted, Waiting, TxInOrder, PoolOk;
    var m, w := Finish(n, s, buf), n.dev.txWrite;
    if w != s.slot {
      assert m.dev.txBufs[s.slot] == n.dev.txBufs[s.slot] != Some(buf);
      assert !m.dev.txDescs[s.slot].done && m.dev.txDescs[s.slot].buf == Some(buf);
      assert !InFlight(m);
    } else {
      var b := n.dev.txBufs[w].value;
      assert n.where[b] == Tx(w) && m.where[b] == Tx(w) && m.dev.txBufs[w] == Some(buf) != Some(b);
      assert !Placed(m, b);
    }
  }

  /**
   A sender whose descriptor is done keeps the books in order if and only if nobody else has sent while
   it waited.  (A slot once filled is never empty again.)
   */
  lemma FinishKeepsInvIff(n: Net, s: Sending, buf: NetBuf)
    requires Inv(n) && CanFinish(n, s, buf) && buf in n.where && n.where[buf] == Hand
    requires n.dev.txDescs[s.slot].done && (n.dev.txBufs[s.slot].None? ==> s.oldBuf.None?)
    ensures Inv(Finish(n, s, buf)) <==> Undisturbed(n, s)
  {
    hide *;
    if Undisturbed(n, s) {
      UndisturbedKeepsInv(n, s, buf);
    } else {
      DisturbedBreaksInv(n, s, buf);
    }
  }

  lemma BeginFacts(n: Net, a: NetBuf)
    requires n.dev.txWrite < |n.dev.txBufs| && CanFinish(n, Begin(n), a)
    ensures Begin(n).slot == n.dev.txWrite < TX_SLOTS && Begin(n).oldBuf == n.dev.txBufs[n.dev.txWrite]
    ensures |n.dev.txBufs| == TX_SLOTS == |n.dev.txDescs| && Undisturbed(n, Begin(n))
  {}

  lemma NextIsYoungest(w: nat)
    requires w < TX_SLOTS
    ensures NextTx(w) < TX_SLOTS && NextTx(w) != w && TxSlot(NextTx(w), TX_SLOTS - 1) == w
    ensures forall k :: 0 <= k < TX_SLOTS - 1 ==> TxSlot(NextTx(w), k) != w
  {}

  /** One descriptor is posted when all are done: it is the next to be sent. */
  lemma OnlyOneToSend(w: nat, descs: seq<TxDesc>, d: TxDesc)
    requires w < TX_SLOTS == |descs| && !d.done && forall i :: 0 <= i < TX_SLOTS ==> descs[i].done
    ensures NextTx(w) < TX_SLOTS && NextToSend(NextTx(w), descs[w := d], TX_SLOTS - 1)
    ensures TxSlot(NextTx(w), TX_SLOTS - 1) == w
  {
    NextIsYoungest(w);
  }

  lemma FinishFields(n: Net, s: Sending, a: NetBuf, b: NetBuf)
    requires CanFinish(n, s, a) && CanFinish(n, s, b) && n.dev.txWrite == s.slot && a != b
    requires b in n.where && n.where[b] == Hand && (s.oldBuf.Some? ==> s.oldBuf.value != b)
    ensures var m := Finish(n, s, a);
      m.dev.txWrite == NextTx(s.slot) && m.dev.txBufs == n.dev.txBufs[s.slot := Some(a)] &&
      b in m.where && m.where[b] == Hand && b in m.contents && m.contents[b] == n.contents[b] &&
      |m.dev.txDescs| == TX_SLOTS && |m.txFrames| == TX_SLOTS && CanFinish(m, s, b)
    ensures var m := Finish(n, s, a);
      !m.dev.txDescs[s.slot].done && m.dev.txDescs == n.dev.txDescs[s.slot := m.dev.txDescs[s.slot]]
  {}

  /** Everything sent: then the only descriptor that is not done after one more send is that one. */
  lemma FirstSenderDone(n: Net, a: NetBuf, b: NetBuf)
    requires Inv(n) && CanFinish(n, Begin(n), a) && CanFinish(n, Begin(n), b) && a != b
    requires a in n.where && n.where[a] == Hand && b in n.where && n.where[b] == Hand
    requires forall i :: 0 <= i < TX_SLOTS ==> n.dev.txDescs[i].done
    ensures var s := Begin(n);
      var m := Finish(n, s, a);
      m.dev.txWrite == NextTx(s.slot) < TX_SLOTS && |m.dev.txDescs| == TX_SLOTS &&
      TxSlot(m.dev.txWrite, TX_SLOTS - 1) == s.slot && NextToSend(m.dev.txWrite, m.dev.txDescs, TX_SLOTS - 1) &&
      b in m.where && m.where[b] == Hand && CanFinish(m, s, b) && m.dev.txBufs[s.slot] == Some(a)
  {
    var s := Begin(n);
    BeginFacts(n, a);
    hide *;
    if s.oldBuf.Some? {
      TxFacts(n, s.slot);
    }
    FinishFields(n, s, a, b);
    OnlyOneToSend(s.slot, n.dev.txDescs, Finish(n, s, a).dev.txDescs[s.slot]);
  }

  /** Finishing the descriptor of the first sender. */
  lemma CompletedFirst(m: Net, s: Sending, b: NetBuf)
    requires s.slot < |m.dev.txDescs| && CanFinish(m, s, b)
    ensures var sent := CompleteTx(m, s.slot);
      CanFinish(sent, s, b) && sent.where == m.where && sent.dev.txWrite == m.dev.txWrite && sent.dev.txBufs == m.dev.txBufs
    ensures CompleteTx(m, s.slot).free == m.free && CompleteTx(m, s.slot).contents == m.contents
  {}

  lemma MovedOn(n: Net, s: Sending)
    requires n.dev.txWrite != s.slot
    ensures !Undisturbed(n, s)
  {}

  /**
   Two processes send at once.  Both remember the same slot; the second one waits until the card has
   sent the first one's frame.  Then it overwrites a descriptor that is not its own.
   */
  lemma TwoSendersCollide(n: Net, a: NetBuf, b: NetBuf)
    requires Inv(n) && CanFinish(n, Begin(n), a) && CanFinish(n, Begin(n), b) && a != b
    requires a in n.where && n.where[a] == Hand && b in n.where && n.where[b] == Hand
    requires forall i :: 0 <= i < TX_SLOTS ==> n.dev.txDescs[i].done
    ensures var s := Begin(n);
      var first := Finish(n, s, a);
      s.slot < |first.dev.txDescs| &&
      var sent := CompleteTx(first, s.slot);
      Inv(first) && Inv(sent) && CanFinish(sent, s, b) && !Inv(Finish(sent, s, b))
  {
    hide *;
    TxSizes(n);
    BeginFacts(n, a);
    var s := Begin(n);
    NextIsYoungest(s.slot);
    var first := Finish(n, s, a);
    UndisturbedKeepsInv(n, s, a);
    FirstSenderDone(n, a, b);
    CompleteTxKeepsInv(first, TX_SLOTS - 1);
    CompletedFirst(first, s, b);
    MovedOn(CompleteTx(first, s.slot), s);
    DisturbedBreaksInv(CompleteTx(first, s.slot), s, b);
  }

  lemma FirstRelease(n: Net, s: Sending, a: NetBuf)
    requires Inv(n) && CanFinish(n, s, a) && Undisturbed(n, s) && s.oldBuf.Some?
    ensures var m, o := Finish(n, s, a), s.oldBuf.value;
      o in m.free && o in m.contents && m.contents[o].refCount == 0
  {
    TxFacts(n, s.slot);
    hide Inv;
  }

  lemma SecondRelease(n: Net, s: Sending, b: NetBuf)
    requires CanFinish(n, s, b) && s.oldBuf.Some? && s.oldBuf.value in n.free && n.contents[s.oldBuf.value].refCount == 0
    ensures var m, o := Finish(n, s, b), s.oldBuf.value;
      o in m.free && o in m.contents && m.contents[o].refCount == TWO_32 - 1
  {}

  /** The buffer in that slot before both ends up in the pool with a reference count of 2^32 - 1. */
  lemma ReleasedTwice(n: Net, a: NetBuf, b: NetBuf)
    requires Inv(n) && CanFinish(n, Begin(n), a) && CanFinish(n, Begin(n), b) && a != b && Begin(n).oldBuf.Some?
    requires a in n.where && n.where[a] == Hand && b in n.where && n.where[b] == Hand
    requires forall i :: 0 <= i < TX_SLOTS ==> n.dev.txDescs[i].done
    ensures var s, o := Begin(n), Begin(n).oldBuf.value;
      var first := Finish(n, s, a);
      s.slot < |first.dev.txDescs| &&
      var sent := CompleteTx(first, s.slot);
      CanFinish(sent, s, b) &&
      var last := Finish(sent, s, b);
      o in last.free && o in last.contents && last.contents[o].refCount == TWO_32 - 1
  {
    hide *;
    TxSizes(n);
    BeginFacts(n, a);
    var s := Begin(n);
    FirstSenderDone(n, a, b);
    FirstRelease(n, s, a);
    CompletedFirst(Finish(n, s, a), s, b);
    SecondRelease(CompleteTx(Finish(n, s, a), s.slot), s, b);
  }

  // ---------- the host behind the buffers ----------

  /** As long as the entries and the waiting packets stay, the wire sees the same host. */
  lemma CacheSpared(n: Net, m: Net, except: set<NetBuf>)
    requires Inv(n) && Spares(n, m, except) && m.arp == n.arp
    requires forall b :: b in except && b in n.where ==> !n.where[b].Deferred?
    ensures Cache(m) == Cache(n)
  {
    hide Counted, InFlight, Waiting, InOrder;
    forall i | 0 <= i < |n.arp|
      ensures Seen(m, n.arp[i]) == Seen(n, n.arp[i])
    {}
  }

  lemma CacheAfterRename(n: Net, k: nat, ha: EthAddr, pa: IPv4Addr)
    requires k < |n.arp|
    ensures Cache(Rename(n, k, ha, pa)) == Cache(n)[k := Cache(n)[k].(ha := ha, pa := pa)]
  {}

  lemma CacheAfterForget(n: Net, k: nat)
    requires Inv(n) && k < |n.arp| && n.arp[k].pkt.Some?
    ensures n.arp[k].pkt.value in n.contents
    ensures Cache(Forget(n, k)) == Cache(n)[k := Cache(n)[k].(pkt := None)]
  {
    hide Counted, InFlight, Waiting, InOrder;
    forall i | 0 <= i < |n.arp| && i != k
      ensures Seen(Forget(n, k), n.arp[i]) == Seen(n, n.arp[i])
    {}
  }

  lemma CacheAfterPark(n: Net, k: nat, b: NetBuf)
    requires Inv(n) && k < |n.arp| && b in n.contents
    ensures Cache(Park(n, k, b)) == Cache(n)[k := Cache(n)[k].(etherType := ET_IPV4, pkt := Some(n.contents[b].Packet()))]
  {
    hide Counted, InFlight, Waiting, InOrder;
    forall i | 0 <= i < |n.arp| && i != k
      ensures Seen(Park(n, k, b), n.arp[i]) == Seen(n, n.arp[i])
    {}
  }

  lemma CacheAfterUnpark(n: Net, k: nat)
    requires Inv(n) && k < |n.arp| && n.arp[k].pkt.Some?
    ensures Cache(Unpark(n, k)) == Cache(n)[k := Cache(n)[k].(etherType := 0, pkt := None)]
  {
    hide Counted, InFlight, Waiting, InOrder;
    forall i | 0 <= i < |n.arp| && i != k
      ensures Seen(Unpark(n, k), n.arp[i]) == Seen(n, n.arp[i])
    {}
  }

  lemma CacheAfterWrite(n: Net, b: NetBuf, data: Buf)
    requires Inv(n) && b in n.where && !n.where[b].Deferred?
    ensures Cache(Write(n, b, data)) == Cache(n)
  {
    hide Counted, InFlight, Waiting, InOrder;
    forall i | 0 <= i < |n.arp|
      ensures Seen(Write(n, b, data), n.arp[i]) == Seen(n, n.arp[i])
    {}
  }

  lemma LookupInCache(n: Net, pa: IPv4Addr)
    ensures |Cache(n)| == |n.arp| && Lookup(Cache(n), pa) == Lookup(n.arp, pa)
  {
    LookupIgnoresRest(Cache(n), n.arp, pa);
  }

  lemma CacheEntry(n: Net, k: nat)
    requires k < |n.arp|
    ensures |Cache(n)| == |n.arp| && Cache(n)[k].ha == n.arp[k].ha && Cache(n)[k].pa == n.arp[k].pa
    ensures n.arp[k].pkt.Some? && n.arp[k].pkt.value in n.contents ==>
              Cache(n)[k].pkt == Some(n.contents[n.arp[k].pkt.value].Packet())
    ensures n.arp[k].pkt.None? ==> Cache(n)[k].pkt.None?
  {}

  // ---------- the receive ring ----------

  /** A frame the device has put into a receive buffer. */
  datatype Arrival = Arrival(frame: seq<byte>, errors: bool)

  /** The k-th slot from `r` on. */
  function Slot(r: nat, k: nat): (i: nat)
    requires r < RX_SLOTS && k <= RX_SLOTS
    ensures i < RX_SLOTS
  {
    if r + k < RX_SLOTS then r + k else r + k - RX_SLOTS
  }

  /** The address in every receive descriptor is the start of the buffer the driver keeps for that slot. */
  ghost predicate Agrees(n: Net) {
    |n.dev.rxDescs| == |n.dev.rxBufs| &&
    forall i {:trigger n.dev.rxDescs[i]} {:trigger n.dev.rxBufs[i]} :: 0 <= i < |n.dev.rxBufs| ==>
      n.dev.rxDescs[i].buf == n.dev.rxBufs[i] && n.dev.rxDescs[i].off == NET_BUF_START &&
      n.dev.rxBufs[i] in n.contents && n.contents[n.dev.rxBufs[i]].start == NET_BUF_START
  }

  /** Slot `i` holds the finished frame `a`. */
  ghost predicate Arrived(n: Net, i: nat, a: Arrival) {
    && i < |n.dev.rxDescs| && i < |n.dev.rxBufs| && n.dev.rxBufs[i] in n.contents
    && n.dev.rxDescs[i].done && n.dev.rxDescs[i].errors == a.errors && n.dev.rxDescs[i].len == |a.frame|
    && Slice(n.contents[n.dev.rxBufs[i]].bytes, NET_BUF_START, |a.frame|) == Some(a.frame)
  }

  /** The finished frames are those in `q`, in ring order from `rxRead`; the device owns the other slots. */
  ghost predicate RxOk(n: Net, q: seq<Arrival>) {
    && Sizes(n) && Agrees(n) && |q| < RX_SLOTS
    && (forall k :: 0 <= k < |q| ==> Arrived(n, Slot(n.dev.rxRead, k), q[k]))
    && (forall k :: |q| <= k < RX_SLOTS ==> !n.dev.rxDescs[Slot(n.dev.rxRead, k)].done)
  }

  /** The 32 receive buffers are different, and none is in the pool, in a transmit slot, waiting, or held. */
  lemma RxBuffersApart(n: Net)
    requires Inv(n)
    ensures Distinct(n.dev.rxBufs)
    ensures forall b :: b in n.dev.rxBufs ==> b in n.where && n.where[b].Rx? && b !in n.free
    ensures forall i, b :: 0 <= i < TX_SLOTS && b in n.dev.rxBufs ==> n.dev.txBufs[i] != Some(b)
    ensures forall i, b :: 0 <= i < CACHE_SIZE && b in n.dev.rxBufs ==> n.arp[i].pkt != Some(b)
  {
    hide Counted, InFlight, Waiting, InOrder;
  }

  /** `part` copied into `bytes` at `at`, if it fits. */
  function Splice(bytes: seq<byte>, at: nat, part: seq<byte>): (r: seq<byte>)
    ensures |r| == |bytes|
    ensures at + |part| <= |bytes| ==> r[at..at + |part|] == part && r[at + |part|..] == bytes[at + |part|..]
  {
    if at + |part| <= |bytes| then bytes[..at] + part + bytes[at + |part|..] else bytes
  }

  /** The device fills the next slot through the address in its descriptor. */
  function Fill(n: Net, i: nat, a: Arrival): Net
    requires i < |n.dev.rxDescs| && n.dev.rxDescs[i].buf in n.contents
  {
    var d := n.dev.rxDescs[i];
    var was := n.contents[d.buf];
    n.(dev := n.dev.(rxDescs := n.dev.rxDescs[i := d.(len := |a.frame|, done := true, errors := a.errors)]),
       contents := n.contents[d.buf := was.(bytes := Splice(was.bytes, d.off, a.frame))])
  }

  function NextRx(i: nat): (j: nat)
    ensures j < RX_SLOTS
  {
    (i + 1) % RX_SLOTS
  }

  /** The end of an iteration of `eth_intel_poll`: the slot goes back to the device with the address of `b`. */
  function HandBack(n: Net, b: NetBuf, off: nat): Net
    requires n.dev.rxRead < |n.dev.rxDescs|
  {
    var r := n.dev.rxRead;
    n.(dev := n.dev.(rxDescs := n.dev.rxDescs[r := n.dev.rxDescs[r].(buf := b, off := off, done := false)],
                     rxRead := NextRx(r)))
  }

  lemma SameCache(n: Net, m: Net)
    requires m.arp == n.arp && m.contents == n.contents
    ensures Cache(m) == Cache(n)
  {}

  /** The invariant says nothing about the receive descriptors but their number. */
  lemma SameTables(n: Net, m: Net)
    requires Inv(n) && m == n.(dev := n.dev.(rxDescs := m.dev.rxDescs, rxRead := m.dev.rxRead))
    requires |m.dev.rxDescs| == RX_SLOTS && m.dev.rxRead < RX_SLOTS
    ensures Inv(m) && Cache(m) == Cache(n)
  {
    hide InOrder, Placement, Slice, HasRoom;
    SamePlacement(n, m);
    SameCache(n, m);
  }

  lemma FillKeepsInv(n: Net, i: nat, a: Arrival)
    requires Inv(n) && Agrees(n) && i < RX_SLOTS
    ensures Inv(Fill(n, i, a)) && Fill(n, i, a).where == n.where && Cache(Fill(n, i, a)) == Cache(n)
  {
    var b, m := n.dev.rxBufs[i], Fill(n, i, a);
    var w := Write(n, b, m.contents[b]);
    WriteKeepsInv(n, b, m.contents[b]);
    CacheAfterWrite(n, b, m.contents[b]);
    SameTables(w, m);
  }

  lemma InOrderAgain(m: Net, q: seq<Arrival>)
    requires Sizes(m) && Agrees(m) && |q| < RX_SLOTS
    requires forall k :: 0 <= k < |q| ==> Arrived(m, Slot(m.dev.rxRead, k), q[k])
    requires forall k :: |q| <= k < RX_SLOTS ==> !m.dev.rxDescs[Slot(m.dev.rxRead, k)].done
    ensures RxOk(m, q)
  {}

  lemma FilledSlot(n: Net, i: nat, a: Arrival)
    requires Agrees(n) && i < |n.dev.rxDescs| && NET_BUF_START + |a.frame| <= NET_BUF_SIZE
    requires n.contents[n.dev.rxBufs[i]].WellFormed()
    ensures Arrived(Fill(n, i, a), i, a)
  {}

  lemma FillAgrees(n: Net, i: nat, a: Arrival)
    requires Agrees(n) && i < |n.dev.rxDescs|
    ensures var m := Fill(n, i, a);
      && Agrees(m) && m.dev.rxRead == n.dev.rxRead && (Sizes(n) ==> Sizes(m))
      && forall j :: 0 <= j < |n.dev.rxDescs| && j != i ==> m.dev.rxDescs[j] == n.dev.rxDescs[j]
  {
    hide Splice;
  }

  lemma OtherSlot(n: Net, i: nat, a: Arrival, j: nat, b: Arrival)
    requires Agrees(n) && i < |n.dev.rxDescs| && j < |n.dev.rxDescs| && n.dev.rxBufs[i] != n.dev.rxBufs[j]
    requires Arrived(n, j, b)
    ensures Arrived(Fill(n, i, a), j, b)
  {
    hide Splice, Slice;
  }

  lemma SlotsApart(r: nat, j: nat, k: nat)
    requires r < RX_SLOTS && j < k < RX_SLOTS
    ensures Slot(r, j) != Slot(r, k)
  {}

  lemma RingFacts(n: Net, i: nat)
    requires Inv(n) && Agrees(n) && i < RX_SLOTS
    ensures i < |n.dev.rxDescs| && i < |n.dev.rxBufs| && n.dev.rxDescs[i].buf == n.dev.rxBufs[i]
    ensures n.dev.rxDescs[i].off == NET_BUF_START
    ensures n.dev.rxBufs[i] in n.contents && n.dev.rxBufs[i] in n.where && n.where[n.dev.rxBufs[i]] == Rx(i)
    ensures n.dev.rxBufs[i] !in n.free && n.contents[n.dev.rxBufs[i]].WellFormed()
  {}

  lemma RingIs(n: Net, q: seq<Arrival>)
    requires RxOk(n, q)
    ensures Sizes(n) && Agrees(n) && n.dev.rxRead < RX_SLOTS == |n.dev.rxDescs| && |n.dev.rxBufs| == RX_SLOTS && |q| < RX_SLOTS
  {}

  lemma QueueAt(n: Net, q: seq<Arrival>, k: nat)
    requires RxOk(n, q) && k < RX_SLOTS
    ensures k < |q| ==> Arrived(n, Slot(n.dev.rxRead, k), q[k])
    ensures |q| <= k ==> !n.dev.rxDescs[Slot(n.dev.rxRead, k)].done
  {}

  lemma FilledQueue(n: Net, q: seq<Arrival>, a: Arrival, k: nat)
    requires Inv(n) && RxOk(n, q) && k <= |q| < RX_SLOTS && NET_BUF_START + |a.frame| <= NET_BUF_SIZE
    ensures Arrived(Fill(n, Slot(n.dev.rxRead, |q|), a), Slot(n.dev.rxRead, k), (q + [a])[k])
  {
    RingIs(n, q);
    hide *;
    var r, i := n.dev.rxRead, Slot(n.dev.rxRead, |q|);
    RingFacts(n, i);
    if k < |q| {
      QueueAt(n, q, k);
      SlotsApart(r, k, |q|);
      RingFacts(n, Slot(r, k));
      OtherSlot(n, i, a, Slot(r, k), q[k]);
    } else {
      FilledSlot(n, i, a);
    }
  }

  lemma UnfilledSlot(n: Net, q: seq<Arrival>, a: Arrival, k: nat)
    requires RxOk(n, q) && |q| < k < RX_SLOTS
    ensures var m, i := Fill(n, Slot(n.dev.rxRead, |q|), a), Slot(n.dev.rxRead, k);
      i < |m.dev.rxDescs| && !m.dev.rxDescs[i].done
  {
    RingIs(n, q);
    FillAgrees(n, Slot(n.dev.rxRead, |q|), a);
    hide *;
    QueueAt(n, q, k);
    SlotsApart(n.dev.rxRead, |q|, k);
  }

  lemma FillQueues(n: Net, q: seq<Arrival>, a: Arrival)
    requires Inv(n) && RxOk(n, q) && |q| + 1 < RX_SLOTS && NET_BUF_START + |a.frame| <= NET_BUF_SIZE
    ensures RxOk(Fill(n, Slot(n.dev.rxRead, |q|), a), q + [a])
  {
    RingIs(n, q);
    hide Inv, RxOk, Sizes, Agrees, Arrived, Slot, Fill;
    var r := n.dev.rxRead;
    var m := Fill(n, Slot(r, |q|), a);
    FillAgrees(n, Slot(r, |q|), a);
    forall k | 0 <= k < |q| + 1
      ensures Arrived(m, Slot(r, k), (q + [a])[k])
    {
      FilledQueue(n, q, a, k);
    }
    forall k | |q| + 1 <= k < RX_SLOTS
      ensures !m.dev.rxDescs[Slot(r, k)].done
    {
      UnfilledSlot(n, q, a, k);
    }
    InOrderAgain(m, q + [a]);
  }

  /** The slot `k` steps from `r`, any number of times around the ring. */
  function RingAt(r: nat, k: nat): nat {
    (r + k) % RX_SLOTS
  }

  lemma RingIndex(r: nat, k: nat)
    ensures r < RX_SLOTS ==> RingAt(r, 0) == r
    ensures RingAt(r, k + 1) == NextRx(RingAt(r, k))
  {
    var x := r + k;
    assert x + 1 == x % RX_SLOTS + 1 + x / RX_SLOTS * RX_SLOTS;
  }

  lemma NextSlot(r: nat, k: nat)
    requires r < RX_SLOTS && k < RX_SLOTS
    ensures Slot(NextRx(r), k) == Slot(r, k + 1)
    ensures if k + 1 < RX_SLOTS then Slot(r, k + 1) != r else Slot(r, k + 1) == r
  {}

  lemma RingKept(n: Net, m: Net, except: set<NetBuf>)
    requires SparesHeld(n, m, except)
    ensures RxKept(n, m)
  {}

  lemma RxPlace(n: Net, i: nat)
    requires Inv(n) && i < RX_SLOTS
    ensures i < |n.dev.rxBufs| == RX_SLOTS
    ensures var b := n.dev.rxBufs[i]; b in n.where && b in n.contents && n.where[b] == Rx(i)
  {}

  ghost predicate SameData(n: Net, m: Net, b: NetBuf) {
    b in n.contents && b in m.contents && m.contents[b] == n.contents[b]
  }

  /** The slots behind the first one, while the first one's frame is processed. */
  ghost predicate OthersKept(n: Net, m: Net) {
    && RxKept(n, m)
    && forall i :: 0 <= i < |n.dev.rxBufs| && i != n.dev.rxRead ==> SameData(n, m, n.dev.rxBufs[i])
  }

  lemma KeptRead(n: Net, m: Net)
    requires OthersKept(n, m)
    ensures m.dev.rxRead == n.dev.rxRead
  {}

  lemma KeptSlots(n: Net, m: Net)
    requires RxKept(n, m)
    requires forall i :: 0 <= i < |n.dev.rxBufs| && i != n.dev.rxRead ==> SameData(n, m, n.dev.rxBufs[i])
    ensures OthersKept(n, m)
  {}

  lemma OtherKept(n: Net, m: Net, i: nat)
    requires Inv(n) && SparesHeld(n, m, {n.dev.rxBufs[n.dev.rxRead]}) && i < RX_SLOTS && i != n.dev.rxRead
    ensures SameData(n, m, n.dev.rxBufs[i])
  {
    RxPlace(n, i);
    RxPlace(n, n.dev.rxRead);
    hide Inv, Sizes, RxKept, SparesHeld;
    Held(n, m, {n.dev.rxBufs[n.dev.rxRead]}, n.dev.rxBufs[i]);
  }

  lemma OthersAreKept(n: Net, m: Net)
    requires Inv(n) && SparesHeld(n, m, {n.dev.rxBufs[n.dev.rxRead]})
    ensures OthersKept(n, m)
  {
    RxPlace(n, n.dev.rxRead);
    RingKept(n, m, {n.dev.rxBufs[n.dev.rxRead]});
    hide *;
    forall i | 0 <= i < RX_SLOTS && i != n.dev.rxRead
      ensures SameData(n, m, n.dev.rxBufs[i])
    {
      OtherKept(n, m, i);
    }
    KeptSlots(n, m);
  }

  lemma HandBackAgrees(n: Net, m: Net)
    requires Agrees(n) && OthersKept(n, m) && n.dev.rxRead < |n.dev.rxBufs|
    requires n.dev.rxBufs[n.dev.rxRead] in m.contents && m.contents[n.dev.rxBufs[n.dev.rxRead]].start == NET_BUF_START
    ensures Agrees(HandBack(m, n.dev.rxBufs[n.dev.rxRead], NET_BUF_START))
  {}

  lemma HandBackFields(m: Net, b: NetBuf, off: nat)
    requires Sizes(m)
    ensures var o := HandBack(m, b, off);
      Sizes(o) && o.dev.rxRead == NextRx(m.dev.rxRead) && !o.dev.rxDescs[m.dev.rxRead].done
  {}

  /** A later slot is as it was. */
  lemma HandBackSpares(n: Net, m: Net, b: NetBuf, i: nat, a: Arrival)
    requires OthersKept(n, m) && n.dev.rxRead < |n.dev.rxDescs| && i != n.dev.rxRead && i < |n.dev.rxDescs|
    ensures Arrived(n, i, a) ==> Arrived(HandBack(m, b, NET_BUF_START), i, a)
    ensures HandBack(m, b, NET_BUF_START).dev.rxDescs[i] == n.dev.rxDescs[i]
  {
    hide Slice;
  }

  /**
   Whatever processing the frame in the first slot did to other buffers, as long as that slot's
   buffer is back at its start, handing the slot back keeps the ring in order.
   */
  lemma HandBackDequeues(n: Net, m: Net, q: seq<Arrival>)
    requires Inv(n) && RxOk(n, q) && q != [] && Sizes(m)
    requires SparesHeld(n, m, {n.dev.rxBufs[n.dev.rxRead]})
    requires n.dev.rxBufs[n.dev.rxRead] in m.contents && m.contents[n.dev.rxBufs[n.dev.rxRead]].start == NET_BUF_START
    ensures RxOk(HandBack(m, n.dev.rxBufs[n.dev.rxRead], NET_BUF_START), q[1..])
  {
    var r, b := n.dev.rxRead, n.dev.rxBufs[n.dev.rxRead];
    var o := HandBack(m, b, NET_BUF_START);
    RingIs(n, q);
    OthersAreKept(n, m);
    HandBackAgrees(n, m);
    HandBackFields(m, b, NET_BUF_START);
    KeptRead(n, m);
    hide Inv, Sizes, RxOk, RxKept, Arrived, Agrees, Slot, SparesHeld, OthersKept, HandBack, NextRx;
    forall k | 0 <= k < |q| - 1
      ensures Arrived(o, Slot(NextRx(r), k), q[1..][k])
    {
      NextSlot(r, k);
      QueueAt(n, q, k + 1);
      HandBackSpares(n, m, b, Slot(r, k + 1), q[k + 1]);
    }
    forall k | |q| - 1 <= k < RX_SLOTS
      ensures !o.dev.rxDescs[Slot(NextRx(r), k)].done
    {
      NextSlot(r, k);
      if k + 1 < RX_SLOTS {
        QueueAt(n, q, k + 1);
        HandBackSpares(n, m, b, Slot(r, k + 1), q[0]);
      }
    }
    InOrderAgain(o, q[1..]);
  }

  /** Steps that spare every receive buffer leave the receive ring in order. */
  lemma RingSpared(n: Net, m: Net, except: set<NetBuf>, q: seq<Arrival>)
    requires Inv(n) && RxOk(n, q) && Sizes(m) && SparesHeld(n, m, except)
    requires forall b :: b in except && b in n.where ==> !n.where[b].Rx?
    ensures RxOk(m, q)
  {
    RxBuffersApart(n);
    forall i | 0 <= i < RX_SLOTS
      ensures n.dev.rxBufs[i] in m.contents && m.contents[n.dev.rxBufs[i]] == n.contents[n.dev.rxBufs[i]]
    {
      assert n.dev.rxBufs[i] in n.where && n.where[n.dev.rxBufs[i]].Rx?;
    }
    forall k | 0 <= k < |q|
      ensures Arrived(m, Slot(m.dev.rxRead, k), q[k])
    {
      assert Arrived(n, Slot(n.dev.rxRead, k), q[k]);
    }
  }

  lemma FrontOfQueue(n: Net, q: seq<Arrival>)
    requires Inv(n) && RxOk(n, q)
    ensures var r := n.dev.rxRead;
      var b := n.dev.rxBufs[r];
      (n.dev.rxDescs[r].done <==> q != []) &&
      b in n.where && n.where[b] == Rx(r) && b in n.contents && n.contents[b].WellFormed() &&
      n.contents[b].start == NET_BUF_START && n.contents[b].refCount == 1 &&
      n.dev.rxDescs[r].buf == b && n.dev.rxDescs[r].off == NET_BUF_START &&
      (q != [] ==> n.dev.rxDescs[r].errors == q[0].errors && n.dev.rxDescs[r].len == |q[0].frame| &&
                   Slice(n.contents[b].bytes, NET_BUF_START, |q[0].frame|) == Some(q[0].frame))
  {
    assert Slot(n.dev.rxRead, 0) == n.dev.rxRead;
    if q != [] {
      assert Arrived(n, Slot(n.dev.rxRead, 0), q[0]);
    }
  }

  function EventOf(a: Arrival, stale: byte): seq<HostSpec.Event> {
    if a.errors then [] else [HostSpec.Arrive(a.frame, stale)]
  }

  /** Frames with errors are skipped; the others arrive in order. */
  function EventsOf(q: seq<Arrival>, stales: seq<byte>): seq<HostSpec.Event>
    requires |q| == |stales|
    decreases |q|
  {
    if q == [] then [] else EventOf(q[0], stales[0]) + EventsOf(q[1..], stales[1..])
  }

  /** Frames without errors. */
  function Good(q: seq<Arrival>): nat {
    if q == [] then 0 else (if q[0].errors then 0 else 1) + Good(q[1..])
  }

  /** Every frame without errors arrives, with its own byte, and nothing else does. */
  lemma {:induction false} GoodFramesArrive(q: seq<Arrival>, stales: seq<byte>)
    requires |q| == |stales|
    ensures |EventsOf(q, stales)| == Good(q)
    ensures forall i :: 0 <= i < |q| && !q[i].errors ==> HostSpec.Arrive(q[i].frame, stales[i]) in EventsOf(q, stales)
    ensures forall e :: e in EventsOf(q, stales) ==>
              exists i :: 0 <= i < |q| && !q[i].errors && e == HostSpec.Arrive(q[i].frame, stales[i])
    decreases |q|
  {
    if q != [] {
      var rest := EventsOf(q[1..], stales[1..]);
      GoodFramesArrive(q[1..], stales[1..]);
      forall i | 0 <= i < |q| && !q[i].errors
        ensures HostSpec.Arrive(q[i].frame, stales[i]) in EventsOf(q, stales)
      {
        if i > 0 {
          assert q[i] == q[1..][i - 1] && stales[i] == stales[1..][i - 1];
          assert HostSpec.Arrive(q[i].frame, stales[i]) in rest;
        }
      }
      forall e | e in EventsOf(q, stales)
        ensures exists i :: 0 <= i < |q| && !q[i].errors && e == HostSpec.Arrive(q[i].frame, stales[i])
      {
        if e in rest {
          var i :| 0 <= i < |q| - 1 && !q[1..][i].errors && e == HostSpec.Arrive(q[1..][i].frame, stales[1..][i]);
          assert q[1..][i] == q[i + 1] && stales[1..][i] == stales[i + 1];
        } else {
          assert !q[0].errors && e == HostSpec.Arrive(q[0].frame, stales[0]);
        }
      }
    }
  }

  function UpcallsOf(q: seq<Arrival>): seq<(Ip, seq<byte>)>
    decreases |q|
  {
    if q == [] then [] else (if q[0].errors then [] else HostSpec.Upcalls(q[0].frame)) + UpcallsOf(q[1..])
  }

  /** What is passed up while the events of a trace arrive. */
  function PassedUp(events: seq<HostSpec.Event>): seq<(Ip, seq<byte>)>
    decreases |events|
  {
    if events == [] then []
    else (if events[0].Arrive? then HostSpec.Upcalls(events[0].frame) else []) + PassedUp(events[1..])
  }

  lemma PassedUpFirst(event: HostSpec.Event, rest: seq<HostSpec.Event>)
    ensures PassedUp([event] + rest) == (if event.Arrive? then HostSpec.Upcalls(event.frame) else []) + PassedUp(rest)
  {
    assert ([event] + rest)[1..] == rest;
    hide HostSpec.Upcalls;
  }

  lemma NothingPassedUp()
    ensures PassedUp([]) == []
  {}

  /** What a poll passes up is what its events pass up. */
  lemma {:induction false} UpcallsArePassedUp(q: seq<Arrival>, stales: seq<byte>)
    requires |q| == |stales|
    ensures UpcallsOf(q) == PassedUp(EventsOf(q, stales))
    decreases |q|
  {
    hide HostSpec.Upcalls, PassedUp;
    if q == [] {
      assert PassedUp([]) == [] by { NothingPassedUp(); }
    } else {
      UpcallsArePassedUp(q[1..], stales[1..]);
      if q[0].errors {
        assert [] + EventsOf(q[1..], stales[1..]) == EventsOf(q[1..], stales[1..]);
        assert [] + UpcallsOf(q[1..]) == UpcallsOf(q[1..]);
      } else {
        PassedUpFirst(HostSpec.Arrive(q[0].frame, stales[0]), EventsOf(q[1..], stales[1..]));
      }
    }
  }

  lemma NothingReceived()
    ensures EventsOf([], []) == [] && UpcallsOf([]) == []
  {}

  lemma {:induction false} EventsAppend(q: seq<Arrival>, stales: seq<byte>, a: Arrival, stale: byte)
    requires |q| == |stales|
    ensures EventsOf(q + [a], stales + [stale]) == EventsOf(q, stales) + EventOf(a, stale)
    decreases |q|
  {
    hide EventOf;
    if q == [] {
      assert q + [a] == [a] && stales + [stale] == [stale];
      assert EventOf(a, stale) + EventsOf([], []) == EventOf(a, stale);
    } else {
      assert (q + [a])[1..] == q[1..] + [a] && (stales + [stale])[1..] == stales[1..] + [stale];
      EventsAppend(q[1..], stales[1..], a, stale);
    }
  }

  lemma {:induction false} UpcallsAppend(q: seq<Arrival>, a: Arrival)
    ensures UpcallsOf(q + [a]) == UpcallsOf(q) + UpcallsOf([a])
    decreases |q|
  {
    if q == [] {
      assert q + [a] == [a];
    } else {
      assert (q + [a])[1..] == q[1..] + [a];
      UpcallsAppend(q[1..], a);
    }
  }

  lemma StartedRing(bufs: seq<NetBuf>, where: map<NetBuf, Place>, contents: map<NetBuf, Buf>)
    requires Filled(bufs, where, contents) && |bufs| == RX_SLOTS
    requires forall b :: b in contents ==> contents[b].start == NET_BUF_START
    ensures RxOk(Started(bufs, where, contents), [])
  {}
}
