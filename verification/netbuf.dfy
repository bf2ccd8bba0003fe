/** The network buffer pool of src/net/buf.c. */
module NetBufs {
  import opened Words
  import opened Rings
  import opened Links

  const NET_BUF_SIZE: nat := 2048
  const NET_BUF_START: nat := 256
  /** Bytes at the front of a buffer that hold the structure itself. */
  const NET_BUF_FIELDS: nat := 28

  /** `start` and `end` are offsets from the address of the buffer; `bytes` is its memory. */
  datatype Buf = Buf(start: nat, end: nat, refCount: uint32, bytes: seq<byte>) {
    ghost predicate WellFormed() {
      |bytes| == NET_BUF_SIZE
    }

    /** The packet held between `start` and `end`. */
    function Packet(): seq<byte> {
      if start <= end <= |bytes| then bytes[start..end] else []
    }
  }

  type NetBuf = Link<Buf>

  lemma PushFront<T>(h: T, x: T, s: seq<T>)
    ensures Insert([h] + s, 1, x) == [h] + ([x] + s)
  {}

  lemma PopFront<T>(h: T, s: seq<T>)
    requires Distinct([h] + s) && s != []
    ensures ([h] + s)[1] == s[0] && Remove([h] + s, 1) == [h] + s[1..]
    ensures s[0] != h && s[0] !in s[1..]
  {
    RemovedIsGone([h] + s, 1);
    assert Remove([h] + s, 1) == [h] + s[1..];
  }

  class Pool {
    const head: NetBuf
    var allocCount: uint32
    ghost var free: seq<NetBuf>

    ghost predicate Valid()
      reads this, head, free
    {
      && Circle([head] + free)
      && forall b :: b in free ==> b.data.refCount == 0 && b.data.WellFormed()
    }

    constructor ()
      ensures Valid() && free == [] && allocCount == 0 && fresh(head)
    {
      head := new Link(Buf(0, 0, 0, []));
      allocCount := 0;
      free := [];
    }

    lemma FreeShape()
      requires Valid()
      ensures head !in free && Distinct(free)
      ensures IsEmpty(head) <==> free == []
      ensures free != [] ==> head.next == free[0]
    {
      var s := [head] + free;
      EmptyMeansAlone(s);
      assert forall i :: 0 <= i < |free| ==> free[i] == s[i + 1];
      assert head.next == s[After(|s|, 0)];
    }

    /** `LinkData(s_netFreeBufs.next, NetBuf, link)` and the removal of that link. */
    method TakeFirst() returns (b: NetBuf)
      requires Valid() && free != []
      modifies this`free, head`next, head`prev, free`next, free`prev
      ensures Valid() && b == old(free)[0] && free == old(free)[1..] && b !in free && b != head
    {
      FreeShape();
      PopFront(head, free);
      hide Circle, Remove, Distinct;
      b := head.next;
      LinkRemove(b, [head] + free, 1);
      free := free[1..];
    }

    /** `net_alloc_buf`: the most recently released buffer, or a new one. */
    method Alloc() returns (b: NetBuf)
      requires Valid()
      modifies this`allocCount, this`free, head`next, head`prev, free
      ensures Valid()
      ensures if old(free) == [] then fresh(b) && free == [] else b == old(free)[0] && free == old(free)[1..]
      ensures b !in free && b != head
      ensures b.data == Buf(NET_BUF_START, NET_BUF_START, 1, b.data.bytes) && b.data.WellFormed()
      ensures old(free) != [] ==> b.data.bytes == old(free[0].data.bytes)
      ensures forall f :: f in free ==> f.data == old(f.data)
      ensures allocCount == (old(allocCount) + 1) % TWO_32
    {
      FreeShape();
      hide Circle, Distinct, IsEmpty, Buf.Packet;
      if IsEmpty(head) {
        b := new Link(Buf(0, 0, 0, seq(NET_BUF_SIZE, _ => 0)));
      } else {
        b := TakeFirst();
      }
      b.prev, b.next := null, null;
      b.data := b.data.(start := NET_BUF_START, end := NET_BUF_START, refCount := 1);
      allocCount := (allocCount + 1) % TWO_32;
    }

    /** `net_release_buf`, of a buffer the caller holds: the last release puts it in front of the free list. */
    method Release(b: NetBuf)
      requires Valid() && b !in free && b != head
      requires b.data.refCount > 0 && b.data.WellFormed()
      modifies this`allocCount, this`free, head`next, head`prev, free`next, free`prev, b
      ensures Valid()
      ensures b.data == old(b.data).(refCount := old(b.data).refCount - 1)
      ensures free == if b.data.refCount == 0 then [b] + old(free) else old(free)
      ensures allocCount == if b.data.refCount == 0 then (old(allocCount) - 1) % TWO_32 else old(allocCount)
    {
      hide Circle, Insert;
      b.data := b.data.(refCount := (b.data.refCount - 1) % TWO_32);
      if b.data.refCount == 0 {
        allocCount := (allocCount - 1) % TWO_32;
        LinkAfter(head, b, [head] + free, 0);
        PushFront(head, b, free);
        free := [b] + free;
      }
    }

    /** Releasing the last reference and allocating again gives back the same buffer and the same pool. */
    method Recycle(b: NetBuf) returns (r: NetBuf)
      requires Valid() && b !in free && b != head
      requires b.data.refCount == 1 && b.data.WellFormed()
      modifies this`allocCount, this`free, head`next, head`prev, free, b
      ensures Valid() && free == old(free) && r == b
      ensures b.data == Buf(NET_BUF_START, NET_BUF_START, 1, old(b.data.bytes))
      ensures forall f :: f in free ==> f.data == old(f.data)
      ensures allocCount == old(allocCount)
    {
      hide Circle, Buf.Packet;
      Release(b);
      r := Alloc();
    }
  }
}
