/** The static queue pool: queues carved from one byte array, with a big-endian length before each
    message, proved against QueueModel. */
module MessageQueues {
  import opened MachineWords
  import opened QueueModel

  const MAX_QUEUES: nat := 8
  const POOL_BYTES: nat := 8192
  const HEADER_BYTES: nat := 4

  // The control block of one queue; buf is its offset in the pool.
  datatype QueueImpl = QueueImpl(buf: nat, capacity: nat, msgSize: nat, depth: nat, head: nat, tail: nat, count: nat)

  // ---- Length headers

  function Byte(n: nat): byte {
    (n % 256) as char
  }

  function Header(len: nat): (h: seq<byte>)
    ensures |h| == HEADER_BYTES
  {
    [Byte(len / 0x100_0000), Byte(len / 0x1_0000), Byte(len / 0x100), Byte(len)]
  }

  function Length(p: seq<byte>, at: nat): nat {
    if at + HEADER_BYTES > |p| then 0
    else p[at] as int * 0x100_0000 + p[at + 1] as int * 0x1_0000 + p[at + 2] as int * 0x100 + p[at + 3] as int
  }

  // The message stored in the slot at a position of the pool.
  function Stored(p: seq<byte>, at: nat): Message {
    var start, len := at + HEADER_BYTES, Length(p, at);
    if start + len <= |p| then p[start..start + len] else []
  }

  // The pool after header and payload have been written at a position.
  function Written(p: seq<byte>, at: nat, m: Message): (p': seq<byte>)
    requires at + HEADER_BYTES + |m| <= |p|
    ensures |p'| == |p|
  {
    p[..at] + Header(|m|) + m + p[at + HEADER_BYTES + |m|..]
  }

  lemma BigEndian(n: nat)
    requires n < TWO_TO_32
    ensures n == n / 0x100_0000 % 256 * 0x100_0000 + n / 0x1_0000 % 256 * 0x1_0000 + n / 0x100 % 256 * 0x100 + n % 256
  {
    var a := n / 0x100;
    var b := a / 0x100;
    assert b == n / 0x1_0000;
    assert b / 0x100 == n / 0x100_0000;
  }

  lemma HeaderRoundTrip(p: seq<byte>, at: nat, len: nat)
    requires len < TWO_TO_32 && at + HEADER_BYTES <= |p| && p[at..at + HEADER_BYTES] == Header(len)
    ensures Length(p, at) == len
  {
    var h := p[at..at + HEADER_BYTES];
    assert p[at] == h[0] && p[at + 1] == h[1] && p[at + 2] == h[2] && p[at + 3] == h[3];
    BigEndian(len);
  }

  lemma WrittenReads(p: seq<byte>, at: nat, m: Message)
    requires at + HEADER_BYTES + |m| <= |p| && |m| < TWO_TO_32
    ensures Length(Written(p, at, m), at) == |m| && Stored(Written(p, at, m), at) == m
  {
    var p' := Written(p, at, m);
    assert p'[at..at + HEADER_BYTES] == Header(|m|);
    HeaderRoundTrip(p', at, |m|);
    assert p'[at + HEADER_BYTES..at + HEADER_BYTES + |m|] == m;
  }

  // The bytes themselves: the length, most significant byte first, and the message behind it.
  lemma WrittenBytes(p: seq<byte>, at: nat, m: Message)
    requires at + HEADER_BYTES + |m| <= |p| && |m| < TWO_TO_32
    ensures var w := Written(p, at, m);
            && w[at] as int * 0x100_0000 + w[at + 1] as int * 0x1_0000 + w[at + 2] as int * 0x100 + w[at + 3] as int ==
               |m|
            && w[at + 4..at + 4 + |m|] == m
            && w[..at] == p[..at] && w[at + 4 + |m|..] == p[at + 4 + |m|..]
  {
    WrittenReads(p, at, m);
  }

  // What a slot holds depends only on the bytes of the slot.
  lemma StoredFrame(p: seq<byte>, p': seq<byte>, at: nat, size: nat)
    requires |p'| == |p| && at + HEADER_BYTES + size <= |p| && Length(p, at) <= size
    requires forall k :: at <= k < at + HEADER_BYTES + size ==> p'[k] == p[k]
    ensures Length(p', at) == Length(p, at) && Stored(p', at) == Stored(p, at)
  {
  }

  // ---- Slots

  function SlotStart(q: QueueImpl, j: nat): nat {
    q.buf + j * (q.msgSize + HEADER_BYTES)
  }

  lemma SlotInside(q: QueueImpl, j: nat)
    requires j < q.depth && q.capacity == q.depth * (q.msgSize + HEADER_BYTES)
    ensures q.buf <= SlotStart(q, j) && SlotStart(q, j) + HEADER_BYTES + q.msgSize <= q.buf + q.capacity
  {
    MulMonotone(j + 1, q.depth, q.msgSize + HEADER_BYTES);
    MulMonotone(0, j, q.msgSize + HEADER_BYTES);
  }

  lemma SlotsApart(q: QueueImpl, i: nat, j: nat)
    requires i < j
    ensures SlotStart(q, i) + HEADER_BYTES + q.msgSize <= SlotStart(q, j)
  {
    MulMonotone(i + 1, j, q.msgSize + HEADER_BYTES);
  }

  function Slots(p: seq<byte>, q: QueueImpl): (s: seq<Message>)
    ensures |s| == q.depth
  {
    seq(q.depth, j requires 0 <= j => Stored(p, SlotStart(q, j)))
  }

  function ViewOf(p: seq<byte>, q: QueueImpl): Queue {
    Queue(q.msgSize, q.depth, q.head, q.tail, q.count, Slots(p, q))
  }

  // A control block whose region lies inside the first limit bytes of the pool, every slot of which
  // holds a message of admissible length.
  ghost predicate QueueOk(p: seq<byte>, q: QueueImpl, limit: nat) {
    && 1 <= q.depth < TWO_TO_32 && q.msgSize < TWO_TO_32
    && q.capacity == q.depth * (q.msgSize + HEADER_BYTES) && q.buf + q.capacity <= limit <= |p|
    && q.head < TWO_TO_32 && q.tail < TWO_TO_32 && q.count <= q.depth && q.head == (q.tail + q.count) % TWO_TO_32
    && forall j :: 0 <= j < q.depth ==> Length(p, SlotStart(q, j)) <= q.msgSize
  }

  predicate Apart(q: QueueImpl, r: QueueImpl) {
    q.buf + q.capacity <= r.buf || r.buf + r.capacity <= q.buf
  }

  // The whole pool: all queues lie below the allocation offset, apart from each other, and the rest
  // is still zero.
  ghost predicate PoolOk(p: seq<byte>, queues: seq<QueueImpl>, offset: nat) {
    && offset <= |p|
    && (forall i :: 0 <= i < |queues| ==> QueueOk(p, queues[i], offset))
    && (forall i, j :: 0 <= i < j < |queues| ==> Apart(queues[i], queues[j]))
    && (forall k :: offset <= k < |p| ==> p[k] == '\0')
  }

  // Writing one slot of q changes exactly that slot.
  lemma WriteSlot(p: seq<byte>, q: QueueImpl, limit: nat, j: nat, m: Message)
    requires QueueOk(p, q, limit) && j < q.depth && |m| <= q.msgSize
    ensures SlotStart(q, j) + HEADER_BYTES + |m| <= |p|
    ensures var p' := Written(p, SlotStart(q, j), m);
            QueueOk(p', q, limit) && Slots(p', q) == Slots(p, q)[j := m]
  {
    SlotInside(q, j);
    var at := SlotStart(q, j);
    var p' := Written(p, at, m);
    WrittenReads(p, at, m);
    forall k | 0 <= k < q.depth
      ensures Length(p', SlotStart(q, k)) <= q.msgSize
      ensures Stored(p', SlotStart(q, k)) == (if k == j then m else Stored(p, SlotStart(q, k)))
    {
      if k != j {
        SlotInside(q, k);
        SlotsApart(q, if k < j then k else j, if k < j then j else k);
        StoredFrame(p, p', SlotStart(q, k), q.msgSize);
      }
    }
  }

  // Writing inside one region leaves every queue apart from it as it was.
  lemma OtherQueue(p: seq<byte>, q: QueueImpl, r: QueueImpl, limit: nat, at: nat, m: Message)
    requires QueueOk(p, r, limit) && Apart(q, r)
    requires q.buf <= at && at + HEADER_BYTES + |m| <= q.buf + q.capacity <= |p|
    ensures QueueOk(Written(p, at, m), r, limit) && Slots(Written(p, at, m), r) == Slots(p, r)
  {
    var p' := Written(p, at, m);
    forall k | 0 <= k < r.depth
      ensures Length(p', SlotStart(r, k)) <= r.msgSize && Stored(p', SlotStart(r, k)) == Stored(p, SlotStart(r, k))
    {
      SlotInside(r, k);
      StoredFrame(p, p', SlotStart(r, k), r.msgSize);
    }
  }

  // A zeroed region is a queue of empty messages.
  lemma ZeroedQueue(p: seq<byte>, q: QueueImpl, limit: nat)
    requires 1 <= q.depth < TWO_TO_32 && q.msgSize < TWO_TO_32
    requires q.capacity == q.depth * (q.msgSize + HEADER_BYTES) && q.buf + q.capacity <= limit <= |p|
    requires q.head == q.tail == q.count == 0
    requires forall k :: q.buf <= k < q.buf + q.capacity ==> p[k] == '\0'
    ensures QueueOk(p, q, limit) && forall j :: 0 <= j < q.depth ==> Slots(p, q)[j] == []
  {
    forall j | 0 <= j < q.depth ensures Length(p, SlotStart(q, j)) == 0 && Stored(p, SlotStart(q, j)) == [] {
      SlotInside(q, j);
    }
  }

  lemma ViewValid(p: seq<byte>, q: QueueImpl, limit: nat)
    requires QueueOk(p, q, limit)
    ensures ViewOf(p, q).Valid()
  {
  }

  // The result of a receive call, given the capacity of the caller's buffer.
  datatype Received = Nothing | Message(message: Message) | TooLong

  // A message that does not fit the caller's buffer is taken out of the queue all the same.
  function ReceiveResult(o: Outcome, room: nat): Received {
    match o
    case Got(m) => if |m| <= room then Message(m) else TooLong
    case _ => Nothing
  }

  // The 32-bit size computation of create.
  function Needed(depth: nat, msgSize: nat): nat {
    depth * (msgSize + HEADER_BYTES) % TWO_TO_32
  }

  predicate CreateAccepts(count: nat, offset: nat, depth: nat, msgSize: nat) {
    count < MAX_QUEUES && (offset + Needed(depth, msgSize)) % TWO_TO_32 <= POOL_BYTES
  }

  // In the numbers of the source: a free control block, and a 32-bit sum within the pool.
  lemma AcceptsExactly(count: nat, offset: nat, depth: nat, msgSize: nat)
    ensures CreateAccepts(count, offset, depth, msgSize) <==>
            count < 8 && (offset + depth * (msgSize + 4)) % 0x1_0000_0000 <= 8192
  {
    MulMonotone(0, depth, msgSize + 4);
    WrapTwice(depth * (msgSize + 4), offset);
  }

  lemma WiderLimit(p: seq<byte>, queues: seq<QueueImpl>, limit: nat, wider: nat)
    requires forall i :: 0 <= i < |queues| ==> QueueOk(p, queues[i], limit)
    requires limit <= wider <= |p|
    ensures forall i :: 0 <= i < |queues| ==> QueueOk(p, queues[i], wider)
  {
  }

  // A new queue of exact size takes its region from the zeroed rest and disturbs no other.
  lemma CreateEffect(p: seq<byte>, queues: seq<QueueImpl>, offset: nat, q: QueueImpl)
    requires PoolOk(p, queues, offset)
    requires 1 <= q.depth < TWO_TO_32 && q.msgSize < TWO_TO_32 && q.head == q.tail == q.count == 0
    requires q.buf == offset && q.capacity == q.depth * (q.msgSize + HEADER_BYTES) && offset + q.capacity <= |p|
    ensures PoolOk(p, queues + [q], offset + q.capacity)
    ensures ViewOf(p, q).Valid() && ViewOf(p, q).Contents() == []
  {
    var limit := offset + q.capacity;
    ZeroedQueue(p, q, limit);
    WiderLimit(p, queues, offset, limit);
    ViewValid(p, q, limit);
    forall i | 0 <= i < |queues| ensures Apart(queues[i], q) {
      assert QueueOk(p, queues[i], offset);
    }
  }

  // The control block after one more message, and after one fewer.
  function Pushed(q: QueueImpl): QueueImpl
    requires q.head < TWO_TO_32
  {
    q.(head := Increment32(q.head), count := q.count + 1)
  }

  lemma PushedOk(p: seq<byte>, q: QueueImpl, limit: nat)
    requires QueueOk(p, q, limit) && q.count < q.depth
    ensures QueueOk(p, Pushed(q), limit) && Slots(p, Pushed(q)) == Slots(p, q)
  {
    hide Length, Stored;
    SentKeepsIndices(q.head, q.tail, q.count);
    assert forall j: nat :: SlotStart(Pushed(q), j) == SlotStart(q, j);
  }

  // One queue across an accepted send.
  lemma SendView(p: seq<byte>, q: QueueImpl, limit: nat, m: Message)
    requires QueueOk(p, q, limit) && q.count < q.depth && |m| <= q.msgSize
    ensures var at := SlotStart(q, q.head % q.depth);
            && q.buf <= at && at + HEADER_BYTES + |m| <= q.buf + q.capacity && q.buf + q.capacity <= |p|
            && QueueOk(Written(p, at, m), Pushed(q), limit)
            && ViewOf(p, q).Valid()
            && Step(ViewOf(p, q), QueueModel.Send(m)) == (ViewOf(Written(p, at, m), Pushed(q)), Sent)
  {
    var j := q.head % q.depth;
    SlotInside(q, j);
    ViewValid(p, q, limit);
    WriteSlot(p, q, limit, j, m);
    var p' := Written(p, SlotStart(q, j), m);
    hide Slots, Length, Written, SlotStart;
    PushedOk(p', q, limit);
  }

  lemma OkInside(p: seq<byte>, q: QueueImpl, limit: nat)
    requires QueueOk(p, q, limit)
    ensures q.buf + q.capacity <= limit && q.head < TWO_TO_32 && q.tail < TWO_TO_32
  {
  }

  // Replacing one control block by another over the same region keeps the pool.
  lemma PoolUpdate(p: seq<byte>, p': seq<byte>, queues: seq<QueueImpl>, offset: nat, h: nat, q': QueueImpl)
    requires PoolOk(p, queues, offset) && |p'| == |p| && h < |queues|
    requires q'.buf == queues[h].buf && q'.capacity == queues[h].capacity && QueueOk(p', q', offset)
    requires forall i :: 0 <= i < |queues| && i != h ==> QueueOk(p', queues[i], offset)
    requires forall k :: offset <= k < |p| ==> p'[k] == '\0'
    ensures PoolOk(p', queues[h := q'], offset)
  {
    hide QueueOk;
    var updated := queues[h := q'];
    forall i, j | 0 <= i < j < |updated| ensures Apart(updated[i], updated[j]) {
      assert Apart(queues[i], queues[j]);
    }
  }

  lemma AboveOffset(p: seq<byte>, at: nat, m: Message, offset: nat)
    requires at + HEADER_BYTES + |m| <= offset <= |p|
    requires forall k :: offset <= k < |p| ==> p[k] == '\0'
    ensures forall k :: offset <= k < |p| ==> Written(p, at, m)[k] == '\0'
  {
  }

  lemma OthersUntouched(p: seq<byte>, queues: seq<QueueImpl>, limit: nat, h: nat, at: nat, m: Message)
    requires h < |queues| && forall i :: 0 <= i < |queues| ==> QueueOk(p, queues[i], limit)
    requires forall i, j :: 0 <= i < j < |queues| ==> Apart(queues[i], queues[j])
    requires queues[h].buf <= at && at + HEADER_BYTES + |m| <= queues[h].buf + queues[h].capacity <= |p|
    ensures forall i :: 0 <= i < |queues| && i != h ==>
              QueueOk(Written(p, at, m), queues[i], limit) && Slots(Written(p, at, m), queues[i]) == Slots(p, queues[i])
  {
    forall i | 0 <= i < |queues| && i != h
      ensures QueueOk(Written(p, at, m), queues[i], limit) && Slots(Written(p, at, m), queues[i]) == Slots(p, queues[i])
    {
      if i < h {
        assert Apart(queues[i], queues[h]);
      } else {
        assert Apart(queues[h], queues[i]);
      }
      OtherQueue(p, queues[h], queues[i], limit, at, m);
    }
  }

  // The slot written by an accepted send: one slot of one queue changes.
  lemma SendEffect(p: seq<byte>, queues: seq<QueueImpl>, offset: nat, h: nat, m: Message)
    requires PoolOk(p, queues, offset) && h < |queues|
    requires queues[h].count < queues[h].depth && |m| <= queues[h].msgSize
    ensures var q := queues[h];
            var at := SlotStart(q, q.head % q.depth);
            && at + HEADER_BYTES + |m| <= |p|
            && ViewOf(p, q).Valid()
            && PoolOk(Written(p, at, m), queues[h := Pushed(q)], offset)
            && Step(ViewOf(p, q), QueueModel.Send(m)) == (ViewOf(Written(p, at, m), Pushed(q)), Sent)
            && forall i :: 0 <= i < |queues| && i != h ==> ViewOf(Written(p, at, m), queues[i]) == ViewOf(p, queues[i])
  {
    hide QueueOk, Slots, Length, Written, SlotStart, Step, Queue.Valid;
    var q := queues[h];
    SendView(p, q, offset, m);
    var at := SlotStart(q, q.head % q.depth);
    OkInside(p, q, offset);
    OthersUntouched(p, queues, offset, h, at, m);
    AboveOffset(p, at, m, offset);
    PoolUpdate(p, Written(p, at, m), queues, offset, h, Pushed(q));
  }

  function Popped(q: QueueImpl): QueueImpl
    requires q.count > 0 && q.tail < TWO_TO_32
  {
    q.(tail := Increment32(q.tail), count := q.count - 1)
  }

  lemma PoppedOk(p: seq<byte>, q: QueueImpl, limit: nat)
    requires QueueOk(p, q, limit) && q.count > 0
    ensures QueueOk(p, Popped(q), limit) && Slots(p, Popped(q)) == Slots(p, q)
  {
    hide Length, Stored;
    ReceivedKeepsIndices(q.head, q.tail, q.count);
    assert forall j: nat :: SlotStart(Popped(q), j) == SlotStart(q, j);
  }

  lemma ReceiveView(p: seq<byte>, q: QueueImpl, limit: nat)
    requires QueueOk(p, q, limit) && q.count > 0
    ensures var at := SlotStart(q, q.tail % q.depth);
            && at + HEADER_BYTES + Length(p, at) <= |p|
            && QueueOk(p, Popped(q), limit)
            && ViewOf(p, q).Valid()
            && Step(ViewOf(p, q), QueueModel.Receive) == (ViewOf(p, Popped(q)), Got(Stored(p, at)))
  {
    var j := q.tail % q.depth;
    SlotInside(q, j);
    ViewValid(p, q, limit);
    PoppedOk(p, q, limit);
    assert Slots(p, q)[j] == Stored(p, SlotStart(q, j));
  }

  lemma ReceiveEffect(p: seq<byte>, queues: seq<QueueImpl>, offset: nat, h: nat)
    requires PoolOk(p, queues, offset) && h < |queues| && queues[h].count > 0
    ensures var q := queues[h];
            var at := SlotStart(q, q.tail % q.depth);
            && at + HEADER_BYTES + Length(p, at) <= |p|
            && ViewOf(p, q).Valid()
            && PoolOk(p, queues[h := Popped(q)], offset)
            && Step(ViewOf(p, q), QueueModel.Receive) == (ViewOf(p, Popped(q)), Got(Stored(p, at)))
  {
    hide QueueOk, Slots, Stored, Length, SlotStart, Step, Queue.Valid;
    OkInside(p, queues[h], offset);
    ReceiveView(p, queues[h], offset);
    PoolUpdate(p, p, queues, offset, h, Popped(queues[h]));
  }

  lemma HandleValid(p: seq<byte>, queues: seq<QueueImpl>, offset: nat, h: nat)
    requires PoolOk(p, queues, offset) && h < |queues|
    ensures ViewOf(p, queues[h]).Valid()
  {
    ViewValid(p, queues[h], offset);
  }

  lemma CreateExact(offset: nat, depth: nat, msgSize: nat)
    requires offset + depth * (msgSize + HEADER_BYTES) < TWO_TO_32
    ensures Needed(depth, msgSize) == depth * (msgSize + HEADER_BYTES)
    ensures (offset + Needed(depth, msgSize)) % TWO_TO_32 == offset + depth * (msgSize + HEADER_BYTES)
  {
    var n := depth * (msgSize + HEADER_BYTES);
    MulMonotone(0, depth, msgSize + HEADER_BYTES);
    SmallMod(n, TWO_TO_32);
    SmallMod(offset + n, TWO_TO_32);
  }

  lemma OutsidePool(p: seq<byte>, queues: seq<QueueImpl>, offset: nat, h: nat, size: nat)
    requires h < |queues| && size == queues[h].depth * (queues[h].msgSize + HEADER_BYTES)
    requires queues[h].buf + size > |p|
    ensures !PoolOk(p, queues, offset)
  {
  }

  class Queues {
    const pool: array<byte>
    var poolOffset: nat
    var queues: seq<QueueImpl>

    ghost predicate Valid()
      reads this, pool
    {
      pool.Length == POOL_BYTES && |queues| <= MAX_QUEUES && PoolOk(pool[..], queues, poolOffset)
    }

    // The abstract queue behind an index.
    ghost function View(i: nat): Queue
      reads this, pool
      requires i < |queues|
    {
      ViewOf(pool[..], queues[i])
    }

    constructor ()
      ensures Valid() && fresh(pool) && poolOffset == 0 && queues == []
    {
      pool := new byte[POOL_BYTES](_ => '\0');
      poolOffset, queues := 0, [];
    }

    // create. The handle of a queue is its index.
    method Create(depth: nat, msgSize: nat) returns (ok: bool, handle: nat)
      requires Valid()
      // The assertions of the source, and the range of its int parameters.
      requires 0 < depth < 0x8000_0000 && 0 < msgSize < 0x8000_0000
      modifies this
      ensures ok == CreateAccepts(|old(queues)|, old(poolOffset), depth, msgSize)
      ensures ok <==> |old(queues)| < 8 && (old(poolOffset) + depth * (msgSize + 4)) % 0x1_0000_0000 <= 8192
      ensures !ok ==> queues == old(queues) && poolOffset == old(poolOffset)
      ensures ok ==> handle == |old(queues)| && |queues| == handle + 1 && queues[..handle] == old(queues)
      ensures ok ==> queues[handle].buf == old(poolOffset)
      ensures ok ==> queues[handle].depth == depth && queues[handle].msgSize == msgSize
      ensures ok ==> poolOffset == (old(poolOffset) + Needed(depth, msgSize)) % TWO_TO_32
      // The pool stays sound exactly when the true size does not overflow.
      ensures ok ==> (Valid() <==> old(poolOffset) + depth * (msgSize + HEADER_BYTES) < TWO_TO_32)
      ensures ok && Valid() ==>
                && View(handle).Valid() && View(handle).Contents() == [] && View(handle).depth == depth
                && forall i :: 0 <= i < handle ==> View(i) == old(View(i))
    {
      ok, handle := false, 0;
      AcceptsExactly(|queues|, poolOffset, depth, msgSize);
      if |queues| >= MAX_QUEUES {
        return;
      }
      var needed := depth * (msgSize + HEADER_BYTES) % TWO_TO_32;
      if (poolOffset + needed) % TWO_TO_32 > POOL_BYTES {
        return;
      }
      var q := QueueImpl(poolOffset, needed, msgSize, depth, 0, 0, 0);
      handle := |queues|;
      if poolOffset + depth * (msgSize + HEADER_BYTES) < TWO_TO_32 {
        CreateExact(poolOffset, depth, msgSize);
        CreateEffect(pool[..], queues, poolOffset, q);
      }
      ghost var grown := queues + [q];
      if poolOffset + depth * (msgSize + HEADER_BYTES) >= TWO_TO_32 {
        OutsidePool(pool[..], grown, (poolOffset + needed) % TWO_TO_32, handle, depth * (msgSize + HEADER_BYTES));
      }
      queues := queues + [q];
      poolOffset := (poolOffset + needed) % TWO_TO_32;
      ok := true;
    }

    // The header bytes and the copy loop of send.
    method WriteMessage(dst: nat, m: Message)
      requires dst + HEADER_BYTES + |m| <= pool.Length
      modifies pool
      ensures pool[..] == Written(old(pool[..]), dst, m)
    {
      ghost var p := pool[..];
      var len := |m|;
      pool[dst] := Byte(len / 0x100_0000);
      pool[dst + 1] := Byte(len / 0x1_0000);
      pool[dst + 2] := Byte(len / 0x100);
      pool[dst + 3] := Byte(len);
      var i := 0;
      while i < len
        invariant i <= len
        invariant forall k :: 0 <= k < dst ==> pool[k] == p[k]
        invariant pool[dst] == Header(len)[0] && pool[dst + 1] == Header(len)[1]
        invariant pool[dst + 2] == Header(len)[2] && pool[dst + 3] == Header(len)[3]
        invariant forall k :: 0 <= k < i ==> pool[dst + 4 + k] == m[k]
        invariant forall k :: dst + 4 + i <= k < pool.Length ==> pool[k] == p[k]
      {
        pool[dst + 4 + i] := m[i];
        i := i + 1;
      }
      var w := Written(p, dst, m);
      assert forall k :: dst + 4 <= k < dst + 4 + len ==> pool[k] == m[k - dst - 4];
      assert forall k :: 0 <= k < |w| ==> pool[k] == w[k];
    }

    // send. A null handle, which is also the handle of the first queue, fails the source's assertion.
    method Send(handle: nat, m: Message) returns (o: Outcome)
      requires Valid() && 0 < handle < |queues| && |m| < TWO_TO_32
      modifies this`queues, pool
      ensures Valid() && |queues| == |old(queues)|
      ensures old(View(handle)).Valid() && (View(handle), o) == Step(old(View(handle)), QueueModel.Send(m))
      ensures o == if |old(View(handle)).Contents()| == old(queues[handle]).depth then QueueFull
                   else if |m| > old(queues[handle]).msgSize then SizeMismatch else Sent
      ensures forall i :: 0 <= i < |queues| && i != handle ==> View(i) == old(View(i))
    {
      hide PoolOk, QueueOk, Slots, Stored, Length, Written;
      var q := queues[handle];
      HandleValid(pool[..], queues, poolOffset, handle);
      AnswersExactly(View(handle), m);
      if q.count >= q.depth {
        return QueueFull;
      }
      var len := |m|;
      if len > q.msgSize {
        return SizeMismatch;
      }
      var slot := q.head % q.depth * (q.msgSize + HEADER_BYTES);
      var dst := q.buf + slot;
      SendEffect(pool[..], queues, poolOffset, handle, m);
      WriteMessage(dst, m);
      queues := queues[handle := q.(head := Increment32(q.head), count := q.count + 1)];
      o := Sent;
    }

    // The header decoding of receive, and the bytes it hands to the caller's buffer.
    method ReadMessage(src: nat) returns (m: Message)
      requires src + HEADER_BYTES + Length(pool[..], src) <= pool.Length
      ensures m == Stored(pool[..], src)
    {
      var len := pool[src] as int * 0x100_0000 + pool[src + 1] as int * 0x1_0000 +
                 pool[src + 2] as int * 0x100 + pool[src + 3] as int;
      m := pool[src + 4..src + 4 + len];
    }

    // receive, into a buffer with room for a number of bytes.
    method Receive(handle: nat, room: nat) returns (r: Received)
      requires Valid() && 0 < handle < |queues|
      modifies this`queues
      ensures Valid() && |queues| == |old(queues)|
      ensures old(View(handle)).Valid()
      ensures View(handle) == Step(old(View(handle)), QueueModel.Receive).0
      ensures r == ReceiveResult(Step(old(View(handle)), QueueModel.Receive).1, room)
      // A message as long as the caller's buffer is still delivered.
      ensures var c := old(View(handle)).Contents();
              r == if c == [] then Nothing else if |c[0]| <= room then Message(c[0]) else TooLong
      ensures forall i :: 0 <= i < |queues| && i != handle ==> View(i) == old(View(i))
    {
      hide PoolOk, QueueOk, Slots, Stored, Length, Written;
      var q := queues[handle];
      HandleValid(pool[..], queues, poolOffset, handle);
      AnswersExactly(View(handle), []);
      if q.count == 0 {
        return Nothing;
      }
      var slot := q.tail % q.depth * (q.msgSize + HEADER_BYTES);
      var src := q.buf + slot;
      ReceiveEffect(pool[..], queues, poolOffset, handle);
      var m := ReadMessage(src);
      r := if |m| <= room then Message(m) else TooLong;
      queues := queues[handle := q.(tail := Increment32(q.tail), count := q.count - 1)];
    }
  }

  // The bytes send and receive may touch for different slots, of one queue or of two, never overlap,
  // and all lie in the pool.
  lemma AccessesDisjoint(p: seq<byte>, queues: seq<QueueImpl>, offset: nat, i: nat, a: nat, j: nat, b: nat)
    requires PoolOk(p, queues, offset) && i < |queues| && j < |queues| && (i != j || a != b)
    requires a < queues[i].depth && b < queues[j].depth
    ensures var x, y := SlotStart(queues[i], a), SlotStart(queues[j], b);
            var xEnd, yEnd := x + HEADER_BYTES + queues[i].msgSize, y + HEADER_BYTES + queues[j].msgSize;
            xEnd <= |p| && yEnd <= |p| && (xEnd <= y || yEnd <= x)
  {
    assert QueueOk(p, queues[i], offset) && QueueOk(p, queues[j], offset);
    SlotInside(queues[i], a);
    SlotInside(queues[j], b);
    hide QueueOk, SlotStart;
    if i == j {
      SlotsApart(queues[i], if a < b then a else b, if a < b then b else a);
    } else if i < j {
      assert Apart(queues[i], queues[j]);
    } else {
      assert Apart(queues[j], queues[i]);
    }
  }

  // An accepted creation whose true size wraps 32 bits puts the queue's region outside the pool.
  lemma OverflowingCreate()
    ensures CreateAccepts(0, 0, 0x1_0000, 0xFFFC)
    ensures 0x1_0000 * (0xFFFC + HEADER_BYTES) > POOL_BYTES
  {
  }
}
