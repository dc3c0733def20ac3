/** One message queue of the static pool, as values: free-running 32-bit indices over a ring of slots,
    and exactly when that ring is a FIFO. */
module QueueModel {
  import opened MachineWords

  type Message = seq<byte>

  datatype Op = Send(message: Message) | Receive
  datatype Outcome = Sent | QueueFull | SizeMismatch | Got(message: Message) | NoMessages

  datatype Queue = Queue(msgSize: nat, depth: nat, head: nat, tail: nat, count: nat, slots: seq<Message>) {
    predicate Valid() {
      && 1 <= depth < TWO_TO_32 && |slots| == depth
      && head < TWO_TO_32 && tail < TWO_TO_32 && count <= depth
      && head == (tail + count) % TWO_TO_32
    }

    // The slot of the message k places behind the oldest.
    function SlotOf(k: nat): (j: nat)
      requires Valid()
      ensures j < depth
    {
      (tail + k) % TWO_TO_32 % depth
    }

    // What receive would return, one after the other.
    function Contents(): (c: seq<Message>)
      requires Valid()
      ensures |c| == count
    {
      seq(count, k requires 0 <= k => slots[SlotOf(k)])
    }

    // The next send writes over a message that has not been received yet. Only fields that a caller
    // can read are involved; 2^32 % depth is the first slot that the index wrap skips.
    predicate Overwrites() {
      depth >= 1 && head < tail && head < TWO_TO_32 % depth <= count < depth
    }
  }

  function New(depth: nat, msgSize: nat, slots: seq<Message>): Queue {
    Queue(msgSize, depth, 0, 0, 0, slots)
  }

  function Step(q: Queue, op: Op): (Queue, Outcome)
    requires q.Valid()
  {
    match op
    case Send(m) =>
      if q.count >= q.depth then (q, QueueFull)
      else if |m| > q.msgSize then (q, SizeMismatch)
      else
        (q.(slots := q.slots[q.head % q.depth := m], head := Increment32(q.head), count := q.count + 1), Sent)
    case Receive =>
      if q.count == 0 then (q, NoMessages)
      else (q.(tail := Increment32(q.tail), count := q.count - 1), Got(q.slots[q.tail % q.depth]))
  }

  // The specification: a bounded FIFO.
  function FifoStep(c: seq<Message>, depth: nat, msgSize: nat, op: Op): (seq<Message>, Outcome) {
    match op
    case Send(m) =>
      if |c| >= depth then (c, QueueFull)
      else if |m| > msgSize then (c, SizeMismatch)
      else (c + [m], Sent)
    case Receive => if c == [] then (c, NoMessages) else (c[1..], Got(c[0]))
  }

  lemma SentKeepsIndices(head: nat, tail: nat, count: nat)
    requires head == (tail + count) % TWO_TO_32
    ensures Increment32(head) == (tail + (count + 1)) % TWO_TO_32
  {
    WrapTwice(tail + count, 1);
  }

  lemma ReceivedKeepsIndices(head: nat, tail: nat, count: nat)
    requires head == (tail + count) % TWO_TO_32 && tail < TWO_TO_32 && count > 0
    ensures head == (Increment32(tail) + (count - 1)) % TWO_TO_32
  {
    WrapTwice(tail + 1, count - 1);
  }

  lemma StepValid(q: Queue, op: Op)
    requires q.Valid()
    ensures Step(q, op).0.Valid()
    ensures Step(q, op).0.depth == q.depth && Step(q, op).0.msgSize == q.msgSize
  {
    hide Increment32;
    SentKeepsIndices(q.head, q.tail, q.count);
    if q.count > 0 {
      ReceivedKeepsIndices(q.head, q.tail, q.count);
    }
  }

  // What every call answers, in terms of the messages held: a full queue refuses whatever the size of the
  // message, then the size is checked, and a refused call changes nothing.
  lemma AnswersExactly(q: Queue, m: Message)
    requires q.Valid()
    ensures Step(q, Send(m)).1 ==
            if |q.Contents()| == q.depth then QueueFull else if |m| > q.msgSize then SizeMismatch else Sent
    ensures Step(q, Send(m)).1 != Sent ==> Step(q, Send(m)).0 == q
    ensures Step(q, Receive).1 == if q.Contents() == [] then NoMessages else Got(q.Contents()[0])
    ensures q.Contents() == [] ==> Step(q, Receive).0 == q
  {
    if q.count > 0 {
      assert (q.tail + 0) % TWO_TO_32 == q.tail;
      assert q.SlotOf(0) == q.tail % q.depth;
    }
  }

  function Run(q: Queue, ops: seq<Op>): (r: (Queue, seq<Outcome>))
    requires q.Valid()
    ensures r.0.Valid() && r.0.depth == q.depth && r.0.msgSize == q.msgSize && |r.1| == |ops|
  {
    if ops == [] then (q, [])
    else
      var before := Run(q, ops[..|ops| - 1]);
      StepValid(before.0, ops[|ops| - 1]);
      var now := Step(before.0, ops[|ops| - 1]);
      (now.0, before.1 + [now.1])
  }

  function FifoRun(c: seq<Message>, depth: nat, msgSize: nat, ops: seq<Op>): (seq<Message>, seq<Outcome>) {
    if ops == [] then (c, [])
    else
      var before := FifoRun(c, depth, msgSize, ops[..|ops| - 1]);
      var now := FifoStep(before.0, depth, msgSize, ops[|ops| - 1]);
      (now.0, before.1 + [now.1])
  }

  // A send that is stored over a message not yet received.
  predicate Harmful(q: Queue, op: Op) {
    op.Send? && |op.message| <= q.msgSize && q.Overwrites()
  }

  // ---- Congruences

  lemma NotCongruent(a: nat, b: nat, d: nat)
    requires a < b < a + d
    ensures a % d != b % d
  {
    var qa, qb := a / d, b / d;
    if a % d == b % d {
      assert b - a == (qb - qa) * d;
      if qb - qa >= 1 {
        MulMonotone(1, qb - qa, d);
      } else {
        MulMonotone(qb - qa, 0, d);
      }
    }
  }

  lemma AddBothSides(a: nat, b: nat, c: nat, d: nat)
    requires d > 0
    ensures a % d == b % d <==> (a + c) % d == (b + c) % d
  {
    if a % d == b % d {
      var q := a / d - b / d;
      assert a + c == (b + c) + q * d;
      ModPeriodic(b + c, q, d);
    }
    if (a + c) % d == (b + c) % d {
      var q := (a + c) / d - (b + c) / d;
      assert a == b + q * d;
      ModPeriodic(b, q, d);
    }
  }

  // ---- One step against the FIFO

  lemma ShiftedSlot(q: Queue, q': Queue, k: nat)
    requires q.Valid() && q'.Valid() && q'.depth == q.depth && q'.tail == Increment32(q.tail)
    ensures q'.SlotOf(k) == q.SlotOf(k + 1)
  {
    WrapTwice(q.tail + 1, k);
  }

  lemma ShiftedContents(q: Queue, q': Queue)
    requires q.Valid() && q'.Valid() && q'.depth == q.depth && q'.slots == q.slots
    requires q'.tail == Increment32(q.tail) && q'.count + 1 == q.count
    ensures q'.Contents() == q.Contents()[1..]
  {
    forall k | 0 <= k < q'.count ensures q'.Contents()[k] == q.Contents()[k + 1] {
      ShiftedSlot(q, q', k);
    }
  }

  lemma OldestFirst(q: Queue)
    requires q.Valid() && q.count > 0
    ensures q.Contents()[0] == q.slots[q.tail % q.depth]
  {
    assert q.SlotOf(0) == q.tail % q.depth;
  }

  // receive always returns the oldest of the contents and leaves the others, in every state.
  lemma ReceiveIsFifo(q: Queue)
    requires q.Valid() && q.count > 0
    ensures Step(q, Receive).1 == Got(q.Contents()[0])
    ensures Step(q, Receive).0.Valid() && Step(q, Receive).0.Contents() == q.Contents()[1..]
  {
    hide Queue.Contents, Queue.SlotOf;
    StepValid(q, Receive);
    OldestFirst(q);
    ShiftedContents(q, Step(q, Receive).0);
  }

  lemma SmallMod(x: nat, d: nat)
    requires x < d
    ensures x % d == x
  {
    DivModUnique(x, d, 0, x);
  }

  lemma NoClashBeforeWrap(q: Queue, k: nat)
    requires q.Valid() && k < q.count < q.depth && q.tail + q.count < TWO_TO_32
    ensures q.SlotOf(k) != q.head % q.depth && !q.Overwrites()
  {
    SmallMod(q.tail + q.count, TWO_TO_32);
    SmallMod(q.tail + k, TWO_TO_32);
    NotCongruent(q.tail + k, q.head, q.depth);
  }

  lemma WrappedIndex(q: Queue, k: nat)
    requires q.Valid() && k < q.count < q.depth && q.tail + k >= TWO_TO_32
    ensures q.head == q.tail + q.count - TWO_TO_32 < q.tail && (q.tail + k) % TWO_TO_32 == q.tail + k - TWO_TO_32
    ensures q.tail + k - TWO_TO_32 < q.head < q.depth
    ensures q.tail + k - TWO_TO_32 < q.head < q.tail + k - TWO_TO_32 + q.depth
  {
  }

  lemma NoClashAfterWrap(q: Queue, k: nat)
    requires q.Valid() && k < q.count < q.depth && q.tail + k >= TWO_TO_32
    ensures q.SlotOf(k) != q.head % q.depth && !(q.Overwrites() && k == q.count - TWO_TO_32 % q.depth)
  {
    WrappedIndex(q, k);
    NotCongruent(q.tail + k - TWO_TO_32, q.head, q.depth);
  }

  lemma WrappedHead(q: Queue)
    requires q.Valid() && q.count < q.depth && q.tail + q.count >= TWO_TO_32
    ensures q.head == q.tail + q.count - TWO_TO_32 < q.tail
  {
  }

  // The head has wrapped and the message's index has not: they share a slot only where the wrap
  // skips slots.
  lemma ClashAcrossWrap(q: Queue, k: nat)
    requires q.Valid() && k < q.count < q.depth && q.tail + k < TWO_TO_32 <= q.tail + q.count
    ensures q.SlotOf(k) == q.head % q.depth <==> q.Overwrites() && k == q.count - TWO_TO_32 % q.depth
  {
    var m := TWO_TO_32 - (q.tail + k);
    WrappedHead(q);
    AddBothSides(q.tail + k, q.head, m, q.depth);
    assert m + q.head == q.count - k < q.depth;
    SmallMod(q.head + m, q.depth);
  }

  // Which live message, if any, shares the slot that the next send writes.
  lemma SlotClash(q: Queue, k: nat)
    requires q.Valid() && k < q.count < q.depth
    ensures q.SlotOf(k) == q.head % q.depth <==> q.Overwrites() && k == q.count - TWO_TO_32 % q.depth
  {
    hide Queue.SlotOf;
    if q.tail + q.count < TWO_TO_32 {
      NoClashBeforeWrap(q, k);
    } else if q.tail + k >= TWO_TO_32 {
      NoClashAfterWrap(q, k);
    } else {
      ClashAcrossWrap(q, k);
    }
  }

  lemma Compare(q: Queue, q': Queue, m: Message, h: nat)
    requires q.Valid() && q'.Valid() && q'.count == q.count + 1 && q.count < q.depth
    requires q'.Contents()[q.count] == m
    requires forall k :: 0 <= k < q.count ==> q'.Contents()[k] == (if q.SlotOf(k) == h then m else q.Contents()[k])
    requires forall k :: 0 <= k < q.count ==>
               (q.SlotOf(k) == h <==> q.Overwrites() && k == q.count - TWO_TO_32 % q.depth)
    ensures q'.Contents() == q.Contents() + [m] <==>
            !q.Overwrites() || q.Contents()[q.count - TWO_TO_32 % q.depth] == m
  {
    hide Queue.Contents;
    var c, c' := q.Contents(), q'.Contents();
    if q.Overwrites() {
      var v := q.count - TWO_TO_32 % q.depth;
      assert q.SlotOf(v) == h && c'[v] == m && (c + [m])[v] == c[v];
    }
    if !q.Overwrites() || c[q.count - TWO_TO_32 % q.depth] == m {
      forall k | 0 <= k < |c'| ensures c'[k] == (c + [m])[k] {
        if k < q.count {
          assert q.SlotOf(k) == h <==> q.Overwrites() && k == q.count - TWO_TO_32 % q.depth;
        }
      }
      assert c' == c + [m];
    }
  }

  lemma SentContents(q: Queue, m: Message)
    requires q.Valid() && q.count < q.depth && |m| <= q.msgSize
    ensures var q', h := Step(q, Send(m)).0, q.head % q.depth;
            && q'.Valid() && q'.count == q.count + 1 && q'.Contents()[q.count] == m
            && forall k :: 0 <= k < q.count ==> q'.Contents()[k] == (if q.SlotOf(k) == h then m else q.Contents()[k])
  {
    StepValid(q, Send(m));
    var q', h := Step(q, Send(m)).0, q.head % q.depth;
    assert q'.SlotOf(q.count) == h;
    hide Increment32;
    assert forall k :: 0 <= k < q.count ==> q'.SlotOf(k) == q.SlotOf(k);
  }

  // An accepted send appends its message exactly when it does not write over a live one (or writes
  // the very message that was there).
  lemma SendIsFifo(q: Queue, m: Message)
    requires q.Valid() && q.count < q.depth && |m| <= q.msgSize
    ensures Step(q, Send(m)).0.Valid()
    ensures Step(q, Send(m)).0.Contents() == q.Contents() + [m] <==>
            !q.Overwrites() || q.Contents()[q.count - TWO_TO_32 % q.depth] == m
  {
    SentContents(q, m);
    var q', h := Step(q, Send(m)).0, q.head % q.depth;
    forall k | 0 <= k < q.count
      ensures q.SlotOf(k) == h <==> q.Overwrites() && k == q.count - TWO_TO_32 % q.depth
    {
      SlotClash(q, k);
    }
    hide Step, Queue.Contents, Queue.SlotOf;
    Compare(q, q', m, h);
  }

  lemma StepRefines(q: Queue, op: Op)
    requires q.Valid() && !Harmful(q, op)
    ensures var (q', o) := Step(q, op);
            q'.Valid() && (q'.Contents(), o) == FifoStep(q.Contents(), q.depth, q.msgSize, op)
  {
    match op {
      case Send(m) =>
        if q.count < q.depth && |m| <= q.msgSize {
          SendIsFifo(q, m);
        }
      case Receive =>
        if q.count > 0 {
          ReceiveIsFifo(q);
        }
    }
  }

  // ---- Whole runs

  function AcceptedSends(os: seq<Outcome>): nat {
    if os == [] then 0 else AcceptedSends(os[..|os| - 1]) + (if os[|os| - 1] == Sent then 1 else 0)
  }

  // The indices of a queue to which n messages have been sent.
  predicate Indexed(q: Queue, n: nat) {
    q.count <= n && q.head == n % TWO_TO_32 && q.tail == (n - q.count) % TWO_TO_32
  }

  lemma SendIndexed(q: Queue, n: nat)
    requires q.head < TWO_TO_32 && Indexed(q, n)
    ensures q.tail == ((n + 1) - (q.count + 1)) % TWO_TO_32 && Increment32(q.head) == (n + 1) % TWO_TO_32
  {
    WrapTwice(n, 1);
    assert (n + 1) - (q.count + 1) == n - q.count;
  }

  lemma ReceiveIndexed(q: Queue, n: nat)
    requires q.tail < TWO_TO_32 && q.count > 0 && Indexed(q, n)
    ensures Increment32(q.tail) == (n - (q.count - 1)) % TWO_TO_32
  {
    WrapTwice(n - q.count, 1);
    assert n - q.count + 1 == n - (q.count - 1);
  }

  lemma AcceptedLast(os: seq<Outcome>, o: Outcome)
    ensures AcceptedSends(os + [o]) == AcceptedSends(os) + (if o == Sent then 1 else 0)
  {
    assert (os + [o])[..|os|] == os;
  }

  lemma IndexStep(q: Queue, os: seq<Outcome>, op: Op)
    requires q.Valid() && Indexed(q, AcceptedSends(os))
    ensures Indexed(Step(q, op).0, AcceptedSends(os + [Step(q, op).1]))
  {
    var n := AcceptedSends(os);
    hide Queue.Contents, AcceptedSends, Increment32;
    AcceptedLast(os, Step(q, op).1);
    match op {
      case Send(_) => SendIndexed(q, n);
      case Receive =>
        if q.count > 0 {
          ReceiveIndexed(q, n);
        }
    }
  }

  lemma RunLast(q: Queue, ops: seq<Op>)
    requires q.Valid() && ops != []
    ensures var (q', os) := Run(q, ops[..|ops| - 1]);
            var (q'', o) := Step(q', ops[|ops| - 1]);
            Run(q, ops) == (q'', os + [o])
  {
  }

  // The index arithmetic of a run: the accepted sends and receives modulo 2^32.
  lemma {:induction false} RunIndices(q: Queue, ops: seq<Op>)
    requires q.Valid() && q.head == q.tail == q.count == 0
    ensures Indexed(Run(q, ops).0, AcceptedSends(Run(q, ops).1))
  {
    if ops != [] {
      var before, op := ops[..|ops| - 1], ops[|ops| - 1];
      RunLast(q, ops);
      hide Run, Step, AcceptedSends, Indexed, Queue.Contents;
      RunIndices(q, before);
      IndexStep(Run(q, before).0, Run(q, before).1, op);
    }
  }

  // Before the 2^32-nd accepted send has been made, or at any time if depth divides 2^32, the next
  // send overwrites nothing.
  lemma NoOverwrite(q: Queue, sends: nat)
    requires q.Valid() && Indexed(q, sends)
    requires sends < TWO_TO_32 || TWO_TO_32 % q.depth == 0
    ensures !q.Overwrites()
  {
  }

  lemma LastSendSafe(q: Queue, os: seq<Outcome>, op: Op)
    requires q.Valid() && Indexed(q, AcceptedSends(os))
    requires AcceptedSends(os + [Step(q, op).1]) <= TWO_TO_32 || TWO_TO_32 % q.depth == 0
    ensures !Harmful(q, op)
  {
    assert (os + [Step(q, op).1])[..|os|] == os;
    if AcceptedSends(os) < TWO_TO_32 || TWO_TO_32 % q.depth == 0 {
      NoOverwrite(q, AcceptedSends(os));
    }
  }

  // The queue is a FIFO, contents and outcomes, over every run with at most 2^32 accepted sends, and
  // over every run at all when depth divides 2^32.
  lemma {:induction false} RunRefinesFifo(q: Queue, ops: seq<Op>)
    requires q.Valid() && q.head == q.tail == q.count == 0
    requires AcceptedSends(Run(q, ops).1) <= TWO_TO_32 || TWO_TO_32 % q.depth == 0
    ensures var (q', os) := Run(q, ops);
            (q'.Contents(), os) == FifoRun([], q.depth, q.msgSize, ops)
  {
    if ops != [] {
      var before, op := ops[..|ops| - 1], ops[|ops| - 1];
      RunLast(q, ops);
      hide Run, Step, Queue.Contents, FifoStep;
      var (q', os) := Run(q, before);
      assert AcceptedSends(os) <= AcceptedSends(Run(q, ops).1);
      RunRefinesFifo(q, before);
      RunIndices(q, before);
      LastSendSafe(q', os, op);
      StepRefines(q', op);
    }
  }

  // ---- The index wrap breaks the queue unless depth divides 2^32

  // n exchanges of one empty message.
  function Exchanges(n: nat): seq<Op> {
    if n == 0 then [] else Exchanges(n - 1) + [Send([]), Receive]
  }

  function Sends(n: nat): seq<Op> {
    if n == 0 then [] else Sends(n - 1) + [Send([])]
  }

  function SendOps(ops: seq<Op>): nat {
    if ops == [] then 0 else SendOps(ops[..|ops| - 1]) + (if ops[|ops| - 1].Send? then 1 else 0)
  }

  lemma {:induction false} SendsBound(q: Queue, ops: seq<Op>)
    requires q.Valid()
    ensures AcceptedSends(Run(q, ops).1) <= SendOps(ops)
  {
    if ops != [] {
      var before := ops[..|ops| - 1];
      SendsBound(q, before);
      RunLast(q, ops);
      var os, o := Run(q, before).1, Step(Run(q, before).0, ops[|ops| - 1]).1;
      hide Run;
      assert (os + [o])[..|os|] == os;
    }
  }

  lemma FifoLast(c: seq<Message>, depth: nat, msgSize: nat, ops: seq<Op>, op: Op)
    ensures var (c', os) := FifoRun(c, depth, msgSize, ops);
            var (c'', o) := FifoStep(c', depth, msgSize, op);
            FifoRun(c, depth, msgSize, ops + [op]) == (c'', os + [o])
    ensures SendOps(ops + [op]) == SendOps(ops) + (if op.Send? then 1 else 0)
  {
    assert (ops + [op])[..|ops|] == ops;
  }

  lemma ExchangeSteps(depth: nat, msgSize: nat, e: Message)
    requires depth >= 1 && e == []
    ensures FifoStep([], depth, msgSize, Send(e)) == ([e], Sent)
    ensures FifoStep([e], depth, msgSize, Receive) == ([], Got(e))
  {
    assert [] + [e] == [e] && [e][1..] == [];
  }

  lemma TwoOps(ops: seq<Op>, e: Message)
    ensures SendOps(ops + [Send(e)] + [Receive]) == SendOps(ops) + 1
  {
    assert (ops + [Send(e)] + [Receive])[..|ops| + 1] == ops + [Send(e)] && (ops + [Send(e)])[..|ops|] == ops;
  }

  lemma OneExchange(depth: nat, msgSize: nat, ops: seq<Op>, e: Message)
    requires depth >= 1 && e == [] && FifoRun([], depth, msgSize, ops).0 == []
    ensures var (c, os) := FifoRun([], depth, msgSize, ops + [Send(e)] + [Receive]);
            c == [] && AcceptedSends(os) == AcceptedSends(FifoRun([], depth, msgSize, ops).1) + 1
  {
    hide FifoRun, FifoStep, AcceptedSends;
    ExchangeSteps(depth, msgSize, e);
    var os := FifoRun([], depth, msgSize, ops).1;
    FifoLast([], depth, msgSize, ops, Send(e));
    FifoLast([], depth, msgSize, ops + [Send(e)], Receive);
    AcceptedLast(os, Sent);
    AcceptedLast(os + [Sent], Got(e));
  }

  lemma {:induction false} ExchangesRun(depth: nat, msgSize: nat, n: nat)
    requires depth >= 1
    ensures var (c, os) := FifoRun([], depth, msgSize, Exchanges(n));
            c == [] && AcceptedSends(os) == n && SendOps(Exchanges(n)) == n
  {
    if n > 0 {
      ExchangesRun(depth, msgSize, n - 1);
      var ops: seq<Op>, e: Message := Exchanges(n - 1), [];
      assert ops + [Send(e)] + [Receive] == Exchanges(n);
      hide FifoRun, AcceptedSends, Exchanges;
      OneExchange(depth, msgSize, ops, e);
      TwoOps(ops, e);
    }
  }

  function EmptyMessages(k: nat): (c: seq<Message>)
    ensures |c| == k && forall i :: 0 <= i < k ==> c[i] == []
  {
    if k == 0 then [] else EmptyMessages(k - 1) + [[]]
  }

  // After n exchanges, k more empty messages are held.
  lemma {:induction false} SendsRun(depth: nat, msgSize: nat, n: nat, k: nat)
    requires k <= depth && depth >= 1
    ensures var (c, os) := FifoRun([], depth, msgSize, Exchanges(n) + Sends(k));
            c == EmptyMessages(k) && AcceptedSends(os) == n + k && SendOps(Exchanges(n) + Sends(k)) == n + k
  {
    if k == 0 {
      ExchangesRun(depth, msgSize, n);
      assert Exchanges(n) + Sends(0) == Exchanges(n);
    } else {
      SendsRun(depth, msgSize, n, k - 1);
      var ops: seq<Op>, e: Message := Exchanges(n) + Sends(k - 1), [];
      assert ops + [Send(e)] == Exchanges(n) + Sends(k);
      assert EmptyMessages(k) == EmptyMessages(k - 1) + [e];
      hide FifoRun, AcceptedSends, SendOps, Exchanges, Sends, EmptyMessages;
      var (c, os) := FifoRun([], depth, msgSize, ops);
      FifoLast([], depth, msgSize, ops, Send(e));
      assert FifoStep(c, depth, msgSize, Send(e)) == (c + [e], Sent);
      AcceptedLast(os, Sent);
    }
  }

  // After 2^32 accepted sends, the last w of them not yet received, the write index is back at zero.
  lemma AtTheWrap(q: Queue, n: nat, w: nat)
    requires q.Valid() && q.head == q.tail == q.count == 0
    requires n + w == TWO_TO_32 && 1 <= w <= q.depth
    ensures var ops := Exchanges(n) + Sends(w);
            var (q', os) := Run(q, ops);
            && q'.count == w && q'.head == 0 && q'.tail == n
            && q'.Contents() == EmptyMessages(w)
            && (q'.Contents(), os) == FifoRun([], q.depth, q.msgSize, ops)
  {
    var ops := Exchanges(n) + Sends(w);
    hide FifoRun, Run, Queue.Contents, AcceptedSends, SendOps, Exchanges, Sends, EmptyMessages;
    SendsRun(q.depth, q.msgSize, n, w);
    SendsBound(q, ops);
    RunRefinesFifo(q, ops);
    RunIndices(q, ops);
    SmallMod(n, TWO_TO_32);
  }

  // The next message lands on the oldest one, and receive returns it first.
  lemma OldestLost(q: Queue, m: Message)
    requires q.Valid() && |m| <= q.msgSize && q.head == 0
    requires 1 <= q.count == TWO_TO_32 % q.depth && q.tail == TWO_TO_32 - q.count
    ensures Step(q, Send(m)).1 == Sent
    ensures Step(q, Send(m)).0.Valid() && Step(Step(q, Send(m)).0, Receive).1 == Got(m)
  {
    SlotClash(q, 0);
    StepValid(q, Send(m));
  }

  lemma {:induction false} FifoLength(c: seq<Message>, depth: nat, msgSize: nat, ops: seq<Op>)
    ensures |FifoRun(c, depth, msgSize, ops).1| == |ops|
  {
    if ops != [] {
      FifoLength(c, depth, msgSize, ops[..|ops| - 1]);
    }
  }

  lemma RunTwo(q: Queue, ops: seq<Op>, a: Op, b: Op)
    requires q.Valid()
    ensures var (q', os) := Run(q, ops);
            var (q'', o) := Step(q', a);
            q''.Valid() && Run(q, ops + [a] + [b]).1 == os + [o] + [Step(q'', b).1]
  {
    assert (ops + [a])[..|ops|] == ops && (ops + [a] + [b])[..|ops| + 1] == ops + [a];
    RunLast(q, ops + [a]);
    RunLast(q, ops + [a] + [b]);
  }

  lemma Answers(q: Queue, ops: seq<Op>, w: nat, m: Message)
    requires q.Valid() && |m| <= q.msgSize
    requires w == TWO_TO_32 % q.depth && w >= 1
    requires var q' := Run(q, ops).0; q'.count == w && q'.head == 0 && q'.tail == TWO_TO_32 - w
    requires var c := FifoRun([], q.depth, q.msgSize, ops).0; |c| == w && c[0] == []
    ensures var all := ops + [Send(m)] + [Receive];
            && |Run(q, all).1| == |FifoRun([], q.depth, q.msgSize, all).1| == |ops| + 2
            && Run(q, all).1[|ops| + 1] == Got(m)
            && FifoRun([], q.depth, q.msgSize, all).1[|ops| + 1] == Got([])
  {
    FifoLength([], q.depth, q.msgSize, ops);
    RunTwo(q, ops, Send(m), Receive);
    FifoLast([], q.depth, q.msgSize, ops, Send(m));
    FifoLast([], q.depth, q.msgSize, ops + [Send(m)], Receive);
    hide Run, FifoRun, Queue.Contents;
    OldestLost(Run(q, ops).0, m);
    hide Step;
    var (c, os) := FifoRun([], q.depth, q.msgSize, ops);
    assert FifoStep(c, q.depth, q.msgSize, Send(m)) == (c + [m], Sent);
    assert FifoStep(c + [m], q.depth, q.msgSize, Receive).1 == Got([]);
  }

  // After the wrap, the model and the FIFO answer the last receive differently.
  lemma BrokenRun(q: Queue) returns (all: seq<Op>)
    requires q.Valid() && q.head == q.tail == q.count == 0 && q.msgSize >= 1 && TWO_TO_32 % q.depth != 0
    ensures Run(q, all).1 != FifoRun([], q.depth, q.msgSize, all).1
  {
    var m: Message := ['x'];
    var w := TWO_TO_32 % q.depth;
    var ops := Exchanges(TWO_TO_32 - w) + Sends(w);
    assert EmptyMessages(w)[0] == [];
    hide Run, FifoRun, EmptyMessages, Exchanges, Sends, Queue.Contents;
    AtTheWrap(q, TWO_TO_32 - w, w);
    Answers(q, ops, w, m);
    all := ops + [Send(m)] + [Receive];
  }

  // The configuration condition: all runs are FIFO exactly when depth divides 2^32.
  lemma FifoIffDepthDivides(depth: nat, msgSize: nat, slots: seq<Message>)
    requires 1 <= depth < TWO_TO_32 && msgSize >= 1 && |slots| == depth
    ensures (forall ops :: Run(New(depth, msgSize, slots), ops).1 == FifoRun([], depth, msgSize, ops).1)
            <==> TWO_TO_32 % depth == 0
  {
    var q := New(depth, msgSize, slots);
    if TWO_TO_32 % depth == 0 {
      forall ops ensures Run(q, ops).1 == FifoRun([], depth, msgSize, ops).1 {
        RunRefinesFifo(q, ops);
      }
    } else {
      var ops := BrokenRun(q);
    }
  }

  // With the queue depths that the topology configures, some run is answered differently from a FIFO.
  lemma ConfiguredDepths(depth: nat, msgSize: nat, slots: seq<Message>) returns (ops: seq<Op>)
    requires depth in {10, 20} && msgSize >= 1 && |slots| == depth
    ensures Run(New(depth, msgSize, slots), ops).1 != FifoRun([], depth, msgSize, ops).1
  {
    hide Run, FifoRun;
    ops := BrokenRun(New(depth, msgSize, slots));
  }
}
