/** Runs over the whole pool: queues are created and used in any order, and every queue behaves as if
    it were alone. */
module QueueRuns {
  import opened MachineWords
  import opened QueueModel
  import opened MessageQueues

  datatype Pool = Pool(bytes: seq<byte>, queues: seq<QueueImpl>, offset: nat) {
    ghost predicate Ok() {
      |bytes| == POOL_BYTES && PoolOk(bytes, queues, offset)
    }

    function View(i: nat): Queue
      requires i < |queues|
    {
      ViewOf(bytes, queues[i])
    }
  }

  datatype Action = Operate(handle: nat, op: Op) | Create(depth: nat, msgSize: nat)
  datatype Answer = Answered(outcome: Outcome) | Created(handle: nat) | Refused

  // The handle of an operation belongs to a queue. A creation has positive int arguments, and if it
  // is accepted its true size does not overflow 32 bits.
  predicate Admissible(s: Pool, a: Action) {
    match a
    case Operate(handle, _) => handle < |s.queues|
    case Create(depth, msgSize) =>
      && 0 < depth < 0x8000_0000 && 0 < msgSize < 0x8000_0000
      && (CreateAccepts(|s.queues|, s.offset, depth, msgSize) ==>
            s.offset + depth * (msgSize + HEADER_BYTES) < TWO_TO_32)
  }

  // What send and receive do to the byte array and the control blocks.
  ghost function Operated(s: Pool, h: nat, op: Op): (Pool, Outcome)
    requires s.Ok() && h < |s.queues|
  {
    var q := s.queues[h];
    match op
    case Send(m) =>
      if q.count >= q.depth then (s, QueueFull)
      else if |m| > q.msgSize then (s, SizeMismatch)
      else
        SendEffect(s.bytes, s.queues, s.offset, h, m);
        (s.(bytes := Written(s.bytes, SlotStart(q, q.head % q.depth), m), queues := s.queues[h := Pushed(q)]), Sent)
    case Receive =>
      if q.count == 0 then (s, NoMessages)
      else (s.(queues := s.queues[h := Popped(q)]), Got(Stored(s.bytes, SlotStart(q, q.tail % q.depth))))
  }

  // What create does to them.
  function Grown(s: Pool, depth: nat, msgSize: nat): (Pool, Answer) {
    if !CreateAccepts(|s.queues|, s.offset, depth, msgSize) then (s, Refused)
    else
      var needed := Needed(depth, msgSize);
      (s.(queues := s.queues + [QueueImpl(s.offset, needed, msgSize, depth, 0, 0, 0)],
          offset := (s.offset + needed) % TWO_TO_32), Created(|s.queues|))
  }

  ghost function Act(s: Pool, a: Action): (Pool, Answer)
    requires s.Ok() && Admissible(s, a)
  {
    match a
    case Operate(h, op) => var (s', o) := Operated(s, h, op); (s', Answered(o))
    case Create(depth, msgSize) => Grown(s, depth, msgSize)
  }

  // An operation is one step of its queue and leaves all others as they were.
  lemma OperateEffect(s: Pool, h: nat, op: Op, i: nat)
    requires s.Ok() && h < |s.queues| && i < |s.queues|
    ensures var (s', o) := Operated(s, h, op);
            && s'.Ok() && |s'.queues| == |s.queues| && s.View(i).Valid()
            && if i == h then Step(s.View(i), op) == (s'.View(i), o) else s'.View(i) == s.View(i)
  {
    var q := s.queues[h];
    HandleValid(s.bytes, s.queues, s.offset, i);
    hide PoolOk, Slots, Stored, Written, SlotStart;
    match op {
      case Send(m) =>
        if q.count < q.depth && |m| <= q.msgSize {
          SendEffect(s.bytes, s.queues, s.offset, h, m);
        }
      case Receive =>
        if q.count > 0 {
          ReceiveEffect(s.bytes, s.queues, s.offset, h);
        }
    }
  }

  // A creation of exact size leaves all queues as they were, and its own is empty.
  lemma CreateGrows(s: Pool, depth: nat, msgSize: nat)
    requires s.Ok() && Admissible(s, Create(depth, msgSize))
    ensures var (s', answer) := Grown(s, depth, msgSize);
            && s'.Ok() && |s.queues| <= |s'.queues| && (forall i :: 0 <= i < |s.queues| ==> s'.View(i) == s.View(i))
            && match answer
               case Created(h) =>
                 && h == |s.queues| == |s'.queues| - 1
                 && s'.View(h) == New(depth, msgSize, s'.View(h).slots) && s'.View(h).Valid()
                 && s'.View(h).Contents() == []
               case _ => answer == Refused && s' == s
    // Exactly the creations that fit are accepted.
    ensures Grown(s, depth, msgSize).1 == Created(|s.queues|) <==>
            |s.queues| < 8 && s.offset + depth * (msgSize + 4) <= 8192
  {
    AcceptsExactly(|s.queues|, s.offset, depth, msgSize);
    MulMonotone(0, depth, msgSize + 4);
    if CreateAccepts(|s.queues|, s.offset, depth, msgSize) {
      CreateExact(s.offset, depth, msgSize);
      var q := QueueImpl(s.offset, Needed(depth, msgSize), msgSize, depth, 0, 0, 0);
      hide Needed, PoolOk, Slots;
      CreateEffect(s.bytes, s.queues, s.offset, q);
    }
  }

  lemma ActEffect(s: Pool, a: Action, i: nat)
    requires s.Ok() && Admissible(s, a) && i < |s.queues|
    ensures var (s', answer) := Act(s, a);
            && s'.Ok() && |s.queues| <= |s'.queues| && s.View(i).Valid()
            && if a.Operate? && a.handle == i then
                 answer.Answered? && Step(s.View(i), a.op) == (s'.View(i), answer.outcome)
               else s'.View(i) == s.View(i)
  {
    hide Operated, Grown, PoolOk, Slots, Step, Queue.Valid;
    match a {
      case Operate(h, op) => OperateEffect(s, h, op, i);
      case Create(depth, msgSize) =>
        CreateGrows(s, depth, msgSize);
        HandleValid(s.bytes, s.queues, s.offset, i);
    }
  }

  lemma ActOk(s: Pool, a: Action)
    requires s.Ok() && Admissible(s, a)
    ensures Act(s, a).0.Ok() && |s.queues| <= |Act(s, a).0.queues|
  {
    hide Operated, Grown, PoolOk, Slots, Step;
    match a {
      case Operate(h, op) => OperateEffect(s, h, op, h);
      case Create(depth, msgSize) => CreateGrows(s, depth, msgSize);
    }
  }

  // Every action of the run is admissible when its turn comes.
  ghost predicate Runs(s: Pool, actions: seq<Action>)
    requires s.Ok()
    decreases |actions|
  {
    actions == [] ||
    (Admissible(s, actions[0]) && (ActOk(s, actions[0]); Runs(Act(s, actions[0]).0, actions[1..])))
  }

  ghost function ActAll(s: Pool, actions: seq<Action>): (r: (Pool, seq<Answer>))
    requires s.Ok() && Runs(s, actions)
    ensures r.0.Ok() && |s.queues| <= |r.0.queues| && |r.1| == |actions|
    decreases |actions|
  {
    if actions == [] then (s, [])
    else
      ActOk(s, actions[0]);
      var (mid, answer) := Act(s, actions[0]);
      var (after, answers) := ActAll(mid, actions[1..]);
      (after, [answer] + answers)
  }

  // The operations on one queue, and their outcomes.
  function OpsOf(actions: seq<Action>, i: nat): seq<Op>
    decreases |actions|
  {
    if actions == [] then []
    else (match actions[0] case Operate(h, op) => (if h == i then [op] else []) case _ => []) + OpsOf(actions[1..], i)
  }

  function OutcomesOf(actions: seq<Action>, answers: seq<Answer>, i: nat): seq<Outcome>
    requires |answers| == |actions|
    decreases |actions|
  {
    if actions == [] then []
    else
      (match (actions[0], answers[0])
       case (Operate(h, _), Answered(o)) => (if h == i then [o] else [])
       case _ => []) + OutcomesOf(actions[1..], answers[1..], i)
  }

  lemma RunSnoc(q: Queue, ops: seq<Op>, op: Op)
    requires q.Valid()
    ensures var (mid, os) := Run(q, ops);
            Run(q, ops + [op]) == (Step(mid, op).0, os + [Step(mid, op).1])
  {
    assert (ops + [op])[..|ops|] == ops;
    RunLast(q, ops + [op]);
    hide Run, Step;
  }

  lemma LastOfBoth(ops: seq<Op>, all: seq<Op>, before: seq<Op>, allBefore: seq<Op>, last: Op)
    requires ops != [] && |all| == |ops| + 1 && all == [all[0]] + ops
    requires before == ops[..|ops| - 1] && last == ops[|ops| - 1] && allBefore == [all[0]] + before
    ensures ops == before + [last] && all == allBefore + [last]
  {
  }

  lemma JoinOutcomes(o: Outcome, os: seq<Outcome>, last: Outcome)
    ensures [o] + (os + [last]) == ([o] + os) + [last]
  {
  }

  lemma {:induction false} RunFirst(q: Queue, op: Op, ops: seq<Op>)
    requires q.Valid() && Step(q, op).0.Valid()
    ensures var (mid, o) := Step(q, op);
            Run(q, [op] + ops) == (Run(mid, ops).0, [o] + Run(mid, ops).1)
    decreases |ops|
  {
    if ops == [] {
      var (mid, o) := Step(q, op);
      assert [] + [op] == [op] + ops && [] + [o] == [o] + [];
      assert Run(q, []) == (q, []) && Run(mid, []) == (mid, []);
      RunSnoc(q, [], op);
    } else {
      hide Run, Step, Queue.Valid;
      var before, last := ops[..|ops| - 1], ops[|ops| - 1];
      RunFirst(q, op, before);
      RunSnoc(q, [op] + before, last);
      RunSnoc(Step(q, op).0, before, last);
      LastOfBoth(ops, [op] + ops, before, [op] + before, last);
      JoinOutcomes(Step(q, op).1, Run(Step(q, op).0, before).1, Step(Run(Step(q, op).0, before).0, last).1);
    }
  }

  // One step in front of the operations of a queue.
  lemma IndependentStep(q: Queue, mid: Queue, after: Queue, ops: seq<Op>, os: seq<Outcome>,
                        first: seq<Op>, o: seq<Outcome>)
    requires q.Valid() && mid.Valid() && (after, os) == Run(mid, ops)
    requires (first == [] && o == [] && mid == q) || (|first| == |o| == 1 && Step(q, first[0]) == (mid, o[0]))
    ensures (after, o + os) == Run(q, first + ops)
  {
    if first == [] {
      assert o + os == os && first + ops == ops;
    } else {
      assert first == [first[0]] && o == [o[0]];
      RunFirst(q, first[0], ops);
    }
  }

  lemma ValidView(s: Pool, i: nat)
    requires s.Ok() && i < |s.queues|
    ensures s.View(i).Valid()
  {
    HandleValid(s.bytes, s.queues, s.offset, i);
  }

  // However the operations on the queues interleave with each other and with the creation of further
  // queues, each queue ends up where its own operations alone would have taken it, with the same
  // outcomes.
  lemma {:induction false} QueuesAreIndependent(s: Pool, actions: seq<Action>, i: nat)
    requires s.Ok() && Runs(s, actions) && i < |s.queues|
    ensures s.View(i).Valid()
    ensures var (s', answers) := ActAll(s, actions);
            (s'.View(i), OutcomesOf(actions, answers, i)) == Run(s.View(i), OpsOf(actions, i))
    decreases |actions|
  {
    ValidView(s, i);
    if actions != [] {
      hide Act, Run, Step, Pool.Ok, Pool.View, Queue.Valid;
      var a, rest := actions[0], actions[1..];
      ActOk(s, a);
      ActEffect(s, a, i);
      var (mid, answer) := Act(s, a);
      ValidView(mid, i);
      QueuesAreIndependent(mid, rest, i);
      var (after, answers) := ActAll(mid, rest);
      assert ([answer] + answers)[1..] == answers;
      var mine := a.Operate? && a.handle == i;
      IndependentStep(s.View(i), mid.View(i), after.View(i), OpsOf(rest, i), OutcomesOf(rest, answers, i),
                      if mine then [a.op] else [], if mine then [answer.outcome] else []);
    }
  }

  // So a queue that no message has passed through yet is a FIFO from there on: for at most 2^32
  // accepted sends to it, and for ever when its depth divides 2^32.
  lemma EveryQueueIsFifo(s: Pool, actions: seq<Action>, i: nat)
    requires s.Ok() && Runs(s, actions) && i < |s.queues|
    requires s.queues[i].head == s.queues[i].tail == s.queues[i].count == 0
    requires AcceptedSends(OutcomesOf(actions, ActAll(s, actions).1, i)) <= TWO_TO_32 ||
             TWO_TO_32 % s.queues[i].depth == 0
    ensures var (s', answers) := ActAll(s, actions);
            && s'.View(i).Valid()
            && (s'.View(i).Contents(), OutcomesOf(actions, answers, i)) ==
               FifoRun([], s.queues[i].depth, s.queues[i].msgSize, OpsOf(actions, i))
  {
    QueuesAreIndependent(s, actions, i);
    ValidView(ActAll(s, actions).0, i);
    hide Runs, ActAll, OutcomesOf, OpsOf, Run, FifoRun, AcceptedSends, PoolOk, Slots;
    RunRefinesFifo(s.View(i), OpsOf(actions, i));
  }

  // The pool behind an admissible creation.
  ghost function PoolWith(s: Pool, depth: nat, msgSize: nat): (s': Pool)
    requires s.Ok() && Admissible(s, Create(depth, msgSize))
    ensures s'.Ok()
  {
    CreateGrows(s, depth, msgSize);
    Grown(s, depth, msgSize).0
  }

  // In particular every queue is one from its creation on, whatever is created or used besides it.
  lemma FifoFromCreation(s: Pool, depth: nat, msgSize: nat, actions: seq<Action>)
    requires s.Ok() && Admissible(s, Create(depth, msgSize)) && CreateAccepts(|s.queues|, s.offset, depth, msgSize)
    requires Runs(PoolWith(s, depth, msgSize), actions)
    requires var answers := ActAll(PoolWith(s, depth, msgSize), actions).1;
             AcceptedSends(OutcomesOf(actions, answers, |s.queues|)) <= TWO_TO_32 || TWO_TO_32 % depth == 0
    ensures var (s', answers) := ActAll(PoolWith(s, depth, msgSize), actions);
            && s'.View(|s.queues|).Valid()
            && (s'.View(|s.queues|).Contents(), OutcomesOf(actions, answers, |s.queues|)) ==
               FifoRun([], depth, msgSize, OpsOf(actions, |s.queues|))
  {
    CreateGrows(s, depth, msgSize);
    hide Runs, ActAll, OutcomesOf, OpsOf, FifoRun, AcceptedSends, PoolOk, Slots, Needed;
    EveryQueueIsFifo(PoolWith(s, depth, msgSize), actions, |s.queues|);
  }

  // ---- From power-up

  function PowerUp(): (s: Pool)
    ensures s.Ok()
  {
    Pool(seq(POOL_BYTES, _ => '\0'), [], 0)
  }

  // After any run of creations and operations, no two slots of any queues share a byte, and all lie in
  // the pool.
  lemma SlotsStayApart(actions: seq<Action>, i: nat, a: nat, j: nat, b: nat)
    requires Runs(PowerUp(), actions)
    requires var queues := ActAll(PowerUp(), actions).0.queues;
             i < |queues| && j < |queues| && a < queues[i].depth && b < queues[j].depth && (i != j || a != b)
    ensures var queues := ActAll(PowerUp(), actions).0.queues;
            var x, y := SlotStart(queues[i], a), SlotStart(queues[j], b);
            var xEnd, yEnd := x + HEADER_BYTES + queues[i].msgSize, y + HEADER_BYTES + queues[j].msgSize;
            xEnd <= POOL_BYTES && yEnd <= POOL_BYTES && (xEnd <= y || yEnd <= x)
  {
    var s := ActAll(PowerUp(), actions).0;
    hide ActAll, Runs, PoolOk, SlotStart;
    AccessesDisjoint(s.bytes, s.queues, s.offset, i, a, j, b);
  }
}
