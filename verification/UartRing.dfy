/** The receive ring between the UART interrupt and the task, as a step system: the interrupt may run
    between any two memory accesses of the task. */
module UartRing {
  import opened MachineWords

  const RING_SIZE: nat := 256
  const CAPACITY: nat := 255

  datatype Ring = Ring(buf: seq<byte>, head: nat, tail: nat) {
    predicate Valid() {
      |buf| == RING_SIZE && head < RING_SIZE && tail < RING_SIZE
    }

    // (to - tail) & RING_MASK
    function Distance(to: nat): nat {
      (to - tail) % RING_SIZE
    }

    function Held(): nat {
      Distance(head)
    }

    // The unread bytes, oldest first.
    function Contents(): (q: seq<byte>)
      requires Valid()
      ensures |q| == Held()
    {
      seq(Held(), i requires 0 <= i => buf[(tail + i) % RING_SIZE])
    }
  }

  datatype Arrival = Accepted(value: byte) | Dropped(value: byte)
  datatype Removal = Delivered(value: byte) | Flushed(value: byte)
  datatype Result = Got(value: byte) | Empty | Available(count: nat) | FlushDone

  // Everything that has happened.
  datatype History = History(arrivals: seq<Arrival>, removals: seq<Removal>, results: seq<Result>)

  // The next memory access of the task; the parameters are its local variables. The floor of a
  // call to uart_rx_available remembers, for the specification, how many bytes were held when it began.
  datatype Pc =
    | Idle
    | GetHead | GetCompare(head: nat) | GetIndex | GetByte(index: nat) | GetTail(value: byte)
    | GetAdvance(value: byte, tail: nat)
    | AvailableHead(floor: nat) | AvailableTail(floor: nat, head: nat)
    | AvailableTailFirst(floor: nat) | AvailableHeadLast(floor: nat, tail: nat)
    | FlushHead | FlushTail(head: nat)

  // The operands of the subtraction in uart_rx_available may be read in either order.
  datatype Call = Getc | RxAvailable(tailFirst: bool) | Flush

  datatype Step = Irq(value: byte) | Begin(call: Call) | Access

  datatype State = State(ring: Ring, pc: Pc, history: History)

  const INITIAL_HISTORY := History([], [], [])

  // One byte taken from the hardware FIFO by the interrupt handler. A full ring drops the new byte.
  function ReceiveByte(s: State, b: byte): State
    requires s.ring.Valid()
  {
    var r, next := s.ring, (s.ring.head + 1) % RING_SIZE;
    if next != r.tail then
      s.(ring := Ring(r.buf[r.head := b], next, r.tail),
         history := s.history.(arrivals := s.history.arrivals + [Accepted(b)]))
    else
      s.(history := s.history.(arrivals := s.history.arrivals + [Dropped(b)]))
  }

  function Start(s: State, call: Call): State {
    if s.pc != Idle then s
    else
      match call
      case Getc => s.(pc := GetHead)
      case RxAvailable(tailFirst) =>
        s.(pc := if tailFirst then AvailableTailFirst(s.ring.Held()) else AvailableHead(s.ring.Held()))
      case Flush => s.(pc := FlushHead)
  }

  function Return(s: State, r: Result): State {
    s.(pc := Idle, history := s.history.(results := s.history.results + [r]))
  }

  // The bytes from the tail up to a sampled head.
  function Discarded(r: Ring, head: nat): seq<Removal>
    requires r.Valid()
  {
    var n := if r.Distance(head) <= r.Held() then r.Distance(head) else r.Held();
    seq(n, i requires 0 <= i < n => Flushed(r.Contents()[i]))
  }

  // One memory access of the task.
  function TaskAccess(s: State): State
    requires s.ring.Valid()
  {
    var r := s.ring;
    match s.pc
    case Idle => s
    case GetHead => s.(pc := GetCompare(r.head))
    case GetCompare(head) => if r.tail == head then Return(s, Empty) else s.(pc := GetIndex)
    case GetIndex => s.(pc := GetByte(r.tail))
    case GetByte(index) => s.(pc := GetTail(if index < RING_SIZE then r.buf[index] else '\0'))
    case GetTail(value) => s.(pc := GetAdvance(value, r.tail))
    case GetAdvance(value, tail) =>
      Return(s, Got(value)).(ring := r.(tail := (tail + 1) % RING_SIZE),
                             history := History(s.history.arrivals, s.history.removals + [Delivered(value)],
                                                s.history.results + [Got(value)]))
    case AvailableHead(floor) => s.(pc := AvailableTail(floor, r.head))
    case AvailableTail(_, head) => Return(s, Available(r.Distance(head)))
    case AvailableTailFirst(floor) => s.(pc := AvailableHeadLast(floor, r.tail))
    case AvailableHeadLast(_, tail) => Return(s, Available((r.head - tail) % RING_SIZE))
    case FlushHead => s.(pc := FlushTail(r.head))
    case FlushTail(head) =>
      State(r.(tail := head % RING_SIZE), Idle,
            History(s.history.arrivals, s.history.removals + Discarded(r, head), s.history.results + [FlushDone]))
  }

  function Apply(s: State, step: Step): (s': State)
    requires s.ring.Valid()
    ensures s'.ring.Valid()
  {
    match step
    case Irq(b) => ReceiveByte(s, b)
    case Begin(call) => Start(s, call)
    case Access => TaskAccess(s)
  }

  function Run(s: State, steps: seq<Step>): (s': State)
    requires s.ring.Valid()
    ensures s'.ring.Valid()
  {
    if steps == [] then s else Apply(Run(s, steps[..|steps| - 1]), steps[|steps| - 1])
  }

  // uart0_init_hw and uart1_init_hw reset the indices and leave the buffer as it is.
  function Initial(buf: seq<byte>): State {
    State(Ring(buf, 0, 0), Idle, INITIAL_HISTORY)
  }

  // ---- The specification: a bounded queue

  datatype QueueStep = Arrive(value: byte) | Pop | SeeEmpty | Discard(count: nat) | Stutter

  predicate QueueEnabled(q: seq<byte>, step: QueueStep) {
    match step
    case Pop => q != []
    case SeeEmpty => q == []
    case Discard(n) => n <= |q|
    case _ => true
  }

  function QueueApply(q: seq<byte>, step: QueueStep): seq<byte>
    requires QueueEnabled(q, step)
  {
    match step
    case Arrive(b) => if |q| < CAPACITY then q + [b] else q
    case Pop => q[1..]
    case Discard(n) => q[n..]
    case _ => q
  }

  // The queue operation that a step of the ring amounts to.
  function Abstraction(s: State, step: Step): QueueStep {
    match step
    case Irq(b) => Arrive(b)
    case Begin(_) => Stutter
    case Access =>
      match s.pc
      case GetHead => if s.ring.head == s.ring.tail then SeeEmpty else Stutter
      case GetAdvance(_, _) => Pop
      case FlushTail(head) => Discard(s.ring.Distance(head))
      case _ => Stutter
  }

  function Values(arrivals: seq<Arrival>): seq<byte> {
    if arrivals == [] then []
    else
      var last := arrivals[|arrivals| - 1];
      Values(arrivals[..|arrivals| - 1]) + (if last.Accepted? then [last.value] else [])
  }

  function Removed(removals: seq<Removal>): seq<byte> {
    if removals == [] then [] else Removed(removals[..|removals| - 1]) + [removals[|removals| - 1].value]
  }

  // What holds of the task's local variables whenever the interrupt may run.
  ghost predicate PcInv(r: Ring, pc: Pc)
    requires r.Valid()
  {
    match pc
    case GetCompare(head) => head < RING_SIZE && r.Distance(head) <= r.Held()
    case GetIndex => r.Held() >= 1
    case GetByte(index) => r.Held() >= 1 && index == r.tail
    case GetTail(value) => r.Held() >= 1 && value == r.Contents()[0]
    case GetAdvance(value, tail) => r.Held() >= 1 && value == r.Contents()[0] && tail == r.tail
    case AvailableHead(floor) => floor <= r.Held()
    case AvailableTail(floor, head) => head < RING_SIZE && floor <= r.Distance(head) <= r.Held()
    case AvailableTailFirst(floor) => floor <= r.Held()
    case AvailableHeadLast(floor, tail) => tail == r.tail && floor <= r.Held()
    case FlushTail(head) => head < RING_SIZE && r.Distance(head) <= r.Held()
    case _ => true
  }

  ghost predicate Inv(s: State) {
    && s.ring.Valid()
    && PcInv(s.ring, s.pc)
    && Values(s.history.arrivals) == Removed(s.history.removals) + s.ring.Contents()
  }

  // ---- One step

  lemma ContentsAt(r: Ring, i: nat)
    requires r.Valid() && i < r.Held()
    ensures r.Contents()[i] == r.buf[(r.tail + i) % RING_SIZE]
  {
  }

  lemma FullWhenNext(head: nat, tail: nat)
    requires head < RING_SIZE && tail < RING_SIZE
    ensures (head + 1) % RING_SIZE == tail <==> (head - tail) % RING_SIZE == CAPACITY
    ensures (head - tail) % RING_SIZE < CAPACITY ==>
              ((head + 1) % RING_SIZE - tail) % RING_SIZE == (head - tail) % RING_SIZE + 1
    ensures (tail + (head - tail) % RING_SIZE) % RING_SIZE == head
  {
  }

  lemma UnreadSlot(head: nat, tail: nat, i: nat)
    requires head < RING_SIZE && tail < RING_SIZE && i < (head - tail) % RING_SIZE
    ensures (tail + i) % RING_SIZE != head
  {
  }

  lemma StillUnread(r: Ring, b: byte, i: nat)
    requires r.Valid() && i < r.Held()
    ensures r.buf[r.head := b][(r.tail + i) % RING_SIZE] == r.Contents()[i]
  {
    ContentsAt(r, i);
    UnreadSlot(r.head, r.tail, i);
    hide Ring.Contents;
  }

  // A byte stored at the head goes behind the unread ones.
  lemma StoredBehind(r: Ring, b: byte)
    requires r.Valid() && r.Held() < CAPACITY
    ensures var r' := Ring(r.buf[r.head := b], (r.head + 1) % RING_SIZE, r.tail);
            r'.Valid() && r'.Contents() == r.Contents() + [b]
  {
    var r' := Ring(r.buf[r.head := b], (r.head + 1) % RING_SIZE, r.tail);
    FullWhenNext(r.head, r.tail);
    assert r'.Held() == r.Held() + 1;
    forall i | 0 <= i < r'.Held() ensures r'.Contents()[i] == (r.Contents() + [b])[i] {
      ContentsAt(r', i);
      hide Ring.Contents, Ring.Held;
      if i < r.Held() {
        StillUnread(r, b, i);
      }
    }
    hide Ring.Held;
  }

  // The interrupt drops a byte exactly when 255 bytes are held; otherwise the byte goes behind the
  // unread ones, none of which is touched.
  lemma IrqStep(s: State, b: byte)
    requires s.ring.Valid()
    ensures var r, r' := s.ring, ReceiveByte(s, b).ring;
            && r'.Valid() && r'.tail == r.tail
            && r'.Contents() == (if r.Held() < CAPACITY then r.Contents() + [b] else r.Contents())
    ensures ReceiveByte(s, b).history.arrivals ==
            s.history.arrivals + [if s.ring.Held() < CAPACITY then Accepted(b) else Dropped(b)]
  {
    FullWhenNext(s.ring.head, s.ring.tail);
    if s.ring.Held() < CAPACITY {
      StoredBehind(s.ring, b);
    }
    hide Ring.Contents;
  }

  lemma DistanceSplits(head: nat, tail: nat, to: nat)
    requires head < RING_SIZE && tail < RING_SIZE && to < RING_SIZE
    requires (to - tail) % RING_SIZE <= (head - tail) % RING_SIZE
    ensures (head - to) % RING_SIZE == (head - tail) % RING_SIZE - (to - tail) % RING_SIZE
  {
  }

  lemma IndexMoves(tail: nat, to: nat, i: nat)
    requires tail < RING_SIZE && to < RING_SIZE && i < RING_SIZE
    ensures (to + i) % RING_SIZE == (tail + ((to - tail) % RING_SIZE + i)) % RING_SIZE
  {
  }

  // Moving the tail to a position inside the held range removes the bytes before it.
  lemma MoveTail(r: Ring, to: nat)
    requires r.Valid() && to < RING_SIZE && r.Distance(to) <= r.Held()
    ensures r.(tail := to).Contents() == r.Contents()[r.Distance(to)..]
  {
    var r', n := r.(tail := to), r.Distance(to);
    DistanceSplits(r.head, r.tail, to);
    assert r'.Held() == r.Held() - n < RING_SIZE;
    forall i | 0 <= i < r'.Held() ensures r'.Contents()[i] == r.Contents()[n + i] {
      ContentsAt(r', i);
      ContentsAt(r, n + i);
      IndexMoves(r.tail, to, i);
      hide Ring.Contents, Ring.Held, Ring.Distance;
    }
    hide Ring.Held, Ring.Distance;
  }

  lemma {:induction false} RemovedConcat(a: seq<Removal>, b: seq<Removal>)
    ensures Removed(a + b) == Removed(a) + Removed(b)
  {
    if b == [] {
      assert a + b == a;
    } else {
      RemovedConcat(a, b[..|b| - 1]);
      assert (a + b)[..|a + b| - 1] == a + b[..|b| - 1];
    }
  }

  lemma {:induction false} RemovedValues(rs: seq<Removal>, q: seq<byte>)
    requires |rs| <= |q| && forall i :: 0 <= i < |rs| ==> rs[i].value == q[i]
    ensures Removed(rs) == q[..|rs|]
  {
    if rs != [] {
      RemovedValues(rs[..|rs| - 1], q);
      assert q[..|rs|] == q[..|rs| - 1] + [q[|rs| - 1]];
    }
  }

  // More bytes behind the held ones disturb none of the task's local knowledge.
  lemma IrqPc(r: Ring, r': Ring, pc: Pc)
    requires r.Valid() && r'.Valid() && r'.tail == r.tail && r.Contents() <= r'.Contents()
    requires PcInv(r, pc)
    ensures PcInv(r', pc)
  {
    assert r.Held() <= r'.Held();
    if r.Held() >= 1 {
      assert r'.Contents()[0] == r.Contents()[0];
    }
  }

  lemma IrqInv(s: State, b: byte)
    requires Inv(s)
    ensures Inv(ReceiveByte(s, b))
  {
    IrqStep(s, b);
    var s' := ReceiveByte(s, b);
    IrqPc(s.ring, s'.ring, s.pc);
    assert s'.history.arrivals[..|s.history.arrivals|] == s.history.arrivals;
  }

  lemma AdvanceEffect(s: State)
    requires s.ring.Valid() && s.pc.GetAdvance?
    ensures var s' := TaskAccess(s);
            && s'.ring == s.ring.(tail := (s.pc.tail + 1) % RING_SIZE) && s'.pc == Idle
            && s'.history.arrivals == s.history.arrivals
            && s'.history.removals == s.history.removals + [Delivered(s.pc.value)]
  {
  }

  lemma RemovedSnoc(rs: seq<Removal>, d: Removal)
    ensures Removed(rs + [d]) == Removed(rs) + [d.value]
  {
    assert (rs + [d])[..|rs|] == rs;
  }

  lemma AdvanceKnows(s: State)
    requires s.ring.Valid() && PcInv(s.ring, s.pc) && s.pc.GetAdvance?
    ensures s.ring.Contents() != [] && s.pc.value == s.ring.Contents()[0] && s.pc.tail == s.ring.tail
    ensures s.ring.Distance((s.ring.tail + 1) % RING_SIZE) == 1 <= s.ring.Held()
  {
    hide Ring.Contents;
  }

  lemma FirstMoves(removed: seq<byte>, q: seq<byte>)
    requires q != []
    ensures removed + q == (removed + [q[0]]) + q[1..]
  {
  }

  lemma AdvanceInv(s: State)
    requires Inv(s) && s.pc.GetAdvance?
    ensures Inv(TaskAccess(s))
    ensures TaskAccess(s).ring.Contents() == s.ring.Contents()[1..]
  {
    var r, q := s.ring, s.ring.Contents();
    AdvanceKnows(s);
    AdvanceEffect(s);
    hide TaskAccess, Ring.Contents, Ring.Held, Ring.Distance, Removed, Values;
    MoveTail(r, (r.tail + 1) % RING_SIZE);
    RemovedSnoc(s.history.removals, Delivered(s.pc.value));
    FirstMoves(Removed(s.history.removals), q);
  }

  lemma DiscardedValues(r: Ring, head: nat)
    requires r.Valid() && r.Distance(head) <= r.Held()
    ensures |Discarded(r, head)| == r.Distance(head)
    ensures Removed(Discarded(r, head)) == r.Contents()[..r.Distance(head)]
  {
    hide Ring.Contents;
    RemovedValues(Discarded(r, head), r.Contents());
  }

  lemma FlushEffect(s: State)
    requires s.ring.Valid() && s.pc.FlushTail? && s.pc.head < RING_SIZE
    ensures TaskAccess(s).ring == s.ring.(tail := s.pc.head) && TaskAccess(s).pc == Idle
    ensures TaskAccess(s).history.arrivals == s.history.arrivals
    ensures TaskAccess(s).history.removals == s.history.removals + Discarded(s.ring, s.pc.head)
    ensures TaskAccess(s).history.results == s.history.results + [FlushDone]
  {
    hide Discarded;
  }

  lemma FlushInv(s: State)
    requires Inv(s) && s.pc.FlushTail?
    ensures Inv(TaskAccess(s))
    ensures TaskAccess(s).ring.Contents() == s.ring.Contents()[s.ring.Distance(s.pc.head)..]
  {
    hide TaskAccess, Ring.Contents, Ring.Held, Ring.Distance, Removed, Discarded, Values;
    var r, removals := s.ring, s.history.removals;
    var q, n := r.Contents(), r.Distance(s.pc.head);
    FlushEffect(s);
    MoveTail(r, s.pc.head);
    DiscardedValues(r, s.pc.head);
    RemovedConcat(removals, Discarded(r, s.pc.head));
    assert Removed(removals) + q == (Removed(removals) + q[..n]) + q[n..];
  }

  // An access that moves the tail.
  predicate Moves(pc: Pc) {
    pc.GetAdvance? || pc.FlushTail?
  }

  lemma ReadsOnly(s: State)
    requires s.ring.Valid() && !Moves(s.pc)
    ensures var s' := TaskAccess(s);
            && s'.ring == s.ring
            && s'.history.arrivals == s.history.arrivals && s'.history.removals == s.history.removals
  {
  }

  // What the accesses of getc up to the tail update find out.
  lemma GetcKnows(s: State)
    requires s.ring.Valid() && PcInv(s.ring, s.pc)
    requires s.pc.GetHead? || s.pc.GetCompare? || s.pc.GetIndex? || s.pc.GetByte? || s.pc.GetTail?
    ensures PcInv(s.ring, TaskAccess(s).pc)
  {
    if s.pc.GetByte? {
      ContentsAt(s.ring, 0);
    }
    hide Ring.Contents;
  }

  // What the accesses of uart_rx_available find out.
  lemma AvailableKnows(s: State)
    requires s.ring.Valid() && PcInv(s.ring, s.pc)
    requires s.pc.AvailableHead? || s.pc.AvailableTail? || s.pc.AvailableTailFirst? || s.pc.AvailableHeadLast?
    ensures PcInv(s.ring, TaskAccess(s).pc)
  {
    hide Ring.Contents;
  }

  lemma FlushKnows(s: State)
    requires s.ring.Valid() && s.pc.FlushHead?
    ensures PcInv(s.ring, TaskAccess(s).pc)
  {
    hide Ring.Contents;
  }

  lemma AccessKnows(s: State)
    requires s.ring.Valid() && PcInv(s.ring, s.pc) && !Moves(s.pc)
    ensures PcInv(s.ring, TaskAccess(s).pc)
  {
    hide Ring.Contents, Ring.Held, Ring.Distance;
    if s.pc.GetHead? || s.pc.GetCompare? || s.pc.GetIndex? || s.pc.GetByte? || s.pc.GetTail? {
      GetcKnows(s);
    } else if s.pc.AvailableHead? || s.pc.AvailableTail? || s.pc.AvailableTailFirst? || s.pc.AvailableHeadLast? {
      AvailableKnows(s);
    } else if s.pc.FlushHead? {
      FlushKnows(s);
    }
  }

  lemma EmptyContents(r: Ring)
    requires r.Valid()
    ensures r.head == r.tail <==> r.Contents() == []
  {
  }

  // An access that leaves the ring alone is a queue operation that leaves the queue alone.
  lemma ReadIsQuiet(s: State)
    requires s.ring.Valid() && !Moves(s.pc)
    ensures var step := Abstraction(s, Access);
            QueueEnabled(s.ring.Contents(), step) && QueueApply(s.ring.Contents(), step) == s.ring.Contents()
  {
    if s.pc.GetHead? {
      EmptyContents(s.ring);
    }
    hide Ring.Contents, Ring.Held;
  }

  lemma AdvanceStep(s: State)
    requires Inv(s) && s.pc.GetAdvance?
    ensures s.ring.Contents() != [] && Abstraction(s, Access) == Pop
  {
    hide Values, Removed;
  }

  lemma FlushStep(s: State)
    requires Inv(s) && s.pc.FlushTail?
    ensures s.ring.Distance(s.pc.head) <= |s.ring.Contents()|
    ensures Abstraction(s, Access) == Discard(s.ring.Distance(s.pc.head))
  {
    hide Values, Removed, Ring.Contents;
  }

  lemma AccessRefines(s: State)
    requires Inv(s)
    ensures Inv(TaskAccess(s))
    ensures QueueEnabled(s.ring.Contents(), Abstraction(s, Access))
    ensures TaskAccess(s).ring.Contents() == QueueApply(s.ring.Contents(), Abstraction(s, Access))
  {
    hide TaskAccess, Ring.Contents, Ring.Held, Ring.Distance, Values, Removed, PcInv;
    if s.pc.GetAdvance? {
      AdvanceInv(s);
      AdvanceStep(s);
    } else if s.pc.FlushTail? {
      FlushInv(s);
      FlushStep(s);
    } else {
      ReadsOnly(s);
      AccessKnows(s);
      ReadIsQuiet(s);
    }
  }

  // Every step keeps the invariant and is the queue operation it stands for.
  lemma StepRefines(s: State, step: Step)
    requires Inv(s)
    ensures Inv(Apply(s, step))
    ensures QueueEnabled(s.ring.Contents(), Abstraction(s, step))
    ensures Apply(s, step).ring.Contents() == QueueApply(s.ring.Contents(), Abstraction(s, step))
  {
    match step {
      case Irq(b) =>
        hide ReceiveByte;
        IrqInv(s, b);
        IrqStep(s, b);
      case Begin(call) =>
      case Access =>
        hide TaskAccess;
        AccessRefines(s);
    }
  }

  // ---- Results

  // What a completed call returns: getc the oldest held byte, or empty only if nothing was held
  // when it sampled the head; available a number between what was held at its beginning and at its end.
  lemma ResultMeaning(s: State)
    requires Inv(s) && |TaskAccess(s).history.results| > |s.history.results|
    ensures var s' := TaskAccess(s);
            var result := s'.history.results[|s.history.results|];
            && s'.pc == Idle && s'.history.results == s.history.results + [result]
            && match s.pc
               case GetCompare(head) => result == Empty && head == s.ring.tail
               case GetAdvance(_, _) =>
                 && result == Got(s.ring.Contents()[0])
                 && s'.history.removals == s.history.removals + [Delivered(s.ring.Contents()[0])]
               case AvailableTail(floor, _) => result.Available? && floor <= result.count <= s.ring.Held()
               case AvailableHeadLast(floor, _) => result.Available? && floor <= result.count <= s.ring.Held()
               case FlushTail(_) => result == FlushDone
               case _ => false
  {
  }

  // ---- Whole runs

  lemma {:induction false} RunInv(s: State, steps: seq<Step>)
    requires Inv(s)
    ensures Inv(Run(s, steps))
  {
    if steps != [] {
      RunInv(s, steps[..|steps| - 1]);
      hide Inv, Apply, Abstraction;
      StepRefines(Run(s, steps[..|steps| - 1]), steps[|steps| - 1]);
    }
  }

  // Between two accesses of the task only interrupts act, and they leave the task's position and the
  // tail alone and the held bytes in place.
  lemma {:induction false} BetweenAccesses(s: State, steps: seq<Step>)
    requires s.ring.Valid() && s.pc != Idle && Access !in steps
    ensures var s' := Run(s, steps);
            && s'.pc == s.pc && s'.ring.tail == s.ring.tail && s.ring.Contents() <= s'.ring.Contents()
            && s'.history.results == s.history.results && s'.history.removals == s.history.removals
  {
    if steps != [] {
      var before, step := steps[..|steps| - 1], steps[|steps| - 1];
      assert step in steps;
      BetweenAccesses(s, before);
      var mid := Run(s, before);
      if step.Irq? {
        IrqStep(mid, step.value);
      }
      hide Run, Ring.Contents;
    }
  }

  // The answer of a getc is decided when it samples the head: whatever arrives until it compares the
  // tail, it returns empty if and only if nothing was held at the sample.
  lemma EmptyExactly(s: State, steps: seq<Step>)
    requires s.ring.Valid() && s.pc == GetHead && Access !in steps
    ensures var s' := Run(Apply(s, Access), steps);
            var results := Apply(s', Access).history.results;
            if s.ring.Contents() == [] then results == s.history.results + [Empty]
            else results == s.history.results && Apply(s', Access).pc == GetIndex
  {
    hide Run;
    BetweenAccesses(Apply(s, Access), steps);
  }

  // Every byte of a queue, thrown away.
  function AllFlushed(q: seq<byte>): seq<Removal> {
    seq(|q|, i requires 0 <= i < |q| => Flushed(q[i]))
  }

  lemma DiscardedAre(r: Ring, head: nat, q: seq<byte>)
    requires r.Valid() && q <= r.Contents() && r.Distance(head) == |q|
    ensures Discarded(r, head) == AllFlushed(q)
  {
    var c := r.Contents();
    assert |c| == r.Held();
    hide Ring.Contents, Ring.Held, Ring.Distance;
    assert forall i :: 0 <= i < |q| ==> c[i] == q[i];
  }

  // The tail store of a flush whose head sample was the end of the bytes q: they are thrown away, and
  // those behind them stay.
  lemma FlushStore(s: State, q: seq<byte>)
    requires s.ring.Valid() && s.pc.FlushTail? && s.pc.head < RING_SIZE
    requires q <= s.ring.Contents() && s.ring.Distance(s.pc.head) == |q|
    ensures var s' := TaskAccess(s);
            && s'.pc == Idle && s'.history == History(s.history.arrivals, s.history.removals + AllFlushed(q),
                                                      s.history.results + [FlushDone])
            && s'.ring.Contents() == s.ring.Contents()[|q|..]
  {
    hide TaskAccess, Discarded, AllFlushed, Ring.Contents, Ring.Held, Ring.Distance;
    MoveTail(s.ring, s.pc.head);
    FlushEffect(s);
    DiscardedAre(s.ring, s.pc.head, q);
  }

  lemma FlushSample(s: State)
    requires s.ring.Valid() && s.pc == FlushHead
    ensures TaskAccess(s) == s.(pc := FlushTail(s.ring.head))
  {
  }

  lemma SameDistance(r: Ring, r': Ring)
    requires r.Valid() && r'.tail == r.tail
    ensures r'.Distance(r.head) == |r.Contents()|
  {
  }

  lemma AppendBehind(a: seq<byte>, b: seq<byte>, c: seq<byte>)
    ensures a + (b + c) == a + b + c
  {
  }

  // What a flush throws away: exactly what was held when it sampled the head. Whatever arrives from
  // then on, up to its tail store, is held at the end, in order.
  lemma FlushExactly(s: State, steps: seq<Step>) returns (accepted: seq<byte>)
    requires Inv(s) && s.pc == FlushHead && Access !in steps
    ensures var s' := TaskAccess(Run(TaskAccess(s), steps));
            && s'.pc == Idle && s'.history.results == s.history.results + [FlushDone]
            && s'.history.removals == s.history.removals + AllFlushed(s.ring.Contents())
            && Values(s'.history.arrivals) == Values(s.history.arrivals) + accepted
            && s'.ring.Contents() == accepted
  {
    var q, sampled := s.ring.Contents(), TaskAccess(s);
    FlushSample(s);
    hide TaskAccess, AllFlushed, PcInv, Ring.Contents;
    StepRefines(s, Access);
    RunInv(sampled, steps);
    var stored := Run(sampled, steps);
    BetweenAccesses(sampled, steps);
    hide Run;
    accepted := stored.ring.Contents()[|q|..];
    SameDistance(s.ring, stored.ring);
    FlushStore(stored, q);
    assert stored.ring.Contents() == q + accepted;
    AppendBehind(Removed(s.history.removals), q, accepted);
  }

  lemma InitialInv(buf: seq<byte>)
    requires |buf| == RING_SIZE
    ensures Inv(Initial(buf))
  {
  }

  // The queue operations that a run amounts to.
  function Trace(s: State, steps: seq<Step>): seq<QueueStep>
    requires s.ring.Valid()
  {
    if steps == [] then []
    else Trace(s, steps[..|steps| - 1]) + [Abstraction(Run(s, steps[..|steps| - 1]), steps[|steps| - 1])]
  }

  // A queue run: every step is enabled, and the last element is the queue at the end.
  predicate QueueRun(q: seq<byte>, trace: seq<QueueStep>, q': seq<byte>)
    decreases |trace|
  {
    if trace == [] then q' == q
    else QueueEnabled(q, trace[0]) && QueueRun(QueueApply(q, trace[0]), trace[1..], q')
  }

  lemma {:induction false} QueueRunSnoc(q: seq<byte>, trace: seq<QueueStep>, q': seq<byte>, step: QueueStep)
    requires QueueRun(q, trace, q') && QueueEnabled(q', step)
    ensures QueueRun(q, trace + [step], QueueApply(q', step))
    decreases |trace|
  {
    if trace == [] {
      assert (trace + [step])[1..] == [];
    } else {
      QueueRunSnoc(QueueApply(q, trace[0]), trace[1..], q', step);
      assert (trace + [step])[1..] == trace[1..] + [step];
    }
  }

  // Refinement: under every interleaving, the ring behaves as a queue of capacity 255.
  lemma {:induction false} RunRefinesQueue(s: State, steps: seq<Step>)
    requires Inv(s)
    ensures QueueRun(s.ring.Contents(), Trace(s, steps), Run(s, steps).ring.Contents())
  {
    if steps != [] {
      var before, step := steps[..|steps| - 1], steps[|steps| - 1];
      RunRefinesQueue(s, before);
      RunInv(s, before);
      hide Inv, QueueRun, Abstraction;
      StepRefines(Run(s, before), step);
      QueueRunSnoc(s.ring.Contents(), Trace(s, before), Run(s, before).ring.Contents(),
                   Abstraction(Run(s, before), step));
    }
  }

  function DroppedCount(arrivals: seq<Arrival>): nat {
    if arrivals == [] then 0
    else DroppedCount(arrivals[..|arrivals| - 1]) + (if arrivals[|arrivals| - 1].Dropped? then 1 else 0)
  }

  function DeliveredCount(removals: seq<Removal>): nat {
    if removals == [] then 0
    else DeliveredCount(removals[..|removals| - 1]) + (if removals[|removals| - 1].Delivered? then 1 else 0)
  }

  lemma {:induction false} ArrivalsSplit(arrivals: seq<Arrival>)
    ensures |arrivals| == |Values(arrivals)| + DroppedCount(arrivals)
  {
    if arrivals != [] {
      ArrivalsSplit(arrivals[..|arrivals| - 1]);
    }
  }

  function FlushedCount(removals: seq<Removal>): nat {
    if removals == [] then 0
    else FlushedCount(removals[..|removals| - 1]) + (if removals[|removals| - 1].Flushed? then 1 else 0)
  }

  lemma {:induction false} RemovalsSplit(removals: seq<Removal>)
    ensures |Removed(removals)| == DeliveredCount(removals) + FlushedCount(removals)
  {
    if removals != [] {
      RemovalsSplit(removals[..|removals| - 1]);
    }
  }

  // Conservation, for bytes and for counts: the accepted bytes are, in order, the removed ones and
  // then the held ones; received = delivered + flushed + held + dropped.
  lemma Conservation(buf: seq<byte>, steps: seq<Step>)
    requires |buf| == RING_SIZE
    ensures var s := Run(Initial(buf), steps);
            var h := s.history;
            && Values(h.arrivals) == Removed(h.removals) + s.ring.Contents()
            && |h.arrivals| ==
               DeliveredCount(h.removals) + FlushedCount(h.removals) + s.ring.Held() + DroppedCount(h.arrivals)
            && s.ring.Held() <= CAPACITY
  {
    InitialInv(buf);
    RunInv(Initial(buf), steps);
    var s := Run(Initial(buf), steps);
    hide Run, Removed, Values;
    ArrivalsSplit(s.history.arrivals);
    RemovalsSplit(s.history.removals);
  }

  // The history records every byte that the interrupt took, in order.
  function Received(steps: seq<Step>): seq<byte> {
    if steps == [] then []
    else
      var last := steps[|steps| - 1];
      Received(steps[..|steps| - 1]) + (if last.Irq? then [last.value] else [])
  }

  function ArrivalValues(arrivals: seq<Arrival>): seq<byte> {
    if arrivals == [] then [] else ArrivalValues(arrivals[..|arrivals| - 1]) + [arrivals[|arrivals| - 1].value]
  }

  // The bytes that getc calls returned, and the bytes that left the ring by delivery.
  function Returned(results: seq<Result>): seq<byte> {
    if results == [] then []
    else
      var last := results[|results| - 1];
      Returned(results[..|results| - 1]) + (if last.Got? then [last.value] else [])
  }

  function DeliveredBytes(removals: seq<Removal>): seq<byte> {
    if removals == [] then []
    else
      var last := removals[|removals| - 1];
      DeliveredBytes(removals[..|removals| - 1]) + (if last.Delivered? then [last.value] else [])
  }

  lemma {:induction false} FlushedDeliverNothing(a: seq<Removal>, b: seq<Removal>)
    requires forall k :: 0 <= k < |b| ==> b[k].Flushed?
    ensures DeliveredBytes(a + b) == DeliveredBytes(a)
  {
    if b == [] {
      assert a + b == a;
    } else {
      FlushedDeliverNothing(a, b[..|b| - 1]);
      assert (a + b)[..|a + b| - 1] == a + b[..|b| - 1];
    }
  }

  lemma ArrivalSnoc(a: seq<Arrival>, x: Arrival)
    ensures ArrivalValues(a + [x]) == ArrivalValues(a) + [x.value]
  {
    assert (a + [x])[..|a|] == a;
  }

  lemma ResultSnoc(a: seq<Result>, x: Result)
    ensures Returned(a + [x]) == Returned(a) + (if x.Got? then [x.value] else [])
  {
    assert (a + [x])[..|a|] == a;
  }

  lemma RemovalSnoc(a: seq<Removal>, x: Removal)
    ensures DeliveredBytes(a + [x]) == DeliveredBytes(a) + (if x.Delivered? then [x.value] else [])
  {
    assert (a + [x])[..|a|] == a;
  }

  lemma AccessHistory(s: State)
    requires s.ring.Valid()
    ensures var h, h' := s.history, TaskAccess(s).history;
            && h'.arrivals == h.arrivals
            && (Returned(h.results) == DeliveredBytes(h.removals) ==>
                Returned(h'.results) == DeliveredBytes(h'.removals))
  {
    hide ArrivalValues, Returned, DeliveredBytes;
    var h, h' := s.history, TaskAccess(s).history;
    if s.pc.FlushTail? {
      FlushedDeliverNothing(h.removals, Discarded(s.ring, s.pc.head));
    }
    if h'.results != h.results {
      ResultSnoc(h.results, h'.results[|h.results|]);
    }
    if h'.removals != h.removals && !s.pc.FlushTail? {
      RemovalSnoc(h.removals, h'.removals[|h.removals|]);
    }
  }

  lemma StepHistory(s: State, step: Step)
    requires s.ring.Valid()
    ensures var h, h' := s.history, Apply(s, step).history;
            && ArrivalValues(h'.arrivals) == ArrivalValues(h.arrivals) + (if step.Irq? then [step.value] else [])
            && (Returned(h.results) == DeliveredBytes(h.removals) ==>
                Returned(h'.results) == DeliveredBytes(h'.removals))
  {
    hide ArrivalValues, Returned, DeliveredBytes;
    var h, h' := s.history, Apply(s, step).history;
    match step {
      case Irq(_) =>
        ArrivalSnoc(h.arrivals, h'.arrivals[|h.arrivals|]);
      case Begin(_) =>
      case Access =>
        AccessHistory(s);
    }
  }

  // What callers saw is what was recorded: every received byte is in the history, and the bytes
  // returned by getc are exactly the delivered ones, in order.
  lemma {:induction false} HistoryIsFaithful(buf: seq<byte>, steps: seq<Step>)
    requires |buf| == RING_SIZE
    ensures var h := Run(Initial(buf), steps).history;
            ArrivalValues(h.arrivals) == Received(steps) && Returned(h.results) == DeliveredBytes(h.removals)
  {
    if steps != [] {
      var before, step := steps[..|steps| - 1], steps[|steps| - 1];
      HistoryIsFaithful(buf, before);
      var s := Run(Initial(buf), before);
      StepHistory(s, step);
    }
  }
}
