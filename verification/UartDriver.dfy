/** The ring buffer functions as the driver writes them. The bytes that interrupts take between two
    memory accesses are parameters, so each contract covers every interleaving of the call. */
module UartDriver {
  import opened MachineWords
  import opened UartRing

  // The interrupt steps for the bytes that the hardware FIFO held.
  function Irqs(fifo: seq<byte>): seq<Step> {
    if fifo == [] then [] else Irqs(fifo[..|fifo| - 1]) + [Irq(fifo[|fifo| - 1])]
  }

  // The steps of a call whose i-th memory access is preceded by the interrupts of bursts[i].
  function Interleaved(bursts: seq<seq<byte>>): seq<Step> {
    if bursts == [] then []
    else Interleaved(bursts[..|bursts| - 1]) + Irqs(bursts[|bursts| - 1]) + [Access]
  }

  function CallSteps(call: Call, bursts: seq<seq<byte>>): seq<Step> {
    [Begin(call)] + Interleaved(bursts)
  }

  lemma {:induction false} RunConcat(s: State, a: seq<Step>, b: seq<Step>)
    requires s.ring.Valid()
    ensures Run(s, a + b) == Run(Run(s, a), b)
  {
    if b == [] {
      assert a + b == a;
    } else {
      RunConcat(s, a, b[..|b| - 1]);
      assert (a + b)[..|a + b| - 1] == a + b[..|b| - 1];
    }
  }

  lemma RunOne(s: State, steps: seq<Step>, step: Step)
    requires s.ring.Valid()
    ensures Run(s, steps + [step]) == Apply(Run(s, steps), step)
  {
    assert (steps + [step])[..|steps|] == steps;
  }

  lemma MoreSteps(call: Call, bursts: seq<seq<byte>>, burst: seq<byte>)
    ensures CallSteps(call, bursts + [burst]) == (CallSteps(call, bursts) + Irqs(burst)) + [Access]
  {
    assert (bursts + [burst])[..|bursts|] == bursts;
    hide Irqs;
  }

  // One more access of a call, with the interrupts before it.
  lemma RunAccess(s: State, call: Call, bursts: seq<seq<byte>>, burst: seq<byte>)
    requires s.ring.Valid()
    ensures Run(s, CallSteps(call, bursts + [burst])) == TaskAccess(Run(Run(s, CallSteps(call, bursts)), Irqs(burst)))
  {
    var before := CallSteps(call, bursts);
    MoreSteps(call, bursts, burst);
    hide Run, CallSteps, Irqs, TaskAccess;
    RunOne(s, before + Irqs(burst), Access);
    RunConcat(s, before, Irqs(burst));
  }

  lemma OldestByte(r: Ring)
    requires r.Valid()
    ensures r.Contents() != [] ==> r.buf[r.tail] == r.Contents()[0]
  {
    if r.Contents() != [] {
      ContentsAt(r, 0);
    }
  }

  lemma BeginCall(s: State, call: Call)
    requires s.ring.Valid()
    ensures Run(s, CallSteps(call, [])) == Start(s, call)
  {
    assert CallSteps(call, []) == [] + [Begin(call)];
    RunOne(s, [], Begin(call));
  }

  lemma OneIrq(s: State, fifo: seq<byte>, b: byte)
    requires s.ring.Valid()
    ensures Run(s, Irqs(fifo + [b])) == ReceiveByte(Run(s, Irqs(fifo)), b)
  {
    assert (fifo + [b])[..|fifo|] == fifo;
    RunOne(s, Irqs(fifo), Irq(b));
    hide Run, ReceiveByte;
  }

  // A queue of bytes cut to the capacity of the ring: a full ring drops what arrives.
  function Kept(q: seq<byte>): seq<byte> {
    if |q| <= 255 then q else q[..255]
  }

  lemma EmptyKept(q: seq<byte>, fifo: seq<byte>)
    ensures Kept(q + fifo) == [] <==> q == [] && fifo == []
  {
  }

  lemma KeptShort(q: seq<byte>)
    requires |q| <= CAPACITY
    ensures Kept(q) == q
  {
  }

  lemma KeptOneMore(q: seq<byte>, fifo: seq<byte>, b: byte)
    ensures Kept(q + (fifo + [b])) ==
            if |Kept(q + fifo)| < CAPACITY then Kept(q + fifo) + [b] else Kept(q + fifo)
  {
  }

  lemma HeldBound(r: Ring)
    requires r.Valid()
    ensures |r.Contents()| <= CAPACITY
  {
  }

  // What interrupts between two accesses do: the task's position, the tail and the records of its calls
  // stay, and the bytes go behind the held ones until the ring is full.
  lemma {:induction false} IrqsKeep(s: State, fifo: seq<byte>)
    requires s.ring.Valid()
    ensures var s' := Run(s, Irqs(fifo));
            && s'.pc == s.pc && s'.ring.tail == s.ring.tail
            && s'.history.results == s.history.results && s'.history.removals == s.history.removals
            && s'.ring.Contents() == Kept(s.ring.Contents() + fifo) && s.ring.Contents() <= s'.ring.Contents()
  {
    HeldBound(s.ring);
    hide Ring.Contents, Ring.Held, Kept;
    if fifo == [] {
      assert s.ring.Contents() + fifo == s.ring.Contents();
      KeptShort(s.ring.Contents());
    } else {
      var before, b := fifo[..|fifo| - 1], fifo[|fifo| - 1];
      assert before + [b] == fifo;
      hide Run, Irqs;
      IrqsKeep(s, before);
      OneIrq(s, before, b);
      IrqStep(Run(s, Irqs(before)), b);
      KeptOneMore(s.ring.Contents(), before, b);
    }
  }

  class RingBuf {
    const buf: array<byte>
    var head: nat
    var tail: nat
    ghost var pc: Pc
    ghost var history: History

    ghost predicate Valid()
      reads this
    {
      buf.Length == RING_SIZE && head < RING_SIZE && tail < RING_SIZE
    }

    ghost function View(): (s: State)
      reads this, buf
      requires Valid()
      ensures s.ring.Valid()
    {
      State(Ring(buf[..], head, tail), pc, history)
    }

    constructor ()
      ensures Valid() && fresh(buf) && View() == Initial(buf[..]) && Inv(View())
    {
      buf := new byte[RING_SIZE];
      head, tail := 0, 0;
      pc, history := Idle, INITIAL_HISTORY;
      new;
      InitialInv(buf[..]);
    }

    // The body of the handler's loop.
    method TakeByte(byte: byte)
      requires Valid()
      modifies this`head, this`history, buf
      ensures Valid() && View() == ReceiveByte(old(View()), byte)
    {
      var next := (head + 1) % RING_SIZE;
      if next != tail {
        buf[head] := byte;
        head := next;
        history := history.(arrivals := history.arrivals + [Accepted(byte)]);
      } else {
        history := history.(arrivals := history.arrivals + [Dropped(byte)]);
      }
    }

    // The interrupt handler: everything that is readable, byte by byte.
    method RxIrqHandler(fifo: seq<byte>)
      requires Valid()
      modifies this`head, this`history, buf
      ensures Valid() && View() == Run(old(View()), Irqs(fifo))
      ensures View().ring.Contents() == Kept(old(View()).ring.Contents() + fifo)
    {
      ghost var s, v := View(), View();
      var i := 0;
      assert fifo[..0] == [] && Run(s, Irqs([])) == s;
      while i < |fifo|
        invariant i <= |fifo| && Valid()
        invariant v == View() && v == Run(s, Irqs(fifo[..i]))
      {
        hide Run, ReceiveByte;
        assert fifo[..i + 1] == fifo[..i] + [fifo[i]];
        OneIrq(s, fifo[..i], fifo[i]);
        TakeByte(fifo[i]);
        v := View();
        i := i + 1;
      }
      assert fifo[..i] == fifo;
      IrqsKeep(s, fifo);
    }

    // Interrupts between two accesses leave the task's position and the tail alone.
    method Preempted(burst: seq<byte>, ghost s: State, ghost call: Call, ghost done: seq<seq<byte>>)
      requires Valid() && s.ring.Valid() && View() == Run(s, CallSteps(call, done))
      modifies this`head, this`history, buf
      ensures Valid() && history.results == old(history.results) && history.removals == old(history.removals)
      ensures TaskAccess(View()) == Run(s, CallSteps(call, done + [burst]))
      ensures View().ring.Contents() == Kept(old(View()).ring.Contents() + burst)
      ensures old(View()).ring.Contents() <= View().ring.Contents()
    {
      ghost var before := View();
      RxIrqHandler(burst);
      IrqsKeep(before, burst);
      RunAccess(s, call, done, burst);
    }

    // The read of the byte at the tail.
    method ReadByte(first: seq<byte>, second: seq<byte>, ghost s: State, ghost done: seq<seq<byte>>)
      returns (value: byte)
      requires Valid() && pc == GetIndex && s.ring.Valid() && View() == Run(s, CallSteps(Getc, done))
      modifies this, buf
      ensures Valid() && pc == GetTail(value)
      ensures history.results == old(history.results) && history.removals == old(history.removals)
      ensures old(View()).ring.Contents() != [] ==> value == old(View()).ring.Contents()[0]
      ensures View() == Run(s, CallSteps(Getc, done + [first] + [second]))
    {
      hide Run, Interleaved, CallSteps, Ring.Contents, Kept;
      Preempted(first, s, Getc, done);
      var index := tail;
      pc := GetByte(index);
      Preempted(second, s, Getc, done + [first]);
      value := buf[index];
      OldestByte(View().ring);
      pc := GetTail(value);
    }

    // The update of the tail.
    method AdvanceTail(value: byte, first: seq<byte>, second: seq<byte>, ghost s: State, ghost done: seq<seq<byte>>)
      requires Valid() && pc == GetTail(value) && s.ring.Valid() && View() == Run(s, CallSteps(Getc, done))
      modifies this, buf
      ensures Valid() && pc == Idle && history.results == old(history.results) + [Got(value)]
      ensures history.removals == old(history.removals) + [Delivered(value)]
      ensures View() == Run(s, CallSteps(Getc, done + [first] + [second]))
    {
      hide Run, Interleaved, CallSteps, Ring.Contents, Kept;
      Preempted(first, s, Getc, done);
      var last := tail;
      pc := GetAdvance(value, last);
      Preempted(second, s, Getc, done + [first]);
      tail := (last + 1) % RING_SIZE;
      pc := Idle;
      history := History(history.arrivals, history.removals + [Delivered(value)], history.results + [Got(value)]);
    }

    // The second half of uart_getc_nb, once a byte is known to be there.
    method Fetch(bursts: seq<seq<byte>>, ghost s: State, ghost done: seq<seq<byte>>) returns (r: Result)
      requires Valid() && pc == GetIndex && |bursts| == 6
      requires s.ring.Valid() && View() == Run(s, CallSteps(Getc, done))
      modifies this, buf
      ensures Valid() && pc == Idle && r.Got? && history.results == old(history.results) + [r]
      ensures history.removals == old(history.removals) + [Delivered(r.value)]
      ensures old(View()).ring.Contents() != [] ==> r.value == old(View()).ring.Contents()[0]
      ensures View() == Run(s, CallSteps(Getc, done + [bursts[2]] + [bursts[3]] + [bursts[4]] + [bursts[5]]))
    {
      hide Run, Interleaved, CallSteps, Ring.Contents, Kept;
      var value := ReadByte(bursts[2], bursts[3], s, done);
      AdvanceTail(value, bursts[4], bursts[5], s, done + [bursts[2]] + [bursts[3]]);
      r := Got(value);
    }

    // uart_getc_nb: up to six memory accesses.
    method GetcNb(bursts: seq<seq<byte>>) returns (r: Result)
      requires Valid() && pc == Idle && |bursts| == 6
      modifies this, buf
      ensures Valid() && pc == Idle
      ensures View() == Run(old(View()), CallSteps(Getc, if r == Empty then bursts[..2] else bursts))
      ensures history.results == old(history.results) + [r] && (r == Empty || r.Got?)
      // A byte that was unread when the call began is returned, oldest first; empty means there was none.
      ensures old(View()).ring.Contents() != [] ==> r == Got(old(View()).ring.Contents()[0])
      ensures history.removals == old(history.removals) + (if r.Got? then [Delivered(r.value)] else [])
      // It is decided when the head is sampled.
      ensures r == Empty <==> old(View()).ring.Contents() == [] && bursts[0] == []
    {
      hide Run, Interleaved, CallSteps, Ring.Contents, Kept;
      ghost var s := View();
      ghost var q := s.ring.Contents();
      BeginCall(s, Getc);
      pc := GetHead;
      Preempted(bursts[0], s, Getc, []);
      assert [] + [bursts[0]] == [bursts[0]];
      EmptyKept(q, bursts[0]);
      var sampled := head;
      EmptyContents(View().ring);
      pc := GetCompare(sampled);
      Preempted(bursts[1], s, Getc, [bursts[0]]);
      if tail == sampled {
        pc, history := Idle, history.(results := history.results + [Empty]);
        assert bursts[..2] == [bursts[0]] + [bursts[1]];
        return Empty;
      }
      pc := GetIndex;
      r := Fetch(bursts, s, [bursts[0]] + [bursts[1]]);
      assert bursts == [bursts[0]] + [bursts[1]] + [bursts[2]] + [bursts[3]] + [bursts[4]] + [bursts[5]];
    }

    method HeadThenTail(bursts: seq<seq<byte>>) returns (n: nat)
      requires Valid() && pc == Idle && |bursts| == 2
      modifies this, buf
      ensures Valid() && pc == Idle
      ensures View() == Run(old(View()), CallSteps(RxAvailable(false), bursts))
      ensures history.results == old(history.results) + [Available(n)]
      ensures |old(View()).ring.Contents()| <= n <= |View().ring.Contents()|
    {
      hide Run, Interleaved, CallSteps, Ring.Contents, Kept;
      ghost var s, call := View(), RxAvailable(false);
      BeginCall(s, call);
      pc := AvailableHead(View().ring.Held());
      Preempted(bursts[0], s, call, []);
      assert [] + [bursts[0]] == [bursts[0]];
      var h := head;
      pc := AvailableTail(pc.floor, h);
      Preempted(bursts[1], s, call, [bursts[0]]);
      n := (h - tail) % RING_SIZE;
      pc, history := Idle, history.(results := history.results + [Available(n)]);
      assert bursts == [bursts[0]] + [bursts[1]];
    }

    method TailThenHead(bursts: seq<seq<byte>>) returns (n: nat)
      requires Valid() && pc == Idle && |bursts| == 2
      modifies this, buf
      ensures Valid() && pc == Idle
      ensures View() == Run(old(View()), CallSteps(RxAvailable(true), bursts))
      ensures history.results == old(history.results) + [Available(n)]
      ensures |old(View()).ring.Contents()| <= n <= |View().ring.Contents()|
    {
      hide Run, Interleaved, CallSteps, Ring.Contents, Kept;
      ghost var s, call := View(), RxAvailable(true);
      BeginCall(s, call);
      pc := AvailableTailFirst(View().ring.Held());
      Preempted(bursts[0], s, call, []);
      assert [] + [bursts[0]] == [bursts[0]];
      var t := tail;
      pc := AvailableHeadLast(pc.floor, t);
      Preempted(bursts[1], s, call, [bursts[0]]);
      n := (head - t) % RING_SIZE;
      pc, history := Idle, history.(results := history.results + [Available(n)]);
      assert bursts == [bursts[0]] + [bursts[1]];
    }

    // uart_rx_available: two memory accesses, in either order; C leaves it open.
    method RxAvailableCount(tailFirst: bool, bursts: seq<seq<byte>>) returns (n: nat)
      requires Valid() && pc == Idle && |bursts| == 2
      modifies this, buf
      ensures Valid() && pc == Idle
      ensures View() == Run(old(View()), CallSteps(RxAvailable(tailFirst), bursts))
      ensures history.results == old(history.results) + [Available(n)]
      ensures |old(View()).ring.Contents()| <= n <= |View().ring.Contents()|
    {
      if tailFirst {
        n := TailThenHead(bursts);
      } else {
        n := HeadThenTail(bursts);
      }
    }

    // The write of the tail.
    method StoreTail(h: nat)
      requires Valid() && pc == FlushTail(h) && h < RING_SIZE
      modifies this`tail, this`pc, this`history
      ensures Valid() && pc == Idle && View() == TaskAccess(old(View()))
      ensures history.results == old(history.results) + [FlushDone]
    {
      hide Discarded;
      history := History(history.arrivals, history.removals + Discarded(View().ring, h), history.results + [FlushDone]);
      tail := h;
      pc := Idle;
    }

    // uart_rx_flush: two memory accesses. What is held when the head is sampled is thrown away, and
    // what arrives after that stays.
    method RxFlush(bursts: seq<seq<byte>>)
      requires Valid() && pc == Idle && |bursts| == 2
      modifies this, buf
      ensures Valid() && pc == Idle
      ensures View() == Run(old(View()), CallSteps(Flush, bursts))
      ensures history.results == old(history.results) + [FlushDone]
      ensures var sampled := Kept(old(View()).ring.Contents() + bursts[0]);
              && history.removals == old(history.removals) + AllFlushed(sampled)
              && sampled + View().ring.Contents() == Kept(sampled + bursts[1])
      ensures bursts[1] == [] ==> View().ring.Contents() == []
    {
      hide Run, Interleaved, CallSteps, Ring.Contents, Ring.Held, Discarded, AllFlushed, Kept;
      ghost var s := View();
      BeginCall(s, Flush);
      pc := FlushHead;
      Preempted(bursts[0], s, Flush, []);
      assert [] + [bursts[0]] == [bursts[0]];
      var h := head;
      ghost var sampled := View().ring;
      HeldBound(sampled);
      pc := FlushTail(h);
      Preempted(bursts[1], s, Flush, [bursts[0]]);
      assert bursts == [bursts[0]] + [bursts[1]];
      SameDistance(sampled, View().ring);
      FlushStore(View(), sampled.Contents());
      StoreTail(h);
      KeptShort(sampled.Contents());
      assert sampled.Contents() + [] == sampled.Contents();
    }
  }
}
