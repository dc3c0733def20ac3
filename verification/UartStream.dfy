/** What the reads of the receive ring return over a run without flushes: the accepted bytes. */
module UartStream {
  import opened MachineWords
  import opened UartRing

  predicate NoFlush(steps: seq<Step>) {
    Begin(Flush) !in steps
  }

  predicate Flushing(pc: Pc) {
    pc.FlushHead? || pc.FlushTail?
  }

  predicate NoneDropped(arrivals: seq<Arrival>) {
    forall k :: 0 <= k < |arrivals| ==> arrivals[k].Accepted?
  }

  lemma ValueSnoc(a: seq<Arrival>, x: Arrival)
    ensures Values(a + [x]) == Values(a) + (if x.Accepted? then [x.value] else [])
  {
    assert (a + [x])[..|a|] == a;
  }

  lemma OldestFirst(s: State)
    requires Inv(s) && s.pc.GetAdvance?
    ensures s.ring.Contents() != [] && s.ring.Contents()[0] == s.pc.value
  {
    hide Ring.Contents, Values, Removed;
  }

  lemma Popped(s: State)
    requires Inv(s) && s.pc.GetAdvance?
    ensures s.ring.Contents() != [] && TaskAccess(s).ring.Contents() == s.ring.Contents()[1..]
  {
    assert s.ring.Valid();
    hide Inv, Ring.Contents, Ring.Valid, TaskAccess;
    StepRefines(s, Access);
  }

  lemma AdvanceStream(s: State)
    requires Inv(s) && s.pc.GetAdvance?
    ensures var s' := TaskAccess(s);
            && s'.pc == Idle && s'.history.arrivals == s.history.arrivals
            && s'.history.results == s.history.results + [Got(s.pc.value)]
            && s.ring.Contents() == [s.pc.value] + s'.ring.Contents()
  {
    var c, c' := s.ring.Contents(), TaskAccess(s).ring.Contents();
    hide Ring.Contents, Values, Removed;
    OldestFirst(s);
    Popped(s);
    hide Inv, PcInv;
    assert c == [c[0]] + c[1..];
  }

  lemma OtherAccess(s: State) returns (results: seq<Result>)
    requires Inv(s) && !Flushing(s.pc) && !s.pc.GetAdvance?
    ensures var s' := TaskAccess(s);
            && !Flushing(s'.pc) && s'.history.arrivals == s.history.arrivals
            && s'.history.results == s.history.results + results
            && (results == [] || (|results| == 1 && !results[0].Got?))
            && s'.ring == s.ring
  {
    var s' := TaskAccess(s);
    hide Ring.Contents, Values, Removed, Inv;
    results := s'.history.results[|s.history.results|..];
    assert s.history.results + [] == s.history.results;
  }

  lemma AccessStream(s: State) returns (returned: seq<byte>)
    requires Inv(s) && !Flushing(s.pc)
    ensures var s' := TaskAccess(s);
            && !Flushing(s'.pc) && s'.history.arrivals == s.history.arrivals
            && Returned(s'.history.results) == Returned(s.history.results) + returned
            && s.ring.Contents() == returned + s'.ring.Contents()
  {
    var h, held := s.history.results, s.ring.Contents();
    hide Returned, Ring.Contents, Inv, TaskAccess;
    if s.pc.GetAdvance? {
      AdvanceStream(s);
      ResultSnoc(h, Got(s.pc.value));
      return [s.pc.value];
    }
    var results := OtherAccess(s);
    if results == [] {
      assert h + results == h;
    } else {
      assert results == [results[0]];
      ResultSnoc(h, results[0]);
    }
    returned := [];
    assert Returned(h) + returned == Returned(h) && returned + held == held;
  }

  lemma StepStream(s: State, step: Step) returns (accepted: seq<byte>, returned: seq<byte>)
    requires Inv(s) && !Flushing(s.pc) && step != Begin(Flush)
    ensures var s' := Apply(s, step);
            && !Flushing(s'.pc)
            && Values(s'.history.arrivals) == Values(s.history.arrivals) + accepted
            && Returned(s'.history.results) == Returned(s.history.results) + returned
            && s.ring.Contents() + accepted == returned + s'.ring.Contents()
  {
    hide Values, Returned, Ring.Contents;
    accepted, returned := [], [];
    match step {
      case Irq(b) =>
        IrqStep(s, b);
        var arrival := if s.ring.Held() < CAPACITY then Accepted(b) else Dropped(b);
        ValueSnoc(s.history.arrivals, arrival);
        accepted := if s.ring.Held() < CAPACITY then [b] else [];
      case Begin(_) =>
      case Access =>
        hide Inv, TaskAccess;
        returned := AccessStream(s);
    }
  }

  lemma JoinStreams(c: seq<byte>, a: seq<byte>, r: seq<byte>, m: seq<byte>, b: seq<byte>, q: seq<byte>, e: seq<byte>)
    requires c + a == r + m && m + b == q + e
    ensures c + (a + b) == (r + q) + e
  {
    assert c + (a + b) == (c + a) + b;
    assert (r + m) + b == r + (m + b);
    assert r + (q + e) == (r + q) + e;
  }

  lemma AppendBoth(s: seq<byte>, a: seq<byte>, b: seq<byte>)
    ensures s + a + b == s + (a + b)
  {
  }

  // From any state of the ring between two calls or inside one, over any steps without a flush: the held
  // bytes followed by those accepted since are those returned since followed by the ones still held.
  lemma {:induction false} StreamFrom(s: State, steps: seq<Step>) returns (accepted: seq<byte>, returned: seq<byte>)
    requires Inv(s) && !Flushing(s.pc) && NoFlush(steps)
    ensures var s' := Run(s, steps);
            && !Flushing(s'.pc)
            && Values(s'.history.arrivals) == Values(s.history.arrivals) + accepted
            && Returned(s'.history.results) == Returned(s.history.results) + returned
            && s.ring.Contents() + accepted == returned + s'.ring.Contents()
    decreases |steps|
  {
    if steps == [] {
      return [], [];
    }
    var before, step := steps[..|steps| - 1], steps[|steps| - 1];
    assert step in steps;
    RunInv(s, before);
    var mid := Run(s, before);
    assert Run(s, steps) == Apply(mid, step);
    hide Run, Apply, Inv, Values, Returned, Ring.Contents;
    var a, r := StreamFrom(s, before);
    var b, q := StepStream(mid, step);
    accepted, returned := a + b, r + q;
    AppendBoth(Values(s.history.arrivals), a, b);
    AppendBoth(Returned(s.history.results), r, q);
    JoinStreams(s.ring.Contents(), a, r, mid.ring.Contents(), b, q, Run(s, steps).ring.Contents());
  }

  lemma ArrivalsGrow(s: State, step: Step)
    requires s.ring.Valid()
    ensures |s.history.arrivals| <= |Apply(s, step).history.arrivals|
  {
  }

  lemma ArrivalStep(s: State, step: Step)
    requires s.ring.Valid() && NoneDropped(s.history.arrivals)
    requires s.ring.Held() <= |s.history.arrivals| && |Apply(s, step).history.arrivals| <= CAPACITY
    ensures NoneDropped(Apply(s, step).history.arrivals)
  {
    if step.Irq? {
      IrqStep(s, step.value);
    }
  }

  // As long as no more than 255 bytes have arrived in all, none was dropped, whatever the task did.
  lemma {:induction false} FewArrivalsKept(buf: seq<byte>, steps: seq<Step>)
    requires |buf| == RING_SIZE && |Run(Initial(buf), steps).history.arrivals| <= CAPACITY
    ensures NoneDropped(Run(Initial(buf), steps).history.arrivals)
  {
    if steps != [] {
      var before, step := steps[..|steps| - 1], steps[|steps| - 1];
      var s := Run(Initial(buf), before);
      assert Run(Initial(buf), steps) == Apply(s, step);
      hide Run;
      ArrivalsGrow(s, step);
      FewArrivalsKept(buf, before);
      Conservation(buf, before);
      ArrivalStep(s, step);
    }
  }

  lemma {:induction false} AllAccepted(arrivals: seq<Arrival>)
    requires NoneDropped(arrivals)
    ensures Values(arrivals) == ArrivalValues(arrivals)
  {
    if arrivals != [] {
      assert NoneDropped(arrivals[..|arrivals| - 1]);
      AllAccepted(arrivals[..|arrivals| - 1]);
    }
  }

  lemma {:induction false} ArrivalsLength(arrivals: seq<Arrival>)
    ensures |ArrivalValues(arrivals)| == |arrivals|
  {
    if arrivals != [] {
      ArrivalsLength(arrivals[..|arrivals| - 1]);
    }
  }

  lemma SameSplit(a: string, b: string, b': string)
    requires a + b == a + b'
    ensures b == b'
  {
    assert b == (a + b)[|a|..] && b' == (a + b')[|a|..];
  }

  // The same for given sequences.
  lemma ReturnedAndHeld(s: State, steps: seq<Step>, accepted: seq<byte>, returned: string)
    requires Inv(s) && !Flushing(s.pc) && NoFlush(steps)
    requires Values(Run(s, steps).history.arrivals) == Values(s.history.arrivals) + accepted
    requires Returned(Run(s, steps).history.results) == Returned(s.history.results) + returned
    ensures s.ring.Contents() + accepted == returned + Run(s, steps).ring.Contents()
  {
    var held, later := s.ring.Contents(), Run(s, steps).ring.Contents();
    hide Run, Inv, Values, Returned, Ring.Contents;
    var a, r := StreamFrom(s, steps);
    SameSplit(Values(s.history.arrivals), a, accepted);
    SameSplit(Returned(s.history.results), r, returned);
  }

  // So when the ring is empty at the end, all of them have been returned.
  lemma AllDelivered(s: State, steps: seq<Step>, accepted: seq<byte>, returned: string)
    requires Inv(s) && !Flushing(s.pc) && NoFlush(steps) && Run(s, steps).ring.Held() == 0
    requires Values(Run(s, steps).history.arrivals) == Values(s.history.arrivals) + accepted
    requires Returned(Run(s, steps).history.results) == Returned(s.history.results) + returned
    ensures returned == s.ring.Contents() + accepted
  {
    var later := Run(s, steps).ring.Contents();
    hide Run, Inv, Values, Returned, Ring.Contents;
    ReturnedAndHeld(s, steps, accepted, returned);
    assert later == [] && returned + later == returned;
  }

  lemma FromPowerUp(buf: seq<byte>)
    requires |buf| == RING_SIZE
    ensures var s := Initial(buf);
            s.ring.Contents() == [] && Values(s.history.arrivals) == [] && Returned(s.history.results) == []
  {
  }

  // What getc returns over a run without flushes: a prefix of the bytes that the ring accepted, and all
  // of them exactly when the ring is empty.
  lemma AcceptedPreserved(buf: seq<byte>, steps: seq<Step>)
    requires |buf| == RING_SIZE && NoFlush(steps)
    ensures var s := Run(Initial(buf), steps);
            && Values(s.history.arrivals) == Returned(s.history.results) + s.ring.Contents()
            && (s.ring.Held() == 0 <==> Returned(s.history.results) == Values(s.history.arrivals))
  {
    InitialInv(buf);
    var accepted, returned := StreamFrom(Initial(buf), steps);
    hide Run, Returned, Values, Ring.Contents;
    FromPowerUp(buf);
  }

  // Without drops the accepted bytes are the received ones.
  lemma StreamPreserved(buf: seq<byte>, steps: seq<Step>)
    requires |buf| == RING_SIZE && NoFlush(steps)
    requires NoneDropped(Run(Initial(buf), steps).history.arrivals)
    ensures var s := Run(Initial(buf), steps);
            && Values(s.history.arrivals) == Received(steps)
            && Received(steps) == Returned(s.history.results) + s.ring.Contents()
            && (s.ring.Held() == 0 <==> Returned(s.history.results) == Received(steps))
  {
    hide Run, Received, Returned, Values, ArrivalValues;
    HistoryIsFaithful(buf, steps);
    AcceptedPreserved(buf, steps);
    AllAccepted(Run(Initial(buf), steps).history.arrivals);
  }
}
