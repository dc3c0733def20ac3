/** Properties of whole runs of the GPS receiver: what is counted, when fix events are emitted, and
    what a receiver that joins in mid-sentence ignores. */
module GpsRuns {
  import opened MachineWords
  import opened Text
  import opened NmeaTokens
  import opened GpsModel
  import NmeaChecksum
  import LineAssembler

  // ---- Which lines count

  // A line that the receiver leaves alone: too short, without the leading '$', or of another type.
  predicate OtherLine(line: string) {
    |line| < 6 || line[0] != '$' || line[3..6] != "GGA"
  }

  predicate AcceptedLine(line: string) {
    && !OtherLine(line) && NmeaChecksum.Accepts(line)
    && var f := Fields(UpToNul(line)); |f| >= 10 && ParseFix(f).Fix?
  }

  predicate Diagnostic(o: Output) {
    o.UtcTime? || o.ParseError? || o.ChecksumError? || o.UartOverrun?
  }

  // r' is r with more outputs, none of them a fix channel, a fix event or a count.
  predicate OnlyDiagnostics(r: Receiver, r': Receiver) {
    && r'.lastFix == r.lastFix && r'.count == r.count
    && r.outputs <= r'.outputs
    && forall k :: |r.outputs| <= k < |r'.outputs| ==> Diagnostic(r'.outputs[k])
  }

  lemma OtherIsNotGga(line: string)
    ensures IsGga(line) <==> !OtherLine(line)
  {
    if |line| >= 6 {
      var t := line[3..6];
      assert t[0] == line[3] && t[1] == line[4] && t[2] == line[5];
    }
  }

  // What each line does, in full. A line of another type leaves no trace. A wrong checksum, too few
  // fields and an unreadable field give one event each, the last one behind the time; an accepted line
  // publishes the time, the six channels, a fix event on a change of state, and the count.
  lemma LineEffect(r: Receiver, line: string)
    ensures OtherLine(line) ==> ProcessLine(r, line) == r
    ensures !OtherLine(line) && !NmeaChecksum.Accepts(line) ==>
              ProcessLine(r, line) == Receiver(r.lastFix, r.count, r.outputs + [ChecksumError(UpToNul(line))])
    ensures !OtherLine(line) && NmeaChecksum.Accepts(line) && |Fields(UpToNul(line))| < 10 ==>
              ProcessLine(r, line) == Receiver(r.lastFix, r.count, r.outputs + [ParseError(0)])
    ensures !OtherLine(line) && NmeaChecksum.Accepts(line) && !AcceptedLine(line) && |Fields(UpToNul(line))| >= 10 ==>
              var f := Fields(UpToNul(line));
              ProcessLine(r, line) ==
              Receiver(r.lastFix, r.count, r.outputs + [UtcTime(UtcHms(f[1])), ParseError(ParseFix(f).field)])
    ensures AcceptedLine(line) ==>
              var f := Fields(UpToNul(line));
              var fix := ParseFix(f);
              var n := (r.count + 1) % 0x1_0000_0000;
              ProcessLine(r, line) == Receiver(fix.quality, n,
                r.outputs +
                [UtcTime(UtcHms(f[1])), FixQuality(fix.quality), SatCount(fix.sats), Latitude(fix.latitude),
                 Longitude(fix.longitude), Altitude(fix.altitude), Hdop(fix.hdop)] +
                (if fix.quality > 0 && r.lastFix == 0 then [FixAcquired(fix.sats)]
                 else if fix.quality == 0 && r.lastFix > 0 then [FixLost] else []) +
                [SentenceCount(n)])
  {
    OtherIsNotGga(line);
    hide IsGga, OtherLine, NmeaChecksum.Accepts, UpToNul, Fields, ParseFix, UtcHms;
  }

  // The same for an accepted line in terms of the specification of the fix events, and for the others
  // as a bound on what they may emit.
  lemma LineOutputs(r: Receiver, line: string)
    ensures !AcceptedLine(line) ==> OnlyDiagnostics(r, ProcessLine(r, line))
    ensures AcceptedLine(line) ==>
              var fix := ParseFix(Fields(UpToNul(line)));
              var n := (r.count + 1) % TWO_TO_32;
              && ProcessLine(r, line).lastFix == fix.quality && ProcessLine(r, line).count == n
              && ProcessLine(r, line).outputs ==
                 r.outputs + [UtcTime(UtcHms(Fields(UpToNul(line))[1]))] + Published(fix) +
                 FixEvent(fix.quality, fix.sats, r.lastFix) + [SentenceCount(n)]
  {
    OtherIsNotGga(line);
    hide IsGga, OtherLine, NmeaChecksum.Accepts, UpToNul, Fields, ParseFix, UtcHms, FixEvent, Published;
  }

  function AcceptedLines(es: seq<LineAssembler.Event>): nat {
    if es == [] then 0
    else AcceptedLines(es[..|es| - 1]) +
         (if es[|es| - 1].Line? && AcceptedLine(es[|es| - 1].text) then 1 else 0)
  }

  lemma EmptyNotAccepted()
    ensures !AcceptedLine("")
  {
  }

  lemma CountStep(r: Receiver, e: LineAssembler.Event)
    requires r.count < TWO_TO_32
    ensures Handle(r, e).count == (r.count + (if e.Line? && AcceptedLine(e.text) then 1 else 0)) % TWO_TO_32
  {
    hide ProcessLine, AcceptedLine;
    if e.Line? {
      if e.text == "" {
        EmptyNotAccepted();
      } else {
        LineOutputs(r, e.text);
      }
    }
  }

  lemma {:induction false} CountAll(r: Receiver, es: seq<LineAssembler.Event>)
    requires r.count < TWO_TO_32
    ensures HandleAll(r, es).count == (r.count + AcceptedLines(es)) % TWO_TO_32
  {
    hide Handle, AcceptedLine;
    if es == [] {
      DivModUnique(r.count, TWO_TO_32, 0, r.count);
    } else {
      var before, e := es[..|es| - 1], es[|es| - 1];
      var d := if e.Line? && AcceptedLine(e.text) then 1 else 0;
      assert HandleAll(r, es) == Handle(HandleAll(r, before), e) && AcceptedLines(es) == AcceptedLines(before) + d;
      hide HandleAll, AcceptedLines;
      CountAll(r, before);
      CountStep(HandleAll(r, before), e);
      WrapTwice(r.count + AcceptedLines(before), d);
    }
  }

  // m_sentenceCount counts exactly the accepted sentences of the stream, modulo 2^32.
  lemma {:induction false} CountIsAcceptedLines(g: Gps, s: string)
    requires g.core.count < TWO_TO_32
    ensures Receive(g, s).core.count ==
            (g.core.count + AcceptedLines(LineAssembler.Feed(LINE_BUF_SIZE, g.line, s).events)) % TWO_TO_32
  {
    hide HandleAll, AcceptedLines, LineAssembler.Feed;
    CountAll(g.core, LineAssembler.Feed(LINE_BUF_SIZE, g.line, s).events);
  }

  // ---- Fix events

  // The fix events among some outputs: true for acquired, false for lost.
  function FixEvents(outputs: seq<Output>): seq<bool> {
    if outputs == [] then []
    else
      var last := outputs[|outputs| - 1];
      FixEvents(outputs[..|outputs| - 1]) +
      (if last.FixAcquired? then [true] else if last.FixLost? then [false] else [])
  }

  predicate Alternates(events: seq<bool>, first: bool) {
    forall k :: 0 <= k < |events| ==> events[k] == (first == (k % 2 == 0))
  }

  // From r to r' the emitted fix events alternate, the first one fitting r's fix state, and the
  // fix state of r' is what the last one says.
  predicate Tracks(r: Receiver, r': Receiver) {
    && r.outputs <= r'.outputs
    && var e := FixEvents(r'.outputs[|r.outputs|..]);
       && Alternates(e, r.lastFix == 0)
       && (r'.lastFix > 0 <==> if e == [] then r.lastFix > 0 else e[|e| - 1])
  }

  lemma {:induction false} FixEventsConcat(a: seq<Output>, b: seq<Output>)
    ensures FixEvents(a + b) == FixEvents(a) + FixEvents(b)
  {
    if b == [] {
      assert a + b == a;
    } else {
      FixEventsConcat(a, b[..|b| - 1]);
      assert (a + b)[..|a + b| - 1] == a + b[..|b| - 1];
    }
  }

  lemma {:induction false} NoFixEvents(outputs: seq<Output>)
    requires forall k :: 0 <= k < |outputs| ==> !outputs[k].FixAcquired? && !outputs[k].FixLost?
    ensures FixEvents(outputs) == []
  {
    if outputs != [] {
      NoFixEvents(outputs[..|outputs| - 1]);
    }
  }

  lemma NewOutputs(a: seq<Output>, b: seq<Output>, c: seq<Output>)
    requires a <= b <= c
    ensures a <= c && c[|a|..] == b[|a|..] + c[|b|..]
  {
  }

  lemma EvenSum(m: nat, n: nat)
    ensures (m + n) % 2 == 0 <==> (m % 2 == 0 <==> n % 2 == 0)
  {
  }

  lemma AlternatesConcat(d: seq<bool>, e: seq<bool>, first: bool, second: bool)
    requires Alternates(d, first) && Alternates(e, second)
    requires second == (if d == [] then first else !d[|d| - 1])
    ensures Alternates(d + e, first)
  {
    if d != [] {
      EvenSum(|d| - 1, 1);
    }
    forall k | 0 <= k < |d + e| ensures (d + e)[k] == (first == (k % 2 == 0)) {
      if k >= |d| {
        EvenSum(|d|, k - |d|);
      }
    }
  }

  lemma TracksTransitive(a: Receiver, b: Receiver, c: Receiver)
    requires Tracks(a, b) && Tracks(b, c)
    ensures Tracks(a, c)
  {
    var ab, bc := b.outputs[|a.outputs|..], c.outputs[|b.outputs|..];
    NewOutputs(a.outputs, b.outputs, c.outputs);
    FixEventsConcat(ab, bc);
    var e, f := FixEvents(ab), FixEvents(bc);
    hide FixEvents, Alternates;
    AlternatesConcat(e, f, a.lastFix == 0, b.lastFix == 0);
    assert e + f == [] <==> e == [] && f == [];
    assert f != [] ==> (e + f)[|e + f| - 1] == f[|f| - 1];
  }

  lemma TracksReflexive(r: Receiver)
    ensures Tracks(r, r)
  {
    assert r.outputs[|r.outputs|..] == [];
  }

  lemma EventKind(quality: nat, sats: nat, lastFix: nat)
    ensures FixEvents(FixEvent(quality, sats, lastFix)) ==
            (if (quality > 0) == (lastFix > 0) then [] else [quality > 0])
  {
    var event := FixEvent(quality, sats, lastFix);
    if event != [] {
      assert event[..0] == [];
    }
  }

  // Outputs around one fix event contribute nothing.
  lemma OneFixEvent(r: Receiver, r': Receiver, head: seq<Output>, quality: nat, sats: nat, tail: seq<Output>)
    requires r'.outputs == r.outputs + head + FixEvent(quality, sats, r.lastFix) + tail && r'.lastFix == quality
    requires FixEvents(head) == [] && FixEvents(tail) == []
    ensures Tracks(r, r')
  {
    var event := FixEvent(quality, sats, r.lastFix);
    EventKind(quality, sats, r.lastFix);
    hide FixEvents, FixEvent;
    assert r'.outputs[|r.outputs|..] == head + event + tail;
    FixEventsConcat(head, event);
    FixEventsConcat(head + event, tail);
    assert [] + FixEvents(event) + [] == FixEvents(event);
  }

  lemma DiagnosticsTrack(r: Receiver, r': Receiver)
    requires OnlyDiagnostics(r, r')
    ensures Tracks(r, r')
  {
    NoFixEvents(r'.outputs[|r.outputs|..]);
  }

  lemma HandleTracks(r: Receiver, e: LineAssembler.Event)
    ensures Tracks(r, Handle(r, e))
  {
    hide ProcessLine, IsGga, NmeaChecksum.Accepts, Tracks, FixEvent, UtcHms, Fields, ParseFix, UpToNul;
    var r' := Handle(r, e);
    if e.Line? && e.text != "" && AcceptedLine(e.text) {
      LineOutputs(r, e.text);
      var fix := ParseFix(Fields(UpToNul(e.text)));
      var head := [UtcTime(UtcHms(Fields(UpToNul(e.text))[1]))] + Published(fix);
      NoFixEvents(head);
      NoFixEvents([SentenceCount(r'.count)]);
      assert r.outputs + head == r.outputs + [head[0]] + Published(fix);
      OneFixEvent(r, r', head, fix.quality, fix.sats, [SentenceCount(r'.count)]);
    } else {
      if e.Line? && e.text != "" {
        LineOutputs(r, e.text);
      }
      DiagnosticsTrack(r, r');
    }
  }

  lemma {:induction false} HandleAllTracks(r: Receiver, es: seq<LineAssembler.Event>)
    ensures Tracks(r, HandleAll(r, es))
  {
    if es == [] {
      TracksReflexive(r);
    } else {
      var before := HandleAll(r, es[..|es| - 1]);
      HandleAllTracks(r, es[..|es| - 1]);
      HandleTracks(before, es[|es| - 1]);
      TracksTransitive(r, before, HandleAll(r, es));
    }
  }

  // ---- Runs with commands

  datatype Op = Drain(bytes: string) | Reset | SetEnabled(enabled: bool)

  datatype System = System(gps: Gps, enabled: bool)

  function Apply(s: System, op: Op): System {
    match op
    case Drain(bytes) => if s.enabled then s.(gps := Receive(s.gps, bytes)) else s
    case Reset => s.(gps := Gps("", s.gps.core.(lastFix := 0)))
    case SetEnabled(enabled) => s.(enabled := enabled)
  }

  function Run(s: System, ops: seq<Op>): System {
    if ops == [] then s else Apply(Run(s, ops[..|ops| - 1]), ops[|ops| - 1])
  }

  // Over every run without a reset, fix events strictly alternate and agree with the fix state.
  lemma {:induction false} FixEventsAlternate(s: System, ops: seq<Op>)
    requires Reset !in ops
    ensures Tracks(s.gps.core, Run(s, ops).gps.core)
  {
    if ops == [] {
      TracksReflexive(s.gps.core);
    } else {
      var before := Run(s, ops[..|ops| - 1]);
      FixEventsAlternate(s, ops[..|ops| - 1]);
      if ops[|ops| - 1].Drain? && before.enabled {
        var events := LineAssembler.Feed(LINE_BUF_SIZE, before.gps.line, ops[|ops| - 1].bytes).events;
        HandleAllTracks(before.gps.core, events);
      } else {
        TracksReflexive(before.gps.core);
      }
      TracksTransitive(s.gps.core, before.gps.core, Run(s, ops).gps.core);
    }
  }

  // After a reset, at any point of any run, the next fix event is an acquisition, and from there
  // on events alternate until the next reset.
  lemma FixEventsAfterReset(s: System, ops: seq<Op>, more: seq<Op>)
    requires Reset !in more
    ensures var reset := Apply(Run(s, ops), Reset);
            && reset.gps.core.outputs <= Run(reset, more).gps.core.outputs
            && Alternates(FixEvents(Run(reset, more).gps.core.outputs[|reset.gps.core.outputs|..]), true)
  {
    FixEventsAlternate(Apply(Run(s, ops), Reset), more);
  }

  // ---- Lines of other types

  // What the overruns among some events report: how many bytes the buffer held.
  function OverrunsIn(es: seq<LineAssembler.Event>): seq<Output> {
    if es == [] then []
    else
      OverrunsIn(es[..|es| - 1]) + (if es[|es| - 1].Overrun? then [UartOverrun(es[|es| - 1].length)] else [])
  }

  predicate Ignored(e: LineAssembler.Event) {
    e.Line? ==> OtherLine(e.text)
  }

  lemma HandleOther(r: Receiver, e: LineAssembler.Event)
    requires Ignored(e)
    ensures Handle(r, e) == Receiver(r.lastFix, r.count, r.outputs + if e.Overrun? then [UartOverrun(e.length)] else [])
  {
    hide ProcessLine, OtherLine;
    assert r.outputs + [] == r.outputs;
    if e.Line? {
      LineEffect(r, e.text);
    }
  }

  // Whatever lines of other types a stream holds, only its overruns are reported.
  lemma {:induction false} IgnoredEvents(r: Receiver, es: seq<LineAssembler.Event>)
    requires forall k :: 0 <= k < |es| ==> Ignored(es[k])
    ensures HandleAll(r, es) == Receiver(r.lastFix, r.count, r.outputs + OverrunsIn(es))
  {
    if es == [] {
      assert r.outputs + [] == r.outputs;
    } else {
      var before, last := es[..|es| - 1], es[|es| - 1];
      IgnoredEvents(r, before);
      HandleOther(HandleAll(r, before), last);
      hide Ignored, Handle;
      var now := if last.Overrun? then [UartOverrun(last.length)] else [];
      assert (r.outputs + OverrunsIn(before)) + now == r.outputs + (OverrunsIn(before) + now);
    }
  }

  // Complete lines that fit, each with its line end.
  function Lines(lines: seq<string>): string {
    if lines == [] then "" else lines[0] + "\r\n" + Lines(lines[1..])
  }

  predicate Whole(line: string) {
    |line| <= 99 && Free(line, '\n') && Free(line, '\r')
  }

  lemma WholeDelivered(line: string)
    requires Whole(line)
    ensures LineAssembler.Feed(LINE_BUF_SIZE, "", line + "\r\n") ==
            LineAssembler.Outcome("", [LineAssembler.Line(line)])
  {
    hide LineAssembler.Feed, LineAssembler.Stored;
    var n, text := |line|, line + "\r";
    LineAssembler.StoredPlain(line);
    LineAssembler.LineOutcome(LINE_BUF_SIZE, text);
    assert n % LINE_BUF_SIZE == n && n / LINE_BUF_SIZE == 0 && line[0..] == line;
    assert line + "\r\n" == text + "\n";
  }

  lemma WholeReceived(r: Receiver, line: string)
    requires Whole(line)
    ensures Receive(Gps("", r), line + "\r\n") == Gps("", if line == "" then r else ProcessLine(r, line))
  {
    WholeDelivered(line);
    hide ProcessLine, LineAssembler.Feed, Whole;
    HandleOne(r, [LineAssembler.Line(line)]);
  }

  lemma LeavesTrace(r: Receiver, line: string)
    requires !OtherLine(line)
    ensures |ProcessLine(r, line).outputs| > |r.outputs|
  {
    hide OtherLine, ProcessLine, NmeaChecksum.Accepts, ParseFix, Fields, UpToNul, UtcHms, AcceptedLine;
    LineEffect(r, line);
  }

  // Exactly which lines leave no trace: the short ones, those without the leading '$' and those whose
  // type is not GGA.
  lemma TracelessExactly(r: Receiver, line: string)
    requires Whole(line)
    ensures Receive(Gps("", r), line + "\r\n") == Gps("", r) <==>
            |line| < 6 || line[0] != '$' || line[3..6] != "GGA"
  {
    WholeReceived(r, line);
    assert OtherLine(line) <==> |line| < 6 || line[0] != '$' || line[3..6] != "GGA";
    assert line == "" ==> OtherLine(line);
    hide ProcessLine, Receive, Whole, OtherLine, NmeaChecksum.Accepts, ParseFix, Fields, UpToNul, UtcHms, AcceptedLine;
    if OtherLine(line) {
      LineEffect(r, line);
    } else {
      LeavesTrace(r, line);
    }
  }

  // Any number of them, and what follows is received as if they had not been there.
  lemma {:induction false} OtherLinesIgnored(r: Receiver, lines: seq<string>, rest: string)
    requires forall k :: 0 <= k < |lines| ==> Whole(lines[k]) && OtherLine(lines[k])
    ensures Receive(Gps("", r), Lines(lines) + rest) == Receive(Gps("", r), rest)
    decreases |lines|
  {
    if lines == [] {
      assert "" + rest == rest;
    } else {
      hide Receive, Whole;
      var line, more := lines[0], Lines(lines[1..]);
      TracelessExactly(r, line);
      assert Lines(lines) + rest == (line + "\r\n") + (more + rest);
      ReceiveConcat(Gps("", r), line + "\r\n", more + rest);
      OtherLinesIgnored(r, lines[1..], rest);
    }
  }

  function NinetyNines(k: nat): seq<Output> {
    seq(k, _ => UartOverrun(99))
  }

  lemma {:induction false} OverrunLengths(k: nat)
    ensures OverrunsIn(LineAssembler.Repeat(LineAssembler.Overrun(99), k)) == NinetyNines(k)
  {
    if k > 0 {
      OverrunLengths(k - 1);
      var es := LineAssembler.Repeat(LineAssembler.Overrun(99), k);
      assert es[..k - 1] == LineAssembler.Repeat(LineAssembler.Overrun(99), k - 1);
      assert NinetyNines(k) == NinetyNines(k - 1) + [UartOverrun(99)];
    }
  }

  // A line of any length, from an empty buffer: one overrun of 99 bytes for each 100 that are stored,
  // then whatever is left of the line.
  lemma LongLine(r: Receiver, line: string)
    requires Free(line, '\n')
    ensures var t := LineAssembler.Stored(line);
            var k, left := |t| / 100, t[|t| - |t| % 100..];
            && OverrunsIn(LineAssembler.Repeat(LineAssembler.Overrun(99), k)) == NinetyNines(k)
            && Receive(Gps("", r), line + "\n") ==
               Gps("", Handle(Receiver(r.lastFix, r.count, r.outputs + NinetyNines(k)), LineAssembler.Line(left)))
  {
    hide Handle, LineAssembler.Feed, LineAssembler.Stored;
    LineAssembler.LineOutcome(LINE_BUF_SIZE, line);
    var t := LineAssembler.Stored(line);
    var k, left := |t| / 100, t[|t| - |t| % 100..];
    var es := LineAssembler.Repeat(LineAssembler.Overrun(99), k);
    OverrunLengths(k);
    IgnoredEvents(r, es);
    HandleAllConcat(r, es, [LineAssembler.Line(left)]);
    HandleOne(HandleAll(r, es), [LineAssembler.Line(left)]);
  }

  // ---- Joining in mid-sentence

  lemma {:induction false} FeedFree(size: nat, buffer: string, s: string, c: char)
    requires size >= 1 && Free(buffer, c) && Free(s, c)
    ensures var o := LineAssembler.Feed(size, buffer, s);
            Free(o.buffer, c) && forall k :: 0 <= k < |o.events| ==> (o.events[k].Line? ==> Free(o.events[k].text, c))
  {
    if s != "" {
      FeedFree(size, buffer, s[..|s| - 1], c);
    }
  }

  // A receiver whose buffer holds no '$' counts and publishes nothing until a '$' arrives: at most
  // overruns are reported. In particular the rest of a sentence whose beginning a reset threw away.
  lemma NothingWithoutDollar(g: Gps, s: string)
    requires Free(g.line, '$') && Free(s, '$')
    ensures var events := LineAssembler.Feed(LINE_BUF_SIZE, g.line, s).events;
            var g' := Receive(g, s);
            && Free(g'.line, '$')
            && g'.core == Receiver(g.core.lastFix, g.core.count, g.core.outputs + OverrunsIn(events))
  {
    FeedFree(LINE_BUF_SIZE, g.line, s, '$');
    hide LineAssembler.Feed;
    IgnoredEvents(g.core, LineAssembler.Feed(LINE_BUF_SIZE, g.line, s).events);
  }

  // A reset in the middle of a sentence with a single, leading '$': the remaining part and its
  // line end leave no trace at all, and the assembler is synchronised.
  lemma CutSentenceIgnored(before: System, sentence: string, k: nat)
    requires before.enabled && 0 < k <= |sentence| && Whole(sentence)
    requires Free(sentence[1..], '$')
    ensures var reset := Apply(before, Reset);
            Apply(reset, Drain(sentence[k..] + "\r\n")) == reset
  {
    var reset, rest := Apply(before, Reset), sentence[k..];
    assert forall i :: 0 <= i < |rest| ==> rest[i] == sentence[1..][i + k - 1];
    hide Receive;
    TracelessExactly(reset.gps.core, rest);
  }
}
