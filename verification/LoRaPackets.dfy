/** The packets the LoRa driver receives: which lines of a stream are counted, and which packets a
    leftover reply spoils. */
module LoRaPackets {
  import opened MachineWords
  import opened Text
  import opened AtCommands
  import opened LoRaModel
  import opened LoRaLink
  import opened LoRaStart
  import opened LoRaRuns
  import RcvParser
  import LineAssembler

  // ---- Counting

  lemma ModAtMost(n: nat, m: nat)
    requires m > 0
    ensures n % m <= n
  {
    if n < m {
      DivModUnique(n, m, 0, n);
    }
  }

  // What is left of a line in the buffer when its newline arrives: an overrun throws away 127
  // stored bytes and the one that found the buffer full.
  function Tail(line: string): string {
    var t := LineAssembler.Stored(line);
    LineAssembler.DivModSuccessor(|t|, AT_BUF_SIZE);
    ModAtMost(|t|, AT_BUF_SIZE);
    t[|t| - |t| % AT_BUF_SIZE..]
  }

  // The number of packet lines among the completed lines of a stream.
  function PacketsIn(s: string): nat
    decreases |s|
  {
    var p := IndexOf(s, '\n', 0);
    if p == |s| then 0
    else (if RcvParser.PacketOf(Tail(s[..p])).Packet? then 1 else 0) + PacketsIn(s[p + 1..])
  }

  // n overruns in a row.
  function Overruns(n: nat): seq<LineAssembler.Event> {
    LineAssembler.Repeat(LineAssembler.Overrun(AT_BUF_SIZE - 1), n)
  }

  lemma {:induction false} OverrunsDoNotCount(r: Radio, n: nat)
    ensures HandleAll(r, Overruns(n)).rxCount == r.rxCount
  {
    if n > 0 {
      OverrunsDoNotCount(r, n - 1);
      assert Overruns(n)[..n - 1] == Overruns(n - 1);
    }
  }

  lemma LineEvents(line: string) returns (n: nat)
    requires Free(line, '\n')
    ensures n == |LineAssembler.Stored(line)| / AT_BUF_SIZE
    ensures LineAssembler.Feed(AT_BUF_SIZE, "", line + "\n") ==
            LineAssembler.Outcome("", Overruns(n) + [LineAssembler.Line(Tail(line))])
  {
    n := |LineAssembler.Stored(line)| / AT_BUF_SIZE;
    LineAssembler.LineOutcome(AT_BUF_SIZE, line);
    hide LineAssembler.Feed, LineAssembler.Stored, LineAssembler.Repeat;
  }

  lemma LastLine(r: Radio, n: nat, text: string)
    ensures HandleAll(r, Overruns(n) + [LineAssembler.Line(text)]) == PacketLine(HandleAll(r, Overruns(n)), text)
  {
    hide PacketLine, HandleAll, Overruns;
    HandleAllConcat(r, Overruns(n), [LineAssembler.Line(text)]);
    HandleOne(HandleAll(r, Overruns(n)), [LineAssembler.Line(text)]);
  }

  lemma PacketLineCounts(r: Radio, text: string)
    requires r.rxCount < TWO_TO_32
    ensures PacketLine(r, text).rxCount == (r.rxCount + if RcvParser.PacketOf(text).Packet? then 1 else 0) % TWO_TO_32
  {
    hide RcvParser.PacketOf;
  }

  // One line of any length.
  lemma LineCounts(r: Radio, line: string)
    requires Free(line, '\n') && r.rxCount < TWO_TO_32
    ensures var es := LineAssembler.Feed(AT_BUF_SIZE, "", line + "\n").events;
            HandleAll(r, es).rxCount ==
            (r.rxCount + if RcvParser.PacketOf(Tail(line)).Packet? then 1 else 0) % TWO_TO_32
  {
    hide RcvParser.PacketOf, PacketLine, Tail, HandleAll, Overruns, LineAssembler.Feed;
    var n := LineEvents(line);
    LastLine(r, n, Tail(line));
    OverrunsDoNotCount(r, n);
    PacketLineCounts(HandleAll(r, Overruns(n)), Tail(line));
  }

  lemma PartialCountsNothing(r: Radio, s: string)
    requires Free(s, '\n')
    ensures HandleAll(r, LineAssembler.Feed(AT_BUF_SIZE, "", s).events).rxCount == r.rxCount
  {
    LineAssembler.ClosedForm(AT_BUF_SIZE, s);
    hide LineAssembler.Feed, LineAssembler.Stored, HandleAll, LineAssembler.Repeat;
    OverrunsDoNotCount(r, |LineAssembler.Stored(s)| / AT_BUF_SIZE);
  }

  lemma UnfinishedLine(r: Radio, s: string)
    requires Free(s, '\n') && r.rxCount < TWO_TO_32
    ensures PacketsIn(s) == 0 && Receive(Rx("", r), s).radio.rxCount == r.rxCount % TWO_TO_32
  {
    hide RcvParser.PacketOf, Tail, HandleAll;
    PartialCountsNothing(r, s);
  }

  lemma SumWraps(a: nat, one: nat, later: nat, mid: nat, total: nat)
    requires mid == (a + one) % TWO_TO_32 && total == one + later
    ensures (mid + later) % TWO_TO_32 == (a + total) % TWO_TO_32
  {
    WrapTwice(a + one, later);
  }

  lemma PacketsFirst(s: string) returns (one: nat)
    requires IndexOf(s, '\n', 0) < |s|
    ensures var p := IndexOf(s, '\n', 0);
            one == (if RcvParser.PacketOf(Tail(s[..p])).Packet? then 1 else 0)
            && PacketsIn(s) == one + PacketsIn(s[p + 1..])
  {
    hide RcvParser.PacketOf, Tail;
    one := if RcvParser.PacketOf(Tail(s[..IndexOf(s, '\n', 0)])).Packet? then 1 else 0;
  }

  lemma FirstLine(r: Radio, line: string, rest: string) returns (mid: Radio)
    requires Free(line, '\n') && r.rxCount < TWO_TO_32
    ensures mid.rxCount == (r.rxCount + if RcvParser.PacketOf(Tail(line)).Packet? then 1 else 0) % TWO_TO_32
    ensures Receive(Rx("", r), line + "\n" + rest) == Receive(Rx("", mid), rest)
  {
    LineAssembler.FeedLine(AT_BUF_SIZE, line, rest);
    LineCounts(r, line);
    hide RcvParser.PacketOf, Tail, HandleAll, LineAssembler.Feed;
    var es := LineAssembler.Feed(AT_BUF_SIZE, "", line + "\n").events;
    mid := HandleAll(r, es);
    HandleAllConcat(r, es, LineAssembler.Feed(AT_BUF_SIZE, "", rest).events);
  }

  // Over every stream that starts with an empty buffer, the poller counts exactly the packet lines.
  lemma {:induction false} CountsPackets(r: Radio, s: string)
    requires r.rxCount < TWO_TO_32
    ensures Receive(Rx("", r), s).radio.rxCount == (r.rxCount + PacketsIn(s)) % TWO_TO_32
    decreases |s|
  {
    hide RcvParser.PacketOf, Tail, HandleAll, Receive, PacketsIn;
    var p := IndexOf(s, '\n', 0);
    if p == |s| {
      UnfinishedLine(r, s);
    } else {
      var line, rest := s[..p], s[p + 1..];
      assert s == line + "\n" + rest;
      var one := PacketsFirst(s);
      var mid := FirstLine(r, line, rest);
      CountsPackets(mid, rest);
      SumWraps(r.rxCount, one, PacketsIn(rest), mid.rxCount, PacketsIn(s));
    }
  }

  // One scheduling round: bytes arrive and the poller drains.
  function Polls(d: Driver, batches: seq<string>): Driver
    decreases |batches|
  {
    if batches == [] then d
    else Polls(SchedIn(d.(link := d.link.(rx := d.link.rx + batches[0]))), batches[1..])
  }

  lemma RoundConsumes(d: Driver) returns (c: string)
    requires d.state == Ready
    ensures var d' := SchedIn(d);
            && d'.state == Ready && c + d'.link.rx == d.link.rx && RxOf(d') == Receive(RxOf(d), c)
            && |c| == if |d.link.rx| < 256 then |d.link.rx| else 256
  {
    hide Receive;
    c := Prefix(d.link.rx, DRAIN_LIMIT);
  }

  // k rounds without arrivals.
  function Quiet(k: nat): seq<string> {
    seq(k, _ => "")
  }

  lemma LaterRounds(rx: string, c: string, after: string, k: nat)
    requires c + after == rx && |c| == (if |rx| < 256 then |rx| else 256) && k > 0
    ensures (if |after| <= 256 * (k - 1) then "" else after[256 * (k - 1)..]) ==
            (if |rx| <= 256 * k then "" else rx[256 * k..])
  {
    if |rx| > 256 * k {
      assert rx[256..] == after && rx[256 * k..] == rx[256..][256 * (k - 1)..];
    }
  }

  // k rounds take 256 bytes each as long as there are any, so they empty the ring exactly when it holds
  // at most 256 k; and only a ready driver takes any.
  lemma {:induction false} RoundsDrain(d: Driver, k: nat)
    ensures d.state != Ready ==> Polls(d, Quiet(k)) == d
    ensures d.state == Ready ==>
              Polls(d, Quiet(k)).link.rx == if |d.link.rx| <= 256 * k then "" else d.link.rx[256 * k..]
    decreases k
  {
    if k > 0 {
      assert Quiet(k)[1..] == Quiet(k - 1);
      assert d.link.rx + Quiet(k)[0] == d.link.rx && d.(link := d.link.(rx := d.link.rx)) == d;
      assert Polls(d, Quiet(k)) == Polls(SchedIn(d), Quiet(k - 1));
      hide Polls, Quiet;
      RoundsDrain(SchedIn(d), k - 1);
      if d.state == Ready {
        var c := RoundConsumes(d);
        LaterRounds(d.link.rx, c, SchedIn(d).link.rx, k);
      }
    }
  }

  lemma JoinConsumed(first: string, later: string, mid: string, after: string, rx: string, batches: seq<string>)
    requires batches != [] && first + mid == rx + batches[0] && later + after == mid + Concat(batches[1..])
    ensures (first + later) + after == rx + Concat(batches)
  {
    var rest := Concat(batches[1..]);
    assert (first + later) + after == first + (later + after);
    assert first + (mid + rest) == (first + mid) + rest;
    assert (rx + batches[0]) + rest == rx + (batches[0] + rest);
  }

  // Rounds consume a beginning of the stream, and only its bytes matter, not how rounds cut it.
  lemma {:induction false} PollsConsume(d: Driver, batches: seq<string>) returns (c: string)
    requires d.state == Ready
    ensures var d' := Polls(d, batches);
            && d'.state == Ready && c + d'.link.rx == d.link.rx + Concat(batches)
            && RxOf(d') == Receive(RxOf(d), c)
    decreases |batches|
  {
    if batches == [] {
      c := "";
      assert RxOf(d) == Receive(RxOf(d), "");
    } else {
      hide Receive, SchedIn;
      var arrived := d.(link := d.link.(rx := d.link.rx + batches[0]));
      var first := RoundConsumes(arrived);
      var later := PollsConsume(SchedIn(arrived), batches[1..]);
      c := first + later;
      ReceiveConcat(RxOf(d), first, later);
      JoinConsumed(first, later, SchedIn(arrived).link.rx, Polls(d, batches).link.rx, d.link.rx, batches);
    }
  }

  // ---- What an AT exchange leaves in the buffer

  // In every reachable state the buffer holds less than 128 bytes without CR and newline, and the
  // packet counter is a 32-bit word.
  predicate DriverInv(d: Driver) {
    LineAssembler.Bufferable(AT_BUF_SIZE, d.link.line) && d.rxCount < TWO_TO_32
  }

  lemma ReplyIsBufferable(l: Link, arrivals: seq<string>)
    ensures LineAssembler.Bufferable(AT_BUF_SIZE, ReadLine(l, arrivals).0.line)
  {
    hide ReadOn, LineAssembler.Stored;
    var turns, c, p := ReplyLoop(l.(line := ""), arrivals);
    var w := if p == Complete then c[..|c| - 1] else c;
    assert "" + LineAssembler.Stored(w) == LineAssembler.Stored(w);
    LineAssembler.StoredIsClean(w);
  }

  lemma CommandIsBufferable(l: Link, cmd: string, e: Exchange)
    requires LineAssembler.Bufferable(AT_BUF_SIZE, l.line)
    ensures LineAssembler.Bufferable(AT_BUF_SIZE, LoRaModel.SendAT(l, cmd, e).0.line)
  {
    hide ReadLine, CommandText, LineAssembler.Bufferable;
    ReplyIsBufferable(Transmit(l, CommandText(cmd), e).0, e.arrivals);
  }

  lemma {:induction false} ProbeIsBufferable(l: Link, env: Env, attempt: nat)
    requires attempt <= INIT_RETRIES && LineAssembler.Bufferable(AT_BUF_SIZE, l.line)
    ensures LineAssembler.Bufferable(AT_BUF_SIZE, Probe(l, env, attempt).0.line)
    decreases INIT_RETRIES - attempt
  {
    hide LoRaModel.SendAT, LineAssembler.Bufferable;
    if attempt < INIT_RETRIES {
      CommandIsBufferable(l, "AT", env[attempt]);
      ProbeIsBufferable(LoRaModel.SendAT(l, "AT", env[attempt]).0, env, attempt + 1);
    }
  }

  lemma {:induction false} SetUpIsBufferable(l: Link, env: Env, k: nat)
    requires k <= |SETUP| && LineAssembler.Bufferable(AT_BUF_SIZE, l.line)
    ensures LineAssembler.Bufferable(AT_BUF_SIZE, SetUp(l, env, k).0.line)
    decreases |SETUP| - k
  {
    hide LoRaModel.SendAT, LineAssembler.Bufferable;
    if k < |SETUP| {
      CommandIsBufferable(l, SETUP[k], env[INIT_RETRIES + k]);
      SetUpIsBufferable(LoRaModel.SendAT(l, SETUP[k], env[INIT_RETRIES + k]).0, env, k + 1);
    }
  }

  lemma StartIsBufferable(d: Driver, env: Env)
    requires LineAssembler.Bufferable(AT_BUF_SIZE, d.link.line)
    ensures LineAssembler.Bufferable(AT_BUF_SIZE, Restart(d, env).0.link.line)
  {
    hide Probe, SetUp, LineAssembler.Bufferable;
    ProbeIsBufferable(d.link, env, 0);
    SetUpIsBufferable(Probe(d.link, env, 0).0, env, 0);
  }

  lemma SendIsBufferable(d: Driver, payload: string, e: Exchange)
    requires LineAssembler.Bufferable(AT_BUF_SIZE, d.link.line)
    ensures LineAssembler.Bufferable(AT_BUF_SIZE, DataIn(d, payload, e).link.line)
  {
    hide Frame, ReadLine, LineAssembler.Bufferable;
    ReplyIsBufferable(Transmit(d.link, Frame(payload), e).0, e.arrivals);
  }

  lemma {:induction false} HandleAllCount(r: Radio, es: seq<LineAssembler.Event>)
    requires r.rxCount < TWO_TO_32
    ensures HandleAll(r, es).rxCount < TWO_TO_32
  {
    if es != [] {
      hide RcvParser.PacketOf;
      HandleAllCount(r, es[..|es| - 1]);
    }
  }

  lemma PollKeepsInv(d: Driver)
    requires DriverInv(d)
    ensures DriverInv(SchedIn(d))
  {
    hide HandleAll, LineAssembler.Feed, LineAssembler.Bufferable;
    var s := d.link.rx[..if |d.link.rx| < DRAIN_LIMIT then |d.link.rx| else DRAIN_LIMIT];
    LineAssembler.FeedBufferable(AT_BUF_SIZE, d.link.line, s);
    HandleAllCount(RxOf(d).radio, LineAssembler.Feed(AT_BUF_SIZE, d.link.line, s).events);
  }

  lemma StartKeepsCount(d: Driver, env: Env)
    ensures Restart(d, env).0.rxCount == d.rxCount
  {
    hide InitModule;
  }

  lemma SendKeepsCount(d: Driver, payload: string, e: Exchange)
    ensures DataIn(d, payload, e).rxCount == d.rxCount
  {
    hide Frame, Transmit, ReadLine;
  }

  lemma StepKeepsInv(d: Driver, op: Op)
    requires DriverInv(d)
    ensures DriverInv(Apply(d, op))
  {
    hide Restart, DataIn, LoRaModel.SendAT, SchedIn, LineAssembler.Bufferable;
    match op {
      case Start(env) =>
        StartIsBufferable(d, env);
        StartKeepsCount(d, env);
      case Send(payload, e) =>
        SendIsBufferable(d, payload, e);
        SendKeepsCount(d, payload, e);
      case RawCommand(cmd, e) => CommandIsBufferable(d.link, cmd, e);
      case Sched => PollKeepsInv(d);
      case Arrive(_) =>
    }
  }

  lemma {:induction false} RunsKeepInv(ops: seq<Op>)
    ensures DriverInv(Run(ops))
  {
    if ops != [] {
      hide Apply;
      RunsKeepInv(ops[..|ops| - 1]);
      StepKeepsInv(Run(ops[..|ops| - 1]), ops[|ops| - 1]);
    }
  }

  // ---- Counting over every run

  // The poller treats what an AT exchange left in the buffer as text received just before.
  lemma LeftoverIsPrefix(r: Radio, t: string, s: string)
    requires LineAssembler.Bufferable(AT_BUF_SIZE, t)
    ensures Receive(Rx(t, r), s) == Receive(Rx("", r), t + s)
  {
    hide HandleAll, LineAssembler.Feed, LineAssembler.Bufferable;
    LineAssembler.FeedPrefix(AT_BUF_SIZE, t, s);
  }

  // From any ready state, over any polling rounds: the packet counter rises by exactly the number of
  // packet lines in what the buffer held followed by the bytes drained.
  lemma PollsCount(d: Driver, batches: seq<string>) returns (c: string)
    requires DriverInv(d) && d.state == Ready
    ensures c + Polls(d, batches).link.rx == d.link.rx + Concat(batches)
    ensures RxOf(Polls(d, batches)) == Receive(Rx("", RxOf(d).radio), d.link.line + c)
    ensures Polls(d, batches).rxCount == (d.rxCount + PacketsIn(d.link.line + c)) % TWO_TO_32
  {
    hide PacketsIn, Polls, Receive, LineAssembler.Bufferable;
    c := PollsConsume(d, batches);
    LeftoverIsPrefix(RxOf(d).radio, d.link.line, c);
    CountsPackets(RxOf(d).radio, d.link.line + c);
  }

  // The same after every run of the driver that ends ready.
  lemma PollerCounts(ops: seq<Op>, batches: seq<string>) returns (c: string)
    requires Run(ops).state == Ready
    ensures var d := Run(ops);
            var d' := Polls(d, batches);
            && c + d'.link.rx == d.link.rx + Concat(batches)
            && d'.rxCount == (d.rxCount + PacketsIn(d.link.line + c)) % TWO_TO_32
  {
    hide Run, Polls, PacketsIn, DriverInv, Receive;
    RunsKeepInv(ops);
    c := PollsCount(Run(ops), batches);
  }

  lemma OneLinePackets(line: string)
    requires Free(line, '\n')
    ensures PacketsIn(line + "\n") == if RcvParser.PacketOf(Tail(line)).Packet? then 1 else 0
  {
    hide RcvParser.PacketOf, Tail;
    var s := line + "\n";
    IndexOfUnique(s, '\n', 0, |line|);
    assert s[..|line|] == line && s[|line| + 1..] == "";
  }

  // The next line that a ready driver polls, in any number of rounds, is counted if and only if what
  // the buffer held, followed by the line, is a packet line once the overruns are gone.
  lemma NextLineCounted(d: Driver, batches: seq<string>, w: string)
    requires DriverInv(d) && d.state == Ready && Free(w, '\n')
    requires d.link.rx + Concat(batches) == w + "\n" && Polls(d, batches).link.rx == ""
    ensures Polls(d, batches).rxCount != d.rxCount <==> RcvParser.PacketOf(Tail(d.link.line + w)).Packet?
    ensures RcvParser.PacketOf(Tail(d.link.line + w)).Packet? ==>
              Polls(d, batches).rxCount == (d.rxCount + 1) % TWO_TO_32
  {
    FreeConcat(d.link.line, w, '\n');
    hide PacketsIn, Polls, RcvParser.PacketOf, Tail, Receive;
    var c := PollsCount(d, batches);
    assert c + "" == c;
    assert d.link.line + (w + "\n") == (d.link.line + w) + "\n";
    OneLinePackets(d.link.line + w);
    NextDiffers(d.rxCount);
    assert (d.rxCount + 0) % TWO_TO_32 == d.rxCount;
  }

  // ---- The stale reply

  // In front of a packet line, leftover text that is not itself a packet line spoils it.
  lemma LeftoverSpoils(t: string, s: string)
    requires t != "" && RcvParser.IsRcv(s)
    ensures RcvParser.IsRcv(t + s) <==> RcvParser.IsRcv(t)
  {
    assert s[0] == s[..5][0] == '+';
    if |t| < 5 {
      assert (t + s)[..5][|t|] == '+';
    } else {
      assert (t + s)[..5] == t[..5];
    }
  }

  lemma ShortTail(t: string, w: string)
    requires LineAssembler.Bufferable(AT_BUF_SIZE, t) && |t| + |LineAssembler.Stored(w)| < AT_BUF_SIZE
    ensures Tail(t + w) == t + LineAssembler.Stored(w)
  {
    LineAssembler.StoredPlain(t);
    LineAssembler.StoredConcat(t, w);
    var n := |t + LineAssembler.Stored(w)|;
    DivModUnique(n, AT_BUF_SIZE, 0, n);
    hide LineAssembler.Stored;
    assert (t + LineAssembler.Stored(w))[0..] == t + LineAssembler.Stored(w);
  }

  // A packet that follows a reply left in the buffer and fits behind it is not counted, unless the
  // reply was itself a packet line.
  lemma StaleReplyLosesPacket(d: Driver, batches: seq<string>, w: string)
    requires DriverInv(d) && d.state == Ready && Free(w, '\n')
    requires d.link.rx + Concat(batches) == w + "\n" && Polls(d, batches).link.rx == ""
    requires d.link.line != "" && !RcvParser.IsRcv(d.link.line)
    requires RcvParser.IsRcv(LineAssembler.Stored(w)) && |d.link.line| + |LineAssembler.Stored(w)| < AT_BUF_SIZE
    ensures Polls(d, batches).rxCount == d.rxCount
  {
    ShortTail(d.link.line, w);
    LeftoverSpoils(d.link.line, LineAssembler.Stored(w));
    hide Polls, Tail, RcvParser.IsRcv, LineAssembler.Stored, LineAssembler.Bufferable;
    NextLineCounted(d, batches, w);
  }

  lemma {:induction false} SetUpLeavesReply(l: Link, env: Env, k: nat)
    requires k < |SETUP| && SetUp(l, env, k).1
    ensures StartsOk(SetUp(l, env, k).0.line)
    decreases |SETUP| - k
  {
    SetUpFirst(l, env, k);
    var after := LoRaModel.SendAT(l, SETUP[k], env[INIT_RETRIES + k]).0;
    if k + 1 < |SETUP| {
      SetUpLeavesReply(after, env, k + 1);
    }
  }

  // Every successful initialisation leaves an accepting reply in the buffer, and the first line
  // polled after it is counted if and only if that reply followed by the line is a packet line.
  lemma FirstLineAfterStart(ops: seq<Op>, env: Env, batches: seq<string>, w: string)
    requires Restart(Run(ops), env).1 && Free(w, '\n')
    requires var d := Restart(Run(ops), env).0;
             d.link.rx + Concat(batches) == w + "\n" && Polls(d, batches).link.rx == ""
    ensures var d := Restart(Run(ops), env).0;
            && d.state == Ready && StartsOk(d.link.line)
            && (Polls(d, batches).rxCount != d.rxCount <==> RcvParser.PacketOf(Tail(d.link.line + w)).Packet?)
  {
    hide LoRaModel.SendAT, SetUp, Probe, Polls, RcvParser.PacketOf, Tail, Run, LineAssembler.Bufferable, StartsOk;
    var d := Run(ops);
    RunsKeepInv(ops);
    SetUpLeavesReply(Probe(d.link, env, 0).0, env, 0);
    StartIsBufferable(d, env);
    NextLineCounted(Restart(d, env).0, batches, w);
  }
}
