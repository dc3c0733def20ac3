/** Whole runs of the LoRa driver: the module state, the transmit counters, and the frames on the wire. */
module LoRaRuns {
  import opened MachineWords
  import opened AtCommands
  import opened LoRaModel
  import opened LoRaLink
  import opened LoRaStart
  import opened Text
  import opened Decimal

  // What the framework, the ground and the interrupts make the driver do.
  datatype Op =
    | Start(env: Env)
    | Send(payload: string, e: Exchange)
    | RawCommand(cmd: string, e: Exchange)
    | Sched
    | Arrive(bytes: string)

  function Apply(d: Driver, op: Op): Driver {
    match op
    case Start(env) => Restart(d, env).0
    case Send(payload, e) => DataIn(d, payload, e)
    case RawCommand(cmd, e) => d.(link := LoRaModel.SendAT(d.link, cmd, e).0)
    case Sched => SchedIn(d)
    case Arrive(bytes) => d.(link := d.link.(rx := d.link.rx + bytes))
  }

  const INITIAL: Driver := Driver(Uninit, Link("", "", "", []), 0, 0, 0)

  function Run(ops: seq<Op>): Driver {
    if ops == [] then INITIAL else Apply(Run(ops[..|ops| - 1]), ops[|ops| - 1])
  }

  // ---- The module state

  // The position of the latest initialisation, or |ops| when there was none.
  function LatestStart(ops: seq<Op>): (i: nat)
    ensures i <= |ops|
    ensures i < |ops| ==> ops[i].Start? && forall j :: i < j < |ops| ==> !ops[j].Start?
    ensures i == |ops| ==> forall j :: 0 <= j < |ops| ==> !ops[j].Start?
  {
    if ops == [] then 0
    else if ops[|ops| - 1].Start? then |ops| - 1
    else
      var i := LatestStart(ops[..|ops| - 1]);
      if i == |ops| - 1 then |ops| else i
  }

  // One packet adds exactly one to exactly one of the two counters.
  lemma SendCounts(d: Driver, payload: string, e: Exchange)
    ensures var d' := SendPacket(d, payload, e);
            && d'.state == d.state && d'.rxCount == d.rxCount
            && ((d'.txCount == (d.txCount + 1) % TWO_TO_32 && d'.txErrors == d.txErrors)
                || (d'.txCount == d.txCount && d'.txErrors == (d.txErrors + 1) % TWO_TO_32))
  {
    hide Transmit, ReadLine, Frame;
  }

  lemma OnlyStartsSetState(d: Driver, op: Op)
    ensures !op.Start? ==> Apply(d, op).state == d.state
    ensures op.Start? ==> Apply(d, op).state == if InitModule(d.link, op.env).1 then Ready else Failed
  {
    hide InitModule, LoRaModel.SendAT, Receive, SendPacket, Frame;
    if op.Send? {
      SendCounts(d, op.payload, op.e);
    }
  }

  // The module is ready exactly when the latest initialisation succeeded, failed exactly when it
  // did not, and uninitialised exactly when there was none.
  lemma {:induction false} StateIsLatestStart(ops: seq<Op>)
    ensures var i := LatestStart(ops);
            Run(ops).state ==
              if i == |ops| then Uninit
              else if InitModule(Run(ops[..i]).link, ops[i].env).1 then Ready else Failed
  {
    if ops != [] {
      var before, op := ops[..|ops| - 1], ops[|ops| - 1];
      StateIsLatestStart(before);
      OnlyStartsSetState(Run(before), op);
      hide InitModule, Apply;
      var i := LatestStart(ops);
      if i < |ops| {
        assert ops[..i] == before[..i];
      }
    }
  }

  // A ready module has been through the whole set-up: what its latest initialisation wrote.
  lemma ReadyWasSetUp(ops: seq<Op>) returns (i: nat, tries: seq<string>)
    requires Run(ops).state == Ready
    ensures i < |ops| && ops[i].Start? && |tries| < INIT_RETRIES
    ensures forall j :: 0 <= j < |tries| ==> tries[j] <= "AT\r\n"
    ensures Run(ops[..i + 1]).link.wire ==
            Run(ops[..i]).link.wire + Concat(tries) + "AT\r\n" +
            Lines(["AT+RESET", "AT+BAND=868000000", "AT+PARAMETER=9,7,1,12", "AT+ADDRESS=1", "AT+NETWORKID=6",
                   "AT+CRFOP=14"])
  {
    StateIsLatestStart(ops);
    i := LatestStart(ops);
    hide LoRaModel.SendAT, InitModule, Lines;
    var d := Run(ops[..i]);
    var k, before, ls;
    tries, k, before, ls := InitTranscript(d.link, ops[i].env);
    assert ops[..i + 1][..i] == ops[..i];
    assert Run(ops[..i + 1]) == Apply(d, ops[i]);
  }

  // ---- The transmit counters

  predicate Transmits(d: Driver, op: Op) {
    d.state == Ready && op.Send? && |op.payload| <= PAYLOAD_MAX
  }

  lemma OthersDoNotCount(d: Driver, op: Op)
    requires !Transmits(d, op)
    ensures Apply(d, op).txCount == d.txCount && Apply(d, op).txErrors == d.txErrors
  {
    hide InitModule, LoRaModel.SendAT, Receive, SendPacket;
  }

  function Transmissions(ops: seq<Op>): nat {
    if ops == [] then 0
    else
      var before := ops[..|ops| - 1];
      Transmissions(before) + if Transmits(Run(before), ops[|ops| - 1]) then 1 else 0
  }

  lemma WrapNext(x: nat)
    ensures (x % TWO_TO_32 + 1) % TWO_TO_32 == (x + 1) % TWO_TO_32
  {
    WrapTwice(x, 1);
  }

  lemma CounterStep(d: Driver, op: Op, n: nat, m: nat) returns (sent: nat, errors: nat)
    requires d.txCount == n % TWO_TO_32 && d.txErrors == m % TWO_TO_32
    ensures sent + errors == n + m + if Transmits(d, op) then 1 else 0
    ensures Apply(d, op).txCount == sent % TWO_TO_32 && Apply(d, op).txErrors == errors % TWO_TO_32
  {
    WrapNext(n);
    WrapNext(m);
    sent, errors := n, m;
    hide SendPacket;
    if Transmits(d, op) {
      SendCounts(d, op.payload, op.e);
      if Apply(d, op).txErrors == d.txErrors {
        sent := n + 1;
      } else {
        errors := m + 1;
      }
    } else {
      OthersDoNotCount(d, op);
    }
  }

  // Over every run the two counters together count the packets handed over while ready, each
  // counter modulo 2^32.
  lemma {:induction false} CountersAddUp(ops: seq<Op>) returns (sent: nat, errors: nat)
    ensures sent + errors == Transmissions(ops)
    ensures Run(ops).txCount == sent % TWO_TO_32 && Run(ops).txErrors == errors % TWO_TO_32
  {
    if ops == [] {
      sent, errors := 0, 0;
    } else {
      var before, op := ops[..|ops| - 1], ops[|ops| - 1];
      sent, errors := CountersAddUp(before);
      hide Apply, Transmits;
      sent, errors := CounterStep(Run(before), op, sent, errors);
    }
  }

  // +ERR=<n>, and every other line that starts the same.
  predicate StartsError(line: string) {
    |line| >= 2 && line[0] == '+' && line[1] == 'E'
  }

  // What the reply loop consumed is one whole line, and the line is neither empty nor an error.
  predicate PositiveLine(c: string) {
    WholeLine(c) && LineOf(c) != "" && !StartsError(LineOf(c))
  }

  // The sixth character of a reply as a digit, in 8 bits; 0 for a shorter reply, for a timeout and for an
  // overrun.
  function CodeOf(c: string): nat {
    if WholeLine(c) && |LineOf(c)| >= 6 then (LineOf(c)[5] as int - '0' as int) % 256 else 0
  }

  // What the handler concludes and reports, and that it leaves the wires alone.
  lemma Concludes(d: Driver, n: nat)
    requires n > 0 ==> n == |d.link.line|
    ensures var d' := Conclude(d, n);
            && d'.state == d.state && d'.rxCount == d.rxCount && d'.link == d.link.(outputs := d'.link.outputs)
            && if n > 0 && !StartsError(d.link.line) then
                 && d'.txCount == (d.txCount + 1) % 0x1_0000_0000 && d'.txErrors == d.txErrors
                 && d'.link.outputs == d.link.outputs + [TxPacketCount(d'.txCount)]
               else
                 && d'.txCount == d.txCount && d'.txErrors == (d.txErrors + 1) % 0x1_0000_0000
                 && d'.link.outputs ==
                    d.link.outputs +
                    [TxError(if n >= 6 then (d.link.line[5] as int - '0' as int) % 256 else 0),
                     TxErrorCount(d'.txErrors)]
  {
    assert ErrorReply(d.link.line) <==> StartsError(d.link.line);
    assert n > 0 ==> ErrorCode(d.link.line, n) == if n >= 6 then (d.link.line[5] as int - '0' as int) % 256 else 0;
    hide ErrorReply, StartsError;
  }

  // What a frame that went out whole comes to, in terms of the bytes c that the reply loop consumed.
  predicate Concluded(d: Driver, c: string, d': Driver) {
    if PositiveLine(c) then
      && d'.txCount == (d.txCount + 1) % 0x1_0000_0000 && d'.txErrors == d.txErrors
      && d'.link.outputs == d.link.outputs + [TxPacketCount(d'.txCount)]
    else
      && d'.txCount == d.txCount && d'.txErrors == (d.txErrors + 1) % 0x1_0000_0000
      && d'.link.outputs ==
         d.link.outputs + (if Overran(c) then [AtBufOverrun] else []) + [TxError(CodeOf(c)), TxErrorCount(d'.txErrors)]
  }

  lemma ReplyConcludes(d: Driver, after: Link, n: nat, c: string)
    requires n == (if WholeLine(c) then |LineOf(c)| else 0) && (WholeLine(c) ==> after.line == LineOf(c))
    requires after.outputs == d.link.outputs + (if Overran(c) then [AtBufOverrun] else [])
    ensures Concluded(d, c, Conclude(d.(link := after), n))
    ensures Conclude(d.(link := after), n).link == after.(outputs := Conclude(d.(link := after), n).link.outputs)
  {
    assert WholeLine(c) ==> !Overran(c);
    assert d.link.outputs + [] == d.link.outputs;
    hide StartsError, LineOf, Overran, Conclude;
    Concludes(d.(link := after), n);
  }

  // The reply loop over the bytes behind a frame: what it consumed decides what the handler concludes.
  lemma ReplyDecides(d: Driver, l: Link, arrivals: seq<string>) returns (turns: nat, c: string)
    requires l.outputs == d.link.outputs
    ensures var (after, n) := ReadLine(l, arrivals);
            var d' := Conclude(d.(link := after), n);
            && Consumed(l.rx, arrivals, turns, c, after.rx)
            && d'.link.wire == l.wire && d'.link.rx == after.rx && Concluded(d, c, d')
  {
    hide ReadLine, Conclude, Consumed, LineOf, WholeLine, Overran, Concluded;
    turns, c := ReadConsumes(l, arrivals);
    var (after, n) := ReadLine(l, arrivals);
    ReplyConcludes(d, after, n, c);
  }

  // The handler in full. A packet counts as sent exactly when its whole frame and line end were taken and
  // the first line consumed from the ring behind it is neither empty nor an error; every other ending, a
  // cut write, a timeout or an overrun included, counts one error instead. Before the module is ready
  // nothing happens, and a payload of more than 80 bytes is only reported.
  lemma SentExactly(d: Driver, payload: string, e: Exchange) returns (sent: string, turns: nat, c: string)
    ensures d.state != Ready ==> DataIn(d, payload, e) == d
    ensures d.state == Ready && |payload| > 80 ==>
              DataIn(d, payload, e) == d.(link := d.link.(outputs := d.link.outputs + [PayloadTooLarge(|payload|)]))
    ensures d.state == Ready && |payload| <= 80 ==>
              var d' := DataIn(d, payload, e);
              var text := "AT+SEND=0," + Dec(|payload|) + "," + payload;
              var whole := text + "\r\n";
              && sent <= whole && d'.link.wire == d.link.wire + sent
              && |sent| == (if |text| > Room(e.text) then Room(e.text)
                            else |text| + if Room(e.eol) >= 2 then 2 else Room(e.eol))
              && (sent == whole <==> |text| <= Room(e.text) && 2 <= Room(e.eol))
              && (if sent == whole then
                    Consumed(d.link.rx, e.arrivals, turns, c, d'.link.rx) && Concluded(d, c, d')
                  else
                    && d'.link.rx == d.link.rx
                    && d'.txCount == d.txCount && d'.txErrors == (d.txErrors + 1) % 0x1_0000_0000
                    && d'.link.outputs == d.link.outputs + [TxErrorCount(d'.txErrors)])
  {
    var text := Frame(payload);
    assert text == "AT+SEND=0," + Dec(|payload|) + "," + payload;
    hide Frame, Dec, ReadLine, Consumed, Room, Conclude, Concluded;
    sent := WireGrows(d.link, text, e);
    var (l, ok) := Transmit(d.link, text, e);
    hide Transmit;
    turns, c := 0, "";
    if ok {
      turns, c := ReplyDecides(d, l, e.arrivals);
    }
  }

  lemma NextDiffers(x: nat)
    requires x < TWO_TO_32
    ensures (x + 1) % TWO_TO_32 != x
  {
  }

  // ---- Frames on the wire

  predicate Roomy(payload: string, e: Exchange) {
    |payload| <= PAYLOAD_MAX && |Frame(payload)| <= Room(e.text) && 2 <= Room(e.eol)
  }

  function SendAll(d: Driver, payloads: seq<string>, es: seq<Exchange>): Driver
    requires |payloads| == |es|
    decreases |payloads|
  {
    if payloads == [] then d else SendAll(DataIn(d, payloads[0], es[0]), payloads[1..], es[1..])
  }

  lemma FrameOnWire(d: Driver, payload: string, e: Exchange)
    requires d.state == Ready && Roomy(payload, e)
    ensures var d' := DataIn(d, payload, e);
            d'.state == Ready && d'.link.wire == d.link.wire + (Frame(payload) + "\r\n")
  {
    var text := Frame(payload);
    hide Frame, ReadOn, Ended;
    var sent := WireGrows(d.link, text, e);
    var l := Transmit(d.link, text, e).0;
    var turns, c, p := ReplyLoop(l.(line := ""), e.arrivals);
    assert Transmit(d.link, text, e).1;
    hide Transmit;
    assert DataIn(d, payload, e) == Conclude(d.(link := ReadLine(l, e.arrivals).0), ReadLine(l, e.arrivals).1);
  }

  lemma FirstFrame(d: Driver, payloads: seq<string>, es: seq<Exchange>) returns (d': Driver)
    requires d.state == Ready && |payloads| == |es| && payloads != [] && Roomy(payloads[0], es[0])
    ensures d'.state == Ready && SendAll(d, payloads, es) == SendAll(d', payloads[1..], es[1..])
    ensures d'.link.wire + Frames(payloads[1..]) == d.link.wire + Frames(payloads)
  {
    d' := DataIn(d, payloads[0], es[0]);
    FrameOnWire(d, payloads[0], es[0]);
    var now, later := Frame(payloads[0]) + "\r\n", Frames(payloads[1..]);
    hide DataIn, Frame, Roomy;
    assert (d.link.wire + now) + later == d.link.wire + (now + later);
  }

  lemma {:induction false} FramesSent(d: Driver, payloads: seq<string>, es: seq<Exchange>)
    requires d.state == Ready && |payloads| == |es|
    requires forall i :: 0 <= i < |payloads| ==> Roomy(payloads[i], es[i])
    ensures SendAll(d, payloads, es).link.wire == d.link.wire + Frames(payloads)
    decreases |payloads|
  {
    if payloads != [] {
      var d' := FirstFrame(d, payloads, es);
      hide DataIn, Frame, Frames, Roomy;
      FramesSent(d', payloads[1..], es[1..]);
    }
  }

  // Whatever the replies, a ready driver whose writes are taken puts one frame per packet on the
  // wire, in order, and the payloads can be read back from it.
  lemma {:induction false} PayloadsReadable(d: Driver, payloads: seq<string>, es: seq<Exchange>)
    requires d.state == Ready && |payloads| == |es|
    requires forall i :: 0 <= i < |payloads| ==> Roomy(payloads[i], es[i])
    ensures SendAll(d, payloads, es).link.wire == d.link.wire + Frames(payloads)
    ensures ReadFrames(SendAll(d, payloads, es).link.wire[|d.link.wire|..]) == payloads
  {
    FramesReadBack(payloads);
    FramesSent(d, payloads, es);
    assert (d.link.wire + Frames(payloads))[|d.link.wire|..] == Frames(payloads);
  }
}
