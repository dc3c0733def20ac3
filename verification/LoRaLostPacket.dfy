/** A run from power-up in which the LoRa driver loses a packet to the reply that its own set-up left
    in the line buffer. */
module LoRaLostPacket {
  import opened Text
  import opened Decimal
  import opened AtCommands
  import opened RcvLaws
  import opened RcvRoundTrip
  import opened LoRaModel
  import opened LoRaLink
  import opened LoRaRuns
  import opened LoRaPackets
  import opened LoRaReports
  import RcvParser
  import LineAssembler

  // A module that answers every command with +OK, over a wire that never stalls.
  const OK_EXCHANGE: Exchange := Exchange(seq(AT_BUF_SIZE, _ => Writable), [Writable, Writable], ["", "", "", ""])
  const OK_ENV: Env := seq(EXCHANGES, _ => OK_EXCHANGE)

  function Oks(n: nat): string {
    if n == 0 then "" else "+OK" + "\n" + Oks(n - 1)
  }

  lemma {:induction false} AllWritable(polls: seq<FifoPoll>)
    requires forall k :: 0 <= k < |polls| ==> polls[k] == Writable
    ensures Room(polls) == |polls|
    decreases |polls|
  {
    if polls != [] {
      AllWritable(polls[1..]);
    }
  }

  lemma {:induction false} NothingArrives(pieces: seq<string>)
    requires forall k :: 0 <= k < |pieces| ==> pieces[k] == ""
    ensures Concat(pieces) == ""
    decreases |pieces|
  {
    if pieces != [] {
      NothingArrives(pieces[1..]);
    }
  }

  lemma CommandFits(cmd: string)
    ensures |CommandText(cmd)| <= AT_BUF_SIZE - 2
  {
  }

  lemma OkReply(l: Link, cmd: string, rest: string)
    requires l.rx == "+OK" + "\n" + rest
    ensures var (after, ok) := LoRaModel.SendAT(l, cmd, OK_EXCHANGE);
            ok && after.rx == rest && after.line == "+OK"
  {
    hide CommandText, ReadOn, Room, Concat, LineAssembler.Stored;
    AllWritable(OK_EXCHANGE.text);
    AllWritable(OK_EXCHANGE.eol);
    NothingArrives(OK_EXCHANGE.arrivals[..4]);
    OkIsStored();
    CommandFits(cmd);
    var mid := Transmit(l, CommandText(cmd), OK_EXCHANGE).0.(line := "");
    assert "" + "+OK" == "+OK" && rest + "" == rest;
    WaitingReply(mid, "+OK", rest, OK_EXCHANGE.arrivals);
  }

  lemma {:induction false} OkSetUp(l: Link, k: nat)
    requires k <= |SETUP| && l.rx == Oks(|SETUP| - k) && l.line == "+OK"
    ensures var (after, ok) := SetUp(l, OK_ENV, k); ok && after.rx == "" && after.line == "+OK"
    decreases |SETUP| - k
  {
    if k < |SETUP| {
      hide LoRaModel.SendAT;
      OkReply(l, SETUP[k], Oks(|SETUP| - k - 1));
      OkSetUp(LoRaModel.SendAT(l, SETUP[k], OK_EXCHANGE).0, k + 1);
    }
  }

  lemma OkStart(d: Driver)
    requires d.link.rx == Oks(|SETUP| + 1)
    ensures var (after, ok) := Restart(d, OK_ENV); ok && after.link.rx == "" && after.link.line == "+OK"
  {
    OkReply(d.link, "AT", Oks(|SETUP|));
    hide LoRaModel.SendAT, SetUp, Oks;
    OkSetUp(LoRaModel.SendAT(d.link, "AT", OK_EXCHANGE).0, 0);
  }

  lemma RunOneMore(ops: seq<Op>, op: Op)
    ensures Run(ops + [op]) == Apply(Run(ops), op)
  {
    assert (ops + [op])[..|ops|] == ops;
    hide Apply;
  }

  lemma SetUpRun(setUp: seq<Op>) returns (d: Driver)
    requires setUp == [Arrive(Oks(|SETUP| + 1)), Start(OK_ENV)]
    ensures d == Run(setUp) && d.state == Ready && d.link.rx == "" && d.link.line == "+OK" && d.rxCount == 0
  {
    var oks := Oks(|SETUP| + 1);
    hide Oks, Probe, SetUp;
    assert setUp[..1] == [Arrive(oks)] && [Arrive(oks)][..0] == [];
    var arrived := Run([Arrive(oks)]);
    assert Run([]) == INITIAL && "" + oks == oks;
    hide Run;
    OkStart(arrived);
    StartKeepsCount(arrived, OK_ENV);
    RunOneMore([Arrive(oks)], Start(OK_ENV));
    d := Run(setUp);
  }

  lemma OkIsNoPacket()
    ensures !RcvParser.IsRcv("+OK")
  {
  }

  lemma OneBatch(text: string)
    ensures Concat([text]) == text
  {
    assert text + Concat([]) == text;
  }

  lemma OneRound(d: Driver, text: string)
    requires d.state == Ready && d.link.rx == "" && |text| <= DRAIN_LIMIT
    ensures Polls(d, [text]) == Apply(Apply(d, Arrive(text)), Sched) && Polls(d, [text]).link.rx == ""
    ensures Polls(d, [text]).state == Ready
  {
    hide Receive;
    assert "" + text == text && text[|text|..] == "";
    assert [text][1..] == [];
  }

  lemma OnlyThis(rx: string, batches: seq<string>, line: string, w: string)
    requires rx == "" && batches == [line] && line == w + "\n"
    ensures rx + Concat(batches) == w + "\n"
  {
    OneBatch(line);
  }

  // A ready driver with +OK in its buffer does not count the next packet.
  lemma LoseLine(d: Driver, line: string, w: string)
    requires d.state == Ready && d.link.rx == "" && d.link.line == "+OK" && d.rxCount == 0
    requires line == w + "\n" && |line| <= DRAIN_LIMIT && Free(w, '\n')
    requires RcvParser.IsRcv(LineAssembler.Stored(w)) && |LineAssembler.Stored(w)| < AT_BUF_SIZE - 3
    ensures var d' := Apply(Apply(d, Arrive(line)), Sched); d'.state == Ready && d'.link.rx == "" && d'.rxCount == 0
  {
    assert DriverInv(d);
    hide Apply, Polls, SchedIn, RcvParser.IsRcv, LineAssembler.Stored, Concat, DriverInv;
    OkIsNoPacket();
    OneRound(d, line);
    OnlyThis(d.link.rx, [line], line, w);
    StaleReplyLosesPacket(d, [line], w);
  }

  lemma LosePacket(d: Driver, text: string)
    requires d.state == Ready && d.link.rx == "" && d.link.line == "+OK" && d.rxCount == 0
    requires Free(text, '\n') && Free(text, '\r') && |text| < AT_BUF_SIZE - 3 && RcvParser.IsRcv(text)
    ensures var d' := Apply(Apply(d, Arrive(text + "\r\n")), Sched);
            d'.state == Ready && d'.link.rx == "" && d'.rxCount == 0
  {
    hide Apply, RcvParser.IsRcv, LineAssembler.Stored;
    LineAssembler.StoredPlain(text);
    FreeConcat(text, "\r", '\n');
    assert text + "\r\n" == (text + "\r") + "\n";
    LoseLine(d, text + "\r\n", text + "\r");
  }

  // From power-up: the module is set up, then a packet arrives and is polled. It is not counted, though
  // the same line would be reported with its figures from an empty buffer.
  lemma LostPacket(text: string, outputs: seq<Output>)
    requires Free(text, '\n') && Free(text, '\r') && |text| < AT_BUF_SIZE - 3 && RcvParser.PacketOf(text).Packet?
    ensures var setUp := [Arrive(Oks(|SETUP| + 1)), Start(OK_ENV)];
            var d := Run(setUp + [Arrive(text + "\r\n")] + [Sched]);
            && Run(setUp).state == Ready && d.state == Ready && d.link.rx == "" && d.rxCount == 0
    ensures var p := RcvParser.PacketOf(text); Reported(Radio(0, outputs), text, p.rssi, p.snr)
  {
    var setUp := [Arrive(Oks(|SETUP| + 1)), Start(OK_ENV)];
    var p := RcvParser.PacketOf(text);
    assert RcvParser.IsRcv(text);
    LineAssembler.StoredPlain(text);
    hide Reported, Run, Apply, Oks, RcvParser.PacketOf, RcvParser.IsRcv, LineAssembler.Stored, Free;
    var d := SetUpRun(setUp);
    LosePacket(d, text);
    RunOneMore(setUp, Arrive(text + "\r\n"));
    RunOneMore(setUp + [Arrive(text + "\r\n")], Sched);
    ShortReported(Radio(0, outputs), text, p.rssi, p.snr);
  }

  lemma ExampleText()
    ensures var text := "+RCV=1,2,hi,-4,7.5";
            PacketText("1", "2", "hi", -4, 75).Print() == text && Free(text, '\n') && Free(text, '\r') && |text| == 18
  {
    assert Dec(4) == "4" && Dec(7) == "7";
  }

  // One such packet: -4 dBm and 7.5 dB.
  lemma LostPacketExample()
    ensures var setUp, text := [Arrive(Oks(|SETUP| + 1)), Start(OK_ENV)], "+RCV=1,2,hi,-4,7.5";
            && Run(setUp + [Arrive(text + "\r\n")] + [Sched]).rxCount == 0
            && RcvParser.PacketOf(text) == RcvParser.Packet(-4, 75)
  {
    ExampleText();
    hide Run, Oks, PacketText, RcvText.Print, RcvParser.PacketOf, RcvParser.IsRcv;
    PacketRoundTrip("1", "2", "hi", -4, 75);
    LostPacket("+RCV=1,2,hi,-4,7.5", []);
  }
}
