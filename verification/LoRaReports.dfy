/** What the LoRa driver reports of a received line, and exactly when a printed packet is reported with
    its figures. */
module LoRaReports {
  import opened MachineWords
  import opened Text
  import opened Decimal
  import opened AtCommands
  import opened RcvParser
  import opened RcvLaws
  import opened RcvRoundTrip
  import opened LoRaModel
  import opened LoRaPackets
  import LoRaRuns
  import LineAssembler

  // ---- One line

  function OverrunOutputs(n: nat): seq<Output> {
    if n == 0 then [] else OverrunOutputs(n - 1) + [AtBufOverrun]
  }

  // The channels and the event of the n-th packet.
  function Report(n: nat, rssi: int, snrX10: int): seq<Output> {
    [LastRxRssi(rssi), LastRxSnr(snrX10), RxPacketCount(n), PacketReceived(rssi, snrX10)]
  }

  // How often a line overruns the buffer.
  function OverrunsOf(text: string): nat {
    |LineAssembler.Stored(text)| / AT_BUF_SIZE
  }

  // From an empty buffer the text and its line end are reported, behind its overruns, as one more
  // packet with the given figures.
  predicate Reported(r: Radio, text: string, rssi: int, snrX10: int) {
    var n := (r.rxCount + 1) % TWO_TO_32;
    Receive(Rx("", r), text + "\r\n") ==
    Rx("", Radio(n, r.outputs + OverrunOutputs(OverrunsOf(text)) + Report(n, rssi, snrX10)))
  }

  lemma {:induction false} OverrunsReported(r: Radio, n: nat)
    ensures HandleAll(r, Overruns(n)) == r.(outputs := r.outputs + OverrunOutputs(n))
  {
    if n == 0 {
      assert r.outputs + [] == r.outputs;
    } else {
      OverrunsReported(r, n - 1);
      assert Overruns(n) == Overruns(n - 1) + [LineAssembler.Overrun(AT_BUF_SIZE - 1)];
      HandleAllSnoc(r, Overruns(n - 1), LineAssembler.Overrun(AT_BUF_SIZE - 1));
      hide HandleAll, Overruns;
      assert (r.outputs + OverrunOutputs(n - 1)) + [AtBufOverrun] == r.outputs + OverrunOutputs(n);
    }
  }

  lemma CrDropped(text: string)
    ensures LineAssembler.Stored(text + "\r") == LineAssembler.Stored(text) && Tail(text + "\r") == Tail(text)
  {
    LineAssembler.StoredSnoc(text, '\r');
    hide LineAssembler.Stored;
    assert text + "\r" == text + ['\r'] && LineAssembler.Stored(text) + "" == LineAssembler.Stored(text);
  }

  lemma NewlineFree(text: string)
    requires Free(text, '\n')
    ensures Free(text + "\r", '\n') && text + "\r\n" == (text + "\r") + "\n"
  {
    FreeConcat(text, "\r", '\n');
  }

  // A line of any length.
  lemma LineHandled(r: Radio, line: string)
    requires Free(line, '\n')
    ensures Receive(Rx("", r), line + "\n") ==
            Rx("", PacketLine(r.(outputs := r.outputs + OverrunOutputs(OverrunsOf(line))), Tail(line)))
  {
    hide Free, Tail, LineAssembler.Feed, LineAssembler.Stored, PacketLine, HandleAll, Overruns;
    var k := LineEvents(line);
    LastLine(r, k, Tail(line));
    OverrunsReported(r, k);
  }

  // The same for a line that ends in CR and newline.
  lemma CrLineHandled(r: Radio, text: string)
    requires Free(text, '\n')
    ensures Receive(Rx("", r), text + "\r\n") ==
            Rx("", PacketLine(r.(outputs := r.outputs + OverrunOutputs(OverrunsOf(text))), Tail(text)))
  {
    CrDropped(text);
    NewlineFree(text);
    hide Free, Tail, LineAssembler.Stored, PacketLine, Receive;
    LineHandled(r, text + "\r");
  }

  lemma SameTail(a: seq<Output>, b: seq<Output>, c: seq<Output>)
    ensures a + b == a + c <==> b == c
  {
    if a + b == a + c {
      assert b == (a + b)[|a|..] && c == (a + c)[|a|..];
    }
  }

  lemma LinesDiffer(r: Radio, line: string, rssi: int, snrX10: int)
    requires r.rxCount < TWO_TO_32
    ensures var n := (r.rxCount + 1) % TWO_TO_32;
            PacketLine(r, line) == Radio(n, r.outputs + Report(n, rssi, snrX10)) <==>
            PacketOf(line) == Packet(rssi, snrX10)
  {
    hide PacketOf;
    var n := (r.rxCount + 1) % TWO_TO_32;
    LoRaRuns.NextDiffers(r.rxCount);
    match PacketOf(line) {
      case Rejected =>
      case Packet(a, b) =>
        var mine, other := Report(n, a, b), Report(n, rssi, snrX10);
        assert PacketLine(r, line) == Radio(n, r.outputs + mine);
        SameTail(r.outputs, mine, other);
        assert mine[0] == LastRxRssi(a) && mine[1] == LastRxSnr(b);
        assert other[0] == LastRxRssi(rssi) && other[1] == LastRxSnr(snrX10);
    }
  }

  // A line is reported with some figures if and only if what is left of it in the buffer is a packet
  // line with those figures.
  lemma ReportedExactly(r: Radio, text: string, rssi: int, snrX10: int)
    requires Free(text, '\n') && r.rxCount < TWO_TO_32
    ensures Reported(r, text, rssi, snrX10) <==> PacketOf(Tail(text)) == Packet(rssi, snrX10)
  {
    hide Receive, PacketOf, PacketLine, Tail, OverrunsOf, OverrunOutputs, Report;
    CrLineHandled(r, text);
    LinesDiffer(r.(outputs := r.outputs + OverrunOutputs(OverrunsOf(text))), Tail(text), rssi, snrX10);
  }

  lemma ShortReported(r: Radio, text: string, rssi: int, snrX10: int)
    requires Free(text, '\n') && r.rxCount < TWO_TO_32 && |LineAssembler.Stored(text)| < AT_BUF_SIZE
    ensures Reported(r, text, rssi, snrX10) <==> PacketOf(LineAssembler.Stored(text)) == Packet(rssi, snrX10)
  {
    assert "" + text == text && "" + LineAssembler.Stored(text) == LineAssembler.Stored(text);
    hide LineAssembler.Stored, Reported, PacketOf, Tail;
    ShortTail("", text);
    ReportedExactly(r, text, rssi, snrX10);
  }

  // ---- Whole streams

  function OnePacket(line: string): seq<Rcv> {
    if PacketOf(Tail(line)).Packet? then [PacketOf(Tail(line))] else []
  }

  // The packets among the completed lines of a stream, in order.
  function Packets(s: string): seq<Rcv>
    decreases |s|
  {
    var p := IndexOf(s, '\n', 0);
    if p == |s| then [] else OnePacket(s[..p]) + Packets(s[p + 1..])
  }

  // The figures that the PacketReceived events carry, in order.
  function PacketEvents(outputs: seq<Output>): seq<Rcv> {
    if outputs == [] then []
    else
      var last := outputs[|outputs| - 1];
      PacketEvents(outputs[..|outputs| - 1]) + (if last.PacketReceived? then [Packet(last.rssi, last.snrX10)] else [])
  }

  lemma EventsSnoc(a: seq<Output>, x: Output)
    ensures PacketEvents(a + [x]) ==
            PacketEvents(a) + (if x.PacketReceived? then [Packet(x.rssi, x.snrX10)] else [])
  {
    assert (a + [x])[..|a|] == a;
  }

  lemma OneOverrunMore(outputs: seq<Output>, n: nat)
    requires n > 0
    ensures outputs + OverrunOutputs(n) == (outputs + OverrunOutputs(n - 1)) + [AtBufOverrun]
  {
  }

  lemma {:induction false} OverrunsAreNoPackets(outputs: seq<Output>, n: nat)
    ensures PacketEvents(outputs + OverrunOutputs(n)) == PacketEvents(outputs)
  {
    hide PacketEvents;
    if n == 0 {
      assert outputs + [] == outputs;
    } else {
      OverrunsAreNoPackets(outputs, n - 1);
      OneOverrunMore(outputs, n);
      EventsSnoc(outputs + OverrunOutputs(n - 1), AtBufOverrun);
      assert PacketEvents(outputs) + [] == PacketEvents(outputs);
    }
  }

  lemma ReportIsPacket(outputs: seq<Output>, n: nat, rssi: int, snrX10: int)
    ensures PacketEvents(outputs + Report(n, rssi, snrX10)) == PacketEvents(outputs) + [Packet(rssi, snrX10)]
  {
    var a, b := outputs + [LastRxRssi(rssi)], LastRxSnr(snrX10);
    EventsSnoc(outputs, LastRxRssi(rssi));
    EventsSnoc(a, b);
    EventsSnoc(a + [b], RxPacketCount(n));
    EventsSnoc(a + [b] + [RxPacketCount(n)], PacketReceived(rssi, snrX10));
    hide PacketEvents;
    assert outputs + Report(n, rssi, snrX10) == a + [b] + [RxPacketCount(n)] + [PacketReceived(rssi, snrX10)];
  }

  lemma LineEvent(r: Radio, line: string)
    ensures PacketEvents(PacketLine(r, line).outputs) ==
            PacketEvents(r.outputs) + (if PacketOf(line).Packet? then [PacketOf(line)] else [])
  {
    hide PacketOf, PacketEvents;
    match PacketOf(line) {
      case Rejected =>
      case Packet(rssi, snrX10) =>
        ReportIsPacket(r.outputs, (r.rxCount + 1) % TWO_TO_32, rssi, snrX10);
    }
  }

  lemma LineReported(r: Radio, line: string) returns (after: Radio)
    requires Free(line, '\n')
    ensures Receive(Rx("", r), line + "\n") == Rx("", after)
    ensures PacketEvents(after.outputs) == PacketEvents(r.outputs) + OnePacket(line)
  {
    hide Free, Receive, Tail, PacketLine, PacketOf, PacketEvents, OverrunsOf, OverrunOutputs;
    LineHandled(r, line);
    var behind := r.(outputs := r.outputs + OverrunOutputs(OverrunsOf(line)));
    OverrunsAreNoPackets(r.outputs, OverrunsOf(line));
    LineEvent(behind, Tail(line));
    after := PacketLine(behind, Tail(line));
  }

  lemma UnfinishedReported(r: Radio, s: string)
    requires Free(s, '\n')
    ensures PacketEvents(Receive(Rx("", r), s).radio.outputs) == PacketEvents(r.outputs) && Packets(s) == []
  {
    LineAssembler.ClosedForm(AT_BUF_SIZE, s);
    hide LineAssembler.Feed, LineAssembler.Stored, HandleAll, LineAssembler.Repeat, PacketEvents, OnePacket;
    var n := |LineAssembler.Stored(s)| / AT_BUF_SIZE;
    OverrunsReported(r, n);
    OverrunsAreNoPackets(r.outputs, n);
  }

  lemma FirstPacket(s: string)
    requires IndexOf(s, '\n', 0) < |s|
    ensures var p := IndexOf(s, '\n', 0); Packets(s) == OnePacket(s[..p]) + Packets(s[p + 1..])
  {
  }

  // Over every stream that starts with an empty buffer: the packets that are reported are exactly the
  // packet lines, each once, in order, with their figures.
  lemma {:induction false} StreamReported(r: Radio, s: string)
    ensures PacketEvents(Receive(Rx("", r), s).radio.outputs) == PacketEvents(r.outputs) + Packets(s)
    decreases |s|
  {
    hide Receive, PacketEvents, OnePacket, Packets;
    var p := IndexOf(s, '\n', 0);
    if p == |s| {
      UnfinishedReported(r, s);
    } else {
      var line, rest := s[..p], s[p + 1..];
      assert s == (line + "\n") + rest;
      var after := LineReported(r, line);
      ReceiveConcat(Rx("", r), line + "\n", rest);
      StreamReported(after, rest);
      FirstPacket(s);
    }
  }

  // They are as many as are counted.
  lemma {:induction false} PacketsAreCounted(s: string)
    ensures |Packets(s)| == PacketsIn(s)
    decreases |s|
  {
    hide PacketOf, Tail;
    var p := IndexOf(s, '\n', 0);
    if p < |s| {
      PacketsAreCounted(s[p + 1..]);
    }
  }

  lemma LinePackets(line: string, rest: string)
    requires Free(line, '\n')
    ensures Packets(line + "\n" + rest) == OnePacket(line) + Packets(rest)
  {
    hide OnePacket, Packets;
    var s := line + "\n" + rest;
    IndexOfUnique(s, '\n', 0, |line|);
    FirstPacket(s);
    assert s[..|line|] == line && s[|line| + 1..] == rest;
  }

  lemma ThreeLines(a: string, b: string, rest: string)
    ensures (a + "\n" + b) + "\n" + rest == a + "\n" + (b + "\n" + rest)
  {
  }

  lemma NoLines()
    ensures Packets("") == []
  {
  }

  // A newline separates whatever stands before it from whatever follows, also inside a packet's fields.
  lemma {:induction false} PacketsJoin(before: string, rest: string)
    ensures Packets(before + "\n" + rest) == Packets(before + "\n") + Packets(rest)
    decreases |before|
  {
    hide OnePacket, Packets;
    var p := IndexOf(before, '\n', 0);
    if p == |before| {
      LinePackets(before, rest);
      LinePackets(before, "");
      NoLines();
      assert before + "\n" + "" == before + "\n";
    } else {
      var line, more := before[..p], before[p + 1..];
      assert before == line + "\n" + more;
      PacketsJoin(more, rest);
      LinePackets(line, more + "\n" + rest);
      LinePackets(line, more + "\n" + "");
      ThreeLines(line, more, rest);
      ThreeLines(line, more, "");
      assert more + "\n" + "" == more + "\n" && before + "\n" + "" == before + "\n";
    }
  }

  // The same after every run of the driver that ends ready, for what its buffer held followed by the
  // bytes drained, in any polling rounds.
  lemma PollerReports(ops: seq<LoRaRuns.Op>, batches: seq<string>) returns (c: string)
    requires LoRaRuns.Run(ops).state == Ready
    ensures var d := LoRaRuns.Run(ops);
            var d' := Polls(d, batches);
            && c + d'.link.rx == d.link.rx + Concat(batches)
            && d'.rxCount == (d.rxCount + |Packets(d.link.line + c)|) % TWO_TO_32
            && PacketEvents(d'.link.outputs) == PacketEvents(d.link.outputs) + Packets(d.link.line + c)
  {
    hide LoRaRuns.Run, Polls, Packets, PacketsIn, PacketEvents, DriverInv, Receive;
    RunsKeepInv(ops);
    var d := LoRaRuns.Run(ops);
    c := PollsCount(d, batches);
    PacketsAreCounted(d.link.line + c);
    StreamReported(RxOf(d).radio, d.link.line + c);
  }

  // ---- Printed packets

  lemma FigureText(rssi: int, snrX10: int)
    ensures Free(Dec(Abs(rssi)), '\n') && Free(Tenths(snrX10), '\n')
    ensures Free(Dec(Abs(rssi)), '\r') && Free(Tenths(snrX10), '\r')
  {
    hide Free, Dec, Tenths;
    FiguresFree(rssi, snrX10, '\n');
    FiguresFree(rssi, snrX10, '\r');
  }

  // Printed 16-bit figures with the commas around them take at most 15 characters.
  lemma FigureLength(addr: string, len: string, data: string, rssi: int, snrX10: int)
    requires Word16(rssi) && Word16(snrX10)
    ensures |PacketText(addr, len, data, rssi, snrX10).Print()| <= |addr| + |len| + |data| + 22
  {
    assert Pow10(5) == 100_000 && Pow10(4) == 10_000;
    DecLength(Abs(rssi), 5);
    DecLength(Abs(snrX10) / 10, 4);
    hide Dec, Pow10;
  }

  lemma StoredField(f: string, rest: string)
    ensures LineAssembler.Stored(f + "," + rest) == LineAssembler.Stored(f) + "," + LineAssembler.Stored(rest)
  {
    assert Free(",", '\r');
    LineAssembler.StoredPlain(",");
    hide LineAssembler.Stored;
    LineAssembler.StoredConcat(f, ",");
    LineAssembler.StoredConcat(f + ",", rest);
  }

  function FiguresText(rssi: int, snrX10: int): string {
    PacketText("", "", "", rssi, snrX10).Figures()
  }

  lemma SameFigures(addr: string, len: string, data: string, rssi: int, snrX10: int)
    ensures PacketText(addr, len, data, rssi, snrX10).Figures() == FiguresText(rssi, snrX10)
    ensures PacketText(LineAssembler.Stored(addr), LineAssembler.Stored(len), LineAssembler.Stored(data),
                       rssi, snrX10).Figures() == FiguresText(rssi, snrX10)
  {
  }

  lemma StoredFigures(addr: string, len: string, data: string, rssi: int, snrX10: int)
    ensures var figures := PacketText(addr, len, data, rssi, snrX10).Figures(); LineAssembler.Stored(figures) == figures
  {
    var figures, sign := PacketText(addr, len, data, rssi, snrX10).Figures(), Sign(rssi < 0);
    FigureText(rssi, snrX10);
    assert Free(sign, '\r');
    hide LineAssembler.Stored, Dec, Tenths, Free;
    FreeConcat(sign, Dec(Abs(rssi)), '\r');
    FieldFree(sign + Dec(Abs(rssi)), Tenths(snrX10), '\r');
    LineAssembler.StoredPlain(figures);
  }

  // CRs in the fields are dropped: what is stored is the packet of the stored fields.
  lemma StoredPacket(addr: string, len: string, data: string, rssi: int, snrX10: int)
    ensures LineAssembler.Stored(PacketText(addr, len, data, rssi, snrX10).Print()) ==
            PacketText(LineAssembler.Stored(addr), LineAssembler.Stored(len), LineAssembler.Stored(data),
                       rssi, snrX10).Print()
  {
    var figures := PacketText(addr, len, data, rssi, snrX10).Figures();
    StoredFigures(addr, len, data, rssi, snrX10);
    assert Free("+RCV=", '\r');
    LineAssembler.StoredPlain("+RCV=");
    hide LineAssembler.Stored, Dec, Tenths, RcvText.Figures;
    assert figures == PacketText(LineAssembler.Stored(addr), LineAssembler.Stored(len), LineAssembler.Stored(data),
                                 rssi, snrX10).Figures() by { SameFigures(addr, len, data, rssi, snrX10); }
    StoredField(data, figures);
    StoredField(len, data + "," + figures);
    StoredField(addr, len + "," + (data + "," + figures));
    LineAssembler.StoredConcat("+RCV=", addr + "," + (len + "," + (data + "," + figures)));
  }

  lemma PrintedHasNoNewline(addr: string, len: string, data: string, rssi: int, snrX10: int)
    requires Free(addr, '\n') && Free(len, '\n') && Free(data, '\n')
    ensures Free(PacketText(addr, len, data, rssi, snrX10).Print(), '\n')
  {
    FigureText(rssi, snrX10);
    assert Free("+RCV=", '\n');
    hide Free, Dec, Tenths, RcvText.Print;
    PrintFree(PacketText(addr, len, data, rssi, snrX10), '\n');
  }

  // A packet that is reported with its figures is one whose stored fields are read back.
  lemma PacketReported(r: Radio, addr: string, len: string, data: string, rssi: int, snrX10: int)
    requires r.rxCount < TWO_TO_32 && Word16(rssi) && Word16(snrX10)
    requires Free(addr, '\n') && Free(len, '\n') && Free(data, '\n')
    requires |LineAssembler.Stored(addr)| + |LineAssembler.Stored(len)| + |LineAssembler.Stored(data)| + 22 <
             AT_BUF_SIZE
    ensures Reported(r, PacketText(addr, len, data, rssi, snrX10).Print(), rssi, snrX10) <==>
            ReadBack(LineAssembler.Stored(addr), LineAssembler.Stored(len), LineAssembler.Stored(data), rssi, snrX10)
  {
    var a, l, d := LineAssembler.Stored(addr), LineAssembler.Stored(len), LineAssembler.Stored(data);
    hide LineAssembler.Stored, PacketText, RcvText.Print, Reported, PacketOf;
    PrintedHasNoNewline(addr, len, data, rssi, snrX10);
    StoredPacket(addr, len, data, rssi, snrX10);
    FigureLength(a, l, d, rssi, snrX10);
    ShortReported(r, PacketText(addr, len, data, rssi, snrX10).Print(), rssi, snrX10);
  }

  // Fields that leave room for the figures, without newlines: their packets are reported with all
  // figures if and only if, their CRs dropped, every field fits and holds no comma and no NUL.
  lemma PacketsReportedExactly(r: Radio, addr: string, len: string, data: string)
    requires r.rxCount < TWO_TO_32 && Free(addr, '\n') && Free(len, '\n') && Free(data, '\n')
    requires |LineAssembler.Stored(addr)| + |LineAssembler.Stored(len)| + |LineAssembler.Stored(data)| + 22 <
             AT_BUF_SIZE
    ensures (forall rssi, snrX10 :: Word16(rssi) && Word16(snrX10) ==>
               Reported(r, PacketText(addr, len, data, rssi, snrX10).Print(), rssi, snrX10))
            <==>
            && Readable(LineAssembler.Stored(addr), 8) && Readable(LineAssembler.Stored(len), 4)
            && Readable(LineAssembler.Stored(data), 100)
  {
    var a, l, d := LineAssembler.Stored(addr), LineAssembler.Stored(len), LineAssembler.Stored(data);
    hide LineAssembler.Stored, PacketText, RcvText.Print, Reported, ReadBack, Readable;
    ReadBackExactly(a, l, d);
    forall rssi, snrX10 | Word16(rssi) && Word16(snrX10)
      ensures Reported(r, PacketText(addr, len, data, rssi, snrX10).Print(), rssi, snrX10) <==>
              ReadBack(a, l, d, rssi, snrX10)
    {
      PacketReported(r, addr, len, data, rssi, snrX10);
    }
  }
}
