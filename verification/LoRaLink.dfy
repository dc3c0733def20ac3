/** What the AT conversation of the LoRa driver means in terms of the bytes on the two wires. */
module LoRaLink {
  import opened Text
  import opened AtCommands
  import opened LoRaModel
  import RcvParser
  import LineAssembler

  // How a reply loop that started with the line buffer at start and consumed the bytes c ended.
  ghost predicate Ended(start: string, c: string, turns: nat, limit: nat, after: Link, n: nat, p: Progress) {
    match p
    case Complete =>
      && |c| > 0 && c[|c| - 1] == '\n' && Free(c[..|c| - 1], '\n')
      && after.line == start + LineAssembler.Stored(c[..|c| - 1]) && n == |after.line| < AT_BUF_SIZE
    case Waiting =>
      && Free(c, '\n') && turns == limit && n == 0
      && after.line == start + LineAssembler.Stored(c) && |after.line| < AT_BUF_SIZE
    case Overrun =>
      && Free(c, '\n') && |start + LineAssembler.Stored(c)| == AT_BUF_SIZE && after.line == "" && n == 0
  }

  // What the loop reports.
  function OverrunEvent(p: Progress): seq<Output> {
    if p == Overrun then [AtBufOverrun] else []
  }

  lemma StoredFirst(c: char, s: string)
    ensures LineAssembler.Stored([c] + s) == (if c == '\r' then "" else [c]) + LineAssembler.Stored(s)
  {
    LineAssembler.StoredConcat([c], s);
    LineAssembler.StoredSnoc("", c);
    assert "" + [c] == [c];
  }

  // One more byte before the rest of the conversation.
  lemma EndedCons(start: string, ch: char, c: string, turns: nat, limit: nat, after: Link, n: nat, p: Progress)
    requires ch != '\n' && turns < limit
    requires Ended(start + (if ch == '\r' then "" else [ch]), c, turns, limit - 1, after, n, p)
    ensures Ended(start, [ch] + c, turns + 1, limit, after, n, p)
  {
    var now := if ch == '\r' then "" else [ch];
    if p == Complete {
      assert ([ch] + c)[..|c|] == [ch] + c[..|c| - 1];
      StoredFirst(ch, c[..|c| - 1]);
      assert start + (now + LineAssembler.Stored(c[..|c| - 1])) == start + now + LineAssembler.Stored(c[..|c| - 1]);
    } else {
      StoredFirst(ch, c);
      assert start + (now + LineAssembler.Stored(c)) == start + now + LineAssembler.Stored(c);
    }
  }

  lemma EndedIdle(start: string, c: string, turns: nat, limit: nat, after: Link, n: nat, p: Progress)
    requires turns < limit && Ended(start, c, turns, limit - 1, after, n, p)
    ensures Ended(start, c, turns + 1, limit, after, n, p)
  {
  }

  lemma ConcatFirst(pieces: seq<string>, turns: nat)
    requires 0 < turns <= |pieces|
    ensures Concat(pieces[..turns]) == pieces[0] + Concat(pieces[1..][..turns - 1])
  {
    assert pieces[..turns][1..] == pieces[1..][..turns - 1];
  }

  // The stream equation of one more turn.
  lemma OneByteMore(rx: string, l: string, a: string, c: string, after: string, later: string)
    requires rx == l + a && rx != "" && c + after == rx[1..] + later
    ensures ([rx[0]] + c) + after == l + (a + later)
  {
    assert ([rx[0]] + c) + after == [rx[0]] + (c + after);
    assert [rx[0]] + (rx[1..] + later) == rx + later;
  }

  lemma TurnWaits(l: Link, arrivals: seq<string>)
    requires arrivals != [] && Poll(l, arrivals[0]).1 == Waiting
    ensures ReadOn(l, arrivals) == ReadOn(Poll(l, arrivals[0]).0, arrivals[1..])
  {
    hide Poll;
  }

  lemma LastTurn(l: Link, arrivals: seq<string>) returns (turns: nat, c: string, p: Progress)
    requires |l.line| < AT_BUF_SIZE && arrivals != [] && Poll(l, arrivals[0]).1 != Waiting
    ensures var (after, n) := ReadOn(l, arrivals);
            && turns <= |arrivals| && c + after.rx == l.rx + Concat(arrivals[..turns])
            && after.wire == l.wire && Ended(l.line, c, turns, |arrivals|, after, n, p)
            && after.outputs == l.outputs + OverrunEvent(p)
  {
    var rx := l.rx + arrivals[0];
    ConcatFirst(arrivals, 1);
    assert arrivals[0] + Concat([]) == arrivals[0];
    turns, c, p := 1, [rx[0]], Poll(l, arrivals[0]).1;
    assert l.outputs + [] == l.outputs;
    assert c + rx[1..] == rx;
    assert c[..0] == "" && l.line + LineAssembler.Stored("") == l.line;
    assert LineAssembler.Stored(c) == (if rx[0] == '\r' then "" else c);
  }

  // What the reply loop does to the stream: it consumes a piece from the front, nothing is lost or
  // invented, and the piece decides how it ends.
  lemma {:induction false} ReplyLoop(l: Link, arrivals: seq<string>) returns (turns: nat, c: string, p: Progress)
    requires |l.line| < AT_BUF_SIZE
    ensures var (after, n) := ReadOn(l, arrivals);
            && turns <= |arrivals| && c + after.rx == l.rx + Concat(arrivals[..turns])
            && after.wire == l.wire && Ended(l.line, c, turns, |arrivals|, after, n, p)
            && after.outputs == l.outputs + OverrunEvent(p)
    decreases |arrivals|
  {
    if arrivals == [] {
      turns, c, p := 0, "", Waiting;
      assert l.outputs + [] == l.outputs;
      assert l.line + LineAssembler.Stored("") == l.line;
    } else {
      turns, c, p := ReplyTurn(l, arrivals);
    }
  }

  lemma {:induction false} ReplyTurn(l: Link, arrivals: seq<string>) returns (turns: nat, c: string, p: Progress)
    requires |l.line| < AT_BUF_SIZE && arrivals != []
    ensures var (after, n) := ReadOn(l, arrivals);
            && turns <= |arrivals| && c + after.rx == l.rx + Concat(arrivals[..turns])
            && after.wire == l.wire && Ended(l.line, c, turns, |arrivals|, after, n, p)
            && after.outputs == l.outputs + OverrunEvent(p)
    decreases |arrivals|, 0
  {
    var rx := l.rx + arrivals[0];
    var (l', q) := Poll(l, arrivals[0]);
    if q == Waiting {
      var turns', c', p' := ReplyLoop(l', arrivals[1..]);
      var (after, n) := ReadOn(l', arrivals[1..]);
      ConcatFirst(arrivals, turns' + 1);
      hide Ended, ReadOn, Concat;
      assert ReadOn(l, arrivals) == (after, n) by { TurnWaits(l, arrivals); }
      turns, p := turns' + 1, p';
      if rx == "" {
        c := c';
        EndedIdle(l.line, c', turns', |arrivals|, after, n, p);
      } else {
        c := [rx[0]] + c';
        OneByteMore(rx, l.rx, arrivals[0], c', after.rx, Concat(arrivals[1..][..turns']));
        EndedCons(l.line, rx[0], c', turns', |arrivals|, after, n, p);
      }
    } else {
      turns, c, p := LastTurn(l, arrivals);
    }
  }

  // ---- A reply that is already waiting

  lemma Reassociate(a: string, b: string, c: string)
    ensures (a + b) + c == a + (b + c)
  {
  }

  lemma FrontOf(w: string, rest: string)
    requires w != ""
    ensures w + "\n" + rest == [w[0]] + (w[1..] + "\n" + rest)
  {
  }

  // The part of a received character that is stored.
  function Kept(c: char): string {
    if c == '\r' then "" else [c]
  }

  lemma LineGrows(line: string, w: string)
    requires w != ""
    ensures (line + Kept(w[0])) + LineAssembler.Stored(w[1..]) == line + LineAssembler.Stored(w)
    ensures |Kept(w[0])| + |LineAssembler.Stored(w[1..])| == |LineAssembler.Stored(w)|
  {
    StoredFirst(w[0], w[1..]);
    assert [w[0]] + w[1..] == w;
    hide LineAssembler.Stored;
    Reassociate(line, Kept(w[0]), LineAssembler.Stored(w[1..]));
  }

  lemma WaitingNewline(l: Link, rest: string, arrivals: seq<string>)
    requires l.rx == "" + "\n" + rest && arrivals != []
    ensures ReadOn(l, arrivals) == (l.(rx := rest + Concat(arrivals[..1])), |l.line|)
    ensures l.line + LineAssembler.Stored("") == l.line
  {
    ConcatFirst(arrivals, 1);
    assert Concat([]) == "" && arrivals[1..][..0] == [] && arrivals[0] + "" == arrivals[0];
    assert l.rx + arrivals[0] == "\n" + (rest + arrivals[0]);
  }

  // The next byte of a waiting line.
  lemma WaitingByte(l: Link, ch: char, others: string, arrivals: seq<string>) returns (l': Link)
    requires l.rx == [ch] + others && ch != '\n' && arrivals != [] && |l.line| + |Kept(ch)| < AT_BUF_SIZE
    ensures ReadOn(l, arrivals) == ReadOn(l', arrivals[1..])
    ensures l' == l.(line := l.line + Kept(ch), rx := others + arrivals[0])
  {
    var rx := l.rx + arrivals[0];
    assert rx[0] == ch && rx[1..] == others + arrivals[0];
    assert l.line + "" == l.line;
    TurnWaits(l, arrivals);
    l' := Poll(l, arrivals[0]).0;
  }

  // A whole line at the front of the ring is the reply, whatever else arrives meanwhile: also when
  // it was meant for an earlier command, or is a packet.
  lemma {:induction false} WaitingReply(l: Link, w: string, rest: string, arrivals: seq<string>)
    requires l.rx == w + "\n" + rest && Free(w, '\n') && |arrivals| > |w|
    requires |l.line| + |LineAssembler.Stored(w)| < AT_BUF_SIZE
    ensures var (after, n) := ReadOn(l, arrivals);
            && after.line == l.line + LineAssembler.Stored(w) && n == |after.line|
            && after.wire == l.wire && after.outputs == l.outputs
            && after.rx == rest + Concat(arrivals[..|w| + 1])
    decreases |w|
  {
    if w == "" {
      WaitingNewline(l, rest, arrivals);
    } else {
      var ch, later := w[0], w[1..];
      FrontOf(w, rest);
      LineGrows(l.line, w);
      var l' := WaitingByte(l, ch, later + "\n" + rest, arrivals);
      Reassociate(later + "\n", rest, arrivals[0]);
      ConcatFirst(arrivals, |w| + 1);
      hide ReadOn, Concat, LineAssembler.Stored;
      WaitingReply(l', later, rest + arrivals[0], arrivals[1..]);
      Reassociate(rest, arrivals[0], Concat(arrivals[1..][..|w|]));
    }
  }

  // ---- One command

  // How many bytes get out: one for each look that found space before the first that found the deadline over.
  lemma {:induction false} RoomExactly(polls: seq<FifoPoll>, p: nat)
    requires p <= |polls| && (p < |polls| ==> polls[p] == Expired) && forall k :: 0 <= k < p ==> polls[k] != Expired
    ensures Room(polls) == multiset(polls[..p])[Writable]
    decreases |polls|
  {
    if p > 0 {
      RoomExactly(polls[1..], p - 1);
      assert polls[..p] == [polls[0]] + polls[1..][..p - 1];
    }
  }

  // What is sent of a command: the text up to its first NUL, of at most 126 characters.
  lemma CommandTextExactly(cmd: string, more: string)
    requires Free(cmd, '\0')
    ensures CommandText(cmd) == CommandText(cmd + "\0" + more) == if |cmd| <= 126 then cmd else cmd[..126]
  {
    IndexOfUnique(cmd, '\0', 0, |cmd|);
    IndexOfUnique(cmd + "\0" + more, '\0', 0, |cmd|);
    assert (cmd + "\0" + more)[..|cmd|] == cmd == cmd[..|cmd|];
  }

  lemma PlainCommand(cmd: string)
    requires Free(cmd, '\0') && |cmd| <= AT_BUF_SIZE - 2
    ensures CommandText(cmd) == cmd
  {
    IndexOfUnique(cmd, '\0', 0, |cmd|);
  }

  // What a command leaves on the wire is a beginning of its text and line end.
  lemma WireGrows(l: Link, text: string, e: Exchange) returns (sent: string)
    ensures var (after, ok) := Transmit(l, text, e);
            && sent <= text + "\r\n" && after == l.(wire := l.wire + sent)
            && (ok <==> sent == text + "\r\n") && (ok <==> |text| <= Room(e.text) && 2 <= Room(e.eol))
            && |sent| == if |text| > Room(e.text) then Room(e.text)
                         else if Room(e.eol) >= 2 then |text| + 2 else |text| + Room(e.eol)
  {
    if |text| <= Room(e.text) {
      sent := text + Prefix("\r\n", Room(e.eol));
      assert l.wire + text + Prefix("\r\n", Room(e.eol)) == l.wire + sent;
    } else {
      sent := Prefix(text, Room(e.text));
    }
  }

  // The byte that found the buffer full was the last one consumed.
  predicate Overran(c: string) {
    Free(c, '\n') && |LineAssembler.Stored(c)| == 128
  }

  // A reply loop took the bytes c off the front of the stream and left rest: a newline can only be the
  // last of them, and without one the deadline passed or the buffer overran.
  predicate Consumed(rx: string, arrivals: seq<string>, turns: nat, c: string, rest: string) {
    && turns <= |arrivals| && c + rest == rx + Concat(arrivals[..turns])
    && (forall k :: 0 <= k < |c| - 1 ==> c[k] != '\n')
    && (Free(c, '\n') ==> turns == |arrivals| || Overran(c))
  }

  predicate WholeLine(c: string) {
    |c| > 0 && c[|c| - 1] == '\n'
  }

  // What is stored of a whole line.
  function LineOf(c: string): string
    requires WholeLine(c)
  {
    LineAssembler.Stored(c[..|c| - 1])
  }

  // +OK, +RESET, +READY, a packet, and every other line that starts like one of them.
  predicate StartsOk(line: string) {
    |line| >= 2 && line[0] == '+' && (line[1] == 'O' || line[1] == 'R')
  }

  lemma EndedAs(c: string, turns: nat, limit: nat, after: Link, n: nat, p: Progress)
    requires Ended("", c, turns, limit, after, n, p)
    ensures n == if WholeLine(c) then |LineOf(c)| else 0
    ensures WholeLine(c) ==> after.line == LineOf(c)
    ensures forall k :: 0 <= k < |c| - 1 ==> c[k] != '\n'
    ensures Free(c, '\n') ==> turns == limit || Overran(c)
    ensures p == Overrun <==> Overran(c)
  {
    hide LineAssembler.Stored;
    var w := if p == Complete then c[..|c| - 1] else c;
    assert "" + LineAssembler.Stored(w) == LineAssembler.Stored(w);
    assert forall k :: 0 <= k < |w| ==> c[k] == w[k];
  }

  // readATLine in terms of the stream: the length it returns and the line it leaves.
  lemma ReadConsumes(l: Link, arrivals: seq<string>) returns (turns: nat, c: string)
    ensures var (after, n) := ReadLine(l, arrivals);
            && Consumed(l.rx, arrivals, turns, c, after.rx) && after.wire == l.wire
            && n == (if WholeLine(c) then |LineOf(c)| else 0) && (WholeLine(c) ==> after.line == LineOf(c))
            && after.outputs == l.outputs + (if Overran(c) then [AtBufOverrun] else [])
  {
    hide ReadOn, Ended, WholeLine, Overran;
    var p;
    turns, c, p := ReplyLoop(l.(line := ""), arrivals);
    var (after, n) := ReadLine(l, arrivals);
    EndedAs(c, turns, |arrivals|, after, n, p);
  }

  lemma NothingConsumed()
    ensures !Overran("")
  {
  }

  // Exactly when sendAT succeeds: the whole text and its line end were taken, and the first line then
  // consumed from the ring, whatever it answers, starts like an accepting reply.
  lemma AcceptedExactly(l: Link, cmd: string, e: Exchange) returns (sent: string, turns: nat, c: string)
    ensures var (after, ok) := LoRaModel.SendAT(l, cmd, e);
            var whole := CommandText(cmd) + "\r\n";
            && sent <= whole && after.wire == l.wire + sent
            && |sent| == (if |CommandText(cmd)| > Room(e.text) then Room(e.text)
                          else |CommandText(cmd)| + if Room(e.eol) >= 2 then 2 else Room(e.eol))
            && (sent == whole <==> |CommandText(cmd)| <= Room(e.text) && 2 <= Room(e.eol))
            && (if sent == whole then Consumed(l.rx, e.arrivals, turns, c, after.rx) else c == "" && after.rx == l.rx)
            && (ok <==> sent == whole && WholeLine(c) && |LineOf(c)| >= 2 && LineOf(c)[0] == '+'
                        && (LineOf(c)[1] == 'O' || LineOf(c)[1] == 'R'))
            && (ok ==> after.line == LineOf(c))
            && after.outputs == l.outputs + (if Overran(c) then [AtBufOverrun] else [])
  {
    hide CommandText, Transmit, ReadLine, Consumed, LineOf, Room, Overran;
    sent := WireGrows(l, CommandText(cmd), e);
    var (mid, taken) := Transmit(l, CommandText(cmd), e);
    if taken {
      turns, c := ReadConsumes(mid, e.arrivals);
    } else {
      turns, c := 0, "";
      NothingConsumed();
      assert l.outputs + [] == l.outputs;
    }
  }

  lemma CommandOnWire(l: Link, cmd: string, e: Exchange) returns (sent: string)
    ensures sent <= CommandText(cmd) + "\r\n" && LoRaModel.SendAT(l, cmd, e).0.wire == l.wire + sent
  {
    hide CommandText, LoRaModel.SendAT, Consumed, LineOf, Room;
    var turns, c;
    sent, turns, c := AcceptedExactly(l, cmd, e);
  }

  // An accepted command put its whole text on the wire and consumed exactly one line, whose stored
  // bytes are an accepting reply.
  lemma AcceptedCommand(l: Link, cmd: string, e: Exchange) returns (turns: nat, reply: string)
    requires LoRaModel.SendAT(l, cmd, e).1
    ensures var after := LoRaModel.SendAT(l, cmd, e).0;
            && after.wire == l.wire + CommandText(cmd) + "\r\n"
            && turns <= |e.arrivals| && reply + "\n" + after.rx == l.rx + Concat(e.arrivals[..turns])
            && Free(reply, '\n') && after.line == LineAssembler.Stored(reply) && StartsOk(after.line)
  {
    hide CommandText, LoRaModel.SendAT, Room, Concat, LineAssembler.Stored;
    var sent, c;
    sent, turns, c := AcceptedExactly(l, cmd, e);
    reply := c[..|c| - 1];
    assert c == reply + "\n";
    Reassociate(l.wire, CommandText(cmd), "\r\n");
  }

  // When a line is already waiting, it alone decides, and what stands behind it stays.
  lemma FirstLineDecides(l: Link, cmd: string, e: Exchange, w: string, rest: string)
    requires l.rx == w + "\n" + rest && Free(w, '\n') && |e.arrivals| > |w|
    requires |LineAssembler.Stored(w)| < AT_BUF_SIZE
    requires |CommandText(cmd)| <= Room(e.text) && 2 <= Room(e.eol)
    ensures var (after, ok) := LoRaModel.SendAT(l, cmd, e);
            && (ok <==> StartsOk(LineAssembler.Stored(w)))
            && after.rx == rest + Concat(e.arrivals[..|w| + 1]) && after.line == LineAssembler.Stored(w)
  {
    hide CommandText, ReadOn, Room, Concat, LineAssembler.Stored;
    var mid := Transmit(l, CommandText(cmd), e).0.(line := "");
    assert "" + LineAssembler.Stored(w) == LineAssembler.Stored(w);
    WaitingReply(mid, w, rest, e.arrivals);
  }

  // A packet line passes for an accepting reply: when one is waiting, the command is taken as
  // accepted and the packet is gone.
  lemma PacketTakenForReply(l: Link, cmd: string, e: Exchange, packet: string, rest: string)
    requires l.rx == packet + "\n" + rest && Free(packet, '\n') && |e.arrivals| > |packet|
    requires RcvParser.IsRcv(LineAssembler.Stored(packet)) && |LineAssembler.Stored(packet)| < AT_BUF_SIZE
    requires |CommandText(cmd)| <= Room(e.text) && 2 <= Room(e.eol)
    ensures var (after, ok) := LoRaModel.SendAT(l, cmd, e);
            ok && after.rx == rest + Concat(e.arrivals[..|packet| + 1])
  {
    hide CommandText, Room, Concat, LineAssembler.Stored, LoRaModel.SendAT;
    var t := LineAssembler.Stored(packet);
    assert t[0] == t[..5][0] && t[1] == t[..5][1];
    FirstLineDecides(l, cmd, e, packet, rest);
  }

  // An error line, such as +ERR=4, is refused.
  lemma ErrorRefused(l: Link, cmd: string, e: Exchange, w: string, rest: string)
    requires l.rx == w + "\n" + rest && Free(w, '\n') && |e.arrivals| > |w|
    requires "+ERR" <= LineAssembler.Stored(w) && |LineAssembler.Stored(w)| < AT_BUF_SIZE
    ensures !LoRaModel.SendAT(l, cmd, e).1
  {
    assert LineAssembler.Stored(w)[1] == "+ERR"[1];
    hide CommandText, ReadOn, Room, Concat, LineAssembler.Stored, LoRaModel.SendAT;
    if |CommandText(cmd)| <= Room(e.text) && 2 <= Room(e.eol) {
      FirstLineDecides(l, cmd, e, w, rest);
    } else {
      var sent, turns, c := AcceptedExactly(l, cmd, e);
    }
  }

  lemma OkIsStored()
    ensures LineAssembler.Stored("+OK") == "+OK" && StartsOk("+OK") && Free("+OK", '\n') && |"+OK"| == 3
  {
    var reply := "+OK";
    assert reply[0] == '+' && reply[1] == 'O' && reply[2] == 'K';
    LineAssembler.StoredPlain(reply);
  }

  // A +OK behind an unsolicited line comes too late: the command is refused, and the +OK is left in the
  // ring as the reply to the next command.
  lemma LateOkRefused(l: Link, cmd: string, e: Exchange, next: string, e': Exchange, line: string, rest: string)
    requires l.rx == line + "\n" + ("+OK" + "\n" + rest) && Free(line, '\n')
    requires |e.arrivals| > |line| && |e'.arrivals| > 3
    requires !StartsOk(LineAssembler.Stored(line)) && |LineAssembler.Stored(line)| < AT_BUF_SIZE
    requires |CommandText(cmd)| <= Room(e.text) && 2 <= Room(e.eol)
    requires |CommandText(next)| <= Room(e'.text) && 2 <= Room(e'.eol)
    ensures var (after, ok) := LoRaModel.SendAT(l, cmd, e);
            !ok && LoRaModel.SendAT(after, next, e').1
  {
    OkIsStored();
    hide CommandText, Room, Concat, LineAssembler.Stored, LoRaModel.SendAT, StartsOk;
    var more := Concat(e.arrivals[..|line| + 1]);
    FirstLineDecides(l, cmd, e, line, "+OK" + "\n" + rest);
    var after := LoRaModel.SendAT(l, cmd, e).0;
    Reassociate("+OK" + "\n", rest, more);
    FirstLineDecides(after, next, e', "+OK", rest + more);
  }
}
