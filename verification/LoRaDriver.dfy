/** The LoRa driver component: its fields and handlers, proved against LoRaModel. */
module LoRaDriver {
  import opened MachineWords
  import opened Text
  import opened AtCommands
  import opened LoRaModel
  import RcvParser
  import LineAssembler

  class LoRaDriver {
    var state: ModuleState
    const atBuf: array<char>
    var atBufLen: nat
    var txCount: nat
    var txErrors: nat
    var rxCount: nat
    // Channel writes and events, in order.
    var outputs: seq<Output>
    // Every byte that UART0 took.
    var wire: string
    // The bytes waiting in the UART0 ring buffer.
    var rx: string

    ghost predicate Valid()
      reads this
    {
      && atBuf.Length == AT_BUF_SIZE && atBufLen < AT_BUF_SIZE
      && txCount < TWO_TO_32 && txErrors < TWO_TO_32 && rxCount < TWO_TO_32
    }

    ghost function LinkState(): Link
      reads this, atBuf
      requires Valid()
    {
      Link(atBuf[..atBufLen], wire, rx, outputs)
    }

    ghost function State(): Driver
      reads this, atBuf
      requires Valid()
    {
      Driver(state, LinkState(), txCount, txErrors, rxCount)
    }

    ghost function RxState(): Rx
      reads this, atBuf
      requires Valid()
    {
      Rx(atBuf[..atBufLen], Radio(rxCount, outputs))
    }

    constructor ()
      ensures Valid() && fresh(atBuf)
      ensures State() == Driver(Uninit, Link("", "", "", []), 0, 0, 0)
    {
      atBuf := new char[AT_BUF_SIZE](_ => '\0');
      state, atBufLen, txCount, txErrors, rxCount := Uninit, 0, 0, 0, 0;
      outputs, wire, rx := [], "", "";
    }

    // uart_write. Each look at the FIFO is one entry of polls; after the last one it stays full and
    // the deadline is over.
    method UartWrite(s: string, polls: seq<FifoPoll>) returns (ok: bool)
      requires Valid()
      modifies this`wire
      ensures Valid() && (LinkState(), ok) == Write(old(LinkState()), s, polls)
    {
      ghost var start := wire;
      var i, turn := 0, 0;
      assert polls[0..] == polls && s[..0] == "" && start + "" == start;
      while i < |s|
        invariant i <= |s| && turn <= |polls| && Valid()
        invariant wire == start + s[..i] && Room(polls) == i + Room(polls[turn..])
      {
        while turn == |polls| || polls[turn] != Writable
          invariant turn <= |polls| && Room(polls) == i + Room(polls[turn..])
          decreases |polls| - turn
        {
          if turn == |polls| || polls[turn] == Expired {
            return false;
          }
          assert polls[turn..][1..] == polls[turn + 1..];
          turn := turn + 1;
        }
        assert polls[turn..][1..] == polls[turn + 1..] && s[..i + 1] == s[..i] + [s[i]];
        wire := wire + [s[i]];
        turn := turn + 1;
        i := i + 1;
      }
      assert s[..i] == s;
      ok := true;
    }

    // hal_uart_getc.
    method GetC() returns (ok: bool, byte: char)
      modifies this`rx
      ensures ok == (old(rx) != "")
      ensures ok ==> byte == old(rx)[0] && rx == old(rx)[1..]
      ensures !ok ==> rx == old(rx)
    {
      if rx == "" {
        return false, '\0';
      }
      ok, byte, rx := true, rx[0], rx[1..];
    }

    method Store(byte: char)
      requires Valid() && atBufLen < AT_BUF_SIZE - 1
      modifies this`atBufLen, atBuf
      ensures Valid() && atBufLen == old(atBufLen) + 1 && atBuf[..atBufLen] == old(atBuf[..atBufLen]) + [byte]
    {
      atBuf[atBufLen] := byte;
      atBufLen := atBufLen + 1;
    }

    // One turn of the reply loop.
    method PollReply(arrived: string) returns (p: Progress)
      requires Valid()
      modifies this`atBufLen, this`outputs, this`rx, atBuf
      ensures Valid() && (LinkState(), p) == Poll(old(LinkState()), arrived)
      ensures p == Complete ==> atBuf[atBufLen] == '\0'
    {
      rx := rx + arrived;
      var ok, byte := GetC();
      p := Waiting;
      if ok {
        if byte == '\n' {
          ghost var line := atBuf[..atBufLen];
          atBuf[atBufLen] := '\0';
          assert atBuf[..atBufLen] == line;
          p := Complete;
        } else if byte != '\r' {
          if atBufLen < AT_BUF_SIZE - 1 {
            Store(byte);
          } else {
            outputs := outputs + [AtBufOverrun];
            atBufLen := 0;
            p := Progress.Overrun;
          }
        }
      }
    }

    // readATLine. The clock allows one poll for each entry of arrivals, which says what the
    // interrupts deliver before it.
    method ReadATLine(arrivals: seq<string>) returns (len: nat)
      requires Valid()
      modifies this`atBufLen, this`outputs, this`rx, atBuf
      ensures Valid() && (LinkState(), len) == ReadLine(old(LinkState()), arrivals)
      ensures len > 0 ==> len == atBufLen && atBuf[len] == '\0'
    {
      atBufLen := 0;
      assert atBuf[..0] == "";
      ghost var start := LinkState();
      var turn := 0;
      while turn < |arrivals|
        invariant turn <= |arrivals| && Valid()
        invariant ReadOn(LinkState(), arrivals[turn..]) == ReadOn(start, arrivals)
      {
        hide Poll;
        assert arrivals[turn..][0] == arrivals[turn] && arrivals[turn..][1..] == arrivals[turn + 1..];
        var progress := PollReply(arrivals[turn]);
        turn := turn + 1;
        match progress {
          case Waiting =>
          case Complete => return atBufLen;
          case Overrun => return 0;
        }
      }
      return 0;
    }

    // The text of a command: the length scan of sendAT.
    method Measure(cmd: string) returns (n: nat)
      ensures n <= |cmd| && cmd[..n] == CommandText(cmd)
    {
      n := 0;
      while At(cmd, n) != '\0' && n < AT_BUF_SIZE - 2
        invariant n <= |cmd| && n <= AT_BUF_SIZE - 2 && forall k :: 0 <= k < n ==> cmd[k] != '\0'
        decreases |cmd| - n
      {
        n := n + 1;
      }
      assert IndexOf(cmd, '\0', 0) >= n;
      if n < AT_BUF_SIZE - 2 {
        IndexOfUnique(cmd, '\0', 0, n);
      }
    }

    // The two writes of a command or a frame.
    method SendLine(text: string, e: Exchange) returns (ok: bool)
      requires Valid()
      modifies this`wire
      ensures Valid() && (LinkState(), ok) == Transmit(old(LinkState()), text, e)
    {
      hide Write;
      ok := UartWrite(text, e.text);
      if !ok {
        return;
      }
      ok := UartWrite("\r\n", e.eol);
    }

    // sendAT.
    method SendAT(cmd: string, e: Exchange) returns (ok: bool)
      requires Valid()
      modifies this`atBufLen, this`outputs, this`rx, this`wire, atBuf
      ensures Valid() && (LinkState(), ok) == LoRaModel.SendAT(old(LinkState()), cmd, e)
    {
      hide CommandText, Transmit, ReadOn;
      var n := Measure(cmd);
      var sent := SendLine(cmd[..n], e);
      if !sent {
        return false;
      }
      var len := ReadATLine(e.arrivals);
      if len == 0 {
        return false;
      }
      ok := atBuf[0] == '+' && (atBuf[1] == 'O' || atBuf[1] == 'R');
    }

    // The retry loop of initModule.
    method ProbeModule(env: Env) returns (alive: bool)
      requires Valid()
      modifies this`atBufLen, this`outputs, this`rx, this`wire, atBuf
      ensures Valid() && (LinkState(), alive) == Probe(old(LinkState()), env, 0)
    {
      ghost var start := LinkState();
      alive := false;
      var attempt := 0;
      while attempt < INIT_RETRIES
        invariant attempt <= INIT_RETRIES && Valid() && !alive
        invariant Probe(LinkState(), env, attempt) == Probe(start, env, 0)
      {
        hide LoRaModel.SendAT;
        var ok := SendAT("AT", env[attempt]);
        if ok {
          return true;
        }
        attempt := attempt + 1;
      }
    }

    // The set-up commands of initModule.
    method Configure(env: Env) returns (ok: bool)
      requires Valid()
      modifies this`atBufLen, this`outputs, this`rx, this`wire, atBuf
      ensures Valid() && (LinkState(), ok) == SetUp(old(LinkState()), env, 0)
    {
      hide LoRaModel.SendAT;
      ok := SendAT("AT+RESET", env[3]);
      if !ok { return; }
      var band := BandCommand();
      ok := SendAT(band, env[4]);
      if !ok { return; }
      ok := SendAT("AT+PARAMETER=9,7,1,12", env[5]);
      if !ok { return; }
      ok := SendAT("AT+ADDRESS=1", env[6]);
      if !ok { return; }
      ok := SendAT("AT+NETWORKID=6", env[7]);
      if !ok { return; }
      ok := SendAT("AT+CRFOP=14", env[8]);
    }

    // initModule.
    method InitModule(env: Env) returns (ok: bool)
      requires Valid()
      modifies this`atBufLen, this`outputs, this`rx, this`wire, atBuf
      ensures Valid() && (LinkState(), ok) == LoRaModel.InitModule(old(LinkState()), env)
    {
      var alive := ProbeModule(env);
      if !alive {
        return false;
      }
      ok := Configure(env);
    }

    // preamble, and LORA_RESET_cmdHandler with its command response.
    method Restart(env: Env) returns (ok: bool)
      requires Valid()
      modifies this`state, this`atBufLen, this`outputs, this`rx, this`wire, atBuf
      ensures Valid() && (State(), ok) == LoRaModel.Restart(old(State()), env)
    {
      hide LoRaModel.InitModule;
      ok := InitModule(env);
      if ok {
        state := Ready;
        outputs := outputs + [ModuleReady, ModuleStateChannel(StateCode(state))];
      } else {
        state := Failed;
        outputs := outputs + [InitFailed(INIT_RETRIES), ModuleStateChannel(StateCode(state))];
      }
    }

    method CountTxError()
      requires Valid()
      modifies this`txErrors, this`outputs
      ensures Valid() && State() == CountError(old(State()))
    {
      txErrors := (txErrors + 1) % TWO_TO_32;
      outputs := outputs + [TxErrorCount(txErrors)];
    }

    // The closing lines of dataIn_handler.
    method ConcludeReply(respLen: nat)
      requires Valid() && (respLen > 0 ==> respLen == atBufLen && atBuf[respLen] == '\0')
      modifies this`txCount, this`txErrors, this`outputs
      ensures Valid() && State() == Conclude(old(State()), respLen)
    {
      if respLen == 0 || (atBuf[0] == '+' && atBuf[1] == 'E') {
        var errCode := 0;
        if respLen >= 6 {
          errCode := (atBuf[5] as int - '0' as int) % 256;
        }
        outputs := outputs + [TxError(errCode)];
        CountTxError();
      } else {
        txCount := (txCount + 1) % TWO_TO_32;
        outputs := outputs + [TxPacketCount(txCount)];
      }
    }

    // dataIn_handler after its checks.
    method SendFrame(payload: string, e: Exchange)
      requires Valid() && |payload| <= PAYLOAD_MAX
      modifies this`txCount, this`txErrors, this`atBufLen, this`outputs, this`rx, this`wire, atBuf
      ensures Valid() && State() == SendPacket(old(State()), payload, e)
    {
      hide Frame, Transmit, ReadLine, Conclude;
      var cmd, idx := BuildFrame(payload);
      var sent := SendLine(cmd[..idx], e);
      if !sent {
        CountTxError();
        return;
      }
      var respLen := ReadATLine(e.arrivals);
      ConcludeReply(respLen);
    }

    // dataIn_handler.
    method DataIn(payload: string, e: Exchange)
      requires Valid()
      modifies this`txCount, this`txErrors, this`atBufLen, this`outputs, this`rx, this`wire, atBuf
      ensures Valid() && State() == LoRaModel.DataIn(old(State()), payload, e)
    {
      hide SendPacket;
      if state != Ready {
        return;
      }
      if |payload| > PAYLOAD_MAX {
        outputs := outputs + [PayloadTooLarge(|payload|)];
        return;
      }
      SendFrame(payload, e);
    }

    method HasRcvPrefix() returns (isRcv: bool)
      requires Valid()
      ensures isRcv == RcvParser.IsRcv(atBuf[..atBufLen])
    {
      isRcv := atBufLen >= 5 &&
               atBuf[0] == '+' && atBuf[1] == 'R' && atBuf[2] == 'C' && atBuf[3] == 'V' && atBuf[4] == '=';
      assert atBufLen >= 5 ==> atBuf[..atBufLen][..5] == [atBuf[0], atBuf[1], atBuf[2], atBuf[3], atBuf[4]];
    }

    method ParseLine() returns (ok: bool, rssi: int, snr: int)
      requires Valid()
      modifies atBuf
      ensures var p := RcvParser.PacketOf(old(atBuf[..atBufLen]));
              if ok then p == RcvParser.Packet(rssi, snr) else p == RcvParser.Rejected
    {
      ghost var line := atBuf[..atBufLen];
      atBuf[atBufLen] := '\0';
      assert atBuf[..atBufLen] == line;
      TerminatedLine(atBuf[..], line);
      hide UpToNul, CString, Terminated, RcvParser.Parse, RcvParser.IsRcv;
      var isRcv := HasRcvPrefix();
      if !isRcv {
        return false, 0, 0;
      }
      RcvParser.RcvPrefixStays(line);
      ok, rssi, snr := RcvParser.ParseRcv(atBuf);
    }

    // A completed line: a packet line is counted and reported.
    method TakeLine()
      requires Valid()
      modifies this`rxCount, this`outputs, atBuf
      ensures Valid() && RxState().radio == PacketLine(old(RxState()).radio, old(RxState()).line)
    {
      hide RcvParser.PacketOf;
      var ok, rssi, snr := ParseLine();
      if ok {
        rxCount := (rxCount + 1) % TWO_TO_32;
        outputs := outputs + [LastRxRssi(rssi), LastRxSnr(snr), RxPacketCount(rxCount), PacketReceived(rssi, snr)];
      }
    }

    // The body of the drain loop for one byte.
    method Assemble(byte: char)
      requires Valid()
      modifies this`rxCount, this`atBufLen, this`outputs, atBuf
      ensures Valid()
      ensures var now := LineAssembler.Step(AT_BUF_SIZE, old(RxState()).line, byte);
              var radio := old(RxState()).radio;
              RxState() == Rx(now.buffer, if now.events == [] then radio else Handle(radio, now.events[0]))
    {
      hide PacketLine;
      if byte == '\n' {
        TakeLine();
        atBufLen := 0;
      } else if byte != '\r' {
        if atBufLen < AT_BUF_SIZE - 1 {
          Store(byte);
        } else {
          outputs := outputs + [AtBufOverrun];
          atBufLen := 0;
        }
      }
    }

    // pollRx.
    method PollRx()
      requires Valid()
      modifies this`rxCount, this`atBufLen, this`outputs, this`rx, atBuf
      ensures Valid()
      ensures var n := if |old(rx)| < 256 then |old(rx)| else 256;
              RxState() == Receive(old(RxState()), old(rx)[..n]) && rx == old(rx)[n..]
    {
      ghost var start, pending, x := RxState(), rx, RxState();
      var drainCount := 0;
      assert pending[..0] == "" && Receive(start, "") == start;
      while drainCount < DRAIN_LIMIT && rx != ""
        invariant Valid()
        invariant drainCount <= DRAIN_LIMIT && drainCount <= |pending| && rx == pending[drainCount..]
        invariant x == RxState() && x == Receive(start, pending[..drainCount])
        decreases DRAIN_LIMIT - drainCount
      {
        hide Receive, Handle;
        ghost var c := rx[0];
        assert pending[..drainCount + 1] == pending[..drainCount] + [c];
        ReceiveByte(start, pending[..drainCount], c);
        var ok, byte := GetC();
        drainCount := drainCount + 1;
        Assemble(byte);
        x := RxState();
      }
    }

    // schedIn_handler.
    method SchedIn()
      requires Valid()
      modifies this`rxCount, this`atBufLen, this`outputs, this`rx, atBuf
      ensures Valid() && State() == LoRaModel.SchedIn(old(State()))
    {
      if state != Ready {
        return;
      }
      PollRx();
    }
  }
}
