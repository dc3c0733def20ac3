/** What the LoRa driver does to its serial link, its counters and its module state. */
module LoRaModel {
  import opened MachineWords
  import opened Text
  import opened AtCommands
  import opened RcvParser
  import LineAssembler

  const INIT_RETRIES: nat := 3
  const EXCHANGES: nat := 9

  datatype ModuleState = Uninit | Ready | Failed

  function StateCode(s: ModuleState): nat {
    match s
    case Uninit => 0
    case Ready => 1
    case Failed => 2
  }

  // Telemetry channel writes and events, in the order the component emits them.
  datatype Output =
    | InitFailed(attempts: nat)
    | ModuleReady
    | ModuleStateChannel(code: nat)
    | AtBufOverrun
    | PayloadTooLarge(size: nat)
    | TxError(code: nat)
    | TxErrorCount(count: nat)
    | TxPacketCount(count: nat)
    | LastRxRssi(dBm: int)
    | LastRxSnr(x10: int)
    | RxPacketCount(count: nat)
    | PacketReceived(rssi: int, snrX10: int)

  // One look at the transmit FIFO: it has space, or it has none and the deadline is still ahead or over.
  datatype FifoPoll = Writable | Busy | Expired

  // How many bytes a write gets rid of before it finds a full FIFO and the deadline over.
  function Room(polls: seq<FifoPoll>): nat
    decreases |polls|
  {
    if polls == [] || polls[0] == Expired then 0
    else Room(polls[1..]) + (if polls[0] == Writable then 1 else 0)
  }

  // The timing of one command: what the writes of its text and of its line end find at each look at
  // the FIFO, and what the interrupts deliver before each poll of the reply loop.
  datatype Exchange = Exchange(text: seq<FifoPoll>, eol: seq<FifoPoll>, arrivals: seq<string>)

  // One exchange for each command an initialisation may send.
  type Env = env: seq<Exchange> | |env| == EXCHANGES witness seq(EXCHANGES, _ => Exchange([], [], []))

  // The AT buffer, the bytes put on the wire, the bytes waiting in the ring, and everything emitted.
  datatype Link = Link(line: string, wire: string, rx: string, outputs: seq<Output>)

  datatype Driver = Driver(state: ModuleState, link: Link, txCount: nat, txErrors: nat, rxCount: nat)

  function Prefix(s: string, n: nat): string {
    if n < |s| then s[..n] else s
  }

  // ---- Talking to the module

  // hal_uart_write: true when all of s was taken.
  function Write(l: Link, s: string, polls: seq<FifoPoll>): (Link, bool) {
    (l.(wire := l.wire + Prefix(s, Room(polls))), |s| <= Room(polls))
  }

  // A text and its line end, the second only when the first was taken.
  function Transmit(l: Link, text: string, e: Exchange): (Link, bool) {
    var (sent, ok) := Write(l, text, e.text);
    if !ok then (sent, false) else Write(sent, "\r\n", e.eol)
  }

  datatype Progress = Waiting | Complete | Overrun

  // One turn of the reply loop.
  function Poll(l: Link, arrived: string): (Link, Progress) {
    var rx := l.rx + arrived;
    if rx == "" then (l, Waiting)
    else if rx[0] == '\n' then (l.(rx := rx[1..]), Complete)
    else if rx[0] == '\r' then (l.(rx := rx[1..]), Waiting)
    else if |l.line| < AT_BUF_SIZE - 1 then (l.(rx := rx[1..], line := l.line + [rx[0]]), Waiting)
    else (l.(rx := rx[1..], line := "", outputs := l.outputs + [AtBufOverrun]), Overrun)
  }

  // The reply loop: the length it returns is 0 for a timeout and for an overrun.
  function ReadOn(l: Link, arrivals: seq<string>): (Link, nat)
    decreases |arrivals|
  {
    if arrivals == [] then (l, 0)
    else
      match Poll(l, arrivals[0])
      case (l', Waiting) => ReadOn(l', arrivals[1..])
      case (l', Complete) => (l', |l'.line|)
      case (l', Overrun) => (l', 0)
  }

  // readATLine. A completed reply stays in the buffer, and so does the beginning of one that times out.
  function ReadLine(l: Link, arrivals: seq<string>): (Link, nat) {
    ReadOn(l.(line := ""), arrivals)
  }

  // What sendAT sends of a command: a C string of at most 126 characters.
  function CommandText(cmd: string): string {
    Prefix(UpToNul(cmd), AT_BUF_SIZE - 2)
  }

  // +OK, +RESET and +READY, and every other line that starts the same.
  predicate AcceptedReply(reply: string) {
    At(reply, 0) == '+' && |reply| >= 2 && (reply[1] == 'O' || reply[1] == 'R')
  }

  function SendAT(l: Link, cmd: string, e: Exchange): (Link, bool) {
    var (sent, ok) := Transmit(l, CommandText(cmd), e);
    if !ok then (sent, false)
    else
      var (after, n) := ReadLine(sent, e.arrivals);
      (after, n > 0 && AcceptedReply(after.line))
  }

  // ---- Initialisation

  const SETUP: seq<string> :=
    ["AT+RESET", "AT+BAND=868000000", "AT+PARAMETER=9,7,1,12", "AT+ADDRESS=1", "AT+NETWORKID=6", "AT+CRFOP=14"]

  // The attempts from a given one on to get the module to answer.
  function Probe(l: Link, env: Env, attempt: nat): (Link, bool)
    requires attempt <= INIT_RETRIES
    decreases INIT_RETRIES - attempt
  {
    if attempt == INIT_RETRIES then (l, false)
    else
      var (after, ok) := SendAT(l, "AT", env[attempt]);
      if ok then (after, true) else Probe(after, env, attempt + 1)
  }

  // The set-up commands from a given one on.
  function SetUp(l: Link, env: Env, k: nat): (Link, bool)
    requires k <= |SETUP|
    decreases |SETUP| - k
  {
    if k == |SETUP| then (l, true)
    else
      var (after, ok) := SendAT(l, SETUP[k], env[INIT_RETRIES + k]);
      if !ok then (after, false) else SetUp(after, env, k + 1)
  }

  // initModule.
  function InitModule(l: Link, env: Env): (Link, bool) {
    var (after, alive) := Probe(l, env, 0);
    if !alive then (after, false) else SetUp(after, env, 0)
  }

  function Emit(l: Link, es: seq<Output>): Link {
    l.(outputs := l.outputs + es)
  }

  // The start-up handler and the reset command.
  function Restart(d: Driver, env: Env): (Driver, bool) {
    var (l, ok) := InitModule(d.link, env);
    if ok then (d.(state := Ready, link := Emit(l, [ModuleReady, ModuleStateChannel(StateCode(Ready))])), true)
    else
      (d.(state := Failed, link := Emit(l, [InitFailed(INIT_RETRIES), ModuleStateChannel(StateCode(Failed))])), false)
  }

  // ---- Sending packets

  // The digit of "+ERR=<n>", for a reply long enough to have one.
  function ErrorCode(reply: string, n: nat): nat {
    if n >= 6 && |reply| >= 6 then (reply[5] as int - '0' as int) % 256 else 0
  }

  predicate ErrorReply(reply: string) {
    At(reply, 0) == '+' && |reply| >= 2 && reply[1] == 'E'
  }

  function CountError(d: Driver): Driver {
    var n := (d.txErrors + 1) % TWO_TO_32;
    d.(txErrors := n, link := Emit(d.link, [TxErrorCount(n)]))
  }

  function CountSent(d: Driver): Driver {
    var n := (d.txCount + 1) % TWO_TO_32;
    d.(txCount := n, link := Emit(d.link, [TxPacketCount(n)]))
  }

  // What the reply to a frame, of length n, means.
  function Conclude(d: Driver, n: nat): Driver {
    if n == 0 || ErrorReply(d.link.line) then
      CountError(d.(link := Emit(d.link, [TxError(ErrorCode(d.link.line, n))])))
    else CountSent(d)
  }

  // A payload of admissible size, with the module ready.
  function SendPacket(d: Driver, payload: string, e: Exchange): Driver {
    var (sent, ok) := Transmit(d.link, Frame(payload), e);
    if !ok then CountError(d.(link := sent))
    else
      var (after, n) := ReadLine(sent, e.arrivals);
      Conclude(d.(link := after), n)
  }

  // dataIn.
  function DataIn(d: Driver, payload: string, e: Exchange): Driver {
    if d.state != Ready then d
    else if |payload| > PAYLOAD_MAX then d.(link := Emit(d.link, [PayloadTooLarge(|payload|)]))
    else SendPacket(d, payload, e)
  }

  // ---- Receiving packets

  // What the poller keeps across lines.
  datatype Radio = Radio(rxCount: nat, outputs: seq<Output>)

  // The poller together with its line buffer.
  datatype Rx = Rx(line: string, radio: Radio)

  function PacketLine(r: Radio, line: string): Radio {
    match PacketOf(line)
    case Rejected => r
    case Packet(rssi, snr) =>
      var n := (r.rxCount + 1) % TWO_TO_32;
      Radio(n, r.outputs + [LastRxRssi(rssi), LastRxSnr(snr), RxPacketCount(n), PacketReceived(rssi, snr)])
  }

  function Handle(r: Radio, e: LineAssembler.Event): Radio {
    match e
    case Overrun(n) => r.(outputs := r.outputs + [AtBufOverrun])
    case Line(text) => PacketLine(r, text)
  }

  function HandleAll(r: Radio, es: seq<LineAssembler.Event>): Radio {
    if es == [] then r else Handle(HandleAll(r, es[..|es| - 1]), es[|es| - 1])
  }

  // The poller after the bytes s.
  function Receive(x: Rx, s: string): Rx {
    var o := LineAssembler.Feed(AT_BUF_SIZE, x.line, s);
    Rx(o.buffer, HandleAll(x.radio, o.events))
  }

  lemma HandleAllSnoc(r: Radio, es: seq<LineAssembler.Event>, e: LineAssembler.Event)
    ensures HandleAll(r, es + [e]) == Handle(HandleAll(r, es), e)
  {
    assert (es + [e])[..|es|] == es;
    hide Handle;
  }

  lemma {:induction false} HandleAllConcat(r: Radio, es: seq<LineAssembler.Event>, fs: seq<LineAssembler.Event>)
    ensures HandleAll(r, es + fs) == HandleAll(HandleAll(r, es), fs)
    decreases |fs|
  {
    if fs == [] {
      assert es + fs == es;
    } else {
      var before, last := fs[..|fs| - 1], fs[|fs| - 1];
      assert fs == before + [last] && es + fs == (es + before) + [last];
      hide HandleAll, Handle;
      HandleAllConcat(r, es, before);
      HandleAllSnoc(r, es + before, last);
      HandleAllSnoc(HandleAll(r, es), before, last);
    }
  }

  lemma ReceiveConcat(x: Rx, s: string, t: string)
    ensures Receive(x, s + t) == Receive(Receive(x, s), t)
  {
    LineAssembler.FeedConcat(AT_BUF_SIZE, x.line, s, t);
    var first := LineAssembler.Feed(AT_BUF_SIZE, x.line, s);
    HandleAllConcat(x.radio, first.events, LineAssembler.Feed(AT_BUF_SIZE, first.buffer, t).events);
  }

  lemma HandleOne(r: Radio, es: seq<LineAssembler.Event>)
    requires |es| <= 1
    ensures HandleAll(r, es) == (if es == [] then r else Handle(r, es[0]))
  {
    if es != [] {
      assert HandleAll(r, es[..0]) == r;
    }
  }

  // One more byte: what the drain loop does.
  lemma ReceiveByte(x: Rx, s: string, c: char)
    ensures var before := Receive(x, s);
            var now := LineAssembler.Step(AT_BUF_SIZE, before.line, c);
            && |now.events| <= 1
            && Receive(x, s + [c]) ==
               Rx(now.buffer, if now.events == [] then before.radio else Handle(before.radio, now.events[0]))
  {
    ReceiveConcat(x, s, [c]);
    var before := Receive(x, s);
    var now := LineAssembler.Step(AT_BUF_SIZE, before.line, c);
    LineAssembler.FeedByte(AT_BUF_SIZE, before.line, c);
    HandleOne(before.radio, now.events);
  }

  // The poller's part of the driver.
  function RxOf(d: Driver): Rx {
    Rx(d.link.line, Radio(d.rxCount, d.link.outputs))
  }

  function WithRx(d: Driver, x: Rx, rest: string): Driver {
    d.(rxCount := x.radio.rxCount, link := d.link.(line := x.line, rx := rest, outputs := x.radio.outputs))
  }

  const DRAIN_LIMIT: nat := 256

  // schedIn: at most 256 of the waiting bytes are drained, and only when the module is ready.
  function SchedIn(d: Driver): Driver {
    if d.state != Ready then d
    else
      var n := if |d.link.rx| < DRAIN_LIMIT then |d.link.rx| else DRAIN_LIMIT;
      WithRx(d, Receive(RxOf(d), d.link.rx[..n]), d.link.rx[n..])
  }
}
