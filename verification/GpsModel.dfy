/** What the GPS receiver publishes for a stream of received bytes. */
module GpsModel {
  import opened MachineWords
  import opened Text
  import opened NmeaFields
  import opened NmeaTokens
  import NmeaChecksum
  import LineAssembler

  // Telemetry channel writes and events, in the order the component emits them.
  datatype Output =
    | UtcTime(hms: nat)
    | FixQuality(quality: nat)
    | SatCount(sats: nat)
    | Latitude(microDegrees: int)
    | Longitude(microDegrees: int)
    | Altitude(cm: int)
    | Hdop(x100: nat)
    | SentenceCount(count: nat)
    | FixAcquired(sats: nat)
    | FixLost
    | ParseError(field: nat)
    | ChecksumError(sentence: string)
    | UartOverrun(length: nat)

  // The values of one GGA sentence, or the number of the field that does not parse.
  datatype Gga =
    | Fix(quality: nat, sats: nat, latitude: int, longitude: int, altitude: int, hdop: nat)
    | Bad(field: nat)

  // The receiver's memory across lines, with everything emitted so far.
  datatype Receiver = Receiver(lastFix: nat, count: nat, outputs: seq<Output>)

  // The receiver together with its line buffer.
  datatype Gps = Gps(line: string, core: Receiver)

  function TwoDigits(tens: char, units: char): (r: nat)
    ensures r < 256
  {
    ((tens as int - '0' as int) * 10 + (units as int - '0' as int)) % 256
  }

  // hh, mm and ss packed into one word; a time field of fewer than six characters reads as zero.
  function UtcHms(t: string): nat {
    if |t| < 6 then 0
    else TwoDigits(t[0], t[1]) * 0x1_0000 + TwoDigits(t[2], t[3]) * 0x100 + TwoDigits(t[4], t[5])
  }

  function HdopX100(v: int): nat {
    if 0 <= v <= 65535 then v else 9999
  }

  function ParseFix(f: seq<string>): Gga
    requires |f| >= 10
  {
    var latitude := DegMin(f[2], At(f[3], 0));
    var longitude := DegMin(f[4], At(f[5], 0));
    var quality, sats := SmallInt(f[6]), SmallInt(f[7]);
    var hdop, altitude := FixedPoint(f[8], 100), FixedPoint(f[9], 100);
    if latitude.Malformed? then Bad(2)
    else if longitude.Malformed? then Bad(4)
    else if quality.Malformed? then Bad(6)
    else if sats.Malformed? then Bad(7)
    else if hdop.Malformed? then Bad(8)
    else if altitude.Malformed? then Bad(9)
    else Fix(quality.value, sats.value, I32(latitude.value), I32(longitude.value), I32(altitude.value),
             HdopX100(I32(hdop.value)))
  }

  // Fix acquired and fix lost are reported on changes between zero and non-zero quality.
  function FixEvent(quality: nat, sats: nat, lastFix: nat): seq<Output> {
    if quality > 0 && lastFix == 0 then [FixAcquired(sats)]
    else if quality == 0 && lastFix > 0 then [FixLost]
    else []
  }

  function Published(fix: Gga): seq<Output>
    requires fix.Fix?
  {
    [FixQuality(fix.quality), SatCount(fix.sats), Latitude(fix.latitude), Longitude(fix.longitude),
     Altitude(fix.altitude), Hdop(fix.hdop)]
  }

  // The time is published before the other fields are looked at, so also for a sentence that fails.
  function Emit(r: Receiver, utc: nat, fix: Gga): (Receiver, bool) {
    var timed := r.outputs + [UtcTime(utc)];
    if fix.Bad? then (r.(outputs := timed + [ParseError(fix.field)]), false)
    else
      (r.(outputs := timed + Published(fix) + FixEvent(fix.quality, fix.sats, r.lastFix), lastFix := fix.quality), true)
  }

  function Report(r: Receiver, f: seq<string>): (Receiver, bool) {
    if |f| < 10 then (r.(outputs := r.outputs + [ParseError(0)]), false)
    else Emit(r, UtcHms(f[1]), ParseFix(f))
  }

  // parseGGA: the memory afterwards and whether the sentence was accepted.
  function ParseSentence(r: Receiver, sentence: string): (Receiver, bool) {
    Report(r, Fields(sentence))
  }

  // A GGA sentence of any talker.
  predicate IsGga(line: string) {
    |line| >= 6 && line[0] == '$' && line[3] == 'G' && line[4] == 'G' && line[5] == 'A'
  }

  // processLine.
  function ProcessLine(r: Receiver, line: string): Receiver {
    if !IsGga(line) then r
    else if !NmeaChecksum.Accepts(line) then r.(outputs := r.outputs + [ChecksumError(UpToNul(line))])
    else
      var (after, accepted) := ParseSentence(r, UpToNul(line));
      if !accepted then after
      else
        var n := (after.count + 1) % TWO_TO_32;
        after.(count := n, outputs := after.outputs + [SentenceCount(n)])
  }

  // What the assembler reports: complete lines and overruns. An empty line is not processed.
  function Handle(r: Receiver, e: LineAssembler.Event): Receiver {
    match e
    case Overrun(n) => r.(outputs := r.outputs + [UartOverrun(n)])
    case Line(text) => if text == "" then r else ProcessLine(r, text)
  }

  function HandleAll(r: Receiver, es: seq<LineAssembler.Event>): Receiver {
    if es == [] then r else Handle(HandleAll(r, es[..|es| - 1]), es[|es| - 1])
  }

  // The receiver after the bytes s.
  function Receive(g: Gps, s: string): Gps {
    var o := LineAssembler.Feed(LINE_BUF_SIZE, g.line, s);
    Gps(o.buffer, HandleAll(g.core, o.events))
  }

  // The receiver after several drains, each of its own batch of bytes.
  function ReceiveAll(g: Gps, drains: seq<string>): Gps
    decreases |drains|
  {
    if drains == [] then g else ReceiveAll(Receive(g, drains[0]), drains[1..])
  }

  lemma HandleAllSnoc(r: Receiver, es: seq<LineAssembler.Event>, e: LineAssembler.Event)
    ensures HandleAll(r, es + [e]) == Handle(HandleAll(r, es), e)
  {
    assert (es + [e])[..|es|] == es;
    hide Handle;
  }

  lemma {:induction false} HandleAllConcat(r: Receiver, es: seq<LineAssembler.Event>, fs: seq<LineAssembler.Event>)
    ensures HandleAll(r, es + fs) == HandleAll(HandleAll(r, es), fs)
    decreases |fs|
  {
    if fs == [] {
      assert es + fs == es;
    } else {
      var before, last := fs[..|fs| - 1], fs[|fs| - 1];
      assert fs == before + [last] && es + fs == (es + before) + [last];
      hide HandleAll, Handle;
      HandleAllConcat(r, es, before);
      HandleAllSnoc(r, es + before, last);
      HandleAllSnoc(HandleAll(r, es), before, last);
    }
  }

  lemma ReceiveConcat(g: Gps, s: string, t: string)
    ensures Receive(g, s + t) == Receive(Receive(g, s), t)
  {
    LineAssembler.FeedConcat(LINE_BUF_SIZE, g.line, s, t);
    var first := LineAssembler.Feed(LINE_BUF_SIZE, g.line, s);
    HandleAllConcat(g.core, first.events, LineAssembler.Feed(LINE_BUF_SIZE, first.buffer, t).events);
  }

  // Chunk independence: only the concatenated byte stream matters, not how the drains cut it.
  lemma {:induction false} ChunkIndependence(g: Gps, drains: seq<string>)
    ensures ReceiveAll(g, drains) == Receive(g, Concat(drains))
    decreases |drains|
  {
    if drains == [] {
      assert Receive(g, "") == g;
    } else {
      ReceiveConcat(g, drains[0], Concat(drains[1..]));
      hide Receive;
      ChunkIndependence(Receive(g, drains[0]), drains[1..]);
    }
  }

  lemma HandleOne(r: Receiver, es: seq<LineAssembler.Event>)
    requires |es| <= 1
    ensures HandleAll(r, es) == (if es == [] then r else Handle(r, es[0]))
  {
    hide Handle;
    if es != [] {
      assert HandleAll(r, es[..0]) == r;
    }
  }

  // One more byte: what the drain loop does.
  lemma ReceiveByte(g: Gps, s: string, c: char)
    ensures var before := Receive(g, s);
            var now := LineAssembler.Step(LINE_BUF_SIZE, before.line, c);
            && |now.events| <= 1
            && Receive(g, s + [c]) ==
               Gps(now.buffer, if now.events == [] then before.core else Handle(before.core, now.events[0]))
  {
    ReceiveConcat(g, s, [c]);
    var before := Receive(g, s);
    var now := LineAssembler.Step(LINE_BUF_SIZE, before.line, c);
    LineAssembler.FeedByte(LINE_BUF_SIZE, before.line, c);
    HandleOne(before.core, now.events);
  }
}
