/** Printing a position fix as a checksummed GGA sentence (section 6.3 of NMEA 0183) and receiving it. */
module GpsRoundTrip {
  import opened MachineWords
  import opened Text
  import opened Decimal
  import opened NmeaFields
  import opened NmeaFieldLaws
  import opened NmeaTokens
  import opened GpsSentence
  import opened GpsModel
  import GpsRuns
  import NmeaChecksum

  // The magnitude of a number in hundredths, rounded down.
  function Hundredths(x: FixedNumber): nat {
    MulDiv(x.Units(), 100, Pow10(x.places))
  }

  // Millionths of a degree, rounded toward zero: a ten-thousandth of a minute is 5/3 of one.
  function AngleE6(degrees: nat, minutesE4: nat, negative: bool): int {
    var magnitude := degrees * 1_000_000 + minutesE4 * 5 / 3;
    if negative then -magnitude else magnitude
  }

  datatype FixRecord = FixRecord(
    talker: string,
    hh: nat, mm: nat, ss: nat, subseconds: string,
    latDegrees: nat, latMinutesE4: nat, south: bool,
    lonDegrees: nat, lonMinutesE4: nat, west: bool,
    quality: nat, sats: nat,
    hdop: FixedNumber, altitude: FixedNumber,
    extra: seq<string>)
  {
    predicate Valid() {
      && |talker| == 2 && Plain(talker)
      && hh < 100 && mm < 100 && ss < 100 && Plain(subseconds)
      && latDegrees < 100 && latMinutesE4 < 600_000
      && lonDegrees < 1000 && lonMinutesE4 < 600_000
      && quality <= 255 && sats <= 255
      && hdop.Valid() && Hundredths(hdop) < 0x8000_0000
      && altitude.Valid() && Hundredths(altitude) < 0x8000_0000
      && |extra| >= 1 && forall k :: 0 <= k < |extra| ==> Plain(extra[k])
    }

    function Time(): string {
      Pad(hh, 2) + Pad(mm, 2) + Pad(ss, 2) + subseconds
    }

    // The ten fields that the receiver reads, then the rest.
    function Pieces(): seq<string> {
      [talker + "GGA", Time(),
       PrintDegMin(latDegrees, 2, latMinutesE4), if south then "S" else "N",
       PrintDegMin(lonDegrees, 3, lonMinutesE4), if west then "W" else "E",
       Dec(quality), Dec(sats), hdop.Print(), altitude.Print()] + extra
    }

    function Sentence(upperHi: bool, upperLo: bool): string {
      Printed(Pieces(), upperHi, upperLo)
    }

    function LatitudeE6(): int {
      AngleE6(latDegrees, latMinutesE4, south)
    }

    function LongitudeE6(): int {
      AngleE6(lonDegrees, lonMinutesE4, west)
    }

    function AltitudeCm(): int {
      var cm: int := Hundredths(altitude);
      if altitude.negative then -cm else cm
    }

    // A dilution of precision that is negative or does not fit 16 bits is published as 99.99.
    function HdopX100(): nat {
      if Hundredths(hdop) > 65535 || (hdop.negative && Hundredths(hdop) > 0) then 9999 else Hundredths(hdop)
    }

    function Encoded(): Gga {
      Fix(quality, sats, LatitudeE6(), LongitudeE6(), AltitudeCm(), HdopX100())
    }

    function PackedTime(): nat {
      hh * 0x1_0000 + mm * 0x100 + ss
    }
  }

  // What a record announces to a receiver in state r, channel by channel: the time, the six channels,
  // a fix event on a change between no fix and a fix, and the count.
  predicate Announces(r: Receiver, x: FixRecord, after: Receiver) {
    var n := (r.count + 1) % 0x1_0000_0000;
    && after.lastFix == x.quality && after.count == n
    && after.outputs ==
       r.outputs +
       [UtcTime(x.hh * 0x1_0000 + x.mm * 0x100 + x.ss), FixQuality(x.quality), SatCount(x.sats),
        Latitude(x.LatitudeE6()), Longitude(x.LongitudeE6()), Altitude(x.AltitudeCm()), Hdop(x.HdopX100())] +
       (if x.quality > 0 && r.lastFix == 0 then [FixAcquired(x.sats)]
        else if x.quality == 0 && r.lastFix > 0 then [FixLost] else []) +
       [SentenceCount(n)]
  }

  // ---- Printed fields are plain text

  lemma DigitsArePlain(s: string)
    requires AllDigits(s)
    ensures Plain(s)
  {
    forall k | 0 <= k < |s| ensures PlainChar(s[k]) {
      assert IsDigit(s[k]);
    }
  }

  lemma PlainConcat(a: string, b: string)
    requires Plain(a) && Plain(b)
    ensures Plain(a + b)
  {
  }

  lemma PadIsPlain(n: nat, w: nat)
    requires n < Pow10(w)
    ensures Plain(Pad(n, w))
  {
    PadDenotes(n, w);
    DigitsArePlain(Pad(n, w));
  }

  lemma DegMinIsPlain(degrees: nat, width: nat, minutesE4: nat)
    requires degrees < Pow10(width) && minutesE4 < 1_000_000
    ensures Plain(PrintDegMin(degrees, width, minutesE4))
  {
    assert Pow10(2) == 100 && Pow10(4) == 10_000;
    hide Pow10, Pad;
    PadIsPlain(degrees, width);
    PadIsPlain(minutesE4 / 10_000, 2);
    PadIsPlain(minutesE4 % 10_000, 4);
    assert Plain(".");
  }

  lemma NumberIsPlain(x: FixedNumber)
    requires x.Valid()
    ensures Plain(x.Print())
  {
    hide Dec, Pad, Pow10;
    DecDenotes(x.whole);
    DigitsArePlain(Dec(x.whole));
    PadIsPlain(x.fraction, x.places);
    assert Plain("-") && Plain(".");
  }

  lemma AnglesArePlain(x: FixRecord)
    requires x.Valid()
    ensures Plain(PrintDegMin(x.latDegrees, 2, x.latMinutesE4)) && Plain(PrintDegMin(x.lonDegrees, 3, x.lonMinutesE4))
  {
    assert Pow10(2) == 100 && Pow10(3) == 1000;
    hide Plain, Pow10, PrintDegMin;
    DegMinIsPlain(x.latDegrees, 2, x.latMinutesE4);
    DegMinIsPlain(x.lonDegrees, 3, x.lonMinutesE4);
  }

  lemma CountsArePlain(x: FixRecord)
    ensures Plain(Dec(x.quality)) && Plain(Dec(x.sats))
  {
    DecDenotes(x.quality);
    DecDenotes(x.sats);
    hide Plain, Dec;
    DigitsArePlain(Dec(x.quality));
    DigitsArePlain(Dec(x.sats));
  }

  lemma LettersArePlain(x: FixRecord)
    requires x.Valid()
    ensures Plain(x.talker + "GGA") && Plain("S") && Plain("N") && Plain("W") && Plain("E")
  {
    assert Plain("GGA");
    PlainConcat(x.talker, "GGA");
  }

  // A list of ten given fields and the rest.
  lemma AllPlain(first: seq<string>, extra: seq<string>)
    requires (forall k :: 0 <= k < |first| ==> Plain(first[k])) && forall k :: 0 <= k < |extra| ==> Plain(extra[k])
    ensures forall k :: 0 <= k < |first + extra| ==> Plain((first + extra)[k])
  {
    hide Plain;
  }

  lemma TimeIsPlain(x: FixRecord)
    requires x.Valid()
    ensures Plain(x.Time())
  {
    assert Pow10(2) == 100;
    PadIsPlain(x.hh, 2);
    PadIsPlain(x.mm, 2);
    PadIsPlain(x.ss, 2);
  }

  lemma PiecesArePlain(x: FixRecord)
    requires x.Valid()
    ensures GgaPieces(x.Pieces())
  {
    assert (x.talker + "GGA")[2..] == "GGA";
    hide Plain, Dec, Pow10, PrintDegMin, FixedNumber.Print, FixRecord.Time;
    LettersArePlain(x);
    TimeIsPlain(x);
    AnglesArePlain(x);
    CountsArePlain(x);
    NumberIsPlain(x.hdop);
    NumberIsPlain(x.altitude);
    AllPlain(x.Pieces()[..10], x.extra);
  }

  // ---- What the receiver reads

  lemma TwoDigitsRead(n: nat)
    requires n < 100
    ensures TwoDigits(Pad(n, 2)[0], Pad(n, 2)[1]) == n
  {
    assert Pad(n, 2) == Pad(n / 10, 1) + [Digit(n % 10)];
    assert Pad(n / 10, 1) == Pad(n / 100, 0) + [Digit(n / 10 % 10)];
  }

  lemma TimeReads(x: FixRecord)
    requires x.Valid()
    ensures UtcHms(x.Time()) == x.PackedTime()
  {
    TwoDigitsRead(x.hh);
    TwoDigitsRead(x.mm);
    TwoDigitsRead(x.ss);
    var t := x.Time();
    assert t[0] == Pad(x.hh, 2)[0] && t[1] == Pad(x.hh, 2)[1];
    assert t[2] == Pad(x.mm, 2)[0] && t[3] == Pad(x.mm, 2)[1];
    assert t[4] == Pad(x.ss, 2)[0] && t[5] == Pad(x.ss, 2)[1];
    hide Pad, TwoDigits;
  }

  lemma AngleIs(degrees: nat, minutesE4: nat, negative: bool)
    ensures AngleE6(degrees, minutesE4, negative) == Signed(negative, MicroDegrees(degrees, minutesE4))
  {
    assert minutesE4 * 100 / 60 == minutesE4 * 5 / 3;
  }

  lemma CoordinateReads(degrees: nat, width: nat, minutesE4: nat, negative: bool, marks: (string, string))
    requires 1 <= width <= 3 && degrees < Pow10(width) && minutesE4 < 600_000
    requires marks in {("S", "N"), ("W", "E")}
    ensures var v := DegMin(PrintDegMin(degrees, width, minutesE4), At(if negative then marks.0 else marks.1, 0));
            v == Parsed(AngleE6(degrees, minutesE4, negative)) && InI32(v.value)
  {
    var hemi := if negative then marks.0[0] else marks.1[0];
    assert SouthOrWest(hemi) == negative;
    Pow10Monotone(width, 3);
    assert Pow10(3) == 1000;
    hide Pow10, PrintDegMin, DegMin;
    AngleIs(degrees, minutesE4, negative);
    DegMinReadsPrinted(degrees, width, minutesE4, hemi);
  }

  lemma HundredthsRead(x: FixedNumber)
    requires x.Valid()
    ensures FixedPoint(x.Print(), 100) == Parsed(Signed(x.negative, Hundredths(x)))
  {
    hide FixedPoint, FixedNumber.Print, FixedNumber.Units, Pow10;
    FixedPointReadsPrinted(x, 100);
  }

  lemma PieceValues(x: FixRecord, f: seq<string>)
    requires |f| >= 10 && forall k :: 1 <= k <= 9 ==> f[k] == x.Pieces()[k]
    ensures f[1] == x.Time() && f[2] == PrintDegMin(x.latDegrees, 2, x.latMinutesE4)
    ensures f[3] == (if x.south then "S" else "N") && f[5] == (if x.west then "W" else "E")
    ensures f[4] == PrintDegMin(x.lonDegrees, 3, x.lonMinutesE4)
    ensures f[6] == Dec(x.quality) && f[7] == Dec(x.sats) && f[8] == x.hdop.Print() && f[9] == x.altitude.Print()
  {
    hide Dec, PrintDegMin, Pad, FixedNumber.Print, FixRecord.Time;
    var p := x.Pieces();
    assert f[1] == p[1] && f[2] == p[2] && f[3] == p[3] && f[4] == p[4] && f[5] == p[5];
    assert f[6] == p[6] && f[7] == p[7] && f[8] == p[8] && f[9] == p[9];
  }

  lemma NumbersDecide(f: seq<string>, x: FixRecord)
    requires x.Valid() && |f| >= 10
    requires DegMin(f[2], At(f[3], 0)) == Parsed(x.LatitudeE6()) && InI32(x.LatitudeE6())
    requires DegMin(f[4], At(f[5], 0)) == Parsed(x.LongitudeE6()) && InI32(x.LongitudeE6())
    requires SmallInt(f[6]) == Parsed(x.quality) && SmallInt(f[7]) == Parsed(x.sats)
    requires FixedPoint(f[8], 100) == Parsed(Signed(x.hdop.negative, Hundredths(x.hdop)))
    requires FixedPoint(f[9], 100) == Parsed(x.AltitudeCm())
    ensures ParseFix(f) == x.Encoded()
  {
    hide DegMin, SmallInt, FixedPoint, AngleE6, Hundredths;
  }

  lemma AnglesRead(x: FixRecord)
    requires x.Valid()
    ensures DegMin(PrintDegMin(x.latDegrees, 2, x.latMinutesE4), if x.south then 'S' else 'N') == Parsed(x.LatitudeE6())
    ensures DegMin(PrintDegMin(x.lonDegrees, 3, x.lonMinutesE4), if x.west then 'W' else 'E') == Parsed(x.LongitudeE6())
    ensures InI32(x.LatitudeE6()) && InI32(x.LongitudeE6())
  {
    assert Pow10(2) == 100 && Pow10(3) == 1000;
    hide Pow10, DegMin, PrintDegMin, AngleE6, Hundredths, Plain;
    CoordinateReads(x.latDegrees, 2, x.latMinutesE4, x.south, ("S", "N"));
    CoordinateReads(x.lonDegrees, 3, x.lonMinutesE4, x.west, ("W", "E"));
  }

  lemma FiguresRead(x: FixRecord)
    requires x.Valid()
    ensures SmallInt(Dec(x.quality)) == Parsed(x.quality) && SmallInt(Dec(x.sats)) == Parsed(x.sats)
    ensures FixedPoint(x.hdop.Print(), 100) == Parsed(Signed(x.hdop.negative, Hundredths(x.hdop)))
    ensures FixedPoint(x.altitude.Print(), 100) == Parsed(x.AltitudeCm())
  {
    hide Dec, SmallInt, FixedPoint, Hundredths, FixedNumber.Print, FixedNumber.Units, Plain;
    SmallIntReadsPrinted(x.quality);
    SmallIntReadsPrinted(x.sats);
    HundredthsRead(x.hdop);
    HundredthsRead(x.altitude);
  }

  lemma FixReads(x: FixRecord, f: seq<string>)
    requires x.Valid()
    requires |f| >= 10 && forall k :: 1 <= k <= 9 ==> f[k] == x.Pieces()[k]
    ensures ParseFix(f) == x.Encoded() && UtcHms(f[1]) == x.PackedTime()
  {
    PieceValues(x, f);
    hide ParseFix, FixRecord.Pieces, FixRecord.Encoded, FixRecord.LatitudeE6, FixRecord.LongitudeE6,
         FixRecord.AltitudeCm, FixRecord.Valid, FixRecord.Time, FixRecord.PackedTime, UtcHms, DegMin, PrintDegMin,
         SmallInt, Dec, FixedPoint, Hundredths, FixedNumber.Print;
    TimeReads(x);
    AnglesRead(x);
    FiguresRead(x);
    NumbersDecide(f, x);
  }

  lemma AcceptedAs(r: Receiver, s: string, x: FixRecord)
    requires x.Valid() && !GpsRuns.OtherLine(s) && NmeaChecksum.Accepts(s) && UpToNul(s) == s && |Fields(s)| >= 10
    requires ParseFix(Fields(s)) == x.Encoded() && UtcHms(Fields(s)[1]) == x.PackedTime()
    ensures Announces(r, x, ProcessLine(r, s))
  {
    hide ProcessLine, NmeaChecksum.Accepts, GpsRuns.OtherLine, Fields, ParseFix, UtcHms, UpToNul,
         FixRecord.LatitudeE6, FixRecord.LongitudeE6, FixRecord.AltitudeCm, FixRecord.HdopX100, FixRecord.Valid;
    GpsRuns.LineEffect(r, s);
  }

  lemma SentenceTaken(x: FixRecord, s: string, upperHi: bool, upperLo: bool)
    requires x.Valid() && s == x.Sentence(upperHi, upperLo)
    ensures !GpsRuns.OtherLine(s) && NmeaChecksum.Accepts(s) && UpToNul(s) == s
    ensures |Fields(s)| >= 10 && forall k :: 1 <= k <= 9 ==> Fields(s)[k] == x.Pieces()[k]
  {
    PiecesArePlain(x);
    SentenceShape(x.Pieces(), upperHi, upperLo);
    PrintedFields(x.Pieces(), upperHi, upperLo);
    hide GgaPieces, Printed, Fields, NmeaChecksum.Accepts, GpsRuns.OtherLine, UpToNul;
  }

  lemma SentenceProcessed(r: Receiver, x: FixRecord, upperHi: bool, upperLo: bool)
    requires x.Valid()
    ensures Announces(r, x, ProcessLine(r, x.Sentence(upperHi, upperLo)))
  {
    hide Announces, ProcessLine, Fields, NmeaChecksum.Accepts, GpsRuns.OtherLine, UpToNul, ParseFix, UtcHms,
         FixRecord.Sentence, FixRecord.Pieces, FixRecord.Valid, FixRecord.Encoded, FixRecord.PackedTime;
    var s := x.Sentence(upperHi, upperLo);
    SentenceTaken(x, s, upperHi, upperLo);
    FixReads(x, Fields(s));
    AcceptedAs(r, s, x);
  }

  // ---- End to end

  // A sentence of at most 99 bytes, received from an empty line buffer in any number of drains cut
  // anywhere, announces exactly its record.
  lemma EndToEnd(r: Receiver, x: FixRecord, upperHi: bool, upperLo: bool, drains: seq<string>)
    requires x.Valid() && |x.Sentence(upperHi, upperLo)| <= 99
    requires Concat(drains) == x.Sentence(upperHi, upperLo) + "\r\n"
    ensures var after := ReceiveAll(Gps("", r), drains);
            after.line == "" && Announces(r, x, after.core)
  {
    var s := x.Sentence(upperHi, upperLo);
    PiecesArePlain(x);
    SentenceShape(x.Pieces(), upperHi, upperLo);
    ChunkIndependence(Gps("", r), drains);
    SentenceProcessed(r, x, upperHi, upperLo);
    assert s != "";
    hide ProcessLine, Announces, Receive, NmeaChecksum.Accepts, UpToNul, FixRecord.Sentence, GgaPieces;
    GpsRuns.WholeReceived(r, s);
  }

  lemma BufferEmpty(g: Gps, history: string)
    ensures Receive(g, history + "\n").line == ""
  {
    assert (history + "\n")[..|history|] == history;
  }

  lemma OneDrain(g: Gps, s: string)
    ensures ReceiveAll(g, [s]) == Receive(g, s) && Concat([s]) == s
  {
    hide Receive;
    var drains := [s];
    assert drains[1..] == [];
    assert ReceiveAll(Receive(g, s), []) == Receive(g, s) && s + Concat([]) == s;
  }

  lemma EndToEndBehind(r: Receiver, others: seq<string>, x: FixRecord, upperHi: bool, upperLo: bool)
    requires x.Valid() && |x.Sentence(upperHi, upperLo)| <= 99
    requires forall k :: 0 <= k < |others| ==> GpsRuns.Whole(others[k]) && GpsRuns.OtherLine(others[k])
    ensures var after := Receive(Gps("", r), GpsRuns.Lines(others) + (x.Sentence(upperHi, upperLo) + "\r\n"));
            after.line == "" && Announces(r, x, after.core)
  {
    var s := x.Sentence(upperHi, upperLo) + "\r\n";
    OneDrain(Gps("", r), s);
    hide Announces, Receive, ReceiveAll, Concat, FixRecord.Sentence, FixRecord.Valid,
         GpsRuns.Whole, GpsRuns.OtherLine, GpsRuns.Lines;
    GpsRuns.OtherLinesIgnored(r, others, s);
    EndToEnd(r, x, upperHi, upperLo, [s]);
  }

  // The same from any state of the receiver, once a newline has arrived, behind any number of lines of
  // other types.
  lemma EndToEndAfterNewline(g: Gps, history: string, others: seq<string>, x: FixRecord, upperHi: bool, upperLo: bool)
    requires x.Valid() && |x.Sentence(upperHi, upperLo)| <= 99
    requires forall k :: 0 <= k < |others| ==> GpsRuns.Whole(others[k]) && GpsRuns.OtherLine(others[k])
    ensures var before := Receive(g, history + "\n");
            var after := Receive(g, history + "\n" + (GpsRuns.Lines(others) + (x.Sentence(upperHi, upperLo) + "\r\n")));
            after.line == "" && Announces(before.core, x, after.core)
  {
    var s, t := GpsRuns.Lines(others) + (x.Sentence(upperHi, upperLo) + "\r\n"), history + "\n";
    hide Announces, Receive, FixRecord.Sentence, FixRecord.Valid, GpsRuns.Whole, GpsRuns.OtherLine, GpsRuns.Lines;
    ReceiveConcat(g, t, s);
    BufferEmpty(g, history);
    EndToEndBehind(Receive(g, t).core, others, x, upperHi, upperLo);
  }

  lemma SameSigned(negative: bool, a: nat, negative': bool, b: nat)
    ensures Signed(negative, a) == Signed(negative', b) <==> a == b && (negative == negative' || a == 0)
  {
  }

  lemma ZeroAngle(d: nat, m: nat)
    requires m < 600_000
    ensures MicroDegrees(d, m) == 0 <==> d == 0 && m == 0
  {
  }

  lemma SameMagnitude(d: nat, m: nat, d': nat, m': nat)
    requires m < 600_000 && m' < 600_000
    ensures MicroDegrees(d, m) == MicroDegrees(d', m') <==> d == d' && m == m'
  {
    hide MicroDegrees;
    MicroDegreesOrder(d, m, d', m');
    MicroDegreesOrder(d', m', d, m);
  }

  lemma SameAngle(d: nat, m: nat, negative: bool, d': nat, m': nat, negative': bool)
    requires m < 600_000 && m' < 600_000
    ensures AngleE6(d, m, negative) == AngleE6(d', m', negative') <==>
            d == d' && m == m' && (negative == negative' || (d == 0 && m == 0))
  {
    hide MicroDegrees, Signed, AngleE6;
    AngleIs(d, m, negative);
    AngleIs(d', m', negative');
    ZeroAngle(d, m);
    SameSigned(negative, MicroDegrees(d, m), negative', MicroDegrees(d', m'));
    SameMagnitude(d, m, d', m');
  }

  lemma SameTime(h: nat, m: nat, s: nat, h': nat, m': nat, s': nat)
    requires m < 256 && s < 256 && m' < 256 && s' < 256
    ensures h * 0x1_0000 + m * 0x100 + s == h' * 0x1_0000 + m' * 0x100 + s' <==> h == h' && m == m' && s == s'
  {
  }

  lemma Middle(a: seq<Output>, b: seq<Output>, c: seq<Output>)
    ensures (a + b + c)[|a|..|a| + |b|] == b
  {
  }

  // The time and the six channels.
  function Channels(x: FixRecord): (c: seq<Output>)
    ensures |c| == 7
  {
    [UtcTime(x.PackedTime()), FixQuality(x.quality), SatCount(x.sats), Latitude(x.LatitudeE6()),
     Longitude(x.LongitudeE6()), Altitude(x.AltitudeCm()), Hdop(x.HdopX100())]
  }

  lemma SameChannels(x: FixRecord, y: FixRecord)
    ensures Channels(x) == Channels(y) <==> x.PackedTime() == y.PackedTime() && x.Encoded() == y.Encoded()
  {
    hide FixRecord.PackedTime, FixRecord.HdopX100, FixRecord.AltitudeCm, FixRecord.LatitudeE6, FixRecord.LongitudeE6;
    var c, d := Channels(x), Channels(y);
    if c == d {
      assert c[0] == d[0] && c[1] == d[1] && c[2] == d[2] && c[3] == d[3] && c[4] == d[4] && c[5] == d[5];
      assert c[6] == d[6];
    }
  }

  lemma ChannelsBehind(r: Receiver, x: FixRecord, after: Receiver)
    requires Announces(r, x, after)
    ensures |after.outputs| >= |r.outputs| + 7 && after.outputs[|r.outputs|..|r.outputs| + 7] == Channels(x)
  {
    hide FixRecord.HdopX100, FixRecord.AltitudeCm, FixRecord.LatitudeE6, FixRecord.LongitudeE6;
    var event := if x.quality > 0 && r.lastFix == 0 then [FixAcquired(x.sats)]
                 else if x.quality == 0 && r.lastFix > 0 then [FixLost] else [];
    var rest := event + [SentenceCount((r.count + 1) % 0x1_0000_0000)];
    assert after.outputs == r.outputs + Channels(x) + rest;
    Middle(r.outputs, Channels(x), rest);
  }

  lemma SameAnnouncement(r: Receiver, x: FixRecord, y: FixRecord, afterX: Receiver, afterY: Receiver)
    requires Announces(r, x, afterX) && Announces(r, y, afterY)
    ensures afterX == afterY <==> x.PackedTime() == y.PackedTime() && x.Encoded() == y.Encoded()
  {
    ChannelsBehind(r, x, afterX);
    ChannelsBehind(r, y, afterY);
    SameChannels(x, y);
    hide Channels, FixRecord.HdopX100, FixRecord.AltitudeCm, FixRecord.LatitudeE6, FixRecord.LongitudeE6;
  }

  // What a sentence publishes determines, and nothing more: the time to the second, both angles and the
  // hemispheres of those that are not zero, quality, satellites, and HDOP and altitude as published.
  // Subseconds, talker and further fields are lost.
  lemma PublishedDetermines(r: Receiver, x: FixRecord, y: FixRecord, afterX: Receiver, afterY: Receiver)
    requires x.Valid() && y.Valid() && Announces(r, x, afterX) && Announces(r, y, afterY)
    ensures afterX == afterY <==>
            && x.hh == y.hh && x.mm == y.mm && x.ss == y.ss
            && x.latDegrees == y.latDegrees && x.latMinutesE4 == y.latMinutesE4
            && x.lonDegrees == y.lonDegrees && x.lonMinutesE4 == y.lonMinutesE4
            && (x.south == y.south || (x.latDegrees == 0 && x.latMinutesE4 == 0))
            && (x.west == y.west || (x.lonDegrees == 0 && x.lonMinutesE4 == 0))
            && x.quality == y.quality && x.sats == y.sats
            && x.HdopX100() == y.HdopX100() && x.AltitudeCm() == y.AltitudeCm()
  {
    SameTime(x.hh, x.mm, x.ss, y.hh, y.mm, y.ss);
    SameAnnouncement(r, x, y, afterX, afterY);
    hide Announces, Hundredths, AngleE6, FixRecord.HdopX100, FixRecord.AltitudeCm, Plain;
    SameAngle(x.latDegrees, x.latMinutesE4, x.south, y.latDegrees, y.latMinutesE4, y.south);
    SameAngle(x.lonDegrees, x.lonMinutesE4, x.west, y.lonDegrees, y.lonMinutesE4, y.west);
  }

  // A fix at 48 degrees 7.038 minutes north and 11 degrees 31 minutes east.
  const MUNICH: FixRecord :=
    FixRecord("GP", 12, 35, 19, "", 48, 70_380, false, 11, 310_000, false, 1, 8,
              FixedNumber(false, 0, 9, 1), FixedNumber(false, 545, 4, 1), ["M", "46.9", "M", "", ""])

  lemma MunichValues()
    ensures MUNICH.Valid() && MUNICH.AltitudeCm() == 54_540 && MUNICH.HdopX100() == 90
    ensures MUNICH.LatitudeE6() == 48_117_300 && MUNICH.LongitudeE6() == 11_516_666
  {
    assert Pow10(1) == 10;
    hide Pow10;
  }

  // Its values in the channels they belong to.
  lemma PublishedExample(upperHi: bool, upperLo: bool)
    ensures ProcessLine(Receiver(0, 0, []), MUNICH.Sentence(upperHi, upperLo)).outputs ==
            [UtcTime(0x0C2313), FixQuality(1), SatCount(8), Latitude(48_117_300), Longitude(11_516_666),
             Altitude(54_540), Hdop(90), FixAcquired(8), SentenceCount(1)]
  {
    MunichValues();
    hide ProcessLine, FixRecord.Sentence, FixRecord.Valid, FixRecord.LatitudeE6, FixRecord.LongitudeE6,
         FixRecord.AltitudeCm, FixRecord.HdopX100;
    SentenceProcessed(Receiver(0, 0, []), MUNICH, upperHi, upperLo);
  }
}
