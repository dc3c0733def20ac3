/** What the receiver reports of a sentence that it cannot read, and what that hides. */
module GpsErrors {
  import opened MachineWords
  import opened Text
  import opened Decimal
  import opened NmeaFields
  import opened NmeaFieldLaws
  import opened NmeaTokens
  import opened GpsModel
  import opened GpsRuns
  import opened GpsSentence
  import NmeaChecksum

  // ---- The time

  lemma PairValue(t: string)
    requires |t| == 2 && AllDigits(t)
    ensures TwoDigits(t[0], t[1]) == Val(t) < 100
  {
    assert Val("") == 0;
    hide Val;
    assert "" + [t[0]] == [t[0]] && t == [t[0]] + [t[1]];
    ValSnoc("", t[0]);
    ValSnoc([t[0]], t[1]);
  }

  lemma PairCode(tens: char, units: char)
    ensures TwoDigits(tens, units) == (10 * (tens as int) + units as int - 528) % 256
  {
  }

  lemma DigitTime(t: string)
    requires |t| >= 6 && AllDigits(t[..6])
    ensures AllDigits(t[0..2]) && AllDigits(t[2..4]) && AllDigits(t[4..6])
    ensures UtcHms(t) == Val(t[0..2]) * 0x1_0000 + Val(t[2..4]) * 0x100 + Val(t[4..6])
  {
    assert forall k :: 0 <= k < 6 ==> t[k] == t[..6][k];
    hide Val, TwoDigits;
    PairValue(t[0..2]);
    PairValue(t[2..4]);
    PairValue(t[4..6]);
  }

  // Fewer than six characters read as zero, six digits as hours, minutes and seconds, and any other
  // character as its distance from '0', modulo 256 for each pair.
  lemma TimeRead(t: string)
    ensures |t| < 6 ==> UtcHms(t) == 0
    ensures |t| >= 6 && AllDigits(t[..6]) ==>
              && AllDigits(t[0..2]) && AllDigits(t[2..4]) && AllDigits(t[4..6])
              && UtcHms(t) == Val(t[0..2]) * 0x1_0000 + Val(t[2..4]) * 0x100 + Val(t[4..6])
    ensures |t| >= 6 ==>
              UtcHms(t) == (10 * (t[0] as int) + t[1] as int - 528) % 256 * 0x1_0000 +
                           (10 * (t[2] as int) + t[3] as int - 528) % 256 * 0x100 +
                           (10 * (t[4] as int) + t[5] as int - 528) % 256
  {
    hide Val, TwoDigits;
    if |t| >= 6 {
      PairCode(t[0], t[1]);
      PairCode(t[2], t[3]);
      PairCode(t[4], t[5]);
      if AllDigits(t[..6]) {
        DigitTime(t);
      }
    }
  }

  // ---- The first unreadable field

  // Whether the receiver can read one of the fields it needs.
  predicate Readable(f: seq<string>, k: nat)
    requires k < |f|
  {
    if k == 2 || k == 4 then ReadableAngle(f[k])
    else if k == 6 || k == 7 then ReadableCount(f[k])
    else ReadableNumber(f[k])
  }

  // The field that the error names: the first of latitude (2), longitude (4), quality (6),
  // satellites (7), HDOP (8) and altitude (9) that is not readable.
  predicate FirstUnreadable(f: seq<string>, k: nat)
    requires |f| >= 10
  {
    && (k == 2 || k == 4 || k == 6 || k == 7 || k == 8 || k == 9) && !Readable(f, k)
    && (k > 2 ==> Readable(f, 2)) && (k > 4 ==> Readable(f, 4)) && (k > 6 ==> Readable(f, 6))
    && (k > 7 ==> Readable(f, 7)) && (k > 8 ==> Readable(f, 8))
  }

  // When the fields are a fix, and which error they are otherwise.
  lemma FieldErrors(f: seq<string>, k: nat)
    requires |f| >= 10
    ensures ParseFix(f).Fix? <==>
            && Readable(f, 2) && Readable(f, 4) && Readable(f, 6) && Readable(f, 7) && Readable(f, 8)
            && Readable(f, 9)
    ensures ParseFix(f) == Bad(k) <==> FirstUnreadable(f, k)
  {
    AngleReadable(f[2], At(f[3], 0));
    AngleReadable(f[4], At(f[5], 0));
    CountReadable(f[6]);
    CountReadable(f[7]);
    NumberReadable(f[8], 100);
    NumberReadable(f[9], 100);
    hide DegMin, SmallInt, FixedPoint, ReadableAngle, ReadableCount, ReadableNumber;
  }

  // The HDOP that is published: 9999 for a figure outside its 16 bits.
  lemma HdopPublished(f: seq<string>)
    requires |f| >= 10 && ParseFix(f).Fix?
    ensures var v := I32(FixedPoint(f[8], 100).value);
            ParseFix(f).hdop == if v < 0 || v > 65535 then 9999 else v
  {
    hide DegMin, SmallInt, FixedPoint, I32;
  }

  // ---- Sentences

  lemma SameReadable(f: seq<string>, p: seq<string>)
    requires |f| >= 10 && |p| >= 10
    requires f[2] == p[2] && f[4] == p[4] && f[6] == p[6] && f[7] == p[7] && f[8] == p[8] && f[9] == p[9]
    ensures forall k :: FirstUnreadable(f, k) <==> FirstUnreadable(p, k)
  {
    hide ReadableAngle, ReadableCount, ReadableNumber;
  }

  // A checksummed sentence publishes its time and the number of the first field that is unreadable; fix
  // memory and count stay.
  lemma UnreadableField(r: Receiver, p: seq<string>, upperHi: bool, upperLo: bool, k: nat)
    requires GgaPieces(p) && |p| >= 11 && FirstUnreadable(p, k)
    ensures ProcessLine(r, Printed(p, upperHi, upperLo)) ==
            Receiver(r.lastFix, r.count, r.outputs + [UtcTime(UtcHms(p[1])), ParseError(k)])
  {
    var s := Printed(p, upperHi, upperLo);
    SentenceShape(p, upperHi, upperLo);
    PrintedFields(p, upperHi, upperLo);
    hide GgaPieces, Fields, UtcHms, UpToNul, NmeaChecksum.Accepts, OtherLine, ParseFix, ProcessLine, Readable;
    var f := Fields(s);
    assert f[1] == p[1] && f[2] == p[2] && f[4] == p[4] && f[6] == p[6] && f[7] == p[7] && f[8] == p[8] && f[9] == p[9];
    SameReadable(f, p);
    FieldErrors(f, k);
    LineEffect(r, s);
  }

  // Too few fields: not even the time is published.
  lemma TooFewFields(r: Receiver, p: seq<string>, upperHi: bool, upperLo: bool)
    requires GgaPieces(p) && |p| < 10
    ensures ProcessLine(r, Printed(p, upperHi, upperLo)) ==
            Receiver(r.lastFix, r.count, r.outputs + [ParseError(0)])
  {
    var s := Printed(p, upperHi, upperLo);
    SentenceShape(p, upperHi, upperLo);
    PrintedFields(p, upperHi, upperLo);
    hide GgaPieces, Fields, UtcHms, UpToNul, NmeaChecksum.Accepts, OtherLine, ParseFix, ProcessLine;
    LineEffect(r, s);
  }

  // A sentence of quality 0 with a blank latitude is refused at the latitude: the loss of the fix is
  // neither reported nor remembered.
  lemma BlankPositionHidesLoss(r: Receiver, p: seq<string>, upperHi: bool, upperLo: bool)
    requires GgaPieces(p) && |p| >= 11 && p[2] == "" && p[6] == "0" && r.lastFix > 0
    ensures var after := ProcessLine(r, Printed(p, upperHi, upperLo));
            after.lastFix == r.lastFix && after.outputs == r.outputs + [UtcTime(UtcHms(p[1])), ParseError(2)]
  {
    assert FirstUnreadable(p, 2);
    UnreadableField(r, p, upperHi, upperLo, 2);
  }

  // One changed byte between the '$' and the checksum: the sentence is reported as a checksum error, or
  // no longer taken for a GGA sentence; in either case nothing else happens.
  lemma CorruptedSentence(r: Receiver, pre: string, c: char, d: char, post: string, upperHi: bool, upperLo: bool)
    requires c as int < 256 && d as int < 256 && d != c && d != '*' && Free(pre + [c] + post, '*')
    ensures var line := ['$'] + (pre + [d] + post) + NmeaChecksum.ChecksumField(pre + [c] + post, upperHi, upperLo);
            ProcessLine(r, line) ==
            if |line| < 6 || line[3..6] != "GGA" then r
            else Receiver(r.lastFix, r.count, r.outputs + [ChecksumError(UpToNul(line))])
  {
    var line := ['$'] + (pre + [d] + post) + NmeaChecksum.ChecksumField(pre + [c] + post, upperHi, upperLo);
    assert line[0] == '$' && line + "" == line;
    assert OtherLine(line) <==> |line| < 6 || line[3..6] != "GGA";
    hide UpToNul, NmeaChecksum.Accepts, NmeaChecksum.ChecksumField, OtherLine, ParseFix, ProcessLine, Free, Fields,
         UtcHms;
    NmeaChecksum.RejectsOneByteChange('$', pre, c, d, post, upperHi, upperLo, "");
    LineEffect(r, line);
  }
}
