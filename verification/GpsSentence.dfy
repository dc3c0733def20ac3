/** A checksummed GGA sentence printed from its fields (sections 5.3 and 6.3 of NMEA 0183), and what the
    receiver takes it apart into. */
module GpsSentence {
  import opened Text
  import opened NmeaTokens
  import opened NmeaChecksum
  import opened GpsRuns

  predicate PlainChar(c: char) {
    c != ',' && c != '*' && c != '\n' && c != '\r' && c != '\0'
  }

  // Text that may stand in a field.
  predicate Plain(s: string) {
    forall k :: 0 <= k < |s| ==> PlainChar(s[k])
  }

  function Printed(p: seq<string>, upperHi: bool, upperLo: bool): string
    requires |p| >= 1
  {
    ['$'] + Join(p) + ChecksumField(Join(p), upperHi, upperLo)
  }

  // The fields of a GGA sentence of any talker.
  predicate GgaPieces(p: seq<string>) {
    && |p| >= 2 && |p[0]| == 5 && p[0][2..] == "GGA"
    && forall k :: 0 <= k < |p| ==> Plain(p[k])
  }

  lemma JoinPrepend(c: char, pieces: seq<string>)
    requires |pieces| >= 1
    ensures Join(pieces[0 := [c] + pieces[0]]) == [c] + Join(pieces)
  {
    var q := pieces[0 := [c] + pieces[0]];
    assert q[1..] == pieces[1..];
  }

  lemma {:induction false} JoinAppend(pieces: seq<string>, t: string)
    requires |pieces| >= 1
    ensures Join(pieces[|pieces| - 1 := pieces[|pieces| - 1] + t]) == Join(pieces) + t
  {
    var n := |pieces| - 1;
    var q := pieces[n := pieces[n] + t];
    if n > 0 {
      var rest := pieces[1..];
      JoinAppend(rest, t);
      assert q[1..] == rest[n - 1 := rest[n - 1] + t];
      assert q == [pieces[0]] + q[1..] && pieces == [pieces[0]] + rest;
      JoinCons(pieces[0], q[1..]);
      JoinCons(pieces[0], rest);
    }
  }

  lemma {:induction false} JoinFree(pieces: seq<string>, c: char)
    requires |pieces| >= 1 && c != ',' && forall k :: 0 <= k < |pieces| ==> Free(pieces[k], c)
    ensures Free(Join(pieces), c)
    decreases |pieces|
  {
    if |pieces| > 1 {
      var rest := pieces[1..];
      assert forall k :: 0 <= k < |rest| ==> rest[k] == pieces[k + 1];
      JoinFree(rest, c);
      assert Free(pieces[0], c) && Free(",", c);
      FreeConcat(pieces[0], ",", c);
      FreeConcat(pieces[0] + ",", Join(rest), c);
    }
  }

  lemma PlainJoin(p: seq<string>, c: char)
    requires |p| >= 1 && c != ',' && !PlainChar(c) && forall k :: 0 <= k < |p| ==> Plain(p[k])
    ensures Free(Join(p), c)
  {
    forall k | 0 <= k < |p| ensures Free(p[k], c) {
      assert Plain(p[k]);
    }
    hide Join;
    JoinFree(p, c);
  }

  lemma ChecksumIsHex(body: string, upperHi: bool, upperLo: bool)
    ensures var t := ChecksumField(body, upperHi, upperLo);
            |t| == 3 && Free(t, ',') && Free(t, '\n') && Free(t, '\r') && Free(t, '\0')
  {
    XorFoldBound(0, body);
    var x := XorFold(0, body);
    assert HexVal(HexDigit(x / 16, upperHi)) >= 0 && HexVal(HexDigit(x % 16, upperLo)) >= 0;
  }

  // Marking the first and the last of at least two comma-free pieces, as the sentence does.
  lemma MarkedSplit(p: seq<string>, c: char, t: string)
    requires |p| >= 2 && AllFree(p) && c != ',' && Free(t, ',')
    ensures Split([c] + Join(p) + t) == p[0 := [c] + p[0]][|p| - 1 := p[|p| - 1] + t]
  {
    hide Join, SplitFrom;
    var n := |p| - 1;
    var q := p[0 := [c] + p[0]];
    JoinPrepend(c, p);
    JoinAppend(q, t);
    var marked := q[n := q[n] + t];
    assert Free([c], ',') && Free(p[0], ',') && Free(p[n], ',');
    FreeConcat([c], p[0], ',');
    FreeConcat(p[n], t, ',');
    forall k | 0 <= k < |marked| ensures Free(marked[k], ',') {
    }
    SplitUnique(marked);
  }

  // The receiver finds the printed fields: all but the first and the last are as printed, and those two
  // carry the '$' and the checksum.
  lemma PrintedFields(p: seq<string>, upperHi: bool, upperLo: bool)
    requires GgaPieces(p)
    ensures var f := Fields(Printed(p, upperHi, upperLo));
            && |f| == (if |p| < 16 then |p| else 16)
            && forall k :: 1 <= k < |p| - 1 && k < 15 ==> f[k] == p[k]
  {
    var s, t := Printed(p, upperHi, upperLo), ChecksumField(Join(p), upperHi, upperLo);
    assert AllFree(p) by {
      forall k | 0 <= k < |p| ensures Free(p[k], ',') {
        assert Plain(p[k]);
      }
    }
    ChecksumIsHex(Join(p), upperHi, upperLo);
    hide Join, AllFree, Plain, Split, ChecksumField, Fields, Free;
    assert Free(t, ',');
    MarkedSplit(p, '$', t);
    FieldsOfLine(s);
    var f := Fields(s);
    forall k | 1 <= k < |p| - 1 && k < 15 ensures f[k] == p[k] {
      assert f[k] == Split(s)[k];
    }
  }

  lemma SentenceFree(body: string, t: string, c: char)
    requires c != '$' && Free(body, c) && Free(t, c)
    ensures Free(['$'] + body + t, c)
  {
    FreeConcat(['$'], body, c);
    FreeConcat(['$'] + body, t, c);
  }

  lemma BodyStart(p: seq<string>)
    requires GgaPieces(p)
    ensures var body := Join(p); |body| >= 5 && body[2] == 'G' && body[3] == 'G' && body[4] == 'A'
  {
    var head := p[0];
    assert p == [head] + p[1..];
    JoinCons(head, p[1..]);
    assert head[2] == head[2..][0] && head[3] == head[2..][1] && head[4] == head[2..][2];
  }

  lemma GgaStart(s: string, body: string, t: string)
    requires s == ['$'] + body + t && |body| >= 5 && body[2] == 'G' && body[3] == 'G' && body[4] == 'A'
    ensures !OtherLine(s)
  {
    assert s[3] == body[2] && s[4] == body[3] && s[5] == body[4];
    assert s[3..6] == [s[3], s[4], s[5]];
  }

  lemma WholeLine(s: string)
    requires Free(s, '\0')
    ensures UpToNul(s) == s
  {
    IndexOfUnique(s, '\0', 0, |s|);
  }

  // It is a GGA line that passes the checksum and holds no line end and no NUL.
  lemma SentenceShape(p: seq<string>, upperHi: bool, upperLo: bool)
    requires GgaPieces(p)
    ensures var s := Printed(p, upperHi, upperLo);
            && !OtherLine(s) && Accepts(s) && UpToNul(s) == s && Free(s, '\n') && Free(s, '\r')
  {
    var body, t := Join(p), ChecksumField(Join(p), upperHi, upperLo);
    var s := Printed(p, upperHi, upperLo);
    PlainJoin(p, '*');
    PlainJoin(p, '\n');
    PlainJoin(p, '\r');
    PlainJoin(p, '\0');
    ChecksumIsHex(body, upperHi, upperLo);
    AcceptsPrinted('$', body, upperHi, upperLo, "");
    BodyStart(p);
    hide ChecksumField, Accepts, Join, Free, GgaPieces;
    assert ['$'] + body + t + "" == s;
    GgaStart(s, body, t);
    SentenceFree(body, t, '\n');
    SentenceFree(body, t, '\r');
    SentenceFree(body, t, '\0');
    WholeLine(s);
  }
}
