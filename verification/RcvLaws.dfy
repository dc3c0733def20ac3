/** Which received lines are packets: the exact value of every line of the shape of a packet, and that
    every accepted line has that shape. */
module RcvLaws {
  import opened MachineWords
  import opened Text
  import opened Decimal
  import opened RcvParser

  function Sign(negative: bool): string {
    if negative then "-" else ""
  }

  // The text of a signal-to-noise ratio: a sign, the digits that follow it, and what stands behind them.
  datatype Snr = Snr(negative: bool, digits: string, rest: string) {
    predicate Valid() {
      && AllDigits(digits) && (rest != "" ==> !IsDigit(rest[0]))
      && (rest != "" && rest[0] == '-' ==> negative || digits != "")
    }

    function Text(): string {
      Sign(negative) + digits + rest
    }

    // Ten times the number of the first four digits, and the first decimal when there are no more.
    function Value(): int
      requires AllDigits(digits)
    {
      var whole := if |digits| <= 4 then digits else digits[..4];
      var hasDecimal := |digits| <= 4 && |rest| >= 2 && rest[0] == '.' && '0' <= rest[1] <= '9';
      var magnitude: int := 10 * Val(whole) + if hasDecimal then rest[1] as int - '0' as int else 0;
      if negative then -magnitude else magnitude
    }
  }

  // A packet line by its parts.
  datatype RcvText = RcvText(addr: string, len: string, data: string, negative: bool, rssi: string, snr: Snr) {
    predicate Valid() {
      && Free(addr, ',') && Free(len, ',') && Free(data, ',') && AllDigits(rssi) && snr.Valid()
      && Free(addr, '\0') && Free(len, '\0') && Free(data, '\0') && Free(snr.rest, '\0')
    }

    predicate Fits() {
      |addr| <= 8 && |len| <= 4 && |data| <= 100 && |rssi| <= 6
    }

    function Figures(): string {
      Sign(negative) + rssi + "," + snr.Text()
    }

    function Print(): string {
      "+RCV=" + (addr + "," + (len + "," + (data + "," + Figures())))
    }

    function Meaning(): Rcv
      requires Valid()
    {
      var strength: int := Val(rssi);
      if Fits() then Packet(I16(if negative then -strength else strength), I16(snr.Value())) else Rejected
    }
  }

  // ---- The signal-to-noise ratio

  lemma SnrStart(x: Snr)
    requires x.Valid()
    ensures var t, n := x.Text(), |Sign(x.negative)|;
            var e := n + |x.digits|;
            && AfterSign(t, 0) == n && e <= |t| && t[n..e] == x.digits && t[e..] == x.rest
            && DigitRun(t, n) == e
  {
    var t, n := x.Text(), |Sign(x.negative)|;
    var e := n + |x.digits|;
    assert t[e..] == x.rest && t[n..e] == x.digits;
    assert !x.negative && t != "" ==> t[0] == if x.digits != "" then x.digits[0] else x.rest[0];
    assert e < |t| ==> t[e] == x.rest[0];
    DigitRunUnique(t, n, e);
  }

  lemma FirstDigits(t: string, n: nat, e: nat, digits: string)
    requires n <= e <= |t| && t[n..e] == digits && DigitRun(t, n) == e && AllDigits(digits)
    ensures var whole := if |digits| <= 4 then digits else digits[..4];
            && DigitsEnd(t, n, SNR_DIGITS) == n + |whole| && t[n..n + |whole|] == whole
            && (|digits| > 4 ==> IsDigit(At(t, n + 4)))
  {
    hide DigitRun;
    if |digits| > 4 {
      assert t[n..n + 4] == t[n..e][..4] && t[n + 4] == t[n..e][4];
    }
  }

  lemma SnrDigits(x: Snr)
    requires x.Valid()
    ensures var t, n := x.Text(), |Sign(x.negative)|;
            var whole := if |x.digits| <= 4 then x.digits else x.digits[..4];
            var e := n + |whole|;
            && AfterSign(t, 0) == n && e <= |t| && DigitsEnd(t, n, SNR_DIGITS) == e && t[n..e] == whole
            && (|x.digits| <= 4 ==> t[e..] == x.rest) && (|x.digits| > 4 ==> IsDigit(At(t, e)))
  {
    SnrStart(x);
    var t, n := x.Text(), |Sign(x.negative)|;
    hide Snr.Text, Snr.Valid, AfterSign, DigitRun, Sign;
    FirstDigits(t, n, n + |x.digits|, x.digits);
  }

  lemma DecimalRead(t: string, e: nat, rest: string)
    requires e <= |t| && t[e..] == rest
    ensures At(t, e) == '.' && IsDigit(At(t, e + 1)) <==> |rest| >= 2 && rest[0] == '.' && IsDigit(rest[1])
    ensures |rest| >= 2 ==> e + 1 < |t| && t[e + 1] == rest[1]
  {
    assert forall k :: 0 <= k < |rest| ==> t[e + k] == rest[k];
  }

  lemma SnrByParts(t: string, n: nat, e: nat, whole: string, negative: bool, tenths: nat)
    requires n <= |t| && AfterSign(t, 0) == n && (n > 0 <==> negative) && e == DigitsEnd(t, n, SNR_DIGITS)
    requires t[n..e] == whole && AllDigits(whole)
    requires tenths == if At(t, e) == '.' && IsDigit(At(t, e + 1)) then DigitVal(At(t, e + 1)) else 0
    ensures SnrX10(t, 0) == Signed(negative, Val(whole) * 10 + tenths)
  {
    hide AfterSign, DigitsEnd, Val;
  }

  lemma ShortSnr(x: Snr, t: string, n: nat)
    requires AllDigits(x.digits) && |x.digits| <= 4 && n + |x.digits| <= |t| && t[n + |x.digits|..] == x.rest
    requires AfterSign(t, 0) == n && (n > 0 <==> x.negative) && DigitsEnd(t, n, SNR_DIGITS) == n + |x.digits|
    requires t[n..n + |x.digits|] == x.digits
    ensures SnrX10(t, 0) == x.Value()
  {
    var e := n + |x.digits|;
    hide AfterSign, DigitsEnd, Val, SnrX10;
    DecimalRead(t, e, x.rest);
    var decimal := At(t, e) == '.' && IsDigit(At(t, e + 1));
    var tenths := if decimal then DigitVal(At(t, e + 1)) else 0;
    SnrByParts(t, n, e, x.digits, x.negative, tenths);
  }

  lemma LongSnr(x: Snr, t: string, n: nat)
    requires AllDigits(x.digits) && |x.digits| > 4 && n + 4 <= |t| && IsDigit(At(t, n + 4))
    requires AfterSign(t, 0) == n && (n > 0 <==> x.negative) && DigitsEnd(t, n, SNR_DIGITS) == n + 4
    requires t[n..n + 4] == x.digits[..4]
    ensures SnrX10(t, 0) == x.Value()
  {
    hide AfterSign, DigitsEnd, Val, SnrX10;
    SnrByParts(t, n, n + 4, x.digits[..4], x.negative, 0);
  }

  // How every such text is read.
  lemma SnrRead(x: Snr)
    requires x.Valid()
    ensures SnrX10(x.Text(), 0) == x.Value()
  {
    SnrDigits(x);
    var t, n := x.Text(), |Sign(x.negative)|;
    assert n > 0 <==> x.negative;
    hide Snr.Text, Snr.Value, AfterSign, DigitsEnd, Val, SnrX10, Sign;
    if |x.digits| <= 4 {
      ShortSnr(x, t, n);
    } else {
      LongSnr(x, t, n);
    }
  }

  // Every text is one.
  lemma SnrSplit(t: string) returns (x: Snr)
    ensures x.Valid() && x.Text() == t
  {
    var n := AfterSign(t, 0);
    var e := DigitRun(t, n);
    x := Snr(n > 0, t[n..e], t[e..]);
    assert t == t[..n] + t[n..e] + t[e..];
  }

  // ---- The line

  lemma FieldAt(s: string, i: nat, f: string, rest: string, limit: nat)
    requires i <= |s| && s[i..] == f + "," + rest && Free(f, ',')
    ensures AfterField(s, i, limit) == (if |f| <= limit then i + |f| + 1 else |s| + 1)
    ensures i + |f| + 1 <= |s| && s[i + |f| + 1..] == rest
  {
    var c := i + |f|;
    assert s[i..][|f|] == ',';
    forall k | i <= k < c ensures s[k] != ',' {
      assert s[k] == s[i..][k - i] == f[k - i];
    }
    IndexOfUnique(s, ',', i, c);
    assert s[c + 1..] == s[i..][|f| + 1..];
  }

  // Reading numbers looks at the text from its position on.
  lemma DigitsEndShift(s: string, i: nat, k: nat, limit: nat)
    requires i + k <= |s|
    ensures DigitsEnd(s, i + k, limit) == i + DigitsEnd(s[i..], k, limit)
    ensures s[i + k..DigitsEnd(s, i + k, limit)] == s[i..][k..DigitsEnd(s[i..], k, limit)]
  {
    var t := s[i..];
    var e := DigitRun(t, k);
    assert s[i + k..i + e] == t[k..e];
    DigitRunUnique(s, i + k, i + e);
  }

  lemma SnrShift(s: string, i: nat)
    requires i <= |s|
    ensures SnrX10(s, i) == SnrX10(s[i..], 0)
  {
    hide DigitsEnd;
    var k := AfterSign(s, i) - i;
    DigitsEndShift(s, i, k, SNR_DIGITS);
  }

  lemma FiguresCut(t: string, negative: bool, digits: string, tail: string)
    requires t == Sign(negative) + digits + "," + tail
    ensures var n := |Sign(negative)|;
            var e := n + |digits|;
            e < |t| && t[n..e] == digits && t[e] == ',' && t[e + 1..] == tail
  {
  }

  lemma FiguresSign(t: string, negative: bool, digits: string, tail: string)
    requires t == Sign(negative) + digits + "," + tail && AllDigits(digits)
    ensures AfterSign(t, 0) == |Sign(negative)|
  {
    assert !negative ==> t[0] == if digits == "" then ',' else digits[0];
  }

  lemma FiguresShape(t: string, negative: bool, digits: string, tail: string)
    requires t == Sign(negative) + digits + "," + tail && AllDigits(digits)
    ensures var n := |Sign(negative)|;
            && AfterSign(t, 0) == n && n + |digits| < |t| && t[n..n + |digits|] == digits && t[n + |digits|] == ','
            && t[n + |digits| + 1..] == tail && DigitRun(t, n) == n + |digits|
  {
    FiguresCut(t, negative, digits, tail);
    FiguresSign(t, negative, digits, tail);
    hide AfterSign;
    DigitRunUnique(t, |Sign(negative)|, |Sign(negative)| + |digits|);
  }

  lemma FiguresEnd(t: string, negative: bool, digits: string, tail: string)
    requires t == Sign(negative) + digits + "," + tail && AllDigits(digits)
    ensures var n := |Sign(negative)|;
            var e := DigitsEnd(t, n, RSSI_DIGITS);
            && e - n == (if |digits| <= RSSI_DIGITS then |digits| else RSSI_DIGITS) && e <= |t|
            && (At(t, e) == ',' <==> |digits| <= RSSI_DIGITS)
  {
    FiguresShape(t, negative, digits, tail);
    var n := |Sign(negative)|;
    if |digits| > RSSI_DIGITS {
      assert t[n + RSSI_DIGITS] == t[n..n + |digits|][RSSI_DIGITS];
    }
  }

  lemma NumbersByParts(t: string, negative: bool, digits: string, n: nat, e: nat)
    requires AfterSign(t, 0) == n && (n > 0 <==> negative) && n <= |t| && e == DigitsEnd(t, n, RSSI_DIGITS)
    requires AllDigits(digits) && (At(t, e) == ',' <==> |digits| <= RSSI_DIGITS)
    requires |digits| <= RSSI_DIGITS ==> e < |t| && t[n..e] == digits
    ensures Numbers(t, 0) ==
            if |digits| <= RSSI_DIGITS then Packet(I16(Signed(negative, Val(digits))), I16(SnrX10(t[e + 1..], 0)))
            else Rejected
  {
    hide I16, Val, SnrX10, DigitRun, DigitsEnd, AfterSign;
    if |digits| <= RSSI_DIGITS {
      SnrShift(t, e + 1);
    }
  }

  lemma NumbersStart(t: string, negative: bool, digits: string, tail: string)
    requires t == Sign(negative) + digits + "," + tail && AllDigits(digits)
    ensures Numbers(t, 0) ==
            if |digits| <= RSSI_DIGITS then Packet(I16(Signed(negative, Val(digits))), I16(SnrX10(tail, 0)))
            else Rejected
  {
    hide Numbers, I16, Val, SnrX10, DigitRun, DigitsEnd, AfterSign;
    FiguresShape(t, negative, digits, tail);
    FiguresEnd(t, negative, digits, tail);
    var n := |Sign(negative)|;
    NumbersByParts(t, negative, digits, n, DigitsEnd(t, n, RSSI_DIGITS));
  }

  lemma NumbersShift(s: string, i: nat)
    requires i <= |s|
    ensures Numbers(s, i) == Numbers(s[i..], 0)
  {
    hide DigitsEnd, I16, Val, SnrX10;
    var t, n := s[i..], AfterSign(s, i) - i;
    DigitsEndShift(s, i, n, RSSI_DIGITS);
    var e := DigitsEnd(t, n, RSSI_DIGITS);
    if At(t, e) == ',' {
      SnrShift(s, i + e + 1);
      SnrShift(t, e + 1);
      assert s[i + e + 1..] == t[e + 1..];
    }
  }

  // The first three fields are cut at their commas; the figures are read from what follows.
  lemma ParseFields(addr: string, len: string, data: string, figures: string)
    requires Free(addr, ',') && Free(len, ',') && Free(data, ',')
    ensures var s := "+RCV=" + (addr + "," + (len + "," + (data + "," + figures)));
            && IsRcv(s)
            && Parse(s) == if |addr| <= ADDR_MAX && |len| <= LEN_MAX && |data| <= DATA_MAX then Numbers(figures, 0)
                           else Rejected
  {
    hide AfterField, Numbers;
    var dataOn := data + "," + figures;
    var lenOn := len + "," + dataOn;
    var s := "+RCV=" + (addr + "," + lenOn);
    assert s[..5] == "+RCV=" && s[5..] == addr + "," + lenOn;
    FieldAt(s, 5, addr, lenOn, ADDR_MAX);
    var l := 5 + |addr| + 1;
    FieldAt(s, l, len, dataOn, LEN_MAX);
    var d := l + |len| + 1;
    FieldAt(s, d, data, figures, DATA_MAX);
    NumbersShift(s, d + |data| + 1);
  }

  lemma FieldFree(f: string, rest: string, c: char)
    requires c != ','
    ensures Free(f + "," + rest, c) <==> Free(f, c) && Free(rest, c)
  {
    FreeConcat(f, ",", c);
    FreeConcat(f + ",", rest, c);
  }

  // Which characters a packet line holds.
  lemma PrintFree(x: RcvText, c: char)
    requires c != ',' && c != '-' && Free("+RCV=", c)
    ensures Free(x.Print(), c) <==>
            Free(x.addr, c) && Free(x.len, c) && Free(x.data, c) && Free(x.rssi, c) && Free(x.snr.Text(), c)
  {
    assert Free(Sign(x.negative), c);
    FreeConcat(Sign(x.negative), x.rssi, c);
    hide Free;
    FieldFree(Sign(x.negative) + x.rssi, x.snr.Text(), c);
    FieldFree(x.data, x.Figures(), c);
    FieldFree(x.len, x.data + "," + x.Figures(), c);
    FieldFree(x.addr, x.len + "," + (x.data + "," + x.Figures()), c);
    FreeConcat("+RCV=", x.addr + "," + (x.len + "," + (x.data + "," + x.Figures())), c);
  }

  // A line without NUL is its own C string.
  lemma NulFreeLine(text: string)
    requires Free(text, '\0')
    ensures UpToNul(text) == text && PacketOf(text) == if IsRcv(text) then Parse(text) else Rejected
  {
    hide Parse;
    IndexOfUnique(text, '\0', 0, |text|);
    assert text[..|text|] == text;
  }

  lemma DigitsAreFree(s: string, c: char)
    requires AllDigits(s) && !IsDigit(c)
    ensures Free(s, c)
  {
  }

  lemma PrefixHasNoNul()
    ensures Free("+RCV=", '\0')
  {
  }

  lemma SnrFree(x: Snr, c: char)
    requires c != '-'
    ensures Free(x.Text(), c) <==> Free(x.digits, c) && Free(x.rest, c)
  {
    assert Free(Sign(x.negative), c);
    FreeConcat(Sign(x.negative), x.digits, c);
    FreeConcat(Sign(x.negative) + x.digits, x.rest, c);
  }

  lemma PrintNulFree(x: RcvText)
    requires x.Valid()
    ensures Free(x.Print(), '\0')
  {
    DigitsAreFree(x.rssi, '\0');
    DigitsAreFree(x.snr.digits, '\0');
    PrefixHasNoNul();
    hide Free, RcvText.Print, Snr.Text;
    SnrFree(x.snr, '\0');
    PrintFree(x, '\0');
  }

  // The exact value of every line of the shape of a packet.
  lemma ParsePrinted(x: RcvText)
    requires x.Valid()
    ensures IsRcv(x.Print()) && PacketOf(x.Print()) == x.Meaning()
  {
    hide Parse, IsRcv, PacketOf, Numbers, SnrX10, Val, I16, Free, Snr.Text, Snr.Value, Snr.Valid;
    PrintNulFree(x);
    NulFreeLine(x.Print());
    ParseFields(x.addr, x.len, x.data, x.Figures());
    NumbersStart(x.Figures(), x.negative, x.rssi, x.snr.Text());
    SnrRead(x.snr);
  }

  // f is the comma-ended field at position i, and the next one starts at position end.
  ghost predicate FieldOf(s: string, i: nat, f: string, limit: nat, end: nat) {
    Free(f, ',') && |f| <= limit && i + |f| + 1 == end <= |s| && s[i..] == f + "," + s[end..]
  }

  lemma FieldSplit(s: string, i: nat, limit: nat) returns (f: string)
    requires i <= |s| && AfterField(s, i, limit) <= |s|
    ensures FieldOf(s, i, f, limit, AfterField(s, i, limit))
  {
    var c := AfterField(s, i, limit) - 1;
    f := s[i..c];
    assert s[c] == ',';
  }

  lemma ThreeParts(s: string, i: nat, start: nat, e: nat)
    requires i <= start <= e < |s|
    ensures s[i..] == s[i..start] + s[start..e] + [s[e]] + s[e + 1..]
  {
  }

  lemma NumbersSplit(s: string, i: nat) returns (negative: bool, digits: string, tail: string)
    requires i <= |s| && Numbers(s, i).Packet?
    ensures s[i..] == Sign(negative) + digits + "," + tail && AllDigits(digits) && |digits| <= RSSI_DIGITS
  {
    hide DigitsEnd, Val, I16, SnrX10;
    var start := AfterSign(s, i);
    var e := DigitsEnd(s, start, RSSI_DIGITS);
    assert s[e] == ',';
    negative, digits, tail := start > i, s[start..e], s[e + 1..];
    ThreeParts(s, i, start, e);
    assert s[i..start] == Sign(negative);
  }

  lemma AcceptedFields(s: string)
    requires IsRcv(s) && Parse(s).Packet?
    ensures var l := AfterField(s, 5, ADDR_MAX);
            && l <= |s| && AfterField(s, l, LEN_MAX) <= |s|
            && AfterField(s, AfterField(s, l, LEN_MAX), DATA_MAX) <= |s|
            && Numbers(s, AfterField(s, AfterField(s, l, LEN_MAX), DATA_MAX)).Packet?
  {
    hide AfterField, Numbers;
  }

  lemma PartsValid(s: string, x: RcvText, l: nat, d: nat, n: nat)
    requires |s| >= 5 && AllDigits(x.rssi)
    requires FieldOf(s, 5, x.addr, ADDR_MAX, l) && FieldOf(s, l, x.len, LEN_MAX, d)
    requires FieldOf(s, d, x.data, DATA_MAX, n)
    requires Free(x.addr, '\0') && Free(x.len, '\0') && Free(x.data, '\0') && Free(x.snr.rest, '\0')
    requires x.snr.Valid()
    ensures x.Valid()
  {
  }

  lemma PrintBack(s: string, x: RcvText, l: nat, d: nat, n: nat)
    requires |s| >= 5 && s == "+RCV=" + s[5..]
    requires FieldOf(s, 5, x.addr, ADDR_MAX, l) && FieldOf(s, l, x.len, LEN_MAX, d)
    requires FieldOf(s, d, x.data, DATA_MAX, n)
    requires s[n..] == Sign(x.negative) + x.rssi + "," + x.snr.Text() && AllDigits(x.rssi) && |x.rssi| <= RSSI_DIGITS
    ensures x.Fits() && s == x.Print()
  {
  }

  lemma AcceptedParts(s: string) returns (x: RcvText)
    requires IsRcv(s) && Parse(s).Packet? && Free(s, '\0')
    ensures x.Valid() && x.Fits() && s == x.Print()
  {
    AcceptedFields(s);
    assert s == "+RCV=" + s[5..];
    hide AfterField, Numbers, Parse, IsRcv, FieldOf, RcvText.Print, RcvText.Valid, RcvText.Fits,
         Snr.Text, Snr.Valid, Free;
    var l := AfterField(s, 5, ADDR_MAX);
    var d := AfterField(s, l, LEN_MAX);
    var n := AfterField(s, d, DATA_MAX);
    var addr := FieldSplit(s, 5, ADDR_MAX);
    var len := FieldSplit(s, l, LEN_MAX);
    var data := FieldSplit(s, d, DATA_MAX);
    var negative, rssi, tail := NumbersSplit(s, n);
    var snr := SnrSplit(tail);
    x := RcvText(addr, len, data, negative, rssi, snr);
    PrintBack(s, x, l, d, n);
    PrefixHasNoNul();
    PrintFree(x, '\0');
    SnrFree(snr, '\0');
    PartsValid(s, x, l, d, n);
  }

  // Every accepted line, up to its first NUL, has that shape, with parts that fit.
  lemma AcceptedShape(line: string) returns (x: RcvText)
    requires PacketOf(line).Packet?
    ensures x.Valid() && x.Fits() && UpToNul(line) == x.Print()
  {
    var s := UpToNul(line);
    hide Parse, IsRcv, RcvText.Valid, RcvText.Fits, RcvText.Print;
    RcvPrefixStays(line);
    x := AcceptedParts(s);
  }
}
