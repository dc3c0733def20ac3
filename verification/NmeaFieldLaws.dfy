/** What the field parsers mean: printed numbers read back, and the accuracy, order and
    invertibility of the degree/minute conversion. */
module NmeaFieldLaws {
  import opened MachineWords
  import opened Text
  import opened Decimal
  import opened NmeaFields

  // ---- Fixed-point numbers

  // A printable decimal number: a sign, a whole part and a fraction of the given number of digits.
  datatype FixedNumber = FixedNumber(negative: bool, whole: nat, fraction: nat, places: nat) {
    predicate Valid() {
      fraction < Pow10(places)
    }

    // The magnitude in units of 10^-places.
    function Units(): nat {
      whole * Pow10(places) + fraction
    }

    function Print(): string {
      (if negative then "-" else "") + Dec(whole) + (if places == 0 then "" else "." + Pad(fraction, places))
    }
  }

  lemma SignedDigits(negative: bool, i: string, rest: string)
    requires |i| >= 1 && AllDigits(i) && (rest == "" || rest[0] == '.')
    ensures var s := (if negative then "-" else "") + i + rest;
            && IsFixedPoint(s) && (s[0] == '-' <==> negative) && IntegerDigits(s) == i
            && IntegerEnd(s) == |s| - |rest| && s[IntegerEnd(s)..] == rest
  {
    var sign := if negative then "-" else "";
    var s, e := sign + i + rest, |sign| + |i|;
    assert s[|sign|] == i[0] && IsDigit(i[0]);
    assert s[|sign|..e] == i && s[e..] == rest;
    assert rest != "" ==> s[e] == rest[0];
    DigitRunUnique(s, |sign|, e);
  }

  lemma FractionAfter(s: string, f: string)
    requires IsFixedPoint(s) && AllDigits(f) && s[IntegerEnd(s)..] == "." + f
    ensures FractionDigits(s) == f
  {
    var e := IntegerEnd(s);
    assert s[e + 1..] == s[e..][1..] == f;
    assert s[e + 1..|s|] == f;
    DigitRunUnique(s, e + 1, |s|);
  }

  lemma FixedPointShape(negative: bool, i: string, dot: bool, f: string)
    requires |i| >= 1 && AllDigits(i) && AllDigits(f) && (!dot ==> f == "")
    ensures var s := (if negative then "-" else "") + i + (if dot then "." + f else "");
            && IsFixedPoint(s) && (s[0] == '-' <==> negative)
            && IntegerDigits(s) == i && FractionDigits(s) == f
  {
    var rest := if dot then "." + f else "";
    var s := (if negative then "-" else "") + i + rest;
    SignedDigits(negative, i, rest);
    hide IntegerEnd, IsFixedPoint, IntegerDigits;
    if dot {
      hide FractionDigits;
      FractionAfter(s, f);
    }
  }

  lemma PrintedDigits(x: FixedNumber) returns (i: string, f: string)
    requires x.Valid()
    ensures |i| >= 1 && AllDigits(i) && AllDigits(f) && |f| == x.places && Val(i + f) == x.Units()
    ensures x.Print() == (if x.negative then "-" else "") + i + (if x.places > 0 then "." + f else "")
  {
    i, f := Dec(x.whole), Pad(x.fraction, x.places);
    DecDenotes(x.whole);
    PadDenotes(x.fraction, x.places);
    hide Dec, Pad, Val, Pow10;
    ValConcat(i, f);
  }

  lemma PrintedShape(x: FixedNumber)
    requires x.Valid()
    ensures var s := x.Print();
            && IsFixedPoint(s) && (s[0] == '-' <==> x.negative)
            && Val(IntegerDigits(s) + FractionDigits(s)) == x.Units()
            && |FractionDigits(s)| == x.places
  {
    var i, f := PrintedDigits(x);
    hide FixedNumber.Print, Val, Pow10, IsFixedPoint, IntegerDigits, FractionDigits;
    FixedPointShape(x.negative, i, x.places > 0, f);
  }

  // Reading a printed number at any scale gives its scaled value, rounded toward zero.
  lemma FixedPointReadsPrinted(x: FixedNumber, scale: nat)
    requires x.Valid()
    ensures FixedPoint(x.Print(), scale) == Parsed(Signed(x.negative, MulDiv(x.Units(), scale, Pow10(x.places))))
  {
    PrintedShape(x);
  }

  lemma ScaleExact(u: nat, places: nat, k: nat)
    requires places <= k
    ensures MulDiv(u, Pow10(k), Pow10(places)) == u * Pow10(k - places)
  {
    Pow10Add(places, k - places);
    FloorExact(u, Pow10(places), Pow10(k - places));
  }

  // With no more places than the scale has zeros, nothing is lost.
  lemma FixedPointReadsExactly(x: FixedNumber, k: nat)
    requires x.Valid() && x.places <= k
    ensures FixedPoint(x.Print(), Pow10(k)) == Parsed(Signed(x.negative, x.Units() * Pow10(k - x.places)))
  {
    FixedPointReadsPrinted(x, Pow10(k));
    ScaleExact(x.Units(), x.places, k);
  }

  // A field whose scaled value fits 32 bits, while its magnitude, which is formed before the sign is
  // applied, does not, is one with the value -2^31.
  lemma OverflowsOnTheWay(s: string, scale: nat)
    requires IsFixedPoint(s)
    ensures InI32(FixedPoint(s, scale).value) && Magnitude(s, scale) >= 0x8000_0000 <==>
            FixedPoint(s, scale).value == -0x8000_0000
  {
    hide IsFixedPoint, Magnitude;
  }

  lemma MostNegativeDigits()
    ensures Dec(21_474_836) == "21474836"
  {
    assert Dec(2) == "2";
    hide Dec;
    DecSnoc(2, 1, "2");
    DecSnoc(21, 4, "21");
    DecSnoc(214, 7, "214");
    DecSnoc(2147, 4, "2147");
    DecSnoc(21474, 8, "21474");
    DecSnoc(214748, 3, "214748");
    DecSnoc(2147483, 6, "2147483");
  }

  lemma MostNegativeText()
    ensures FixedNumber(true, 21_474_836, 48, 2).Print() == "-21474836.48"
  {
    MostNegativeDigits();
    assert Pad(48, 2) == "48";
    hide Dec, Pad;
    assert "-" + "21474836" + ("." + "48") == "-21474836.48";
  }

  // There is such a field at scale 100.
  lemma MostNegative()
    ensures var s := "-21474836.48";
            && FixedPoint(s, 100) == Parsed(-0x8000_0000) && InI32(-0x8000_0000)
            && Magnitude(s, 100) == 0x8000_0000
  {
    var x := FixedNumber(true, 21_474_836, 48, 2);
    assert Pow10(2) == 100 && Pow10(0) == 1;
    hide Pow10, Magnitude, IsFixedPoint, MulDiv, FixedNumber.Print;
    MostNegativeText();
    FixedPointReadsExactly(x, 2);
  }

  // ---- Degrees and minutes

  function PrintDegMin(degrees: nat, width: nat, minutesE4: nat): string {
    Pad(degrees, width) + Pad(minutesE4 / 10_000, 2) + "." + Pad(minutesE4 % 10_000, 4)
  }

  lemma DotAfter(d: string, m: string, f: string)
    requires 1 <= |d| <= 13 && |m| == 2 && AllDigits(d) && AllDigits(m)
    ensures var s, p := d + m + "." + f, |d| + 2;
            DotPos(s) == p && s[..p - 2] == d && s[p - 2..p] == m && s[..p] == d + m && s[p + 1..] == f
  {
    var s, p := d + m + "." + f, |d| + 2;
    assert s[p] == '.' && s[..p] == d + m;
    forall k | 0 <= k < p ensures s[k] != '.' {
      assert s[k] == if k < |d| then d[k] else m[k - |d|];
    }
    IndexOfUnique(s, '.', 0, p);
  }

  lemma DegMinShape(d: string, m: string, f: string)
    requires 1 <= |d| <= 13 && |m| == 2 && |f| == 4 && AllDigits(d) && AllDigits(m) && AllDigits(f)
    ensures var s := d + m + "." + f;
            && IsDegMin(s) && Degrees(s) == Val(d) && Minutes(s) == Val(m) && MinuteFraction(s) == f
  {
    var s, p := d + m + "." + f, |d| + 2;
    DotAfter(d, m, f);
    hide DotPos, Val;
    assert AllDigits(d + m);
    assert s[p + 1..|s|] == s[p + 1..];
    DigitRunUnique(s, p + 1, |s|);
  }

  lemma FourDigits(f: string, n: nat)
    requires |f| == 4 && AllDigits(f) && Val(f) == n
    ensures TenThousandths(f) == n
  {
    assert f[..4] == f;
  }

  lemma DegMinByParts(d: string, m: string, f: string, hemi: char, degrees: nat, minutes: nat, fraction: nat)
    requires 1 <= |d| <= 13 && |m| == 2 && |f| == 4 && AllDigits(d) && AllDigits(m) && AllDigits(f)
    requires Val(d) == degrees && Val(m) == minutes && Val(f) == fraction
    ensures DegMin(d + m + "." + f, hemi) ==
            Parsed(Signed(SouthOrWest(hemi), MicroDegrees(degrees, minutes * 10_000 + fraction)))
  {
    hide Val, IsDegMin, Degrees, Minutes, MinuteFraction, TenThousandths, MicroDegrees;
    DegMinShape(d, m, f);
    FourDigits(f, fraction);
  }

  lemma DegMinOfPads(degrees: nat, width: nat, m: nat, f: nat, hemi: char)
    requires 1 <= width <= 13 && degrees < Pow10(width) && m < 100 && f < 10_000
    ensures DegMin(Pad(degrees, width) + Pad(m, 2) + "." + Pad(f, 4), hemi) ==
            Parsed(Signed(SouthOrWest(hemi), MicroDegrees(degrees, m * 10_000 + f)))
  {
    assert Pow10(2) == 100 && Pow10(4) == 10_000;
    hide Pow10, Pad, Val, DegMin, MicroDegrees;
    PadDenotes(degrees, width);
    PadDenotes(m, 2);
    PadDenotes(f, 4);
    DegMinByParts(Pad(degrees, width), Pad(m, 2), Pad(f, 4), hemi, degrees, m, f);
  }

  lemma DegMinReadsPrinted(degrees: nat, width: nat, minutesE4: nat, hemi: char)
    requires 1 <= width <= 13 && degrees < Pow10(width) && minutesE4 < 1_000_000
    ensures DegMin(PrintDegMin(degrees, width, minutesE4), hemi) ==
            Parsed(Signed(hemi == 'S' || hemi == 'W', MicroDegrees(degrees, minutesE4)))
  {
    hide Pow10, Pad, DegMin, MicroDegrees;
    DegMinOfPads(degrees, width, minutesE4 / 10_000, minutesE4 % 10_000, hemi);
    assert minutesE4 / 10_000 * 10_000 + minutesE4 % 10_000 == minutesE4;
  }

  lemma MulDivBounds(a: nat, b: nat, c: nat)
    requires c > 0
    ensures MulDiv(a, b, c) * c <= a * b < (MulDiv(a, b, c) + 1) * c
  {
  }

  lemma TenThousandthsIsFloor(f: string)
    requires AllDigits(f)
    ensures TenThousandths(f) < 10_000
    ensures TenThousandths(f) * Pow10(|f|) <= Val(f) * 10_000 < (TenThousandths(f) + 1) * Pow10(|f|)
  {
    var n := if |f| < 4 then |f| else 4;
    assert |f| < 4 ==> f[..n] == f;
    assert "" + f == f && Pow10(4) == 10_000 && Val("") == 0;
    hide Val, MulDiv;
    FloorOfFraction("", f, 4);
    PadToFour(f, n, Val(f[..n]));
    MulDivBounds(Val(f), 10_000, Pow10(|f|));
  }

  // Degree fields of one to three digits never overflow the 32-bit arithmetic.
  lemma DegMinFits(s: string)
    requires IsDegMin(s) && DotPos(s) <= 5
    ensures DegMinMagnitude(s) < 0x8000_0000
  {
    ValBound(s[..DotPos(s) - 2]);
    Pow10Monotone(DotPos(s) - 2, 3);
    ValBound(s[DotPos(s) - 2..DotPos(s)]);
    TenThousandthsIsFloor(MinuteFraction(s));
    assert Pow10(3) == 1000 && Pow10(2) == 100;
  }

  // The angle the field denotes, in millionths of a degree, with every digit of its fraction.
  function ExactMicroDegrees(s: string): real
    requires IsDegMin(s)
  {
    var f := MinuteFraction(s);
    (Degrees(s) as real + (Minutes(s) as real + Val(f) as real / Pow10(|f|) as real) / 60.0) * 1_000_000.0
  }

  lemma RealCancel(a: real, b: real, r: real)
    requires r > 0.0
    ensures a <= b <==> a * r <= b * r
  {
    if a <= b {
      assert (b - a) * r >= 0.0;
    } else {
      assert (a - b) * r > 0.0;
    }
  }

  lemma QuotientBounds(v: nat, p: nat, t: nat)
    requires p > 0 && t * p <= v * 10_000 < (t + 1) * p
    ensures t as real <= (v as real / p as real) * 10_000.0 < t as real + 1.0
  {
    var r, q := p as real, v as real / p as real;
    assert q * r == v as real;
    assert (q * 10_000.0) * r == v as real * 10_000.0;
    assert (t * p) as real == t as real * r && ((t + 1) * p) as real == (t as real + 1.0) * r;
    RealCancel(t as real, q * 10_000.0, r);
    RealCancel(t as real + 1.0, q * 10_000.0, r);
  }

  lemma AccuracyArithmetic(d: nat, minutes: nat, t: nat, q: real)
    requires t as real <= q * 10_000.0 < t as real + 1.0
    ensures 0.0 <= (d as real + (minutes as real + q) / 60.0) * 1_000_000.0
                   - MicroDegrees(d, minutes * 10_000 + t) as real < 7.0 / 3.0
  {
    var x := minutes * 10_000 + t;
    var m := x * 100 / 60;
    assert m * 60 <= x * 100 <= m * 60 + 40;
  }

  // The published magnitude never exceeds the exact angle and is less than 7/3 microdegrees short.
  lemma DegMinAccuracy(s: string)
    requires IsDegMin(s)
    ensures 0.0 <= ExactMicroDegrees(s) - DegMinMagnitude(s) as real < 7.0 / 3.0
  {
    var f := MinuteFraction(s);
    var t, p := TenThousandths(f), Pow10(|f|);
    TenThousandthsIsFloor(f);
    QuotientBounds(Val(f), p, t);
    AccuracyArithmetic(Degrees(s), Minutes(s), t, Val(f) as real / p as real);
  }

  lemma SixtiethsExact(x: nat)
    ensures 3 * (x * 100 / 60) == 5 * x <==> x % 3 == 0
  {
    var q, r := x / 3, x % 3;
    assert x * 100 == (5 * q) * 60 + 100 * r;
    assert x * 100 / 60 == 5 * q + 100 * r / 60;
  }

  // The conversion is exact if and only if the ten-thousandths are a multiple of three.
  lemma MicroDegreesExact(degrees: nat, minutesE4: nat)
    ensures MicroDegrees(degrees, minutesE4) as real ==
            (degrees as real + minutesE4 as real / 600_000.0) * 1_000_000.0
            <==> minutesE4 % 3 == 0
  {
    SixtiethsExact(minutesE4);
    var m, d, x := MicroDegrees(degrees, minutesE4) as real, degrees as real, minutesE4 as real;
    assert (d + x / 600_000.0) * 1_000_000.0 == d * 1_000_000.0 + x * 5.0 / 3.0;
    assert (minutesE4 * 100 / 60) as real == m - d * 1_000_000.0;
  }

  // 38 degrees and 7.423 minutes, which are 38123716 microdegrees and two thirds.
  lemma DocumentedExample()
    ensures MicroDegrees(38, 74230) == 38_123_716 && 74230 % 3 != 0
    ensures DegMin(PrintDegMin(38, 2, 74230), 'N') == Parsed(38_123_716)
  {
    assert Pow10(2) == 100;
    hide Pow10, DegMin;
    DegMinReadsPrinted(38, 2, 74230, 'N');
  }

  lemma MinutesStep(x: nat, y: nat)
    requires x < y
    ensures x * 100 / 60 < y * 100 / 60
  {
  }

  // On valid minutes the conversion is strictly order-preserving.
  lemma MicroDegreesOrder(d: nat, x: nat, d': nat, x': nat)
    requires x < 600_000 && x' < 600_000
    ensures MicroDegrees(d, x) < MicroDegrees(d', x') <==> d < d' || (d == d' && x < x')
  {
    assert x * 100 / 60 < 1_000_000 && x' * 100 / 60 < 1_000_000;
    if x < x' {
      MinutesStep(x, x');
    } else if x' < x {
      MinutesStep(x', x);
    }
  }

  function RecoverDegrees(magnitude: nat): nat {
    magnitude / 1_000_000
  }

  // ceil(3r/5) of the part below one degree.
  function RecoverMinutesE4(magnitude: nat): nat {
    (3 * (magnitude % 1_000_000) + 4) / 5
  }

  // The printed angle can be read off the published number exactly when its minutes are below 60.
  lemma MicroDegreesInvertible(degrees: nat, minutesE4: nat)
    ensures var m := MicroDegrees(degrees, minutesE4);
            RecoverDegrees(m) == degrees && RecoverMinutesE4(m) == minutesE4 <==> minutesE4 < 600_000
  {
    var r := minutesE4 * 100 / 60;
    if minutesE4 < 600_000 {
      assert MicroDegrees(degrees, minutesE4) == degrees * 1_000_000 + r && r < 1_000_000;
      DivModUnique(MicroDegrees(degrees, minutesE4), 1_000_000, degrees, r);
      assert 5 * minutesE4 - 2 <= 3 * r <= 5 * minutesE4;
    } else {
      assert r >= 1_000_000;
      assert MicroDegrees(degrees, minutesE4) >= (degrees + 1) * 1_000_000;
    }
  }

  // ---- Small unsigned integers

  // The leading four digits of a longer numeral are at least 1000.
  lemma FirstFour(n: nat)
    requires n >= 10_000
    ensures |Dec(n)| > 4 && AllDigits(Dec(n)[..4]) && Val(Dec(n)[..4]) >= 1000
  {
    var s := Dec(n);
    DecDenotes(n);
    ValBound(s);
    assert Pow10(4) == 10_000;
    if |s| <= 4 {
      Pow10Monotone(|s|, 4);
    }
    LeadingDigit(s[..4]);
    assert Pow10(3) == 1000;
  }

  lemma {:induction false} SmallIntReadsPrinted(n: nat)
    ensures SmallInt(Dec(n)) == if n <= 255 then Parsed(n) else Malformed
  {
    DecDenotes(n);
    if n < 10_000 {
      assert Pow10(4) == 10_000;
      DecLength(n, 4);
      assert |Dec(n)| == 4 ==> Dec(n)[..4] == Dec(n);
    } else {
      FirstFour(n);
    }
  }

  lemma ShiftedUp(x: nat, p: nat, y: nat)
    requires p >= 10
    ensures x * p + y == x <==> x == 0 && y == 0
    ensures x * p + y == 0 <==> x == 0 && y == 0
    ensures x <= x * p + y
  {
    MulMonotone(10, p, x);
  }

  // A digit string is read as its own value exactly when that fits and no digit lies beyond the fourth,
  // except that any number of zeros reads as zero.
  lemma {:induction false} SmallIntExact(s: string)
    requires AllDigits(s)
    ensures SmallInt(s) == Parsed(Val(s)) <==> Val(s) <= 255 && (|s| <= 4 || Val(s) == 0)
  {
    if |s| <= 4 {
      assert |s| == 4 ==> s[..4] == s;
    } else {
      var a, b := s[..4], s[4..];
      assert s == a + b;
      hide Val;
      ValConcat(a, b);
      Pow10Monotone(1, |b|);
      assert Pow10(1) == 10;
      ShiftedUp(Val(a), Pow10(|b|), Val(b));
    }
  }

  // ---- Exactly which fields are read

  // Digits up to the first dot, behind an optional '-'; anything may follow the dot.
  predicate ReadableNumber(s: string) {
    s != "" && forall k :: 0 <= k < IndexOf(s, '.', 0) ==> IsDigit(s[k]) || (k == 0 && s[k] == '-')
  }

  // A first dot behind 3 to 15 characters, all of them digits; anything may follow the dot.
  predicate ReadableAngle(s: string) {
    var p := IndexOf(s, '.', 0);
    3 <= p < |s| && p < 16 && forall k :: 0 <= k < p ==> IsDigit(s[k])
  }

  // Up to four digits of a value up to 255, or four such digits and anything behind them.
  predicate ReadableCount(s: string) {
    var n := if |s| < 4 then |s| else 4;
    (forall k :: 0 <= k < n ==> IsDigit(s[k])) && AllDigits(s[..n]) && Val(s[..n]) <= 255
  }

  lemma NumberReadable(s: string, scale: nat)
    ensures FixedPoint(s, scale).Parsed? <==> ReadableNumber(s)
  {
    if s != "" {
      var e, p, n := IntegerEnd(s), IndexOf(s, '.', 0), SignLength(s);
      assert forall k :: n <= k < e ==> s[k] == s[n..e][k - n];
      if e < |s| && s[e] == '.' {
        IndexOfUnique(s, '.', 0, e);
      }
    }
    hide Magnitude;
  }

  lemma AngleReadable(s: string, hemi: char)
    ensures DegMin(s, hemi).Parsed? <==> ReadableAngle(s)
    ensures ReadableAngle(s) ==>
              && IsDegMin(s)
              && var magnitude: int := DegMinMagnitude(s);
                 DegMin(s, hemi).value == if hemi == 'S' || hemi == 'W' then -magnitude else magnitude
  {
    hide DegMinMagnitude;
  }

  lemma CountReadable(s: string)
    ensures SmallInt(s).Parsed? <==> ReadableCount(s)
    ensures ReadableCount(s) ==> SmallInt(s).value == Val(s[..if |s| < 4 then |s| else 4])
  {
    assert |s| < 4 ==> s[..|s|] == s;
  }
}
