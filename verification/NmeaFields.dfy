/** The numeric field parsers of the GGA sentence, over NUL-terminated fields inside a buffer. */
module NmeaFields {
  import opened MachineWords
  import opened Text
  import opened Decimal

  datatype Field<+T> = Parsed(value: T) | Malformed

  // ---- Fixed point: [-]digits[.digits]

  function SignLength(s: string): nat
    requires s != ""
  {
    if s[0] == '-' then 1 else 0
  }

  // Position after the integer digits.
  function IntegerEnd(s: string): (e: nat)
    requires s != ""
    ensures SignLength(s) <= e <= |s| && AllDigits(s[SignLength(s)..e])
    ensures e < |s| ==> !IsDigit(s[e])
  {
    DigitRun(s, SignLength(s))
  }

  predicate IsFixedPoint(s: string) {
    s != "" && (IntegerEnd(s) < |s| ==> s[IntegerEnd(s)] == '.')
  }

  function IntegerDigits(s: string): (d: string)
    requires IsFixedPoint(s)
    ensures AllDigits(d)
  {
    s[SignLength(s)..IntegerEnd(s)]
  }

  // The digits that directly follow the dot; anything after them is ignored.
  function FractionDigits(s: string): (d: string)
    requires IsFixedPoint(s)
    ensures AllDigits(d)
  {
    var e := IntegerEnd(s);
    if e == |s| then "" else s[e + 1..DigitRun(s, e + 1)]
  }

  // floor(a * b / c)
  function MulDiv(a: nat, b: nat, c: nat): nat
    requires c > 0
  {
    MulMonotone(0, a, b);
    a * b / c
  }

  // floor(|v| * scale) for the number v that the field denotes.
  function Magnitude(s: string, scale: nat): nat
    requires IsFixedPoint(s)
  {
    var i, f := IntegerDigits(s), FractionDigits(s);
    ValConcat(i, f);
    MulDiv(Val(i + f), scale, Pow10(|f|))
  }

  function FixedPoint(s: string, scale: nat): Field<int> {
    if !IsFixedPoint(s) then Malformed
    else Parsed(Signed(s[0] == '-', Magnitude(s, scale)))
  }

  lemma FloorExact(x: nat, p: nat, q: nat)
    requires p > 0
    ensures MulDiv(x, p * q, p) == x * q
  {
    assert x * (p * q) == (x * q) * p;
    DivModUnique(x * (p * q), p, x * q, 0);
  }

  lemma FloorCut(w: nat, q: nat, r: nat, p: nat)
    requires p > 0 && r < q
    ensures p * q > 0 && MulDiv(w * q + r, p, p * q) == w
  {
    MulMonotone(r + 1, q, p);
    assert (w * q + r) * p == w * (p * q) + r * p;
    assert r * p < q * p;
    DivModUnique((w * q + r) * p, p * q, w, r * p);
  }

  lemma Distribute(a: nat, p: nat, b: nat, q: nat)
    ensures (a * p + b) * q == a * (p * q) + b * q
  {
  }

  lemma FloorOfShort(i: string, f: string, k: nat)
    requires AllDigits(i) && AllDigits(f) && |f| <= k
    ensures AllDigits(i + f)
    ensures MulDiv(Val(i + f), Pow10(k), Pow10(|f|)) == Val(i) * Pow10(k) + Val(f) * Pow10(k - |f|)
  {
    ValConcat(i, f);
    Pow10Add(|f|, k - |f|);
    var p, q := Pow10(|f|), Pow10(k - |f|);
    FloorExact(Val(i + f), p, q);
    Distribute(Val(i), p, Val(f), q);
  }

  lemma FloorOfLong(i: string, a: string, b: string)
    requires AllDigits(i) && AllDigits(a) && AllDigits(b)
    ensures AllDigits(i + (a + b))
    ensures MulDiv(Val(i + (a + b)), Pow10(|a|), Pow10(|a + b|)) == Val(i) * Pow10(|a|) + Val(a)
  {
    assert i + (a + b) == (i + a) + b;
    ValConcat(i, a);
    ValConcat(i + a, b);
    ValBound(b);
    Pow10Add(|a|, |b|);
    FloorCut(Val(i + a), Pow10(|b|), Val(b), Pow10(|a|));
  }

  // Cutting the fraction at k digits and padding it to k digits is the floor.
  lemma FloorOfFraction(i: string, f: string, k: nat)
    requires AllDigits(i) && AllDigits(f)
    ensures var n := if |f| < k then |f| else k;
            && AllDigits(f[..n]) && AllDigits(i + f)
            && MulDiv(Val(i + f), Pow10(k), Pow10(|f|)) == Val(i) * Pow10(k) + Val(f[..n]) * Pow10(k - n)
  {
    if |f| <= k {
      assert f[..|f|] == f;
      FloorOfShort(i, f, k);
    } else {
      assert f == f[..k] + f[k..];
      FloorOfLong(i, f[..k], f[k..]);
    }
  }

  lemma MagnitudeSum(s: string, k: nat, n: nat, v: nat)
    requires IsFixedPoint(s)
    requires var f := FractionDigits(s); n == (if |f| < k then |f| else k)
    requires AllDigits(FractionDigits(s)[..n]) && v == Val(FractionDigits(s)[..n]) * Pow10(k - n)
    ensures Magnitude(s, Pow10(k)) == Val(IntegerDigits(s)) * Pow10(k) + v
  {
    FloorOfFraction(IntegerDigits(s), FractionDigits(s), k);
  }

  // The integer loop of parseFP, from its first digit up to the dot or the terminator.
  method ReadInteger(b: array<char>, at: nat, start: nat) returns (ok: bool, idx: nat, value: int, ghost fits: bool)
    requires Terminated(b[..], at) && start <= |CString(b[..], at)|
    ensures var s := CString(b[..], at);
            && idx == DigitRun(s, start)
            && (ok <==> idx < |s| ==> s[idx] == '.')
            && value == I32(Val(s[start..idx]))
    ensures fits <==> Val(CString(b[..], at)[start..idx]) < 0x8000_0000
  {
    ghost var s := CString(b[..], at);
    BufferReads(b, at);
    ok, idx, value, fits := true, start, 0, true;
    while b[at + idx] != '\0' && b[at + idx] != '.'
      invariant start <= idx <= |s|
      invariant AllDigits(s[start..idx])
      invariant value == I32(Val(s[start..idx]))
      invariant fits <==> Val(s[start..idx]) < 0x8000_0000
      decreases |s| - idx
    {
      if b[at + idx] < '0' || b[at + idx] > '9' {
        ok := false;
        break;
      }
      var d := b[at + idx] as int - '0' as int;
      ReadDigit(s, start, idx);
      I32MulAdd(Val(s[start..idx]), 10, d);
      fits := fits && InI32(value * 10) && InI32(value * 10 + d);
      value := I32(value * 10 + d);
      idx := idx + 1;
    }
    DigitRunUnique(s, start, idx);
  }

  lemma ScaleRoom(x: int, n: nat, k: nat)
    requires 0 <= x < Pow10(n) && n <= k <= 9
    ensures InI32(x)
  {
    Pow10Monotone(n, k);
    Pow10Monotone(k, 9);
    assert Pow10(9) == 1_000_000_000;
  }

  // One more fraction digit: the value stays below the power of ten of its length, which fits.
  lemma FractionStep(s: string, start: nat, idx: nat, value: nat)
    requires DigitsSoFar(s, start, idx, value) && idx < |s| && IsDigit(s[idx]) && idx - start < 9
    ensures DigitsSoFar(s, start, idx + 1, value * 10 + DigitVal(s[idx]))
    ensures InI32(value * 10) && InI32(value * 10 + DigitVal(s[idx]))
  {
    DigitsStep(s, start, idx, value);
    ScaleRoom(value * 10 + DigitVal(s[idx]), idx + 1 - start, 9);
  }

  lemma LowerPower(k: nat)
    ensures Pow10(k) > 1 <==> k > 0
    ensures k > 0 ==> Pow10(k) / 10 == Pow10(k - 1)
  {
  }

  lemma DigitsWithin(s: string, i: nat, e: nat)
    requires i <= e <= |s| && AllDigits(s[i..e])
    ensures e <= DigitRun(s, i)
  {
    assert forall k :: i <= k < e ==> s[k] == s[i..e][k - i];
  }

  // The fraction loop stops at the k-th digit or at the end of the digit run.
  lemma FractionRead(s: string, f0: nat, idx: nat, k: nat, fs: nat, value: nat)
    requires DigitsSoFar(s, f0, idx, value) && idx - f0 <= k && fs == Pow10(k - (idx - f0))
    requires idx == |s| || fs <= 1 || !IsDigit(s[idx])
    ensures var f := s[f0..DigitRun(s, f0)];
            var n := idx - f0;
            n == (if |f| < k then |f| else k) && AllDigits(f[..n]) && value == Val(f[..n]) < Pow10(n)
  {
    var r := DigitRun(s, f0);
    LowerPower(k - (idx - f0));
    hide Val, Pow10;
    DigitsWithin(s, f0, idx);
    assert s[f0..r][..idx - f0] == s[f0..idx];
    if idx == |s| || !IsDigit(s[idx]) {
      DigitRunUnique(s, f0, idx);
    }
  }

  // The fraction loop of parseFP: the first k digits at most. It never overflows.
  method ReadFraction(b: array<char>, at: nat, start: nat, scale: nat, ghost k: nat)
    returns (value: nat, fs: nat, ghost n: nat, ghost fits: bool)
    requires Terminated(b[..], at) && start <= |CString(b[..], at)|
    requires k <= 9 && scale == Pow10(k)
    ensures var s := CString(b[..], at);
            var f := s[start..DigitRun(s, start)];
            && n == (if |f| < k then |f| else k) && AllDigits(f[..n])
            && value == Val(f[..n]) < Pow10(n) && fs == Pow10(k - n)
    ensures fits
  {
    ghost var s := CString(b[..], at);
    BufferReads(b, at);
    NoDigitsYet(s, start);
    hide Pow10, Val, I32, DigitRun, CString, Terminated, DigitsSoFar;
    var idx := start;
    value, fs, n, fits := 0, scale, 0, true;
    while b[at + idx] != '\0' && fs > 1
      invariant start <= idx <= |s| && n == idx - start <= k
      invariant fs == Pow10(k - n) && DigitsSoFar(s, start, idx, value)
      invariant fits
      decreases |s| - idx
    {
      if b[at + idx] < '0' || b[at + idx] > '9' { break; }
      var d := b[at + idx] as int - '0' as int;
      LowerPower(k - n);
      FractionStep(s, start, idx, value);
      fits := fits && InI32(value * 10) && InI32(value * 10 + d);
      value := I32(value * 10 + d);
      idx := idx + 1;
      fs := fs / 10;
      n := n + 1;
    }
    FractionRead(s, start, idx, k, fs, value);
  }

  lemma TimesTen(x: nat, j: nat)
    ensures x * Pow10(j + 1) == x * Pow10(j) * 10
  {
  }

  lemma AlignStep(aligned: nat, value: nat, n: nat, j: nat, k: nat)
    requires n + j <= k <= 9 && Pow10(k - n - j) > 1 && aligned == value * Pow10(j) < Pow10(n + j)
    ensures n + j < k && InI32(aligned * 10)
    ensures aligned * 10 == value * Pow10(j + 1) < Pow10(n + j + 1)
    ensures Pow10(k - n - j) / 10 == Pow10(k - n - j - 1)
  {
    TimesTen(value, j);
    ScaleRoom(aligned * 10, n + j + 1, k);
  }

  // The alignment loop of parseFP: value times the power of ten that is left.
  method AlignFraction(value: nat, scale: nat, ghost n: nat, ghost k: nat) returns (aligned: nat, ghost fits: bool)
    requires n <= k <= 9 && value < Pow10(n) && scale == Pow10(k - n)
    ensures aligned == value * scale && fits
  {
    var fracScale := scale;
    aligned, fits := value, true;
    ghost var j := 0;
    assert Pow10(0) == 1;
    hide Pow10, I32;
    while fracScale > 1
      invariant j <= k - n && fracScale == Pow10(k - n - j)
      invariant aligned == value * Pow10(j) < Pow10(n + j)
      invariant fits
      decreases fracScale
    {
      AlignStep(aligned, value, n, j, k);
      fits := fits && InI32(aligned * 10);
      aligned := I32(aligned * 10);
      fracScale := fracScale / 10;
      j := j + 1;
    }
    LowerPower(k - n - j);
  }

  // The fraction of parseFP, scaled: its first k digits at most, padded to k digits.
  method AlignedFraction(b: array<char>, at: nat, start: nat, scale: nat, ghost k: nat)
    returns (fracPart: nat, ghost n: nat, ghost fits: bool)
    requires Terminated(b[..], at) && start <= |CString(b[..], at)|
    requires k <= 9 && scale == Pow10(k)
    ensures var s := CString(b[..], at);
            var f := s[start..DigitRun(s, start)];
            && n == (if |f| < k then |f| else k) && AllDigits(f[..n])
            && fracPart == Val(f[..n]) * Pow10(k - n)
    ensures fits
  {
    hide Pow10, Val, DigitRun, CString, Terminated;
    var fs;
    ghost var fractionFits, alignFits;
    fracPart, fs, n, fractionFits := ReadFraction(b, at, start, scale, k);
    var ratio := scale / scale;
    DivModUnique(scale, scale, 1, 0);
    fs := ratio * fs;
    fracPart, alignFits := AlignFraction(fracPart, fs, n, k);
    fits := fractionFits && alignFits;
  }

  lemma WholeNumber(s: string, k: nat)
    requires IsFixedPoint(s) && IntegerEnd(s) == |s|
    ensures Magnitude(s, Pow10(k)) == Val(IntegerDigits(s)) * Pow10(k)
  {
    assert FractionDigits(s)[..0] == "";
    MagnitudeSum(s, k, 0, 0);
  }

  // The fraction of parseFP if there is a dot: what it adds to the scaled integer part.
  method FractionPart(b: array<char>, at: nat, idx: nat, scale: nat, ghost k: nat)
    returns (fracPart: nat, ghost fits: bool)
    requires Terminated(b[..], at) && k <= 9 && scale == Pow10(k)
    requires IsFixedPoint(CString(b[..], at)) && idx == IntegerEnd(CString(b[..], at))
    ensures var s := CString(b[..], at); Magnitude(s, scale) == Val(IntegerDigits(s)) * scale + fracPart
    ensures fits
  {
    BufferReads(b, at);
    hide Pow10, Val, MulDiv, Magnitude, DigitRun, CString, Terminated;
    fracPart, fits := 0, true;
    ghost var s := CString(b[..], at);
    if b[at + idx] == '.' {
      ghost var n;
      fracPart, n, fits := AlignedFraction(b, at, idx + 1, scale, k);
      MagnitudeSum(s, k, n, fracPart);
    } else {
      WholeNumber(s, k);
    }
  }

  // A factor, a product at least as large and a sum fit exactly when the sum does.
  lemma FitsExactly(i: nat, product: nat, f: nat)
    requires i <= product
    ensures product + f < 0x8000_0000 <==> i < 0x8000_0000 && InI32(product) && InI32(I32(product) + f)
  {
  }

  // integer * scale + fraction in int32_t: the exact sum wrapped, and overflow-free exactly when
  // the exact sum fits.
  lemma SumFits(i: nat, m: nat, f: nat)
    requires m >= 1
    ensures I32(I32(I32(i) * m) + f) == I32(i * m + f)
    ensures i * m + f < 0x8000_0000 <==>
            i < 0x8000_0000 && InI32(I32(i) * m) && InI32(I32(I32(i) * m) + f)
  {
    I32MulAdd(i, m, 0);
    I32MulAdd(i * m, 1, f);
    MulMonotone(1, m, i);
    FitsExactly(i, i * m, f);
  }

  // The closing lines of both parsers: integer * scale + fraction, negated on demand.
  method Combine(integerPart: int, ghost i: nat, scale: nat, fracPart: nat, negative: bool, ghost exact: nat)
    returns (out: int, ghost fits: bool)
    requires integerPart == I32(i) && scale >= 1 && exact == i * scale + fracPart
    ensures out == I32(Signed(negative, exact))
    ensures i < 0x8000_0000 && fits <==> exact < 0x8000_0000
  {
    var result := I32(I32(integerPart * scale) + fracPart);
    fits := InI32(integerPart * scale) && InI32(I32(integerPart * scale) + fracPart);
    SumFits(i, scale, fracPart);
    I32Negate(exact);
    out := if negative then I32(-result) else result;
  }

  // parseFP. fits reports whether every int32_t operation of the run was free of overflow.
  method ParseFP(b: array<char>, at: nat, scale: nat, ghost k: nat) returns (ok: bool, out: int, ghost fits: bool)
    requires Terminated(b[..], at)
    requires k <= 9 && scale == Pow10(k)
    ensures var s := CString(b[..], at);
            && ok == IsFixedPoint(s)
            && out == (if ok then I32(FixedPoint(s, scale).value) else 0)
    ensures ok ==> (fits <==> Magnitude(CString(b[..], at), scale) < 0x8000_0000)
  {
    ghost var s := CString(b[..], at);
    BufferReads(b, at);
    hide Pow10, Val, MulDiv, Magnitude, I32, DigitRun, CString, Terminated;
    if b[at] == '\0' {
      return false, 0, true;
    }
    var negative := b[at] == '-';
    var start := if negative then 1 else 0;
    var digits, idx, integerPart, integerFits := ReadInteger(b, at, start);
    if !digits {
      return false, 0, integerFits;
    }
    var fracPart: nat;
    ghost var fractionFits;
    fracPart, fractionFits := FractionPart(b, at, idx, scale, k);
    ghost var combineFits;
    out, combineFits := Combine(integerPart, Val(IntegerDigits(s)), scale, fracPart, negative, Magnitude(s, scale));
    ok, fits := true, integerFits && fractionFits && combineFits;
  }

  // ---- Degrees and minutes: d...dmm.mmmm

  // The index of the first '.' among the first 16 characters, or |s| when there is none.
  function DotPos(s: string): (p: nat)
    ensures p <= |s|
    ensures p < |s| ==> p < 16 && s[p] == '.'
  {
    var p := IndexOf(s, '.', 0);
    if p < 16 then p else |s|
  }

  predicate IsDegMin(s: string) {
    var p := DotPos(s);
    3 <= p < |s| && AllDigits(s[..p])
  }

  function Degrees(s: string): nat
    requires IsDegMin(s)
  {
    Val(s[..DotPos(s) - 2])
  }

  function Minutes(s: string): nat
    requires IsDegMin(s)
  {
    Val(s[DotPos(s) - 2..DotPos(s)])
  }

  // All digits directly after the dot.
  function MinuteFraction(s: string): (f: string)
    requires IsDegMin(s)
    ensures AllDigits(f)
  {
    var p := DotPos(s);
    s[p + 1..DigitRun(s, p + 1)]
  }

  // The first four fraction digits, padded: ten-thousandths of a minute, rounded down.
  function TenThousandths(f: string): nat
    requires AllDigits(f)
  {
    if |f| < 4 then Val(f) * Pow10(4 - |f|) else Val(f[..4])
  }

  function MicroDegrees(degrees: nat, minutesE4: nat): nat {
    degrees * 1_000_000 + minutesE4 * 100 / 60
  }

  function DegMinMagnitude(s: string): nat
    requires IsDegMin(s)
  {
    MicroDegrees(Degrees(s), Minutes(s) * 10_000 + TenThousandths(MinuteFraction(s)))
  }

  predicate SouthOrWest(hemi: char) {
    hemi == 'S' || hemi == 'W'
  }

  function DegMin(s: string, hemi: char): Field<int> {
    if !IsDegMin(s) then Malformed
    else Parsed(Signed(SouthOrWest(hemi), DegMinMagnitude(s)))
  }

  method FindDot(b: array<char>, at: nat) returns (hasDot: bool, dotPos: nat)
    requires Terminated(b[..], at)
    ensures var s := CString(b[..], at);
            && hasDot == (DotPos(s) < |s|)
            && (hasDot ==> dotPos == DotPos(s))
  {
    ghost var s := CString(b[..], at);
    BufferReads(b, at);
    hasDot, dotPos := false, 0;
    var i := 0;
    while i < 16 && b[at + i] != '\0'
      invariant i <= |s| && i <= 16
      invariant forall j :: 0 <= j < i ==> s[j] != '.'
      invariant !hasDot
    {
      if b[at + i] == '.' {
        IndexOfUnique(s, '.', 0, i);
        return true, i;
      }
      i := i + 1;
    }
  }

  // The degree and minute loops: every character from start to end must be a digit.
  method ReadDigits(b: array<char>, at: nat, start: nat, end: nat) returns (ok: bool, value: int, ghost fits: bool)
    requires Terminated(b[..], at) && start <= end <= |CString(b[..], at)|
    ensures var s := CString(b[..], at);
            && ok == AllDigits(s[start..end])
            && (ok ==> value == I32(Val(s[start..end])))
    ensures ok ==> (fits <==> Val(CString(b[..], at)[start..end]) < 0x8000_0000)
  {
    ghost var s := CString(b[..], at);
    BufferReads(b, at);
    value, fits := 0, true;
    var i := start;
    while i < end
      invariant start <= i <= end
      invariant AllDigits(s[start..i])
      invariant value == I32(Val(s[start..i]))
      invariant fits <==> Val(s[start..i]) < 0x8000_0000
    {
      if b[at + i] < '0' || b[at + i] > '9' {
        assert !IsDigit(s[start..end][i - start]);
        return false, 0, fits;
      }
      var d := b[at + i] as int - '0' as int;
      ReadDigit(s, start, i);
      I32MulAdd(Val(s[start..i]), 10, d);
      fits := fits && InI32(value * 10) && InI32(value * 10 + d);
      value := I32(value * 10 + d);
      i := i + 1;
    }
    ok := true;
  }

  lemma PadToFour(f: string, n: nat, v: nat)
    requires AllDigits(f) && n == (if |f| < 4 then |f| else 4) && v == Val(f[..n])
    ensures v * Pow10(4 - n) == TenThousandths(f) < 10_000
  {
    assert |f| < 4 ==> f[..n] == f;
    ValBound(f[..n]);
    Pow10Add(n, 4 - n);
    assert Pow10(4) == 10_000;
    MulMonotone(v + 1, Pow10(n), Pow10(4 - n));
  }

  lemma PadStep(v: nat, k: nat)
    requires k > 0 && v * Pow10(k) < 10_000
    ensures v * 10 * Pow10(k - 1) == v * Pow10(k) && InI32(v * 10)
  {
    var p := Pow10(k - 1);
    assert v * 10 * p == v * (10 * p);
    MulMonotone(1, p, v * 10);
  }

  // The padding loop of parseDegMin.
  method PadFraction(digits: nat, count: nat, ghost f: string) returns (value: nat, ghost fits: bool)
    requires AllDigits(f) && count == (if |f| < 4 then |f| else 4) && digits == Val(f[..count])
    ensures value == TenThousandths(f) < 10_000
    ensures fits
  {
    PadToFour(f, count, digits);
    assert Pow10(0) == 1;
    hide Pow10, Val, I32, TenThousandths;
    var fracDigits := count;
    value, fits := digits, true;
    while fracDigits < 4
      invariant fracDigits <= 4
      invariant value * Pow10(4 - fracDigits) == TenThousandths(f) < 10_000
      invariant fits
    {
      PadStep(value, 4 - fracDigits);
      fits := fits && InI32(value * 10);
      value := I32(value * 10);
      fracDigits := fracDigits + 1;
    }
  }

  // The two fraction loops of parseDegMin: four digits, zero-padded. They never overflow.
  method ReadTenThousandths(b: array<char>, at: nat, start: nat) returns (value: nat, ghost fits: bool)
    requires Terminated(b[..], at) && start <= |CString(b[..], at)|
    ensures var s := CString(b[..], at);
            value == TenThousandths(s[start..DigitRun(s, start)]) < 10_000
    ensures fits
  {
    ghost var s := CString(b[..], at);
    BufferReads(b, at);
    NoDigitsYet(s, start);
    hide Pow10, Val, I32, DigitRun, CString, Terminated, DigitsSoFar, TenThousandths;
    var i, fracDigits := start, 0;
    value, fits := 0, true;
    while fracDigits < 4 && b[at + i] != '\0'
      invariant start <= i <= |s| && fracDigits == i - start <= 4
      invariant DigitsSoFar(s, start, i, value)
      invariant fits
      decreases |s| - i
    {
      if b[at + i] < '0' || b[at + i] > '9' { break; }
      var d := b[at + i] as int - '0' as int;
      FractionStep(s, start, i, value);
      fits := fits && InI32(value * 10) && InI32(value * 10 + d);
      value := I32(value * 10 + d);
      i := i + 1;
      fracDigits := fracDigits + 1;
    }
    LowerPower(4 - fracDigits);
    FractionRead(s, start, i, 4, Pow10(4 - fracDigits), value);
    ghost var padFits;
    value, padFits := PadFraction(value, fracDigits, s[start..DigitRun(s, start)]);
    fits := fits && padFits;
  }

  // Minutes in millionths of a degree. Two minute digits never overflow.
  method MinutesE6(minInt: nat, minFrac: nat) returns (minE6: nat, ghost fits: bool)
    requires minInt < 100 && minFrac < 10_000
    ensures minE6 == (minInt * 10_000 + minFrac) * 100 / 60 && fits
  {
    var totalMinE4 := I32(I32(minInt * 10_000) + minFrac);
    minE6 := I32(totalMinE4 * 100) / 60;
    fits := InI32(minInt * 10_000) && InI32(I32(minInt * 10_000) + minFrac) && InI32(totalMinE4 * 100);
  }

  lemma TwoDigitsFit(m: string)
    requires |m| == 2 && AllDigits(m)
    ensures Val(m) < 100
  {
    ValBound(m);
    assert Pow10(2) == 100;
  }

  // The closing lines of parseDegMin.
  method Convert(degrees: int, minInt: nat, minFrac: nat, hemi: char, ghost s: string)
    returns (out: int, ghost fits: bool)
    requires IsDegMin(s) && degrees == I32(Degrees(s))
    requires minInt == Minutes(s) < 100 && minFrac == TenThousandths(MinuteFraction(s)) < 10_000
    ensures out == I32(Signed(SouthOrWest(hemi), DegMinMagnitude(s)))
    ensures Degrees(s) < 0x8000_0000 && fits <==> DegMinMagnitude(s) < 0x8000_0000
  {
    hide IsDegMin, Degrees, Minutes, MinuteFraction, TenThousandths, I32;
    var minE6, minutesFit := MinutesE6(minInt, minFrac);
    ghost var combineFits;
    out, combineFits :=
      Combine(degrees, Degrees(s), 1_000_000, minE6, hemi == 'S' || hemi == 'W', DegMinMagnitude(s));
    fits := minutesFit && combineFits;
  }

  // parseDegMin. fits reports whether every int32_t operation of the run was free of overflow.
  method ParseDegMin(b: array<char>, at: nat, hemi: char) returns (ok: bool, out: int, ghost fits: bool)
    requires Terminated(b[..], at)
    ensures var s := CString(b[..], at);
            && ok == IsDegMin(s)
            && out == (if ok then I32(DegMin(s, hemi).value) else 0)
    ensures ok ==> (fits <==> DegMinMagnitude(CString(b[..], at)) < 0x8000_0000)
  {
    ghost var s := CString(b[..], at);
    BufferReads(b, at);
    hide CString, Terminated, DigitRun, TenThousandths, I32;
    if b[at] == '\0' {
      return false, 0, true;
    }
    var hasDot, dotPos := FindDot(b, at);
    if !hasDot || dotPos < 3 {
      return false, 0, true;
    }
    var degEnd := dotPos - 2;
    assert s[..dotPos] == s[0..degEnd] + s[degEnd..dotPos];
    assert forall i :: degEnd <= i < dotPos ==> s[degEnd..dotPos][i - degEnd] == s[..dotPos][i];
    var degOk, degrees, degFits := ReadDigits(b, at, 0, degEnd);
    if !degOk {
      return false, 0, degFits;
    }
    var minOk, minInt, minFits := ReadDigits(b, at, degEnd, dotPos);
    if !minOk {
      return false, 0, minFits;
    }
    assert s[0..degEnd] == s[..dotPos - 2];
    var minFrac, fracFits := ReadTenThousandths(b, at, dotPos + 1);
    TwoDigitsFit(s[degEnd..dotPos]);
    hide IsDegMin, Degrees, Minutes, MinuteFraction, DegMinMagnitude, Val;
    ghost var convertFits;
    out, convertFits := Convert(degrees, minInt, minFrac, hemi, s);
    ok, fits := true, degFits && minFits && fracFits && convertFits;
  }

  // ---- Small unsigned integers

  // At most four characters are looked at; an empty field reads as 0.
  function SmallInt(s: string): Field<nat> {
    var t := if |s| < 4 then s else s[..4];
    if AllDigits(t) && Val(t) <= 255 then Parsed(Val(t)) else Malformed
  }

  lemma AllRead(t: string, value: nat)
    requires DigitsSoFar(t, 0, |t|, value)
    ensures AllDigits(t) && value == Val(t)
  {
    assert t[0..|t|] == t;
  }

  method ParseU8(b: array<char>, at: nat) returns (ok: bool, out: nat)
    requires Terminated(b[..], at)
    ensures var s := CString(b[..], at);
            && ok == SmallInt(s).Parsed?
            && out == (if ok then SmallInt(s).value else 0)
  {
    ghost var s := CString(b[..], at);
    BufferReads(b, at);
    if b[at] == '\0' {
      return true, 0;
    }
    ghost var t := if |s| < 4 then s else s[..4];
    NoDigitsYet(t, 0);
    hide Val, Pow10, CString, Terminated, DigitsSoFar;
    var val: nat, i: nat := 0, 0;
    while i < 4 && b[at + i] != '\0'
      invariant i <= |t| && DigitsSoFar(t, 0, i, val)
      decreases |t| - i
    {
      if b[at + i] < '0' || b[at + i] > '9' {
        assert !IsDigit(t[i]);
        return false, 0;
      }
      DigitsStep(t, 0, i, val);
      val := val * 10 + (b[at + i] as int - '0' as int);
      i := i + 1;
    }
    AllRead(t, val);
    if val > 255 {
      return false, 0;
    }
    return true, val;
  }
}
