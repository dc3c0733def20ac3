/** Decimal digit strings: their value, the canonical numeral, and zero-padded numerals. */
module Decimal {
  predicate IsDigit(c: char) {
    '0' <= c <= '9'
  }

  function DigitVal(c: char): (d: nat)
    requires IsDigit(c)
    ensures d < 10
  {
    c as int - '0' as int
  }

  function Digit(d: nat): (c: char)
    requires d < 10
    ensures IsDigit(c) && DigitVal(c) == d
  {
    ('0' as int + d) as char
  }

  predicate AllDigits(s: string) {
    forall i :: 0 <= i < |s| ==> IsDigit(s[i])
  }

  function Pow10(k: nat): (p: nat)
    ensures p >= 1
  {
    if k == 0 then 1 else 10 * Pow10(k - 1)
  }

  // The number a digit string denotes; the empty string denotes 0.
  function Val(s: string): nat
    requires AllDigits(s)
  {
    if s == "" then 0 else Val(s[..|s| - 1]) * 10 + DigitVal(s[|s| - 1])
  }

  // The canonical numeral: no leading zero except for 0 itself.
  function Dec(n: nat): string {
    if n < 10 then [Digit(n)] else Dec(n / 10) + [Digit(n % 10)]
  }

  // The last w digits of n, zero-padded on the left.
  function Pad(n: nat, w: nat): (s: string)
    ensures |s| == w
  {
    if w == 0 then "" else Pad(n / 10, w - 1) + [Digit(n % 10)]
  }

  // The end of the run of digits that starts at position i.
  function DigitRun(s: string, i: nat): (e: nat)
    requires i <= |s|
    ensures i <= e <= |s|
    ensures AllDigits(s[i..e])
    ensures e < |s| ==> !IsDigit(s[e])
    decreases |s| - i
  {
    if i < |s| && IsDigit(s[i]) then
      assert forall e :: i + 1 <= e <= |s| ==> s[i..e] == [s[i]] + s[i + 1..e];
      DigitRun(s, i + 1)
    else i
  }

  lemma DigitRunUnique(s: string, i: nat, e: nat)
    requires i <= e <= |s| && AllDigits(s[i..e])
    requires e < |s| ==> !IsDigit(s[e])
    ensures DigitRun(s, i) == e
  {
    var r := DigitRun(s, i);
    assert forall k :: i <= k < e ==> s[k] == s[i..e][k - i];
    assert forall k :: i <= k < r ==> s[k] == s[i..r][k - i];
  }

  lemma {:induction false} Pow10Add(a: nat, b: nat)
    ensures Pow10(a + b) == Pow10(a) * Pow10(b)
  {
    if a > 0 {
      Pow10Add(a - 1, b);
    }
  }

  lemma {:induction false} Pow10Monotone(a: nat, b: nat)
    requires a <= b
    ensures Pow10(a) <= Pow10(b)
    decreases b - a
  {
    if a < b {
      Pow10Monotone(a, b - 1);
    }
  }

  lemma DecSnoc(n: nat, d: nat, s: string)
    requires n > 0 && d < 10 && Dec(n) == s
    ensures Dec(10 * n + d) == s + [Digit(d)]
  {
  }

  lemma ValSnoc(s: string, c: char)
    requires AllDigits(s) && IsDigit(c)
    ensures AllDigits(s + [c]) && Val(s + [c]) == Val(s) * 10 + DigitVal(c)
  {
    assert (s + [c])[..|s|] == s;
  }

  lemma ShiftSum(v: nat, p: nat, w: nat, d: nat)
    ensures (v * p + w) * 10 + d == v * (10 * p) + (w * 10 + d)
  {
  }

  lemma {:induction false} ValConcat(a: string, b: string)
    requires AllDigits(a) && AllDigits(b)
    ensures AllDigits(a + b)
    ensures Val(a + b) == Val(a) * Pow10(|b|) + Val(b)
  {
    if b == "" {
      assert a + b == a;
    } else {
      hide Val;
      var b', c := b[..|b| - 1], b[|b| - 1];
      ValConcat(a, b');
      assert a + b == (a + b') + [c] && b == b' + [c];
      ValSnoc(a + b', c);
      ValSnoc(b', c);
      ShiftSum(Val(a), Pow10(|b'|), Val(b'), DigitVal(c));
      assert Pow10(|b|) == 10 * Pow10(|b'|);
    }
  }

  lemma {:induction false} ValBound(s: string)
    requires AllDigits(s)
    ensures Val(s) < Pow10(|s|)
  {
    if s != "" {
      ValBound(s[..|s| - 1]);
    }
  }

  lemma {:induction false} DecDenotes(n: nat)
    ensures |Dec(n)| >= 1 && AllDigits(Dec(n)) && Val(Dec(n)) == n
    ensures n > 0 ==> Dec(n)[0] != '0'
  {
    if n < 10 {
      assert [Digit(n)] == "" + [Digit(n)];
      ValSnoc("", Digit(n));
    } else {
      DecDenotes(n / 10);
      ValSnoc(Dec(n / 10), Digit(n % 10));
    }
  }

  lemma {:induction false} DecLength(n: nat, k: nat)
    requires 1 <= k && n < Pow10(k)
    ensures |Dec(n)| <= k
  {
    if n >= 10 {
      assert k > 1;
      DecLength(n / 10, k - 1);
    }
  }

  // A numeral without a leading zero is at least the power of ten of its length.
  lemma {:induction false} LeadingDigit(s: string)
    requires |s| >= 1 && AllDigits(s) && s[0] != '0'
    ensures Val(s) >= Pow10(|s| - 1)
  {
    var s', c := s[..|s| - 1], s[|s| - 1];
    if s' == "" {
      assert Val(s') == 0;
    } else {
      LeadingDigit(s');
    }
  }

  // A digit string without a leading zero is the canonical numeral of its value.
  lemma {:induction false} DecUnique(s: string)
    requires |s| >= 1 && AllDigits(s)
    requires |s| > 1 ==> s[0] != '0'
    ensures Dec(Val(s)) == s
  {
    var s', c := s[..|s| - 1], s[|s| - 1];
    if s' == "" {
      assert Val(s') == 0 && s == [c] && Val(s) == DigitVal(c);
    } else {
      DecUnique(s');
      assert s == s' + [c];
      LeadingDigit(s');
    }
  }

  lemma {:induction false} PadDenotes(n: nat, w: nat)
    requires n < Pow10(w)
    ensures AllDigits(Pad(n, w)) && Val(Pad(n, w)) == n
  {
    if w > 0 {
      PadDenotes(n / 10, w - 1);
      ValSnoc(Pad(n / 10, w - 1), Digit(n % 10));
    }
  }

  // ---- Reading digits from left to right

  // One more digit of a number read from left to right.
  lemma ReadDigit(s: string, from: nat, i: nat)
    requires from <= i < |s| && AllDigits(s[from..i]) && IsDigit(s[i])
    ensures AllDigits(s[from..i + 1])
    ensures Val(s[from..i + 1]) == Val(s[from..i]) * 10 + DigitVal(s[i])
  {
    ValSnoc(s[from..i], s[i]);
    assert s[from..i + 1] == s[from..i] + [s[i]];
  }

  // The value of the digits read so far, from start up to idx.
  ghost predicate DigitsSoFar(s: string, start: nat, idx: nat, value: nat) {
    start <= idx <= |s| && AllDigits(s[start..idx]) && value == Val(s[start..idx]) < Pow10(idx - start)
  }

  lemma NoDigitsYet(s: string, start: nat)
    requires start <= |s|
    ensures DigitsSoFar(s, start, start, 0)
  {
    assert s[start..start] == "";
  }

  lemma DigitsStep(s: string, start: nat, idx: nat, value: nat)
    requires DigitsSoFar(s, start, idx, value) && idx < |s| && IsDigit(s[idx])
    ensures DigitsSoFar(s, start, idx + 1, value * 10 + DigitVal(s[idx]))
  {
    ReadDigit(s, start, idx);
    hide Val;
    assert Pow10(idx + 1 - start) == 10 * Pow10(idx - start);
  }
}
