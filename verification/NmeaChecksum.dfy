/** The NMEA 0183 checksum field (section 5.2.3 of edition 3.01): printing, checking, soundness. */
module NmeaChecksum {
  import opened MachineWords
  import opened Text

  // Bitwise exclusive or, lowest bit first.
  function Xor(a: nat, b: nat): nat
    decreases a + b
  {
    if a == 0 && b == 0 then 0 else (a % 2 + b % 2) % 2 + 2 * Xor(a / 2, b / 2)
  }

  // The accumulator after xor-ing in every byte of s.
  function XorFold(acc: nat, s: string): nat {
    if s == "" then acc else Xor(XorFold(acc, s[..|s| - 1]), U8(s[|s| - 1]))
  }

  // The value of a hexadecimal digit in either case, -1 for any other character.
  function HexVal(c: char): (v: int)
    ensures -1 <= v < 16
  {
    if '0' <= c <= '9' then c as int - '0' as int
    else if 'A' <= c <= 'F' then c as int - 'A' as int + 10
    else if 'a' <= c <= 'f' then c as int - 'a' as int + 10
    else -1
  }

  function HexDigit(n: nat, upper: bool): (c: char)
    requires n < 16
    ensures HexVal(c) == n
  {
    if n < 10 then ('0' as int + n) as char
    else if upper then ('A' as int + n - 10) as char
    else ('a' as int + n - 10) as char
  }

  lemma {:induction false} XorBound(a: nat, b: nat, m: nat)
    requires m in {1, 2, 4, 8, 16, 32, 64, 128, 256}
    requires a < m && b < m
    ensures Xor(a, b) < m
    decreases m
  {
    if m > 1 {
      XorBound(a / 2, b / 2, m / 2);
    }
  }

  lemma {:induction false} XorFoldBound(acc: nat, s: string)
    requires acc < 256
    ensures XorFold(acc, s) < 256
  {
    if s != "" {
      XorFoldBound(acc, s[..|s| - 1]);
      XorBound(XorFold(acc, s[..|s| - 1]), U8(s[|s| - 1]), 256);
    }
  }

  // "*hh" for a sentence body.
  function ChecksumField(body: string, upperHi: bool, upperLo: bool): string {
    XorFoldBound(0, body);
    var x := XorFold(0, body);
    ['*', HexDigit(x / 16, upperHi), HexDigit(x % 16, upperLo)]
  }

  // The index of the first '*', or |line|.
  function StarPos(line: string): nat {
    IndexOf(line, '*', 0)
  }

  // What verifyChecksum accepts: a first '*' with two hex digits after it whose value is the xor
  // of the bytes strictly between position 0 and the '*'.
  predicate Accepts(line: string) {
    var p := StarPos(line);
    && p + 2 < |line|
    && HexVal(line[p + 1]) >= 0 && HexVal(line[p + 2]) >= 0
    && XorFold(0, if p == 0 then "" else line[1..p]) == HexVal(line[p + 1]) * 16 + HexVal(line[p + 2])
  }

  method VerifyChecksum(line: array<char>, len: nat) returns (ok: bool)
    requires len <= line.Length
    ensures ok == Accepts(line[..len])
  {
    ghost var s := line[..len];
    var starPos, found, i := 0, false, 0;
    while i < len
      invariant i <= len && !found
      invariant forall k :: 0 <= k < i ==> s[k] != '*'
    {
      if line[i] == '*' {
        starPos, found := i, true;
        break;
      }
      i := i + 1;
    }
    IndexOfUnique(s, '*', 0, i);
    if !found || starPos + 2 >= len {
      return false;
    }
    var sum := 0;
    i := 1;
    assert starPos >= 1 ==> s[1..1] == "";
    while i < starPos
      invariant starPos >= 1 ==> 1 <= i <= starPos && sum == XorFold(0, s[1..i])
      invariant starPos == 0 ==> sum == 0
    {
      assert s[1..i + 1][..|s[1..i + 1]| - 1] == s[1..i];
      sum := Xor(sum, U8(line[i]));
      i := i + 1;
    }
    var hi, lo := HexVal(line[starPos + 1]), HexVal(line[starPos + 2]);
    if hi < 0 || lo < 0 {
      return false;
    }
    // (hi << 4) | lo with lo < 16
    return sum == hi * 16 + lo;
  }

  lemma XorUnfold(a: nat, b: nat)
    ensures Xor(a, b) % 2 == (a % 2 + b % 2) % 2
    ensures Xor(a, b) / 2 == Xor(a / 2, b / 2)
  {
  }

  lemma SameParity(a: nat, b: nat, c: nat)
    requires (a % 2 + c % 2) % 2 == (b % 2 + c % 2) % 2
    ensures a % 2 == b % 2 && (a / 2 == b / 2 ==> a == b)
  {
  }

  lemma {:induction false} XorLeftInjective(a: nat, b: nat, c: nat)
    requires Xor(a, c) == Xor(b, c)
    ensures a == b
    decreases a + b + c
  {
    if a + b + c > 0 {
      XorUnfold(a, c);
      XorUnfold(b, c);
      hide Xor;
      SameParity(a, b, c);
      XorLeftInjective(a / 2, b / 2, c / 2);
    }
  }

  lemma {:induction false} XorCommutes(a: nat, b: nat)
    ensures Xor(a, b) == Xor(b, a)
    decreases a + b
  {
    if a + b > 0 {
      XorCommutes(a / 2, b / 2);
    }
  }

  lemma {:induction false} XorFoldConcat(acc: nat, s: string, t: string)
    ensures XorFold(acc, s + t) == XorFold(XorFold(acc, s), t)
  {
    if t == "" {
      assert s + t == s;
    } else {
      var t' := t[..|t| - 1];
      XorFoldConcat(acc, s, t');
      assert (s + t)[..|s + t| - 1] == s + t';
    }
  }

  lemma {:induction false} XorFoldInjective(a: nat, b: nat, s: string)
    requires XorFold(a, s) == XorFold(b, s)
    ensures a == b
  {
    if s != "" {
      var s' := s[..|s| - 1];
      XorLeftInjective(XorFold(a, s'), XorFold(b, s'), U8(s[|s| - 1]));
      XorFoldInjective(a, b, s');
    }
  }

  lemma XorFoldSplit(pre: string, c: char, post: string)
    ensures XorFold(0, pre + [c] + post) == XorFold(Xor(XorFold(0, pre), U8(c)), post)
  {
    XorFoldConcat(0, pre + [c], post);
    assert (pre + [c])[..|pre|] == pre;
  }

  // Replacing exactly one byte always changes the checksum.
  lemma XorFoldDetects(pre: string, c: char, d: char, post: string)
    requires XorFold(0, pre + [c] + post) == XorFold(0, pre + [d] + post)
    ensures U8(c) == U8(d)
  {
    hide Xor, XorFold;
    var x := XorFold(0, pre);
    XorFoldSplit(pre, c, post);
    XorFoldSplit(pre, d, post);
    XorFoldInjective(Xor(x, U8(c)), Xor(x, U8(d)), post);
    XorCommutes(x, U8(c));
    XorCommutes(x, U8(d));
    XorLeftInjective(U8(c), U8(d), x);
  }

  // On lines of the sentence shape, acceptance is exactly agreement of the two hex digits.
  lemma AcceptsShape(start: char, body: string, hi: char, lo: char, rest: string)
    requires start != '*' && Free(body, '*')
    ensures Accepts([start] + body + ['*', hi, lo] + rest) <==>
            HexVal(hi) >= 0 && HexVal(lo) >= 0 && XorFold(0, body) == HexVal(hi) * 16 + HexVal(lo)
  {
    var line := [start] + body + ['*', hi, lo] + rest;
    var p := 1 + |body|;
    assert line[..p] == [start] + body && line[1..p] == body;
    IndexOfUnique(line, '*', 0, p);
  }

  // Which characters are hexadecimal digits, and their values.
  lemma HexDigitsExactly(c: char)
    ensures HexVal(c) >= 0 <==> c in "0123456789ABCDEFabcdef"
    ensures HexVal(c) >= 0 ==> c == "0123456789ABCDEF"[HexVal(c)] || c == "0123456789abcdef"[HexVal(c)]
  {
    var upper, lower, all := "0123456789ABCDEF", "0123456789abcdef", "0123456789ABCDEFabcdef";
    if HexVal(c) >= 0 {
      assert c == upper[HexVal(c)] || c == lower[HexVal(c)];
      assert c == all[HexVal(c)] || c == all[HexVal(c) + 6];
    }
  }

  // Without a '*', or with fewer than two characters behind the first one, a line is refused; with the
  // '*' in front, the digits must be zeros.
  lemma RefusedShapes(body: string, t: string, hi: char, lo: char, rest: string)
    requires Free(body, '*') && |t| < 2
    ensures !Accepts(body) && !Accepts(body + "*" + t)
    ensures Accepts(['*', hi, lo] + rest) <==> hi == '0' && lo == '0'
  {
    var short, line := body + "*" + t, ['*', hi, lo] + rest;
    IndexOfUnique(body, '*', 0, |body|);
    assert forall k :: 0 <= k < |body| ==> short[k] == body[k];
    IndexOfUnique(short, '*', 0, |body|);
    IndexOfUnique(line, '*', 0, 0);
    HexDigitsExactly(hi);
    HexDigitsExactly(lo);
  }

  // The checksum printed for one body validates another exactly when their xors agree.
  lemma AcceptsField(start: char, got: string, sent: string, upperHi: bool, upperLo: bool, rest: string)
    requires start != '*' && Free(got, '*')
    ensures Accepts([start] + got + ChecksumField(sent, upperHi, upperLo) + rest) <==>
            XorFold(0, got) == XorFold(0, sent)
  {
    hide Accepts, XorFold;
    XorFoldBound(0, sent);
    var x := XorFold(0, sent);
    AcceptsShape(start, got, HexDigit(x / 16, upperHi), HexDigit(x % 16, upperLo), rest);
  }

  lemma AcceptsPrinted(start: char, body: string, upperHi: bool, upperLo: bool, rest: string)
    requires start != '*' && Free(body, '*')
    ensures Accepts([start] + body + ChecksumField(body, upperHi, upperLo) + rest)
  {
    AcceptsField(start, body, body, upperHi, upperLo, rest);
  }

  lemma StillNoStar(pre: string, c: char, d: char, post: string)
    requires Free(pre + [c] + post, '*') && d != '*'
    ensures Free(pre + [d] + post, '*')
  {
    FreeConcat(pre + [c], post, '*');
    FreeConcat(pre, [c], '*');
    FreeConcat(pre, [d], '*');
    FreeConcat(pre + [d], post, '*');
  }

  // Soundness: the checksum printed for one body never validates a body that differs in one byte.
  lemma RejectsOneByteChange(start: char, pre: string, c: byte, d: byte, post: string,
                             upperHi: bool, upperLo: bool, rest: string)
    requires start != '*' && Free(pre + [c] + post, '*')
    requires d != c && d != '*'
    ensures !Accepts([start] + (pre + [d] + post) + ChecksumField(pre + [c] + post, upperHi, upperLo) + rest)
  {
    hide Accepts, ChecksumField, XorFold, Free;
    var sent, got := pre + [c] + post, pre + [d] + post;
    StillNoStar(pre, c, d, post);
    AcceptsField(start, got, sent, upperHi, upperLo, rest);
    if XorFold(0, sent) == XorFold(0, got) {
      XorFoldDetects(pre, c, d, post);
    }
  }
}
