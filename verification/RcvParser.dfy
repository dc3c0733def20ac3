/** The parser of the radio's packet lines, +RCV=addr,len,data,rssi,snr, over a buffer. */
module RcvParser {
  import opened MachineWords
  import opened Text
  import opened Decimal

  const ADDR_MAX: nat := 8
  const LEN_MAX: nat := 4
  const DATA_MAX: nat := 100
  const RSSI_DIGITS: nat := 6
  const SNR_DIGITS: nat := 4

  datatype Rcv = Packet(rssi: int, snr: int) | Rejected

  // ---- The value of a line

  // The position after the comma that ends a field of at most limit characters, or beyond the line.
  function AfterField(s: string, i: nat, limit: nat): (p: nat)
    requires i <= |s|
    ensures i < p <= |s| + 1
  {
    var c := IndexOf(s, ',', i);
    if c < |s| && c - i <= limit then c + 1 else |s| + 1
  }

  // The end of the digits at position i, at most limit of them.
  function DigitsEnd(s: string, i: nat, limit: nat): (e: nat)
    requires i <= |s|
    ensures i <= e <= |s| && e - i <= limit && AllDigits(s[i..e])
  {
    var e := DigitRun(s, i);
    assert i + limit < e ==> s[i..i + limit] == s[i..e][..limit];
    if e - i <= limit then e else i + limit
  }

  function AfterSign(s: string, i: nat): (p: nat)
    requires i <= |s|
    ensures i <= p <= |s|
  {
    if At(s, i) == '-' then i + 1 else i
  }

  // The signal-to-noise ratio that starts at position i, times ten. What follows it is ignored.
  function SnrX10(s: string, i: nat): int
    requires i <= |s|
  {
    var start := AfterSign(s, i);
    var e := DigitsEnd(s, start, SNR_DIGITS);
    var tenths := if At(s, e) == '.' && IsDigit(At(s, e + 1)) then DigitVal(s[e + 1]) else 0;
    Signed(start > i, Val(s[start..e]) * 10 + tenths)
  }

  // The numbers that start at position i.
  function Numbers(s: string, i: nat): Rcv
    requires i <= |s|
  {
    var start := AfterSign(s, i);
    var e := DigitsEnd(s, start, RSSI_DIGITS);
    if At(s, e) != ',' then Rejected
    else Packet(I16(Signed(start > i, Val(s[start..e]))), I16(SnrX10(s, e + 1)))
  }

  predicate IsRcv(s: string) {
    |s| >= 5 && s[..5] == "+RCV="
  }

  // parseRcv on a line that starts with +RCV=.
  function Parse(s: string): Rcv
    requires IsRcv(s)
  {
    var a := AfterField(s, 5, ADDR_MAX);
    if a > |s| then Rejected
    else
      var l := AfterField(s, a, LEN_MAX);
      if l > |s| then Rejected
      else
        var d := AfterField(s, l, DATA_MAX);
        if d > |s| then Rejected else Numbers(s, d)
  }

  lemma RcvPrefixStays(line: string)
    requires IsRcv(line)
    ensures IsRcv(UpToNul(line))
  {
    var p := IndexOf(line, '\0', 0);
    var head := line[..5];
    assert head[0] == '+' && head[1] == 'R' && head[2] == 'C' && head[3] == 'V' && head[4] == '=';
    assert p >= 5;
    assert line[..p][..5] == line[..5];
  }

  // The figures of a received line, if it is a packet line. The source parses it as a C string.
  function PacketOf(line: string): Rcv {
    if !IsRcv(line) then Rejected
    else
      RcvPrefixStays(line);
      Parse(UpToNul(line))
  }

  // ---- The parser over a buffer

  // The loop that skips one field and the test of its comma. Positions are those of the line at
  // the start of the buffer.
  method SkipField(b: array<char>, start: nat, limit: nat) returns (ok: bool, p: nat)
    requires Terminated(b[..], 0) && start <= |CString(b[..], 0)|
    ensures var s := CString(b[..], 0);
            && ok == (AfterField(s, start, limit) <= |s|)
            && (ok ==> p == AfterField(s, start, limit))
  {
    ghost var s := CString(b[..], 0);
    BufferReads(b, 0);
    var skipLimit := limit;
    p := start;
    while b[p] != '\0' && b[p] != ',' && skipLimit > 0
      invariant start <= p <= |s| && skipLimit == limit - (p - start)
      invariant forall k :: start <= k < p ==> s[k] != ','
      decreases |s| - p
    {
      skipLimit := skipLimit - 1;
      p := p + 1;
    }
    assert IndexOf(s, ',', start) >= p;
    if b[p] != ',' {
      return false, p;
    }
    IndexOfUnique(s, ',', start, p);
    return true, p + 1;
  }

  lemma DigitsRead(s: string, start: nat, p: nat, limit: nat, value: nat)
    requires DigitsSoFar(s, start, p, value) && p - start <= limit
    requires p < |s| && IsDigit(s[p]) ==> p - start == limit
    ensures p == DigitsEnd(s, start, limit) && value == Val(s[start..p]) < Pow10(limit)
  {
    var e := DigitRun(s, start);
    Pow10Monotone(p - start, limit);
    hide Val, Pow10;
    assert forall k :: start <= k < p ==> s[k] == s[start..p][k - start];
    assert forall k :: start <= k < e ==> s[k] == s[start..e][k - start];
  }

  // The digit loops. No int32_t operation overflows.
  method ReadDigits(b: array<char>, start: nat, limit: nat) returns (value: nat, p: nat)
    requires Terminated(b[..], 0) && start <= |CString(b[..], 0)| && limit <= 9
    ensures var s := CString(b[..], 0);
            && p == DigitsEnd(s, start, limit) && value == Val(s[start..p]) < Pow10(limit)
  {
    ghost var s := CString(b[..], 0);
    BufferReads(b, 0);
    NoDigitsYet(s, start);
    hide Val, Pow10, DigitsSoFar, DigitsEnd, CString, Terminated;
    var digitLimit := limit;
    value, p := 0, start;
    while '0' <= b[p] <= '9' && digitLimit > 0
      invariant start <= p <= |s| && p - start == limit - digitLimit
      invariant DigitsSoFar(s, start, p, value)
      decreases |s| - p
    {
      DigitsStep(s, start, p, value);
      value := value * 10 + (b[p] as int - '0' as int);
      digitLimit := digitLimit - 1;
      p := p + 1;
    }
    DigitsRead(s, start, p, limit, value);
  }

  // parseRcv up to the data field.
  method SkipFields(b: array<char>) returns (ok: bool, p: nat)
    requires Terminated(b[..], 0) && IsRcv(CString(b[..], 0))
    ensures var s := CString(b[..], 0);
            Parse(s) == (if ok && p <= |s| then Numbers(s, p) else Rejected) && (ok ==> p <= |s|)
  {
    hide Numbers, AfterField;
    ok, p := SkipField(b, 5, ADDR_MAX);
    if !ok { return; }
    ok, p := SkipField(b, p, LEN_MAX);
    if !ok { return; }
    ok, p := SkipField(b, p, DATA_MAX);
  }

  method ReadSnr(b: array<char>, start: nat) returns (snrVal: int)
    requires Terminated(b[..], 0) && start <= |CString(b[..], 0)|
    ensures snrVal == SnrX10(CString(b[..], 0), start) && -100_000 < snrVal < 100_000
  {
    hide Val, DigitsEnd;
    BufferReads(b, 0);
    assert Pow10(4) == 10_000;
    var p := start;
    var snrNeg := b[p] == '-';
    if snrNeg { p := p + 1; }
    var snrInt, snrFrac := 0, 0;
    snrInt, p := ReadDigits(b, p, SNR_DIGITS);
    if b[p] == '.' {
      p := p + 1;
      if '0' <= b[p] <= '9' {
        snrFrac := b[p] as int - '0' as int;
        p := p + 1;
      }
    }
    snrVal := snrInt * 10 + snrFrac;
    if snrNeg { snrVal := -snrVal; }
  }

  // parseRcv. The out-parameters rssi and snr are only meaningful when ok.
  method ParseRcv(b: array<char>) returns (ok: bool, rssi: int, snr: int)
    requires Terminated(b[..], 0) && IsRcv(CString(b[..], 0))
    ensures var r := Parse(CString(b[..], 0));
            if ok then r == Packet(rssi, snr) else r == Rejected
  {
    hide Parse, Val, DigitsEnd, Pow10, I16, IndexOf, SnrX10, IsRcv;
    rssi, snr := 0, 0;
    var p;
    ok, p := SkipFields(b);
    if !ok { return; }
    BufferReads(b, 0);
    var rssiNeg := b[p] == '-';
    if rssiNeg { p := p + 1; }
    var rssiVal: int;
    rssiVal, p := ReadDigits(b, p, RSSI_DIGITS);
    if rssiNeg { rssiVal := -rssiVal; }
    if b[p] != ',' {
      return false, 0, 0;
    }
    var snrVal := ReadSnr(b, p + 1);
    return true, I16(rssiVal), I16(snrVal);
  }
}
