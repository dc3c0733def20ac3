/** The texts the LoRa driver sends: the decimal printer, the command buffers it fills, and what a
    module at the other end of the wire reads back from the packet frames. */
module AtCommands {
  import opened MachineWords
  import opened Text
  import opened Decimal

  const AT_BUF_SIZE: nat := 128
  const PAYLOAD_MAX: nat := 80

  // ---- u32toa

  // As much of s as fits a buffer with its terminator; a buffer of one character takes nothing.
  function Cut(s: string, bufLen: nat): string {
    if bufLen < 2 then "" else if |s| < bufLen then s else s[..bufLen - 1]
  }

  lemma LastDigit(v: nat, s: string)
    requires s == Dec(v) && v > 0
    ensures |s| > 0 && s[|s| - 1] == Digit(v % 10)
    ensures if v < 10 then |s| == 1 else |s| > 1 && Dec(v / 10) == s[..|s| - 1]
  {
    DecDenotes(v / 10);
  }

  // The digits of val from the lowest up. The guard of ten digits never cuts a 32-bit value.
  method LowDigits(val: nat, tmp: array<char>) returns (n: nat)
    requires 0 < val < TWO_TO_32 && tmp.Length == 11
    modifies tmp
    ensures n == |Dec(val)| <= 10
    ensures forall k :: 0 <= k < n ==> tmp[k] == Dec(val)[n - 1 - k]
  {
    ghost var d := Dec(val);
    assert Pow10(10) == 10_000_000_000;
    DecLength(val, 10);
    var v := val;
    n := 0;
    while v > 0 && n < tmp.Length - 1
      invariant n <= |d| && v < Pow10(10 - n)
      invariant if v > 0 then n < |d| && Dec(v) == d[..|d| - n] else n == |d|
      invariant forall k :: 0 <= k < n ==> tmp[k] == d[|d| - 1 - k]
      decreases v
    {
      LastDigit(v, d[..|d| - n]);
      tmp[n] := ('0' as int + v % 10) as char;
      n := n + 1;
      v := v / 10;
    }
  }

  // u32toa. The result is the position of the terminator.
  method U32toa(val: nat, buf: array<char>, bufLen: nat) returns (end: nat)
    requires val < TWO_TO_32 && 1 <= buf.Length && bufLen <= buf.Length
    modifies buf
    ensures end < buf.Length && buf[end] == '\0' && buf[..end] == Cut(Dec(val), bufLen)
    ensures bufLen >= 11 ==> buf[..end] == Dec(val)
    ensures forall k :: end < k < buf.Length ==> buf[k] == old(buf[k])
  {
    if bufLen < 2 {
      buf[0] := '\0';
      return 0;
    }
    if val == 0 {
      buf[0] := '0';
      buf[1] := '\0';
      return 1;
    }
    var tmp := new char[11];
    var i := LowDigits(val, tmp);
    ghost var d := Dec(val);
    hide Dec;
    end := 0;
    var j := i;
    while j > 0 && end < bufLen - 1
      invariant end + j == i == |d| && end <= bufLen - 1
      invariant forall k :: 0 <= k < i ==> tmp[k] == d[i - 1 - k]
      invariant forall k :: 0 <= k < end ==> buf[k] == d[k]
      invariant forall k :: end <= k < buf.Length ==> buf[k] == old(buf[k])
    {
      buf[end] := tmp[j - 1];
      end := end + 1;
      j := j - 1;
    }
    buf[end] := '\0';
    assert buf[..end] == d[..end];
  }

  // ---- Command buffers

  // The loops that append a C string to a command buffer.
  method Append(cmd: array<char>, start: nat, text: string) returns (idx: nat)
    requires cmd.Length == AT_BUF_SIZE && start < cmd.Length && Free(text, '\0')
    modifies cmd
    ensures idx < cmd.Length && idx - start == (if |text| < cmd.Length - start then |text| else cmd.Length - 1 - start)
    ensures cmd[..idx] == old(cmd[..start]) + text[..idx - start]
  {
    idx := start;
    var i := 0;
    while At(text, i) != '\0' && idx < cmd.Length - 1
      invariant i <= |text| && idx == start + i < cmd.Length
      invariant cmd[..idx] == old(cmd[..start]) + text[..i]
      decreases |text| - i
    {
      cmd[idx] := text[i];
      idx := idx + 1;
      i := i + 1;
    }
  }

  // The packet frame of a payload.
  function Frame(payload: string): string {
    "AT+SEND=0," + Dec(|payload|) + "," + payload
  }

  lemma ShortNumeral(n: nat)
    requires n < 100
    ensures |Dec(n)| <= 2 && Free(Dec(n), '\0')
  {
    assert Pow10(2) == 100;
    DecLength(n, 2);
    DecDenotes(n);
  }

  // The prefix and the length of the frame.
  method FrameHead(cmd: array<char>, payloadLen: nat) returns (idx: nat)
    requires cmd.Length == AT_BUF_SIZE && payloadLen <= PAYLOAD_MAX
    modifies cmd
    ensures idx <= 13 && cmd[..idx] == "AT+SEND=0," + Dec(payloadLen) + ","
  {
    ShortNumeral(payloadLen);
    idx := Append(cmd, 0, "AT+SEND=0,");
    assert cmd[..idx] == "AT+SEND=0,";
    var lenStr := new char[6];
    var end := U32toa(payloadLen, lenStr, 6);
    assert lenStr[..end] == Dec(payloadLen);
    hide Dec;
    idx := Append(cmd, idx, lenStr[..end]);
    assert cmd[..idx] == "AT+SEND=0," + Dec(payloadLen);
    if idx < cmd.Length - 1 {
      cmd[idx] := ',';
      idx := idx + 1;
    }
  }

  // The frame builder of dataIn: no payload of admissible size is cut.
  method BuildFrame(payload: string) returns (cmd: array<char>, idx: nat)
    requires |payload| <= PAYLOAD_MAX
    ensures fresh(cmd) && cmd.Length == AT_BUF_SIZE
    ensures idx < cmd.Length && cmd[idx] == '\0' && cmd[..idx] == Frame(payload)
  {
    cmd := new char[AT_BUF_SIZE];
    idx := FrameHead(cmd, |payload|);
    ghost var head, start := cmd[..idx], idx;
    var d := 0;
    while d < |payload| && idx < cmd.Length - 1
      invariant d <= |payload| && idx == start + d && cmd[..idx] == head + payload[..d]
      decreases |payload| - d
    {
      cmd[idx] := payload[d];
      idx := idx + 1;
      d := d + 1;
    }
    assert payload[..d] == payload;
    cmd[idx] := '\0';
  }

  lemma BandText(digits: string)
    requires digits == "868000000"
    ensures Free(digits, '\0') && |digits| == 9 && Free("AT+BAND=", '\0') && |"AT+BAND="| == 8
    ensures "AT+BAND=" + digits == "AT+BAND=868000000"
  {
  }

  // A command of two texts that fit.
  method AppendBoth(prefix: string, value: string) returns (text: string)
    requires Free(prefix, '\0') && Free(value, '\0') && |prefix| + |value| < AT_BUF_SIZE
    ensures text == prefix + value
  {
    var cmd := new char[AT_BUF_SIZE];
    var idx := Append(cmd, 0, prefix);
    assert cmd[..idx] == prefix;
    idx := Append(cmd, idx, value);
    text := cmd[..idx];
  }

  lemma BandDigits()
    ensures Dec(868_000_000) == "868000000"
  {
    assert Dec(8) == "8";
    hide Dec;
    DecSnoc(8, 6, "8");
    DecSnoc(86, 8, "86");
    DecSnoc(868, 0, "868");
    DecSnoc(8680, 0, "8680");
    DecSnoc(86800, 0, "86800");
    DecSnoc(868000, 0, "868000");
    DecSnoc(8680000, 0, "8680000");
    DecSnoc(86800000, 0, "86800000");
  }

  // The default-frequency command of the initialisation.
  method BandCommand() returns (text: string)
    ensures text == "AT+BAND=868000000"
  {
    var freqStr := new char[12];
    var end := U32toa(868_000_000, freqStr, 12);
    BandDigits();
    hide Dec;
    var digits := freqStr[..end];
    BandText(digits);
    text := AppendBoth("AT+BAND=", digits);
  }

  // ---- Reading frames back

  datatype Received = Got(payload: string, rest: string) | Garbled

  // How a module that takes the length at its word reads one frame and its line end off the wire.
  function ReadFrame(s: string): (r: Received)
    ensures r.Got? ==> |r.rest| < |s|
  {
    if |s| < 10 || s[..10] != "AT+SEND=0," then Garbled
    else
      var e := DigitRun(s, 10);
      var n := Val(s[10..e]);
      if At(s, e) != ',' || e + 1 + n + 2 > |s| || s[e + 1 + n..e + 1 + n + 2] != "\r\n" then Garbled
      else Got(s[e + 1..e + 1 + n], s[e + 1 + n + 2..])
  }

  lemma FrameParts(digits: string, payload: string, rest: string)
    requires AllDigits(digits)
    ensures var s := "AT+SEND=0," + digits + "," + payload + "\r\n" + rest;
            var e := 10 + |digits|;
            var f := e + 1 + |payload|;
            && f + 2 <= |s| && s[..10] == "AT+SEND=0," && DigitRun(s, 10) == e && s[10..e] == digits
            && s[e] == ',' && s[e + 1..f] == payload && s[f..f + 2] == "\r\n" && s[f + 2..] == rest
  {
    var s := "AT+SEND=0," + digits + "," + payload + "\r\n" + rest;
    var e := 10 + |digits|;
    assert s[10..e] == digits && s[e] == ',';
    DigitRunUnique(s, 10, e);
  }

  lemma FrameReads(payload: string, rest: string)
    ensures ReadFrame(Frame(payload) + "\r\n" + rest) == Got(payload, rest)
  {
    var digits := Dec(|payload|);
    DecDenotes(|payload|);
    hide Dec, Val, DigitRun;
    FrameParts(digits, payload, rest);
  }

  // The frames of several payloads, one after the other.
  function Frames(payloads: seq<string>): string {
    if payloads == [] then "" else Frame(payloads[0]) + "\r\n" + Frames(payloads[1..])
  }

  function ReadFrames(s: string): seq<string>
    decreases |s|
  {
    match ReadFrame(s)
    case Got(payload, rest) => [payload] + ReadFrames(rest)
    case Garbled => []
  }

  // A wire full of frames determines the payloads, whatever bytes they contain.
  lemma {:induction false} FramesReadBack(payloads: seq<string>)
    ensures ReadFrames(Frames(payloads)) == payloads
  {
    if payloads != [] {
      FrameReads(payloads[0], Frames(payloads[1..]));
      hide Frame, ReadFrame;
      FramesReadBack(payloads[1..]);
    }
  }
}
