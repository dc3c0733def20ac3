/** The GPS receiver component: its fields and handlers, proved against GpsModel. */
module GpsReceiver {
  import opened MachineWords
  import opened Text
  import opened Decimal
  import opened NmeaFields
  import opened NmeaTokens
  import opened GpsModel
  import NmeaChecksum
  import LineAssembler

  const DRAIN_LIMIT: nat := 256

  class GpsReceiver {
    const lineBuf: array<char>
    const scratch: array<char>
    var lineLen: nat
    var enabled: bool
    var lastFixQuality: nat
    var sentenceCount: nat
    // Channel writes and events, in order.
    var outputs: seq<Output>
    // The bytes that the UART1 ring buffer will deliver.
    var rx: string

    ghost predicate Valid()
      reads this
    {
      && lineBuf.Length == LINE_BUF_SIZE && scratch.Length == LINE_BUF_SIZE && lineBuf != scratch
      && lineLen < LINE_BUF_SIZE && sentenceCount < TWO_TO_32
    }

    ghost function Core(): Receiver
      reads this
    {
      Receiver(lastFixQuality, sentenceCount, outputs)
    }

    ghost function State(): Gps
      reads this, lineBuf
      requires Valid()
    {
      Gps(lineBuf[..lineLen], Core())
    }

    constructor ()
      ensures Valid() && fresh(lineBuf) && fresh(scratch)
      ensures State() == Gps("", Receiver(0, 0, [])) && enabled && rx == ""
    {
      lineBuf := new char[LINE_BUF_SIZE](_ => '\0');
      scratch := new char[LINE_BUF_SIZE](_ => '\0');
      lineLen, enabled, lastFixQuality, sentenceCount := 0, true, 0, 0;
      outputs, rx := [], "";
    }

    method FirstNul() returns (end: nat)
      requires Valid() && lineBuf[lineLen] == '\0'
      ensures end <= lineLen && lineBuf[..end] == UpToNul(lineBuf[..lineLen])
    {
      ghost var line := lineBuf[..lineLen];
      end := 0;
      while lineBuf[end] != '\0'
        invariant end <= lineLen && forall k :: 0 <= k < end ==> line[k] != '\0'
        decreases lineLen - end
      {
        end := end + 1;
      }
      IndexOfUnique(line, '\0', 0, end);
    }

    // The closing lines of parseGGA: the channels, then the fix event, then the new quality.
    method Publish(utc: nat, fix: Gga) returns (accepted: bool)
      modifies this`lastFixQuality, this`outputs
      ensures (Core(), accepted) == Emit(old(Core()), utc, fix)
    {
      outputs := outputs + [UtcTime(utc)];
      if fix.Bad? {
        outputs := outputs + [ParseError(fix.field)];
        return false;
      }
      outputs := outputs + [FixQuality(fix.quality), SatCount(fix.sats), Latitude(fix.latitude),
                            Longitude(fix.longitude), Altitude(fix.altitude), Hdop(fix.hdop)];
      if fix.quality > 0 && lastFixQuality == 0 {
        outputs := outputs + [FixAcquired(fix.sats)];
      } else if fix.quality == 0 && lastFixQuality > 0 {
        outputs := outputs + [FixLost];
      } else {
        assert outputs + [] == outputs;
      }
      lastFixQuality := fix.quality;
      return true;
    }

    // The packed UTC time of a field.
    method ParseTime(at: nat) returns (utc: nat)
      requires Terminated(scratch[..], at)
      ensures utc == UtcHms(CString(scratch[..], at))
    {
      ghost var t := CString(scratch[..], at);
      BufferReads(scratch, at);
      var tlen := 0;
      while scratch[at + tlen] != '\0' && tlen < 16
        invariant tlen <= |t| && tlen <= 16
        decreases |t| - tlen
      {
        tlen := tlen + 1;
      }
      var hh, mm, ss := 0, 0, 0;
      if tlen >= 6 {
        hh := TwoDigits(scratch[at], scratch[at + 1]);
        mm := TwoDigits(scratch[at + 2], scratch[at + 3]);
        ss := TwoDigits(scratch[at + 4], scratch[at + 5]);
      }
      utc := hh * 0x1_0000 + mm * 0x100 + ss;
    }

    method ParseCoordinate(at: nat, hemi: nat) returns (ok: bool, value: int, ghost fits: bool)
      requires Terminated(scratch[..], at) && Terminated(scratch[..], hemi)
      ensures var c := DegMin(CString(scratch[..], at), At(CString(scratch[..], hemi), 0));
              ok == c.Parsed? && (ok ==> value == I32(c.value))
    {
      BufferReads(scratch, hemi);
      ok, value, fits := ParseDegMin(scratch, at, scratch[hemi]);
    }

    // The numeric fields in the order the source parses them, stopping at the first that fails.
    method ParseFields(fields: array<nat>, count: nat, ghost f: seq<string>) returns (fix: Gga)
      requires 10 <= count == |f| <= fields.Length
      requires forall k :: 0 <= k < count ==>
                 Terminated(scratch[..], fields[k]) && CString(scratch[..], fields[k]) == f[k]
      ensures fix == ParseFix(f)
    {
      assert forall k :: 0 <= k < count ==> Terminated(scratch[..], fields[k]);
      hide DegMin, DegMinMagnitude, IsDegMin, FixedPoint, IsFixedPoint, Magnitude, SmallInt, I32, Terminated, CString;
      var ok, latitude, longitude, hdop, altitude, quality, sats;
      ghost var fits;
      ok, latitude, fits := ParseCoordinate(fields[2], fields[3]);
      if !ok { return Bad(2); }
      ok, longitude, fits := ParseCoordinate(fields[4], fields[5]);
      if !ok { return Bad(4); }
      ok, quality := ParseU8(scratch, fields[6]);
      if !ok { return Bad(6); }
      ok, sats := ParseU8(scratch, fields[7]);
      if !ok { return Bad(7); }
      assert Pow10(2) == 100;
      ok, hdop, fits := ParseFP(scratch, fields[8], 100, 2);
      if !ok { return Bad(8); }
      ok, altitude, fits := ParseFP(scratch, fields[9], 100, 2);
      if !ok { return Bad(9); }
      return Fix(quality, sats, latitude, longitude, altitude, HdopX100(hdop));
    }

    // parseGGA after the tokeniser.
    method ReportFields(fields: array<nat>, count: nat, ghost f: seq<string>) returns (accepted: bool)
      requires count == |f| <= fields.Length
      requires forall k :: 0 <= k < count ==>
                 Terminated(scratch[..], fields[k]) && CString(scratch[..], fields[k]) == f[k]
      modifies this`lastFixQuality, this`outputs
      ensures (Core(), accepted) == Report(old(Core()), f)
    {
      if count < 10 {
        outputs := outputs + [ParseError(0)];
        return false;
      }
      hide ParseFix, CString, Terminated, UtcHms;
      var utc := ParseTime(fields[1]);
      var fix := ParseFields(fields, count, f);
      hide Emit;
      accepted := Publish(utc, fix);
    }

    // parseGGA on the line buffer.
    method ParseGga() returns (accepted: bool)
      requires Valid() && Terminated(lineBuf[..], 0)
      modifies this`lastFixQuality, this`outputs, scratch
      ensures Valid()
      ensures (Core(), accepted) == ParseSentence(old(Core()), old(CString(lineBuf[..], 0)))
    {
      ghost var f := Fields(CString(lineBuf[..], 0));
      var fields, count := Tokenise(lineBuf, scratch);
      accepted := ReportFields(fields, count, f);
    }

    method ProcessLine()
      requires Valid()
      modifies this`lastFixQuality, this`sentenceCount, this`outputs, lineBuf, scratch
      ensures Valid()
      ensures Core() == GpsModel.ProcessLine(old(Core()), old(lineBuf[..lineLen]))
    {
      hide NmeaChecksum.Accepts, ParseSentence, Terminated, CString, UpToNul;
      ghost var line := lineBuf[..lineLen];
      lineBuf[lineLen] := '\0';
      assert lineBuf[..lineLen] == line;
      TerminatedLine(lineBuf[..], line);
      var isGga := lineLen >= 6 && lineBuf[0] == '$' && lineBuf[3] == 'G' && lineBuf[4] == 'G' && lineBuf[5] == 'A';
      assert isGga == IsGga(line);
      if !isGga {
        return;
      }
      var checksumOk := NmeaChecksum.VerifyChecksum(lineBuf, lineLen);
      if !checksumOk {
        var end := FirstNul();
        // The event carries the line as a C string.
        outputs := outputs + [ChecksumError(lineBuf[..end])];
        return;
      }
      var accepted := ParseGga();
      if accepted {
        sentenceCount := (sentenceCount + 1) % TWO_TO_32;
        outputs := outputs + [SentenceCount(sentenceCount)];
      }
    }

    // The body of the drain loop for one byte.
    method Assemble(byte: char)
      requires Valid()
      modifies this`lineLen, this`lastFixQuality, this`sentenceCount, this`outputs, lineBuf, scratch
      ensures Valid()
      ensures var now := LineAssembler.Step(LINE_BUF_SIZE, old(State()).line, byte);
              State() == Gps(now.buffer, if now.events == [] then old(Core()) else Handle(old(Core()), now.events[0]))
    {
      if byte == '\n' {
        if lineLen > 0 {
          ProcessLine();
        }
        lineLen := 0;
      } else if byte != '\r' {
        if lineLen < LINE_BUF_SIZE - 1 {
          lineBuf[lineLen] := byte;
          lineLen := lineLen + 1;
        } else {
          // Buffer full without newline: overrun.
          outputs := outputs + [UartOverrun(lineLen)];
          lineLen := 0;
        }
      }
    }

    // The drain loop.
    method Drain()
      requires Valid()
      modifies this`rx, this`lineLen, this`lastFixQuality, this`sentenceCount, this`outputs, lineBuf, scratch
      ensures Valid()
      ensures var n := if |old(rx)| < 256 then |old(rx)| else 256;
              State() == Receive(old(State()), old(rx)[..n]) && rx == old(rx)[n..]
    {
      ghost var start, pending, g := State(), rx, State();
      var drainCount := 0;
      assert pending[..0] == "" && Receive(start, "") == start;
      while drainCount < DRAIN_LIMIT && rx != ""
        invariant Valid()
        invariant drainCount <= DRAIN_LIMIT && drainCount <= |pending| && rx == pending[drainCount..]
        invariant g == State() && g == Receive(start, pending[..drainCount])
        decreases DRAIN_LIMIT - drainCount
      {
        hide Receive, Handle;
        ghost var c := rx[0];
        assert pending[..drainCount + 1] == pending[..drainCount] + [c];
        ReceiveByte(start, pending[..drainCount], c);
        var byte := rx[0];
        rx := rx[1..];
        drainCount := drainCount + 1;
        Assemble(byte);
        g := State();
      }
    }

    // Drains at most 256 bytes into the line assembler.
    method SchedIn()
      requires Valid()
      modifies this, lineBuf, scratch
      ensures Valid() && enabled == old(enabled)
      ensures !enabled ==> State() == old(State()) && rx == old(rx)
      ensures enabled ==>
                var n := if |old(rx)| < 256 then |old(rx)| else 256;
                State() == Receive(old(State()), old(rx)[..n]) && rx == old(rx)[n..]
    {
      if !enabled {
        return;
      }
      Drain();
    }

    method Reset()
      requires Valid()
      modifies this`rx, this`lineLen, this`lastFixQuality
      ensures Valid() && rx == ""
      ensures State() == Gps("", old(Core()).(lastFix := 0))
    {
      rx := "";
      lineLen := 0;
      lastFixQuality := 0;
    }

    method SetEnabled(value: bool)
      requires Valid()
      modifies this`enabled
      ensures Valid() && enabled == value && State() == old(State())
    {
      enabled := value;
    }
  }
}
