/** Printed packets: exactly which of them the parser reads back. */
module RcvRoundTrip {
  import opened MachineWords
  import opened Text
  import opened Decimal
  import opened RcvParser
  import opened RcvLaws

  function Abs(x: int): nat {
    if x < 0 then -x else x
  }

  // A number of tenths with its one decimal.
  function TenthsOf(x: int): Snr {
    Snr(x < 0, Dec(Abs(x) / 10), "." + [Digit(Abs(x) % 10)])
  }

  function Tenths(x: int): string {
    TenthsOf(x).Text()
  }

  function PacketText(addr: string, len: string, data: string, rssi: int, snrX10: int): RcvText {
    RcvText(addr, len, data, rssi < 0, Dec(Abs(rssi)), TenthsOf(snrX10))
  }

  // The same with a whole number of decibels.
  function IntegerText(addr: string, len: string, data: string, rssi: int, snr: int): RcvText {
    RcvText(addr, len, data, rssi < 0, Dec(Abs(rssi)), Snr(snr < 0, Dec(Abs(snr)), ""))
  }

  predicate Word16(x: int) {
    -0x8000 <= x < 0x8000
  }

  // ---- Figures

  lemma FourDigits(n: nat)
    requires n < 10_000
    ensures AllDigits(Dec(n)) && 1 <= |Dec(n)| <= 4 && Val(Dec(n)) == n
  {
    DecDenotes(n);
    assert Pow10(4) == 10_000;
    DecLength(n, 4);
  }

  lemma TenthsMeaning(x: int)
    requires Abs(x) < 100_000
    ensures TenthsOf(x).Valid() && TenthsOf(x).Value() == x
  {
    FourDigits(Abs(x) / 10);
    hide Dec, Val;
  }

  lemma IntegerMeaning(x: int)
    requires Abs(x) < 10_000
    ensures var t := Snr(x < 0, Dec(Abs(x)), ""); t.Valid() && t.Value() == 10 * x
  {
    FourDigits(Abs(x));
    hide Dec, Val;
  }

  // Figures hold digits, '-', '.' and nothing else.
  lemma FiguresFree(rssi: int, snrX10: int, c: char)
    requires !IsDigit(c) && c != '-' && c != '.'
    ensures Free(Dec(Abs(rssi)), c) && Free(Tenths(snrX10), c)
  {
    DecDenotes(Abs(rssi));
    DigitsAreFree(Dec(Abs(rssi)), c);
    var x := TenthsOf(snrX10);
    DecDenotes(Abs(snrX10) / 10);
    DigitsAreFree(x.digits, c);
    assert Free(x.rest, c);
    hide Free, Dec, Snr.Text;
    SnrFree(x, c);
  }

  // ---- Fields that are read back

  lemma StrengthMeaning(x: int)
    requires Word16(x)
    ensures AllDigits(Dec(Abs(x))) && |Dec(Abs(x))| <= 5 && Val(Dec(Abs(x))) == Abs(x)
  {
    DecDenotes(Abs(x));
    assert Pow10(5) == 100_000;
    DecLength(Abs(x), 5);
  }

  // The round trip: for fields without commas and NULs, the two figures of a printed packet are read
  // back over their whole 16-bit range exactly when the fields fit, and otherwise the line is rejected.
  lemma PacketRoundTrip(addr: string, len: string, data: string, rssi: int, snrX10: int)
    requires Free(addr, ',') && Free(len, ',') && Free(data, ',')
    requires Free(addr, '\0') && Free(len, '\0') && Free(data, '\0')
    requires Word16(rssi) && Word16(snrX10)
    ensures var s := PacketText(addr, len, data, rssi, snrX10).Print();
            && IsRcv(s)
            && PacketOf(s) == if |addr| <= 8 && |len| <= 4 && |data| <= 100 then Packet(rssi, snrX10) else Rejected
  {
    var x := PacketText(addr, len, data, rssi, snrX10);
    StrengthMeaning(rssi);
    TenthsMeaning(snrX10);
    assert Free(x.snr.rest, '\0');
    hide Dec, Val, Snr.Value, Snr.Valid, Snr.Text, PacketOf, IsRcv, Free, RcvText.Print;
    ParsePrinted(x);
  }

  // The same for whole decibels of up to four digits: ten times the figure is read, as a 16-bit number,
  // so the figure itself from -3276 to 3276.
  lemma IntegerRoundTrip(addr: string, len: string, data: string, rssi: int, snr: int)
    requires Free(addr, ',') && Free(len, ',') && Free(data, ',')
    requires Free(addr, '\0') && Free(len, '\0') && Free(data, '\0')
    requires Word16(rssi) && Abs(snr) < 10_000
    ensures var s := IntegerText(addr, len, data, rssi, snr).Print();
            && IsRcv(s)
            && PacketOf(s) == if |addr| <= 8 && |len| <= 4 && |data| <= 100 then Packet(rssi, I16(10 * snr))
                              else Rejected
    ensures I16(10 * snr) == 10 * snr <==> -3276 <= snr <= 3276
  {
    var x := IntegerText(addr, len, data, rssi, snr);
    StrengthMeaning(rssi);
    IntegerMeaning(snr);
    assert Free(x.snr.rest, '\0');
    hide Dec, Val, Snr.Value, Snr.Valid, Snr.Text, PacketOf, IsRcv, Free, RcvText.Print;
    ParsePrinted(x);
  }

  // ---- Commas

  // The digits before a comma are the same whatever follows the comma.
  lemma RunStopsAtComma(rest: string, x: string, i: nat)
    requires i <= |rest|
    ensures DigitRun(rest + "," + x, i) == DigitRun(rest, i)
    ensures (rest + "," + x)[i..DigitRun(rest, i)] == rest[i..DigitRun(rest, i)]
  {
    var t, e := rest + "," + x, DigitRun(rest, i);
    assert t[i..e] == rest[i..e];
    assert t[e] == if e < |rest| then rest[e] else ',';
    DigitRunUnique(t, i, e);
  }

  lemma DigitsStopAtComma(rest: string, x: string, i: nat, limit: nat)
    requires i <= |rest|
    ensures DigitsEnd(rest + "," + x, i, limit) == DigitsEnd(rest, i, limit)
    ensures var e := DigitsEnd(rest, i, limit);
            && (rest + "," + x)[i..e] == rest[i..e]
            && At(rest + "," + x, e) == if e < |rest| then rest[e] else ','
  {
    RunStopsAtComma(rest, x, i);
    var t, r, e := rest + "," + x, DigitRun(rest, i), DigitsEnd(rest, i, limit);
    assert t[i..e] == t[i..r][..e - i] && rest[i..e] == rest[i..r][..e - i];
  }

  // With a comma in front of them, the figures do not decide what is read as the signal strength.
  lemma StrengthBeforeComma(rest: string, x: string, y: string)
    ensures var r, q := Numbers(rest + "," + x, 0), Numbers(rest + "," + y, 0);
            r.Packet? <==> q.Packet?
    ensures var r, q := Numbers(rest + "," + x, 0), Numbers(rest + "," + y, 0);
            r.Packet? ==> r.rssi == q.rssi
  {
    var i := AfterSign(rest, 0);
    assert At(rest + "," + x, 0) == At(rest + "," + y, 0) == if rest == "" then ',' else rest[0];
    DigitsStopAtComma(rest, x, i, RSSI_DIGITS);
    DigitsStopAtComma(rest, y, i, RSSI_DIGITS);
    hide DigitsEnd, Val, I16, SnrX10;
  }

  function Commas(s: string): nat {
    if s == "" then 0 else Commas(s[1..]) + (if s[0] == ',' then 1 else 0)
  }

  lemma {:induction false} CommasConcat(a: string, b: string)
    ensures Commas(a + b) == Commas(a) + Commas(b)
  {
    if a == "" {
      assert a + b == b;
    } else {
      CommasConcat(a[1..], b);
      assert (a + b)[1..] == a[1..] + b;
    }
  }

  lemma {:induction false} CommasFree(s: string)
    ensures Commas(s) == 0 <==> Free(s, ',')
  {
    if s != "" {
      CommasFree(s[1..]);
      assert s == [s[0]] + s[1..];
      FreeConcat([s[0]], s[1..], ',');
    }
  }

  lemma JoinedCommas(a: string, b: string)
    ensures Commas(a + "," + b) == Commas(a) + Commas(b) + 1
  {
    CommasConcat(a, ",");
    CommasConcat(a + ",", b);
    assert Commas(",") == 1;
  }

  // The text up to the first comma and the text behind it.
  lemma FirstComma(s: string) returns (before: string, after: string)
    requires Commas(s) > 0
    ensures Free(before, ',') && s == before + "," + after && Commas(after) == Commas(s) - 1
  {
    CommasFree(s);
    var p := IndexOf(s, ',', 0);
    before, after := s[..p], s[p + 1..];
    assert s == before + "," + after;
    CommasFree(before);
    hide Commas;
    JoinedCommas(before, after);
  }

  // The fields of a packet as they stand on the line.
  function Body(addr: string, len: string, data: string): string {
    addr + "," + (len + "," + data)
  }

  lemma BodyAndMore(addr: string, len: string, data: string, more: string)
    ensures Body(addr, len, data) + "," + more == addr + "," + (len + "," + (data + "," + more))
  {
    var t := "," + more;
    assert (addr + "," + (len + "," + data)) + t == addr + "," + (len + "," + (data + t));
  }

  lemma PrintBody(addr: string, len: string, data: string, rssi: int, snrX10: int)
    ensures var x := PacketText(addr, len, data, rssi, snrX10);
            x.Print() == "+RCV=" + (Body(addr, len, data) + "," + x.Figures())
  {
    var figures := PacketText(addr, len, data, rssi, snrX10).Figures();
    hide RcvText.Figures, Dec, Tenths, Body;
    BodyAndMore(addr, len, data, figures);
  }

  // The figures alone.
  function FiguresOf(rssi: int): string {
    PacketText("", "", "", rssi, 0).Figures()
  }

  // A comma in any of the fields puts the third comma of the line before the figures.
  lemma ThreeCommas(addr: string, len: string, data: string) returns (a: string, l: string, d: string, rest: string)
    requires !(Free(addr, ',') && Free(len, ',') && Free(data, ','))
    ensures Free(a, ',') && Free(l, ',') && Free(d, ',') && Body(addr, len, data) == Body(a, l, d) + "," + rest
  {
    CommasFree(addr);
    CommasFree(len);
    CommasFree(data);
    JoinedCommas(len, data);
    JoinedCommas(addr, len + "," + data);
    hide Commas, Free;
    var body, first, second := Body(addr, len, data), "", "";
    a, first := FirstComma(body);
    l, second := FirstComma(first);
    d, rest := FirstComma(second);
    hide Body;
    BodyAndMore(a, l, d, rest);
  }

  lemma MoreBehind(b: string, rest: string, figures: string)
    ensures b + "," + rest + "," + figures == b + "," + (rest + "," + figures)
  {
  }

  lemma NoNulPrinted(addr: string, len: string, data: string, rssi: int, snrX10: int)
    requires Free(addr, '\0') && Free(len, '\0') && Free(data, '\0')
    ensures Free(PacketText(addr, len, data, rssi, snrX10).Print(), '\0')
  {
    FiguresFree(rssi, snrX10, '\0');
    PrefixHasNoNul();
    hide Free, Dec, Tenths, RcvText.Print;
    PrintFree(PacketText(addr, len, data, rssi, snrX10), '\0');
  }

  lemma CommaText(addr: string, len: string, data: string, a: string, l: string, d: string, rest: string, rssi: int)
    requires Free(addr, '\0') && Free(len, '\0') && Free(data, '\0')
    requires Free(a, ',') && Free(l, ',') && Free(d, ',') && Body(addr, len, data) == Body(a, l, d) + "," + rest
    ensures PacketOf(PacketText(addr, len, data, rssi, 0).Print()) ==
            if |a| <= ADDR_MAX && |l| <= LEN_MAX && |d| <= DATA_MAX then Numbers(rest + "," + FiguresOf(rssi), 0)
            else Rejected
  {
    var x, figures := PacketText(addr, len, data, rssi, 0), FiguresOf(rssi);
    assert x.Figures() == figures;
    NoNulPrinted(addr, len, data, rssi, 0);
    PrintBody(addr, len, data, rssi, 0);
    hide PacketText, RcvText.Figures, RcvText.Print, FiguresOf, PacketOf, Parse, IsRcv, Numbers, Free;
    NulFreeLine(x.Print());
    MoreBehind(Body(a, l, d), rest, figures);
    BodyAndMore(a, l, d, rest + "," + figures);
    hide Body;
    ParseFields(a, l, d, rest + "," + figures);
  }

  // A printed packet is read back with exactly its figures.
  predicate ReadBack(addr: string, len: string, data: string, rssi: int, snrX10: int) {
    PacketOf(PacketText(addr, len, data, rssi, snrX10).Print()) == Packet(rssi, snrX10)
  }

  // Two packets with different strengths and the same comma in a field cannot both be read back.
  lemma CommaLosesStrength(addr: string, len: string, data: string)
    requires !(Free(addr, ',') && Free(len, ',') && Free(data, ','))
    requires Free(addr, '\0') && Free(len, '\0') && Free(data, '\0')
    ensures !ReadBack(addr, len, data, 0, 0) || !ReadBack(addr, len, data, 1, 0)
  {
    var a, l, d, rest := ThreeCommas(addr, len, data);
    hide Numbers, Free;
    CommaText(addr, len, data, a, l, d, rest, 0);
    CommaText(addr, len, data, a, l, d, rest, 1);
    StrengthBeforeComma(rest, FiguresOf(0), FiguresOf(1));
    hide PacketText, RcvText.Print, FiguresOf, PacketOf;
  }

  // ---- NULs

  // Behind a NUL nothing is read.
  lemma CutAtNul(pre: string, x: string)
    requires !Free(pre, '\0')
    ensures UpToNul(pre + x) == UpToNul(pre)
  {
    var p := IndexOf(pre, '\0', 0);
    IndexOfUnique(pre + x, '\0', 0, p);
    assert (pre + x)[..p] == pre[..p];
  }

  lemma PrintIsRcv(x: RcvText)
    ensures IsRcv(x.Print())
  {
    var rest := x.addr + "," + (x.len + "," + (x.data + "," + x.Figures()));
    assert ("+RCV=" + rest)[..5] == "+RCV=";
  }

  lemma NulInBody(addr: string, len: string, data: string)
    requires !(Free(addr, '\0') && Free(len, '\0') && Free(data, '\0'))
    ensures !Free("+RCV=" + Body(addr, len, data), '\0')
  {
    hide Free;
    FieldFree(len, data, '\0');
    FieldFree(addr, len + "," + data, '\0');
    FreeConcat("+RCV=", Body(addr, len, data), '\0');
  }

  lemma InFront(pre: string, body: string, figures: string)
    ensures pre + (body + "," + figures) == (pre + body) + ("," + figures)
  {
  }

  lemma NulText(addr: string, len: string, data: string, rssi: int, snrX10: int)
    requires !(Free(addr, '\0') && Free(len, '\0') && Free(data, '\0'))
    ensures var s := PacketText(addr, len, data, rssi, snrX10).Print();
            IsRcv(s) && UpToNul(s) == UpToNul("+RCV=" + Body(addr, len, data))
  {
    var x, body := PacketText(addr, len, data, rssi, snrX10), Body(addr, len, data);
    hide PacketText, RcvText.Figures, RcvText.Print, IsRcv, Body, Free, UpToNul;
    PrintIsRcv(x);
    PrintBody(addr, len, data, rssi, snrX10);
    NulInBody(addr, len, data);
    CutAtNul("+RCV=" + body, "," + x.Figures());
    InFront("+RCV=", body, x.Figures());
  }

  lemma NulLosesStrength(addr: string, len: string, data: string)
    requires !(Free(addr, '\0') && Free(len, '\0') && Free(data, '\0'))
    ensures !ReadBack(addr, len, data, 0, 0) || !ReadBack(addr, len, data, 1, 0)
  {
    hide PacketText, RcvText.Print, Body, Free, UpToNul, Parse, IsRcv;
    NulText(addr, len, data, 0, 0);
    NulText(addr, len, data, 1, 0);
  }

  // ---- The exact condition

  // A field that the parser can take.
  predicate Readable(f: string, limit: nat) {
    |f| <= limit && Free(f, ',') && Free(f, '\0')
  }

  // All figures are read back if and only if every field fits and holds no comma and no NUL.
  lemma ReadBackExactly(addr: string, len: string, data: string)
    ensures (forall rssi, snrX10 :: Word16(rssi) && Word16(snrX10) ==> ReadBack(addr, len, data, rssi, snrX10))
            <==> Readable(addr, 8) && Readable(len, 4) && Readable(data, 100)
  {
    assert Word16(0) && Word16(1);
    hide PacketText, RcvText.Print, PacketOf, IsRcv, Free;
    if !(Free(addr, '\0') && Free(len, '\0') && Free(data, '\0')) {
      NulLosesStrength(addr, len, data);
    } else if !(Free(addr, ',') && Free(len, ',') && Free(data, ',')) {
      CommaLosesStrength(addr, len, data);
    } else {
      forall rssi, snrX10 | Word16(rssi) && Word16(snrX10)
        ensures ReadBack(addr, len, data, rssi, snrX10) <==>
                |addr| <= 8 && |len| <= 4 && |data| <= 100
      {
        PacketRoundTrip(addr, len, data, rssi, snrX10);
      }
    }
    hide ReadBack;
  }

  // ---- Examples

  lemma MisreadText(x: RcvText)
    requires x == RcvText("1", "3", "1", false, "2", Snr(false, "3", ",5.0"))
    ensures PacketText("1", "3", "1,2", 3, 50).Print() == x.Print()
  {
    assert Dec(3) == "3" && Dec(5) == "5";
    hide Dec;
    assert PacketText("1", "3", "1,2", 3, 50).Figures() == "3,5.0";
    assert x.Figures() == "2,3,5.0";
    hide RcvText.Figures;
    assert "1,2" + "," + "3,5.0" == "1" + "," + "2,3,5.0";
  }

  lemma OneDigit(s: string)
    requires |s| == 1 && IsDigit(s[0])
    ensures AllDigits(s) && Val(s) == DigitVal(s[0])
  {
    ValSnoc("", s[0]);
    assert s == "" + [s[0]];
  }

  lemma MisreadMeaning(x: RcvText)
    requires x == RcvText("1", "3", "1", false, "2", Snr(false, "3", ",5.0"))
    ensures x.Valid() && x.Meaning() == Packet(2, 30)
  {
    OneDigit("2");
    OneDigit("3");
    hide Val;
  }

  // A payload may contain commas, and then the parser takes payload text for the figures: this
  // packet was received at 3 dBm with 5.0 dB.
  lemma CommaMisread()
    ensures PacketOf(PacketText("1", "3", "1,2", 3, 50).Print()) == Packet(2, 30)
  {
    var x := RcvText("1", "3", "1", false, "2", Snr(false, "3", ",5.0"));
    MisreadText(x);
    MisreadMeaning(x);
    hide PacketOf, RcvText.Print, RcvText.Valid, RcvText.Meaning, IsRcv;
    ParsePrinted(x);
  }

  lemma InFrontOf(addr: string, len: string, data: string)
    ensures "+RCV=" + Body(addr, len, data) == "+RCV=" + (addr + "," + (len + ",")) + data
  {
  }

  lemma NulBehind(head: string, data: string, p: nat)
    requires Free(head, '\0') && p == IndexOf(data, '\0', 0) < |data|
    ensures UpToNul(head + data) == head + data[..p]
  {
    IndexOfUnique(head + data, '\0', 0, |head| + p);
  }

  lemma CutData(addr: string, len: string, data: string)
    requires Free(addr, '\0') && Free(len, '\0') && !Free(data, '\0')
    ensures UpToNul("+RCV=" + Body(addr, len, data)) == "+RCV=" + Body(addr, len, UpToNul(data))
  {
    var head := "+RCV=" + (addr + "," + (len + ","));
    var p := IndexOf(data, '\0', 0);
    PrefixHasNoNul();
    FieldFree(addr, len + ",", '\0');
    FreeConcat(len, ",", '\0');
    FreeConcat("+RCV=", addr + "," + (len + ","), '\0');
    assert Free(head, '\0');
    hide Body, Free;
    InFrontOf(addr, len, data);
    InFrontOf(addr, len, data[..p]);
    NulBehind(head, data, p);
  }

  lemma NoFieldEnd(s: string, i: nat, limit: nat)
    requires i <= |s| && Free(s[i..], ',')
    ensures AfterField(s, i, limit) == |s| + 1
  {
    assert forall k :: i <= k < |s| ==> s[k] == s[i..][k - i];
    IndexOfUnique(s, ',', i, |s|);
  }

  lemma NoThirdComma(addr: string, len: string, data: string)
    requires Free(addr, ',') && Free(len, ',') && Free(data, ',')
    ensures var s := "+RCV=" + Body(addr, len, data); IsRcv(s) && Parse(s) == Rejected
  {
    var s, lenOn := "+RCV=" + Body(addr, len, data), len + "," + data;
    assert s[..5] == "+RCV=" && s[5..] == addr + "," + lenOn;
    hide AfterField, Numbers, Free;
    FieldAt(s, 5, addr, lenOn, ADDR_MAX);
    var l := 5 + |addr| + 1;
    FieldAt(s, l, len, data, LEN_MAX);
    NoFieldEnd(s, l + |len| + 1, DATA_MAX);
  }

  // A NUL in the data hides the comma behind it: such a packet is rejected, whatever its figures.
  lemma NulInData(addr: string, len: string, data: string, rssi: int, snrX10: int)
    requires Free(addr, ',') && Free(len, ',') && Free(data, ',') && Free(addr, '\0') && Free(len, '\0')
    requires !Free(data, '\0')
    ensures PacketOf(PacketText(addr, len, data, rssi, snrX10).Print()) == Rejected
  {
    NulText(addr, len, data, rssi, snrX10);
    CutData(addr, len, data);
    FreeConcat(UpToNul(data), data[|UpToNul(data)|..], ',');
    assert data == UpToNul(data) + data[|UpToNul(data)|..];
    hide PacketText, RcvText.Print, Body, Free, UpToNul, Parse, IsRcv;
    NoThirdComma(addr, len, UpToNul(data));
  }

  // One such packet.
  lemma NulRejected()
    ensures PacketOf(PacketText("1", "1", "\0", 3, 50).Print()) == Rejected
  {
    var data := "\0";
    assert data[0] == '\0';
    NulInData("1", "1", data, 3, 50);
  }
}
