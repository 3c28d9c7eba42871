/** The JSON object written for a record determines what the record says: the server can always recover the
    time and the reading, despite the padding and the variable-width numbers. */
module ElementText {
  import opened Common
  import opened Checksum
  import opened Printing
  import opened HttpTx

  lemma NumeralLacks(base: nat, n: nat, c: char)
    requires (base == 10 || base == 16) && !IsDigit(c)
    ensures c !in Numeral(base, n)
  {
    NumeralReads(base, n);
  }

  lemma NumeralInjective(base: nat, m: nat, n: nat)
    requires base == 10 || base == 16
    requires Numeral(base, m) == Numeral(base, n)
    ensures m == n
  {
    NumeralReads(base, m);
    NumeralReads(base, n);
  }

  // ---------------------------------------------------------------- gains

  /** What the printed gain reads as, in halves of a decibel. */
  function GainHalves(pga: nat): int {
    var i := pga / 2 - 97;
    if pga % 2 == 1 then 2 * i else if i < 0 then 2 * i - 1 else 2 * i + 1
  }

  lemma GainReads(pga: u8)
    requires pga > 0
    ensures ReadHalves(Gain(pga)) == GainHalves(pga)
    ensures Gain(pga)[0] == '-' || IsDigit(Gain(pga)[0])
  {
    hide ReadMagnitude, Numeral, IsDigit;
    var i := pga / 2 - 97;
    var n := if i < 0 then -i else i;
    MagnitudeReads(n);
    NumeralReads(10, n);
    var magnitude := Dec(n) + if pga % 2 == 0 then ".5" else "";
    assert Dec(n) + "" == Dec(n);
    if i < 0 {
      assert Gain(pga) == "-" + magnitude && Gain(pga)[1..] == magnitude;
    } else {
      assert Gain(pga) == magnitude && Gain(pga)[0] == Dec(n)[0];
    }
  }

  lemma HalvesInjective(p: u8, q: u8)
    requires GainHalves(p) == GainHalves(q)
    ensures p == q
  {}

  lemma GainInjective(p: u8, q: u8)
    requires Gain(p) == Gain(q)
    ensures p == q
  {
    assert Gain(0)[0] == 'n' && !IsDigit('n');
    hide Gain, ReadHalves, GainHalves, IsDigit;
    if p > 0 { GainReads(p); }
    if q > 0 { GainReads(q); }
    if p > 0 && q > 0 { HalvesInjective(p, q); }
  }

  lemma GainLacksComma(pga: u8)
    ensures ',' !in Gain(pga)
  {
    var i := pga / 2 - 97;
    NumeralLacks(10, if i < 0 then -i else i, ',');
  }

  // ---------------------------------------------------------------- channels

  lemma MicGainInjective(a: nat, b: nat)
    requires a < 4 && b < 4 && MicGain(a) == MicGain(b)
    ensures a == b
  {}

  lemma FlagFields(f: u16, g: u16)
    requires f / 0x400 == g / 0x400 && f / 0x100 % 4 == g / 0x100 % 4 && f % 0x100 == g % 0x100
    ensures f == g
  {}

  /** A field that cannot contain the first character of the fixed text after it is determined. */
  lemma FieldTells(p: string, a: string, q: string, t: string, b: string, u: string)
    requires q != [] && q[0] !in a && q[0] !in b
    requires p + a + q + t == p + b + q + u
    ensures a == b && t == u
  {
    var c, q' := q[0], q[1..];
    assert q == [c] + q';
    assert p + a + q + t == p + (a + [c] + (q' + t)) && p + b + q + u == p + (b + [c] + (q' + u));
    CancelPrefix(p, a + [c] + (q' + t), b + [c] + (q' + u));
    CancelToken(a, b, c, q' + t, q' + u);
    CancelPrefix(q', t, u);
  }

  lemma FourFields(p: seq<string>, a: seq<string>, t: string, b: seq<string>, u: string)
    requires |p| == 5 && |a| == |b| == 4
    requires forall i :: 1 <= i < 5 ==> p[i] != []
    requires forall i :: 0 <= i < 4 ==> p[i + 1][0] !in a[i] && p[i + 1][0] !in b[i]
    requires p[0] + a[0] + p[1] + a[1] + p[2] + a[2] + p[3] + a[3] + p[4] + t
          == p[0] + b[0] + p[1] + b[1] + p[2] + b[2] + p[3] + b[3] + p[4] + u
    ensures a[0] == b[0] && a[1] == b[1] && a[2] == b[2] && a[3] == b[3] && t == u
  {
    var p0, p1, p2, p3, p4 := p[0], p[1], p[2], p[3], p[4];
    var x3, y3 := [] + a[3] + p4 + t, [] + b[3] + p4 + u;
    var x2, y2 := [] + a[2] + p3 + x3, [] + b[2] + p3 + y3;
    var x1, y1 := [] + a[1] + p2 + x2, [] + b[1] + p2 + y2;
    assert p0 + a[0] + p1 + x1 == p0 + a[0] + p1 + a[1] + p2 + a[2] + p3 + a[3] + p4 + t;
    assert p0 + b[0] + p1 + y1 == p0 + b[0] + p1 + b[1] + p2 + b[2] + p3 + b[3] + p4 + u;
    FieldTells(p0, a[0], p[0 + 1], x1, b[0], y1);
    FieldTells([], a[1], p[1 + 1], x2, b[1], y2);
    FieldTells([], a[2], p[2 + 1], x3, b[2], y3);
    FieldTells([], a[3], p[3 + 1], t, b[3], u);
  }

  lemma ChannelTells(f: u16, v: u32, t: string, g: u16, w: u32, u: string)
    requires Channel(f, v) + t == Channel(g, w) + u
    ensures f == g && v == w && t == u
  {
    hide Numeral, Gain, MicGain;
    NumeralLacks(10, f / 0x400, ','); NumeralLacks(10, g / 0x400, ',');
    NumeralLacks(10, MicGain(f / 0x100 % 4), ','); NumeralLacks(10, MicGain(g / 0x100 % 4), ',');
    GainLacksComma(f % 0x100); GainLacksComma(g % 0x100);
    NumeralLacks(10, v, '}'); NumeralLacks(10, w, '}');
    FourFields([TARGET_FREQ, MIC_GAIN, PGA_GAIN, VALUE, "}"],
               [Dec(f / 0x400), Dec(MicGain(f / 0x100 % 4)), Gain(f % 0x100), Dec(v)], t,
               [Dec(g / 0x400), Dec(MicGain(g / 0x100 % 4)), Gain(g % 0x100), Dec(w)], u);
    NumeralInjective(10, f / 0x400, g / 0x400);
    NumeralInjective(10, MicGain(f / 0x100 % 4), MicGain(g / 0x100 % 4));
    MicGainInjective(f / 0x100 % 4, g / 0x100 % 4);
    GainInjective(f % 0x100, g % 0x100);
    NumeralInjective(10, v, w);
    FlagFields(f, g);
  }

  // ---------------------------------------------------------------- readings

  lemma ValueTells(p: string, v: u32, t: string, w: u32, u: string)
    requires p + Dec(v) + "}" + t == p + Dec(w) + "}" + u
    ensures v == w && t == u
  {
    hide Numeral;
    NumeralLacks(10, v, '}');
    NumeralLacks(10, w, '}');
    FieldTells(p, Dec(v), "}", t, Dec(w), u);
    NumeralInjective(10, v, w);
  }

  lemma TwoValuesTell(p: string, q: string, l: u32, r: u32, t: string, l': u32, r': u32, u: string)
    requires p + Dec(l) + "}" + q + Dec(r) + "}" + t == p + Dec(l') + "}" + q + Dec(r') + "}" + u
    ensures l == l' && r == r'
  {
    hide Numeral;
    var rest, rest' := q + Dec(r) + "}" + t, q + Dec(r') + "}" + u;
    assert p + Dec(l) + "}" + rest == p + Dec(l) + "}" + q + Dec(r) + "}" + t;
    assert p + Dec(l') + "}" + rest' == p + Dec(l') + "}" + q + Dec(r') + "}" + u;
    ValueTells(p, l, rest, l', rest');
    ValueTells(q, r, t, r', u);
  }

  lemma TwoChannelsTell(p: string, q: string, f: u32, l: u32, r: u32, t: string, g: u32, l': u32, r': u32, u: string)
    requires p + Channel(f / TWO_16, l) + q + Channel(f % TWO_16, r) + t
             == p + Channel(g / TWO_16, l') + q + Channel(g % TWO_16, r') + u
    ensures f == g && l == l' && r == r'
  {
    hide Channel;
    var rest, rest' := q + (Channel(f % TWO_16, r) + t), q + (Channel(g % TWO_16, r') + u);
    var x, y := Channel(f / TWO_16, l) + rest, Channel(g / TWO_16, l') + rest';
    assert p + x == p + Channel(f / TWO_16, l) + q + Channel(f % TWO_16, r) + t;
    assert p + y == p + Channel(g / TWO_16, l') + q + Channel(g % TWO_16, r') + u;
    CancelPrefix(p, x, y);
    ChannelTells(f / TWO_16, l, rest, g / TWO_16, l', rest');
    CancelPrefix(q, Channel(f % TWO_16, r) + t, Channel(g % TWO_16, r') + u);
    ChannelTells(f % TWO_16, r, t, g % TWO_16, r', u);
  }

  /** The first six characters show which kind of reading it is. */
  function Kind(x: Reading): nat {
    match x case Battery(_) => 0 case Rssi(_) => 1 case Envelope(_, _) => 2 case Energy(_, _, _) => 3
  }

  lemma KindShows(x: Reading)
    ensures |ReadingText(x)| > 5
    ensures ReadingText(x)[1] == (match x case Battery(_) => 'b' case Rssi(_) => 'r' case _ => 'l')
    ensures x.Envelope? ==> ReadingText(x)[5] == '_'
    ensures x.Energy? ==> ReadingText(x)[5] == '"'
  {
    hide Numeral, Channel;
    match x
    case Battery(v) => assert BATTERY[1] == 'b';
    case Rssi(v) => assert RSSI[1] == 'r';
    case Envelope(l, r) => assert LEFT_ENVELOPE[1] == 'l' && LEFT_ENVELOPE[5] == '_';
    case Energy(f, l, r) => assert LEFT[1] == 'l' && LEFT[5] == '"';
  }

  lemma ReadingTells(x: Reading, t: string, y: Reading, u: string)
    requires ReadingText(x) + t == ReadingText(y) + u
    ensures x == y
  {
    assert Kind(x) == Kind(y) by {
      KindShows(x);
      KindShows(y);
      hide ReadingText;
      assert (ReadingText(x) + t)[1] == ReadingText(x)[1] && (ReadingText(x) + t)[5] == ReadingText(x)[5];
      assert (ReadingText(y) + u)[1] == ReadingText(y)[1] && (ReadingText(y) + u)[5] == ReadingText(y)[5];
    }
    hide Channel, Numeral;
    match x
    case Battery(v) => ValueTells(BATTERY, v, t, y.value, u);
    case Rssi(v) => ValueTells(RSSI, v, t, y.value, u);
    case Envelope(l, r) => TwoValuesTell(LEFT_ENVELOPE, RIGHT_ENVELOPE, l, r, t, y.left, y.right, u);
    case Energy(f, l, r) => TwoChannelsTell(LEFT, RIGHT, f, l, r, t, y.flags, y.left, y.right, u);
  }

  // ---------------------------------------------------------------- elements

  function Tail(r: Record, comma: bool): string {
    Spaces(if |Unpadded(Some(r))| < RECORD_CHARS - 1 then RECORD_CHARS - 1 - |Unpadded(Some(r))| else 0) + "}"
    + if comma then "," else ""
  }

  lemma Regroup(brace: string, time: string, hex: string, quote: string, comma: string, reading: string,
                spaces: string, end: string, last: string)
    ensures (brace + (time + hex + (quote + comma)) + reading) + spaces + end + last
         == (brace + time) + (hex + quote + (comma + (reading + (spaces + end + last))))
  {}

  lemma ElementParts(r: Record, comma: bool)
    ensures Element(Some(r), comma)
         == ("{" + TIME)
           + ((Hex(WordAt(r, 2)) + Hex8(WordAt(r, 1))) + ['"'] + ("," + (ReadingText(ReadingOf(r)) + Tail(r, comma))))
  {
    hide Numeral, ZeroPad, WordAt, ReadingText, ReadingOf, Spaces, TIME;
    var n := |Unpadded(Some(r))|;
    Regroup("{", TIME, Hex(WordAt(r, 2)) + Hex8(WordAt(r, 1)), "\"", ",", ReadingText(ReadingOf(r)),
            Spaces(if n < RECORD_CHARS - 1 then RECORD_CHARS - 1 - n else 0), "}", if comma then "," else "");
    assert "\"" + "," == "\",";
  }

  lemma SameNumber(h: u32, l: u32, h': u32, l': u32)
    requires h * TWO_32 + l == h' * TWO_32 + l'
    ensures h == h' && l == l'
  {}

  /** Two records get the same text exactly when they have the same time and the same reading. */
  lemma ElementTells(r: Record, s: Record, comma: bool)
    ensures Element(Some(r), comma) == Element(Some(s), comma) <==>
            TimeOf(r) == TimeOf(s) && ReadingOf(r) == ReadingOf(s)
  {
    hide Numeral, ZeroPad, WordAt, ReadingText, ReadingOf, Element, Tail, ReadNumeral;
    var rt, st := Hex(WordAt(r, 2)) + Hex8(WordAt(r, 1)), Hex(WordAt(s, 2)) + Hex8(WordAt(s, 1));
    if Element(Some(r), comma) == Element(Some(s), comma) {
      ElementParts(r, comma);
      ElementParts(s, comma);
      var x, y := ReadingText(ReadingOf(r)) + Tail(r, comma), ReadingText(ReadingOf(s)) + Tail(s, comma);
      TwoWordsRead(WordAt(r, 2), WordAt(r, 1));
      TwoWordsRead(WordAt(s, 2), WordAt(s, 1));
      CancelPrefix(("{" + TIME), rt + ['"'] + ("," + x), st + ['"'] + ("," + y));
      CancelToken(rt, st, '"', "," + x, "," + y);
      CancelPrefix(",", x, y);
      ReadingTells(ReadingOf(r), Tail(r, comma), ReadingOf(s), Tail(s, comma));
    }
    if TimeOf(r) == TimeOf(s) && ReadingOf(r) == ReadingOf(s) {
      SameNumber(WordAt(r, 2), WordAt(r, 1), WordAt(s, 2), WordAt(s, 1));
      assert Unpadded(Some(r)) == Unpadded(Some(s));
      SameUnpadded(r, s, comma);
    }
  }

  lemma SameUnpadded(r: Record, s: Record, comma: bool)
    requires Unpadded(Some(r)) == Unpadded(Some(s))
    ensures Element(Some(r), comma) == Element(Some(s), comma)
  {}

  lemma SecondCharacter(r: Record, comma: bool)
    ensures |Element(Some(r), comma)| > 1 && Element(Some(r), comma)[1] == '"'
  {
    hide Element, Numeral, ZeroPad, WordAt, ReadingText, ReadingOf, Spaces;
    ElementParts(r, comma);
    assert ("{" + TIME)[1] == TIME[0];
  }

  /** A record the log could not read back is never mistaken for a reading. */
  lemma NullIsVisible(r: Record, comma: bool)
    ensures Element(None, comma) != Element(Some(r), comma)
  {
    hide Numeral, ZeroPad, WordAt, ReadingText, ReadingOf, TimeText;
    SecondCharacter(r, comma);
    assert Element(None, comma)[1] == ' ';
  }
}
