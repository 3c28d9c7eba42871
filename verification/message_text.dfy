/** The message as the server reads it, character by character, from the words of the records. */
module MessageText {
  import opened Common
  import opened Checksum
  import opened OctetBits
  import opened Printing
  import opened HttpTx
  import Base64
  import Records

  // ---------------------------------------------------------------- words

  /** The low octet comes first. */
  lemma LowOctetFirst(r: Record, i: nat)
    requires i < 6 && r[4 * i] == 0x78 && r[4 * i + 1] == 0x56 && r[4 * i + 2] == 0x34 && r[4 * i + 3] == 0x12
    ensures WordAt(r, i) == 0x1234_5678
  {}

  // ---------------------------------------------------------------- channels

  lemma MicGainText(mic: nat)
    requires mic < 4
    ensures Dec(MicGain(mic)) == ["33", "28", "18", "13"][mic]
  {
    match mic case 0 => TwoDigits(33); case 1 => TwoDigits(28); case 2 => TwoDigits(18); case _ => TwoDigits(13);
  }

  lemma TwoDigits(n: nat)
    requires 10 <= n < 100
    ensures Dec(n) == [Digit(n / 10), Digit(n % 10)]
  {
    hide Digit;
    assert Numeral(10, n / 10) == [Digit(n / 10)];
  }

  /** The gain: null for 0, a whole number for odd settings, and for even ones a half more in magnitude. */
  lemma GainText(pga: u8)
    ensures pga == 0 ==> Gain(pga) == "null"
    ensures pga % 2 == 1 ==> Gain(pga) == SignedDec((pga - 195) / 2)
    ensures pga % 2 == 0 && 0 < pga < 194 ==> Gain(pga) == "-" + Dec((194 - pga) / 2) + ".5"
    ensures pga % 2 == 0 && pga >= 194 ==> Gain(pga) == Dec((pga - 194) / 2) + ".5"
  {
    hide Numeral;
    assert SignedDec(pga / 2 - 97) + "" == SignedDec(pga / 2 - 97);
  }

  /** A channel, from the fields of its flags: six bits of frequency, two of microphone gain, eight of PGA gain. */
  lemma ChannelText(freq: nat, mic: nat, pga: u8, value: u32)
    requires freq < 64 && mic < 4
    ensures Channel(0x400 * freq + 0x100 * mic + pga, value)
         == "{\"target_freq\":" + Dec(freq) + ",\"mic_gain\":" + ["33", "28", "18", "13"][mic]
            + ",\"pga_gain\":" + Gain(pga) + ",\"value\":" + Dec(value) + "}"
  {
    hide Numeral, Gain, MicGain;
    MicGainText(mic);
    ChannelFields(freq, mic, pga);
  }

  lemma ChannelFields(freq: nat, mic: nat, pga: u8)
    requires freq < 64 && mic < 4
    ensures var flags := 0x400 * freq + 0x100 * mic + pga;
            flags < TWO_16 && flags / 0x400 == freq && flags / 0x100 % 4 == mic && flags % 0x100 == pga
  {
    TopField(freq, 0x100 * mic + pga);
    LowField(4 * freq + mic, pga);
    TwoBits(freq, mic);
  }

  lemma TopField(top: nat, rest: nat)
    requires rest < 0x400
    ensures (0x400 * top + rest) / 0x400 == top
  {}

  lemma LowField(above: nat, low: nat)
    requires low < 0x100
    ensures (0x100 * above + low) / 0x100 == above && (0x100 * above + low) % 0x100 == low
  {}

  lemma TwoBits(above: nat, low: nat)
    requires low < 4
    ensures (4 * above + low) % 4 == low
  {}

  // ---------------------------------------------------------------- readings

  /** The type of a record is in the top six bits of its first word; the rest of them tells nothing. */
  predicate HasType(r: Record, kind: nat) {
    kind * 0x400_0000 <= WordAt(r, 0) < (kind + 1) * 0x400_0000
  }

  lemma BatteryText(r: Record)
    requires HasType(r, 60)
    ensures ReadingText(ReadingOf(r)) == "\"battery\":{\"value\":" + Dec(WordAt(r, 3)) + "}"
  {
    hide WordAt, Numeral;
  }

  lemma RssiText(r: Record)
    requires HasType(r, 61)
    ensures ReadingText(ReadingOf(r)) == "\"rssi\":{\"value\":" + Dec(WordAt(r, 3)) + "}"
  {
    hide WordAt, Numeral;
  }

  lemma EnvelopeText(r: Record)
    requires HasType(r, 63)
    ensures ReadingText(ReadingOf(r))
         == "\"left_envelope\":{\"value\":" + Dec(WordAt(r, 3)) + "}"
            + ",\"right_envelope\":{\"value\":" + Dec(WordAt(r, 4)) + "}"
  {
    hide WordAt, Numeral;
  }

  /** Every other type is a measurement: the upper half of the first word describes the left channel, whose value is
      word 3, and the lower half the right one, whose value is word 4. */
  lemma EnergyText(r: Record, left: u16, right: u16)
    requires WordAt(r, 0) == 0x1_0000 * left + right
    requires !HasType(r, 60) && !HasType(r, 61) && !HasType(r, 63)
    ensures ReadingText(ReadingOf(r))
         == "\"left\":" + Channel(left, WordAt(r, 3)) + ",\"right\":" + Channel(right, WordAt(r, 4))
  {
    hide WordAt, Channel;
    HalfWords(left, right);
    OtherType(r);
  }

  lemma HalfWords(left: u16, right: u16)
    ensures (0x1_0000 * left + right) / TWO_16 == left && (0x1_0000 * left + right) % TWO_16 == right
  {}

  lemma OtherType(r: Record)
    requires !HasType(r, 60) && !HasType(r, 61) && !HasType(r, 63)
    ensures ReadingOf(r) == Energy(WordAt(r, 0), WordAt(r, 3), WordAt(r, 4))
  {
    hide WordAt;
  }

  // ---------------------------------------------------------------- elements

  /** The object before its padding. */
  function Head(r: Record): string {
    "{\"time\":\"" + Hex(WordAt(r, 2)) + Hex8(WordAt(r, 1)) + "\"," + ReadingText(ReadingOf(r))
  }

  lemma HeadIsUnpadded(r: Record)
    ensures Unpadded(Some(r)) == Head(r)
  {
    hide WordAt, Numeral, ZeroPad, ReadingText, ReadingOf;
    var h, l, x := Hex(WordAt(r, 2)), Hex8(WordAt(r, 1)), ReadingText(ReadingOf(r));
    assert "{" + "\"time\":\"" == "{\"time\":\"";
    Regroup("{", TIME, h, l, "\",", x);
  }

  lemma Regroup(a: string, b: string, c: string, d: string, e: string, f: string)
    ensures a + (b + (c + d) + e) + f == a + b + c + d + e + f
  {}

  /** An element is its object, padded with blanks to 179 characters, the brace, and a comma unless it is the last. */
  lemma ElementIs(r: Record, comma: bool)
    ensures |Head(r)| <= 179
    ensures Element(Some(r), comma)
         == Head(r) + seq(179 - |Head(r)|, _ => ' ') + "}" + (if comma then "," else "")
  {
    hide Unpadded, Head;
    HeadIsUnpadded(r);
    UnpaddedLength(Some(r));
    assert Spaces(179 - |Head(r)|) == seq(179 - |Head(r)|, _ => ' ');
  }

  /** A sample that could not be read is an empty object of the same width. */
  lemma NullElementIs(comma: bool)
    ensures Element(None, comma) == "{" + seq(178, _ => ' ') + "}" + (if comma then "," else "")
  {
    assert Spaces(178) == seq(178, _ => ' ');
  }

  /** What the server is told of a sample the gateway took itself. */
  lemma SampleText(flags: u32, time: nat, left: u32, right: u32)
    requires time < TWO_32 * TWO_32
    ensures var r := Records.SampleRecord(flags, time, left, right);
            && Head(r) == "{\"time\":\"" + Hex(time / TWO_32) + Hex8(time % TWO_32) + "\"," + ReadingText(ReadingOf(r))
            && WordAt(r, 0) == flags && WordAt(r, 3) == left && WordAt(r, 4) == right
  {
    hide WordAt, Numeral, ZeroPad, ReadingText, ReadingOf, Records.SampleRecord, Evaluate;
    Records.SampleIsReported(flags, time, left, right);
    var r := Records.SampleRecord(flags, time, left, right);
    TwoWords(time, WordAt(r, 2), WordAt(r, 1));
  }

  lemma TwoWords(time: nat, high: u32, low: u32)
    requires high * TWO_32 + low == time
    ensures high == time / TWO_32 && low == time % TWO_32
  {}

  // ---------------------------------------------------------------- the message

  /** The header lines without authorization, and the blank line. */
  lemma HeaderText(host: string, count: u16)
    requires count >= 1
    ensures Header(host, None, count)
         == "POST /vlf_fft/_bulk_docs HTTP/1.1\r\nHost: " + host
            + "\r\nContent-Length: " + Dec(11 + 180 * count + (count - 1)) + "\r\n"
            + "Content-Type: application/json\r\n" + "\r\n"
  {
    hide Numeral, POST, CONTENT_LENGTH, CONTENT_TYPE;
    HeaderConstants();
    assert "\r\n" + "" == "\r\n";
    Chain(POST + host + CONTENT_LENGTH + Dec(11 + 180 * count + (count - 1)), "\r\n", CONTENT_TYPE, "\r\n");
  }

  /** The header lines with authorization, and the blank line. */
  lemma AuthorizedHeaderText(host: string, auth: seq<u8>, count: u16)
    requires count >= 1
    ensures Header(host, Some(auth), count)
         == "POST /vlf_fft/_bulk_docs HTTP/1.1\r\nHost: " + host
            + "\r\nContent-Length: " + Dec(11 + 180 * count + (count - 1)) + "\r\n"
            + ("Authorization: Basic " + Base64.Encoded(auth) + "\r\n")
            + "Content-Type: application/json\r\n" + "\r\n"
  {
    hide Numeral, POST, CONTENT_LENGTH, CONTENT_TYPE, AUTHORIZATION, Base64.Encoded;
    HeaderConstants();
    var a, line := "\r\n", AUTHORIZATION + Base64.Encoded(auth) + "\r\n";
    var start := POST + host + CONTENT_LENGTH + Dec(11 + 180 * count + (count - 1));
    Chain(start, a + line, CONTENT_TYPE, "\r\n");
    assert start + (a + line) == start + a + line;
  }

  lemma HeaderConstants()
    ensures POST == "POST /vlf_fft/_bulk_docs HTTP/1.1\r\nHost: " && CONTENT_LENGTH == "\r\nContent-Length: "
    ensures AUTHORIZATION == "Authorization: Basic " && CONTENT_TYPE == "Content-Type: application/json\r\n"
  {}

  lemma Chain(a: string, b: string, c: string, d: string)
    ensures a + (b + c + d) == a + b + c + d
  {}

  /** The elements stand in a list called docs, separated by commas. */
  lemma {:induction false} BodyText(samples: seq<Option<Record>>)
    requires samples != []
    ensures Body(samples) == "{\"docs\":[" + Separated(samples) + "]}"
  {
    hide Elements, Separated;
    ElementsSeparated(samples, |samples|);
  }

  function Separated(samples: seq<Option<Record>>): string
    requires samples != []
  {
    if |samples| == 1 then Element(samples[0], false)
    else Element(samples[0], false) + "," + Separated(samples[1..])
  }

  lemma CommaLast(sample: Option<Record>)
    ensures Element(sample, true) == Element(sample, false) + ","
  {
    hide Unpadded;
    assert Padded(Unpadded(sample)) + "}" + "" == Padded(Unpadded(sample)) + "}";
  }

  lemma {:induction false} ElementsSeparated(samples: seq<Option<Record>>, count: nat)
    requires 1 <= |samples| <= count
    ensures Elements(samples, count) == Separated(samples) + if |samples| < count then "," else ""
    decreases |samples|
  {
    hide Element;
    var init, last := samples[..|samples| - 1], samples[|samples| - 1];
    CommaLast(last);
    if init == [] {
      assert Elements(init, count) + Element(last, |samples| < count) == Element(last, |samples| < count);
      assert Element(last, false) + "" == Element(last, false);
    } else {
      ElementsSeparated(init, count);
      SeparatedSnoc(init, last);
      assert samples == init + [last];
      assert Separated(init) + "," + (Element(last, false) + ",") == Separated(init) + "," + Element(last, false) + ",";
      assert Separated(samples) + "" == Separated(samples);
    }
  }

  lemma {:induction false} SeparatedSnoc(init: seq<Option<Record>>, last: Option<Record>)
    requires init != []
    ensures Separated(init + [last]) == Separated(init) + "," + Element(last, false)
    decreases |init|
  {
    hide Element;
    assert (init + [last])[1..] == init[1..] + [last];
    if |init| > 1 {
      SeparatedSnoc(init[1..], last);
      var a, b, c := Element(init[0], false), Separated(init[1..]), Element(last, false);
      assert a + "," + (b + "," + c) == a + "," + b + "," + c;
    } else {
      assert (init + [last])[1..] == [last];
    }
  }
}
