/** The text src/http_tx.c produces: the HTTP header with its announced length, and each record as a JSON
    object of fixed width. */
module HttpTx {
  import opened Common
  import opened Checksum
  import opened OctetBits
  import opened Printing
  import Base64

  const OVERHEAD_CHARS := 11
  const RECORD_CHARS := 180

  // The fixed texts, named so that proofs can leave them abstract.
  const TARGET_FREQ := "{\"target_freq\":"
  const MIC_GAIN := ",\"mic_gain\":"
  const PGA_GAIN := ",\"pga_gain\":"
  const VALUE := ",\"value\":"
  const BATTERY := "\"battery\":{\"value\":"
  const RSSI := "\"rssi\":{\"value\":"
  const LEFT_ENVELOPE := "\"left_envelope\":{\"value\":"
  const RIGHT_ENVELOPE := ",\"right_envelope\":{\"value\":"
  const LEFT := "\"left\":"
  const RIGHT := ",\"right\":"
  const TIME := "\"time\":\""
  const POST := "POST /vlf_fft/_bulk_docs HTTP/1.1\r\nHost: "
  const CONTENT_LENGTH := "\r\nContent-Length: "
  const AUTHORIZATION := "Authorization: Basic "
  const CONTENT_TYPE := "Content-Type: application/json\r\n"

  /** Word `i` of a record, little-endian. */
  function WordAt(r: Record, i: nat): u32
    requires i < 6
  {
    OctetValue(r[4 * i]) + 0x100 * OctetValue(r[4 * i + 1]) + 0x1_0000 * OctetValue(r[4 * i + 2])
    + 0x100_0000 * OctetValue(r[4 * i + 3])
  }

  // ---------------------------------------------------------------- energy measurements

  function MicGain(code: nat): nat {
    match code case 0 => 33 case 1 => 28 case 2 => 18 case _ => 13
  }

  function Gain(pga: nat): string {
    if pga == 0 then "null"
    else SignedDec(pga / 2 - 97) + if pga % 2 == 0 then ".5" else ""
  }

  /** sprintf_em_channel */
  function Channel(flags: u16, value: u32): string {
    TARGET_FREQ + Dec(flags / 0x400) + MIC_GAIN + Dec(MicGain(flags / 0x100 % 4))
    + PGA_GAIN + Gain(flags % 0x100) + VALUE + Dec(value) + "}"
  }

  // ---------------------------------------------------------------- records

  /** What a record tells the server. */
  datatype Reading =
    | Battery(value: u32)
    | Rssi(value: u32)
    | Envelope(left: u32, right: u32)
    | Energy(flags: u32, left: u32, right: u32)

  function ReadingOf(r: Record): Reading {
    match WordAt(r, 0) / 0x400_0000
    case 60 => Battery(WordAt(r, 3))
    case 61 => Rssi(WordAt(r, 3))
    case 63 => Envelope(WordAt(r, 3), WordAt(r, 4))
    case _ => Energy(WordAt(r, 0), WordAt(r, 3), WordAt(r, 4))
  }

  function TimeOf(r: Record): nat { WordAt(r, 2) * TWO_32 + WordAt(r, 1) }

  function ReadingText(x: Reading): string {
    match x
    case Battery(v) => BATTERY + Dec(v) + "}"
    case Rssi(v) => RSSI + Dec(v) + "}"
    case Envelope(l, r) => LEFT_ENVELOPE + Dec(l) + "}" + RIGHT_ENVELOPE + Dec(r) + "}"
    case Energy(flags, l, r) => LEFT + Channel(flags / TWO_16, l) + RIGHT + Channel(flags % TWO_16, r)
  }

  function TimeText(high: u32, low: u32): string {
    TIME + (Hex(high) + Hex8(low)) + "\","
  }

  /** The object text before padding, without its closing brace. A null sample leaves it empty. */
  function Unpadded(sample: Option<Record>): string {
    match sample
    case None => "{"
    case Some(r) => "{" + TimeText(WordAt(r, 2), WordAt(r, 1)) + ReadingText(ReadingOf(r))
  }

  function Spaces(n: nat): (s: string)
    ensures |s| == n
  {
    seq(n, _ => ' ')
  }

  function Padded(s: string): string {
    s + Spaces(if |s| < RECORD_CHARS - 1 then RECORD_CHARS - 1 - |s| else 0)
  }

  /** json_element */
  function Element(sample: Option<Record>, comma: bool): string {
    Padded(Unpadded(sample)) + "}" + if comma then "," else ""
  }

  // ---------------------------------------------------------------- the whole message

  const JSON_HEADER := "{\"docs\":["
  const JSON_FOOTER := "]}"

  function ContentLength(count: u16): int { OVERHEAD_CHARS + count * RECORD_CHARS + (count - 1) }

  function LengthLineStart(host: string): string {
    POST + host + CONTENT_LENGTH
  }

  function Authorization(auth: Option<seq<u8>>): string {
    match auth
    case None => ""
    case Some(a) => AUTHORIZATION + Base64.Encoded(a) + "\r\n"
  }

  function HeaderRest(auth: Option<seq<u8>>): string {
    "\r\n" + Authorization(auth) + CONTENT_TYPE + "\r\n"
  }

  /** http_header */
  function Header(host: string, auth: Option<seq<u8>>, count: u16): string {
    LengthLineStart(host) + SignedDec(ContentLength(count)) + HeaderRest(auth)
  }

  /** The elements of the first `|samples|` records out of `count`. */
  function Elements(samples: seq<Option<Record>>, count: nat): string {
    if samples == [] then []
    else Elements(samples[..|samples| - 1], count) + Element(samples[|samples| - 1], |samples| < count)
  }

  function Body(samples: seq<Option<Record>>): string {
    JSON_HEADER + Elements(samples, |samples|) + JSON_FOOTER
  }

  function Message(host: string, auth: Option<seq<u8>>, samples: seq<Option<Record>>): string
    requires |samples| < TWO_16
  {
    Header(host, auth, |samples|) + Body(samples)
  }

  // ---------------------------------------------------------------- lengths

  lemma GainLength(pga: u8)
    ensures |Gain(pga)| <= 5
  {
    var i := pga / 2 - 97;
    WordLengths(if i < 0 then -i else i);
  }

  /** No channel has more than 68 characters. */
  lemma ChannelLength(flags: u16, value: u32)
    ensures |Channel(flags, value)| <= 68
  {
    WordLengths(flags / 0x400);
    WordLengths(MicGain(flags / 0x100 % 4));
    GainLength(flags % 0x100);
    WordLengths(value);
  }

  /** The bound is reached, so the 60 characters its comment allows are too few: every channel with a two-digit
      frequency, a gain of five characters and a value of ten digits is this long. */
  lemma LongestChannel(flags: u16, value: u32)
    requires flags / 0x400 >= 10 && |Gain(flags % 0x100)| == 5 && value >= 1_000_000_000
    ensures |Channel(flags, value)| == 68
  {
    WordLengths(flags / 0x400);
    WordLengths(MicGain(flags / 0x100 % 4));
    ManyDigits(flags / 0x400, 1);
    ManyDigits(MicGain(flags / 0x100 % 4), 1);
    assert Pow(10, 9) == 1_000_000_000;
    ManyDigits(value, 9);
    WordLengths(value);
  }

  lemma UnpaddedLength(sample: Option<Record>)
    ensures |Unpadded(sample)| <= RECORD_CHARS - 1
  {
    if sample.Some? {
      var r := sample.value;
      hide Channel, Numeral, ZeroPad, WordAt, ReadingOf;
      WordLengths(WordAt(r, 1));
      WordLengths(WordAt(r, 2));
      assert |TimeText(WordAt(r, 2), WordAt(r, 1))| <= 26;
      match ReadingOf(r)
      case Battery(v) => WordLengths(v);
      case Rssi(v) => WordLengths(v);
      case Envelope(a, b) => WordLengths(a); WordLengths(b);
      case Energy(flags, a, b) => ChannelLength(flags / TWO_16, a); ChannelLength(flags % TWO_16, b);
    }
  }

  /** Every sample, the null one included, takes exactly 180 characters and its comma. */
  lemma ElementLength(sample: Option<Record>, comma: bool)
    ensures |Element(sample, comma)| == RECORD_CHARS + if comma then 1 else 0
  {
    hide Unpadded;
    UnpaddedLength(sample);
  }

  lemma {:induction false} ElementsLength(samples: seq<Option<Record>>, count: nat)
    requires |samples| <= count
    ensures |Elements(samples, count)|
            == RECORD_CHARS * |samples| + if |samples| == count && count > 0 then count - 1 else |samples|
    decreases |samples|
  {
    hide Element;
    if samples != [] {
      ElementsLength(samples[..|samples| - 1], count);
      ElementLength(samples[|samples| - 1], |samples| < count);
    }
  }

  lemma BodyLength(samples: seq<Option<Record>>)
    requires 1 <= |samples| < TWO_16
    ensures |Body(samples)| == ContentLength(|samples|) < 0x8000_0000
  {
    hide Elements;
    ElementsLength(samples, |samples|);
  }

  lemma BlankLine(auth: Option<seq<u8>>)
    ensures HeaderRest(auth)[|HeaderRest(auth)| - 4..] == "\r\n\r\n"
  {
    hide Authorization;
    var a := "\r\n" + Authorization(auth) + CONTENT_TYPE[..30];
    assert HeaderRest(auth) == a + "\r\n\r\n";
  }

  lemma LengthReads(n: nat)
    ensures ReadNumeral(10, SignedDec(n)) == n
  {
    NumeralReads(10, n);
  }

  lemma SecondOfFour(a: string, b: string, c: string, d: string)
    ensures (a + b + c + d)[|a|..|a| + |b|] == b && (a + b + c + d)[..|a| + |b|] == a + b
  {}

  /** The length announced before any record is read is the length of the body that follows the blank line. */
  lemma AnnouncedLengthIsTrue(host: string, auth: Option<seq<u8>>, samples: seq<Option<Record>>)
    requires 1 <= |samples| < TWO_16
    ensures var start, digits := |LengthLineStart(host)|, |SignedDec(ContentLength(|samples|))|;
            var message := Message(host, auth, samples);
            && ReadNumeral(10, message[start..start + digits]) == |Body(samples)|
            && message == message[..start + digits] + HeaderRest(auth) + Body(samples)
  {
    hide Body, SignedDec, ReadNumeral, LengthLineStart, HeaderRest, ContentLength;
    BodyLength(samples);
    LengthReads(ContentLength(|samples|));
    SecondOfFour(LengthLineStart(host), SignedDec(ContentLength(|samples|)), HeaderRest(auth), Body(samples));
  }

  // ---------------------------------------------------------------- the gain that is printed

  /** A decimal number with an optional half, in halves. */
  function ReadHalves(s: string): int {
    if s != [] && s[0] == '-' then -ReadMagnitude(s[1..]) else ReadMagnitude(s)
  }

  function ReadMagnitude(s: string): int {
    if |s| >= 2 && s[|s| - 2..] == ".5" then 2 * ReadNumeral(10, s[..|s| - 2]) + 1 else 2 * ReadNumeral(10, s)
  }

  lemma MagnitudeReads(n: nat)
    ensures ReadMagnitude(Dec(n)) == 2 * n && ReadMagnitude(Dec(n) + ".5") == 2 * n + 1
    ensures Dec(n)[0] != '-'
  {
    hide ReadNumeral;
    var s := Dec(n);
    NumeralReads(10, n);
    assert (s + ".5")[|s|..] == ".5" && (s + ".5")[..|s|] == s;
    assert |s| >= 2 ==> s[|s| - 2..][0] == s[|s| - 2] && IsDigit(s[|s| - 2]);
    assert IsDigit(s[0]);
  }

  /** The gain printed is the documented -97.5 dB + PGA/2 exactly for odd settings and for settings below 194. */
  lemma GainIsRightIff(pga: u8)
    requires pga > 0
    ensures ReadHalves(Gain(pga)) == pga - 195 <==> pga % 2 == 1 || pga < 194
    ensures pga % 2 == 0 && pga >= 194 ==> ReadHalves(Gain(pga)) == pga - 193
  {
    hide ReadMagnitude, Numeral;
    var i := pga / 2 - 97;
    var n := if i < 0 then -i else i;
    MagnitudeReads(n);
    var s := Gain(pga);
    var magnitude := Dec(n) + if pga % 2 == 0 then ".5" else "";
    if i < 0 {
      assert s == "-" + magnitude;
      assert s[1..] == magnitude;
    } else {
      assert s == magnitude && s[0] == Dec(n)[0];
    }
    assert Dec(n) + "" == Dec(n);
  }
}
