/** The functions of src/http_tx.c as they work: each writes into the caller's output buffer from an offset on
    and returns how many characters it wrote. sprintf also writes a null character after its text. */
module HttpTxBuffer {
  import opened Common
  import opened Checksum
  import opened Printing
  import opened HttpTx
  import Base64

  const BUFFER_SIZE := 400

  /** Appends a text to the `before` that the buffer holds so far. */
  method Sprintf(buffer: array<char>, at: nat, text: string, ghost before: string) returns (n: nat)
    requires at + |text| < buffer.Length && buffer[..at] == before
    modifies buffer
    ensures n == |text|
    ensures buffer[..at + n] == before + text
  {
    n := |text|;
    forall k | 0 <= k < |text| {
      buffer[at + k] := text[k];
    }
    assert buffer[..at + n] == before + text;
    buffer[at + n] := '\0';
  }

  /** The gain field in sprintf_em_channel */
  method SprintfGain(buffer: array<char>, at: nat, pgaGain: u8, ghost before: string) returns (n: nat)
    requires at + |Gain(pgaGain)| < buffer.Length && buffer[..at] == before
    modifies buffer
    ensures n == |Gain(pgaGain)|
    ensures buffer[..at + n] == before + Gain(pgaGain)
  {
    hide SignedDec;
    if pgaGain == 0 {
      n := Sprintf(buffer, at, "null", before);
    } else {
      n := Sprintf(buffer, at, SignedDec(pgaGain / 2 - 97), before);
      if pgaGain % 2 == 0 {
        var m := Sprintf(buffer, at + n, ".5", before + SignedDec(pgaGain / 2 - 97));
        n := n + m;
      }
    }
  }

  /** sprintf_em_channel */
  method SprintfEmChannel(buffer: array<char>, at: nat, flags: u16, value: u32, ghost before: string) returns (n: nat)
    requires at + |Channel(flags, value)| < buffer.Length && buffer[..at] == before
    modifies buffer
    ensures n == |Channel(flags, value)|
    ensures buffer[..at + n] == before + Channel(flags, value)
  {
    hide Numeral, Gain, TARGET_FREQ, MIC_GAIN, PGA_GAIN, VALUE;
    var targetFreq, micGain, pgaGain := flags / 0x400, MicGain(flags / 0x100 % 4), flags % 0x100;
    var opening := TARGET_FREQ + Dec(targetFreq) + MIC_GAIN + Dec(micGain) + PGA_GAIN;
    var closing := VALUE + Dec(value) + "}";
    assert Channel(flags, value) == opening + Gain(pgaGain) + closing;
    n := Sprintf(buffer, at, opening, before);
    ghost var w := before + opening;
    var m := SprintfGain(buffer, at + n, pgaGain, w);
    n := n + m;
    m := Sprintf(buffer, at + n, closing, w + Gain(pgaGain));
    n := n + m;
    assert before + opening + Gain(pgaGain) + closing == before + Channel(flags, value);
  }

  /** One half of sprintf_em */
  method SprintfSide(buffer: array<char>, at: nat, name: string, flags: u16, value: u32, ghost before: string)
    returns (n: nat)
    requires at + |name| + |Channel(flags, value)| < buffer.Length && buffer[..at] == before
    modifies buffer
    ensures n == |name| + |Channel(flags, value)|
    ensures buffer[..at + n] == before + name + Channel(flags, value)
  {
    hide Channel;
    n := Sprintf(buffer, at, name, before);
    var m := SprintfEmChannel(buffer, at + n, flags, value, before + name);
    n := n + m;
  }

  /** sprintf_em */
  method SprintfEm(buffer: array<char>, at: nat, flags: u32, left: u32, right: u32, ghost before: string)
    returns (n: nat)
    requires at + |ReadingText(Energy(flags, left, right))| < buffer.Length && buffer[..at] == before
    modifies buffer
    ensures n == |ReadingText(Energy(flags, left, right))|
    ensures buffer[..at + n] == before + ReadingText(Energy(flags, left, right))
  {
    hide Channel, LEFT, RIGHT;
    ghost var l, r := Channel(flags / TWO_16, left), Channel(flags % TWO_16, right);
    assert ReadingText(Energy(flags, left, right)) == LEFT + l + RIGHT + r;
    n := SprintfSide(buffer, at, LEFT, flags / TWO_16, left, before);
    var m := SprintfSide(buffer, at + n, RIGHT, flags % TWO_16, right, before + LEFT + l);
    n := n + m;
    assert before + LEFT + l + RIGHT + r == before + (LEFT + l + RIGHT + r);
  }

  /** sprintf_envelope */
  method SprintfEnvelope(buffer: array<char>, at: nat, left: u32, right: u32, ghost before: string) returns (n: nat)
    requires at + |ReadingText(Envelope(left, right))| < buffer.Length && buffer[..at] == before
    modifies buffer
    ensures n == |ReadingText(Envelope(left, right))|
    ensures buffer[..at + n] == before + ReadingText(Envelope(left, right))
  {
    hide Numeral, LEFT_ENVELOPE, RIGHT_ENVELOPE;
    var l, r := LEFT_ENVELOPE + Dec(left) + "}", RIGHT_ENVELOPE + Dec(right) + "}";
    assert ReadingText(Envelope(left, right)) == l + r;
    n := Sprintf(buffer, at, l, before);
    var m := Sprintf(buffer, at + n, r, before + l);
    n := n + m;
    assert before + l + r == before + (l + r);
  }

  /** The choice among sprintf_battery, sprintf_rssi, sprintf_envelope and sprintf_em in json_element */
  method SprintfReading(buffer: array<char>, at: nat, r: Record, ghost before: string) returns (n: nat)
    requires at + |ReadingText(ReadingOf(r))| < buffer.Length && buffer[..at] == before
    modifies buffer
    ensures n == |ReadingText(ReadingOf(r))|
    ensures buffer[..at + n] == before + ReadingText(ReadingOf(r))
  {
    hide Numeral, WordAt, Channel, BATTERY, RSSI, LEFT, RIGHT, LEFT_ENVELOPE, RIGHT_ENVELOPE;
    var recordType := WordAt(r, 0) / 0x400_0000;
    if recordType == 60 {
      n := Sprintf(buffer, at, BATTERY + Dec(WordAt(r, 3)) + "}", before);
    } else if recordType == 61 {
      n := Sprintf(buffer, at, RSSI + Dec(WordAt(r, 3)) + "}", before);
    } else if recordType == 63 {
      n := SprintfEnvelope(buffer, at, WordAt(r, 3), WordAt(r, 4), before);
    } else {
      n := SprintfEm(buffer, at, WordAt(r, 0), WordAt(r, 3), WordAt(r, 4), before);
    }
  }

  method SprintfUnpadded(buffer: array<char>, sample: Option<Record>) returns (n: nat)
    requires buffer.Length == BUFFER_SIZE
    modifies buffer
    ensures n == |Unpadded(sample)| <= RECORD_CHARS - 1 && buffer[..n] == Unpadded(sample)
  {
    UnpaddedLength(sample);
    hide TimeText, WordAt, ReadingOf, ReadingText;
    n := Sprintf(buffer, 0, "{", []);
    assert buffer[..n] == "{";
    if sample.Some? {
      var r := sample.value;
      var time := TimeText(WordAt(r, 2), WordAt(r, 1));
      var m := Sprintf(buffer, n, time, "{");
      n := n + m;
      m := SprintfReading(buffer, n, r, "{" + time);
      n := n + m;
    }
  }

  /** json_element */
  method JsonElement(buffer: array<char>, sample: Option<Record>, comma: bool) returns (n: nat)
    requires buffer.Length == BUFFER_SIZE
    modifies buffer
    ensures n == |Element(sample, comma)| < buffer.Length
    ensures buffer[..n] == Element(sample, comma)
  {
    hide Unpadded;
    UnpaddedLength(sample);
    n := SprintfUnpadded(buffer, sample);
    ghost var start, text := n, Unpadded(sample);
    while n < RECORD_CHARS - 1
      invariant start <= n <= RECORD_CHARS - 1
      invariant buffer[..n] == text + Spaces(n - start)
    {
      buffer[n] := ' ';
      assert buffer[..n + 1] == buffer[..n] + [' '] && Spaces(n + 1 - start) == Spaces(n - start) + [' '];
      n := n + 1;
    }
    assert buffer[..n] == Padded(text);
    var m := Sprintf(buffer, n, "}", Padded(text));
    n := n + m;
    if comma {
      m := Sprintf(buffer, n, ",", Padded(text) + "}");
      n := n + m;
    }
  }

  /** json_header */
  method JsonHeader(buffer: array<char>) returns (n: nat)
    requires buffer.Length == BUFFER_SIZE
    modifies buffer
    ensures n == |JSON_HEADER| <= buffer.Length && buffer[..n] == JSON_HEADER
  {
    n := Sprintf(buffer, 0, JSON_HEADER, []);
  }

  /** json_footer */
  method JsonFooter(buffer: array<char>) returns (n: nat)
    requires buffer.Length == BUFFER_SIZE
    modifies buffer
    ensures n == |JSON_FOOTER| <= buffer.Length && buffer[..n] == JSON_FOOTER
  {
    n := Sprintf(buffer, 0, JSON_FOOTER, []);
  }

  lemma HeaderParts(host: string, auth: Option<seq<u8>>, count: u16)
    ensures Header(host, auth, count)
         == POST + host + (CONTENT_LENGTH + SignedDec(ContentLength(count)) + "\r\n") + Authorization(auth)
            + CONTENT_TYPE + "\r\n"
  {
    hide SignedDec, POST, CONTENT_LENGTH, CONTENT_TYPE, Authorization;
  }

  /** http_header. The source leaves it to the configuration that the header fits the buffer. */
  method HttpHeader(buffer: array<char>, host: string, auth: Option<seq<u8>>, count: u16) returns (n: nat)
    requires |Header(host, auth, count)| < buffer.Length == BUFFER_SIZE
    modifies buffer
    ensures n == |Header(host, auth, count)| && buffer[..n] == Header(host, auth, count)
  {
    hide Header, SignedDec, POST, CONTENT_LENGTH, CONTENT_TYPE, Authorization;
    var length := CONTENT_LENGTH + SignedDec(ContentLength(count)) + "\r\n";
    ghost var a := Authorization(auth);
    HeaderParts(host, auth, count);
    n := Sprintf(buffer, 0, POST, []);
    assert buffer[..n] == POST;
    var m := Sprintf(buffer, n, host, POST);
    n := n + m;
    m := Sprintf(buffer, n, length, POST + host);
    n := n + m;
    m := SprintfAuthorization(buffer, n, auth, POST + host + length);
    n := n + m;
    m := Sprintf(buffer, n, CONTENT_TYPE, POST + host + length + a);
    n := n + m;
    m := Sprintf(buffer, n, "\r\n", POST + host + length + a + CONTENT_TYPE);
    n := n + m;
  }

  /** The optional authorization line of http_header. */
  method SprintfAuthorization(buffer: array<char>, at: nat, auth: Option<seq<u8>>, ghost before: string)
    returns (n: nat)
    requires at + |Authorization(auth)| < buffer.Length <= BUFFER_SIZE && buffer[..at] == before
    modifies buffer
    ensures n == |Authorization(auth)|
    ensures buffer[..at + n] == before + Authorization(auth)
  {
    hide AUTHORIZATION, Base64.Encoded;
    n := 0;
    if auth.Some? {
      n := Sprintf(buffer, at, AUTHORIZATION, before);
      var m := Base64.Encode(auth.value, buffer, at + n);
      n := n + m;
      ghost var e := Base64.Encoded(auth.value);
      m := Sprintf(buffer, at + n, "\r\n", before + AUTHORIZATION + e);
      n := n + m;
      assert before + AUTHORIZATION + e + "\r\n" == before + Authorization(auth);
    }
  }

  /** The length of the authorization line. */
  function AuthorizationLength(auth: Option<seq<u8>>): nat {
    match auth case None => 0 case Some(a) => 23 + (|a| + 2) / 3 * 4
  }

  lemma HeaderLength(host: string, auth: Option<seq<u8>>, count: u16)
    requires count >= 1
    ensures |Header(host, auth, count)| == 95 + |host| + AuthorizationLength(auth) + |Dec(ContentLength(count))|
  {
    hide Numeral, Base64.Encoded;
    if auth.Some? { Base64.RoundTrip(auth.value); }
  }

  /** The host name and the authorization line take at most 296 characters together. */
  predicate Fits(host: string, auth: Option<seq<u8>>) {
    |host| + AuthorizationLength(auth) <= 296
  }

  /** Then the header fits the buffer with its null character, whatever the count. */
  lemma HeaderFits(host: string, auth: Option<seq<u8>>, count: u16)
    requires count >= 1 && Fits(host, auth)
    ensures |Header(host, auth, count)| < BUFFER_SIZE
  {
    hide Header, Numeral;
    HeaderLength(host, auth, count);
    assert Pow(10, 8) == 100_000_000;
    NumeralLength(10, ContentLength(count), 8);
  }

  /** And that is no more than is needed: one character more, and the largest count overruns the buffer. */
  lemma HeaderFitsOnlyThen(host: string, auth: Option<seq<u8>>)
    requires forall count: u16 :: count >= 1 ==> |Header(host, auth, count)| < BUFFER_SIZE
    ensures Fits(host, auth)
  {
    hide Header, Numeral;
    var count: u16 := 0xFFFF;
    HeaderLength(host, auth, count);
    assert Pow(10, 7) == 10_000_000;
    ManyDigits(ContentLength(count), 7);
    assert |Header(host, auth, count)| < BUFFER_SIZE;
  }
}
