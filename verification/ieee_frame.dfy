/** The frame codec of src/radio/ieee_frame.c and src/radio/radio_functions.c: an IEEE 802.15.4 data frame
    (section 7.2.1 of IEEE 802.15.4-2006) written to and read from the radio's frame buffer over SPI. */
module IeeeFrame {
  import opened Common
  import opened OctetBits

  const RADIO_SPI_CMD_FR: bv8 := 0x20
  const RADIO_SPI_CMD_FW: bv8 := 0x60
  const BLANK: bv8 := 0
  const HEADER_LEN := 9
  const FCS_LEN := 2
  const MAX_MPDU := 127

  const FCF_PAN_ID_COMPRESSION: bv16 := 0x40
  const FCF_ACKNOWLEDGE_REQUEST: bv16 := 0x20
  const ADDRESS_16BIT: bv16 := 2
  const ADDRESS_64BIT: bv16 := 3

  datatype TxFrame = TxFrame(payload: seq<bv8>, destination: bv16, ack: bool)

  /** The addressing part of struct radif. */
  datatype Station = Station(panId: bv16, shortAddress: bv16, sequence: bv8)

  // ---------------------------------------------------------------- writing

  function WordOut(w: bv16): (o: seq<bv8>)
    ensures |o| == 2
  {
    [(w & 0xFF) as bv8, ((w >> 8) & 0xFF) as bv8]
  }

  /** The frame control field: data frame, both addresses short, one PAN identifier. */
  function Fcf(ack: bool): bv16 {
    (2 << 14) | (1 << 12) | (2 << 10) | FCF_PAN_ID_COMPRESSION | 1 | (if ack then FCF_ACKNOWLEDGE_REQUEST else 0)
  }

  /** write_out_ieee_header */
  function HeaderOut(tx: TxFrame, st: Station): (o: seq<bv8>)
    ensures |o| == HEADER_LEN
  {
    WordOut(Fcf(tx.ack)) + [st.sequence] + WordOut(st.panId) + WordOut(tx.destination) + WordOut(st.shortAddress)
  }

  /** The 8-bit length octet radio_frame_write computes. */
  function LengthOctet(length: nat): u8 { (length + HEADER_LEN + FCS_LEN) % 0x100 }

  /** What the frame buffer holds: the length octet, the header, the payload, and the frame check sequence that
      the radio fills in. */
  function FrameOut(tx: TxFrame, st: Station, fcs: seq<bv8>): seq<bv8> {
    [Octet(LengthOctet(|tx.payload|))] + HeaderOut(tx, st) + tx.payload + fcs
  }

  // ---------------------------------------------------------------- reading

  /** An octet of the frame buffer; past its end the radio returns blanks. */
  function At(buffer: seq<bv8>, i: nat): bv8 { if i < |buffer| then buffer[i] else BLANK }

  function Join(high: bv8, low: bv8): bv16 { (high as bv16 << 8) | low as bv16 }

  function WordIn(buffer: seq<bv8>, i: nat): bv16 { Join(At(buffer, i + 1), At(buffer, i)) }

  /** read_in_ieee_header from position `n` on: how many octets it takes, and the source address if it finds a
      short one. */
  function HeaderIn(buffer: seq<bv8>, n: nat): (nat, Option<bv16>) {
    var fcf := WordIn(buffer, n);
    var compressed := fcf & FCF_PAN_ID_COMPRESSION != 0;
    var destinationMode, sourceMode := (fcf >> 10) & 3, (fcf >> 14) & 3;
    var read := if destinationMode == ADDRESS_16BIT then 7 else if destinationMode == ADDRESS_64BIT then 5 else 3;
    var pan := if compressed then 0 else 2;
    if sourceMode == ADDRESS_16BIT then (read + pan + 2, Some(WordIn(buffer, n + read + pan)))
    else if sourceMode == ADDRESS_64BIT then (read + pan, None)
    else (read, None)
  }

  /** The data length radio_frame_read computes, in 8 bits. */
  function DataLength(mpduLen: u8, headerLen: nat): u8 { (mpduLen - (headerLen + FCS_LEN)) % 0x100 }

  function Stretch(buffer: seq<bv8>, n: nat, length: nat): (s: seq<bv8>)
    ensures |s| == length && forall i :: 0 <= i < length ==> s[i] == At(buffer, n + i)
  {
    seq(length, i requires 0 <= i < length => At(buffer, n + i))
  }

  /** radio_frame_read, with the length octet at position `n`: the data octets and the source address. */
  function FrameIn(buffer: seq<bv8>, n: nat): (seq<bv8>, Option<bv16>) {
    var (read, source) := HeaderIn(buffer, n + 1);
    (Stretch(buffer, n + 1 + read, DataLength(OctetValue(At(buffer, n)), read)), source)
  }

  // ---------------------------------------------------------------- properties

  lemma WordsMeet(w: bv16)
    ensures Join(WordOut(w)[1], WordOut(w)[0]) == w
  {}

  lemma WordThrough(buffer: seq<bv8>, i: nat, w: bv16)
    requires i + 2 <= |buffer| && buffer[i..i + 2] == WordOut(w)
    ensures WordIn(buffer, i) == w
  {
    hide WordOut, Join;
    assert buffer[i..i + 2][0] == buffer[i] && buffer[i..i + 2][1] == buffer[i + 1];
    WordsMeet(w);
  }

  lemma FcfFields(ack: bool)
    ensures Fcf(ack) & FCF_PAN_ID_COMPRESSION != 0
    ensures (Fcf(ack) >> 10) & 3 == ADDRESS_16BIT && (Fcf(ack) >> 14) & 3 == ADDRESS_16BIT
    ensures Fcf(ack) == (if ack then 0x9861 else 0x9841) && Fcf(ack) & 7 == 1 && (Fcf(ack) & 0x20 != 0 <==> ack)
  {}

  lemma HeaderThrough(first: bv8, tx: TxFrame, st: Station, rest: seq<bv8>)
    ensures HeaderIn([first] + HeaderOut(tx, st) + rest, 1) == (HEADER_LEN, Some(st.shortAddress))
  {
    hide WordOut, Fcf, WordIn;
    var buffer := [first] + HeaderOut(tx, st) + rest;
    assert buffer[1..1 + 2] == WordOut(Fcf(tx.ack)) && buffer[8..8 + 2] == WordOut(st.shortAddress);
    WordThrough(buffer, 1, Fcf(tx.ack));
    WordThrough(buffer, 8, st.shortAddress);
    FcfFields(tx.ack);
  }

  lemma HeaderPieces(a: seq<bv8>, s: bv8, b: seq<bv8>, c: seq<bv8>, d: seq<bv8>)
    requires |a| == |b| == |c| == |d| == 2
    ensures var h := a + [s] + b + c + d;
            h[0..0 + 2] == a && h[2] == s && h[3..3 + 2] == b && h[5..5 + 2] == c && h[7..7 + 2] == d
  {}

  /** Where everything stands in the header, as the reader of words finds it: a data frame, which asks for an
      acknowledgement or not, its number, the PAN, the address it is for, and the sender. */
  lemma HeaderLayout(tx: TxFrame, st: Station)
    ensures var h := HeaderOut(tx, st);
            && WordIn(h, 0) == (if tx.ack then 0x9861 else 0x9841)
            && WordIn(h, 0) & 7 == 1 && (WordIn(h, 0) & 0x20 != 0 <==> tx.ack)
            && h[2] == st.sequence
            && WordIn(h, 3) == st.panId
            && WordIn(h, 5) == tx.destination
            && WordIn(h, 7) == st.shortAddress
  {
    hide WordOut, Fcf, WordIn;
    var h := HeaderOut(tx, st);
    HeaderPieces(WordOut(Fcf(tx.ack)), st.sequence, WordOut(st.panId), WordOut(tx.destination),
                 WordOut(st.shortAddress));
    WordThrough(h, 0, Fcf(tx.ack));
    WordThrough(h, 3, st.panId);
    WordThrough(h, 5, tx.destination);
    WordThrough(h, 7, st.shortAddress);
    FcfFields(tx.ack);
  }

  /** The header, octet by octet. */
  lemma HeaderOctets(tx: TxFrame, st: Station)
    ensures HeaderOut(tx, st)
         == [if tx.ack then 0x61 else 0x41, 0x98, st.sequence, Low(st.panId), High(st.panId),
             Low(tx.destination), High(tx.destination), Low(st.shortAddress), High(st.shortAddress)]
  {
    hide Fcf, Low, High, WordOut;
    WordHalves(Fcf(tx.ack));
    WordHalves(st.panId);
    WordHalves(tx.destination);
    WordHalves(st.shortAddress);
    FcfHalves(tx.ack);
  }

  /** What goes over SPI for a frame: the write command, the length of all that follows it, and the frame. */
  lemma FrameOctets(tx: TxFrame, st: Station, fcs: seq<bv8>)
    requires |tx.payload| <= 116 && |fcs| == 2
    ensures [RADIO_SPI_CMD_FW] + FrameOut(tx, st, fcs)
         == [0x60] + [Octet(|HeaderOut(tx, st) + tx.payload + fcs|)] + HeaderOut(tx, st) + tx.payload + fcs
  {
    hide Octet, HeaderOut;
  }

  function Low(w: bv16): bv8 { (w & 0xFF) as bv8 }

  function High(w: bv16): bv8 { (w >> 8) as bv8 }

  lemma WordHalves(w: bv16)
    ensures WordOut(w) == [Low(w), High(w)]
  {}

  lemma FcfHalves(ack: bool)
    ensures Low(Fcf(ack)) == (if ack then 0x61 else 0x41) && High(Fcf(ack)) == 0x98
  {}

  /** What the reader makes of a header with a short source address, from its octets: a short destination in the same
      PAN or in another, or a long one, of which it passes over two octets. */
  lemma ShortSourceHeaders(s: bv8, a: bv8, b: bv8, c: bv8, d: bv8, e: bv8, f: bv8, g: bv8, h: bv8, rest: seq<bv8>)
    ensures HeaderIn([0x41, 0x88, s, a, b, c, d, e, f, g, h] + rest, 0) == (9, Some(Join(f, e)))
    ensures HeaderIn([0x01, 0x88, s, a, b, c, d, e, f, g, h] + rest, 0) == (11, Some(Join(h, g)))
    ensures HeaderIn([0x41, 0x8C, s, a, b, c, d, e, f, g, h] + rest, 0) == (7, Some(Join(d, c)))
  {
    hide Join;
    FcfKinds();
  }

  /** And with a long source address, of which it reads nothing but a PAN, or with no addresses. */
  lemma OtherHeaders(s: bv8, a: bv8, b: bv8, c: bv8, d: bv8, e: bv8, f: bv8, g: bv8, h: bv8, rest: seq<bv8>)
    ensures HeaderIn([0x41, 0xC8, s, a, b, c, d, e, f, g, h] + rest, 0) == (7, None)
    ensures HeaderIn([0x01, 0xC8, s, a, b, c, d, e, f, g, h] + rest, 0) == (9, None)
    ensures HeaderIn([0x01, 0x00, s, a, b, c, d, e, f, g, h] + rest, 0) == (3, None)
  {
    hide Join;
    FcfKinds();
  }

  lemma FcfKinds()
    ensures Join(0x88, 0x41) == 0x8841 && Join(0x88, 0x01) == 0x8801 && Join(0x8C, 0x41) == 0x8C41
    ensures Join(0xC8, 0x41) == 0xC841 && Join(0xC8, 0x01) == 0xC801 && Join(0x00, 0x01) == 0x0001
  {}

  /** Every payload of at most 116 octets, with either acknowledgement setting and any addresses, is read back
      with its length and the sender's address, whatever frame check sequence the radio adds. */
  lemma FrameRoundTrip(tx: TxFrame, st: Station, fcs: seq<bv8>)
    requires |tx.payload| <= 116
    ensures FrameIn(FrameOut(tx, st, fcs), 0) == (tx.payload, Some(st.shortAddress))
  {
    hide HeaderOut, HeaderIn, Octet, OctetValue, Stretch;
    var length := LengthOctet(|tx.payload|);
    var buffer := FrameOut(tx, st, fcs);
    OctetReads(length);
    assert buffer == [Octet(length)] + HeaderOut(tx, st) + (tx.payload + fcs);
    HeaderThrough(Octet(length), tx, st, tx.payload + fcs);
    assert buffer[10..10 + |tx.payload|] == tx.payload;
    assert Stretch(buffer, 10, |tx.payload|) == tx.payload;
  }

  /** radio_frame_write stops the processor exactly for lengths from 117 to 244, which radif_send lets through
      from 117 to 127. */
  lemma TooLongIff(length: u8)
    ensures LengthOctet(length) > MAX_MPDU <==> 117 <= length <= 244
  {}

  /** The computed data length fits the 127-octet slot of the receiver exactly when the frame is long enough for
      its header and check sequence. */
  lemma DataLengthFitsIff(mpduLen: u8, headerLen: nat)
    requires mpduLen <= MAX_MPDU && headerLen <= 11
    ensures DataLength(mpduLen, headerLen) <= 127 <==> mpduLen >= headerLen + FCS_LEN
    ensures mpduLen >= headerLen + FCS_LEN ==> DataLength(mpduLen, headerLen) == mpduLen - headerLen - FCS_LEN
  {}

  lemma FrameInPieces(before: seq<bv8>, tx: TxFrame, st: Station)
    ensures before + FrameOut(tx, st, [BLANK, BLANK])
         == before + [Octet(LengthOctet(|tx.payload|))] + HeaderOut(tx, st) + tx.payload + [BLANK] + [BLANK]
  {
    hide Octet, HeaderOut;
  }

  /** What is sent while reading. */
  function Blanks(n: nat): (s: seq<bv8>)
    ensures |s| == n
  {
    seq(n, _ => 0x00)
  }

  lemma BlanksAdd(before: seq<bv8>, a: nat, b: nat)
    ensures before + Blanks(a) + Blanks(b) == before + Blanks(a + b)
    ensures before + Blanks(a) + [BLANK] == before + Blanks(a + 1)
  {}

  // ---------------------------------------------------------------- the code

  /** The part of struct radif the frame functions use: the addresses and the SPI connection, with the octets sent
      over it so far and the octets the radio will answer with. */
  class Link {
    const panId: bv16
    const shortAddress: bv16
    var sequence: bv8
    var sent: seq<bv8>
    var incoming: seq<bv8>
    var cursor: nat

    constructor (panId: bv16, shortAddress: bv16, incoming: seq<bv8>)
      ensures this.panId == panId && this.shortAddress == shortAddress && this.incoming == incoming
      ensures sequence == 0 && sent == [] && cursor == 0
    {
      this.panId, this.shortAddress, this.sequence := panId, shortAddress, 0;
      this.sent, this.incoming, this.cursor := [], incoming, 0;
    }

    function ToStation(): Station
      reads this
    {
      Station(panId, shortAddress, sequence)
    }

    method SpiXfer(octet: bv8) returns (answer: bv8)
      modifies this`sent, this`cursor
      ensures sent == old(sent) + [octet] && cursor == old(cursor) + 1 && answer == At(incoming, old(cursor))
    {
      sent := sent + [octet];
      answer := At(incoming, cursor);
      cursor := cursor + 1;
    }

    /** write_spi_word */
    method WriteSpiWord(word: bv16)
      modifies this`sent, this`cursor
      ensures sent == old(sent) + WordOut(word)
    {
      var _ := SpiXfer((word & 0xFF) as bv8);
      var _ := SpiXfer(((word >> 8) & 0xFF) as bv8);
    }

    /** read_spi_word */
    method ReadSpiWord() returns (word: bv16)
      modifies this`sent, this`cursor
      ensures cursor == old(cursor) + 2 && word == WordIn(incoming, old(cursor)) && sent == old(sent) + Blanks(2)
    {
      hide Join;
      var lsb := SpiXfer(BLANK);
      var msb := SpiXfer(BLANK);
      word := Join(msb, lsb);
    }

    /** write_out_ieee_header, which also moves the sequence number on */
    method WriteOutIeeeHeader(tx: TxFrame)
      modifies this`sent, this`cursor, this`sequence
      ensures sent == old(sent) + HeaderOut(tx, old(ToStation()))
      ensures sequence == old(sequence) + 1
    {
      hide WordOut, Fcf;
      WriteSpiWord(Fcf(tx.ack));
      var _ := SpiXfer(sequence);
      sequence := sequence + 1;
      WriteSpiWord(panId);
      WriteSpiWord(tx.destination);
      WriteSpiWord(shortAddress);
    }

    /** radio_frame_write, for any 8-bit length. It stops for good on a length that is too long; `completed` says
        that it did not. */
    method RadioFrameWrite(tx: TxFrame) returns (completed: bool)
      requires |tx.payload| <= 0xFF
      modifies this`sent, this`cursor, this`sequence
      ensures completed <==> !(117 <= |tx.payload| <= 244)
      ensures completed ==>
                && sent == old(sent) + [RADIO_SPI_CMD_FW] + FrameOut(tx, old(ToStation()), [BLANK, BLANK])
                && sequence == old(sequence) + 1
      ensures !completed ==>
                && sent == old(sent) + [RADIO_SPI_CMD_FW] + [Octet(LengthOctet(|tx.payload|))]
                && sequence == old(sequence)
    {
      hide HeaderOut, Octet, FrameOut;
      TooLongIff(|tx.payload|);
      FrameInPieces(sent + [RADIO_SPI_CMD_FW], tx, ToStation());
      var len := LengthOctet(|tx.payload|);
      var _ := SpiXfer(RADIO_SPI_CMD_FW);
      var _ := SpiXfer(Octet(len));
      if len > MAX_MPDU { return false; }
      WriteOutIeeeHeader(tx);
      WritePayload(tx.payload);
      var _ := SpiXfer(BLANK);
      var _ := SpiXfer(BLANK);
      return true;
    }

    /** The loop of radio_frame_write over the payload. */
    method WritePayload(payload: seq<bv8>)
      modifies this`sent, this`cursor
      ensures sent == old(sent) + payload
    {
      var i := 0;
      while i < |payload|
        invariant 0 <= i <= |payload|
        invariant sent == old(sent) + payload[..i]
      {
        var _ := SpiXfer(payload[i]);
        assert payload[..i + 1] == payload[..i] + [payload[i]];
        i := i + 1;
      }
      assert payload[..|payload|] == payload;
    }

    /** read_in_ieee_header, with the frame from `cursor` on */
    method ReadInIeeeHeader() returns (read: nat, source: Option<bv16>)
      modifies this`sent, this`cursor
      ensures (read, source) == HeaderIn(incoming, old(cursor))
      ensures cursor == old(cursor) + read && sent == old(sent) + Blanks(read)
    {
      hide WordIn, Blanks;
      ghost var before := sent;
      BlanksAdd(before, 2, 0); BlanksAdd(before, 3, 2); BlanksAdd(before, 5, 2);
      BlanksAdd(before, 7, 2); BlanksAdd(before, 9, 2);
      var fcf := ReadSpiWord();
      var compressed := fcf & FCF_PAN_ID_COMPRESSION != 0;
      var destinationMode, sourceMode := (fcf >> 10) & 3, (fcf >> 14) & 3;
      var _ := SpiXfer(BLANK);
      read, source := 3, None;
      if destinationMode == ADDRESS_16BIT {
        var _ := ReadSpiWord();
        var _ := ReadSpiWord();
        read := read + 4;
      } else if destinationMode == ADDRESS_64BIT {
        var _ := ReadSpiWord();
        read := read + 2;
      }
      if sourceMode == ADDRESS_16BIT {
        if !compressed {
          var _ := ReadSpiWord();
          read := read + 2;
        }
        var address := ReadSpiWord();
        source := Some(address);
        read := read + 2;
      } else if sourceMode == ADDRESS_64BIT {
        if !compressed {
          var _ := ReadSpiWord();
          read := read + 2;
        }
      }
    }

    /** radio_frame_read, into the data of a receive slot. `overrun` says that the length computed is more than the
        slot holds; what is then written behind the slot is not described. */
    method RadioFrameRead(slot: array<bv8>) returns (length: u8, source: Option<bv16>, overrun: bool)
      requires slot.Length == 127
      modifies this`sent, this`cursor, slot
      ensures var (data, address) := FrameIn(incoming, old(cursor) + 1);
              && length == |data| && source == address
              && (overrun <==> length > 127)
              && (forall i :: 0 <= i < 127 ==> slot[i] == if i < length then data[i] else old(slot[i]))
      ensures sent == old(sent) + [0x20] + Blanks(1 + HeaderIn(incoming, old(cursor) + 2).0 + length)
    {
      hide HeaderIn, OctetValue, Stretch, DataLength;
      var _ := SpiXfer(RADIO_SPI_CMD_FR);
      var mpduLen := SpiXfer(BLANK);
      var read;
      read, source := ReadInIeeeHeader();
      length := DataLength(OctetValue(mpduLen), read);
      overrun := ReadData(slot, length);
    }

    /** The loop of radio_frame_read over the data. */
    method ReadData(slot: array<bv8>, length: u8) returns (overrun: bool)
      modifies this`sent, this`cursor, slot
      ensures (overrun <==> length > slot.Length) && sent == old(sent) + Blanks(length)
      ensures var data := Stretch(incoming, old(cursor), length);
              forall k :: 0 <= k < slot.Length ==> slot[k] == if k < length then data[k] else old(slot[k])
    {
      hide Stretch;
      overrun := false;
      var i := 0;
      while i < length
        invariant 0 <= i <= length && cursor == old(cursor) + i && (overrun <==> i > slot.Length)
        invariant sent == old(sent) + Blanks(i)
        invariant forall k :: 0 <= k < slot.Length ==>
                    slot[k] == if k < i then At(incoming, old(cursor) + k) else old(slot[k])
      {
        var octet := SpiXfer(BLANK);
        if i < slot.Length { slot[i] := octet; } else { overrun := true; }
        i := i + 1;
      }
    }
  }
}
