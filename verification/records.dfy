/** Where records come from: the gateway's own samples (src/memory/write.c) and the frames uploaded by radio
    (src/frame_processor.c). */
module Records {
  import opened Common
  import opened Checksum
  import opened Crc32
  import opened CircularLog
  import opened IndexPage
  import opened Clock
  import opened OctetBits
  import HttpTx
  import IeeeFrame
  import Memory

  function SampleData(flags: u32, time: u64, left: u32, right: u32): (d: seq<bv8>)
    ensures |d| == DATA_SIZE
  {
    WordOctets(flags) + WordOctets(time % TWO_32) + WordOctets(time / TWO_32) + WordOctets(left) + WordOctets(right)
  }

  /** The record write_sample_to_mem builds. */
  function SampleRecord(flags: u32, time: u64, left: u32, right: u32): Record {
    SampleData(flags, time, left, right) + Octets(Crc(SampleData(flags, time, left, right)))
  }

  lemma LowOctet(w: nat)
    ensures w == w % 0x100 + 0x100 * (w / 0x100)
  {}

  lemma WordReads(r: Record, i: nat, w: u32)
    requires i < 6 && r[4 * i..4 * i + 4] == WordOctets(w)
    ensures HttpTx.WordAt(r, i) == w
  {
    hide Octet, OctetValue;
    var o := r[4 * i..4 * i + 4];
    assert o[0] == r[4 * i] && o[1] == r[4 * i + 1] && o[2] == r[4 * i + 2] && o[3] == r[4 * i + 3];
    OctetReads(w % 0x100);
    var h1 := w / 0x100; var h2 := h1 / 0x100; var h3 := h2 / 0x100;
    OctetReads(h1 % 0x100);
    OctetReads(h2 % 0x100);
    OctetReads(h3);
    LowOctet(w);
    LowOctet(h1);
    LowOctet(h2);
  }

  lemma {:induction false} WordsInOrder(words: seq<u32>, i: nat)
    requires i < |words|
    ensures WordsOctets(words)[4 * i..4 * i + 4] == WordOctets(words[i])
    decreases i
  {
    hide WordOctets;
    if i > 0 {
      WordsInOrder(words[1..], i - 1);
      var a, b := WordOctets(words[0]), WordsOctets(words[1..]);
      assert (a + b)[4 * i..4 * i + 4] == b[4 * (i - 1)..4 * (i - 1) + 4];
    }
  }

  /** Read as a record, the index page gives its own words. */
  lemma PageReadsAsItsWords(p: Page, i: nat)
    requires i < 6
    ensures HttpTx.WordAt(PageRecord(p), i) == p[i]
  {
    hide WordOctets, HttpTx.WordAt, WordsOctets;
    WordsInOrder(p[..6], i);
    WordReads(PageRecord(p), i, p[i]);
  }

  /** A sample written by the gateway passes the checksum test, and an upload of it reports exactly the time and
      the values it was written with. */
  lemma SampleIsReported(flags: u32, time: u64, left: u32, right: u32)
    ensures var r := SampleRecord(flags, time, left, right);
            && Evaluate(r)
            && HttpTx.TimeOf(r) == time
            && HttpTx.WordAt(r, 0) == flags && HttpTx.WordAt(r, 3) == left && HttpTx.WordAt(r, 4) == right
  {
    hide Octets, Crc, Evaluate, WordOctets, HttpTx.WordAt;
    var d := SampleData(flags, time, left, right);
    var r := SampleRecord(flags, time, left, right);
    SealedEvaluates(d);
    assert r[0..4] == WordOctets(flags) && r[4..8] == WordOctets(time % TWO_32)
           && r[8..12] == WordOctets(time / TWO_32);
    assert r[12..16] == WordOctets(left) && r[16..20] == WordOctets(right);
    WordReads(r, 0, flags);
    WordReads(r, 1, time % TWO_32);
    WordReads(r, 2, time / TWO_32);
    WordReads(r, 3, left);
    WordReads(r, 4, right);
  }

  /** write_sample_to_mem, at timer value `clock.timer` */
  method WriteSampleToMem(flags: u32, left: u32, right: u32, timeAgo: u32, clock: Clock, memory: Memory.Memory)
    returns (ghost time: u64, ghost stored: bool)
    requires memory.Valid()
    modifies clock`currentTime, memory`disk, memory`writeIndex, memory`page, memory`lastWriteTime, memory.indexesBuf
    ensures clock.currentTime == Polled(old(clock.currentTime), clock.timer)
    ensures time == (clock.currentTime.Value() - timeAgo) % TWO_64
    ensures (memory.Value(), stored) == old(memory.Value()).Put(SampleRecord(flags, time, left, right))
    ensures memory.lastWriteTime == if stored then clock.timer else old(memory.lastWriteTime)
  {
    hide Octets, Crc, WordOctets;
    var now := clock.GetCurrentTime();
    var t: u64 := (now - timeAgo) % TWO_64;
    time := t;
    var block := SampleData(flags, t, left, right);
    var checksum := CalculateChecksum(block);
    assert block[..DATA_SIZE] == block;
    var ok := memory.PutSample(block + Octets(checksum), clock.timer);
    stored := ok;
  }

  // ---------------------------------------------------------------- uploaded frames

  type FrameData = d: seq<bv8> | |d| == 0x7F witness seq(0x7F, _ => 0)

  /** struct rx_frame */
  datatype RxFrame = RxFrame(data: FrameData, length: u8, source: bv16)

  /** The record a frame carries behind its type octet and memory address. The copy is always 24 octets. */
  function Carried(rx: RxFrame): Record {
    rx.data[5..29]
  }

  /** get_memory_address_from_rx */
  function MemoryAddress(rx: RxFrame): bv32 {
    Joined(rx.data[1], rx.data[2], rx.data[3], rx.data[4])
  }

  /** block_uploaded accepts the frame: 24 octets or more, and the record passes the checksum test. */
  predicate Acceptable(rx: RxFrame) {
    rx.length as int >= RECORD_SIZE && Evaluate(Carried(rx))
  }

  /** Which frames are accepted, from their octets alone: 24 octets or more, and a checksum register that ends in the
      residue over the octets behind the address. */
  lemma AcceptedIff(rx: RxFrame)
    ensures Acceptable(rx) <==> rx.length >= 24 && TableRun(ALL_ONES, rx.data[5..29]) == 0xDEBB20E3
  {
    hide Evaluate, TableRun;
    EvaluatesIffResidue(rx.data[5..29]);
  }

  /** In particular every frame of 24 octets or more that carries sealed data behind its address. */
  lemma SealedFrameAccepted(rx: RxFrame, data: seq<bv8>)
    requires |data| == 20 && rx.data[5..29] == data + Octets(Crc(data)) && rx.length >= 24
    ensures Acceptable(rx) && Carried(rx) == data + Octets(Crc(data))
  {
    hide Evaluate, Octets, Crc;
    SealedEvaluates(data);
  }

  lemma WordEchoed(a: bv8, b: bv8, c: bv8, d: bv8)
    ensures Octets(Joined(a, b, c, d)) == [a, b, c, d]
  {}

  /** The acknowledgement of a frame: back to its sender, asking for an acknowledgement in turn, with the frame's own
      address and checksum octets. */
  function Acknowledgement(rx: RxFrame): IeeeFrame.TxFrame {
    IeeeFrame.TxFrame([0x41] + rx.data[1..5] + rx.data[25..29], rx.source, true)
  }

  /** block_uploaded with send_upload_ack. An acceptable frame is acknowledged and put into the log; anything else
      leaves the log alone. The acknowledgement does not wait for the put: a frame that finds the log full is
      acknowledged and lost. */
  method BlockUploaded(rx: RxFrame, memory: Memory.Memory, now: u32)
    returns (ack: Option<IeeeFrame.TxFrame>, ghost stored: bool)
    requires memory.Valid()
    modifies memory`disk, memory`writeIndex, memory`page, memory`lastWriteTime, memory.indexesBuf
    ensures ack == if Acceptable(rx) then Some(Acknowledgement(rx)) else None
    ensures Acceptable(rx) ==> (memory.Value(), stored) == old(memory.Value()).Put(Carried(rx))
    ensures !Acceptable(rx) ==> memory.Value() == old(memory.Value()) && !stored
    ensures memory.lastWriteTime == if stored then now else old(memory.lastWriteTime)
  {
    hide Octets, Crc, GetChecksum, MemoryAddress;
    ack, stored := None, false;
    if rx.length as int >= RECORD_SIZE {
      var record := rx.data[5..29];
      var actual := CalculateChecksum(record);
      if GetChecksum(record) == actual {
        var address, checksum := MemoryAddress(rx), GetChecksum(record);
        ack := Some(IeeeFrame.TxFrame([0x41] + Octets(address) + Octets(checksum), rx.source, true));
        EchoedOctets(rx);
        var ok := memory.PutSample(record, now);
        stored := ok;
      }
    }
  }

  /** Octet by octet: the letter A, the address and the checksum, nine in all. */
  lemma AcknowledgementOctets(rx: RxFrame)
    ensures var a := Acknowledgement(rx);
            && |a.payload| == 9 && a.payload[0] == 0x41 && a.destination == rx.source && a.ack
            && a.payload[1..5] == rx.data[1..5] && a.payload[5..9] == rx.data[25..29]
  {}

  lemma EchoedOctets(rx: RxFrame)
    ensures Octets(MemoryAddress(rx)) == rx.data[1..5] && Octets(GetChecksum(Carried(rx))) == rx.data[25..29]
  {
    hide Octets, MemoryAddress, GetChecksum;
    var d, r := rx.data, Carried(rx);
    AddressEchoed(rx);
    ChecksumEchoed(r);
    assert d[25..29] == r[20..];
  }

  lemma AddressEchoed(rx: RxFrame)
    ensures Octets(MemoryAddress(rx)) == rx.data[1..5]
  {
    hide Octets, Joined;
    WordEchoed(rx.data[1], rx.data[2], rx.data[3], rx.data[4]);
    assert rx.data[1..5] == [rx.data[1], rx.data[2], rx.data[3], rx.data[4]];
  }

  lemma ChecksumEchoed(r: Record)
    ensures Octets(GetChecksum(r)) == r[20..]
  {
    hide Octets, Joined;
    WordEchoed(r[20], r[21], r[22], r[23]);
    assert r[20..] == [r[20], r[21], r[22], r[23]];
  }

  /** An acknowledged record is kept exactly when the log has room: from then on it is the newest record stored. */
  lemma AcknowledgedIffStoredUnlessFull(log: Log, all: seq<Record>, taken: nat, rx: RxFrame)
    requires Stores(log, all, taken) && Acceptable(rx)
    ensures log.Put(Carried(rx)).1 <==> |all| - taken < log.n
    ensures |all| - taken < log.n ==> Stores(log.Put(Carried(rx)).0, all + [Carried(rx)], taken)
    ensures |all| - taken == log.n ==> log.Put(Carried(rx)).0 == log
  {
    PutRefines(log, all, taken, Carried(rx));
  }
}
