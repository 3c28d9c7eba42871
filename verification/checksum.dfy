/** The record checksum of src/memory/checksum.c: a CRC-32 over the first twenty octets of a record, stored
    little-endian in the last four. */
module Checksum {
  import opened Crc32

  const RECORD_SIZE := 24
  const DATA_SIZE := 20

  /** The register left by every record whose stored checksum is right. */
  const RESIDUE: bv32 := 0xDEBB20E3

  type Record = r: seq<bv8> | |r| == 24 witness seq(24, _ => 0)

  /** The CRC-32 of RFC 1952: the bit-serial register, started and finished with all ones. */
  function Crc(data: seq<bv8>): bv32 {
    Xor(SerialRun(ALL_ONES, data), ALL_ONES)
  }

  /** calculate_checksum: the table-driven loop computes the bit-serial CRC-32 of the data octets. */
  method CalculateChecksum(record: seq<bv8>) returns (checksum: bv32)
    requires |record| >= DATA_SIZE
    ensures checksum == Crc(record[..DATA_SIZE])
  {
    hide TableStep, SerialRun, Xor;
    checksum := ALL_ONES;
    var i := 0;
    while i < DATA_SIZE
      invariant 0 <= i <= DATA_SIZE
      invariant checksum == TableRun(ALL_ONES, record[..i])
    {
      RunConcat(ALL_ONES, record[..i], [record[i]]);
      assert record[..i + 1] == record[..i] + [record[i]];
      assert TableRun(checksum, [record[i]]) == TableStep(checksum, record[i]);
      checksum := TableStep(checksum, record[i]);
      i := i + 1;
    }
    TableRunIsSerialRun(ALL_ONES, record[..DATA_SIZE]);
    checksum := Xor(checksum, ALL_ONES);
  }

  /** Four octets as a little-endian word. */
  function Joined(a: bv8, b: bv8, c: bv8, d: bv8): bv32 {
    a as bv32 | (b as bv32 << 8) | (c as bv32 << 16) | (d as bv32 << 24)
  }

  /** get_checksum */
  function GetChecksum(record: Record): bv32 {
    Joined(record[20], record[21], record[22], record[23])
  }

  /** evaluate_checksum */
  predicate Evaluate(record: Record) {
    GetChecksum(record) == Crc(record[..DATA_SIZE])
  }

  /** A 32-bit word as the processor stores it. */
  function Octets(w: bv32): (o: seq<bv8>)
    ensures |o| == 4
  {
    [(w & 0xFF) as bv8, ((w >> 8) & 0xFF) as bv8, ((w >> 16) & 0xFF) as bv8, ((w >> 24) & 0xFF) as bv8]
  }

  lemma OctetsOfWord(w: bv32)
    ensures Joined(Octets(w)[0], Octets(w)[1], Octets(w)[2], Octets(w)[3]) == w
  {}

  /** Storing the computed checksum behind the data makes a record that evaluates. */
  lemma SealedEvaluates(data: seq<bv8>)
    requires |data| == DATA_SIZE
    ensures Evaluate(data + Octets(Crc(data)))
  {
    hide Crc, Octets, Joined;
    var r: Record := data + Octets(Crc(data));
    assert r[..DATA_SIZE] == data;
    OctetsOfWord(Crc(data));
  }

  lemma FourOctets(a: bv8, b: bv8, c: bv8, d: bv8)
    ensures Xor(Widen(a), Up(Xor(Widen(b), Up(Xor(Widen(c), Up(Xor(Widen(d), Up(0))))))))
         == Joined(a, b, c, d)
  {}

  lemma GetChecksumIsWord(record: Record)
    ensures GetChecksum(record) == Word(record[20..])
  {
    hide Xor, Widen, Up, Joined;
    var w := record[20..];
    assert w[1..] == record[21..] && record[21..][1..] == record[22..] && record[22..][1..] == record[23..];
    assert Word(record[23..]) == Xor(Widen(record[23]), Up(0));
    assert Word(record[22..]) == Xor(Widen(record[22]), Up(Word(record[23..])));
    assert Word(record[21..]) == Xor(Widen(record[21]), Up(Word(record[22..])));
    FourOctets(record[20], record[21], record[22], record[23]);
  }

  lemma XorTwice(c: bv32)
    ensures Xor(c, Xor(c, ALL_ONES)) == ALL_ONES
  {}

  lemma ComplementMeets(c: bv32, w: bv32)
    ensures w == Xor(c, ALL_ONES) <==> Xor(c, w) == ALL_ONES
  {
    hide Xor;
    XorTwice(c);
    if Xor(c, w) == ALL_ONES {
      XorCancelLeft(c, w, Xor(c, ALL_ONES));
    }
  }

  lemma ResidueOfAllOnes()
    ensures Shift8Times(ALL_ONES, 4) == RESIDUE
  {}

  /** A record evaluates exactly when the register run over all its 24 octets, checksum included, ends in
      one fixed residue. */
  lemma EvaluatesIffResidue(record: Record)
    ensures Evaluate(record) <==> TableRun(ALL_ONES, record) == RESIDUE
  {
    hide Xor, Word, TableRun, SerialRun, GetChecksum, Shift8Times;
    var data, stored := record[..20], record[20..];
    var c := TableRun(ALL_ONES, data);
    assert record == data + stored;
    RunConcat(ALL_ONES, data, stored);
    TableRunIsSerialRun(ALL_ONES, data);
    WindowRun(c, stored);
    GetChecksumIsWord(record);
    ComplementMeets(c, Word(stored));
    ResidueOfAllOnes();
    if Shift8Times(Xor(c, Word(stored)), 4) == RESIDUE {
      Shift8TimesInjective(Xor(c, Word(stored)), ALL_ONES, 4);
    }
  }

  /** Damage confined to any four consecutive octets, of the data, of the checksum or across both, is
      always noticed. */
  lemma DamageDetected(good: Record, bad: Record, k: nat)
    requires k <= |good|
    requires forall i :: 0 <= i < |good| && !(k <= i < k + 4) ==> good[i] == bad[i]
    requires Evaluate(good) && good != bad
    ensures !Evaluate(bad)
  {
    hide TableRun, Evaluate;
    EvaluatesIffResidue(good);
    EvaluatesIffResidue(bad);
    var e := if k + 4 <= |good| then k + 4 else |good|;
    assert good[..k] == bad[..k] && good[e..] == bad[e..];
    assert good == good[..k] + good[k..e] + good[e..];
    assert bad == good[..k] + bad[k..e] + good[e..];
    if TableRun(ALL_ONES, bad) == RESIDUE {
      BurstDetected(ALL_ONES, good[..k], good[k..e], bad[k..e], good[e..]);
    }
  }
}
