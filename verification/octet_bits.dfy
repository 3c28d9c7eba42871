/** Octets as numbers: the value of an octet is the sum of its bits. The record checksum works on bits and the
    text encoder on numbers; this is where the two meet. */
module OctetBits {
  import opened Common

  function OctetValue(b: bv8): u8 {
    (if b & 0x01 == 0 then 0 else 1) + (if b & 0x02 == 0 then 0 else 2)
    + (if b & 0x04 == 0 then 0 else 4) + (if b & 0x08 == 0 then 0 else 8)
    + (if b & 0x10 == 0 then 0 else 16) + (if b & 0x20 == 0 then 0 else 32)
    + (if b & 0x40 == 0 then 0 else 64) + (if b & 0x80 == 0 then 0 else 128)
  }

  function FromBits(b0: bool, b1: bool, b2: bool, b3: bool, b4: bool, b5: bool, b6: bool, b7: bool): bv8 {
    (if b0 then 0x01 else 0) | (if b1 then 0x02 else 0) | (if b2 then 0x04 else 0) | (if b3 then 0x08 else 0)
    | (if b4 then 0x10 else 0) | (if b5 then 0x20 else 0) | (if b6 then 0x40 else 0) | (if b7 then 0x80 else 0)
  }

  predicate Odd(x: u8) { x % 2 == 1 }

  function Half(x: u8): u8 { x / 2 }

  /** The octet with a given value. */
  function Octet(x0: u8): bv8 {
    var x1 := Half(x0); var x2 := Half(x1); var x3 := Half(x2); var x4 := Half(x3);
    var x5 := Half(x4); var x6 := Half(x5); var x7 := Half(x6);
    FromBits(Odd(x0), Odd(x1), Odd(x2), Odd(x3), Odd(x4), Odd(x5), Odd(x6), Odd(x7))
  }

  /** The four octets of a word as the processor stores it. */
  function WordOctets(w: u32): (o: seq<bv8>)
    ensures |o| == 4
  {
    var h1 := w / 0x100; var h2 := h1 / 0x100; var h3 := h2 / 0x100;
    [Octet(w % 0x100), Octet(h1 % 0x100), Octet(h2 % 0x100), Octet(h3)]
  }

  /** Words in memory order. */
  function WordsOctets(words: seq<u32>): (o: seq<bv8>)
    ensures |o| == 4 * |words|
    decreases |words|
  {
    if words == [] then [] else WordOctets(words[0]) + WordsOctets(words[1..])
  }

  function One(b: bool): u8 { if b then 1 else 0 }

  function Nibble(b0: bool, b1: bool, b2: bool, b3: bool): u8 { One(b0) + 2 * One(b1) + 4 * One(b2) + 8 * One(b3) }

  lemma BitsRead(b0: bool, b1: bool, b2: bool, b3: bool, b4: bool, b5: bool, b6: bool, b7: bool)
    ensures OctetValue(FromBits(b0, b1, b2, b3, b4, b5, b6, b7))
         == Nibble(b0, b1, b2, b3) + 16 * Nibble(b4, b5, b6, b7)
  {}

  lemma Halves(x: u8)
    ensures x == 2 * Half(x) + One(Odd(x))
  {}

  lemma FourHalves(x0: u8)
    ensures var x1 := Half(x0); var x2 := Half(x1); var x3 := Half(x2);
            && x0 == 16 * Half(x3) + Nibble(Odd(x0), Odd(x1), Odd(x2), Odd(x3))
            && Half(x3) < 16 && (x0 < 16 ==> Half(x3) == 0)
  {
    hide Odd, Half, One;
    var x1 := Half(x0); var x2 := Half(x1); var x3 := Half(x2);
    Halves(x0); Halves(x1); Halves(x2); Halves(x3);
  }

  lemma OctetReads(x0: u8)
    ensures OctetValue(Octet(x0)) == x0
  {
    hide OctetValue, FromBits, Odd, Half, Nibble;
    var x1 := Half(x0); var x2 := Half(x1); var x3 := Half(x2); var x4 := Half(x3);
    var x5 := Half(x4); var x6 := Half(x5); var x7 := Half(x6);
    FourHalves(x0);
    FourHalves(x4);
    BitsRead(Odd(x0), Odd(x1), Odd(x2), Odd(x3), Odd(x4), Odd(x5), Odd(x6), Odd(x7));
  }
}
