/** The CRC-32 of src/memory/checksum.c: the 256-entry table, the one-byte step that uses it, and the
    bit-serial shift register of RFC 1952 (section 8) that the step must agree with.

    The word operations that the proofs treat as uninterpreted (Xor, Low, High, Down) are named, so that
    a lemma can `hide` them and reason with equations only. */
module Crc32 {

  const POLYNOMIAL: bv32 := 0xEDB88320
  const ALL_ONES: bv32 := 0xFFFFFFFF

  // ---------------------------------------------------------------- the table

  /** Selects one of the eight entries of a table row by the low three bits of the index. */
  function Pick(i: bv8, e0: bv32, e1: bv32, e2: bv32, e3: bv32, e4: bv32, e5: bv32, e6: bv32, e7: bv32): bv32 {
    if i & 4 == 0 then
      if i & 2 == 0 then (if i & 1 == 0 then e0 else e1) else (if i & 1 == 0 then e2 else e3)
    else
      if i & 2 == 0 then (if i & 1 == 0 then e4 else e5) else (if i & 1 == 0 then e6 else e7)
  }

  function Quarter0(i: bv8): bv32 {
    match (i >> 3) & 7
    case 0 => Pick(i, 0x00000000, 0x77073096, 0xEE0E612C, 0x990951BA, 0x076DC419, 0x706AF48F, 0xE963A535, 0x9E6495A3)
    case 1 => Pick(i, 0x0EDB8832, 0x79DCB8A4, 0xE0D5E91E, 0x97D2D988, 0x09B64C2B, 0x7EB17CBD, 0xE7B82D07, 0x90BF1D91)
    case 2 => Pick(i, 0x1DB71064, 0x6AB020F2, 0xF3B97148, 0x84BE41DE, 0x1ADAD47D, 0x6DDDE4EB, 0xF4D4B551, 0x83D385C7)
    case 3 => Pick(i, 0x136C9856, 0x646BA8C0, 0xFD62F97A, 0x8A65C9EC, 0x14015C4F, 0x63066CD9, 0xFA0F3D63, 0x8D080DF5)
    case 4 => Pick(i, 0x3B6E20C8, 0x4C69105E, 0xD56041E4, 0xA2677172, 0x3C03E4D1, 0x4B04D447, 0xD20D85FD, 0xA50AB56B)
    case 5 => Pick(i, 0x35B5A8FA, 0x42B2986C, 0xDBBBC9D6, 0xACBCF940, 0x32D86CE3, 0x45DF5C75, 0xDCD60DCF, 0xABD13D59)
    case 6 => Pick(i, 0x26D930AC, 0x51DE003A, 0xC8D75180, 0xBFD06116, 0x21B4F4B5, 0x56B3C423, 0xCFBA9599, 0xB8BDA50F)
    case _ => Pick(i, 0x2802B89E, 0x5F058808, 0xC60CD9B2, 0xB10BE924, 0x2F6F7C87, 0x58684C11, 0xC1611DAB, 0xB6662D3D)
  }

  function Quarter1(i: bv8): bv32 {
    match (i >> 3) & 7
    case 0 => Pick(i, 0x76DC4190, 0x01DB7106, 0x98D220BC, 0xEFD5102A, 0x71B18589, 0x06B6B51F, 0x9FBFE4A5, 0xE8B8D433)
    case 1 => Pick(i, 0x7807C9A2, 0x0F00F934, 0x9609A88E, 0xE10E9818, 0x7F6A0DBB, 0x086D3D2D, 0x91646C97, 0xE6635C01)
    case 2 => Pick(i, 0x6B6B51F4, 0x1C6C6162, 0x856530D8, 0xF262004E, 0x6C0695ED, 0x1B01A57B, 0x8208F4C1, 0xF50FC457)
    case 3 => Pick(i, 0x65B0D9C6, 0x12B7E950, 0x8BBEB8EA, 0xFCB9887C, 0x62DD1DDF, 0x15DA2D49, 0x8CD37CF3, 0xFBD44C65)
    case 4 => Pick(i, 0x4DB26158, 0x3AB551CE, 0xA3BC0074, 0xD4BB30E2, 0x4ADFA541, 0x3DD895D7, 0xA4D1C46D, 0xD3D6F4FB)
    case 5 => Pick(i, 0x4369E96A, 0x346ED9FC, 0xAD678846, 0xDA60B8D0, 0x44042D73, 0x33031DE5, 0xAA0A4C5F, 0xDD0D7CC9)
    case 6 => Pick(i, 0x5005713C, 0x270241AA, 0xBE0B1010, 0xC90C2086, 0x5768B525, 0x206F85B3, 0xB966D409, 0xCE61E49F)
    case _ => Pick(i, 0x5EDEF90E, 0x29D9C998, 0xB0D09822, 0xC7D7A8B4, 0x59B33D17, 0x2EB40D81, 0xB7BD5C3B, 0xC0BA6CAD)
  }

  function Quarter2(i: bv8): bv32 {
    match (i >> 3) & 7
    case 0 => Pick(i, 0xEDB88320, 0x9ABFB3B6, 0x03B6E20C, 0x74B1D29A, 0xEAD54739, 0x9DD277AF, 0x04DB2615, 0x73DC1683)
    case 1 => Pick(i, 0xE3630B12, 0x94643B84, 0x0D6D6A3E, 0x7A6A5AA8, 0xE40ECF0B, 0x9309FF9D, 0x0A00AE27, 0x7D079EB1)
    case 2 => Pick(i, 0xF00F9344, 0x8708A3D2, 0x1E01F268, 0x6906C2FE, 0xF762575D, 0x806567CB, 0x196C3671, 0x6E6B06E7)
    case 3 => Pick(i, 0xFED41B76, 0x89D32BE0, 0x10DA7A5A, 0x67DD4ACC, 0xF9B9DF6F, 0x8EBEEFF9, 0x17B7BE43, 0x60B08ED5)
    case 4 => Pick(i, 0xD6D6A3E8, 0xA1D1937E, 0x38D8C2C4, 0x4FDFF252, 0xD1BB67F1, 0xA6BC5767, 0x3FB506DD, 0x48B2364B)
    case 5 => Pick(i, 0xD80D2BDA, 0xAF0A1B4C, 0x36034AF6, 0x41047A60, 0xDF60EFC3, 0xA867DF55, 0x316E8EEF, 0x4669BE79)
    case 6 => Pick(i, 0xCB61B38C, 0xBC66831A, 0x256FD2A0, 0x5268E236, 0xCC0C7795, 0xBB0B4703, 0x220216B9, 0x5505262F)
    case _ => Pick(i, 0xC5BA3BBE, 0xB2BD0B28, 0x2BB45A92, 0x5CB36A04, 0xC2D7FFA7, 0xB5D0CF31, 0x2CD99E8B, 0x5BDEAE1D)
  }

  function Quarter3(i: bv8): bv32 {
    match (i >> 3) & 7
    case 0 => Pick(i, 0x9B64C2B0, 0xEC63F226, 0x756AA39C, 0x026D930A, 0x9C0906A9, 0xEB0E363F, 0x72076785, 0x05005713)
    case 1 => Pick(i, 0x95BF4A82, 0xE2B87A14, 0x7BB12BAE, 0x0CB61B38, 0x92D28E9B, 0xE5D5BE0D, 0x7CDCEFB7, 0x0BDBDF21)
    case 2 => Pick(i, 0x86D3D2D4, 0xF1D4E242, 0x68DDB3F8, 0x1FDA836E, 0x81BE16CD, 0xF6B9265B, 0x6FB077E1, 0x18B74777)
    case 3 => Pick(i, 0x88085AE6, 0xFF0F6A70, 0x66063BCA, 0x11010B5C, 0x8F659EFF, 0xF862AE69, 0x616BFFD3, 0x166CCF45)
    case 4 => Pick(i, 0xA00AE278, 0xD70DD2EE, 0x4E048354, 0x3903B3C2, 0xA7672661, 0xD06016F7, 0x4969474D, 0x3E6E77DB)
    case 5 => Pick(i, 0xAED16A4A, 0xD9D65ADC, 0x40DF0B66, 0x37D83BF0, 0xA9BCAE53, 0xDEBB9EC5, 0x47B2CF7F, 0x30B5FFE9)
    case 6 => Pick(i, 0xBDBDF21C, 0xCABAC28A, 0x53B39330, 0x24B4A3A6, 0xBAD03605, 0xCDD70693, 0x54DE5729, 0x23D967BF)
    case _ => Pick(i, 0xB3667A2E, 0xC4614AB8, 0x5D681B02, 0x2A6F2B94, 0xB40BBE37, 0xC30C8EA1, 0x5A05DF1B, 0x2D02EF8D)
  }

  /** The table entry for an octet. */
  function Table(i: bv8): bv32 {
    match i >> 6
    case 0 => Quarter0(i)
    case 1 => Quarter1(i)
    case 2 => Quarter2(i)
    case _ => Quarter3(i)
  }

  // ---------------------------------------------------------------- words

  function Xor(u: bv32, v: bv32): bv32 { u ^ v }

  function Low(c: bv32): bv32 { c & 0xFF }

  function High(c: bv32): bv32 { c & 0xFFFFFF00 }

  function Down(c: bv32): bv32 { c >> 8 }

  function Up(c: bv32): bv32 { c << 8 }

  function Half(c: bv32): bv32 { c >> 1 }

  function Odd(c: bv32): bv32 { c & 1 }

  function Even(c: bv32): bv32 { c & 0xFFFFFFFE }

  function Widen(b: bv8): bv32 { b as bv32 }

  function Index(c: bv32, b: bv8): bv8 { (c & 0xFF) as bv8 ^ b }

  // ---------------------------------------------------------------- the step of the source

  /** One turn of the loop in calculate_checksum. */
  function TableStep(c: bv32, b: bv8): bv32 {
    Xor(Table(Index(c, b)), Down(c))
  }

  function TableRun(c: bv32, data: seq<bv8>): bv32
    decreases data
  {
    if data == [] then c else TableRun(TableStep(c, data[0]), data[1..])
  }

  // ---------------------------------------------------------------- the reference: a bit-serial register

  /** The register shifted once, with nothing entering. */
  function Shift(c: bv32): bv32 {
    if c & 1 == 1 then (c >> 1) ^ POLYNOMIAL else c >> 1
  }

  /** The register shifted once while message bit `bit` enters. */
  function FeedBit(c: bv32, bit: bv32): bv32 { Shift(Xor(c, bit)) }

  /** The low `n` bits of `bits` fed one at a time, least significant first. */
  function FeedBits(c: bv32, bits: bv32, n: nat): bv32
    decreases n
  {
    if n == 0 then c else FeedBits(FeedBit(c, Odd(bits)), Half(bits), n - 1)
  }

  /** The bit-serial CRC register after a whole message. */
  function SerialRun(c: bv32, data: seq<bv8>): bv32
    decreases data
  {
    if data == [] then c else SerialRun(FeedBits(c, Widen(data[0]), 8), data[1..])
  }

  function Shift8(c: bv32): bv32 { Shift(Shift(Shift(Shift(Shift(Shift(Shift(Shift(c)))))))) }

  // ---------------------------------------------------------------- every table entry

  // Sixteen entries at a time: Entries0x is about the octets 0x00 to 0x0F, EntriesFx about 0xF0 to 0xFF.

  lemma Entries0x(i: bv8)
    requires i >> 4 == 0
    ensures Quarter0(i) == Shift8(i as bv32)
  {}

  lemma Entries1x(i: bv8)
    requires i >> 4 == 1
    ensures Quarter0(i) == Shift8(i as bv32)
  {}

  lemma Entries2x(i: bv8)
    requires i >> 4 == 2
    ensures Quarter0(i) == Shift8(i as bv32)
  {}

  lemma Entries3x(i: bv8)
    requires i >> 4 == 3
    ensures Quarter0(i) == Shift8(i as bv32)
  {}

  lemma Entries4x(i: bv8)
    requires i >> 4 == 4
    ensures Quarter1(i) == Shift8(i as bv32)
  {}

  lemma Entries5x(i: bv8)
    requires i >> 4 == 5
    ensures Quarter1(i) == Shift8(i as bv32)
  {}

  lemma Entries6x(i: bv8)
    requires i >> 4 == 6
    ensures Quarter1(i) == Shift8(i as bv32)
  {}

  lemma Entries7x(i: bv8)
    requires i >> 4 == 7
    ensures Quarter1(i) == Shift8(i as bv32)
  {}

  lemma Entries8x(i: bv8)
    requires i >> 4 == 8
    ensures Quarter2(i) == Shift8(i as bv32)
  {}

  lemma Entries9x(i: bv8)
    requires i >> 4 == 9
    ensures Quarter2(i) == Shift8(i as bv32)
  {}

  lemma EntriesAx(i: bv8)
    requires i >> 4 == 10
    ensures Quarter2(i) == Shift8(i as bv32)
  {}

  lemma EntriesBx(i: bv8)
    requires i >> 4 == 11
    ensures Quarter2(i) == Shift8(i as bv32)
  {}

  lemma EntriesCx(i: bv8)
    requires i >> 4 == 12
    ensures Quarter3(i) == Shift8(i as bv32)
  {}

  lemma EntriesDx(i: bv8)
    requires i >> 4 == 13
    ensures Quarter3(i) == Shift8(i as bv32)
  {}

  lemma EntriesEx(i: bv8)
    requires i >> 4 == 14
    ensures Quarter3(i) == Shift8(i as bv32)
  {}

  lemma EntriesFx(i: bv8)
    requires i >> 4 == 15
    ensures Quarter3(i) == Shift8(i as bv32)
  {}

  lemma Entries0(i: bv8)
    requires i >> 6 == 0
    ensures Quarter0(i) == Shift8(i as bv32)
  {
    hide Quarter0, Shift8;
    match i >> 4
    case 0 => Entries0x(i);
    case 1 => Entries1x(i);
    case 2 => Entries2x(i);
    case _ => Entries3x(i);
  }

  lemma Entries1(i: bv8)
    requires i >> 6 == 1
    ensures Quarter1(i) == Shift8(i as bv32)
  {
    hide Quarter1, Shift8;
    match i >> 4
    case 4 => Entries4x(i);
    case 5 => Entries5x(i);
    case 6 => Entries6x(i);
    case _ => Entries7x(i);
  }

  lemma Entries2(i: bv8)
    requires i >> 6 == 2
    ensures Quarter2(i) == Shift8(i as bv32)
  {
    hide Quarter2, Shift8;
    match i >> 4
    case 8 => Entries8x(i);
    case 9 => Entries9x(i);
    case 10 => EntriesAx(i);
    case _ => EntriesBx(i);
  }

  lemma Entries3(i: bv8)
    requires i >> 6 == 3
    ensures Quarter3(i) == Shift8(i as bv32)
  {
    hide Quarter3, Shift8;
    match i >> 4
    case 12 => EntriesCx(i);
    case 13 => EntriesDx(i);
    case 14 => EntriesEx(i);
    case _ => EntriesFx(i);
  }

  /** Every one of the 256 entries is its index shifted eight times. */
  lemma TableEntry(i: bv8)
    ensures Table(i) == Shift8(Widen(i))
  {
    hide Quarter0, Quarter1, Quarter2, Quarter3, Shift8;
    match i >> 6
    case 0 => Entries0(i);
    case 1 => Entries1(i);
    case 2 => Entries2(i);
    case _ => Entries3(i);
  }

  // ---------------------------------------------------------------- shifting is linear and invertible

  lemma LowBits(x: bv32, y: bv32)
    ensures (x ^ y) >> 1 == (x >> 1) ^ (y >> 1)
    ensures (x ^ y) & 1 == 1 <==> ((x & 1 == 1) != (y & 1 == 1))
  {}

  lemma XorOfFolds(a: bv32, b: bv32, p: bv32, q: bv32, r: bv32)
    requires (r == 0 && p == q) || (r == p && q == 0) || (r == q && p == 0)
    ensures (a ^ b) ^ r == (a ^ p) ^ (b ^ q)
  {}

  lemma ShiftXor(x: bv32, y: bv32)
    ensures Shift(x ^ y) == Shift(x) ^ Shift(y)
  {
    LowBits(x, y);
    var p: bv32 := if x & 1 == 1 then POLYNOMIAL else 0;
    var q: bv32 := if y & 1 == 1 then POLYNOMIAL else 0;
    var r: bv32 := if (x ^ y) & 1 == 1 then POLYNOMIAL else 0;
    XorOfFolds(x >> 1, y >> 1, p, q, r);
  }

  lemma ShiftLinear(x: bv32, y: bv32)
    ensures Shift(Xor(x, y)) == Xor(Shift(x), Shift(y))
  {
    hide Shift;
    ShiftXor(x, y);
  }

  lemma Shift8Linear(x: bv32, y: bv32)
    ensures Shift8(Xor(x, y)) == Xor(Shift8(x), Shift8(y))
  {
    hide Shift, Xor;
    var x1, y1 := Shift(x), Shift(y);
    var x2, y2 := Shift(x1), Shift(y1);
    var x3, y3 := Shift(x2), Shift(y2);
    var x4, y4 := Shift(x3), Shift(y3);
    var x5, y5 := Shift(x4), Shift(y4);
    var x6, y6 := Shift(x5), Shift(y5);
    var x7, y7 := Shift(x6), Shift(y6);
    ShiftLinear(x, y); ShiftLinear(x1, y1); ShiftLinear(x2, y2); ShiftLinear(x3, y3);
    ShiftLinear(x4, y4); ShiftLinear(x5, y5); ShiftLinear(x6, y6); ShiftLinear(x7, y7);
  }

  lemma ShiftInjective(x: bv32, y: bv32)
    requires Shift(x) == Shift(y)
    ensures x == y
  {}

  lemma Shift8Injective(x: bv32, y: bv32)
    requires Shift8(x) == Shift8(y)
    ensures x == y
  {
    hide Shift;
    var x1, y1 := Shift(x), Shift(y);
    var x2, y2 := Shift(x1), Shift(y1);
    var x3, y3 := Shift(x2), Shift(y2);
    var x4, y4 := Shift(x3), Shift(y3);
    var x5, y5 := Shift(x4), Shift(y4);
    var x6, y6 := Shift(x5), Shift(y5);
    var x7, y7 := Shift(x6), Shift(y6);
    ShiftInjective(x7, y7); ShiftInjective(x6, y6); ShiftInjective(x5, y5); ShiftInjective(x4, y4);
    ShiftInjective(x3, y3); ShiftInjective(x2, y2); ShiftInjective(x1, y1); ShiftInjective(x, y);
  }

  /** Octets above the lowest pass through eight shifts unchanged. */
  lemma UpperOctets(x: bv32)
    ensures Xor(Low(x), High(x)) == x
    ensures Shift8(High(x)) == Down(x)
  {}

  lemma Shift8Split(x: bv32)
    ensures Shift8(x) == Xor(Shift8(Low(x)), Down(x))
  {
    hide *;
    UpperOctets(x);
    Shift8Linear(Low(x), High(x));
  }

  // ---------------------------------------------------------------- table step == bit-serial step

  lemma IndexOctet(c: bv32, b: bv8)
    ensures Low(Xor(c, Widen(b))) == Widen(Index(c, b))
    ensures Down(Xor(c, Widen(b))) == Down(c)
  {}

  lemma TableStepIsShift8(c: bv32, b: bv8)
    ensures TableStep(c, b) == Shift8(Xor(c, Widen(b)))
  {
    hide Table, Shift8, Xor, Index, Down, Low, Widen;
    TableEntry(Index(c, b));
    IndexOctet(c, b);
    Shift8Split(Xor(c, Widen(b)));
  }

  lemma XorAssoc(x: bv32, y: bv32, z: bv32)
    ensures Xor(Xor(x, y), z) == Xor(x, Xor(y, z))
  {}

  lemma OddAndEven(v: bv32)
    ensures Xor(Odd(v), Even(v)) == v
    ensures Shift(Even(v)) == Half(v)
  {}

  /** The bits still waiting can be mixed into the register in advance. */
  lemma BitsInAdvance(c: bv32, v: bv32)
    ensures Shift(Xor(c, v)) == Xor(FeedBit(c, Odd(v)), Half(v))
  {
    hide Shift, Xor, Odd, Even, Half;
    OddAndEven(v);
    XorAssoc(c, Odd(v), Even(v));
    ShiftLinear(Xor(c, Odd(v)), Even(v));
  }

  lemma OctetRunsOut(v: bv32)
    requires v <= 0xFF
    ensures Half(Half(Half(Half(Half(Half(Half(Half(v)))))))) == 0
  {}

  lemma XorZero(c: bv32)
    ensures Xor(c, 0) == c
  {}

  lemma EightBits(c0: bv32, v0: bv32)
    requires v0 <= 0xFF
    ensures Shift8(Xor(c0, v0)) == FeedBits(c0, v0, 8)
  {
    hide Shift, Xor, Odd, Half, FeedBit;
    var c1, v1 := FeedBit(c0, Odd(v0)), Half(v0);
    var c2, v2 := FeedBit(c1, Odd(v1)), Half(v1);
    var c3, v3 := FeedBit(c2, Odd(v2)), Half(v2);
    var c4, v4 := FeedBit(c3, Odd(v3)), Half(v3);
    var c5, v5 := FeedBit(c4, Odd(v4)), Half(v4);
    var c6, v6 := FeedBit(c5, Odd(v5)), Half(v5);
    var c7, v7 := FeedBit(c6, Odd(v6)), Half(v6);
    var c8, v8 := FeedBit(c7, Odd(v7)), Half(v7);
    BitsInAdvance(c0, v0); BitsInAdvance(c1, v1); BitsInAdvance(c2, v2); BitsInAdvance(c3, v3);
    BitsInAdvance(c4, v4); BitsInAdvance(c5, v5); BitsInAdvance(c6, v6); BitsInAdvance(c7, v7);
    OctetRunsOut(v0);
    XorZero(c8);
  }

  lemma WidenIsOctet(b: bv8)
    ensures Widen(b) <= 0xFF
  {}

  /** For every register and every message, the table-driven loop is the bit-serial register. */
  lemma {:induction false} TableRunIsSerialRun(c: bv32, data: seq<bv8>)
    ensures TableRun(c, data) == SerialRun(c, data)
    decreases data
  {
    hide TableStep, FeedBits, Shift8, Xor, Widen;
    if data != [] {
      TableStepIsShift8(c, data[0]);
      WidenIsOctet(data[0]);
      EightBits(c, Widen(data[0]));
      TableRunIsSerialRun(TableStep(c, data[0]), data[1..]);
    }
  }

  // ---------------------------------------------------------------- runs

  lemma {:induction false} RunConcat(c: bv32, a: seq<bv8>, b: seq<bv8>)
    ensures TableRun(c, a + b) == TableRun(TableRun(c, a), b)
    decreases a
  {
    hide TableStep;
    if a == [] {
      assert a + b == b;
    } else {
      assert (a + b)[1..] == a[1..] + b;
      RunConcat(TableStep(c, a[0]), a[1..], b);
    }
  }

  lemma XorCancel(x: bv32, y: bv32, v: bv32)
    requires Xor(x, v) == Xor(y, v)
    ensures x == y
  {}

  /** A message acts on the register as a bijection: no two registers meet. */
  lemma {:induction false} RunInjective(c: bv32, d: bv32, data: seq<bv8>)
    requires TableRun(c, data) == TableRun(d, data)
    ensures c == d
    decreases data
  {
    hide TableStep, Shift8, Xor, Widen;
    if data != [] {
      RunInjective(TableStep(c, data[0]), TableStep(d, data[0]), data[1..]);
      TableStepIsShift8(c, data[0]);
      TableStepIsShift8(d, data[0]);
      Shift8Injective(Xor(c, Widen(data[0])), Xor(d, Widen(data[0])));
      XorCancel(c, d, Widen(data[0]));
    }
  }

  // ---------------------------------------------------------------- up to four octets at once

  /** Up to four octets as one little-endian word. */
  function Word(w: seq<bv8>): bv32 {
    if w == [] then 0 else Xor(Widen(w[0]), Up(Word(w[1..])))
  }

  function Shift8Times(c: bv32, n: nat): bv32
    decreases n
  {
    if n == 0 then c else Shift8Times(Shift8(c), n - 1)
  }

  lemma UpThroughShift8(v: bv32)
    requires v <= 0xFFFFFF
    ensures Shift8(Up(v)) == v
  {}

  lemma OctetAndUp(b: bv8, v: bv32)
    ensures v <= 0xFF ==> Xor(Widen(b), Up(v)) <= 0xFFFF
    ensures v <= 0xFFFF ==> Xor(Widen(b), Up(v)) <= 0xFFFFFF
    ensures v == 0 ==> Xor(Widen(b), Up(v)) <= 0xFF
  {}

  lemma WordBound(w: seq<bv8>)
    requires |w| <= 3
    ensures Word(w) <= 0xFFFFFF
    ensures |w| <= 2 ==> Word(w) <= 0xFFFF
    ensures |w| <= 1 ==> Word(w) <= 0xFF
    decreases w
  {
    hide Xor, Widen, Up;
    if w != [] {
      WordBound(w[1..]);
      OctetAndUp(w[0], Word(w[1..]));
    }
  }

  /** At most four octets enter the register exactly as one exclusive-or followed by shifting. */
  lemma {:induction false} WindowRun(c: bv32, w: seq<bv8>)
    requires |w| <= 4
    ensures TableRun(c, w) == Shift8Times(Xor(c, Word(w)), |w|)
    decreases w
  {
    hide TableStep, Shift8, Xor, Widen, Up;
    if w == [] {
      XorZero(c);
    } else {
      var b, v := Widen(w[0]), Word(w[1..]);
      TableStepIsShift8(c, w[0]);
      WindowRun(TableStep(c, w[0]), w[1..]);
      WordBound(w[1..]);
      UpThroughShift8(v);
      Shift8Linear(Xor(c, b), Up(v));
      XorAssoc(c, b, Up(v));
    }
  }

  lemma {:induction false} Shift8TimesInjective(x: bv32, y: bv32, n: nat)
    requires Shift8Times(x, n) == Shift8Times(y, n)
    ensures x == y
    decreases n
  {
    hide Shift8;
    if n > 0 {
      Shift8TimesInjective(Shift8(x), Shift8(y), n - 1);
      Shift8Injective(x, y);
    }
  }

  lemma OctetAndUpInjective(a: bv8, u: bv32, b: bv8, v: bv32)
    requires u <= 0xFFFFFF && v <= 0xFFFFFF
    requires Xor(Widen(a), Up(u)) == Xor(Widen(b), Up(v))
    ensures a == b && u == v
  {}

  lemma {:induction false} WordInjective(w: seq<bv8>, z: seq<bv8>)
    requires |w| == |z| <= 4 && Word(w) == Word(z)
    ensures w == z
    decreases w
  {
    hide Xor, Widen, Up;
    if w != [] {
      WordBound(w[1..]);
      WordBound(z[1..]);
      OctetAndUpInjective(w[0], Word(w[1..]), z[0], Word(z[1..]));
      WordInjective(w[1..], z[1..]);
      assert w == [w[0]] + w[1..] && z == [z[0]] + z[1..];
    }
  }

  lemma XorCancelLeft(c: bv32, x: bv32, y: bv32)
    requires Xor(c, x) == Xor(c, y)
    ensures x == y
  {}

  /** Burst detection: two messages of any length that agree outside one window of at most four octets
      leave the register in the same state only if they agree in the window too. */
  lemma BurstDetected(c: bv32, before: seq<bv8>, w: seq<bv8>, z: seq<bv8>, after: seq<bv8>)
    requires |w| == |z| <= 4
    requires TableRun(c, before + w + after) == TableRun(c, before + z + after)
    ensures w == z
  {
    hide TableRun, Xor, Word;
    var d := TableRun(c, before);
    RunConcat(c, before + w, after);
    RunConcat(c, before, w);
    RunConcat(c, before + z, after);
    RunConcat(c, before, z);
    RunInjective(TableRun(d, w), TableRun(d, z), after);
    WindowRun(d, w);
    WindowRun(d, z);
    Shift8TimesInjective(Xor(d, Word(w)), Xor(d, Word(z)), |w|);
    XorCancelLeft(d, Word(w), Word(z));
    WordInjective(w, z);
  }

  lemma {:induction false} Shift8TimesLinear(x: bv32, y: bv32, n: nat)
    ensures Shift8Times(Xor(x, y), n) == Xor(Shift8Times(x, n), Shift8Times(y, n))
    decreases n
  {
    hide Shift8, Xor;
    if n > 0 {
      Shift8Linear(x, y);
      Shift8TimesLinear(Shift8(x), Shift8(y), n - 1);
    }
  }

  lemma PolynomialInOctets()
    ensures Word([0x41, 0x06, 0x71, 0xDB]) == 0xDB710641 && Word([0, 0, 0, 0]) == 0
    ensures Shift8Times(0xDB710641, 4) == 1
  {
    var w: seq<bv8> := [0x41, 0x06, 0x71, 0xDB];
    assert w[1..] == [0x06, 0x71, 0xDB] && w[1..][1..] == [0x71, 0xDB] && w[1..][1..][1..] == [0xDB]
           && w[1..][1..][1..][1..] == [];
    var z: seq<bv8> := [0, 0, 0, 0];
    assert z[1..] == [0, 0, 0] && z[1..][1..] == [0, 0] && z[1..][1..][1..] == [0] && z[1..][1..][1..][1..] == [];
  }

  lemma OneCancels(x: bv32)
    ensures Xor(Xor(x, 1), Widen(1)) == x && Xor(x, Widen(0)) == x
  {}

  /** Four octets is the limit: these five leave every register as five zeros do. */
  lemma FiveOctetsCanMeet(c: bv32)
    ensures TableRun(c, [0x41, 0x06, 0x71, 0xDB] + [0x01]) == TableRun(c, [0, 0, 0, 0] + [0])
  {
    hide Xor, Word, Shift8, Shift8Times, TableStep, Widen;
    var w: seq<bv8>, z: seq<bv8> := [0x41, 0x06, 0x71, 0xDB], [0, 0, 0, 0];
    RunConcat(c, w, [0x01]);
    RunConcat(c, z, [0]);
    WindowRun(c, w);
    WindowRun(c, z);
    PolynomialInOctets();
    XorZero(c);
    Shift8TimesLinear(c, 0xDB710641, 4);
    var x := Shift8Times(c, 4);
    TableStepIsShift8(Xor(x, 1), 0x01);
    TableStepIsShift8(x, 0);
    OneCancels(x);
    assert TableRun(Xor(x, 1), [0x01]) == TableStep(Xor(x, 1), 0x01) && TableRun(x, [0]) == TableStep(x, 0);
  }
}
