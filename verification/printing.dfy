/** The conversions of sprintf that src/http_tx.c uses, with the reading that undoes them. */
module Printing {

  function Digit(d: nat): char
    requires d < 16
  {
    "0123456789abcdef"[d]
  }

  /** %u, %lu and %x for bases 10 and 16 */
  function Numeral(base: nat, n: nat): (s: string)
    requires base == 10 || base == 16
    ensures s != []
    decreases n
  {
    if n < base then [Digit(n)] else Numeral(base, n / base) + [Digit(n % base)]
  }

  function Dec(n: nat): string { Numeral(10, n) }

  function Hex(n: nat): string { Numeral(16, n) }

  /** %d */
  function SignedDec(i: int): string { if i < 0 then "-" + Dec(-i) else Dec(i) }

  /** Zeros in front, up to `width` characters. */
  function ZeroPad(s: string, width: nat): string
    decreases width - |s|
  {
    if |s| >= width then s else ZeroPad("0" + s, width)
  }

  /** %08x */
  function Hex8(n: nat): string { ZeroPad(Hex(n), 8) }

  // ---------------------------------------------------------------- reading back

  function DigitValue(c: char): nat {
    if '0' <= c <= '9' then c as nat - '0' as nat
    else if 'a' <= c <= 'f' then c as nat - 'a' as nat + 10
    else 0
  }

  function ReadNumeral(base: nat, s: string): nat {
    if s == [] then 0 else ReadNumeral(base, s[..|s| - 1]) * base + DigitValue(s[|s| - 1])
  }

  predicate IsDigit(c: char) { '0' <= c <= '9' || 'a' <= c <= 'f' }

  lemma DigitReads(d: nat)
    requires d < 16
    ensures DigitValue(Digit(d)) == d && IsDigit(Digit(d))
  {}

  /** Every number is read back from its numeral, which is made of digits only. */
  lemma {:induction false} NumeralReads(base: nat, n: nat)
    requires base == 10 || base == 16
    ensures ReadNumeral(base, Numeral(base, n)) == n
    ensures forall i :: 0 <= i < |Numeral(base, n)| ==> IsDigit(Numeral(base, n)[i])
    decreases n
  {
    hide Digit, DigitValue, IsDigit;
    var s := Numeral(base, n);
    DigitReads(n % base);
    if n < base {
      assert s[..|s| - 1] == [];
    } else {
      NumeralReads(base, n / base);
      assert s[..|s| - 1] == Numeral(base, n / base);
    }
  }

  function Pow(base: nat, k: nat): nat { if k == 0 then 1 else base * Pow(base, k - 1) }

  /** A number below base^k takes at most k digits. */
  lemma {:induction false} NumeralLength(base: nat, n: nat, k: nat)
    requires (base == 10 || base == 16) && k >= 1 && n < Pow(base, k)
    ensures |Numeral(base, n)| <= k
    decreases k
  {
    if n >= base {
      assert k > 1;
      NumeralLength(base, n / base, k - 1);
    }
  }

  /** A number of at least 10^digits takes more than that many digits. */
  lemma {:induction false} ManyDigits(n: nat, digits: nat)
    requires Pow(10, digits) <= n
    ensures |Dec(n)| > digits
    decreases digits
  {
    if digits > 0 {
      ManyDigits(n / 10, digits - 1);
    }
  }

  lemma WordLengths(n: nat)
    requires n < 0x1_0000_0000
    ensures |Dec(n)| <= 10 && |Hex(n)| <= 8 && |Hex8(n)| == 8
    ensures n < 100 ==> |Dec(n)| <= 2
  {
    assert Pow(10, 2) == 100 && Pow(10, 10) == 10_000_000_000 && Pow(16, 8) == 0x1_0000_0000;
    NumeralLength(10, n, 10);
    NumeralLength(16, n, 8);
    ZeroPadReads(Hex(n), 8);
    if n < 100 { NumeralLength(10, n, 2); }
  }

  lemma {:induction false} ReadConcat(base: nat, a: string, b: string)
    ensures ReadNumeral(base, a + b) == ReadNumeral(base, a) * Pow(base, |b|) + ReadNumeral(base, b)
    decreases |b|
  {
    hide DigitValue;
    if b == [] {
      assert a + b == a;
    } else {
      var b' := b[..|b| - 1];
      assert (a + b)[..|a + b| - 1] == a + b' && (a + b)[|a + b| - 1] == b[|b| - 1];
      ReadConcat(base, a, b');
      var x, p, y := ReadNumeral(base, a), Pow(base, |b'|), ReadNumeral(base, b');
      Distribute(x, p, y, base);
      assert ReadNumeral(base, a + b) == (x * p + y) * base + DigitValue(b[|b| - 1]);
    }
  }

  lemma Distribute(x: nat, p: nat, y: nat, base: nat)
    ensures (x * p + y) * base == x * (base * p) + y * base
  {
    assert (x * p + y) * base == x * p * base + y * base;
    assert x * p * base == x * (base * p);
  }

  lemma {:induction false} ZeroPadReads(s: string, width: nat)
    ensures ReadNumeral(16, ZeroPad(s, width)) == ReadNumeral(16, s)
    ensures |s| <= width ==> |ZeroPad(s, width)| == width
    ensures (forall i :: 0 <= i < |s| ==> IsDigit(s[i])) ==>
              forall i :: 0 <= i < |ZeroPad(s, width)| ==> IsDigit(ZeroPad(s, width)[i])
    decreases width - |s|
  {
    if |s| < width {
      ReadConcat(16, "0", s);
      assert ReadNumeral(16, "0") == 0 by { assert "0"[..0] == []; }
      ZeroPadReads("0" + s, width);
    }
  }

  /** "%x%08x" of the two halves reads as the one 64-bit number. */
  lemma TwoWordsRead(high: nat, low: nat)
    requires high < 0x1_0000_0000 && low < 0x1_0000_0000
    ensures ReadNumeral(16, Hex(high) + Hex8(low)) == high * 0x1_0000_0000 + low
    ensures forall i :: 0 <= i < |Hex(high) + Hex8(low)| ==> IsDigit((Hex(high) + Hex8(low))[i])
  {
    hide Numeral, ReadNumeral, ZeroPad, IsDigit;
    NumeralReads(16, high);
    NumeralReads(16, low);
    ZeroPadReads(Hex(low), 8);
    WordLengths(low);
    ReadConcat(16, Hex(high), Hex8(low));
    assert Pow(16, 8) == 0x1_0000_0000;
  }

  // ---------------------------------------------------------------- taking text apart

  lemma CancelPrefix(p: string, x: string, y: string)
    requires p + x == p + y
    ensures x == y
  {
    assert (p + x)[|p|..] == x && (p + y)[|p|..] == y;
  }

  /** A token that cannot contain the delimiter after it is determined by the text. */
  lemma CancelToken(u: string, v: string, delimiter: char, x: string, y: string)
    requires delimiter !in u && delimiter !in v
    requires u + [delimiter] + x == v + [delimiter] + y
    ensures u == v && x == y
  {
    var s, t := u + [delimiter] + x, v + [delimiter] + y;
    assert s[|u|] == delimiter && t[|v|] == delimiter;
    assert |u| == |v|;
    assert s[..|u|] == u && t[..|v|] == v;
    CancelPrefix(u + [delimiter], x, y);
  }
}
