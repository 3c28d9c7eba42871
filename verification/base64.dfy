/** src/base64.c: Base64 (section 4 of RFC 4648). The masks and shifts of the source, all on unsigned octets,
    are written as division and remainder. */
module Base64 {
  import opened Common

  /** The 64 characters, in four rows. */
  const ROWS := ["ABCDEFGHIJKLMNOP", "QRSTUVWXYZabcdef", "ghijklmnopqrstuv", "wxyz0123456789+/"]

  function Letter(v: nat): char
    requires v < 64
  {
    ROWS[v / 16][v % 16]
  }

  predicate IsLetter(c: char) {
    'A' <= c <= 'Z' || 'a' <= c <= 'z' || '0' <= c <= '9' || c == '+' || c == '/'
  }

  /** The four six-bit values of three octets. */
  function Sextets(a: u8, b: u8, c: u8): (v: seq<nat>)
    ensures |v| == 4 && v[0] < 64 && v[1] < 64 && v[2] < 64 && v[3] < 64
  {
    [a / 4, a % 4 * 16 + b / 16, b % 16 * 4 + c / 64, c % 64]
  }

  function Group(input: seq<u8>): string
    requires 1 <= |input| <= 3
  {
    var v := Sextets(input[0], if |input| > 1 then input[1] else 0, if |input| > 2 then input[2] else 0);
    [Letter(v[0]), Letter(v[1]),
     if |input| > 1 then Letter(v[2]) else '=',
     if |input| > 2 then Letter(v[3]) else '=']
  }

  function Encoded(input: seq<u8>): string {
    if input == [] then []
    else if |input| <= 3 then Group(input)
    else Group(input[..3]) + Encoded(input[3..])
  }

  // ---------------------------------------------------------------- the reference decoder

  function LetterValue(c: char): nat {
    if 'A' <= c <= 'Z' then c as nat - 'A' as nat
    else if 'a' <= c <= 'z' then c as nat - 'a' as nat + 26
    else if '0' <= c <= '9' then c as nat - '0' as nat + 52
    else if c == '+' then 62
    else if c == '/' then 63
    else 0
  }

  function First(v0: nat, v1: nat): nat { v0 * 4 + v1 / 16 }

  function Second(v1: nat, v2: nat): nat { v1 % 16 * 16 + v2 / 4 }

  function Third(v2: nat, v3: nat): nat { v2 % 4 * 64 + v3 }

  function DecodeGroup(g: string): seq<nat>
    requires |g| == 4
  {
    var v0, v1, v2, v3 := LetterValue(g[0]), LetterValue(g[1]), LetterValue(g[2]), LetterValue(g[3]);
    if g[2] == '=' then [First(v0, v1)]
    else if g[3] == '=' then [First(v0, v1), Second(v1, v2)]
    else [First(v0, v1), Second(v1, v2), Third(v2, v3)]
  }

  function Decoded(text: string): seq<nat> {
    if |text| < 4 then [] else DecodeGroup(text[..4]) + Decoded(text[4..])
  }

  // ---------------------------------------------------------------- properties

  lemma LetterReads01(v: nat)
    requires v < 32
    ensures LetterValue(Letter(v)) == v && IsLetter(Letter(v))
  {}

  lemma LetterReads23(v: nat)
    requires 32 <= v < 64
    ensures LetterValue(Letter(v)) == v && IsLetter(Letter(v))
  {}

  lemma LetterReads(v: nat)
    requires v < 64
    ensures LetterValue(Letter(v)) == v && IsLetter(Letter(v))
  {
    hide Letter, LetterValue, IsLetter;
    if v < 32 { LetterReads01(v); } else { LetterReads23(v); }
  }

  lemma SextetsRead(a: u8, b: u8, c: u8)
    ensures var v := Sextets(a, b, c);
            && First(v[0], v[1]) == a && Second(v[1], v[2]) == b && Third(v[2], v[3]) == c
  {}

  /** Four characters decode to the octets of their values, fewer where '=' stands for a character. */
  lemma GroupOfLetters(v0: nat, v1: nat, v2: nat, v3: nat)
    requires v0 < 64 && v1 < 64 && v2 < 64 && v3 < 64
    ensures DecodeGroup([Letter(v0), Letter(v1), Letter(v2), Letter(v3)])
            == [First(v0, v1), Second(v1, v2), Third(v2, v3)]
    ensures DecodeGroup([Letter(v0), Letter(v1), Letter(v2), '=']) == [First(v0, v1), Second(v1, v2)]
    ensures DecodeGroup([Letter(v0), Letter(v1), '=', '=']) == [First(v0, v1)]
  {
    assert !IsLetter('=') && LetterValue('=') == 0;
    hide Letter, LetterValue, IsLetter, First, Second, Third;
    LetterReads(v0); LetterReads(v1); LetterReads(v2); LetterReads(v3);
  }

  lemma GroupReads(input: seq<u8>)
    requires 1 <= |input| <= 3
    ensures DecodeGroup(Group(input)) == input
  {
    hide Letter, DecodeGroup, Sextets, First, Second, Third;
    var a, b, c := input[0], if |input| > 1 then input[1] else 0, if |input| > 2 then input[2] else 0;
    var v := Sextets(a, b, c);
    SextetsRead(a, b, c);
    GroupOfLetters(v[0], v[1], v[2], v[3]);
  }

  /** The encoding has four characters for every three octets begun, and the reference decoder recovers
      every input. */
  lemma {:induction false} RoundTrip(input: seq<u8>)
    ensures |Encoded(input)| == (|input| + 2) / 3 * 4
    ensures Decoded(Encoded(input)) == input
    decreases |input|
  {
    hide Group, DecodeGroup;
    if input != [] {
      var first := if |input| <= 3 then input else input[..3];
      assert |Group(first)| == 4 by { GroupShape(first); }
      GroupReads(first);
      var text := Encoded(input);
      assert text[..4] == Group(first);
      if |input| > 3 {
        assert text[4..] == Encoded(input[3..]);
        RoundTrip(input[3..]);
        assert input == input[..3] + input[3..];
      } else {
        assert text[4..] == [];
        assert Decoded(text[4..]) == [];
      }
    }
  }

  lemma GroupShape(input: seq<u8>)
    requires 1 <= |input| <= 3
    ensures |Group(input)| == 4
    ensures forall i :: 0 <= i < 4 ==> if i <= |input| then IsLetter(Group(input)[i]) else Group(input)[i] == '='
  {
    hide Letter, IsLetter;
    var v := Sextets(input[0], if |input| > 1 then input[1] else 0, if |input| > 2 then input[2] else 0);
    LetterReads(v[0]); LetterReads(v[1]); LetterReads(v[2]); LetterReads(v[3]);
  }

  /** Only the alphabet, and at the end one '=' for each octet missing from the last group of three. */
  lemma {:induction false} Characters(input: seq<u8>, i: nat)
    requires i < |Encoded(input)|
    ensures if i < |Encoded(input)| - (2 * |input|) % 3 then IsLetter(Encoded(input)[i]) else Encoded(input)[i] == '='
    decreases |input|
  {
    hide Group, IsLetter, Decoded;
    RoundTrip(input);
    if |input| <= 3 {
      GroupShape(input);
    } else {
      GroupShape(input[..3]);
      RoundTrip(input[3..]);
      assert (2 * |input|) % 3 == (2 * |input[3..]|) % 3;
      if i >= 4 {
        Characters(input[3..], i - 4);
      }
    }
  }

  lemma {:induction false} EncodedInPieces(a: seq<u8>, b: seq<u8>)
    requires |a| % 3 == 0
    ensures Encoded(a + b) == Encoded(a) + Encoded(b)
    decreases |a|
  {
    hide Group;
    if a == [] {
      assert a + b == b;
    } else if b == [] {
      assert a + b == a;
    } else {
      assert (a + b)[..3] == a[..3] && (a + b)[3..] == a[3..] + b;
      EncodedInPieces(a[3..], b);
      assert |a| == 3 ==> a[..3] == a && Encoded(a[3..]) == [];
    }
  }

  /** Encoding `groups` whole groups, which end at `k`, and then the rest up to `p`. */
  lemma EncodedAt(input: seq<u8>, k: nat, p: nat, groups: nat)
    requires k == 3 * groups && k <= p <= |input|
    ensures Encoded(input[..p]) == Encoded(input[..k]) + Encoded(input[k..p])
  {
    assert input[..p] == input[..k] + input[k..p];
    EncodedInPieces(input[..k], input[k..p]);
  }

  lemma Room(input: seq<u8>) returns (room: nat)
    ensures |Encoded(input)| == 4 * room && |input| <= 3 * room <= |input| + 2
  {
    RoundTrip(input);
    room := (|input| + 2) / 3;
  }

  // ---------------------------------------------------------------- the encoder

  /** The four characters of three octets, in the loop of base64_encode. */
  method EmitGroup(octets: seq<u8>, output: array<char>, at: nat)
    requires |octets| == 3 && at + 4 < output.Length
    modifies output
    ensures output[..at + 4] == old(output[..at]) + Encoded(octets)
  {
    var v := Sextets(octets[0], octets[1], octets[2]);
    var i := 0;
    while i < 4
      invariant 0 <= i <= 4
      invariant output[..at + i] == old(output[..at]) + Group(octets)[..i]
    {
      output[at + i] := Letter(v[i]);
      assert output[..at + i + 1] == output[..at + i] + [Letter(v[i])];
      assert Group(octets)[..i + 1] == Group(octets)[..i] + [Group(octets)[i]];
      i := i + 1;
    }
    assert Group(octets)[..4] == Group(octets);
  }

  /** The main loop of base64_encode: the whole groups go out and the octets left over stay in `octets`. */
  method EncodeGroups(input: seq<u8>, output: array<char>, at: nat, ghost room: nat)
    returns (s: nat, octets: seq<u8>, i: nat, ghost groups: nat)
    requires |input| <= 3 * room && at + 4 * room < output.Length
    modifies output
    ensures |input| == 3 * groups + i && i < 3 && s == 4 * groups
    ensures |octets| == 3 && forall k :: 0 <= k < i ==> octets[k] == input[|input| - i + k]
    ensures output[..at + s] == old(output[..at]) + Encoded(input[..|input| - i])
  {
    hide Group, Encoded;
    s, i, octets, groups := 0, 0, [0, 0, 0], 0;
    var p := 0;
    assert Encoded(input[..0]) == [] by { assert input[..0] == []; RoundTrip([]); }
    while p < |input|
      invariant 0 <= p <= |input| && 0 <= i < 3 && p == 3 * groups + i && s == 4 * groups
      invariant |octets| == 3 && forall k :: 0 <= k < i ==> octets[k] == input[p - i + k]
      invariant output[..at + s] == old(output[..at]) + Encoded(input[..p - i])
    {
      octets := octets[i := input[p]];
      i, p := i + 1, p + 1;
      if i == 3 {
        EncodedAt(input, p - 3, p, groups);
        assert octets == input[p - 3..p];
        EmitGroup(octets, output, at + s);
        s, i, groups := s + 4, 0, groups + 1;
      }
    }
  }

  /** base64_encode, writing from `output[at]` on. Returns the number of characters, after which it writes a
      null character. */
  method Encode(input: seq<u8>, output: array<char>, at: nat) returns (s: nat)
    requires |Encoded(input)| < TWO_16 && at + |Encoded(input)| < output.Length
    modifies output
    ensures s == |Encoded(input)|
    ensures output[..at + s] == old(output[..at]) + Encoded(input)
    ensures output[at + s] == '\0'
  {
    hide Group, Encoded;
    ghost var room := Room(input);
    var octets, i;
    ghost var groups;
    s, octets, i, groups := EncodeGroups(input, output, at, room);
    EncodedAt(input, 3 * groups, |input|, groups);
    assert input[..|input|] == input;
    if i > 0 {
      assert octets[..i] == input[3 * groups..];
      EncodeTail(octets, i, output, at + s);
      s := s + 4;
    } else {
      assert input[..|input| - i] == input;
    }
    output[at + s] := '\0';
  }

  /** The one or two octets left over at the end of base64_encode. */
  method EncodeTail(left: seq<u8>, n: nat, output: array<char>, at: nat)
    requires 1 <= n <= 2 && |left| == 3 && at + 4 < output.Length
    modifies output
    ensures output[..at + 4] == old(output[..at]) + Encoded(left[..n])
  {
    hide Letter;
    ghost var tail := left[..n];
    var octets := left;
    var i, j := n, n;
    while j < 3
      invariant n <= j <= 3 && |octets| == 3 && octets[..n] == tail
      invariant forall k :: n <= k < j ==> octets[k] == 0
    {
      octets := octets[j := 0];
      j := j + 1;
    }
    var v := Sextets(octets[0], octets[1], octets[2]);
    j := 0;
    while j < i + 1
      invariant 0 <= j <= i + 1
      invariant output[..at + j] == old(output[..at]) + Group(tail)[..j]
    {
      output[at + j] := Letter(v[j]);
      assert output[..at + j + 1] == output[..at + j] + [Letter(v[j])];
      assert Group(tail)[..j + 1] == Group(tail)[..j] + [Group(tail)[j]];
      j := j + 1;
    }
    while i < 3
      invariant n <= i <= 3 && j == i + 1
      invariant output[..at + j] == old(output[..at]) + Group(tail)[..j]
    {
      output[at + j] := '=';
      assert output[..at + j + 1] == output[..at + j] + ['='];
      assert Group(tail)[..j + 1] == Group(tail)[..j] + [Group(tail)[j]];
      i, j := i + 1, j + 1;
    }
    assert Group(tail)[..4] == Group(tail);
  }
}
