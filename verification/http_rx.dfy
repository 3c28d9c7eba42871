/** src/http_rx.c: the acknowledgement matcher, which moves the log's read index on once for each `"id":` it
    notices in the server's response. It restarts from scratch on a mismatch without looking back, so it can
    miss a marker; this module says exactly when. */
module HttpRx {
  import opened Common
  import opened Checksum
  import opened CircularLog
  import Memory

  const GOOD := ['"', 'i', 'd', '"', ':']
  const GOOD_LEN := 5
  const BAD := "unused-unused-unused"

  /** One octet through the matcher: the new position in GOOD, and whether it completed the marker. */
  function Octet(index: nat, c: char): (nat, bool)
    requires index < GOOD_LEN
  {
    if c != GOOD[index] then (0, false)
    else if index + 1 == GOOD_LEN then (0, true)
    else (index + 1, false)
  }

  /** A text through the matcher from position `index`: the final position and the number of markers. */
  function Scan(index: nat, text: string): (r: (nat, nat))
    requires index < GOOD_LEN
    ensures r.0 < GOOD_LEN
  {
    if text == [] then (index, 0)
    else
      var (k, hits) := Scan(index, text[..|text| - 1]);
      var (k', hit) := Octet(k, text[|text| - 1]);
      (k', if hit then hits + 1 else hits)
  }

  /** Splitting the text anywhere, across calls or across buffers of one chain, makes no difference. */
  lemma {:induction false} ScanSplit(index: nat, a: string, b: string)
    requires index < GOOD_LEN
    ensures Scan(index, a + b).0 == Scan(Scan(index, a).0, b).0
    ensures Scan(index, a + b).1 == Scan(index, a).1 + Scan(Scan(index, a).0, b).1
    decreases |b|
  {
    if b == [] {
      assert a + b == a;
    } else {
      assert (a + b)[..|a + b| - 1] == a + b[..|b| - 1];
      ScanSplit(index, a, b[..|b| - 1]);
    }
  }

  // ---------------------------------------------------------------- the text itself

  /** The text ends with the first `k` characters of the marker. */
  predicate Ends(text: string, k: nat)
    requires k <= GOOD_LEN
  {
    k <= |text| && text[|text| - k..] == GOOD[..k]
  }

  /** The number of occurrences of the marker. */
  function Occurrences(text: string): nat {
    if text == [] then 0
    else Occurrences(text[..|text| - 1]) + if Ends(text, GOOD_LEN) then 1 else 0
  }

  /** A marker that follows this text would be noticed: the text does not end with a started marker that
      itself would be noticed. */
  predicate Fresh(text: string)
    decreases |text|
  {
    forall k :: 1 <= k <= 4 && Ends(text, k) ==> !Fresh(text[..|text| - k])
  }

  /** Every occurrence of the marker stands where it will be noticed. */
  predicate Clear(text: string)
    decreases |text|
  {
    text != [] ==>
      && Clear(text[..|text| - 1])
      && (Ends(text, GOOD_LEN) ==> Fresh(text[..|text| - GOOD_LEN]))
  }

  // ---------------------------------------------------------------- what the matcher's position means

  /** Ends, one character at a time. */
  lemma EndsUnfold(text: string, k: nat)
    requires 1 <= k <= GOOD_LEN
    ensures Ends(text, k) <==> text != [] && text[|text| - 1] == GOOD[k - 1] && Ends(text[..|text| - 1], k - 1)
    ensures Ends(text, k) ==> text[..|text| - 1][..|text| - 1 - (k - 1)] == text[..|text| - k]
  {
    assert GOOD[..k] == GOOD[..k - 1] + [GOOD[k - 1]];
    if k <= |text| {
      assert text[|text| - k..] == text[..|text| - 1][|text| - k..] + [text[|text| - 1]];
    }
  }

  /** From a fresh place the matcher follows the marker. */
  lemma {:induction false} Follows(text: string, k: nat)
    requires k <= 4 && Ends(text, k)
    requires Scan(0, text[..|text| - k]).0 == 0
    ensures Scan(0, text).0 == k
    decreases k
  {
    if k == 0 {
      assert text[..|text| - k] == text;
    } else {
      EndsUnfold(text, k);
      Follows(text[..|text| - 1], k - 1);
    }
  }

  /** At position `k` the matcher has just seen the first `k` characters from a fresh place. */
  lemma {:induction false} PositionSound(text: string)
    ensures var k := Scan(0, text).0; Ends(text, k) && Scan(0, text[..|text| - k]).0 == 0
    decreases |text|
  {
    hide Ends;
    var k := Scan(0, text).0;
    if k == 0 {
      assert text[..|text| - k] == text;
      assert Ends(text, 0) by { EndsNothing(text); }
    } else {
      PositionSound(text[..|text| - 1]);
      EndsUnfold(text, k);
    }
  }

  lemma EndsNothing(text: string)
    ensures Ends(text, 0)
  {}

  /** At position 0 the text is fresh, and at no other. */
  lemma {:induction false} PositionMeaning(text: string)
    ensures Scan(0, text).0 == 0 <==> Fresh(text)
    decreases |text|
  {
    hide Scan;
    PositionSound(text);
    forall k | 1 <= k <= 4 && Ends(text, k)
      ensures Fresh(text[..|text| - k]) <==> Scan(0, text[..|text| - k]).0 == 0
      ensures Scan(0, text[..|text| - k]).0 == 0 ==> Scan(0, text).0 == k
    {
      PositionMeaning(text[..|text| - k]);
      if Scan(0, text[..|text| - k]).0 == 0 {
        Follows(text, k);
      }
    }
  }

  /** The last octet completes a marker exactly when the text ends with one that began at a fresh place. */
  lemma HitMeaning(text: string)
    requires text != []
    ensures Octet(Scan(0, text[..|text| - 1]).0, text[|text| - 1]).1
       <==> Ends(text, GOOD_LEN) && Fresh(text[..|text| - GOOD_LEN])
  {
    hide Scan, Fresh;
    var init := text[..|text| - 1];
    PositionSound(init);
    EndsUnfold(text, GOOD_LEN);
    if Ends(text, GOOD_LEN) {
      PositionMeaning(text[..|text| - GOOD_LEN]);
      if Fresh(text[..|text| - GOOD_LEN]) {
        Follows(init, 4);
      }
    }
  }

  // ---------------------------------------------------------------- counting

  /** The matcher never counts more than there is, and counts everything if and only if every occurrence
      stands in a fresh place. */
  lemma {:induction false} CountsExactlyWhenClear(text: string)
    ensures Scan(0, text).1 <= Occurrences(text)
    ensures Scan(0, text).1 == Occurrences(text) <==> Clear(text)
    decreases |text|
  {
    if text != [] {
      CountsExactlyWhenClear(text[..|text| - 1]);
      HitMeaning(text);
    }
  }

  /** The text ends with the beginning of a marker. */
  predicate Started(text: string) {
    exists k :: 1 <= k <= 4 && Ends(text, k)
  }

  /** No occurrence of the marker comes directly after the beginning of another. */
  predicate Separated(text: string)
    decreases |text|
  {
    text != [] ==>
      && Separated(text[..|text| - 1])
      && (Ends(text, GOOD_LEN) ==> !Started(text[..|text| - GOOD_LEN]))
  }

  /** A condition that is easy to see in a response: markers that do not follow a started marker are all counted. */
  lemma {:induction false} SeparatedIsCounted(text: string)
    requires Separated(text)
    ensures Clear(text) && Scan(0, text).1 == Occurrences(text)
    decreases |text|
  {
    CountsExactlyWhenClear(text);
    if text != [] {
      SeparatedIsCounted(text[..|text| - 1]);
    }
  }

  lemma ScanPush(text: string, c: char)
    ensures var (k, hits) := Scan(0, text);
            Scan(0, text + [c]) == (Octet(k, c).0, if Octet(k, c).1 then hits + 1 else hits)
  {
    assert (text + [c])[..|text|] == text;
  }

  /** In any fresh place a doubled opening quote hides the marker, and a tripled one shows it again. */
  lemma DoubledQuoteHides(text: string)
    requires Fresh(text)
    ensures Scan(0, text + ['"'] + GOOD).1 == Scan(0, text).1
    ensures Scan(0, text + ['"', '"'] + GOOD).1 == Scan(0, text).1 + 1
  {
    hide Scan;
    PositionMeaning(text);
    var a1 := text + ['"'];
    var a2 := a1 + ['"']; var a3 := a2 + ['i']; var a4 := a3 + ['d']; var a5 := a4 + ['"']; var a6 := a5 + [':'];
    ScanPush(text, '"'); ScanPush(a1, '"'); ScanPush(a2, 'i'); ScanPush(a3, 'd'); ScanPush(a4, '"'); ScanPush(a5, ':');
    assert text + ['"'] + GOOD == a6;
    var b3 := a2 + ['"']; var b4 := b3 + ['i']; var b5 := b4 + ['d']; var b6 := b5 + ['"']; var b7 := b6 + [':'];
    ScanPush(a2, '"'); ScanPush(b3, 'i'); ScanPush(b4, 'd'); ScanPush(b5, '"'); ScanPush(b6, ':');
    assert text + ['"', '"'] + GOOD == b7;
  }

  /** The marker is the five characters "id": with their quotes and colon; wherever they follow a fresh text, in
      particular at the start, they are counted. */
  lemma MarkerText(text: string)
    requires Fresh(text)
    ensures Scan(0, text + "\"id\":").1 == Scan(0, text).1 + 1
  {
    hide Scan;
    PositionMeaning(text);
    var a1 := text + ['"']; var a2 := a1 + ['i']; var a3 := a2 + ['d']; var a4 := a3 + ['"']; var a5 := a4 + [':'];
    ScanPush(text, '"'); ScanPush(a1, 'i'); ScanPush(a2, 'd'); ScanPush(a3, '"'); ScanPush(a4, ':');
    assert text + "\"id\":" == a5;
  }

  /** Two counted markers never overlap. */
  lemma HitsAreDisjoint(text: string, j: nat)
    requires text != [] && 1 <= j <= 4 && j < |text|
    requires Octet(Scan(0, text[..|text| - 1]).0, text[|text| - 1]).1
    ensures var earlier := text[..|text| - j]; !Octet(Scan(0, earlier[..|earlier| - 1]).0, earlier[|earlier| - 1]).1
  {
    HitMeaning(text);
    var earlier := text[..|text| - j];
    HitMeaning(earlier);
    assert text[|text| - 5..][4 - j] == GOOD[4 - j] == earlier[|earlier| - 1];
  }

  // ---------------------------------------------------------------- the parser

  /** good_upload_done called `times` times. */
  function DoneTimes(log: Log, times: nat): Log {
    if times == 0 then log else DoneTimes(log, times - 1).Done()
  }

  lemma {:induction false} DoneTimesAdd(log: Log, a: nat, b: nat)
    ensures DoneTimes(DoneTimes(log, a), b) == DoneTimes(log, a + b)
    decreases b
  {
    if b > 0 {
      DoneTimesAdd(log, a, b - 1);
    }
  }

  lemma EmptyScan(index: nat, log: Log)
    requires index < GOOD_LEN
    ensures Scan(index, []) == (index, 0) && DoneTimes(log, 0) == log
  {}

  function Flatten(chain: seq<string>): string {
    if chain == [] then [] else Flatten(chain[..|chain| - 1]) + chain[|chain| - 1]
  }

  class Parser {
    var goodIndex: nat
    var badIndex: nat

    ghost predicate Valid()
      reads this
    {
      goodIndex < GOOD_LEN && badIndex == 0
    }

    /** reset_http_response_parser */
    constructor ()
      ensures Valid() && goodIndex == 0
    {
      goodIndex, badIndex := 0, 0;
    }

    /** reset_http_response_parser, on connection */
    method Reset()
      modifies this
      ensures Valid() && goodIndex == 0
    {
      goodIndex, badIndex := 0, 0;
    }

    /** parse_http_response_buffer */
    method ParseBuffer(buffer: string, memory: Memory.Memory)
      requires Valid() && memory.Valid()
      modifies this, memory`readIndex, memory`page, memory.indexesBuf
      ensures Valid()
      ensures goodIndex == Scan(old(goodIndex), buffer).0
      ensures memory.Value() == DoneTimes(old(memory.Value()), Scan(old(goodIndex), buffer).1)
    {
      var i := 0;
      while i < |buffer|
        invariant 0 <= i <= |buffer| && Valid()
        invariant goodIndex == Scan(old(goodIndex), buffer[..i]).0
        invariant memory.Value() == DoneTimes(old(memory.Value()), Scan(old(goodIndex), buffer[..i]).1)
      {
        assert buffer[..i + 1][..i] == buffer[..i];
        var matched := buffer[i] == GOOD[goodIndex];
        goodIndex := goodIndex + 1;
        if !matched {
          goodIndex := 0;
        } else if goodIndex == GOOD_LEN {
          memory.GoodUploadDone();
          goodIndex := 0;
        }
        if buffer[i] != BAD[badIndex] {
          badIndex := 0;
        }
        i := i + 1;
      }
      assert buffer[..|buffer|] == buffer;
    }

    /** The traversal of a received pbuf chain in server_tcp_recv. */
    method Receive(chain: seq<string>, memory: Memory.Memory)
      requires Valid() && memory.Valid() && chain != []
      modifies this, memory`readIndex, memory`page, memory.indexesBuf
      ensures Valid()
      ensures goodIndex == Scan(old(goodIndex), Flatten(chain)).0
      ensures memory.Value() == DoneTimes(old(memory.Value()), Scan(old(goodIndex), Flatten(chain)).1)
    {
      hide Scan, DoneTimes;
      EmptyScan(goodIndex, memory.Value());
      var i := 0;
      while i < |chain|
        invariant 0 <= i <= |chain| && Valid()
        invariant goodIndex == Scan(old(goodIndex), Flatten(chain[..i])).0
        invariant memory.Value() == DoneTimes(old(memory.Value()), Scan(old(goodIndex), Flatten(chain[..i])).1)
      {
        assert Flatten(chain[..i + 1]) == Flatten(chain[..i]) + chain[i]
        by { assert chain[..i + 1][..i] == chain[..i]; }
        ScanSplit(old(goodIndex), Flatten(chain[..i]), chain[i]);
        DoneTimesAdd(old(memory.Value()), Scan(old(goodIndex), Flatten(chain[..i])).1, Scan(goodIndex, chain[i]).1);
        ParseBuffer(chain[i], memory);
        i := i + 1;
      }
      assert chain[..|chain|] == chain;
    }
  }
}
