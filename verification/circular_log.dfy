/** The circular record log of src/memory/memory.c on values, and its refinement of a bounded first-in
    first-out queue.

    `read` is the oldest block not yet uploaded and `write` the last block written; the live window runs from
    one to the other inclusive, wrapping from the last valid block to block 1. */
module CircularLog {
  import opened Common
  import opened Checksum
  import opened IndexPage
  import OctetBits

  const LAST_ADDRESSABLE := 0x7F_FFFF

  /** The number of the last block is_block_valid accepts on a card of `sectors` sectors. */
  function LastBlock(sectors: nat): nat
    requires sectors > 0
  {
    if sectors - 1 < LAST_ADDRESSABLE then sectors - 1 else LAST_ADDRESSABLE
  }

  /** Valid blocks end with the card, or with the last block whose octets all have 32-bit addresses. */
  lemma LastBlockMeaning(sectors: nat, block: nat)
    requires sectors > 0
    ensures block <= LastBlock(sectors) <==> block < sectors && 512 * block + 511 < TWO_32
  {}

  predicate IsBlockValid(n: nat, block: nat) { 1 <= block <= n }

  function NextBlock(n: nat, block: u32): (next: u32) {
    var next := (block + 1) % TWO_32;
    if IsBlockValid(n, next) then next else 1
  }

  /** The index page as far as a record would reach into it. */
  function PageRecord(p: Page): Record {
    OctetBits.WordsOctets(p[..6])
  }

  /** The card (record blocks and index page) and the indexes in memory. `n` is the last valid block. */
  datatype Log = Log(n: nat, disk: map<nat, Record>, page: Page, read: u32, write: u32) {

    predicate Valid() {
      && 1 <= n <= LAST_ADDRESSABLE
      && IsBlockValid(n, read)
      && IsBlockValid(n, write)
    }

    /** put_sample; the result says whether the record was stored. */
    function Put(record: Record): (Log, bool) {
      var next := NextBlock(n, write);
      if next != read then
        (this.(disk := disk[next := record], write := next,
               page := if next % 8 == 0 then EncodePage(read, next) else page), true)
      else
        (this, false)
    }

    /** good_upload_done */
    function Done(): Log {
      var next := NextBlock(n, read);
      this.(read := next, page := if next % 8 == 0 then EncodePage(next, write) else page)
    }

    /** The first 24 octets of a block, if it can be read. Block 0 is the index page. */
    function Block(block: nat): Option<Record> {
      if block == 0 then Some(PageRecord(page)) else if block in disk then Some(disk[block]) else None
    }

    /** get_sample: what the encoder is given for a block, None standing for its null result. */
    function Sample(block: nat): Option<Record> {
      var read := Block(block);
      if read.Some? && Evaluate(read.value) then read else None
    }
  }

  // ---------------------------------------------------------------- blocks counted backwards from the newest

  /** The block `k` places behind `w` around the ring of `n` blocks. */
  function Back(n: nat, w: nat, k: nat): int {
    if k < w then w - k else w - k + n
  }

  lemma NextIsAhead(n: nat, w: u32)
    requires n <= LAST_ADDRESSABLE && 1 <= w <= n
    ensures NextBlock(n, w) == (if w == n then 1 else w + 1)
    ensures forall k :: 0 <= k < n ==> Back(n, NextBlock(n, w), k + 1) == Back(n, w, k)
    ensures Back(n, NextBlock(n, w), 0) == NextBlock(n, w)
  {}

  // ---------------------------------------------------------------- what the log stands for

  /** The log has stored the records `all`, oldest first, and the first `taken` of them have been uploaded.
      The card still holds the last `n` of them, whether uploaded or not. */
  ghost predicate Stores(log: Log, all: seq<Record>, taken: nat) {
    && log.Valid()
    && taken < |all| <= taken + log.n
    && log.read == Back(log.n, log.write, |all| - 1 - taken)
    && forall k :: 0 <= k < log.n && k < |all| ==>
         Back(log.n, log.write, k) in log.disk && log.disk[Back(log.n, log.write, k)] == all[|all| - 1 - k]
  }

  /** A put appends exactly when fewer than `n` records are waiting, and otherwise changes nothing. The test
      the source makes, `next == read`, is precisely "full". */
  lemma PutRefines(log: Log, all: seq<Record>, taken: nat, record: Record)
    requires Stores(log, all, taken)
    ensures NextBlock(log.n, log.write) == log.read <==> |all| - taken == log.n
    ensures log.Put(record).1 <==> |all| - taken < log.n
    ensures !log.Put(record).1 ==> log.Put(record).0 == log
    ensures log.Put(record).1 ==> Stores(log.Put(record).0, all + [record], taken)
  {
    var n, w := log.n, log.write;
    NextIsAhead(n, w);
    var (log', stored) := log.Put(record);
    if stored {
      var all' := all + [record];
      forall k | 0 <= k < n && k < |all'|
        ensures Back(n, log'.write, k) in log'.disk && log'.disk[Back(n, log'.write, k)] == all'[|all'| - 1 - k]
      {
        if k > 0 {
          assert Back(n, log'.write, k - 1 + 1) == Back(n, w, k - 1);
        }
      }
      assert log'.read == Back(n, log'.write, |all| - 1 - taken + 1);
    }
  }

  /** An upload acknowledgement removes the oldest record, as long as it is not also the newest. */
  lemma DoneRefines(log: Log, all: seq<Record>, taken: nat)
    requires Stores(log, all, taken)
    ensures log.read == log.write <==> taken + 1 == |all|
    ensures log.read != log.write ==> Stores(log.Done(), all, taken + 1)
  {
    NextIsAhead(log.n, log.read);
  }

  /** Acknowledged once too often, the log looks full: it refuses every record from then on. */
  lemma DoneAtNewestJams(log: Log, record: Record)
    requires log.Valid() && log.read == log.write
    ensures log.Done().Put(record) == (log.Done(), false)
  {}

  /** The number of the block that holds record `i`. */
  function BlockOf(log: Log, all: seq<Record>, i: nat): int
    requires i < |all|
  {
    Back(log.n, log.write, |all| - 1 - i)
  }

  /** A record keeps its block while it is on the card, whatever is put after it. */
  lemma BlockKept(log: Log, all: seq<Record>, taken: nat, record: Record, i: nat)
    requires Stores(log, all, taken) && taken <= i < |all|
    requires log.Put(record).1
    ensures BlockOf(log.Put(record).0, all + [record], i) == BlockOf(log, all, i)
    ensures BlockOf(log, all, i) in log.disk && BlockOf(log, all, i) in log.Put(record).0.disk
    ensures log.Put(record).0.disk[BlockOf(log, all, i)] == log.disk[BlockOf(log, all, i)] == all[i]
  {
    PutRefines(log, all, taken, record);
    NextIsAhead(log.n, log.write);
    assert Back(log.n, NextBlock(log.n, log.write), |all| - 1 - i + 1) == Back(log.n, log.write, |all| - 1 - i);
  }

  // ---------------------------------------------------------------- runs

  datatype Event = PutEvent(record: Record) | DoneEvent | ReadEvent(position: nat)

  datatype Answer = Stored(ok: bool) | Acknowledged | Contents(record: Option<Record>)

  /** The log's reply to an event; reading position `k` asks get_sample for the k-th block of the live window. */
  function LogStep(log: Log, e: Event): (Log, Answer) {
    match e
    case PutEvent(record) => var (log', ok) := log.Put(record); (log', Stored(ok))
    case DoneEvent => (log.Done(), Acknowledged)
    case ReadEvent(k) =>
      var block := if log.read + k <= log.n then log.read + k else log.read + k - log.n;
      (log, Contents(log.Sample(block)))
  }

  /** The bounded queue: an independent description, without blocks or indexes. Like the log it hands out only
      records that pass the checksum test. */
  function QueueStep(capacity: nat, q: seq<Record>, e: Event): (seq<Record>, Answer) {
    match e
    case PutEvent(record) => if |q| < capacity then (q + [record], Stored(true)) else (q, Stored(false))
    case DoneEvent => (if q == [] then [] else q[1..], Acknowledged)
    case ReadEvent(k) => (q, Contents(if k < |q| && Evaluate(q[k]) then Some(q[k]) else None))
  }

  /** Callers acknowledge only while more than the newest record waits, and read inside the window. */
  predicate Permitted(q: seq<Record>, e: Event) {
    match e
    case PutEvent(_) => true
    case DoneEvent => |q| > 1
    case ReadEvent(k) => k < |q|
  }

  predicate PermittedRun(capacity: nat, q: seq<Record>, es: seq<Event>)
    decreases es
  {
    es != [] ==> Permitted(q, es[0]) && PermittedRun(capacity, QueueStep(capacity, q, es[0]).0, es[1..])
  }

  function LogRun(log: Log, es: seq<Event>): (Log, seq<Answer>)
    decreases es
  {
    if es == [] then (log, [])
    else
      var (log', a) := LogStep(log, es[0]);
      var (end, rest) := LogRun(log', es[1..]);
      (end, [a] + rest)
  }

  function QueueRun(capacity: nat, q: seq<Record>, es: seq<Event>): (seq<Record>, seq<Answer>)
    decreases es
  {
    if es == [] then (q, [])
    else
      var (q', a) := QueueStep(capacity, q, es[0]);
      var (end, rest) := QueueRun(capacity, q', es[1..]);
      (end, [a] + rest)
  }

  /** The log stands for the queue `q`. */
  ghost predicate Represents(log: Log, q: seq<Record>) {
    exists all: seq<Record>, taken: nat :: Stores(log, all, taken) && q == all[taken..]
  }

  lemma StepRefines(log: Log, q: seq<Record>, e: Event)
    requires Represents(log, q) && Permitted(q, e)
    ensures Represents(LogStep(log, e).0, QueueStep(log.n, q, e).0)
    ensures LogStep(log, e).1 == QueueStep(log.n, q, e).1
    ensures LogStep(log, e).0.n == log.n
  {
    hide Evaluate, PageRecord;
    var all: seq<Record>, taken: nat :| Stores(log, all, taken) && q == all[taken..];
    match e
    case PutEvent(record) =>
      PutRefines(log, all, taken, record);
      assert (all + [record])[taken..] == q + [record];
    case DoneEvent =>
      DoneRefines(log, all, taken);
      assert all[taken + 1..] == q[1..];
    case ReadEvent(k) =>
      assert Back(log.n, log.write, |all| - 1 - (taken + k)) ==
             if log.read + k <= log.n then log.read + k else log.read + k - log.n;
  }

  /** Over every permitted run, across every wrap-around, the log gives the answers of a bounded queue of
      capacity `n` and ends standing for the queue's contents. */
  lemma {:induction false} RunRefinesQueue(log: Log, q: seq<Record>, es: seq<Event>)
    requires Represents(log, q) && PermittedRun(log.n, q, es)
    ensures LogRun(log, es).1 == QueueRun(log.n, q, es).1
    ensures Represents(LogRun(log, es).0, QueueRun(log.n, q, es).0)
    decreases es
  {
    if es != [] {
      StepRefines(log, q, es[0]);
      RunRefinesQueue(LogStep(log, es[0]).0, QueueStep(log.n, q, es[0]).0, es[1..]);
    }
  }

  // ---------------------------------------------------------------- unset indexes

  function PutAll(log: Log, records: seq<Record>): (Log, seq<bool>)
    decreases records
  {
    if records == [] then (log, [])
    else
      var (log', ok) := log.Put(records[0]);
      var (end, oks) := PutAll(log', records[1..]);
      (end, [ok] + oks)
  }

  lemma {:induction false} PutAllConcat(log: Log, a: seq<Record>, b: seq<Record>)
    ensures PutAll(log, a + b).0 == PutAll(PutAll(log, a).0, b).0
    ensures PutAll(log, a + b).1 == PutAll(log, a).1 + PutAll(PutAll(log, a).0, b).1
    decreases a
  {
    if a == [] {
      assert a + b == b;
    } else {
      assert (a + b)[1..] == a[1..] + b;
      PutAllConcat(log.Put(a[0]).0, a[1..], b);
    }
  }

  /** The protection against overwriting depends on `read` being a valid block: from any other value no put
      is ever refused. */
  lemma {:induction false} UnsetReadNeverRefuses(log: Log, records: seq<Record>)
    requires log.n >= 1 && !IsBlockValid(log.n, log.read)
    ensures forall ok :: ok in PutAll(log, records).1 ==> ok
    ensures PutAll(log, records).0.read == log.read && PutAll(log, records).0.n == log.n
    decreases records
  {
    if records != [] {
      UnsetReadNeverRefuses(log.Put(records[0]).0, records[1..]);
    }
  }

  lemma {:induction false} FirstLap(log: Log, records: seq<Record>)
    requires 1 <= log.n <= LAST_ADDRESSABLE && !IsBlockValid(log.n, log.read)
    requires log.write == 0 || log.write == 0xFFFF_FFFF
    requires 1 <= |records| <= log.n
    ensures PutAll(log, records).0.write == |records| && PutAll(log, records).0.n == log.n
    ensures PutAll(log, records).0.read == log.read
    decreases |records|
  {
    var init, last := records[..|records| - 1], records[|records| - 1];
    assert records == init + [last];
    PutAllConcat(log, init, [last]);
    assert [last][1..] == [];
    if init != [] {
      FirstLap(log, init);
    }
  }

  lemma LapOver(log: Log, record: Record)
    requires 1 <= log.n <= LAST_ADDRESSABLE && !IsBlockValid(log.n, log.read) && log.write == log.n
    ensures 1 in PutAll(log, [record]).0.disk && PutAll(log, [record]).0.disk[1] == record
  {
    assert [record][1..] == [];
  }

  /** From the two unset start states a full lap of the card silently replaces the first record. */
  lemma UnsetIndexesLoseBlockOne(log: Log, records: seq<Record>)
    requires 1 <= log.n <= LAST_ADDRESSABLE && !IsBlockValid(log.n, log.read)
    requires log.write == 0 || log.write == 0xFFFF_FFFF
    requires |records| == log.n + 1
    ensures log.Put(records[0]).1 && log.Put(records[0]).0.write == 1
    ensures 1 in PutAll(log, records).0.disk && PutAll(log, records).0.disk[1] == records[log.n]
  {
    hide PutAll;
    var init, last := records[..log.n], records[log.n];
    assert records == init + [last];
    PutAllConcat(log, init, [last]);
    FirstLap(log, init);
    LapOver(PutAll(log, init).0, last);
  }
}
