/** The output machine of src/server_tcp.c on values: phases that refill a buffer, and a writer that gets rid
    of as much of it as TCP will take. */
module ServerTcp {
  import opened Common
  import opened Checksum
  import opened HttpTx

  const OP_HTTP_HEADER := 0
  const OP_JSON_HEADER := 1
  const OP_JSON_DATA := 2
  const OP_JSON_FOOTER := 3
  const OP_WAIT_BEFORE_CLOSE := 4
  const OP_CLOSE := 5
  const OP_FINISHED := 6

  const WAIT_BEFORE_CLOSE := 30000
  const MAX_WRITE_ERR := 20000

  /** What tcp_write can answer. ERR_MEM comes with what the test for room then finds. */
  datatype TcpAnswer = Accepted | NoMemory(noRoom: bool) | Failed

  /** The answers to the successive attempts of one server_tcp_write. */
  type Tcp = nat -> TcpAnswer

  datatype Config = Config(host: string, auth: Option<seq<u8>>, count: u16)

  /** A connected session. `pending` is the part of the output buffer between the current position and the
      current length; `wire` is all TCP has accepted and `samples` all the log has returned. */
  datatype Session = Session(
    config: Config,
    phase: nat,
    memIndex: u32,
    recordsIndex: u16,
    pending: string,
    wait: u16,
    writeErr: u32,
    closed: bool,
    wire: string,
    samples: seq<Option<Record>>)

  /** server_tcp_init: the cleared state. */
  function Start(config: Config, readIndex: u32): Session {
    Session(config, OP_HTTP_HEADER, readIndex, 0, [], 0, 0, false, [], [])
  }

  // ---------------------------------------------------------------- one call

  /** server_tcp_write: the length accepted, trying less and less while memory is short. */
  function TryWrite(len: nat, tcp: Tcp, attempt: nat): (r: Option<nat>)
    requires len > 0
    ensures r.Some? ==> 1 <= r.value <= len
    decreases len
  {
    match tcp(attempt)
    case Accepted => Some(len)
    case Failed => None
    case NoMemory(noRoom) =>
      var less := if noRoom then 1 else len / 2;
      if less > 1 then TryWrite(less, tcp, attempt + 1) else None
  }

  /** server_current_tcp_out; the buffer is empty afterwards exactly when the source returns 1. */
  function Flush(s: Session, tcp: Tcp): Session {
    if s.pending == [] then s
    else
      match TryWrite(|s.pending|, tcp, 0)
      case Some(n) =>
        s.(wire := s.wire + s.pending[..n], pending := s.pending[n..],
           writeErr := if n < |s.pending| then 0 else s.writeErr)
      case None =>
        var errors := (s.writeErr + 1) % TWO_32;
        s.(writeErr := errors, closed := s.closed || errors > MAX_WRITE_ERR)
  }

  /** The switch in server_tcp_out; `sample` is what get_sample returns if it is asked. */
  function Refill(s: Session, sample: Option<Record>): Session {
    var c := s.config;
    if s.phase == OP_HTTP_HEADER then
      s.(pending := Header(c.host, c.auth, c.count), phase := OP_JSON_HEADER)
    else if s.phase == OP_JSON_HEADER then
      s.(pending := JSON_HEADER, phase := OP_JSON_DATA)
    else if s.phase == OP_JSON_DATA then
      var index := (s.recordsIndex + 1) % TWO_16;
      if s.recordsIndex < c.count then
        s.(recordsIndex := index, memIndex := (s.memIndex + 1) % TWO_32, samples := s.samples + [sample],
           pending := Element(sample, index < c.count))
      else
        s.(recordsIndex := index, phase := OP_JSON_FOOTER)
    else if s.phase == OP_JSON_FOOTER then
      s.(pending := JSON_FOOTER, phase := OP_WAIT_BEFORE_CLOSE)
    else if s.phase == OP_WAIT_BEFORE_CLOSE then
      s.(wait := (s.wait + 1) % TWO_16, phase := if s.wait > WAIT_BEFORE_CLOSE then OP_CLOSE else OP_WAIT_BEFORE_CLOSE)
    else if s.phase == OP_CLOSE then
      s.(closed := true, phase := OP_FINISHED)
    else
      s
  }

  /** server_tcp_out on a connected session */
  function Out(s: Session, first: Tcp, sample: Option<Record>, second: Tcp): Session {
    var flushed := Flush(s, first);
    if flushed.pending == [] then Flush(Refill(flushed, sample), second) else flushed
  }

  // ---------------------------------------------------------------- what has been handed to the buffer

  /** Everything the phases have produced so far. */
  function Emitted(s: Session): string {
    var c := s.config;
    if s.phase == OP_HTTP_HEADER then []
    else if s.phase == OP_JSON_HEADER then Header(c.host, c.auth, c.count)
    else if s.phase <= OP_JSON_FOOTER then Header(c.host, c.auth, c.count) + JSON_HEADER + Elements(s.samples, c.count)
    else Header(c.host, c.auth, c.count) + JSON_HEADER + Elements(s.samples, c.count) + JSON_FOOTER
  }

  /** The counters agree with the phase, for a session that began at block `start`. */
  predicate Counted(s: Session, start: nat) {
    && 1 <= s.config.count
    && s.phase <= OP_FINISHED
    && |s.samples|
       == (if s.phase < OP_JSON_DATA then 0 else if s.phase == OP_JSON_DATA then s.recordsIndex else s.config.count)
    && (s.phase < OP_JSON_DATA ==> s.recordsIndex == 0)
    && |s.samples| <= s.config.count
    && s.memIndex == (start + |s.samples|) % TWO_32
    && s.wait <= (if s.phase < OP_WAIT_BEFORE_CLOSE then 0
                  else if s.phase == OP_WAIT_BEFORE_CLOSE then WAIT_BEFORE_CLOSE + 1
                  else WAIT_BEFORE_CLOSE + 2)
  }

  /** Nothing produced is lost, repeated or reordered on its way to TCP. */
  ghost predicate InOrder(s: Session, start: nat) {
    Counted(s, start) && s.wire + s.pending == Emitted(s)
  }

  lemma FlushMovesOctets(s: Session, tcp: Tcp)
    ensures Flush(s, tcp).wire + Flush(s, tcp).pending == s.wire + s.pending && s.wire <= Flush(s, tcp).wire
    ensures Flush(s, tcp) == s.(wire := Flush(s, tcp).wire, pending := Flush(s, tcp).pending,
                                writeErr := Flush(s, tcp).writeErr, closed := Flush(s, tcp).closed)
  {
    if s.pending != [] && TryWrite(|s.pending|, tcp, 0).Some? {
      var n := TryWrite(|s.pending|, tcp, 0).value;
      assert s.pending == s.pending[..n] + s.pending[n..];
      assert s.wire + s.pending[..n] + s.pending[n..] == s.wire + s.pending;
    }
  }

  lemma FlushKeepsOrder(s: Session, start: nat, tcp: Tcp)
    requires InOrder(s, start)
    ensures InOrder(Flush(s, tcp), start)
  {
    hide Flush, Header, Elements, JSON_HEADER, JSON_FOOTER;
    FlushMovesOctets(s, tcp);
  }

  lemma ElementsGrow(samples: seq<Option<Record>>, sample: Option<Record>, count: nat)
    ensures Elements(samples + [sample], count) == Elements(samples, count) + Element(sample, |samples| + 1 < count)
    ensures Elements([], count) == []
  {
    hide Element;
    assert (samples + [sample])[..|samples|] == samples;
  }

  lemma RefillKeepsCount(s: Session, start: nat, sample: Option<Record>)
    requires Counted(s, start)
    ensures Counted(Refill(s, sample), start)
  {
    hide Header, Element, JSON_HEADER, JSON_FOOTER;
    if s.phase == OP_JSON_DATA && s.recordsIndex < s.config.count {
      assert ((start + |s.samples|) % TWO_32 + 1) % TWO_32 == (start + |s.samples| + 1) % TWO_32;
    }
  }

  lemma RefillEmits(s: Session, start: nat, sample: Option<Record>)
    requires Counted(s, start) && s.pending == []
    ensures Emitted(Refill(s, sample)) == Emitted(s) + Refill(s, sample).pending
  {
    hide Header, Elements, Element, JSON_HEADER, JSON_FOOTER;
    ElementsGrow(s.samples, sample, s.config.count);
  }

  lemma RefillKeepsOrder(s: Session, start: nat, sample: Option<Record>)
    requires InOrder(s, start) && s.pending == []
    ensures InOrder(Refill(s, sample), start)
  {
    hide Counted, Emitted, Header, Element, JSON_HEADER, JSON_FOOTER;
    RefillKeepsCount(s, start, sample);
    RefillEmits(s, start, sample);
  }

  /** Every call keeps the session in order, whatever TCP accepts or refuses. */
  lemma OutKeepsOrder(s: Session, start: nat, first: Tcp, sample: Option<Record>, second: Tcp)
    requires InOrder(s, start)
    ensures InOrder(Out(s, first, sample, second), start)
  {
    hide InOrder, Flush, Refill;
    FlushKeepsOrder(s, start, first);
    var flushed := Flush(s, first);
    if flushed.pending == [] {
      RefillKeepsOrder(flushed, start, sample);
      FlushKeepsOrder(Refill(flushed, sample), start, second);
    }
  }

  /** A call never goes back: the phase, the samples and the octets accepted only grow. */
  lemma OutGoesForward(s: Session, first: Tcp, sample: Option<Record>, second: Tcp)
    ensures var t := Out(s, first, sample, second);
            t.config == s.config && s.phase <= t.phase && s.samples <= t.samples && s.wire <= t.wire
  {
    hide Flush, Header, Element, JSON_HEADER, JSON_FOOTER;
    FlushMovesOctets(s, first);
    FlushMovesOctets(Refill(Flush(s, first), sample), second);
  }

  // ---------------------------------------------------------------- runs

  datatype Call = Call(first: Tcp, sample: Option<Record>, second: Tcp)

  function Calls(s: Session, calls: seq<Call>): Session {
    if calls == [] then s
    else
      var c := calls[|calls| - 1];
      Out(Calls(s, calls[..|calls| - 1]), c.first, c.sample, c.second)
  }

  lemma {:induction false} RunKeepsOrder(s: Session, start: nat, calls: seq<Call>)
    requires InOrder(s, start)
    ensures InOrder(Calls(s, calls), start) && Calls(s, calls).config == s.config
    decreases |calls|
  {
    hide InOrder, Out;
    if calls != [] {
      var t, c := Calls(s, calls[..|calls| - 1]), calls[|calls| - 1];
      RunKeepsOrder(s, start, calls[..|calls| - 1]);
      OutKeepsOrder(t, start, c.first, c.sample, c.second);
      OutGoesForward(t, c.first, c.sample, c.second);
    }
  }

  lemma StartInOrder(config: Config, readIndex: u32)
    requires config.count >= 1
    ensures InOrder(Start(config, readIndex), readIndex)
  {}

  /** The elements read so far begin every completion of them. */
  lemma {:induction false} ElementsPrefix(some: seq<Option<Record>>, all: seq<Option<Record>>, count: nat)
    requires some <= all
    ensures Elements(some, count) <= Elements(all, count)
    decreases |all|
  {
    hide Element;
    if |some| < |all| {
      ElementsPrefix(some, all[..|all| - 1], count);
    } else {
      assert some == all;
    }
  }

  /** The message the session is meant to send when the log returns `all`. */
  function Intended(config: Config, all: seq<Option<Record>>): string
    requires |all| < TWO_16
  {
    Message(config.host, config.auth, all)
  }

  lemma EmittedIsPrefix(s: Session, start: nat, all: seq<Option<Record>>)
    requires Counted(s, start) && s.samples <= all && |all| == s.config.count
    ensures Emitted(s) <= Intended(s.config, all)
    ensures s.phase >= OP_WAIT_BEFORE_CLOSE ==> s.samples == all && Emitted(s) == Intended(s.config, all)
  {
    hide Header, Elements, JSON_HEADER, JSON_FOOTER;
    var c := s.config;
    ElementsPrefix(s.samples, all, c.count);
    var h, e, f := Header(c.host, c.auth, c.count), Elements(s.samples, c.count), Elements(all, c.count);
    assert f == e + f[|e|..];
    assert Intended(c, all) == h + JSON_HEADER + f + JSON_FOOTER;
    assert Intended(c, all) == h + (JSON_HEADER + f + JSON_FOOTER);
    assert Intended(c, all) == h + JSON_HEADER + e + (f[|e|..] + JSON_FOOTER);
    if s.phase > OP_JSON_DATA {
      assert s.samples == all;
    }
  }

  /** In every run, whatever TCP does, the accepted octets followed by the unsent ones begin the message of
      every completion of the samples read so far; once the machine waits to close with nothing unsent, the
      accepted octets are the whole message: nothing lost, repeated or reordered. */
  lemma WireIsTheMessage(config: Config, readIndex: u32, calls: seq<Call>, all: seq<Option<Record>>)
    requires config.count >= 1
    requires Calls(Start(config, readIndex), calls).samples <= all && |all| == config.count
    ensures var s := Calls(Start(config, readIndex), calls);
            && s.wire + s.pending <= Intended(config, all)
            && (s.phase >= OP_WAIT_BEFORE_CLOSE && s.pending == [] ==>
                  s.samples == all && s.wire == Intended(config, all))
  {
    hide Emitted, Intended, Calls, Counted;
    StartInOrder(config, readIndex);
    RunKeepsOrder(Start(config, readIndex), readIndex, calls);
    EmittedIsPrefix(Calls(Start(config, readIndex), calls), readIndex, all);
  }

  // ---------------------------------------------------------------- progress

  /** Octets and steps still to come after what is in the buffer. */
  function Ahead(s: Session): int {
    var c := s.config;
    var waiting := WAIT_BEFORE_CLOSE + 2 - s.wait + 1;
    var footer := |JSON_FOOTER| + 1 + waiting;
    var data := (c.count - |s.samples|) * (RECORD_CHARS + 2) + 1 + footer;
    var header := |JSON_HEADER| + 1 + data;
    if s.phase == OP_HTTP_HEADER then |Header(c.host, c.auth, c.count)| + 1 + header
    else if s.phase == OP_JSON_HEADER then header
    else if s.phase == OP_JSON_DATA then data
    else if s.phase == OP_JSON_FOOTER then footer
    else if s.phase == OP_WAIT_BEFORE_CLOSE then waiting
    else if s.phase == OP_CLOSE then 1
    else 0
  }

  /** The work left: unsent octets and everything ahead. */
  function Work(s: Session): int { |s.pending| + Ahead(s) }

  /** The call finds the buffer empty before the end, or has octets accepted. */
  predicate Progresses(s: Session, first: Tcp) {
    if s.pending == [] then s.phase < OP_FINISHED else TryWrite(|s.pending|, first, 0).Some?
  }

  lemma FlushWork(s: Session, tcp: Tcp)
    ensures Work(Flush(s, tcp)) <= Work(s)
    ensures s.pending != [] && TryWrite(|s.pending|, tcp, 0).Some? ==> Work(Flush(s, tcp)) < Work(s)
    ensures s.pending != [] && TryWrite(|s.pending|, tcp, 0).None? ==> Flush(s, tcp).pending != []
  {
    hide Header, JSON_HEADER, JSON_FOOTER;
  }

  lemma RefillWork(s: Session, start: nat, sample: Option<Record>)
    requires Counted(s, start) && s.pending == []
    ensures Work(Refill(s, sample)) <= Work(s) - if s.phase < OP_FINISHED then 1 else 0
  {
    hide Header, Element, JSON_HEADER, JSON_FOOTER;
    ElementLength(sample, (s.recordsIndex + 1) % TWO_16 < s.config.count);
  }

  /** No call adds work, and every call that progresses takes some away. */
  lemma ProgressTakesWork(s: Session, start: nat, first: Tcp, sample: Option<Record>, second: Tcp)
    requires InOrder(s, start)
    ensures Work(Out(s, first, sample, second)) <= Work(s) - if Progresses(s, first) then 1 else 0
  {
    hide Work, Refill, Counted, Emitted;
    FlushKeepsOrder(s, start, first);
    FlushWork(s, first);
    var flushed := Flush(s, first);
    if flushed.pending == [] {
      RefillWork(flushed, start, sample);
      FlushWork(Refill(flushed, sample), second);
    }
  }

  function ProgressingCalls(s: Session, calls: seq<Call>): nat {
    if calls == [] then 0
    else
      ProgressingCalls(s, calls[..|calls| - 1])
      + if Progresses(Calls(s, calls[..|calls| - 1]), calls[|calls| - 1].first) then 1 else 0
  }

  lemma NoWorkMeansFinished(s: Session, start: nat)
    requires Counted(s, start)
    ensures Work(s) >= 0
    ensures Work(s) == 0 <==> s.phase == OP_FINISHED && s.pending == []
  {
    hide Header, JSON_HEADER, JSON_FOOTER;
  }

  /** In every run the progressing calls are bounded by the work at the start, and when they reach it the
      session is over, with the connection closed and nothing unsent. */
  lemma {:induction false} ProgressIsBounded(s: Session, start: nat, calls: seq<Call>)
    requires InOrder(s, start)
    ensures 0 <= Work(Calls(s, calls)) && ProgressingCalls(s, calls) + Work(Calls(s, calls)) <= Work(s)
    ensures ProgressingCalls(s, calls) == Work(s) ==>
            Calls(s, calls).phase == OP_FINISHED && Calls(s, calls).pending == []
    decreases |calls|
  {
    hide Counted, Emitted, Out, Work, Progresses;
    if calls != [] {
      var t, c := Calls(s, calls[..|calls| - 1]), calls[|calls| - 1];
      ProgressIsBounded(s, start, calls[..|calls| - 1]);
      RunKeepsOrder(s, start, calls[..|calls| - 1]);
      ProgressTakesWork(t, start, c.first, c.sample, c.second);
    }
    RunKeepsOrder(s, start, calls);
    NoWorkMeansFinished(Calls(s, calls), start);
  }

  /** The work of a whole session, in figures. */
  lemma WorkAtStart(config: Config, readIndex: u32)
    requires config.count >= 1
    ensures Work(Start(config, readIndex))
            == |Header(config.host, config.auth, config.count)| + 182 * config.count + 30018
  {
    hide Header;
  }

  // ---------------------------------------------------------------- what TCP accepted

  /** `len` halved `times` times. */
  function Halved(len: nat, times: nat): nat {
    if times == 0 then len else Halved(len, times - 1) / 2
  }

  /** Said of the answers alone: the attempt numbered `from + times` is accepted and has `n` octets, all attempts from
      `from` up to it found memory short but room left, and no attempt was for a single octet or none. */
  ghost predicate AcceptedAfter(len: nat, tcp: Tcp, from: nat, times: nat, n: nat) {
    && tcp(from + times) == Accepted
    && (forall j :: from <= j < from + times ==> tcp(j) == NoMemory(false))
    && n == Halved(len, times)
    && (forall i :: 0 < i <= times ==> Halved(len, i) > 1)
  }

  ghost predicate WriteAccepted(len: nat, tcp: Tcp, from: nat, n: nat) {
    exists times: nat :: AcceptedAfter(len, tcp, from, times, n)
  }

  lemma {:induction false} HalvedLater(len: nat, times: nat)
    ensures Halved(len / 2, times) == Halved(len, times + 1)
    decreases times
  {
    if times > 0 { HalvedLater(len, times - 1); }
  }

  /** One refused attempt comes first. */
  lemma AcceptedLater(len: nat, tcp: Tcp, from: nat, times: nat, n: nat)
    requires tcp(from) == NoMemory(false) && len / 2 > 1
    ensures AcceptedAfter(len / 2, tcp, from + 1, times, n) <==> AcceptedAfter(len, tcp, from, times + 1, n)
  {
    assert from + 1 + times == from + (times + 1);
    HalvedLater(len, times);
    if AcceptedAfter(len / 2, tcp, from + 1, times, n) {
      forall i | 0 < i <= times + 1
        ensures Halved(len, i) > 1
      {
        HalvedLater(len, i - 1);
        if i == 1 { assert Halved(len, 0) == len; }
      }
    }
    if AcceptedAfter(len, tcp, from, times + 1, n) {
      forall i | 0 < i <= times
        ensures Halved(len / 2, i) > 1
      {
        HalvedLater(len, i);
      }
    }
  }

  /** server_tcp_write reports `n` octets if and only if TCP accepted exactly that attempt and refused all before it. */
  lemma {:induction false} WriteMeansAccepted(len: nat, tcp: Tcp, from: nat, n: nat)
    requires len > 0
    ensures TryWrite(len, tcp, from) == Some(n) <==> WriteAccepted(len, tcp, from, n)
    decreases len
  {
    hide AcceptedAfter;
    match tcp(from)
    case Accepted =>
      AcceptedFirst(len, tcp, from, n);
    case Failed =>
      FailedFirst(len, tcp, from, n);
    case NoMemory(noRoom) =>
      var less := if noRoom then 1 else len / 2;
      if less > 1 {
        WriteMeansAccepted(less, tcp, from + 1, n);
        LaterAccepted(len, tcp, from, n);
      } else {
        FailedFirst(len, tcp, from, n);
      }
  }

  lemma AcceptedFirst(len: nat, tcp: Tcp, from: nat, n: nat)
    requires tcp(from) == Accepted
    ensures WriteAccepted(len, tcp, from, n) <==> n == len
  {
    if n == len { assert AcceptedAfter(len, tcp, from, 0, n); }
    if WriteAccepted(len, tcp, from, n) {
      var times: nat :| AcceptedAfter(len, tcp, from, times, n);
      assert times > 0 ==> tcp(from) == NoMemory(false);
    }
  }

  lemma FailedFirst(len: nat, tcp: Tcp, from: nat, n: nat)
    requires tcp(from) == Failed || tcp(from) == NoMemory(true) || (tcp(from).NoMemory? && len / 2 <= 1)
    ensures !WriteAccepted(len, tcp, from, n)
  {
    if WriteAccepted(len, tcp, from, n) {
      var times: nat :| AcceptedAfter(len, tcp, from, times, n);
      assert times > 0 ==> tcp(from) == NoMemory(false);
      assert Halved(len, 1) == Halved(len, 0) / 2;
    }
  }

  lemma LaterAccepted(len: nat, tcp: Tcp, from: nat, n: nat)
    requires tcp(from) == NoMemory(false) && len / 2 > 1
    ensures WriteAccepted(len / 2, tcp, from + 1, n) <==> WriteAccepted(len, tcp, from, n)
  {
    if WriteAccepted(len / 2, tcp, from + 1, n) {
      var times: nat :| AcceptedAfter(len / 2, tcp, from + 1, times, n);
      AcceptedLater(len, tcp, from, times, n);
    }
    if WriteAccepted(len, tcp, from, n) {
      var times: nat :| AcceptedAfter(len, tcp, from, times, n);
      assert times > 0;
      AcceptedLater(len, tcp, from, times - 1, n);
    }
  }

  /** So the octets that leave the buffer are exactly those of the accepted attempt; when there is none, nothing leaves
      it and one more error is counted. The count starts again only when part of the buffer was accepted, not when all
      of it was: errors far apart add up. */
  lemma FlushTakesWhatWasAccepted(s: Session, tcp: Tcp, n: nat)
    requires s.pending != []
    ensures WriteAccepted(|s.pending|, tcp, 0, n) ==>
              && 1 <= n <= |s.pending|
              && Flush(s, tcp).wire == s.wire + s.pending[..n] && Flush(s, tcp).pending == s.pending[n..]
              && Flush(s, tcp).writeErr == (if n < |s.pending| then 0 else s.writeErr)
              && Flush(s, tcp).closed == s.closed
    ensures (forall m: nat :: !WriteAccepted(|s.pending|, tcp, 0, m)) ==>
              && Flush(s, tcp).wire == s.wire && Flush(s, tcp).pending == s.pending
              && Flush(s, tcp).writeErr == (s.writeErr + 1) % TWO_32
  {
    hide WriteAccepted;
    WriteMeansAccepted(|s.pending|, tcp, 0, n);
    var r := TryWrite(|s.pending|, tcp, 0);
    if r.Some? { WriteMeansAccepted(|s.pending|, tcp, 0, r.value); }
  }

  // ---------------------------------------------------------------- giving up, and closing

  lemma RefusedCall(s: Session, first: Tcp, sample: Option<Record>, second: Tcp)
    requires s.pending != [] && TryWrite(|s.pending|, first, 0).None? && s.writeErr + 1 < TWO_32
    ensures Out(s, first, sample, second)
         == s.(writeErr := s.writeErr + 1, closed := s.closed || s.writeErr + 1 > 20_000)
  {
    hide TryWrite, Refill;
  }

  /** Refused calls leave the session as it is but for the error count, and close it at the 20001st in a row. */
  lemma {:induction false} RefusalsClose(s: Session, calls: seq<Call>)
    requires s.pending != [] && !s.closed && s.writeErr == 0 && |calls| < TWO_32
    requires forall i :: 0 <= i < |calls| ==> TryWrite(|s.pending|, calls[i].first, 0).None?
    ensures Calls(s, calls) == s.(writeErr := |calls|, closed := |calls| > 20_000)
    decreases |calls|
  {
    hide TryWrite, Out;
    if calls != [] {
      var c := calls[|calls| - 1];
      RefusalsClose(s, calls[..|calls| - 1]);
      RefusedCall(Calls(s, calls[..|calls| - 1]), c.first, c.sample, c.second);
    }
  }

  lemma ClosingCall(s: Session, first: Tcp, sample: Option<Record>, second: Tcp)
    requires s.pending == [] && s.wait + 1 < TWO_16
    ensures s.phase == OP_WAIT_BEFORE_CLOSE ==>
              Out(s, first, sample, second)
              == s.(wait := s.wait + 1, phase := if s.wait > 30_000 then OP_CLOSE else OP_WAIT_BEFORE_CLOSE)
    ensures s.phase == OP_CLOSE ==> Out(s, first, sample, second) == s.(closed := true, phase := OP_FINISHED)
  {
    hide Header, JSON_HEADER, JSON_FOOTER, Element, TryWrite;
  }

  /** A session that waits to close does so after exactly 30003 calls, whatever TCP answers: it waits through the first
      30001, turns to closing with the next, and closes with the last. */
  lemma {:induction false} ClosesAfterTheWait(s: Session, calls: seq<Call>)
    requires s.phase == OP_WAIT_BEFORE_CLOSE && s.pending == [] && s.wait == 0 && !s.closed && |calls| <= 30_003
    ensures var t := Calls(s, calls);
            && t.pending == [] && t.wire == s.wire && t.samples == s.samples
            && (t.closed <==> |calls| == 30_003)
            && t.phase == (if |calls| <= 30_001 then OP_WAIT_BEFORE_CLOSE
                           else if |calls| == 30_002 then OP_CLOSE else OP_FINISHED)
            && t.wait == if |calls| <= 30_002 then |calls| else 30_002
    decreases |calls|
  {
    hide Out;
    if calls != [] {
      var c := calls[|calls| - 1];
      ClosesAfterTheWait(s, calls[..|calls| - 1]);
      ClosingCall(Calls(s, calls[..|calls| - 1]), c.first, c.sample, c.second);
    }
  }

  // ---------------------------------------------------------------- a TCP that accepts

  /** Every attempt is accepted at once. */
  predicate Accepts(c: Call) { c.first(0) == Accepted && c.second(0) == Accepted }

  /** Calls until the whole message is out. */
  function CallsLeft(s: Session): int {
    var c := s.config;
    if s.phase == OP_HTTP_HEADER then c.count + 4
    else if s.phase == OP_JSON_HEADER then c.count + 3
    else if s.phase == OP_JSON_DATA then c.count - |s.samples| + 2
    else if s.phase == OP_JSON_FOOTER then 1
    else 0
  }

  lemma FlushAccepted(s: Session, tcp: Tcp)
    requires tcp(0) == Accepted
    ensures Flush(s, tcp) == s.(wire := s.wire + s.pending, pending := [])
  {
    assert s.pending == [] ==> s.wire + s.pending == s.wire;
    assert s.pending[..|s.pending|] == s.pending;
  }

  lemma RefillTurns(s: Session, start: nat, sample: Option<Record>)
    requires Counted(s, start) && s.phase < OP_WAIT_BEFORE_CLOSE
    ensures CallsLeft(Refill(s, sample)) == CallsLeft(s) - 1
    ensures Refill(s, sample).phase <= OP_WAIT_BEFORE_CLOSE
  {
    hide Header, JSON_HEADER, JSON_FOOTER, Element;
  }

  /** An accepted call leaves nothing unsent and is one call nearer the end. */
  lemma AcceptedCall(s: Session, start: nat, first: Tcp, sample: Option<Record>, second: Tcp)
    requires InOrder(s, start) && s.phase < OP_WAIT_BEFORE_CLOSE && s.pending == []
    requires first(0) == Accepted && second(0) == Accepted
    ensures var t := Out(s, first, sample, second);
            && t.pending == [] && InOrder(t, start) && t.config == s.config
            && CallsLeft(t) == CallsLeft(s) - 1 && t.phase <= OP_WAIT_BEFORE_CLOSE
  {
    OutKeepsOrder(s, start, first, sample, second);
    OutGoesForward(s, first, sample, second);
    hide Refill, Counted, Emitted, CallsLeft;
    FlushAccepted(s, first);
    assert Flush(s, first) == s;
    RefillTurns(s, start, sample);
    FlushAccepted(Refill(s, sample), second);
    SameCallsLeft(Refill(s, sample), Out(s, first, sample, second));
  }

  lemma SameCallsLeft(s: Session, t: Session)
    requires t == s.(wire := t.wire, pending := t.pending)
    ensures CallsLeft(t) == CallsLeft(s)
  {}

  lemma NoCallsLeft(s: Session, start: nat)
    requires Counted(s, start)
    ensures CallsLeft(s) == 0 <==> s.phase >= OP_WAIT_BEFORE_CLOSE
    ensures CallsLeft(s) >= 0
  {}

  /** With a TCP that accepts, a session sends its whole message in exactly `count + 4` calls. */
  lemma {:induction false} AcceptedRun(config: Config, readIndex: u32, calls: seq<Call>)
    requires config.count >= 1 && |calls| <= config.count + 4 && forall i :: 0 <= i < |calls| ==> Accepts(calls[i])
    ensures var s := Calls(Start(config, readIndex), calls);
            && InOrder(s, readIndex) && s.config == config && s.pending == [] && s.phase <= OP_WAIT_BEFORE_CLOSE
            && CallsLeft(s) == config.count + 4 - |calls|
            && (s.phase == OP_WAIT_BEFORE_CLOSE <==> |calls| == config.count + 4)
    decreases |calls|
  {
    hide Out, Emitted, Counted;
    StartInOrder(config, readIndex);
    if calls != [] {
      var c := calls[|calls| - 1];
      AcceptedRun(config, readIndex, calls[..|calls| - 1]);
      AcceptedCall(Calls(Start(config, readIndex), calls[..|calls| - 1]), readIndex, c.first, c.sample, c.second);
    }
    NoCallsLeft(Calls(Start(config, readIndex), calls), readIndex);
  }
}
