/** The gateway as a whole: records are stored while uploads run, each upload reads the log through a plain
    block counter, and the server's answer moves the log's read index. The upload sessions follow src/upload.c. */
module EndToEnd {
  import opened Common
  import opened Checksum
  import opened CircularLog
  import opened IndexPage
  import opened HttpTx
  import opened HttpRx
  import opened ServerTcp
  import CrashRecovery
  import Memory
  import Records
  import Runs
  import Clock

  /** About ten seconds until the first upload, and five minutes between uploads. */
  const FIRST_WAIT: u32 := 20_000
  const UPLOAD_WAIT: u32 := 600_000

  /** A running upload: the output machine, the matcher with all the text it has seen, and where the upload
      began: its first block and how many records had been acknowledged before. */
  datatype Upload = Upload(tcp: Session, connected: bool, index: nat, response: string, first: u32, base: nat)

  /** The gateway, with the history the log stands for: all records stored and how many are acknowledged. */
  datatype System = System(
    host: string,
    auth: Option<seq<u8>>,
    log: Log,
    lastWrite: u32,
    active: bool,
    countdown: nat,
    upload: Option<Upload>,
    all: seq<Record>,
    taken: nat)

  /** What can happen: the gateway writes a sample of its own, a frame comes in by radio, the upload timer ticks, and
      a session is connected, driven, answered and ended. */
  datatype Event =
    | Sampled(flags: u32, time: Clock.u64, left: u32, right: u32, now: u32)
    | Uploaded(rx: Records.RxFrame, now: u32)
    | Tick(linkUp: bool, now: u32, granted: bool)
    | Connected
    | Output(first: Tcp, second: Tcp)
    | Response(text: string)
    | Ended

  /** upload_end */
  function EndUpload(g: System): System {
    g.(active := false, countdown := UPLOAD_WAIT, upload := None)
  }

  /** couchdb_start_upload with server_tcp_init; `granted` says whether lwIP had the resources. */
  function StartUpload(g: System, now: u32, granted: bool): System {
    var count := Memory.BlocksToRead(g.log.read, g.log.write, now, g.lastWrite);
    if count > 0 && granted then
      g.(active := true,
         upload := Some(Upload(Start(Config(g.host, g.auth, count), g.log.read), false, 0, [], g.log.read, g.taken)))
    else
      EndUpload(g)
  }

  /** put_sample */
  function Stored(g: System, r: Record, now: u32): System {
    var (log, stored) := g.log.Put(r);
    if stored then g.(log := log, lastWrite := now, all := g.all + [r]) else g
  }

  /** server_tcp_out, when the log answers `sample` */
  function Sent(g: System, first: Tcp, sample: Option<Record>, second: Tcp): System {
    if g.upload.Some? && g.upload.value.connected then
      g.(upload := Some(g.upload.value.(tcp := Out(g.upload.value.tcp, first, sample, second))))
    else g
  }

  /** The events of a session do nothing when there is none. */
  function Next(g: System, e: Event): System {
    match e
    case Sampled(flags, time, left, right, now) => Stored(g, Records.SampleRecord(flags, time, left, right), now)
    case Uploaded(rx, now) => if Records.Acceptable(rx) then Stored(g, Records.Carried(rx), now) else g
    case Tick(linkUp, now, granted) =>
      if g.countdown > 0 then g.(countdown := g.countdown - 1)
      else if !g.active && linkUp then StartUpload(g, now, granted)
      else g
    case Connected =>
      if g.upload.Some? && !g.upload.value.connected then
        g.(upload := Some(g.upload.value.(connected := true, index := 0)))
      else g
    case Output(first, second) =>
      if g.upload.Some? then Sent(g, first, g.log.Sample(g.upload.value.tcp.memIndex), second) else g
    case Response(text) =>
      if g.upload.Some? && g.upload.value.connected && g.upload.value.index < GOOD_LEN then
        var u := g.upload.value;
        var (index, hits) := Scan(u.index, text);
        g.(log := DoneTimes(g.log, hits), taken := g.taken + hits,
           upload := Some(u.(index := index, response := u.response + text)))
      else g
    case Ended => if g.upload.Some? then EndUpload(g) else g
  }

  /** The one thing asked of the surroundings: the server's whole answer never holds more markers than records have
      been handed to it. */
  predicate Honest(g: System, e: Event) {
    e.Response? && g.upload.Some? ==>
      Occurrences(g.upload.value.response + e.text) <= |g.upload.value.tcp.samples|
  }

  // ---------------------------------------------------------------- the invariant

  /** Record `k` of the upload that began at block `first` is in the block the counter will reach for it. */
  ghost predicate Placed(log: Log, total: nat, base: nat, first: nat, k: nat) {
    base + k < total && Back(log.n, log.write, total - 1 - (base + k)) == first + k
  }

  /** Records already read went out as stored, and the blocks still to be read are where the counter will look. */
  ghost predicate InStep(g: System, u: Upload) {
    var count, done := u.tcp.config.count, |u.tcp.samples|;
    && u.base + count < |g.all|
    && 1 <= u.first && u.first + count <= g.log.n
    && done <= count
    && (forall k :: 0 <= k < done ==> u.tcp.samples[k] == Some(g.all[u.base + k]))
    && (forall k :: done <= k < count ==> Placed(g.log, |g.all|, u.base, u.first, k))
  }

  /** The matcher has seen exactly the response, and has acknowledged no more than was read. */
  ghost predicate Acknowledged(g: System, u: Upload) {
    && u.index == Scan(0, u.response).0
    && g.taken == u.base + Scan(0, u.response).1
    && Scan(0, u.response).1 <= |u.tcp.samples|
    && (!u.connected ==> u.response == [])
  }

  ghost predicate Configured(g: System, u: Upload) {
    u.tcp.config.host == g.host && u.tcp.config.auth == g.auth
  }

  ghost predicate Healthy(g: System) {
    && Stores(g.log, g.all, g.taken)
    && (forall i :: 0 <= i < |g.all| ==> Evaluate(g.all[i]))
    && (g.active <==> g.upload.Some?)
    && (g.upload.Some? ==>
          var u := g.upload.value;
          InOrder(u.tcp, u.first) && InStep(g, u) && Acknowledged(g, u) && Configured(g, u))
  }

  // ---------------------------------------------------------------- storing

  lemma StoreKeepsPlaces(g: System, r: Record, u: Upload)
    requires Stores(g.log, g.all, g.taken) && g.log.Put(r).1
    requires InStep(g, u) && g.taken <= u.base + |u.tcp.samples|
    ensures InStep(g.(log := g.log.Put(r).0, all := g.all + [r]), u)
  {
    hide Stores, Back;
    PutRefines(g.log, g.all, g.taken, r);
    var log', total := g.log.Put(r).0, |g.all + [r]|;
    forall k | |u.tcp.samples| <= k < u.tcp.config.count
      ensures Placed(log', total, u.base, u.first, k)
    {
      assert Placed(g.log, |g.all|, u.base, u.first, k);
      BlockKept(g.log, g.all, g.taken, r, u.base + k);
    }
  }

  lemma StoreKeepsHealth(g: System, r: Record, now: u32)
    requires Healthy(g) && Evaluate(r)
    ensures Healthy(Stored(g, r, now))
  {
    hide Evaluate, InOrder, Scan, InStep, Stores;
    PutRefines(g.log, g.all, g.taken, r);
    if g.log.Put(r).1 && g.upload.Some? {
      var u := g.upload.value;
      StoreKeepsPlaces(g, r, u);
      SameStep(Stored(g, r, now), g.(log := g.log.Put(r).0, all := g.all + [r]), u);
    }
  }

  lemma SameStep(g: System, h: System, u: Upload)
    requires g.log == h.log && g.all == h.all && InStep(h, u)
    ensures InStep(g, u)
  {}

  /** Both ways into the log store only records that pass the checksum test. */
  lemma ArrivalKeepsHealth(g: System, e: Event)
    requires Healthy(g) && (e.Sampled? || e.Uploaded?)
    ensures Healthy(Next(g, e))
  {
    hide Healthy, Evaluate, Stored, Records.SampleRecord, Records.Carried;
    match e
    case Sampled(flags, time, left, right, now) =>
      Records.SampleIsReported(flags, time, left, right);
      StoreKeepsHealth(g, Records.SampleRecord(flags, time, left, right), now);
    case Uploaded(rx, now) =>
      if Records.Acceptable(rx) {
        StoreKeepsHealth(g, Records.Carried(rx), now);
      }
  }

  /** Every record waiting is read back from its block exactly as it was stored, never as null. */
  lemma WaitingRecordsRead(g: System, i: nat)
    requires Healthy(g) && g.taken <= i < |g.all|
    ensures g.log.Sample(BlockOf(g.log, g.all, i)) == Some(g.all[i])
  {
    hide Evaluate, PageRecord;
    assert Back(g.log.n, g.log.write, |g.all| - 1 - i) in g.log.disk;
  }

  // ---------------------------------------------------------------- starting

  lemma StartKeepsHealth(g: System, now: u32, granted: bool)
    requires Healthy(g) && !g.active
    ensures Healthy(StartUpload(g, now, granted))
  {
    hide Evaluate, Memory.BlocksToRead;
    var h := StartUpload(g, now, granted);
    Memory.OfferedBlocksAreConsecutive(g.log, now, g.lastWrite);
    if h.upload.Some? {
      var u := h.upload.value;
      StartInOrder(u.tcp.config, g.log.read);
    }
  }

  // ---------------------------------------------------------------- sending

  /** The counter, which moves on without next_block, points at the live block of the very next record, and the
      log returns that record: never a null sample, never another record. */
  lemma NextReadIsLive(g: System)
    requires Healthy(g) && g.upload.Some? && |g.upload.value.tcp.samples| < g.upload.value.tcp.config.count
    ensures var u := g.upload.value; var i := u.base + |u.tcp.samples|;
            && g.taken <= i < |g.all|
            && IsBlockValid(g.log.n, u.tcp.memIndex)
            && u.tcp.memIndex == BlockOf(g.log, g.all, i)
            && g.log.Sample(u.tcp.memIndex) == Some(g.all[i])
  {
    hide Evaluate, Scan, Emitted, PageRecord;
    var u := g.upload.value;
    var k := |u.tcp.samples|;
    assert Placed(g.log, |g.all|, u.base, u.first, k);
    assert u.tcp.memIndex == u.first + k;
  }

  lemma OutReads(s: Session, start: nat, first: Tcp, sample: Option<Record>, second: Tcp)
    requires InOrder(s, start)
    ensures var t := Out(s, first, sample, second);
            t.samples == s.samples || (|s.samples| < s.config.count && t.samples == s.samples + [sample])
  {
    hide Flush, Header, Element, JSON_HEADER, JSON_FOOTER, Emitted;
    FlushMovesOctets(s, first);
    FlushMovesOctets(Refill(Flush(s, first), sample), second);
  }

  lemma OutputKeepsHealth(g: System, first: Tcp, second: Tcp)
    requires Healthy(g)
    ensures Healthy(Next(g, Output(first, second)))
  {
    hide Evaluate, Scan, InOrder, Out, Log.Sample;
    if g.upload.Some? && g.upload.value.connected {
      var u := g.upload.value;
      var sample := g.log.Sample(u.tcp.memIndex);
      OutKeepsOrder(u.tcp, u.first, first, sample, second);
      OutGoesForward(u.tcp, first, sample, second);
      OutReads(u.tcp, u.first, first, sample, second);
      if |u.tcp.samples| < u.tcp.config.count {
        NextReadIsLive(g);
      }
    }
  }

  // ---------------------------------------------------------------- acknowledging

  lemma {:induction false} DoneTimesRefines(log: Log, all: seq<Record>, taken: nat, times: nat)
    requires Stores(log, all, taken) && taken + times < |all|
    ensures Stores(DoneTimes(log, times), all, taken + times)
    ensures DoneTimes(log, times).write == log.write && DoneTimes(log, times).n == log.n
    decreases times
  {
    hide Stores, NextBlock;
    if times > 0 {
      DoneTimesRefines(log, all, taken, times - 1);
      DoneRefines(DoneTimes(log, times - 1), all, taken + times - 1);
    }
  }

  lemma ResponseKeepsHealth(g: System, text: string)
    requires Healthy(g) && Honest(g, Response(text))
    ensures Healthy(Next(g, Response(text)))
  {
    hide Evaluate, Scan, InOrder, DoneTimes, Occurrences, Stores;
    if g.upload.None? || !g.upload.value.connected {
      return;
    }
    var u := g.upload.value;
    ScanSplit(0, u.response, text);
    CountsExactlyWhenClear(u.response + text);
    DoneTimesRefines(g.log, g.all, g.taken, Scan(u.index, text).1);
    var h := Next(g, Response(text));
    var v := h.upload.value;
    assert InStep(h, v) by {
      forall k | |v.tcp.samples| <= k < v.tcp.config.count
        ensures Placed(h.log, |h.all|, v.base, v.first, k)
      {
        assert Placed(g.log, |g.all|, u.base, u.first, k);
      }
    }
    assert Acknowledged(h, v);
  }

  // ---------------------------------------------------------------- every run

  lemma SessionKeepsHealth(g: System, e: Event)
    requires Healthy(g) && (e.Tick? || e.Connected? || e.Ended?)
    ensures Healthy(Next(g, e))
  {
    hide Evaluate, InOrder, Stores, StartUpload;
    match e
    case Tick(linkUp, now, granted) =>
      if g.countdown == 0 && !g.active && linkUp {
        StartKeepsHealth(g, now, granted);
      }
    case Connected =>
    case Ended =>
  }

  lemma StepKeepsHealth(g: System, e: Event)
    requires Healthy(g) && Honest(g, e)
    ensures Healthy(Next(g, e))
  {
    hide Healthy, Next, Honest;
    match e
    case Sampled(_, _, _, _, _) => ArrivalKeepsHealth(g, e);
    case Uploaded(_, _) => ArrivalKeepsHealth(g, e);
    case Output(first, second) => OutputKeepsHealth(g, first, second);
    case Response(text) => ResponseKeepsHealth(g, text);
    case _ => SessionKeepsHealth(g, e);
  }

  predicate HonestRun(g: System, es: seq<Event>)
    decreases |es|
  {
    es != [] ==> Honest(g, es[0]) && HonestRun(Next(g, es[0]), es[1..])
  }

  function After(g: System, es: seq<Event>): System { Runs.After(Next, g, es) }

  lemma {:induction false} RunKeepsHealth(g: System, es: seq<Event>)
    requires Healthy(g) && HonestRun(g, es)
    ensures Healthy(After(g, es))
    decreases |es|
  {
    hide Healthy, Honest, Next;
    if es != [] {
      StepKeepsHealth(g, es[0]);
      RunKeepsHealth(Next(g, es[0]), es[1..]);
    }
  }

  function Present(records: seq<Record>): seq<Option<Record>> {
    seq(|records|, i requires 0 <= i < |records| => Some(records[i]))
  }

  /** At every moment of every run the log stands for a queue, the read index has not overtaken the write index,
      and nothing is acknowledged that has not been read for sending. Whatever the TCP layer does, what it has
      accepted begins the message of the oldest waiting records in the order they were stored, and once the
      upload waits to close with nothing unsent it is that whole message. */
  lemma UploadsDeliverTheQueue(g: System, es: seq<Event>)
    requires Healthy(g) && HonestRun(g, es)
    ensures var h := After(g, es);
            && Stores(h.log, h.all, h.taken)
            && (h.upload.Some? ==>
                  var u := h.upload.value;
                  var count := u.tcp.config.count;
                  && u.base <= h.taken <= u.base + |u.tcp.samples| <= u.base + count < |h.all|
                  && var message := Message(h.host, h.auth, Present(h.all[u.base..u.base + count]));
                     && u.tcp.wire + u.tcp.pending <= message
                     && (u.tcp.phase >= OP_WAIT_BEFORE_CLOSE && u.tcp.pending == [] ==> u.tcp.wire == message))
  {
    hide Healthy, Honest, Next, Message, Stores;
    RunKeepsHealth(g, es);
    HealthyStores(After(g, es));
    var h := After(g, es);
    if h.upload.Some? {
      QueueOnTheWire(h);
    }
  }

  lemma HealthyStores(h: System)
    requires Healthy(h)
    ensures Stores(h.log, h.all, h.taken)
  {}

  lemma QueueOnTheWire(h: System)
    requires Healthy(h) && h.upload.Some?
    ensures var u := h.upload.value;
            var count := u.tcp.config.count;
            && u.base <= h.taken <= u.base + |u.tcp.samples| <= u.base + count < |h.all|
            && var message := Message(h.host, h.auth, Present(h.all[u.base..u.base + count]));
               && u.tcp.wire + u.tcp.pending <= message
               && (u.tcp.phase >= OP_WAIT_BEFORE_CLOSE && u.tcp.pending == [] ==> u.tcp.wire == message)
  {
    hide Evaluate, Scan, Emitted, Message, Stores;
    var u := h.upload.value;
    var queue := Present(h.all[u.base..u.base + u.tcp.config.count]);
    assert u.tcp.samples <= queue;
    EmittedIsPrefix(u.tcp, u.first, queue);
  }

  // ---------------------------------------------------------------- the log after wrapping

  /** No upload is running and the write index has wrapped round below the read index. */
  predicate Wrapped(g: System) {
    g.upload.None? && g.log.Valid() && g.log.write < g.log.read
  }

  /** A record goes into the log. */
  predicate Arrives(e: Event) {
    e.Sampled? || (e.Uploaded? && Records.Acceptable(e.rx))
  }

  lemma StoreWraps(g: System, r: Record, now: u32)
    requires g.log.Valid() && g.upload.None? && g.log.read <= g.log.write
    ensures Wrapped(Stored(g, r, now)) <==> g.log.write == g.log.n && g.log.read > 1
  {
    hide EncodePage;
    NextIsAhead(g.log.n, g.log.write);
  }

  /** An idle gateway gets there exactly by storing a record when the write index is at the last block and block 1
      has been acknowledged. */
  lemma WrapsExactlyAtTheLastBlock(g: System, e: Event)
    requires Healthy(g) && g.upload.None? && !Wrapped(g)
    ensures Wrapped(Next(g, e)) <==> Arrives(e) && g.log.write == g.log.n && g.log.read > 1
  {
    hide Evaluate, Records.SampleRecord, Records.Carried, Stored, Memory.BlocksToRead;
    match e
    case Sampled(flags, time, left, right, now) =>
      StoreWraps(g, Records.SampleRecord(flags, time, left, right), now);
    case Uploaded(rx, now) => StoreWraps(g, Records.Carried(rx), now);
    case _ =>
  }

  lemma StoreStaysWrapped(g: System, r: Record, now: u32)
    requires Wrapped(g)
    ensures Wrapped(Stored(g, r, now)) && Stored(g, r, now).log.read == g.log.read
  {
    hide EncodePage;
    NextIsAhead(g.log.n, g.log.write);
  }

  lemma StepStaysWrapped(g: System, e: Event)
    requires Wrapped(g)
    ensures Wrapped(Next(g, e)) && Next(g, e).log.read == g.log.read
  {
    hide Evaluate, Records.SampleRecord, Records.Carried, Stored, Memory.BlocksToRead;
    match e
    case Sampled(flags, time, left, right, now) =>
      StoreStaysWrapped(g, Records.SampleRecord(flags, time, left, right), now);
    case Uploaded(rx, now) => StoreStaysWrapped(g, Records.Carried(rx), now);
    case Tick(_, now, _) => Memory.OfferedBlocksAreConsecutive(g.log, now, g.lastWrite);
    case _ =>
  }

  /** Uploading stops for good at the wrap: with the write index below the read index no block is ever offered, so
      in every run whatsoever from there no upload starts and the read index never moves again. */
  lemma {:induction false} WrappedLogIsNeverUploaded(g: System, es: seq<Event>)
    requires Wrapped(g)
    ensures Wrapped(After(g, es)) && After(g, es).log.read == g.log.read
    decreases |es|
  {
    hide Wrapped, Next;
    if es != [] {
      StepStaysWrapped(g, es[0]);
      WrappedLogIsNeverUploaded(Next(g, es[0]), es[1..]);
    }
  }

  // ---------------------------------------------------------------- unset indexes

  /** The log is wrapped and full: it takes no record and offers none. */
  predicate Jammed(log: Log) {
    log.Valid() && log.write < log.read && NextBlock(log.n, log.write) == log.read
  }

  lemma {:induction false} JammedForGood(g: System, es: seq<Event>)
    requires g.upload.None? && Jammed(g.log)
    ensures After(g, es).upload.None? && After(g, es).log == g.log && After(g, es).all == g.all
    decreases |es|
  {
    hide Evaluate, Records.SampleRecord, Records.Carried, Memory.BlocksToRead;
    if es != [] {
      if es[0].Tick? { Memory.OfferedBlocksAreConsecutive(g.log, es[0].now, g.lastWrite); }
      JammedForGood(Next(g, es[0]), es[1..]);
    }
  }

  lemma {:induction false} DonesFromUnset(log: Log, times: nat)
    requires log.read == Memory.UNSET && 1 <= times <= log.n <= LAST_ADDRESSABLE
    ensures DoneTimes(log, times).read == times
    ensures DoneTimes(log, times).write == log.write && DoneTimes(log, times).n == log.n
    decreases times
  {
    hide EncodePage;
    if times == 1 {
      assert DoneTimes(log, 0) == log;
    } else {
      DonesFromUnset(log, times - 1);
    }
  }

  /** The first upload after starting with an unset read index offers one block more than were written: block
      0xFFFFFFFF, the index page, and all but the newest record. A server that acknowledges every element it is sent
      then leaves the log jammed exactly when fewer than a thousand blocks were written and the card is not full. */
  lemma UnsetUploadJams(log: Log, now: u32, lastWrite: u32)
    requires log.read == Memory.UNSET && 1 <= log.write <= log.n <= LAST_ADDRESSABLE && Memory.Quiet(now, lastWrite)
    ensures var count := Memory.BlocksToRead(log.read, log.write, now, lastWrite);
            && count == (if log.write < 1000 then log.write + 1 else 1000)
            && (Jammed(DoneTimes(log, count)) <==> log.write < 1000 && log.write < log.n)
  {
    hide EncodePage, DoneTimes;
    assert (log.write - log.read) % TWO_32 == log.write + 1;
    var count := Memory.BlocksToRead(log.read, log.write, now, lastWrite);
    if count <= log.n {
      DonesFromUnset(log, count);
    } else {
      DonesFromUnset(log, log.n);
      DoneOnce(log, log.n);
    }
  }

  lemma DoneOnce(log: Log, times: nat)
    ensures DoneTimes(log, times + 1) == DoneTimes(log, times).Done()
  {}

  // ---------------------------------------------------------------- after a power cut

  /** The gateway as it comes up on the card that `g` left behind. */
  function Restart(log: Log, waiting: seq<Record>, host: string, auth: Option<seq<u8>>): System {
    System(host, auth, CrashRecovery.Reboot(log), 0, false, FIRST_WAIT, None, waiting, 0)
  }

  /** When no more records were stored since the saved moment `m` than were free then, the restarted gateway is
      in order with exactly the records that were waiting at `m`; all that holds of every run holds of it. */
  lemma RestartIsHealthy(m: CrashRecovery.Gateway, g: CrashRecovery.Gateway, host: string, auth: Option<seq<u8>>)
    requires CrashRecovery.Consistent(g) && CrashRecovery.LagsBehind(m, g)
    requires |g.all| - |m.all| <= m.log.n - (|m.all| - m.taken)
    requires forall i :: 0 <= i < |m.all| ==> Evaluate(m.all[i])
    ensures Healthy(Restart(g.log, m.all[m.taken..], host, auth))
  {
    hide Evaluate, CrashRecovery.Reboot;
    CrashRecovery.RecoveredWindow(m, g);
  }
}
