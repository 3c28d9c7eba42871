/** What does happen: records that arrive are stored, uploads start when they should, and with a server and a TCP that
    play along each one delivers what is waiting and lets the next begin. */
module UploadCycle {
  import opened Common
  import opened Checksum
  import CircularLog
  import opened HttpTx
  import opened HttpRx
  import opened ServerTcp
  import opened EndToEnd
  import Clock
  import Memory
  import Records
  import Runs

  // ---------------------------------------------------------------- arrivals

  lemma RecordIsStored(g: System, r: Record, now: u32)
    requires Healthy(g)
    ensures var h := Stored(g, r, now);
            if |g.all| - g.taken < g.log.n
            then h.all == g.all + [r] && h.taken == g.taken && h.lastWrite == now && h.upload == g.upload
            else h == g
  {
    hide Evaluate;
    CircularLog.PutRefines(g.log, g.all, g.taken, r);
  }

  /** A sample of the gateway's own is the newest record from then on, unless n records wait. */
  lemma SampleIsStored(g: System, flags: u32, time: Clock.u64, left: u32, right: u32, now: u32)
    requires Healthy(g)
    ensures var h := Next(g, Sampled(flags, time, left, right, now));
            if |g.all| - g.taken < g.log.n
            then h.all == g.all + [Records.SampleRecord(flags, time, left, right)] && h.lastWrite == now
            else h == g
  {
    hide Healthy, Stored, Records.SampleRecord;
    RecordIsStored(g, Records.SampleRecord(flags, time, left, right), now);
  }

  /** So is the data of a frame that brings it sealed behind its address, in 24 octets or more. */
  lemma FrameIsStored(g: System, rx: Records.RxFrame, data: seq<bv8>, now: u32)
    requires Healthy(g) && |data| == 20 && rx.data[5..29] == data + Octets(Crc(data)) && rx.length >= 24
    ensures var h := Next(g, Uploaded(rx, now));
            if |g.all| - g.taken < g.log.n
            then h.all == g.all + [data + Octets(Crc(data))] && h.lastWrite == now
            else h == g
  {
    hide Healthy, Stored, Octets, Crc, Records.Acceptable;
    Records.SealedFrameAccepted(rx, data);
    RecordIsStored(g, Records.Carried(rx), now);
  }

  /** A frame that is too short, or damaged, changes nothing. */
  lemma BadFrameIsIgnored(g: System, rx: Records.RxFrame, now: u32)
    requires rx.length < 24 || GetChecksum(rx.data[5..29]) != Crc(rx.data[5..25])
    ensures Next(g, Uploaded(rx, now)) == g
  {
    hide Stored, GetChecksum, Crc;
    assert rx.data[5..29][..20] == rx.data[5..25];
  }

  // ---------------------------------------------------------------- starting

  /** The number of blocks an upload takes on. */
  function Offered(g: System): int {
    if g.log.write - g.log.read <= 1000 then g.log.write - g.log.read else 1000
  }

  /** When its time has come an idle gateway starts an upload exactly if the link is up, a connection is granted, and
      the log is quiet with blocks below the write index. The session is then on the oldest waiting records. With the
      link down it tries again at the next tick, otherwise in 600000 ticks. */
  lemma StartsIff(g: System, linkUp: bool, now: u32, granted: bool)
    requires Healthy(g) && g.upload.None? && g.countdown == 0
    ensures var h := Next(g, Tick(linkUp, now, granted));
            && (h.upload.Some? <==> linkUp && granted && g.log.read < g.log.write && Memory.Quiet(now, g.lastWrite))
            && (h.upload.Some? ==>
                  var u := h.upload.value;
                  && u.tcp == Start(Config(g.host, g.auth, Offered(g)), g.log.read)
                  && u.base == g.taken && !u.connected && u.response == [] && u.index == 0)
            && (!linkUp ==> h == g)
            && (linkUp && h.upload.None? ==> h == g.(countdown := 600_000))
            && h.log == g.log && h.all == g.all && h.taken == g.taken && h.host == g.host && h.auth == g.auth
  {
    hide Evaluate, Memory.BlocksToRead, Memory.Quiet;
    Memory.OfferedBlocksAreConsecutive(g.log, now, g.lastWrite);
  }

  /** While an upload is running no other starts. */
  lemma OneUploadAtATime(g: System, e: Event)
    requires Healthy(g) && g.upload.Some? && e.Tick?
    ensures Next(g, e) == g.(countdown := if g.countdown > 0 then g.countdown - 1 else 0)
  {
    hide Evaluate, StartUpload, InOrder;
  }

  /** Nothing is sent or read for sending before the connection is made. */
  lemma NothingBeforeConnection(g: System, first: Tcp, second: Tcp)
    requires g.upload.Some? && !g.upload.value.connected
    ensures Next(g, Output(first, second)) == g
  {
    hide Out;
  }

  /** A gateway that has just started counts 20000 ticks down before its first upload. */
  lemma FirstUpload(log: CircularLog.Log, waiting: seq<Record>, host: string, auth: Option<seq<u8>>, ticks: seq<Event>,
                    now: u32)
    requires var g := Restart(log, waiting, host, auth); Healthy(g)
    requires |ticks| == 20_000 && forall i :: 0 <= i < |ticks| ==> ticks[i].Tick?
    ensures var g := Restart(log, waiting, host, auth);
            && (forall k :: 0 <= k <= |ticks| ==> After(g, ticks[..k]).upload.None?)
            && (After(g, ticks + [Tick(true, now, true)]).upload.Some?
                <==> g.log.read < g.log.write && Memory.Quiet(now, 0))
  {
    hide Healthy, Memory.Quiet, After;
    TicksStart(Restart(log, waiting, host, auth), ticks, now);
  }

  /** A tick before the time only counts down. */
  lemma {:induction false} CountsDown(g: System, ticks: seq<Event>)
    requires |ticks| <= g.countdown && forall i :: 0 <= i < |ticks| ==> ticks[i].Tick?
    ensures After(g, ticks) == g.(countdown := g.countdown - |ticks|)
    decreases |ticks|
  {
    if ticks != [] {
      CountsDown(Next(g, ticks[0]), ticks[1..]);
    }
  }

  /** From any idle state, `countdown` ticks and one more with the link up, a connection and a quiet log start an upload
      if there is anything to upload; no fewer do. */
  lemma TicksStart(g: System, ticks: seq<Event>, now: u32)
    requires Healthy(g) && g.upload.None? && |ticks| == g.countdown && forall i :: 0 <= i < |ticks| ==> ticks[i].Tick?
    ensures forall k :: 0 <= k <= |ticks| ==> After(g, ticks[..k]).upload.None?
    ensures After(g, ticks + [Tick(true, now, true)]).upload.Some?
            <==> g.log.read < g.log.write && Memory.Quiet(now, g.lastWrite)
  {
    hide Memory.Quiet, Evaluate;
    forall k | 0 <= k <= |ticks|
      ensures After(g, ticks[..k]).upload.None?
    {
      CountsDown(g, ticks[..k]);
    }
    CountsDown(g, ticks);
    Runs.AfterOne(Next, g, ticks, Tick(true, now, true));
    StartsIff(g.(countdown := 0), true, now, true);
  }

  /** A record just stored keeps uploads from starting for three seconds. */
  lemma StoringPostponesUploads(g: System, r: Record, now: u32, later: u32)
    requires Healthy(g) && Evaluate(r) && g.upload.None? && |g.all| - g.taken < g.log.n && (later - now) % TWO_32 < 3
    ensures Next(Stored(g, r, now), Tick(true, later, true)).upload.None?
  {
    hide Healthy, Stored, Next, Evaluate;
    RecordIsStored(g, r, now);
    StoreKeepsHealth(g, r, now);
    var h := Stored(g, r, now);
    if h.countdown == 0 { StartsIff(h, true, later, true); } else { CountingStartsNothing(h, Tick(true, later, true)); }
  }

  lemma CountingStartsNothing(g: System, e: Event)
    requires e.Tick? && g.countdown > 0
    ensures Next(g, e).upload == g.upload
  {}

  // ---------------------------------------------------------------- sending

  predicate AcceptedOutput(e: Event) { e.Output? && e.first(0) == Accepted && e.second(0) == Accepted }

  /** What sending leaves alone. */
  predicate SameBut(g: System, h: System) {
    && g.upload.Some? && h.upload.Some?
    && h == g.(upload := h.upload)
    && h.upload.value == g.upload.value.(tcp := h.upload.value.tcp)
    && h.upload.value.tcp.config == g.upload.value.tcp.config
  }

  lemma AcceptedOutputStep(g: System, e: Event)
    requires Healthy(g) && g.upload.Some? && g.upload.value.connected && AcceptedOutput(e)
    requires g.upload.value.tcp.pending == [] && g.upload.value.tcp.phase < OP_WAIT_BEFORE_CLOSE
    ensures var h := Next(g, e);
            && Healthy(h) && SameBut(g, h) && h.upload.value.tcp.pending == []
            && CallsLeft(h.upload.value.tcp) == CallsLeft(g.upload.value.tcp) - 1
            && h.upload.value.tcp.phase <= OP_WAIT_BEFORE_CLOSE
  {
    hide Healthy, Next, InOrder, Counted, CallsLeft, CircularLog.Log.Sample, Out;
    var u := g.upload.value;
    HealthySession(g);
    OutputKeepsHealth(g, e.first, e.second);
    OutputIs(g, e.first, e.second);
    AcceptedCall(u.tcp, u.first, e.first, g.log.Sample(u.tcp.memIndex), e.second);
  }

  lemma OutputIs(g: System, first: Tcp, second: Tcp)
    requires g.upload.Some? && g.upload.value.connected
    ensures var u := g.upload.value;
            Next(g, Output(first, second))
            == g.(upload := Some(u.(tcp := Out(u.tcp, first, g.log.Sample(u.tcp.memIndex), second))))
  {
    hide Out, CircularLog.Log.Sample;
  }

  lemma HealthySession(g: System)
    requires Healthy(g) && g.upload.Some?
    ensures InOrder(g.upload.value.tcp, g.upload.value.first) && Counted(g.upload.value.tcp, g.upload.value.first)
  {
    hide Evaluate, Emitted;
  }

  /** With a TCP that accepts, exactly `count + 4` output calls bring an upload to its end. */
  lemma {:induction false} OutputsComplete(g: System, outs: seq<Event>)
    requires Healthy(g) && g.upload.Some? && g.upload.value.connected && g.upload.value.tcp.pending == []
    requires g.upload.value.tcp.phase <= OP_WAIT_BEFORE_CLOSE && |outs| == CallsLeft(g.upload.value.tcp)
    requires forall i :: 0 <= i < |outs| ==> AcceptedOutput(outs[i])
    ensures var h := After(g, outs);
            && Healthy(h) && SameBut(g, h)
            && h.upload.value.tcp.pending == [] && h.upload.value.tcp.phase == OP_WAIT_BEFORE_CLOSE
    decreases |outs|
  {
    hide Healthy, Next, CallsLeft, AcceptedOutput;
    HealthySession(g);
    NoCallsLeft(g.upload.value.tcp, g.upload.value.first);
    if outs != [] {
      AcceptedOutputStep(g, outs[0]);
      OutputsComplete(Next(g, outs[0]), outs[1..]);
    }
  }

  // ---------------------------------------------------------------- a whole upload

  /** An idle gateway whose time has come, with blocks to upload and none just stored. */
  ghost predicate Ready(g: System, now: u32) {
    && Healthy(g) && g.upload.None? && g.countdown == 0
    && g.log.read < g.log.write && Memory.Quiet(now, g.lastWrite)
  }

  /** The events of an upload up to the server's answer. */
  function Sending(now: u32, outs: seq<Event>): seq<Event> { [Tick(true, now, true)] + [Connected] + outs }

  lemma StartedAndConnected(g: System, now: u32)
    requires Ready(g, now)
    ensures var h := Next(Next(g, Tick(true, now, true)), Connected);
            && Healthy(h) && h.upload.Some? && h.upload.value.connected
            && h.upload.value.tcp == Start(Config(g.host, g.auth, Offered(g)), g.log.read)
            && h.upload.value.base == g.taken && h.upload.value.response == [] && h.upload.value.index == 0
            && h.all == g.all && h.taken == g.taken && h.host == g.host && h.auth == g.auth && h.log == g.log
  {
    hide Healthy, Memory.Quiet, Start, StartUpload;
    StartsIff(g, true, now, true);
    StepKeepsHealth(g, Tick(true, now, true));
    StepKeepsHealth(Next(g, Tick(true, now, true)), Connected);
  }

  /** An idle gateway with blocks to upload, when its time has come and link and TCP play along, puts on the wire the
      whole message of the oldest waiting records: as many as there are but the newest, at most a thousand. */
  lemma UploadIsSent(g: System, now: u32, outs: seq<Event>)
    requires Ready(g, now)
    requires |outs| == Offered(g) + 4 && forall i :: 0 <= i < |outs| ==> AcceptedOutput(outs[i])
    ensures var h := After(g, Sending(now, outs));
            && Healthy(h) && h.upload.Some? && h.upload.value.connected
            && h.upload.value.response == [] && h.upload.value.index == 0
            && |h.upload.value.tcp.samples| == Offered(g)
            && h.all == g.all && h.taken == g.taken && h.log == g.log
            && g.taken + Offered(g) < |g.all|
            && h.upload.value.tcp.wire
               == Message(g.host, g.auth, Present(g.all[g.taken..g.taken + Offered(g)]))
  {
    hide Healthy, Memory.Quiet, Next, AcceptedOutput, Message, After;
    StartedAndConnected(g, now);
    var h := Next(Next(g, Tick(true, now, true)), Connected);
    SendingRun(g, now, outs);
    OutputsComplete(h, outs);
    CompletedUpload(After(h, outs));
  }

  lemma CompletedUpload(h: System)
    requires Healthy(h) && h.upload.Some? && h.upload.value.tcp.pending == []
    requires h.upload.value.tcp.phase == OP_WAIT_BEFORE_CLOSE
    ensures var u := h.upload.value;
            && |u.tcp.samples| == u.tcp.config.count
            && u.base + u.tcp.config.count < |h.all|
            && u.tcp.wire == Message(h.host, h.auth, Present(h.all[u.base..u.base + u.tcp.config.count]))
  {
    hide Healthy, Message;
    QueueOnTheWire(h);
    HealthySession(h);
  }

  lemma SendingRun(g: System, now: u32, outs: seq<Event>)
    ensures After(g, Sending(now, outs)) == After(Next(Next(g, Tick(true, now, true)), Connected), outs)
  {
    hide Next;
    var es := Sending(now, outs);
    assert es[0] == Tick(true, now, true) && es[1] == Connected && es[1..][1..] == outs;
    assert After(g, es) == After(Next(g, es[0]), es[1..]);
    assert After(Next(g, es[0]), es[1..]) == After(Next(Next(g, es[0]), es[1]), es[1..][1..]);
  }

  /** And when the server answers with a marker for each record, clear of any started ones, exactly those records are
      done with; closing the connection then leaves the gateway idle for 600000 ticks. */
  lemma UploadCycle(g: System, now: u32, outs: seq<Event>, text: string)
    requires Ready(g, now)
    requires |outs| == Offered(g) + 4 && forall i :: 0 <= i < |outs| ==> AcceptedOutput(outs[i])
    requires Clear(text) && Occurrences(text) == Offered(g)
    ensures var h := After(g, Sending(now, outs) + [Response(text)] + [Ended]);
            && Healthy(h) && h.upload.None? && !h.active && h.countdown == 600_000
            && h.all == g.all && h.taken == g.taken + Offered(g)
            && CircularLog.Stores(h.log, g.all, g.taken + Offered(g))
  {
    hide Healthy, Memory.Quiet, Message, AcceptedOutput, Occurrences, Clear, Sending, CircularLog.Stores, Next;
    UploadIsSent(g, now, outs);
    var sending := Sending(now, outs);
    Runs.AfterOne(Next, g, sending, Response(text));
    Runs.AfterOne(Next, g, sending + [Response(text)], Ended);
    AnsweredAndEnded(After(g, sending), text);
  }

  /** An answer that is clear of started markers is counted in full, and the end of the session makes the gateway
      wait. */
  lemma AnsweredAndEnded(g: System, text: string)
    requires Healthy(g) && g.upload.Some? && g.upload.value.connected
    requires g.upload.value.response == [] && g.upload.value.index == 0
    requires Clear(text) && Occurrences(text) <= |g.upload.value.tcp.samples|
    ensures var h := Next(Next(g, Response(text)), Ended);
            && Healthy(h) && h.upload.None? && !h.active && h.countdown == 600_000
            && h.all == g.all && h.taken == g.taken + Occurrences(text)
            && CircularLog.Stores(h.log, g.all, g.taken + Occurrences(text))
  {
    hide Healthy, Scan, DoneTimes, Occurrences, Clear, CircularLog.Stores;
    assert [] + text == text;
    CountsExactlyWhenClear(text);
    StepKeepsHealth(g, Response(text));
    StepKeepsHealth(Next(g, Response(text)), Ended);
    HealthyStores(Next(Next(g, Response(text)), Ended));
  }
}
