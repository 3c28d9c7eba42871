/** src/upload.c and the callbacks around it in their own form: the gateway's global state is updated in place, and
    every entry point is proved to be one event of the whole system in EndToEnd. */
module Gateway {
  import opened Common
  import opened Checksum
  import opened HttpTx
  import opened HttpTxBuffer
  import opened ServerTcp
  import opened ServerTcpState
  import opened EndToEnd
  import CircularLog
  import HttpRx
  import IeeeFrame
  import Memory
  import opened Clock
  import Records

  /** A healthy system never lets the block counter leave the card. */
  lemma CounterStaysOnCard(g: System)
    requires Healthy(g) && g.upload.Some?
    ensures g.upload.value.tcp.memIndex <= CircularLog.LAST_ADDRESSABLE
  {
    hide Evaluate, HttpRx.Scan, Emitted, CircularLog.PageRecord;
  }

  lemma KeepsHealth(g: System, e: Event)
    ensures Healthy(g) && Honest(g, e) ==> Healthy(Next(g, e))
  {
    hide Healthy, Honest, Next;
    if Healthy(g) && Honest(g, e) { StepKeepsHealth(g, e); }
  }

  lemma RefusalChangesNothing(log: CircularLog.Log, r: Record)
    ensures !log.Put(r).1 ==> log.Put(r).0 == log
  {}

  lemma StartSetsActive(g: System, now: u32, granted: bool)
    ensures StartUpload(g.(active := true), now, granted) == StartUpload(g, now, granted)
  {
    hide Start;
  }

  class Gateway {
    const host: string
    const auth: Option<seq<u8>>
    const memory: Memory.Memory
    const parser: HttpRx.Parser
    const clock: Clock
    var active: bool
    var uploadCountdown: u32
    var tcp: ServerTcpState?
    ghost var response: string
    ghost var first: u32
    ghost var base: nat
    ghost var all: seq<Record>
    ghost var taken: nat

    ghost function Repr(): set<object>
      reads this, tcp
    {
      {this, memory, memory.indexesBuf, parser} + if tcp == null then {} else {tcp, tcp.outputBuffer}
    }

    ghost predicate Shaped()
      reads Repr()
    {
      && memory.Valid() && parser.Valid() && Fits(host, auth)
      && (tcp != null ==> tcp.Valid() && (tcp.outputBuffer as object) != memory.indexesBuf)
    }

    ghost function Value(): System
      requires Shaped()
      reads Repr()
    {
      System(host, auth, memory.Value(), memory.lastWriteTime, active, uploadCountdown, Running(), all, taken)
    }

    /** The matcher counts from the connection on, which resets it. */
    ghost function Running(): Option<EndToEnd.Upload>
      requires Shaped()
      reads Repr()
    {
      if tcp == null then None
      else
        var index := if tcp.connected then parser.goodIndex else 0;
        Some(EndToEnd.Upload.Upload(tcp.Value(), tcp.connected, index, response, first, base))
    }

    /** The state is the one `before` after event `e`, and is healthy if `before` was and the server was honest. */
    ghost predicate Follows(before: System, e: Event)
      reads Repr()
    {
      && Shaped()
      && Value() == Next(before, e)
      && (Healthy(before) && Honest(before, e) ==> Healthy(Value()))
    }

    /** Start-up. The gateway is healthy when the indexes and blocks found on the card stand for the records
        `waiting`. */
    constructor (memory: Memory.Memory, parser: HttpRx.Parser, clock: Clock, host: string, auth: Option<seq<u8>>,
                 ghost waiting: seq<Record>)
      requires memory.Valid() && parser.Valid() && Fits(host, auth)
      ensures this.memory == memory && this.parser == parser && this.clock == clock
      ensures Shaped()
      ensures Value() == System(host, auth, memory.Value(), memory.lastWriteTime, false, FIRST_WAIT, None, waiting, 0)
      ensures CircularLog.Stores(memory.Value(), waiting, 0) && (forall r :: r in waiting ==> Evaluate(r)) ==>
              Healthy(Value())
    {
      hide Evaluate;
      this.memory, this.parser, this.clock, this.host, this.auth := memory, parser, clock, host, auth;
      this.active, this.uploadCountdown, this.tcp := false, FIRST_WAIT, null;
      this.response, this.first, this.base, this.all, this.taken := [], 0, 0, waiting, 0;
    }

    /** upload_end */
    method UploadEnd()
      requires Shaped()
      modifies this`active, this`uploadCountdown, this`tcp
      ensures Shaped() && Value() == EndUpload(old(Value()))
    {
      active := false;
      uploadCountdown := UPLOAD_WAIT;
      tcp := null;
    }

    /** couchdb_start_upload with server_tcp_init */
    method CouchdbStartUpload(now: u32, granted: bool)
      requires Shaped()
      modifies this`active, this`uploadCountdown, this`tcp, this`response, this`first, this`base
      ensures Shaped() && Value() == StartUpload(old(Value()), now, granted)
      ensures tcp != null ==> fresh(tcp) && fresh(tcp.outputBuffer)
    {
      hide Header, HttpRx.Scan;
      var count := memory.GetBlocksToRead(now);
      if count > 0 && granted {
        HeaderFits(host, auth, count);
        tcp := new ServerTcpState(Config(host, auth, count), memory.readIndex);
        active := true;
        response, first, base := [], memory.readIndex, taken;
      } else {
        UploadEnd();
      }
    }

    /** upload, once for every turn of the processing loop */
    method Upload(linkUp: bool, now: u32, granted: bool)
      requires Shaped()
      modifies this`active, this`uploadCountdown, this`tcp, this`response, this`first, this`base
      ensures Follows(old(Value()), Tick(linkUp, now, granted))
    {
      hide Healthy, Honest, StartUpload, EndUpload, Header, Fits;
      ghost var before := Value();
      KeepsHealth(before, Tick(linkUp, now, granted));
      if uploadCountdown == 0 {
        if !active {
          if linkUp {
            active := true;
            assert Value() == before.(active := true);
            StartSetsActive(before, now, granted);
            CouchdbStartUpload(now, granted);
          }
        }
      } else {
        uploadCountdown := uploadCountdown - 1;
      }
    }

    /** server_tcp_connected, which resets the matcher */
    method ServerTcpConnected()
      requires Shaped() && tcp != null && !tcp.connected
      modifies parser, tcp`connected
      ensures Follows(old(Value()), Event.Connected)
    {
      hide Healthy, Honest, Header;
      KeepsHealth(Value(), Event.Connected);
      tcp.connected := true;
      parser.Reset();
    }

    /** server_tcp_out, from the processing loop or after octets were sent. What it sends is what the log returns for
        the block counter, as long as the counter is within the address space; in a healthy gateway it always is. */
    method ServerTcpOut(first: Tcp, second: Tcp) returns (ghost sample: Option<Record>)
      requires Shaped() && tcp != null
      modifies tcp, tcp.outputBuffer, memory`memBuf
      ensures Shaped() && Value() == Sent(old(Value()), first, sample, second)
      ensures old(tcp.memOutputIndex) <= CircularLog.LAST_ADDRESSABLE || old(Healthy(Value())) ==>
                Follows(old(Value()), Output(first, second))
    {
      hide Healthy, Honest, Out, Header, CircularLog.Log.Sample;
      ghost var before := Value();
      KeepsHealth(before, Output(first, second));
      if Healthy(before) { CounterStaysOnCard(before); }
      sample := tcp.TcpOut(first, second, memory);
    }

    /** server_tcp_recv, for a chain of buffers */
    method ServerTcpRecv(chain: seq<string>)
      requires Shaped() && chain != [] && tcp != null && tcp.connected
      modifies this`response, this`taken, parser, memory`readIndex, memory`page, memory.indexesBuf
      ensures Follows(old(Value()), Response(HttpRx.Flatten(chain)))
    {
      hide Healthy, Honest, HttpRx.Scan, HttpRx.DoneTimes, HttpRx.Flatten, Header;
      ghost var before := Value();
      ghost var text := HttpRx.Flatten(chain);
      KeepsHealth(before, Response(text));
      response, taken := response + text, taken + HttpRx.Scan(parser.goodIndex, text).1;
      parser.Receive(chain, memory);
    }

    /** The close callback of server_tcp_close_conn */
    method ServerTcpClosed()
      requires Shaped() && tcp != null
      modifies this`active, this`uploadCountdown, this`tcp
      ensures Follows(old(Value()), Ended)
    {
      hide Healthy, Honest;
      KeepsHealth(Value(), Ended);
      UploadEnd();
    }

    /** put_sample, whatever the record */
    method PutSample(record: Record, now: u32) returns (stored: bool)
      requires Shaped()
      modifies this`all, memory`disk, memory`writeIndex, memory`page, memory`lastWriteTime, memory.indexesBuf
      ensures Shaped() && Value() == Stored(old(Value()), record, now)
      ensures old(Healthy(Value())) ==> (stored <==> |old(all)| - old(taken) < CircularLog.LastBlock(memory.sectors))
    {
      hide Healthy, Evaluate, Header, CircularLog.Log.Put;
      ghost var before := Value();
      if Healthy(before) {
        HealthyStores(before);
        CircularLog.PutRefines(before.log, all, taken, record);
      }
      RefusalChangesNothing(before.log, record);
      stored := memory.PutSample(record, now);
      if stored { all := all + [record]; }
    }

    /** write_sample_to_mem */
    method WriteSampleToMem(flags: u32, left: u32, right: u32, timeAgo: u32) returns (ghost time: u64)
      requires Shaped()
      modifies this`all, clock`currentTime
      modifies memory`disk, memory`writeIndex, memory`page, memory`lastWriteTime, memory.indexesBuf
      ensures clock.currentTime == Polled(old(clock.currentTime), clock.timer)
      ensures time == (clock.currentTime.Value() - timeAgo) % TWO_64
      ensures Follows(old(Value()), Sampled(flags, time, left, right, clock.timer))
    {
      hide Healthy, Honest, Header, Polled, CircularLog.Log.Put, Records.SampleRecord;
      ghost var before := Value();
      ghost var stored;
      time, stored := Records.WriteSampleToMem(flags, left, right, timeAgo, clock, memory);
      RefusalChangesNothing(before.log, Records.SampleRecord(flags, time, left, right));
      KeepsHealth(before, Sampled(flags, time, left, right, clock.timer));
      if stored { all := all + [Records.SampleRecord(flags, time, left, right)]; }
    }

    /** block_uploaded */
    method BlockUploaded(rx: Records.RxFrame, now: u32) returns (ack: Option<IeeeFrame.TxFrame>)
      requires Shaped()
      modifies this`all, memory`disk, memory`writeIndex, memory`page, memory`lastWriteTime, memory.indexesBuf
      ensures ack == if Records.Acceptable(rx) then Some(Records.Acknowledgement(rx)) else None
      ensures Follows(old(Value()), Uploaded(rx, now))
    {
      hide Healthy, Honest, Header, CircularLog.Log.Put, Records.Carried, Evaluate;
      ghost var before := Value();
      ghost var stored;
      ack, stored := Records.BlockUploaded(rx, memory, now);
      RefusalChangesNothing(before.log, Records.Carried(rx));
      KeepsHealth(before, Uploaded(rx, now));
      if stored { all := all + [Records.Carried(rx)]; }
    }
  }
}
