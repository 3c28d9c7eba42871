/** struct server_tcp_state and the functions of src/server_tcp.c that update it, tied to the machine on values
    in ServerTcp. */
module ServerTcpState {
  import opened Common
  import opened Checksum
  import opened HttpTx
  import opened HttpTxBuffer
  import opened ServerTcp
  import CircularLog
  import Memory

  /** server_tcp_write: attempts with shrinking lengths until one is accepted or it gives up. */
  method ServerTcpWrite(length: nat, tcp: Tcp) returns (accepted: Option<nat>)
    requires length > 0
    ensures accepted == TryWrite(length, tcp, 0)
    ensures forall n: nat :: accepted == Some(n) <==> WriteAccepted(length, tcp, 0, n)
  {
    hide WriteAccepted;
    forall n: nat
      ensures TryWrite(length, tcp, 0) == Some(n) <==> WriteAccepted(length, tcp, 0, n)
    {
      WriteMeansAccepted(length, tcp, 0, n);
    }
    var len, attempt := length, 0;
    while true
      invariant len > 0 && TryWrite(len, tcp, attempt) == TryWrite(length, tcp, 0)
      decreases len
    {
      match tcp(attempt) {
        case Accepted => return Some(len);
        case Failed => return None;
        case NoMemory(noRoom) =>
          len := if noRoom then 1 else len / 2;
          if len <= 1 { return None; }
          attempt := attempt + 1;
      }
    }
  }

  lemma RefillInData(s: Session, sample: Option<Record>)
    requires s.phase == OP_JSON_DATA
    ensures var index := (s.recordsIndex + 1) % TWO_16;
            Refill(s, sample) ==
            if s.recordsIndex < s.config.count then
              s.(recordsIndex := index, memIndex := (s.memIndex + 1) % TWO_32, samples := s.samples + [sample],
                 pending := Element(sample, index < s.config.count))
            else
              s.(recordsIndex := index, phase := OP_JSON_FOOTER)
  {
    hide Header, Element, JSON_HEADER, JSON_FOOTER;
  }

  lemma RefillOutsideData(s: Session, sample: Option<Record>)
    ensures s.phase == OP_HTTP_HEADER ==>
              Refill(s, sample)
              == s.(pending := Header(s.config.host, s.config.auth, s.config.count), phase := OP_JSON_HEADER)
    ensures s.phase == OP_JSON_HEADER ==> Refill(s, sample) == s.(pending := JSON_HEADER, phase := OP_JSON_DATA)
    ensures s.phase == OP_JSON_FOOTER ==> Refill(s, sample) == s.(pending := JSON_FOOTER, phase := OP_WAIT_BEFORE_CLOSE)
    ensures s.phase == OP_WAIT_BEFORE_CLOSE ==>
              Refill(s, sample)
              == s.(wait := (s.wait + 1) % TWO_16, phase := if s.wait > WAIT_BEFORE_CLOSE then OP_CLOSE else s.phase)
    ensures s.phase == OP_CLOSE ==> Refill(s, sample) == s.(closed := true, phase := OP_FINISHED)
    ensures s.phase > OP_CLOSE ==> Refill(s, sample) == s
  {
    hide Header, Element, JSON_HEADER, JSON_FOOTER;
  }

  lemma FlushByAnswer(s: Session, tcp: Tcp)
    ensures s.pending == [] ==> Flush(s, tcp) == s
    ensures s.pending != [] && TryWrite(|s.pending|, tcp, 0).Some? ==>
              var n := TryWrite(|s.pending|, tcp, 0).value;
              Flush(s, tcp) == s.(wire := s.wire + s.pending[..n], pending := s.pending[n..],
                                  writeErr := if n < |s.pending| then 0 else s.writeErr)
    ensures s.pending != [] && TryWrite(|s.pending|, tcp, 0).None? ==>
              var e := (s.writeErr + 1) % TWO_32;
              Flush(s, tcp) == s.(writeErr := e, closed := s.closed || e > MAX_WRITE_ERR)
  {
    hide TryWrite;
  }

  lemma SliceOfSlice(b: seq<char>, from: nat, to: nat, n: nat)
    requires from + n <= to <= |b|
    ensures b[from..to][..n] == b[from..from + n] && b[from..to][n..] == b[from + n..to]
  {}

  class ServerTcpState {
    const config: Config
    var connected: bool
    var outputPhase: nat
    var memOutputIndex: u32
    var recordsIndex: u16
    const outputBuffer: array<char>
    var currentPos: nat
    var currentLen: nat
    var waitBeforeCloseCounter: u16
    var writeErr: u32
    var closed: bool
    var wire: string
    ghost var samples: seq<Option<Record>>

    ghost predicate Valid()
      reads this
    {
      && outputBuffer.Length == BUFFER_SIZE
      && currentPos <= currentLen <= BUFFER_SIZE
      && |Header(config.host, config.auth, config.count)| < BUFFER_SIZE
    }

    ghost function Value(): Session
      requires Valid()
      reads this, outputBuffer
    {
      Session(config, outputPhase, memOutputIndex, recordsIndex, outputBuffer[currentPos..currentLen],
              waitBeforeCloseCounter, writeErr, closed, wire, samples)
    }

    /** server_tcp_init, for the header a configuration makes to fit the buffer */
    constructor (config: Config, readIndex: u32)
      requires |Header(config.host, config.auth, config.count)| < BUFFER_SIZE
      ensures Valid() && fresh(outputBuffer) && this.config == config && !connected
      ensures Value() == Start(config, readIndex)
    {
      this.config := config;
      this.connected := false;
      this.outputPhase := OP_HTTP_HEADER;
      this.memOutputIndex := readIndex;
      this.recordsIndex := 0;
      this.outputBuffer := new char[BUFFER_SIZE];
      this.currentPos, this.currentLen := 0, 0;
      this.waitBeforeCloseCounter, this.writeErr := 0, 0;
      this.closed, this.wire, this.samples := false, [], [];
    }

    /** The first `n` octets of the buffer have been accepted. */
    method Take(n: nat)
      requires Valid() && n <= currentLen - currentPos
      modifies this`currentPos, this`wire
      ensures Valid() && currentPos == old(currentPos) + n
      ensures Value() == old(Value()).(wire := old(Value()).wire + old(Value()).pending[..n],
                                       pending := old(Value()).pending[n..])
    {
      hide Header;
      SliceOfSlice(outputBuffer[..], currentPos, currentLen, n);
      wire := wire + outputBuffer[currentPos..currentPos + n];
      currentPos := currentPos + n;
    }

    /** server_current_tcp_out */
    method CurrentTcpOut(tcp: Tcp) returns (empty: bool)
      requires Valid()
      modifies this`currentPos, this`writeErr, this`closed, this`wire
      ensures Valid() && Value() == Flush(old(Value()), tcp)
      ensures empty <==> Value().pending == []
    {
      hide Header, TryWrite, Flush;
      ghost var before := Value();
      FlushByAnswer(before, tcp);
      var len := currentLen - currentPos;
      if len > 0 {
        var accepted := ServerTcpWrite(len, tcp);
        if accepted.Some? {
          Take(accepted.value);
          if currentPos >= currentLen { return true; }
          writeErr := 0;
        } else {
          writeErr := (writeErr + 1) % TWO_32;
          if writeErr > MAX_WRITE_ERR { closed := true; }
        }
        return false;
      }
      return true;
    }

    /** The part of server_tcp_out that selects the next block of output. */
    method SelectOutput(memory: Memory.Memory) returns (ghost sample: Option<Record>)
      requires Valid() && memory.Valid() && Value().pending == []
      modifies this`recordsIndex, this`memOutputIndex, this`samples, this`currentPos, this`currentLen, this`outputPhase
      modifies this`waitBeforeCloseCounter, this`closed, outputBuffer, memory`memBuf
      ensures Valid() && Value() == Refill(old(Value()), sample)
      ensures old(memOutputIndex) <= CircularLog.LAST_ADDRESSABLE ==>
              sample == old(memory.Value()).Sample(old(memOutputIndex))
    {
      hide Refill, Header, CircularLog.Log.Sample;
      ghost var before := Value();
      currentPos, currentLen := 0, 0;
      assert Value() == before;
      sample := memory.Value().Sample(memOutputIndex);
      if outputPhase == OP_JSON_DATA {
        var record := None;
        if recordsIndex < config.count {
          record := memory.GetSample(memOutputIndex);
          sample := record;
          assert Value() == before;
        }
        SelectRecord(record);
        RefillInData(before, record);
        RefillInData(before, sample);
      } else {
        SelectFixed(sample);
      }
    }

    /** The phases of server_tcp_out that read no record. */
    method SelectFixed(ghost sample: Option<Record>)
      requires Valid() && outputPhase != OP_JSON_DATA && currentPos == currentLen == 0
      modifies this`outputPhase, this`currentLen, this`waitBeforeCloseCounter, this`closed, outputBuffer
      ensures Valid() && Value() == Refill(old(Value()), sample)
    {
      hide Refill, Header, JSON_HEADER, JSON_FOOTER;
      ghost var before := Value();
      if outputPhase == OP_HTTP_HEADER {
        currentLen := HttpHeader(outputBuffer, config.host, config.auth, config.count);
        outputPhase := outputPhase + 1;
      } else if outputPhase == OP_JSON_HEADER {
        currentLen := JsonHeader(outputBuffer);
        outputPhase := outputPhase + 1;
      } else if outputPhase == OP_JSON_FOOTER {
        currentLen := JsonFooter(outputBuffer);
        outputPhase := outputPhase + 1;
      } else if outputPhase == OP_WAIT_BEFORE_CLOSE {
        var over := waitBeforeCloseCounter > WAIT_BEFORE_CLOSE;
        waitBeforeCloseCounter := (waitBeforeCloseCounter + 1) % TWO_16;
        if over { outputPhase := outputPhase + 1; }
      } else if outputPhase == OP_CLOSE {
        closed := true;
        outputPhase := outputPhase + 1;
      }
      assert outputBuffer[0..currentLen] == outputBuffer[..currentLen];
      RefillOutsideData(before, sample);
    }

    /** The data phase of server_tcp_out, given what get_sample returned if there are more records. */
    method SelectRecord(record: Option<Record>)
      requires Valid() && outputPhase == OP_JSON_DATA && currentPos == currentLen == 0
      modifies this`recordsIndex, this`memOutputIndex, this`samples, this`currentLen, this`outputPhase, outputBuffer
      ensures Valid() && Value() == Refill(old(Value()), record)
    {
      hide Refill, Header, Element;
      ghost var before := Value();
      var more := recordsIndex < config.count;
      recordsIndex := (recordsIndex + 1) % TWO_16;
      if more {
        memOutputIndex := (memOutputIndex + 1) % TWO_32;
        samples := samples + [record];
        currentLen := JsonElement(outputBuffer, record, recordsIndex < config.count);
        assert outputBuffer[0..currentLen] == outputBuffer[..currentLen];
        assert Value() == before.(recordsIndex := recordsIndex, memIndex := memOutputIndex, samples := samples,
                                  pending := Element(record, recordsIndex < config.count));
      } else {
        outputPhase := outputPhase + 1;
        assert Value() == before.(recordsIndex := recordsIndex, phase := OP_JSON_FOOTER);
      }
      RefillInData(before, record);
    }

    /** server_tcp_out */
    method TcpOut(first: Tcp, second: Tcp, memory: Memory.Memory) returns (ghost sample: Option<Record>)
      requires Valid() && memory.Valid()
      modifies this, outputBuffer, memory`memBuf
      ensures Valid() && connected == old(connected)
      ensures Value() == if connected then Out(old(Value()), first, sample, second) else old(Value())
      ensures old(memOutputIndex) <= CircularLog.LAST_ADDRESSABLE ==>
              sample == old(memory.Value()).Sample(old(memOutputIndex))
    {
      hide Flush, Refill, Evaluate;
      sample := memory.Value().Sample(memOutputIndex);
      if connected {
        var empty := CurrentTcpOut(first);
        if empty {
          sample := SelectOutput(memory);
          var _ := CurrentTcpOut(second);
        }
      }
    }
  }
}
