/** The transmit side of struct radif in its own form: radio_tx and radif_send updating the ring in place.
    radif_send is given the interrupts that follow each of its statements, and its run is shown to be one of the
    interleavings of TxRing. */
module RadifSend {
  import opened Common
  import opened Rings
  import opened IeeeFrame
  import opened TxRing
  import OctetBits
  import Runs

  /** How a call of radif_send stands: the frame is queued, dropped, or longer than a frame may be; it still waits
      for a free cell; or the interrupt has stopped on a frame too long for the radio. */
  datatype Outcome = Queued | Dropped | Overlong | StillWaiting | Stopped

  function Interrupted(busy: seq<bool>): seq<Step> {
    seq(|busy|, i requires 0 <= i < |busy| => Interrupt(busy[i]))
  }

  lemma InterruptedOneMore(busy: seq<bool>, i: nat)
    requires i < |busy|
    ensures Interrupted(busy[..i + 1]) == Interrupted(busy[..i]) + [Interrupt(busy[i])]
  {}

  /** The station after `k` frames: the 8-bit sequence number has moved on by `k`. */
  function Numbered(st: Station, k: nat): Station {
    if k == 0 then st else var s := Numbered(st, k - 1); s.(sequence := s.sequence + 1)
  }

  /** The octets on the SPI connection for frames written one after the other: each the write command and the whole
      frame, with the next sequence number. */
  function Written(st: Station, frames: seq<TxFrame>): seq<bv8> {
    if frames == [] then []
    else
      var k := |frames| - 1;
      Written(st, frames[..k]) + [RADIO_SPI_CMD_FW] + FrameOut(frames[k], Numbered(st, k), [BLANK, BLANK])
  }

  lemma WrittenOneMore(st: Station, frames: seq<TxFrame>, f: TxFrame)
    ensures Written(st, frames + [f])
         == Written(st, frames) + [RADIO_SPI_CMD_FW] + FrameOut(f, Numbered(st, |frames|), [BLANK, BLANK])
  {
    hide FrameOut;
    assert (frames + [f])[..|frames|] == frames;
  }

  /** The transmit side of struct radif, over the connection `link`. `schedule` stands for the surroundings: the
      interrupts after each of the next statements of radif_send, and whether each finds the radio busy. */
  class Transmitter {
    const link: Link
    ghost const origin: Station
    const txFrames: array<Cell>
    var txProduceIndex: nat
    var txConsumeIndex: nat
    var up: bool
    var hung: bool
    var schedule: seq<seq<bool>>
    ghost var place: Place
    ghost var sends: nat
    ghost var queued: seq<TxFrame>
    ghost var sent: seq<TxFrame>
    ghost var dropped: seq<TxFrame>

    ghost function Value(): Ring
      reads this, txFrames
    {
      Ring(txFrames[..], txProduceIndex, txConsumeIndex, up, place, hung, sends, queued, sent, dropped)
    }

    /** The octets sent are exactly the frames sent, in order; a stopped interrupt has begun one more. */
    ghost predicate OnAir()
      reads `hung, `sent, link
    {
      && link.ToStation() == Numbered(origin, |sent|)
      && (if hung then Written(origin, sent) < link.sent else Written(origin, sent) == link.sent)
    }

    ghost predicate Valid()
      reads this, txFrames, link
    {
      Sound(Value()) && OnAir()
    }

    /** radif_init_struct, and the interrupts to come */
    constructor (link: Link, schedule: seq<seq<bool>>)
      requires link.sent == []
      ensures Valid() && fresh(txFrames) && this.link == link && this.schedule == schedule
      ensures origin == link.ToStation() && Value() == Initial(txFrames[..])
    {
      this.link, this.origin := link, link.ToStation();
      txFrames := new Cell[SLOTS](_ => Cell(seq(127, _ => 0), 0, 0, false));
      txProduceIndex, txConsumeIndex, up, hung := 0, 0, false, false;
      this.schedule := schedule;
      place, sends, queued, sent, dropped := Idle, 0, [], [], [];
      new;
      assert Window(txFrames[..], 0, 0) == [];
    }

    /** radio_tx, as radio_irq calls it */
    method RadioTx(busy: bool)
      requires Valid() && !hung
      modifies this`txConsumeIndex, this`hung, this`sent, link`sent, link`cursor, link`sequence
      ensures Valid() && Value() == Transmit(old(Value()), busy)
    {
      hide Sound, FrameOut, Written, OctetBits.Octet;
      TransmitSound(Value(), busy);
      SoundShape(Value());
      if up {
        var index := txConsumeIndex;
        if index != txProduceIndex {
          if !busy {
            var cell := txFrames[index];
            var tx := TxFrame(cell.data[..cell.length], cell.destination, cell.ack);
            TooLongIff(cell.length);
            WrittenOneMore(origin, sent, tx);
            var completed := link.RadioFrameWrite(tx);
            if completed {
              sent := sent + [tx];
              txConsumeIndex := (index + 1) % SLOTS;
            } else {
              hung := true;
            }
          }
        }
      }
    }

    /** The interrupt runs once for each element, until it stops the processor. */
    method Interrupts(busy: seq<bool>)
      requires Valid()
      modifies this`txConsumeIndex, this`hung, this`sent
      modifies link`sent, link`cursor, link`sequence
      ensures Valid() && Value() == After(old(Value()), Interrupted(busy))
    {
      hide OnAir, Sound, Transmit, Advance;
      ghost var before := Value();
      SoundShape(before);
      var i := 0;
      assert Interrupted(busy[..0]) == [];
      while i < |busy|
        invariant 0 <= i <= |busy| && Valid()
        invariant Value() == After(before, Interrupted(busy[..i]))
      {
        SoundShape(Value());
        Runs.AfterOne(Do, before, Interrupted(busy[..i]), Interrupt(busy[i]));
        InterruptedOneMore(busy, i);
        if !hung { RadioTx(busy[i]); }
        i := i + 1;
      }
      assert busy[..|busy|] == busy;
    }

    /** The interrupts after the statement `s`. */
    method Settle(ghost first: Ring, ghost steps: seq<Step>, ghost s: Step) returns (ghost steps': seq<Step>)
      requires Valid() && Value() == Do(After(first, steps), s)
      modifies this`txConsumeIndex, this`hung, this`sent, this`schedule
      modifies link`sent, link`cursor, link`sequence
      ensures Valid() && Value() == After(first, steps')
      ensures old(schedule) != [] ==> |schedule| < |old(schedule)|
    {
      hide OnAir, Sound, Do;
      var busy := if schedule == [] then [] else schedule[0];
      Runs.AfterOne(Do, first, steps, s);
      Runs.AfterConcat(Do, first, steps + [s], Interrupted(busy));
      steps' := steps + [s] + Interrupted(busy);
      if schedule != [] { schedule := schedule[1..]; }
      Interrupts(busy);
    }

    /** A statement that only tests or waits, and the interrupts after it. The ghost state knows which statement. */
    method Test(ghost first: Ring, ghost steps: seq<Step>) returns (ghost steps': seq<Step>)
      requires Valid() && !hung && Testing(place) && Value() == After(first, steps)
      modifies this`txConsumeIndex, this`hung, this`sent, this`schedule, this`place, this`dropped
      modifies link`sent, link`cursor, link`sequence
      ensures Valid() && Value() == After(first, steps')
      ensures place == old(Advance(Value())).place && dropped == old(Advance(Value())).dropped
      ensures old(schedule) != [] ==> |schedule| < |old(schedule)|
    {
      hide OnAir, Sound, After, Transmit;
      SoundShape(Value());
      StepSound(Value(), Continue);
      ghost var next := Advance(Value());
      place, dropped := next.place, next.dropped;
      assert Value() == next;
      steps' := Settle(first, steps, Continue);
    }

    /** The wait for a free cell, which ends only through the interrupt. */
    method Wait(frame: TxFrame, ghost first: Ring, ghost steps: seq<Step>)
      returns (stop: Option<Outcome>, ghost steps': seq<Step>)
      requires Valid() && !hung && place == Waiting(frame) && Value() == After(first, steps)
      modifies this`txConsumeIndex, this`hung, this`sent, this`schedule, this`place, this`dropped
      modifies link`sent, link`cursor, link`sequence
      ensures Valid() && Value() == After(first, steps') && dropped == old(dropped)
      ensures stop == None ==> !hung && place == Copying(frame, 0)
      ensures stop == Some(StillWaiting) ==> !hung && place == Waiting(frame) && schedule == []
      ensures stop == Some(Stopped) ==> hung
      ensures stop == None || stop == Some(StillWaiting) || stop == Some(Stopped)
    {
      hide OnAir, Sound, After, Transmit, Do;
      steps' := steps;
      var next := (txProduceIndex + 1) % SLOTS;
      while next == txConsumeIndex
        invariant Valid() && !hung && Value() == After(first, steps') && place == Waiting(frame)
                  && dropped == old(dropped)
        decreases |schedule|
      {
        if schedule == [] { return Some(StillWaiting), steps'; }
        steps' := Test(first, steps');
        if hung { return Some(Stopped), steps'; }
      }
      steps' := Test(first, steps');
      stop := if hung then Some(Stopped) else None;
    }

    /** The tests at the head of radif_send. None: there is a free cell and radif_send may fill it. */
    method Reserve(frame: TxFrame, ghost first: Ring, ghost steps: seq<Step>)
      returns (stop: Option<Outcome>, ghost steps': seq<Step>)
      requires Valid() && !hung && place == TestingFull(frame) && Value() == After(first, steps)
      modifies this`txConsumeIndex, this`hung, this`sent, this`schedule, this`place, this`dropped
      modifies link`sent, link`cursor, link`sequence
      ensures Valid() && Value() == After(first, steps')
      ensures dropped == old(dropped) + if stop == Some(Dropped) then [frame] else []
      ensures stop == None ==> !hung && place == Copying(frame, 0)
      ensures stop == Some(Dropped) ==> !up && place.Idle?
      ensures stop == Some(StillWaiting) ==> up && !hung && place == Waiting(frame) && schedule == []
      ensures stop == Some(Stopped) ==> hung
      ensures stop != Some(Queued) && stop != Some(Overlong)
    {
      hide OnAir, Sound, After, Transmit, Do;
      var next := (txProduceIndex + 1) % SLOTS;
      var full := next == txConsumeIndex;
      steps' := Test(first, steps);
      if hung { return Some(Stopped), steps'; }
      if !full { return None, steps'; }
      steps' := Test(first, steps');
      if !up { return Some(Dropped), steps'; }
      if hung { return Some(Stopped), steps'; }
      stop, steps' := Wait(frame, first, steps');
    }

    /** A statement that writes the cell at the produce index, and the interrupts after it. */
    method Write(c: Cell, ghost next: Place, ghost first: Ring, ghost steps: seq<Step>)
      returns (ghost steps': seq<Step>)
      requires Valid() && !hung && Filling(place) && Value() == After(first, steps)
      requires Advance(Value()) == SetCell(Value(), c, next)
      modifies this`txConsumeIndex, this`hung, this`sent, this`schedule, this`place, txFrames
      modifies link`sent, link`cursor, link`sequence
      ensures Valid() && Value() == After(first, steps') && place == next
      ensures txProduceIndex < txFrames.Length && txFrames[txProduceIndex] == c
    {
      hide OnAir, Sound, After, Transmit, Advance;
      SoundShape(Value());
      StepSound(Value(), Continue);
      ghost var r := Value();
      txFrames[txProduceIndex] := c;
      place := next;
      assert Value() == SetCell(r, c, next);
      steps' := Settle(first, steps, Continue);
    }

    /** memcpy, one octet at a time. */
    method CopyPayload(frame: TxFrame, ghost first: Ring, ghost steps: seq<Step>) returns (ghost steps': seq<Step>)
      requires Valid() && !hung && place == Copying(frame, 0) && Value() == After(first, steps)
      modifies this`txConsumeIndex, this`hung, this`sent, this`schedule, this`place, txFrames
      modifies link`sent, link`cursor, link`sequence
      ensures Valid() && Value() == After(first, steps')
      ensures !hung ==> place == SettingDestination(frame)
    {
      hide OnAir, Sound, After, Transmit, Do;
      SoundShape(Value());
      steps' := steps;
      var k := 0;
      while k < |frame.payload|
        invariant 0 <= k <= |frame.payload| && Valid() && !hung
        invariant Value() == After(first, steps') && place == Copying(frame, k)
      {
        SoundShape(Value());
        var c := txFrames[txProduceIndex];
        steps' := Write(c.(data := c.data[k := frame.payload[k]]), Copying(frame, k + 1), first, steps');
        if hung { return; }
        k := k + 1;
      }
      SoundShape(Value());
      SameCell(Value(), SettingDestination(frame));
      steps' := Write(txFrames[txProduceIndex], SettingDestination(frame), first, steps');
    }

    /** The rest of the frame is set field by field. */
    method SetFields(frame: TxFrame, ghost first: Ring, ghost steps: seq<Step>) returns (ghost steps': seq<Step>)
      requires Valid() && !hung && place == SettingDestination(frame) && Value() == After(first, steps)
      modifies this`txConsumeIndex, this`hung, this`sent, this`schedule, this`place, txFrames
      modifies link`sent, link`cursor, link`sequence
      ensures Valid() && Value() == After(first, steps')
      ensures !hung ==> place == Publishing(frame)
    {
      hide OnAir, Sound, After, Transmit, Do;
      SoundShape(Value());
      steps' := Write(txFrames[txProduceIndex].(destination := frame.destination), SettingLength(frame), first, steps);
      if hung { return; }
      SoundShape(Value());
      steps' := Write(txFrames[txProduceIndex].(length := |frame.payload|), SettingAck(frame), first, steps');
      if hung { return; }
      SoundShape(Value());
      steps' := Write(txFrames[txProduceIndex].(ack := frame.ack), Publishing(frame), first, steps');
    }

    /** The produce index moves, and the interrupt is triggered. */
    method Publish(frame: TxFrame, ghost first: Ring, ghost steps: seq<Step>) returns (ghost steps': seq<Step>)
      requires Valid() && !hung && place == Publishing(frame) && Value() == After(first, steps)
      modifies this`txProduceIndex, this`txConsumeIndex, this`hung, this`sent, this`schedule, this`place, this`queued
      modifies link`sent, link`cursor, link`sequence
      ensures Valid() && Value() == After(first, steps') && queued == old(queued) + [frame]
      ensures !hung ==> place.Idle?
    {
      hide OnAir, Sound, After, Transmit;
      SoundShape(Value());
      StepSound(Value(), Continue);
      ghost var r := Value();
      txProduceIndex := (txProduceIndex + 1) % SLOTS;
      place, queued := Triggering, queued + [frame];
      assert Value() == Advance(r);
      steps' := Settle(first, steps, Continue);
      if hung { return; }
      SoundShape(Value());
      StepSound(Value(), Continue);
      r := Value();
      place := Idle;
      assert Value() == Advance(r);
      steps' := Settle(first, steps', Continue);
    }

    /** A free cell is filled and made part of the ring. */
    method Enqueue(frame: TxFrame, ghost first: Ring, ghost steps: seq<Step>) returns (ghost steps': seq<Step>)
      requires Valid() && !hung && place == Copying(frame, 0) && Value() == After(first, steps)
      modifies this`txProduceIndex, this`txConsumeIndex, this`hung, this`sent, this`schedule, this`place, this`queued,
               txFrames
      modifies link`sent, link`cursor, link`sequence
      ensures Valid() && Value() == After(first, steps')
      ensures !hung ==> place.Idle? && queued == old(queued) + [frame]
    {
      hide OnAir, Sound, After, Transmit, Do, Advance;
      steps' := CopyPayload(frame, first, steps);
      if hung { return; }
      steps' := SetFields(frame, first, steps');
      if hung { return; }
      steps' := Publish(frame, first, steps');
    }

    /** radif_send is called: the frame is in its hands, unless it is too long. */
    method Begin(frame: TxFrame, ghost first: Ring) returns (ghost steps: seq<Step>)
      requires Valid() && first == Value() && place.Idle? && !hung
      modifies this`txConsumeIndex, this`hung, this`sent, this`schedule, this`place, this`sends
      modifies link`sent, link`cursor, link`sequence
      ensures Valid() && Value() == After(first, steps)
      ensures if |frame.payload| > 127 then place.Halted? else place == TestingFull(frame)
    {
      hide OnAir, Sound, Runs.After, Transmit, Advance;
      SoundShape(first);
      StepSound(first, Send(frame));
      Runs.AfterNothing(Do, first);
      sends := sends + 1;
      place := if |frame.payload| > 127 then Halted else TestingFull(frame);
      steps := Settle(first, [], Send(frame));
    }

    /** radif_send. The run is an interleaving of its statements with the interrupts of the schedule; it queues the
        whole frame, or drops it with the interface down, or is stopped. */
    method RadifSend(frame: TxFrame) returns (outcome: Outcome, ghost steps: seq<Step>)
      requires Valid() && place.Idle? && !hung
      modifies this, txFrames, link`sent, link`cursor, link`sequence
      ensures Valid() && Value() == After(old(Value()), steps)
      ensures outcome.Overlong? <==> |frame.payload| > 127
      ensures outcome.Queued? ==> !hung && place.Idle? && queued == old(queued) + [frame] && dropped == old(dropped)
      ensures outcome.Dropped? ==> !up && place.Idle? && queued == old(queued) && dropped == old(dropped) + [frame]
      ensures outcome.StillWaiting? ==>
              up && place == Waiting(frame) && schedule == [] && queued == old(queued) && dropped == old(dropped)
      ensures outcome.Stopped? ==> hung
    {
      hide OnAir, Sound, After, Transmit, Advance, Do;
      ghost var first := Value();
      steps := Begin(frame, first);
      if |frame.payload| > 127 { return Overlong, steps; }
      if hung { return Stopped, steps; }
      var stop;
      stop, steps := Reserve(frame, first, steps);
      if stop.Some? { return stop.value, steps; }
      steps := Enqueue(frame, first, steps);
      outcome := if hung then Stopped else Queued;
    }
  }

  lemma SameCell(r: Ring, next: Place)
    requires Shaped(r)
    ensures SetCell(r, r.cells[r.produce], next) == r.(place := next)
  {
    assert r.cells[r.produce := r.cells[r.produce]] == r.cells;
  }
}
