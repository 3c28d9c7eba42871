/** The transmit ring between radif_send (src/radio/radio.c) and radio_tx in the radio interrupt
    (src/radio/radio_irq.c). radif_send is taken apart into its statements, the copy of the payload into single
    octets, and the interrupt may run between any two. The main loop alone writes the produce index, so the
    local copies of it in radif_send always equal it. */
module TxRing {
  import opened Common
  import opened Rings
  import Runs
  import opened IeeeFrame

  /** struct tx_frame */
  datatype Cell = Cell(data: seq<bv8>, length: nat, destination: bv16, ack: bool)

  /** The cell is a complete copy of the frame. */
  predicate Holds(c: Cell, f: TxFrame) {
    && c.length == |f.payload| <= |c.data|
    && c.data[..c.length] == f.payload
    && c.destination == f.destination
    && c.ack == f.ack
  }

  /** The next statement of radif_send. */
  datatype Place =
    | Idle
    | TestingFull(frame: TxFrame)
    | TestingUp(frame: TxFrame)
    | Waiting(frame: TxFrame)
    | Copying(frame: TxFrame, copied: nat)
    | SettingDestination(frame: TxFrame)
    | SettingLength(frame: TxFrame)
    | SettingAck(frame: TxFrame)
    | Publishing(frame: TxFrame)
    | Triggering
    | Halted

  /** The ring and the history: frames put into it, written to the radio, and dropped. `hung` is an interrupt
      that stopped on a frame too long for the radio. */
  datatype Ring = Ring(
    cells: seq<Cell>,
    produce: nat,
    consume: nat,
    up: bool,
    place: Place,
    hung: bool,
    sends: nat,
    queued: seq<TxFrame>,
    sent: seq<TxFrame>,
    dropped: seq<TxFrame>)

  datatype Step = Send(frame: TxFrame) | Continue | Interrupt(busy: bool) | SetUp(up: bool)

  predicate Shaped(r: Ring) {
    && |r.cells| == SLOTS && r.produce < SLOTS && r.consume < SLOTS
    && (forall i :: 0 <= i < SLOTS ==> |r.cells[i].data| == 127 && r.cells[i].length <= 127)
    && (Testing(r.place) || Filling(r.place) ==> |r.place.frame.payload| <= 127)
  }

  predicate Testing(p: Place) { p.TestingFull? || p.TestingUp? || p.Waiting? }

  /** radif_send is filling the cell at the produce index. */
  predicate Filling(p: Place) {
    p.Copying? || p.SettingDestination? || p.SettingLength? || p.SettingAck? || p.Publishing?
  }

  function SetCell(r: Ring, c: Cell, place: Place): Ring
    requires |r.cells| == SLOTS && r.produce < SLOTS
  {
    r.(cells := r.cells[r.produce := c], place := place)
  }

  /** The next statement of radif_send. */
  function Advance(r: Ring): (q: Ring)
    requires Shaped(r)
    ensures Shaped(q)
  {
    var c := r.cells[r.produce];
    match r.place
    case TestingFull(f) => r.(place := if Slot(r.produce, 1) == r.consume then TestingUp(f) else Copying(f, 0))
    case TestingUp(f) => if r.up then r.(place := Waiting(f)) else r.(place := Idle, dropped := r.dropped + [f])
    case Waiting(f) => if Slot(r.produce, 1) == r.consume then r else r.(place := Copying(f, 0))
    case Copying(f, k) =>
      if k < |f.payload| then SetCell(r, c.(data := c.data[k := f.payload[k]]), Copying(f, k + 1))
      else r.(place := SettingDestination(f))
    case SettingDestination(f) => SetCell(r, c.(destination := f.destination), SettingLength(f))
    case SettingLength(f) => SetCell(r, c.(length := |f.payload|), SettingAck(f))
    case SettingAck(f) => SetCell(r, c.(ack := f.ack), Publishing(f))
    case Publishing(f) => r.(produce := Slot(r.produce, 1), place := Triggering, queued := r.queued + [f])
    case Triggering => r.(place := Idle)
    case _ => r
  }

  /** radio_tx, in an interrupt that finds the radio busy or not */
  function Transmit(r: Ring, busy: bool): (q: Ring)
    requires Shaped(r)
    ensures Shaped(q)
  {
    var c := r.cells[r.consume];
    if !r.up || r.consume == r.produce || busy then r
    else if LengthOctet(c.length) > MAX_MPDU then r.(hung := true)
    else r.(sent := r.sent + [TxFrame(c.data[..c.length], c.destination, c.ack)], consume := Slot(r.consume, 1))
  }

  function Do(r: Ring, s: Step): Ring {
    if r.hung || !Shaped(r) then r
    else
      match s
      case Send(f) =>
        if !r.place.Idle? then r
        else r.(place := if |f.payload| > 127 then Halted else TestingFull(f), sends := r.sends + 1)
      case Continue => Advance(r)
      case Interrupt(busy) => Transmit(r, busy)
      case SetUp(up) => if r.place.Idle? then r.(up := up) else r
  }

  function Initial(cells: seq<Cell>): Ring {
    Ring(cells, 0, 0, false, Idle, false, 0, [], [], [])
  }

  // ---------------------------------------------------------------- the invariant

  function Occupancy(r: Ring): int { |r.queued| - |r.sent| }

  predicate HasFrame(p: Place) {
    Testing(p) || Filling(p) || p.Halted?
  }

  /** How much of the frame is in the cell. */
  predicate Filled(c: Cell, p: Place) {
    match p
    case Copying(f, k) => k <= |f.payload| <= |c.data| && c.data[..k] == f.payload[..k]
    case SettingDestination(f) => |f.payload| <= |c.data| && c.data[..|f.payload|] == f.payload
    case SettingLength(f) =>
      |f.payload| <= |c.data| && c.data[..|f.payload|] == f.payload && c.destination == f.destination
    case SettingAck(f) =>
      c.length == |f.payload| <= |c.data| && c.data[..c.length] == f.payload && c.destination == f.destination
    case Publishing(f) => Holds(c, f)
    case _ => true
  }

  /** The cells hold the frames, one each, complete and in order. */
  predicate AllHold(cells: seq<Cell>, frames: seq<TxFrame>) {
    |cells| == |frames| && forall j :: 0 <= j < |cells| ==> Holds(cells[j], frames[j])
  }

  ghost predicate Sound(r: Ring) {
    && Shaped(r)
    && 0 <= Occupancy(r) < SLOTS
    && r.sent <= r.queued
    && r.produce == Slot(r.consume, Occupancy(r))
    && AllHold(Window(r.cells, r.consume, Occupancy(r)), r.queued[|r.sent|..])
    && (Filling(r.place) ==> Occupancy(r) < SLOTS - 1)
    && (r.place.TestingUp? && !r.up ==> Occupancy(r) == SLOTS - 1)
    && Filled(r.cells[r.produce], r.place)
    && r.sends == |r.queued| + |r.dropped| + (if HasFrame(r.place) then 1 else 0)
    && (r.hung ==> exists f :: f in r.queued && |f.payload| > 116)
  }

  lemma SoundShape(r: Ring)
    requires Sound(r)
    ensures Shaped(r)
  {}

  // ---------------------------------------------------------------- the interrupt

  /** The interrupt takes the first complete frame of the ring and nothing else, and leaves the cell being
      filled alone. */
  lemma TransmitSound(r: Ring, busy: bool)
    requires Sound(r)
    ensures Sound(Transmit(r, busy))
    ensures Transmit(r, busy).cells == r.cells && Transmit(r, busy).queued == r.queued
  {
    hide Window, Slot, Filled;
    EndsTellCount(r.consume, Occupancy(r));
    if Occupancy(r) > 0 {
      Pop(r.cells, r.consume, Occupancy(r));
      var waiting := r.queued[|r.sent|..];
      assert waiting[0] == r.queued[|r.sent|] && waiting[1..] == r.queued[|r.sent| + 1..];
      TakeFirst(Window(r.cells, r.consume, Occupancy(r)), waiting);
      TooLongIff(r.cells[r.consume].length);
    }
  }

  lemma TakeFirst(cells: seq<Cell>, frames: seq<TxFrame>)
    requires AllHold(cells, frames) && cells != []
    ensures Holds(cells[0], frames[0]) && AllHold(cells[1..], frames[1..])
  {}

  /** The interrupt stops exactly on a first frame of more than 116 octets, with the interface up and the radio idle. */
  lemma HangsIff(r: Ring, busy: bool)
    requires Sound(r) && !r.hung
    ensures Transmit(r, busy).hung <==>
              r.up && !busy && Occupancy(r) > 0 && |r.queued[|r.sent|].payload| > 116
  {
    hide Window, Slot, Filled;
    EndsTellCount(r.consume, Occupancy(r));
    if Occupancy(r) > 0 {
      Pop(r.cells, r.consume, Occupancy(r));
      TakeFirst(Window(r.cells, r.consume, Occupancy(r)), r.queued[|r.sent|..]);
      TooLongIff(r.cells[r.consume].length);
    }
  }

  /** A frame goes out exactly when the interface is up, the radio idle and the first frame waiting short enough.
      Otherwise nothing changes, unless the interrupt stops. */
  lemma SendsIff(r: Ring, busy: bool)
    requires Sound(r) && !r.hung
    ensures var q := Transmit(r, busy);
            && (q.sent != r.sent <==> r.up && !busy && Occupancy(r) > 0 && |r.queued[|r.sent|].payload| <= 116)
            && (q.sent != r.sent ==> q.sent == r.queued[..|r.sent| + 1])
            && (q.sent == r.sent ==> q == r.(hung := q.hung))
  {
    hide Window, Slot, Filled;
    TransmitSound(r, busy);
    HangsIff(r, busy);
    EndsTellCount(r.consume, Occupancy(r));
  }

  // ---------------------------------------------------------------- radif_send

  lemma FillSound(r: Ring, c: Cell, place: Place)
    requires Sound(r) && Filling(r.place) && Filling(place) && Filled(c, place)
    requires |c.data| == 127 && c.length <= 127 && |place.frame.payload| <= 127
    ensures Sound(SetCell(r, c, place))
  {
    hide Window, Slot, Filled, AllHold;
    Push(r.cells, r.consume, Occupancy(r), c);
  }

  lemma FillStep(r: Ring)
    requires Sound(r) && Filling(r.place) && !r.place.Publishing?
    ensures Sound(Advance(r))
  {
    hide Window, Slot, AllHold;
    var c := r.cells[r.produce];
    match r.place
    case Copying(f, k) =>
      if k < |f.payload| {
        var c' := c.(data := c.data[k := f.payload[k]]);
        assert c'.data[..k + 1] == c.data[..k] + [f.payload[k]]
               && f.payload[..k + 1] == f.payload[..k] + [f.payload[k]];
        FillSound(r, c', Copying(f, k + 1));
      } else {
        assert f.payload[..k] == f.payload;
      }
    case SettingDestination(f) => FillSound(r, c.(destination := f.destination), SettingLength(f));
    case SettingLength(f) => FillSound(r, c.(length := |f.payload|), SettingAck(f));
    case SettingAck(f) => FillSound(r, c.(ack := f.ack), Publishing(f));
  }

  lemma PublishSound(r: Ring)
    requires Sound(r) && r.place.Publishing?
    ensures Sound(Advance(r))
  {
    hide Window, Slot;
    var f, c, n := r.place.frame, r.cells[r.produce], Occupancy(r);
    EndsTellCount(r.consume, n);
    Push(r.cells, r.consume, n, c);
    assert r.cells[Slot(r.consume, n) := c] == r.cells;
    assert (r.queued + [f])[|r.sent|..] == r.queued[|r.sent|..] + [f];
  }

  lemma TestSound(r: Ring)
    requires Sound(r) && !Filling(r.place)
    ensures Sound(Advance(r))
  {
    hide Window, Slot, AllHold;
    EndsTellCount(r.consume, Occupancy(r));
  }

  /** A frame is dropped only when the ring is full and the interface is down. */
  lemma DropsOnlyWhenFullAndDown(r: Ring, s: Step)
    requires Sound(r) && Do(r, s).dropped != r.dropped
    ensures Occupancy(r) == 7 && !r.up
  {}

  // ---------------------------------------------------------------- every interleaving

  lemma StepSound(r: Ring, s: Step)
    requires Sound(r)
    ensures Sound(Do(r, s))
  {
    match s
    case Continue =>
      hide Window, Advance, AllHold;
      if r.place.Publishing? { PublishSound(r); } else if Filling(r.place) { FillStep(r); } else { TestSound(r); }
    case Interrupt(busy) => TransmitSound(r, busy);
    case Send(f) =>
    case SetUp(_) =>
  }

  function After(r: Ring, steps: seq<Step>): Ring { Runs.After(Do, r, steps) }

  lemma {:induction false} RunSound(r: Ring, steps: seq<Step>)
    requires Sound(r)
    ensures Sound(After(r, steps))
    decreases |steps|
  {
    hide Do, Sound;
    if steps != [] {
      StepSound(r, steps[0]);
      RunSound(Do(r, steps[0]), steps[1..]);
    }
  }

  /** Whatever the interleaving: the frames written to the radio are the frames queued, once each, complete and
      in order, at most seven behind; every frame handed to radif_send is queued, dropped or still in its hands;
      and the interrupt hangs only if a frame of more than 116 octets was queued. */
  lemma SentOnceInOrder(cells: seq<Cell>, steps: seq<Step>)
    requires |cells| == SLOTS && forall i :: 0 <= i < SLOTS ==> |cells[i].data| == 127 && cells[i].length <= 127
    ensures var r := After(Initial(cells), steps);
            && r.sent <= r.queued && |r.queued| - |r.sent| <= 7
            && r.sends - |r.queued| - |r.dropped| == (if HasFrame(r.place) then 1 else 0)
            && (r.hung ==> exists f :: f in r.queued && |f.payload| > 116)
  {
    RunSound(Initial(cells), steps);
  }

  // ---------------------------------------------------------------- progress

  /** One interrupt with the interface up and the radio idle sends the first frame that waits, if it is short enough. */
  lemma OneGoesOut(r: Ring)
    requires Sound(r) && !r.hung && r.up && Occupancy(r) > 0 && |r.queued[|r.sent|].payload| <= 116
    ensures var q := Do(r, Interrupt(false));
            && Sound(q) && !q.hung && q.up && q.place == r.place && q.queued == r.queued
            && q.sent == r.queued[..|r.sent| + 1]
  {
    hide Window, Slot, Filled, AllHold;
    TransmitSound(r, false);
    HangsIff(r, false);
    EndsTellCount(r.consume, Occupancy(r));
  }

  /** Then as many interrupts as frames wait send everything queued. */
  lemma {:induction false} InterruptsDrain(r: Ring, n: nat)
    requires Sound(r) && !r.hung && r.up && n == Occupancy(r)
    requires forall i :: |r.sent| <= i < |r.queued| ==> |r.queued[i].payload| <= 116
    ensures var q := After(r, seq(n, _ => Interrupt(false)));
            !q.hung && q.sent == q.queued == r.queued && q.consume == q.produce && q.place == r.place && Sound(q)
    decreases n
  {
    hide Sound, Do;
    var steps := seq(n, _ => Interrupt(false));
    if n == 0 {
      assert steps == [];
      NothingWaits(r);
    } else {
      SoundPrefix(r);
      OneGoesOut(r);
      var q := Do(r, Interrupt(false));
      assert steps[0] == Interrupt(false) && steps[1..] == seq(n - 1, _ => Interrupt(false));
      assert After(r, steps) == After(q, steps[1..]);
      InterruptsDrain(q, n - 1);
    }
  }

  lemma SoundPrefix(r: Ring)
    requires Sound(r)
    ensures r.sent <= r.queued
  {}

  lemma NothingWaits(r: Ring)
    requires Sound(r) && Occupancy(r) == 0
    ensures r.sent == r.queued && r.consume == r.produce
  {
    EndsTellCount(r.consume, 0);
  }

  /** A waiting radif_send goes on to fill a cell exactly when fewer than seven frames wait. */
  lemma WaitEndsIff(r: Ring)
    requires Sound(r) && !r.hung && r.place.Waiting?
    ensures Do(r, Continue).place == Copying(r.place.frame, 0) <==> Occupancy(r) < 7
    ensures Do(r, Continue) == r <==> Occupancy(r) == 7
  {
    hide Window, Slot, AllHold;
    EndsTellCount(r.consume, Occupancy(r));
  }

  /** So with the interface up, the radio idle and frames short enough, one interrupt ends the wait. */
  lemma OneInterruptEndsTheWait(r: Ring)
    requires Sound(r) && !r.hung && r.up && r.place.Waiting?
    requires Occupancy(r) > 0 ==> |r.queued[|r.sent|].payload| <= 116
    ensures After(r, [Interrupt(false), Continue]).place == Copying(r.place.frame, 0)
  {
    hide Window, Slot, AllHold, Transmit;
    var q := Do(r, Interrupt(false));
    var steps := [Interrupt(false), Continue];
    assert steps[1..] == [Continue] && [Continue][1..] == [];
    assert After(r, steps) == Do(q, Continue);
    if Occupancy(r) > 0 { OneGoesOut(r); } else { TransmitNothing(r); }
    WaitEndsIff(q);
  }

  lemma TransmitNothing(r: Ring)
    requires Sound(r) && Occupancy(r) == 0
    ensures Transmit(r, false) == r
  {
    EndsTellCount(r.consume, 0);
  }
}
