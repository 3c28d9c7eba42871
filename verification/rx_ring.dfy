/** The receive ring between the radio interrupt (radio_rx_end in src/radio/radio_irq.c) and the main loop
    (radif_service in src/radio/radio.c). The handler is one step, because nothing of its priority or below can
    interrupt it; the main loop is taken apart into its statements, and the handler may run between any two. */
module RxRing {
  import opened Common
  import opened Rings
  import Runs

  type Frame = seq<bv8>

  /** Where the main loop is: about to test for a frame, about to fetch the consume index if there is a callback,
      in the callback for the slot `index`, about to move the consume index, or out of radif_service. */
  datatype Place = Testing | Fetching | InCallback(index: nat) | Advancing(index: nat) | Outside

  /** The ring with its counters, whether a callback is set, and the frames accepted and delivered so far. */
  datatype Ring = Ring(
    callback: bool,
    slots: seq<Frame>,
    produce: nat,
    consume: nat,
    place: Place,
    success: u16,
    overflow: u16,
    events: nat,
    accepted: seq<Frame>,
    delivered: seq<Frame>)

  /** One step: the interrupt receives a frame, radif_service is called, or it executes its next statement. */
  datatype Step = Receive(frame: Frame) | Call | Continue

  function Initial(slots: seq<Frame>, callback: bool): Ring {
    Ring(callback, slots, 0, 0, Outside, 0, 0, 0, [], [])
  }

  predicate Shaped(r: Ring) { |r.slots| == SLOTS && r.produce < SLOTS && r.consume < SLOTS }

  /** radio_rx_end */
  function RxEnd(r: Ring, frame: Frame): Ring
    requires Shaped(r)
  {
    var next := Slot(r.produce, 1);
    if next != r.consume then
      r.(slots := r.slots[r.produce := frame], produce := next, success := (r.success + 1) % TWO_16,
         events := r.events + 1, accepted := r.accepted + [frame])
    else
      r.(overflow := (r.overflow + 1) % TWO_16, events := r.events + 1)
  }

  /** The next statement of radif_service. Without a callback it only goes back to the test. */
  function Service(r: Ring): Ring
    requires Shaped(r)
  {
    match r.place
    case Testing => r.(place := if r.consume != r.produce then Fetching else Outside)
    case Fetching =>
      if r.callback then r.(place := InCallback(r.consume), delivered := r.delivered + [r.slots[r.consume]])
      else r.(place := Testing)
    case InCallback(index) => r.(place := Advancing(index))
    case Advancing(index) => r.(consume := (index + 1) % SLOTS, place := Testing)
    case Outside => r
  }

  function Do(r: Ring, s: Step): Ring {
    if !Shaped(r) then r
    else
    match s
    case Receive(frame) => RxEnd(r, frame)
    case Call => if r.place.Outside? then r.(place := Testing) else r
    case Continue => Service(r)
  }

  // ---------------------------------------------------------------- the invariant

  /** Frames whose slot the main loop has given back. */
  function Released(r: Ring): int {
    |r.delivered| - if r.place.InCallback? || r.place.Advancing? then 1 else 0
  }

  function Occupancy(r: Ring): int { |r.accepted| - Released(r) }

  /** The 16-bit counters, which wrap, against the true numbers of frames accepted and refused. */
  predicate CountersAgree(success: u16, overflow: u16, accepted: nat, events: nat) {
    accepted <= events && success == accepted % TWO_16 && overflow == (events - accepted) % TWO_16
  }

  lemma CountOn(x: nat)
    ensures (x % TWO_16 + 1) % TWO_16 == (x + 1) % TWO_16
  {}

  lemma CountersAdd(a: nat, b: nat)
    ensures (a % TWO_16 + b % TWO_16) % TWO_16 == (a + b) % TWO_16
  {}

  lemma CountersMove(success: u16, overflow: u16, accepted: nat, events: nat)
    requires CountersAgree(success, overflow, accepted, events)
    ensures CountersAgree((success + 1) % TWO_16, overflow, accepted + 1, events + 1)
    ensures CountersAgree(success, (overflow + 1) % TWO_16, accepted, events + 1)
  {
    CountOn(accepted);
    CountOn(events - accepted);
  }

  /** The frames accepted and not yet released are the window from the consume to the produce index. */
  ghost predicate Sound(r: Ring) {
    && Shaped(r)
    && 0 <= Released(r) && 0 <= Occupancy(r) < SLOTS
    && r.delivered <= r.accepted
    && r.produce == Slot(r.consume, Occupancy(r))
    && Window(r.slots, r.consume, Occupancy(r)) == r.accepted[Released(r)..]
    && (r.place.Fetching? ==> Occupancy(r) > 0)
    && (r.place.InCallback? || r.place.Advancing? ==> r.callback && r.place.index == r.consume && Occupancy(r) > 0)
    && CountersAgree(r.success, r.overflow, |r.accepted|, r.events)
  }

  lemma SoundShape(r: Ring)
    requires Sound(r)
    ensures Shaped(r)
  {}

  lemma ReceiveSound(r: Ring, frame: Frame)
    requires Sound(r)
    ensures Sound(RxEnd(r, frame))
    ensures RxEnd(r, frame).accepted == if Occupancy(r) < 7 then r.accepted + [frame] else r.accepted
  {
    hide Window, Slot, CountersAgree;
    CountersMove(r.success, r.overflow, |r.accepted|, r.events);
    EndsTellCount(r.consume, Occupancy(r));
    Push(r.slots, r.consume, Occupancy(r), frame);
    assert (r.accepted + [frame])[Released(r)..] == r.accepted[Released(r)..] + [frame];
  }

  lemma ServiceSound(r: Ring)
    requires Sound(r)
    ensures Sound(Service(r))
  {
    hide Window, Slot, CountersAgree;
    EndsTellCount(r.consume, Occupancy(r));
    if r.place.Fetching? || r.place.Advancing? {
      Pop(r.slots, r.consume, Occupancy(r));
      assert r.accepted[Released(r)..][0] == r.accepted[Released(r)];
      assert r.accepted[Released(r)..][1..] == r.accepted[Released(r) + 1..];
    }
  }

  /** A frame in the callback is not touched: while the main loop is at it, the interrupt leaves its slot as
      delivered, however often it runs. */
  lemma CallbackSlotKept(r: Ring, frame: Frame)
    requires Sound(r) && r.place.InCallback?
    ensures r.slots[r.place.index] == r.delivered[|r.delivered| - 1]
    ensures RxEnd(r, frame).slots[r.place.index] == r.slots[r.place.index]
  {
    hide Window, Slot;
    EndsTellCount(r.consume, Occupancy(r));
    Pop(r.slots, r.consume, Occupancy(r));
    assert r.accepted[Released(r)..][0] == r.accepted[Released(r)];
  }

  // ---------------------------------------------------------------- every interleaving

  function After(r: Ring, steps: seq<Step>): Ring { Runs.After(Do, r, steps) }

  lemma StepSound(r: Ring, s: Step)
    requires Sound(r)
    ensures Sound(Do(r, s)) && Do(r, s).callback == r.callback
  {
    hide Window, Slot, CountersAgree;
    match s
    case Receive(frame) => ReceiveSound(r, frame);
    case Call =>
    case Continue => ServiceSound(r);
  }

  lemma {:induction false} InterleavingSound(r: Ring, steps: seq<Step>)
    requires Sound(r)
    ensures Sound(After(r, steps)) && After(r, steps).callback == r.callback
    decreases |steps|
  {
    hide Do, Sound;
    if steps != [] {
      StepSound(r, steps[0]);
      InterleavingSound(Do(r, steps[0]), steps[1..]);
    }
  }

  /** Whatever the interleaving, at most seven frames wait, the frames delivered are the frames accepted, once
      each and in order, and the two counters together count every receive event. */
  lemma DeliveredOnceInOrder(slots: seq<Frame>, callback: bool, steps: seq<Step>)
    requires |slots| == SLOTS
    ensures var r := After(Initial(slots, callback), steps);
            && r.delivered <= r.accepted
            && |r.accepted| - |r.delivered| <= 7
            && r.success == |r.accepted| % TWO_16
            && (r.success + r.overflow) % TWO_16 == r.events % TWO_16
  {
    hide After;
    InterleavingSound(Initial(slots, callback), steps);
    var r := After(Initial(slots, callback), steps);
    CountersAdd(|r.accepted|, r.events - |r.accepted|);
  }

  // ---------------------------------------------------------------- when radif_service returns

  /** The steps radif_service needs to finish when nothing interferes. */
  function StepsLeft(r: Ring): int {
    match r.place
    case Outside => 0
    case Testing => 4 * Occupancy(r) + 1
    case Fetching => 4 * Occupancy(r)
    case InCallback(_) => 4 * Occupancy(r) - 1
    case Advancing(_) => 4 * Occupancy(r) - 2
  }

  /** Left alone with a callback, or with nothing to deliver, radif_service empties the ring: it takes exactly
      StepsLeft statements and then everything accepted has been delivered. */
  lemma {:induction false} ServiceDrains(r: Ring, n: nat)
    requires Sound(r) && !r.place.Outside? && n == StepsLeft(r) && (r.callback || Occupancy(r) == 0)
    ensures var q := After(r, seq(n, _ => Continue));
            q.place.Outside? && q.delivered == r.accepted && q.consume == q.produce
    decreases n
  {
    hide Window, Slot, CountersAgree;
    var steps := seq(n, _ => Continue);
    ServiceMoves(r);
    assert steps[0] == Continue && steps[1..] == seq(n - 1, _ => Continue);
    var q := Service(r);
    assert After(r, steps) == After(q, steps[1..]);
    if q.place.Outside? {
      assert steps[1..] == [];
    } else {
      ServiceDrains(q, n - 1);
    }
  }

  lemma ServiceMoves(r: Ring)
    requires Sound(r) && !r.place.Outside? && (r.callback || Occupancy(r) == 0)
    ensures var q := Service(r);
            && Sound(q) && StepsLeft(q) == StepsLeft(r) - 1 && q.accepted == r.accepted && q.callback == r.callback
            && (q.callback || Occupancy(q) == 0)
            && (q.place.Outside? ==> q.delivered == q.accepted && q.consume == q.produce)
  {
    hide Window, Slot, CountersAgree;
    ServiceSound(r);
    EndsTellCount(r.consume, Occupancy(r));
  }

  /** Without a callback and with a frame waiting radif_service never returns and delivers nothing, whatever the
      interrupt does. */
  lemma {:induction false} NoCallbackSpins(r: Ring, steps: seq<Step>)
    requires Sound(r) && !r.callback && !r.place.Outside? && Occupancy(r) > 0
    ensures !After(r, steps).place.Outside? && After(r, steps).delivered == r.delivered
    decreases |steps|
  {
    hide Window, Slot, CountersAgree;
    if steps != [] {
      StepSound(r, steps[0]);
      EndsTellCount(r.consume, Occupancy(r));
      NoCallbackSpins(Do(r, steps[0]), steps[1..]);
    }
  }
}
