/** The receive side of struct radif in its own form: radio_rx_end and radif_service updating the ring in place. The
    run of radif_service is shown to be one of the interleavings of RxRing. */
module RadifService {
  import opened Common
  import opened Rings
  import opened RxRing
  import Runs

  function Receives(frames: seq<Frame>): seq<Step> {
    seq(|frames|, i requires 0 <= i < |frames| => Receive(frames[i]))
  }

  lemma ReceivesOneMore(frames: seq<Frame>, i: nat)
    requires i < |frames|
    ensures Receives(frames[..i + 1]) == Receives(frames[..i]) + [Receive(frames[i])]
  {}

  /** The receive side of struct radif. `schedule` stands for the surroundings: the frames the interrupt receives after
      each of the next statements of radif_service. */
  class Receiver {
    const rxFrames: array<Frame>
    const callback: bool
    var rxProduceIndex: nat
    var rxConsumeIndex: nat
    var rxSuccessCount: u16
    var rxOverflow: u16
    var delivered: seq<Frame>
    var schedule: seq<seq<Frame>>
    ghost var place: Place
    ghost var events: nat
    ghost var accepted: seq<Frame>

    ghost function Value(): Ring
      reads this, rxFrames
    {
      Ring(callback, rxFrames[..], rxProduceIndex, rxConsumeIndex, place, rxSuccessCount, rxOverflow, events,
           accepted, delivered)
    }

    ghost predicate Valid()
      reads this, rxFrames
    {
      Sound(Value())
    }

    /** radif_init_struct, with the callback set or not */
    constructor (callback: bool, schedule: seq<seq<Frame>>)
      ensures Valid() && fresh(rxFrames) && this.schedule == schedule && Value() == Initial(rxFrames[..], callback)
    {
      rxFrames := new Frame[SLOTS];
      this.callback, this.schedule := callback, schedule;
      rxProduceIndex, rxConsumeIndex, rxSuccessCount, rxOverflow, delivered := 0, 0, 0, 0, [];
      place, events, accepted := Outside, 0, [];
      new;
      assert Window(rxFrames[..], 0, 0) == [];
    }

    /** radio_rx_end */
    method RadioRxEnd(frame: Frame)
      requires Valid()
      modifies this`rxProduceIndex, this`rxSuccessCount, this`rxOverflow, this`events, this`accepted, rxFrames
      ensures Valid() && Value() == RxEnd(old(Value()), frame) && old(accepted) <= accepted
    {
      hide Sound, Slot;
      ghost var before := Value();
      ReceiveSound(before, frame);
      SoundShape(before);
      var index := rxProduceIndex;
      var next := (index + 1) % SLOTS;
      events := events + 1;
      if next != rxConsumeIndex {
        rxFrames[index] := frame;
        rxProduceIndex := next;
        rxSuccessCount := (rxSuccessCount + 1) % TWO_16;
        accepted := accepted + [frame];
      } else {
        rxOverflow := (rxOverflow + 1) % TWO_16;
      }
    }

    /** The interrupt runs once for each frame. */
    method Interrupts(frames: seq<Frame>)
      requires Valid()
      modifies this`rxProduceIndex, this`rxSuccessCount, this`rxOverflow, this`events, this`accepted, rxFrames
      ensures Valid() && Value() == After(old(Value()), Receives(frames))
      ensures frames == [] ==> Value() == old(Value())
      ensures old(accepted) <= accepted
    {
      hide Sound, RxEnd, Service;
      ghost var before := Value();
      var i := 0;
      assert Receives(frames[..0]) == [];
      while i < |frames|
        invariant 0 <= i <= |frames| && Valid()
        invariant Value() == After(before, Receives(frames[..i])) && old(accepted) <= accepted
        invariant i == 0 ==> Value() == before
      {
        SoundShape(Value());
        Runs.AfterOne(Do, before, Receives(frames[..i]), Receive(frames[i]));
        ReceivesOneMore(frames, i);
        RadioRxEnd(frames[i]);
        i := i + 1;
      }
      assert frames[..|frames|] == frames;
    }

    /** The interrupts after the statement `s`. */
    method Settle(ghost first: Ring, ghost steps: seq<Step>, ghost s: Step) returns (ghost steps': seq<Step>)
      requires Valid() && Value() == Do(After(first, steps), s)
      modifies this`rxProduceIndex, this`rxSuccessCount, this`rxOverflow, this`events, this`accepted, this`schedule
      modifies rxFrames
      ensures Valid() && Value() == After(first, steps') && old(accepted) <= accepted
      ensures old(schedule) == [] ==> schedule == [] && Value() == old(Value())
      ensures old(schedule) != [] ==> |schedule| < |old(schedule)|
    {
      hide Sound, Do;
      var frames := if schedule == [] then [] else schedule[0];
      Runs.AfterOne(Do, first, steps, s);
      Runs.AfterConcat(Do, first, steps + [s], Receives(frames));
      steps' := steps + [s] + Receives(frames);
      if schedule != [] { schedule := schedule[1..]; }
      Interrupts(frames);
    }

    /** The callback: it is handed the frame in the slot. */
    method RxCallback(frame: Frame)
      modifies this`delivered
      ensures delivered == old(delivered) + [frame]
    {
      delivered := delivered + [frame];
    }

    /** The test of the loop in radif_service. */
    method Test(ghost first: Ring, ghost steps: seq<Step>) returns (more: bool, ghost steps': seq<Step>)
      requires Valid() && place.Testing? && Value() == After(first, steps)
      modifies this`rxProduceIndex, this`rxSuccessCount, this`rxOverflow, this`events, this`accepted, this`schedule
      modifies this`place, rxFrames
      ensures Valid() && Value() == After(first, steps') && place == if more then Fetching else Outside
      ensures old(accepted) <= accepted && (!more ==> old(accepted) <= delivered)
      ensures old(schedule) == [] ==> schedule == [] && Occupancy(Value()) == old(Occupancy(Value()))
      ensures |schedule| <= |old(schedule)|
    {
      hide Sound, RxEnd, After;
      SoundShape(Value());
      ServiceSound(Value());
      more := rxConsumeIndex != rxProduceIndex;
      if !more { EmptyIsDelivered(Value()); }
      place := if more then Fetching else Outside;
      steps' := Settle(first, steps, Continue);
    }

    /** The callback is called with the frame at the consume index. */
    method Deliver(ghost first: Ring, ghost steps: seq<Step>) returns (index: nat, ghost steps': seq<Step>)
      requires Valid() && place.Fetching? && callback && Value() == After(first, steps)
      modifies this, rxFrames
      ensures Valid() && Value() == After(first, steps') && place == InCallback(index)
      ensures old(accepted) <= accepted && rxConsumeIndex == old(rxConsumeIndex) == index < rxFrames.Length
      ensures delivered == old(delivered) + [old(rxFrames[rxConsumeIndex])]
      ensures old(schedule) == [] ==> schedule == [] && Occupancy(Value()) == old(Occupancy(Value()))
      ensures old(schedule) != [] ==> |schedule| < |old(schedule)|
    {
      hide Sound, RxEnd, After;
      SoundShape(Value());
      ServiceSound(Value());
      index := rxConsumeIndex;
      RxCallback(rxFrames[index]);
      place := InCallback(index);
      steps' := Settle(first, steps, Continue);
    }

    /** The callback returns, and the consume index moves on. */
    method Release(index: nat, ghost first: Ring, ghost steps: seq<Step>) returns (ghost steps': seq<Step>)
      requires Valid() && place == InCallback(index) && Value() == After(first, steps)
      modifies this, rxFrames
      ensures Valid() && Value() == After(first, steps') && place.Testing?
      ensures old(accepted) <= accepted && |schedule| <= |old(schedule)|
      ensures old(schedule) == [] ==> schedule == [] && Occupancy(Value()) == old(Occupancy(Value())) - 1
    {
      hide Sound, RxEnd, After;
      SoundShape(Value());
      ServiceSound(Value());
      place := Advancing(index);
      steps' := Settle(first, steps, Continue);
      SoundShape(Value());
      ServiceSound(Value());
      rxConsumeIndex := (index + 1) % SLOTS;
      place := Testing;
      steps' := Settle(first, steps', Continue);
    }

    /** radif_service. The run is an interleaving of its statements with the interrupts of the schedule. With a callback
        it ends as soon as frames stop coming, and everything accepted before the call has then been delivered. Without
        one it returns only if it finds the ring empty; otherwise it spins for ever, which NoCallbackSpins describes. */
    method RadifService() returns (returned: bool, ghost steps: seq<Step>)
      requires Valid() && place.Outside?
      modifies this, rxFrames
      ensures Valid() && Value() == After(old(Value()), steps)
      ensures returned ==> place.Outside? && old(accepted) <= delivered <= accepted
      ensures !returned ==> !callback && !place.Outside? && Occupancy(Value()) > 0 && delivered == old(delivered)
    {
      hide Sound, Runs.After, RxEnd, Service;
      ghost var first := Value();
      SoundShape(first);
      StepSound(first, Call);
      Runs.AfterNothing(Do, first);
      place := Testing;
      steps := Settle(first, [], Call);
      var more;
      more, steps := Test(first, steps);
      while more
        invariant Valid() && Value() == After(first, steps)
        invariant place == if more then Fetching else Outside
        invariant old(accepted) <= accepted && (!more ==> old(accepted) <= delivered)
        invariant !callback ==> delivered == old(delivered)
        decreases |schedule|, Occupancy(Value())
      {
        BusyOccupancy(Value());
        if !callback { return false, steps; }
        var index;
        index, steps := Deliver(first, steps);
        steps := Release(index, first, steps);
        more, steps := Test(first, steps);
      }
      DeliveredPrefix(Value());
      returned := true;
    }
  }

  lemma BusyOccupancy(r: Ring)
    requires Sound(r) && !r.place.Outside? && !r.place.Testing?
    ensures Occupancy(r) > 0
    ensures r.place.InCallback? || r.place.Advancing? ==> r.place.index == r.consume
  {}

  lemma EmptyIsDelivered(r: Ring)
    requires Sound(r) && r.place.Testing? && r.consume == r.produce
    ensures r.delivered == r.accepted
  {
    EndsTellCount(r.consume, Occupancy(r));
  }

  lemma DeliveredPrefix(r: Ring)
    requires Sound(r)
    ensures r.delivered <= r.accepted
  {}
}
