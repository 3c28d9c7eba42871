/** src/sntp/time.c: a 64-bit count of seconds kept from a 32-bit hardware timer. */
module Clock {
  import opened Common

  const TWO_64 := 0x1_0000_0000_0000_0000

  type u64 = x: int | 0 <= x < 0x1_0000_0000_0000_0000

  /** The two halves of the stored time, little-endian. */
  datatype Halves = Halves(low: u32, high: u32) {
    function Value(): u64 { high * TWO_32 + low }
  }

  /** get_current_time: what a poll at timer value `timer` leaves in the stored time. */
  function Polled(h: Halves, timer: u32): Halves {
    Halves(timer, if timer < h.low then (h.high + 1) % TWO_32 else h.high)
  }

  /** A poll moves the stored time to the next count, possibly the same, that agrees with the timer. */
  lemma PollAdvances(h: Halves, timer: u32)
    ensures Polled(h, timer).Value() == (h.Value() + (timer - h.low) % TWO_32) % TWO_64
    ensures Polled(h, timer).Value() % TWO_32 == timer
  {
    if timer < h.low {
      assert (timer - h.low) % TWO_32 == timer - h.low + TWO_32;
    }
  }

  lemma TimerGap(h: Halves, gap: nat)
    ensures ((h.Value() + gap) % TWO_32 - h.low) % TWO_32 == gap % TWO_32
  {
    assert (h.Value() + gap) % TWO_32 == (h.low + gap) % TWO_32;
  }

  /** When the stored time was exact `gap` seconds ago, a poll is exact if and only if the gap is less than
      2^32 seconds (modulo the 64-bit range). */
  lemma PollExactIff(h: Halves, gap: nat)
    ensures Polled(h, (h.Value() + gap) % TWO_32).Value() == (h.Value() + gap) % TWO_64 <==> gap % TWO_64 < TWO_32
  {
    TimerGap(h, gap);
    PollAdvances(h, (h.Value() + gap) % TWO_32);
    LowPartSuffices(h.Value(), gap);
  }

  lemma SameResidue(t: u64, a: u64, b: u64)
    ensures (t + a) % TWO_64 == (t + b) % TWO_64 <==> a == b
  {}

  lemma {:induction false} WholeTurns64(x: nat, q: nat)
    ensures (x + q * TWO_64) % TWO_64 == x % TWO_64
    decreases q
  {
    if q > 0 {
      WholeTurns64(x + TWO_64, q - 1);
      assert (x + TWO_64) % TWO_64 == x % TWO_64;
    }
  }

  lemma {:induction false} WholeTurns32(x: nat, q: nat)
    ensures (x + q * TWO_64) % TWO_32 == x % TWO_32
    decreases q
  {
    if q > 0 {
      WholeTurns32(x + TWO_64, q - 1);
      assert (x + TWO_64) % TWO_32 == x % TWO_32;
    }
  }

  lemma LowPartSuffices(t: u64, gap: nat)
    ensures (t + gap % TWO_32) % TWO_64 == (t + gap) % TWO_64 <==> gap % TWO_64 < TWO_32
  {
    var q, g := gap / TWO_64, gap % TWO_64;
    WholeTurns64(t + g, q);
    WholeTurns32(g, q);
    SameResidue(t, g % TWO_32, g);
  }

  function Sum(gaps: seq<nat>): nat {
    if gaps == [] then 0 else Sum(gaps[..|gaps| - 1]) + gaps[|gaps| - 1]
  }

  /** The stored time after polls separated by `gaps`, while the timer follows the true count from `start`. */
  function AfterPolls(h: Halves, gaps: seq<nat>): Halves {
    if gaps == [] then h
    else Polled(AfterPolls(h, gaps[..|gaps| - 1]), (h.Value() + Sum(gaps)) % TWO_32)
  }

  /** After any setting, polls less than 2^32 seconds apart all return the true 64-bit count, although each
      sees only its low half. */
  lemma {:induction false} EveryPollExact(h: Halves, gaps: seq<nat>)
    requires forall i :: 0 <= i < |gaps| ==> gaps[i] < TWO_32
    ensures AfterPolls(h, gaps).Value() == (h.Value() + Sum(gaps)) % TWO_64
    decreases |gaps|
  {
    hide Polled;
    if gaps != [] {
      var init, g := gaps[..|gaps| - 1], gaps[|gaps| - 1];
      EveryPollExact(h, init);
      var before := AfterPolls(h, init);
      PollExactIff(before, g);
      SameCount(h.Value(), Sum(init), g);
    }
  }

  lemma SameCount(t: u64, s: nat, g: nat)
    ensures ((t + s) % TWO_64 + g) % TWO_64 == (t + (s + g)) % TWO_64
    ensures ((t + s) % TWO_64 + g) % TWO_32 == (t + (s + g)) % TWO_32
  {
    var q, x := (t + s) / TWO_64, (t + s) % TWO_64 + g;
    WholeTurns64(x, q);
    WholeTurns32(x, q);
    assert t + (s + g) == x + q * TWO_64;
  }

  /** Within the 64-bit range the clock never goes back. */
  lemma NeverBackwards(h: Halves, gaps: seq<nat>, i: nat)
    requires forall i :: 0 <= i < |gaps| ==> gaps[i] < TWO_32
    requires i <= |gaps| && h.Value() + Sum(gaps) < TWO_64
    ensures AfterPolls(h, gaps[..i]).Value() <= AfterPolls(h, gaps).Value()
  {
    hide AfterPolls, Sum, Halves.Value;
    SumGrows(gaps, i);
    EveryPollExact(h, gaps[..i]);
    EveryPollExact(h, gaps);
  }

  lemma {:induction false} SumGrows(gaps: seq<nat>, i: nat)
    requires i <= |gaps|
    ensures Sum(gaps[..i]) <= Sum(gaps)
    decreases |gaps|
  {
    if i < |gaps| {
      SumGrows(gaps[..|gaps| - 1], i);
      assert gaps[..|gaps| - 1][..i] == gaps[..i];
    } else {
      assert gaps[..i] == gaps;
    }
  }

  class Clock {
    var currentTime: Halves
    var timeValid: bool
    var timer: u32

    /** ntp_set_current_time, given what get_last_recorded_time returns (which is zero in the source). The
        high half is the one a poll of the recorded time would find. */
    method NtpSetCurrentTime(secs: u32, lastRecorded: Halves)
      modifies this
      ensures currentTime == Polled(lastRecorded, secs) && timer == secs && timeValid
      ensures lastRecorded == Halves(0, 0) ==> currentTime.Value() == secs
    {
      if secs < lastRecorded.low {
        currentTime := currentTime.(high := (lastRecorded.high + 1) % TWO_32);
      } else {
        currentTime := currentTime.(high := lastRecorded.high);
      }
      currentTime := currentTime.(low := secs);
      timer := secs;
      timeValid := true;
    }

    /** get_current_time */
    method GetCurrentTime() returns (time: u64)
      modifies this`currentTime
      ensures currentTime == Polled(old(currentTime), timer)
      ensures time == currentTime.Value()
    {
      if timer < currentTime.low {
        currentTime := currentTime.(high := (currentTime.high + 1) % TWO_32);
      }
      currentTime := currentTime.(low := timer);
      time := currentTime.Value();
    }
  }
}
