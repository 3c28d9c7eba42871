/** Eight slots used in a circle: the contents of a stretch of them, and how it changes at either end. */
module Rings {

  const SLOTS := 8

  /** The slot `j` places after `base`. */
  function Slot(base: nat, j: nat): (i: nat)
    requires base < SLOTS && j <= SLOTS
    ensures i == (base + j) % SLOTS
    ensures i < SLOTS
  {
    if base + j < SLOTS then base + j else base + j - SLOTS
  }

  /** The `count` slots from `base` on. */
  function Window<T>(slots: seq<T>, base: nat, count: nat): (w: seq<T>)
    requires |slots| == SLOTS && base < SLOTS && count <= SLOTS
    ensures |w| == count
  {
    seq(count, j requires 0 <= j < count => slots[Slot(base, j)])
  }

  /** Writing the slot behind the window, while there is one, extends the window and leaves its slots alone. */
  lemma Push<T>(slots: seq<T>, base: nat, count: nat, x: T)
    requires |slots| == SLOTS && base < SLOTS && count < SLOTS
    ensures Window(slots[Slot(base, count) := x], base, count) == Window(slots, base, count)
    ensures Window(slots[Slot(base, count) := x], base, count + 1) == Window(slots, base, count) + [x]
  {}

  /** Moving the base on by one drops the first element. */
  lemma Pop<T>(slots: seq<T>, base: nat, count: nat)
    requires |slots| == SLOTS && base < SLOTS && 0 < count <= SLOTS
    ensures Window(slots, base, count)[0] == slots[base]
    ensures Window(slots, base, count)[1..] == Window(slots, Slot(base, 1), count - 1)
  {
    var rest, moved := Window(slots, base, count)[1..], Window(slots, Slot(base, 1), count - 1);
    forall j | 0 <= j < |rest|
      ensures rest[j] == moved[j]
    {
      assert Slot(base, j + 1) == Slot(Slot(base, 1), j);
    }
  }

  /** The two ends of a window of fewer than eight slots tell how many there are. */
  lemma EndsTellCount(base: nat, count: nat)
    requires base < SLOTS && count < SLOTS
    ensures Slot(base, count) == base <==> count == 0
    ensures Slot(Slot(base, count), 1) == base <==> count == SLOTS - 1
    ensures count < SLOTS ==> Slot(Slot(base, count), 1) == Slot(base, count + 1)
    ensures count > 0 ==> Slot(base, count) == Slot(Slot(base, 1), count - 1)
  {}
}
