/** What survives a power cut. The indexes reach the card only when one of them becomes a multiple of eight
    (src/memory/memory.c lines 162-164 and 180-183), so the pair found at the next boot is an old one.

    A cut can come between the record write and the index write, so put_sample and good_upload_done are taken
    apart here into the two card writes they make. */
module CrashRecovery {
  import opened Common
  import opened Checksum
  import opened IndexPage
  import opened CircularLog

  /** Whether an index write is outstanding, and which index asked for it. */
  datatype Due = Nothing | ForWrite | ForRead

  /** The gateway between two card writes, with the history the log stands for: every record stored, and
      how many of them have been acknowledged. */
  datatype Gateway = Gateway(log: Log, due: Due, all: seq<Record>, taken: nat)

  datatype Step = StoreRecord(record: Record) | TakeRecord | WriteIndexes

  predicate Enabled(g: Gateway, m: Step) {
    match m
    case StoreRecord(_) => g.due.Nothing? && NextBlock(g.log.n, g.log.write) != g.log.read
    case TakeRecord => g.due.Nothing? && g.log.read != g.log.write
    case WriteIndexes => !g.due.Nothing?
  }

  function Do(g: Gateway, m: Step): Gateway {
    match m
    case StoreRecord(r) =>
      var next := NextBlock(g.log.n, g.log.write);
      Gateway(g.log.(disk := g.log.disk[next := r], write := next),
              if next % 8 == 0 then ForWrite else Nothing, g.all + [r], g.taken)
    case TakeRecord =>
      var next := NextBlock(g.log.n, g.log.read);
      Gateway(g.log.(read := next), if next % 8 == 0 then ForRead else Nothing, g.all, g.taken + 1)
    case WriteIndexes =>
      g.(log := g.log.(page := EncodePage(g.log.read, g.log.write)), due := Nothing)
  }

  /** The steps are put_sample and good_upload_done taken apart. */
  lemma StepsMakeTheOperations(g: Gateway, r: Record)
    requires g.due.Nothing?
    ensures Enabled(g, StoreRecord(r)) <==> g.log.Put(r).1
    ensures var h := Do(g, StoreRecord(r));
            Enabled(g, StoreRecord(r)) ==>
              g.log.Put(r).0 == (if Enabled(h, WriteIndexes) then Do(h, WriteIndexes) else h).log
    ensures var h := Do(g, TakeRecord);
            g.log.Done() == (if Enabled(h, WriteIndexes) then Do(h, WriteIndexes) else h).log
  {}

  function After(g: Gateway, ms: seq<Step>): Gateway
    decreases |ms|
  {
    if ms == [] then g else Do(After(g, ms[..|ms| - 1]), ms[|ms| - 1])
  }

  predicate EnabledRun(g: Gateway, ms: seq<Step>)
    decreases |ms|
  {
    ms != [] ==> EnabledRun(g, ms[..|ms| - 1]) && Enabled(After(g, ms[..|ms| - 1]), ms[|ms| - 1])
  }

  // ---------------------------------------------------------------- how far the card can lag

  /** Blocks passed since the index was last a multiple of eight. */
  function Since(n: nat, index: nat): nat {
    if index >= 8 then index % 8 else index + n % 8
  }

  function Bound(n: nat, index: nat, due: bool): nat {
    if !due then Since(n, index) else if index == 8 then 8 + n % 8 else 8
  }

  /** The last record to have used the block of record `i` when `total` records were stored: every n-th record
      uses the same block. */
  function Latest(n: nat, i: nat, total: nat): (last: nat)
    requires n >= 1 && i < total
    ensures i <= last < total <= last + n
    ensures last != i ==> i + n <= last
    decreases total - i
  {
    if i + n < total then Latest(n, i + n, total) else i
  }

  ghost predicate Consistent(g: Gateway) {
    && Stores(g.log, g.all, g.taken)
    && (g.due.ForWrite? ==> g.log.write % 8 == 0)
    && (g.due.ForRead? ==> g.log.read % 8 == 0)
  }

  /** The card of `g` holds the indexes of the earlier state `m`, which are behind by no more than the bound on every
      card with room for eight records, and the saved write index is still the block of the record it stood for. */
  ghost predicate LagsBehind(m: Gateway, g: Gateway) {
    && Stores(m.log, m.all, m.taken)
    && m.log.n == g.log.n
    && g.log.page == EncodePage(m.log.read, m.log.write)
    && m.all <= g.all && m.taken <= g.taken
    && (g.log.n >= 8 ==> |g.all| - |m.all| <= Bound(g.log.n, g.log.write, g.due.ForWrite?))
    && (g.log.n >= 8 ==> g.taken - m.taken <= Bound(g.log.n, g.log.read, g.due.ForRead?))
    && m.log.write == Back(g.log.n, g.log.write, |g.all| - 1 - Latest(g.log.n, |m.all| - 1, |g.all|))
  }

  lemma {:induction false} LatestGrows(n: nat, i: nat, total: nat)
    requires n >= 1 && i < total
    ensures Latest(n, i, total + 1) == if total - Latest(n, i, total) == n then total else Latest(n, i, total)
    decreases total - i
  {
    if i + n < total {
      LatestGrows(n, i + n, total);
    }
  }

  lemma LatestOnce(n: nat, i: nat, total: nat)
    requires 1 <= n < total - i <= 2 * n
    ensures Latest(n, i, total) == i + n
  {}

  /** Storing one more record does not change which block a record used. */
  lemma PlaceKept(n: nat, write: u32, i: nat, total: nat)
    requires 1 <= write <= n <= LAST_ADDRESSABLE && i < total
    ensures Back(n, NextBlock(n, write), total - Latest(n, i, total + 1))
            == Back(n, write, total - 1 - Latest(n, i, total))
  {
    hide Latest, NextBlock;
    LatestGrows(n, i, total);
    NextIsAhead(n, write);
    var k := total - 1 - Latest(n, i, total);
    assert Back(n, NextBlock(n, write), k + 1) == Back(n, write, k);
  }

  lemma {:induction false} LatestShift(n: nat, i: nat, d: nat, total: nat)
    requires d < n && i + d < total
    ensures var last := Latest(n, i + d, total) - d;
            Latest(n, i, total) == if total - last <= n then last else last + n
    decreases total - i
  {
    if i + d + n < total {
      LatestShift(n, i + n, d, total);
    }
  }

  lemma StepConsistent(g: Gateway, m: Step)
    requires Consistent(g) && Enabled(g, m)
    ensures Consistent(Do(g, m)) && Do(g, m).log.n == g.log.n
  {
    match m
    case StoreRecord(r) => PutRefines(g.log, g.all, g.taken, r);
    case TakeRecord => DoneRefines(g.log, g.all, g.taken);
    case WriteIndexes =>
  }

  /** The bound keeps up with an index that moves on by one block. */
  lemma BoundGrows(n: nat, index: u32)
    requires 8 <= n <= LAST_ADDRESSABLE && 1 <= index <= n
    ensures var next := NextBlock(n, index); Since(n, index) + 1 <= Bound(n, next, next % 8 == 0)
  {
    NextIsAhead(n, index);
  }

  lemma LagsNothing(g: Gateway)
    requires Consistent(g) && g.log.page == EncodePage(g.log.read, g.log.write)
    ensures LagsBehind(g, g)
  {}

  lemma StoresShape(g: Gateway)
    requires Stores(g.log, g.all, g.taken)
    ensures g.log.Valid() && g.taken < |g.all|
  {}

  lemma StoreLag(m: Gateway, g: Gateway, r: Record)
    requires Consistent(g) && Enabled(g, StoreRecord(r)) && LagsBehind(m, g)
    ensures LagsBehind(m, Do(g, StoreRecord(r)))
  {
    hide EncodePage, NextBlock, Since, Latest, Back, Stores;
    StoresShape(m);
    StoresShape(g);
    if g.log.n >= 8 { BoundGrows(g.log.n, g.log.write); }
    PlaceKept(g.log.n, g.log.write, |m.all| - 1, |g.all|);
  }

  lemma TakeLag(m: Gateway, g: Gateway)
    requires Consistent(g) && Enabled(g, TakeRecord) && LagsBehind(m, g)
    ensures LagsBehind(m, Do(g, TakeRecord))
  {
    hide EncodePage, NextBlock, Since, Latest, Back, Stores;
    StoresShape(m);
    StoresShape(g);
    if g.log.n >= 8 { BoundGrows(g.log.n, g.log.read); }
  }

  lemma StepLag(m: Gateway, g: Gateway, step: Step)
    requires Consistent(g) && Enabled(g, step) && LagsBehind(m, g)
    ensures step.WriteIndexes? ==> LagsBehind(Do(g, step), Do(g, step))
    ensures !step.WriteIndexes? ==> LagsBehind(m, Do(g, step))
  {
    hide EncodePage, Bound, Latest;
    match step
    case StoreRecord(r) => StoreLag(m, g, r);
    case TakeRecord => TakeLag(m, g);
    case WriteIndexes =>
      StepConsistent(g, step);
      LagsNothing(Do(g, step));
  }

  lemma {:induction false} RunConsistent(g: Gateway, ms: seq<Step>)
    requires Consistent(g) && EnabledRun(g, ms)
    ensures Consistent(After(g, ms)) && After(g, ms).log.n == g.log.n
    decreases |ms|
  {
    if ms != [] {
      RunConsistent(g, ms[..|ms| - 1]);
      StepConsistent(After(g, ms[..|ms| - 1]), ms[|ms| - 1]);
    }
  }

  /** At every point of every run, inside operations too, the card holds a (read, write) pair the gateway
      really had together at some earlier moment `t`; on a card with room for eight records neither index has
      moved further than its bound since. */
  lemma {:induction false} CardHoldsAnEarlierPair(g: Gateway, ms: seq<Step>) returns (t: nat)
    requires Consistent(g) && g.due.Nothing? && g.log.page == EncodePage(g.log.read, g.log.write)
    requires EnabledRun(g, ms)
    ensures t <= |ms| && LagsBehind(After(g, ms[..t]), After(g, ms))
    decreases |ms|
  {
    hide Enabled, Do, Bound, EncodePage;
    if ms == [] {
      t := 0;
      LagsNothing(g);
    } else {
      var init := ms[..|ms| - 1];
      t := CardHoldsAnEarlierPair(g, init);
      RunConsistent(g, init);
      StepLag(After(g, init[..t]), After(g, init), ms[|ms| - 1]);
      assert init[..t] == ms[..t];
      if ms[|ms| - 1].WriteIndexes? {
        t := |ms|;
        assert ms[..t] == ms;
      }
    }
  }

  lemma BoundFigures(n: nat, index: nat, due: bool)
    requires n >= 8 && 1 <= index && (due ==> index % 8 == 0)
    ensures !due && index >= 8 ==> Bound(n, index, due) <= 7
    ensures !due ==> Bound(n, index, due) <= 7 + n % 8
    ensures Bound(n, index, due) <= 8 + n % 8 <= n
  {}

  /** The bound in figures. Between operations an index is at most 7 blocks ahead of the card, or 7 + n mod 8
      just after wrapping; a cut inside an operation adds one. */
  lemma BoundInFigures(m: Gateway, g: Gateway)
    requires Consistent(g) && LagsBehind(m, g) && g.log.n >= 8
    ensures g.due.Nothing? && g.log.write >= 8 ==> |g.all| - |m.all| <= 7
    ensures g.due.Nothing? && g.log.read >= 8 ==> g.taken - m.taken <= 7
    ensures g.due.Nothing? ==> |g.all| - |m.all| <= 7 + g.log.n % 8 && g.taken - m.taken <= 7 + g.log.n % 8
    ensures |g.all| - |m.all| <= 8 + g.log.n % 8 <= g.log.n && g.taken - m.taken <= 8 + g.log.n % 8
  {
    hide Bound, Latest, Stores, Back, EncodePage;
    StoresShape(m);
    StoresShape(g);
    BoundFigures(g.log.n, g.log.write, g.due.ForWrite?);
    BoundFigures(g.log.n, g.log.read, g.due.ForRead?);
  }

  lemma NothingDue(g: Gateway, m: Step)
    requires Consistent(g) && g.due.Nothing? && g.log.n < 8 && Enabled(g, m)
    ensures Do(g, m).due.Nothing? && Do(g, m).log.page == g.log.page
  {
    NextIsAhead(g.log.n, g.log.write);
    NextIsAhead(g.log.n, g.log.read);
  }

  /** A smaller card has no bound: in every run from rest the indexes are never saved again. */
  lemma {:induction false} SmallCardNeverSaves(g: Gateway, ms: seq<Step>)
    requires Consistent(g) && g.due.Nothing? && g.log.n < 8 && EnabledRun(g, ms)
    ensures After(g, ms).due.Nothing? && After(g, ms).log.page == g.log.page
    decreases |ms|
  {
    hide Consistent, Enabled, Do;
    if ms != [] {
      var init := ms[..|ms| - 1];
      RunConsistent(g, init);
      SmallCardNeverSaves(g, init);
      NothingDue(After(g, init), ms[|ms| - 1]);
    }
  }

  lemma StoreAhead(h: Gateway, r: Record)
    requires Consistent(h) && h.due.Nothing? && h.log.write < h.log.n && |h.all| - h.taken < h.log.n
    ensures Enabled(h, StoreRecord(r)) && Consistent(Do(h, StoreRecord(r)))
    ensures Do(h, StoreRecord(r)).log.(disk := h.log.disk) == h.log.(write := h.log.write + 1)
    ensures Do(h, StoreRecord(r)).all == h.all + [r] && Do(h, StoreRecord(r)).taken == h.taken
    ensures Do(h, StoreRecord(r)).due == if (h.log.write + 1) % 8 == 0 then ForWrite else Nothing
  {
    PutRefines(h.log, h.all, h.taken, r);
    StepConsistent(h, StoreRecord(r));
    NextIsAhead(h.log.n, h.log.write);
  }

  lemma {:induction false} EightStores(g: Gateway, rs: seq<Record>, ms: seq<Step>)
    requires Consistent(g) && g.due.Nothing? && g.log.write % 8 == 0 && g.log.write + 8 <= g.log.n
    requires |rs| <= 8 && |g.all| - g.taken + 8 <= g.log.n
    requires ms == seq(|rs|, i requires 0 <= i < |rs| => StoreRecord(rs[i]))
    ensures EnabledRun(g, ms)
    ensures var h := After(g, ms);
            && Consistent(h) && h.log.n == g.log.n && h.log.page == g.log.page && h.taken == g.taken
            && h.all == g.all + rs
            && h.log.write == g.log.write + |rs| && h.due == if |rs| == 8 then ForWrite else Nothing
    decreases |rs|
  {
    hide Do, Enabled, Consistent;
    if rs != [] {
      var init, r := rs[..|rs| - 1], rs[|rs| - 1];
      EightStores(g, init, ms[..|rs| - 1]);
      var h := After(g, ms[..|rs| - 1]);
      StoreAhead(h, r);
      assert rs == init + [r];
      assert ms[|rs| - 1] == StoreRecord(r);
    }
  }

  /** Seven is not enough inside an operation: from any state whose write index has just been saved with eight
      blocks to go, eight stores leave the card eight behind. */
  lemma LagReachesEight(g: Gateway, rs: seq<Record>) returns (ms: seq<Step>)
    requires Consistent(g) && g.due.Nothing? && g.log.page == EncodePage(g.log.read, g.log.write)
    requires g.log.write % 8 == 0 && g.log.write + 8 <= g.log.n && |g.all| - g.taken + 8 <= g.log.n && |rs| == 8
    ensures EnabledRun(g, ms) && |After(g, ms).all| - |g.all| == 8
    ensures DecodePage(After(g, ms).log.page) == Some((g.log.read, g.log.write))
  {
    ms := seq(|rs|, i requires 0 <= i < |rs| => StoreRecord(rs[i]));
    EightStores(g, rs, ms);
    DecodeExactlyEncoded(g.log.page, g.log.read, g.log.write);
  }

  // ---------------------------------------------------------------- the log found at the next boot

  /** The log memory_init sets up from the card. */
  function Reboot(log: Log): Log {
    match DecodePage(log.page)
    case Some((read, write)) => log.(read := read, write := write)
    case None => log.(read := 0xFFFF_FFFF, write := 0xFFFF_FFFF)
  }

  /** On a page that is not one of indexes both indexes are left unset. */
  lemma UnreadablePageUnsets(log: Log)
    requires DecodePage(log.page).None?
    ensures Reboot(log) == log.(read := 0xFFFF_FFFF, write := 0xFFFF_FFFF)
  {}

  lemma BackBack(n: nat, w: nat, a: nat, b: nat)
    requires 1 <= w <= n && a <= n && b < n
    ensures a + b < n ==> Back(n, Back(n, w, a), b) == Back(n, w, a + b)
    ensures n <= a + b < 2 * n ==> Back(n, Back(n, w, a), b) == Back(n, w, a + b - n)
  {}

  lemma RebootPair(m: Gateway, g: Gateway)
    requires LagsBehind(m, g)
    ensures Reboot(g.log) == g.log.(read := m.log.read, write := m.log.write)
  {
    DecodeExactlyEncoded(g.log.page, m.log.read, m.log.write);
  }

  /** The block where the recovered indexes look for record `i` holds the last record to have used it. */
  lemma RecoveredRecord(m: Gateway, g: Gateway, i: nat)
    requires Consistent(g) && LagsBehind(m, g) && m.taken <= i < |m.all|
    ensures var b := Back(g.log.n, m.log.write, |m.all| - 1 - i);
            b in g.log.disk && g.log.disk[b] == g.all[Latest(g.log.n, i, |g.all|)]
  {
    hide EncodePage, Bound, Latest, Back;
    var n, d, total := g.log.n, |m.all| - 1 - i, |g.all|;
    LatestShift(n, i, d, total);
    BackBack(n, g.log.write, total - 1 - Latest(n, |m.all| - 1, total), d);
    assert Back(n, g.log.write, total - 1 - Latest(n, i, total)) in g.log.disk;
  }

  /** The recovered log stands for exactly the records waiting at the earlier moment `m` when no more records
      have been stored since than were free then. Otherwise its first block has been reused, and holds a record
      stored later: exactly the one n records later, on a card with room for eight. */
  lemma RecoveredWindow(m: Gateway, g: Gateway)
    requires Consistent(g) && LagsBehind(m, g)
    ensures var free := m.log.n - (|m.all| - m.taken);
            && (|g.all| - |m.all| <= free ==> Stores(Reboot(g.log), m.all[m.taken..], 0))
            && (|g.all| - |m.all| > free ==>
                  var last := Latest(m.log.n, m.taken, |g.all|);
                  && m.taken + m.log.n <= last
                  && (m.log.n >= 8 ==> last == m.taken + m.log.n)
                  && Reboot(g.log).read in g.log.disk
                  && g.log.disk[Reboot(g.log).read] == g.all[last])
  {
    hide Reboot, Bound, EncodePage, Latest;
    RebootPair(m, g);
    RecoveredRecord(m, g, m.taken);
    if g.log.n >= 8 {
      BoundInFigures(m, g);
      if |g.all| - m.taken > g.log.n { LatestOnce(g.log.n, m.taken, |g.all|); }
    }
    var q := m.all[m.taken..];
    if |g.all| - m.taken <= g.log.n {
      forall k | 0 <= k < |q|
        ensures Back(m.log.n, m.log.write, k) in g.log.disk
                && g.log.disk[Back(m.log.n, m.log.write, k)] == q[|q| - 1 - k]
      {
        RecoveredRecord(m, g, |m.all| - 1 - k);
      }
    }
  }

  /** Fifteen free blocks at the saved moment are enough at every crash point, fourteen between operations:
      the next boot finds a queue of original records and works on as one. */
  lemma FreeBlocksSaveTheWindow(m: Gateway, g: Gateway)
    requires Consistent(g) && LagsBehind(m, g)
    requires m.log.n - (|m.all| - m.taken) >= if g.due.Nothing? then 14 else 15
    ensures Represents(Reboot(g.log), m.all[m.taken..])
  {
    BoundInFigures(m, g);
    RecoveredWindow(m, g);
    assert m.all[m.taken..][0..] == m.all[m.taken..];
  }
}
