/** Searching the lifetime of a NAT binding: doubling until a probe fails, then halving the interval. */
module NatLifetime {
  import opened Base
  import opened NumberText

  datatype Interval = Interval(min: u32, cur: u32, max: u32)

  /** The longest interval, in seconds, whose milliseconds fit in 32 bits: not quite fifty days. */
  const LONGEST: nat := 4_294_967

  /** The timer of a probe, in milliseconds: a product in 32-bit arithmetic. */
  function Wait(cur: u32): u32 { Wrap32(1000 * cur) }

  /** A probe succeeds when the binding, idle for the wait, is still there. */
  predicate Holds(cur: u32, lifetime: nat) { Wait(cur) <= 1000 * lifetime }

  /** The wait is cut so short by the overflow that the probe of too long an interval succeeds. */
  predicate Cut(cur: u32, lifetime: nat) { cur > lifetime && Holds(cur, lifetime) }

  function Half(x: int): u32
    requires 0 <= x
  {
    Wrap32(x) / 2
  }

  /** binding_ok, in 32-bit arithmetic. */
  function AfterOk(s: Interval): Interval {
    var lo: int := Max(1, s.cur);
    if s.max > 0 then Interval(lo, Half(lo + s.max), s.max) else Interval(lo, Wrap32(2 * s.cur), s.max)
  }

  /** binding_expired. */
  function AfterExpired(s: Interval): Interval { Interval(s.min, Half(s.min + s.cur), s.cur) }

  /** A probe against a binding that lives for `lifetime` seconds. */
  function Probed(s: Interval, lifetime: nat): Interval {
    if Holds(s.cur, lifetime) then AfterOk(s) else AfterExpired(s)
  }

  function ProbedTimes(s: Interval, lifetime: nat, n: nat): Interval {
    if n == 0 then s else Probed(ProbedTimes(s, lifetime, n - 1), lifetime)
  }

  function Initial(interval: u32): Interval { Interval(1, interval, 0) }

  // ---------------------------------------------------------------- waits

  /** Up to LONGEST a probe decides rightly; beyond, it can only err by succeeding. */
  lemma RightUpToLongest(cur: u32, lifetime: nat)
    ensures cur <= lifetime ==> Holds(cur, lifetime)
    ensures cur <= LONGEST ==> (Holds(cur, lifetime) <==> cur <= lifetime)
  {
    ProductWraps(1000 * cur);
  }

  lemma ProductWraps(x: nat)
    ensures Wrap32(x) <= x && (x < TWO32 ==> Wrap32(x) == x)
  {
  }

  /** From LONGEST + 1 seconds on, no probe fails: the timer cannot wait so long. */
  lemma NoneFails(cur: u32, lifetime: nat)
    requires lifetime > LONGEST
    ensures Holds(cur, lifetime)
  {
  }

  /** The search from a state on. */
  function After(s: Interval, lifetime: nat, n: nat): Interval
    decreases n
  {
    if n == 0 then s else After(Probed(s, lifetime), lifetime, n - 1)
  }

  lemma {:induction false} AfterIsProbedTimes(s: Interval, lifetime: nat, n: nat)
    ensures After(s, lifetime, n) == ProbedTimes(s, lifetime, n)
    decreases n
  {
    hide Probed;
    if n > 0 {
      AfterIsProbedTimes(Probed(s, lifetime), lifetime, n - 1);
      ShiftOne(s, lifetime, n - 1);
    }
  }

  lemma {:induction false} ShiftOne(s: Interval, lifetime: nat, n: nat)
    ensures ProbedTimes(Probed(s, lifetime), lifetime, n) == Probed(ProbedTimes(s, lifetime, n), lifetime)
  {
    hide Probed;
    if n > 0 { ShiftOne(s, lifetime, n - 1); }
  }

  // ---------------------------------------------------------------- the bracket

  /** The lifetime lies from min up to max, once max is set. */
  predicate Between(s: Interval, lifetime: nat) { 1 <= s.min <= lifetime && (s.max > 0 ==> lifetime < s.max) }

  lemma ProbeKeepsBetweenIff(s: Interval, lifetime: nat)
    requires lifetime >= 1 && Between(s, lifetime)
    ensures Between(Probed(s, lifetime), lifetime) <==> !Cut(s.cur, lifetime)
  {
    hide Half;
    RightUpToLongest(s.cur, lifetime);
  }

  ghost predicate BetweenUpTo(s: Interval, lifetime: nat, n: nat) {
    forall i: nat :: i <= n ==> Between(ProbedTimes(s, lifetime, i), lifetime)
  }

  ghost predicate UncutUpTo(s: Interval, lifetime: nat, n: nat) {
    forall i: nat :: i < n ==> !Cut(ProbedTimes(s, lifetime, i).cur, lifetime)
  }

  /** A run keeps the lifetime between min and max exactly when no wait in it is cut short; other overflows do no harm. */
  lemma {:induction false} RunKeepsBetweenIff(initial: u32, lifetime: nat, n: nat)
    requires lifetime >= 1
    ensures BetweenUpTo(Initial(initial), lifetime, n) <==> UncutUpTo(Initial(initial), lifetime, n)
  {
    hide Probed, Cut, Between;
    var s := Initial(initial);
    if n == 0 {
      StartsBetween(initial, lifetime);
    } else {
      RunKeepsBetweenIff(initial, lifetime, n - 1);
      if BetweenUpTo(s, lifetime, n - 1) {
        ProbeKeepsBetweenIff(ProbedTimes(s, lifetime, n - 1), lifetime);
      }
      assert BetweenUpTo(s, lifetime, n) <==>
             BetweenUpTo(s, lifetime, n - 1) && Between(ProbedTimes(s, lifetime, n), lifetime);
      assert UncutUpTo(s, lifetime, n) <==>
             UncutUpTo(s, lifetime, n - 1) && !Cut(ProbedTimes(s, lifetime, n - 1).cur, lifetime);
    }
  }

  lemma StartsBetween(initial: u32, lifetime: nat)
    requires lifetime >= 1
    ensures Between(Initial(initial), lifetime)
  {
  }

  // ---------------------------------------------------------------- settling

  /** The search is at the lifetime, with nothing left between min and max. */
  predicate Settled(s: Interval, lifetime: nat) { s.min == lifetime && s.cur == lifetime && s.max == lifetime + 1 }

  ghost predicate SettledFrom(s: Interval, lifetime: nat, n: nat) {
    forall m: nat :: m >= n ==> Settled(After(s, lifetime, m), lifetime)
  }

  /** The search reaches the lifetime and stays there. */
  ghost predicate Settles(s: Interval, lifetime: nat) { exists n: nat :: SettledFrom(s, lifetime, n) }

  /** Below 2^31 a settled search is settled for good. */
  lemma {:induction false} StaysSettled(s: Interval, lifetime: nat, n: nat)
    requires 1 <= lifetime < 0x8000_0000 && Settled(s, lifetime)
    ensures Settled(After(s, lifetime, n), lifetime)
    decreases n
  {
    hide Half, Wrap32, Wait;
    AsIs(2 * lifetime + 1);
    RightUpToLongest(lifetime, lifetime);
    if n > 0 { StaysSettled(Probed(s, lifetime), lifetime, n - 1); }
  }

  lemma AsIs(x: int)
    requires 0 <= x
    ensures x < TWO32 ==> Wrap32(x) == x && Half(x) == x / 2
    ensures Half(x) < 0x8000_0000
  {
  }

  /** The wait of this probe is not cut short, and no 32-bit sum overflows. */
  predicate Fits(s: Interval, lifetime: nat) {
    && !Cut(s.cur, lifetime)
    && if s.cur > lifetime then s.min + s.cur as int < TWO32
       else if s.max > 0 then Max(1, s.cur) + s.max < TWO32
       else 2 * s.cur < TWO32
  }

  /** That goes for every probe of a run. */
  ghost predicate RunFits(s: Interval, lifetime: nat) {
    forall i: nat :: Fits(After(s, lifetime, i), lifetime)
  }

  lemma RunFitsOn(s: Interval, lifetime: nat)
    requires RunFits(s, lifetime)
    ensures Fits(s, lifetime) && RunFits(Probed(s, lifetime), lifetime)
  {
    assert Fits(After(s, lifetime, 0), lifetime);
    var t := Probed(s, lifetime);
    forall i: nat ensures Fits(After(t, lifetime, i), lifetime) {
      assert Fits(After(s, lifetime, i + 1), lifetime);
      assert After(s, lifetime, i + 1) == After(t, lifetime, i);
    }
  }

  /** The bracket of a search that is halving: cur lies in its middle. */
  predicate Halved(s: Interval, lifetime: nat) {
    1 <= s.min <= lifetime < s.max && s.cur == (s.min + s.max as int) / 2
  }

  lemma ProbeHalves(s: Interval, lifetime: nat)
    requires Halved(s, lifetime) && Fits(s, lifetime)
    ensures var t := Probed(s, lifetime);
            Halved(t, lifetime) && 2 * (t.max - t.min as int) <= (s.max - s.min as int) + 1 && t.max <= s.max
  {
    hide Half, Wrap32, Wait;
    RightUpToLongest(s.cur, lifetime);
    if s.cur <= lifetime {
      AsIs(s.cur + s.max as int);
    } else {
      AsIs(s.min + s.cur as int);
    }
  }

  /** A bracket of width up to 2^k takes k probes. */
  lemma {:induction false} Halving(s: Interval, lifetime: nat, k: nat, n: nat)
    requires Halved(s, lifetime) && RunFits(s, lifetime) && s.max - s.min as int <= Pow2(k) && n >= k
    ensures lifetime < 0x8000_0000 && Settled(After(s, lifetime, n), lifetime)
    decreases k
  {
    hide Probed, RunFits, Fits, Wait;
    RunFitsOn(s, lifetime);
    if k == 0 {
      NarrowFits(s, lifetime);
      StaysSettled(s, lifetime, n);
    } else {
      ProbeHalves(s, lifetime);
      Halving(Probed(s, lifetime), lifetime, k - 1, n - 1);
    }
  }

  lemma NarrowFits(s: Interval, lifetime: nat)
    requires Halved(s, lifetime) && s.max == lifetime + 1 && s.min == lifetime && Fits(s, lifetime)
    ensures lifetime < 0x8000_0000
  {
  }

  /** While max is not set, the interval doubles; `j` doublings lead past the lifetime. */
  lemma {:induction false} Doubling(s: Interval, lifetime: nat, j: nat, k: nat, n: nat)
    requires 1 <= s.min <= lifetime && s.cur >= 1 && s.max == 0 && RunFits(s, lifetime)
    requires s.cur * Pow2(j) > lifetime && Max(s.cur, 2 * lifetime) <= Pow2(k) && n >= j + 1 + k
    ensures lifetime < 0x8000_0000 && Settled(After(s, lifetime, n), lifetime)
    decreases j
  {
    hide Probed, RunFits, Pow2;
    RunFitsOn(s, lifetime);
    var t := Probed(s, lifetime);
    if s.cur <= lifetime {
      OneDoubling(s, lifetime, j);
      Doubling(t, lifetime, j - 1, k, n - 1);
    } else {
      FirstFailure(s, lifetime);
      Halving(t, lifetime, k, n - 1);
    }
  }

  lemma OneDoubling(s: Interval, lifetime: nat, j: nat)
    requires 1 <= s.cur <= lifetime && s.max == 0 && Fits(s, lifetime) && s.cur * Pow2(j) > lifetime
    ensures j > 0 && Probed(s, lifetime) == Interval(s.cur, 2 * s.cur, 0) && 2 * s.cur * Pow2(j - 1) > lifetime
  {
    hide Half, Wrap32, Wait;
    RightUpToLongest(s.cur, lifetime);
    AsIs(2 * s.cur);
    if j > 0 {
      Regrouped(s.cur, Pow2(j - 1));
    }
  }

  lemma Regrouped(a: int, b: int)
    ensures a * (2 * b) == (2 * a) * b
  {
  }

  /** The first probe that fails sets the bracket. */
  lemma FirstFailure(s: Interval, lifetime: nat)
    requires 1 <= s.min <= lifetime < s.cur && s.min + s.cur as int < TWO32 && !Holds(s.cur, lifetime)
    ensures var t := Probed(s, lifetime); Halved(t, lifetime) && t.max == s.cur && t.min == s.min
  {
    hide Half, Wrap32;
    AsIs(s.min + s.cur as int);
  }

  lemma Grows(a: nat, b: nat)
    requires a >= 1
    ensures a * b >= b
  {
    assert a * b == b + (a - 1) * b;
  }

  /**
   * Section 4.6 of RFC 5780: a run in which no wait is cut short and no sum overflows reaches the lifetime and
   * stays there. When the first interval and twice the lifetime are at most 2^k, that takes no more than 2k + 1
   * probes.
   */
  lemma SearchConverges(initial: u32, lifetime: nat, k: nat, n: nat)
    requires initial >= 1 && lifetime >= 1 && RunFits(Initial(initial), lifetime)
    requires Max(initial, 2 * lifetime) <= Pow2(k) && n >= 2 * k + 1
    ensures lifetime < 0x8000_0000 && Settled(ProbedTimes(Initial(initial), lifetime, n), lifetime)
  {
    hide RunFits;
    assert initial * Pow2(k) >= Pow2(k) by { Grows(initial, Pow2(k)); }
    Doubling(Initial(initial), lifetime, k, k, n);
    AfterIsProbedTimes(Initial(initial), lifetime, n);
  }

  // ---------------------------------------------------------------- when a run fits

  /** The first interval the doubling tries that is longer than the lifetime. */
  function FirstPast(initial: nat, lifetime: nat): (m: nat)
    requires initial >= 1
    ensures m > lifetime && m >= initial
    ensures m == initial || (m % 2 == 0 && m / 2 <= lifetime)
    decreases lifetime - initial
  {
    if initial > lifetime then initial else FirstPast(2 * initial, lifetime)
  }

  lemma {:induction false} FirstPastDoubles(initial: nat, lifetime: nat)
    requires 1 <= initial
    ensures initial <= lifetime ==> FirstPast(initial, lifetime) <= 2 * lifetime
    decreases lifetime - initial
  {
    if 2 * initial <= lifetime { FirstPastDoubles(2 * initial, lifetime); }
  }

  /** The interval that held before it. */
  function LastHeld(initial: nat, lifetime: nat): (h: nat)
    requires initial >= 1 && lifetime >= 1
    ensures 1 <= h <= lifetime
  {
    if initial > lifetime then 1 else FirstPast(initial, lifetime) / 2
  }

  /** A state before the first failure, or behind it, whose run stays below LONGEST. */
  predicate Bounded(s: Interval, lifetime: nat) {
    || (Halved(s, lifetime) && s.max <= LONGEST)
    || (s.max == 0 && 1 <= s.min <= lifetime && s.cur >= 1 && FirstPast(s.cur, lifetime) <= LONGEST)
  }

  lemma BoundedOn(s: Interval, lifetime: nat)
    requires Bounded(s, lifetime)
    ensures Fits(s, lifetime) && Bounded(Probed(s, lifetime), lifetime)
  {
    hide Half, Wrap32, Wait;
    RightUpToLongest(s.cur, lifetime);
    if s.max > 0 {
      ProbeHalves(s, lifetime);
    } else if s.cur <= lifetime {
      FirstPastDoubles(s.cur, lifetime);
      AsIs(2 * s.cur);
    } else {
      FirstFailure(s, lifetime);
    }
  }

  lemma {:induction false} BoundedFits(s: Interval, lifetime: nat, i: nat)
    requires Bounded(s, lifetime)
    ensures Fits(After(s, lifetime, i), lifetime)
    decreases i
  {
    hide Probed, Bounded, Fits;
    BoundedOn(s, lifetime);
    if i > 0 { BoundedFits(Probed(s, lifetime), lifetime, i - 1); }
  }

  /** What a caller can check: the first interval past the lifetime is at most LONGEST. */
  lemma BoundedRunFits(initial: u32, lifetime: nat)
    requires initial >= 1 && lifetime >= 1 && FirstPast(initial, lifetime) <= LONGEST
    ensures RunFits(Initial(initial), lifetime)
  {
    hide Fits;
    forall i: nat ensures Fits(After(Initial(initial), lifetime, i), lifetime) {
      BoundedFits(Initial(initial), lifetime, i);
    }
  }

  /** When the search goes on from a state, so does what it comes to. */
  lemma {:induction false} AfterAfter(s: Interval, lifetime: nat, n: nat, m: nat)
    ensures After(s, lifetime, n + m) == After(After(s, lifetime, n), lifetime, m)
    decreases n
  {
    hide Probed;
    if n > 0 { AfterAfter(Probed(s, lifetime), lifetime, n - 1, m); }
  }

  lemma {:induction false} Pow2Exceeds(n: nat)
    ensures Pow2(n) > n
  {
    if n > 0 { Pow2Exceeds(n - 1); }
  }

  /** From a halved bracket below the bound the search settles. */
  lemma BoundedSettles(s: Interval, lifetime: nat)
    requires Halved(s, lifetime) && s.max <= LONGEST
    ensures Settles(s, lifetime)
  {
    hide Fits, Halved;
    forall i: nat ensures Fits(After(s, lifetime, i), lifetime) {
      BoundedFits(s, lifetime, i);
    }
    HalvedShape(s, lifetime);
    var k: nat := s.max;
    Pow2Exceeds(k);
    forall m: nat | m >= k ensures Settled(After(s, lifetime, m), lifetime) {
      Halving(s, lifetime, k, m);
    }
    assert SettledFrom(s, lifetime, k);
  }

  lemma HalvedShape(s: Interval, lifetime: nat)
    requires Halved(s, lifetime)
    ensures 1 <= s.min <= lifetime < s.max
  {
  }

  lemma SettlesEarlier(s: Interval, lifetime: nat, n: nat)
    requires Settles(After(s, lifetime, n), lifetime)
    ensures Settles(s, lifetime)
  {
    var t := After(s, lifetime, n);
    var k: nat :| SettledFrom(t, lifetime, k);
    forall m: nat | m >= n + k ensures Settled(After(s, lifetime, m), lifetime) {
      AfterAfter(s, lifetime, n, m - n);
    }
    assert SettledFrom(s, lifetime, n + k);
  }

  // ---------------------------------------------------------------- exactly when the search works

  /** The lifetime is bracketed at every step, and reached. */
  ghost predicate Works(s: Interval, lifetime: nat) {
    && (forall n: nat :: Between(After(s, lifetime, n), lifetime))
    && Settles(s, lifetime)
  }

  /** Whether the search works is settled after one more probe. */
  lemma WorksOne(s: Interval, lifetime: nat)
    requires lifetime >= 1 && Between(s, lifetime)
    ensures Works(s, lifetime) <==> Works(Probed(s, lifetime), lifetime)
    ensures Cut(s.cur, lifetime) ==> !Works(s, lifetime)
  {
    hide Probed, Cut, Between;
    var t := Probed(s, lifetime);
    assert forall n: nat :: After(s, lifetime, n + 1) == After(t, lifetime, n);
    ProbeKeepsBetweenIff(s, lifetime);
    if Works(s, lifetime) {
      assert Between(After(s, lifetime, 1), lifetime);
      assert After(t, lifetime, 0) == t;
      SettlesLater(s, lifetime);
      forall n: nat ensures Between(After(t, lifetime, n), lifetime) {
        assert Between(After(s, lifetime, n + 1), lifetime);
      }
    }
    if Works(t, lifetime) {
      assert After(s, lifetime, 1) == After(t, lifetime, 0) == t;
      SettlesEarlier(s, lifetime, 1);
      forall n: nat ensures Between(After(s, lifetime, n), lifetime) {
        if n > 0 { assert Between(After(t, lifetime, n - 1), lifetime); }
      }
    }
  }

  lemma SettlesLater(s: Interval, lifetime: nat)
    requires Settles(s, lifetime)
    ensures Settles(Probed(s, lifetime), lifetime)
  {
    hide Probed, Settled;
    var t := Probed(s, lifetime);
    var n: nat :| SettledFrom(s, lifetime, n);
    forall m: nat | m >= n ensures Settled(After(t, lifetime, m), lifetime) {
      assert After(s, lifetime, m + 1) == After(t, lifetime, m);
    }
    assert SettledFrom(t, lifetime, n);
  }

  /**
   * Halving from `lo`, which held, and `hi`, which did not, no wait longer than the lifetime is cut short. A caller
   * finds out in at most 32 steps, without waiting.
   */
  predicate Safe(lo: nat, hi: nat, lifetime: nat)
    requires lo <= lifetime < hi < TWO32
    decreases hi - lo
  {
    hi <= LONGEST ||
    var mid := (lo + hi) / 2;
    && lo < mid && lo + hi < TWO32
    && if mid <= lifetime then Safe(mid, hi, lifetime) else !Holds(mid, lifetime) && Safe(lo, mid, lifetime)
  }

  /** The state after the first probe that failed. */
  function Turned(held: u32, past: u32): Interval { Interval(held, Half(held + past as int), past) }

  /** While max is not set, the search works exactly when it works from the first failure on. */
  lemma {:induction false} DoublingWorks(s: Interval, lifetime: nat)
    requires 1 <= lifetime <= LONGEST && 1 <= s.min <= lifetime && s.cur >= 1 && s.max == 0
    ensures var past := FirstPast(s.cur, lifetime);
            var held := if s.cur > lifetime then s.min else past / 2;
            && past < TWO32 && held <= past
            && (Works(s, lifetime) <==> !Holds(past, lifetime) && Works(Turned(held, past), lifetime))
    decreases if s.cur > lifetime then 0 else lifetime - s.cur + 1
  {
    hide Half, Wrap32, Wait, Works;
    FirstPastDoubles(s.cur, lifetime);
    RightUpToLongest(s.cur, lifetime);
    WorksOne(s, lifetime);
    if s.cur <= lifetime {
      AsIs(2 * s.cur);
      DoublingWorks(Probed(s, lifetime), lifetime);
    }
  }

  lemma {:induction false} BoundedBetween(s: Interval, lifetime: nat, n: nat)
    requires Bounded(s, lifetime)
    ensures Between(After(s, lifetime, n), lifetime)
    decreases n
  {
    hide Probed;
    BoundedOn(s, lifetime);
    if n > 0 { BoundedBetween(Probed(s, lifetime), lifetime, n - 1); }
  }

  lemma BoundedWorks(s: Interval, lifetime: nat)
    requires Halved(s, lifetime) && s.max <= LONGEST
    ensures Works(s, lifetime)
  {
    hide Between, Settles;
    BoundedSettles(s, lifetime);
    forall n: nat ensures Between(After(s, lifetime, n), lifetime) {
      BoundedBetween(s, lifetime, n);
    }
  }

  /** Where max is the interval of a probe that failed, it stays that. */
  predicate MaxFailed(s: Interval, lifetime: nat) { s.max > 0 ==> !Holds(s.max, lifetime) }

  lemma {:induction false} StaysMaxFailed(s: Interval, lifetime: nat, n: nat)
    requires MaxFailed(s, lifetime)
    ensures MaxFailed(After(s, lifetime, n), lifetime)
    decreases n
  {
    hide Half, Holds;
    if n > 0 { StaysMaxFailed(Probed(s, lifetime), lifetime, n - 1); }
  }

  /** LONGEST + 1 seconds are waited for 704 ms only, so nothing from LONGEST seconds on is ever settled on. */
  lemma TooLongNeverSettles(s: Interval, lifetime: nat)
    requires lifetime >= LONGEST && MaxFailed(s, lifetime)
    ensures !Settles(s, lifetime)
  {
    if Settles(s, lifetime) {
      var k: nat :| SettledFrom(s, lifetime, k);
      assert Settled(After(s, lifetime, k), lifetime);
      StaysMaxFailed(s, lifetime, k);
      SettledBelowLongest(After(s, lifetime, k), lifetime);
      assert false;
    }
  }

  lemma SettledBelowLongest(s: Interval, lifetime: nat)
    requires Settled(s, lifetime) && MaxFailed(s, lifetime)
    ensures lifetime < LONGEST
  {
    if lifetime > LONGEST {
      NoneFails(s.max, lifetime);
    }
    assert Wait(LONGEST + 1) == 704;
  }

  /** The bracket set by a failure: the search works from there exactly when halving it is safe. */
  lemma {:induction false} HalvingWorks(lo: u32, hi: u32, lifetime: nat)
    requires 1 <= lo <= lifetime <= LONGEST && lifetime < hi && (lo == 1 || hi < 0x8000_0000) && !Holds(hi, lifetime)
    ensures Works(Turned(lo, hi), lifetime) <==> Safe(lo, hi, lifetime)
    decreases hi - lo as int
  {
    hide Half, Wrap32, Wait, Works;
    var s := Turned(lo, hi);
    var sum: int := lo + hi as int;
    AsIs(sum);
    if hi <= LONGEST {
      BoundedWorks(s, lifetime);
    } else if sum >= TWO32 {
      SumOverflowsFor(lifetime);
    } else {
      var mid: u32 := sum / 2;
      RightUpToLongest(mid, lifetime);
      WorksOne(s, lifetime);
      if mid == lo {
        TooLongNeverSettles(s, lifetime);
        WorksMeans(s, lifetime);
      } else if mid <= lifetime {
        assert Probed(s, lifetime) == Turned(mid, hi);
        HalvingWorks(mid, hi, lifetime);
      } else if !Holds(mid, lifetime) {
        assert Probed(s, lifetime) == Turned(lo, mid);
        HalvingWorks(lo, mid, lifetime);
      }
    }
  }

  lemma WorksMeans(s: Interval, lifetime: nat)
    ensures Works(s, lifetime) ==> Settles(s, lifetime) && Between(s, lifetime)
  {
    if Works(s, lifetime) { assert Between(After(s, lifetime, 0), lifetime); }
  }

  /**
   * For every first interval and every lifetime: the lifetime stays between min and max and is reached exactly when
   * the first interval past it fails as it should, and halving from there is safe.
   */
  lemma WorksIff(initial: u32, lifetime: nat)
    requires initial >= 1 && lifetime >= 1
    ensures Works(Initial(initial), lifetime) <==>
            var past, held := FirstPast(initial, lifetime), LastHeld(initial, lifetime);
            past < TWO32 && !Holds(past, lifetime) && Safe(held, past, lifetime)
  {
    hide Works, Half, Wait, Safe;
    var past, held := FirstPast(initial, lifetime), LastHeld(initial, lifetime);
    if lifetime > LONGEST {
      TooLongNeverSettles(Initial(initial), lifetime);
      WorksMeans(Initial(initial), lifetime);
      if past < TWO32 { NoneFails(past, lifetime); }
    } else {
      DoublingWorks(Initial(initial), lifetime);
      FirstPastDoubles(initial, lifetime);
      if !Holds(past, lifetime) {
        HalvingWorks(held, past, lifetime);
      }
    }
  }

  /** So it works when the first interval past the lifetime is at most LONGEST, and for such first intervals only then. */
  lemma ShortFirstInterval(initial: u32, lifetime: nat)
    requires 1 <= initial <= LONGEST && lifetime >= 1
    ensures Works(Initial(initial), lifetime) <==> FirstPast(initial, lifetime) <= LONGEST
  {
    hide Works, Wait;
    WorksIff(initial, lifetime);
    var past := FirstPast(initial, lifetime);
    FirstPastDoubles(initial, lifetime);
    if past <= LONGEST {
      RightUpToLongest(past, lifetime);
    } else if past < TWO32 {
      if lifetime > LONGEST { NoneFails(past, lifetime); } else { DoubledPastHolds(past, lifetime); }
    }
  }

  /** An interval past LONGEST, but not past twice the lifetime, is waited for less than the lifetime. */
  lemma DoubledPastHolds(past: u32, lifetime: nat)
    requires lifetime <= LONGEST < past <= 2 * lifetime
    ensures Holds(past, lifetime)
  {
    assert Wait(past) == 1000 * past - TWO32;
  }

  // ---------------------------------------------------------------- overflows

  /** The two sums that overflow: a zero interval is held and kept for ever. */
  lemma {:induction false} StuckAtZero(lifetime: nat, n: nat, max: u32)
    requires max == 0 || max == 0xffff_ffff
    ensures After(Interval(1, 0, max), lifetime, n) == Interval(1, 0, max)
  {
    if n > 0 { StuckAtZero(lifetime, n - 1, max); }
  }

  lemma SumOverflowsFor(lifetime: nat)
    requires lifetime >= 1
    ensures Turned(1, 0xffff_ffff) == Interval(1, 0, 0xffff_ffff)
    ensures !Works(Interval(1, 0, 0xffff_ffff), lifetime)
  {
    var s := Interval(1, 0, 0xffff_ffff);
    if Settles(s, lifetime) {
      var k: nat :| SettledFrom(s, lifetime, k);
      assert Settled(After(s, lifetime, k), lifetime);
      StuckAtZero(lifetime, k, 0xffff_ffff);
      assert false;
    }
  }

  /** A search that starts at 2^31 waits for zero milliseconds, doubles to zero, and stays there whatever the lifetime. */
  lemma DoublingOverflows(lifetime: nat, n: nat)
    ensures ProbedTimes(Initial(0x8000_0000), lifetime, n + 2) == Interval(1, 0, 0)
  {
    assert Probed(Initial(0x8000_0000), lifetime) == Interval(0x8000_0000, 0, 0);
    assert Probed(Interval(0x8000_0000, 0, 0), lifetime) == Interval(1, 0, 0);
    StuckAtZero(lifetime, n, 0);
    AfterIsProbedTimes(Initial(0x8000_0000), lifetime, n + 2);
    assert After(Initial(0x8000_0000), lifetime, n + 2) == After(Interval(0x8000_0000, 0, 0), lifetime, n + 1);
  }

  /** From 2^32 - 1 the very first sum overflows to zero, for every lifetime below LONGEST. */
  lemma SumOverflows(lifetime: nat, n: nat)
    requires 1 <= lifetime < LONGEST
    ensures ProbedTimes(Initial(0xffff_ffff), lifetime, n + 1) == Interval(1, 0, 0xffff_ffff)
  {
    assert Wait(0xffff_ffff) == TWO32 - 1000;
    assert Probed(Initial(0xffff_ffff), lifetime) == Interval(1, 0, 0xffff_ffff);
    StuckAtZero(lifetime, n, 0xffff_ffff);
    AfterIsProbedTimes(Initial(0xffff_ffff), lifetime, n + 1);
  }

  /** Above the lifetime and below 2^31, min and max stay above the lifetime. */
  lemma {:induction false} StaysAbove(s: Interval, lifetime: nat, n: nat)
    requires lifetime < s.min < 0x8000_0000 && lifetime < s.max < 0x8000_0000
    requires s.cur == (s.min + s.max as int) / 2
    ensures After(s, lifetime, n).min > lifetime
    decreases n
  {
    hide Holds, Half;
    if n > 0 {
      var t := Probed(s, lifetime);
      AsIs(t.min + t.max as int);
      StaysAbove(t, lifetime, n - 1);
    }
  }

  /**
   * The first interval whose wait is cut short: after 704 ms it counts as a success, whatever the lifetime, and min
   * is past the lifetime.
   */
  lemma WaitCutShort(lifetime: nat)
    requires 1 <= lifetime <= LONGEST
    ensures ProbedTimes(Initial(LONGEST + 1), lifetime, 1).min == LONGEST + 1 > lifetime
    ensures !Works(Initial(LONGEST + 1), lifetime)
  {
    hide Works;
    assert Wait(LONGEST + 1) == 704;
    assert ProbedTimes(Initial(LONGEST + 1), lifetime, 0) == Initial(LONGEST + 1);
    WorksOne(Initial(LONGEST + 1), lifetime);
  }

  /** With a lifetime of one second it stays there: the search never settles. */
  lemma NeverSettlesExample()
    ensures !Settles(Initial(LONGEST + 1), 1)
  {
    var s := Initial(LONGEST + 1);
    var t := Interval(4294968, 8589936, 0);
    var u := Interval(4294968, 6442452, 8589936);
    assert Probed(s, 1) == t && Probed(t, 1) == u;
    if Settles(s, 1) {
      SettlesLater(s, 1);
      SettlesLater(t, 1);
      var k: nat :| SettledFrom(u, 1, k);
      assert Settled(After(u, 1, k), 1);
      StaysAbove(u, 1, k);
      assert false;
    }
  }

  /** A search can also reach the lifetime by accident: 2^31 + 1 counts as a success and doubles to 2. */
  lemma AccidentExample()
    ensures Settles(Initial(0x8000_0001), 5) && !Works(Initial(0x8000_0001), 5)
  {
    assert After(Initial(0x8000_0001), 5, 1) == Interval(0x8000_0001, 2, 0);
    WorksOne(Initial(0x8000_0001), 5);
    assert Cut(0x8000_0001, 5);
    assert After(Initial(0x8000_0001), 5, 4) == Interval(4, 6, 8);
    BoundedSettles(Interval(4, 6, 8), 5);
    SettlesEarlier(Initial(0x8000_0001), 5, 4);
  }

  // ---------------------------------------------------------------- exactly when the search settles

  /** Enough probes to tell: 33 doublings, as many probes with one outcome as there are intervals, and 33 halvings. */
  const ENOUGH: nat := 0x8000_0000 + 68

  /** After `k` probes the lifetime lies between min and max, and max is at most LONGEST. */
  ghost predicate Arrives(s: Interval, lifetime: nat, k: nat) {
    var t := After(s, lifetime, k);
    Halved(t, lifetime) && t.max <= LONGEST
  }

  /** Once max is set, cur is half of the sum, whether or not the sum overflows. */
  predicate Turning(s: Interval) { s.min >= 1 && s.max > 0 && s.cur == Half(s.min + s.max as int) }

  lemma TurningOn(s: Interval, lifetime: nat)
    requires Turning(s)
    ensures Turning(Probed(s, lifetime)) && s.cur < 0x8000_0000
  {
  }

  /** While max is not set, the interval doubles modulo 2^32. */
  lemma {:induction false} DoubledCur(s: Interval, lifetime: nat, k: nat)
    requires s.max == 0 && s.min >= 1 && forall i: nat :: i <= k ==> After(s, lifetime, i).max == 0
    ensures After(s, lifetime, k).cur == Wrap32(s.cur * Pow2(k)) && After(s, lifetime, k).min >= 1
    decreases k
  {
    hide Wrap32, Holds, Pow2;
    ZeroDoublings();
    if k == 0 {
      CurWraps(s.cur);
    } else {
      var t := Probed(s, lifetime);
      assert After(s, lifetime, 1) == After(t, lifetime, 0) == t;
      assert Holds(s.cur, lifetime) by { if s.cur == 0 { ZeroHolds(lifetime); } }
      forall i: nat | i <= k - 1 ensures After(t, lifetime, i).max == 0 {
        assert After(s, lifetime, i + 1) == After(t, lifetime, i);
      }
      DoubledCur(t, lifetime, k - 1);
      WrapTimes(2 * s.cur, Pow2(k - 1));
      Regrouped(s.cur, Pow2(k - 1));
      assert Pow2(k) == 2 * Pow2(k - 1) by { OneMorePower(k); }
    }
  }

  lemma ZeroDoublings()
    ensures Pow2(0) == 1
  {
  }

  lemma OneMorePower(k: nat)
    requires k > 0
    ensures Pow2(k) == 2 * Pow2(k - 1)
  {
  }

  lemma CurWraps(c: u32)
    ensures Wrap32(c) == c
  {
  }

  lemma ZeroHolds(lifetime: nat)
    ensures Holds(0, lifetime)
  {
  }

  lemma WrapTimes(x: nat, p: nat)
    ensures Wrap32(Wrap32(x) * p) == Wrap32(x * p)
  {
    var q := x / TWO32;
    WrapPlusMultiple(Wrap32(x) * p, q * p);
    assert x == q * TWO32 + Wrap32(x);
    Expanded(q, Wrap32(x), p);
  }

  lemma Expanded(q: int, r: int, p: int)
    ensures (q * TWO32 + r) * p == (q * p) * TWO32 + r * p
  {
  }

  lemma WrapPlusMultiple(x: int, q: int)
    ensures Wrap32(q * TWO32 + x) == Wrap32(x)
  {
  }

  /** Before the first failure: it comes within 33 probes, or never, the interval being zero by then. */
  lemma FirstHalf(initial: u32, lifetime: nat) returns (n: nat)
    ensures n <= 33
    ensures (After(Initial(initial), lifetime, n).max > 0 && Turning(After(Initial(initial), lifetime, n)))
         || (n == 33 && After(Initial(initial), lifetime, n) == After(Initial(initial), lifetime, n + 1))
  {
    hide Holds, Half, Wrap32;
    var s := Initial(initial);
    if i: nat :| i <= 33 && After(s, lifetime, i).max > 0 {
      n := FirstFailureAt(s, lifetime, i);
    } else {
      n := 33;
      DoubledCur(s, lifetime, 32);
      AllDoubled(initial);
      AfterAfter(s, lifetime, 32, 1);
      AfterOne(After(s, lifetime, 32), lifetime);
      AfterAfter(s, lifetime, 33, 1);
      AfterOne(After(s, lifetime, 33), lifetime);
      ZeroStays(After(s, lifetime, 32), lifetime);
    }
  }

  lemma AllDoubled(initial: u32)
    ensures Wrap32(initial * Pow2(32)) == 0
  {
    assert Pow2(32) == TWO32 by { PowerOf32(); }
    WrapPlusMultiple(0, initial);
  }

  lemma PowerOf32()
    ensures Pow2(32) == TWO32
  {
    ZeroDoublings();
    hide Pow2;
    EightMore(0);
    EightMore(8);
    EightMore(16);
    EightMore(24);
  }

  lemma AfterOne(s: Interval, lifetime: nat)
    ensures After(s, lifetime, 1) == Probed(s, lifetime)
  {
    assert After(s, lifetime, 1) == After(Probed(s, lifetime), lifetime, 0);
  }

  lemma ZeroStays(s: Interval, lifetime: nat)
    requires s.cur == 0 && s.max == 0
    ensures Probed(Probed(s, lifetime), lifetime) == Probed(s, lifetime)
  {
  }

  /** The first state behind a failure. */
  lemma {:induction false} FirstFailureAt(s: Interval, lifetime: nat, i: nat) returns (n: nat)
    requires s.max == 0 && s.min >= 1 && After(s, lifetime, i).max > 0
    ensures n <= i && Turning(After(s, lifetime, n))
    decreases i
  {
    hide Half;
    var t := Probed(s, lifetime);
    assert i > 0 && After(s, lifetime, i) == After(t, lifetime, i - 1);
    if t.max > 0 {
      n := 1;
      AfterOne(s, lifetime);
    } else {
      n := FirstFailureAt(t, lifetime, i - 1);
      n := n + 1;
      assert After(s, lifetime, n) == After(t, lifetime, n - 1);
    }
  }

  predicate OneOutcome(s: Interval, lifetime: nat, held: bool, n: nat) {
    forall i: nat :: i < n ==> (Holds(After(s, lifetime, i).cur, lifetime) <==> held)
  }

  /** Successes leave max alone, failures min. */
  lemma {:induction false} OneOutcomeKeeps(s: Interval, lifetime: nat, held: bool, n: nat)
    requires Turning(s) && OneOutcome(s, lifetime, held, n)
    ensures var t := After(s, lifetime, n); Turning(t) && if held then t.max == s.max else t.min == s.min
    decreases n
  {
    hide Holds, Half;
    if n > 0 {
      var t := Probed(s, lifetime);
      assert After(s, lifetime, 0) == s;
      TurningOn(s, lifetime);
      forall i: nat | i < n - 1 ensures Holds(After(t, lifetime, i).cur, lifetime) <==> held {
        assert After(s, lifetime, i + 1) == After(t, lifetime, i);
      }
      OneOutcomeKeeps(t, lifetime, held, n - 1);
    }
  }

  /** With one outcome throughout, the interval tried settles what comes next. */
  lemma SameCurSameNext(s: Interval, lifetime: nat, held: bool, a: nat, b: nat)
    requires Turning(s) && OneOutcome(s, lifetime, held, b + 1) && a <= b
    requires After(s, lifetime, a).cur == After(s, lifetime, b).cur
    ensures After(s, lifetime, a + 1) == After(s, lifetime, b + 1)
  {
    hide Holds, Half;
    assert OneOutcome(s, lifetime, held, a);
    OneOutcomeKeeps(s, lifetime, held, a);
    OneOutcomeKeeps(s, lifetime, held, b);
    AfterAfter(s, lifetime, a, 1);
    AfterAfter(s, lifetime, b, 1);
    AfterOne(After(s, lifetime, a), lifetime);
    AfterOne(After(s, lifetime, b), lifetime);
  }

  /** Behind a success and a failure, where nothing overflows any more. */
  predicate Low(s: Interval) {
    1 <= s.min < 0x8000_0000 && 1 <= s.max < 0x8000_0000 && s.cur == (s.min + s.max as int) / 2
  }

  /** Before both outcomes have come: a state repeats, or both have come. */
  lemma SecondHalf(s: Interval, lifetime: nat) returns (i: nat, j: nat)
    requires Turning(s)
    ensures i <= j <= 0x8000_0001
    ensures (i < j && After(s, lifetime, i) == After(s, lifetime, j)) || Low(After(s, lifetime, j))
  {
    hide Holds, Half;
    var held := Holds(s.cur, lifetime);
    if OneOutcome(s, lifetime, held, 0x8000_0001) {
      hide OneOutcome;
      var l := seq(0x8000_0001, k requires 0 <= k < 0x8000_0001 => After(s, lifetime, k).cur as nat);
      forall k | 0 <= k < |l| ensures l[k] <= 0x7fff_ffff {
        CurIsLow(s, lifetime, k);
      }
      var a, b := CrowdedRepeats(l, 0x7fff_ffff);
      assert OneOutcome(s, lifetime, held, b + 1) by { FewerOutcomes(s, lifetime, held, b + 1); }
      SameCurSameNext(s, lifetime, held, a, b);
      i, j := a + 1, b + 1;
    } else {
      var k: nat :| k < 0x8000_0001 && !(Holds(After(s, lifetime, k).cur, lifetime) <==> held);
      var m := OutcomeChanges(s, lifetime, held, k);
      i, j := m, m;
    }
  }

  lemma FewerOutcomes(s: Interval, lifetime: nat, held: bool, n: nat)
    requires OneOutcome(s, lifetime, held, 0x8000_0001) && n <= 0x8000_0001
    ensures OneOutcome(s, lifetime, held, n)
  {
  }

  lemma {:induction false} CurIsLow(s: Interval, lifetime: nat, k: nat)
    requires Turning(s)
    ensures Turning(After(s, lifetime, k)) && After(s, lifetime, k).cur < 0x8000_0000
    decreases k
  {
    hide Holds, Half;
    TurningOn(s, lifetime);
    if k > 0 { CurIsLow(Probed(s, lifetime), lifetime, k - 1); }
  }

  /** Where the outcome changes, one of min and max has been set by each outcome. */
  lemma {:induction false} OutcomeChanges(s: Interval, lifetime: nat, held: bool, k: nat) returns (m: nat)
    requires Turning(s) && (Holds(s.cur, lifetime) <==> held)
    requires !(Holds(After(s, lifetime, k).cur, lifetime) <==> held)
    ensures m <= k + 1 && Low(After(s, lifetime, m))
    decreases k
  {
    hide Holds, Half;
    assert k > 0;
    var t := Probed(s, lifetime);
    TurningOn(s, lifetime);
    assert After(s, lifetime, k) == After(t, lifetime, k - 1);
    if Holds(t.cur, lifetime) <==> held {
      m := OutcomeChanges(t, lifetime, held, k - 1);
      m := m + 1;
      assert After(s, lifetime, m) == After(t, lifetime, m - 1);
    } else {
      m := 2;
      TwoOutcomes(s, lifetime);
      AfterAfter(s, lifetime, 1, 1);
      AfterOne(s, lifetime);
      AfterOne(t, lifetime);
    }
  }

  lemma TwoOutcomes(s: Interval, lifetime: nat)
    requires Turning(s)
    requires !(Holds(Probed(s, lifetime).cur, lifetime) <==> Holds(s.cur, lifetime))
    ensures Low(Probed(Probed(s, lifetime), lifetime))
  {
    hide Holds, Half;
    var t := Probed(s, lifetime);
    TurningOn(s, lifetime);
    TurningOn(t, lifetime);
    var u := Probed(t, lifetime);
    TurningOn(u, lifetime);
    ZeroHolds(lifetime);
    AsIs(u.min + u.max as int);
  }

  function Width(s: Interval): nat { if s.min < s.max then s.max - s.min else s.min - s.max }

  lemma LowOn(s: Interval, lifetime: nat)
    requires Low(s)
    ensures Low(Probed(s, lifetime)) && 2 * Width(Probed(s, lifetime)) <= Width(s) + 1
  {
    hide Holds, Half;
    var t := Probed(s, lifetime);
    AsIs(t.min + t.max as int);
  }

  /** Then halving comes to rest. */
  lemma {:induction false} ThirdHalf(s: Interval, lifetime: nat, k: nat) returns (i: nat)
    requires Low(s) && Width(s) <= Pow2(k)
    ensures i <= k + 1 && After(s, lifetime, i) == After(s, lifetime, i + 1)
    decreases k
  {
    hide Probed, Pow2, Width;
    LowOn(s, lifetime);
    var t := Probed(s, lifetime);
    if k == 0 {
      ZeroDoublings();
      LowOn(t, lifetime);
      Narrow(s, lifetime);
      i := 1;
      AfterOne(s, lifetime);
      AfterAfter(s, lifetime, 1, 1);
      AfterOne(t, lifetime);
    } else {
      OneMorePower(k);
      i := ThirdHalf(t, lifetime, k - 1);
      i := i + 1;
      assert After(s, lifetime, i) == After(t, lifetime, i - 1) && After(s, lifetime, i + 1) == After(t, lifetime, i);
    }
  }

  lemma Narrow(s: Interval, lifetime: nat)
    requires Low(s) && Width(s) <= 1
    ensures Probed(Probed(s, lifetime), lifetime) == Probed(s, lifetime)
  {
    hide Holds, Half;
    var t := Probed(s, lifetime);
    AsIs(t.min + t.max as int);
    var u := Probed(t, lifetime);
    AsIs(u.min + u.max as int);
  }

  lemma WidthBelow(s: Interval)
    requires Low(s)
    ensures Width(s) <= Pow2(32)
  {
    PowerOf32();
  }

  /** Every run repeats a state within ENOUGH probes. */
  lemma Repeats(initial: u32, lifetime: nat) returns (i: nat, j: nat)
    ensures i < j <= ENOUGH && After(Initial(initial), lifetime, i) == After(Initial(initial), lifetime, j)
  {
    hide Probed, Turning, Low, Pow2;
    var s := Initial(initial);
    var n := FirstHalf(initial, lifetime);
    if After(s, lifetime, n) == After(s, lifetime, n + 1) {
      return n, n + 1;
    }
    var t := After(s, lifetime, n);
    var a, b := SecondHalf(t, lifetime);
    AfterAfter(s, lifetime, n, a);
    AfterAfter(s, lifetime, n, b);
    if a < b && After(t, lifetime, a) == After(t, lifetime, b) {
      return n + a, n + b;
    }
    var u := After(t, lifetime, b);
    WidthBelow(u);
    var c := ThirdHalf(u, lifetime, 32);
    AfterAfter(s, lifetime, n + b, c);
    AfterAfter(s, lifetime, n + b, c + 1);
    i, j := n + b + c, n + b + c + 1;
  }

  /** What a run comes to at all, it comes to within ENOUGH probes. */
  lemma {:induction false} ArrivesSoon(initial: u32, lifetime: nat, n: nat) returns (k: nat)
    requires Arrives(Initial(initial), lifetime, n)
    ensures k <= ENOUGH && Arrives(Initial(initial), lifetime, k)
    decreases n
  {
    hide Halved;
    var s := Initial(initial);
    if n <= ENOUGH {
      return n;
    }
    var i, j := Repeats(initial, lifetime);
    AfterAfter(s, lifetime, j, n - j);
    AfterAfter(s, lifetime, i, n - j);
    k := ArrivesSoon(initial, lifetime, i + (n - j));
  }

  /**
   * For every first interval and every lifetime, the search settles, by whatever way, exactly when it comes to a
   * bracket of the lifetime below LONGEST within ENOUGH probes, which a caller can find out without waiting.
   */
  lemma SettlesIff(initial: u32, lifetime: nat)
    requires initial >= 1 && lifetime >= 1
    ensures Settles(Initial(initial), lifetime) <==>
            exists k: nat :: k <= ENOUGH && Arrives(Initial(initial), lifetime, k)
  {
    hide Halved;
    var s := Initial(initial);
    if Settles(s, lifetime) {
      var n: nat :| SettledFrom(s, lifetime, n);
      assert Settled(After(s, lifetime, n), lifetime);
      StaysMaxFailed(s, lifetime, n);
      SettledBelowLongest(After(s, lifetime, n), lifetime);
      SettledIsHalved(After(s, lifetime, n), lifetime);
      var k := ArrivesSoon(initial, lifetime, n);
    }
    if k: nat :| k <= ENOUGH && Arrives(s, lifetime, k) {
      BoundedSettles(After(s, lifetime, k), lifetime);
      SettlesEarlier(s, lifetime, k);
    }
  }

  lemma SettledIsHalved(s: Interval, lifetime: nat)
    requires lifetime >= 1 && Settled(s, lifetime)
    ensures Halved(s, lifetime)
  {
  }

  /** Among more numbers than there are up to a bound, one repeats. */
  lemma {:induction false} CrowdedRepeats(l: seq<nat>, bound: nat) returns (a: nat, b: nat)
    requires |l| > bound + 1 && forall i :: 0 <= i < |l| ==> l[i] <= bound
    ensures a < b < |l| && l[a] == l[b]
    decreases bound
  {
    if bound == 0 {
      assert l[0] <= 0 && l[1] <= 0;
      return 0, 1;
    }
    if bound !in l {
      a, b := CrowdedRepeats(l, bound - 1);
      return;
    }
    var k :| 0 <= k < |l| && l[k] == bound;
    if j :| k < j < |l| && l[j] == bound {
      return k, j;
    }
    if j :| 0 <= j < k && l[j] == bound {
      return j, k;
    }
    var rest := l[..k] + l[k + 1..];
    assert forall i :: 0 <= i < |rest| ==> rest[i] == l[if i < k then i else i + 1];
    a, b := CrowdedRepeats(rest, bound - 1);
    a, b := if a < k then a else a + 1, if b < k then b else b + 1;
  }

  // ---------------------------------------------------------------- the session

  class Lifetime {
    var interval: Interval

    /** The part of nat_lifetime_alloc that starts the search; a zero interval is refused before. */
    constructor (initial: u32)
      requires initial >= 1
      ensures interval == Initial(initial)
    {
      interval := Interval(1, initial, 0);
    }

    method BindingOk()
      modifies this
      ensures interval == AfterOk(old(interval))
    {
      interval := interval.(min := Max(1, interval.cur));
      var lo: int := interval.min;
      if interval.max > 0 {
        interval := interval.(cur := Half(lo + interval.max));
      } else {
        interval := interval.(cur := Wrap32(2 * interval.cur));
      }
    }

    method BindingExpired()
      modifies this
      ensures interval == AfterExpired(old(interval))
    {
      interval := interval.(max := interval.cur);
      var lo: int := interval.min;
      interval := interval.(cur := Half(lo + interval.max));
    }

    /** A run of probes against a fixed lifetime. */
    method Search(lifetime: nat, n: nat)
      modifies this
      ensures interval == ProbedTimes(old(interval), lifetime, n)
    {
      for i := 0 to n
        invariant interval == ProbedTimes(old(interval), lifetime, i)
      {
        if Holds(interval.cur, lifetime) {
          BindingOk();
        } else {
          BindingExpired();
        }
      }
    }
  }
}
