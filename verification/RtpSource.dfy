/** Receiver statistics of one RTP source: sequence extension, loss, fraction lost and jitter. */
module RtpSource {
  import opened Base

  const MAX_DROPOUT: int := 3000
  const MAX_MISORDER: int := 100
  const MIN_SEQUENTIAL: int := 2

  /** A 32-bit word read as a signed integer. */
  function Int32(x: int): (r: int)
    ensures -0x8000_0000 <= r < 0x8000_0000
  {
    var w := Wrap32(x);
    if w < 0x8000_0000 then w else w - TWO32
  }

  /** Division of the C language, which truncates toward zero. */
  function TruncDiv(a: int, b: int): int
    requires b != 0
  {
    if a >= 0 then a / b else -((-a) / b)
  }

  function Abs(x: int): nat { if x < 0 then -x else x }

  datatype Src = Src(maxSeq: u16, cycles: u32, baseSeq: u32, badSeq: u32, probation: u32, received: u32,
                     expectedPrior: u32, receivedPrior: u32, transit: int, jitter: u32)

  /** source_init_seq. */
  function Inited(s: Src, seqno: u16): Src {
    s.(baseSeq := seqno, maxSeq := seqno, badSeq := TWO16 + 1, cycles := 0, received := 0, receivedPrior := 0,
       expectedPrior := 0)
  }

  function Counting(s: Src): Src { s.(received := Wrap32(s.received + 1)) }

  /** source_update_seq: the new state, and whether the packet is taken. */
  function Updated(s: Src, seqno: u16): (Src, bool) {
    var udelta := (seqno - s.maxSeq) % TWO16;
    if s.probation > 0 then
      var seen: int := s.maxSeq;
      if seqno == seen + 1 then
        var t := s.(probation := s.probation - 1, maxSeq := seqno);
        if t.probation == 0 then (Counting(Inited(t, seqno)), true) else (t, false)
      else (s.(probation := MIN_SEQUENTIAL - 1, maxSeq := seqno), false)
    else if udelta < MAX_DROPOUT then
      (Counting(s.(cycles := if seqno < s.maxSeq then Wrap32(s.cycles + TWO16) else s.cycles, maxSeq := seqno)), true)
    else if udelta <= TWO16 - MAX_MISORDER then
      if seqno == s.badSeq then (Counting(Inited(s, seqno)), true)
      else (s.(badSeq := NextSeq(seqno)), false)
    else (Counting(s), true)
  }

  function NextSeq(seqno: int): u16 { (seqno + 1) % TWO16 }

  // ---------------------------------------------------------------- extension

  /**
   * The state after a first packet with true number `b`, when the highest true number so far is `h` and
   * `r` packets were counted.
   */
  ghost predicate Tracks(s: Src, b: int, h: int, r: nat) {
    && s.probation == 0 && b <= h
    && s.baseSeq == b % TWO16 && s.maxSeq == h % TWO16
    && s.cycles == Wrap32((h / TWO16 - b / TWO16) * TWO16)
    && s.received == Wrap32(r)
  }

  /** The arrivals the sequence rules accept: up to 99 behind and 2999 ahead. */
  predicate InWindow(h: int, x: int) { h - MAX_MISORDER < x < h + MAX_DROPOUT }

  lemma DeltaOf(h: int, x: int)
    ensures (x % TWO16 - h % TWO16) % TWO16 == (x - h) % TWO16
  {
    assert x == x / TWO16 * TWO16 + x % TWO16 && h == h / TWO16 * TWO16 + h % TWO16;
    assert x - h == (x / TWO16 - h / TWO16) * TWO16 + (x % TWO16 - h % TWO16);
  }

  lemma CarryOne(n: int)
    ensures Wrap32(Wrap32(n * TWO16) + TWO16) == Wrap32((n + 1) * TWO16)
  {
    assert n * TWO16 == n * TWO16 / TWO32 * TWO32 + Wrap32(n * TWO16);
    assert (n + 1) * TWO16 == n * TWO16 / TWO32 * TWO32 + (Wrap32(n * TWO16) + TWO16);
  }

  lemma CountOne(r: nat)
    ensures Wrap32(Wrap32(r) + 1) == Wrap32(r + 1)
  {
  }

  /** An arrival in the window is taken, and the state keeps tracking the true maximum, across wraps. */
  lemma UpdateTracks(s: Src, b: int, h: int, r: nat, x: int)
    requires Tracks(s, b, h, r) && InWindow(h, x)
    ensures Updated(s, x % TWO16).1 && Tracks(Updated(s, x % TWO16).0, b, Max(h, x), r + 1)
  {
    DeltaOf(h, x);
    CountOne(r);
    if x >= h {
      assert (x - h) % TWO16 == x - h;
      CarryOne(h / TWO16 - b / TWO16);
      assert x / TWO16 == h / TWO16 + if x % TWO16 < h % TWO16 then 1 else 0;
    } else {
      assert (x - h) % TWO16 == TWO16 + (x - h);
    }
  }

  /** Any other arrival within a cycle is refused once, and changes nothing but the number expected after it. */
  lemma OutsideWindow(s: Src, b: int, h: int, r: nat, x: int)
    requires Tracks(s, b, h, r) && h - (TWO16 - MAX_DROPOUT) <= x <= h + TWO16 - MAX_MISORDER && s.badSeq != x % TWO16
    ensures Updated(s, x % TWO16).1 <==> InWindow(h, x)
    ensures !InWindow(h, x) ==> Updated(s, x % TWO16).0 == s.(badSeq := (x % TWO16 + 1) % TWO16)
  {
    DeltaOf(h, x);
    if x >= h {
      assert (x - h) % TWO16 == x - h;
    } else {
      assert (x - h) % TWO16 == TWO16 + (x - h);
    }
  }

  function Highest(h: int, xs: seq<int>): int {
    if xs == [] then h else Max(Highest(h, xs[..|xs| - 1]), xs[|xs| - 1])
  }

  function UpdatedAll(s: Src, xs: seq<int>): Src {
    if xs == [] then s else Updated(UpdatedAll(s, xs[..|xs| - 1]), xs[|xs| - 1] % TWO16).0
  }

  /** Every arrival lies in the window of the highest number before it. */
  ghost predicate AllInWindow(h: int, xs: seq<int>) {
    forall i :: 0 <= i < |xs| ==> InWindow(Highest(h, xs[..i]), xs[i])
  }

  /** A whole run of arrivals. */
  lemma {:induction false} RunTracks(s: Src, b: int, h: int, r: nat, xs: seq<int>)
    requires Tracks(s, b, h, r) && AllInWindow(h, xs)
    ensures Tracks(UpdatedAll(s, xs), b, Highest(h, xs), r + |xs|)
  {
    hide Tracks, Updated;
    if xs != [] {
      var n := |xs| - 1;
      var front := xs[..n];
      forall i | 0 <= i < n ensures InWindow(Highest(h, front[..i]), front[i]) {
        assert front[..i] == xs[..i];
      }
      RunTracks(s, b, h, r, front);
      UpdateTracks(UpdatedAll(s, front), b, Highest(h, front), r + n, xs[n]);
    }
  }

  // ---------------------------------------------------------------- loss

  function Expected32(s: Src): u32 { Wrap32(s.cycles + s.maxSeq - s.baseSeq + 1) }

  function Clamp24(x: int): int { if x > 0x7fffff then 0x7fffff else if x < -0x7fffff then -0x7fffff else x }

  /** source_calc_lost. */
  function CalcLost(s: Src): int { Clamp24(Int32(Expected32(s) - s.received)) }

  lemma WrapMinus(a: int, b: int)
    ensures Wrap32(Wrap32(a) - Wrap32(b)) == Wrap32(a - b)
  {
    var qa, qb := a / TWO32, b / TWO32;
    assert a - b == (qa - qb) * TWO32 + (Wrap32(a) - Wrap32(b));
  }

  lemma ExpectedIsTrue(s: Src, b: int, h: int, r: nat)
    requires Tracks(s, b, h, r)
    ensures Expected32(s) == Wrap32(h - b + 1) && s.received == Wrap32(r)
  {
    var n := (h / TWO16 - b / TWO16) * TWO16;
    var rest := h % TWO16 - b % TWO16 + 1;
    assert h - b + 1 == n + rest;
    assert n + rest == n / TWO32 * TWO32 + (Wrap32(n) + rest);
  }

  /** The reported loss is exactly expected minus received, up to the 24-bit clamp. */
  lemma LostIsExact(s: Src, b: int, h: int, r: nat)
    requires Tracks(s, b, h, r) && -0x8000_0000 <= (h - b + 1) - r < 0x8000_0000
    ensures CalcLost(s) == Clamp24((h - b + 1) - r)
  {
    hide Wrap32, Expected32, Tracks;
    ExpectedIsTrue(s, b, h, r);
    WrapMinus(h - b + 1, r);
    SmallInt32(Expected32(s) - s.received, h - b + 1 - r);
  }

  /** A number in the range of int is what its word reads as. */
  lemma SmallInt32(w: int, x: int)
    requires Wrap32(w) == Wrap32(x) && -0x8000_0000 <= x < 0x8000_0000
    ensures Int32(w) == x
  {
  }

  /**
   * A source from its first arrival on: whatever arrives in the window, the highest number and the count are the
   * true ones, and the reported loss is exactly the numbers passed over less the arrivals too many.
   */
  lemma StreamLossIsExact(s: Src, x: int, xs: seq<int>)
    requires s.probation == 0 && AllInWindow(x, xs) && -0x8000_0000 <= Highest(x, xs) - x - |xs| < 0x8000_0000
    ensures var first := Updated(Inited(s, x % TWO16), x % TWO16);
            && first.1 && Tracks(UpdatedAll(first.0, xs), x, Highest(x, xs), |xs| + 1)
            && CalcLost(UpdatedAll(first.0, xs)) == Clamp24(Highest(x, xs) - x - |xs|)
  {
    hide Updated, CalcLost, Tracks, Inited, Highest, UpdatedAll, AllInWindow, Clamp24;
    var s0 := Inited(s, x % TWO16);
    Starts(s, x);
    UpdateTracks(s0, x, x, 0, x);
    var s1 := Updated(s0, x % TWO16).0;
    RunTracks(s1, x, x, 1, xs);
    HighestGrows(x, xs);
    LostIsExact(UpdatedAll(s1, xs), x, Highest(x, xs), |xs| + 1);
  }

  lemma Starts(s: Src, x: int)
    requires s.probation == 0
    ensures Tracks(Inited(s, x % TWO16), x, x, 0)
  {
  }

  lemma {:induction false} HighestGrows(h: int, xs: seq<int>)
    ensures h <= Highest(h, xs)
  {
    if xs != [] { HighestGrows(h, xs[..|xs| - 1]); }
  }

  // ---------------------------------------------------------------- fraction lost

  /** True counts behind the 32-bit fields: expected and received, now and at the last report. */
  datatype Counts = Counts(e: nat, r: nat, ep: nat, rp: nat)

  /** Counts only grow, and more packets are expected only when one has been received. */
  ghost predicate Counted(s: Src, c: Counts) {
    && Expected32(s) == Wrap32(c.e) && s.received == Wrap32(c.r)
    && s.expectedPrior == Wrap32(c.ep) && s.receivedPrior == Wrap32(c.rp)
    && c.ep <= c.e && c.rp <= c.r && (c.e > c.ep ==> c.r > c.rp)
    && s.cycles % TWO16 == 0
  }

  /** The counts after an arrival, whichever branch takes it. */
  function CountsAfter(s: Src, c: Counts, seqno: u16): Counts {
    var udelta := (seqno - s.maxSeq) % TWO16;
    if udelta < MAX_DROPOUT then c.(e := c.e + udelta, r := c.r + 1)
    else if udelta <= TWO16 - MAX_MISORDER then (if seqno == s.badSeq then Counts(1, 1, 0, 0) else c)
    else c.(r := c.r + 1)
  }

  lemma FirstCounted(s: Src, seqno: u16)
    requires s.probation == 0
    ensures Counted(Updated(Inited(s, seqno), seqno).0, Counts(1, 1, 0, 0))
  {
  }

  lemma ExpectedMoves(s: Src, seqno: u16)
    requires (seqno - s.maxSeq) % TWO16 < MAX_DROPOUT
    ensures var s' := s.(cycles := if seqno < s.maxSeq then Wrap32(s.cycles + TWO16) else s.cycles, maxSeq := seqno);
            Expected32(s') == Wrap32(Expected32(s) + (seqno - s.maxSeq) % TWO16)
  {
    hide Wrap32;
    var d := (seqno - s.maxSeq) % TWO16;
    var before: int := s.cycles + s.maxSeq - s.baseSeq + 1;
    WrapPlus(before, d);
    UpOrOver(s.maxSeq, seqno);
    if seqno < s.maxSeq {
      WrapPlus(s.cycles + TWO16, seqno - s.baseSeq + 1);
    }
  }

  lemma UpOrOver(x: u16, y: u16)
    ensures var d: int := y - x; d % TWO16 == if y < x then d + TWO16 else d
  {
  }

  lemma WrapPlus(a: int, d: int)
    ensures Wrap32(Wrap32(a) + d) == Wrap32(a + d)
  {
    assert a + d == a / TWO32 * TWO32 + (Wrap32(a) + d);
  }

  lemma CountsKept(s: Src, c: Counts, seqno: u16)
    requires s.probation == 0 && Counted(s, c)
    ensures Counted(Updated(s, seqno).0, CountsAfter(s, c, seqno))
  {
    hide Expected32, Wrap32;
    var udelta := (seqno - s.maxSeq) % TWO16;
    var s' := Updated(s, seqno).0;
    WrapPlus(c.r, 1);
    WholeCycles(s.cycles);
    if udelta < MAX_DROPOUT {
      ExpectedMoves(s, seqno);
      WrapPlus(c.e, udelta);
      SameExpected(s', Counting(s'));
      SameExpected(s.(cycles := s'.cycles, maxSeq := s'.maxSeq), s');
    } else if udelta <= TWO16 - MAX_MISORDER {
      if seqno == s.badSeq {
        Restarted(s, seqno);
      } else {
        SameExpected(s, s');
      }
    } else {
      SameExpected(s, s');
    }
  }

  lemma WholeCycles(cycles: u32)
    requires cycles % TWO16 == 0
    ensures Wrap32(cycles + TWO16) % TWO16 == 0
  {
  }

  lemma SameExpected(s: Src, t: Src)
    requires s.cycles == t.cycles && s.maxSeq == t.maxSeq && s.baseSeq == t.baseSeq
    ensures Expected32(s) == Expected32(t)
  {
  }

  lemma Restarted(s: Src, seqno: u16)
    ensures Counted(Counting(Inited(s, seqno)), Counts(1, 1, 0, 0))
  {
  }

  /** The quotient of source_calc_fraction_lost, before it is cut to a byte. */
  function FractionQuotient(s: Src): int {
    var interval := Int32(Expected32(s) - s.expectedPrior);
    var lost := Int32(interval - Int32(s.received - s.receivedPrior));
    if interval == 0 || lost <= 0 then 0 else TruncDiv(Int32(lost * 256), interval)
  }

  function Reported(s: Src): Src { s.(expectedPrior := Expected32(s), receivedPrior := s.received) }

  function CountsReported(c: Counts): Counts { c.(ep := c.e, rp := c.r) }

  /** Nothing in the report interval leaves the range of int, the shift by eight included. */
  predicate IntervalFits(c: Counts) {
    c.e - c.ep < 0x8000_0000 && c.r - c.rp < 0x8000_0000 && (c.e - c.ep) - (c.r - c.rp) < 0x80_0000
  }

  /** The fraction of the packets expected since the last report that were lost, in 256ths. */
  function TrueFraction(c: Counts): int
    requires c.ep <= c.e && c.rp <= c.r
  {
    var interval, lost := c.e - c.ep, (c.e - c.ep) - (c.r - c.rp);
    if lost <= 0 then 0 else lost * 256 / interval
  }

  /** In every state of a source the quotient is the true fraction; it is below 256 and survives the cut to a byte. */
  lemma FractionFitsByte(s: Src, c: Counts)
    requires Counted(s, c) && IntervalFits(c)
    ensures FractionQuotient(s) == TrueFraction(c) && 0 <= TrueFraction(c) <= 255
    ensures Low8(FractionQuotient(s)) == TrueFraction(c)
    ensures Counted(Reported(s), CountsReported(c))
  {
    hide Int32, Expected32, Wrap32;
    var interval, got := c.e - c.ep, c.r - c.rp;
    WrapMinus(c.e, c.ep);
    WrapMinus(c.r, c.rp);
    IntOfWraps(c.e, c.ep);
    IntOfWraps(c.r, c.rp);
    IntAsIs(interval - got);
    SameExpected(s, Reported(s));
    if interval > got {
      IntAsIs((interval - got) * 256);
      QuotientBelow(interval - got, interval);
    }
  }

  lemma IntOfWraps(a: int, b: int)
    requires -0x8000_0000 <= a - b < 0x8000_0000
    ensures Int32(Wrap32(a) - Wrap32(b)) == a - b
  {
    WrapMinus(a, b);
    IntAsIs(a - b);
  }

  lemma QuotientBelow(lost: int, interval: int)
    requires 0 < lost < interval
    ensures 0 <= lost * 256 / interval <= 255
  {
    var q := lost * 256 / interval;
    assert q * interval <= lost * 256 < 256 * interval;
    assert (256 - q) * interval > 0;
  }

  // ---------------------------------------------------------------- jitter

  /** source_calc_jitter; a relative transit time of zero counts as none yet. */
  function Jittered(s: Src, rtpTs: u32, arrival: u32): Src {
    var transit := Int32(arrival - rtpTs);
    if s.transit == 0 then s.(transit := transit)
    else
      var d := Int32(transit - s.transit);
      s.(transit := transit, jitter := Wrap32(s.jitter + Abs(d) - Wrap32(s.jitter + 8) / 16))
  }

  /** What an RR block reports. */
  function ReportedJitter(s: Src): u32 { s.jitter / 16 }

  /**
   * One sample whose transit time changed by at most `d` keeps the estimate within 16d + 7; below 2^28 by the exact
   * recurrence, from there on because the bounds are those of a 32-bit word.
   */
  lemma JitterStep(s: Src, rtpTs: u32, arrival: u32, d: nat)
    requires s.jitter <= 16 * d + 7
    requires Abs(Int32(arrival - rtpTs) - s.transit) <= d
    ensures var t := Jittered(s, rtpTs, arrival);
            && t.transit == Int32(arrival - rtpTs)
            && t.jitter <= 16 * d + 7 && ReportedJitter(t) <= d
            && (s.transit != 0 && d < 0x1000_0000 ==>
                t.jitter == s.jitter + Abs(t.transit - s.transit) - (s.jitter + 8) / 16)
  {
    hide Int32, Abs;
    if d >= 0x1000_0000 {
      return;
    }
    var change := Int32(arrival - rtpTs) - s.transit;
    SmallAbs(change, d);
    IntAsIs(change);
    NextEstimate(s.jitter, Abs(change), d);
  }

  lemma SmallAbs(x: int, d: nat)
    requires Abs(x) <= d < 0x1000_0000
    ensures -0x8000_0000 <= x < 0x8000_0000
  {
  }

  lemma IntAsIs(x: int)
    requires -0x8000_0000 <= x < 0x8000_0000
    ensures Int32(x) == x && Int32(Wrap32(x)) == x
  {
  }

  lemma NextEstimate(jitter: u32, change: nat, d: nat)
    requires d < 0x1000_0000 && jitter <= 16 * d + 7 && change <= d
    ensures Wrap32(jitter + 8) == jitter + 8
    ensures 0 <= jitter + change - (jitter + 8) / 16 <= 16 * d + 7
    ensures Wrap32(jitter + change - (jitter + 8) / 16) == jitter + change - (jitter + 8) / 16
    ensures jitter / 16 <= d && (jitter + change - (jitter + 8) / 16) / 16 <= d
  {
    assert jitter - (jitter + 8) / 16 >= 0;
    assert jitter - (jitter + 8) / 16 <= 16 * d + 7 - d;
  }

  datatype Sample = Sample(rtpTs: u32, arrival: u32)

  function Transit(p: Sample): int { Int32(p.arrival - p.rtpTs) }

  function JitteredAll(s: Src, ps: seq<Sample>): Src {
    if ps == [] then s else Jittered(JitteredAll(s, ps[..|ps| - 1]), ps[|ps| - 1].rtpTs, ps[|ps| - 1].arrival)
  }

  /** Neighbouring transit times differ by at most `d`. */
  predicate Steady(ps: seq<Sample>, d: nat) {
    forall i :: 0 < i < |ps| ==> Abs(Transit(ps[i]) - Transit(ps[i - 1])) <= d
  }

  /** A whole run from a fresh source. */
  lemma {:induction false} JitterBounded(s: Src, ps: seq<Sample>, d: nat)
    requires s.transit == 0 && s.jitter == 0 && Steady(ps, d)
    ensures var t := JitteredAll(s, ps);
            && t.jitter <= 16 * d + 7 && ReportedJitter(t) <= d
            && t.transit == if ps == [] then 0 else Transit(ps[|ps| - 1])
  {
    hide Jittered, Int32;
    if ps != [] {
      var n := |ps| - 1;
      var front := ps[..n];
      assert Steady(front, d);
      JitterBounded(s, front, d);
      var t := JitteredAll(s, front);
      FirstSample(t, ps[n].rtpTs, ps[n].arrival);
      if n > 0 {
        assert front[|front| - 1] == ps[n - 1];
        JitterStep(t, ps[n].rtpTs, ps[n].arrival, d);
      }
    }
  }

  lemma FirstSample(s: Src, rtpTs: u32, arrival: u32)
    ensures s.transit == 0 ==> Jittered(s, rtpTs, arrival) == s.(transit := Int32(arrival - rtpTs))
  {
  }

  // ---------------------------------------------------------------- the source as an object

  /** A source in use; the probation state of the sequence rules is never entered. */
  class Source {
    var maxSeq: u16
    var cycles: u32
    var baseSeq: u32
    var badSeq: u32
    var probation: u32
    var received: u32
    var expectedPrior: u32
    var receivedPrior: u32
    var transit: int
    var jitter: u32
    var rxBytes: nat
    var srRecv: nat
    var lastSrHi: u32
    var lastSrLo: u32
    var rtpTs: u32
    var psent: u32
    var osent: u32
    /** The true counts behind the 32-bit fields. */
    ghost var counts: Counts

    function State(): Src
      reads this
    {
      Src(maxSeq, cycles, baseSeq, badSeq, probation, received, expectedPrior, receivedPrior, transit, jitter)
    }

    /** A zeroed source. */
    constructor ()
      ensures State() == Src(0, 0, 0, 0, 0, 0, 0, 0, 0, 0) && lastSrHi == 0 && srRecv == 0
    {
      maxSeq, cycles, baseSeq, badSeq, probation := 0, 0, 0, 0, 0;
      received, expectedPrior, receivedPrior, transit, jitter := 0, 0, 0, 0, 0;
      rxBytes, srRecv, lastSrHi, lastSrLo, rtpTs, psent, osent := 0, 0, 0, 0, 0, 0, 0;
      counts := Counts(0, 0, 0, 0);
    }

    method InitSeq(seqno: u16)
      modifies this`baseSeq, this`maxSeq, this`badSeq, this`cycles, this`received, this`receivedPrior, this`expectedPrior
      ensures State() == Inited(old(State()), seqno)
    {
      baseSeq := seqno;
      maxSeq := seqno;
      badSeq := TWO16 + 1;
      cycles := 0;
      received := 0;
      receivedPrior := 0;
      expectedPrior := 0;
    }

    method UpdateSeq(seqno: u16) returns (taken: bool)
      modifies this`baseSeq, this`maxSeq, this`badSeq, this`cycles, this`received, this`receivedPrior,
        this`expectedPrior, this`probation
      ensures (State(), taken) == Updated(old(State()), seqno)
    {
      var udelta := (seqno - maxSeq) % TWO16;
      if probation > 0 {
        var seen: int := maxSeq;
        if seqno == seen + 1 {
          probation := probation - 1;
          maxSeq := seqno;
          if probation == 0 {
            InitSeq(seqno);
            received := Wrap32(received + 1);
            return true;
          }
        } else {
          probation := MIN_SEQUENTIAL - 1;
          maxSeq := seqno;
        }
        return false;
      } else if udelta < MAX_DROPOUT {
        if seqno < maxSeq {
          cycles := Wrap32(cycles + TWO16);
        }
        maxSeq := seqno;
      } else if udelta <= TWO16 - MAX_MISORDER {
        if seqno == badSeq {
          InitSeq(seqno);
        } else {
          badSeq := NextSeq(seqno);
          return false;
        }
      }
      received := Wrap32(received + 1);
      taken := true;
    }

    method CalcJitter(ts: u32, arrival: u32)
      modifies this`transit, this`jitter
      ensures State() == Jittered(old(State()), ts, arrival)
    {
      var now := Int32(arrival - ts);
      if transit == 0 {
        transit := now;
        return;
      }
      var d := Int32(now - transit);
      transit := now;
      if d < 0 {
        d := -d;
      }
      jitter := Wrap32(jitter + d - Wrap32(jitter + 8) / 16);
    }

    /** What a Sender Report leaves in the source. */
    method NoteSr(now: nat, ntpSec: u32, ntpFrac: u32, ts: u32, packets: u32, octets: u32)
      modifies this`srRecv, this`lastSrHi, this`lastSrLo, this`rtpTs, this`psent, this`osent
      ensures State() == old(State()) && srRecv == now && lastSrHi == ntpSec && lastSrLo == ntpFrac
      ensures rtpTs == ts && psent == packets && osent == octets
    {
      srRecv := now;
      lastSrHi := ntpSec;
      lastSrLo := ntpFrac;
      rtpTs := ts;
      psent := packets;
      osent := octets;
    }

    method CalcFractionLost() returns (fraction: u8)
      modifies this`expectedPrior, this`receivedPrior
      ensures State() == Reported(old(State())) && fraction == Low8(FractionQuotient(old(State())))
    {
      hide Int32, Expected32, TruncDiv;
      var expected := Expected32(State());
      var interval := Int32(expected - expectedPrior);
      expectedPrior := expected;
      var receivedInterval := Int32(received - receivedPrior);
      receivedPrior := received;
      var lost := Int32(interval - receivedInterval);
      fraction := if interval == 0 || lost <= 0 then 0 else Low8(TruncDiv(Int32(lost * 256), interval));
    }
  }
}
