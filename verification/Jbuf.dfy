/** The jitter buffer: a bounded pool of frames, buffered in order of wrap-around sequence number. */
module JitterBuffer {
  import opened Base

  datatype Header = Header(seqno: u16, ts: u32)

  /** A packet as the caller hands it in: its header and the memory object it holds a reference to. */
  datatype Packet = Packet(hdr: Header, mem: nat)

  datatype Frame = Frame(hdr: Header, mem: Option<nat>)

  datatype Stat = Stat(nPut: nat, nGet: nat, nOos: nat, nDups: nat, nLate: nat, nLost: nat, nOverflow: nat,
                       nUnderflow: nat, nFlush: nat)

  datatype PutResult = Accepted | TooLate | Duplicate

  /** The sign of the difference as a 16-bit integer. */
  predicate SeqLess(x: u16, y: u16) { Diff16(x, y) >= 0x8000 }

  function Diff16(x: int, y: int): (d: int)
    ensures 0 <= d < TWO16
  {
    (x - y) % TWO16
  }

  /** Exactly one of the two orders and equality holds, except at distance 2^15, where both orders do. */
  lemma SeqLessTotal(x: u16, y: u16)
    ensures x == y ==> !SeqLess(x, y)
    ensures x != y ==> SeqLess(x, y) || SeqLess(y, x)
    ensures SeqLess(x, y) && SeqLess(y, x) <==> Diff16(x, y) == 0x8000
  {
  }

  /** Neighbouring packets are in wrap-around order. */
  predicate Increasing(l: seq<Packet>) {
    forall i :: 0 < i < |l| ==> SeqLess(l[i - 1].hdr.seqno, l[i].hdr.seqno)
  }

  /** Where a sequence number goes, searched from the tail; None when it meets its duplicate. */
  function Place(l: seq<Packet>, s: u16): (r: Option<nat>)
    ensures r.Some? ==> r.value <= |l|
  {
    if l == [] then Some(0)
    else
      var last := l[|l| - 1].hdr.seqno;
      if SeqLess(last, s) then Some(|l|)
      else if last == s then None
      else Place(l[..|l| - 1], s)
  }

  function InsertAt(l: seq<Packet>, k: nat, p: Packet): seq<Packet>
    requires k <= |l|
  {
    l[..k] + [p] + l[k..]
  }

  lemma {:induction false} PlaceFits(l: seq<Packet>, s: u16)
    ensures match Place(l, s)
            case None => exists i :: 0 <= i < |l| && l[i].hdr.seqno == s
            case Some(k) =>
              && (k > 0 ==> SeqLess(l[k - 1].hdr.seqno, s))
              && forall i :: k <= i < |l| ==> SeqLess(s, l[i].hdr.seqno)
  {
    if l != [] {
      var front, last := l[..|l| - 1], l[|l| - 1].hdr.seqno;
      SeqLessTotal(last, s);
      if !SeqLess(last, s) && last != s {
        PlaceFits(front, s);
        if Place(front, s).None? {
          var i :| 0 <= i < |front| && front[i].hdr.seqno == s;
          assert l[i].hdr.seqno == s;
        }
      }
    }
  }

  /** A packet put in its place keeps the neighbours in order. */
  lemma PlaceKeepsOrder(l: seq<Packet>, p: Packet)
    requires Increasing(l) && Place(l, p.hdr.seqno).Some?
    ensures Increasing(InsertAt(l, Place(l, p.hdr.seqno).value, p))
  {
    PlaceFits(l, p.hdr.seqno);
  }

  // ---------------------------------------------------------------- true sequence numbers

  /** `t` gives every packet its unbounded sequence number, and they all lie within 2^15 of each other. */
  ghost predicate TrueNumbers(l: seq<Packet>, t: seq<int>) {
    && |t| == |l|
    && (forall i :: 0 <= i < |l| ==> t[i] % TWO16 == l[i].hdr.seqno)
    && (forall i, j :: 0 <= i < |t| && 0 <= j < |t| ==> t[i] - t[j] < 0x8000)
  }

  lemma CloseNumbers(a: int, b: int)
    requires -0x8000 < a - b < 0x8000
    ensures SeqLess(a % TWO16, b % TWO16) <==> a < b
    ensures a % TWO16 == b % TWO16 <==> a == b
  {
    var x, y := a % TWO16, b % TWO16;
    var qa, qb := a / TWO16, b / TWO16;
    assert a == qa * TWO16 + x && b == qb * TWO16 + y;
    assert a - b == (qa - qb) * TWO16 + (x - y);
    assert qa - qb == 0 || qa - qb == 1 || qa - qb == -1;
  }

  /** Then the buffer is strictly increasing in the true numbers as a whole, and holds no number twice. */
  lemma {:induction false} TrulyIncreasing(l: seq<Packet>, t: seq<int>, i: nat, j: nat)
    requires Increasing(l) && TrueNumbers(l, t) && i < j < |l|
    ensures t[i] < t[j] && l[i].hdr.seqno != l[j].hdr.seqno
    decreases j - i
  {
    CloseNumbers(t[j - 1], t[j]);
    if i < j - 1 {
      TrulyIncreasing(l, t, i, j - 1);
    }
    CloseNumbers(t[i], t[j]);
  }

  /** And a new number is refused exactly when it is there; accepted, it goes between the smaller and the larger ones. */
  lemma {:induction false} PlaceIsExact(l: seq<Packet>, t: seq<int>, p: Packet, x: int)
    requires Increasing(l) && TrueNumbers(l + [p], t + [x]) && |t| == |l|
    ensures Place(l, p.hdr.seqno).None? <==> x in t
    ensures Place(l, p.hdr.seqno).Some? ==>
      var k := Place(l, p.hdr.seqno).value;
      && (forall i :: 0 <= i < k ==> t[i] < x) && (forall i :: k <= i < |t| ==> x < t[i])
  {
    hide Place, TrueNumbers, Increasing;
    PlaceReads(l, p.hdr.seqno);
    if l != [] {
      var m := |l| - 1;
      LastOfAll(l, t, p, x);
      if t[m] > x {
        Shorter(l, t, p, x);
        PlaceIsExact(l[..m], t[..m], p, x);
        assert t == t[..m] + [t[m]];
      } else if t[m] == x {
        assert x in t;
      }
    }
  }

  lemma LastOfAll(l: seq<Packet>, t: seq<int>, p: Packet, x: int)
    requires Increasing(l) && TrueNumbers(l + [p], t + [x]) && |t| == |l| > 0
    ensures var m := |l| - 1;
            && (SeqLess(l[m].hdr.seqno, p.hdr.seqno) <==> t[m] < x) && (l[m].hdr.seqno == p.hdr.seqno <==> t[m] == x)
            && forall i :: 0 <= i < m ==> t[i] < t[m]
  {
    var m := |l| - 1;
    var all, la := t + [x], l + [p];
    assert all[|t|] == x && la[|t|] == p && all[m] == t[m] && la[m] == l[m];
    assert all[m] - all[|t|] < 0x8000 && all[|t|] - all[m] < 0x8000;
    CloseNumbers(t[m], x);
    assert TrueNumbers(l, t) by {
      assert forall i :: 0 <= i < |t| ==> all[i] == t[i] && la[i] == l[i];
    }
    forall i | 0 <= i < m ensures t[i] < t[m] {
      TrulyIncreasing(l, t, i, m);
    }
  }

  lemma Shorter(l: seq<Packet>, t: seq<int>, p: Packet, x: int)
    requires Increasing(l) && TrueNumbers(l + [p], t + [x]) && |l| > 0 && |t| == |l|
    ensures var m := |l| - 1; Increasing(l[..m]) && TrueNumbers(l[..m] + [p], t[..m] + [x])
  {
    var m := |l| - 1;
    var big, small := t + [x], t[..m] + [x];
    assert small[m] == big[|t|] && forall i :: 0 <= i < m ==> small[i] == big[i];
    var bl, sl := l + [p], l[..m] + [p];
    assert sl[m] == bl[|l|] && forall i :: 0 <= i < m ==> sl[i] == bl[i];
    forall i, j | 0 <= i < |small| && 0 <= j < |small| ensures small[i] - small[j] < 0x8000 {
      assert big[if i < m then i else |t|] - big[if j < m then j else |t|] < 0x8000;
    }
  }

  /** The search meets the duplicate exactly when nothing that precedes the number stands behind it. */
  lemma {:induction false} PlaceMeets(l: seq<Packet>, s: u16)
    ensures Place(l, s).None? <==>
            exists i :: 0 <= i < |l| && l[i].hdr.seqno == s && NoneBefore(l, i)
  {
    if l != [] {
      var m := |l| - 1;
      PlaceMeets(l[..m], s);
      SeqLessTotal(s, s);
      if SeqLess(l[m].hdr.seqno, s) {
        assert forall i :: 0 <= i < |l| && l[i].hdr.seqno == s ==> !NoneBefore(l, i);
      } else if l[m].hdr.seqno == s {
        assert NoneBefore(l, m);
      } else {
        forall i | 0 <= i < m && l[i].hdr.seqno == s ensures NoneBefore(l, i) <==> NoneBefore(l[..m], i) {
          assert forall j :: i < j < m ==> l[..m][j] == l[j];
          if NoneBefore(l[..m], i) {
            assert forall j :: i < j < m ==> !SeqLess(l[..m][j].hdr.seqno, s);
          }
        }
        if exists i :: 0 <= i < |l| && l[i].hdr.seqno == s && NoneBefore(l, i) {
          var i :| 0 <= i < |l| && l[i].hdr.seqno == s && NoneBefore(l, i);
          assert l[..m][i].hdr.seqno == s && NoneBefore(l[..m], i);
        }
        if Place(l[..m], s).None? {
          var i :| 0 <= i < m && l[..m][i].hdr.seqno == s && NoneBefore(l[..m], i);
          assert l[i].hdr.seqno == s && NoneBefore(l, i);
        }
      }
    }
  }

  /** No packet behind position `i` has a number that precedes the one there. */
  predicate NoneBefore(l: seq<Packet>, i: nat)
    requires i < |l|
  {
    forall j :: i < j < |l| ==> !SeqLess(l[j].hdr.seqno, l[i].hdr.seqno)
  }

  /** The packets that jbuf_put searches: a full buffer has thrown its oldest packet away before. */
  function Remaining(l: seq<Packet>, full: bool): seq<Packet>
    requires full ==> l != []
  {
    if full then l[1..] else l
  }

  /** A packet whose number is recognised when it comes again: it stays, and nothing behind it precedes it. */
  predicate Recognised(l: seq<Packet>, full: bool, i: nat)
    requires i < |l|
  {
    !(full && i == 0) && NoneBefore(l, i)
  }

  /** In any buffer, whatever its numbers: one is refused as a duplicate exactly when it is that of such a packet. */
  lemma RefusedIff(l: seq<Packet>, full: bool, s: u16)
    requires full ==> l != []
    ensures Place(Remaining(l, full), s).None? <==>
            exists i :: 0 <= i < |l| && l[i].hdr.seqno == s && Recognised(l, full, i)
  {
    PlaceMeets(Remaining(l, full), s);
    if full {
      FirstGone(l, s);
    }
  }

  /** Without its first packet a list recognises what it recognised behind it. */
  lemma FirstGone(l: seq<Packet>, s: u16)
    requires l != []
    ensures (exists k :: 0 <= k < |l[1..]| && l[1..][k].hdr.seqno == s && NoneBefore(l[1..], k)) <==>
            exists i :: 0 <= i < |l| && l[i].hdr.seqno == s && Recognised(l, true, i)
  {
    var m := l[1..];
    if k :| 0 <= k < |m| && m[k].hdr.seqno == s && NoneBefore(m, k) {
      BehindFirst(l, k + 1);
      assert l[k + 1].hdr.seqno == s && Recognised(l, true, k + 1);
    }
    if i :| 0 <= i < |l| && l[i].hdr.seqno == s && Recognised(l, true, i) {
      BehindFirst(l, i);
      assert m[i - 1].hdr.seqno == s && NoneBefore(m, i - 1);
    }
  }

  lemma BehindFirst(l: seq<Packet>, i: nat)
    requires 0 < i < |l|
    ensures NoneBefore(l[1..], i - 1) <==> NoneBefore(l, i)
  {
    hide SeqLess;
    var m := l[1..];
    if NoneBefore(m, i - 1) {
      forall j | i < j < |l| ensures !SeqLess(l[j].hdr.seqno, l[i].hdr.seqno) {
        assert m[j - 1] == l[j];
      }
    }
  }

  predicate NumbersDiffer(l: seq<Packet>) {
    forall j, k :: 0 <= j < k < |l| ==> l[j].hdr.seqno != l[k].hdr.seqno
  }

  /**
   * Outside the window of PlaceIsExact, and in a full buffer, duplicates can get in. Exactly: the number of a
   * buffered packet is recognised when it comes again if and only if the packet is not the oldest of a full buffer
   * and no packet behind it precedes it.
   */
  lemma DuplicateKnownIff(l: seq<Packet>, full: bool, i: nat)
    requires i < |l| && NumbersDiffer(l)
    ensures Place(Remaining(l, full), l[i].hdr.seqno).None? <==> Recognised(l, full, i)
  {
    RefusedIff(l, full, l[i].hdr.seqno);
  }

  /**
   * So every duplicate is recognised exactly when the buffer is not full and no later packet of it precedes an
   * earlier one.
   */
  lemma AllDuplicatesKnownIff(l: seq<Packet>, full: bool)
    requires NumbersDiffer(l) && (full ==> l != [])
    ensures (forall i :: 0 <= i < |l| ==> Place(Remaining(l, full), l[i].hdr.seqno).None?) <==>
            !full && forall i, j :: 0 <= i < j < |l| ==> !SeqLess(l[j].hdr.seqno, l[i].hdr.seqno)
  {
    forall i | 0 <= i < |l| ensures Place(Remaining(l, full), l[i].hdr.seqno).None? <==> Recognised(l, full, i) {
      DuplicateKnownIff(l, full, i);
    }
    assert full ==> !Recognised(l, full, 0);
    if forall i :: 0 <= i < |l| ==> Place(Remaining(l, full), l[i].hdr.seqno).None? {
      forall i, j | 0 <= i < j < |l| ensures !SeqLess(l[j].hdr.seqno, l[i].hdr.seqno) {
        assert Recognised(l, full, i);
      }
    }
  }

  // ---------------------------------------------------------------- frames and lists

  /** Frames that each hold a packet. */
  ghost predicate Filled(l: seq<nat>, frame: seq<Frame>) {
    forall i :: 0 <= i < |l| ==> l[i] < |frame| && frame[l[i]].mem.Some?
  }

  /** The packets held by a list of frames. */
  ghost function Held(l: seq<nat>, frame: seq<Frame>): (r: seq<Packet>)
    requires Filled(l, frame)
    ensures |r| == |l|
  {
    seq(|l|, i requires 0 <= i < |l| => Packet(frame[l[i]].hdr, frame[l[i]].mem.value))
  }

  /** No frame is listed twice; buffered frames hold a memory object, free ones none. */
  ghost predicate Apart(pooll: seq<nat>, framel: seq<nat>, frame: seq<Frame>) {
    && (forall i :: 0 <= i < |pooll| ==> pooll[i] < |frame| && frame[pooll[i]].mem.None?)
    && Filled(framel, frame)
    && (forall i, j :: 0 <= i < j < |pooll| ==> pooll[i] != pooll[j])
    && (forall i, j :: 0 <= i < j < |framel| ==> framel[i] != framel[j])
  }

  /** A frame leaves the buffer from position `i` and gives its packet up. */
  lemma Unheld(pooll: seq<nat>, framel: seq<nat>, frame: seq<Frame>, i: nat)
    requires Apart(pooll, framel, frame) && i < |framel|
    ensures var f, rest := framel[i], framel[..i] + framel[i + 1..];
            var frame' := frame[f := frame[f].(mem := None)];
            && Filled(rest, frame')
            && Held(rest, frame') == Held(framel, frame)[..i] + Held(framel, frame)[i + 1..]
            && f < |frame| && f !in rest && f !in pooll
            && Apart(pooll, rest, frame') && Apart(pooll + [f], rest, frame')
  {
    var f, rest := framel[i], framel[..i] + framel[i + 1..];
    var frame' := frame[f := frame[f].(mem := None)];
    forall k | 0 <= k < |rest| ensures rest[k] != f && rest[k] < |frame'| && frame'[rest[k]].mem.Some? {
      assert rest[k] == framel[if k < i then k else k + 1];
    }
  }

  /** A loose frame enters the buffer at position `k` with a packet. */
  lemma NewlyHeld(pooll: seq<nat>, framel: seq<nat>, frame: seq<Frame>, f: nat, k: nat, p: Packet)
    requires Apart(pooll, framel, frame) && f < |frame| && f !in pooll && f !in framel && k <= |framel|
    ensures var l := framel[..k] + [f] + framel[k..];
            var frame' := frame[f := Frame(p.hdr, Some(p.mem))];
            && Apart(pooll, l, frame') && Held(l, frame') == InsertAt(Held(framel, frame), k, p)
  {
    var l := framel[..k] + [f] + framel[k..];
    var frame' := frame[f := Frame(p.hdr, Some(p.mem))];
    forall i | 0 <= i < |l| ensures l[i] < |frame'| && frame'[l[i]].mem.Some? {
      assert l[i] == if i < k then framel[i] else if i == k then f else framel[i - 1];
    }
    forall i, j | 0 <= i < j < |l| ensures l[i] != l[j] {
      assert l[i] == if i < k then framel[i] else if i == k then f else framel[i - 1];
      assert l[j] == if j < k then framel[j] else if j == k then f else framel[j - 1];
    }
  }

  /** A free frame is taken from the pool. */
  lemma Unpooled(pooll: seq<nat>, framel: seq<nat>, frame: seq<Frame>)
    requires Apart(pooll, framel, frame) && pooll != []
    ensures Apart(pooll[1..], framel, frame) && pooll[0] !in pooll[1..] && pooll[0] !in framel
    ensures pooll[0] < |frame| && frame[pooll[0]].mem.None?
  {
  }

  lemma IsFilled(pooll: seq<nat>, framel: seq<nat>, frame: seq<Frame>)
    requires Apart(pooll, framel, frame)
    ensures Filled(framel, frame) && |Held(framel, frame)| == |framel|
  {
  }

  lemma Pooled(pooll: seq<nat>, framel: seq<nat>, frame: seq<Frame>, f: nat)
    requires Apart(pooll, framel, frame) && f < |frame| && f !in pooll && frame[f].mem.None?
    ensures Apart(pooll + [f], framel, frame)
  {
  }

  class Jbuf {
    var pooll: seq<nat>
    var framel: seq<nat>
    var frame: seq<Frame>
    var n: nat
    const min: nat
    const max: nat
    var seqPut: u16
    var running: bool
    var seqGet: u16
    var stat: Stat
    /** Frames thrown away by jbuf_flush. */
    ghost var flushed: nat

    /** The lists and frames fit together and the buffer is in order. */
    ghost predicate Shape()
      reads this
    {
      && |frame| == max && n == |framel| && |pooll| + n == max && Apart(pooll, framel, frame)
      && Increasing(Held(framel, frame))
    }

    /** Every packet accepted was played, overwritten, flushed, or is still there. */
    ghost predicate Books()
      reads this
    {
      stat.nPut - stat.nLate - stat.nDups == (stat.nGet - stat.nUnderflow) + stat.nOverflow + flushed + n
    }

    ghost predicate Valid()
      reads this
    {
      Shape() && Books()
    }

    ghost function Packets(): seq<Packet>
      requires Shape()
      reads this
    {
      Held(framel, frame)
    }

    /** jbuf_alloc, for a minimum not above the maximum. */
    constructor (min: nat, max: nat)
      requires min <= max
      ensures Valid() && this.min == min && this.max == max && Packets() == [] && n == 0 && !running
      ensures stat == Stat(0, 0, 0, 0, 0, 0, 0, 0, 0)
    {
      this.min, this.max := min, max;
      frame := seq(max, _ => Frame(Header(0, 0), None));
      pooll := seq(max, i => i);
      framel, n, seqPut, running, seqGet := [], 0, 0, false, 0;
      stat := Stat(0, 0, 0, 0, 0, 0, 0, 0, 0);
      flushed := 0;
    }

    /** frame_alloc: a free frame, or the oldest buffered one. It is in neither list until it is linked again. */
    method FrameAlloc() returns (f: nat)
      requires Shape() && max > 0
      modifies this
      ensures |frame| == max && Apart(pooll, framel, frame) && |pooll| + |framel| + 1 == max
      ensures f < max && frame[f].mem.None? && f !in pooll && f !in framel
      ensures Held(framel, frame) == if old(n) == max then old(Packets())[1..] else old(Packets())
      ensures n == |framel| + 1
      ensures stat == old(stat).(nOverflow := old(stat).nOverflow + if old(n) == max then 1 else 0)
      ensures flushed == old(flushed) && seqPut == old(seqPut) && running == old(running) && seqGet == old(seqGet)
    {
      hide Apart, Held;
      if |pooll| > 0 {
        f := pooll[0];
        Unpooled(pooll, framel, frame);
        pooll := pooll[1..];
        n := n + 1;
      } else {
        f := framel[0];
        stat := stat.(nOverflow := stat.nOverflow + 1);
        Unheld(pooll, framel, frame, 0);
        IsFilled(pooll, framel, frame);
        ghost var l := Held(framel, frame);
        assert framel[..0] + framel[1..] == framel[1..] && l[..0] + l[1..] == l[1..];
        frame := frame[f := frame[f].(mem := None)];
        framel := framel[1..];
      }
    }

    /** frame_deref, for the frame at a position of the buffer. */
    method FrameDeref(i: nat)
      requires i < |framel| && framel[i] < |frame| && n > 0
      modifies this`pooll, this`framel, this`frame, this`n
      ensures framel == old(framel[..i]) + old(framel[i + 1..]) && pooll == old(pooll) + [old(framel[i])]
      ensures frame == old(frame)[old(framel[i]) := old(frame[framel[i]]).(mem := None)]
      ensures n == old(n) - 1
    {
      var f := framel[i];
      frame := frame[f := frame[f].(mem := None)];
      framel := framel[..i] + framel[i + 1..];
      pooll := pooll + [f];
      n := n - 1;
    }

    /** The search of jbuf_put: `f` is linked in its place, or goes back to the pool when it is a duplicate. */
    method Link(f: nat, s: u16) returns (k: Option<nat>)
      requires |frame| == max && Filled(framel, frame) && n > 0
      requires f < max && frame[f].mem.None?
      modifies this`pooll, this`framel, this`frame, this`n, this`stat
      ensures k == Place(old(Held(framel, frame)), s) && frame == old(frame)
      ensures k.None? ==>
        framel == old(framel) && pooll == old(pooll) + [f] && n == old(n) - 1
        && stat == old(stat).(nDups := old(stat).nDups + 1)
      ensures k.Some? ==>
        k.value <= |old(framel)| && framel == old(framel[..k.value]) + [f] + old(framel[k.value..])
        && pooll == old(pooll) && n == old(n)
        && stat == old(stat).(nOos := old(stat).nOos + if k.value < |old(framel)| then 1 else 0)
    {
      hide Place, SeqLess;
      ghost var l := Held(framel, frame);
      var le := |framel|;
      assert l[..le] == l;
      if le == 0 || SeqLess(frame[framel[le - 1]].hdr.seqno, s) {
        PlaceReads(l, s);
        framel := framel + [f];
        return Some(le);
      }
      while le > 0
        invariant le <= |framel| && Place(l, s) == Place(l[..le], s)
        invariant framel == old(framel) && pooll == old(pooll) && frame == old(frame) && n == old(n) && stat == old(stat)
        invariant le < |framel| || (le > 0 && !SeqLess(frame[framel[le - 1]].hdr.seqno, s))
      {
        PlaceReads(l[..le], s);
        var seqLe := frame[framel[le - 1]].hdr.seqno;
        if SeqLess(seqLe, s) {
          framel := framel[..le] + [f] + framel[le..];
          break;
        } else if s == seqLe {
          stat := stat.(nDups := stat.nDups + 1);
          framel := framel[..le] + [f] + framel[le..];
          FrameDeref(le);
          assert framel == old(framel);
          return None;
        }
        assert l[..le][..le - 1] == l[..le - 1];
        le := le - 1;
      }
      if le == 0 {
        PlaceReads(l[..le], s);
        framel := [f] + framel;
      }
      k := Some(le);
      stat := stat.(nOos := stat.nOos + 1);
    }

    /** The packets that are kept when a packet arrives: the oldest one makes room in a full buffer. */
    ghost function Room(): seq<Packet>
      requires Shape() && max > 0
      reads this
    {
      Remaining(Packets(), n == max)
    }

    lemma OldestLeaves()
      requires Shape() && max > 0
      ensures Increasing(Room()) && |Room()| == if n == max then n - 1 else n
    {
    }

    /** jbuf_put, for a packet that is not late. */
    method PutInTime(hdr: Header, mem: nat) returns (r: PutResult)
      requires Shape() && max > 0
      modifies this
      ensures Shape() && r != TooLate && flushed == old(flushed) && seqGet == old(seqGet)
      ensures r == Duplicate <==> Place(old(Room()), hdr.seqno).None?
      ensures r == Duplicate ==>
        Packets() == old(Room()) && seqPut == old(seqPut) && running == old(running) && n == |old(Room())|
      ensures r == Accepted ==>
        && Packets() == InsertAt(old(Room()), Place(old(Room()), hdr.seqno).value, Packet(hdr, mem))
        && seqPut == hdr.seqno && running && n == |old(Room())| + 1
      ensures stat == old(stat).(nOverflow := old(stat).nOverflow + (if old(n) == max then 1 else 0),
                                 nDups := old(stat).nDups + (if r == Duplicate then 1 else 0),
                                 nOos := stat.nOos)
      ensures stat.nOos == old(stat).nOos
                + (if r == Accepted && Place(old(Room()), hdr.seqno).value < |old(Room())| then 1 else 0)
    {
      hide Place, Apart, Held, Filled, Increasing, InsertAt;
      OldestLeaves();
      var f := FrameAlloc();
      IsFilled(pooll, framel, frame);
      ghost var room, l0, p0 := Held(framel, frame), framel, pooll;
      var k := Link(f, hdr.seqno);
      if k.None? {
        Pooled(p0, framel, frame, f);
        return Duplicate;
      }
      running := true;
      seqPut := hdr.seqno;
      NewlyHeld(pooll, l0, frame, f, k.value, Packet(hdr, mem));
      frame := frame[f := Frame(hdr, Some(mem))];
      PlaceKeepsOrder(room, Packet(hdr, mem));
      r := Accepted;
    }

    /** jbuf_put. */
    method Put(hdr: Header, mem: nat) returns (r: PutResult)
      requires Valid() && max > 0
      modifies this
      ensures Valid() && flushed == old(flushed) && seqGet == old(seqGet)
      ensures r == TooLate <==> old(running) && SeqLess(Low16(hdr.seqno + old(n)), old(seqPut))
      ensures r != Accepted ==> seqPut == old(seqPut) && running == old(running)
      ensures r == TooLate ==> Packets() == old(Packets())
      ensures r != TooLate ==> (r == Duplicate <==> Place(old(Room()), hdr.seqno).None?)
      ensures r != TooLate ==>
        (r == Duplicate <==> exists i :: 0 <= i < |old(Packets())| && old(Packets())[i].hdr.seqno == hdr.seqno
                                         && Recognised(old(Packets()), old(n) == max, i))
      ensures r == Duplicate ==> Packets() == old(Room())
      ensures r == Accepted ==>
        && Packets() == InsertAt(old(Room()), Place(old(Room()), hdr.seqno).value, Packet(hdr, mem))
        && seqPut == hdr.seqno && running
      ensures stat == old(stat).(nPut := old(stat).nPut + 1,
                                 nLate := old(stat).nLate + (if r == TooLate then 1 else 0),
                                 nOverflow := old(stat).nOverflow + (if r != TooLate && old(n) == max then 1 else 0),
                                 nDups := old(stat).nDups + (if r == Duplicate then 1 else 0),
                                 nOos := stat.nOos)
    {
      hide Place, Recognised;
      RefusedIff(Packets(), n == max, hdr.seqno);
      stat := stat.(nPut := stat.nPut + 1);
      if running && SeqLess(Low16(hdr.seqno + n), seqPut) {
        stat := stat.(nLate := stat.nLate + 1);
        return TooLate;
      }
      r := PutInTime(hdr, mem);
    }

    /** jbuf_get: the oldest packet, once more than `min` are buffered. */
    method Get() returns (r: Option<Packet>)
      requires Valid()
      modifies this
      ensures Valid() && flushed == old(flushed) && seqPut == old(seqPut) && running == old(running)
      ensures r.None? <==> old(n) <= min
      ensures r.None? ==> Packets() == old(Packets()) && seqGet == old(seqGet)
      ensures r.Some? ==> old(Packets()) == [r.value] + Packets() && seqGet == r.value.hdr.seqno
      ensures stat == old(stat).(nGet := old(stat).nGet + 1, nUnderflow := stat.nUnderflow, nLost := stat.nLost)
      ensures stat.nUnderflow == old(stat).nUnderflow + (if r.None? then 1 else 0)
      ensures stat.nLost == old(stat).nLost
                + (if r.Some? && old(seqGet) != 0 && 1 < Diff16(r.value.hdr.seqno, old(seqGet)) < 0x8000 then 1 else 0)
    {
      stat := stat.(nGet := stat.nGet + 1);
      if n <= min || |framel| == 0 {
        stat := stat.(nUnderflow := stat.nUnderflow + 1);
        return None;
      }
      var f := frame[framel[0]];
      if seqGet != 0 {
        if !SeqLess(f.hdr.seqno, seqGet) && Diff16(f.hdr.seqno, seqGet) > 1 {
          stat := stat.(nLost := stat.nLost + 1);
        }
      }
      seqGet := f.hdr.seqno;
      r := Some(Packet(f.hdr, f.mem.value));
      DropOldest();
    }

    /** The oldest frame goes back to the pool. */
    method DropOldest()
      requires Shape() && n > 0
      modifies this`pooll, this`framel, this`frame, this`n
      ensures Shape() && n == old(n) - 1 && Packets() == old(Packets())[1..]
    {
      hide Apart, Held;
      ghost var l := Packets();
      Unheld(pooll, framel, frame, 0);
      IsFilled(pooll, framel, frame);
      assert framel[..0] + framel[1..] == framel[1..] && l[..0] + l[1..] == l[1..];
      FrameDeref(0);
    }

    /** jbuf_flush: all frames return to the pool and the next packet is never late. */
    method Flush()
      requires Valid()
      modifies this
      ensures Valid() && Packets() == [] && n == 0 && !running && flushed == old(flushed) + old(n)
      ensures |pooll| == max && seqPut == old(seqPut) && stat == old(stat).(nFlush := old(stat).nFlush + 1)
    {
      while |framel| > 0
        invariant Valid() && flushed + n == old(flushed) + old(n) && seqPut == old(seqPut) && stat == old(stat)
        decreases |framel|
      {
        DropOldest();
        flushed := flushed + 1;
      }
      n := 0;
      running := false;
      stat := stat.(nFlush := stat.nFlush + 1);
    }
  }

  datatype Op = PutOp(hdr: Header, mem: nat) | GetOp | FlushOp

  /** Any run of calls: what was accepted is what was played, overwritten, flushed, or is still buffered. */
  method Run(jb: Jbuf, ops: seq<Op>) returns (accepted: nat, played: nat)
    requires jb.Valid() && jb.max > 0
    modifies jb
    ensures jb.Valid()
    ensures old(jb.n) + accepted
         == played + (jb.stat.nOverflow - old(jb.stat).nOverflow) + (jb.flushed - old(jb.flushed)) + jb.n
  {
    accepted, played := 0, 0;
    for i := 0 to |ops|
      invariant jb.Valid()
      invariant accepted == (jb.stat.nPut - jb.stat.nLate - jb.stat.nDups)
                            - old(jb.stat.nPut - jb.stat.nLate - jb.stat.nDups)
      invariant played == (jb.stat.nGet - jb.stat.nUnderflow) - old(jb.stat.nGet - jb.stat.nUnderflow)
    {
      match ops[i]
      case PutOp(hdr, mem) =>
        var r := jb.Put(hdr, mem);
        accepted := accepted + if r == Accepted then 1 else 0;
      case GetOp =>
        var r := jb.Get();
        played := played + if r.Some? then 1 else 0;
      case FlushOp => jb.Flush();
    }
  }

  /** A new buffer takes 0 a second time once it spans a whole cycle: four packets, none of them refused. */
  method WideBufferTakesDuplicate(min: nat, max: nat, ts: u32, mem: nat) returns (jb: Jbuf, fourth: PutResult)
    requires min <= max && 4 <= max
    ensures fresh(jb) && jb.Valid() && fourth == Accepted
    ensures jb.Packets() == [Packet(Header(0, ts), mem), Packet(Header(0x7000, ts), mem),
                             Packet(Header(0xe000, ts), mem), Packet(Header(0, ts), mem)]
  {
    hide SeqLess;
    CycleSteps();
    jb := new Jbuf(min, max);
    var r := PutLast(jb, Header(0, ts), mem);
    r := PutLast(jb, Header(0x7000, ts), mem);
    r := PutLast(jb, Header(0xe000, ts), mem);
    fourth := PutLast(jb, Header(0, ts), mem);
  }

  /**
   * A full buffer in perfect order: 5 and 6 are there. When 6 comes again it is refused, but 5 is lost; when 5 comes
   * again it is accepted.
   */
  method FullBufferTakesDuplicate(min: nat, again: u16, ts: u32, mem: nat) returns (jb: Jbuf, third: PutResult)
    requires min <= 2 && (again == 5 || again == 6)
    ensures fresh(jb) && jb.Valid() && third == (if again == 5 then Accepted else Duplicate)
    ensures jb.stat.nOverflow == 1
    ensures jb.Packets() == if again == 5 then [Packet(Header(5, ts), mem), Packet(Header(6, ts), mem)]
                            else [Packet(Header(6, ts), mem)]
  {
    hide SeqLess, Place;
    FiveAndSix();
    jb := new Jbuf(min, 2);
    var r := PutLast(jb, Header(5, ts), mem);
    r := PutLast(jb, Header(6, ts), mem);
    assert jb.Room() == [Packet(Header(6, ts), mem)];
    PlaceReads(jb.Room(), again);
    PlaceReads([], again);
    third := jb.Put(Header(again, ts), mem);
  }

  lemma FiveAndSix()
    ensures SeqLess(5, 6) && !SeqLess(6, 5) && !SeqLess(6, 6) && !SeqLess(7, 6) && !SeqLess(8, 6) && !SeqLess(7, 5)
  {
  }

  lemma CycleSteps()
    ensures SeqLess(0, 0x7000) && SeqLess(0x7000, 0xe000) && SeqLess(0xe000, 0)
    ensures !SeqLess(0x7001, 0) && !SeqLess(0xe002, 0x7000) && !SeqLess(3, 0xe000)
  {
  }

  /** A packet in time, ahead of the newest one, with room for it, goes to the end. */
  method PutLast(jb: Jbuf, hdr: Header, mem: nat) returns (r: PutResult)
    requires jb.Valid() && jb.n < jb.max
    requires jb.running ==> !SeqLess(Low16(hdr.seqno + jb.n), jb.seqPut)
    requires jb.n > 0 ==> SeqLess(jb.Packets()[jb.n - 1].hdr.seqno, hdr.seqno)
    modifies jb
    ensures jb.Valid() && r == Accepted && jb.Packets() == old(jb.Packets()) + [Packet(hdr, mem)]
    ensures jb.n == old(jb.n) + 1 && jb.seqPut == hdr.seqno && jb.running
    ensures jb.stat.nOverflow == old(jb.stat.nOverflow)
  {
    hide SeqLess, Place, Increasing, Apart, Filled;
    PlaceReads(jb.Packets(), hdr.seqno);
    r := jb.Put(hdr, mem);
  }

  function Low16(x: int): u16 { x % TWO16 }

  lemma PlaceReads(l: seq<Packet>, s: u16)
    ensures l == [] ==> Place(l, s) == Some(0)
    ensures l != [] ==>
      var last := l[|l| - 1].hdr.seqno;
      Place(l, s) == if SeqLess(last, s) then Some(|l|) else if last == s then None else Place(l[..|l| - 1], s)
  {
  }
}
