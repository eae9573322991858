/** An RTCP session: its member table, the counters kept beside it, and the reports made from it. */
module RtcpSession {
  import opened Base
  import opened HashTable
  import opened MemoryBuffer
  import opened RtpSource
  import opened RtcpWire
  import opened RtcpCodec

  const MAX_MEMBERS: nat := 8
  const RTCP_HEADROOM: nat := 4

  datatype Event =
    | RxRtp(seqno: u16, ts: u32, src: u32, payload: nat, now: nat)
    | RxRtcp(p: Packet, now: nat)
    | TxRtp(ts: u32, payload: nat, now: nat)
    | MakeReport(ntpHi: u32, ntpLo: u32, now: nat)

  class Member {
    const src: u32
    var s: Source?
    var cumLost: int
    var jit: u32
    var rtt: u32

    constructor (src: u32)
      ensures this.src == src && s == null
    {
      this.src := src;
      s, cumLost, jit, rtt := null, 0, 0, 0;
    }
  }

  /** hash_cmp_handler of the member table. */
  function BySrc(src: u32): Member -> bool { (m: Member) => m.src == src }

  /** Each SSRC has one member, filed under it, and there are no others. */
  ghost predicate Filed(log: seq<(u32, Member)>, ms: set<Member>) {
    && ms == (set m | m in Values(log))
    && (forall i :: 0 <= i < |log| ==> log[i].0 == log[i].1.src)
    && (forall i, j :: 0 <= i < j < |log| ==> log[i].1.src != log[j].1.src)
  }

  /** No two members share a source. */
  ghost predicate Unshared(ms: set<Member>)
    reads ms`s
  {
    forall m, m' :: m in ms && m' in ms && m != m' && m.s != null ==> m.s != m'.s
  }

  ghost predicate Tabled(table: Hash<Member>)
    reads table
  {
    table.Valid() && |table.bucket| == MAX_MEMBERS
  }

  /** `ws` are the members with a source, and their sources are in `ss`. */
  ghost predicate Owned(ms: set<Member>, ws: set<Member>, ss: set<Source>)
    reads ms`s
  {
    ws <= ms && forall m :: m in ms ==> (m in ws <==> m.s != null) && (m.s != null ==> m.s in ss)
  }

  /** Sources are in use, and their 32-bit fields stand for the true counts. */
  ghost predicate Sourced(ms: set<Member>)
    reads ms`s, set m | m in ms && m.s != null :: m.s
  {
    forall m :: m in ms && m.s != null ==> m.s.probation == 0 && Counted(m.s.State(), m.s.counts)
  }

  lemma FiledOneMore(log: seq<(u32, Member)>, ms: set<Member>, m: Member)
    requires Filed(log, ms) && First(Values(log), BySrc(m.src)).None?
    ensures Filed(log + [(m.src, m)], ms + {m}) && m !in ms
    ensures Values(log + [(m.src, m)]) == Values(log) + [m]
  {
    NotThere(log, m.src);
    assert Values(log + [(m.src, m)]) == Values(log) + [m];
  }

  lemma FiledValues(log: seq<(u32, Member)>, ms: set<Member>)
    requires Filed(log, ms)
    ensures NoRepeats(Values(log)) && ms == (set m | m in Values(log))
  {
  }

  lemma OwnersLess(ms: set<Member>, ws: set<Member>, ss: set<Source>, m: Member)
    requires Unshared(ms) && Owned(ms, ws, ss)
    ensures Unshared(ms - {m}) && Owned(ms - {m}, ws - {m}, ss)
  {
  }

  lemma NoSourceYet(ms: set<Member>, ws: set<Member>, ss: set<Source>, m: Member)
    requires Owned(ms, ws, ss) && m in ms
    ensures m in ws <==> m.s != null
    ensures m !in ws ==> ws - {m} == ws
    ensures m.s != null ==> m.s in ss
  {
  }

  lemma OneLess(ms: set<Member>, ws: set<Member>, ss: set<Source>, m: Member)
    requires Unshared(ms) && Owned(ms, ws, ss) && Sourced(ms) && m in ms
    ensures Unshared(ms - {m}) && Owned(ms - {m}, ws - {m}, ss) && Sourced(ms - {m})
    ensures |ws - {m}| == |ws| - (if m.s != null then 1 else 0)
  {
    if m.s == null {
      assert ws - {m} == ws;
    }
  }

  lemma SourceCounts(ms: set<Member>, m: Member)
    requires Sourced(ms) && m in ms && m.s != null
    ensures m.s.probation == 0 && Counted(m.s.State(), m.s.counts)
    ensures m.s.counts.ep <= m.s.counts.e && m.s.counts.rp <= m.s.counts.r
    ensures Sourced(ms - {m})
  {
  }

  lemma OwnersOneSource(ms: set<Member>, ws: set<Member>, ss: set<Source>, m: Member)
    requires Unshared(ms - {m}) && Owned(ms - {m}, ws, ss) && m in ms && m.s != null && m.s !in ss
    ensures Unshared(ms) && Owned(ms, ws + {m}, ss + {m.s})
  {
  }

  lemma SourcedOneMore(ms: set<Member>, m: Member)
    requires Sourced(ms) && m.s == null
    ensures Sourced(ms + {m})
  {
  }

  lemma OwnersOneMore(ms: set<Member>, ws: set<Member>, ss: set<Source>, m: Member)
    requires Unshared(ms) && Owned(ms, ws, ss) && m.s == null && m !in ms
    ensures Unshared(ms + {m}) && Owned(ms + {m}, ws, ss)
  {
  }

  lemma SourcedLess(ms: set<Member>, m: Member)
    requires Sourced(ms)
    ensures Sourced(ms - {m})
  {
  }

  lemma SourcedOne(ms: set<Member>, m: Member)
    requires Sourced(ms - {m}) && m.s != null && m.s.probation == 0 && Counted(m.s.State(), m.s.counts)
    ensures Sourced(ms)
  {
  }

  /** The state of a source after an arrival: the sequence rules, then the jitter once a clock rate is known. */
  function Arrived(s: Src, seqno: u16, ts: u32, srate: u32, now: nat): Src {
    var u := Updated(s, seqno).0;
    if srate == 0 then u else Jittered(u, ts, Ticks(now, srate))
  }

  /** Wall-clock milliseconds in units of the RTP clock. */
  function Ticks(now: nat, srate: int): u32
    requires 0 <= srate
  {
    Wrap32((now * srate) % TWO64 / 1000)
  }

  ghost function NewCounts(s: Src, seqno: u16, c: Option<Counts>): Counts {
    if c.Some? then CountsAfter(s, c.value, seqno) else Counts(1, 1, 0, 0)
  }

  lemma ArrivedCounted(s: Src, seqno: u16, c: Option<Counts>)
    requires s.probation == 0
    requires c.Some? ==> Counted(s, c.value)
    requires c.None? ==> s == Inited(NEW_SOURCE, seqno)
    ensures var u := Updated(s, seqno).0; u.probation == 0 && Counted(u, NewCounts(s, seqno, c))
  {
    if c.Some? {
      CountsKept(s, c.value, seqno);
    } else {
      InitedTwice(NEW_SOURCE, seqno);
      FirstCounted(NEW_SOURCE, seqno);
    }
  }

  lemma InitedTwice(s: Src, seqno: u16)
    ensures Inited(Inited(s, seqno), seqno) == Inited(s, seqno)
  {
  }

  lemma InitedInUse(seqno: u16)
    ensures Inited(NEW_SOURCE, seqno).probation == 0
  {
  }

  lemma JitterKeepsCounts(s: Src, ts: u32, arrival: u32, c: Counts)
    requires s.probation == 0 && Counted(s, c)
    ensures var t := Jittered(s, ts, arrival); t.probation == 0 && Counted(t, c)
  {
    SameExpected(s, Jittered(s, ts, arrival));
  }

  const NEW_SOURCE: Src := Src(0, 0, 0, 0, 0, 0, 0, 0, 0, 0)

  // ---------------------------------------------------------------- report blocks

  /** The middle 32 bits of the NTP time of the last Sender Report. */
  function Lsr(hi: u32, lo: u32): u32 {
    if hi == 0 then 0 else hi % TWO16 * TWO16 + lo / TWO16
  }

  /** The time since the last Sender Report, in units of 1/65536 seconds. */
  function Dlsr(srRecv: nat, now: nat): u32 {
    if srRecv == 0 then 0 else Wrap32((65536 * ((now - srRecv) % TWO64)) % TWO64 / 1000)
  }

  /** The report block made from a source; `cycles` counts whole multiples of 65536, so or-ing in `maxSeq` adds it. */
  function Block(src: u32, s: Src, lsr: u32, dlsr: u32): Rr {
    Rr(src, Low8(FractionQuotient(s)), CalcLost(s), Wrap32(s.cycles + s.maxSeq), s.jitter / 16, lsr, dlsr)
  }

  /** What a member contributes to a report now. */
  ghost function Share(m: Member, now: nat): Option<Rr>
    reads m`s, m.s
  {
    if m.s == null then None else Some(BlockOf(m, now))
  }

  ghost function Shares(l: seq<Member>, now: nat): (r: seq<Option<Rr>>)
    reads l`s, set i | 0 <= i < |l| && l[i].s != null :: l[i].s
    ensures |r| == |l|
  {
    if l == [] then [] else Shares(l[..|l| - 1], now) + [Share(l[|l| - 1], now)]
  }

  lemma {:induction false} ShareAt(l: seq<Member>, now: nat, k: nat)
    requires k < |l|
    ensures Shares(l, now)[k] == Share(l[k], now)
  {
    if k < |l| - 1 { ShareAt(l[..|l| - 1], now, k); }
  }

  function EncShare(o: Option<Rr>): seq<u8> { match o case None => [] case Some(x) => EncRr(x) }

  lemma OneMoreBlock(l: seq<Rr>, o: Option<Rr>)
    ensures EncRrs(l + (match o case None => [] case Some(x) => [x])) == EncRrs(l) + EncShare(o)
  {
    match o
    case None =>
      assert l + [] == l && EncRrs(l) + [] == EncRrs(l);
    case Some(x) =>
      assert (l + [x])[..|l|] == l;
  }

  /** There are as many blocks as members with a source. */
  lemma AsManyAsSenders(order: seq<Member>, now: nat, ms: set<Member>, ws: set<Member>, ss: set<Source>)
    requires NoRepeats(order) && ms == (set m | m in order) && Owned(ms, ws, ss)
    ensures |Somes(Shares(order, now))| == |ws|
  {
    hide Somes, Shares;
    var os := Shares(order, now);
    SharesLength(order, now);
    forall i | 0 <= i < |order| ensures order[i] in ws <==> os[i].Some? {
      ShareAt(order, now, i);
      assert order[i] in ms;
    }
    SomesCount(order, os, ws);
    assert ws == set m | m in order && m in ws;
  }

  lemma FewSenders(log: seq<(u32, Member)>, ms: set<Member>, ws: set<Member>, ss: set<Source>)
    requires Filed(log, ms) && Owned(ms, ws, ss)
    ensures |ws| <= |ms| <= |log|
  {
    FewerMembers(Values(log));
    assert ms == ws + (ms - ws);
  }

  lemma SharesLength(l: seq<Member>, now: nat)
    ensures |Shares(l, now)| == |l|
  {
  }

  /** The RTP clock now, from its last reference point; zero before anything was sent. */
  function RtpTime(jfsRef: nat, tsRef: u32, srate: u32, now: nat): u32 {
    if jfsRef == 0 then 0 else
      var dur: int := Wrap32(now - jfsRef);
      var ticks: int := Wrap32(dur * srate) / 1000;
      Wrap32(tsRef + ticks)
  }

  lemma NoSomes(os: seq<Option<Rr>>)
    requires os == []
    ensures Somes(os) == []
  {
  }

  /** The values that are there. */
  function Somes(os: seq<Option<Rr>>): seq<Rr> {
    if os == [] then []
    else Somes(os[..|os| - 1]) + (match os[|os| - 1] case None => [] case Some(x) => [x])
  }

  lemma SomesNext(os: seq<Option<Rr>>, k: nat)
    requires k < |os|
    ensures Somes(os[..k + 1]) == Somes(os[..k]) + (match os[k] case None => [] case Some(x) => [x])
  {
    assert os[..k + 1][..k] == os[..k];
  }

  lemma OneMoreIn(l: seq<Member>, x: Member, with: set<Member>)
    requires x !in l
    ensures |set m | m in l + [x] && m in with| == |set m | m in l && m in with| + if x in with then 1 else 0
  {
    var front := set m | m in l && m in with;
    assert (set m | m in l + [x] && m in with) == front + if x in with then {x} else {};
  }

  lemma {:induction false} SomesCount(l: seq<Member>, os: seq<Option<Rr>>, with: set<Member>)
    requires NoRepeats(l) && |os| == |l| && forall i :: 0 <= i < |l| ==> (l[i] in with <==> os[i].Some?)
    ensures |Somes(os)| == |set m | m in l && m in with|
  {
    if l == [] {
      assert (set m | m in l && m in with) == {};
    } else {
      var n := |l| - 1;
      assert forall i :: 0 <= i < n ==> l[..n][i] == l[i] && os[..n][i] == os[i];
      SomesCount(l[..n], os[..n], with);
      assert l[n] !in l[..n];
      assert l == l[..n] + [l[n]];
      OneMoreIn(l[..n], l[n], with);
    }
  }

  ghost function BlockOf(m: Member, now: nat): Rr
    requires m.s != null
    reads m`s, m.s
  {
    Block(m.src, m.s.State(), Lsr(m.s.lastSrHi, m.s.lastSrLo), Dlsr(m.s.srRecv, now))
  }

  lemma LostSame(s: Src)
    ensures CalcLost(Reported(s)) == CalcLost(s)
    ensures var r := Reported(s); r.cycles == s.cycles && r.maxSeq == s.maxSeq && r.jitter == s.jitter && r.probation == s.probation
  {
  }

  lemma LostFits(s: Src)
    ensures -0x80_0000 <= CalcLost(s) < 0x80_0000
  {
  }

  lemma ReportedCounts(s: Src, c: Counts)
    requires Counted(s, c)
    ensures Counted(Reported(s), CountsReported(c))
  {
    SameExpected(s, Reported(s));
  }

  /** In a member's state, the fraction in its block is the true one. */
  lemma BlockIsTrue(src: u32, s: Src, c: Counts, lsr: u32, dlsr: u32)
    requires Counted(s, c) && IntervalFits(c)
    requires c.ep <= c.e && c.rp <= c.r
    ensures Block(src, s, lsr, dlsr).fraction == TrueFraction(c)
  {
    FractionFitsByte(s, c);
  }

  // ---------------------------------------------------------------- goodbyes

  /** The entries before the last one are filed as well. */
  lemma FiledFront(log: seq<(u32, Member)>, ms: set<Member>)
    requires Filed(log, ms) && log != []
    ensures var n := |log| - 1;
            && Filed(log[..n], ms - {log[n].1}) && log[n].1 in ms && log[n].0 == log[n].1.src
            && Values(log) == Values(log[..n]) + [log[n].1]
            && forall e :: e in log[..n] ==> e.1.src != log[n].1.src
  {
    var n := |log| - 1;
    var rest, m := log[..n], log[n].1;
    assert Values(log) == Values(rest) + [m];
    assert forall i :: 0 <= i < n ==> rest[i] == log[i] && Values(rest)[i] == log[i].1;
    assert (set x | x in Values(log)) == (set x | x in Values(rest)) + {m};
  }

  /** Without the member filed under an SSRC. */
  lemma {:induction false} FiledOneLess(log: seq<(u32, Member)>, ms: set<Member>, m: Member)
    requires Filed(log, ms) && First(Values(log), BySrc(m.src)) == Some(m)
    ensures var less := DropFirstLogged(log, BySrc(m.src));
            Filed(less, ms - {m}) && |less| == |log| - 1 && m in ms
  {
    hide Filed, Values, First;
    SomethingFirst(log, m.src);
    var n := |log| - 1;
    var rest, e := log[..n], log[n];
    var ah := BySrc(m.src);
    FiledFront(log, ms);
    FirstAppend(Values(rest), e.1, ah);
    if First(Values(rest), ah).Some? {
      FiledOneLess(rest, ms - {e.1}, m);
      var less := DropFirstLogged(rest, ah);
      DropFirstKeys(rest, ah);
      forall i | 0 <= i < |less| ensures less[i].1.src != e.1.src {
        assert less[i] in rest;
      }
      StillFiled(less, ms - {e.1} - {m}, e);
      FirstMeans(Values(rest), ah);
      SameSet(ms, e.1, m);
    }
  }

  lemma SomethingFirst(log: seq<(u32, Member)>, src: u32)
    requires First(Values(log), BySrc(src)).Some?
    ensures log != []
  {
  }

  lemma SameSet(ms: set<Member>, x: Member, m: Member)
    requires x in ms && m in ms - {x}
    ensures ms - {x} - {m} + {x} == ms - {m}
  {
  }

  lemma StillFiled(log: seq<(u32, Member)>, ms: set<Member>, e: (u32, Member))
    requires Filed(log, ms) && e.0 == e.1.src && forall i :: 0 <= i < |log| ==> log[i].1.src != e.1.src
    ensures Filed(log + [e], ms + {e.1})
  {
    assert Values(log + [e]) == Values(log) + [e.1];
  }

  /** The first packet initialises the sequence number; probation is not used. */
  method Started(seqno: u16) returns (s: Source)
    ensures fresh(s) && s.State() == Inited(NEW_SOURCE, seqno)
  {
    s := new Source();
    s.InitSeq(seqno);
  }

  /** A member gets a source of its own. */
  method Attach(m: Member, s: Source, ghost ms: set<Member>, ghost ws: set<Member>, ghost ss: set<Source>)
    requires Sourced(ms) && Owned(ms, ws, ss) && Unshared(ms) && m in ms && m.s == null && s !in ss
    modifies m`s
    ensures Sourced(ms - {m}) && Owned(ms, ws + {m}, ss + {s}) && Unshared(ms) && m.s == s
  {
    hide Inited, Counted, Owned, Unshared, Sourced;
    SourcedLess(ms, m);
    NoSourceYet(ms, ws, ss, m);
    OwnersLess(ms, ws, ss, m);
    m.s := s;
    OwnersOneSource(ms, ws, ss, m);
  }

  class RtcpSess {
    const members: Hash<Member>
    var memberc: nat
    var senderc: nat
    var srateTx: u32
    var srateRx: u32
    const ssrc: u32
    var psent: u32
    var osent: u32
    var jfsRef: nat
    var tsRef: u32
    var tsSynced: bool
    /** The members, those of them with a source, and the sources. */
    ghost var ms: set<Member>
    ghost var ws: set<Member>
    ghost var ss: set<Source>

    /** The counters agree with the table, and the table stays within its limit. */
    ghost predicate Shape()
      reads this, members, ms`s
    {
      && Tabled(members)
      && Filed(members.log, ms)
      && Owned(ms, ws, ss) && Unshared(ms)
      && memberc == |members.log| <= MAX_MEMBERS
      && senderc == |ws|
    }

    ghost predicate Valid()
      reads this, members, ms`s, ss
    {
      Shape() && Sourced(ms)
    }

    constructor (ssrc: u32)
      ensures Valid() && fresh(members) && members.log == [] && memberc == 0 && senderc == 0 && ms == {} && ss == {}
    {
      members := new Hash<Member>(MAX_MEMBERS);
      this.ssrc := ssrc;
      memberc, senderc, srateTx, srateRx := 0, 0, 0, 0;
      psent, osent, jfsRef, tsRef, tsSynced := 0, 0, 0, 0, false;
      ms, ws, ss := {}, {}, {};
    }

    /** member_find. */
    method Find(src: u32) returns (m: Member?)
      requires Valid()
      ensures m == null <==> First(Values(members.log), BySrc(src)).None?
      ensures m != null ==> m in ms && m.src == src && First(Values(members.log), BySrc(src)) == Some(m)
    {
      var r := members.Lookup(src, BySrc(src));
      FirstMeans(Values(members.log), BySrc(src));
      m := match r case None => null case Some(x) => x;
    }

    /** get_member: the member with an SSRC, added when it is new and the table is not full. */
    method GetMember(src: u32) returns (m: Member?)
      requires Valid()
      modifies this`memberc, this`ms, members
      ensures Valid()
      ensures m == null <==> First(old(Values(members.log)), BySrc(src)).None? && old(memberc) == MAX_MEMBERS
      ensures m != null ==> m in ms && m.src == src
      ensures m == null || m in old(ms) ==> members.log == old(members.log) && ms == old(ms)
      ensures m != null && m !in old(ms) ==>
        fresh(m) && m.s == null && members.log == old(members.log) + [(src, m)] && ms == old(ms) + {m}
    {
      hide Filed, Sourced, Unshared, Owned, InBucket, Values, First, Tabled;
      m := Find(src);
      if m != null {
        return;
      }
      if memberc >= MAX_MEMBERS {
        return;
      }
      m := AddMember(src);
    }

    method Enter(src: u32, m: Member)
      requires Tabled(members)
      modifies members
      ensures Tabled(members) && members.log == old(members.log) + [(src, m)]
    {
      members.Append(src, m);
    }

    /** member_add, for an SSRC that is not there. */
    method AddMember(src: u32) returns (m: Member)
      requires Valid() && First(Values(members.log), BySrc(src)).None? && memberc < MAX_MEMBERS
      modifies this`memberc, this`ms, members
      ensures Valid() && fresh(m) && m.s == null && m.src == src
      ensures members.log == old(members.log) + [(src, m)] && ms == old(ms) + {m}
    {
      hide Filed, Sourced, Unshared, Owned, InBucket, Values, First, Tabled;
      ghost var all := ms;
      m := new Member(src);
      FiledOneMore(members.log, all, m);
      memberc := memberc + 1;
      ms := ms + {m};
      Enter(src, m);
      SourcedOneMore(all, m);
      OwnersOneMore(all, ws, ss, m);
    }

    /** The part of rtcp_sess_rx_rtp that gives a member its source. */
    method AddSource(m: Member, seqno: u16)
      requires Valid() && m in ms && m.s == null
      modifies this`senderc, this`ws, this`ss, m`s
      ensures Shape() && Sourced(ms - {m}) && m.s != null && fresh(m.s) && ss == old(ss) + {m.s}
      ensures m.s.State() == Inited(NEW_SOURCE, seqno) && senderc == old(senderc) + 1
    {
      hide Inited, InBucket, Counted, Filed, Unshared, Owned, Sourced, Values, Tabled;
      NoSourceYet(ms, ws, ss, m);
      var s := Started(seqno);
      senderc := senderc + 1;
      ghost var w, o := ws, ss;
      ws := ws + {m};
      ss := ss + {s};
      Attach(m, s, ms, w, o);
    }

    /** The rest of rtcp_sess_rx_rtp, on the member's source. */
    method Arrive(m: Member, seqno: u16, ts: u32, payload: nat, now: nat, ghost c: Option<Counts>)
      requires Shape() && Sourced(ms - {m}) && m in ms && m.s != null
      requires c.Some? ==> m.s.probation == 0 && Counted(m.s.State(), c.value)
      requires c.None? ==> m.s.State() == Inited(NEW_SOURCE, seqno)
      modifies m.s
      ensures Valid() && m.s.State() == Arrived(old(m.s.State()), seqno, ts, srateRx, now)
      ensures m.s.counts == if c.Some? then CountsAfter(old(m.s.State()), c.value, seqno) else Counts(1, 1, 0, 0)
    {
      hide Filed, Owned, Unshared, InBucket, Counted, Updated, Jittered, Inited, CountsAfter, Tabled, Values;
      ghost var s0 := m.s.State();
      InitedInUse(seqno);
      ArrivedCounted(s0, seqno, c);
      var _ := m.s.UpdateSeq(seqno);
      if srateRx != 0 {
        m.s.CalcJitter(ts, Ticks(now, srateRx));
        JitterKeepsCounts(Updated(s0, seqno).0, ts, Ticks(now, srateRx), NewCounts(s0, seqno, c));
      }
      m.s.rxBytes := m.s.rxBytes + payload;
      m.s.counts := NewCounts(s0, seqno, c);
      SourcedOne(ms, m);
    }

    /** The member's source, new if it has none yet; returns the counts so far. */
    method SourceFor(m: Member, seqno: u16) returns (ghost c: Option<Counts>)
      requires Valid() && m in ms
      modifies this`senderc, this`ws, this`ss, m`s
      ensures Shape() && Sourced(ms - {m}) && m.s != null && m.s in ss
      ensures old(m.s) != null ==>
        && m.s == old(m.s) && m.s.State() == old(m.s.State()) && ss == old(ss) && senderc == old(senderc)
        && c == Some(m.s.counts) && m.s.probation == 0 && Counted(m.s.State(), m.s.counts)
      ensures old(m.s) == null ==>
        && c.None? && m.s.State() == Inited(NEW_SOURCE, seqno)
        && fresh(m.s) && ss == old(ss) + {m.s} && senderc == old(senderc) + 1
    {
      hide Filed, Unshared, InBucket, Counted, Updated, Inited, Tabled, Sourced, Owned, Values;
      NoSourceYet(ms, ws, ss, m);
      if m.s != null {
        SourceCounts(ms, m);
        c := Some(m.s.counts);
      } else {
        AddSource(m, seqno);
        c := None;
      }
    }

    /** rtcp_sess_rx_rtp; None when the table is full and the source unknown. */
    method ReceiveRtp(seqno: u16, ts: u32, src: u32, payload: nat, now: nat) returns (ghost m: Member?)
      requires Valid()
      modifies this`memberc, this`senderc, this`ms, this`ws, this`ss, members, ms, ss
      ensures Valid() && fresh(ms - old(ms)) && fresh(ss - old(ss))
      ensures m == null <==> First(old(Values(members.log)), BySrc(src)).None? && old(memberc) == MAX_MEMBERS
      ensures m == null ==> members.log == old(members.log) && senderc == old(senderc)
      ensures m != null ==> m in ms && m.src == src && m.s != null
      ensures m != null && m in old(ms) && old(m.s) != null ==>
        && m.s.State() == Arrived(old(m.s.State()), seqno, ts, srateRx, now)
        && m.s.counts == CountsAfter(old(m.s.State()), old(m.s.counts), seqno)
        && senderc == old(senderc)
      ensures m != null && (m !in old(ms) || old(m.s) == null) ==>
        && m.s.State() == Arrived(Inited(NEW_SOURCE, seqno), seqno, ts, srateRx, now)
        && m.s.counts == Counts(1, 1, 0, 0) && senderc == old(senderc) + 1
    {
      hide Filed, Unshared, InBucket, Counted, Updated, Jittered, Inited, Tabled, Sourced, Owned;
      var mbr := GetMember(src);
      m := mbr;
      if mbr == null {
        return;
      }
      ghost var c := SourceFor(mbr, seqno);
      Arrive(mbr, seqno, ts, payload, now, c);
    }

    // -------------------------------------------------------------- incoming RTCP

    /** handle_incoming_bye: the members named are gone, and with each its source. */
    method ReceiveBye(srcv: seq<u32>)
      requires Valid()
      modifies this`memberc, this`senderc, this`ms, this`ws, members
      ensures Valid() && ms == set m | m in old(ms) && m.src !in srcv
    {
      hide Filed, Unshared, Owned, Sourced, InBucket, Values, First, DropFirstLogged, Tabled;
      ghost var ms0 := ms;
      for i := 0 to |srcv|
        invariant Valid() && ms == set m | m in ms0 && m.src !in srcv[..i]
      {
        assert srcv[..i + 1] == srcv[..i] + [srcv[i]];
        ghost var before := ms;
        Remove(srcv[i]);
        assert forall m :: m in ms <==> m in before && m.src != srcv[i];
      }
      assert srcv[..|srcv|] == srcv;
    }

    /** One round of the loop. */
    method Remove(src: u32)
      requires Valid()
      modifies this`memberc, this`senderc, this`ms, this`ws, members
      ensures Valid() && ms == set m | m in old(ms) && m.src != src
    {
      hide Filed, Unshared, Owned, Sourced, InBucket, Values, First, DropFirstLogged, Tabled;
      var mbr := Find(src);
      Unfiled(members.log, ms, src, mbr);
      if mbr != null {
        Drop(mbr);
      }
    }

    method Drop(m: Member)
      requires Valid() && First(Values(members.log), BySrc(m.src)) == Some(m)
      modifies this`memberc, this`senderc, this`ms, this`ws, members
      ensures Valid() && ms == old(ms) - {m}
    {
      hide Filed, Unshared, Owned, Sourced, InBucket, Values, First, DropFirstLogged, Tabled, Counted, BySrc;
      ghost var all, with := ms, ws;
      FiledOneLess(members.log, all, m);
      OneLess(all, with, ss, m);
      if m.s != null {
        senderc := senderc - 1;
      }
      memberc := memberc - 1;
      ws := ws - {m};
      ms := ms - {m};
      Leave(m.src, all);
    }

    /** The member destructor unlinks it from the table. */
    method Leave(src: u32, ghost ms: set<Member>)
      requires Tabled(members) && Filed(members.log, ms)
      modifies members
      ensures Tabled(members) && members.log == DropFirstLogged(old(members.log), BySrc(src))
    {
      hide InBucket, DropFirstLogged;
      members.UnlinkFirst(src, BySrc(src));
    }

    /** handle_rr_block, for each block of a report; the round-trip time depends on the clock. */
    method NoteBlocks(m: Member, rrv: seq<Rr>)
      modifies m`cumLost, m`jit, m`rtt
      ensures rrv != [] ==> m.cumLost == rrv[|rrv| - 1].lost
      ensures rrv != [] && srateTx != 0 ==> m.jit == JitterUs(rrv[|rrv| - 1].jitter, srateTx)
      ensures rrv == [] || srateTx == 0 ==> m.jit == old(m.jit)
      ensures rrv == [] ==> m.cumLost == old(m.cumLost) && m.rtt == old(m.rtt)
    {
      for i := 0 to |rrv|
        invariant i > 0 ==> m.cumLost == rrv[i - 1].lost
        invariant i > 0 && srateTx != 0 ==> m.jit == JitterUs(rrv[i - 1].jitter, srateTx)
        invariant i == 0 || srateTx == 0 ==> m.jit == old(m.jit)
        invariant i == 0 ==> m.cumLost == old(m.cumLost) && m.rtt == old(m.rtt)
      {
        m.cumLost := rrv[i].lost;
        if srateTx != 0 {
          m.jit := JitterUs(rrv[i].jitter, srateTx);
        }
        if rrv[i].lsr != 0 && rrv[i].dlsr != 0 {
          m.rtt := *;
        }
      }
    }

    /** handle_incoming_sr and handle_incoming_rr. */
    method ReceiveReport(p: Packet, now: nat) returns (ghost m: Member?)
      requires Valid() && !p.Bye?
      modifies this`memberc, this`ms, members, ms, ss
      ensures Valid() && fresh(ms - old(ms)) && senderc == old(senderc) && ws == old(ws)
      ensures m == null <==> First(old(Values(members.log)), BySrc(p.ssrc)).None? && old(memberc) == MAX_MEMBERS
      ensures m != null ==> m in ms && m.src == p.ssrc
      ensures m != null && p.rrv != [] ==> m.cumLost == p.rrv[|p.rrv| - 1].lost
      ensures m != null && p.SenderReport? && m.s != null ==>
        m.s.srRecv == now && m.s.lastSrHi == p.ntpSec && m.s.lastSrLo == p.ntpFrac
    {
      hide Filed, Unshared, Owned, InBucket, Values, First, Tabled, Counted, Sourced;
      var mbr := GetMember(p.ssrc);
      m := mbr;
      if mbr == null {
        return;
      }
      TakeReport(mbr, p, now);
    }

    method TakeReport(m: Member, p: Packet, now: nat)
      requires Valid() && !p.Bye? && m in ms
      modifies m`cumLost, m`jit, m`rtt, ss
      ensures Valid()
      ensures p.rrv != [] ==> m.cumLost == p.rrv[|p.rrv| - 1].lost
      ensures p.SenderReport? && m.s != null ==>
        m.s.srRecv == now && m.s.lastSrHi == p.ntpSec && m.s.lastSrLo == p.ntpFrac
    {
      hide Filed, Unshared, Owned, InBucket, Values, First, Tabled, Counted, Sourced;
      NoSourceYet(ms, ws, ss, m);
      if p.SenderReport? && m.s != null {
        NoteSender(m, p, now);
      }
      NoteBlocks(m, p.rrv);
    }

    method NoteSender(m: Member, p: Packet, now: nat)
      requires Valid() && p.SenderReport? && m in ms && m.s != null
      modifies m.s
      ensures Valid() && m.s.srRecv == now && m.s.lastSrHi == p.ntpSec && m.s.lastSrLo == p.ntpFrac
    {
      hide Filed, Unshared, Owned, InBucket, Values, First, Tabled, Counted;
      m.s.NoteSr(now, p.ntpSec, p.ntpFrac, p.rtpTs, p.psent, p.osent);
    }

    /** rtcp_handler. */
    method ReceiveRtcp(p: Packet, now: nat)
      requires Valid()
      modifies this`memberc, this`senderc, this`ms, this`ws, members, ms, ss
      ensures Valid() && fresh(ms - old(ms)) && ss == old(ss)
    {
      hide Filed, Unshared, Owned, Sourced, InBucket, Values, First, Tabled;
      if p.Bye? {
        ReceiveBye(p.srcv);
      } else {
        var _ := ReceiveReport(p, now);
      }
    }

    // -------------------------------------------------------------- outgoing reports

    /** rtcp_sess_tx_rtp. */
    method TransmitRtp(ts: u32, payload: nat, now: nat)
      requires Valid()
      modifies this`osent, this`psent, this`jfsRef, this`tsRef, this`tsSynced
      ensures Valid() && osent == Wrap32(old(osent) + Wrap32(payload)) && psent == Wrap32(old(psent) + 1) && tsSynced
      ensures if old(tsSynced) then jfsRef == old(jfsRef) && tsRef == old(tsRef) else jfsRef == now && tsRef == ts
    {
      hide Filed, Unshared, Owned, Sourced, InBucket, Values, Tabled;
      osent := Wrap32(osent + Wrap32(payload));
      psent := Wrap32(psent + 1);
      if !tsSynced {
        jfsRef := now;
        tsRef := ts;
        tsSynced := true;
      }
    }

    /** sender_apply_handler, over the whole table in the order of hash_apply. */
    method WriteBlocks(mb: Mbuf, order: seq<Member>, now: nat)
      requires Valid() && mb.Valid() && NoRepeats(order) && ms == set m | m in order
      modifies ss, mb
      ensures Valid() && mb.Valid()
      ensures Wrote(old(mb.buf), old(mb.pos), old(mb.end), mb.buf, mb.pos, mb.end,
                    EncRrs(Somes(old(Shares(order, now)))))
    {
      hide Filed, InBucket, Values, First, Tabled, Counted, Wrote, EncRrs, Unshared, Owned, Sourced, Share, Shares, Somes;
      ghost var shares := Shares(order, now);
      forall j | 0 <= j < |order| ensures shares[j] == Share(order[j], now) {
        ShareAt(order, now, j);
      }
      NoWords();
      WroteNothing(mb.buf, mb.pos, mb.end);
      assert Somes(shares[..0]) == [] by { NoSomes(shares[..0]); }
      for i := 0 to |order|
        invariant Valid() && mb.Valid()
        invariant forall j :: i <= j < |order| ==> Share(order[j], now) == shares[j]
        invariant Wrote(old(mb.buf), old(mb.pos), old(mb.end), mb.buf, mb.pos, mb.end, EncRrs(Somes(shares[..i])))
      {
        SomesNext(shares, i);
        ghost var b1, p1, e1 := mb.buf, mb.pos, mb.end;
        WriteShare(mb, order, i, now);
        OneMoreBlock(Somes(shares[..i]), shares[i]);
        WroteBoth(old(mb.buf), old(mb.pos), old(mb.end), b1, p1, e1, mb.buf, mb.pos, mb.end,
                  EncRrs(Somes(shares[..i])), EncShare(shares[i]));
      }
      assert shares[..|order|] == shares;
    }

    /** sender_apply_handler: nothing for a member without a source. */
    method WriteShare(mb: Mbuf, order: seq<Member>, i: nat, now: nat)
      requires Valid() && mb.Valid() && NoRepeats(order) && ms == (set m | m in order) && i < |order|
      modifies ss, mb
      ensures Valid() && mb.Valid()
      ensures Wrote(old(mb.buf), old(mb.pos), old(mb.end), mb.buf, mb.pos, mb.end, EncShare(old(Share(order[i], now))))
      ensures forall j :: i < j < |order| ==> Share(order[j], now) == old(Share(order[j], now))
    {
      hide Filed, InBucket, Values, First, Tabled, Counted, Wrote, EncRr, Owned, Sourced, BlockOf;
      var m := order[i];
      NoSourceYet(ms, ws, ss, m);
      if m.s != null {
        WriteBlock(mb, m, now);
      } else {
        NoWords();
        WroteNothing(mb.buf, mb.pos, mb.end);
      }
    }

    method WriteBlock(mb: Mbuf, m: Member, now: nat)
      requires Valid() && mb.Valid() && m in ms && m.s != null
      modifies m.s, mb
      ensures Valid() && mb.Valid()
      ensures Wrote(old(mb.buf), old(mb.pos), old(mb.end), mb.buf, mb.pos, mb.end, EncRr(old(BlockOf(m, now))))
    {
      hide Filed, Owned, InBucket, Values, First, Tabled, Counted, Wrote, EncRr, CalcLost, FractionQuotient, Reported;
      var s := m.s;
      SourceCounts(ms, m);
      var fraction := s.CalcFractionLost();
      var lost := CalcLost(s.State());
      LostSame(old(s.State()));
      LostFits(s.State());
      EncodeRr(mb, Rr(m.src, fraction, lost, Wrap32(s.cycles + s.maxSeq), s.jitter / 16,
                      Lsr(s.lastSrHi, s.lastSrLo), Dlsr(s.srRecv, now)));
      ReportedCounts(old(s.State()), s.counts);
      s.counts := CountsReported(s.counts);
      SourcedOne(ms, m);
    }

    /** The sender fields of a report; the RTP time is projected from the last packet sent. */
    ghost function ReportOf(ntpHi: u32, ntpLo: u32, now: nat, blocks: seq<Rr>): Packet
      reads this
    {
      SenderReport(ssrc, ntpHi, ntpLo, RtpTime(jfsRef, tsRef, srateTx, now), psent, osent, blocks)
    }

    /**
     * mk_sr: the count in the header is the sender counter, the blocks come from the table. The two agree, so
     * the packet is the encoding of a Sender Report with these blocks.
     */
    method MakeSr(mb: Mbuf, ntpHi: u32, ntpLo: u32, now: nat) returns (ghost blocks: seq<Rr>)
      requires Valid() && mb.Valid()
      modifies this`tsSynced, ss, mb
      ensures Valid() && mb.Valid() && mb.pos == mb.end && !tsSynced
      ensures blocks == Somes(old(Shares(Flatten(members.bucket), now))) && |blocks| == senderc <= MAX_MEMBERS
      ensures Wrote(old(mb.buf), old(mb.pos), Min(old(mb.end), old(mb.pos) + RTCP_HDR_SIZE), mb.buf, mb.pos, mb.end,
                    EncPacket(ReportOf(ntpHi, ntpLo, now, blocks)))
    {
      hide Filed, InBucket, Values, First, Tabled, Counted, Wrote, EncRrs, Unshared, Owned, Sourced, Share, Shares, Somes,
        Words32, Framed, Flatten;
      var order := Order();
      blocks := Somes(Shares(order, now));
      AsManyAsSenders(order, now, ms, ws, ss);
      FewSenders(members.log, ms, ws, ss);
      tsSynced := false;
      var start := mb.pos;
      ghost var b0 := mb.buf;
      SkipHeader(mb);
      ghost var e0 := mb.end;
      var head := [ssrc, ntpHi, ntpLo, RtpTime(jfsRef, tsRef, srateTx, now), psent, osent];
      WriteWords(mb, head);
      ghost var b1, p1, e1 := mb.buf, mb.pos, mb.end;
      assert Shares(order, now) == old(Shares(order, now));
      WriteBlocks(mb, order, now);
      WroteBoth(b0, start + RTCP_HDR_SIZE, e0, b1, p1, e1, mb.buf, mb.pos, mb.end, Words32(head), EncRrs(blocks));
      Finish(mb, start, senderc, RTCP_SR, b0, e0, Words32(head) + EncRrs(blocks));
    }

    /** In every state a session can be in, the fraction a member's block reports is the true one. */
    lemma FractionsAreTrue(m: Member, now: nat)
      requires Valid() && m in ms && m.s != null && IntervalFits(m.s.counts)
      ensures BlockOf(m, now).fraction == TrueFraction(m.s.counts) <= 255
    {
      hide Counted, FractionQuotient;
      SourceCounts(ms, m);
      BlockIsTrue(m.src, m.s.State(), m.s.counts, Lsr(m.s.lastSrHi, m.s.lastSrLo), Dlsr(m.s.srRecv, now));
    }

    /** The members in the order in which hash_apply visits them. */
    method Order() returns (order: seq<Member>)
      requires Valid()
      ensures order == Flatten(members.bucket) && NoRepeats(order) && ms == set m | m in order
    {
      hide InBucket, Flatten, Filed;
      order := members.InOrder();
      FiledValues(members.log, ms);
      SameMultisetNoRepeats(Values(members.log), order);
      SameMembers(Values(members.log), order);
    }

    /** A report as it is sent, read back by its receiver: the same sender fields and the same blocks. */
    method Report(ntpHi: u32, ntpLo: u32, now: nat) returns (r: Decoded, ghost blocks: seq<Rr>)
      requires Valid()
      modifies this`tsSynced, ss
      ensures Valid()
      ensures blocks == Somes(old(Shares(Flatten(members.bucket), now))) && |blocks| == senderc
      ensures r.Got? && r.p == ReportOf(ntpHi, ntpLo, now, blocks)
    {
      hide Filed, InBucket, Values, First, Tabled, Counted, EncPacket, Unshared, Owned, Sourced, Share, Shares, Somes,
        Flatten, DecPacket;
      ghost var shares := Shares(Flatten(members.bucket), now);
      var mb := new Mbuf();
      mb.pos := RTCP_HEADROOM;
      assert shares == Shares(Flatten(members.bucket), now);
      blocks := MakeSr(mb, ntpHi, ntpLo, now);
      ghost var p := ReportOf(ntpHi, ntpLo, now, blocks);
      PacketNotEmpty(p);
      mb.pos := RTCP_HEADROOM;
      PacketRoundTrip(mb.buf, RTCP_HEADROOM, mb.end, p);
      r := Decode(mb);
    }

    /** Any run of packets received and sent and of reports made. */
    method Run(events: seq<Event>)
      requires Valid()
      modifies this`memberc, this`senderc, this`ms, this`ws, this`ss, this`osent, this`psent, this`jfsRef, this`tsRef,
        this`tsSynced, members, ms, ss
      ensures Valid()
    {
      hide Filed, InBucket, Values, First, Tabled, Counted, Unshared, Owned, Sourced, Share, Shares, Somes, Flatten;
      for i := 0 to |events|
        invariant Valid() && fresh(ms - old(ms)) && fresh(ss - old(ss))
      {
        match events[i]
        case RxRtp(seqno, ts, src, payload, now) => var _ := ReceiveRtp(seqno, ts, src, payload, now);
        case RxRtcp(p, now) => ReceiveRtcp(p, now);
        case TxRtp(ts, payload, now) => TransmitRtp(ts, payload, now);
        case MakeReport(ntpHi, ntpLo, now) => var _, _ := Report(ntpHi, ntpLo, now);
      }
    }
  }

  /** A reported jitter in microseconds, with the product cut to 32 bits. */
  function JitterUs(jitter: u32, srate: int): u32
    requires srate > 0
  {
    Wrap32(Wrap32(1000000 * jitter) / srate)
  }

  /** Who stays when the member found under an SSRC leaves. */
  lemma Unfiled(log: seq<(u32, Member)>, ms: set<Member>, src: u32, found: Member?)
    requires Filed(log, ms)
    requires found == null ==> First(Values(log), BySrc(src)).None?
    requires found != null ==> found in ms && found.src == src
    ensures (set m | m in ms && m.src != src) == if found == null then ms else ms - {found}
  {
    FirstMeans(Values(log), BySrc(src));
    assert forall i :: 0 <= i < |log| ==> Values(log)[i] == log[i].1 && (BySrc(src)(log[i].1) <==> log[i].1.src == src);
  }

  lemma NotThere(log: seq<(u32, Member)>, src: u32)
    requires First(Values(log), BySrc(src)).None?
    ensures forall i :: 0 <= i < |log| ==> log[i].1.src != src
  {
    FirstMeans(Values(log), BySrc(src));
    forall i | 0 <= i < |log| ensures log[i].1.src != src {
      assert !BySrc(src)(Values(log)[i]);
    }
  }
}
