/** The BFCP client: a queue of requests, one of them in flight, retransmitted until answered. */
module BfcpClient {
  import opened Base

  const BFCP_T1: nat := 500
  const BFCP_TXC: nat := 4

  datatype Error = EINVAL | ETIMEDOUT | ESEND

  /** How a request ended: with the response, or with an error. */
  datatype Outcome = Answered | TimedOut | SendFailed

  /** A queued request; `id` numbers the requests accepted. */
  datatype Ctrans = Ctrans(id: nat, confid: u32, userid: u16, tid: u16)

  datatype Done = Done(id: nat, outcome: Outcome)

  datatype Event =
    | Issue(confid: u32, userid: u16, encodes: bool)
    | Timeout
    | Response(tid: u16, confid: u32, userid: u16)

  function ShiftLeft(x: nat, k: nat): nat { if k == 0 then x else 2 * ShiftLeft(x, k - 1) }

  /** The retransmission schedule: the delay after each of the first `n` sends, doubling from 500 ms. */
  function Schedule(n: nat): (ds: seq<nat>)
    ensures |ds| == n
  {
    if n == 0 then [] else Schedule(n - 1) + [ShiftLeft(BFCP_T1, n - 1)]
  }

  /** Section 8.3.1 of RFC 8855: 500 ms, then twice as long each time. */
  lemma ScheduleDoubles()
    ensures Schedule(BFCP_TXC) == [500, 1000, 2000, 4000]
  {
    assert Schedule(1) == [500];
    assert Schedule(2) == [500, 1000];
    assert Schedule(3) == [500, 1000, 2000];
  }

  // ---------------------------------------------------------------- transaction ids

  /** The transaction id of the k-th request issued. */
  function TidOf(k: nat): (t: u16)
    ensures t != 0
  {
    k % 0xffff + 1
  }

  /** Any 65535 consecutive requests have different ids. */
  lemma TidsDistinct(i: nat, j: nat)
    requires i < j < i + 0xffff
    ensures TidOf(i) != TidOf(j)
  {
    assert j == j / 0xffff * 0xffff + j % 0xffff && i == i / 0xffff * 0xffff + i % 0xffff;
  }

  /** And the 65535 after them repeat the same ids in the same order. */
  lemma TidsRepeat(i: nat)
    ensures TidOf(i + 0xffff) == TidOf(i)
  {
  }

  function NextTid(tid: u16): u16 { (tid + 1) % TWO16 }

  lemma TidAdvances(k: nat)
    ensures var n := NextTid(TidOf(k)); (if n == 0 then 1 else n) == TidOf(k + 1)
  {
  }

  // ---------------------------------------------------------------- the queue

  /**
   * What the history says: requests ended in the order in which they were accepted, each once; each was sent at
   * most four times, on schedule; one that timed out was sent four times, one that was answered at least once.
   */
  ghost predicate HistoryOk(done: seq<Done>, delays: seq<seq<nat>>) {
    && |done| <= |delays|
    && forall i :: 0 <= i < |done| ==>
         && done[i].id == i && |delays[i]| <= BFCP_TXC && delays[i] == Schedule(|delays[i]|)
         && (done[i].outcome == TimedOut ==> |delays[i]| == BFCP_TXC)
         && (done[i].outcome == Answered ==> |delays[i]| > 0)
  }

  /** The queue holds the requests that have not ended, in order; those behind its first `k` were never sent. */
  ghost predicate QueueOk(ctransl: seq<Ctrans>, done: seq<Done>, delays: seq<seq<nat>>, k: nat) {
    && |done| + |ctransl| == |delays|
    && (forall i :: 0 <= i < |ctransl| ==> ctransl[i].id == |done| + i && ctransl[i].tid != 0)
    && forall i :: |done| + k <= i < |delays| ==> delays[i] == []
  }

  /** A request accepted joins the end of the queue, not sent yet. */
  lemma Joined(ctransl: seq<Ctrans>, done: seq<Done>, delays: seq<seq<nat>>, ct: Ctrans)
    requires HistoryOk(done, delays) && QueueOk(ctransl, done, delays, 1) && ct.id == |delays| && ct.tid != 0
    ensures HistoryOk(done, delays + [[]]) && QueueOk(ctransl + [ct], done, delays + [[]], 1)
    ensures ctransl != [] ==> |done| < |delays|
  {
  }

  /** The only request of the queue has been sent once. */
  lemma FirstSent(ctransl: seq<Ctrans>, done: seq<Done>, delays: seq<seq<nat>>, ct: Ctrans)
    requires HistoryOk(done, delays) && QueueOk(ctransl, done, delays, 1) && ct.id == |delays| && ct.tid != 0
    requires ctransl == []
    ensures |done| == |delays|
    ensures var after := (delays + [[]])[|done| := [BFCP_T1]];
            HistoryOk(done, after) && QueueOk([ct], done, after, 1) && after[|done|] == Schedule(1)
  {
    assert Schedule(1) == [BFCP_T1];
  }

  class BfcpConn {
    var ctransl: seq<Ctrans>
    /** The retransmission timer: the delay it was started with, while it runs. */
    var tmr: Option<nat>
    var txc: nat
    var tid: u16
    /** Names the requests accepted; the original has the address of the transaction for that. */
    var accepted: nat
    /** Ids given out. */
    ghost var issued: nat
    /** Response handlers called, in order. */
    ghost var done: seq<Done>
    /** For each request accepted, the delays armed after its sends. */
    ghost var delays: seq<seq<nat>>

    /** The timer runs exactly when the queue is not empty, and then its first request is the one in flight. */
    ghost predicate Valid()
      reads this
    {
      && TidOk()
      && HistoryOk(done, delays) && QueueOk(ctransl, done, delays, 1) && accepted == |delays|
      && (tmr.Some? <==> ctransl != [])
      && (ctransl != [] ==>
            && 1 <= txc <= BFCP_TXC && delays[|done|] == Schedule(txc)
            && tmr == Some(ShiftLeft(BFCP_T1, txc - 1)))
    }

    ghost predicate TidOk()
      reads this
    {
      (if tid == 0 then 1 else tid) == TidOf(issued)
    }

    constructor ()
      ensures Valid() && ctransl == [] && done == [] && issued == 0
    {
      ctransl, tmr, txc, tid, accepted := [], None, 0, 0, 0;
      issued, done, delays := 0, [], [];
    }

    /** bfcp_send of the first request, with the delay that is armed after it when it goes out. */
    method Send(ghost delay: nat) returns (err: Option<Error>)
      requires |done| < |delays|
      modifies this`delays
      ensures err.Some? ==> delays == old(delays)
      ensures err.None? ==> delays == old(delays)[|done| := old(delays)[|done|] + [delay]]
    {
      var fails: bool := *;
      err := if fails then Some(ESEND) else None;
      if !fails {
        delays := delays[|done| := delays[|done|] + [delay]];
      }
    }

    /** The handler of the first request is called, and the request leaves the queue. */
    method Complete(outcome: Outcome)
      requires ctransl != [] && HistoryOk(done, delays) && QueueOk(ctransl, done, delays, 1)
      requires |delays[|done|]| <= BFCP_TXC && delays[|done|] == Schedule(|delays[|done|]|)
      requires outcome == TimedOut ==> |delays[|done|]| == BFCP_TXC
      requires outcome == Answered ==> |delays[|done|]| > 0
      modifies this`ctransl, this`done
      ensures done == old(done) + [Done(old(ctransl[0].id), outcome)] && ctransl == old(ctransl)[1..]
      ensures HistoryOk(done, delays) && QueueOk(ctransl, done, delays, 0)
    {
      done := done + [Done(ctransl[0].id, outcome)];
      ctransl := ctransl[1..];
    }

    /** dispatch: the first request that can be sent goes in flight; those before it fail. */
    method Dispatch()
      requires TidOk() && HistoryOk(done, delays) && QueueOk(ctransl, done, delays, 0) && tmr.None?
      requires accepted == |delays|
      modifies this`ctransl, this`done, this`delays, this`tmr, this`txc
      ensures Valid() && old(done) <= done
      ensures forall i :: |old(done)| <= i < |done| ==> done[i].outcome == SendFailed
      ensures |done| + |ctransl| == old(|done| + |ctransl|)
    {
      while ctransl != []
        invariant TidOk() && HistoryOk(done, delays) && QueueOk(ctransl, done, delays, 0) && tmr.None?
        invariant accepted == |delays| && old(done) <= done && |done| + |ctransl| == old(|done| + |ctransl|)
        invariant forall i :: |old(done)| <= i < |done| ==> done[i].outcome == SendFailed
        decreases |ctransl|
      {
        var err := Send(BFCP_T1);
        if err.Some? {
          Complete(SendFailed);
          continue;
        }
        tmr := Some(BFCP_T1);
        txc := 1;
        assert delays[|done|] == Schedule(1);
        break;
      }
    }

    /** tmr_handler, when the timer has run down: the request is sent again, or given up after four sends. */
    method TimerFires()
      requires Valid() && tmr.Some?
      modifies this`ctransl, this`done, this`delays, this`tmr, this`txc
      ensures Valid() && old(done) <= done
      ensures old(txc) == BFCP_TXC ==> |done| > |old(done)| && done[|old(done)|].outcome == TimedOut
      ensures old(txc) < BFCP_TXC && done == old(done) ==>
        txc == old(txc) + 1 && tmr.value == 2 * old(tmr).value && ctransl == old(ctransl)
    {
      tmr := None;
      var timeout := ShiftLeft(BFCP_T1, txc);
      txc := txc + 1;
      var outcome := TimedOut;
      if txc <= BFCP_TXC {
        var err := Send(timeout);
        if err.None? {
          tmr := Some(timeout);
          assert delays[|done|] == Schedule(txc);
          return;
        }
        outcome := SendFailed;
      }
      Complete(outcome);
      Dispatch();
    }

    /** bfcp_handle_response: only the request in flight can be answered. */
    method HandleResponse(tid: u16, confid: u32, userid: u16) returns (taken: bool)
      requires Valid()
      modifies this`ctransl, this`done, this`delays, this`tmr, this`txc
      ensures Valid() && old(done) <= done
      ensures taken <==> old(ctransl) != [] && old(ctransl[0].tid) == tid && old(ctransl[0].confid) == confid
                         && old(ctransl[0].userid) == userid
      ensures taken ==> |done| > |old(done)| && done[|old(done)|] == Done(old(ctransl[0].id), Answered)
      ensures !taken ==> ctransl == old(ctransl) && done == old(done) && tmr == old(tmr) && delays == old(delays)
    {
      if ctransl == [] || tid != ctransl[0].tid || confid != ctransl[0].confid || userid != ctransl[0].userid {
        return false;
      }
      tmr := None;
      Complete(Answered);
      Dispatch();
      taken := true;
    }

    /** bfcp_vrequest: an id is used up whether or not the request is accepted. */
    method Request(confid: u32, userid: u16, encodes: bool) returns (err: Option<Error>)
      requires Valid()
      modifies this`ctransl, this`delays, this`tmr, this`txc, this`tid, this`issued, this`accepted
      ensures Valid() && issued == old(issued) + 1
      ensures err.None? ==>
        ctransl == old(ctransl) + [Ctrans(|old(delays)|, confid, userid, TidOf(old(issued)))]
      ensures err.Some? ==> ctransl == old(ctransl) && delays == old(delays) && tmr == old(tmr)
      ensures old(ctransl) != [] ==> tmr == old(tmr) && txc == old(txc) && (err.None? <==> encodes)
    {
      var t := TakeTid();
      if !encodes {
        return Some(EINVAL);
      }
      err := Enqueue(confid, userid, t);
    }

    method TakeTid() returns (t: u16)
      requires Valid()
      modifies this`tid, this`issued
      ensures Valid() && issued == old(issued) + 1 && t == TidOf(old(issued))
    {
      hide HistoryOk, QueueOk, Schedule, TidOf, NextTid;
      if tid == 0 {
        tid := 1;
      }
      t := tid;
      TidAdvances(issued);
      tid := NextTid(tid);
      issued := issued + 1;
    }

    /** The request joins the queue; if it is the first, it has to go out. */
    method Enqueue(confid: u32, userid: u16, t: u16) returns (err: Option<Error>)
      requires Valid() && t != 0
      modifies this`ctransl, this`delays, this`tmr, this`txc, this`accepted
      ensures Valid()
      ensures err.None? ==> ctransl == old(ctransl) + [Ctrans(|old(delays)|, confid, userid, t)]
      ensures err.Some? ==> ctransl == old(ctransl) && delays == old(delays) && tmr == old(tmr)
      ensures old(ctransl) != [] ==> tmr == old(tmr) && txc == old(txc) && err.None?
    {
      hide HistoryOk, QueueOk;
      var ct := Ctrans(accepted, confid, userid, t);
      ghost var before := delays;
      Joined(ctransl, done, delays, ct);
      delays := delays + [[]];
      if ctransl == [] {
        err := Send(BFCP_T1);
        if err.Some? {
          delays := before;
          return;
        }
        tmr := Some(BFCP_T1);
        txc := 1;
        FirstSent(ctransl, done, before, ct);
        assert [] + [BFCP_T1] == [BFCP_T1] && ctransl + [ct] == [ct];
      }
      ctransl := ctransl + [ct];
      accepted := accepted + 1;
      err := None;
    }

    /** Any run: requests issued, timers firing, responses arriving; handlers do not call back into the queue. */
    method Run(events: seq<Event>)
      requires Valid()
      modifies this
      ensures Valid() && old(done) <= done && old(issued) <= issued
    {
      for i := 0 to |events|
        invariant Valid() && old(done) <= done && old(issued) <= issued
      {
        match events[i]
        case Issue(confid, userid, encodes) => var _ := Request(confid, userid, encodes);
        case Timeout =>
          if tmr.Some? {
            TimerFires();
          }
        case Response(tid, confid, userid) => var _ := HandleResponse(tid, confid, userid);
      }
    }
  }
}
