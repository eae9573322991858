/** Pruning a list of pairs, and what a freshly formed check list is. */
module IceForm {
  import opened Base
  import opened IcePriority
  import opened IceLists

  /** Pairs are formed of candidates of one component and one address family. */
  predicate Compatible(l: Cand, r: Cand) {
    l.compid == r.compid && l.addr.af == r.addr.af
  }

  /** cand_srflx_addr: a server reflexive candidate counts as its base. */
  function LocalAddr(c: Cand): Sa { if c.typ == Srflx then c.base else c.addr }

  /** The comparison of unique_handler: same component, same local base, same remote address. */
  predicate SameClass(l1: Cand, r1: Cand, l2: Cand, r2: Cand) {
    l1.compid == l2.compid && LocalAddr(l1) == LocalAddr(l2) && r1.addr == r2.addr
  }

  predicate SamePair(p: Pair, q: Pair) {
    p.compid == q.compid && LocalAddr(p.lcand) == LocalAddr(q.lcand) && p.rcand.addr == q.rcand.addr
  }

  /** Every pair of `l` has a pair of its class in `m`, of at least its priority. */
  ghost predicate Represented(l: seq<nat>, m: seq<nat>, pair: Pairs)
    requires Known(l, pair) && Known(m, pair)
  {
    forall i :: 0 <= i < |l| ==> RepresentedBy(l[i], m, pair)
  }

  ghost predicate RepresentedBy(x: nat, m: seq<nat>, pair: Pairs)
    requires x in pair && Known(m, pair)
  {
    exists k :: 0 <= k < |m| && SamePair(pair[x], pair[m[k]]) && pair[m[k]].pprio >= pair[x].pprio
  }

  lemma DropPointwise(l: seq<nat>, j: nat, r: seq<nat>)
    requires j < |l| && r == Without(l, j)
    ensures |r| == |l| - 1
    ensures forall i :: 0 <= i < j ==> r[i] == l[i]
    ensures forall i {:trigger r[i]} :: j <= i < |r| ==> r[i] == l[i + 1]
  {
  }

  lemma DropKeeps(l: seq<nat>, j: nat, pair: Pairs)
    requires Known(l, pair) && NoRepeats(l) && j < |l|
    ensures Known(Without(l, j), pair) && NoRepeats(Without(l, j))
    ensures Ordered(l, pair) ==> Ordered(Without(l, j), pair)
    ensures forall x :: x in Without(l, j) ==> x in l
  {
    hide Without;
    var r := Without(l, j);
    DropPointwise(l, j, r);
    forall i | 0 <= i < |r| ensures r[i] in pair && r[i] in l {
      assert r[i] == l[if i < j then i else i + 1];
    }
    forall a, b | 0 <= a < b < |r| ensures r[a] != r[b] && (Ordered(l, pair) ==> pair[r[a]].pprio >= pair[r[b]].pprio) {
      assert r[a] == l[if a < j then a else a + 1] && r[b] == l[if b < j then b else b + 1];
    }
  }

  /** A pair may go when another of its class and no lower priority stays. */
  lemma DropRepresented(l: seq<nat>, m: seq<nat>, j: nat, k: nat, pair: Pairs)
    requires Known(l, pair) && Known(m, pair) && Represented(l, m, pair) && j < |m| && k < |m| && j != k
    requires SamePair(pair[m[j]], pair[m[k]]) && pair[m[k]].pprio >= pair[m[j]].pprio
    requires Known(Without(m, j), pair)
    ensures Represented(l, Without(m, j), pair)
  {
    hide Without;
    var r := Without(m, j);
    DropPointwise(m, j, r);
    forall i | 0 <= i < |l| ensures RepresentedBy(l[i], r, pair) {
      assert RepresentedBy(l[i], m, pair);
      var h :| 0 <= h < |m| && SamePair(pair[l[i]], pair[m[h]]) && pair[m[h]].pprio >= pair[l[i]].pprio;
      var h' := if h == j then k else h;
      var h'' := if h' < j then h' else h' - 1;
      assert r[h''] == m[h'];
    }
  }

  ghost predicate Different(l: seq<nat>, pair: Pairs, i: nat, j: nat)
    requires Known(l, pair) && i < |l| && j < |l|
  {
    !SamePair(pair[l[i]], pair[l[j]])
  }

  /**
   * ice_list_unique with the handler of the check list: of two pairs of one class the one of lower
   * priority goes, the later one if they are level. Whatever the list, one pair of every class stays,
   * and it has the class's greatest priority.
   */
  method Unique(l: seq<nat>, pair: Pairs) returns (r: seq<nat>, n: nat)
    requires Known(l, pair) && NoRepeats(l)
    ensures Known(r, pair) && NoRepeats(r) && forall x :: x in r ==> x in l
    ensures Ordered(l, pair) ==> Ordered(r, pair)
    ensures forall i, j :: 0 <= i < j < |r| ==> Different(r, pair, i, j)
    ensures Represented(l, r, pair) && n + |r| == |l|
  {
    hide Represented, SamePair;
    r, n := l, 0;
    SelfRepresented(l, pair);
    var i := 0;
    while i < |r| && i + 1 != |r|
      invariant 0 <= i <= |r| && n + |r| == |l|
      invariant Known(r, pair) && NoRepeats(r) && forall x :: x in r ==> x in l
      invariant Ordered(l, pair) ==> Ordered(r, pair)
      invariant Represented(l, r, pair)
      invariant forall a, b :: 0 <= a < i && a < b < |r| ==> Different(r, pair, a, b)
      decreases |r| - i
    {
      var hit, n';
      r, hit, n' := UniqueFrom(l, r, i, pair);
      n := n + n';
      if !hit {
        i := i + 1;
      }
    }
  }

  /** The inner loop: compares the pair at `i` with all behind it; `hit` says that it was itself removed. */
  method UniqueFrom(ghost l: seq<nat>, r0: seq<nat>, i: nat, pair: Pairs) returns (r: seq<nat>, hit: bool, n: nat)
    requires i < |r0| && Known(l, pair) && Known(r0, pair) && NoRepeats(r0)
    requires Represented(l, r0, pair)
    requires forall a, b :: 0 <= a < i && a < b < |r0| ==> Different(r0, pair, a, b)
    ensures Known(r, pair) && NoRepeats(r) && forall x :: x in r ==> x in r0
    ensures Ordered(r0, pair) ==> Ordered(r, pair)
    ensures Represented(l, r, pair) && n + |r| == |r0| && i <= |r|
    ensures hit ==> |r| < |r0|
    ensures !hit ==> i < |r|
    ensures forall a, b :: 0 <= a < (if hit then i else i + 1) && a < b < |r| ==> Different(r, pair, a, b)
  {
    hide Represented, Without, SamePair;
    r, n, hit := r0, 0, false;
    var j := i + 1;
    while j < |r|
      invariant i < j <= |r| && n + |r| == |r0|
      invariant Known(r, pair) && NoRepeats(r) && forall x :: x in r ==> x in r0
      invariant Ordered(r0, pair) ==> Ordered(r, pair)
      invariant Represented(l, r, pair)
      invariant forall a, b :: 0 <= a < i && a < b < |r| ==> Different(r, pair, a, b)
      invariant forall b :: i < b < j ==> Different(r, pair, i, b)
      decreases |r| - j
    {
      if !SamePair(pair[r[i]], pair[r[j]]) {
        j := j + 1;
      } else if pair[r[i]].pprio < pair[r[j]].pprio {
        hit := true;
        break;
      } else {
        ghost var r1 := r;
        r := DropAt(l, r, j, i, pair, i);
        n := n + 1;
        forall b | i < b < j ensures Different(r, pair, i, b) {
          assert Different(r1, pair, i, b);
        }
      }
    }
    if hit {
      SameSymmetric(pair[r[i]], pair[r[j]]);
      r := DropAt(l, r, i, j, pair, i);
      n := n + 1;
    }
  }

  lemma SameSymmetric(p: Pair, q: Pair)
    ensures SamePair(p, q) == SamePair(q, p)
  {
  }

  /** The pair at `j` goes because the one at `k` stays; what was established about the first `i` holds on. */
  method DropAt(ghost l: seq<nat>, r: seq<nat>, j: nat, ghost k: nat, pair: Pairs, ghost i: nat) returns (r': seq<nat>)
    requires j < |r| && k < |r| && j != k && i <= j
    requires Known(l, pair) && Known(r, pair) && NoRepeats(r) && Represented(l, r, pair)
    requires SamePair(pair[r[k]], pair[r[j]]) && pair[r[k]].pprio >= pair[r[j]].pprio
    requires forall a, b :: 0 <= a < i && a < b < |r| ==> Different(r, pair, a, b)
    ensures Known(r', pair) && NoRepeats(r') && forall x :: x in r' ==> x in r
    ensures Ordered(r, pair) ==> Ordered(r', pair)
    ensures |r'| == |r| - 1 && Represented(l, r', pair)
    ensures forall a, b :: 0 <= a < i && a < b < |r'| ==> Different(r', pair, a, b)
    ensures forall a :: 0 <= a < j ==> r'[a] == r[a]
  {
    hide Represented, Without;
    DropKeeps(r, j, pair);
    SameSymmetric(pair[r[k]], pair[r[j]]);
    DropRepresented(l, r, j, k, pair);
    r' := Without(r, j);
    DropPointwise(r, j, r');
    forall a, b | 0 <= a < i && a < b < |r'| ensures Different(r', pair, a, b) {
      assert Different(r, pair, a, if b < j then b else b + 1);
    }
  }

  lemma SelfRepresented(l: seq<nat>, pair: Pairs)
    requires Known(l, pair)
    ensures Represented(l, l, pair)
  {
    forall i | 0 <= i < |l| ensures RepresentedBy(l[i], l, pair) {
    }
  }

  // ---------------------------------------------------------------- a freshly formed check list

  /** Every pair of the list is of compatible candidates, with the priority they have in the current role. */
  ghost predicate FromCandidates(l: seq<nat>, pair: Pairs, lcandl: seq<Cand>, rcandl: seq<Cand>, role: Role)
    requires Known(l, pair)
  {
    forall i :: 0 <= i < |l| ==> PairOf(pair[l[i]], lcandl, rcandl, role)
  }

  predicate PairOf(p: Pair, lcandl: seq<Cand>, rcandl: seq<Cand>, role: Role) {
    && p.lcand in lcandl && p.rcand in rcandl && Compatible(p.lcand, p.rcand)
    && p.compid == p.lcand.compid && p.pprio == PPrio(role, p.lcand.prio, p.rcand.prio)
  }

  /** The pair of two candidates themselves is in the list. */
  ghost predicate Paired(l: seq<nat>, pair: Pairs, lcand: Cand, rcand: Cand)
    requires Known(l, pair)
  {
    exists k :: 0 <= k < |l| && pair[l[k]].lcand == lcand && pair[l[k]].rcand == rcand
  }

  /**
   * A formed check list: ordered by priority; made of compatible candidates; no two pairs of one class;
   * and for every two compatible candidates a pair of their class with no lower priority than theirs.
   */
  ghost predicate Formed(l: seq<nat>, pair: Pairs, lcandl: seq<Cand>, rcandl: seq<Cand>, role: Role) {
    && Known(l, pair) && Ordered(l, pair) && FromCandidates(l, pair, lcandl, rcandl, role)
    && (forall i, j :: 0 <= i < j < |l| ==> Different(l, pair, i, j))
    && forall a, b :: 0 <= a < |lcandl| && 0 <= b < |rcandl| && Compatible(lcandl[a], rcandl[b]) ==>
         BestOfClass(l, pair, lcandl[a], rcandl[b], role)
  }

  ghost predicate BestOfClass(l: seq<nat>, pair: Pairs, lcand: Cand, rcand: Cand, role: Role)
    requires Known(l, pair)
  {
    exists k :: 0 <= k < |l| && SameClass(pair[l[k]].lcand, pair[l[k]].rcand, lcand, rcand)
             && pair[l[k]].pprio >= PPrio(role, lcand.prio, rcand.prio)
  }

  /** Pruning a list that pairs up all compatible candidates leaves a formed list. */
  lemma PrunedIsFormed(l: seq<nat>, r: seq<nat>, pair: Pairs, lcandl: seq<Cand>, rcandl: seq<Cand>, role: Role)
    requires Known(l, pair) && Known(r, pair) && Ordered(r, pair)
    requires FromCandidates(l, pair, lcandl, rcandl, role)
    requires forall a, b :: 0 <= a < |lcandl| && 0 <= b < |rcandl| && Compatible(lcandl[a], rcandl[b]) ==>
      Paired(l, pair, lcandl[a], rcandl[b])
    requires forall x :: x in r ==> x in l
    requires forall i, j :: 0 <= i < j < |r| ==> Different(r, pair, i, j)
    requires Represented(l, r, pair)
    ensures Formed(r, pair, lcandl, rcandl, role)
  {
    hide PairOf;
    forall i | 0 <= i < |r| ensures PairOf(pair[r[i]], lcandl, rcandl, role) {
      assert r[i] in r;
      var j :| 0 <= j < |l| && l[j] == r[i];
    }
    forall a, b | 0 <= a < |lcandl| && 0 <= b < |rcandl| && Compatible(lcandl[a], rcandl[b])
      ensures BestOfClass(r, pair, lcandl[a], rcandl[b], role)
    {
      assert Paired(l, pair, lcandl[a], rcandl[b]);
      var h :| 0 <= h < |l| && pair[l[h]].lcand == lcandl[a] && pair[l[h]].rcand == rcandl[b];
      assert RepresentedBy(l[h], r, pair);
      var k :| 0 <= k < |r| && SamePair(pair[l[h]], pair[r[k]]) && pair[r[k]].pprio >= pair[l[h]].pprio;
      PairOfPrio(pair[l[h]], lcandl, rcandl, role);
      PairOfPrio(pair[r[k]], lcandl, rcandl, role);
    }
  }

  lemma PairOfPrio(p: Pair, lcandl: seq<Cand>, rcandl: seq<Cand>, role: Role)
    requires PairOf(p, lcandl, rcandl, role)
    ensures p.pprio == PPrio(role, p.lcand.prio, p.rcand.prio) && p.compid == p.lcand.compid
  {
  }

  /** The pair a formed list holds for a class is the only one, and no two candidates of the class beat it. */
  lemma FormedHasOneBest(l: seq<nat>, pair: Pairs, lcandl: seq<Cand>, rcandl: seq<Cand>, role: Role, i: nat, a: nat, b: nat)
    requires Formed(l, pair, lcandl, rcandl, role)
    requires i < |l| && a < |lcandl| && b < |rcandl| && Compatible(lcandl[a], rcandl[b])
    requires SameClass(pair[l[i]].lcand, pair[l[i]].rcand, lcandl[a], rcandl[b])
    ensures pair[l[i]].pprio >= PPrio(role, lcandl[a].prio, rcandl[b].prio)
    ensures forall j :: 0 <= j < |l| && SameClass(pair[l[j]].lcand, pair[l[j]].rcand, lcandl[a], rcandl[b]) ==> j == i
  {
    assert BestOfClass(l, pair, lcandl[a], rcandl[b], role);
    forall j | 0 <= j < |l| && SameClass(pair[l[j]].lcand, pair[l[j]].rcand, lcandl[a], rcandl[b]) ensures j == i {
      PairOfPrio(pair[l[i]], lcandl, rcandl, role);
      PairOfPrio(pair[l[j]], lcandl, rcandl, role);
      assert i < j ==> Different(l, pair, i, j);
      assert j < i ==> Different(l, pair, j, i);
    }
  }

  /** Two pair tables that differ in states only. */
  ghost predicate StatesDiffer(before: Pairs, after: Pairs) {
    forall x :: x in before ==> x in after && after[x] == before[x].(state := after[x].state)
  }

  // ---------------------------------------------------------------- which pairs begin to wait

  /** icem_candpair_cmp_fnd. */
  predicate SameFoundation(p: Pair, q: Pair) {
    p.lcand.foundation == q.lcand.foundation && p.rcand.foundation == q.rcand.foundation
  }

  /** A pair with the foundation of the other, a lower component and a higher priority. */
  predicate Dominates(q: Pair, p: Pair) {
    SameFoundation(p, q) && q.lcand.compid < p.lcand.compid && q.pprio > p.pprio
  }

  ghost predicate Dominated(l: seq<nat>, pair: Pairs, id: nat)
    requires id in pair
  {
    exists y :: y in l && y in pair && Dominates(pair[y], pair[id])
  }

  /** The first pair of an ordered list to dominate another is not dominated itself. */
  lemma FirstIsFree(l: seq<nat>, pair: Pairs, id: nat, m: nat)
    requires Known(l, pair) && Ordered(l, pair) && id in pair && m < |l|
    requires Dominates(pair[l[m]], pair[id]) && forall k :: 0 <= k < m ==> !Dominates(pair[l[k]], pair[id])
    ensures !Dominated(l, pair, l[m])
  {
    if Dominated(l, pair, l[m]) {
      var y :| y in l && y in pair && Dominates(pair[y], pair[l[m]]);
      var n :| 0 <= n < |l| && l[n] == y;
      assert n < m;
      assert Dominates(pair[l[n]], pair[id]);
    }
  }

  /** A dominated pair is dominated by one that is not. */
  lemma {:induction false} DominatedByFree(l: seq<nat>, pair: Pairs, id: nat) returns (y: nat)
    requires Known(l, pair) && Ordered(l, pair) && id in pair && Dominated(l, pair, id)
    ensures y in l && Dominates(pair[y], pair[id]) && !Dominated(l, pair, y)
  {
    var m := 0;
    while m < |l| && !Dominates(pair[l[m]], pair[id])
      invariant 0 <= m <= |l| && forall k :: 0 <= k < m ==> !Dominates(pair[l[k]], pair[id])
    {
      m := m + 1;
    }
    FirstIsFree(l, pair, id, m);
    y := l[m];
  }

  /** Alone in its foundation to begin with: below all others in component, above all in priority. */
  ghost predicate Leads(l: seq<nat>, pair: Pairs, id: nat)
    requires Known(l, pair) && id in l
  {
    forall y :: y in l && y != id && SameFoundation(pair[id], pair[y]) ==> Dominates(pair[id], pair[y])
  }

  /** No two pairs of one foundation are undominated. */
  ghost predicate OneFree(l: seq<nat>, pair: Pairs)
    requires Known(l, pair)
  {
    forall x, y :: x in l && y in l && x != y && SameFoundation(pair[x], pair[y]) ==>
      Dominated(l, pair, x) || Dominated(l, pair, y)
  }

  /** In every foundation some pair has both the lowest component and the highest priority, alone in both. */
  ghost predicate AllLed(l: seq<nat>, pair: Pairs)
    requires Known(l, pair)
  {
    forall x {:trigger HasLeader(l, pair, x)} :: x in l ==> HasLeader(l, pair, x)
  }

  ghost predicate HasLeader(l: seq<nat>, pair: Pairs, x: nat)
    requires Known(l, pair) && x in l
  {
    exists p :: p in l && SameFoundation(pair[x], pair[p]) && Leads(l, pair, p)
  }

  /** The free pair of a foundation leads it, if there is only one. */
  lemma FreeLeads(l: seq<nat>, pair: Pairs, p: nat)
    requires Known(l, pair) && Ordered(l, pair) && OneFree(l, pair) && p in l && !Dominated(l, pair, p)
    ensures Leads(l, pair, p)
  {
    hide Dominated;
    forall y | y in l && y != p && SameFoundation(pair[p], pair[y]) ensures Dominates(pair[p], pair[y]) {
      var q := DominatedByFree(l, pair, y);
      assert q == p;
    }
  }

  lemma LeaderDominates(l: seq<nat>, pair: Pairs, p: nat, x: nat, y: nat)
    requires Known(l, pair) && p in l && x in l && y in l && p != y && Leads(l, pair, p)
    requires SameFoundation(pair[x], pair[p]) && SameFoundation(pair[x], pair[y])
    ensures Dominated(l, pair, y)
  {
    assert SameFoundation(pair[p], pair[y]);
    assert y in pair && p in pair && Dominates(pair[p], pair[y]);
  }

  lemma LedAreFree(l: seq<nat>, pair: Pairs)
    requires Known(l, pair) && AllLed(l, pair)
    ensures OneFree(l, pair)
  {
    hide Dominated, Leads, SameFoundation;
    forall x, y | x in l && y in l && x != y && SameFoundation(pair[x], pair[y])
      ensures Dominated(l, pair, x) || Dominated(l, pair, y)
    {
      assert HasLeader(l, pair, x);
      var p :| p in l && SameFoundation(pair[x], pair[p]) && Leads(l, pair, p);
      if p == x {
        LeaderDominates(l, pair, p, x, y);
      } else {
        SameAsItself(pair[x]);
        LeaderDominates(l, pair, p, x, x);
      }
    }
  }

  lemma FreeAreLed(l: seq<nat>, pair: Pairs)
    requires Known(l, pair) && Ordered(l, pair) && OneFree(l, pair)
    ensures AllLed(l, pair)
  {
    hide Dominated, Leads, Dominates, OneFree, SameFoundation, Ordered;
    forall x | x in l ensures HasLeader(l, pair, x) {
      var p := x;
      SameAsItself(pair[x]);
      if Dominated(l, pair, x) {
        p := DominatedByFree(l, pair, x);
        DominatesSame(pair[p], pair[x]);
      }
      FreeLeads(l, pair, p);
    }
  }

  /**
   * One pair per foundation starts out waiting, as section 5.7.4 of RFC 5245 wants it, exactly when in every
   * foundation one pair leads all others.
   */
  lemma OnePerFoundationIff(l: seq<nat>, pair: Pairs)
    requires Known(l, pair) && Ordered(l, pair)
    ensures OneFree(l, pair) <==> AllLed(l, pair)
  {
    hide OneFree, AllLed, Ordered;
    if OneFree(l, pair) {
      FreeAreLed(l, pair);
    }
    if AllLed(l, pair) {
      LedAreFree(l, pair);
    }
  }

  lemma SameAsItself(p: Pair)
    ensures SameFoundation(p, p)
  {
  }

  lemma DominatesSame(q: Pair, p: Pair)
    requires Dominates(q, p)
    ensures SameFoundation(p, q)
  {
  }

  /** It fails, for example, for any two pairs of one foundation and one component. */
  lemma TwoOfOneComponent(l: seq<nat>, pair: Pairs)
    requires |l| == 2 && l[0] != l[1] && Known(l, pair) && Ordered(l, pair)
    requires SameFoundation(pair[l[0]], pair[l[1]]) && pair[l[0]].lcand.compid == pair[l[1]].lcand.compid
    ensures !Dominated(l, pair, l[0]) && !Dominated(l, pair, l[1])
  {
  }

  predicate AllFrozen(l: seq<nat>, pair: Pairs) { forall x :: x in l ==> x in pair && pair[x].state == Frozen }

  /** The states a formed check list starts from: in the first media stream the undominated pairs wait. */
  ghost predicate StartStates(l: seq<nat>, pair: Pairs, first: bool) {
    forall x :: x in l ==>
      x in pair && pair[x].state == if first && !Dominated(l, pair, x) then Waiting else Frozen
  }

  lemma WokenStates(l: seq<nat>, before: Pairs, after: Pairs)
    requires AllFrozen(l, before) && StatesDiffer(before, after) && Woken(l, before, after)
    ensures StartStates(l, after, true)
  {
    hide Dominated, StatesDiffer;
    forall x | x in l ensures x in after && after[x].state == if !Dominated(l, after, x) then Waiting else Frozen {
      DominationKept(l, before, after, x);
    }
  }

  lemma AllStayFrozen(l: seq<nat>, l': seq<nat>, before: Pairs, after: Pairs, role: Role)
    requires AllFrozen(l, before) && Recomputed(l, before, after, role) && forall x :: x in l' ==> x in l
    ensures AllFrozen(l', after) && StartStates(l', after, false)
  {
    hide PPrio;
  }

  /** The states after candpair_set_states: exactly the undominated pairs of the list wait, the others are as they were. */
  ghost predicate Woken(l: seq<nat>, before: Pairs, after: Pairs) {
    && before.Keys == after.Keys
    && forall x :: x in before ==>
         after[x] == if x in l && !Dominated(l, before, x) then before[x].(state := Waiting) else before[x]
  }

  /** The same for the first `n` pairs of the loop: some undominated ones wait, all of the first `n` among them. */
  ghost predicate WokenUpTo(l: seq<nat>, before: Pairs, after: Pairs, n: nat)
    requires n <= |l|
  {
    && before.Keys == after.Keys
    && (forall x :: x in before && after[x] != before[x] ==>
          x in l && !Dominated(l, before, x) && after[x] == before[x].(state := Waiting))
    && forall i :: 0 <= i < n ==> l[i] in before && (!Dominated(l, before, l[i]) ==> after[l[i]].state == Waiting)
  }

  /** Which pair dominates which is settled before any state changes. */
  lemma DominationKept(l: seq<nat>, before: Pairs, after: Pairs, id: nat)
    requires StatesDiffer(before, after) && before.Keys == after.Keys && id in before
    ensures Dominated(l, after, id) <==> Dominated(l, before, id)
  {
    forall y | y in before ensures Dominates(after[y], after[id]) <==> Dominates(before[y], before[id]) {
    }
  }

  lemma WokenDiffer(l: seq<nat>, before: Pairs, after: Pairs, n: nat)
    requires n <= |l| && WokenUpTo(l, before, after, n)
    ensures StatesDiffer(before, after)
  {
  }

  lemma OneMoreWoken(l: seq<nat>, before: Pairs, mid: Pairs, n: nat, id: nat)
    requires n < |l| && Known(l, before) && WokenUpTo(l, before, mid, n) && id in l && id in mid
    requires !Dominated(l, before, id) && (!Dominated(l, before, l[n]) ==> id == l[n])
    ensures WokenUpTo(l, before, mid[id := mid[id].(state := Waiting)], n + 1)
  {
    hide Dominated;
    var after := mid[id := mid[id].(state := Waiting)];
    forall x | x in before && after[x] != before[x]
      ensures x in l && !Dominated(l, before, x) && after[x] == before[x].(state := Waiting)
    {
      if x == id && mid[x] != before[x] {
        assert mid[x] == before[x].(state := Waiting);
      }
    }
  }

  lemma AllWoken(l: seq<nat>, before: Pairs, after: Pairs)
    requires WokenUpTo(l, before, after, |l|)
    ensures Woken(l, before, after)
  {
    hide Dominated;
    forall x | x in before
      ensures after[x] == if x in l && !Dominated(l, before, x) then before[x].(state := Waiting) else before[x]
    {
      if x in l && !Dominated(l, before, x) {
        var i :| 0 <= i < |l| && l[i] == x;
        assert after[l[i]].state == Waiting;
        assert after[x] == before[x] || after[x] == before[x].(state := Waiting);
      }
    }
  }

  /** The inner loop of candpair_set_states: from a pair to the best one that dominates it, if any does. */
  method Leader(l: seq<nat>, pair: Pairs, i: nat) returns (cp: nat)
    requires Known(l, pair) && Ordered(l, pair) && i < |l|
    ensures cp in l && !Dominated(l, pair, cp) && (!Dominated(l, pair, l[i]) ==> cp == l[i])
    ensures cp != l[i] ==> Dominates(pair[cp], pair[l[i]])
  {
    cp := l[i];
    ghost var at: Option<nat> := None;
    for j := 0 to |l|
      invariant match at
                case None => cp == l[i] && forall k :: 0 <= k < j ==> !Dominates(pair[l[k]], pair[l[i]])
                case Some(m) =>
                  && m < j && cp == l[m] && Dominates(pair[cp], pair[l[i]])
                  && forall k :: 0 <= k < m ==> !Dominates(pair[l[k]], pair[l[i]])
    {
      var cp2 := l[j];
      if !SameFoundation(pair[cp], pair[cp2]) {
        continue;
      }
      if pair[cp2].lcand.compid < pair[cp].lcand.compid && pair[cp2].pprio > pair[cp].pprio {
        cp := cp2;
        at := Some(j);
      }
    }
    if at.Some? {
      FirstIsFree(l, pair, l[i], at.value);
    } else {
      assert forall y :: y in l ==> !Dominates(pair[y], pair[l[i]]);
    }
  }

  lemma ClassesIgnoreStates(l: seq<nat>, before: Pairs, after: Pairs)
    requires Known(l, before) && StatesDiffer(before, after)
    requires forall i, j :: 0 <= i < j < |l| ==> Different(l, before, i, j)
    ensures Known(l, after) && forall i, j :: 0 <= i < j < |l| ==> Different(l, after, i, j)
  {
    forall i, j | 0 <= i < j < |l| ensures Different(l, after, i, j) {
      assert Different(l, before, i, j);
    }
  }

  lemma BestIgnoresStates(l: seq<nat>, before: Pairs, after: Pairs, lcand: Cand, rcand: Cand, role: Role)
    requires Known(l, before) && Known(l, after) && StatesDiffer(before, after)
    requires BestOfClass(l, before, lcand, rcand, role)
    ensures BestOfClass(l, after, lcand, rcand, role)
  {
    hide PPrio;
  }

  /** States play no part in what a formed list is. */
  lemma FormedIgnoresStates(l: seq<nat>, before: Pairs, after: Pairs, lcandl: seq<Cand>, rcandl: seq<Cand>, role: Role)
    requires Formed(l, before, lcandl, rcandl, role) && StatesDiffer(before, after)
    ensures Formed(l, after, lcandl, rcandl, role)
  {
    hide BestOfClass, PPrio, Compatible;
    ClassesIgnoreStates(l, before, after);
    forall a, b | 0 <= a < |lcandl| && 0 <= b < |rcandl| && Compatible(lcandl[a], rcandl[b])
      ensures BestOfClass(l, after, lcandl[a], rcandl[b], role)
    {
      BestIgnoresStates(l, before, after, lcandl[a], rcandl[b], role);
    }
    forall i | 0 <= i < |l| ensures PairOf(after[l[i]], lcandl, rcandl, role) {
      assert PairOf(before[l[i]], lcandl, rcandl, role);
    }
  }

  predicate HasComp(comp: seq<Comp>, compid: nat) {
    exists i :: 0 <= i < |comp| && comp[i].id == compid
  }

  /** Every two compatible candidates have a component to check them in. */
  predicate AllHaveComps(comp: seq<Comp>, lcandl: seq<Cand>, rcandl: seq<Cand>) {
    forall a, b :: 0 <= a < |lcandl| && 0 <= b < |rcandl| && Compatible(lcandl[a], rcandl[b]) ==>
      HasComp(comp, lcandl[a].compid)
  }

  // ---------------------------------------------------------------- while pairs are being formed

  /** Every compatible pair of the first `i` local candidates, and of local candidate `i` with the first `j` remote ones. */
  ghost predicate PairedUpTo(l: seq<nat>, pair: Pairs, lcandl: seq<Cand>, rcandl: seq<Cand>, i: nat, j: nat)
    requires Known(l, pair)
  {
    forall a, b :: 0 <= a < |lcandl| && 0 <= b < |rcandl| && Compatible(lcandl[a], rcandl[b]) && (a < i || (a == i && b < j)) ==>
      Paired(l, pair, lcandl[a], rcandl[b])
  }

  /** One more pair joins the list. */
  lemma OneMorePair(l: seq<nat>, l': seq<nat>, before: Pairs, after: Pairs, id: nat,
                    lcandl: seq<Cand>, rcandl: seq<Cand>, role: Role, i: nat, j: nat)
    requires Known(l, before) && Known(l', after) && i < |lcandl| && j < |rcandl|
    requires id !in before && after.Keys == before.Keys + {id}
    requires forall x :: x in before ==> after[x] == before[x]
    requires forall x :: x in l' <==> x == id || x in l
    requires Compatible(lcandl[i], rcandl[j]) && after[id].lcand == lcandl[i] && after[id].rcand == rcandl[j]
    requires PairOf(after[id], lcandl, rcandl, role)
    requires FromCandidates(l, before, lcandl, rcandl, role) && PairedUpTo(l, before, lcandl, rcandl, i, j)
    ensures FromCandidates(l', after, lcandl, rcandl, role) && PairedUpTo(l', after, lcandl, rcandl, i, j + 1)
  {
    hide PairOf, Compatible;
    forall k | 0 <= k < |l'| ensures PairOf(after[l'[k]], lcandl, rcandl, role) {
      assert l'[k] in l';
      if l'[k] != id {
        var h :| 0 <= h < |l| && l[h] == l'[k];
        assert PairOf(before[l[h]], lcandl, rcandl, role);
      }
    }
    forall a, b | 0 <= a < |lcandl| && 0 <= b < |rcandl| && Compatible(lcandl[a], rcandl[b]) && (a < i || (a == i && b < j + 1))
      ensures Paired(l', after, lcandl[a], rcandl[b])
    {
      if a == i && b == j {
        assert id in l';
        var k :| 0 <= k < |l'| && l'[k] == id;
      } else {
        assert Paired(l, before, lcandl[a], rcandl[b]);
        var h :| 0 <= h < |l| && before[l[h]].lcand == lcandl[a] && before[l[h]].rcand == rcandl[b];
        assert l[h] in l';
        var k :| 0 <= k < |l'| && l'[k] == l[h];
      }
    }
  }

  /** Recomputing the priorities and reordering the list keeps all of it. */
  lemma ReorderedPairs(l: seq<nat>, l': seq<nat>, before: Pairs, after: Pairs, lcandl: seq<Cand>, rcandl: seq<Cand>, role: Role)
    requires Known(l, before) && Known(l', after) && Recomputed(l, before, after, role)
    requires forall x :: x in l' <==> x in l
    requires FromCandidates(l, before, lcandl, rcandl, role)
    requires forall a, b :: 0 <= a < |lcandl| && 0 <= b < |rcandl| && Compatible(lcandl[a], rcandl[b]) ==>
      Paired(l, before, lcandl[a], rcandl[b])
    ensures FromCandidates(l', after, lcandl, rcandl, role)
    ensures forall a, b :: 0 <= a < |lcandl| && 0 <= b < |rcandl| && Compatible(lcandl[a], rcandl[b]) ==>
      Paired(l', after, lcandl[a], rcandl[b])
  {
    hide PPrio, Compatible;
    forall k | 0 <= k < |l'| ensures PairOf(after[l'[k]], lcandl, rcandl, role) {
      assert l'[k] in l';
      var h :| 0 <= h < |l| && l[h] == l'[k];
      assert PairOf(before[l[h]], lcandl, rcandl, role);
    }
    forall a, b | 0 <= a < |lcandl| && 0 <= b < |rcandl| && Compatible(lcandl[a], rcandl[b])
      ensures Paired(l', after, lcandl[a], rcandl[b])
    {
      assert Paired(l, before, lcandl[a], rcandl[b]);
      var h :| 0 <= h < |l| && before[l[h]].lcand == lcandl[a] && before[l[h]].rcand == rcandl[b];
      assert l[h] in l';
      var k :| 0 <= k < |l'| && l'[k] == l[h];
    }
  }
}
