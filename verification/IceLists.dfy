/** Candidate pairs and what the check list and the valid list are made of. */
module IceLists {
  import opened Base
  import opened StableSorting
  import opened IcePriority

  datatype PairState = Frozen | Waiting | InProgress | Succeeded | Failed

  /** A candidate pair; `busy` says that a STUN transaction is open for it. */
  datatype Pair = Pair(lcand: Cand, rcand: Cand, compid: nat, state: PairState, pprio: nat,
                       valid: bool, nominated: bool, busy: bool)

  /** The pairs by identity; the lists hold identities. */
  type Pairs = map<nat, Pair>

  predicate Completed(p: Pair) { p.state == Failed || p.state == Succeeded }

  predicate Todo(p: Pair) { p.state == Waiting || p.state == Frozen }

  predicate Known(l: seq<nat>, pair: Pairs) { forall i :: 0 <= i < |l| ==> l[i] in pair }

  /** Highest priority first. */
  predicate Ordered(l: seq<nat>, pair: Pairs)
    requires Known(l, pair)
  {
    forall i, j :: 0 <= i < j < |l| ==> pair[l[i]].pprio >= pair[l[j]].pprio
  }

  /** A pair keeps its candidates; completed, it keeps its state; once checked, it never waits again. */
  predicate PairKept(p: Pair, q: Pair) {
    && q.lcand == p.lcand && q.rcand == p.rcand && q.compid == p.compid
    && (Completed(p) ==> q.state == p.state)
    && (Todo(q) ==> Todo(p))
  }

  ghost predicate Kept(before: Pairs, after: Pairs) {
    forall id :: id in before ==> id in after && PairKept(before[id], after[id])
  }

  lemma KeptSame(a: Pairs)
    ensures Kept(a, a)
  {
  }

  lemma KeptTransitive(a: Pairs, b: Pairs, c: Pairs)
    requires Kept(a, b) && Kept(b, c)
    ensures Kept(a, c)
  {
  }

  /** A pair that has been checked, or has ended, stays so. */
  lemma StaysDone(a: Pairs, b: Pairs, id: nat)
    requires Kept(a, b) && id in a
    ensures id in b && (!Todo(a[id]) ==> !Todo(b[id])) && (Completed(a[id]) ==> b[id].state == a[id].state)
  {
  }

  /** Pairs keep their candidates. */
  lemma StaysPaired(a: Pairs, b: Pairs)
    requires Kept(a, b)
    ensures forall id :: id in a ==> id in b && b[id].lcand == a[id].lcand && b[id].rcand == a[id].rcand
  {
    forall id | id in a ensures id in b && b[id].lcand == a[id].lcand && b[id].rcand == a[id].rcand {
      assert PairKept(a[id], b[id]);
    }
  }

  // ---------------------------------------------------------------- editing a list of identities

  /** The list with `id` put in at index `k`. */
  function PutAt(l: seq<nat>, k: nat, id: nat): seq<nat>
    requires k <= |l|
  {
    l[..k] + [id] + l[k..]
  }

  function Remove(l: seq<nat>, id: nat): seq<nat> {
    if l == [] then []
    else if l[0] == id then l[1..]
    else [l[0]] + Remove(l[1..], id)
  }

  /** list_add_sorted: walks from the tail to the first element of higher priority and inserts behind it. */
  method AddSorted(l: seq<nat>, id: nat, pair: Pairs) returns (r: seq<nat>, ghost k: nat)
    requires Known(l, pair) && id in pair && Ordered(l, pair) && NoRepeats(l) && id !in l
    ensures k <= |l| && r == PutAt(l, k, id)
    ensures Known(r, pair) && Ordered(r, pair) && NoRepeats(r)
    ensures forall x :: x in r <==> x == id || x in l
  {
    var le := |l|;
    while le > 0 && pair[id].pprio >= pair[l[le - 1]].pprio
      invariant 0 <= le <= |l|
      invariant forall i :: le <= i < |l| ==> pair[id].pprio >= pair[l[i]].pprio
    {
      le := le - 1;
    }
    k := le;
    r := PutAt(l, le, id);
    PutAtMembers(l, k, id);
    PutAtOrdered(l, k, id, pair, r);
  }

  lemma PutAtMembers(l: seq<nat>, k: nat, id: nat)
    requires k <= |l|
    ensures forall x :: x in PutAt(l, k, id) <==> x == id || x in l
  {
    assert l == l[..k] + l[k..];
  }

  lemma PutAtPointwise(l: seq<nat>, k: nat, id: nat, r: seq<nat>)
    requires k <= |l| && r == PutAt(l, k, id)
    ensures |r| == |l| + 1 && r[k] == id
    ensures forall i :: 0 <= i < k ==> r[i] == l[i]
    ensures forall i {:trigger r[i]} :: k < i < |r| ==> r[i] == l[i - 1]
  {
  }

  lemma PutAtOrdered(l: seq<nat>, k: nat, id: nat, pair: Pairs, r: seq<nat>)
    requires Known(l, pair) && id in pair && Ordered(l, pair) && NoRepeats(l) && id !in l
    requires k <= |l| && r == PutAt(l, k, id)
    requires k > 0 ==> pair[l[k - 1]].pprio >= pair[id].pprio
    requires forall i :: k <= i < |l| ==> pair[id].pprio >= pair[l[i]].pprio
    ensures Known(r, pair) && Ordered(r, pair) && NoRepeats(r)
  {
    hide PutAt;
    PutAtPointwise(l, k, id, r);
    forall i, j | 0 <= i < j < |r| ensures r[i] in pair && r[j] in pair && pair[r[i]].pprio >= pair[r[j]].pprio && r[i] != r[j] {
    }
    assert |r| > 0 && r[k] in pair;
    assert Known(r, pair) by {
      forall i | 0 <= i < |r| ensures r[i] in pair { }
    }
  }

  lemma {:induction false} RemoveMembers(l: seq<nat>, id: nat)
    requires NoRepeats(l)
    ensures NoRepeats(Remove(l, id))
    ensures forall x :: x in Remove(l, id) <==> x in l && x != id
    ensures |Remove(l, id)| <= |l|
  {
    if l != [] && l[0] != id {
      RemoveMembers(l[1..], id);
      var t := Remove(l[1..], id);
      forall i | 0 <= i < |t| ensures t[i] != l[0] {
        assert t[i] in t;
        assert t[i] in l[1..];
      }
    } else if l != [] {
      assert forall x :: x in l <==> x == id || x in l[1..];
    }
  }

  lemma TailNoRepeats(l: seq<nat>)
    requires NoRepeats(l) && l != []
    ensures NoRepeats(l[1..])
  {
  }

  lemma {:induction false} RemoveOrdered(l: seq<nat>, id: nat, pair: Pairs)
    requires Known(l, pair) && Ordered(l, pair) && NoRepeats(l)
    ensures Known(Remove(l, id), pair) && Ordered(Remove(l, id), pair)
  {
    hide NoRepeats;
    if l != [] && l[0] != id {
      TailNoRepeats(l);
      RemoveOrdered(l[1..], id, pair);
      RemoveMembers(l[1..], id);
      var t := Remove(l[1..], id);
      forall i | 0 <= i < |t| ensures t[i] in pair && pair[l[0]].pprio >= pair[t[i]].pprio {
        assert t[i] in t;
        var j :| 0 <= j < |l[1..]| && l[1..][j] == t[i];
        assert l[j + 1] == t[i];
      }
    }
  }

  // ---------------------------------------------------------------- ordering

  function PrioOf(pair: Pairs, id: nat): int { if id in pair then pair[id].pprio else -1 }

  /** sort_handler of the pair lists. */
  function HigherFirst(pair: Pairs): (nat, nat) -> bool {
    (a: nat, b: nat) => PrioOf(pair, a) >= PrioOf(pair, b)
  }

  lemma HigherFirstIsPreorder(pair: Pairs)
    ensures TotalPreorder(HigherFirst(pair))
  {
  }

  /** Sorting a list of pairs orders it, and neither loses nor repeats a pair. */
  lemma SortOrders(l: seq<nat>, pair: Pairs)
    requires Known(l, pair) && NoRepeats(l)
    ensures var r := StableSort(l, HigherFirst(pair));
            && Known(r, pair) && Ordered(r, pair) && NoRepeats(r)
            && |r| == |l| && forall x :: x in r <==> x in l
  {
    hide StableSort;
    var sh := HigherFirst(pair);
    var r := StableSort(l, sh);
    HigherFirstIsPreorder(pair);
    StableSortSorts(l, sh);
    SameMembers(l, r);
    SameMultisetNoRepeats(l, r);
    assert |r| == |multiset(r)| == |multiset(l)| == |l|;
    KnownByMembers(l, r, pair);
    forall i, j | 0 <= i < j < |r| ensures pair[r[i]].pprio >= pair[r[j]].pprio {
      assert sh(r[i], r[j]);
    }
  }

  lemma KnownByMembers(l: seq<nat>, r: seq<nat>, pair: Pairs)
    requires Known(l, pair) && forall x :: x in r ==> x in l
    ensures Known(r, pair)
  {
    forall i | 0 <= i < |r| ensures r[i] in pair {
      assert r[i] in r;
    }
  }

  // ---------------------------------------------------------------- pairs still to be checked

  /** How many pairs of the list are Waiting or Frozen. */
  function TodoCount(l: seq<nat>, pair: Pairs): nat {
    if l == [] then 0 else (if l[0] in pair && Todo(pair[l[0]]) then 1 else 0) + TodoCount(l[1..], pair)
  }

  lemma {:induction false} TodoFalls(l: seq<nat>, before: Pairs, after: Pairs)
    requires Known(l, before) && Kept(before, after)
    ensures TodoCount(l, after) <= TodoCount(l, before)
    ensures (exists id :: id in l && Todo(before[id]) && !Todo(after[id])) ==>
      TodoCount(l, after) < TodoCount(l, before)
  {
    if l != [] {
      TodoFalls(l[1..], before, after);
      assert PairKept(before[l[0]], after[l[0]]);
      if exists id :: id in l && Todo(before[id]) && !Todo(after[id]) {
        var id :| id in l && Todo(before[id]) && !Todo(after[id]);
        assert id == l[0] || id in l[1..];
      }
    }
  }

  // ---------------------------------------------------------------- the state invariant

  /** A component with its selected pair. */
  datatype Comp = Comp(id: nat, sel: Option<nat>, concluded: bool)

  /**
   * Check list and valid list share no pair, repeat none, and are each ordered by stored priority; every pair of
   * the valid list has succeeded or failed.
   */
  ghost predicate ListsOk(checkl: seq<nat>, validl: seq<nat>, pair: Pairs) {
    && Known(checkl, pair) && Known(validl, pair)
    && NoRepeats(checkl) && NoRepeats(validl)
    && (forall id :: id in checkl ==> id !in validl)
    && Ordered(checkl, pair) && Ordered(validl, pair)
    && (forall id :: id in validl ==> id in pair && Completed(pair[id]))
  }

  /** A concluded component has a selected pair; every selected pair is in the valid list. */
  ghost predicate CompsOk(comp: seq<Comp>, validl: seq<nat>) {
    forall i :: 0 <= i < |comp| ==>
      && (comp[i].concluded ==> comp[i].sel.Some?)
      && (comp[i].sel.Some? ==> comp[i].sel.value in validl)
  }

  /** A list that has not lost a member. */
  ghost predicate Grown(before: seq<nat>, after: seq<nat>) { forall x :: x in before ==> x in after }

  lemma CompsGrow(comp: seq<Comp>, before: seq<nat>, after: seq<nat>)
    requires CompsOk(comp, before) && Grown(before, after)
    ensures CompsOk(comp, after)
  {
  }

  lemma ListsKnown(checkl: seq<nat>, validl: seq<nat>, pair: Pairs)
    requires ListsOk(checkl, validl, pair)
    ensures Known(checkl, pair) && Known(validl, pair) && NoRepeats(checkl)
    ensures Ordered(checkl, pair) && Ordered(validl, pair)
  {
  }

  /** A component keeps its id, never loses a selection again, and once concluded stays concluded. */
  ghost predicate CompsKept(before: seq<Comp>, after: seq<Comp>) {
    && |after| == |before|
    && forall i :: 0 <= i < |before| ==>
         && after[i].id == before[i].id
         && (before[i].sel.Some? ==> after[i].sel.Some?)
         && (before[i].concluded ==> after[i].concluded)
  }

  lemma CompsKeptTransitive(a: seq<Comp>, b: seq<Comp>, c: seq<Comp>)
    requires CompsKept(a, b) && CompsKept(b, c)
    ensures CompsKept(a, c)
  {
  }

  lemma CompsKeptSame(a: seq<Comp>)
    ensures CompsKept(a, a)
  {
  }

  lemma CompSelect(comp: seq<Comp>, validl: seq<nat>, i: nat, id: nat)
    requires CompsOk(comp, validl) && i < |comp| && id in validl
    ensures var after := comp[i := comp[i].(sel := Some(id))];
            CompsOk(after, validl) && CompsKept(comp, after) && after[i].sel.Some?
  {
  }

  lemma CompConclude(comp: seq<Comp>, validl: seq<nat>, i: nat)
    requires CompsOk(comp, validl) && i < |comp| && comp[i].sel.Some?
    ensures var after := comp[i := comp[i].(concluded := true)];
            CompsOk(after, validl) && CompsKept(comp, after)
  {
  }

  /** Some pair of the valid list belongs to the component. */
  ghost predicate ValidFor(validl: seq<nat>, pair: Pairs, compid: nat) {
    exists x :: x in validl && x in pair && pair[x].lcand.compid == compid
  }

  /** Which components have a valid pair does not depend on states and selections. */
  lemma ValidForKept(validl: seq<nat>, before: Pairs, after: Pairs, compid: nat)
    requires Known(validl, before) && Kept(before, after)
    ensures ValidFor(validl, after, compid) <==> ValidFor(validl, before, compid)
  {
    forall x | x in before ensures x in after && after[x].lcand == before[x].lcand {
      assert PairKept(before[x], after[x]);
    }
  }

  // ---------------------------------------------------------------- what belongs together

  /** A pair's candidates are of its component, which has an id from 1 on; the remote one is a known candidate. */
  predicate Mated(p: Pair, rcandl: seq<Cand>) {
    p.compid != 0 && p.lcand.compid == p.compid && p.rcand.compid == p.compid && p.rcand in rcandl
  }

  predicate CompIdsOk(comp: seq<Comp>) {
    && (forall i :: 0 <= i < |comp| ==> comp[i].id != 0)
    && forall i, j :: 0 <= i < j < |comp| ==> comp[i].id != comp[j].id
  }

  /** No two candidates share an identity, and the next one is free. */
  predicate CandIdsOk(rcandl: seq<Cand>, nextCand: nat) {
    && (forall i, j :: 0 <= i < j < |rcandl| ==> rcandl[i].id != rcandl[j].id)
    && forall i :: 0 <= i < |rcandl| ==> rcandl[i].id < nextCand
  }

  /** Pairs are made of candidates of one component, and the selected pair of a component is one of its own. */
  ghost predicate Tied(pair: Pairs, comp: seq<Comp>, rcandl: seq<Cand>, nextCand: nat) {
    && CompIdsOk(comp) && CandIdsOk(rcandl, nextCand)
    && (forall id :: id in pair ==> Mated(pair[id], rcandl))
    && forall i :: 0 <= i < |comp| && comp[i].sel.Some? ==>
         comp[i].sel.value in pair && pair[comp[i].sel.value].compid == comp[i].id
  }

  lemma TiedKept(before: Pairs, after: Pairs, comp: seq<Comp>, rcandl: seq<Cand>, nextCand: nat)
    requires Tied(before, comp, rcandl, nextCand) && Kept(before, after) && after.Keys == before.Keys
    ensures Tied(after, comp, rcandl, nextCand)
  {
    forall id | id in before ensures Mated(after[id], rcandl) && after[id].compid == before[id].compid {
      assert PairKept(before[id], after[id]);
    }
  }

  lemma TiedChange(before: Pairs, id: nat, q: Pair, comp: seq<Comp>, rcandl: seq<Cand>, nextCand: nat)
    requires Tied(before, comp, rcandl, nextCand) && id in before && PairKept(before[id], q)
    ensures Tied(before[id := q], comp, rcandl, nextCand)
  {
  }

  lemma TiedAdded(before: Pairs, id: nat, p: Pair, comp: seq<Comp>, rcandl: seq<Cand>, nextCand: nat)
    requires Tied(before, comp, rcandl, nextCand) && Below(before, id) && Mated(p, rcandl)
    ensures Tied(before[id := p], comp, rcandl, nextCand)
  {
    assert id !in before;
  }

  lemma TiedSelect(pair: Pairs, comp: seq<Comp>, i: nat, id: nat, rcandl: seq<Cand>, nextCand: nat)
    requires Tied(pair, comp, rcandl, nextCand) && i < |comp| && id in pair && pair[id].compid == comp[i].id
    ensures Tied(pair, comp[i := comp[i].(sel := Some(id))], rcandl, nextCand)
  {
  }

  lemma TiedConclude(pair: Pairs, comp: seq<Comp>, i: nat, rcandl: seq<Cand>, nextCand: nat)
    requires Tied(pair, comp, rcandl, nextCand) && i < |comp|
    ensures Tied(pair, comp[i := comp[i].(concluded := true)], rcandl, nextCand)
  {
  }

  lemma TiedCand(pair: Pairs, comp: seq<Comp>, rcandl: seq<Cand>, nextCand: nat, c: Cand)
    requires Tied(pair, comp, rcandl, nextCand) && c.id == nextCand
    ensures Tied(pair, comp, rcandl, nextCand + 1) && Tied(pair, comp, rcandl + [c], nextCand + 1)
  {
  }

  lemma TiedMeans(pair: Pairs, comp: seq<Comp>, rcandl: seq<Cand>, nextCand: nat, id: nat)
    requires Tied(pair, comp, rcandl, nextCand)
    ensures CompIdsOk(comp) && CandIdsOk(rcandl, nextCand) && (id in pair ==> Mated(pair[id], rcandl))
  {
  }

  /** Remote candidates are told apart by their identities. */
  lemma SameRemote(rcandl: seq<Cand>, nextCand: nat, c: Cand, d: Cand)
    requires CandIdsOk(rcandl, nextCand) && c in rcandl && d in rcandl && c.id == d.id
    ensures c == d
  {
  }

  ghost predicate Below(pair: Pairs, next: nat) { forall id :: id in pair ==> id < next }

  /** Lists are unaffected by changes that touch no stored priority and let ended pairs be. */
  lemma PairsChange(checkl: seq<nat>, validl: seq<nat>, before: Pairs, after: Pairs)
    requires ListsOk(checkl, validl, before)
    requires forall id :: id in before ==>
      id in after && after[id].pprio == before[id].pprio && (Completed(before[id]) ==> Completed(after[id]))
    ensures ListsOk(checkl, validl, after)
  {
  }

  lemma PairChange(checkl: seq<nat>, validl: seq<nat>, next: nat, before: Pairs, id: nat, q: Pair)
    requires ListsOk(checkl, validl, before) && Below(before, next)
    requires id in before && PairKept(before[id], q) && q.pprio == before[id].pprio
    ensures var after := before[id := q];
            ListsOk(checkl, validl, after) && Below(after, next) && Kept(before, after) && after.Keys == before.Keys
  {
    var after := before[id := q];
    PairsChange(checkl, validl, before, after);
  }

  /** A pair taken out of both lists and put into the valid list at its place. */
  method MovedToValid(checkl: seq<nat>, validl: seq<nat>, id: nat, pair: Pairs)
    returns (checkl': seq<nat>, validl': seq<nat>)
    requires ListsOk(checkl, validl, pair) && id in pair && Completed(pair[id])
    ensures ListsOk(checkl', validl', pair)
    ensures forall x :: x in checkl' <==> x in checkl && x != id
    ensures forall x :: x in validl' <==> x == id || x in validl
  {
    RemoveMembers(checkl, id);
    RemoveMembers(validl, id);
    RemoveOrdered(checkl, id, pair);
    RemoveOrdered(validl, id, pair);
    checkl' := Remove(checkl, id);
    ghost var k;
    validl', k := AddSorted(Remove(validl, id), id, pair);
  }

  /** A pair that was not there before: in no list, and it disturbs none. */
  lemma PairAdded(checkl: seq<nat>, validl: seq<nat>, next: nat, before: Pairs, p: Pair)
    requires ListsOk(checkl, validl, before) && Below(before, next)
    ensures var after := before[next := p];
            && ListsOk(checkl, validl, after) && Below(after, next + 1)
            && Kept(before, after) && next !in checkl && next !in validl
  {
    var after := before[next := p];
    assert next !in before;
    PairsChange(checkl, validl, before, after);
  }

  /** A new pair added to the check list at its place. */
  method AddedToCheck(checkl: seq<nat>, validl: seq<nat>, id: nat, pair: Pairs) returns (checkl': seq<nat>)
    requires ListsOk(checkl, validl, pair) && id in pair && id !in checkl && id !in validl
    ensures ListsOk(checkl', validl, pair)
    ensures forall x :: x in checkl' <==> x == id || x in checkl
  {
    ghost var k;
    checkl', k := AddSorted(checkl, id, pair);
  }

  /** The priorities of the listed pairs recomputed for a role. */
  ghost predicate Recomputed(l: seq<nat>, before: Pairs, after: Pairs, role: Role) {
    && after.Keys == before.Keys
    && forall x :: x in before ==>
         after[x] == if x in l then before[x].(pprio := PPrio(role, before[x].lcand.prio, before[x].rcand.prio))
                     else before[x]
  }

  /** The loop of icem_candpair_prio_order. */
  method Recompute(l: seq<nat>, before: Pairs, role: Role) returns (after: Pairs)
    requires Known(l, before)
    ensures Recomputed(l, before, after, role)
  {
    after := before;
    for i := 0 to |l|
      invariant Recomputed(l[..i], before, after, role)
    {
      assert l[..i + 1] == l[..i] + [l[i]];
      after := after[l[i] := after[l[i]].(pprio := PPrio(role, after[l[i]].lcand.prio, after[l[i]].rcand.prio))];
    }
    assert l[..|l|] == l;
  }

  /** With new priorities on the check list only, sorting that list restores the invariant. */
  lemma Reordered(checkl: seq<nat>, validl: seq<nat>, next: nat, before: Pairs, after: Pairs, role: Role)
    requires ListsOk(checkl, validl, before) && Below(before, next)
    requires Recomputed(checkl, before, after, role)
    ensures Kept(before, after) && Below(after, next)
    ensures ListsOk(StableSort(checkl, HigherFirst(after)), validl, after)
  {
    hide StableSort;
    SortOrders(checkl, after);
    assert Known(validl, after) && Ordered(validl, after) by {
      forall i | 0 <= i < |validl| ensures validl[i] in after && after[validl[i]] == before[validl[i]] {
        assert validl[i] in validl;
      }
    }
  }

  // ---------------------------------------------------------------- purging relayed pairs

  predicate Relayed(p: Pair, compid: nat) { p.lcand.compid == compid && p.lcand.typ == Relay }

  /** The list without the pairs of a component whose local candidate is relayed. */
  function Unrelayed(l: seq<nat>, pair: Pairs, compid: nat): seq<nat> {
    if l == [] then []
    else
      var n := |l| - 1;
      Unrelayed(l[..n], pair, compid) + if l[n] in pair && Relayed(pair[l[n]], compid) then [] else [l[n]]
  }

  lemma {:induction false} UnrelayedMembers(l: seq<nat>, pair: Pairs, compid: nat)
    ensures forall x :: x in Unrelayed(l, pair, compid) <==> x in l && !(x in pair && Relayed(pair[x], compid))
  {
    if l != [] {
      var n := |l| - 1;
      UnrelayedMembers(l[..n], pair, compid);
      assert l == l[..n] + [l[n]];
    }
  }

  lemma {:induction false} UnrelayedOrdered(l: seq<nat>, pair: Pairs, compid: nat)
    requires Known(l, pair) && NoRepeats(l) && Ordered(l, pair)
    ensures var r := Unrelayed(l, pair, compid); Known(r, pair) && NoRepeats(r) && Ordered(r, pair)
  {
    hide Relayed;
    if l != [] {
      var n := |l| - 1;
      var front, r := Unrelayed(l[..n], pair, compid), Unrelayed(l, pair, compid);
      UnrelayedOrdered(l[..n], pair, compid);
      UnrelayedMembers(l[..n], pair, compid);
      forall i | 0 <= i < |front| ensures front[i] != l[n] && pair[front[i]].pprio >= pair[l[n]].pprio {
        assert front[i] in front;
        var k :| 0 <= k < n && l[k] == front[i];
      }
    }
  }

  /** icem_candpairs_flush, for relayed candidates. */
  method Flush(l: seq<nat>, pair: Pairs, compid: nat) returns (r: seq<nat>)
    requires Known(l, pair)
    ensures r == Unrelayed(l, pair, compid)
  {
    r := [];
    for i := 0 to |l|
      invariant r == Unrelayed(l[..i], pair, compid)
    {
      assert l[..i + 1][..i] == l[..i];
      if pair[l[i]].lcand.compid != compid || pair[l[i]].lcand.typ != Relay {
        r := r + [l[i]];
      }
    }
    assert l[..|l|] == l;
  }

  /** Purging for a component whose selected pair is not relayed keeps the lists in order and every selection. */
  lemma PurgeKeeps(checkl: seq<nat>, validl: seq<nat>, pair: Pairs, comp: seq<Comp>, rcandl: seq<Cand>, nextCand: nat,
                   i: nat)
    requires ListsOk(checkl, validl, pair) && CompsOk(comp, validl) && Tied(pair, comp, rcandl, nextCand)
    requires i < |comp| && comp[i].sel.Some? && comp[i].sel.value in pair
    requires pair[comp[i].sel.value].lcand.typ != Relay
    ensures var checkl', validl' := Unrelayed(checkl, pair, comp[i].id), Unrelayed(validl, pair, comp[i].id);
            ListsOk(checkl', validl', pair) && CompsOk(comp, validl')
  {
    UnrelayedOrdered(checkl, pair, comp[i].id);
    UnrelayedOrdered(validl, pair, comp[i].id);
    UnrelayedMembers(checkl, pair, comp[i].id);
    UnrelayedMembers(validl, pair, comp[i].id);
    forall j | 0 <= j < |comp| && comp[j].sel.Some? ensures !Relayed(pair[comp[j].sel.value], comp[i].id) {
      assert Mated(pair[comp[j].sel.value], rcandl);
    }
  }

  /** A pair with a relayed local candidate, of one of the first `n` components whose selected pair has another. */
  predicate Purged(pair: Pairs, comp: seq<Comp>, n: nat, x: nat) {
    exists i :: 0 <= i < n && i < |comp| && Unused(pair, comp[i]) && x in pair && Relayed(pair[x], comp[i].id)
  }

  /** The selected pair is not relayed. */
  predicate Unused(pair: Pairs, c: Comp) {
    c.sel.Some? && c.sel.value in pair && pair[c.sel.value].lcand.typ != Relay
  }

  lemma PurgedNext(pair: Pairs, comp: seq<Comp>, n: nat, x: nat)
    requires n < |comp|
    ensures Purged(pair, comp, n + 1, x) <==>
            Purged(pair, comp, n, x) || (Unused(pair, comp[n]) && x in pair && Relayed(pair[x], comp[n].id))
  {
  }

  /** Only relayed pairs have left the list. */
  ghost predicate OnlyRelayedLost(before: seq<nat>, after: seq<nat>, pair: Pairs) {
    forall x :: x in before ==> x in after || (x in pair && pair[x].lcand.typ == Relay)
  }

  lemma LostTransitive(a: seq<nat>, b: seq<nat>, c: seq<nat>, p: Pairs, q: Pairs)
    requires OnlyRelayedLost(a, b, p) && OnlyRelayedLost(b, c, q) && Kept(p, q)
    ensures OnlyRelayedLost(a, c, q)
  {
    StaysPaired(p, q);
  }

  // ---------------------------------------------------------------- searching

  /** A pair in a state, of one component or of any (0). */
  predicate Wanted(p: Pair, compid: nat, st: PairState) {
    (compid == 0 || p.lcand.compid == compid) && p.state == st
  }

  /** The best pair of a list that is wanted: no other wanted one has a higher priority. */
  ghost predicate BestWanted(r: Option<nat>, l: seq<nat>, pair: Pairs, compid: nat, st: PairState) {
    match r
    case None => forall x :: x in l && x in pair ==> !Wanted(pair[x], compid, st)
    case Some(id) =>
      && id in l && id in pair && Wanted(pair[id], compid, st)
      && forall x :: x in l && x in pair && Wanted(pair[x], compid, st) ==> pair[x].pprio <= pair[id].pprio
  }

  ghost predicate SameRanks(before: Pairs, after: Pairs) {
    forall id :: id in before ==> id in after && after[id].pprio == before[id].pprio
  }

  /** A selection is the old one or the best pair of the valid list that has succeeded. */
  ghost predicate Reselected(before: seq<Comp>, after: seq<Comp>, validl: seq<nat>, pair: Pairs) {
    && |after| == |before|
    && forall i :: 0 <= i < |before| ==>
         after[i].sel == before[i].sel || BestWanted(after[i].sel, validl, pair, before[i].id, Succeeded)
  }

  /** What checking and concluding keep, on top of what every step keeps. */
  ghost predicate Checked(c0: seq<Comp>, p0: Pairs, c1: seq<Comp>, p1: Pairs, validl: seq<nat>) {
    Kept(p0, p1) && CompsKept(c0, c1) && SameRanks(p0, p1) && Reselected(c0, c1, validl, p1)
  }

  /** As the pairs of the valid list have ended, the best of them stays the best. */
  lemma BestKept(r: Option<nat>, checkl: seq<nat>, validl: seq<nat>, before: Pairs, after: Pairs, compid: nat)
    requires ListsOk(checkl, validl, before) && Kept(before, after) && SameRanks(before, after)
    ensures BestWanted(r, validl, after, compid, Succeeded) <==> BestWanted(r, validl, before, compid, Succeeded)
  {
    hide NoRepeats, Ordered;
    forall x | x in validl
      ensures x in before && x in after && after[x].pprio == before[x].pprio
      ensures Wanted(after[x], compid, Succeeded) <==> Wanted(before[x], compid, Succeeded)
    {
      assert PairKept(before[x], after[x]);
    }
  }

  lemma CheckedTransitive(checkl: seq<nat>, validl: seq<nat>, c0: seq<Comp>, p0: Pairs, c1: seq<Comp>, p1: Pairs,
                          c2: seq<Comp>, p2: Pairs)
    requires ListsOk(checkl, validl, p1) && Checked(c0, p0, c1, p1, validl) && Checked(c1, p1, c2, p2, validl)
    ensures Checked(c0, p0, c2, p2, validl) && Kept(p0, p2) && CompsKept(c0, c2) && |c2| == |c0|
  {
    hide ListsOk, Kept, CompsKept, BestWanted;
    KeptTransitive(p0, p1, p2);
    CompsKeptTransitive(c0, c1, c2);
    forall i | 0 <= i < |c0|
      ensures c2[i].sel == c0[i].sel || BestWanted(c2[i].sel, validl, p2, c0[i].id, Succeeded)
    {
      SameIds(c0, c1, i);
      BestKept(c1[i].sel, checkl, validl, p1, p2, c0[i].id);
    }
  }

  lemma SameIds(before: seq<Comp>, after: seq<Comp>, i: nat)
    requires CompsKept(before, after) && i < |before|
    ensures i < |after| && after[i].id == before[i].id && (before[i].sel.Some? ==> after[i].sel.Some?)
    ensures before[i].concluded ==> after[i].concluded
  {
  }

  lemma PairsChecked(comp: seq<Comp>, validl: seq<nat>, before: Pairs, after: Pairs)
    requires Kept(before, after) && SameRanks(before, after)
    ensures Checked(comp, before, comp, after, validl)
  {
  }

  lemma CompsChecked(before: seq<Comp>, after: seq<Comp>, validl: seq<nat>, pair: Pairs)
    requires CompsKept(before, after) && Reselected(before, after, validl, pair)
    ensures Checked(before, pair, after, pair, validl)
  {
  }

  /** icem_candpair_find_st: the first pair of the list in a state; the list being ordered, the best one. */
  method FindSt(l: seq<nat>, pair: Pairs, compid: nat, st: PairState) returns (r: Option<nat>)
    requires Known(l, pair) && Ordered(l, pair)
    ensures BestWanted(r, l, pair, compid, st)
  {
    for i := 0 to |l|
      invariant forall j :: 0 <= j < i ==> !Wanted(pair[l[j]], compid, st)
    {
      if Wanted(pair[l[i]], compid, st) {
        forall x | x in l && Wanted(pair[x], compid, st) ensures pair[x].pprio <= pair[l[i]].pprio {
          var j :| 0 <= j < |l| && l[j] == x;
        }
        return Some(l[i]);
      }
    }
    r := None;
  }

  /** icem_candpair_find: the first pair of the list with the given candidates, either of them optional. */
  method Find(l: seq<nat>, pair: Pairs, lcand: Option<Cand>, rcand: Option<Cand>) returns (r: Option<nat>)
    requires Known(l, pair)
    ensures r.Some? ==> r.value in l && Matches(pair[r.value], lcand, rcand)
    ensures r.None? ==> forall x :: x in l ==> !Matches(pair[x], lcand, rcand)
  {
    for i := 0 to |l|
      invariant forall j :: 0 <= j < i ==> !Matches(pair[l[j]], lcand, rcand)
    {
      if Matches(pair[l[i]], lcand, rcand) {
        return Some(l[i]);
      }
    }
    r := None;
  }

  /** Candidates are compared by identity. */
  predicate Matches(p: Pair, lcand: Option<Cand>, rcand: Option<Cand>) {
    (lcand.Some? ==> p.lcand.id == lcand.value.id) && (rcand.Some? ==> p.rcand.id == rcand.value.id)
  }

  /** icem_candpair_find_compid. */
  method FindCompid(l: seq<nat>, pair: Pairs, compid: nat) returns (r: Option<nat>)
    requires Known(l, pair)
    ensures r.Some? ==> r.value in l && pair[r.value].lcand.compid == compid
    ensures r.None? ==> forall x :: x in l ==> pair[x].lcand.compid != compid
  {
    for i := 0 to |l|
      invariant forall j :: 0 <= j < i ==> pair[l[j]].lcand.compid != compid
    {
      if pair[l[i]].lcand.compid == compid {
        return Some(l[i]);
      }
    }
    r := None;
  }

  /** icem_cand_find: the first candidate of a component (0 for any) with an address, if one is given. */
  method FindCand(l: seq<Cand>, compid: nat, addr: Option<Sa>) returns (r: Option<Cand>)
    ensures r.Some? ==> r.value in l && (compid != 0 ==> r.value.compid == compid) && (addr.Some? ==> r.value.addr == addr.value)
    ensures r.None? ==> forall c :: c in l && (addr.Some? ==> c.addr == addr.value) ==> compid != 0 && c.compid != compid
  {
    for i := 0 to |l|
      invariant forall j :: 0 <= j < i && (addr.Some? ==> l[j].addr == addr.value) ==> compid != 0 && l[j].compid != compid
    {
      if (compid == 0 || l[i].compid == compid) && (addr.None? || l[i].addr == addr.value) {
        return Some(l[i]);
      }
    }
    r := None;
  }
}
