/** One ICE media stream: forming its check list and running connectivity checks on it. */
module Ice {
  import opened Base
  import opened StableSorting
  import opened IcePriority
  import opened IceRoles
  import opened IceLists
  import opened IceForm

  datatype CheckState = Null | Running | CompletedList | FailedList

  datatype Error = EINVAL | ENOENT | EALREADY | EBUSY | ENOMEM | EOTHER

  /** What comes back for a connectivity check. */
  datatype Response = NoResponse | Success(mapped: Option<Sa>) | RoleConflict | Refused

  /** What a request is answered with, as far as the model tells: a conflict, a missing attribute, or anything else. */
  datatype Reply = RoleConflictReply | NoPriority | OtherReply

  datatype Event =
    | AddLocal(c: Cand)
    | AddRemote(c: Cand)
    | StartChecks
    | PaceTimeout
    | Answer(id: nat, resp: Response)
    | Request(i: nat, src: Sa, prio: Option<u32>, useCand: bool, rrole: Role, tiebrk: nat)
    | StopChecks(failed: bool)
    | UpdateMedia

  class Icem {
    var lcandl: seq<Cand>
    var rcandl: seq<Cand>
    var checkl: seq<nat>
    var validl: seq<nat>
    /** Every pair ever allocated, by identity. */
    var pair: Pairs
    var next: nat
    /** Identity for the next candidate found while checking. */
    var nextCand: nat
    var comp: seq<Comp>
    var role: Role
    var state: CheckState
    /** ICE_MODE_LITE, ICE_NOMINATION_REGULAR and "first media stream of the session". */
    const lite: bool
    const regular: bool
    const first: bool
    /** The tie-breaker of the session. */
    const tiebrk: nat

    ghost predicate Valid()
      reads this
    {
      ListsOk(checkl, validl, pair) && CompsOk(comp, validl) && Below(pair, next) && Tied(pair, comp, rcandl, nextCand)
    }

    /** What every step keeps, between two states. */
    twostate predicate Progress()
      reads this
    {
      Kept(old(pair), pair) && old(next) <= next && CompsKept(old(comp), comp) && Grown(old(validl), validl)
    }

    /** What every event keeps, an update included. */
    twostate predicate Onward()
      reads this
    {
      && Kept(old(pair), pair) && old(next) <= next && CompsKept(old(comp), comp)
      && OnlyRelayedLost(old(validl), validl, pair)
    }

    /** Component ids start at 1 and do not repeat: icem_comp_add refuses others. */
    constructor (compids: seq<nat>, role: Role, lite: bool, regular: bool, first: bool, tiebrk: nat)
      requires NoRepeats(compids) && 0 !in compids
      ensures Valid() && checkl == [] && validl == [] && pair == map[] && state == Null
      ensures lcandl == [] && rcandl == [] && this.role == role
      ensures this.lite == lite && this.first == first && this.regular == regular && this.tiebrk == tiebrk
      ensures |comp| == |compids| && forall i :: 0 <= i < |comp| ==> comp[i] == Comp(compids[i], None, false)
    {
      lcandl, rcandl, nextCand, this.role := [], [], 0, role;
      this.lite, this.regular, this.first, this.tiebrk := lite, regular, first, tiebrk;
      checkl, validl, pair, next, state := [], [], map[], 0, Null;
      comp := seq(|compids|, i requires 0 <= i < |compids| => Comp(compids[i], None, false));
    }

    // -------------------------------------------------------------- candpair.c

    /** A pair sent to a state; one that has succeeded or failed does not follow. */
    function Ended(p: Pair, st: PairState): Pair { if Completed(p) then p else p.(state := st) }

    /** icem_candpair_set_state: a completed pair never changes state. */
    method SetState(id: nat, st: PairState)
      requires Valid() && id in pair && (Todo(pair[id]) || (st != Waiting && st != Frozen) || Completed(pair[id]))
      modifies this`pair
      ensures Valid() && Progress() && pair.Keys == old(pair.Keys)
      ensures pair == old(pair)[id := Ended(old(pair)[id], st)]
    {
      hide ListsOk, CompsOk, Below, Tied, Kept, CompsKept;
      CompsKeptSame(comp);
      var p := pair[id];
      ghost var q := Ended(p, st);
      PairChange(checkl, validl, next, pair, id, q);
      TiedChange(pair, id, q, comp, rcandl, nextCand);
      if p.state == st || Completed(p) {
        assert pair == pair[id := q];
        return;
      }
      pair := pair[id := p.(state := st)];
    }

    /** icem_candpair_failed. */
    method Fail(id: nat)
      requires Valid() && id in pair
      modifies this`pair
      ensures Valid() && Progress() && pair.Keys == old(pair.Keys)
      ensures pair == old(pair)[id := Ended(old(pair)[id], Failed).(valid := false)] && Completed(pair[id])
    {
      hide ListsOk, CompsOk, Below, Tied, Kept, CompsKept;
      CompsKeptSame(comp);
      PairChange(checkl, validl, next, pair, id, pair[id].(valid := false));
      TiedChange(pair, id, pair[id].(valid := false), comp, rcandl, nextCand);
      ghost var before := pair;
      pair := pair[id := pair[id].(valid := false)];
      ghost var mid := pair;
      SetState(id, Failed);
      KeptTransitive(before, mid, pair);
    }

    /** icem_candpair_make_valid: the pair moves to the valid list, whichever list it was in. */
    method MakeValid(id: nat)
      requires Valid() && id in pair
      modifies this`pair, this`checkl, this`validl
      ensures Valid() && Progress() && pair.Keys == old(pair.Keys)
      ensures pair == old(pair)[id := Ended(old(pair)[id], Succeeded).(valid := true)] && Completed(pair[id])
      ensures forall x :: x in checkl <==> x in old(checkl) && x != id
      ensures forall x :: x in validl <==> x == id || x in old(validl)
    {
      hide ListsOk, CompsOk, Below, Tied, Kept, CompsKept;
      CompsKeptSame(comp);
      PairChange(checkl, validl, next, pair, id, pair[id].(valid := true));
      TiedChange(pair, id, pair[id].(valid := true), comp, rcandl, nextCand);
      ghost var before := pair;
      pair := pair[id := pair[id].(valid := true)];
      ghost var mid := pair;
      SetState(id, Succeeded);
      KeptTransitive(before, mid, pair);
      ghost var v := validl;
      checkl, validl := MovedToValid(checkl, validl, id, pair);
      CompsGrow(comp, v, validl);
    }

    /** icem_comp_find: the index of the component with an id. */
    method FindComp(compid: nat) returns (r: Option<nat>)
      ensures r.Some? ==> r.value < |comp| && comp[r.value].id == compid
      ensures r.None? ==> !HasComp(comp, compid)
    {
      for i := 0 to |comp|
        invariant forall j :: 0 <= j < i ==> comp[j].id != compid
      {
        if comp[i].id == compid {
          return Some(i);
        }
      }
      r := None;
    }

    /** icem_candpair_alloc: a frozen pair, put into the check list by its priority. */
    method Alloc(lcand: Cand, rcand: Cand) returns (r: Option<nat>)
      requires Valid() && rcand in rcandl && rcand.compid == lcand.compid
      modifies this`pair, this`checkl, this`next
      ensures Valid() && Progress()
      ensures r.None? <==> !HasComp(comp, lcand.compid)
      ensures r.None? ==> unchanged(this)
      ensures r.Some? ==>
        && r.value == old(next) && next == old(next) + 1
        && pair == old(pair)[r.value := Pair(lcand, rcand, lcand.compid, Frozen, PPrio(role, lcand.prio, rcand.prio), false, false, false)]
        && forall x :: x in checkl <==> x == r.value || x in old(checkl)
    {
      hide ListsOk, CompsOk, Below, Tied, Kept, CompsKept;
      CompsKeptSame(comp);
      var c := FindComp(lcand.compid);
      if c.None? {
        KeptSame(pair);
        return None;
      }
      var p := Pair(lcand, rcand, lcand.compid, Frozen, PPrio(role, lcand.prio, rcand.prio), false, false, false);
      PairAdded(checkl, validl, next, pair, p);
      TiedMeans(pair, comp, rcandl, nextCand, next);
      TiedAdded(pair, next, p, comp, rcandl, nextCand);
      var id := next;
      pair := pair[id := p];
      next := next + 1;
      checkl := AddedToCheck(checkl, validl, id, pair);
      r := Some(id);
    }

    /** icem_candpair_clone: a copy with other candidates, at its place in the check list. */
    method Clone(id0: nat, lcand: Cand, rcand: Cand) returns (id: nat)
      requires Valid() && id0 in pair && rcand in rcandl
      requires lcand.compid == pair[id0].lcand.compid && rcand.compid == pair[id0].rcand.compid
      modifies this`pair, this`checkl, this`next
      ensures Valid() && Progress()
      ensures id == old(next) && pair == old(pair)[id := old(pair)[id0].(lcand := lcand, rcand := rcand, busy := false)]
      ensures forall x :: x in checkl <==> x == id || x in old(checkl)
    {
      hide ListsOk, CompsOk, Below, Tied, Kept, CompsKept;
      CompsKeptSame(comp);
      var p := pair[id0].(lcand := lcand, rcand := rcand, busy := false);
      PairAdded(checkl, validl, next, pair, p);
      TiedMeans(pair, comp, rcandl, nextCand, id0);
      TiedAdded(pair, next, p, comp, rcandl, nextCand);
      id := next;
      pair := pair[id := p];
      next := next + 1;
      checkl := AddedToCheck(checkl, validl, id, pair);
    }

    /** icem_candpair_prio_order on the check list: priorities recomputed for the current role, list sorted. */
    method PrioOrder()
      requires Valid()
      modifies this`pair, this`checkl
      ensures Valid() && Progress() && pair.Keys == old(pair.Keys)
      ensures |checkl| == |old(checkl)| && forall x :: x in checkl <==> x in old(checkl)
      ensures Recomputed(old(checkl), old(pair), pair, role)
      ensures checkl == StableSort(old(checkl), HigherFirst(pair))
    {
      hide ListsOk, CompsOk, Below, Tied, Kept, CompsKept, StableSort;
      CompsKeptSame(comp);
      ListsKnown(checkl, validl, pair);
      var after := Recompute(checkl, pair, role);
      Reordered(checkl, validl, next, pair, after, role);
      TiedKept(pair, after, comp, rcandl, nextCand);
      SortOrders(checkl, after);
      pair := after;
      checkl := StableSort(checkl, HigherFirst(pair));
    }

    /** ice_switch_local_role, as it acts on this stream. */
    method SwitchRole()
      requires Valid()
      modifies this`role, this`pair, this`checkl
      ensures Valid() && Progress() && role == Opposite(old(role))
      ensures pair.Keys == old(pair.Keys) && forall x :: x in checkl <==> x in old(checkl)
      ensures Recomputed(old(checkl), old(pair), pair, role) && checkl == StableSort(old(checkl), HigherFirst(pair))
    {
      role := Opposite(role);
      PrioOrder();
    }

    /** icem_comp_set_selected. */
    method SetSelected(i: nat, id: nat)
      requires Valid() && i < |comp| && id in validl && id in pair && pair[id].compid == comp[i].id
      modifies this`comp
      ensures Valid() && Progress() && comp == old(comp)[i := old(comp)[i].(sel := Some(id))]
    {
      hide ListsOk, CompsOk, Below, Tied, Kept, CompsKept;
      KeptSame(pair);
      CompSelect(comp, validl, i, id);
      TiedSelect(pair, comp, i, id, rcandl, nextCand);
      comp := comp[i := comp[i].(sel := Some(id))];
    }

    // -------------------------------------------------------------- connchk.c

    /** icem_conncheck_send: the pair goes in progress, whether or not the request leaves. */
    method ConncheckSend(id: nat) returns (err: Option<Error>)
      requires Valid() && id in pair
      modifies this`pair
      ensures Valid() && Progress() && pair.Keys == old(pair.Keys) && !Todo(pair[id])
      ensures pair == old(pair)[id := Ended(old(pair)[id], InProgress).(busy := old(pair)[id].busy || err.None?)]
      ensures err.None? ==> !old(pair)[id].busy
    {
      hide ListsOk, CompsOk, Below, Tied, Kept, CompsKept;
      CompsKeptSame(comp);
      ghost var before := pair;
      SetState(id, InProgress);
      if role == Unknown {
        return Some(EINVAL);
      }
      if pair[id].busy {
        return Some(EBUSY);
      }
      err := *;
      if err.None? {
        ghost var mid := pair;
        PairChange(checkl, validl, next, pair, id, pair[id].(busy := true));
        TiedChange(pair, id, pair[id].(busy := true), comp, rcandl, nextCand);
        pair := pair[id := pair[id].(busy := true)];
        KeptTransitive(before, mid, pair);
      }
    }

    /** abort_ice. */
    method Abort()
      modifies this`state
      ensures state == FailedList
    {
      state := FailedList;
    }

    /** What checking and concluding keep, between two states. */
    twostate predicate Checking()
      reads this
    {
      Checked(old(comp), old(pair), comp, pair, validl)
    }

    /** do_check: a failed send fails the pair and goes on with the next one. */
    method DoCheck(id: nat)
      requires Valid() && id in checkl && id in pair && Todo(pair[id])
      modifies this`pair, this`comp, this`state
      ensures Valid() && Progress() && Checking() && TodoCount(checkl, pair) < old(TodoCount(checkl, pair))
      ensures id in pair && !Todo(pair[id])
      decreases TodoCount(checkl, pair), 0
    {
      hide ListsOk, CompsOk, Below, Tied, Kept, CompsKept, Checked;
      ListsKnown(checkl, validl, pair);
      ghost var p0, c0 := pair, comp;
      var err := ConncheckSend(id);
      ghost var p1 := pair;
      TodoFalls(checkl, p0, p1);
      PairsChecked(c0, validl, p0, p1);
      if err.Some? {
        Fail(id);
        ghost var p2 := pair;
        ListsKnown(checkl, validl, p1);
        TodoFalls(checkl, p1, p2);
        PairsChecked(c0, validl, p1, p2);
        CheckedTransitive(checkl, validl, c0, p0, c0, p1, c0, p2);
        if err == Some(ENOMEM) {
          Abort();
        } else {
          PaceNext();
          StaysDone(p2, pair, id);
          CheckedTransitive(checkl, validl, c0, p0, c0, p2, comp, pair);
        }
      }
    }

    /** icem_conncheck_schedule_check: checks the best waiting pair, or else the best frozen one. */
    method ScheduleCheck() returns (ghost picked: Option<nat>)
      requires Valid()
      modifies this`pair, this`comp, this`state
      ensures Valid() && Progress() && Checking() && TodoCount(checkl, pair) <= old(TodoCount(checkl, pair))
      ensures picked.None? ==> unchanged(this) && forall x :: x in checkl && x in pair ==> !Todo(pair[x])
      ensures picked.Some? ==> picked.value in pair && !Todo(pair[picked.value])
      ensures picked.Some? ==>
        || BestWanted(picked, checkl, old(pair), 0, Waiting)
        || (BestWanted(None, checkl, old(pair), 0, Waiting) && BestWanted(picked, checkl, old(pair), 0, Frozen))
      ensures picked.Some? ==> TodoCount(checkl, pair) < old(TodoCount(checkl, pair))
      decreases TodoCount(checkl, pair), 1
    {
      hide ListsOk, CompsOk, Below, Tied, Kept, CompsKept, Checked;
      ListsKnown(checkl, validl, pair);
      KeptSame(pair);
      CompsKeptSame(comp);
      PairsChecked(comp, validl, pair, pair);
      var cp := FindSt(checkl, pair, 0, Waiting);
      picked := cp;
      if cp.Some? {
        DoCheck(cp.value);
        return;
      }
      cp := FindSt(checkl, pair, 0, Frozen);
      picked := cp;
      if cp.Some? {
        DoCheck(cp.value);
      }
    }

    /** The component is concluded with the best succeeded pair of the valid list, or there is no such pair. */
    ghost predicate Settled(i: nat)
      requires i < |comp|
      reads this`comp, this`validl, this`pair
    {
      comp[i].concluded || BestWanted(None, validl, pair, comp[i].id, Succeeded)
    }

    /**
     * concluding_ice: the best succeeded pair of the component is selected, and nominated if so configured.
     * Nominating may check further pairs and conclude other components; that changes no selection for the worse.
     */
    method Conclude(i: nat)
      requires Valid() && i < |comp|
      modifies this`pair, this`comp, this`state
      ensures Valid() && Progress() && Checking() && TodoCount(checkl, pair) <= old(TodoCount(checkl, pair))
      ensures old(comp[i].concluded) || BestWanted(None, validl, old(pair), old(comp[i].id), Succeeded) ==> unchanged(this)
      ensures i < |comp| && Settled(i)
      ensures !old(comp[i].concluded) && !BestWanted(None, validl, old(pair), old(comp[i].id), Succeeded) ==>
        comp[i].concluded && BestWanted(comp[i].sel, validl, pair, comp[i].id, Succeeded)
      ensures !old(comp[i].concluded) && !BestWanted(None, validl, old(pair), old(comp[i].id), Succeeded) && !regular ==>
        pair == old(pair) && state == old(state) && comp == old(comp)[i := Comp(old(comp[i].id), comp[i].sel, true)]
      decreases TodoCount(checkl, pair), 3
    {
      hide ListsOk, CompsOk, Below, Tied, Kept, CompsKept, Checked, BestWanted;
      ListsKnown(checkl, validl, pair);
      KeptSame(pair);
      CompsKeptSame(comp);
      PairsChecked(comp, validl, pair, pair);
      if comp[i].concluded {
        return;
      }
      var cp := FindSt(validl, pair, comp[i].id, Succeeded);
      if cp.None? {
        return;
      }
      ghost var p0, c0 := pair, comp;
      SomeOrNone(cp.value, validl, pair, comp[i].id);
      TiedMeans(pair, comp, rcandl, nextCand, cp.value);
      SetSelected(i, cp.value);
      ghost var c1 := comp;
      CompsChecked(c0, c1, validl, p0);
      if regular {
        NominateSelected(i, cp.value);
        CheckedTransitive(checkl, validl, c0, p0, c1, p0, comp, pair);
      }
      CompConclude(comp, validl, i);
      TiedConclude(pair, comp, i, rcandl, nextCand);
      ghost var c2, p2 := comp, pair;
      comp := comp[i := comp[i].(concluded := true)];
      PairsChecked(c2, validl, p2, p2) by { KeptSame(p2); }
      CompsChecked(c2, comp, validl, p2);
      CheckedTransitive(checkl, validl, c0, p0, c2, p2, comp, pair);
    }

    /** The part of concluding_ice for regular nomination: the selection is the same or as good afterwards. */
    method NominateSelected(i: nat, id: nat)
      requires Valid() && i < |comp| && id in validl && id in pair && comp[i].sel == Some(id)
      requires BestWanted(Some(id), validl, pair, comp[i].id, Succeeded)
      modifies this`pair, this`comp, this`state
      ensures Valid() && Progress() && Checking() && TodoCount(checkl, pair) <= old(TodoCount(checkl, pair))
      ensures i < |comp| && comp[i].id == old(comp[i].id) && comp[i].sel.Some?
      ensures BestWanted(comp[i].sel, validl, pair, comp[i].id, Succeeded)
      decreases TodoCount(checkl, pair), 2
    {
      hide ListsOk, CompsOk, Below, Tied, Kept, CompsKept, Checked, BestWanted;
      ghost var p0, c0 := pair, comp;
      ListsKnown(checkl, validl, p0);
      var _ := ConncheckSend(id);
      ghost var p1 := pair;
      TodoFalls(checkl, p0, p1);
      PairsChecked(c0, validl, p0, p1);
      var _ := ScheduleCheck();
      CheckedTransitive(checkl, validl, c0, p0, c0, p1, comp, pair);
      SameIds(c0, comp, i);
      StillBest(checkl, validl, c0, p0, comp, pair, i);
    }

    lemma StillBest(checkl: seq<nat>, validl: seq<nat>, c0: seq<Comp>, p0: Pairs, c1: seq<Comp>, p1: Pairs, i: nat)
      requires ListsOk(checkl, validl, p0) && Checked(c0, p0, c1, p1, validl) && i < |c0|
      requires BestWanted(c0[i].sel, validl, p0, c0[i].id, Succeeded)
      ensures i < |c1| && BestWanted(c1[i].sel, validl, p1, c0[i].id, Succeeded)
    {
      hide ListsOk, Kept, BestWanted;
      BestKept(c0[i].sel, checkl, validl, p0, p1, c0[i].id);
    }

    lemma SomeOrNone(id: nat, validl: seq<nat>, pair: Pairs, compid: nat)
      requires BestWanted(Some(id), validl, pair, compid, Succeeded)
      ensures id in validl && id in pair && !BestWanted(None, validl, pair, compid, Succeeded)
      ensures compid != 0 ==> pair[id].lcand.compid == compid
    {
    }

    ghost predicate AllCompleted()
      reads this
    {
      forall i :: 0 <= i < |checkl| ==> checkl[i] in pair && Completed(pair[checkl[i]])
    }

    /** iscompleted. */
    method IsCompleted() returns (b: bool)
      requires Valid()
      ensures b <==> AllCompleted()
    {
      ListsKnown(checkl, validl, pair);
      for i := 0 to |checkl|
        invariant forall j :: 0 <= j < i ==> Completed(pair[checkl[j]])
      {
        if !Completed(pair[checkl[i]]) {
          return false;
        }
      }
      b := true;
    }

    /**
     * icem_checklist_update: once every pair of the check list is completed, the components are concluded
     * and the list completes or fails, depending on whether every component has a valid pair.
     */
    method ChecklistUpdate()
      requires Valid()
      modifies this`pair, this`comp, this`state
      ensures Valid() && Progress() && Checking() && TodoCount(checkl, pair) <= old(TodoCount(checkl, pair))
      ensures !old(AllCompleted()) ==> unchanged(this)
      ensures old(AllCompleted()) ==>
        state == if forall i :: 0 <= i < |comp| ==> ValidFor(validl, pair, comp[i].id) then CompletedList else FailedList
      ensures old(AllCompleted()) && state == CompletedList ==> forall i :: 0 <= i < |comp| ==> Settled(i)
      decreases TodoCount(checkl, pair), 4
    {
      hide ListsOk, CompsOk, Below, Tied, Kept, CompsKept, Checked, BestWanted, Settled;
      KeptSame(pair);
      CompsKeptSame(comp);
      PairsChecked(comp, validl, pair, pair);
      var compl := IsCompleted();
      if !compl {
        return;
      }
      var err: Option<Error> := None;
      ghost var p0, c0, n := pair, comp, TodoCount(checkl, pair);
      var i := 0;
      while i < |comp|
        invariant Valid() && 0 <= i <= |comp| == |c0|
        invariant Checked(c0, p0, comp, pair, validl) && Kept(p0, pair) && CompsKept(c0, comp)
        invariant old(next) <= next && TodoCount(checkl, pair) <= n
        invariant forall j :: 0 <= j < i ==> ValidFor(validl, pair, comp[j].id) && Settled(j)
        invariant err.None?
      {
        ListsKnown(checkl, validl, pair);
        var v := FindCompid(validl, pair, comp[i].id);
        if v.None? {
          err := Some(ENOENT);
          break;
        }
        ghost var p1, c1 := pair, comp;
        label before:
        Conclude(i);
        CheckedTransitive(checkl, validl, c0, p0, c1, p1, comp, pair);
        forall j | 0 <= j <= i ensures ValidFor(validl, pair, comp[j].id) && Settled(j) {
          SameIds(c1, comp, j);
          ValidForKept(validl, p1, pair, c1[j].id);
          if j < i { StaysSettled@before(j); }
        }
        i := i + 1;
      }
      state := if err.Some? then FailedList else CompletedList;
    }

    twostate lemma StaysSettled(j: nat)
      requires ListsOk(old(checkl), old(validl), old(pair)) && checkl == old(checkl) && validl == old(validl)
      requires Checking() && old(j < |comp| && Settled(j)) && j < |comp|
      ensures Settled(j)
    {
      BestKept(None, checkl, validl, old(pair), pair, comp[j].id);
    }

    /** pace_next. */
    method PaceNext()
      requires Valid()
      modifies this`pair, this`comp, this`state
      ensures Valid() && Progress() && Checking() && TodoCount(checkl, pair) <= old(TodoCount(checkl, pair))
      decreases TodoCount(checkl, pair), 5
    {
      hide ListsOk, CompsOk, Below, Tied, Kept, CompsKept, Checked;
      KeptSame(pair);
      CompsKeptSame(comp);
      PairsChecked(comp, validl, pair, pair);
      if state != Running {
        return;
      }
      ghost var p0, c0 := pair, comp;
      var _ := ScheduleCheck();
      ghost var p1, c1 := pair, comp;
      if state == FailedList {
        return;
      }
      ChecklistUpdate();
      CheckedTransitive(checkl, validl, c0, p0, c1, p1, comp, pair);
    }

    // -------------------------------------------------------------- chklist.c: forming the check list

    /** candpairs_form. */
    method CandpairsForm() returns (err: Option<Error>)
      requires Valid() && checkl == []
      modifies this`pair, this`checkl, this`next
      ensures Valid() && Progress()
      ensures err.None? <==> lcandl != [] && rcandl != [] && AllHaveComps(comp, lcandl, rcandl)
      ensures err.None? ==>
        && Known(checkl, pair) && FromCandidates(checkl, pair, lcandl, rcandl, role)
        && PairedUpTo(checkl, pair, lcandl, rcandl, |lcandl|, 0)
      ensures AllFrozen(checkl, pair)
    {
      hide ListsOk, CompsOk, Below, Tied, Kept, CompsKept, PPrio, Compatible;
      ListsKnown(checkl, validl, pair);
      KeptSame(pair);
      CompsKeptSame(comp);
      err := Some(ENOENT);
      if lcandl == [] || rcandl == [] {
        return;
      }
      NothingFormed(pair, lcandl, rcandl, role);
      for i := 0 to |lcandl|
        invariant Valid() && Progress() && Known(checkl, pair)
        invariant FromCandidates(checkl, pair, lcandl, rcandl, role) && PairedUpTo(checkl, pair, lcandl, rcandl, i, 0)
        invariant AllFrozen(checkl, pair)
        invariant forall a, b :: 0 <= a < i && 0 <= b < |rcandl| && Compatible(lcandl[a], rcandl[b]) ==> HasComp(comp, lcandl[a].compid)
      {
        ghost var p := pair;
        var ok := FormRow(i);
        KeptTransitive(old(pair), p, pair);
        if !ok {
          return;
        }
        RowDone(checkl, pair, lcandl, rcandl, i);
      }
      err := None;
    }

    lemma NothingFormed(pair: Pairs, lcandl: seq<Cand>, rcandl: seq<Cand>, role: Role)
      ensures FromCandidates([], pair, lcandl, rcandl, role) && PairedUpTo([], pair, lcandl, rcandl, 0, 0)
    {
    }

    lemma RowDone(l: seq<nat>, pair: Pairs, lcandl: seq<Cand>, rcandl: seq<Cand>, i: nat)
      requires Known(l, pair) && PairedUpTo(l, pair, lcandl, rcandl, i, |rcandl|)
      ensures PairedUpTo(l, pair, lcandl, rcandl, i + 1, 0)
    {
    }

    /** The inner loop of candpairs_form: one local candidate against every remote one. */
    method FormRow(i: nat) returns (ok: bool)
      requires Valid() && i < |lcandl| && Known(checkl, pair)
      requires FromCandidates(checkl, pair, lcandl, rcandl, role) && PairedUpTo(checkl, pair, lcandl, rcandl, i, 0)
      requires AllFrozen(checkl, pair)
      modifies this`pair, this`checkl, this`next
      ensures Valid() && Progress() && Known(checkl, pair)
      ensures ok ==> FromCandidates(checkl, pair, lcandl, rcandl, role) && PairedUpTo(checkl, pair, lcandl, rcandl, i, |rcandl|)
      ensures ok <==> forall b :: 0 <= b < |rcandl| && Compatible(lcandl[i], rcandl[b]) ==> HasComp(comp, lcandl[i].compid)
      ensures AllFrozen(checkl, pair)
    {
      hide ListsOk, CompsOk, Below, Tied, Kept, CompsKept, PPrio, FromCandidates, PairedUpTo, HasComp;
      KeptSame(pair);
      CompsKeptSame(comp);
      ghost var p0 := pair;
      for j := 0 to |rcandl|
        invariant Valid() && Progress() && Known(checkl, pair)
        invariant FromCandidates(checkl, pair, lcandl, rcandl, role) && PairedUpTo(checkl, pair, lcandl, rcandl, i, j)
        invariant AllFrozen(checkl, pair)
        invariant forall b :: 0 <= b < j && Compatible(lcandl[i], rcandl[b]) ==> HasComp(comp, lcandl[i].compid)
      {
        if !Compatible(lcandl[i], rcandl[j]) {
          SkipPair(checkl, pair, lcandl, rcandl, i, j);
          continue;
        }
        ghost var l, p := checkl, pair;
        FreshId(pair, next);
        var id := Alloc(lcandl[i], rcandl[j]);
        KeptTransitive(p0, p, pair);
        ListsKnown(checkl, validl, pair);
        if id.None? {
          assert Compatible(lcandl[i], rcandl[j]) && !HasComp(comp, lcandl[i].compid);
          return false;
        }
        OneMorePair(l, checkl, p, pair, id.value, lcandl, rcandl, role, i, j);
      }
      ok := true;
    }

    lemma FreshId(pair: Pairs, next: nat)
      requires Below(pair, next)
      ensures next !in pair
    {
    }

    lemma SkipPair(l: seq<nat>, pair: Pairs, lcandl: seq<Cand>, rcandl: seq<Cand>, i: nat, j: nat)
      requires Known(l, pair) && i < |lcandl| && j < |rcandl| && !Compatible(lcandl[i], rcandl[j])
      requires PairedUpTo(l, pair, lcandl, rcandl, i, j)
      ensures PairedUpTo(l, pair, lcandl, rcandl, i, j + 1)
    {
    }

    /** candpair_set_states: exactly the pairs no other dominates begin to wait. */
    method SetStates()
      requires Valid() && AllFrozen(checkl, pair)
      modifies this`pair
      ensures Valid() && Progress() && StatesDiffer(old(pair), pair) && Woken(checkl, old(pair), pair)
    {
      hide ListsOk, CompsOk, Below, Tied, Kept, CompsKept, Dominated, WokenUpTo, StatesDiffer;
      KeptSame(pair);
      CompsKeptSame(comp);
      ListsKnown(checkl, validl, pair);
      ghost var p0 := pair;
      NoneWoken(checkl, pair);
      for i := 0 to |checkl|
        invariant Valid() && Kept(p0, pair) && WokenUpTo(checkl, p0, pair, i) && pair.Keys == p0.Keys
        invariant forall x :: x in checkl ==> x in pair && Todo(pair[x])
      {
        ListsKnown(checkl, validl, pair);
        var cp := Leader(checkl, pair, i);
        WokenDiffer(checkl, p0, pair, i);
        DominationKept(checkl, p0, pair, cp);
        DominationKept(checkl, p0, pair, checkl[i]);
        ghost var p := pair;
        SetState(cp, Waiting);
        KeptTransitive(p0, p, pair);
        OneMoreWoken(checkl, p0, p, i, cp);
      }
      AllWoken(checkl, p0, pair);
      WokenDiffer(checkl, p0, pair, |checkl|);
    }

    lemma NoneWoken(l: seq<nat>, pair: Pairs)
      ensures WokenUpTo(l, pair, pair, 0)
    {
    }

    /**
     * icem_checklist_form: pairs are formed, ordered by priority and pruned. Afterwards the check list holds,
     * for every class of compatible candidates, one pair, the class's best, highest priority first.
     */
    method ChecklistForm() returns (err: Option<Error>)
      requires Valid()
      modifies this`pair, this`checkl, this`next
      ensures Valid() && Progress()
      ensures lite ==> err == Some(EINVAL)
      ensures !lite && old(checkl) != [] ==> err == Some(EALREADY)
      ensures !lite && old(checkl) == [] ==>
        (err.None? <==> lcandl != [] && rcandl != [] && AllHaveComps(comp, lcandl, rcandl))
      ensures err.None? ==> Formed(checkl, pair, lcandl, rcandl, role) && StartStates(checkl, pair, first)
    {
      hide ListsOk, CompsOk, Below, Tied, Kept, CompsKept, Formed, FromCandidates, Represented, PPrio, HasComp,
        Recomputed, AllFrozen, StartStates, Woken, StatesDiffer;
      KeptSame(pair);
      CompsKeptSame(comp);
      if lite {
        return Some(EINVAL);
      }
      if checkl != [] {
        return Some(EALREADY);
      }
      err := CandpairsForm();
      if err.Some? {
        return;
      }
      ghost var p0, l1, p1 := old(pair), checkl, pair;
      PrioOrder();
      ghost var l2, p2 := checkl, pair;
      ListsKnown(checkl, validl, pair);
      KeptTransitive(p0, p1, p2);
      ReorderedPairs(l1, l2, p1, p2, lcandl, rcandl, role);
      Prune();
      PrunedIsFormed(l2, checkl, pair, lcandl, rcandl, role);
      AllStayFrozen(l1, checkl, p1, p2, role);
      ListsKnown(checkl, validl, pair);
      if first {
        SetStates();
        WokenStates(checkl, p2, pair);
        KeptTransitive(p0, p2, pair);
        FormedIgnoresStates(checkl, p2, pair, lcandl, rcandl, role);
      }
    }

    /** candpair_prune. */
    method Prune()
      requires Valid() && Known(checkl, pair)
      modifies this`checkl
      ensures Valid() && Known(checkl, pair) && Ordered(checkl, pair)
      ensures forall x :: x in checkl ==> x in old(checkl)
      ensures forall i, j :: 0 <= i < j < |checkl| ==> Different(checkl, pair, i, j)
      ensures Represented(old(checkl), checkl, pair)
    {
      hide Represented;
      var n;
      checkl, n := Unique(checkl, pair);
    }

    /** icem_conncheck_start. */
    method Start() returns (err: Option<Error>)
      requires Valid()
      modifies this`pair, this`checkl, this`next, this`state
      ensures Valid() && Progress()
      ensures err.None? ==>
        state == Running && Formed(checkl, pair, lcandl, rcandl, role) && StartStates(checkl, pair, first)
      ensures err.Some? ==> state == old(state)
    {
      if lite {
        KeptSame(pair);
        return Some(EINVAL);
      }
      err := ChecklistForm();
      if err.None? {
        state := Running;
      }
    }

    // -------------------------------------------------------------- connchk.c: responses

    /** construct_valid_pair: the pair checked becomes valid, and so does the pair the response reveals. */
    method ConstructValidPair(id: nat, mapped: Sa, dest: Sa) returns (r: Option<nat>)
      requires Valid() && id in pair
      modifies this`pair, this`checkl, this`validl, this`next
      ensures Valid() && Progress()
      ensures r.Some? ==> r.value in pair && r.value in validl && id in validl
      ensures r.Some? ==> HasCandidates(pair[r.value], lcandl, rcandl, mapped, dest)
      ensures r.None? ==> unchanged(this)
      ensures forall x :: x in old(validl) ==> x in validl
    {
      hide ListsOk, CompsOk, Below, Tied, Kept, CompsKept;
      KeptSame(pair);
      CompsKeptSame(comp);
      var lcand := FindCand(lcandl, pair[id].lcand.compid, Some(mapped));
      var rcand := FindCand(rcandl, pair[id].rcand.compid, Some(dest));
      if lcand.None? || rcand.None? {
        return None;
      }
      var differs := lcand.value.id != pair[id].lcand.id || rcand.value.id != pair[id].rcand.id;
      ghost var p0 := pair;
      TiedMeans(pair, comp, rcandl, nextCand, id);
      MakeValid(id);
      if !differs {
        return Some(id);
      }
      ghost var p1 := pair;
      ListsKnown(checkl, validl, pair);
      var cp2 := Find(validl, pair, lcand, rcand);
      if cp2.Some? {
        return cp2;
      }
      var id2 := Clone(id, lcand.value, rcand.value);
      ghost var p2 := pair;
      KeptTransitive(p0, p1, p2);
      MakeValid(id2);
      KeptTransitive(p0, p2, pair);
      r := Some(id2);
    }

    /** The pair's candidates are known ones with the given addresses. */
    ghost predicate HasCandidates(p: Pair, lcandl: seq<Cand>, rcandl: seq<Cand>, laddr: Sa, raddr: Sa) {
      && (exists c :: c in lcandl && c.id == p.lcand.id && c.addr == laddr)
      && (exists c :: c in rcandl && c.id == p.rcand.id && c.addr == raddr)
    }

    /**
     * handle_success: the pair whose candidates have the mapped address and the peer's becomes valid, nominated
     * and selected for its component; nothing happens when no remote candidate has the peer's address any more.
     */
    method HandleSuccess(id: nat, laddr: Sa) returns (r: Option<nat>)
      requires Valid() && id in pair
      modifies this`lcandl, this`nextCand, this`pair, this`checkl, this`validl, this`next, this`comp
      ensures Valid() && Progress()
      ensures r.None? ==> pair == old(pair) && checkl == old(checkl) && validl == old(validl) && comp == old(comp)
      ensures r.Some? ==> r.value in validl && r.value in pair && pair[r.value].nominated && Completed(pair[r.value])
      ensures r.Some? ==> HasCandidates(pair[r.value], lcandl, rcandl, laddr, old(pair[id].rcand.addr))
      ensures r.Some? && HasComp(comp, pair[r.value].compid) ==>
        exists i :: 0 <= i < |comp| && comp[i].id == pair[r.value].compid && comp[i].sel == r
    {
      hide ListsOk, CompsOk, Below, Tied, Kept, CompsKept, HasCandidates;
      KeptSame(pair);
      CompsKeptSame(comp);
      ghost var p0 := pair;
      var known := FindCand(lcandl, pair[id].lcand.compid, Some(laddr));
      if known.None? {
        AddPeerReflexiveLocal(pair[id].lcand, laddr);
      }
      var cp := ConstructValidPair(id, laddr, pair[id].rcand.addr);
      ghost var p1 := pair;
      if cp.None? {
        return None;
      }
      Select(cp.value);
      KeptTransitive(p0, p1, pair);
      SameCandidates(p1[cp.value], pair[cp.value], lcandl, rcandl, laddr, old(pair[id].rcand.addr));
      r := cp;
    }

    /** The end of handle_success: the pair is made valid, selected for its component and nominated. */
    method Select(id: nat)
      requires Valid() && id in pair
      modifies this`pair, this`checkl, this`validl, this`comp
      ensures Valid() && Progress() && id in validl
      ensures pair == old(pair)[id := Ended(old(pair)[id], Succeeded).(valid := true, nominated := true)]
      ensures HasComp(comp, pair[id].compid) ==>
        exists i :: 0 <= i < |comp| && comp[i].id == pair[id].compid && comp[i].sel == Some(id)
    {
      hide ListsOk, CompsOk, Below, Tied, Kept, CompsKept;
      KeptSame(pair);
      CompsKeptSame(comp);
      ghost var p0 := pair;
      MakeValid(id);
      ghost var p1 := pair;
      var i := FindComp(pair[id].compid);
      if i.Some? {
        SetSelected(i.value, id);
        assert comp[i.value].sel == Some(id);
      }
      Nominate(id);
      KeptTransitive(p0, p1, pair);
    }

    lemma SameCandidates(p: Pair, q: Pair, lcandl: seq<Cand>, rcandl: seq<Cand>, laddr: Sa, raddr: Sa)
      requires HasCandidates(p, lcandl, rcandl, laddr, raddr) && p.lcand == q.lcand && p.rcand == q.rcand
      ensures HasCandidates(q, lcandl, rcandl, laddr, raddr)
    {
    }

    /** icem_lcand_add for a peer reflexive candidate; its priority and foundation play no part here. */
    method AddPeerReflexiveLocal(base: Cand, addr: Sa)
      requires Valid()
      modifies this`lcandl, this`nextCand
      ensures Valid()
      ensures |lcandl| == |old(lcandl)| + 1 && lcandl[..|old(lcandl)|] == old(lcandl)
    {
      var prio: u32 := *;
      var fnd: string := *;
      var c := Cand(nextCand, Prflx, prio, base.compid, addr, base.addr, fnd);
      TiedCand(pair, comp, rcandl, nextCand, c);
      lcandl := lcandl + [c];
      nextCand := nextCand + 1;
    }

    method Nominate(id: nat)
      requires Valid() && id in pair
      modifies this`pair
      ensures Valid() && Progress() && pair == old(pair)[id := old(pair)[id].(nominated := true)]
    {
      hide ListsOk, CompsOk, Below, Tied, Kept, CompsKept;
      CompsKeptSame(comp);
      PairChange(checkl, validl, next, pair, id, pair[id].(nominated := true));
      TiedChange(pair, id, pair[id].(nominated := true), comp, rcandl, nextCand);
      pair := pair[id := pair[id].(nominated := true)];
    }

    /** The transaction of a pair is over, or cancelled. */
    method Release(id: nat)
      requires Valid() && id in pair
      modifies this`pair
      ensures Valid() && Progress() && pair == old(pair)[id := old(pair)[id].(busy := false)]
    {
      hide ListsOk, CompsOk, Below, Tied, Kept, CompsKept;
      CompsKeptSame(comp);
      PairChange(checkl, validl, next, pair, id, pair[id].(busy := false));
      TiedChange(pair, id, pair[id].(busy := false), comp, rcandl, nextCand);
      pair := pair[id := pair[id].(busy := false)];
    }

    /** stunc_resp_handler. */
    method HandleResponse(id: nat, resp: Response)
      requires Valid() && id in pair
      modifies this
      ensures Valid() && Progress()
    {
      hide ListsOk, CompsOk, Below, Tied, Kept, CompsKept;
      Answered(id, resp);
      ghost var p, c := pair, comp;
      PaceNext();
      KeptTransitive(old(pair), p, pair);
      CompsKeptTransitive(old(comp), c, comp);
    }

    /** What the answer itself does to the pair, before the next check is scheduled. */
    method Answered(id: nat, resp: Response)
      requires Valid() && id in pair
      modifies this
      ensures Valid() && Progress()
      ensures (resp.Success? && resp.mapped.Some?) || resp.RoleConflict? ||
        pair == old(pair)[id := Ended(old(pair)[id], Failed).(valid := false, busy := false)]
      ensures resp.RoleConflict? ==> role == Opposite(old(role))
      ensures !resp.RoleConflict? ==> role == old(role)
    {
      hide ListsOk, CompsOk, Below, Tied, Kept, CompsKept;
      CompsKeptSame(comp);
      ghost var p0 := pair;
      Release(id);
      ghost var p1 := pair;
      if resp.RoleConflict? {
        SwitchRole();
        ghost var p2 := pair;
        KeptTransitive(p0, p1, p2);
        var _ := ConncheckSend(id);
        KeptTransitive(p0, p2, pair);
      } else if resp.Success? && resp.mapped.Some? {
        var _ := HandleSuccess(id, resp.mapped.value);
        KeptTransitive(p0, p1, pair);
      } else {
        Fail(id);
        KeptTransitive(p0, p1, pair);
      }
    }

    /** icem_conncheck_stop: every pair still open fails, and the check list is concluded. */
    method Stop(failed: bool)
      requires Valid()
      modifies this`pair, this`comp, this`state
      ensures Valid() && Progress()
      ensures forall x :: x in checkl ==> x in pair && Completed(pair[x])
      ensures state == if forall i :: 0 <= i < |comp| ==> ValidFor(validl, pair, comp[i].id) then CompletedList else FailedList
    {
      hide ListsOk, CompsOk, Below, Tied, Kept, CompsKept;
      KeptSame(pair);
      CompsKeptSame(comp);
      ListsKnown(checkl, validl, pair);
      ghost var p0 := pair;
      state := if failed then FailedList else CompletedList;
      for i := 0 to |checkl|
        invariant Valid() && Kept(p0, pair) && Known(checkl, pair) && comp == old(comp)
        invariant forall j :: 0 <= j < i ==> Completed(pair[checkl[j]])
      {
        if !Completed(pair[checkl[i]]) {
          ghost var p := pair;
          Release(checkl[i]);
          ghost var p' := pair;
          Fail(checkl[i]);
          KeptTransitive(p0, p, p');
          KeptTransitive(p0, p', pair);
          assert forall j :: 0 <= j < i ==> Completed(p[checkl[j]]);
        }
      }
      ghost var p1 := pair;
      ChecklistUpdate();
      KeptTransitive(p0, p1, pair);
      StillCompleted(checkl, p1, pair);
    }

    lemma StillCompleted(l: seq<nat>, before: Pairs, after: Pairs)
      requires Known(l, before) && Kept(before, after) && forall i :: 0 <= i < |l| ==> Completed(before[l[i]])
      ensures forall x :: x in l ==> x in after && Completed(after[x])
    {
    }

    // -------------------------------------------------------------- stunsrv.c

    /** triggered_check: a request from the peer sends our own check, unless the pair is under way or has succeeded. */
    method TriggeredCheck(lcand: Cand, rcand: Cand) returns (ghost cp: Option<nat>)
      requires Valid()
      modifies this`pair
      ensures Valid() && Progress() && pair.Keys == old(pair.Keys)
      ensures cp.Some? ==> cp.value in checkl && cp.value in old(pair) && Matches(old(pair)[cp.value], Some(lcand), Some(rcand))
      ensures cp.None? ==> forall x :: x in checkl && x in pair ==> !Matches(pair[x], Some(lcand), Some(rcand))
      ensures cp.None? || old(pair)[cp.value].state == InProgress || old(pair)[cp.value].state == Succeeded ==>
        pair == old(pair)
      ensures cp.Some? && Todo(old(pair)[cp.value]) ==> pair[cp.value].state == InProgress
      ensures forall x :: x in old(pair) && cp != Some(x) ==> pair[x] == old(pair)[x]
    {
      hide ListsOk, CompsOk, Below, Tied, Kept, CompsKept;
      KeptSame(pair);
      CompsKeptSame(comp);
      ListsKnown(checkl, validl, pair);
      var found := Find(checkl, pair, Some(lcand), Some(rcand));
      cp := found;
      if found.None? {
        return;
      }
      ghost var p0 := pair;
      match pair[found.value].state
      case Failed =>
        SetState(found.value, Waiting);
        ghost var p1 := pair;
        var _ := ConncheckSend(found.value);
        KeptTransitive(p0, p1, pair);
      case Frozen => var _ := ConncheckSend(found.value);
      case Waiting => var _ := ConncheckSend(found.value);
      case InProgress =>
      case Succeeded =>
    }

    /** icem_candpair_find_rcand: in the check list, then in the valid list. */
    method FindByRemote(rcand: Cand) returns (r: Option<nat>)
      requires Valid()
      ensures r.Some? ==> r.value in pair && (r.value in checkl || r.value in validl) && pair[r.value].rcand.id == rcand.id
      ensures r.None? ==> forall x :: (x in checkl || x in validl) && x in pair ==> pair[x].rcand.id != rcand.id
    {
      ListsKnown(checkl, validl, pair);
      r := Find(checkl, pair, None, Some(rcand));
      if r.None? {
        r := Find(validl, pair, None, Some(rcand));
      }
    }

    /** icem_lcand_find_checklist. */
    method FindLocalInChecklist(compid: nat) returns (r: Option<Cand>)
      requires Valid()
      ensures r.Some? ==> r.value.compid == compid && (r.value.typ == Host || r.value.typ == Relay)
    {
      ListsKnown(checkl, validl, pair);
      for i := 0 to |checkl| {
        var c := pair[checkl[i]].lcand;
        if c.compid == compid && (c.typ == Host || c.typ == Relay) {
          return Some(c);
        }
      }
      r := None;
    }

    /** handle_stun_full. */
    method HandleStunFull(i: nat, src: Sa, prio: u32, useCand: bool) returns (r: Option<nat>)
      requires Valid() && i < |comp|
      modifies this`rcandl, this`nextCand, this`pair, this`checkl, this`validl, this`comp
      ensures Valid() && Progress()
      ensures exists c :: c in rcandl && c.addr == src
      ensures !useCand || r.None? ==> checkl == old(checkl) && validl == old(validl) && comp == old(comp)
      ensures r.Some? ==> r.value in pair && exists c :: c in rcandl && c.addr == src && c.id == pair[r.value].rcand.id
      ensures r.Some? && useCand ==> r.value in validl && r.value !in checkl && (regular ==> comp[i].sel == r)
    {
      hide ListsOk, CompsOk, Below, Tied, Kept, CompsKept;
      KeptSame(pair);
      CompsKeptSame(comp);
      TiedMeans(pair, comp, rcandl, nextCand, 0);
      var rcand := FindCand(rcandl, comp[i].id, Some(src));
      if rcand.None? {
        var fnd: string := *;
        rcand := Some(Cand(nextCand, Prflx, prio, comp[i].id, src, src, fnd));
        TiedCand(pair, comp, rcandl, nextCand, rcand.value);
        nextCand := nextCand + 1;
        rcandl := rcandl + [rcand.value];
      }
      assert rcand.value in rcandl && rcand.value.addr == src;
      var cp := FindByRemote(rcand.value);
      var lcand;
      if cp.Some? {
        lcand := Some(pair[cp.value].lcand);
      } else {
        lcand := FindLocalInChecklist(comp[i].id);
      }
      if lcand.None? {
        return None;
      }
      var _ := TriggeredCheck(lcand.value, rcand.value);
      if cp.None? {
        cp := FindByRemote(rcand.value);
        if cp.None? {
          return None;
        }
      }
      StaysPaired(old(pair), pair);
      if useCand {
        ghost var p1 := pair;
        OwnPair(i, cp.value, rcand.value);
        UseCandidate(i, cp.value);
        StaysPaired(p1, pair);
        KeptTransitive(old(pair), p1, pair);
      }
      r := cp;
    }

    /** A pair with a remote candidate of a component is a pair of that component. */
    lemma OwnPair(i: nat, id: nat, rcand: Cand)
      requires Valid() && i < |comp| && id in pair && pair[id].rcand.id == rcand.id
      requires rcand in rcandl && rcand.compid == comp[i].id
      ensures pair[id].compid == comp[i].id
    {
      TiedMeans(pair, comp, rcandl, nextCand, id);
      SameRemote(rcandl, nextCand, pair[id].rcand, rcand);
    }

    /** The USE-CANDIDATE part of handle_stun_full. */
    method UseCandidate(i: nat, id: nat)
      requires Valid() && i < |comp| && id in pair && pair[id].compid == comp[i].id
      modifies this`pair, this`checkl, this`validl, this`comp
      ensures Valid() && Progress() && id in validl && id !in checkl
      ensures regular ==> comp[i].sel == Some(id)
    {
      hide ListsOk, CompsOk, Below, Tied, Kept, CompsKept;
      KeptSame(pair);
      CompsKeptSame(comp);
      ghost var p0 := pair;
      if role == Controlled && pair[id].state == Succeeded {
        Nominate(id);
      }
      ghost var p1 := pair;
      MakeValid(id);
      ghost var p2 := pair;
      KeptTransitive(p0, p1, p2);
      if regular {
        Release(id);
        SetSelected(i, id);
        KeptTransitive(p0, p2, pair);
      }
    }

    /** handle_stun_lite. */
    method HandleStunLite(i: nat, src: Sa, useCand: bool)
      requires Valid() && i < |comp|
      modifies this`pair, this`checkl, this`validl, this`next
      ensures Valid() && Progress()
      ensures !useCand ==> unchanged(this)
      ensures forall x :: x in validl && x !in old(validl) ==>
        x in pair && pair[x].nominated && pair[x].state == Succeeded && pair[x].rcand.addr == src
      ensures forall x :: x in old(validl) ==> x in validl
    {
      hide ListsOk, CompsOk, Below, Tied, Kept, CompsKept;
      KeptSame(pair);
      CompsKeptSame(comp);
      if !useCand {
        return;
      }
      TiedMeans(pair, comp, rcandl, nextCand, 0);
      var rcand := FindCand(rcandl, comp[i].id, Some(src));
      var lcand := FindCand(lcandl, comp[i].id, None);
      if rcand.None? || lcand.None? {
        return;
      }
      ListsKnown(checkl, validl, pair);
      var known := Find(validl, pair, lcand, rcand);
      if known.Some? {
        return;
      }
      var id := Alloc(lcand.value, rcand.value);
      if id.None? {
        return;
      }
      ghost var p0, p1 := old(pair), pair;
      MakeValid(id.value);
      ghost var p2 := pair;
      KeptTransitive(p0, p1, p2);
      Nominate(id.value);
      KeptTransitive(p0, p2, pair);
    }

    /**
     * icem_stund_recv, once the request is authenticated: the roles are compared first, so that a request may switch
     * ours and be refused all the same.
     */
    method HandleRequest(i: nat, src: Sa, prio: Option<u32>, useCand: bool, rrole: Role, tiebrk: nat)
      returns (reply: Reply)
      requires Valid() && i < |comp|
      modifies this
      ensures Valid() && Progress()
      ensures var (me, conflict) := OnRequest(Agent(old(role), this.tiebrk), rrole, tiebrk);
              role == me.role && (reply == RoleConflictReply <==> conflict)
      ensures reply == RoleConflictReply ==> unchanged(this)
      ensures reply == NoPriority <==> reply != RoleConflictReply && prio.None?
      ensures reply == NoPriority ==>
        && validl == old(validl) && comp == old(comp) && state == old(state) && next == old(next)
        && pair.Keys == old(pair.Keys) && forall x :: x in checkl <==> x in old(checkl)
    {
      hide ListsOk, CompsOk, Below, Tied, Kept, CompsKept, Recomputed, StableSort;
      KeptSame(pair);
      CompsKeptSame(comp);
      if rrole == role {
        if this.tiebrk >= tiebrk {
          SwitchRole();
        } else {
          return RoleConflictReply;
        }
      }
      if prio.None? {
        return NoPriority;
      }
      ghost var p1, c1 := pair, comp;
      if lite {
        HandleStunLite(i, src, useCand);
      } else {
        var _ := HandleStunFull(i, src, prio.value, useCand);
      }
      assert Kept(p1, pair) && CompsKept(c1, comp) && Kept(old(pair), p1) && CompsKept(old(comp), c1);
      KeptTransitive(old(pair), p1, pair);
      CompsKeptTransitive(old(comp), c1, comp);
      reply := OtherReply;
    }

    // -------------------------------------------------------------- icem.c

    /** purge_relayed, for a component whose selected pair is not relayed. */
    method PurgeRelayed(i: nat)
      requires Valid() && i < |comp| && Unused(pair, comp[i])
      modifies this`checkl, this`validl
      ensures Valid()
      ensures checkl == Unrelayed(old(checkl), pair, comp[i].id) && validl == Unrelayed(old(validl), pair, comp[i].id)
    {
      hide ListsOk, CompsOk, Below, Tied;
      ListsKnown(checkl, validl, pair);
      PurgeKeeps(checkl, validl, pair, comp, rcandl, nextCand, i);
      var c := Flush(checkl, pair, comp[i].id);
      var v := Flush(validl, pair, comp[i].id);
      checkl, validl := c, v;
    }

    /**
     * icem_update: components that have selected a pair that is not relayed lose their relayed ones, in both lists.
     * No selected pair is among them.
     */
    method Update()
      requires Valid()
      modifies this`checkl, this`validl
      ensures Valid()
      ensures forall x :: x in checkl <==> x in old(checkl) && !Purged(pair, comp, |comp|, x)
      ensures forall x :: x in validl <==> x in old(validl) && !Purged(pair, comp, |comp|, x)
      ensures OnlyRelayedLost(old(validl), validl, pair)
    {
      hide ListsOk, CompsOk, Below, Tied, Purged;
      NonePurged(pair, comp);
      for i := 0 to |comp|
        invariant Valid()
        invariant forall x :: x in checkl <==> x in old(checkl) && !Purged(pair, comp, i, x)
        invariant forall x :: x in validl <==> x in old(validl) && !Purged(pair, comp, i, x)
      {
        forall x ensures Purged(pair, comp, i + 1, x) <==>
          Purged(pair, comp, i, x) || (Unused(pair, comp[i]) && x in pair && Relayed(pair[x], comp[i].id))
        {
          PurgedNext(pair, comp, i, x);
        }
        SelectionKnown(i);
        if comp[i].sel.Some? {
          if pair[comp[i].sel.value].lcand.typ != Relay {
            UnrelayedMembers(checkl, pair, comp[i].id);
            UnrelayedMembers(validl, pair, comp[i].id);
            PurgeRelayed(i);
          }
        }
      }
      forall x | Purged(pair, comp, |comp|, x) ensures x in pair && pair[x].lcand.typ == Relay {
        PurgedRelayed(pair, comp, |comp|, x);
      }
    }

    lemma NonePurged(pair: Pairs, comp: seq<Comp>)
      ensures forall x :: !Purged(pair, comp, 0, x)
    {
    }

    lemma PurgedRelayed(pair: Pairs, comp: seq<Comp>, n: nat, x: nat)
      requires Purged(pair, comp, n, x)
      ensures x in pair && pair[x].lcand.typ == Relay
    {
    }

    lemma SelectionKnown(i: nat)
      requires Valid() && i < |comp|
      ensures comp[i].sel.Some? ==> comp[i].sel.value in pair && comp[i].sel.value in validl
    {
    }

    // -------------------------------------------------------------- runs

    /** One event, of any kind; one that names no pair or component does nothing. */
    method Step(e: Event)
      requires Valid()
      modifies this
      ensures Valid() && Onward() && (!e.UpdateMedia? ==> Progress())
    {
      hide ListsOk, CompsOk, Below, Tied, Kept, CompsKept;
      KeptSame(pair);
      CompsKeptSame(comp);
      match e
      case AddLocal(c) =>
        TiedCand(pair, comp, rcandl, nextCand, c.(id := nextCand));
        lcandl, nextCand := lcandl + [c.(id := nextCand)], nextCand + 1;
      case AddRemote(c) =>
        TiedCand(pair, comp, rcandl, nextCand, c.(id := nextCand));
        rcandl, nextCand := rcandl + [c.(id := nextCand)], nextCand + 1;
      case StartChecks => var _ := Start();
      case PaceTimeout => PaceNext();
      case Answer(id, resp) =>
        // pairs that have left both lists are freed, and their transactions with them
        if id in pair && (id in checkl || id in validl) {
          HandleResponse(id, resp);
        }
      case Request(i, src, prio, useCand, rrole, tiebrk) =>
        if i < |comp| {
          var _ := HandleRequest(i, src, prio, useCand, rrole, tiebrk);
        }
      case StopChecks(failed) => Stop(failed);
      case UpdateMedia => Update();
    }

    /**
     * Any run of events: the check list and the valid list stay disjoint, each ordered by stored priority; no pair that
     * succeeded or failed changes state again; every concluded component has a selected pair, and every selected pair
     * is one of its component's and in the valid list. That list loses relayed pairs only, and none at all in a run
     * without an update.
     */
    method Run(events: seq<Event>)
      requires Valid()
      modifies this
      ensures Valid() && Onward()
      ensures UpdateMedia !in events ==> Progress()
    {
      hide ListsOk, CompsOk, Below, Tied, Kept, CompsKept, OnlyRelayedLost;
      KeptSame(pair);
      CompsKeptSame(comp);
      assert OnlyRelayedLost(validl, validl, pair) by { NoneLost(validl, pair); }
      for k := 0 to |events|
        invariant Valid() && Onward()
        invariant UpdateMedia !in events[..k] ==> Progress()
      {
        ghost var p, c, v := pair, comp, validl;
        Step(events[k]);
        assert events[k] in events[..k + 1] && events[..k + 1] == events[..k] + [events[k]];
        KeptTransitive(old(pair), p, pair);
        CompsKeptTransitive(old(comp), c, comp);
        LostTransitive(old(validl), v, validl, p, pair);
      }
      assert events[..|events|] == events;
    }

    lemma NoneLost(l: seq<nat>, pair: Pairs)
      ensures OnlyRelayedLost(l, l, pair)
    {
    }
  }
}
