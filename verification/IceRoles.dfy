/** ICE roles: what two agents that take the same role do about it. */
module IceRoles {
  import opened Base
  import opened IcePriority

  datatype Agent = Agent(role: Role, tiebrk: nat)

  /** ice_switch_local_role. */
  function Opposite(role: Role): Role { if role == Controlling then Controlled else Controlling }

  predicate InConflict(a: Agent, b: Agent) { a.role == b.role && a.role != Unknown }

  predicate Resolved(a: Agent, b: Agent) { a.role != b.role && a.role != Unknown && b.role != Unknown }

  /** icem_stund_recv: the receiver of a request in its own role switches or answers with a conflict (487). */
  function OnRequest(me: Agent, rrole: Role, tiebrk: nat): (Agent, bool) {
    if rrole != me.role then (me, false)
    else if me.tiebrk >= tiebrk then (me.(role := Opposite(me.role)), false)
    else (me, true)
  }

  /** stunc_resp_handler, for a request sent in the role `sent`: a conflict always switches. */
  function OnAnswer(me: Agent, sent: Role, conflict: bool): Agent {
    if conflict then me.(role := Opposite(me.role)) else me
  }

  /** Section 7.2.1.1 of RFC 5245: of two controlling agents the one with the larger value stays. */
  function OnRequestByRfc(me: Agent, rrole: Role, tiebrk: nat): (Agent, bool) {
    if rrole != me.role then (me, false)
    else if me.role == Controlling then
      if me.tiebrk >= tiebrk then (me, true) else (me.(role := Controlled), false)
    else if me.tiebrk >= tiebrk then (me.(role := Controlling), false) else (me, true)
  }

  /** Section 7.1.3.1 of RFC 5245: a conflict leads to the role opposite to the one in the request. */
  function OnAnswerByRfc(me: Agent, sent: Role, conflict: bool): Agent {
    if conflict then me.(role := Opposite(sent)) else me
  }

  /** A request of `a` and its answer, with nothing in between. */
  function Exchanged(a: Agent, b: Agent): (Agent, Agent) {
    var (b', conflict) := OnRequest(b, a.role, a.tiebrk);
    (OnAnswer(a, a.role, conflict), b')
  }

  /** One exchange resolves a conflict, whoever asks, and never brings one about. */
  lemma ExchangeResolves(a: Agent, b: Agent)
    requires InConflict(a, b) || Resolved(a, b)
    ensures var (a', b') := Exchanged(a, b);
            Resolved(a', b') && (Resolved(a, b) ==> a' == a && b' == b)
  {
  }

  /** Requests of both agents are on their way. Whose answer arrives before the other's request, if any? */
  datatype Order = AnswerToA | AnswerToB | RequestsFirst

  /** Both requests and both answers, by given rules. */
  function Crossed(a: Agent, b: Agent, order: Order, onRequest: (Agent, Role, nat) -> (Agent, bool),
                   onAnswer: (Agent, Role, bool) -> Agent): (Agent, Agent)
  {
    match order
    case AnswerToA =>
      var (b1, ca) := onRequest(b, a.role, a.tiebrk);
      var (a2, cb) := onRequest(onAnswer(a, a.role, ca), b.role, b.tiebrk);
      (a2, onAnswer(b1, b.role, cb))
    case AnswerToB =>
      var (a1, cb) := onRequest(a, b.role, b.tiebrk);
      var (b2, ca) := onRequest(onAnswer(b, b.role, cb), a.role, a.tiebrk);
      (onAnswer(a1, a.role, ca), b2)
    case RequestsFirst =>
      var (b1, ca) := onRequest(b, a.role, a.tiebrk);
      var (a1, cb) := onRequest(a, b.role, b.tiebrk);
      (onAnswer(a1, a.role, ca), onAnswer(b1, b.role, cb))
  }

  /**
   * Crossing requests resolve a conflict exactly when the agent with the larger value has the answer to its request
   * before the other agent's request; where packets keep their order, never.
   */
  lemma CrossedIff(a: Agent, b: Agent, order: Order)
    requires InConflict(a, b)
    ensures var (a', b') := Crossed(a, b, order, OnRequest, OnAnswer);
            && (Resolved(a', b') <==>
                (order == AnswerToA && a.tiebrk > b.tiebrk) || (order == AnswerToB && b.tiebrk > a.tiebrk))
            && (!Resolved(a', b') ==> InConflict(a', b'))
  {
  }

  /**
   * By the rules of RFC 5245 crossing requests resolve it in any order as long as the values differ; with equal values
   * two controlling agents still get out of it when one has its answer first.
   */
  lemma CrossedByRfcIff(a: Agent, b: Agent, order: Order)
    requires InConflict(a, b)
    ensures var (a', b') := Crossed(a, b, order, OnRequestByRfc, OnAnswerByRfc);
            Resolved(a', b') <==> a.tiebrk != b.tiebrk || (a.role == Controlling && order != RequestsFirst)
  {
  }

  function CrossedTimes(a: Agent, b: Agent, n: nat): (Agent, Agent) {
    if n == 0 then (a, b)
    else
      var (a', b') := CrossedTimes(a, b, n - 1);
      Crossed(a', b', RequestsFirst, OnRequest, OnAnswer)
  }

  /** So agents that go on asking at the same time stay in conflict for ever, whatever their values. */
  lemma {:induction false} ConflictLasts(a: Agent, b: Agent, n: nat)
    requires InConflict(a, b)
    ensures var (a', b') := CrossedTimes(a, b, n);
            InConflict(a', b') && a'.tiebrk == a.tiebrk && b'.tiebrk == b.tiebrk
  {
    if n > 0 {
      ConflictLasts(a, b, n - 1);
    }
  }
}
