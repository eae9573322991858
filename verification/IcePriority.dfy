/** ICE candidates, candidate pairs, and their priorities. */
module IcePriority {
  import opened Base

  datatype CandType = Host | Srflx | Prflx | Relay

  /** A transport address; two are the same under sa_cmp when they are equal. */
  datatype Sa = Sa(af: nat, ip: nat, port: u16)

  /** A candidate; `id` stands for its identity, `base` is the address of its base candidate. */
  datatype Cand = Cand(id: nat, typ: CandType, prio: u32, compid: nat, addr: Sa, base: Sa, foundation: string)

  datatype Role = Unknown | Controlling | Controlled

  function TypePrio(t: CandType): nat {
    match t
    case Host => 126
    case Srflx => 100
    case Prflx => 110
    case Relay => 0
  }

  /** ice_cand_calc_prio; for component ids from 1 to 256 the three fields do not overlap. */
  function CandPrio(t: CandType, local: u16, compid: nat): nat
    requires 1 <= compid <= 256
  {
    TypePrio(t) * 0x100_0000 + local * 0x100 + (256 - compid)
  }

  /** A calculated priority stays below 2^31 and ranks type first, then local preference, then component. */
  lemma CandPrioOrder(t: CandType, l: u16, c: nat, t': CandType, l': u16, c': nat)
    requires 1 <= c <= 256 && 1 <= c' <= 256
    ensures CandPrio(t, l, c) < 0x8000_0000
    ensures CandPrio(t, l, c) < CandPrio(t', l', c') <==>
            || TypePrio(t) < TypePrio(t')
            || (TypePrio(t) == TypePrio(t') && (l < l' || (l == l' && c > c')))
  {
  }

  /** ice_calc_pair_prio, in 64-bit arithmetic. */
  function PairPrio(g: u32, d: u32): nat {
    (Min(g, d) * TWO32 + 2 * Max(g, d) + (if g > d then 1 else 0)) % TWO64
  }

  /** Pairs rank by the smaller priority, then the larger, then by whether the controlling side's is larger. */
  predicate RanksBelow(g: u32, d: u32, g': u32, d': u32) {
    || Min(g, d) < Min(g', d')
    || (Min(g, d) == Min(g', d') &&
        (Max(g, d) < Max(g', d') || (Max(g, d) == Max(g', d') && g <= d && g' > d')))
  }

  lemma PairPrioFits(g: u32, d: u32)
    requires Min(g, d) < TWO32 - 1
    ensures PairPrio(g, d) == Min(g, d) * TWO32 + 2 * Max(g, d) + (if g > d then 1 else 0)
  {
  }

  /** With candidate priorities below 2^31, as RFC 5245 section 4.1.2 has them, nothing wraps and the order is exact. */
  lemma PairPrioOrder(g: u32, d: u32, g': u32, d': u32)
    requires g < 0x8000_0000 && d < 0x8000_0000 && g' < 0x8000_0000 && d' < 0x8000_0000
    ensures PairPrio(g, d) == Min(g, d) * TWO32 + 2 * Max(g, d) + (if g > d then 1 else 0)
    ensures PairPrio(g, d) < PairPrio(g', d') <==> RanksBelow(g, d, g', d')
  {
    PairPrioFits(g, d);
    PairPrioFits(g', d');
    var m, m', t, t' := Min(g, d), Min(g', d'), 2 * Max(g, d) + (if g > d then 1 else 0),
                        2 * Max(g', d') + (if g' > d' then 1 else 0);
    hide PairPrio, Min, Max;
    assert m * TWO32 + t < m' * TWO32 + t' <==> m < m' || (m == m' && t < t');
  }

  /** The part of a pair's priority below its smaller candidate priority; from 2^31 on it leaves its 32 bits. */
  function LowPart(g: u32, d: u32): nat { 2 * Max(g, d) + (if g > d then 1 else 0) }

  /** A pair that ranks below another has a lower priority unless it overtakes it, or the other wraps. */
  predicate OrderHolds(g: u32, d: u32, g': u32, d': u32) {
    if Min(g', d') == TWO32 - 1 then Min(g, d) == 0 && LowPart(g, d) < TWO32 - 2
    else Min(g', d') == Min(g, d) + 1 ==> LowPart(g, d) < LowPart(g', d') + TWO32
  }

  /** For candidate priorities of any size, as a peer may send them: exactly when the order is that of the ranks. */
  lemma PairPrioOrderIff(g: u32, d: u32, g': u32, d': u32)
    requires RanksBelow(g, d, g', d')
    ensures PairPrio(g, d) < PairPrio(g', d') <==> OrderHolds(g, d, g', d')
  {
    var m, m', t, t' := Min(g, d), Min(g', d'), LowPart(g, d), LowPart(g', d');
    assert t < 2 * TWO32 && t' < 2 * TWO32 && (m == m' ==> t < t');
    PairPrioFits(g, d);
    if m' < TWO32 - 1 {
      PairPrioFits(g', d');
      hide PairPrio, Min, Max, LowPart;
      assert m * TWO32 + t < m' * TWO32 + t' <==> (m' == m + 1 ==> t < t' + TWO32);
    } else {
      assert PairPrio(g', d') == TWO32 - 2;
    }
  }

  /** Pairs that rank the same have the same priority. */
  lemma SameRankSamePrio(g: u32, d: u32, g': u32, d': u32)
    requires !RanksBelow(g, d, g', d') && !RanksBelow(g', d', g, d)
    ensures PairPrio(g, d) == PairPrio(g', d')
  {
  }

  /** A pair of priorities 1 and 2^32 - 1 overtakes one of 2 and 2. */
  lemma OvertakesExample()
    ensures RanksBelow(1, 0xFFFF_FFFF, 2, 2) && PairPrio(1, 0xFFFF_FFFF) > PairPrio(2, 2)
  {
  }

  /** The sum leaves 64 bits exactly when both candidates have the greatest 32-bit priority. */
  lemma PairPrioWraps(g: u32, d: u32)
    ensures PairPrio(g, d) != Min(g, d) * TWO32 + 2 * Max(g, d) + (if g > d then 1 else 0)
            <==> Min(g, d) == TWO32 - 1
  {
  }

  /** A pair of top priorities ranks below a pair of lowest ones. */
  lemma PairPrioWrapExample()
    ensures PairPrio(0xFFFF_FFFF, 0xFFFF_FFFF) < PairPrio(1, 1)
  {
  }

  /** candpair_set_pprio: the controlling side's priority comes first. */
  function PPrio(role: Role, lprio: u32, rprio: u32): nat {
    if role == Controlling then PairPrio(lprio, rprio) else PairPrio(rprio, lprio)
  }

  /** The two agents, in opposite roles and with local and remote exchanged, compute the same priority. */
  lemma AgentsAgree(lprio: u32, rprio: u32)
    ensures PPrio(Controlling, lprio, rprio) == PPrio(Controlled, rprio, lprio)
  {
  }
}
