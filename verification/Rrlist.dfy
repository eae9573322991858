/** Sorting DNS resource records for one query type. */
module DnsRecordList {
  import opened Base
  import opened StableSorting
  import opened LinkedList

  const DNS_TYPE_MX: u16 := 0x000F
  const DNS_TYPE_SRV: u16 := 0x0021
  const DNS_TYPE_NAPTR: u16 := 0x0023

  /** A record with the fields the sort handler looks at. */
  datatype Record = Record(typ: u16, mxPref: u16, srvPri: u16, srvWeight: u16, naptrOrder: u16, naptrPref: u16)

  /** std_sort_handler. */
  function StdSort(typ: u16, rr1: Record, rr2: Record): bool {
    if typ != rr1.typ then typ != rr2.typ
    else if typ != rr2.typ then true
    else if typ == DNS_TYPE_MX then rr1.mxPref <= rr2.mxPref
    else if typ == DNS_TYPE_SRV then
      if rr1.srvPri == rr2.srvPri then (if rr1.srvWeight != 0 then 0 != rr2.srvWeight else true)
      else rr1.srvPri < rr2.srvPri
    else if typ == DNS_TYPE_NAPTR then
      if rr1.naptrOrder == rr2.naptrOrder then rr1.naptrPref <= rr2.naptrPref
      else rr1.naptrOrder < rr2.naptrOrder
    else true
  }

  /** Where a record belongs: records of the type asked for first, then by the type's own fields. */
  function Rank(typ: u16, rr: Record): (int, int, int) {
    if rr.typ != typ then (1, 0, 0)
    else if typ == DNS_TYPE_MX then (0, rr.mxPref, 0)
    else if typ == DNS_TYPE_SRV then (0, rr.srvPri, if rr.srvWeight == 0 then 0 else 1)
    else if typ == DNS_TYPE_NAPTR then (0, rr.naptrOrder, rr.naptrPref)
    else (0, 0, 0)
  }

  predicate RankLe(x: (int, int, int), y: (int, int, int)) {
    x.0 < y.0 || (x.0 == y.0 && (x.1 < y.1 || (x.1 == y.1 && x.2 <= y.2)))
  }

  /** The handler dns_rrlist_sort hands to list_sort. */
  function Handler(typ: u16): (Record, Record) -> bool {
    (a, b) => StdSort(typ, a, b)
  }

  /** In every case the handler compares ranks. */
  lemma StdSortComparesRanks(typ: u16, a: Record, b: Record)
    ensures StdSort(typ, a, b) <==> RankLe(Rank(typ, a), Rank(typ, b))
  {
  }

  lemma HandlerIsPreorder(typ: u16)
    ensures TotalPreorder(Handler(typ))
  {
    var sh := Handler(typ);
    forall a, b ensures sh(a, b) || sh(b, a) {
      StdSortComparesRanks(typ, a, b);
      StdSortComparesRanks(typ, b, a);
    }
    forall a, b, c | sh(a, b) && sh(b, c) ensures sh(a, c) {
      StdSortComparesRanks(typ, a, b);
      StdSortComparesRanks(typ, b, c);
      StdSortComparesRanks(typ, a, c);
    }
  }

  /** Sorted records are in rank order, none is lost, and records of the same rank keep their order. */
  lemma SortedRecords(s: seq<Record>, typ: u16, i: nat, j: nat, x: Record)
    requires i < j < |s|
    ensures var r := StableSort(s, Handler(typ));
            && RankLe(Rank(typ, r[i]), Rank(typ, r[j])) && multiset(r) == multiset(s)
            && Level(r, x, Handler(typ)) == Level(s, x, Handler(typ))
  {
    var r := StableSort(s, Handler(typ));
    HandlerIsPreorder(typ);
    StableSortSorts(s, Handler(typ));
    StableSortIsStable(s, x, Handler(typ));
    StdSortComparesRanks(typ, r[i], r[j]);
    assert Handler(typ)(r[i], r[j]);
  }

  /** dns_rrlist_sort on the links of the list. */
  method RrlistSort(rrl: List<Record>, typ: u16)
    requires rrl.Valid()
    modifies rrl, rrl.nodes
    ensures rrl.Valid() && multiset(rrl.nodes) == multiset(old(rrl.nodes))
    ensures rrl.Contents() == StableSort(old(rrl.Contents()), Handler(typ))
  {
    HandlerIsPreorder(typ);
    Sort(rrl, Handler(typ));
  }
}
