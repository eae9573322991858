/** The doubly linked list, with its links, and the in-place sort on it. */
module LinkedList {
  import opened Base
  import opened StableSorting

  /** The sequence with `x` put in at index `k`. */
  function Spliced<T>(s: seq<T>, k: nat, x: T): seq<T>
    requires k <= |s|
  {
    s[..k] + [x] + s[k..]
  }

  lemma SplicedFirst<T>(s: seq<T>, x: T)
    ensures Spliced(s, 0, x) == [x] + s
  {
  }

  lemma SplicedPointwise<T>(s: seq<T>, k: nat, x: T, r: seq<T>)
    requires NoRepeats(s) && x !in s && k <= |s| && r == Spliced(s, k, x)
    ensures |r| == |s| + 1 && NoRepeats(r) && r[k] == x
    ensures forall i :: 0 <= i < k ==> r[i] == s[i]
    ensures forall i {:trigger r[i]} :: k < i < |r| ==> r[i] == s[i - 1]
  {
  }

  lemma WithoutPointwise<T>(s: seq<T>, k: nat, r: seq<T>)
    requires NoRepeats(s) && k < |s| && r == Without(s, k)
    ensures |r| == |s| - 1 && NoRepeats(r) && s[k] !in r
    ensures forall i :: 0 <= i < k ==> r[i] == s[i]
    ensures forall i {:trigger r[i]} :: k <= i < |r| ==> r[i] == s[i + 1]
  {
  }

  class Le<T> {
    var prev: Le?<T>
    var next: Le?<T>
    var list: List?<T>
    var data: T

    /** An element that is in no list. */
    constructor (data: T)
      ensures list == null && prev == null && next == null && this.data == data
    {
      prev, next, list := null, null, null;
      this.data := data;
    }
  }

  class List<T> {
    var head: Le?<T>
    var tail: Le?<T>
    /** The elements from head to tail. */
    ghost var nodes: seq<Le<T>>

    /** The links agree with the sequence of elements, both ways, and every element knows its list. */
    ghost predicate Valid()
      reads this, nodes
    {
      && NoRepeats(nodes)
      && head == (if nodes == [] then null else nodes[0])
      && tail == (if nodes == [] then null else nodes[|nodes| - 1])
      && (forall i {:trigger nodes[i].prev} :: 0 <= i < |nodes| ==>
            nodes[i].prev == if i == 0 then null else nodes[i - 1])
      && (forall i {:trigger nodes[i].next} :: 0 <= i < |nodes| ==>
            nodes[i].next == if i == |nodes| - 1 then null else nodes[i + 1])
      && (forall i {:trigger nodes[i].list} :: 0 <= i < |nodes| ==> nodes[i].list == this)
    }

    ghost function Contents(): (s: seq<T>)
      reads this, nodes
      ensures |s| == |nodes|
      ensures forall i :: 0 <= i < |nodes| ==> s[i] == nodes[i].data
    {
      DataOf(nodes)
    }

    constructor ()
      ensures Valid() && nodes == []
    {
      head, tail, nodes := null, null, [];
    }

    method Append(le: Le<T>, data: T)
      requires Valid()
      modifies this, le, nodes
      ensures old(le.list) != null ==> unchanged(this) && unchanged(le) && unchanged(old(nodes))
      ensures old(le.list) == null ==> Valid() && nodes == old(nodes) + [le] && Contents() == old(Contents()) + [data]
    {
      if le.list != null {
        return;
      }
      le.prev := tail;
      le.next := null;
      le.list := this;
      le.data := data;
      if head == null {
        head := le;
      }
      if tail != null {
        tail.next := le;
      }
      tail := le;
      nodes := nodes + [le];
    }

    method Prepend(le: Le<T>, data: T)
      requires Valid()
      modifies this, le, nodes
      ensures old(le.list) != null ==> unchanged(this) && unchanged(le) && unchanged(old(nodes))
      ensures old(le.list) == null ==> Valid() && nodes == [le] + old(nodes) && Contents() == [data] + old(Contents())
    {
      hide Spliced;
      if le.list != null {
        return;
      }
      le.prev := null;
      le.next := head;
      le.list := this;
      le.data := data;
      if head != null {
        head.prev := le;
      }
      if tail == null {
        tail := le;
      }
      head := le;
      nodes := Spliced(nodes, 0, le);
      SplicedPointwise(old(nodes), 0, le, nodes);
      SplicedFirst(old(nodes), le);
    }

    /** `ile` goes right behind `le`, the element at index `k`. */
    method InsertAfter(le: Le<T>, ile: Le<T>, data: T, ghost k: nat)
      requires Valid() && k < |nodes| && nodes[k] == le
      modifies this, ile, nodes
      ensures old(ile.list) != null ==> unchanged(this) && unchanged(ile) && unchanged(old(nodes))
      ensures old(ile.list) == null ==>
        && Valid() && nodes == Spliced(old(nodes), k + 1, ile)
        && ile.data == data && forall x :: x in old(nodes) ==> x.data == old(x.data)
    {
      hide Spliced;
      if ile.list != null {
        return;
      }
      if le.next != null {
        le.next.prev := ile;
      } else if tail == le {
        tail := ile;
      }
      ile.prev := le;
      ile.next := le.next;
      ile.list := this;
      ile.data := data;
      le.next := ile;
      nodes := Spliced(nodes, k + 1, ile);
      SplicedPointwise(old(nodes), k + 1, ile, nodes);
    }

    /** `ile` goes right before `le`, the element at index `k`. */
    method InsertBefore(le: Le<T>, ile: Le<T>, data: T, ghost k: nat)
      requires Valid() && k < |nodes| && nodes[k] == le
      modifies this, ile, nodes
      ensures old(ile.list) != null ==> unchanged(this) && unchanged(ile) && unchanged(old(nodes))
      ensures old(ile.list) == null ==>
        && Valid() && nodes == Spliced(old(nodes), k, ile)
        && ile.data == data && forall x :: x in old(nodes) ==> x.data == old(x.data)
    {
      hide Spliced;
      if ile.list != null {
        return;
      }
      if le.prev != null {
        le.prev.next := ile;
      } else if head == le {
        head := ile;
      }
      ile.prev := le.prev;
      ile.next := le;
      ile.list := this;
      ile.data := data;
      le.prev := ile;
      nodes := Spliced(nodes, k, ile);
      SplicedPointwise(old(nodes), k, ile, nodes);
    }

    /** list_apply, forward or backward: the first element in that direction the handler stops at. */
    method Apply(fwd: bool, ah: T -> bool) returns (r: Le?<T>, ghost k: int)
      requires Valid()
      ensures r != null ==>
        && 0 <= k < |nodes| && r == nodes[k] && ah(Contents()[k])
        && forall i :: 0 <= i < |nodes| && (if fwd then i < k else i > k) ==> !ah(Contents()[i])
      ensures r == null ==> forall i :: 0 <= i < |nodes| ==> !ah(Contents()[i])
    {
      var le := if fwd then head else tail;
      k := if fwd then 0 else |nodes| - 1;
      while le != null
        invariant -1 <= k <= |nodes|
        invariant le == if 0 <= k < |nodes| then nodes[k] else null
        invariant fwd ==> k >= 0
        invariant !fwd ==> k < |nodes|
        invariant forall i :: 0 <= i < |nodes| && (if fwd then i < k else i > k) ==> !ah(Contents()[i])
        decreases if fwd then |nodes| - k else k + 1
      {
        if ah(le.data) {
          return le, k;
        }
        le := if fwd then le.next else le.prev;
        k := if fwd then k + 1 else k - 1;
      }
      r := null;
    }

    method Count() returns (n: nat)
      requires Valid()
      ensures n == |nodes|
    {
      n := 0;
      var le := head;
      while le != null
        invariant 0 <= n <= |nodes|
        invariant le == if n < |nodes| then nodes[n] else null
        decreases |nodes| - n
      {
        n := n + 1;
        le := le.next;
      }
    }
  }

  /** list_unlink; `k` is the element's index in the list it is linked into, if any. */
  method Unlink<T>(le: Le<T>, ghost k: nat)
    requires le.list != null ==> le.list.Valid() && k < |le.list.nodes| && le.list.nodes[k] == le
    modifies le, le.list, if le.list == null then [] else le.list.nodes
    ensures le.data == old(le.data)
    ensures old(le.list) == null ==> unchanged(le)
    ensures old(le.list) != null ==>
      var l := old(le.list);
      && le.list == null && le.prev == null && le.next == null
      && l.Valid() && l.nodes == Without(old(le.list.nodes), k)
      && forall x :: x in old(le.list.nodes) ==> x.data == old(x.data)
  {
    hide Without;
    if le.list == null {
      return;
    }
    var l := le.list;
    if le.prev != null {
      le.prev.next := le.next;
    } else {
      l.head := le.next;
    }
    if le.next != null {
      le.next.prev := le.prev;
    } else {
      l.tail := le.prev;
    }
    le.next := null;
    le.prev := null;
    le.list := null;
    l.nodes := Without(l.nodes, k);
    WithoutPointwise(old(le.list.nodes), k, l.nodes);
  }

  ghost function DataOf<T>(nodes: seq<Le<T>>): (s: seq<T>)
    reads nodes
    ensures |s| == |nodes|
    ensures forall i :: 0 <= i < |nodes| ==> s[i] == nodes[i].data
  {
    seq(|nodes|, i requires 0 <= i < |nodes| reads nodes => nodes[i].data)
  }

  lemma TakeOutPutBehind<T>(s: seq<T>, k: nat)
    requires k + 1 < |s|
    ensures Spliced(Without(s, k), k + 1, s[k]) == Exchange(s, k)
  {
  }

  /** The exchange step of list_sort: `le`, at index `k`, is unlinked and goes behind its successor. */
  method MoveBehindNext<T>(l: List<T>, le: Le<T>, ghost k: nat)
    requires l.Valid() && k + 1 < |l.nodes| && l.nodes[k] == le
    modifies l, l.nodes
    ensures l.Valid() && l.nodes == Exchange(old(l.nodes), k) && |l.nodes| == |old(l.nodes)| && l.nodes[k + 1] == le
    ensures l.Contents() == Exchange(old(l.Contents()), k)
    ensures multiset(l.nodes) == multiset(old(l.nodes)) && forall x :: x in l.nodes ==> x in old(l.nodes)
    ensures forall x :: x in old(l.nodes) ==> x.data == old(x.data)
  {
    hide Exchange, NoRepeats;
    ghost var nodes, data := l.nodes, l.Contents();
    assert NoRepeats(nodes);
    var tle := le.next;
    Unlink(le, k);
    WithoutPointwise(nodes, k, l.nodes);
    l.InsertAfter(tle, le, le.data, k);
    TakeOutPutBehind(nodes, k);
    ExchangePointwise(nodes, k, l.nodes);
    ExchangePointwise(data, k, Exchange(data, k));
    assert l.Contents() == Exchange(data, k);
    SameMembers(nodes, l.nodes);
  }

  lemma ExchangePointwise<T>(s: seq<T>, k: nat, r: seq<T>)
    requires k + 1 < |s| && r == Exchange(s, k)
    ensures |r| == |s| && r[k] == s[k + 1] && r[k + 1] == s[k]
    ensures forall i {:trigger r[i]} :: 0 <= i < |s| && i != k && i != k + 1 ==> r[i] == s[i]
    ensures multiset(r) == multiset(s)
  {
    assert s == s[..k] + [s[k], s[k + 1]] + s[k + 2..];
    assert r == s[..k] + [s[k + 1], s[k]] + s[k + 2..];
  }

  /** An exchange of neighbours in the wrong order: the stable sort stays the same, one inversion is gone. */
  method ExchangeStep<T(!new)>(l: List<T>, le: Le<T>, ghost k: nat, ghost sh: (T, T) -> bool)
    requires l.Valid() && TotalPreorder(sh)
    requires k + 1 < |l.nodes| && l.nodes[k] == le && !sh(l.Contents()[k], l.Contents()[k + 1])
    modifies l, l.nodes
    ensures l.Valid() && |l.nodes| == |old(l.nodes)| && l.nodes[k + 1] == le
    ensures multiset(l.nodes) == multiset(old(l.nodes)) && forall x :: x in l.nodes ==> x in old(l.nodes)
    ensures forall x :: x in old(l.nodes) ==> x.data == old(x.data)
    ensures StableSort(l.Contents(), sh) == StableSort(old(l.Contents()), sh)
    ensures Inversions(l.Contents(), sh) < old(Inversions(l.Contents(), sh))
  {
    hide StableSort, Inversions, Exchange, TotalPreorder, NoRepeats;
    ExchangeKeepsSort(l.Contents(), k, sh);
    ExchangeRemovesInversion(l.Contents(), k, sh);
    MoveBehindNext(l, le, k);
  }

  /** One pass of list_sort, carrying an element forward past every neighbour it has to follow. */
  method SortPass<T(!new)>(l: List<T>, sh: (T, T) -> bool) returns (sort: bool)
    requires l.Valid() && TotalPreorder(sh)
    modifies l, l.nodes
    ensures l.Valid() && multiset(l.nodes) == multiset(old(l.nodes))
    ensures forall x :: x in old(l.nodes) ==> x.data == old(x.data)
    ensures StableSort(l.Contents(), sh) == StableSort(old(l.Contents()), sh)
    ensures Inversions(l.Contents(), sh) <= Inversions(old(l.Contents()), sh)
    ensures sort ==> Inversions(l.Contents(), sh) < Inversions(old(l.Contents()), sh)
    ensures !sort ==> forall i :: 0 <= i && i + 1 < |l.nodes| ==> sh(l.Contents()[i], l.Contents()[i + 1])
  {
    hide StableSort, Inversions, Exchange, TotalPreorder, NoRepeats;
    var le := l.head;
    sort := false;
    ghost var k := 0;
    while le != null && le.next != null
      invariant l.Valid() && multiset(l.nodes) == multiset(old(l.nodes))
      invariant forall x :: x in l.nodes ==> x in old(l.nodes)
      invariant StableSort(l.Contents(), sh) == StableSort(old(l.Contents()), sh)
      invariant forall x :: x in old(l.nodes) ==> x.data == old(x.data)
      invariant 0 <= k && (le == null ==> l.nodes == [])
      invariant le != null ==> k < |l.nodes| && le == l.nodes[k]
      invariant Inversions(l.Contents(), sh) <= Inversions(old(l.Contents()), sh)
      invariant sort ==> Inversions(l.Contents(), sh) < Inversions(old(l.Contents()), sh)
      invariant !sort ==> forall i :: 0 <= i < k && i + 1 < |l.nodes| ==> sh(l.Contents()[i], l.Contents()[i + 1])
      decreases Inversions(l.Contents(), sh), |l.nodes| - k
    {
      if sh(le.data, le.next.data) {
        le := le.next;
      } else {
        assert forall i :: 0 <= i < |l.nodes| ==> l.nodes[i] in old(l.nodes);
        ExchangeStep(l, le, k, sh);
        sort := true;
      }
      k := k + 1;
    }
  }

  /**
   * list_sort: passes until one finds nothing to exchange. For a handler that is a total preorder it
   * terminates, because every exchange removes one inversion, and it leaves the very same elements in
   * the order of the stable sort.
   */
  method Sort<T(!new)>(l: List<T>, sh: (T, T) -> bool)
    requires l.Valid() && TotalPreorder(sh)
    modifies l, l.nodes
    ensures l.Valid() && l.Contents() == StableSort(old(l.Contents()), sh)
    ensures multiset(l.nodes) == multiset(old(l.nodes))
    ensures forall x :: x in old(l.nodes) ==> x.data == old(x.data)
  {
    hide StableSort, Inversions, TotalPreorder, NoRepeats;
    var sort := true;
    while sort
      invariant l.Valid() && multiset(l.nodes) == multiset(old(l.nodes))
      invariant forall x :: x in l.nodes <==> x in old(l.nodes)
      invariant forall x :: x in old(l.nodes) ==> x.data == old(x.data)
      invariant StableSort(l.Contents(), sh) == StableSort(old(l.Contents()), sh)
      invariant !sort ==> forall i :: 0 <= i && i + 1 < |l.nodes| ==> sh(l.Contents()[i], l.Contents()[i + 1])
      decreases Inversions(l.Contents(), sh), sort
    {
      ghost var nodes := l.nodes;
      assert forall i :: 0 <= i < |l.nodes| ==> l.nodes[i] in old(l.nodes);
      sort := SortPass(l, sh);
      SameMembers(nodes, l.nodes);
    }
    SortedIsSorted(l.Contents(), sh);
  }
}
