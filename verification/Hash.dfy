/** The hash table: a power-of-two number of buckets, each a list in order of insertion. */
module HashTable {
  import opened Base

  /** The elements inserted under a key that falls into bucket `i` of `n`, oldest first. */
  ghost function InBucket<T>(log: seq<(u32, T)>, n: nat, i: nat): seq<T>
    requires n > 0
  {
    if log == [] then []
    else
      var rest, e := log[..|log| - 1], log[|log| - 1];
      InBucket(rest, n, i) + (if e.0 % n == i then [e.1] else [])
  }

  /** The oldest element the handler accepts. */
  function First<T>(xs: seq<T>, ah: T -> bool): Option<T> {
    if xs == [] then None
    else if ah(xs[0]) then Some(xs[0])
    else First(xs[1..], ah)
  }

  function Values<T>(log: seq<(u32, T)>): (vs: seq<T>)
    ensures |vs| == |log|
  {
    seq(|log|, i requires 0 <= i < |log| => log[i].1)
  }

  lemma {:induction false} FirstMeans<T>(xs: seq<T>, ah: T -> bool)
    ensures First(xs, ah).Some? ==> First(xs, ah).value in xs && ah(First(xs, ah).value)
    ensures First(xs, ah).None? ==> forall x :: x in xs ==> !ah(x)
  {
    if xs != [] {
      FirstMeans(xs[1..], ah);
    }
  }

  lemma {:induction false} FirstAppend<T>(xs: seq<T>, y: T, ah: T -> bool)
    ensures First(xs + [y], ah) == if First(xs, ah).Some? then First(xs, ah) else if ah(y) then Some(y) else None
  {
    if xs == [] {
      assert xs + [y] == [y];
    } else {
      FirstAppend(xs[1..], y, ah);
      assert (xs + [y])[0] == xs[0] && (xs + [y])[1..] == xs[1..] + [y];
    }
  }

  /**
   * Searching one bucket finds what searching the whole table in insertion order would find, as soon
   * as the handler accepts only elements inserted under the key searched for.
   */
  lemma {:induction false} BucketFindsFirst<T>(log: seq<(u32, T)>, n: nat, key: u32, ah: T -> bool)
    requires n > 0
    requires forall i :: 0 <= i < |log| && ah(log[i].1) ==> log[i].0 == key
    ensures First(InBucket(log, n, key % n), ah) == First(Values(log), ah)
  {
    if log != [] {
      var rest, e := log[..|log| - 1], log[|log| - 1];
      BucketFindsFirst(rest, n, key, ah);
      assert Values(log) == Values(rest) + [e.1];
      FirstAppend(Values(rest), e.1, ah);
      FirstAppend(InBucket(rest, n, key % n), e.1, ah);
      assert InBucket(rest, n, key % n) + [] == InBucket(rest, n, key % n);
    }
  }

  /** The sequence without its oldest element the handler accepts. */
  function DropFirst<T>(xs: seq<T>, ah: T -> bool): seq<T> {
    if xs == [] then []
    else
      var rest, y := xs[..|xs| - 1], xs[|xs| - 1];
      if First(rest, ah).Some? then DropFirst(rest, ah) + [y]
      else if ah(y) then rest
      else xs
  }

  ghost function DropFirstLogged<T>(log: seq<(u32, T)>, ah: T -> bool): seq<(u32, T)> {
    if log == [] then []
    else
      var rest, e := log[..|log| - 1], log[|log| - 1];
      if First(Values(rest), ah).Some? then DropFirstLogged(rest, ah) + [e]
      else if ah(e.1) then rest
      else log
  }

  lemma {:induction false} DropFirstValues<T>(log: seq<(u32, T)>, ah: T -> bool)
    ensures Values(DropFirstLogged(log, ah)) == DropFirst(Values(log), ah)
  {
    if log != [] {
      var rest := log[..|log| - 1];
      DropFirstValues(rest, ah);
      assert Values(log)[..|log| - 1] == Values(rest);
    }
  }

  lemma {:induction false} DropFirstKeys<T>(log: seq<(u32, T)>, ah: T -> bool)
    ensures forall e :: e in DropFirstLogged(log, ah) ==> e in log
  {
    if log != [] { DropFirstKeys(log[..|log| - 1], ah); }
  }

  lemma InBucketNext<T>(log: seq<(u32, T)>, e: (u32, T), n: nat, i: nat)
    requires n > 0
    ensures InBucket(log + [e], n, i) == if e.0 % n == i then InBucket(log, n, i) + [e.1] else InBucket(log, n, i)
  {
    assert (log + [e])[..|log|] == log && InBucket(log, n, i) + [] == InBucket(log, n, i);
  }

  lemma DropFirstNext<T>(xs: seq<T>, y: T, ah: T -> bool)
    ensures DropFirst(xs + [y], ah) == if First(xs, ah).Some? then DropFirst(xs, ah) + [y]
                                       else if ah(y) then xs else xs + [y]
    ensures First(xs, ah).None? ==> DropFirst(xs, ah) == xs
  {
    assert (xs + [y])[..|xs|] == xs;
    if First(xs, ah).None? && xs != [] {
      FirstAppend(xs[..|xs| - 1], xs[|xs| - 1], ah);
      assert xs[..|xs| - 1] + [xs[|xs| - 1]] == xs;
    }
  }

  /** Unlinking the element a lookup finds from its bucket unlinks it from the whole table, and no other. */
  lemma {:induction false} BucketDropsFirst<T>(log: seq<(u32, T)>, n: nat, i: nat, key: u32, ah: T -> bool)
    requires n > 0 && i < n
    requires forall j :: 0 <= j < |log| && ah(log[j].1) ==> log[j].0 == key
    ensures InBucket(DropFirstLogged(log, ah), n, i) ==
            if i == key % n then DropFirst(InBucket(log, n, i), ah) else InBucket(log, n, i)
  {
    hide DropFirst, InBucket, First, Values;
    if log == [] {
      NothingInBucket<T>(n, i, ah);
    } else {
      var rest, e := log[..|log| - 1], log[|log| - 1];
      assert log == rest + [e];
      BucketDropsFirst(rest, n, i, key, ah);
      BucketFindsFirst(rest, n, key, ah);
      InBucketNext(rest, e, n, i);
      InBucketNext(DropFirstLogged(rest, ah), e, n, i);
      DropFirstNext(InBucket(rest, n, i), e.1, ah);
    }
  }

  lemma NothingInBucket<T>(n: nat, i: nat, ah: T -> bool)
    requires n > 0
    ensures InBucket<T>([], n, i) == [] && DropFirst([], ah) == []
  {
  }

  /** The buckets of a table, all of them. */
  ghost function Buckets<T>(log: seq<(u32, T)>, n: nat): (bs: seq<seq<T>>)
    requires n > 0
    ensures |bs| == n
  {
    seq(n, i requires 0 <= i < n => InBucket(log, n, i))
  }

  lemma FlattenPut<T>(bs: seq<seq<T>>, k: nat, x: T)
    requires k < |bs|
    ensures multiset(Flatten(bs[k := bs[k] + [x]])) == multiset(Flatten(bs)) + multiset{x}
  {
    hide Flatten;
    var front, back := bs[..k], bs[k + 1..];
    assert bs == front + ([bs[k]] + back);
    assert bs[k := bs[k] + [x]] == front + ([bs[k] + [x]] + back);
    FlattenAppend(front, [bs[k]] + back);
    FlattenAppend(front, [bs[k] + [x]] + back);
    FlattenFirst([bs[k]] + back);
    FlattenFirst([bs[k] + [x]] + back);
    assert ([bs[k]] + back)[1..] == back && ([bs[k] + [x]] + back)[1..] == back;
  }

  lemma {:induction false} FlattenEmpty<T>(bs: seq<seq<T>>)
    requires forall i :: 0 <= i < |bs| ==> bs[i] == []
    ensures Flatten(bs) == []
  {
    if bs != [] { FlattenEmpty(bs[1..]); }
  }

  lemma BucketsNext<T>(log: seq<(u32, T)>, e: (u32, T), n: nat)
    requires n > 0
    ensures var k := e.0 % n; Buckets(log + [e], n) == Buckets(log, n)[k := Buckets(log, n)[k] + [e.1]]
  {
    hide InBucket;
    var k: nat := e.0 % n;
    forall i | 0 <= i < n ensures Buckets(log + [e], n)[i] == Buckets(log, n)[k := Buckets(log, n)[k] + [e.1]][i] {
      InBucketNext(log, e, n, i);
    }
  }

  lemma ValuesNext<T>(log: seq<(u32, T)>, e: (u32, T))
    ensures Values(log + [e]) == Values(log) + [e.1]
  {
  }

  /** Bucket after bucket, the table holds what was inserted, each as often. */
  lemma {:induction false} BucketsHoldAll<T>(log: seq<(u32, T)>, n: nat)
    requires n > 0
    ensures multiset(Flatten(Buckets(log, n))) == multiset(Values(log))
  {
    if log == [] {
      FlattenEmpty(Buckets(log, n));
      assert Values(log) == [];
    } else {
      hide Flatten, Buckets, Values;
      var rest, e := log[..|log| - 1], log[|log| - 1];
      assert log == rest + [e];
      BucketsHoldAll(rest, n);
      var k: nat := e.0 % n;
      BucketsNext(rest, e, n);
      FlattenPut(Buckets(rest, n), k, e.1);
      assert Values(log) == Values(rest) + [e.1] by { ValuesNext(rest, e); }
    }
  }

  predicate PowerOfTwo(n: nat) {
    n == 1 || (n > 1 && n % 2 == 0 && PowerOfTwo(n / 2))
  }

  class Hash<T> {
    var bucket: seq<seq<T>>
    ghost var log: seq<(u32, T)>

    ghost predicate Valid()
      reads this
    {
      |bucket| > 0 && forall i :: 0 <= i < |bucket| ==> bucket[i] == InBucket(log, |bucket|, i)
    }

    /** hash_alloc; the bucket count is a power of two, so masking the key is taking the remainder. */
    constructor (bsize: nat)
      requires bsize > 0 && PowerOfTwo(bsize)
      ensures Valid() && log == [] && |bucket| == bsize
    {
      bucket := seq(bsize, _ => []);
      log := [];
    }

    method Append(key: u32, x: T)
      requires Valid()
      modifies this
      ensures Valid() && log == old(log) + [(key, x)] && |bucket| == |old(bucket)|
    {
      var i := key % |bucket|;
      bucket := bucket[i := bucket[i] + [x]];
      log := log + [(key, x)];
      assert log[..|log| - 1] == old(log);
    }

    /** hash_lookup: walks one bucket from its head until the handler accepts. */
    method Lookup(key: u32, ah: T -> bool) returns (r: Option<T>)
      requires Valid()
      requires forall i :: 0 <= i < |log| && ah(log[i].1) ==> log[i].0 == key
      ensures r == First(Values(log), ah)
    {
      var lst := bucket[key % |bucket|];
      BucketFindsFirst(log, |bucket|, key, ah);
      var i := 0;
      while i < |lst|
        invariant 0 <= i <= |lst| && First(lst[i..], ah) == First(lst, ah)
      {
        if ah(lst[i]) {
          return Some(lst[i]);
        }
        i := i + 1;
      }
      r := None;
    }

    /** Unlinks the element that a lookup with this handler would find, if there is one. */
    method UnlinkFirst(key: u32, ah: T -> bool)
      requires Valid()
      requires forall i :: 0 <= i < |log| && ah(log[i].1) ==> log[i].0 == key
      modifies this
      ensures Valid() && log == DropFirstLogged(old(log), ah) && |bucket| == |old(bucket)|
    {
      var n, i := |bucket|, key % |bucket|;
      forall j | 0 <= j < n
        ensures InBucket(DropFirstLogged(log, ah), n, j) ==
                if j == i then DropFirst(bucket[j], ah) else bucket[j]
      {
        BucketDropsFirst(log, n, j, key, ah);
      }
      bucket := bucket[i := DropFirst(bucket[i], ah)];
      log := DropFirstLogged(log, ah);
    }

    /** The order in which hash_apply visits the elements: bucket after bucket. */
    method InOrder() returns (xs: seq<T>)
      requires Valid()
      ensures xs == Flatten(bucket) && multiset(xs) == multiset(Values(log))
    {
      hide Flatten, InBucket;
      xs := [];
      FlattenFirst<T>([]);
      assert bucket[..0] == [];
      for i := 0 to |bucket|
        invariant xs == Flatten(bucket[..i])
      {
        assert bucket[..i + 1] == bucket[..i] + [bucket[i]];
        FlattenAppend(bucket[..i], [bucket[i]]);
        FlattenOne(bucket[i]);
        xs := xs + bucket[i];
      }
      assert bucket[..|bucket|] == bucket;
      BucketsHoldAll(log, |bucket|);
      assert bucket == Buckets(log, |bucket|);
    }
  }
}
