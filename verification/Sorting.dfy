/** Stable sorting by a total preorder: the meaning of list_sort. */
module StableSorting {

  /** `sh(a, b)` says that `a` may stand before `b`. */
  ghost predicate TotalPreorder<T(!new)>(sh: (T, T) -> bool) {
    && (forall a, b :: sh(a, b) || sh(b, a))
    && (forall a, b, c :: sh(a, b) && sh(b, c) ==> sh(a, c))
  }

  predicate Sorted<T>(s: seq<T>, sh: (T, T) -> bool) {
    forall i, j :: 0 <= i < j < |s| ==> sh(s[i], s[j])
  }

  /** The elements that stand level with `x`, in their order. */
  function Level<T>(s: seq<T>, x: T, sh: (T, T) -> bool): seq<T> {
    if s == [] then []
    else (if sh(s[0], x) && sh(x, s[0]) then [s[0]] else []) + Level(s[1..], x, sh)
  }

  function Insert<T>(x: T, s: seq<T>, sh: (T, T) -> bool): (r: seq<T>)
    ensures |r| == |s| + 1
  {
    if s == [] || sh(x, s[0]) then [x] + s else [s[0]] + Insert(x, s[1..], sh)
  }

  function StableSort<T>(s: seq<T>, sh: (T, T) -> bool): (r: seq<T>)
    ensures |r| == |s|
  {
    if s == [] then [] else Insert(s[0], StableSort(s[1..], sh), sh)
  }

  lemma {:induction false} InsertSorted<T(!new)>(x: T, s: seq<T>, sh: (T, T) -> bool)
    requires TotalPreorder(sh) && Sorted(s, sh)
    ensures Sorted(Insert(x, s, sh), sh) && multiset(Insert(x, s, sh)) == multiset{x} + multiset(s)
  {
    if s == [] || sh(x, s[0]) {
    } else {
      var t, r := s[1..], Insert(x, s[1..], sh);
      InsertSorted(x, t, sh);
      assert s == [s[0]] + t;
      forall j | 0 <= j < |r| ensures sh(s[0], r[j]) {
        assert r[j] in multiset(r);
        assert r[j] == x || r[j] in t;
      }
    }
  }

  /** The result is sorted and a permutation of the input. */
  lemma {:induction false} StableSortSorts<T(!new)>(s: seq<T>, sh: (T, T) -> bool)
    requires TotalPreorder(sh)
    ensures Sorted(StableSort(s, sh), sh)
    ensures multiset(StableSort(s, sh)) == multiset(s)
  {
    if s != [] {
      StableSortSorts(s[1..], sh);
      InsertSorted(s[0], StableSort(s[1..], sh), sh);
      assert s == [s[0]] + s[1..];
    }
  }

  lemma {:induction false} InsertLevel<T(!new)>(y: T, s: seq<T>, x: T, sh: (T, T) -> bool)
    requires TotalPreorder(sh)
    ensures Level(Insert(y, s, sh), x, sh) == Level([y] + s, x, sh)
  {
    assert ([y] + s)[1..] == s;
    if s != [] && !sh(y, s[0]) {
      var t, c := s[1..], s[0];
      InsertLevel(y, t, x, sh);
      assert ([y] + t)[1..] == t && ([c] + Insert(y, t, sh))[1..] == Insert(y, t, sh);
    }
  }

  /** Elements that stand level keep their order. */
  lemma {:induction false} StableSortIsStable<T(!new)>(s: seq<T>, x: T, sh: (T, T) -> bool)
    requires TotalPreorder(sh)
    ensures Level(StableSort(s, sh), x, sh) == Level(s, x, sh)
  {
    if s != [] {
      var t, r := s[1..], StableSort(s[1..], sh);
      StableSortIsStable(t, x, sh);
      InsertLevel(s[0], r, x, sh);
      assert ([s[0]] + r)[1..] == r;
    }
  }

  // ---------------------------------------------------------------- exchanging neighbours

  function Exchange<T>(s: seq<T>, i: nat): (r: seq<T>)
    requires i + 1 < |s|
    ensures |r| == |s|
  {
    s[i := s[i + 1]][i + 1 := s[i]]
  }

  lemma {:induction false} InsertsCommute<T(!new)>(a: T, b: T, s: seq<T>, sh: (T, T) -> bool)
    requires TotalPreorder(sh) && !sh(a, b)
    ensures Insert(a, Insert(b, s, sh), sh) == Insert(b, Insert(a, s, sh), sh)
  {
    if s == [] {
      assert [a] + [] == [a] && [b] + [] == [b] && [b, a] == [b] + [a];
      assert [b][1..] == [];
    } else {
      var c, t := s[0], s[1..];
      assert forall r: seq<T> :: ([c] + r)[0] == c && ([c] + r)[1..] == r;
      if sh(b, c) {
        assert ([b] + s)[1..] == s;
      } else {
        assert !sh(a, c);
        InsertsCommute(a, b, t, sh);
      }
    }
  }

  /** Exchanging two neighbours that stand in the wrong order does not change what the list sorts to. */
  lemma {:induction false} ExchangeKeepsSort<T(!new)>(s: seq<T>, i: nat, sh: (T, T) -> bool)
    requires TotalPreorder(sh) && i + 1 < |s| && !sh(s[i], s[i + 1])
    ensures StableSort(Exchange(s, i), sh) == StableSort(s, sh)
  {
    var e := Exchange(s, i);
    if i == 0 {
      var t := s[2..];
      assert e[1..][1..] == t && s[1..][1..] == t;
      InsertsCommute(s[0], s[1], StableSort(t, sh), sh);
    } else {
      ExchangeKeepsSort(s[1..], i - 1, sh);
      assert e[1..] == Exchange(s[1..], i - 1);
    }
  }

  lemma {:induction false} SortedIsSorted<T>(s: seq<T>, sh: (T, T) -> bool)
    requires forall i :: 0 <= i && i + 1 < |s| ==> sh(s[i], s[i + 1])
    ensures StableSort(s, sh) == s
  {
    if s != [] {
      SortedIsSorted(s[1..], sh);
    }
  }

  /** How many elements of `s` should stand before `x`. */
  function Misplaced<T>(x: T, s: seq<T>, sh: (T, T) -> bool): nat {
    if s == [] then 0 else (if sh(x, s[0]) then 0 else 1) + Misplaced(x, s[1..], sh)
  }

  function Inversions<T>(s: seq<T>, sh: (T, T) -> bool): nat {
    if s == [] then 0 else Misplaced(s[0], s[1..], sh) + Inversions(s[1..], sh)
  }

  lemma {:induction false} ExchangeKeepsMisplaced<T>(x: T, s: seq<T>, i: nat, sh: (T, T) -> bool)
    requires i + 1 < |s|
    ensures Misplaced(x, Exchange(s, i), sh) == Misplaced(x, s, sh)
  {
    var e := Exchange(s, i);
    if i == 0 {
      assert e[1..][1..] == s[1..][1..];
      assert e[1..][0] == s[0] && s[1..][0] == s[1];
    } else {
      ExchangeKeepsMisplaced(x, s[1..], i - 1, sh);
      assert e[1..] == Exchange(s[1..], i - 1);
    }
  }

  /** The inversion count falls by one at every exchange. */
  lemma {:induction false} ExchangeRemovesInversion<T(!new)>(s: seq<T>, i: nat, sh: (T, T) -> bool)
    requires TotalPreorder(sh) && i + 1 < |s| && !sh(s[i], s[i + 1])
    ensures Inversions(Exchange(s, i), sh) == Inversions(s, sh) - 1
  {
    var e := Exchange(s, i);
    if i == 0 {
      var a, b, t := s[0], s[1], s[2..];
      assert s[1..] == [b] + t && e[1..] == [a] + t;
      assert ([b] + t)[1..] == t && ([a] + t)[1..] == t;
    } else {
      ExchangeRemovesInversion(s[1..], i - 1, sh);
      ExchangeKeepsMisplaced(s[0], s[1..], i - 1, sh);
      assert e[1..] == Exchange(s[1..], i - 1);
    }
  }
}
