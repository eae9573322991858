/** Machine integers, big-endian fields and a few sequence facts shared by every component. */
module Base {

  type u8 = x: int | 0 <= x < 0x100
  type u16 = x: int | 0 <= x < 0x1_0000
  type u32 = x: int | 0 <= x < 0x1_0000_0000

  const TWO16: int := 0x1_0000
  const TWO32: int := 0x1_0000_0000
  const TWO64: int := 0x1_0000_0000_0000_0000

  datatype Option<+T> = None | Some(value: T)

  function Min(a: int, b: int): int { if a < b then a else b }

  function Max(a: int, b: int): int { if a < b then b else a }

  function Low8(n: int): u8 { n % 0x100 }

  /** A 16-bit field in network byte order: htons() followed by a two-byte write. */
  function BytesOfU16(n: u16): (b: seq<u8>)
    ensures |b| == 2
  {
    [n / 0x100, n % 0x100]
  }

  function BytesOfU32(n: u32): (b: seq<u8>)
    ensures |b| == 4
  {
    BytesOfU16(n / TWO16) + BytesOfU16(n % TWO16)
  }

  function U16OfBytes(b: seq<u8>): u16
    requires |b| == 2
  {
    var hi: int := b[0];
    hi * 0x100 + b[1]
  }

  function U32OfBytes(b: seq<u8>): u32
    requires |b| == 4
  {
    var hi: int := U16OfBytes(b[..2]);
    hi * TWO16 + U16OfBytes(b[2..])
  }

  lemma U16RoundTrip(n: u16)
    ensures U16OfBytes(BytesOfU16(n)) == n
  {
  }

  lemma U32RoundTrip(n: u32)
    ensures U32OfBytes(BytesOfU32(n)) == n
  {
    var b := BytesOfU32(n);
    assert b[..2] == BytesOfU16(n / TWO16) && b[2..] == BytesOfU16(n % TWO16);
  }

  /** A 32-bit word: what is left of a number when it wraps around. */
  function Wrap32(x: int): u32 { x % TWO32 }

  function LowerChar(c: char): char { if 'A' <= c <= 'Z' then c - 'A' + 'a' else c }

  predicate SameIgnoringCase(s: string, t: string) {
    |s| == |t| && forall i :: 0 <= i < |s| ==> LowerChar(s[i]) == LowerChar(t[i])
  }

  function Zeros(n: nat): (z: seq<u8>)
    ensures |z| == n
  {
    seq(n, _ => 0)
  }

  /** The bytes that fill up `n` bytes to whole 32-bit words. */
  function PadLen(n: nat): (p: nat)
    ensures (n + p) % 4 == 0 && p < 4
  {
    if n % 4 == 0 then 0 else 4 - n % 4
  }

  /** The sequence with the element at index `k` taken out. */
  function Without<T>(s: seq<T>, k: nat): seq<T>
    requires k < |s|
  {
    s[..k] + s[k + 1..]
  }

  /** What a C string holds: everything before the first terminator. */
  function CString<T(==)>(s: seq<T>, nul: T): (r: seq<T>)
    ensures r <= s && nul !in r
  {
    if s == [] || s[0] == nul then [] else [s[0]] + CString(s[1..], nul)
  }

  lemma {:induction false} CStringOfText<T>(s: seq<T>, nul: T)
    requires nul !in s
    ensures CString(s, nul) == s
  {
    if s != [] { CStringOfText(s[1..], nul); }
  }

  lemma SumOfWords(x: int, y: int)
    requires x % 4 == 0 && y % 4 == 0
    ensures (x + y) % 4 == 0
  {
  }

  lemma SliceOfSlice<T>(b: seq<T>, lo: nat, hi: nat, i: nat, j: nat)
    requires lo <= hi <= |b| && i <= j <= hi - lo
    ensures b[lo + i..lo + j] == b[lo..hi][i..j]
  {
    var s := b[lo..hi];
    assert forall k :: 0 <= k < j - i ==> s[i..j][k] == b[lo + (i + k)] == b[lo + i..lo + j][k];
  }

  /** `part` occurs in `whole` at offset `i`. */
  predicate OccursAt<T(==)>(whole: seq<T>, i: nat, part: seq<T>) {
    i + |part| <= |whole| && whole[i..i + |part|] == part
  }

  lemma OccursTransitive<T>(whole: seq<T>, i: nat, mid: seq<T>, j: nat, part: seq<T>)
    requires OccursAt(whole, i, mid) && OccursAt(mid, j, part)
    ensures OccursAt(whole, i + j, part)
  {
    SliceOfSlice(whole, i, i + |mid|, j, j + |part|);
  }

  /** The two halves of something that occurs occur one behind the other. */
  lemma OccursSplit<T>(whole: seq<T>, i: nat, x: seq<T>, y: seq<T>)
    requires OccursAt(whole, i, x + y)
    ensures OccursAt(whole, i, x) && OccursAt(whole, i + |x|, y)
  {
    SliceOfSlice(whole, i, i + |x + y|, 0, |x|);
    SliceOfSlice(whole, i, i + |x + y|, |x|, |x + y|);
    assert (x + y)[0..|x|] == x && (x + y)[|x|..|x + y|] == y;
  }

  /** Concatenation of a sequence of sequences. */
  function Flatten<T>(ss: seq<seq<T>>): seq<T> {
    if ss == [] then [] else ss[0] + Flatten(ss[1..])
  }

  lemma FlattenFirst<T>(ss: seq<seq<T>>)
    ensures ss == [] ==> Flatten(ss) == []
    ensures ss != [] ==> Flatten(ss) == ss[0] + Flatten(ss[1..])
  {
  }

  lemma FlattenOne<T>(x: seq<T>)
    ensures Flatten([x]) == x
  {
    assert Flatten([x]) == x + Flatten([x][1..]) && Flatten([x][1..]) == [];
  }

  lemma Regroup<T>(x: seq<T>, y: seq<T>, z: seq<T>)
    ensures x + (y + z) == (x + y) + z
  {
  }

  lemma {:induction false} FlattenAppend<T>(a: seq<seq<T>>, b: seq<seq<T>>)
    ensures Flatten(a + b) == Flatten(a) + Flatten(b)
  {
    hide Flatten;
    FlattenFirst(a);
    if a == [] {
      assert a + b == b && [] + Flatten(b) == Flatten(b);
    } else {
      FlattenFirst(a + b);
      assert (a + b)[0] == a[0] && (a + b)[1..] == a[1..] + b;
      FlattenAppend(a[1..], b);
      Regroup(a[0], Flatten(a[1..]), Flatten(b));
    }
  }

  // ---------------------------------------------------------------- sequences without repetition

  predicate NoRepeats<T(==)>(l: seq<T>) { forall i, j :: 0 <= i < j < |l| ==> l[i] != l[j] }

  lemma SameMembers<T>(l: seq<T>, r: seq<T>)
    requires multiset(l) == multiset(r)
    ensures forall x :: x in r <==> x in l
  {
    forall x ensures x in r <==> x in l {
      assert x in l <==> x in multiset(l);
      assert x in r <==> x in multiset(r);
    }
  }

  lemma {:induction false} Counts<T>(l: seq<T>)
    ensures NoRepeats(l) <==> forall x :: multiset(l)[x] <= 1
  {
    if l != [] {
      Counts(l[1..]);
      assert l == [l[0]] + l[1..];
      assert multiset(l)[l[0]] == 1 + multiset(l[1..])[l[0]];
      if NoRepeats(l) {
        assert l[0] !in l[1..];
        forall x ensures multiset(l)[x] <= 1 { }
      } else if NoRepeats(l[1..]) {
        var i, j :| 0 <= i < j < |l| && l[i] == l[j];
        assert i == 0 && l[1..][j - 1] == l[0];
        assert l[0] in l[1..];
        assert multiset(l)[l[0]] > 1;
      } else {
        var x :| multiset(l[1..])[x] > 1;
        assert multiset(l)[x] > 1;
      }
    }
  }

  lemma SameMultisetNoRepeats<T>(l: seq<T>, r: seq<T>)
    requires multiset(l) == multiset(r) && NoRepeats(l)
    ensures NoRepeats(r)
  {
    Counts(l);
    Counts(r);
  }

  lemma {:induction false} FewerMembers<T>(l: seq<T>)
    ensures |set x | x in l| <= |l|
  {
    var all := set x | x in l;
    if l == [] {
      assert all == {};
    } else {
      var n := |l| - 1;
      assert l == l[..n] + [l[n]];
      FewerMembers(l[..n]);
      assert all == (set x | x in l[..n]) + {l[n]};
    }
  }
}
