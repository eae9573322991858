/** Hashing by blocks of 64 bytes: folding a block function over a message, and buffering what is left over. */
module BlockHash {
  import opened Base

  const BLOCK: nat := 64

  /** The block function applied to one block after the other. */
  function Fold<S>(f: (S, seq<u8>) -> S, s: S, m: seq<u8>): S
    requires |m| % BLOCK == 0
  {
    if m == [] then s else Fold(f, f(s, m[..BLOCK]), m[BLOCK..])
  }

  lemma FoldOne<S>(f: (S, seq<u8>) -> S, s: S, block: seq<u8>)
    requires |block| == BLOCK
    ensures Fold(f, s, block) == f(s, block)
  {
    assert block[..BLOCK] == block;
  }

  lemma {:induction false} FoldAppend<S>(f: (S, seq<u8>) -> S, s: S, a: seq<u8>, b: seq<u8>)
    requires |a| % BLOCK == 0 && |b| % BLOCK == 0
    ensures |a + b| % BLOCK == 0 && Fold(f, s, a + b) == Fold(f, Fold(f, s, a), b)
    decreases |a|
  {
    if a == [] {
      assert a + b == b;
    } else {
      assert (a + b)[..BLOCK] == a[..BLOCK] && (a + b)[BLOCK..] == a[BLOCK..] + b;
      FoldAppend(f, f(s, a[..BLOCK]), a[BLOCK..], b);
    }
  }

  /** The part of a message that fills whole blocks. */
  function Whole(m: seq<u8>): (w: seq<u8>)
    ensures |w| % BLOCK == 0 && |w| <= |m| < |w| + BLOCK
  {
    m[..|m| / BLOCK * BLOCK]
  }

  function Rest(m: seq<u8>): (r: seq<u8>)
    ensures |r| == |m| % BLOCK && Whole(m) + r == m
  {
    m[|m| / BLOCK * BLOCK..]
  }

  /** The state after a message of which only whole blocks have been processed. */
  ghost predicate Absorbed<S>(f: (S, seq<u8>) -> S, init: S, m: seq<u8>, s: S, held: seq<u8>) {
    s == Fold(f, init, Whole(m)) && |held| == BLOCK && held[..|m| % BLOCK] == Rest(m)
  }

  lemma WholeAndRest(m: seq<u8>, w: seq<u8>, r: seq<u8>)
    requires m == w + r && |w| % BLOCK == 0 && |r| < BLOCK
    ensures Whole(m) == w && Rest(m) == r && |m| % BLOCK == |r|
  {
    assert |m| / BLOCK * BLOCK == |w|;
  }

  /** Data that does not fill the block is only stored. */
  lemma {:induction false} Stored<S>(f: (S, seq<u8>) -> S, init: S, m: seq<u8>, s: S, held: seq<u8>, data: seq<u8>,
                                     held': seq<u8>)
    requires Absorbed(f, init, m, s, held) && |m| % BLOCK + |data| < BLOCK && |held'| == BLOCK
    requires held'[..|m| % BLOCK] == held[..|m| % BLOCK]
    requires held'[|m| % BLOCK..|m| % BLOCK + |data|] == data
    ensures Absorbed(f, init, m + data, s, held')
  {
    hide Fold, Whole, Rest;
    var o := |m| % BLOCK;
    assert m + data == Whole(m) + (Rest(m) + data);
    WholeAndRest(m + data, Whole(m), Rest(m) + data);
    assert held'[..o + |data|] == held'[..o] + held'[o..o + |data|];
  }

  /** Data that fills the block completes it. */
  lemma Completed<S>(f: (S, seq<u8>) -> S, init: S, m: seq<u8>, s: S, held: seq<u8>, data: seq<u8>, held': seq<u8>)
    requires Absorbed(f, init, m, s, held) && |m| % BLOCK + |data| == BLOCK && |held'| == BLOCK
    requires held'[..|m| % BLOCK] == held[..|m| % BLOCK]
    requires held'[|m| % BLOCK..] == data
    ensures |m + data| % BLOCK == 0 && f(s, held') == Fold(f, init, m + data)
    ensures Absorbed(f, init, m + data, f(s, held'), held')
  {
    var o := |m| % BLOCK;
    assert held' == held'[..o] + held'[o..];
    assert m + data == Whole(m) + (Rest(m) + data);
    FoldAppend(f, init, Whole(m), held');
    FoldOne(f, s, held');
    WholeAndRest(m + data, m + data, []);
  }

  /** A whole block processed in place. */
  lemma Direct<S>(f: (S, seq<u8>) -> S, init: S, m: seq<u8>, s: S, held: seq<u8>, block: seq<u8>)
    requires Absorbed(f, init, m, s, held) && |m| % BLOCK == 0 && |block| == BLOCK
    ensures |m + block| % BLOCK == 0 && Absorbed(f, init, m + block, f(s, block), held)
  {
    assert Rest(m) == [] && Whole(m) == m;
    FoldAppend(f, init, m, block);
    FoldOne(f, s, block);
    WholeAndRest(m + block, m + block, []);
  }

  /** A message of whole blocks has been processed entirely. */
  lemma AllAbsorbed<S>(f: (S, seq<u8>) -> S, init: S, m: seq<u8>, s: S, held: seq<u8>)
    requires Absorbed(f, init, m, s, held) && |m| % BLOCK == 0
    ensures s == Fold(f, init, m)
  {
    assert Rest(m) == [] && Whole(m) == m;
  }

  // ---------------------------------------------------------------- padding

  /** Zero bytes between the mark and the length. */
  function PadZeros(n: nat): (z: nat)
    ensures z < BLOCK && (n + 1 + z) % BLOCK == 56
  {
    (55 - n) % BLOCK
  }

  /** Sections 3.1 and 3.2 of RFC 1321, and FIPS 180-1: a mark, zeros up to 56 mod 64, and eight bytes of length. */
  function Padded(m: seq<u8>, length: seq<u8>): (p: seq<u8>)
    requires |length| == 8
    ensures |p| % BLOCK == 0
  {
    m + [0x80] + Zeros(PadZeros(|m|)) + length
  }

  // ---------------------------------------------------------------- the bit count

  /** The two count words hold the bit length of `n` bytes modulo 2^64, `excess` carries too many in the high word. */
  predicate BitCount(c0: u32, c1: u32, n: nat, excess: nat) {
    c0 + TWO32 * c1 == (8 * n + TWO32 * excess) % TWO64
  }

  /** Adding the bits of `k` bytes really carries into the high word. */
  predicate Carries(c0: u32, k: nat) { c0 + Wrap32(8 * k) >= TWO32 }

  lemma OffsetOf(c0: u32, c1: u32, n: nat, excess: nat)
    requires BitCount(c0, c1, n, excess)
    ensures c0 / 8 % 64 == n % 64 && c0 % 8 == 0
  {
    var total: int := 8 * n + TWO32 * excess;
    assert total == total / TWO64 * TWO64 + total % TWO64;
    assert c0 + TWO32 * c1 == 8 * n + TWO32 * excess - total / TWO64 * TWO64;
    LowBits(c0, c1, n, excess, total / TWO64);
  }

  lemma LowBits(c0: u32, c1: u32, n: nat, excess: nat, q: int)
    requires c0 + TWO32 * c1 == 8 * n + TWO32 * excess - q * TWO64
    ensures c0 / 8 % 64 == n % 64 && c0 % 8 == 0
  {
    var k: int := c1 - excess + q * TWO32;
    Eighth(c0, n - 0x2000_0000 * k);
    SameRest(n - 0x2000_0000 * k, n, 0x80_0000 * k);
  }

  lemma Eighth(c: int, x: int)
    requires c == 8 * x
    ensures c / 8 == x && c % 8 == 0
  {
  }

  lemma SameRest(x: int, n: int, y: int)
    requires x == n - 64 * y
    ensures x % 64 == n % 64
  {
    assert n == 64 * (n / 64) + n % 64;
    assert x == 64 * (n / 64 - y) + n % 64;
  }

  /** The carry test of a 32-bit sum. */
  lemma CarryTest(c0: u32, add: u32)
    ensures Wrap32(c0 + add) < add <==> c0 + add >= TWO32
  {
  }

  /** Adding a byte count, with `t` as the carry the code adds. */
  lemma CountsMore(c0: u32, c1: u32, n: nat, excess: nat, k: nat, t: nat)
    requires BitCount(c0, c1, n, excess) && k < TWO64
    requires t == 1 || (t == 0 && !Carries(c0, k))
    ensures BitCount(Wrap32(c0 + Wrap32(8 * k)), Wrap32(c1 + Wrap32(k / 0x2000_0000) + t), n + k,
                   excess + (if t == 1 && !Carries(c0, k) then 1 else 0))
  {
    var bits: int := 8 * k;
    var due: int := if Carries(c0, k) then 1 else 0;
    var lo: int := c0 + Wrap32(bits);
    var hi: int := c1 + Wrap32(k / 0x2000_0000) + t;
    assert bits / TWO32 == k / 0x2000_0000;
    assert bits == bits / TWO32 * TWO32 + Wrap32(bits);
    assert Wrap32(lo) == lo - due * TWO32;
    var total: int := 8 * n + TWO32 * excess;
    var total': int := 8 * (n + k) + TWO32 * (excess + t - due);
    var q1 := total / TWO64;
    var q2: int := k / 0x2000_0000 / TWO32;
    var q3 := hi / TWO32;
    assert total == q1 * TWO64 + c0 + TWO32 * c1;
    assert k / 0x2000_0000 == q2 * TWO32 + Wrap32(k / 0x2000_0000);
    assert hi == q3 * TWO32 + Wrap32(hi);
    var sum: int := Wrap32(lo) + TWO32 * Wrap32(hi);
    assert total' == (q1 + q2 + q3) * TWO64 + sum;
    ModIs(total', q1 + q2 + q3, sum);
  }

  lemma ModIs(x: int, q: int, r: int)
    requires x == q * TWO64 + r && 0 <= r < TWO64
    ensures x % TWO64 == r
  {
  }

  lemma FilledUp(n: nat, copy: nat)
    ensures n % BLOCK + copy == BLOCK ==> (n + copy) % BLOCK == 0
  {
  }

  lemma HighAndLow(lo: u32, hi: u32, x: int)
    requires x == lo + TWO32 * hi
    ensures x % TWO32 == lo && x / TWO32 == hi
  {
  }
}
