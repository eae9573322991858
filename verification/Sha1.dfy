/** SHA-1 as a stream: its block function is left uninterpreted. */
module Sha1 {
  import opened Base
  import opened BlockHash

  datatype Words = Words(a: u32, b: u32, c: u32, d: u32, e: u32)

  const INIT: Words := Words(0x67452301, 0xefcdab89, 0x98badcfe, 0x10325476, 0xc3d2e1f0)

  /** Byte `i` of a word, most significant first. */
  function Byte(w: int, i: nat): u8
    requires 0 <= w && i < 4
  {
    (if i == 3 then w else if i == 2 then w / 0x100 else if i == 1 then w / 0x1_0000 else w / 0x100_0000) % 0x100
  }

  function Be32(w: u32): (b: seq<u8>)
    ensures |b| == 4
  {
    [Byte(w, 0), Byte(w, 1), Byte(w, 2), Byte(w, 3)]
  }

  function Be64(x: int): (b: seq<u8>)
    requires 0 <= x < TWO64
    ensures |b| == 8
  {
    Be32(x / TWO32) + Be32(x % TWO32)
  }

  /** The length field as the counter has it: the bit length, and the carries it has too many. */
  function LengthField(n: nat, excess: nat): int { (8 * n + TWO32 * excess) % TWO64 }

  function DigestOfPadded(f: (Words, seq<u8>) -> Words, p: seq<u8>): (d: seq<u8>)
    requires |p| % BLOCK == 0
    ensures |d| == 20
  {
    var s := Fold(f, INIT, p);
    Be32(s.a) + Be32(s.b) + Be32(s.c) + Be32(s.d) + Be32(s.e)
  }

  /** The digest of a whole message at once. */
  function Digest(f: (Words, seq<u8>) -> Words, m: seq<u8>): (d: seq<u8>) {
    DigestOfPadded(f, Padded(m, Be64(8 * |m| % TWO64)))
  }

  // ---------------------------------------------------------------- the bit counter

  /** The carry test compares a 32-bit sum with the bit count of the data as a 64-bit number. */
  function CarryTaken(c0: u32, len: nat): bool { Wrap32(c0 + Wrap32(8 * len)) < 8 * len % TWO64 }

  /** A carry is taken that is not due. */
  predicate Spurious(c0: u32, len: nat) { CarryTaken(c0, len) && !Carries(c0, len) }

  /** Every due carry is taken; one that is not due is taken exactly when the data has 2^32 bits or more. */
  lemma SpuriousIff(c0: u32, len: nat)
    ensures Carries(c0, len) ==> CarryTaken(c0, len)
    ensures Spurious(c0, len) <==> 8 * len % TWO64 >= TWO32 && !Carries(c0, len)
  {
    var bits := 8 * len % TWO64;
    SameLow(8 * len);
    assert Wrap32(8 * len) <= bits;
    assert bits < TWO32 ==> bits == Wrap32(8 * len);
  }

  lemma SameLow(x: nat)
    ensures Wrap32(x) == Wrap32(x % TWO64)
  {
    assert x == x / TWO64 * TWO64 + x % TWO64;
    assert x == (x / TWO64 * TWO32 + x % TWO64 / TWO32) * TWO32 + x % TWO64 % TWO32;
  }

  /** An example: 2^29 bytes handed to a fresh context in one piece. */
  lemma SpuriousExample()
    ensures Spurious(0, 0x2000_0000)
  {
  }

  /** The counter is the true length exactly when the carries it has too many cancel out. */
  lemma LengthFieldIsTrue(n: nat, excess: nat)
    ensures LengthField(n, excess) == 8 * n % TWO64 <==> excess % TWO32 == 0
  {
    var x, y := 8 * n + TWO32 * excess, 8 * n;
    var q := x / TWO64 - y / TWO64;
    assert x - y == TWO32 * excess == q * TWO64 + (x % TWO64 - y % TWO64);
    if x % TWO64 == y % TWO64 {
      Cancels(excess, q);
    }
    if excess % TWO32 == 0 {
      var k := excess / TWO32;
      assert x == y + k * TWO64;
      ShiftedMod(y, k);
    }
  }

  lemma Cancels(excess: nat, q: int)
    requires TWO32 * excess == q * TWO64
    ensures excess % TWO32 == 0
  {
    assert excess == q * TWO32;
  }

  lemma ShiftedMod(y: int, k: int)
    ensures (y + k * TWO64) % TWO64 == y % TWO64
  {
    assert y == y / TWO64 * TWO64 + y % TWO64;
    assert y + k * TWO64 == (y / TWO64 + k) * TWO64 + y % TWO64;
  }

  lemma Be32Injective(x: u32, y: u32)
    requires Be32(x) == Be32(y)
    ensures x == y
  {
    FourBytes(x);
    FourBytes(y);
    assert Be32(x)[0] == Be32(y)[0] && Be32(x)[1] == Be32(y)[1] && Be32(x)[2] == Be32(y)[2] && Be32(x)[3] == Be32(y)[3];
  }

  lemma FourBytes(x: u32)
    ensures var b := Be32(x); x == 0x100_0000 * (b[0] as int) + 0x1_0000 * (b[1] as int) + 0x100 * (b[2] as int) + b[3]
  {
    var p: int := x;
    var q := p / 0x100;
    var r := q / 0x100;
    var t := r / 0x100;
    assert p / 0x1_0000 == r && p / 0x100_0000 == t;
    assert p == 0x100 * q + p % 0x100 && q == 0x100 * r + q % 0x100 && r == 0x100 * t + r % 0x100 && t % 0x100 == t;
  }

  lemma Be64Injective(x: int, y: int)
    requires 0 <= x < TWO64 && 0 <= y < TWO64 && Be64(x) == Be64(y)
    ensures x == y
  {
    hide Be32;
    assert Be64(x)[..4] == Be64(y)[..4] && Be64(x)[4..] == Be64(y)[4..];
    Be32Injective(x / TWO32, y / TWO32);
    Be32Injective(x % TWO32, y % TWO32);
  }

  /** What SHA1_Final hashes is the padded message of the standard exactly when no carry was taken too many. */
  lemma PaddingIsTrue(m: seq<u8>, excess: nat)
    ensures Padded(m, Be64(LengthField(|m|, excess))) == Padded(m, Be64(8 * |m| % TWO64)) <==> excess % TWO32 == 0
  {
    hide Be64;
    var x, y := Padded(m, Be64(LengthField(|m|, excess))), Padded(m, Be64(8 * |m| % TWO64));
    var n := |m| + 1 + PadZeros(|m|);
    LengthFieldIsTrue(|m|, excess);
    assert x[n..] == Be64(LengthField(|m|, excess)) && y[n..] == Be64(8 * |m| % TWO64);
    if x == y {
      Be64Injective(LengthField(|m|, excess), 8 * |m| % TWO64);
    }
  }

  class Context {
    const transform: (Words, seq<u8>) -> Words
    var state: Words
    var count0: u32
    var count1: u32
    const buffer: array<u8>
    /** Everything the context has been updated with. */
    ghost var msg: seq<u8>
    /** Carries taken that were not due. */
    ghost var excess: nat

    ghost predicate Valid()
      reads this, buffer
    {
      && buffer.Length == BLOCK
      && Absorbed(transform, INIT, msg, state, buffer[..])
      && BitCount(count0, count1, |msg|, excess)
    }

    /** SHA1_Init. */
    constructor (transform: (Words, seq<u8>) -> Words)
      ensures Valid() && msg == [] && excess == 0 && this.transform == transform && fresh(buffer)
    {
      this.transform := transform;
      state := INIT;
      count0, count1 := 0, 0;
      buffer := new u8[BLOCK](_ => 0);
      msg, excess := [], 0;
    }

    /** SHA1_Update; the length is a size_t, and so is its sum with the offset in the block. */
    method Update(data: seq<u8>)
      requires Valid() && |data| < TWO64 - BLOCK
      modifies this`state, this`count0, this`count1, this`msg, this`excess, buffer
      ensures Valid() && msg == old(msg) + data
      ensures excess == old(excess) + (if Spurious(old(count0), |data|) then 1 else 0)
    {
      hide Absorbed, BitCount, Spurious;
      var len := |data|;
      var j := (count0 / 8) % 64;
      OffsetOf(count0, count1, |msg|, excess);
      AddCount(len);
      ghost var m := msg;
      msg := msg + data;
      var i := 0;
      if j + len > 63 {
        i := 64 - j;
        FilledUp(|m|, i);
        Fill(j, data[..i], m);
        i := WholeBlocks(data, i, m);
        j := 0;
        assert m + data == (m + data[..i]) + data[i..];
        Fill(j, data[i..], m + data[..i]);
      } else {
        assert data[i..] == data;
        Fill(j, data[i..], m);
      }
    }

    method AddCount(len: nat)
      requires len < TWO64 && BitCount(count0, count1, |msg|, excess)
      modifies this`count0, this`count1, this`excess
      ensures BitCount(count0, count1, |msg| + len, excess)
      ensures excess == old(excess) + (if Spurious(old(count0), len) then 1 else 0)
      ensures count0 == Wrap32(old(count0) + Wrap32(8 * len))
    {
      hide BitCount;
      var c0, c1 := count0, count1;
      SpuriousIff(c0, len);
      CountsMore(c0, c1, |msg|, excess, len, if CarryTaken(c0, len) then 1 else 0);
      excess := excess + (if Spurious(c0, len) then 1 else 0);
      count0 := Wrap32(count0 + Wrap32(8 * len));
      if count0 < 8 * len % TWO64 {
        count1 := Wrap32(count1 + 1);
      }
      count1 := Wrap32(count1 + Wrap32(len / 0x2000_0000));
      OneThenMore(c1, Wrap32(len / 0x2000_0000));
    }

    /** Bytes copied into the block at an offset; the block is processed when that fills it. */
    method Fill(j: nat, bytes: seq<u8>, ghost m: seq<u8>)
      requires buffer.Length == BLOCK && Absorbed(transform, INIT, m, state, buffer[..])
      requires j == |m| % BLOCK && j + |bytes| <= BLOCK
      modifies this`state, buffer
      ensures Absorbed(transform, INIT, m + bytes, state, buffer[..])
    {
      hide Absorbed;
      var n := |bytes|;
      ghost var held := buffer[..];
      forall i | 0 <= i < n {
        buffer[j + i] := bytes[i];
      }
      assert buffer[..][..j] == held[..j] && buffer[..][j..j + n] == bytes;
      if j + n < 64 {
        Stored(transform, INIT, m, state, held, bytes, buffer[..]);
      } else {
        assert buffer[..][j..] == bytes;
        Completed(transform, INIT, m, state, held, bytes, buffer[..]);
        state := transform(state, buffer[..]);
      }
    }

    /** The blocks that lie in the data as a whole. */
    method WholeBlocks(data: seq<u8>, i0: nat, ghost m: seq<u8>) returns (i: nat)
      requires i0 <= |data| && |m + data[..i0]| % BLOCK == 0 && buffer.Length == BLOCK
      requires Absorbed(transform, INIT, m + data[..i0], state, buffer[..])
      modifies this`state
      ensures i <= |data| < i + 64 && |m + data[..i]| % BLOCK == 0
      ensures Absorbed(transform, INIT, m + data[..i], state, buffer[..])
    {
      hide Absorbed;
      i := i0;
      while i + 63 < |data|
        invariant i <= |data| && |m + data[..i]| % BLOCK == 0
        invariant Absorbed(transform, INIT, m + data[..i], state, buffer[..])
        decreases |data| - i
      {
        assert m + data[..i + 64] == (m + data[..i]) + data[i..i + 64];
        Direct(transform, INIT, m + data[..i], state, buffer[..], data[i..i + 64]);
        state := transform(state, data[i..i + 64]);
        i := i + 64;
      }
    }

    /** The padding loop of SHA1_Final: single zero bytes until 56 bytes of the block are used. */
    method PadTo56(ghost m: seq<u8>)
      requires Valid() && msg == m + [0x80]
      modifies this`state, this`count0, this`count1, this`msg, this`excess, buffer
      ensures Valid() && msg == m + [0x80] + Zeros(PadZeros(|m|)) && excess == old(excess)
    {
      hide Absorbed, BitCount, Spurious;
      OffsetOf(count0, count1, |msg|, excess);
      ghost var z := 0;
      assert m + [0x80] + Zeros(0) == m + [0x80];
      LeftToPad(|m|, 0);
      while count0 / 8 % 64 != 56
        invariant Valid() && excess == old(excess) && z <= PadZeros(|m|)
        invariant msg == m + [0x80] + Zeros(z) && count0 / 8 % 64 == (|m| + 1 + z) % 64
        decreases PadZeros(|m|) - z
      {
        LeftToPad(|m|, z);
        OneByteCarry(count0);
        Update([0]);
        OffsetOf(count0, count1, |msg|, excess);
        assert Zeros(z) + [0] == Zeros(z + 1);
        assert (m + [0x80] + Zeros(z)) + [0] == m + [0x80] + (Zeros(z) + [0]);
        z := z + 1;
      }
      LeftToPad(|m|, z);
    }

    /** SHA1_Final: the digest of the padded message, whose length field is the counter as it stands. */
    method Final() returns (digest: seq<u8>)
      requires Valid()
      modifies this`state, this`count0, this`count1, this`msg, this`excess, buffer
      ensures digest == DigestOfPadded(transform, Padded(old(msg), Be64(LengthField(|old(msg)|, old(excess)))))
      ensures old(excess) == 0 ==> digest == Digest(transform, old(msg))
    {
      hide Absorbed, Fold, Spurious;
      ghost var m, e := msg, excess;
      var finalcount := Be32(count1) + Be32(count0);
      SavedLength(count0, count1, |m|, e);
      OneByteCarry(count0);
      Update([0x80]);
      PadTo56(m);
      Update(finalcount);
      assert msg == Padded(m, Be64(LengthField(|m|, e)));
      AllAbsorbed(transform, INIT, msg, state, buffer[..]);
      digest := [];
      for i := 0 to 20
        invariant digest == (Be32(state.a) + Be32(state.b) + Be32(state.c) + Be32(state.d) + Be32(state.e))[..i]
      {
        digest := digest + [Byte(Word(state, i / 4), i % 4)];
      }
    }
  }

  function Word(w: Words, i: nat): u32
    requires i < 5
  {
    if i == 0 then w.a else if i == 1 then w.b else if i == 2 then w.c else if i == 3 then w.d else w.e
  }

  lemma OneThenMore(c1: u32, hi: u32)
    ensures Wrap32(Wrap32(c1 + 1) + hi) == Wrap32(c1 + hi + 1) && Wrap32(c1 + hi) == Wrap32(c1 + hi + 0)
  {
  }

  /** The loop stops at the right count, and before it every step is still within it. */
  lemma LeftToPad(n: nat, z: nat)
    requires z <= PadZeros(n)
    ensures (n + 1 + z) % 64 == 56 <==> z == PadZeros(n)
  {
    var p := PadZeros(n);
    assert (n + 1 + p) % 64 == 56;
    assert (n + 1 + p) - (n + 1 + z) == p - z;
  }

  lemma OneByteCarry(c0: u32)
    ensures !Spurious(c0, 1)
  {
    SpuriousIff(c0, 1);
  }

  lemma SavedLength(c0: u32, c1: u32, n: nat, e: nat)
    requires BitCount(c0, c1, n, e)
    ensures Be32(c1) + Be32(c0) == Be64(LengthField(n, e))
  {
    hide Be32;
    HighAndLow(c0, c1, LengthField(n, e));
  }

  /**
   * The digest does not depend on how the message is split into updates of fewer than 2^29 bytes: it is the one
   * of the whole message.
   */
  method DigestOf(transform: (Words, seq<u8>) -> Words, chunks: seq<seq<u8>>) returns (digest: seq<u8>)
    requires forall i :: 0 <= i < |chunks| ==> |chunks[i]| < 0x2000_0000
    ensures digest == Digest(transform, Flatten(chunks))
  {
    hide Flatten, Digest, Spurious;
    var c := new Context(transform);
    FlattenFirst<u8>([]);
    assert chunks[..0] == [];
    for i := 0 to |chunks|
      invariant c.Valid() && fresh(c) && fresh(c.buffer) && c.transform == transform && c.excess == 0
      invariant c.msg == Flatten(chunks[..i])
    {
      assert chunks[..i + 1] == chunks[..i] + [chunks[i]];
      FlattenAppend(chunks[..i], [chunks[i]]);
      FlattenOne(chunks[i]);
      SpuriousIff(c.count0, |chunks[i]|);
      c.Update(chunks[i]);
    }
    assert chunks[..|chunks|] == chunks;
    digest := c.Final();
  }
}
