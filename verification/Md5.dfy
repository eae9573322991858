/** The MD5 message digest as a stream: its block function is left uninterpreted. */
module Md5 {
  import opened Base
  import opened BlockHash

  datatype Words = Words(a: u32, b: u32, c: u32, d: u32)

  const INIT: Words := Words(0x67452301, 0xefcdab89, 0x98badcfe, 0x10325476)

  /** The words of the state, least significant byte first. */
  function Byte(w: int, i: nat): u8
    requires 0 <= w && i < 4
  {
    (if i == 0 then w else if i == 1 then w / 0x100 else if i == 2 then w / 0x1_0000 else w / 0x100_0000) % 0x100
  }

  function Le32(w: u32): (b: seq<u8>)
    ensures |b| == 4
  {
    [Byte(w, 0), Byte(w, 1), Byte(w, 2), Byte(w, 3)]
  }

  /** The bit length of a message modulo 2^64, low word first. */
  function LengthBytes(n: nat): (b: seq<u8>)
    ensures |b| == 8
  {
    Le32(8 * n % TWO64 % TWO32) + Le32(8 * n % TWO64 / TWO32)
  }

  /** The digest of a whole message at once. */
  function Digest(f: (Words, seq<u8>) -> Words, m: seq<u8>): (d: seq<u8>)
    ensures |d| == 16
  {
    var s := Fold(f, INIT, Padded(m, LengthBytes(|m|)));
    Le32(s.a) + Le32(s.b) + Le32(s.c) + Le32(s.d)
  }

  class Md5State {
    const process: (Words, seq<u8>) -> Words
    var count0: u32
    var count1: u32
    var abcd: Words
    const buf: array<u8>
    /** Everything appended so far. */
    ghost var msg: seq<u8>

    ghost predicate Valid()
      reads this, buf
    {
      && buf.Length == BLOCK
      && Absorbed(process, INIT, msg, abcd, buf[..])
      && BitCount(count0, count1, |msg|, 0)
    }

    /** md5_init. */
    constructor (process: (Words, seq<u8>) -> Words)
      ensures Valid() && msg == [] && this.process == process && fresh(buf)
    {
      this.process := process;
      count0, count1 := 0, 0;
      abcd := INIT;
      buf := new u8[BLOCK](_ => 0);
      msg := [];
    }

    /** md5_append; the byte count is an int, and so is its sum with the offset in the block. */
    method Append(data: seq<u8>)
      requires Valid() && |data| <= 0x7fff_ffff - BLOCK
      modifies this`count0, this`count1, this`abcd, this`msg, buf
      ensures Valid() && msg == old(msg) + data
    {
      hide Absorbed, BitCount;
      var nbytes := |data|;
      var offset := (count0 / 8) % 64;
      if nbytes == 0 {
        assert msg + data == msg;
        return;
      }
      OffsetOf(count0, count1, |msg|, 0);
      AddCount(nbytes);
      ghost var m := msg;
      msg := msg + data;
      var p := 0;
      if offset != 0 {
        var copy := if offset + nbytes > 64 then 64 - offset else nbytes;
        FilledUp(|m|, copy);
        p := Fill(offset, data[..copy], m);
        if offset + copy < 64 {
          assert data[..copy] == data;
          return;
        }
      }
      assert data[..0] == [] && m + data[..0] == m;
      p := WholeBlocks(data, p, m);
      assert m + data == (m + data[..p]) + data[p..];
      if nbytes - p > 0 {
        var _ := Fill(0, data[p..], m + data[..p]);
      } else {
        assert m + data[..p] == m + data;
      }
    }

    /** The blocks that lie in the data as a whole. */
    method WholeBlocks(data: seq<u8>, p0: nat, ghost m: seq<u8>) returns (p: nat)
      requires p0 <= |data| && |m + data[..p0]| % BLOCK == 0 && buf.Length == BLOCK
      requires Absorbed(process, INIT, m + data[..p0], abcd, buf[..])
      modifies this`abcd
      ensures p <= |data| < p + 64 && |m + data[..p]| % BLOCK == 0
      ensures Absorbed(process, INIT, m + data[..p], abcd, buf[..])
    {
      hide Absorbed;
      p := p0;
      while |data| - p >= 64
        invariant p <= |data| && |m + data[..p]| % BLOCK == 0
        invariant Absorbed(process, INIT, m + data[..p], abcd, buf[..])
      {
        assert m + data[..p + 64] == (m + data[..p]) + data[p..p + 64];
        Direct(process, INIT, m + data[..p], abcd, buf[..], data[p..p + 64]);
        abcd := process(abcd, data[p..p + 64]);
        p := p + 64;
      }
    }

    /** The length update, with its carry. */
    method AddCount(nbytes: nat)
      requires 0 < nbytes <= 0x7fff_ffff - BLOCK && BitCount(count0, count1, |msg|, 0)
      modifies this`count0, this`count1
      ensures BitCount(count0, count1, |msg| + nbytes, 0)
    {
      hide BitCount;
      CarryTest(count0, Wrap32(8 * nbytes));
      CountsMore(count0, count1, |msg|, 0, nbytes, if Carries(count0, nbytes) then 1 else 0);
      var nbits := Wrap32(8 * nbytes);
      TwoSteps(count1, nbytes / 0x2000_0000);
      count1 := Wrap32(count1 + nbytes / 0x2000_0000);
      count0 := Wrap32(count0 + nbits);
      if count0 < nbits {
        count1 := Wrap32(count1 + 1);
      }
    }

    /** Bytes copied into the block at an offset; the block is processed when that fills it. */
    method Fill(offset: nat, bytes: seq<u8>, ghost m: seq<u8>) returns (n: nat)
      requires buf.Length == BLOCK && Absorbed(process, INIT, m, abcd, buf[..])
      requires offset == |m| % BLOCK && offset + |bytes| <= BLOCK
      modifies this`abcd, buf
      ensures n == |bytes| && Absorbed(process, INIT, m + bytes, abcd, buf[..])
    {
      hide Absorbed;
      n := |bytes|;
      ghost var held := buf[..];
      forall i | 0 <= i < n {
        buf[offset + i] := bytes[i];
      }
      assert buf[..][..offset] == held[..offset] && buf[..][offset..offset + n] == bytes;
      if offset + n < 64 {
        Stored(process, INIT, m, abcd, held, bytes, buf[..]);
      } else {
        assert buf[..][offset..] == bytes;
        Completed(process, INIT, m, abcd, held, bytes, buf[..]);
        abcd := process(abcd, buf[..]);
      }
    }

    /** md5_finish: the digest of everything appended, however it was split. */
    method Finish() returns (digest: seq<u8>)
      requires Valid()
      modifies this`count0, this`count1, this`abcd, this`msg, buf
      ensures digest == Digest(process, old(msg))
    {
      hide Absorbed, Fold;
      ghost var m := msg;
      var data := Le32(count0) + Le32(count1);
      OffsetOf(count0, count1, |m|, 0);
      SavedLength(count0, count1, |m|);
      var pad := [0x80] + Zeros((55 - count0 / 8) % 64);
      PadFits(count0, |m|);
      Append(pad);
      Append(data);
      assert msg == Padded(m, LengthBytes(|m|)) by {
        assert m + ([0x80] + Zeros(PadZeros(|m|))) + data == m + [0x80] + Zeros(PadZeros(|m|)) + data;
      }
      AllAbsorbed(process, INIT, msg, abcd, buf[..]);
      digest := [];
      for i := 0 to 16
        invariant digest == (Le32(abcd.a) + Le32(abcd.b) + Le32(abcd.c) + Le32(abcd.d))[..i]
      {
        digest := digest + [Byte(Word(abcd, i / 4), i % 4)];
      }
    }
  }

  function Word(w: Words, i: nat): u32
    requires i < 4
  {
    if i == 0 then w.a else if i == 1 then w.b else if i == 2 then w.c else w.d
  }

  lemma TwoSteps(c1: u32, hi: int)
    requires 0 <= hi < TWO32
    ensures Wrap32(Wrap32(c1 + hi) + 1) == Wrap32(c1 + Wrap32(hi) + 1) && Wrap32(c1 + hi) == Wrap32(c1 + Wrap32(hi) + 0)
  {
  }

  lemma SavedLength(c0: u32, c1: u32, n: nat)
    requires BitCount(c0, c1, n, 0)
    ensures Le32(c0) + Le32(c1) == LengthBytes(n)
  {
    hide Le32;
    HighAndLow(c0, c1, 8 * n % TWO64);
  }

  lemma PadFits(c0: u32, n: nat)
    requires c0 / 8 % 64 == n % 64
    ensures (55 - c0 / 8) % 64 == PadZeros(n)
  {
    var a: int := c0 / 8;
    assert a == 64 * (a / 64) + a % 64 && n == 64 * (n / 64) + n % 64;
    SameRest(55 - a, 55 - n, a / 64 - n / 64);
  }

  /** The digest does not depend on how the message is split into appends. */
  method DigestOf(process: (Words, seq<u8>) -> Words, chunks: seq<seq<u8>>) returns (digest: seq<u8>)
    requires forall i :: 0 <= i < |chunks| ==> |chunks[i]| <= 0x7fff_ffff - BLOCK
    ensures digest == Digest(process, Flatten(chunks))
  {
    hide Flatten, Digest;
    var s := new Md5State(process);
    FlattenFirst<u8>([]);
    assert chunks[..0] == [];
    for i := 0 to |chunks|
      invariant s.Valid() && fresh(s) && fresh(s.buf) && s.process == process && s.msg == Flatten(chunks[..i])
    {
      assert chunks[..i + 1] == chunks[..i] + [chunks[i]];
      FlattenAppend(chunks[..i], [chunks[i]]);
      FlattenOne(chunks[i]);
      s.Append(chunks[i]);
    }
    assert chunks[..|chunks|] == chunks;
    digest := s.Finish();
  }
}
