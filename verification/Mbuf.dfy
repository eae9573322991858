/** Memory buffers: a growing byte buffer with a position and an end mark. */
module MemoryBuffer {
  import opened Base

  const DEFAULT_SIZE: nat := 512

  /** `after` extends `before` and differs from it at most on the interval [lo, hi). */
  ghost predicate KeptOutside(before: seq<u8>, after: seq<u8>, lo: int, hi: int) {
    && |before| <= |after|
    && forall i :: 0 <= i < |before| && !(lo <= i < hi) ==> after[i] == before[i]
  }

  /**
   * The effect of writing `data` at position `p0`: nothing else changes, the end mark moves to the
   * new position when it was behind it. (A write of zero bytes may or may not move the end mark.)
   */
  ghost predicate Wrote(b0: seq<u8>, p0: nat, e0: nat, b1: seq<u8>, p1: nat, e1: nat, data: seq<u8>) {
    && p1 == p0 + |data|
    && KeptOutside(b0, b1, p0, p1)
    && e0 <= e1 <= Max(e0, p1)
    && (data != [] ==> e1 == Max(e0, p1) && p1 <= |b1| && b1[p0..p1] == data)
  }

  /** At the end of the contents, writing appends. */
  lemma WroteAtEnd(b0: seq<u8>, p0: nat, b1: seq<u8>, p1: nat, e1: nat, data: seq<u8>)
    requires p0 <= |b0| && data != [] && Wrote(b0, p0, p0, b1, p1, e1, data)
    ensures e1 == p1 <= |b1| && b1[..p1] == b0[..p0] + data
  {
    assert b1[..p0] == b0[..p0];
    assert b1[..p1] == b1[..p0] + b1[p0..p1];
  }

  lemma WroteNothing(b: seq<u8>, p: nat, e: nat)
    ensures Wrote(b, p, e, b, p, e, [])
  {
  }

  lemma WroteLength(b0: seq<u8>, p0: nat, e0: nat, b1: seq<u8>, p1: nat, e1: nat, data: seq<u8>)
    requires Wrote(b0, p0, e0, b1, p1, e1, data)
    ensures p1 == p0 + |data|
  {
  }

  lemma WroteBoth(b0: seq<u8>, p0: nat, e0: nat, b1: seq<u8>, p1: nat, e1: nat, b2: seq<u8>, p2: nat, e2: nat,
                  x: seq<u8>, y: seq<u8>)
    requires Wrote(b0, p0, e0, b1, p1, e1, x) && Wrote(b1, p1, e1, b2, p2, e2, y)
    ensures Wrote(b0, p0, e0, b2, p2, e2, x + y)
  {
    if x != [] && y != [] {
      assert forall k :: 0 <= k < |x| ==> b2[p0 + k] == b1[p0 + k] == b1[p0..p1][k];
      assert forall k :: 0 <= k < |y| ==> b2[p1 + k] == b2[p1..p2][k];
      assert b2[p0..p2] == x + y;
    } else if x != [] {
      assert x + y == x;
    } else {
      assert x + y == y;
    }
  }

  /** A header skipped first and written after the bytes behind it. */
  lemma HeaderLast(b0: seq<u8>, p0: nat, e0: nat, b1: seq<u8>, p1: nat, e1: nat, b2: seq<u8>, p2: nat, e2: nat,
                   h: seq<u8>, x: seq<u8>)
    requires h != []
    requires Wrote(b0, p0 + |h|, e0, b1, p1, e1, x) && Wrote(b1, p0, e1, b2, p2, e2, h)
    ensures Wrote(b0, p0, e0, b2, p2 + |x|, e2, h + x)
  {
    assert forall k :: 0 <= k < |h| ==> b2[p0 + k] == b2[p0..p2][k];
    if x != [] {
      assert forall k :: 0 <= k < |x| ==> b2[p2 + k] == b1[p2 + k] == b1[p2..p1][k];
    }
    assert b2[p0..p2 + |x|] == h + x;
  }

  /** One byte of something already written is overwritten in place. */
  lemma Patched(b0: seq<u8>, p0: nat, e0: nat, b1: seq<u8>, p1: nat, e1: nat, b2: seq<u8>, p2: nat, e2: nat,
                x: seq<u8>, k: nat, v: u8)
    requires k < |x|
    requires Wrote(b0, p0, e0, b1, p1, e1, x) && Wrote(b1, p0 + k, e1, b2, p2, e2, [v])
    ensures Wrote(b0, p0, e0, b2, p1, e2, x[k := v])
  {
    assert b2[p0 + k] == b2[p0 + k..p2][0];
    assert forall i :: 0 <= i < |x| && i != k ==> b2[p0 + i] == b1[p0 + i] == b1[p0..p1][i];
    assert b2[p0..p1] == x[k := v];
  }

  class Mbuf {
    /** The allocated bytes; the allocated size is |buf|. */
    var buf: seq<u8>
    var pos: nat
    var end: nat

    ghost predicate Valid()
      reads this
    {
      end <= |buf|
    }

    constructor ()
      ensures Valid() && buf == [] && pos == 0 && end == 0
    {
      buf, pos, end := [], 0, 0;
    }

    constructor FromBytes(bytes: seq<u8>)
      ensures Valid() && buf == bytes && pos == 0 && end == |bytes|
    {
      buf, pos, end := bytes, 0, |bytes|;
    }

    /** Bytes between the position and the end; zero when the position is past the end. */
    function Left(): (n: nat)
      reads this
      ensures n > 0 <==> pos < end
      ensures n > 0 ==> pos + n == end
    {
      if end > pos then end - pos else 0
    }

    /** Reallocation keeps the common prefix; fresh bytes hold whatever the allocator left. */
    method Resize(size: nat)
      modifies this`buf
      ensures |buf| == size
      ensures forall i :: 0 <= i < size && i < |old(buf)| ==> buf[i] == old(buf)[i]
    {
      if size <= |buf| {
        buf := buf[..size];
      } else {
        var garbage: seq<u8> :| |garbage| == size - |buf| by {
          ghost var zeros: seq<u8> := seq(size - |buf|, _ => 0);
          assert |zeros| == size - |buf|;
        }
        buf := buf + garbage;
      }
    }

    /** Writes `data` at the position: everything else that was allocated is untouched. */
    method WriteMem(data: seq<u8>)
      requires Valid()
      modifies this
      ensures Valid()
      ensures Wrote(old(buf), old(pos), old(end), buf, pos, end, data)
    {
      var rsize := pos + |data|;
      if rsize > |buf| {
        var dsize := if |buf| > 0 then 2 * |buf| else DEFAULT_SIZE;
        Resize(Max(rsize, dsize));
      }
      buf := buf[..pos] + data + buf[rsize..];
      pos := rsize;
      end := Max(end, pos);
    }

    method WriteU8(v: u8)
      requires Valid()
      modifies this
      ensures Valid()
      ensures Wrote(old(buf), old(pos), old(end), buf, pos, end, [v])
    {
      WriteMem([v]);
    }

    /** Reads `n` bytes, or fails and reads nothing when fewer are left. */
    method ReadMem(n: nat) returns (ok: bool, data: seq<u8>)
      requires Valid()
      modifies this`pos
      ensures ok <==> n <= old(Left())
      ensures ok && n > 0 ==> pos == old(pos) + n <= end && data == buf[old(pos)..pos]
      ensures ok && n == 0 ==> pos == old(pos) && data == []
      ensures !ok ==> pos == old(pos) && data == []
    {
      if n > Left() {
        return false, [];
      }
      ok := true;
      data := if n == 0 then [] else buf[pos..pos + n];
      pos := pos + n;
    }

    /** An 8-bit read past the end yields zero and does not move. */
    method ReadU8() returns (v: u8)
      requires Valid()
      modifies this`pos
      ensures old(Left()) > 0 ==> pos == old(pos) + 1 && v == buf[old(pos)]
      ensures old(Left()) == 0 ==> pos == old(pos) && v == 0
    {
      var ok, data := ReadMem(1);
      v := if ok then data[0] else 0;
    }

    method ReadU16() returns (v: u16)
      requires Valid()
      modifies this`pos
      ensures old(Left()) >= 2 ==> pos == old(pos) + 2 && v == U16OfBytes(buf[old(pos)..old(pos) + 2])
      ensures old(Left()) < 2 ==> pos == old(pos) && v == 0
    {
      var ok, data := ReadMem(2);
      v := if ok then U16OfBytes(data) else 0;
    }

    method ReadU32() returns (v: u32)
      requires Valid()
      modifies this`pos
      ensures old(Left()) >= 4 ==> pos == old(pos) + 4 && v == U32OfBytes(buf[old(pos)..old(pos) + 4])
      ensures old(Left()) < 4 ==> pos == old(pos) && v == 0
    {
      var ok, data := ReadMem(4);
      v := if ok then U32OfBytes(data) else 0;
    }
  }
}
