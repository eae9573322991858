/** DNS over TCP: cutting the byte stream of a connection into length-prefixed replies. */
module DnsTcp {
  import opened Base
  import opened MemoryBuffer

  // ---------------------------------------------------------------- frames

  /** Section 4.2.2 of RFC 1035: each message is preceded by its length in two bytes. */
  function Frames(s: seq<u8>): seq<seq<u8>> {
    if |s| < 2 then []
    else
      var n := U16OfBytes(s[..2]);
      if |s| < 2 + n then [] else [s[2..2 + n]] + Frames(s[2 + n..])
  }

  /** The bytes of the last frame, which is not complete yet. */
  function Leftover(s: seq<u8>): (r: seq<u8>)
    ensures |r| <= |s|
  {
    if |s| < 2 then s
    else
      var n := U16OfBytes(s[..2]);
      if |s| < 2 + n then s else Leftover(s[2 + n..])
  }

  lemma {:induction false} FramesAppend(a: seq<u8>, b: seq<u8>)
    ensures Frames(a + b) == Frames(a) + Frames(Leftover(a) + b)
    ensures Leftover(a + b) == Leftover(Leftover(a) + b)
    decreases |a|
  {
    hide Frames, Leftover, U16OfBytes;
    if |a| >= 2 && |a| >= 2 + U16OfBytes(a[..2]) {
      var n := U16OfBytes(a[..2]);
      var rest := a[2 + n..];
      FrameFirst(a, n);
      assert (a + b)[..2] == a[..2] && (a + b)[2..2 + n] == a[2..2 + n] && (a + b)[2 + n..] == rest + b;
      FrameFirst(a + b, n);
      FramesAppend(rest, b);
      Regroup([a[2..2 + n]], Frames(rest), Frames(Leftover(rest) + b));
    } else {
      NoFrame(a);
    }
  }

  /** More bytes only add frames. */
  lemma FramesGrow(a: seq<u8>, b: seq<u8>)
    ensures Frames(a) <= Frames(a + b)
  {
    FramesAppend(a, b);
  }

  /** A stream that begins with a whole frame. */
  lemma {:induction false} FrameFirst(s: seq<u8>, n: u16)
    requires |s| >= 2 + n && U16OfBytes(s[..2]) == n
    ensures Frames(s) == [s[2..2 + n]] + Frames(s[2 + n..]) && Leftover(s) == Leftover(s[2 + n..])
  {
    hide U16OfBytes;
  }

  /** A stream that does not. */
  lemma {:induction false} NoFrame(s: seq<u8>)
    requires |s| < 2 || |s| < 2 + U16OfBytes(s[..2])
    ensures Frames(s) == [] && Leftover(s) == s
  {
    hide U16OfBytes;
  }

  lemma FramedCons(f: seq<u8>, fs: seq<seq<u8>>)
    requires |f| < TWO16
    ensures Framed([f] + fs) == [BytesOfU16(|f|) + f] + Framed(fs)
    ensures Flatten(Framed([f] + fs)) == BytesOfU16(|f|) + f + Flatten(Framed(fs))
  {
    hide BytesOfU16, Flatten;
    FlattenFirst(Framed([f] + fs));
    assert Framed([f] + fs) == [BytesOfU16(|f|) + f] + Framed(fs);
  }

  /** The frames of a stream put together are its beginning. */
  lemma {:induction false} FramesCover(s: seq<u8>)
    ensures s == Flatten(Framed(Frames(s))) + Leftover(s)
    decreases |s|
  {
    hide Frames, Leftover, Framed, Flatten, BytesOfU16, U16OfBytes;
    if |s| >= 2 && |s| >= 2 + U16OfBytes(s[..2]) {
      var n := U16OfBytes(s[..2]);
      var f, rest := s[2..2 + n], s[2 + n..];
      FrameFirst(s, n);
      FramesCover(rest);
      U16Back(s[..2]);
      FramedCons(f, Frames(rest));
      assert s == s[..2] + f + rest;
      Regroup(s[..2] + f, Flatten(Framed(Frames(rest))), Leftover(rest));
    } else {
      NoFrame(s);
      FlattenFirst(Framed([]));
      assert [] + s == s;
    }
  }

  lemma U16Back(b: seq<u8>)
    requires |b| == 2
    ensures BytesOfU16(U16OfBytes(b)) == b
  {
  }

  /** Frames with their length prefixes. */
  function Framed(fs: seq<seq<u8>>): (r: seq<seq<u8>>)
    ensures |r| == |fs|
  {
    seq(|fs|, i requires 0 <= i < |fs| => BytesOfU16(|fs[i]| % TWO16) + fs[i])
  }

  // ---------------------------------------------------------------- the connection

  /** What is pending between two receive buffers: part of a length, or a length and part of a frame. */
  function Pending(flen: u16, held: seq<u8>): seq<u8> {
    if flen == 0 then held else BytesOfU16(flen) + held
  }

  predicate PendingOk(flen: u16, held: seq<u8>) {
    if flen == 0 then |held| < 2 else |held| < flen
  }

  lemma PendingIsIncomplete(flen: u16, held: seq<u8>)
    requires PendingOk(flen, held)
    ensures Frames(Pending(flen, held)) == [] && Leftover(Pending(flen, held)) == Pending(flen, held)
  {
    U16RoundTrip(flen);
    var p := Pending(flen, held);
    assert flen != 0 ==> p[..2] == BytesOfU16(flen);
  }

  lemma {:induction false} OneFrame(body: seq<u8>)
    requires |body| < TWO16
    ensures Frames(BytesOfU16(|body|) + body) == [body] && Leftover(BytesOfU16(|body|) + body) == []
  {
    hide Frames, Leftover, BytesOfU16, U16OfBytes;
    var s := BytesOfU16(|body|) + body;
    U16RoundTrip(|body|);
    assert |BytesOfU16(|body|)| == 2 && s[..2] == BytesOfU16(|body|);
    assert s[2..2 + |body|] == body && s[2 + |body|..] == [];
    FrameFirst(s, |body|);
    NoFrame([]);
  }

  // ---------------------------------------------------------------- answers of reply_recv

  /** Whether reply_recv rejects the last of the payloads it has been handed, given all of them. */
  type Rejects = seq<seq<u8>> -> bool

  /** How many payloads there are up to the first one rejected, when `k` are accepted. */
  function FirstRejected(fs: seq<seq<u8>>, rejects: Rejects, k: nat): (r: Option<nat>)
    requires k <= |fs|
    ensures r.Some? ==> k < r.value <= |fs| && rejects(fs[..r.value])
    ensures forall n :: k < n <= |fs| && (r.Some? ==> n < r.value) ==> !rejects(fs[..n])
    decreases |fs| - k
  {
    if k == |fs| then None else if rejects(fs[..k + 1]) then Some(k + 1) else FirstRejected(fs, rejects, k + 1)
  }

  /** The payloads up to the first one rejected, that one included. */
  function UpToRejected(fs: seq<seq<u8>>, rejects: Rejects): seq<seq<u8>> {
    match FirstRejected(fs, rejects, 0)
    case None => fs
    case Some(n) => fs[..n]
  }

  predicate SomeRejected(fs: seq<seq<u8>>, rejects: Rejects) { FirstRejected(fs, rejects, 0).Some? }

  /** What has been handed over is accepted but for the last, which is rejected exactly when the connection is closed. */
  ghost predicate Answered(delivered: seq<seq<u8>>, closed: bool, rejects: Rejects) {
    && (forall k :: 0 < k < |delivered| ==> !rejects(delivered[..k]))
    && (if delivered == [] then !closed else closed == rejects(delivered))
  }

  lemma AnsweredNext(delivered: seq<seq<u8>>, f: seq<u8>, rejects: Rejects)
    requires Answered(delivered, false, rejects)
    ensures Answered(delivered + [f], rejects(delivered + [f]), rejects)
  {
    var d := delivered + [f];
    forall k | 0 < k < |d| ensures !rejects(d[..k]) {
      assert d[..k] == delivered[..k] && delivered[..|delivered|] == delivered;
    }
  }

  /** So it is settled by the frames of the stream, whatever of it has arrived. */
  lemma AnsweredIs(delivered: seq<seq<u8>>, closed: bool, rejects: Rejects, fs: seq<seq<u8>>)
    requires Answered(delivered, closed, rejects) && delivered <= fs && (!closed ==> delivered == fs)
    ensures delivered == UpToRejected(fs, rejects) && (closed <==> SomeRejected(fs, rejects))
  {
    var n, first := |delivered|, FirstRejected(fs, rejects, 0);
    forall k | 0 < k <= n ensures delivered[..k] == fs[..k] { }
    assert delivered[..n] == delivered;
    if closed {
      assert rejects(fs[..n]);
    }
  }

  class TcpConn {
    var flen: u16
    const mb: Mbuf
    /** tcpconn_close has been called; nothing is received any more. */
    var closed: bool
    /** The answers of reply_recv, which may depend on all it has been handed. */
    const rejects: Rejects
    /** The bytes received and the payloads handed to reply_recv. */
    ghost var stream: seq<u8>
    var delivered: seq<seq<u8>>

    ghost predicate Valid()
      reads this, mb
    {
      && mb.Valid()
      && Answered(delivered, closed, rejects) && delivered <= Frames(stream)
      && (!closed ==>
            && mb.pos == mb.end && PendingOk(flen, mb.buf[..mb.end])
            && delivered == Frames(stream) && Leftover(stream) == Pending(flen, mb.buf[..mb.end]))
    }

    constructor (rejects: Rejects)
      ensures Valid() && !closed && stream == [] && delivered == [] && fresh(mb) && this.rejects == rejects
    {
      this.rejects := rejects;
      mb := new Mbuf();
      flen, closed := 0, false;
      stream, delivered := [], [];
    }

    /** Moves up to `want` bytes from the receive buffer to the connection's own. */
    method Take(want: nat, mbrx: Mbuf) returns (ghost x: seq<u8>)
      requires mb.Valid() && mbrx.Valid() && mb != mbrx && mb.pos == mb.end && mbrx.pos <= mbrx.end
      modifies mb, mbrx`pos
      ensures mb.Valid() && mbrx.Valid() && mb.pos == mb.end && mbrx.pos <= mbrx.end
      ensures |x| == Min(want, old(mbrx.end - mbrx.pos))
      ensures mbrx.pos == old(mbrx.pos) + |x| && x == mbrx.buf[old(mbrx.pos)..mbrx.pos]
      ensures mb.buf[..mb.end] == old(mb.buf[..mb.end]) + x
    {
      var n := Min(want, mbrx.Left());
      var data := mbrx.buf[mbrx.pos..mbrx.pos + n];
      x := data;
      ghost var b0, p0 := mb.buf, mb.pos;
      mb.WriteMem(data);
      mbrx.pos := mbrx.pos + n;
      if n > 0 {
        WroteAtEnd(b0, p0, mb.buf, mb.pos, mb.end, data);
      } else {
        assert mb.buf[..mb.end] == b0[..p0];
      }
    }

    /** The frame length, unless it is known already; not ready while it is incomplete. */
    method Header(mbrx: Mbuf) returns (ready: bool, ghost x: seq<u8>)
      requires mb.Valid() && mbrx.Valid() && mb != mbrx && mb.pos == mb.end && mbrx.pos <= mbrx.end
      requires PendingOk(flen, mb.buf[..mb.end])
      modifies this`flen, mb, mbrx`pos
      ensures mb.Valid() && mbrx.Valid() && mb.pos == mb.end && mbrx.pos <= mbrx.end
      ensures mbrx.pos == old(mbrx.pos) + |x| && x == mbrx.buf[old(mbrx.pos)..mbrx.pos]
      ensures old(flen) == 0 && old(mbrx.pos) < mbrx.end ==> x != []
      ensures !ready ==> flen == 0 && PendingOk(flen, mb.buf[..mb.end]) && mbrx.pos == mbrx.end
      ensures !ready ==> mb.buf[..mb.end] == old(Pending(flen, mb.buf[..mb.end])) + x
      ensures ready ==> mb.end <= flen && (mb.end < flen || flen == 0)
      ensures ready ==> BytesOfU16(flen) + mb.buf[..mb.end] == old(Pending(flen, mb.buf[..mb.end])) + x
      ensures old(flen) != 0 ==> ready && x == [] && flen == old(flen) && mb.end == old(mb.end)
    {
      hide BytesOfU16, U16OfBytes;
      if flen != 0 {
        x := [];
        return true, x;
      }
      ghost var held := mb.buf[..mb.end];
      x := Take(2 - mb.end, mbrx);
      if mb.end < 2 {
        return false, x;
      }
      mb.pos := 0;
      flen := mb.ReadU16();
      U16Back(mb.buf[0..2]);
      assert mb.buf[0..2] == held + x;
      mb.pos, mb.end := 0, 0;
      assert BytesOfU16(flen) + mb.buf[..0] == BytesOfU16(flen);
      ready := true;
    }

    /** One frame's worth of the receive buffer. */
    method Gather(mbrx: Mbuf) returns (full: bool, ghost z: seq<u8>)
      requires mb.Valid() && mbrx.Valid() && mb != mbrx && mb.pos == mb.end && mbrx.pos <= mbrx.end
      requires PendingOk(flen, mb.buf[..mb.end])
      modifies this`flen, mb, mbrx`pos
      ensures mb.Valid() && mbrx.Valid() && mb.pos == mb.end && mbrx.pos <= mbrx.end
      ensures mbrx.pos == old(mbrx.pos) + |z| && z == mbrx.buf[old(mbrx.pos)..mbrx.pos]
      ensures old(mbrx.pos) < mbrx.end ==> z != []
      ensures !full ==> mbrx.pos == mbrx.end && PendingOk(flen, mb.buf[..mb.end])
      ensures !full ==> old(Pending(flen, mb.buf[..mb.end])) + z == Pending(flen, mb.buf[..mb.end])
      ensures full ==> mb.end == flen
      ensures full ==> old(Pending(flen, mb.buf[..mb.end])) + z == BytesOfU16(flen) + mb.buf[..mb.end]
    {
      hide BytesOfU16, U16OfBytes;
      ghost var p0, pend := mbrx.pos, Pending(flen, mb.buf[..mb.end]);
      var ready, x := Header(mbrx);
      if !ready {
        return false, x;
      }
      ghost var held := mb.buf[..mb.end];
      var y := Take(flen - mb.end, mbrx);
      z := x + y;
      Regroup(pend, x, y);
      Regroup(BytesOfU16(flen), held, y);
      full := mb.end >= flen;
    }

    /** One round of the loop: a frame that is complete goes to reply_recv, which may reject it. */
    method Step(mbrx: Mbuf) returns (more: bool)
      requires Valid() && !closed && mbrx.Valid() && mb != mbrx && mbrx.pos <= mbrx.end
      modifies this`flen, this`closed, this`stream, this`delivered, mb, mbrx`pos
      ensures Valid() && mbrx.Valid() && old(mbrx.pos) <= mbrx.pos <= mbrx.end
      ensures stream == old(stream) + mbrx.buf[old(mbrx.pos)..mbrx.pos]
      ensures more ==> !closed && old(mbrx.pos) < mbrx.pos < mbrx.end
      ensures !more && !closed ==> mbrx.pos == mbrx.end
      ensures delivered == old(delivered) ||
        (|delivered| == |old(delivered)| + 1 && delivered == Frames(stream)[..|delivered|] && old(delivered) <= delivered)
      ensures closed <==> delivered != old(delivered) && rejects(delivered)
    {
      hide Frames, Leftover, BytesOfU16, Pending, PendingOk, Answered;
      ghost var s0, pend := stream, Pending(flen, mb.buf[..mb.end]);
      var full, z := Gather(mbrx);
      stream := stream + z;
      if !full {
        Unfinished(s0, pend, z, flen, mb.buf[..mb.end]);
        return false;
      }
      mb.pos := 0;
      ghost var body := mb.buf[..mb.end];
      Finished(s0, pend, z, body);
      AnsweredNext(delivered, body, rejects);
      delivered := delivered + [mb.buf[..mb.end]];
      if rejects(delivered) {
        closed := true;
        return false;
      }
      flen, mb.pos, mb.end := 0, 0, 0;
      NothingPending(mb.buf[..0]);
      more := mbrx.Left() > 0;
    }

    /** tcp_recv_handler, for one receive buffer of an open connection. */
    method Receive(mbrx: Mbuf)
      requires Valid() && !closed && mbrx.Valid() && mb != mbrx && mbrx.pos <= mbrx.end
      modifies this`flen, this`closed, this`stream, this`delivered, mb, mbrx`pos
      ensures Valid()
      ensures !closed ==> stream == old(stream) + mbrx.buf[old(mbrx.pos)..mbrx.end]
      ensures var fs := Frames(old(stream) + mbrx.buf[old(mbrx.pos)..mbrx.end]);
              delivered == UpToRejected(fs, rejects) && (closed <==> SomeRejected(fs, rejects))
    {
      hide Frames, Leftover, BytesOfU16, Pending, PendingOk, Answered, UpToRejected, SomeRejected;
      ghost var p0 := mbrx.pos;
      var more := true;
      while more
        invariant Valid() && mbrx.Valid() && p0 <= mbrx.pos <= mbrx.end
        invariant stream == old(stream) + mbrx.buf[p0..mbrx.pos]
        invariant more ==> !closed
        invariant !more && !closed ==> mbrx.pos == mbrx.end
        decreases more, mbrx.end - mbrx.pos
      {
        ghost var p1 := mbrx.pos;
        more := Step(mbrx);
        assert mbrx.buf[p0..mbrx.pos] == mbrx.buf[p0..p1] + mbrx.buf[p1..mbrx.pos];
        Regroup(old(stream), mbrx.buf[p0..p1], mbrx.buf[p1..mbrx.pos]);
      }
      ghost var rest := mbrx.buf[mbrx.pos..mbrx.end];
      assert mbrx.buf[p0..mbrx.end] == mbrx.buf[p0..mbrx.pos] + rest;
      Regroup(old(stream), mbrx.buf[p0..mbrx.pos], rest);
      FramesGrow(stream, rest);
      ghost var whole := old(stream) + mbrx.buf[p0..mbrx.end];
      assert mbrx.pos == mbrx.end ==> stream + rest == stream;
      AnsweredIs(delivered, closed, rejects, Frames(whole));
    }
  }

  /**
   * However the stream is divided into receive buffers, and whatever reply_recv answers: what has been handed over
   * are the frames of the whole stream up to the first one rejected, and the connection is closed exactly when there
   * is such a one.
   */
  method ReceiveAll(chunks: seq<seq<u8>>, rejects: Rejects) returns (tc: TcpConn)
    ensures tc.Valid()
    ensures tc.delivered == UpToRejected(Frames(Flatten(chunks)), rejects)
    ensures tc.closed <==> SomeRejected(Frames(Flatten(chunks)), rejects)
  {
    hide Frames, Leftover, Flatten, Pending, PendingOk, Answered, UpToRejected, SomeRejected;
    tc := new TcpConn(rejects);
    FlattenFirst<u8>([]);
    var i := 0;
    while i < |chunks| && !tc.closed
      invariant i <= |chunks| && tc.Valid() && fresh(tc) && fresh(tc.mb) && tc.rejects == rejects
      invariant !tc.closed ==> tc.stream == Flatten(chunks[..i])
      invariant tc.closed ==> tc.delivered <= Frames(Flatten(chunks[..i]))
    {
      var mbrx := new Mbuf.FromBytes(chunks[i]);
      assert chunks[..i + 1] == chunks[..i] + [chunks[i]];
      FlattenAppend(chunks[..i], [chunks[i]]);
      FlattenOne(chunks[i]);
      assert mbrx.buf[0..mbrx.end] == chunks[i];
      tc.Receive(mbrx);
      UpToIsPrefix(Frames(Flatten(chunks[..i + 1])), rejects);
      i := i + 1;
    }
    assert chunks == chunks[..i] + chunks[i..];
    FlattenAppend(chunks[..i], chunks[i..]);
    FramesGrow(Flatten(chunks[..i]), Flatten(chunks[i..]));
    assert i == |chunks| ==> chunks[..i] == chunks;
    AnsweredIs(tc.delivered, tc.closed, rejects, Frames(Flatten(chunks)));
  }

  lemma UpToIsPrefix(fs: seq<seq<u8>>, rejects: Rejects)
    ensures UpToRejected(fs, rejects) <= fs
  {
  }

  lemma NothingPending(held: seq<u8>)
    requires held == []
    ensures PendingOk(0, held) && Pending(0, held) == []
  {
  }

  /** Bytes that complete no frame. */
  lemma Unfinished(s: seq<u8>, pend: seq<u8>, x: seq<u8>, flen: u16, held: seq<u8>)
    requires Leftover(s) == pend && PendingOk(flen, held) && pend + x == Pending(flen, held)
    ensures Frames(s + x) == Frames(s) && Leftover(s + x) == Pending(flen, held)
  {
    FramesAppend(s, x);
    PendingIsIncomplete(flen, held);
    assert Frames(s) + [] == Frames(s);
  }

  /** Bytes that complete exactly one. */
  lemma Finished(s: seq<u8>, pend: seq<u8>, x: seq<u8>, body: seq<u8>)
    requires Leftover(s) == pend && |body| < TWO16 && pend + x == BytesOfU16(|body|) + body
    ensures Frames(s + x) == Frames(s) + [body] && Leftover(s + x) == []
  {
    FramesAppend(s, x);
    OneFrame(body);
  }
}
