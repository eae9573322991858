/** The RTCP encoder and decoder as they run on a memory buffer. */
module RtcpCodec {
  import opened Base
  import opened MemoryBuffer
  import opened RtcpWire

  method WriteWords(mb: Mbuf, ws: seq<u32>)
    requires mb.Valid()
    modifies mb
    ensures mb.Valid()
    ensures Wrote(old(mb.buf), old(mb.pos), old(mb.end), mb.buf, mb.pos, mb.end, Words32(ws))
  {
    hide Wrote, Words32, BytesOfU32;
    NoWords();
    WroteNothing(mb.buf, mb.pos, mb.end);
    for i := 0 to |ws|
      invariant mb.Valid()
      invariant Wrote(old(mb.buf), old(mb.pos), old(mb.end), mb.buf, mb.pos, mb.end, Words32(ws[..i]))
    {
      ghost var b1, p1, e1 := mb.buf, mb.pos, mb.end;
      mb.WriteMem(BytesOfU32(ws[i]));
      assert ws[..i + 1][..i] == ws[..i];
      WordsNext(ws[..i + 1]);
      WroteBoth(old(mb.buf), old(mb.pos), old(mb.end), b1, p1, e1, mb.buf, mb.pos, mb.end, Words32(ws[..i]),
                BytesOfU32(ws[i]));
    }
    assert ws[..|ws|] == ws;
  }

  lemma NoWords()
    ensures Words32([]) == [] && EncRrs([]) == []
  {
  }

  /** rtcp_rr_encode. */
  method EncodeRr(mb: Mbuf, rr: Rr)
    requires mb.Valid()
    modifies mb
    ensures mb.Valid()
    ensures Wrote(old(mb.buf), old(mb.pos), old(mb.end), mb.buf, mb.pos, mb.end, EncRr(rr))
  {
    WriteWords(mb, [rr.ssrc, LossWord(rr), rr.lastSeq, rr.jitter, rr.lsr, rr.dlsr]);
  }

  method EncodeRrs(mb: Mbuf, rrv: seq<Rr>)
    requires mb.Valid()
    modifies mb
    ensures mb.Valid()
    ensures Wrote(old(mb.buf), old(mb.pos), old(mb.end), mb.buf, mb.pos, mb.end, EncRrs(rrv))
  {
    hide Wrote, EncRr;
    NoWords();
    WroteNothing(mb.buf, mb.pos, mb.end);
    for i := 0 to |rrv|
      invariant mb.Valid()
      invariant Wrote(old(mb.buf), old(mb.pos), old(mb.end), mb.buf, mb.pos, mb.end, EncRrs(rrv[..i]))
    {
      ghost var b1, p1, e1 := mb.buf, mb.pos, mb.end;
      EncodeRr(mb, rrv[i]);
      assert rrv[..i + 1][..i] == rrv[..i];
      WroteBoth(old(mb.buf), old(mb.pos), old(mb.end), b1, p1, e1, mb.buf, mb.pos, mb.end, EncRrs(rrv[..i]),
                EncRr(rrv[i]));
    }
    assert rrv[..|rrv|] == rrv;
  }

  /**
   * The start of rtcp_vencode: room for the header, and whatever stood behind it is cut off. The end mark is
   * moved up to the new position by the first write.
   */
  method SkipHeader(mb: Mbuf)
    requires mb.Valid()
    modifies mb`pos, mb`end
    ensures mb.Valid() && mb.pos == old(mb.pos) + RTCP_HDR_SIZE && mb.end == Min(old(mb.end), mb.pos)
  {
    mb.pos := mb.pos + RTCP_HDR_SIZE;
    mb.end := Min(mb.end, mb.pos);
  }

  /** Zeros up to a 32-bit boundary. */
  method Pad(mb: Mbuf, start: nat)
    requires mb.Valid() && start <= mb.pos
    modifies mb
    ensures mb.Valid()
    ensures Wrote(old(mb.buf), old(mb.pos), old(mb.end), mb.buf, mb.pos, mb.end, Zeros(PadLen(old(mb.pos) - start)))
  {
    hide Wrote, PadLen;
    ghost var n := 0;
    WroteNothing(mb.buf, mb.pos, mb.end);
    assert Zeros(0) == [];
    while (mb.pos - start) % 4 != 0
      invariant mb.Valid() && mb.pos == old(mb.pos) + n
      invariant n + PadLen(mb.pos - start) == PadLen(old(mb.pos) - start)
      invariant Wrote(old(mb.buf), old(mb.pos), old(mb.end), mb.buf, mb.pos, mb.end, Zeros(n))
      decreases PadLen(mb.pos - start)
    {
      ghost var b1, p1, e1 := mb.buf, mb.pos, mb.end;
      PadStep(mb.pos - start);
      mb.WriteU8(0);
      WroteLength(b1, p1, e1, mb.buf, mb.pos, mb.end, [0]);
      WroteBoth(old(mb.buf), old(mb.pos), old(mb.end), b1, p1, e1, mb.buf, mb.pos, mb.end, Zeros(n), [0]);
      assert Zeros(n) + [0] == Zeros(n + 1);
      n := n + 1;
    }
    PadStep(mb.pos - start);
  }

  /** rtcp_hdr_encode. */
  method EncodeHdr(mb: Mbuf, count: u8, pt: u8, length: u16)
    requires mb.Valid()
    modifies mb
    ensures mb.Valid()
    ensures Wrote(old(mb.buf), old(mb.pos), old(mb.end), mb.buf, mb.pos, mb.end, Hdr(count, pt, length))
  {
    hide Wrote;
    ghost var b0, p0, e0 := mb.buf, mb.pos, mb.end;
    mb.WriteU8(FirstByte(count));
    ghost var b1, p1, e1 := mb.buf, mb.pos, mb.end;
    mb.WriteU8(pt);
    WroteBoth(b0, p0, e0, b1, p1, e1, mb.buf, mb.pos, mb.end, [FirstByte(count)], [pt]);
    b1, p1, e1 := mb.buf, mb.pos, mb.end;
    mb.WriteMem(BytesOfU16(length));
    assert [FirstByte(count)] + [pt] == [FirstByte(count), pt];
    WroteBoth(b0, p0, e0, b1, p1, e1, mb.buf, mb.pos, mb.end, [FirstByte(count), pt], BytesOfU16(length));
  }

  /** The end of rtcp_vencode: padding, then the header in front of what was written. */
  method Finish(mb: Mbuf, start: nat, count: nat, pt: u8, ghost b0: seq<u8>, ghost e0: nat, ghost body: seq<u8>)
    requires mb.Valid() && e0 <= start + RTCP_HDR_SIZE
    requires Wrote(b0, start + RTCP_HDR_SIZE, e0, mb.buf, mb.pos, mb.end, body)
    modifies mb
    ensures mb.Valid() && mb.pos == mb.end
    ensures Wrote(b0, start, e0, mb.buf, mb.pos, mb.end, Framed(count, pt, body))
  {
    hide Wrote, Hdr, Zeros, PadLen;
    WroteLength(b0, start + RTCP_HDR_SIZE, e0, mb.buf, mb.pos, mb.end, body);
    ghost var b1, p1, e1 := mb.buf, mb.pos, mb.end;
    Pad(mb, start);
    ghost var pad := Zeros(PadLen(p1 - start));
    WroteBoth(b0, start + RTCP_HDR_SIZE, e0, b1, p1, e1, mb.buf, mb.pos, mb.end, body, pad);
    WroteLength(b0, start + RTCP_HDR_SIZE, e0, mb.buf, mb.pos, mb.end, body + pad);
    SamePad(|body|);
    var len := mb.pos - start - RTCP_HDR_SIZE;
    ghost var b2, p2, e2 := mb.buf, mb.pos, mb.end;
    mb.pos := start;
    EncodeHdr(mb, Low8(count), pt, (len / 4) % TWO16);
    ghost var h := Hdr(Low8(count), pt, (len / 4) % TWO16);
    HdrLength(Low8(count), pt, (len / 4) % TWO16);
    WroteLength(b2, start, e2, mb.buf, mb.pos, mb.end, h);
    HeaderLast(b0, start, e0, b2, p2, e2, mb.buf, mb.pos, mb.end, h, body + pad);
    EndAfter(b0, start, e0, mb.buf, mb.pos + len, mb.end, h + (body + pad));
    mb.pos := mb.end;
  }

  lemma EndAfter(b0: seq<u8>, p0: nat, e0: nat, b1: seq<u8>, p1: nat, e1: nat, data: seq<u8>)
    requires Wrote(b0, p0, e0, b1, p1, e1, data) && e0 <= p0 + |data| && data != []
    ensures e1 == p1
  {
  }

  lemma HdrLength(count: u8, pt: u8, length: u16)
    ensures |Hdr(count, pt, length)| == RTCP_HDR_SIZE
  {
  }

  lemma SamePad(n: nat)
    ensures PadLen(n + RTCP_HDR_SIZE) == PadLen(n) && |Zeros(PadLen(n))| == PadLen(n)
  {
  }

  /** rtcp_vencode, for the three packet types; whatever was behind the position is cut off. */
  method EncodePacket(mb: Mbuf, p: Packet)
    requires mb.Valid()
    modifies mb
    ensures mb.Valid() && mb.pos == mb.end
    ensures Wrote(old(mb.buf), old(mb.pos), Min(old(mb.end), old(mb.pos) + RTCP_HDR_SIZE), mb.buf, mb.pos, mb.end,
                  EncPacket(p))
  {
    hide Wrote, Words32, EncRrs, Framed;
    var start := mb.pos;
    ghost var b0 := mb.buf;
    SkipHeader(mb);
    ghost var e0 := mb.end;
    WriteBody(mb, p);
    Finish(mb, start, Count(p), Type(p), b0, e0, Body(p));
  }

  method WriteBody(mb: Mbuf, p: Packet)
    requires mb.Valid()
    modifies mb
    ensures mb.Valid()
    ensures Wrote(old(mb.buf), old(mb.pos), old(mb.end), mb.buf, mb.pos, mb.end, Body(p))
  {
    hide Wrote, Words32, EncRrs;
    ghost var b0, p0, e0 := mb.buf, mb.pos, mb.end;
    match p
    case SenderReport(ssrc, ntpSec, ntpFrac, rtpTs, psent, osent, rrv) =>
      var ws := [ssrc, ntpSec, ntpFrac, rtpTs, psent, osent];
      WriteWords(mb, ws);
      ghost var b1, p1, e1 := mb.buf, mb.pos, mb.end;
      EncodeRrs(mb, rrv);
      WroteBoth(b0, p0, e0, b1, p1, e1, mb.buf, mb.pos, mb.end, Words32(ws), EncRrs(rrv));
    case ReceiverReport(ssrc, rrv) =>
      WriteWords(mb, [ssrc]);
      ghost var b1, p1, e1 := mb.buf, mb.pos, mb.end;
      EncodeRrs(mb, rrv);
      WroteBoth(b0, p0, e0, b1, p1, e1, mb.buf, mb.pos, mb.end, Words32([ssrc]), EncRrs(rrv));
    case Bye(srcv, reason) =>
      WriteWords(mb, srcv);
      match reason {
        case None => assert Words32(srcv) + [] == Words32(srcv);
        case Some(r) =>
          ghost var b1, p1, e1 := mb.buf, mb.pos, mb.end;
          mb.WriteU8(Low8(|r|));
          ghost var b2, p2, e2 := mb.buf, mb.pos, mb.end;
          mb.WriteMem(r);
          WroteBoth(b1, p1, e1, b2, p2, e2, mb.buf, mb.pos, mb.end, [Low8(|r|)], r);
          WroteBoth(b0, p0, e0, b1, p1, e1, mb.buf, mb.pos, mb.end, Words32(srcv), [Low8(|r|)] + r);
      }
  }

  // ---------------------------------------------------------------- decoding

  /** rtcp_rr_decode. */
  method DecodeRr(mb: Mbuf) returns (r: Option<Rr>)
    requires mb.Valid() && mb.pos <= mb.end
    modifies mb`pos
    ensures mb.pos <= mb.end
    ensures r.None? <==> mb.end - old(mb.pos) < RTCP_RR_SIZE
    ensures r.Some? ==> r.value == DecRr(mb.buf, old(mb.pos)) && mb.pos == old(mb.pos) + RTCP_RR_SIZE
  {
    hide U32OfBytes, Signed24;
    if mb.Left() < RTCP_RR_SIZE {
      return None;
    }
    var ssrc := mb.ReadU32();
    var w := mb.ReadU32();
    var lastSeq := mb.ReadU32();
    var jitter := mb.ReadU32();
    var lsr := mb.ReadU32();
    var dlsr := mb.ReadU32();
    r := Some(Rr(ssrc, w / 0x100_0000, Signed24(w % 0x100_0000), lastSeq, jitter, lsr, dlsr));
  }

  function Behind(front: seq<Rr>, rest: Option<seq<Rr>>): Option<seq<Rr>> {
    if rest.None? then None else Some(front + rest.value)
  }

  lemma BehindNothing(rest: Option<seq<Rr>>)
    ensures Behind([], rest) == rest
  {
    assert rest.Some? ==> [] + rest.value == rest.value;
  }

  lemma PadStep(n: nat)
    ensures n % 4 != 0 ==> PadLen(n + 1) == PadLen(n) - 1
    ensures n % 4 == 0 <==> PadLen(n) == 0
  {
  }

  method DecodeRrs(mb: Mbuf, count: nat) returns (r: Option<seq<Rr>>)
    requires mb.Valid() && mb.pos <= mb.end
    modifies mb`pos
    ensures mb.pos <= mb.end && r == DecRrs(mb.buf, old(mb.pos), mb.end, count)
    ensures r.Some? ==> mb.pos == old(mb.pos) + RTCP_RR_SIZE * count
  {
    hide DecRr;
    var rrv: seq<Rr> := [];
    BehindNothing(DecRrs(mb.buf, mb.pos, mb.end, count));
    for i := 0 to count
      invariant mb.pos <= mb.end && mb.pos == old(mb.pos) + RTCP_RR_SIZE * i
      invariant DecRrs(mb.buf, old(mb.pos), mb.end, count)
             == Behind(rrv, DecRrs(mb.buf, mb.pos, mb.end, count - i))
    {
      ghost var p := mb.pos;
      var rr := DecodeRr(mb);
      if rr.None? {
        return None;
      }
      ghost var rest := DecRrs(mb.buf, mb.pos, mb.end, count - i - 1);
      assert rest.Some? ==> rrv + ([rr.value] + rest.value) == rrv + [rr.value] + rest.value;
      rrv := rrv + [rr.value];
    }
    assert rrv + [] == rrv;
    r := Some(rrv);
  }

  method ReadWords(mb: Mbuf, n: nat) returns (ws: seq<u32>)
    requires mb.Valid() && mb.pos + 4 * n <= mb.end
    modifies mb`pos
    ensures mb.pos == old(mb.pos) + 4 * n && ws == DecWords(mb.buf, old(mb.pos), n)
  {
    hide U32OfBytes;
    ws := [];
    for i := 0 to n
      invariant mb.pos == old(mb.pos) + 4 * i && ws == DecWords(mb.buf, old(mb.pos), i)
    {
      var w := mb.ReadU32();
      ws := ws + [w];
    }
  }

  /** The padding loop at the end of rtcp_decode. */
  method Slurp(mb: Mbuf, start: nat)
    requires mb.Valid() && start <= mb.pos <= mb.end
    modifies mb`pos
    ensures mb.pos <= mb.end && mb.pos == Slurped(start, old(mb.pos), mb.end)
  {
    hide PadLen;
    while (mb.pos - start) % 4 != 0 && mb.Left() > 0
      invariant old(mb.pos) <= mb.pos <= mb.end
      invariant mb.pos + PadLen(mb.pos - start) == old(mb.pos) + PadLen(old(mb.pos) - start)
      decreases mb.end - mb.pos
    {
      PadStep(mb.pos - start);
      mb.pos := mb.pos + 1;
    }
    PadStep(mb.pos - start);
  }

  /** rtcp_decode. */
  method Decode(mb: Mbuf) returns (r: Decoded)
    requires mb.Valid() && mb.pos <= mb.end
    modifies mb`pos
    ensures mb.pos <= mb.end
    ensures r == DecPacket(mb.buf, old(mb.pos), mb.end)
    ensures r.Got? ==> mb.pos == r.pos
  {
    hide DecRrs, DecWords, U16OfBytes, U32OfBytes, Slurped;
    if mb.Left() < RTCP_HDR_SIZE {
      return BadMsg;
    }
    var start := mb.pos;
    var b := mb.ReadU8();
    var pt := mb.ReadU8();
    var length := mb.ReadU16();
    var version, count := b / 64, b % 32;
    if version != RTCP_VERSION {
      return BadMsg;
    }
    var words: int := length;
    var rem := 4 * words;
    if mb.Left() < rem {
      return BadMsg;
    }
    if pt == RTCP_SR {
      if mb.Left() < 24 {
        return BadMsg;
      }
      var w := ReadWords(mb, 6);
      var rrv := DecodeRrs(mb, count);
      if rrv.None? {
        return BadMsg;
      }
      Slurp(mb, start);
      r := Got(SenderReport(w[0], w[1], w[2], w[3], w[4], w[5], rrv.value), mb.pos);
    } else if pt == RTCP_RR {
      if mb.Left() < 4 {
        return BadMsg;
      }
      var ssrc := mb.ReadU32();
      var rrv := DecodeRrs(mb, count);
      if rrv.None? {
        return BadMsg;
      }
      Slurp(mb, start);
      r := Got(ReceiverReport(ssrc, rrv.value), mb.pos);
    } else if pt == RTCP_BYE {
      r := DecodeBye(mb, start, count, rem);
    } else {
      r := OtherType(pt);
    }
  }

  /** The BYE case of rtcp_decode. */
  method DecodeBye(mb: Mbuf, start: nat, count: nat, rem: nat) returns (r: Decoded)
    requires mb.Valid() && mb.pos == start + RTCP_HDR_SIZE <= mb.end
    modifies mb`pos
    ensures mb.pos <= mb.end
    ensures r == DecBye(mb.buf, start, mb.end, count, rem)
    ensures r.Got? ==> mb.pos == r.pos
  {
    hide DecWords, Slurped;
    if mb.Left() < 4 * count {
      return BadMsg;
    }
    var srcv := ReadWords(mb, count);
    if rem > 4 * count {
      var len := mb.ReadU8();
      if mb.Left() < len {
        return BadMsg;
      }
      ghost var j := mb.pos;
      var ok, reason := mb.ReadMem(len);
      assert reason == mb.buf[j..j + len];
      Slurp(mb, start);
      r := Got(Bye(srcv, Some(reason)), mb.pos);
    } else {
      Slurp(mb, start);
      r := Got(Bye(srcv, None), mb.pos);
    }
  }

  /** A packet encoded into an empty buffer and decoded from it comes back unchanged. */
  method SendAndReceive(p: Packet) returns (r: Decoded)
    requires Encodable(p)
    ensures r.Got? && r.p == p
  {
    hide EncPacket, DecPacket;
    var mb := new Mbuf();
    EncodePacket(mb, p);
    PacketNotEmpty(p);
    mb.pos := 0;
    PacketRoundTrip(mb.buf, 0, mb.end, p);
    r := Decode(mb);
  }

  lemma PacketNotEmpty(p: Packet)
    ensures |EncPacket(p)| >= RTCP_HDR_SIZE
  {
  }
}
