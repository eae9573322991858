/** RTCP sender reports, receiver reports and goodbyes: their wire form and what the decoder makes of bytes. */
module RtcpWire {
  import opened Base

  const RTCP_VERSION: u8 := 2
  const RTCP_HDR_SIZE: nat := 4
  const RTCP_RR_SIZE: nat := 24
  const RTCP_SR: u8 := 200
  const RTCP_RR: u8 := 201
  const RTCP_BYE: u8 := 203

  type i24 = x: int | -0x80_0000 <= x < 0x80_0000

  /** A reception report block; the loss count is a signed 24-bit field. */
  datatype Rr = Rr(ssrc: u32, fraction: u8, lost: i24, lastSeq: u32, jitter: u32, lsr: u32, dlsr: u32)

  datatype Packet =
    | SenderReport(ssrc: u32, ntpSec: u32, ntpFrac: u32, rtpTs: u32, psent: u32, osent: u32, rrv: seq<Rr>)
    | ReceiverReport(ssrc: u32, rrv: seq<Rr>)
    | Bye(srcv: seq<u32>, reason: Option<seq<u8>>)

  /** Outcome of decoding; packets of the other types are not looked into. */
  datatype Decoded = BadMsg | OtherType(pt: u8) | Got(p: Packet, pos: nat)

  // ---------------------------------------------------------------- encoding

  /** The fraction in the high byte, the low 24 bits of the loss below it. */
  function LossWord(rr: Rr): u32 {
    var f: int := rr.fraction;
    f * 0x100_0000 + rr.lost % 0x100_0000
  }

  function EncRr(rr: Rr): (b: seq<u8>)
    ensures |b| == RTCP_RR_SIZE
  {
    Words32([rr.ssrc, LossWord(rr), rr.lastSeq, rr.jitter, rr.lsr, rr.dlsr])
  }

  /** 32-bit fields in network byte order, one behind the other. */
  function Words32(ws: seq<u32>): (b: seq<u8>)
    ensures |b| == 4 * |ws|
  {
    if ws == [] then [] else Words32(ws[..|ws| - 1]) + BytesOfU32(ws[|ws| - 1])
  }

  function EncRrs(rrv: seq<Rr>): (b: seq<u8>)
    ensures |b| == RTCP_RR_SIZE * |rrv|
  {
    if rrv == [] then [] else EncRrs(rrv[..|rrv| - 1]) + EncRr(rrv[|rrv| - 1])
  }

  function Type(p: Packet): u8 {
    match p
    case SenderReport(_, _, _, _, _, _, _) => RTCP_SR
    case ReceiverReport(_, _) => RTCP_RR
    case Bye(_, _) => RTCP_BYE
  }

  function Count(p: Packet): nat {
    match p
    case SenderReport(_, _, _, _, _, _, rrv) => |rrv|
    case ReceiverReport(_, rrv) => |rrv|
    case Bye(srcv, _) => |srcv|
  }

  function Body(p: Packet): seq<u8> {
    match p
    case SenderReport(ssrc, ntpSec, ntpFrac, rtpTs, psent, osent, rrv) =>
      Words32([ssrc, ntpSec, ntpFrac, rtpTs, psent, osent]) + EncRrs(rrv)
    case ReceiverReport(ssrc, rrv) => Words32([ssrc]) + EncRrs(rrv)
    case Bye(srcv, reason) =>
      Words32(srcv) + match reason case None => [] case Some(r) => [Low8(|r|)] + r
  }

  /** The version bits or-ed with the count. */
  function FirstByte(count: u8): u8 { if count < 0x80 then count + 0x80 else count }

  function Hdr(count: u8, pt: u8, length: u16): (h: seq<u8>)
    ensures |h| == RTCP_HDR_SIZE
  {
    [FirstByte(count), pt] + BytesOfU16(length)
  }

  /** A packet: header, body, zeros up to a 32-bit boundary; the length counts the words behind the header. */
  function Framed(count: nat, pt: u8, body: seq<u8>): (b: seq<u8>)
    ensures |b| >= RTCP_HDR_SIZE && |b| == RTCP_HDR_SIZE + |body| + PadLen(|body|)
  {
    Hdr(Low8(count), pt, ((|body| + PadLen(|body|)) / 4) % TWO16) + (body + Zeros(PadLen(|body|)))
  }

  function EncPacket(p: Packet): seq<u8> { Framed(Count(p), Type(p), Body(p)) }

  /** A packet the format can carry: a 5-bit count, and a reason its length byte can count. */
  predicate Encodable(p: Packet) {
    Count(p) <= 31 && (p.Bye? && p.reason.Some? ==> |p.reason.value| <= 255)
  }

  // ---------------------------------------------------------------- decoding

  function Signed24(w: int): i24
    requires 0 <= w < 0x100_0000
  {
    if w < 0x80_0000 then w else w - 0x100_0000
  }

  function U32At(b: seq<u8>, i: nat): u32
    requires i + 4 <= |b|
  {
    U32OfBytes(b[i..i + 4])
  }

  /** rtcp_rr_decode at an index with enough bytes behind it. */
  function DecRr(b: seq<u8>, i: nat): Rr
    requires i + RTCP_RR_SIZE <= |b|
  {
    var w := U32At(b, i + 4);
    Rr(U32At(b, i), w / 0x100_0000, Signed24(w % 0x100_0000), U32At(b, i + 8), U32At(b, i + 12), U32At(b, i + 16),
       U32At(b, i + 20))
  }

  /** The report blocks, or None when the bytes run out; only the end of the buffer bounds them. */
  function DecRrs(b: seq<u8>, i: nat, end: nat, count: nat): Option<seq<Rr>>
    requires i <= end <= |b|
    decreases count
  {
    if count == 0 then Some([])
    else if end - i < RTCP_RR_SIZE then None
    else
      match DecRrs(b, i + RTCP_RR_SIZE, end, count - 1)
      case None => None
      case Some(rrv) => Some([DecRr(b, i)] + rrv)
  }

  function DecWords(b: seq<u8>, i: nat, n: nat): (ws: seq<u32>)
    requires i + 4 * n <= |b|
    ensures |ws| == n
  {
    if n == 0 then [] else DecWords(b, i, n - 1) + [U32At(b, i + 4 * (n - 1))]
  }

  /** Padding is skipped up to a 32-bit boundary or the end of the buffer. */
  function Slurped(start: nat, pos: nat, end: nat): nat
    requires start <= pos
  {
    Min(pos + PadLen(pos - start), Max(pos, end))
  }

  /** The goodbye reason, when words are left behind the sources. */
  function DecReason(b: seq<u8>, i: nat, end: nat): (r: Option<(seq<u8>, nat)>)
    requires i <= end <= |b|
    ensures r.Some? ==> i <= r.value.1 <= end
  {
    var len := if i < end then b[i] else 0;
    var j := if i < end then i + 1 else i;
    if end - j < len then None else Some((b[j..j + len], j + len))
  }

  /** The sources that leave, and the reason if the length field leaves room for one. */
  function DecBye(b: seq<u8>, pos: nat, end: nat, count: nat, rem: nat): Decoded
    requires pos + RTCP_HDR_SIZE <= end <= |b|
  {
    var i := pos + RTCP_HDR_SIZE;
    if end - i < 4 * count then BadMsg
    else
      var srcv := DecWords(b, i, count);
      if rem > 4 * count then
        match DecReason(b, i + 4 * count, end)
        case None => BadMsg
        case Some((r, j)) => Got(Bye(srcv, Some(r)), Slurped(pos, j, end))
      else Got(Bye(srcv, None), Slurped(pos, i + 4 * count, end))
  }

  /** rtcp_decode. */
  function DecPacket(b: seq<u8>, pos: nat, end: nat): Decoded
    requires pos <= end <= |b|
  {
    if end - pos < RTCP_HDR_SIZE then BadMsg
    else
      var count, pt, rem := b[pos] % 32, b[pos + 1], 4 * U16OfBytes(b[pos + 2..pos + 4]);
      var i := pos + RTCP_HDR_SIZE;
      if b[pos] / 64 != RTCP_VERSION || end - i < rem then BadMsg
      else if pt == RTCP_SR then
        if end - i < 24 then BadMsg
        else
          var w := DecWords(b, i, 6);
          match DecRrs(b, i + 24, end, count)
          case None => BadMsg
          case Some(rrv) =>
            Got(SenderReport(w[0], w[1], w[2], w[3], w[4], w[5], rrv), Slurped(pos, i + 24 + RTCP_RR_SIZE * count, end))
      else if pt == RTCP_RR then
        if end - i < 4 then BadMsg
        else
          match DecRrs(b, i + 4, end, count)
          case None => BadMsg
          case Some(rrv) =>
            Got(ReceiverReport(U32At(b, i), rrv), Slurped(pos, i + 4 + RTCP_RR_SIZE * count, end))
      else if pt == RTCP_BYE then DecBye(b, pos, end, count, rem)
      else OtherType(pt)
  }

  // ---------------------------------------------------------------- the round trip

  lemma WordRead(b: seq<u8>, i: nat, w: u32)
    requires OccursAt(b, i, BytesOfU32(w))
    ensures i + 4 <= |b| && U32At(b, i) == w
  {
    hide BytesOfU32, U32OfBytes;
    FourBytes(w);
    U32RoundTrip(w);
  }

  lemma FourBytes(w: u32)
    ensures |BytesOfU32(w)| == 4
  {
  }

  lemma WordsNext(ws: seq<u32>)
    requires ws != []
    ensures Words32(ws) == Words32(ws[..|ws| - 1]) + BytesOfU32(ws[|ws| - 1])
    ensures |Words32(ws[..|ws| - 1])| == 4 * (|ws| - 1)
  {
  }

  /** Every field reads back. */
  lemma {:induction false} WordReadBack(b: seq<u8>, i: nat, ws: seq<u32>, k: nat)
    requires k < |ws| && OccursAt(b, i, Words32(ws))
    ensures i + 4 * k + 4 <= |b| && U32At(b, i + 4 * k) == ws[k]
  {
    hide Words32, BytesOfU32, U32At;
    var n := |ws| - 1;
    WordsNext(ws);
    OccursSplit(b, i, Words32(ws[..n]), BytesOfU32(ws[n]));
    if k == n {
      WordRead(b, i + 4 * n, ws[n]);
    } else {
      WordReadBack(b, i, ws[..n], k);
    }
  }

  lemma WordsLength(ws: seq<u32>)
    ensures |Words32(ws)| == 4 * |ws|
  {
  }

  lemma LossRoundTrip(rr: Rr)
    ensures LossWord(rr) / 0x100_0000 == rr.fraction && Signed24(LossWord(rr) % 0x100_0000) == rr.lost
  {
  }

  lemma RrRoundTrip(b: seq<u8>, i: nat, rr: Rr)
    requires OccursAt(b, i, EncRr(rr))
    ensures DecRr(b, i) == rr
  {
    hide U32At, Words32, LossWord, Signed24;
    var ws := [rr.ssrc, LossWord(rr), rr.lastSeq, rr.jitter, rr.lsr, rr.dlsr];
    assert EncRr(rr) == Words32(ws);
    WordReadBack(b, i, ws, 0);
    WordReadBack(b, i, ws, 1);
    WordReadBack(b, i, ws, 2);
    WordReadBack(b, i, ws, 3);
    WordReadBack(b, i, ws, 4);
    WordReadBack(b, i, ws, 5);
    LossRoundTrip(rr);
  }

  lemma {:induction false} RrsFront(rrv: seq<Rr>)
    requires rrv != []
    ensures EncRrs(rrv) == EncRr(rrv[0]) + EncRrs(rrv[1..])
  {
    hide EncRr;
    var n := |rrv| - 1;
    if n == 0 {
      assert rrv[..0] == [] && rrv[1..] == [];
      assert EncRrs(rrv) == [] + EncRr(rrv[0]);
    } else {
      RrsFront(rrv[..n]);
      assert rrv[..n][1..] == rrv[1..][..n - 1];
      Regroup(EncRr(rrv[0]), EncRrs(rrv[1..][..n - 1]), EncRr(rrv[n]));
    }
  }

  lemma {:induction false} RrsRoundTrip(b: seq<u8>, i: nat, end: nat, rrv: seq<Rr>)
    requires OccursAt(b, i, EncRrs(rrv)) && i + |EncRrs(rrv)| <= end <= |b|
    ensures DecRrs(b, i, end, |rrv|) == Some(rrv)
    decreases |rrv|
  {
    hide EncRr, DecRr, EncRrs;
    if rrv != [] {
      RrsFront(rrv);
      RrLength(rrv[0]);
      OccursSplit(b, i, EncRr(rrv[0]), EncRrs(rrv[1..]));
      RrRoundTrip(b, i, rrv[0]);
      RrsRoundTrip(b, i + RTCP_RR_SIZE, end, rrv[1..]);
      assert [rrv[0]] + rrv[1..] == rrv;
    }
  }

  lemma RrLength(rr: Rr)
    ensures |EncRr(rr)| == RTCP_RR_SIZE
  {
  }

  lemma {:induction false} WordsRoundTrip(b: seq<u8>, i: nat, ws: seq<u32>)
    requires OccursAt(b, i, Words32(ws)) && i + 4 * |ws| <= |b|
    ensures DecWords(b, i, |ws|) == ws
  {
    hide Words32, BytesOfU32, U32At;
    if ws != [] {
      var n := |ws| - 1;
      WordsNext(ws);
      OccursSplit(b, i, Words32(ws[..n]), BytesOfU32(ws[n]));
      WordsRoundTrip(b, i, ws[..n]);
      WordRead(b, i + 4 * n, ws[n]);
    }
  }

  /** What the decoder sees first in a framed packet. */
  lemma HeaderRead(b: seq<u8>, pos: nat, count: nat, pt: u8, body: seq<u8>)
    requires OccursAt(b, pos, Framed(count, pt, body)) && count <= 31 && |body| <= 0x3fff8
    ensures pos + RTCP_HDR_SIZE + |body| + PadLen(|body|) <= |b|
    ensures b[pos] / 64 == RTCP_VERSION && b[pos] % 32 == count && b[pos + 1] == pt
    ensures 4 * U16OfBytes(b[pos + 2..pos + 4]) == |body| + PadLen(|body|)
    ensures OccursAt(b, pos + RTCP_HDR_SIZE, body)
  {
    hide BytesOfU16, U16OfBytes, PadLen;
    PadsToWords(|body|);
    var words := (|body| + PadLen(|body|)) / 4;
    var h := Hdr(Low8(count), pt, words % TWO16);
    HdrBytes(count, pt, words);
    OccursSplit(b, pos, h, body + Zeros(PadLen(|body|)));
    OccursSplit(b, pos + RTCP_HDR_SIZE, body, Zeros(PadLen(|body|)));
    assert b[pos] == b[pos..pos + 4][0] && b[pos + 1] == b[pos..pos + 4][1];
    SliceOfSlice(b, pos, pos + 4, 2, 4);
    U16RoundTrip(words);
  }

  lemma PadsToWords(n: nat)
    ensures (n + PadLen(n)) % 4 == 0 && PadLen(n) < 4
  {
  }

  lemma HdrBytes(count: nat, pt: u8, words: u16)
    requires count <= 31
    ensures var h := Hdr(Low8(count), pt, words);
            |h| == 4 && h[0] == 0x80 + count && h[1] == pt && h[2..4] == BytesOfU16(words)
  {
  }

  /** Nothing to skip at the end of a packet, and exactly the padding of an uneven one. */
  lemma SlurpedExactly(pos: nat, n: nat, end: nat)
    requires pos + RTCP_HDR_SIZE + n + PadLen(n) <= end
    ensures Slurped(pos, pos + RTCP_HDR_SIZE + n, end) == pos + RTCP_HDR_SIZE + n + PadLen(n)
  {
  }

  lemma SenderReportRoundTrip(b: seq<u8>, pos: nat, end: nat, p: Packet)
    requires p.SenderReport? && Encodable(p)
    requires OccursAt(b, pos, EncPacket(p)) && pos + |EncPacket(p)| <= end <= |b|
    ensures DecPacket(b, pos, end) == Got(p, pos + |EncPacket(p)|)
  {
    hide Words32, EncRrs, Framed, Slurped, DecRrs, DecWords, U16OfBytes;
    var i := pos + RTCP_HDR_SIZE;
    var ws := [p.ssrc, p.ntpSec, p.ntpFrac, p.rtpTs, p.psent, p.osent];
    var body := Words32(ws) + EncRrs(p.rrv);
    BodyLengths(ws, p.rrv, body);
    FramedLength(|p.rrv|, RTCP_SR, body);
    HeaderRead(b, pos, |p.rrv|, RTCP_SR, body);
    OccursSplit(b, i, Words32(ws), EncRrs(p.rrv));
    WordsRoundTrip(b, i, ws);
    RrsRoundTrip(b, i + 24, end, p.rrv);
    SlurpedExactly(pos, |body|, end);
  }

  lemma BodyLengths(ws: seq<u32>, rrv: seq<Rr>, body: seq<u8>)
    requires body == Words32(ws) + EncRrs(rrv)
    ensures |Words32(ws)| == 4 * |ws| && |EncRrs(rrv)| == RTCP_RR_SIZE * |rrv|
    ensures |body| == 4 * |ws| + RTCP_RR_SIZE * |rrv| && PadLen(|body|) == 0
  {
    hide Words32, EncRrs, PadLen;
    WordsLength(ws);
    RrsLength(rrv);
    NoPadLen(|ws| + 6 * |rrv|);
  }

  lemma RrsLength(rrv: seq<Rr>)
    ensures |EncRrs(rrv)| == RTCP_RR_SIZE * |rrv|
  {
  }

  lemma NoPadLen(words: nat)
    ensures PadLen(4 * words) == 0
  {
  }

  lemma FramedLength(count: nat, pt: u8, body: seq<u8>)
    ensures |Framed(count, pt, body)| == RTCP_HDR_SIZE + |body| + PadLen(|body|)
  {
  }

  lemma ReceiverReportRoundTrip(b: seq<u8>, pos: nat, end: nat, p: Packet)
    requires p.ReceiverReport? && Encodable(p)
    requires OccursAt(b, pos, EncPacket(p)) && pos + |EncPacket(p)| <= end <= |b|
    ensures DecPacket(b, pos, end) == Got(p, pos + |EncPacket(p)|)
  {
    hide Words32, EncRrs, Framed, Slurped, DecRrs, U32At, U16OfBytes;
    var i := pos + RTCP_HDR_SIZE;
    var body := Words32([p.ssrc]) + EncRrs(p.rrv);
    BodyLengths([p.ssrc], p.rrv, body);
    FramedLength(|p.rrv|, RTCP_RR, body);
    HeaderRead(b, pos, |p.rrv|, RTCP_RR, body);
    OccursSplit(b, i, Words32([p.ssrc]), EncRrs(p.rrv));
    WordReadBack(b, i, [p.ssrc], 0);
    RrsRoundTrip(b, i + 4, end, p.rrv);
    SlurpedExactly(pos, |body|, end);
  }

  lemma ByeRoundTrip(b: seq<u8>, pos: nat, end: nat, p: Packet)
    requires p.Bye? && Encodable(p)
    requires OccursAt(b, pos, EncPacket(p)) && pos + |EncPacket(p)| <= end <= |b|
    ensures DecPacket(b, pos, end) == Got(p, pos + |EncPacket(p)|)
  {
    hide Words32, Framed, Slurped, DecWords, U16OfBytes, DecReason, PadLen, U32At;
    var i, n := pos + RTCP_HDR_SIZE, |p.srcv|;
    var tail := match p.reason case None => [] case Some(r) => [Low8(|r|)] + r;
    var body := Words32(p.srcv) + tail;
    WordsLength(p.srcv);
    FramedLength(n, RTCP_BYE, body);
    HeaderRead(b, pos, n, RTCP_BYE, body);
    OccursSplit(b, i, Words32(p.srcv), tail);
    WordsRoundTrip(b, i, p.srcv);
    SlurpedExactly(pos, |body|, end);
    if p.reason.Some? {
      ReasonRoundTrip(b, i + 4 * n, end, p.reason.value);
    } else {
      NoPadLen(n);
    }
  }

  lemma ReasonRoundTrip(b: seq<u8>, j: nat, end: nat, r: seq<u8>)
    requires |r| <= 255 && OccursAt(b, j, [Low8(|r|)] + r) && j + 1 + |r| <= end <= |b|
    ensures DecReason(b, j, end) == Some((r, j + 1 + |r|))
  {
    OccursSplit(b, j, [Low8(|r|)], r);
    assert b[j] == b[j..j + 1][0] == |r|;
  }

  /** Decoding an encoded packet returns it, wherever it stands, and stops behind its padding. */
  lemma PacketRoundTrip(b: seq<u8>, pos: nat, end: nat, p: Packet)
    requires Encodable(p)
    requires OccursAt(b, pos, EncPacket(p)) && pos + |EncPacket(p)| <= end <= |b|
    ensures DecPacket(b, pos, end) == Got(p, pos + |EncPacket(p)|)
  {
    match p
    case SenderReport(_, _, _, _, _, _, _) => SenderReportRoundTrip(b, pos, end, p);
    case ReceiverReport(_, _) => ReceiverReportRoundTrip(b, pos, end, p);
    case Bye(_, _) => ByeRoundTrip(b, pos, end, p);
  }
}
