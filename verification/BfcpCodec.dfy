/** The BFCP encoder and decoder as they run on a memory buffer. */
module BfcpCodec {
  import opened Base
  import opened MemoryBuffer
  import opened BfcpWire

  method WriteTwo(mb: Mbuf, x: u8, y: u8)
    requires mb.Valid()
    modifies mb
    ensures mb.Valid()
    ensures Wrote(old(mb.buf), old(mb.pos), old(mb.end), mb.buf, mb.pos, mb.end, [x, y])
  {
    mb.WriteU8(x);
    ghost var b1, p1, e1 := mb.buf, mb.pos, mb.end;
    mb.WriteU8(y);
    WroteBoth(old(mb.buf), old(mb.pos), old(mb.end), b1, p1, e1, mb.buf, mb.pos, mb.end, [x], [y]);
  }

  /** A list of bytes written one at a time, each taken through `code`. */
  method WriteEach(mb: Mbuf, bytes: seq<u8>)
    requires mb.Valid()
    modifies mb
    ensures mb.Valid()
    ensures Wrote(old(mb.buf), old(mb.pos), old(mb.end), mb.buf, mb.pos, mb.end, bytes)
  {
    for i := 0 to |bytes|
      invariant mb.Valid()
      invariant Wrote(old(mb.buf), old(mb.pos), old(mb.end), mb.buf, mb.pos, mb.end, bytes[..i])
    {
      ghost var b1, p1, e1 := mb.buf, mb.pos, mb.end;
      mb.WriteU8(bytes[i]);
      assert bytes[..i] + [bytes[i]] == bytes[..i + 1];
      WroteBoth(old(mb.buf), old(mb.pos), old(mb.end), b1, p1, e1, mb.buf, mb.pos, mb.end, bytes[..i], [bytes[i]]);
    }
    assert bytes[..|bytes|] == bytes;
  }

  /** The value part of attr_encode. */
  method WriteValue(mb: Mbuf, v: Value)
    requires mb.Valid()
    modifies mb
    ensures mb.Valid()
    ensures Wrote(old(mb.buf), old(mb.pos), old(mb.end), mb.buf, mb.pos, mb.end, Payload(v))
  {
    hide Wrote;
    match v
    case Number(n) => mb.WriteMem(BytesOfU16(n));
    case Priority(l) => WriteTwo(mb, Low8(32 * l), 0);
    case ReqStatus(s, q) => WriteTwo(mb, s, q);
    case ErrCode(c, d) =>
      mb.WriteU8(c);
      ghost var b1, p1, e1 := mb.buf, mb.pos, mb.end;
      if d != [] {
        mb.WriteMem(d);
        WroteBoth(old(mb.buf), old(mb.pos), old(mb.end), b1, p1, e1, mb.buf, mb.pos, mb.end, [c], d);
      } else {
        assert [c] + d == [c];
      }
    case Text(s) => mb.WriteMem(s);
    case SupAttrs(a) => WriteEach(mb, Shifted(a));
    case SupPrims(p) => WriteEach(mb, p);
    case Opaque => WroteNothing(mb.buf, mb.pos, mb.end);
  }

  /** Zero bytes up to the next multiple of four after `start`. */
  method WritePadding(mb: Mbuf, start: nat)
    requires mb.Valid() && start <= mb.pos
    modifies mb
    ensures mb.Valid()
    ensures Wrote(old(mb.buf), old(mb.pos), old(mb.end), mb.buf, mb.pos, mb.end, Zeros(PadLen(old(mb.pos) - start)))
  {
    hide Wrote;
    ghost var n := 0;
    WroteNothing(mb.buf, mb.pos, mb.end);
    while (mb.pos - start) % 4 != 0
      invariant mb.Valid() && n <= PadLen(old(mb.pos) - start)
      invariant mb.pos == old(mb.pos) + n
      invariant Wrote(old(mb.buf), old(mb.pos), old(mb.end), mb.buf, mb.pos, mb.end, Zeros(n))
      decreases PadLen(old(mb.pos) - start) - n
    {
      ghost var b1, p1, e1 := mb.buf, mb.pos, mb.end;
      mb.WriteU8(0);
      WroteBoth(old(mb.buf), old(mb.pos), old(mb.end), b1, p1, e1, mb.buf, mb.pos, mb.end, Zeros(n), [0]);
      WroteLength(b1, p1, e1, mb.buf, mb.pos, mb.end, [0]);
      assert Zeros(n) + [0] == Zeros(n + 1);
      n := n + 1;
    }
  }

  /** One attribute without children: the header is skipped first and written last. */
  method EncodeAttr(mb: Mbuf, a: Attr) returns (err: Option<Error>)
    requires mb.Valid() && a.typ < 0x80 && KindOk(a.typ, a.v)
    modifies mb
    ensures mb.Valid()
    ensures err == if 1 <= a.typ <= 18 then None else Some(EINVAL)
    ensures Wrote(old(mb.buf), old(mb.pos), old(mb.end), mb.buf, mb.pos, mb.end, Head(a))
  {
    hide Wrote, Payload, TypeByte;
    var start := mb.pos;
    ghost var b0, e0 := mb.buf, mb.end;
    mb.pos := mb.pos + BFCP_ATTR_HDR_SIZE;
    WriteValue(mb, a.v);
    WroteLength(b0, start + 2, e0, mb.buf, mb.pos, mb.end, Payload(a.v));
    err := if a.v.Opaque? then Some(EINVAL) else None;
    var len := mb.pos - start;
    ghost var b1, p1, e1 := mb.buf, mb.pos, mb.end;
    mb.pos := start;
    WriteTwo(mb, TypeByte(a), Low8(len));
    ghost var h := [TypeByte(a), Low8(len)];
    WroteLength(b1, start, e1, mb.buf, mb.pos, mb.end, h);
    HeaderLast(b0, start, e0, b1, p1, e1, mb.buf, mb.pos, mb.end, h, Payload(a.v));
    mb.pos := mb.pos + (len - BFCP_ATTR_HDR_SIZE);
    ghost var b2, p2, e2 := mb.buf, mb.pos, mb.end;
    WritePadding(mb, start);
    WroteBoth(b0, start, e0, b2, p2, e2, mb.buf, mb.pos, mb.end, h + Payload(a.v), Zeros(PadLen(len)));
  }

  /** Attribute types fit seven bits and every value has the kind its type calls for. */
  predicate WellKinded(a: Attr) {
    a.typ < 0x80 && KindOk(a.typ, a.v) && forall i :: 0 <= i < |a.subs| ==> WellKinded(a.subs[i])
  }

  predicate Known(a: Attr) {
    1 <= a.typ <= 18 && forall i :: 0 <= i < |a.subs| ==> Known(a.subs[i])
  }

  predicate AllWellKinded(attrs: seq<Attr>) { forall i :: 0 <= i < |attrs| ==> WellKinded(attrs[i]) }

  predicate AllKnown(attrs: seq<Attr>) { forall i :: 0 <= i < |attrs| ==> Known(attrs[i]) }

  /** One round of the loop of bfcp_attrs_vencode: a group's length is patched after its children. */
  method EncodeTree(mb: Mbuf, a: Attr) returns (err: Option<Error>)
    requires mb.Valid() && WellKinded(a)
    modifies mb
    ensures mb.Valid()
    ensures err.None? <==> Known(a)
    ensures err.None? ==> Wrote(old(mb.buf), old(mb.pos), old(mb.end), mb.buf, mb.pos, mb.end, Enc(a))
    decreases a
  {
    hide Wrote;
    var start := mb.pos;
    ghost var b0, e0 := mb.buf, mb.end;
    err := EncodeAttr(mb, a);
    if err.Some? || a.subs == [] {
      return;
    }
    ghost var b1, p1, e1 := mb.buf, mb.pos, mb.end;
    err := EncodeAttrs(mb, a.subs);
    if err.Some? {
      return;
    }
    ghost var body := Head(a) + EncAll(a.subs);
    WroteBoth(b0, start, e0, b1, p1, e1, mb.buf, mb.pos, mb.end, Head(a), EncAll(a.subs));
    ghost var b2, p2, e2 := mb.buf, mb.pos, mb.end;
    WroteLength(b0, start, e0, b2, p2, e2, body);
    var len := mb.pos - start;
    mb.pos := start + 1;
    mb.WriteU8(Low8(len));
    Patched(b0, start, e0, b2, p2, e2, mb.buf, mb.pos, mb.end, body, 1, Low8(len));
    WroteLength(b2, start + 1, e2, mb.buf, mb.pos, mb.end, [Low8(len)]);
    mb.pos := mb.pos + (len - BFCP_ATTR_HDR_SIZE);
  }

  /** bfcp_attrs_vencode on an attribute tree: a group's length is patched once its children are written. */
  method EncodeAttrs(mb: Mbuf, attrs: seq<Attr>) returns (err: Option<Error>)
    requires mb.Valid() && AllWellKinded(attrs)
    modifies mb
    ensures mb.Valid()
    ensures err.None? <==> AllKnown(attrs)
    ensures err.None? ==> Wrote(old(mb.buf), old(mb.pos), old(mb.end), mb.buf, mb.pos, mb.end, EncAll(attrs))
    decreases attrs
  {
    hide Wrote, Enc, EncAll, Known, WellKinded;
    ghost var b0, p0, e0 := mb.buf, mb.pos, mb.end;
    WroteNothing(b0, p0, e0);
    NoAttrs();
    for i := 0 to |attrs|
      invariant mb.Valid() && AllKnown(attrs[..i])
      invariant Wrote(b0, p0, e0, mb.buf, mb.pos, mb.end, EncAll(attrs[..i]))
    {
      var a := attrs[i];
      ghost var b1, p1, e1 := mb.buf, mb.pos, mb.end;
      err := EncodeTree(mb, a);
      EncAllNext(attrs, i);
      if err.Some? { return; }
      WroteBoth(b0, p0, e0, b1, p1, e1, mb.buf, mb.pos, mb.end, EncAll(attrs[..i]), Enc(a));
    }
    assert attrs[..|attrs|] == attrs;
    err := None;
  }

  /** The value cases of attr_decode, for a field of `len` bytes that are all present. */
  method ReadValue(mb: Mbuf, typ: u8, len: nat) returns (v: Option<Value>)
    requires mb.Valid() && mb.pos + len <= mb.end && !IsGrouped(typ)
    modifies mb`pos
    ensures v.None? ==> mb.pos == old(mb.pos)
    ensures v == DecValue(typ, mb.buf[old(mb.pos)..old(mb.pos) + len])
    ensures v.Some? ==>
      mb.pos == old(mb.pos) + (if v.value.Number? || v.value.Priority? || v.value.ReqStatus? then 2 else len)
  {
    ghost var f := mb.buf[mb.pos..mb.pos + len];
    if IsNumeric(typ) {
      if len < 2 { return None; }
      assert f[..2] == mb.buf[mb.pos..mb.pos + 2];
      var n := mb.ReadU16();
      v := Some(Number(n));
    } else if typ == 4 {
      if len < 2 { return None; }
      var p := mb.ReadU8();
      var _ := mb.ReadU8();
      v := Some(Priority(p / 32));
    } else if typ == 5 {
      if len < 2 { return None; }
      var s := mb.ReadU8();
      var q := mb.ReadU8();
      v := Some(ReqStatus(s, q));
    } else if typ == 6 {
      if len < 1 { return None; }
      var c := mb.ReadU8();
      var _, d := mb.ReadMem(len - 1);
      assert d == f[1..];
      v := Some(ErrCode(c, d));
    } else if IsText(typ) {
      var _, s := mb.ReadMem(len);
      assert s == f;
      v := Some(Text(s));
    } else if typ == 10 {
      var a := ReadEach(mb, len);
      v := Some(SupAttrs(Unshifted(a)));
    } else if typ == 11 {
      var p := ReadEach(mb, len);
      v := Some(SupPrims(p));
    } else {
      mb.pos := mb.pos + len;
      v := Some(Opaque);
    }
  }

  /** `n` bytes read one at a time. */
  method ReadEach(mb: Mbuf, n: nat) returns (bytes: seq<u8>)
    requires mb.Valid() && mb.pos + n <= mb.end
    modifies mb`pos
    ensures mb.pos == old(mb.pos) + n && bytes == mb.buf[old(mb.pos)..mb.pos]
  {
    bytes := [];
    for i := 0 to n
      invariant mb.pos == old(mb.pos) + i && bytes == mb.buf[old(mb.pos)..mb.pos]
    {
      var b := mb.ReadU8();
      bytes := bytes + [b];
    }
  }

  /** attr_decode: reads one attribute, recursing into a group with the end mark lowered to the group's end. */
  method DecodeAttr(mb: Mbuf, uma: seq<u8>) returns (err: Option<Error>, attr: Attr, uma': seq<u8>)
    requires mb.Valid() && mb.pos <= mb.end
    modifies mb`pos, mb`end
    ensures mb.Valid() && mb.end == old(mb.end) && mb.pos <= mb.end
    ensures match DecAttr(mb.buf, old(mb.pos), mb.end, uma)
            case BadAttr(e) => err == Some(e)
            case GotAttr(a, q, u) => err == None && attr == a && mb.pos == q && uma' == u
    decreases mb.end - mb.pos, 0
  {
    hide DecAll, DecValue, SkipPad, U16OfBytes, IsText;
    attr, uma', err := Attr(0, false, Opaque, []), uma, None;
    if mb.Left() < BFCP_ATTR_HDR_SIZE {
      return Some(EBADMSG), attr, uma;
    }
    var start := mb.pos;
    var b := mb.ReadU8();
    var typ, mand := b / 2, b % 2 == 1;
    var l := mb.ReadU8();
    if l < BFCP_ATTR_HDR_SIZE {
      return Some(EBADMSG), attr, uma;
    }
    var len := l - BFCP_ATTR_HDR_SIZE;
    if mb.Left() < len {
      return Some(EBADMSG), attr, uma;
    }
    if IsGrouped(typ) {
      if len < 2 {
        return Some(EBADMSG), attr, uma;
      }
      var n := mb.ReadU16();
      var subs;
      err, subs, uma' := DecodeAttrs(mb, len - 2, uma);
      if err.Some? {
        return;
      }
      attr := Attr(typ, mand, Number(n), subs);
    } else {
      var v := ReadValue(mb, typ, len);
      if v.None? {
        return Some(EBADMSG), attr, uma;
      }
      if v.value.Opaque? && mand && |uma| < UNKNOWN_MAX {
        uma' := uma + [typ * 2];
      }
      attr := Attr(typ, mand, v.value, []);
    }
    SkipPadding(mb, start);
  }

  /** The padding loop of attr_decode. */
  method SkipPadding(mb: Mbuf, start: nat)
    requires mb.Valid() && start <= mb.pos <= mb.end
    modifies mb`pos
    ensures mb.pos == SkipPad(start, old(mb.pos), mb.end)
  {
    while (mb.pos - start) % 4 != 0 && mb.Left() > 0
      invariant old(mb.pos) <= mb.pos <= mb.end
      invariant SkipPad(start, mb.pos, mb.end) == SkipPad(start, old(mb.pos), mb.end)
      decreases mb.end - mb.pos
    {
      mb.pos := mb.pos + 1;
    }
  }

  /** Attributes already read, put in front of what the rest of the region decodes to. */
  ghost function Prepend(acc: seq<Attr>, r: AttrsResult): AttrsResult {
    match r
    case BadAttrs(e) => r
    case GotAttrs(attrs, q, u) => GotAttrs(acc + attrs, q, u)
  }

  /** bfcp_attrs_decode: the end mark is lowered for the loop and restored on every way out. */
  method DecodeAttrs(mb: Mbuf, len: nat, uma: seq<u8>)
    returns (err: Option<Error>, attrs: seq<Attr>, uma': seq<u8>)
    requires mb.Valid() && mb.pos <= mb.end
    modifies mb`pos, mb`end
    ensures mb.Valid() && mb.end == old(mb.end) && mb.pos <= mb.end
    ensures old(mb.Left()) < len ==> err == Some(EINVAL) && mb.pos == old(mb.pos)
    ensures old(mb.Left()) >= len ==>
      match DecAll(mb.buf, old(mb.pos), old(mb.pos) + len, uma)
      case BadAttrs(e) => err == Some(e)
      case GotAttrs(list, q, u) => err == None && attrs == list && mb.pos == q && uma' == u
    decreases len, 1
  {
    hide DecAttr;
    err, attrs, uma' := None, [], uma;
    if mb.Left() < len {
      return Some(EINVAL), [], uma;
    }
    var end := mb.end;
    ghost var start, goal := mb.pos, DecAll(mb.buf, mb.pos, mb.pos + len, uma);
    mb.end := mb.pos + len;
    while mb.Left() >= BFCP_ATTR_HDR_SIZE
      invariant mb.Valid() && err.None? && start <= mb.pos <= mb.end == start + len <= end
      invariant goal == Prepend(attrs, DecAll(mb.buf, mb.pos, mb.end, uma'))
      decreases mb.end - mb.pos
    {
      ghost var rest := attrs;
      var a;
      ghost var p, u := mb.pos, uma';
      err, a, uma' := DecodeAttr(mb, uma');
      if err.Some? {
        break;
      }
      attrs := attrs + [a];
      Regroup(rest, a, DecAll(mb.buf, mb.pos, mb.end, uma'));
    }
    mb.end := end;
  }

  lemma Regroup(acc: seq<Attr>, a: Attr, r: AttrsResult)
    ensures Prepend(acc, Prepend([a], r)) == Prepend(acc + [a], r)
  {
    if r.GotAttrs? { assert acc + ([a] + r.attrs) == (acc + [a]) + r.attrs; }
  }

  method EncodeHdr(mb: Mbuf, m: Msg, len: u16)
    requires mb.Valid()
    modifies mb
    ensures mb.Valid()
    ensures Wrote(old(mb.buf), old(mb.pos), old(mb.end), mb.buf, mb.pos, mb.end,
                  Hdr(m.ver, m.r, m.prim, len, m.confid, m.tid, m.userid))
  {
    hide Wrote;
    ghost var b0, p0, e0 := mb.buf, mb.pos, mb.end;
    var v: int := m.ver;
    var x := Low8(32 * v + (if m.r then 16 else 0));
    WriteTwo(mb, x, m.prim);
    ghost var b1, p1, e1 := mb.buf, mb.pos, mb.end;
    mb.WriteMem(BytesOfU16(len));
    WroteBoth(b0, p0, e0, b1, p1, e1, mb.buf, mb.pos, mb.end, [x, m.prim], BytesOfU16(len));
    ghost var h := [x, m.prim] + BytesOfU16(len);
    b1, p1, e1 := mb.buf, mb.pos, mb.end;
    mb.WriteMem(BytesOfU32(m.confid));
    WroteBoth(b0, p0, e0, b1, p1, e1, mb.buf, mb.pos, mb.end, h, BytesOfU32(m.confid));
    h := h + BytesOfU32(m.confid);
    b1, p1, e1 := mb.buf, mb.pos, mb.end;
    mb.WriteMem(BytesOfU16(m.tid));
    WroteBoth(b0, p0, e0, b1, p1, e1, mb.buf, mb.pos, mb.end, h, BytesOfU16(m.tid));
    h := h + BytesOfU16(m.tid);
    b1, p1, e1 := mb.buf, mb.pos, mb.end;
    mb.WriteMem(BytesOfU16(m.userid));
    WroteBoth(b0, p0, e0, b1, p1, e1, mb.buf, mb.pos, mb.end, h, BytesOfU16(m.userid));
  }

  /** bfcp_msg_vencode: the header is skipped, the attributes written, then the header filled in. */
  method EncodeMsg(mb: Mbuf, m: Msg) returns (err: Option<Error>)
    requires mb.Valid() && AllWellKinded(m.attrs)
    modifies mb
    ensures mb.Valid()
    ensures err.None? <==> AllKnown(m.attrs)
    ensures err.None? ==> Wrote(old(mb.buf), old(mb.pos), old(mb.end), mb.buf, mb.pos, mb.end, EncMsg(m))
  {
    hide Wrote, EncAll, Hdr;
    var start := mb.pos;
    ghost var b0, e0 := mb.buf, mb.end;
    mb.pos := mb.pos + BFCP_HDR_SIZE;
    err := EncodeAttrs(mb, m.attrs);
    if err.Some? {
      return;
    }
    WroteLength(b0, start + BFCP_HDR_SIZE, e0, mb.buf, mb.pos, mb.end, EncAll(m.attrs));
    var len := mb.pos - start - BFCP_HDR_SIZE;
    ghost var b1, p1, e1 := mb.buf, mb.pos, mb.end;
    mb.pos := start;
    EncodeHdr(mb, m, (len / 4) % TWO16);
    ghost var h := Hdr(m.ver, m.r, m.prim, (len / 4) % TWO16, m.confid, m.tid, m.userid);
    HeaderLast(b0, start, e0, b1, p1, e1, mb.buf, mb.pos, mb.end, h, EncAll(m.attrs));
    mb.pos := mb.pos + len;
  }

  /** bfcp_msg_decode: on a bad header the position goes back to where the message started. */
  method DecodeMsg(mb: Mbuf) returns (r: MsgResult)
    requires mb.Valid() && mb.pos <= mb.end
    modifies mb`pos, mb`end
    ensures mb.Valid() && mb.end == old(mb.end)
    ensures r == DecMsg(mb.buf, old(mb.pos), mb.end)
    ensures r.GotMsg? ==> mb.pos == r.pos
    ensures DecHdr(mb.buf, old(mb.pos), mb.end).BadMsg? ==> mb.pos == old(mb.pos)
  {
    hide DecAll;
    var start := mb.pos;
    var h := DecodeHdr(mb);
    if h.BadMsg? {
      mb.pos := start;
      return h;
    }
    var err, attrs, uma := DecodeAttrs(mb, 4 * h.msg.len, []);
    match err
    case Some(e) => r := BadMsg(e);
    case None => r := GotMsg(h.msg.(attrs := attrs, uma := uma), mb.pos);
  }

  method DecodeHdr(mb: Mbuf) returns (r: MsgResult)
    requires mb.Valid() && mb.pos <= mb.end
    modifies mb`pos
    ensures r == DecHdr(mb.buf, old(mb.pos), mb.end)
    ensures r.GotMsg? ==> mb.pos == r.pos
  {
    hide U16OfBytes, U32OfBytes;
    if mb.Left() < BFCP_HDR_SIZE {
      return BadMsg(ENODATA);
    }
    var b := mb.ReadU8();
    var prim := mb.ReadU8();
    var len := mb.ReadU16();
    var confid := mb.ReadU32();
    var tid := mb.ReadU16();
    var userid := mb.ReadU16();
    var ver := b / 32;
    if ver != 1 && ver != 2 {
      return BadMsg(EBADMSG);
    }
    if b / 8 % 2 == 1 {
      return BadMsg(ENOSYS);
    }
    var words: int := len;
    if mb.Left() < 4 * words {
      return BadMsg(ENODATA);
    }
    r := GotMsg(Msg(ver, b / 16 % 2 == 1, prim, len, confid, tid, userid, [], []), mb.pos);
  }

  /** A message encoded into an empty buffer and decoded from it comes back unchanged. */
  method SendAndReceive(m: Msg) returns (r: MsgResult)
    requires EncodableMsg(m)
    ensures r.GotMsg? && r.msg == m
  {
    hide EncAll, EncMsg, DecMsg, Encodable, AllEncodable;
    AllEncodableIsKnown(m.attrs);
    var mb := new Mbuf();
    var err := EncodeMsg(mb, m);
    mb.pos := 0;
    assert EncMsg(m) != [] by { MsgNotEmpty(m); }
    MsgRoundTrip(mb.buf, 0, mb.end, m);
    r := DecodeMsg(mb);
  }

  lemma MsgNotEmpty(m: Msg)
    ensures |EncMsg(m)| >= BFCP_HDR_SIZE
  {
    hide EncAll, Hdr;
  }

  lemma {:induction false} AllEncodableIsKnown(attrs: seq<Attr>)
    requires AllEncodable(attrs)
    ensures AllKnown(attrs) && AllWellKinded(attrs)
  {
    if attrs != [] {
      AllEncodableIsKnown(attrs[0].subs);
      AllEncodableIsKnown(attrs[1..]);
    }
  }
}
