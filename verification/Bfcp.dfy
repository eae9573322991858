/** BFCP attributes and messages: wire format, encoder with patched lengths, recursive decoder. */
module BfcpWire {
  import opened Base

  datatype Value =
    | Number(n: u16)
    | Priority(level: u8)
    | ReqStatus(status: u8, qpos: u8)
    | ErrCode(code: u8, details: seq<u8>)
    | Text(s: seq<u8>)
    | SupAttrs(attrv: seq<u8>)
    | SupPrims(primv: seq<u8>)
    | Opaque

  /** One attribute of the tree; `subs` is used by the grouped attributes. */
  datatype Attr = Attr(typ: u8, mand: bool, v: Value, subs: seq<Attr>)

  datatype Error = EBADMSG | EINVAL | ENODATA | ENOSYS

  const BFCP_ATTR_HDR_SIZE: nat := 2
  const BFCP_HDR_SIZE: nat := 12
  const UNKNOWN_MAX: nat := 16

  predicate IsNumeric(typ: u8) { 1 <= typ <= 3 }

  predicate IsText(typ: u8) { typ == 7 || typ == 8 || typ == 9 || typ == 12 || typ == 13 }

  predicate IsGrouped(typ: u8) { 14 <= typ <= 18 }

  /** The value stored behind the `void *` of the encoder is of the type's own kind. */
  predicate KindOk(typ: u8, v: Value) {
    if IsNumeric(typ) || IsGrouped(typ) then v.Number?
    else if typ == 4 then v.Priority?
    else if typ == 5 then v.ReqStatus?
    else if typ == 6 then v.ErrCode?
    else if IsText(typ) then v.Text?
    else if typ == 10 then v.SupAttrs?
    else if typ == 11 then v.SupPrims?
    else v.Opaque?
  }

  function Shifted(codes: seq<u8>): (r: seq<u8>)
    ensures |r| == |codes|
  {
    seq(|codes|, i requires 0 <= i < |codes| => var c: int := codes[i]; Low8(2 * c))
  }

  function Unshifted(bytes: seq<u8>): (r: seq<u8>)
    ensures |r| == |bytes|
  {
    seq(|bytes|, i requires 0 <= i < |bytes| => bytes[i] / 2)
  }

  /** The bytes attr_encode writes between the header and the padding. */
  function Payload(v: Value): seq<u8> {
    match v
    case Number(n) => BytesOfU16(n)
    case Priority(l) => [(l * 32) % 0x100, 0]
    case ReqStatus(s, q) => [s, q]
    case ErrCode(c, d) => [c] + d
    case Text(s) => s
    case SupAttrs(a) => Shifted(a)
    case SupPrims(p) => p
    case Opaque => []
  }

  function TypeByte(a: Attr): u8 {
    Low8(2 * a.typ) + (if a.mand then 1 else 0)
  }

  /** An attribute on its own, without its sub-attributes: header, value, padding. */
  function Head(a: Attr): (b: seq<u8>)
    ensures |b| >= 2 && |b| % 4 == 0
  {
    var len := BFCP_ATTR_HDR_SIZE + |Payload(a.v)|;
    [TypeByte(a), len % 0x100] + Payload(a.v) + Zeros(PadLen(len))
  }

  /** The second byte of a group replaced by the length of the whole. */
  function WithLength(body: seq<u8>): (b: seq<u8>)
    requires |body| >= 2
    ensures |b| == |body|
  {
    body[1 := |body| % 0x100]
  }

  /** The wire form of an attribute tree; the length of a group covers its padded children. */
  function Enc(a: Attr): (b: seq<u8>)
    ensures |b| >= 2
    decreases a, 0
  {
    if a.subs == [] then Head(a)
    else
      WithLength(Head(a) + EncAll(a.subs))
  }

  function EncAll(attrs: seq<Attr>): seq<u8>
    decreases attrs
  {
    if attrs == [] then [] else Enc(attrs[0]) + EncAll(attrs[1..])
  }

  lemma NoAttrs()
    ensures EncAll([]) == []
  {
  }

  lemma FirstAttr(attrs: seq<Attr>)
    requires attrs != []
    ensures EncAll(attrs) == Enc(attrs[0]) + EncAll(attrs[1..])
  {
  }

  /** Every attribute, and so every list of them, fills whole 32-bit words. */
  lemma {:induction false} EncWords(a: Attr)
    ensures |Enc(a)| % 4 == 0
    decreases a, 0
  {
    hide EncAll, Payload, Head;
    EncAllWords(a.subs);
    SumOfWords(|Head(a)|, |EncAll(a.subs)|);
  }

  lemma {:induction false} EncAllWords(attrs: seq<Attr>)
    ensures |EncAll(attrs)| % 4 == 0
    decreases attrs
  {
    hide Enc, EncAll;
    NoAttrs();
    if attrs != [] {
      EncWords(attrs[0]);
      EncAllWords(attrs[1..]);
      FirstAttr(attrs);
      SumOfWords(|Enc(attrs[0])|, |EncAll(attrs[1..])|);
    }
  }

  // ---------------------------------------------------------------- decoder, as a function of the bytes

  datatype AttrResult = BadAttr(err: Error) | GotAttr(attr: Attr, pos: nat, uma: seq<u8>)
  datatype AttrsResult = BadAttrs(error: Error) | GotAttrs(attrs: seq<Attr>, next: nat, umas: seq<u8>)

  /** Position after the padding loop of attr_decode, which stops at the end mark. */
  function SkipPad(start: nat, pos: nat, end: nat): (p: nat)
    requires start <= pos <= end
    ensures pos <= p <= end
  {
    Min(end, pos + PadLen(pos - start))
  }

  function DecAttr(b: seq<u8>, pos: nat, end: nat, uma: seq<u8>): (r: AttrResult)
    requires end <= |b|
    ensures r.GotAttr? ==> pos + 2 <= r.pos <= end
    decreases if end >= pos then end - pos else 0, 0
  {
    if end < pos + BFCP_ATTR_HDR_SIZE then BadAttr(EBADMSG)
    else
      var typ := b[pos] / 2;
      var mand := b[pos] % 2 == 1;
      if b[pos + 1] < BFCP_ATTR_HDR_SIZE then BadAttr(EBADMSG)
      else
        var len := b[pos + 1] - BFCP_ATTR_HDR_SIZE;
        var p := pos + 2;
        if end - p < len then BadAttr(EBADMSG)
        else if IsGrouped(typ) then
          if len < 2 then BadAttr(EBADMSG)
          else
            match DecAll(b, p + 2, p + len, uma)
            case BadAttrs(e) => BadAttr(e)
            case GotAttrs(subs, q, uma') =>
              GotAttr(Attr(typ, mand, Number(U16OfBytes(b[p..p + 2])), subs), SkipPad(pos, q, end), uma')
        else
          match DecValue(typ, b[p..p + len])
          case None => BadAttr(EBADMSG)
          case Some(v) =>
            var used := if v.Number? || v.Priority? || v.ReqStatus? then 2 else len;
            var uma' := if v.Opaque? && mand && |uma| < UNKNOWN_MAX then uma + [typ * 2] else uma;
            GotAttr(Attr(typ, mand, v, []), SkipPad(pos, p + used, end), uma')
  }

  /** The value cases of attr_decode; None stands for a field too short for its type. */
  function DecValue(typ: u8, f: seq<u8>): (v: Option<Value>)
    ensures v.Some? && (v.value.Number? || v.value.Priority? || v.value.ReqStatus?) ==> |f| >= 2
  {
    if IsNumeric(typ) then (if |f| < 2 then None else Some(Number(U16OfBytes(f[..2]))))
    else if typ == 4 then (if |f| < 2 then None else Some(Priority(f[0] / 32)))
    else if typ == 5 then (if |f| < 2 then None else Some(ReqStatus(f[0], f[1])))
    else if typ == 6 then (if |f| < 1 then None else Some(ErrCode(f[0], f[1..])))
    else if IsText(typ) then Some(Text(f))
    else if typ == 10 then Some(SupAttrs(Unshifted(f)))
    else if typ == 11 then Some(SupPrims(f))
    else Some(Opaque)
  }

  /** bfcp_attrs_decode on the bytes between `pos` and `end`. */
  function DecAll(b: seq<u8>, pos: nat, end: nat, uma: seq<u8>): (r: AttrsResult)
    requires end <= |b|
    ensures r.GotAttrs? && pos <= end ==> pos <= r.next <= end
    decreases if end >= pos then end - pos else 0, 1
  {
    if end < pos + BFCP_ATTR_HDR_SIZE then GotAttrs([], pos, uma)
    else
      match DecAttr(b, pos, end, uma)
      case BadAttr(e) => BadAttrs(e)
      case GotAttr(a, q, uma') =>
        match DecAll(b, q, end, uma')
        case BadAttrs(e) => BadAttrs(e)
        case GotAttrs(rest, q', uma'') => GotAttrs([a] + rest, q', uma'')
  }

  // ---------------------------------------------------------------- round trip

  /** Field ranges of the C types and enumerations behind each value. */
  predicate ValueOk(v: Value) {
    match v
    case Priority(l) => l < 8
    case Text(s) => 0 !in s
    case SupAttrs(a) => forall i :: 0 <= i < |a| ==> a[i] < 0x80
    case _ => true
  }

  /** A tree the format can carry: known types, one-byte lengths, children only below groups. */
  predicate Encodable(a: Attr)
    decreases a, 0
  {
    && 1 <= a.typ <= 18 && KindOk(a.typ, a.v) && ValueOk(a.v)
    && (if a.subs == [] then 2 + |Payload(a.v)| < 0x100 else IsGrouped(a.typ) && |Enc(a)| < 0x100)
    && AllEncodable(a.subs)
  }

  predicate AllEncodable(attrs: seq<Attr>)
    decreases attrs
  {
    attrs == [] || (Encodable(attrs[0]) && AllEncodable(attrs[1..]))
  }

  lemma ValueRoundTrip(typ: u8, v: Value)
    requires 1 <= typ <= 13 && KindOk(typ, v) && ValueOk(v)
    ensures DecValue(typ, Payload(v)) == Some(v)
  {
    var f := Payload(v);
    match v
    case Number(n) => assert f[..2] == f; U16RoundTrip(n);
    case SupAttrs(a) => assert Unshifted(Shifted(a)) == a;
    case _ =>
  }

  /** Wherever the bytes of an encodable list stand, decoding them gives the list back. */
  lemma {:induction false} AttrsRoundTrip(b: seq<u8>, pos: nat, attrs: seq<Attr>, uma: seq<u8>)
    requires AllEncodable(attrs)
    requires pos + |EncAll(attrs)| <= |b| && b[pos..pos + |EncAll(attrs)|] == EncAll(attrs)
    ensures DecAll(b, pos, pos + |EncAll(attrs)|, uma) == GotAttrs(attrs, pos + |EncAll(attrs)|, uma)
    decreases attrs
  {
    hide DecAttr, Enc, EncAll, Encodable;
    NoAttrs();
    if attrs != [] {
      FirstAttr(attrs);
      var a, rest := attrs[0], attrs[1..];
      var mid := pos + |Enc(a)|;
      var end := pos + |EncAll(attrs)|;
      assert b[pos..mid] == b[pos..end][..|Enc(a)|] == Enc(a);
      assert b[mid..end] == b[pos..end][|Enc(a)|..] == EncAll(rest);
      AttrRoundTrip(b, pos, end, a, uma);
      AttrsRoundTrip(b, mid, rest, uma);
    }
  }

  /** The first bytes of an attribute on the wire: type and flag, length, value. */
  lemma EncFront(a: Attr)
    requires Encodable(a)
    ensures |Enc(a)| >= 2 + |Payload(a.v)|
    ensures Enc(a)[0] / 2 == a.typ && (Enc(a)[0] % 2 == 1 <==> a.mand)
    ensures Enc(a)[1] == if a.subs == [] then 2 + |Payload(a.v)| else |Enc(a)|
    ensures Enc(a)[2..2 + |Payload(a.v)|] == Payload(a.v)
  {
    hide EncAll;
    var head, n := Head(a), |Payload(a.v)|;
    assert head[2..2 + n] == Payload(a.v);
    if a.subs != [] {
      assert Enc(a)[2..2 + n] == head[2..2 + n];
    }
  }

  lemma PlainLength(a: Attr)
    requires Encodable(a) && !IsGrouped(a.typ)
    ensures a.subs == [] && |Enc(a)| == 2 + |Payload(a.v)| + PadLen(2 + |Payload(a.v)|)
  {
  }

  lemma PlainRoundTrip(b: seq<u8>, pos: nat, end: nat, a: Attr, uma: seq<u8>)
    requires Encodable(a) && !IsGrouped(a.typ)
    requires pos + |Enc(a)| <= end <= |b| && b[pos..pos + |Enc(a)|] == Enc(a)
    ensures DecAttr(b, pos, end, uma) == GotAttr(a, pos + |Enc(a)|, uma)
  {
    hide DecAll, DecValue, Enc;
    var e, n := Enc(a), |Payload(a.v)|;
    EncFront(a);
    SliceOfSlice(b, pos, pos + |e|, 2, 2 + n);
    assert b[pos] == b[pos..pos + |e|][0] && b[pos + 1] == b[pos..pos + |e|][1];
    ValueRoundTrip(a.typ, a.v);
    PlainLength(a);
  }

  lemma {:induction false} AttrRoundTrip(b: seq<u8>, pos: nat, end: nat, a: Attr, uma: seq<u8>)
    requires Encodable(a)
    requires pos + |Enc(a)| <= end <= |b| && b[pos..pos + |Enc(a)|] == Enc(a)
    ensures DecAttr(b, pos, end, uma) == GotAttr(a, pos + |Enc(a)|, uma)
    decreases a
  {
    hide DecAttr, DecAll, DecValue, Enc, EncAll;
    if IsGrouped(a.typ) {
      var e := Enc(a);
      GroupTail(a);
      EncWords(a);
      SliceOfSlice(b, pos, pos + |e|, 4, |e|);
      AttrsRoundTrip(b, pos + 4, a.subs, uma);
      GroupRead(b, pos, end, a, uma);
    } else {
      PlainRoundTrip(b, pos, end, a, uma);
    }
  }

  /** A grouped attribute, once its parts are known to decode. */
  lemma GroupRead(b: seq<u8>, pos: nat, end: nat, a: Attr, uma: seq<u8>)
    requires Encodable(a) && IsGrouped(a.typ)
    requires pos + |Enc(a)| <= end <= |b| && b[pos..pos + |Enc(a)|] == Enc(a) && |Enc(a)| % 4 == 0
    requires |Enc(a)| == 4 + |EncAll(a.subs)|
    requires DecAll(b, pos + 4, pos + |Enc(a)|, uma) == GotAttrs(a.subs, pos + |Enc(a)|, uma)
    ensures DecAttr(b, pos, end, uma) == GotAttr(a, pos + |Enc(a)|, uma)
  {
    hide DecAll, DecValue, Enc, EncAll;
    var e := Enc(a);
    EncFront(a);
    SliceOfSlice(b, pos, pos + |e|, 2, 4);
    assert b[pos] == b[pos..pos + |e|][0] && b[pos + 1] == b[pos..pos + |e|][1];
    U16RoundTrip(a.v.n);
    if a.subs == [] { NoAttrs(); }
  }

  lemma GroupTail(a: Attr)
    requires Encodable(a) && IsGrouped(a.typ)
    ensures |Enc(a)| == 4 + |EncAll(a.subs)| && Enc(a)[4..] == EncAll(a.subs)
  {
    hide EncAll;
    assert |Head(a)| == 4;
    if a.subs == [] { assert EncAll([]) == [] by { NoAttrs(); } }
  }

  // ---------------------------------------------------------------- alignment

  /** The attribute a path of child indices leads to. */
  predicate IsPath(attrs: seq<Attr>, path: seq<nat>)
    decreases |path|
  {
    |path| > 0 && path[0] < |attrs| && (|path| > 1 ==> IsPath(attrs[path[0]].subs, path[1..]))
  }

  function At(attrs: seq<Attr>, path: seq<nat>): Attr
    requires IsPath(attrs, path)
    decreases |path|
  {
    if |path| == 1 then attrs[path[0]] else At(attrs[path[0]].subs, path[1..])
  }

  /** Offset of that attribute in the encoding of the list: what precedes it, plus four bytes per enclosing group. */
  function OffsetOf(attrs: seq<Attr>, path: seq<nat>): nat
    requires IsPath(attrs, path)
    decreases |path|
  {
    |EncAll(attrs[..path[0]])| + (if |path| == 1 then 0 else 4 + OffsetOf(attrs[path[0]].subs, path[1..]))
  }

  lemma {:induction false} EncAllAppend(x: seq<Attr>, y: seq<Attr>)
    ensures EncAll(x + y) == EncAll(x) + EncAll(y)
  {
    hide Enc, EncAll;
    if x == [] {
      NoAttrs();
      assert x + y == y;
    } else {
      var t := x[1..];
      EncAllAppend(t, y);
      FirstAttr(x);
      FirstAttr(x + y);
      assert (x + y)[0] == x[0] && (x + y)[1..] == t + y;
      assert Enc(x[0]) + (EncAll(t) + EncAll(y)) == (Enc(x[0]) + EncAll(t)) + EncAll(y);
    }
  }

  lemma OneAttr(a: Attr)
    ensures EncAll([a]) == Enc(a)
  {
    hide Enc, EncAll;
    FirstAttr([a]);
    NoAttrs();
    assert [a][1..] == [] && Enc(a) + [] == Enc(a);
  }

  lemma EncAllNext(attrs: seq<Attr>, i: nat)
    requires i < |attrs|
    ensures EncAll(attrs[..i + 1]) == EncAll(attrs[..i]) + Enc(attrs[i])
  {
    hide Enc, EncAll;
    OneAttr(attrs[i]);
    EncAllAppend(attrs[..i], [attrs[i]]);
    assert attrs[..i + 1] == attrs[..i] + [attrs[i]];
  }

  lemma EncAllAround(attrs: seq<Attr>, i: nat)
    requires i < |attrs|
    ensures OccursAt(EncAll(attrs), |EncAll(attrs[..i])|, Enc(attrs[i]))
  {
    hide Enc, EncAll;
    EncAllNext(attrs, i);
    EncAllAppend(attrs[..i + 1], attrs[i + 1..]);
    assert attrs == attrs[..i + 1] + attrs[i + 1..];
  }

  lemma EncodableAt(attrs: seq<Attr>, i: nat)
    requires AllEncodable(attrs) && i < |attrs|
    ensures Encodable(attrs[i])
    decreases i
  {
    hide Encodable;
    if i > 0 { EncodableAt(attrs[1..], i - 1); }
  }

  /** Every attribute, at any depth, stands whole at a multiple of four from the start of the list. */
  lemma {:induction false} AttrsAligned(attrs: seq<Attr>, path: seq<nat>)
    requires AllEncodable(attrs) && IsPath(attrs, path)
    ensures OffsetOf(attrs, path) % 4 == 0
    ensures OccursAt(EncAll(attrs), OffsetOf(attrs, path), Enc(At(attrs, path)))
    decreases |path|
  {
    hide Enc, EncAll, Encodable, AllEncodable;
    EncAllWords(attrs[..path[0]]);
    var a, pre := attrs[path[0]], EncAll(attrs[..path[0]]);
    EncAllAround(attrs, path[0]);
    EncodableAt(attrs, path[0]);
    if |path| > 1 {
      Grouped(a);
      AttrsAligned(a.subs, path[1..]);
      GroupTail(a);
      var o, e := OffsetOf(a.subs, path[1..]), Enc(At(a.subs, path[1..]));
      OccursTransitive(Enc(a), 4, EncAll(a.subs), o, e);
      OccursTransitive(EncAll(attrs), |pre|, Enc(a), 4 + o, e);
    }
  }

  lemma Grouped(a: Attr)
    requires Encodable(a) && a.subs != []
    ensures IsGrouped(a.typ) && AllEncodable(a.subs)
  {
  }

  // ---------------------------------------------------------------- messages

  datatype Msg = Msg(ver: u8, r: bool, prim: u8, len: u16, confid: u32, tid: u16, userid: u16,
                     attrs: seq<Attr>, uma: seq<u8>)

  datatype MsgResult = BadMsg(err: Error) | GotMsg(msg: Msg, pos: nat)

  function Hdr(ver: u8, r: bool, prim: u8, len: u16, confid: u32, tid: u16, userid: u16): (h: seq<u8>)
    ensures |h| == BFCP_HDR_SIZE
  {
    var v: int := ver;
    [Low8(32 * v + (if r then 16 else 0)), prim] + BytesOfU16(len) + BytesOfU32(confid)
    + BytesOfU16(tid) + BytesOfU16(userid)
  }

  /** The wire form of a message; the length field counts 32-bit words behind the header. */
  function EncMsg(m: Msg): seq<u8> {
    Hdr(m.ver, m.r, m.prim, (|EncAll(m.attrs)| / 4) % TWO16, m.confid, m.tid, m.userid) + EncAll(m.attrs)
  }

  /** hdr_decode: the fields, or the reason to give up. */
  function DecHdr(b: seq<u8>, pos: nat, end: nat): (r: MsgResult)
    requires pos <= end <= |b|
    ensures r.GotMsg? ==> r.pos == pos + BFCP_HDR_SIZE && r.pos + 4 * r.msg.len <= end
  {
    if end - pos < BFCP_HDR_SIZE then BadMsg(ENODATA)
    else
      var ver, f := b[pos] / 32, b[pos] / 8 % 2 == 1;
      var len := U16OfBytes(b[pos + 2..pos + 4]);
      if ver != 1 && ver != 2 then BadMsg(EBADMSG)
      else if f then BadMsg(ENOSYS)
      else if end - (pos + BFCP_HDR_SIZE) < 4 * len then BadMsg(ENODATA)
      else
        GotMsg(Msg(ver, b[pos] / 16 % 2 == 1, b[pos + 1], len, U32OfBytes(b[pos + 4..pos + 8]),
                   U16OfBytes(b[pos + 8..pos + 10]), U16OfBytes(b[pos + 10..pos + 12]), [], []),
               pos + BFCP_HDR_SIZE)
  }

  function DecMsg(b: seq<u8>, pos: nat, end: nat): (r: MsgResult)
    requires pos <= end <= |b|
  {
    match DecHdr(b, pos, end)
    case BadMsg(e) => BadMsg(e)
    case GotMsg(m, p) =>
      match DecAll(b, p, p + 4 * m.len, [])
      case BadAttrs(e) => BadMsg(e)
      case GotAttrs(attrs, q, u) => GotMsg(m.(attrs := attrs, uma := u), q)
  }

  /** A message the format can carry: a supported version and a body the 16-bit length can count. */
  predicate EncodableMsg(m: Msg) {
    && (m.ver == 1 || m.ver == 2) && AllEncodable(m.attrs) && m.uma == []
    && m.len == |EncAll(m.attrs)| / 4
  }

  lemma HdrRoundTrip(b: seq<u8>, pos: nat, end: nat, m: Msg)
    requires m.ver == 1 || m.ver == 2
    requires pos + BFCP_HDR_SIZE + 4 * m.len <= end <= |b|
    requires b[pos..pos + BFCP_HDR_SIZE] == Hdr(m.ver, m.r, m.prim, m.len, m.confid, m.tid, m.userid)
    ensures DecHdr(b, pos, end) == GotMsg(m.(attrs := [], uma := []), pos + BFCP_HDR_SIZE)
  {
    var h := Hdr(m.ver, m.r, m.prim, m.len, m.confid, m.tid, m.userid);
    assert b[pos] == b[pos..pos + BFCP_HDR_SIZE][0] && b[pos + 1] == b[pos..pos + BFCP_HDR_SIZE][1];
    SliceOfSlice(b, pos, pos + 12, 2, 4);
    SliceOfSlice(b, pos, pos + 12, 4, 8);
    SliceOfSlice(b, pos, pos + 12, 8, 10);
    SliceOfSlice(b, pos, pos + 12, 10, 12);
    assert h[2..4] == BytesOfU16(m.len) && h[4..8] == BytesOfU32(m.confid);
    assert h[8..10] == BytesOfU16(m.tid) && h[10..12] == BytesOfU16(m.userid);
    U16RoundTrip(m.len);
    U32RoundTrip(m.confid);
    U16RoundTrip(m.tid);
    U16RoundTrip(m.userid);
  }

  /** Decoding an encoded message returns its header fields and its attribute tree, wherever it stands. */
  lemma MsgRoundTrip(b: seq<u8>, pos: nat, end: nat, m: Msg)
    requires EncodableMsg(m)
    requires pos + |EncMsg(m)| <= end <= |b| && b[pos..pos + |EncMsg(m)|] == EncMsg(m)
    ensures DecMsg(b, pos, end) == GotMsg(m, pos + |EncMsg(m)|)
  {
    hide DecHdr, Hdr, EncAll, DecAll, AllEncodable;
    var e, body := EncMsg(m), EncAll(m.attrs);
    var p := pos + BFCP_HDR_SIZE;
    SliceOfSlice(b, pos, pos + |e|, 0, BFCP_HDR_SIZE);
    SliceOfSlice(b, pos, pos + |e|, BFCP_HDR_SIZE, |e|);
    assert e[BFCP_HDR_SIZE..] == body && e[0..BFCP_HDR_SIZE] == Hdr(m.ver, m.r, m.prim, m.len, m.confid, m.tid, m.userid);
    HdrRoundTrip(b, pos, end, m);
    EncAllWords(m.attrs);
    AttrsRoundTrip(b, p, m.attrs, []);
  }
}
