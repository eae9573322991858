/** Text forms of IPv4 and IPv6 addresses and what their parsers read. */
module InetText {
  import opened Base
  import opened NumberText

  // ---------------------------------------------------------------- printed forms

  function Hex(w: u16): string { Digits(w, 16) }

  function Dec(b: u8): string { Digits(b, 10) }

  function Text4(b: seq<u8>): string
    requires |b| == 4
  {
    Dec(b[0]) + "." + Dec(b[1]) + "." + Dec(b[2]) + "." + Dec(b[3])
  }

  /** Hexadecimal groups separated by colons. */
  function Groups(ws: seq<u16>): string {
    if ws == [] then ""
    else Groups(ws[..|ws| - 1]) + (if |ws| == 1 then "" else ":") + Hex(ws[|ws| - 1])
  }

  /** The sixteen bytes of an address as eight 16-bit words. */
  function Words(src: seq<u8>): (ws: seq<u16>)
    requires |src| == 16
    ensures |ws| == 8
  {
    seq(8, i requires 0 <= i < 8 => U16OfBytes(src[2 * i..2 * i + 2]))
  }

  function Bytes(ws: seq<u16>): (b: seq<u8>)
    ensures |b| == 2 * |ws|
  {
    if ws == [] then [] else Bytes(ws[..|ws| - 1]) + BytesOfU16(ws[|ws| - 1])
  }

  /** A stretch of words; base -1 stands for none. */
  datatype Run = Run(base: int, len: nat)

  predicate ZeroRun(ws: seq<u16>, b: int, l: nat) {
    0 <= b && b + l <= |ws| && forall k :: b <= k < b + l ==> ws[k] == 0
  }

  /** The first of the longest runs of at least two zero words, if there is one. */
  ghost predicate IsBest(ws: seq<u16>, run: Run) {
    if run.base == -1 then forall b: nat, l: nat :: ZeroRun(ws, b, l) ==> l < 2
    else
      && run.len >= 2 && ZeroRun(ws, run.base, run.len)
      && forall b: nat, l: nat :: ZeroRun(ws, b, l) ==> l <= run.len && (l == run.len ==> run.base <= b)
  }

  lemma BestIsUnique(ws: seq<u16>, r1: Run, r2: Run)
    requires IsBest(ws, r1) && IsBest(ws, r2)
    ensures r1.base == r2.base && (r1.base != -1 ==> r1 == r2)
  {
  }

  /** IPv4-compatible and IPv4-mapped addresses are written with a dotted tail. */
  predicate Embedded(ws: seq<u16>, run: Run)
    requires |ws| == 8
  {
    run.base == 0 && (run.len == 6 || (run.len == 5 && ws[5] == 0xffff))
  }

  /** The text of an address whose longest zero run is `run`: section 2.2 of RFC 4291. */
  function Text6(src: seq<u8>, run: Run): string
    requires |src| == 16 && (run.base == -1 || ZeroRun(Words(src), run.base, run.len))
  {
    var ws := Words(src);
    if run.base == -1 then Groups(ws)
    else if Embedded(ws, run) then "::" + (if run.len == 6 then "" else "ffff:") + Text4(src[12..])
    else Groups(ws[..run.base]) + "::" + Groups(ws[run.base + run.len..])
  }

  // ---------------------------------------------------------------- inet_pton4

  /** What the parser holds: the bytes written so far, the last of them still growing. */
  datatype Quad = Quad(b: seq<u8>, octets: nat, sawDigit: bool)

  predicate QuadOk(q: Quad) {
    1 <= |q.b| <= 4 && |q.b| == q.octets + (if q.sawDigit then 0 else 1)
  }

  function QuadStep(q: Quad, ch: char): (r: Option<Quad>)
    requires QuadOk(q)
    ensures r.Some? ==> QuadOk(r.value)
  {
    var cur: int := q.b[|q.b| - 1];
    if '0' <= ch <= '9' then
      var newVal := cur * 10 + (ch - '0') as int;
      if newVal > 255 then None
      else Some(Quad(q.b[|q.b| - 1 := newVal], if q.sawDigit then q.octets else q.octets + 1, true))
    else if ch == '.' && q.sawDigit then
      if q.octets == 4 then None else Some(Quad(q.b + [0], q.octets, false))
    else None
  }

  function Scan4(s: string, q: Quad): (r: Option<seq<u8>>)
    requires QuadOk(q)
    ensures r.Some? ==> |r.value| == 4
  {
    if s == "" then (if q.octets < 4 then None else Some(q.b))
    else
      match QuadStep(q, s[0])
      case None => None
      case Some(q') => Scan4(s[1..], q')
  }

  const QUAD0: Quad := Quad([0], 0, false)

  /** A dotted quad, or None when the text is not one. */
  function Parse4(s: string): (r: Option<seq<u8>>)
    ensures r.Some? ==> |r.value| == 4
  {
    Scan4(s, QUAD0)
  }

  lemma Scan4Next(s: string, q: Quad)
    requires QuadOk(q) && s != "" && QuadStep(q, s[0]).Some?
    ensures Scan4(s, q) == Scan4(s[1..], QuadStep(q, s[0]).value)
  {
  }

  /** Reading the decimal digits of a byte. */
  lemma {:induction false} Scan4Digits(d: string, v: u8, rest: string, q: Quad)
    requires d != "" && Value(d, 10) == Some(v)
    requires QuadOk(q) && !q.sawDigit && q.b[|q.b| - 1] == 0 && q.octets < 4
    ensures Scan4(d + rest, q) == Scan4(rest, Quad(q.b[|q.b| - 1 := v], q.octets + 1, true))
  {
    hide QuadStep, Scan4;
    var front, c := d[..|d| - 1], d[|d| - 1];
    assert d + rest == front + ([c] + rest);
    var w := LastOf(d, v);
    var q1 := if front == "" then q else Quad(q.b[|q.b| - 1 := w], q.octets + 1, true);
    if front != "" {
      Scan4Digits(front, w, [c] + rest, q);
    } else {
      assert front + ([c] + rest) == [c] + rest;
    }
    assert ([c] + rest)[1..] == rest;
    DigitStep(q1, c, w, v);
    Scan4Next([c] + rest, q1);
    assert front != "" ==> q1.b[|q.b| - 1 := v] == q.b[|q.b| - 1 := v];
  }

  /** The value of all digits but the last. */
  lemma LastOf(d: string, v: nat) returns (w: nat)
    requires d != "" && Value(d, 10) == Some(v)
    ensures Value(d[..|d| - 1], 10) == Some(w) && w <= v
    ensures '0' <= d[|d| - 1] <= '9' && v == 10 * w + (d[|d| - 1] - '0') as int
    ensures |d| == 1 ==> w == 0
  {
    w := Value(d[..|d| - 1], 10).value;
  }

  lemma DigitStep(q: Quad, c: char, w: int, v: u8)
    requires QuadOk(q) && q.b[|q.b| - 1] == w && '0' <= c <= '9' && v == 10 * w + (c - '0') as int
    requires q.octets + (if q.sawDigit then 0 else 1) <= 4
    ensures QuadStep(q, c) == Some(Quad(q.b[|q.b| - 1 := v], if q.sawDigit then q.octets else q.octets + 1, true))
  {
  }

  lemma DotStep(q: Quad)
    requires QuadOk(q) && q.sawDigit && q.octets < 4
    ensures QuadStep(q, '.') == Some(Quad(q.b + [0], q.octets, false))
  {
  }

  /** One number of the quad, with the dot behind it. */
  lemma Scan4Part(v: u8, rest: string, b: seq<u8>)
    requires |b| < 3
    ensures Scan4(Dec(v) + ("." + rest), Quad(b + [0], |b|, false)) == Scan4(rest, Quad(b + [v] + [0], |b| + 1, false))
  {
    hide QuadStep, Scan4, Digits, Value;
    DigitsRoundTrip(v, 10);
    Scan4Digits(Dec(v), v, "." + rest, Quad(b + [0], |b|, false));
    assert (b + [0])[|b| := v] == b + [v];
    var q := Quad(b + [v], |b| + 1, true);
    DotStep(q);
    assert ("." + rest)[0] == '.' && ("." + rest)[1..] == rest;
    Scan4Next("." + rest, q);
  }

  /** Every dotted quad parses back to its bytes. */
  lemma Text4RoundTrip(b: seq<u8>)
    requires |b| == 4
    ensures Parse4(Text4(b)) == Some(b)
  {
    hide QuadStep, Scan4, Digits, Value;
    var t3 := Dec(b[3]);
    var t2 := Dec(b[2]) + ("." + t3);
    var t1 := Dec(b[1]) + ("." + t2);
    assert Text4(b) == Dec(b[0]) + ("." + t1);
    assert QUAD0 == Quad([] + [0], 0, false);
    Scan4Part(b[0], t1, []);
    assert [] + [b[0]] == [b[0]];
    Scan4Part(b[1], t2, [b[0]]);
    assert [b[0]] + [b[1]] == [b[0], b[1]];
    Scan4Part(b[2], t3, [b[0], b[1]]);
    var q := Quad([b[0], b[1], b[2]] + [0], 3, false);
    assert [b[0], b[1]] + [b[2]] == [b[0], b[1], b[2]];
    DigitsRoundTrip(b[3], 10);
    assert t3 + "" == t3;
    Scan4Digits(t3, b[3], "", q);
    assert q.b[3 := b[3]] == b;
    Scan4Done(b);
  }

  lemma Scan4Done(b: seq<u8>)
    requires |b| == 4
    ensures Scan4("", Quad(b, 4, true)) == Some(b)
  {
  }

  // ---------------------------------------------------------------- inet_pton6

  /** What the parser holds: bytes written, where `::` was seen, the group being read and where it started. */
  datatype Parser = Parser(out: seq<u8>, colon: Option<nat>, val: nat, sawHex: bool, tok: nat)

  predicate ParserOk(p: Parser) {
    |p.out| <= 16 && p.val < TWO16 && (p.colon.Some? ==> p.colon.value <= |p.out|)
  }

  /** The main loop from index `i` on; None is a rejection. */
  function Scan6(s: string, i: nat, p: Parser): (r: Option<Parser>)
    requires i <= |s| && p.tok <= i && ParserOk(p)
    ensures r.Some? ==> ParserOk(r.value)
    decreases |s| - i
  {
    if i == |s| then Some(p)
    else
      match DigitValue(s[i])
      case Some(d) =>
        if 16 * p.val + d > 0xffff then None
        else Scan6(s, i + 1, p.(val := 16 * p.val + d, sawHex := true))
      case None =>
        if s[i] == ':' then
          if !p.sawHex then
            if p.colon.Some? then None
            else Scan6(s, i + 1, p.(colon := Some(|p.out|), tok := i + 1))
          else if |p.out| + 2 > 16 then None
          else Scan6(s, i + 1, Parser(p.out + BytesOfU16(p.val), p.colon, 0, false, i + 1))
        else if s[i] == '.' && |p.out| + 4 <= 16 then
          match Parse4(s[p.tok..])
          case Some(b) => Some(p.(out := p.out + b, sawHex := false))
          case None => None
        else None
  }

  /**
   * What the shift by hand makes of the bytes written: those behind `::` move to the end of the address.
   * When all sixteen bytes were written there is nowhere to move them, and they are cleared instead.
   */
  function Shifted(out: seq<u8>, c: nat): (b: seq<u8>)
    requires c <= |out| <= 16
    ensures |b| == 16
  {
    if |out| < 16 then out[..c] + Zeros(16 - |out|) + out[c..] else out[..c] + Zeros(16 - c)
  }

  function Finish(p: Parser): (r: Option<seq<u8>>)
    requires ParserOk(p)
    ensures r.Some? ==> |r.value| == 16
  {
    if p.sawHex && |p.out| + 2 > 16 then None
    else
      var out := if p.sawHex then p.out + BytesOfU16(p.val) else p.out;
      if p.colon.Some? then Some(Shifted(out, p.colon.value))
      else if |out| == 16 then Some(out) else None
  }

  function Fresh(out: seq<u8>, colon: Option<nat>, i: nat): Parser { Parser(out, colon, 0, false, i) }

  /** A leading colon has to be followed by a second one, and only that one is scanned. */
  function Scanned(s: string): (r: Option<Parser>)
    ensures r.Some? ==> ParserOk(r.value)
  {
    if |s| > 0 && s[0] == ':' && !(|s| > 1 && s[1] == ':') then None
    else
      var start := if |s| > 0 && s[0] == ':' then 1 else 0;
      Scan6(s, start, Fresh([], None, start))
  }

  function Parse6(s: string): (r: Option<seq<u8>>)
    ensures r.Some? ==> |r.value| == 16
  {
    match Scanned(s)
    case None => None
    case Some(p) => Finish(p)
  }

  /** The bytes the text spells out, with the group still pending at its end. */
  function Written(p: Parser): seq<u8>
    requires ParserOk(p)
  {
    if p.sawHex then p.out + BytesOfU16(p.val) else p.out
  }

  lemma Scan6Hex(s: string, i: nat, p: Parser, d: nat)
    requires i < |s| && p.tok <= i && ParserOk(p) && DigitValue(s[i]) == Some(d) && 16 * p.val + d < TWO16
    ensures Scan6(s, i, p) == Scan6(s, i + 1, p.(val := 16 * p.val + d, sawHex := true))
  {
  }

  lemma Scan6Push(s: string, i: nat, p: Parser)
    requires i < |s| && p.tok <= i && ParserOk(p) && s[i] == ':' && p.sawHex && |p.out| <= 14
    ensures Scan6(s, i, p) == Scan6(s, i + 1, Fresh(p.out + BytesOfU16(p.val), p.colon, i + 1))
  {
  }

  lemma Scan6Colon(s: string, i: nat, out: seq<u8>)
    requires i < |s| && s[i] == ':' && |out| <= 16
    ensures Scan6(s, i, Fresh(out, None, i)) == Scan6(s, i + 1, Fresh(out, Some(|out|), i + 1))
  {
  }

  lemma Scan6Dot(s: string, i: nat, p: Parser)
    requires i < |s| && p.tok <= i && ParserOk(p) && s[i] == '.' && |p.out| <= 12 && Parse4(s[p.tok..]).Some?
    ensures Scan6(s, i, p) == Some(p.(out := p.out + Parse4(s[p.tok..]).value, sawHex := false))
  {
  }

  lemma Scan6End(s: string, p: Parser)
    requires p.tok <= |s| && ParserOk(p)
    ensures Scan6(s, |s|, p) == Some(p)
  {
  }

  /** All but the last digit of a number in base 16. */
  lemma HexLastOf(d: string, v: nat, base: nat) returns (w: nat, c: nat)
    requires IsBase(base) && d != "" && Value(d, base) == Some(v)
    ensures Value(d[..|d| - 1], base) == Some(w) && w <= v
    ensures DigitValue(d[|d| - 1]) == Some(c) && c < base && v == (if base == 10 then 10 * w + c else 16 * w + c)
  {
    w := Value(d[..|d| - 1], base).value;
    c := DigitValue(d[|d| - 1]).value;
  }

  /** Reading a group of hexadecimal digits. */
  lemma {:induction false} Scan6Group(s: string, i: nat, d: string, v: u16, p: Parser)
    requires OccursAt(s, i, d) && Value(d, 16) == Some(v)
    requires p.tok <= i && ParserOk(p) && p.val == 0 && !p.sawHex
    ensures Scan6(s, i, p) == Scan6(s, i + |d|, p.(val := v, sawHex := d != ""))
  {
    hide Scan6, Value, DigitValue, Finish;
    if d == "" {
      NoDigits(16);
    } else {
      var front := d[..|d| - 1];
      var w, c := HexLastOf(d, v, 16);
      assert d == front + [d[|d| - 1]];
      OccursSplit(s, i, front, [d[|d| - 1]]);
      Scan6Group(s, i, front, w, p);
      var q := p.(val := w, sawHex := front != "");
      assert s[i + |front|] == s[i + |front|..i + |front| + 1][0] == d[|d| - 1];
      Scan6Hex(s, i + |front|, q, c);
    }
  }

  function PowHex(n: nat): nat { if n == 0 then 1 else 16 * PowHex(n - 1) }

  /** Decimal digits can be read as hexadecimal ones. */
  lemma {:induction false} DecimalIsHex(d: string) returns (v: nat)
    requires Value(d, 10).Some?
    ensures Value(d, 16) == Some(v) && v < PowHex(|d|)
  {
    if d == "" {
      v := 0;
    } else {
      v := DecimalIsHex(d[..|d| - 1]);
      v := 16 * v + DigitValue(d[|d| - 1]).value;
    }
  }

  lemma ShortNumbers(w: u16, b: u8)
    ensures 1 <= |Hex(w)| <= 4 && 1 <= |Dec(b)| <= 3
  {
    assert Quot(w, 16) == w / 16 && Quot(w / 16, 16) == w / 256 && Quot(w / 256, 16) == w / 4096;
    assert w / 4096 < 16;
    assert |Digits(w / 4096, 16)| == 1;
    assert |Digits(w / 256, 16)| <= 2;
    assert |Digits(w / 16, 16)| <= 3;
    assert Quot(b, 10) == b / 10 && Quot(b / 10, 10) == b / 100;
    assert |Digits(b / 100, 10)| == 1;
    assert |Digits(b / 10, 10)| <= 2;
  }

  lemma GroupsNext(ws: seq<u16>)
    requires ws != []
    ensures var n := |ws| - 1;
            && Groups(ws) == (if n == 0 then Hex(ws[n]) else Groups(ws[..n]) + (":" + Hex(ws[n])))
            && Bytes(ws) == Bytes(ws[..n]) + BytesOfU16(ws[n])
  {
    hide Digits, BytesOfU16;
    var n := |ws| - 1;
    var front, last := ws[..n], Hex(ws[n]);
    if n == 0 {
      assert Groups(front) + "" + last == last;
    } else {
      Regroup(Groups(front), ":", last);
    }
  }

  /** Everything but the last group is written out; the last one is pending. */
  function Pending(ws: seq<u16>, out: seq<u8>, colon: Option<nat>, tok: nat): Parser
    requires ws != []
  {
    Parser(out + Bytes(ws[..|ws| - 1]), colon, ws[|ws| - 1], true, tok)
  }

  lemma PendingPushed(ws: seq<u16>, out: seq<u8>, colon: Option<nat>, tok: nat)
    requires ws != []
    ensures var p := Pending(ws, out, colon, tok);
            |p.out| == |out| + 2 * |ws| - 2 && p.out + BytesOfU16(p.val) == out + Bytes(ws)
            && p.colon == colon && p.sawHex && p.tok == tok && p.val < TWO16
  {
    var n := |ws| - 1;
    GroupsNext(ws);
    assert out + Bytes(ws[..n]) + BytesOfU16(ws[n]) == out + (Bytes(ws[..n]) + BytesOfU16(ws[n]));
  }

  lemma {:induction false} Scan6Groups(s: string, i: nat, ws: seq<u16>, out: seq<u8>, colon: Option<nat>)
    returns (tok: nat)
    requires ws != [] && OccursAt(s, i, Groups(ws))
    requires |out| + 2 * |ws| <= 16 && (colon.Some? ==> colon.value <= |out|)
    ensures tok <= i + |Groups(ws)| && ParserOk(Pending(ws, out, colon, tok))
    ensures Scan6(s, i, Fresh(out, colon, i)) == Scan6(s, i + |Groups(ws)|, Pending(ws, out, colon, tok))
  {
    hide Scan6, Finish, Digits, Value, Groups, Bytes, Pending, BytesOfU16;
    var n := |ws| - 1;
    DigitsRoundTrip(ws[n], 16);
    GroupsNext(ws);
    if n == 0 {
      tok := i;
      NoBytes(ws, out);
      PendingIs(ws, out, colon, tok);
      Scan6Group(s, i, Hex(ws[n]), ws[n], Fresh(out, colon, i));
    } else {
      tok := Scan6Groups(s, i, ws[..n], out, colon) by {
        OccursSplit(s, i, Groups(ws[..n]), ":" + Hex(ws[n]));
      }
      tok := Scan6OneMore(s, i + |Groups(ws[..n])|, ws, out, colon, tok) by {
        OccursSplit(s, i, Groups(ws[..n]), ":" + Hex(ws[n]));
      }
    }
  }

  lemma NoBytes(ws: seq<u16>, out: seq<u8>)
    requires |ws| == 1
    ensures out + Bytes(ws[..0]) == out
  {
  }

  /** A colon writes the pending group out, and the digits behind it are pending next. */
  lemma Scan6OneMore(s: string, j: nat, ws: seq<u16>, out: seq<u8>, colon: Option<nat>, tok0: nat)
    returns (tok: nat)
    requires |ws| > 1 && OccursAt(s, j, ":" + Hex(ws[|ws| - 1]))
    requires |out| + 2 * |ws| <= 16 && (colon.Some? ==> colon.value <= |out|)
    requires tok0 <= j && ParserOk(Pending(ws[..|ws| - 1], out, colon, tok0))
    ensures tok == j + 1 && ParserOk(Pending(ws, out, colon, tok))
    ensures Scan6(s, j, Pending(ws[..|ws| - 1], out, colon, tok0))
            == Scan6(s, j + |":" + Hex(ws[|ws| - 1])|, Pending(ws, out, colon, tok))
  {
    hide Scan6, Finish, Digits, Value, Groups, Bytes, Pending;
    var n := |ws| - 1;
    var last := Hex(ws[n]);
    OccursSplit(s, j, ":", last);
    assert s[j] == s[j..j + 1][0];
    PendingPushed(ws[..n], out, colon, tok0);
    Scan6Push(s, j, Pending(ws[..n], out, colon, tok0));
    tok := j + 1;
    DigitsRoundTrip(ws[n], 16);
    Scan6Group(s, j + 1, last, ws[n], Fresh(out + Bytes(ws[..n]), colon, j + 1));
    assert Pending(ws, out, colon, tok) == Parser(out + Bytes(ws[..n]), colon, ws[n], true, tok) by {
      PendingIs(ws, out, colon, tok);
    }
  }

  lemma PendingIs(ws: seq<u16>, out: seq<u8>, colon: Option<nat>, tok: nat)
    requires ws != []
    ensures Pending(ws, out, colon, tok) == Parser(out + Bytes(ws[..|ws| - 1]), colon, ws[|ws| - 1], true, tok)
  {
  }

  /** Groups at the end of the text. */
  lemma Parse6Tail(s: string, i: nat, ws: seq<u16>, out: seq<u8>, colon: Option<nat>)
    requires i <= |s| && s[i..] == Groups(ws)
    requires |out| + 2 * |ws| <= 16 && (colon.Some? ==> colon.value <= |out|)
    requires colon.None? ==> |out| + 2 * |ws| == 16
    ensures Scan6(s, i, Fresh(out, colon, i)).Some?
    ensures Finish(Scan6(s, i, Fresh(out, colon, i)).value)
            == Some(if colon.Some? then Shifted(out + Bytes(ws), colon.value) else out + Bytes(ws))
  {
    hide Scan6, Digits, Value, Groups, Shifted, Bytes, Pending;
    GroupsEmpty(ws);
    if ws == [] {
      assert i == |s|;
      Scan6End(s, Fresh(out, colon, i));
      assert out + Bytes(ws) == out;
    } else {
      assert s[i..i + |Groups(ws)|] == s[i..];
      var tok := Scan6Groups(s, i, ws, out, colon);
      PendingPushed(ws, out, colon, tok);
      Scan6End(s, Pending(ws, out, colon, tok));
    }
  }

  lemma GroupsEmpty(ws: seq<u16>)
    ensures Groups(ws) == "" <==> ws == []
  {
  }

  /** A dotted quad at the end of the text. */
  lemma Parse6Dotted(s: string, i: nat, b: seq<u8>, out: seq<u8>, colon: nat)
    requires |b| == 4 && i <= |s| && s[i..] == Text4(b) && colon <= |out| <= 12
    ensures Scan6(s, i, Fresh(out, Some(colon), i)).Some?
    ensures Finish(Scan6(s, i, Fresh(out, Some(colon), i)).value) == Some(Shifted(out + b, colon))
  {
    hide Scan6, Digits, Value, Parse4, PowHex, Shifted;
    var d := Dec(b[0]);
    var rest := Dec(b[1]) + "." + Dec(b[2]) + "." + Dec(b[3]);
    assert Text4(b) == d + ("." + rest);
    assert s[i..] == s[i..i + |d + ("." + rest)|];
    OccursSplit(s, i, d, "." + rest);
    OccursSplit(s, i + |d|, ".", rest);
    DigitsRoundTrip(b[0], 10);
    ShortNumbers(0, b[0]);
    var v := DecimalIsHex(d);
    SmallPowers(|d|);
    Scan6Group(s, i, d, v, Fresh(out, Some(colon), i));
    var p := Fresh(out, Some(colon), i).(val := v, sawHex := d != "");
    assert s[i + |d|] == s[i + |d|..i + |d| + 1][0] == '.';
    Text4RoundTrip(b);
    Scan6Dot(s, i + |d|, p);
  }

  lemma SmallPowers(n: nat)
    requires n <= 4
    ensures PowHex(n) <= TWO16
  {
    assert PowHex(4) == 16 * PowHex(3) && PowHex(3) == 16 * PowHex(2);
  }

  // ---------------------------------------------------------------- words and bytes

  lemma {:induction false} BytesAt(ws: seq<u16>, i: nat)
    requires i < |ws|
    ensures Bytes(ws)[2 * i..2 * i + 2] == BytesOfU16(ws[i])
  {
    var n := |ws| - 1;
    if i < n {
      BytesAt(ws[..n], i);
      assert Bytes(ws)[2 * i..2 * i + 2] == Bytes(ws[..n])[2 * i..2 * i + 2];
    }
  }

  lemma {:induction false} BytesAppend(a: seq<u16>, b: seq<u16>)
    ensures Bytes(a + b) == Bytes(a) + Bytes(b)
  {
    if b == [] {
      assert a + b == a;
    } else {
      var n := |b| - 1;
      assert (a + b)[..|a + b| - 1] == a + b[..n];
      BytesAppend(a, b[..n]);
    }
  }

  /** The words of an address, written out again, are its bytes. */
  lemma WordsRoundTrip(src: seq<u8>)
    requires |src| == 16
    ensures Bytes(Words(src)) == src
  {
    var ws := Words(src);
    forall k | 0 <= k < 16 ensures Bytes(ws)[k] == src[k] {
      var i := k / 2;
      BytesAt(ws, i);
      assert Bytes(ws)[k] == Bytes(ws)[2 * i..2 * i + 2][k % 2];
      var pair := src[2 * i..2 * i + 2];
      assert pair[0] == src[2 * i] && pair[1] == src[2 * i + 1];
    }
  }

  lemma {:induction false} BytesOfZeros(ws: seq<u16>)
    requires forall k :: 0 <= k < |ws| ==> ws[k] == 0
    ensures Bytes(ws) == Zeros(2 * |ws|)
  {
    if ws != [] { BytesOfZeros(ws[..|ws| - 1]); }
  }

  /** Taking a zero run out and shifting the rest to the end puts it back. */
  lemma RunRestored(src: seq<u8>, run: Run)
    requires |src| == 16 && ZeroRun(Words(src), run.base, run.len) && run.len > 0
    ensures var ws := Words(src);
            Shifted(Bytes(ws[..run.base]) + Bytes(ws[run.base + run.len..]), 2 * run.base) == src
  {
    hide Words, Bytes;
    var ws := Words(src);
    var l, z, r := ws[..run.base], ws[run.base..run.base + run.len], ws[run.base + run.len..];
    assert ws == l + (z + r);
    BytesAppend(l, z + r);
    BytesAppend(z, r);
    assert Bytes(z) == Zeros(2 * |z|) by {
      BytesOfZeros(z);
    }
    WordsRoundTrip(src);
    ShiftedAround(Bytes(l), Bytes(r));
  }

  lemma ShiftedAround(l: seq<u8>, r: seq<u8>)
    requires |l| + |r| < 16
    ensures Shifted(l + r, |l|) == l + (Zeros(16 - |l| - |r|) + r)
  {
    assert (l + r)[..|l|] == l && (l + r)[|l|..] == r;
  }

  // ---------------------------------------------------------------- the round trip

  lemma FirstOfGroups(ws: seq<u16>)
    requires ws != []
    ensures |Groups(ws)| > 0 && Groups(ws)[0] != ':'
  {
    hide Digits;
    if |ws| == 1 {
      assert Groups(ws) == Hex(ws[0]);
      FirstDigit(ws[0], 16);
    } else {
      FirstOfGroups(ws[..|ws| - 1]);
    }
  }

  lemma {:induction false} FirstDigit(n: nat, base: nat)
    requires IsBase(base)
    ensures Digits(n, base)[0] != ':'
  {
    if n >= base { FirstDigit(Quot(n, base), base); }
  }

  lemma RoundTripPlain(src: seq<u8>)
    requires |src| == 16
    ensures Parse6(Groups(Words(src))) == Some(src)
  {
    hide Scan6, Groups, Digits, Value, Finish;
    var ws := Words(src);
    var s := Groups(ws);
    FirstOfGroups(ws);
    assert s[0..] == s;
    Parse6Tail(s, 0, ws, [], None);
    WordsRoundTrip(src);
    assert [] + Bytes(ws) == Bytes(ws);
  }

  /** A text that starts with `::` is scanned from its second colon on. */
  lemma LeadingColons(rest: string)
    ensures var s := "::" + rest;
            Parse6(s) == match Scan6(s, 2, Fresh([], Some(0), 2)) case None => None case Some(p) => Finish(p)
  {
    hide Scan6, Finish;
    var s := "::" + rest;
    assert s[0] == ':' && s[1] == ':';
    Scan6Colon(s, 1, []);
  }

  /** Groups on both sides of `::`: the right-hand ones are moved to the end of the address. */
  lemma ParseTwoSides(l: seq<u16>, r: seq<u16>)
    requires |l| + |r| <= 8
    ensures Parse6(Groups(l) + "::" + Groups(r)) == Some(Shifted(Bytes(l) + Bytes(r), 2 * |l|))
  {
    hide Scan6, Groups, Finish, Shifted, Bytes;
    GroupsEmpty(l);
    BytesLength(l);
    if l == [] {
      var s := "::" + Groups(r);
      assert Groups(l) + "::" + Groups(r) == s;
      LeadingColons(Groups(r));
      assert s[2..] == Groups(r);
      Parse6Tail(s, 2, r, [], Some(0));
    } else {
      ParseFromGroups(l, r);
    }
  }

  lemma ParseFromGroups(l: seq<u16>, r: seq<u16>)
    requires l != [] && |l| + |r| <= 8
    ensures Parse6(Groups(l) + "::" + Groups(r)) == Some(Shifted(Bytes(l) + Bytes(r), 2 * |l|))
  {
    hide Scan6, Groups, Finish, Shifted, Bytes;
    var s, j := Groups(l) + "::" + Groups(r), |Groups(l)|;
    FirstOfGroups(l);
    assert s[0] != ':';
    assert s[0..j + 2] == Groups(l) + "::" && s[j + 2..] == Groups(r);
    LeftSide(s, l);
    BytesLength(l);
    Parse6Tail(s, j + 2, r, Bytes(l), Some(|Bytes(l)|));
  }

  lemma BytesLength(ws: seq<u16>)
    ensures |Bytes(ws)| == 2 * |ws| && (ws == [] ==> Bytes(ws) == [])
  {
  }

  /** The groups before `::`, and both colons. */
  lemma LeftSide(s: string, l: seq<u16>)
    requires l != [] && |l| <= 8 && OccursAt(s, 0, Groups(l) + "::")
    ensures Scan6(s, 0, Fresh([], None, 0)) == Scan6(s, |Groups(l)| + 2, Fresh(Bytes(l), Some(2 * |l|), |Groups(l)| + 2))
  {
    hide Scan6, Groups, Digits, Value, Bytes, Pending;
    var j := |Groups(l)|;
    OccursSplit(s, 0, Groups(l), "::");
    assert s[j] == s[j..j + 2][0] && s[j + 1] == s[j..j + 2][1];
    var tok := Scan6Groups(s, 0, l, [], None);
    PendingPushed(l, [], None, tok);
    Scan6Push(s, j, Pending(l, [], None, tok));
    assert [] + Bytes(l) == Bytes(l);
    BytesLength(l);
    Scan6Colon(s, j + 1, Bytes(l));
  }

  lemma RoundTripRun(src: seq<u8>, run: Run)
    requires |src| == 16 && ZeroRun(Words(src), run.base, run.len) && run.len >= 2
    ensures var ws := Words(src);
            Parse6(Groups(ws[..run.base]) + "::" + Groups(ws[run.base + run.len..])) == Some(src)
  {
    hide Scan6, Groups, Digits, Value, Finish, Shifted, Words, Parse6;
    ParseTwoSides(Words(src)[..run.base], Words(src)[run.base + run.len..]);
    RunRestored(src, run);
  }

  lemma RoundTripCompatible(src: seq<u8>)
    requires |src| == 16 && ZeroRun(Words(src), 0, 6)
    ensures Parse6("::" + Text4(src[12..])) == Some(src)
  {
    hide Scan6, Groups, Digits, Value, Finish, Shifted, Words, Parse4, Text4, Bytes;
    var t := Text4(src[12..]);
    var s := "::" + t;
    LeadingColons(t);
    assert s[2..] == t;
    Parse6Dotted(s, 2, src[12..], [], 0);
    RunRestored(src, Run(0, 6));
    LastWords(src);
    assert Words(src)[..0] == [];
    assert [] + src[12..] == Bytes([]) + Bytes(Words(src)[6..]);
  }

  lemma RoundTripMapped(src: seq<u8>)
    requires |src| == 16 && ZeroRun(Words(src), 0, 5) && Words(src)[5] == 0xffff
    ensures Parse6("::" + ("ffff:" + Text4(src[12..]))) == Some(src)
  {
    hide Scan6, Groups, Digits, Value, Finish, Shifted, Words, Parse4, Text4, Bytes;
    var t := Text4(src[12..]);
    var s := "::" + ("ffff:" + t);
    LeadingColons("ffff:" + t);
    ReadMapped(s, t);
    var ff := BytesOfU16(0xffff);
    Parse6Dotted(s, 7, src[12..], ff, 0);
    RunRestored(src, Run(0, 5));
    MappedBytes(src);
  }

  lemma MappedBytes(src: seq<u8>)
    requires |src| == 16 && Words(src)[5] == 0xffff
    ensures Bytes(Words(src)[..0]) + Bytes(Words(src)[5..]) == BytesOfU16(0xffff) + src[12..]
  {
    hide Words, Bytes, BytesOfU16;
    var ws := Words(src);
    LastWords(src);
    assert ws[..0] == [];
    assert ws[5..] == [0xffff] + ws[6..];
    BytesAppend([0xffff], ws[6..]);
    OneWord(0xffff);
    assert [] + (BytesOfU16(0xffff) + src[12..]) == BytesOfU16(0xffff) + src[12..];
  }

  lemma ReadMapped(s: string, t: string)
    requires s == "::" + ("ffff:" + t)
    ensures |s| >= 7 && s[7..] == t
    ensures Scan6(s, 2, Fresh([], Some(0), 2)) == Scan6(s, 7, Fresh(BytesOfU16(0xffff), Some(0), 7))
  {
    hide Scan6, Value, DigitValue, BytesOfU16;
    assert s[2..6] == "ffff" && s[6] == ':' && s[7..] == t;
    FourFs();
    Scan6Group(s, 2, "ffff", 0xffff, Fresh([], Some(0), 2));
    Scan6Push(s, 6, Fresh([], Some(0), 2).(val := 0xffff, sawHex := true));
    assert [] + BytesOfU16(0xffff) == BytesOfU16(0xffff);
  }

  lemma OneWord(w: u16)
    ensures Bytes([w]) == BytesOfU16(w) && Bytes([]) == []
  {
    assert [w][..0] == [];
  }

  lemma FourFs()
    ensures Value("ffff", 16) == Some(0xffff)
  {
    assert "ffff"[..3] == "fff" && "fff"[..2] == "ff" && "ff"[..1] == "f" && "f"[..0] == "";
    assert Value("f", 16) == Some(15);
    assert Value("ff", 16) == Some(255);
    assert Value("fff", 16) == Some(4095);
  }

  lemma LastWords(src: seq<u8>)
    requires |src| == 16
    ensures Bytes(Words(src)[6..]) == src[12..] && Bytes([]) == []
  {
    hide Words;
    var ws := Words(src);
    assert ws == ws[..6] + ws[6..];
    BytesAppend(ws[..6], ws[6..]);
    WordsRoundTrip(src);
  }

  /** inet_pton6 of what inet_ntop6 prints is the address, for every address. */
  lemma AddressRoundTrip(src: seq<u8>, run: Run)
    requires |src| == 16 && IsBest(Words(src), run)
    ensures Parse6(Text6(src, run)) == Some(src)
  {
    hide Scan6, Groups, Digits, Value, Finish, Shifted, Words, Parse4, Parse6, Text4;
    if run.base == -1 {
      RoundTripPlain(src);
    } else if Embedded(Words(src), run) {
      if run.len == 6 {
        RoundTripCompatible(src);
        assert "::" + "" + Text4(src[12..]) == "::" + Text4(src[12..]);
      } else {
        RoundTripMapped(src);
        Regroup("::", "ffff:", Text4(src[12..]));
      }
    } else {
      RoundTripRun(src, run);
    }
  }

  /** Clearing all behind the colons changes nothing exactly when it was zero. */
  lemma ClearedIff(out: seq<u8>, c: nat)
    requires |out| == 16 && c <= 16
    ensures Shifted(out, c) == out[..c] + Zeros(16 - c)
    ensures Shifted(out, c) == out <==> forall k :: c <= k < 16 ==> out[k] == 0
  {
    var b := Shifted(out, c);
    assert forall k :: 0 <= k < c ==> b[k] == out[k];
    assert forall k :: c <= k < 16 ==> b[k] == 0;
  }

  /**
   * A text that spells out all sixteen bytes and has a `::` as well, in whatever notation, is accepted, but the `::`
   * is not ignored: every byte behind it is cleared. The text stands for the bytes it spells out exactly when those
   * are zero anyway.
   */
  lemma FullAddressWithColons(s: string, p: Parser)
    requires Scanned(s) == Some(p) && p.colon.Some? && |Written(p)| == 16
    ensures Parse6(s) == Some(Written(p)[..p.colon.value] + Zeros(16 - p.colon.value))
    ensures Parse6(s) == Some(Written(p)) <==> forall k :: p.colon.value <= k < 16 ==> Written(p)[k] == 0
  {
    hide Scanned, Shifted;
    ClearedIff(Written(p), p.colon.value);
  }

  /** Eight groups. */
  lemma EightGroupsWithColons(l: seq<u16>, r: seq<u16>)
    requires |l| + |r| == 8
    ensures var s := Groups(l) + "::" + Groups(r);
            && Parse6(s) == Some(Bytes(l) + Zeros(2 * |r|))
            && (Parse6(s) == Some(Bytes(l + r)) <==> forall k :: 0 <= k < |r| ==> r[k] == 0)
  {
    hide Parse6, Groups, Bytes, Shifted;
    ParseTwoSides(l, r);
    BytesAppend(l, r);
    BytesLength(l);
    BytesLength(r);
    ClearedBehind(Bytes(l), Bytes(r));
    ZeroGroups(r);
  }

  lemma ClearedBehind(l: seq<u8>, r: seq<u8>)
    requires |l| + |r| == 16
    ensures Shifted(l + r, |l|) == l + Zeros(|r|)
    ensures Shifted(l + r, |l|) == l + r <==> forall k :: 0 <= k < |r| ==> r[k] == 0
  {
    ClearedIff(l + r, |l|);
    assert (l + r)[..|l|] == l;
    if forall k :: |l| <= k < 16 ==> (l + r)[k] == 0 {
      forall k | 0 <= k < |r| ensures r[k] == 0 { assert (l + r)[|l| + k] == r[k]; }
    }
  }

  lemma ZeroGroups(ws: seq<u16>)
    ensures (forall k :: 0 <= k < |Bytes(ws)| ==> Bytes(ws)[k] == 0) <==> forall k :: 0 <= k < |ws| ==> ws[k] == 0
  {
    hide Bytes;
    BytesLength(ws);
    if forall k :: 0 <= k < |ws| ==> ws[k] == 0 {
      BytesOfZeros(ws);
    }
    if k :| 0 <= k < |ws| && ws[k] != 0 {
      BytesAt(ws, k);
      NonZeroWord(ws[k]);
      assert Bytes(ws)[2 * k..2 * k + 2] == [Bytes(ws)[2 * k], Bytes(ws)[2 * k + 1]];
    }
  }

  lemma NonZeroWord(w: u16)
    requires w != 0
    ensures BytesOfU16(w) != [0, 0]
  {
    U16RoundTrip(w);
  }

  /** Groups and a dotted quad behind them. */
  function DottedTail(r: seq<u16>, b: seq<u8>): string
    requires |b| == 4
  {
    if r == [] then Text4(b) else Groups(r) + (":" + Text4(b))
  }

  lemma GroupsAndColon(s: string, i: nat, r: seq<u16>, t: string, out: seq<u8>, colon: nat) returns (j: nat)
    requires r != [] && i <= |s| && s[i..] == Groups(r) + (":" + t) && colon <= |out| && |out| + 2 * |r| <= 16
    ensures j <= |s| && s[j..] == t && |Bytes(r)| == 2 * |r|
    ensures Scan6(s, i, Fresh(out, Some(colon), i)) == Scan6(s, j, Fresh(out + Bytes(r), Some(colon), j))
  {
    hide Scan6, Groups, Bytes, Pending;
    BytesLength(r);
    j := i + |Groups(r)|;
    ColonAt(s, i, Groups(r), t);
    var tok := Scan6Groups(s, i, r, out, Some(colon));
    PendingPushed(r, out, Some(colon), tok);
    Scan6Push(s, j, Pending(r, out, Some(colon), tok));
    j := j + 1;
  }

  lemma ColonAt(s: string, i: nat, g: string, t: string)
    requires i <= |s| && s[i..] == g + (":" + t)
    ensures var j := i + |g|; OccursAt(s, i, g) && j < |s| && s[j] == ':' && s[j + 1..] == t
  {
    var u := s[i..];
    assert u[..|g|] == g && u[|g|] == ':' && u[|g| + 1..] == t;
  }

  lemma ParseDottedTail(s: string, i: nat, r: seq<u16>, b: seq<u8>, out: seq<u8>, colon: nat)
    requires |b| == 4 && i <= |s| && s[i..] == DottedTail(r, b) && colon <= |out| && |out| + 2 * |r| <= 12
    ensures Scan6(s, i, Fresh(out, Some(colon), i)).Some?
    ensures Finish(Scan6(s, i, Fresh(out, Some(colon), i)).value) == Some(Shifted(out + Bytes(r) + b, colon))
  {
    hide Scan6, Finish, Groups, Text4, Shifted, Bytes, Pending;
    BytesLength(r);
    if r == [] {
      Parse6Dotted(s, i, b, out, colon);
      assert out + Bytes(r) == out;
    } else {
      var j := GroupsAndColon(s, i, r, Text4(b), out, colon);
      Parse6Dotted(s, j, b, out + Bytes(r), colon);
    }
  }

  /** Groups on both sides of `::` and a dotted quad at the end. */
  lemma ParseTwoSidesDotted(l: seq<u16>, r: seq<u16>, b: seq<u8>)
    requires |b| == 4 && |l| + |r| <= 6
    ensures Parse6(Groups(l) + "::" + DottedTail(r, b)) == Some(Shifted(Bytes(l) + Bytes(r) + b, 2 * |l|))
  {
    hide Scan6, Groups, Finish, Shifted, Bytes, DottedTail;
    GroupsEmpty(l);
    BytesLength(l);
    var t := DottedTail(r, b);
    var s, j := Groups(l) + "::" + t, |Groups(l)|;
    if l == [] {
      assert s == "::" + t && s[2..] == t;
      LeadingColons(t);
      ParseDottedTail(s, 2, r, b, [], 0);
      assert [] + Bytes(r) == Bytes(l) + Bytes(r);
    } else {
      FirstOfGroups(l);
      assert s[0] != ':';
      assert s[0..j + 2] == Groups(l) + "::" && s[j + 2..] == t;
      LeftSide(s, l);
      ParseDottedTail(s, j + 2, r, b, Bytes(l), |Bytes(l)|);
    }
  }

  /** Six groups and a dotted quad. */
  lemma SixGroupsWithColons(l: seq<u16>, r: seq<u16>, b: seq<u8>)
    requires |b| == 4 && |l| + |r| == 6
    ensures var s := Groups(l) + "::" + DottedTail(r, b);
            && Parse6(s) == Some(Bytes(l) + Zeros(16 - 2 * |l|))
            && (Parse6(s) == Some(Bytes(l) + Bytes(r) + b) <==>
                (forall k :: 0 <= k < |r| ==> r[k] == 0) && forall k :: 0 <= k < 4 ==> b[k] == 0)
  {
    hide Parse6, Groups, Bytes, Shifted, DottedTail;
    ParseTwoSidesDotted(l, r, b);
    BytesLength(l);
    BytesLength(r);
    Regroup(Bytes(l), Bytes(r), b);
    ClearedBehind(Bytes(l), Bytes(r) + b);
    ZeroGroups(r);
    ZeroBoth(Bytes(r), b);
  }

  lemma ZeroBoth(x: seq<u8>, y: seq<u8>)
    ensures (forall k :: 0 <= k < |x + y| ==> (x + y)[k] == 0) <==>
            (forall k :: 0 <= k < |x| ==> x[k] == 0) && forall k :: 0 <= k < |y| ==> y[k] == 0
  {
    if forall k :: 0 <= k < |x + y| ==> (x + y)[k] == 0 {
      forall k | 0 <= k < |x| ensures x[k] == 0 { assert (x + y)[k] == x[k]; }
      forall k | 0 <= k < |y| ensures y[k] == 0 { assert (x + y)[|x| + k] == y[k]; }
    }
  }

  // ---------------------------------------------------------------- lengths

  lemma {:induction false} GroupsLength(ws: seq<u16>)
    ensures |Groups(ws)| <= 5 * |ws| && (ws != [] ==> |Groups(ws)| <= 5 * |ws| - 1)
  {
    hide Digits;
    if ws != [] {
      ShortNumbers(ws[|ws| - 1], 0);
      GroupsLength(ws[..|ws| - 1]);
    }
  }

  lemma Text4Length(b: seq<u8>)
    requires |b| == 4
    ensures |Text4(b)| <= 15
  {
    hide Digits;
    ShortNumbers(0, b[0]);
    ShortNumbers(0, b[1]);
    ShortNumbers(0, b[2]);
    ShortNumbers(0, b[3]);
  }

  /** The text with its NUL never overruns the 46 bytes the printer has for it. */
  lemma Text6Length(src: seq<u8>, run: Run)
    requires |src| == 16 && IsBest(Words(src), run)
    ensures |Text6(src, run)| <= 39
  {
    hide Digits, Groups, Words, Text4;
    var ws := Words(src);
    Text4Length(src[12..]);
    GroupsLength(ws);
    if run.base != -1 {
      GroupsLength(ws[..run.base]);
      GroupsLength(ws[run.base + run.len..]);
    }
  }
}
