/** The printers and parsers of IPv4 and IPv6 addresses, as loops over bytes and characters. */
module InetCodec {
  import opened Base
  import opened NumberText
  import opened InetText

  /** A text copied into a buffer at a position. */
  method CopyText(dst: array<char>, at: nat, text: string)
    requires at + |text| <= dst.Length
    modifies dst
    ensures dst[..at + |text|] == old(dst[..at]) + text
    ensures dst[at + |text|..] == old(dst[at + |text|..])
  {
    for k := 0 to |text|
      invariant dst[..at + k] == old(dst[..at]) + text[..k]
      invariant dst[at + k..] == old(dst[at + k..])
    {
      dst[at + k] := text[k];
      assert dst[..at + k + 1] == dst[..at + k] + [text[k]];
      assert dst[at + k + 1..] == dst[at + k..][1..] && old(dst[at + k + 1..]) == old(dst[at + k..])[1..];
    }
    assert text[..|text|] == text;
  }

  /** print_handler: a piece of text, when it fits with a byte to spare for the NUL. */
  method PutPiece(dst: array<char>, used: nat, piece: string) returns (ok: bool, next: nat)
    requires used < dst.Length
    modifies dst
    ensures ok <==> used + |piece| < dst.Length
    ensures next == if ok then used + |piece| else used
    ensures dst[..next] == old(dst[..used]) + if ok then piece else ""
  {
    if dst.Length - 1 - used < |piece| {
      assert old(dst[..used]) + "" == dst[..used];
      return false, used;
    }
    CopyText(dst, used, piece);
    return true, used + |piece|;
  }

  /** The first `k` numbers of a dotted quad. */
  function Quads(src: seq<u8>, k: nat): string
    requires k <= |src|
  {
    if k == 0 then "" else Quads(src, k - 1) + (if k == 1 then "" else ".") + Digits(src[k - 1], 10)
  }

  lemma AllQuads(src: seq<u8>)
    requires |src| == 4
    ensures Quads(src, 4) == Text4(src)
  {
    hide Digits;
    assert Quads(src, 1) == Digits(src[0], 10);
    assert Quads(src, 2) == Dec(src[0]) + "." + Dec(src[1]);
    assert Quads(src, 4) == Quads(src, 2) + "." + Dec(src[2]) + "." + Dec(src[3]);
  }

  lemma {:induction false} QuadsGrow(src: seq<u8>, k: nat, n: nat)
    requires k <= n <= |src|
    ensures |Quads(src, k)| <= |Quads(src, n)|
    decreases n
  {
    if k < n { QuadsGrow(src, k, n - 1); }
  }

  /** One number of a dotted quad, with the dot in front of it, up to what does not fit. */
  method PutQuad(src: seq<u8>, k: nat, dst: array<char>, used: nat) returns (ok: bool, next: nat)
    requires k < |src| && used < dst.Length
    modifies dst
    ensures ok <==> used + (if k == 0 then 0 else 1) + |Digits(src[k], 10)| < dst.Length
    ensures ok ==> next == used + (if k == 0 then 0 else 1) + |Digits(src[k], 10)|
    ensures ok ==> dst[..next] == old(dst[..used]) + ((if k == 0 then "" else ".") + Digits(src[k], 10))
    ensures !ok ==> used <= next < dst.Length && dst[..used] == old(dst[..used])
  {
    hide Digits;
    ok, next := true, used;
    if k > 0 {
      ok, next := PutPiece(dst, used, ".");
      if !ok {
        assert dst[..used] == dst[..next][..used];
        return;
      }
    }
    assert dst[..used] == dst[..next][..used];
    ghost var mid := dst[..next];
    var num := new char[64];
    var len := LocalItoa(num, src[k], 10);
    ok, next := PutPiece(dst, next, num[..len]);
    assert dst[..used] == dst[..next][..used] == mid[..used];
  }

  /**
   * inet_ntop4: the numbers and dots of the address printed one after the other, into a buffer from `at` on.
   * It fails exactly when the whole text and its NUL do not fit; otherwise what stands there is a text that
   * parses back to the address.
   */
  method Ntop4(src: seq<u8>, dst: array<char>, at: nat) returns (end: Option<nat>)
    requires |src| == 4 && at < dst.Length
    modifies dst
    ensures end.None? <==> dst.Length <= at + |Text4(src)|
    ensures end.None? ==> dst[dst.Length - 1] == '\0'
    ensures dst[..at] == old(dst[..at])
    ensures end.Some? ==>
      && at <= end.value < dst.Length && dst[end.value] == '\0'
      && dst[at..end.value] == Text4(src) && Parse4(dst[at..end.value]) == Some(src)
  {
    hide Digits, Text4, Parse4, Quads;
    var err, used := PutQuads(src, dst, at);
    ghost var text := dst[..used];
    dst[used] := '\0';
    assert dst[..used] == text;
    assert dst[..at] == text[..at];
    if err {
      dst[dst.Length - 1] := '\0';
      assert dst[..at] == text[..at];
      return None;
    }
    assert dst[at..used] == Text4(src);
    Text4RoundTrip(src);
    end := Some(used);
  }

  /** The four numbers of the format, up to the first that does not fit. */
  method PutQuads(src: seq<u8>, dst: array<char>, at: nat) returns (err: bool, used: nat)
    requires |src| == 4 && at < dst.Length
    modifies dst
    ensures err <==> dst.Length <= at + |Text4(src)|
    ensures at <= used < dst.Length && dst[..at] == old(dst[..at])
    ensures !err ==> dst[..used] == old(dst[..at]) + Text4(src)
  {
    hide Digits, Text4, Quads;
    AllQuads(src);
    NoQuads(src);
    var k := 0;
    err, used := false, at;
    assert dst[..used] == old(dst[..at]) + "";
    while k < 4 && !err
      invariant 0 <= k <= 4 && at <= used < dst.Length && dst[..at] == old(dst[..at])
      invariant !err ==> used == at + |Quads(src, k)| && dst[..used] == old(dst[..at]) + Quads(src, k)
      invariant err ==> dst.Length <= at + |Quads(src, k)|
      decreases 4 - k
    {
      ghost var before := dst[..used];
      NextQuad(src, k);
      var ok, next := PutQuad(src, k, dst, used);
      Regroup(old(dst[..at]), Quads(src, k), (if k == 0 then "" else ".") + Digits(src[k], 10));
      assert dst[..at] == dst[..used][..at] == before[..at] by {
        if ok { assert dst[..used] == dst[..next][..used]; }
      }
      err, used, k := !ok, next, k + 1;
    }
    QuadsGrow(src, k, 4);
  }

  lemma NextQuad(src: seq<u8>, k: nat)
    requires k < |src|
    ensures Quads(src, k + 1) == Quads(src, k) + ((if k == 0 then "" else ".") + Digits(src[k], 10))
  {
    hide Digits;
    Regroup(Quads(src, k), if k == 0 then "" else ".", Digits(src[k], 10));
  }

  lemma NoQuads(src: seq<u8>)
    ensures Quads(src, 0) == ""
  {
  }

  /** A byte shifted to its half of the word. */
  function Shifted8(b: int, i: nat): int { if i % 2 == 0 then 0x100 * b else b }

  /** The two bytes of each word are or-ed together. */
  method ToWords(src: seq<u8>) returns (words: seq<u16>)
    requires |src| == 16
    ensures words == Words(src)
  {
    var w := new u16[8](_ => 0);
    for i := 0 to 16
      invariant forall k :: 0 <= k < 8 ==>
        w[k] == (if 2 * k + 1 < i then U16OfBytes(src[2 * k..2 * k + 2]) else if 2 * k < i then Shifted8(src[2 * k], 0) else 0)
    {
      assert i % 2 == 1 ==> src[2 * (i / 2)..2 * (i / 2) + 2] == [src[i - 1], src[i]];
      assert i % 2 == 0 ==> w[i / 2] == 0;
      var word: int := w[i / 2];
      w[i / 2] := word + Shifted8(src[i], i);
    }
    words := w[..];
  }

  /** Nothing longer before `lim`, and `best` is the first of its length. */
  ghost predicate BestSoFar(ws: seq<u16>, best: Run, lim: nat) {
    && (best.base == -1 ==> best.len == 0)
    && (best.base != -1 ==> best.len > 0 && ZeroRun(ws, best.base, best.len) && best.base + best.len <= lim)
    && forall b: nat, l: nat :: ZeroRun(ws, b, l) && b + l <= lim ==>
         l <= best.len && (l == best.len && l > 0 ==> best.base <= b)
  }

  /** `cur` is a run of zeros that ends at `i` and could not start earlier. */
  ghost predicate OpenRun(ws: seq<u16>, cur: Run, i: nat) {
    && 0 <= cur.base && cur.base + cur.len == i <= |ws| && cur.len > 0 && ZeroRun(ws, cur.base, cur.len)
    && (cur.base > 0 ==> ws[cur.base - 1] != 0)
  }

  lemma NotAcross(ws: seq<u16>, b: nat, l: nat, c: nat)
    requires ZeroRun(ws, b, l) && 0 < c <= |ws| && ws[c - 1] != 0
    ensures b + l < c || c <= b
  {
  }

  /** A run that is over joins the ones seen. */
  lemma RunCloses(ws: seq<u16>, best: Run, cur: Run, i: nat)
    requires OpenRun(ws, cur, i) && BestSoFar(ws, best, cur.base)
    ensures BestSoFar(ws, if best.base == -1 || cur.len > best.len then cur else best, i)
  {
    var best' := if best.base == -1 || cur.len > best.len then cur else best;
    forall b: nat, l: nat | ZeroRun(ws, b, l) && b + l <= i
      ensures l <= best'.len && (l == best'.len && l > 0 ==> best'.base <= b)
    {
      if cur.base > 0 { NotAcross(ws, b, l, cur.base); }
    }
  }

  lemma NonZeroEnds(ws: seq<u16>, best: Run, i: nat)
    requires i < |ws| && ws[i] != 0 && BestSoFar(ws, best, i)
    ensures BestSoFar(ws, best, i + 1)
  {
    forall b: nat, l: nat | ZeroRun(ws, b, l) && b + l <= i + 1
      ensures l <= best.len && (l == best.len && l > 0 ==> best.base <= b)
    {
      assert l > 0 ==> ws[b + l - 1] == 0;
    }
  }

  /** The run that `::` will stand for. */
  method BestRun(words: seq<u16>) returns (best: Run)
    ensures IsBest(words, best)
  {
    best := Run(-1, 0);
    var cur := Run(-1, 0);
    for i := 0 to |words|
      invariant cur.base == -1 ==> BestSoFar(words, best, i) && (i > 0 ==> words[i - 1] != 0)
      invariant cur.base != -1 ==> OpenRun(words, cur, i) && BestSoFar(words, best, cur.base)
    {
      if words[i] == 0 {
        if cur.base == -1 {
          cur := Run(i, 1);
        } else {
          cur := cur.(len := cur.len + 1);
        }
      } else {
        if cur.base != -1 {
          RunCloses(words, best, cur, i);
          if best.base == -1 || cur.len > best.len {
            best := cur;
          }
          cur := cur.(base := -1);
        }
        NonZeroEnds(words, best, i);
      }
    }
    if cur.base != -1 {
      RunCloses(words, best, cur, |words|);
      if best.base == -1 || cur.len > best.len {
        best := cur;
      }
    }
    if best.base != -1 && best.len < 2 {
      best := best.(base := -1);
    }
  }

  /** What has been printed before word `i`. */
  function Printed(ws: seq<u16>, run: Run, i: nat): string
    requires i <= |ws| && (run.base == -1 || ZeroRun(ws, run.base, run.len))
  {
    if run.base == -1 || i <= run.base then Groups(ws[..i])
    else if i <= run.base + run.len then Groups(ws[..run.base]) + ":"
    else Groups(ws[..run.base]) + "::" + Groups(ws[run.base + run.len..i])
  }

  lemma OneMoreGroup(ws: seq<u16>, lo: nat, i: nat)
    requires lo <= i < |ws|
    ensures Groups(ws[lo..i + 1]) == Groups(ws[lo..i]) + (if lo == i then "" else ":") + Hex(ws[i])
    ensures lo == i ==> Groups(ws[lo..i]) == ""
  {
    assert ws[lo..i + 1][..i - lo] == ws[lo..i];
  }

  lemma PrintedNext(ws: seq<u16>, run: Run, i: nat)
    requires i < |ws| && (run.base == -1 || (run.len > 0 && ZeroRun(ws, run.base, run.len)))
    ensures var inRun := run.base != -1 && run.base <= i < run.base + run.len;
            Printed(ws, run, i + 1)
            == Printed(ws, run, i)
               + (if inRun then (if i == run.base then ":" else "") else (if i != 0 then ":" else "") + Hex(ws[i]))
  {
    hide Groups, Digits;
    if run.base == -1 || i < run.base {
      OneMoreGroup(ws, 0, i);
      assert ws[0..i] == ws[..i] && ws[0..i + 1] == ws[..i + 1];
    } else if i >= run.base + run.len {
      OneMoreGroup(ws, run.base + run.len, i);
    }
  }

  lemma PrintedLength(ws: seq<u16>, run: Run, i: nat)
    requires i <= |ws| && (run.base == -1 || (run.len >= 2 && ZeroRun(ws, run.base, run.len)))
    ensures |Printed(ws, run, i)| <= 5 * i
  {
    hide Groups;
    GroupsLength(ws[..i]);
    if run.base != -1 && run.base < i {
      GroupsLength(ws[..run.base]);
      if run.base + run.len < i { GroupsLength(ws[run.base + run.len..i]); }
    }
  }

  predicate InRun(run: Run, i: nat) { run.base != -1 && run.base <= i < run.base + run.len }

  /** One word of the address, or one colon for all words of the run. */
  method PutWord(words: seq<u16>, best: Run, i: nat, tmp: array<char>, tp: nat) returns (next: nat)
    requires i < |words| && (best.base == -1 || (best.len >= 2 && ZeroRun(words, best.base, best.len)))
    requires tp <= 5 * i && 5 * (i + 1) <= tmp.Length && tmp[..tp] == Printed(words, best, i)
    modifies tmp
    ensures next <= 5 * (i + 1) && tmp[..next] == Printed(words, best, i + 1)
  {
    hide Printed, Digits;
    next := tp;
    PrintedNext(words, best, i);
    PrintedLength(words, best, i + 1);
    if InRun(best, i) {
      if i == best.base {
        CopyText(tmp, tp, ":");
        next := tp + 1;
      } else {
        assert tmp[..next] + "" == tmp[..next];
      }
      return;
    }
    if i != 0 {
      CopyText(tmp, tp, ":");
      next := tp + 1;
    } else {
      assert tmp[..next] + "" == tmp[..next];
    }
    Regroup(Printed(words, best, i), if i != 0 then ":" else "", Digits(words[i], 16));
    CopyText(tmp, next, Digits(words[i], 16));
    next := next + |Digits(words[i], 16)|;
  }

  /** The dotted tail of an address that embeds one of version 4, behind what is printed of the first six words. */
  method PutTail(src: seq<u8>, words: seq<u16>, best: Run, tmp: array<char>, tp: nat) returns (next: nat)
    requires |src| == 16 && words == Words(src) && best.base == 0 && ZeroRun(words, best.base, best.len)
    requires Embedded(words, best)
    requires tmp.Length == 46 && tp < tmp.Length && tmp[..tp] == Printed(words, best, 6)
    modifies tmp
    ensures next < tmp.Length && tmp[..next] == Text6(src, best)
  {
    hide Printed, Text4, Words, Parse4;
    EmbeddedSoFar(words, best);
    Text4Length(src[12..]);
    CopyText(tmp, tp, ":");
    ghost var front := tmp[..tp + 1];
    var end := Ntop4(src[12..], tmp, tp + 1);
    next := end.value;
    assert tmp[..next] == tmp[..tp + 1] + tmp[tp + 1..next];
    assert front + Text4(src[12..]) == Text6(src, best);
  }

  /** The text put together in an array of 46 bytes, which it never leaves. */
  method Format6(src: seq<u8>, tmp: array<char>) returns (tp: nat, best: Run)
    requires |src| == 16 && tmp.Length == 46
    modifies tmp
    ensures IsBest(Words(src), best) && tp < tmp.Length
    ensures tmp[..tp] == Text6(src, best) && tmp[tp] == '\0'
  {
    hide Words, IsBest, Text4, Printed, Text6, ZeroRun;
    var words := ToWords(src);
    best := BestRun(words);
    BestShape(words, best);
    var i: nat := 0;
    tp := 0;
    NothingPrinted(words, best);
    while i < 8
      invariant 0 <= i <= 8 && tp <= 5 * i && tmp[..tp] == Printed(words, best, i)
      invariant Embedded(words, best) ==> i <= 6
    {
      if i == 6 && Embedded(words, best) {
        break;
      }
      tp := PutWord(words, best, i, tmp, tp);
      i := i + 1;
    }
    if i == 6 {
      tp := PutTail(src, words, best, tmp, tp);
    } else {
      PrintedAll(src, best);
      if best.base != -1 && best.base + best.len == 8 {
        CopyText(tmp, tp, ":");
        tp := tp + 1;
      } else {
        assert tmp[..tp] + "" == tmp[..tp];
      }
    }
    ghost var text := tmp[..tp];
    tmp[tp] := '\0';
    assert tmp[..tp] == text;
  }

  /**
   * inet_ntop6, with the run it shortens: the text is copied out when it fits with its NUL, and what is copied
   * parses back to the address.
   */
  method Ntop6(src: seq<u8>, dst: array<char>) returns (ok: bool, run: Run)
    requires |src| == 16
    modifies dst
    ensures IsBest(Words(src), run)
    ensures ok <==> |Text6(src, run)| < dst.Length
    ensures ok ==> var n := |Text6(src, run)|;
            dst[..n] == Text6(src, run) && dst[n] == '\0' && Parse6(dst[..n]) == Some(src)
    ensures !ok ==> dst[..] == old(dst[..])
  {
    hide Words, Parse6, Text6;
    var tmp := new char[46];
    var tp;
    tp, run := Format6(src, tmp);
    AddressRoundTrip(src, run);
    ok := tp + 1 <= dst.Length;
    if ok {
      var text := tmp[..tp + 1];
      CopyText(dst, 0, text);
      assert dst[..tp + 1] == text;
      assert dst[..tp] == text[..tp] == tmp[..tp];
      assert dst[tp] == text[tp];
    }
  }

  lemma NothingPrinted(ws: seq<u16>, run: Run)
    requires run.base == -1 || ZeroRun(ws, run.base, run.len)
    ensures Printed(ws, run, 0) == ""
  {
  }

  lemma BestShape(ws: seq<u16>, run: Run)
    requires IsBest(ws, run)
    ensures run.base == -1 || (run.len >= 2 && ZeroRun(ws, run.base, run.len))
  {
  }

  lemma EmbeddedSoFar(ws: seq<u16>, run: Run)
    requires |ws| == 8 && (run.base == -1 || ZeroRun(ws, run.base, run.len)) && Embedded(ws, run)
    ensures Printed(ws, run, 6) + ":" == "::" + (if run.len == 6 then "" else "ffff:")
  {
    assert ws[..0] == [] && Groups([]) == "";
    if run.len == 5 {
      OneMoreGroup(ws, 5, 5);
      HexOfFfff();
      assert Printed(ws, run, 6) == "" + "::" + "ffff";
      assert "" + "::" + "ffff" + ":" == "::" + "ffff:";
    } else {
      assert "" + ":" + ":" == "::" + "";
    }
  }

  lemma HexOfFfff()
    ensures Hex(0xffff) == "ffff"
  {
    assert Digits(0xf, 16) == "f";
    assert Digits(0xff, 16) == "ff";
    assert Digits(0xfff, 16) == "fff";
  }

  lemma PrintedAll(src: seq<u8>, run: Run)
    requires |src| == 16 && (run.base == -1 || (run.len > 0 && ZeroRun(Words(src), run.base, run.len)))
    requires !Embedded(Words(src), run)
    ensures Printed(Words(src), run, 8) + (if run.base != -1 && run.base + run.len == 8 then ":" else "") == Text6(src, run)
  {
    hide Words, Text4, Digits;
    var ws := Words(src);
    assert ws[..8] == ws;
    if run.base != -1 && run.base + run.len == 8 {
      assert ws[8..] == [];
      assert Groups(ws[..run.base]) + ":" + ":" == Groups(ws[..run.base]) + "::" + "";
    } else if run.base != -1 {
      assert ws[run.base + run.len..8] == ws[run.base + run.len..];
    }
  }

  // ---------------------------------------------------------------- inet_pton4

  /** inet_pton4: four bytes at `at` of `dst`, untouched when the text is refused. */
  method Pton4(src: string, dst: array<u8>, at: nat) returns (ok: bool)
    requires at + 4 <= dst.Length
    modifies dst
    ensures ok == Parse4(src).Some?
    ensures ok ==> dst[..] == old(dst[..at]) + Parse4(src).value + old(dst[at + 4..])
    ensures !ok ==> dst[..] == old(dst[..])
  {
    hide Scan4;
    var sawDigit, octets := false, 0;
    var tmp := new u8[4];
    var tp := 0;
    tmp[tp] := 0;
    ghost var before := dst[..];
    assert tmp[..1] == [0] && src[0..] == src;
    for i := 0 to |src|
      invariant tp < 4 && QuadOk(Quad(tmp[..tp + 1], octets, sawDigit)) && dst[..] == before
      invariant Parse4(src) == Scan4(src[i..], Quad(tmp[..tp + 1], octets, sawDigit))
    {
      var ch := src[i];
      ghost var q := Quad(tmp[..tp + 1], octets, sawDigit);
      Scan4Reads(src[i..], q);
      assert src[i..][0] == ch && src[i..][1..] == src[i + 1..];
      if '0' <= ch <= '9' {
        var cur: int := tmp[tp];
        var newVal := cur * 10 + (ch - '0') as int;
        if newVal > 255 {
          return false;
        }
        tmp[tp] := newVal;
        assert tmp[..tp + 1] == q.b[tp := newVal];
        if !sawDigit {
          octets := octets + 1;
          if octets > 4 {
            return false;
          }
          sawDigit := true;
        }
      } else if ch == '.' && sawDigit {
        if octets == 4 {
          return false;
        }
        tp := tp + 1;
        tmp[tp] := 0;
        assert tmp[..tp + 1] == q.b + [0];
        sawDigit := false;
      } else {
        return false;
      }
    }
    Scan4Reads("", Quad(tmp[..tp + 1], octets, sawDigit));
    if octets < 4 {
      return false;
    }
    assert tmp[..tp + 1] == tmp[..];
    ghost var b := tmp[..];
    assert Parse4(src) == Some(b);
    CopyQuad(tmp, dst, at);
    ok := true;
  }

  method CopyQuad(tmp: array<u8>, dst: array<u8>, at: nat)
    requires tmp.Length == 4 && tmp != dst && at + 4 <= dst.Length
    modifies dst
    ensures dst[..] == old(dst[..at]) + tmp[..] + old(dst[at + 4..])
  {
    forall i | 0 <= i < 4 {
      dst[at + i] := tmp[i];
    }
  }

  lemma Scan4Reads(s: string, q: Quad)
    requires QuadOk(q)
    ensures s == "" ==> Scan4(s, q) == if q.octets < 4 then None else Some(q.b)
    ensures s != "" ==> Scan4(s, q) == match QuadStep(q, s[0]) case None => None case Some(q') => Scan4(s[1..], q')
  {
  }

  // ---------------------------------------------------------------- inet_pton6

  /** The bytes written so far stand at the front of `tmp`; the rest of it is still zero. */
  ghost predicate Holds(tmp: array<u8>, tp: nat, out: seq<u8>)
    reads tmp
  {
    tmp.Length == 16 && tp == |out| <= 16 && tmp[..tp] == out && forall k :: tp <= k < 16 ==> tmp[k] == 0
  }

  /** The two bytes of a group, high byte first. */
  method PutGroup(tmp: array<u8>, tp: nat, val: u16, ghost out: seq<u8>) returns (tp': nat)
    requires Holds(tmp, tp, out) && tp <= 14
    modifies tmp
    ensures tp' == tp + 2 && Holds(tmp, tp', out + BytesOfU16(val))
  {
    tmp[tp] := (val / 0x100) % 0x100;
    tmp[tp + 1] := val % 0x100;
    tp' := tp + 2;
    assert tmp[..tp'] == tmp[..tp] + [tmp[tp], tmp[tp + 1]];
  }

  /** The overlapping shift by hand: what was written from `colon` on moves to the end, zeros take its place. */
  method ShiftRight(tmp: array<u8>, tp: nat, colon: nat, ghost out: seq<u8>)
    requires Holds(tmp, tp, out) && colon <= tp
    modifies tmp
    ensures tmp[..] == Shifted(out, colon)
  {
    var n := tp - colon;
    ghost var gap := 16 - tp;
    for i := 1 to n + 1
      invariant forall k :: 0 <= k < tp - (i - 1) ==> tmp[k] == out[k]
      invariant forall k :: tp - (i - 1) <= k < 16 - (i - 1) ==> tmp[k] == 0
      invariant forall k :: 16 - (i - 1) <= k < 16 ==> tmp[k] == if gap > 0 then out[k - gap] else 0
    {
      tmp[16 - i] := tmp[colon + n - i];
      tmp[colon + n - i] := 0;
    }
    ghost var want := Shifted(out, colon);
    assert forall k :: 0 <= k < 16 ==> tmp[k] == want[k];
  }

  /** One branch of the main loop, seen from the specification. */
  lemma Scan6Reads(s: string, i: nat, p: Parser)
    requires i <= |s| && p.tok <= i && ParserOk(p)
    ensures i == |s| ==> Scan6(s, i, p) == Some(p)
    ensures i < |s| && DigitValue(s[i]).Some? ==>
      var v := 16 * p.val + DigitValue(s[i]).value;
      Scan6(s, i, p) == if v > 0xffff then None else Scan6(s, i + 1, p.(val := v, sawHex := true))
    ensures i < |s| && s[i] == ':' && !p.sawHex ==>
      Scan6(s, i, p) == if p.colon.Some? then None else Scan6(s, i + 1, p.(colon := Some(|p.out|), tok := i + 1))
    ensures i < |s| && s[i] == ':' && p.sawHex ==>
      Scan6(s, i, p) == if |p.out| + 2 > 16 then None
                        else Scan6(s, i + 1, Parser(p.out + BytesOfU16(p.val), p.colon, 0, false, i + 1))
    ensures i < |s| && s[i] == '.' ==>
      Scan6(s, i, p) == if |p.out| + 4 <= 16 && Parse4(s[p.tok..]).Some?
                        then Some(p.(out := p.out + Parse4(s[p.tok..]).value, sawHex := false)) else None
    ensures i < |s| && DigitValue(s[i]).None? && s[i] != ':' && s[i] != '.' ==> Scan6(s, i, p).None?
  {
  }

  /** inet_pton6: the sixteen bytes of the address, or None when the text is refused. */
  method Pton6(src: string) returns (r: Option<seq<u8>>)
    ensures r == Parse6(src)
  {
    hide Scan6, Scan4, DigitValue, Shifted, Parse4;
    var tmp := new u8[16](_ => 0);
    var tp: nat, colonp: Option<nat>, sawHex, val: u16 := 0, None, false, 0;
    var i := 0;
    if |src| > 0 && src[0] == ':' {
      if !(|src| > 1 && src[1] == ':') {
        return None;
      }
      i := 1;
    }
    var tok := i;
    ghost var out: seq<u8> := [];
    ghost var start := i;
    ghost var end := Scan6(src, start, Fresh([], None, start));
    while i < |src|
      invariant start <= i <= |src| && tok <= i && Holds(tmp, tp, out)
      invariant colonp.Some? ==> colonp.value <= tp
      invariant end == Scan6(src, i, Parser(out, colonp, val, sawHex, tok))
      decreases |src| - i
    {
      var ch := src[i];
      Scan6Reads(src, i, Parser(out, colonp, val, sawHex, tok));
      i := i + 1;
      var d := DigitValue(ch);
      if d.Some? {
        var v: int := 16 * val + d.value;
        if v > 0xffff {
          return None;
        }
        val, sawHex := v, true;
        continue;
      }
      if ch == ':' {
        tok := i;
        if !sawHex {
          if colonp.Some? {
            return None;
          }
          colonp := Some(tp);
          continue;
        }
        if tp + 2 > 16 {
          return None;
        }
        tp := PutGroup(tmp, tp, val, out);
        out := out + BytesOfU16(val);
        sawHex, val := false, 0;
        continue;
      }
      if ch == '.' && tp + 4 <= 16 {
        var ok := Pton4(src[tok..], tmp, tp);
        if ok {
          out := out + Parse4(src[tok..]).value;
          tp := tp + 4;
          sawHex := false;
          break;
        }
      }
      return None;
    }
    Scan6Reads(src, |src|, Parser(out, colonp, val, sawHex, tok));
    r := Complete(tmp, tp, colonp, sawHex, val, Parser(out, colonp, val, sawHex, tok));
  }

  /** The end of inet_pton6: the last group, then the shift. */
  method Complete(tmp: array<u8>, tp: nat, colonp: Option<nat>, sawHex: bool, val: u16, ghost p: Parser)
    returns (r: Option<seq<u8>>)
    requires ParserOk(p) && Holds(tmp, tp, p.out)
    requires p.colon == colonp && p.sawHex == sawHex && (sawHex ==> p.val == val)
    modifies tmp
    ensures r == Finish(p)
  {
    hide Shifted, BytesOfU16;
    var tp := tp;
    ghost var out := p.out;
    if sawHex {
      if tp + 2 > 16 {
        return None;
      }
      tp := PutGroup(tmp, tp, val, out);
      out := out + BytesOfU16(val);
    }
    if colonp.Some? {
      ShiftRight(tmp, tp, colonp.value, out);
      tp := 16;
    }
    if tp != 16 {
      return None;
    }
    assert colonp.None? ==> tmp[..] == tmp[..tp] == out;
    r := Some(tmp[..]);
  }

  /** An address printed into an ordinary 46-byte text buffer and parsed again. */
  method PrintAndParse(src: seq<u8>) returns (r: Option<seq<u8>>)
    requires |src| == 16
    ensures r == Some(src)
  {
    hide Text6, Parse6;
    var text := new char[46];
    var ok, run := Ntop6(src, text);
    Text6Length(src, run);
    r := Pton6(text[..|Text6(src, run)|]);
  }
}
