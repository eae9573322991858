/** JSON strings, numbers and words as text: escaping, unescaping and the recognition of values. */
module JsonText {
  import opened Base
  import opened NumberText

  const HEX: string := "0123456789ABCDEF"

  // ---------------------------------------------------------------- escaping

  /** One character as utf8_encode writes it; characters stand for bytes. */
  function EscapeChar(c: char): (e: string)
    ensures |e| > 0
  {
    if c == '\"' then "\\\""
    else if c == '\\' then "\\\\"
    else if c == '/' then "\\/"
    else if c == '\U{08}' then "\\b"
    else if c == '\U{0C}' then "\\f"
    else if c == '\n' then "\\n"
    else if c == '\r' then "\\r"
    else if c == '\t' then "\\t"
    else if c < ' ' then "\\u00" + [HEX[c as int / 16 % 16], HEX[c as int % 16]]
    else [c]
  }

  function Escape(s: string): string {
    if s == "" then "" else EscapeChar(s[0]) + Escape(s[1..])
  }

  function HexAt(s: string, i: nat): Option<nat> {
    if i < |s| then DigitValue(s[i]) else None
  }

  /** The text behind one backslash-u and its four hexadecimal digits. */
  function CodeText(u: nat): string
    requires u < 0x1_0000
  {
    if u > 255 then [(u / 256) as char, (u % 256) as char] else [u as char]
  }

  /** What an escape stands for and how long it is; None when it is cut off or malformed. */
  function UnescapeOne(s: string): (r: Option<(string, nat)>)
    requires s != ""
    ensures r.Some? ==> 1 <= r.value.1 <= |s|
  {
    if s[0] != '\\' then Some(([s[0]], 1))
    else if |s| < 2 then None
    else if s[1] == 'b' then Some((['\U{08}'], 2))
    else if s[1] == 'f' then Some((['\U{0C}'], 2))
    else if s[1] == 'n' then Some((['\n'], 2))
    else if s[1] == 'r' then Some((['\r'], 2))
    else if s[1] == 't' then Some((['\t'], 2))
    else if s[1] == 'u' then
      if |s| < 6 then None
      else
        match (HexAt(s, 2), HexAt(s, 3), HexAt(s, 4), HexAt(s, 5))
        case (Some(a), Some(b), Some(c), Some(d)) => Some((CodeText(a * 4096 + b * 256 + c * 16 + d), 6))
        case _ => None
    else Some(([s[1]], 2))
  }

  /** utf8_decode; None stands for EBADMSG. */
  function Unescape(s: string): Option<string>
    decreases |s|
  {
    if s == "" then Some("")
    else
      match UnescapeOne(s)
      case None => None
      case Some((t, n)) =>
        match Unescape(s[n..])
        case None => None
        case Some(rest) => Some(t + rest)
  }

  lemma UnescapeEscapedChar(c: char, rest: string)
    ensures UnescapeOne(EscapeChar(c) + rest) == Some(([c], |EscapeChar(c)|))
  {
    var s := EscapeChar(c) + rest;
    assert s[0] == EscapeChar(c)[0];
    if |EscapeChar(c)| > 1 { assert s[1] == EscapeChar(c)[1]; }
    if |EscapeChar(c)| == 6 { UnescapeControl(c, rest); }
  }

  /** A control character printed as backslash-u and four digits. */
  lemma UnescapeControl(c: char, rest: string)
    requires |EscapeChar(c)| == 6
    ensures UnescapeOne(EscapeChar(c) + rest) == Some(([c], 6))
  {
    hide DigitValue;
    var s, h, l := EscapeChar(c) + rest, c as int / 16, c as int % 16;
    assert h < 2 && 16 * h + l == c as int;
    HexDigit(0);
    HexDigit(h);
    HexDigit(l);
    assert s[0] == '\\' && s[1] == 'u' && s[2] == HEX[0] && s[3] == HEX[0] && s[4] == HEX[h] && s[5] == HEX[l];
  }

  lemma HexDigit(d: nat)
    requires d < 16
    ensures DigitValue(HEX[d]) == Some(d)
  {
  }

  /** Unescaping undoes escaping, for every string. */
  lemma {:induction false} UnescapeEscape(s: string)
    ensures Unescape(Escape(s)) == Some(s)
  {
    hide EscapeChar, UnescapeOne;
    if s != "" {
      var e, rest := EscapeChar(s[0]), Escape(s[1..]);
      UnescapeEscapedChar(s[0], rest);
      UnescapeEscape(s[1..]);
      assert (e + rest)[|e|..] == rest;
      assert [s[0]] + s[1..] == s;
    }
  }

  // ---------------------------------------------------------------- quotes

  /** The two flags of the decoder's scan inside a quoted string, after one more character. */
  function QuoteStep(esc: bool, c: char): (bool, bool) {
    if esc then (false, true) else (c == '\\', c != '\"')
  }

  /** The scan is still inside the quotes after all of `s`; returns whether the last character was a backslash. */
  function StaysQuoted(esc: bool, s: string): Option<bool>
    decreases |s|
  {
    if s == "" then Some(esc)
    else if QuoteStep(esc, s[0]).1 then StaysQuoted(QuoteStep(esc, s[0]).0, s[1..])
    else None
  }

  lemma {:induction false} StaysQuotedAppend(esc: bool, s: string, t: string)
    requires StaysQuoted(esc, s).Some?
    ensures StaysQuoted(esc, s + t) == StaysQuoted(StaysQuoted(esc, s).value, t)
    decreases s
  {
    if s == "" {
      assert s + t == t;
    } else {
      StaysQuotedAppend(QuoteStep(esc, s[0]).0, s[1..], t);
      assert (s + t)[1..] == s[1..] + t;
    }
  }

  lemma EscapedCharStaysQuoted(c: char)
    ensures StaysQuoted(false, EscapeChar(c)) == Some(false)
  {
    var e := EscapeChar(c);
    if |e| == 1 {
      assert e == [c] && e[1..] == "";
    } else if |e| == 2 {
      assert e[0] == '\\' && e[1..][1..] == "";
      assert StaysQuoted(true, e[1..]) == StaysQuoted(false, "");
    } else {
      PlainStaysQuoted(e[2..]);
      assert e[1..][1..] == e[2..] && e[1..][0] == 'u';
    }
  }

  lemma {:induction false} PlainStaysQuoted(s: string)
    requires forall i :: 0 <= i < |s| ==> s[i] != '\"' && s[i] != '\\'
    ensures StaysQuoted(false, s) == Some(false)
  {
    if s != "" { PlainStaysQuoted(s[1..]); }
  }

  /** Escaped text never closes its quotes. */
  lemma {:induction false} EscapedStaysQuoted(s: string)
    ensures StaysQuoted(false, Escape(s)) == Some(false)
  {
    if s != "" {
      EscapedCharStaysQuoted(s[0]);
      EscapedStaysQuoted(s[1..]);
      StaysQuotedAppend(false, EscapeChar(s[0]), Escape(s[1..]));
    }
  }
}
