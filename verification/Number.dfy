/** Integers printed in decimal or hexadecimal. */
module NumberText {
  import opened Base

  function DigitChar(d: nat): char
    requires d < 16
  {
    if d < 10 then '0' + d as char else 'a' + (d - 10) as char
  }

  function DigitValue(c: char): (d: Option<nat>)
    ensures d.Some? ==> d.value < 16
  {
    if '0' <= c <= '9' then Some((c - '0') as nat)
    else if 'a' <= c <= 'f' then Some((c - 'a') as nat + 10)
    else if 'A' <= c <= 'F' then Some((c - 'A') as nat + 10)
    else None
  }

  predicate IsBase(base: nat) { base == 10 || base == 16 }

  function Quot(n: nat, base: nat): (q: nat)
    requires IsBase(base)
    ensures 8 * q <= n
  {
    if base == 10 then n / 10 else n / 16
  }

  function Rem(n: nat, base: nat): (r: nat)
    requires IsBase(base)
    ensures r < base && Join(Quot(n, base), r, base) == n
  {
    if base == 10 then n % 10 else n % 16
  }

  function Join(q: nat, r: nat, base: nat): nat
    requires IsBase(base)
  {
    if base == 10 then 10 * q + r else 16 * q + r
  }

  /** The digits of a number, most significant first; zero is one digit. */
  function Digits(n: nat, base: nat): (s: string)
    requires IsBase(base)
    ensures |s| > 0
  {
    (if n < base then "" else Digits(Quot(n, base), base)) + [DigitChar(Rem(n, base))]
  }

  function Itoa(i: int): string {
    if i < 0 then "-" + Digits(-i, 10) else Digits(i, 10)
  }

  /** The number a digit string stands for, or None when a character is not a digit of the base. */
  function Value(s: string, base: nat): Option<nat>
    requires IsBase(base)
  {
    if s == "" then Some(0)
    else
      match (Value(s[..|s| - 1], base), DigitValue(s[|s| - 1]))
      case (Some(v), Some(d)) => if d < base then Some(Join(v, d, base)) else None
      case _ => None
  }

  lemma DigitRoundTrip(d: nat)
    requires d < 16
    ensures DigitValue(DigitChar(d)) == Some(d)
  {
  }

  lemma RemJoin(n: nat, base: nat)
    requires IsBase(base)
    ensures Rem(n, base) < base && Join(Quot(n, base), Rem(n, base), base) == n
    ensures n < base ==> Quot(n, base) == 0
  {
  }

  lemma NoDigits(base: nat)
    requires IsBase(base)
    ensures Value("", base) == Some(0)
  {
  }

  lemma LastDigit(s: string, base: nat)
    requires IsBase(base) && s != ""
    requires Value(s[..|s| - 1], base).Some? && DigitValue(s[|s| - 1]).Some? && DigitValue(s[|s| - 1]).value < base
    ensures Value(s, base) == Some(Join(Value(s[..|s| - 1], base).value, DigitValue(s[|s| - 1]).value, base))
  {
  }

  lemma {:induction false} DigitsRoundTrip(n: nat, base: nat)
    requires IsBase(base)
    ensures Value(Digits(n, base), base) == Some(n)
  {
    hide DigitChar, DigitValue, Value;
    var s, front := Digits(n, base), if n < base then "" else Digits(Quot(n, base), base);
    DigitRoundTrip(Rem(n, base));
    RemJoin(n, base);
    if n >= base {
      DigitsRoundTrip(Quot(n, base), base);
    } else {
      NoDigits(base);
    }
    assert s[..|s| - 1] == front;
    LastDigit(s, base);
  }

  /** local_itoa: fills a 64-byte buffer from its end, then moves the digits to the front. */
  method LocalItoa(buf: array<char>, n: nat, base: nat) returns (len: nat)
    requires buf.Length == 64 && n < TWO64 && IsBase(base)
    modifies buf
    ensures len < 64 && buf[..len] == Digits(n, base)
  {
    hide Digits, Quot, Rem, Join, DigitChar, Pow2;
    var p := 64;
    len := 1;
    p := p - 1;
    buf[p] := '\0';
    var m: nat, more := n, true;
    SixtyFourBits();
    ghost var left: nat := 64;
    while more
      invariant 0 <= p <= 63 && left <= 3 * p && len == 64 - p
      invariant m < Pow2(left) && (p == 63 ==> left == 64) && (more ==> p == 63 || m > 0)
      invariant !more ==> p < 63
      invariant Digits(n, base) == (if more then Digits(m, base) else "") + buf[p..63]
      decreases more, m
    {
      if left == 0 { NoBits(m); }
      RemJoin(m, base);
      var dv := Quot(m, base);
      var c := Rem(m, base);
      p := p - 1;
      OneDigit(m, base, buf[p + 1..63]);
      Store(buf, p, DigitChar(c));
      QuotSmaller(m, base);
      ThreeBitsLess(m, dv, left);
      m := dv;
      left := if left < 3 then 0 else left - 3;
      len := len + 1;
      more := m != 0;
    }
    MoveToFront(buf, p);
    len := len - 1;
  }

  /** A character in front of those already in the buffer. */
  method Store(buf: array<char>, p: nat, c: char)
    requires p < buf.Length - 1
    modifies buf
    ensures buf[p..buf.Length - 1] == [c] + old(buf[p + 1..buf.Length - 1])
  {
    buf[p] := c;
  }

  /** memmove of the digits, which end one short of the end of the buffer. */
  method MoveToFront(buf: array<char>, p: nat)
    requires p < buf.Length
    modifies buf
    ensures buf[..buf.Length - 1 - p] == old(buf[p..buf.Length - 1])
  {
    forall i | 0 <= i < buf.Length - p {
      buf[i] := buf[p + i];
    }
  }

  function Pow2(n: nat): nat { if n == 0 then 1 else 2 * Pow2(n - 1) }

  lemma OneDigit(m: nat, base: nat, tail: string)
    requires IsBase(base)
    ensures (if Quot(m, base) == 0 then "" else Digits(Quot(m, base), base)) + ([DigitChar(Rem(m, base))] + tail)
            == Digits(m, base) + tail
  {
    var front := if m < base then "" else Digits(Quot(m, base), base);
    assert front + ([DigitChar(Rem(m, base))] + tail) == (front + [DigitChar(Rem(m, base))]) + tail;
  }

  lemma QuotSmaller(m: nat, base: nat)
    requires IsBase(base)
    ensures 8 * Quot(m, base) <= m
  {
  }

  lemma ThreeBitsLess(m: nat, dv: nat, left: nat)
    requires m < Pow2(left) && 8 * dv <= m
    ensures dv < Pow2(if left < 3 then 0 else left - 3)
  {
    if left >= 3 {
      assert Pow2(left) == 2 * Pow2(left - 1) && Pow2(left - 1) == 2 * Pow2(left - 2);
      assert Pow2(left - 2) == 2 * Pow2(left - 3);
    } else {
      assert Pow2(2) == 4 && Pow2(1) == 2;
    }
  }

  lemma NoBits(m: nat)
    requires m < Pow2(0)
    ensures m == 0
  {
  }

  lemma EightMore(n: nat)
    ensures Pow2(n + 8) == 256 * Pow2(n)
  {
    assert Pow2(n + 2) == 4 * Pow2(n);
    assert Pow2(n + 4) == 4 * Pow2(n + 2);
    assert Pow2(n + 6) == 4 * Pow2(n + 4);
  }

  lemma SixtyFourBits()
    ensures Pow2(64) == TWO64
  {
    assert Pow2(0) == 1;
    hide Pow2;
    EightMore(0);
    EightMore(8);
    EightMore(16);
    EightMore(24);
    EightMore(32);
    EightMore(40);
    EightMore(48);
    EightMore(56);
  }
}
