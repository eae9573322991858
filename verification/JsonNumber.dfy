/** JSON numbers: the recognition loop that reads a text from its end, and what it accepts. */
module JsonNumber {
  import opened Base
  import opened NumberText

  /**
   * A number as recognised: an integer, or a real whose division by a power of ten may have been one by zero.
   * Reals are exact here; the rounding of `long double` is not modelled.
   */
  datatype Number = Whole(i: int) | Fractional(x: Option<real>)

  /** A multiplication by an integer, named so that proofs can leave it alone. */
  function Scaled(m: real, n: nat): (p: real)
    ensures m > 0.0 && n > 0 ==> p > 0.0
  {
    m * n as real
  }

  /** mypower10: the multiplications are modulo 2^64. */
  function Power10(e: nat): (n: nat)
    ensures n < TWO64
  {
    if e == 0 then 1 else Power10(e - 1) * 10 % TWO64
  }

  method MyPower10(e: nat) returns (n: nat)
    ensures n == Power10(e) == Tens(e) % TWO64
  {
    PowerWraps(e);
    n := 1;
    for i := 0 to e
      invariant n == Power10(i)
    {
      n := n * 10 % TWO64;
    }
  }

  type Weight = x: real | x > 0.0 witness 1.0

  datatype NumState = NumState(neg: bool, pos: bool, frac: bool, exp: bool, v: real, mul: Weight, e: int)

  const BEGIN: NumState := NumState(false, false, false, false, 0.0, 1.0, 0)

  /** The state behind an exponent, read from the end. */
  function AfterExp(st: NumState): NumState {
    NumState(false, false, false, true, 0.0, 1.0, if st.neg then -st.v.Floor else st.v.Floor)
  }

  /** The mantissa times the power of ten of the exponent. */
  function Scale(x: real, e: int): Option<real> {
    if e >= 0 then Some(Scaled(x, Power10(e)))
    else if Power10(-e) == 0 then None
    else Some(x / Power10(-e) as real)
  }

  function Signed(neg: bool, x: real): real { if neg then -x else x }

  /** The end of is_number, when all of the text has been read. */
  function Finish(st: NumState): Number {
    if st.frac || st.e < 0 then
      match Scale(st.v, st.e)
      case None => Fractional(None)
      case Some(x) => Fractional(Some(Signed(st.neg, x)))
    else Whole(Signed(st.neg, Scaled(st.v, Power10(st.e))).Floor)
  }

  /** One character, read in front of the others; None when the text is not a number. */
  function NumStep(ch: char, st: NumState): Option<NumState> {
    if ch == 'e' || ch == 'E' then
      if st.exp || st.frac then None else Some(AfterExp(st))
    else if st.pos || st.neg then None
    else if ch == '.' then
      if st.frac then None
      else Some(st.(frac := true, v := st.v / st.mul, mul := 1.0))
    else if '0' <= ch <= '9' then
      Some(st.(v := st.v + Scaled(st.mul, (ch - '0') as nat), mul := Scaled(st.mul, 10)))
    else if ch == '-' then Some(st.(neg := true))
    else if ch == '+' then Some(st.(pos := true))
    else None
  }

  /** is_number: reads the text from its end; None when it is not a number. */
  function NumScan(s: string, st: NumState): Option<Number>
    decreases |s|
  {
    if s == "" then Some(Finish(st))
    else
      match NumStep(s[|s| - 1], st)
      case None => None
      case Some(st') => NumScan(s[..|s| - 1], st')
  }

  function IsNumber(s: string): Option<Number> {
    if s == "" then None else NumScan(s, BEGIN)
  }

  /** is_number as it runs, from the last character to the first. */
  method ReadNumber(s: string) returns (r: Option<Number>)
    ensures r == IsNumber(s)
  {
    hide NumStep, AfterExp, Finish;
    if s == "" {
      return None;
    }
    var p, st := |s|, BEGIN;
    assert s[..p] == s;
    while p > 0
      invariant p <= |s| && NumScan(s[..p], st) == IsNumber(s)
    {
      p := p - 1;
      assert s[..p + 1][..p] == s[..p];
      match NumStep(s[p], st) {
        case None => return None;
        case Some(next) => st := next;
      }
    }
    r := Some(Finish(st));
  }

  // ---------------------------------------------------------------- the texts accepted and what they mean

  datatype Sign = Unsigned | Plus | Minus

  datatype Exponent = Exponent(letter: char, sign: Sign, digits: string)

  /** The parts of a number's text. Any of the digit strings may be empty. */
  datatype Numeral = Numeral(sign: Sign, whole: string, point: bool, frac: string, exp: Option<Exponent>)

  predicate IsDigits(s: string) { Value(s, 10).Some? }

  function Dec(s: string): nat
    requires IsDigits(s)
  {
    Value(s, 10).value
  }

  function Tens(n: nat): (t: nat)
    ensures t > 0
  {
    if n == 0 then 1 else 10 * Tens(n - 1)
  }

  predicate Numeric(n: Numeral) {
    && IsDigits(n.whole) && IsDigits(n.frac) && (!n.point ==> n.frac == "")
    && (n.exp.Some? ==> n.exp.value.letter in "eE" && IsDigits(n.exp.value.digits))
  }

  function SignText(s: Sign): string {
    match s case Unsigned => "" case Plus => "+" case Minus => "-"
  }

  function Point(n: Numeral): string { if n.point then "." else "" }

  function MantissaText(n: Numeral): string { SignText(n.sign) + n.whole + Point(n) + n.frac }

  function Spell(n: Numeral): string {
    match n.exp
    case None => MantissaText(n)
    case Some(x) => MantissaText(n) + [x.letter] + SignText(x.sign) + x.digits
  }

  function Mantissa(n: Numeral): real
    requires Numeric(n)
  {
    Dec(n.whole) as real + Dec(n.frac) as real / Tens(|n.frac|) as real
  }

  function ExpOf(n: Numeral): int
    requires Numeric(n)
  {
    match n.exp
    case None => 0
    case Some(x) => SignedInt(x.sign, Dec(x.digits))
  }

  function SignedInt(sign: Sign, n: int): int { if sign.Minus? then -n else n }

  /** The value of a text by its parts: an integer when there is neither a point nor a negative exponent. */
  function Meaning(n: Numeral): Number
    requires Numeric(n)
  {
    if n.point || ExpOf(n) < 0 then
      match Scale(Mantissa(n), ExpOf(n))
      case None => Fractional(None)
      case Some(x) => Fractional(Some(Signed(n.sign.Minus?, x)))
    else
      Whole(SignedInt(n.sign, Dec(n.whole) * Power10(ExpOf(n))))
  }

  lemma ScanOne(rest: string, ch: char, st: NumState)
    ensures NumScan(rest + [ch], st) == match NumStep(ch, st) case None => None case Some(st') => NumScan(rest, st')
  {
    var s := rest + [ch];
    assert s[|s| - 1] == ch && s[..|s| - 1] == rest;
  }

  lemma DigitStep(ch: char, st: NumState)
    requires DigitValue(ch).Some? && DigitValue(ch).value < 10 && !st.neg && !st.pos
    ensures NumStep(ch, st) == Some(st.(v := st.v + Scaled(st.mul, DigitValue(ch).value), mul := Scaled(st.mul, 10)))
  {
    hide Scaled, AfterExp;
    PositiveScaled(st.mul, 10);
  }

  lemma PositiveScaled(m: real, n: nat)
    requires m > 0.0 && n > 0
    ensures Scaled(m, n) > 0.0
  {
  }

  lemma DigitsSplit(s: string)
    requires IsDigits(s) && s != ""
    ensures var front := s[..|s| - 1];
            && IsDigits(front) && DigitValue(s[|s| - 1]).Some? && DigitValue(s[|s| - 1]).value < 10
            && Dec(s) == 10 * Dec(front) + DigitValue(s[|s| - 1]).value
  {
  }

  lemma Distribute(m: real, d: nat, q: nat)
    ensures Scaled(m, d) + Scaled(Scaled(m, 10), q) == Scaled(m, 10 * q + d)
  {
    var dr, qr := d as real, q as real;
    assert (10 * q + d) as real == 10.0 * qr + dr;
    Distributive(m, dr, qr);
  }

  lemma Distributive(m: real, d: real, q: real)
    ensures m * d + (m * 10.0) * q == m * (10.0 * q + d)
  {
  }

  lemma ScaledOne(n: nat)
    ensures Scaled(1.0, n) == n as real
  {
  }

  lemma ScaledZero(m: real)
    ensures Scaled(m, 0) == 0.0
  {
  }

  /** The state after the digits of `ds`. */
  function AfterDigits(ds: string, st: NumState): NumState
    requires IsDigits(ds)
  {
    st.(v := st.v + Scaled(st.mul, Dec(ds)), mul := Scaled(st.mul, Tens(|ds|)))
  }

  lemma {:induction false} ScanDigits(front: string, ds: string, st: NumState)
    requires IsDigits(ds) && !st.neg && !st.pos
    ensures NumScan(front + ds, st) == NumScan(front, AfterDigits(ds, st))
    decreases |ds|
  {
    hide NumScan, NumStep, IsDigits, Dec, Scaled;
    NoDigitsValue();
    if ds == "" {
      assert front + ds == front;
      ScaledZero(st.mul);
      AsIs(st.mul);
    } else {
      var most, ch := ds[..|ds| - 1], ds[|ds| - 1];
      DigitsSplit(ds);
      var d := DigitValue(ch).value;
      assert front + ds == (front + most) + [ch];
      ScanOne(front + most, ch, st);
      DigitStep(ch, st);
      PositiveScaled(st.mul, 10);
      var st' := st.(v := st.v + Scaled(st.mul, d), mul := Scaled(st.mul, 10));
      ScanDigits(front, most, st');
      Distribute(st.mul, d, Dec(most));
      Distribute(st.mul, 0, Tens(|most|));
      ScaledZero(st.mul);
    }
  }

  lemma AsIs(m: real)
    ensures Scaled(m, 1) == m
  {
  }

  lemma NoDigitsValue()
    ensures IsDigits("") && Dec("") == 0
  {
  }

  lemma ScanSign(front: string, sign: Sign, st: NumState)
    requires !st.neg && !st.pos
    ensures NumScan(front + SignText(sign), st) == NumScan(front, st.(neg := sign.Minus?, pos := sign.Plus?))
  {
    hide NumScan;
    if sign.Unsigned? {
      assert front + "" == front;
    } else {
      ScanOne(front, SignText(sign)[0], st);
    }
  }

  /** A mantissa read to its beginning. */
  lemma ScanMantissa(n: Numeral, st: NumState) returns (mul: Weight)
    requires Numeric(n) && !st.neg && !st.pos && !st.frac && st.v == 0.0 && st.mul == 1.0
    ensures NumScan(MantissaText(n), st)
            == Some(Finish(st.(neg := n.sign.Minus?, pos := n.sign.Plus?, frac := n.point, v := Mantissa(n), mul := mul)))
  {
    hide NumScan, IsDigits, Dec, Scaled;
    NoDigitsValue();
    ScaledOne(Dec(n.frac));
    ScaledOne(Tens(|n.frac|));
    ScaledOne(Dec(n.whole));
    var sw := SignText(n.sign) + n.whole;
    var st1 := st;
    if n.point {
      ScanDigits(sw + ".", n.frac, st);
      st1 := AfterDigits(n.frac, st);
      ScanOne(sw, '.', st1);
      st1 := st1.(frac := true, v := st1.v / st1.mul, mul := 1.0);
      assert MantissaText(n) == (sw + ".") + n.frac;
    } else {
      assert MantissaText(n) == sw;
      assert Tens(0) == 1;
    }
    assert NumScan(MantissaText(n), st) == NumScan(sw, st1);
    assert st1.v == Dec(n.frac) as real / Tens(|n.frac|) as real;
    ScanDigits(SignText(n.sign), n.whole, st1);
    var st2 := AfterDigits(n.whole, st1);
    assert "" + SignText(n.sign) == SignText(n.sign);
    ScanSign("", n.sign, st2);
    var st3 := st2.(neg := n.sign.Minus?, pos := n.sign.Plus?);
    ScanEnd(st3);
    assert st2.v == Mantissa(n);
    mul := st2.mul;
    assert st3 == st.(neg := n.sign.Minus?, pos := n.sign.Plus?, frac := n.point, v := Mantissa(n), mul := st2.mul);
  }

  lemma ScanEnd(st: NumState)
    ensures NumScan("", st) == Some(Finish(st))
  {
  }

  /** Behind the exponent the mantissa is read from a state that knows only the exponent. */
  lemma ScanExponent(front: string, x: Exponent)
    requires x.letter in "eE" && IsDigits(x.digits)
    ensures NumScan(front + [x.letter] + SignText(x.sign) + x.digits, BEGIN)
            == NumScan(front, BEGIN.(exp := true, e := SignedInt(x.sign, Dec(x.digits))))
  {
    hide NumScan, IsDigits, Dec, Scaled;
    ScaledOne(Dec(x.digits));
    var st := AfterDigits(x.digits, BEGIN);
    assert st.v == Dec(x.digits) as real;
    ScanDigits(front + [x.letter] + SignText(x.sign), x.digits, BEGIN);
    ScanSign(front + [x.letter], x.sign, st);
    ScanOne(front, x.letter, st.(neg := x.sign.Minus?, pos := x.sign.Plus?));
  }

  lemma WholeValue(n: nat, p: nat)
    ensures Scaled(n as real, p).Floor == n * p
    ensures (-Scaled(n as real, p)).Floor == -(n * p)
  {
    var x := n as real * p as real;
    assert x == (n * p) as real;
  }

  /** Every text put together from the parts of a numeral is recognised, with the value of those parts. */
  lemma NumberMeans(n: Numeral)
    requires Numeric(n) && Spell(n) != ""
    ensures IsNumber(Spell(n)) == Some(Meaning(n))
  {
    hide NumScan, IsDigits, Dec, MantissaText, Power10, Scaled;
    NoDigitsValue();
    var st := BEGIN.(exp := n.exp.Some?, e := ExpOf(n));
    if n.exp.Some? {
      ScanExponent(MantissaText(n), n.exp.value);
    }
    var mul := ScanMantissa(n, st);
    if !n.point && ExpOf(n) >= 0 {
      assert Tens(0) == 1 && Mantissa(n) == Dec(n.whole) as real;
      WholeValue(Dec(n.whole), Power10(ExpOf(n)));
    }
  }

  lemma DigitAppended(ds: string, ch: char)
    requires IsDigits(ds) && '0' <= ch <= '9'
    ensures IsDigits(ds + [ch])
  {
    assert (ds + [ch])[..|ds|] == ds;
  }

  /** Nothing but the sign of the mantissa can stand in front of what has been read. */
  predicate Bare(s: string, st: NumState) { st.neg || st.pos ==> s == "" }

  const NOTHING: Numeral := Numeral(Unsigned, "", false, "", None)

  lemma NoText()
    ensures Numeric(NOTHING) && Spell(NOTHING) == ""
  {
    NoDigitsValue();
  }

  /** What a step that does not fail makes of the flags, by the kind of character. */
  lemma StepKinds(ch: char, st: NumState)
    requires NumStep(ch, st).Some?
    ensures var st' := NumStep(ch, st).value;
            if ch in "eE" then st' == AfterExp(st) && st'.exp && !st.exp && !st.frac
            else
              && !st.neg && !st.pos && st'.exp == st.exp
              && if ch == '.' then !st.frac && st'.frac && !st'.neg && !st'.pos
                 else
                   && st'.frac == st.frac
                   && if ch in "+-" then st'.neg || st'.pos else '0' <= ch <= '9' && !st'.neg && !st'.pos
  {
  }

  /** The mantissa's text that a scan gets through, when the exponent has been read. */
  lemma {:induction false} MantissaOf(s: string, st: NumState) returns (n: Numeral)
    requires NumScan(s, st).Some? && st.exp
    ensures Numeric(n) && n.exp.None? && Spell(n) == s && (st.frac ==> !n.point) && Bare(s, st)
    decreases |s|
  {
    hide IsDigits, Finish, NumStep, Spell, Numeric;
    if s == "" {
      NoText();
      return NOTHING;
    }
    var ch, rest := s[|s| - 1], s[..|s| - 1];
    assert s == rest + [ch];
    StepKinds(ch, st);
    n := MantissaOf(rest, NumStep(ch, st).value);
    n := Extended(rest, ch, n);
  }

  /** A numeral's text with one more character that is neither a letter nor a second point. */
  lemma Extended(rest: string, ch: char, n: Numeral) returns (r: Numeral)
    requires Numeric(n) && n.exp.None? && Spell(n) == rest
    requires '0' <= ch <= '9' || (ch == '.' && !n.point) || (ch in "+-" && rest == "")
    ensures Numeric(r) && r.exp.None? && Spell(r) == rest + [ch] && (r.point <==> n.point || ch == '.')
  {
    hide IsDigits, MantissaText;
    NoDigitsValue();
    if ch == '.' {
      r := n.(point := true);
      PointAdded(n);
    } else if ch in "+-" {
      r := Numeral(if ch == '-' then Minus else Plus, "", false, "", None);
      SignAlone(n, r, ch);
    } else if n.point {
      DigitAppended(n.frac, ch);
      r := n.(frac := n.frac + [ch]);
      FracLonger(n, ch);
    } else {
      DigitAppended(n.whole, ch);
      r := n.(whole := n.whole + [ch]);
      WholeLonger(n, ch);
    }
  }

  lemma PointAdded(n: Numeral)
    requires Numeric(n) && !n.point
    ensures MantissaText(n.(point := true)) == MantissaText(n) + "."
  {
    hide IsDigits;
    assert SignText(n.sign) + n.whole + "." + "" == SignText(n.sign) + n.whole + "" + "" + ".";
  }

  lemma SignAlone(n: Numeral, r: Numeral, ch: char)
    requires Numeric(n) && MantissaText(n) == "" && ch in "+-"
    requires r == Numeral(if ch == '-' then Minus else Plus, "", false, "", None)
    ensures MantissaText(r) == [ch] && !n.point
  {
    hide IsDigits;
    assert |Point(n)| <= |MantissaText(n)|;
  }

  lemma FracLonger(n: Numeral, ch: char)
    ensures MantissaText(n.(frac := n.frac + [ch])) == MantissaText(n) + [ch]
  {
    var front := SignText(n.sign) + n.whole + Point(n);
    assert front + (n.frac + [ch]) == front + n.frac + [ch];
  }

  lemma WholeLonger(n: Numeral, ch: char)
    requires Numeric(n) && !n.point
    ensures MantissaText(n.(whole := n.whole + [ch])) == MantissaText(n) + [ch]
  {
    hide IsDigits;
    assert MantissaText(n) == SignText(n.sign) + n.whole;
    assert MantissaText(n.(whole := n.whole + [ch])) == SignText(n.sign) + (n.whole + [ch]);
  }

  lemma {:induction false} NumeralOf(s: string, st: NumState) returns (n: Numeral)
    requires NumScan(s, st).Some? && !st.exp
    ensures Numeric(n) && Spell(n) == s
    ensures n.exp.None? ==> (st.frac ==> !n.point) && Bare(s, st)
    ensures n.exp.Some? ==> !st.frac && (st.neg || st.pos ==> n.exp.value.sign.Unsigned? && n.exp.value.digits == "")
    decreases |s|
  {
    hide IsDigits, Finish, AfterExp, NumStep, Spell, Numeric;
    if s == "" {
      NoText();
      return NOTHING;
    }
    var ch, rest := s[|s| - 1], s[..|s| - 1];
    assert s == rest + [ch];
    StepKinds(ch, st);
    if ch in "eE" {
      n := MantissaOf(rest, AfterExp(st));
      n := WithLetter(n, ch);
      return;
    }
    n := NumeralOf(rest, NumStep(ch, st).value);
    if n.exp.None? {
      n := Extended(rest, ch, n);
    } else {
      n := LongerExponent(rest, ch, n);
    }
  }

  lemma WithLetter(n: Numeral, ch: char) returns (r: Numeral)
    requires Numeric(n) && n.exp.None? && ch in "eE"
    ensures Numeric(r) && r.exp == Some(Exponent(ch, Unsigned, "")) && Spell(r) == Spell(n) + [ch]
  {
    hide IsDigits, MantissaText;
    NoDigitsValue();
    r := n.(exp := Some(Exponent(ch, Unsigned, "")));
    assert MantissaText(r) == MantissaText(n) by { MantissaOnly(n, r.exp); }
  }

  lemma MantissaOnly(n: Numeral, exp: Option<Exponent>)
    ensures MantissaText(n.(exp := exp)) == MantissaText(n)
  {
  }

  lemma LongerExponent(rest: string, ch: char, n: Numeral) returns (r: Numeral)
    requires Numeric(n) && n.exp.Some? && Spell(n) == rest
    requires '0' <= ch <= '9' || (ch in "+-" && n.exp.value.sign.Unsigned? && n.exp.value.digits == "")
    ensures Numeric(r) && r.exp.Some? && Spell(r) == rest + [ch]
  {
    hide IsDigits, MantissaText;
    var x := n.exp.value;
    if ch in "+-" {
      x := x.(sign := if ch == '-' then Minus else Plus);
    } else {
      DigitAppended(x.digits, ch);
      x := x.(digits := x.digits + [ch]);
    }
    r := n.(exp := Some(x));
    MantissaOnly(n, r.exp);
  }

  /** And nothing else is recognised: exactly these texts are numbers. */
  lemma AcceptedIff(s: string)
    ensures IsNumber(s).Some? <==> s != "" && exists n :: Numeric(n) && Spell(n) == s
  {
    hide NumScan, Numeric, Spell;
    if IsNumber(s).Some? {
      var n := NumeralOf(s, BEGIN);
      assert Numeric(n) && Spell(n) == s;
    } else if exists n :: Numeric(n) && Spell(n) == s {
      var n :| Numeric(n) && Spell(n) == s;
      if s != "" { NumberMeans(n); }
    }
  }

  /** So texts without any digit are numbers too. */
  lemma NoDigitsAccepted()
    ensures IsNumber("-") == Some(Whole(0)) && IsNumber(".") == Some(Fractional(Some(0.0)))
    ensures IsNumber("e") == Some(Whole(0))
  {
    NoDigitsValue();
    NumberMeans(Numeral(Minus, "", false, "", None));
    NumberMeans(Numeral(Unsigned, "", true, "", None));
    NumberMeans(Numeral(Unsigned, "", false, "", Some(Exponent('e', Unsigned, ""))));
    assert Tens(0) == 1 && Power10(0) == 1;
    ScaledZero(0.0);
    ScaledOne(0);
  }

  // ---------------------------------------------------------------- large exponents

  /** The mantissa times the true power of ten. */
  function TrueScale(x: real, e: int): real {
    if e >= 0 then Scaled(x, Tens(e)) else x / Tens(-e) as real
  }

  lemma {:induction false} TensGrow(m: nat, n: nat)
    requires m < n
    ensures Tens(m) < Tens(n)
    decreases n
  {
    if m < n - 1 { TensGrow(m, n - 1); }
  }

  lemma TenMore(n: nat)
    ensures Tens(n + 10) == 10_000_000_000 * Tens(n)
  {
    assert Tens(n + 2) == 10 * Tens(n + 1) && Tens(n + 4) == 10 * Tens(n + 3);
    assert Tens(n + 6) == 10 * Tens(n + 5) && Tens(n + 8) == 10 * Tens(n + 7);
  }

  lemma NextTen(n: nat)
    ensures Tens(n + 1) == 10 * Tens(n)
  {
  }

  lemma FewTens()
    ensures Tens(3) == 1000 && Tens(9) == 1_000_000_000
  {
    assert Tens(6) == 1_000_000;
  }

  lemma SomeTens()
    ensures Tens(19) < TWO64 <= Tens(20)
    ensures Tens(63) % TWO64 != 0 && Tens(64) % TWO64 == 0
  {
    hide Tens;
    FewTens();
    TenMore(9);
    NextTen(19);
    TenMore(3);
    TenMore(13);
    TenMore(23);
    TenMore(33);
    TenMore(43);
    TenMore(53);
    NextTen(63);
  }

  /** The loop's result is the power modulo 2^64. */
  lemma {:induction false} PowerWraps(e: nat)
    ensures Power10(e) == Tens(e) % TWO64
  {
    if e > 0 {
      PowerWraps(e - 1);
      TenTimes(Tens(e - 1));
    }
  }

  lemma TenTimes(t: nat)
    ensures t % TWO64 * 10 % TWO64 == (10 * t) % TWO64
  {
    var q, r := t / TWO64, t % TWO64;
    assert 10 * t == 10 * q * TWO64 + 10 * r;
  }

  lemma PowerIsTrue(e: nat)
    ensures Power10(e) == Tens(e) <==> e <= 19
  {
    hide Power10, Tens;
    SomeTens();
    PowerWraps(e);
    if e < 19 {
      TensGrow(e, 19);
    } else if e > 20 {
      TensGrow(20, e);
    }
  }

  lemma {:induction false} ZeroStays(e: nat, n: nat)
    requires e <= n && Power10(e) == 0
    ensures Power10(n) == 0
    decreases n
  {
    if e < n { ZeroStays(e, n - 1); }
  }

  lemma PowerVanishes(e: nat)
    ensures Power10(e) == 0 <==> e >= 64
  {
    hide Power10, Tens;
    SomeTens();
    PowerWraps(63);
    PowerWraps(64);
    if e >= 64 {
      ZeroStays(64, e);
    } else if Power10(e) == 0 {
      ZeroStays(e, 63);
    }
  }

  /**
   * The power of ten is exact up to 10^19; from 10^20 on it is taken modulo 2^64 and from 10^64 on it is zero. A
   * number has its true value exactly when the exponent is in that range, or the mantissa is zero and is not
   * divided by zero.
   */
  lemma ScaleIsTrueIff(x: real, e: int)
    ensures Scale(x, e) == Some(TrueScale(x, e)) <==> -19 <= e <= 19 || (x == 0.0 && e > -64)
  {
    hide Power10, Tens;
    var a: nat := if e < 0 then -e else e;
    NoPower();
    PowerIsTrue(a);
    PowerVanishes(a);
    if e >= 0 {
      ProductCancels(x, Power10(a), Tens(a));
    } else if Power10(a) != 0 {
      QuotientCancels(x, Power10(a), Tens(a));
    }
  }

  lemma NoPower()
    ensures Power10(0) == 1 && Tens(0) == 1
  {
  }

  lemma ProductCancels(x: real, p: nat, q: nat)
    ensures Scaled(x, p) == Scaled(x, q) <==> x == 0.0 || p == q
  {
  }

  lemma QuotientCancels(x: real, p: nat, q: nat)
    requires p > 0 && q > 0
    ensures x / p as real == x / q as real <==> x == 0.0 || p == q
  {
    if x == 0.0 {
      assert 0.0 / p as real == 0.0 == 0.0 / q as real;
    } else if x / p as real == x / q as real {
      var y := x / p as real;
      assert y * p as real == x == y * q as real && y != 0.0;
      ProductCancels(y, p, q);
    }
  }

  // ---------------------------------------------------------------- integers

  /** A printed integer is recognised as the number it was printed from. */
  lemma NumberRoundTrip(i: int)
    ensures IsNumber(Itoa(i)) == Some(Whole(i))
  {
    hide IsNumber, Value, Digits;
    var abs: nat := if i < 0 then -i else i;
    DigitsRoundTrip(abs, 10);
    NoDigitsValue();
    var n := Numeral(if i < 0 then Minus else Unsigned, Digits(abs, 10), false, "", None);
    assert Spell(n) == Itoa(i);
    NumberMeans(n);
    assert Power10(0) == 1;
  }
}
