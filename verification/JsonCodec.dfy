/** The JSON printer and decoder as they run: print backends, index loops and the recursive scan. */
module JsonCodec {
  import opened Base
  import opened NumberText
  import opened JsonText
  import opened Json

  /** A print backend: the handler appends to what was printed so far. */
  class Printer {
    var out: string

    constructor ()
      ensures out == ""
    {
      out := "";
    }

    method Put(s: string)
      modifies this
      ensures out == old(out) + s
    {
      out := out + s;
    }
  }

  /** utf8_encode. */
  method Utf8Encode(pf: Printer, s: string)
    modifies pf
    ensures pf.out == old(pf.out) + Escape(s)
  {
    hide EscapeChar;
    ghost var goal := pf.out + Escape(s);
    var i := 0;
    while i < |s|
      invariant 0 <= i <= |s| && pf.out + Escape(s[i..]) == goal
    {
      assert s[i..][0] == s[i] && s[i..][1..] == s[i + 1..];
      ghost var before := pf.out;
      pf.Put(EscapeChar(s[i]));
      Regroup(before, EscapeChar(s[i]), Escape(s[i + 1..]));
      i := i + 1;
    }
    assert s[i..] == "" && pf.out + "" == pf.out;
  }

  /** utf8_decode; on a malformed escape it stops, and reports it. */
  method Utf8Decode(pf: Printer, s: string) returns (ok: bool)
    modifies pf
    ensures ok <==> Unescape(s).Some?
    ensures ok ==> pf.out == old(pf.out) + Unescape(s).value
  {
    hide UnescapeOne;
    var i := 0;
    while i < |s|
      invariant 0 <= i <= |s|
      invariant Unescape(s).Some? <==> Unescape(s[i..]).Some?
      invariant Unescape(s).Some? ==> old(pf.out) + Unescape(s).value == pf.out + Unescape(s[i..]).value
    {
      var one := UnescapeOne(s[i..]);
      if one.None? {
        return false;
      }
      UnescapeLength(s[i..]);
      assert s[i..][one.value.1..] == s[i + one.value.1..];
      ghost var before, rest := pf.out, Unescape(s[i + one.value.1..]);
      pf.Put(one.value.0);
      if rest.Some? { Regroup(before, one.value.0, rest.value); }
      i := i + one.value.1;
    }
    assert s[i..] == "" && pf.out + "" == pf.out;
    ok := true;
  }

  lemma UnescapeLength(s: string)
    requires s != "" && UnescapeOne(s).Some?
    ensures 1 <= UnescapeOne(s).value.1 <= |s|
  {
  }

  /** The integer conversion of the format engine: the magnitude's digits behind the sign. */
  method PutInt(pf: Printer, n: int)
    requires -0x8000_0000_0000_0000 <= n < 0x8000_0000_0000_0000
    modifies pf
    ensures pf.out == old(pf.out) + Itoa(n)
  {
    hide Digits;
    var num := new char[64];
    var len := LocalItoa(num, if n < 0 then -n else n, 10);
    if n < 0 {
      pf.Put("-");
    }
    pf.Put(num[..len]);
    assert n < 0 ==> old(pf.out) + "-" + num[..len] == old(pf.out) + ("-" + num[..len]);
  }

  /** encode_entry, over the values it is modelled on. */
  method EncodeEntry(pf: Printer, v: Value)
    requires Printable(v)
    modifies pf
    ensures pf.out == old(pf.out) + Print(v)
    decreases v, 1
  {
    hide Escape, Itoa, PrintEntries, PrintItems;
    match v
    case Object(o) => EncodeObject(pf, o);
    case Array(a) =>
      pf.Put("[");
      ghost var goal := pf.out + PrintItems(a);
      var i := 0;
      while i < |a|
        invariant 0 <= i <= |a| && pf.out + PrintItems(a[i..]) == goal
      {
        ghost var before := pf.out;
        EncodeEntry(pf, a[i].v);
        pf.Put(if i + 1 < |a| then "," else "");
        NextItem(before, a, i);
        i := i + 1;
      }
      NoItems(pf.out);
      assert a[0..] == a && a[i..] == [];
      pf.Put("]");
      assert pf.out == old(pf.out) + ("[" + PrintItems(a) + "]");
    case Int(n) => PutInt(pf, n);
    case Str(s) =>
      pf.Put("\"");
      Utf8Encode(pf, s);
      pf.Put("\"");
      assert pf.out == old(pf.out) + Quote(s);
    case Bool(b) => pf.Put(if b then "true" else "false");
    case Null => pf.Put("null");
  }

  /** json_encode_odict. */
  method EncodeObject(pf: Printer, o: Odict)
    requires PrintableObject(o)
    modifies pf
    ensures pf.out == old(pf.out) + Print(Object(o))
    decreases Object(o), 0
  {
    hide Escape, PrintEntries, Print;
    pf.Put("{");
    ghost var goal := pf.out + PrintEntries(o);
    var i := 0;
    while i < |o|
      invariant 0 <= i <= |o| && pf.out + PrintEntries(o[i..]) == goal
    {
      ghost var before := pf.out;
      pf.Put("\"");
      Utf8Encode(pf, o[i].key);
      pf.Put("\":");
      EncodeEntry(pf, o[i].v);
      pf.Put(if i + 1 < |o| then "," else "");
      NextEntry(before, o, i);
      i := i + 1;
    }
    NoItems(pf.out);
    assert o[0..] == o && o[i..] == [];
    pf.Put("}");
    ObjectText(old(pf.out), o);
  }

  lemma ObjectText(out: string, o: Odict)
    ensures out + "{" + PrintEntries(o) + "}" == out + Print(Object(o))
  {
    hide PrintEntries;
  }

  lemma NoItems(out: string)
    ensures out + PrintItems([]) == out && out + PrintEntries([]) == out
  {
  }

  lemma NextItem(out: string, a: Odict, i: nat)
    requires i < |a|
    ensures out + Print(a[i].v) + (if i + 1 < |a| then "," else "") + PrintItems(a[i + 1..]) == out + PrintItems(a[i..])
  {
    hide Print;
    assert a[i..][0] == a[i] && a[i..][1..] == a[i + 1..];
  }

  lemma NextEntry(out: string, o: Odict, i: nat)
    requires i < |o|
    ensures out + "\"" + Escape(o[i].key) + "\":" + Print(o[i].v) + (if i + 1 < |o| then "," else "")
            + PrintEntries(o[i + 1..]) == out + PrintEntries(o[i..])
  {
    hide Print, Escape;
    assert o[i..][0] == o[i] && o[i..][1..] == o[i + 1..];
  }

  /** _json_decode: one loop over the characters, and a call of itself for every container it meets. */
  method DecodeFrom(s: string, start: nat, o0: Odict, depth: nat, maxdepth: nat) returns (r: Result)
    requires start <= |s|
    ensures r == Run(s, start, Fresh, o0, depth, maxdepth)
    decreases if maxdepth > depth then maxdepth - depth else 0
  {
    hide Run, DecodeName, DecodeValue, Digits;
    var st, o, i := Fresh, o0, start;
    while i < |s|
      invariant start <= i <= |s|
      invariant Run(s, i, st, o, depth, maxdepth) == Run(s, start, Fresh, o0, depth, maxdepth)
    {
      var c := s[i];
      if st.inquot {
        RunNext(s, i, st, o, depth, maxdepth);
        if st.esc {
          st := st.(esc := false);
        } else if c == '\"' {
          st := st.(inquot := false);
        } else if c == '\\' {
          st := st.(esc := true);
        }
      } else if c == '{' || c == '[' {
        if st.inobj || st.inarray {
          var a := StartContainer(st, depth, maxdepth, c == '[');
          if a.Return? {
            RunReturn(s, i, st, o, depth, maxdepth);
            return a.r;
          }
          r := DecodeFrom(s, i, [], depth + 1, maxdepth);
          if r.Bad? {
            RunDescendBad(s, i, st, o, depth, maxdepth);
            return;
          }
          RunDescend(s, i, st, o, depth, maxdepth, r.o, r.at);
          o := o + [Entry(a.key, Container(a.arr, r.o))];
          st := After(st);
          i := r.at;
        } else {
          RunNext(s, i, st, o, depth, maxdepth);
          st := if c == '{' then st.(inobj := true) else st.(inarray := true, idx := 0);
        }
      } else {
        var a := Punctuation(s, i, st, o);
        if a.Return? {
          RunReturn(s, i, st, o, depth, maxdepth);
          return a.r;
        }
        RunNext(s, i, st, o, depth, maxdepth);
        st, o := a.st, a.o;
      }
      i := i + 1;
    }
    r := if st.inobj || st.inarray then Bad(EBADMSG) else Done(o, i);
    RunEnds(s, st, o, depth, maxdepth);
  }

  /** The cases of the switch that neither open a container nor lie inside a string. */
  method Punctuation(s: string, i: nat, st: State, o: Odict) returns (a: Action)
    requires i < |s| && !st.inquot && s[i] != '{' && s[i] != '['
    ensures a == Act(s, i, st, o, 0, 0) && !a.Descend?
  {
    hide DecodeName, DecodeValue;
    match s[i]
    case ':' =>
      var text := ValueText(s, i, st);
      if !st.inobj || st.name.Some? || text.None? {
        return Return(Bad(EBADMSG));
      }
      a := Next(st.(name := text, val := None), o);
    case ',' => a := OnComma(s, i, st, o);
    case '}' => a := OnCloseObject(s, i, st, o);
    case ']' => a := OnCloseArray(s, i, st, o);
    case ' ' => a := Next(st.(ws := st.ws + 1), o);
    case '\t' => a := Next(st.(ws := st.ws + 1), o);
    case '\r' => a := Next(st.(ws := st.ws + 1), o);
    case '\n' => a := Next(st.(ws := st.ws + 1), o);
    case c =>
      if st.val.Some? {
        return Next(st, o);
      }
      a := Next(st.(inquot := c == '\"', val := Some(i), ws := 0), o);
  }

  lemma RunEnds(s: string, st: State, o: Odict, depth: nat, maxdepth: nat)
    ensures Run(s, |s|, st, o, depth, maxdepth) == if st.inobj || st.inarray then Bad(EBADMSG) else Done(o, |s|)
  {
  }

  /** A dictionary printed and decoded again is the same dictionary, unless it is nested too deep. */
  method PrintAndDecode(o: Odict, maxdepth: nat) returns (r: Result)
    requires PrintableObject(o)
    ensures if DepthOf(o) <= maxdepth then r.Done? && r.o == o else r == Bad(EOVERFLOW)
  {
    hide Print, Run, PrintableObject;
    var pf := new Printer();
    EncodeObject(pf, o);
    RoundTrip(o, maxdepth, "");
    assert "" + Print(Object(o)) == Print(Object(o)) && Encode(o) + "" == Encode(o);
    r := DecodeFrom(pf.out, 0, [], 0, maxdepth);
  }
}
