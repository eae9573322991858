/** JSON ordered dictionaries: the printed form, the decoder's state machine, and the round trip. */
module Json {
  import opened Base
  import opened NumberText
  import opened JsonText
  import opened JsonNumber

  /** A dictionary's entries in list order; an array is a dictionary keyed by index. */
  type Odict = seq<Entry>

  datatype Entry = Entry(key: string, v: Value)

  /** A real may have come out of a division by zero. */
  datatype Value =
    | Object(o: seq<Entry>)
    | Array(a: seq<Entry>)
    | Str(s: string)
    | Int(i: int)
    | Real(x: Option<real>)
    | Bool(b: bool)
    | Null

  datatype Error = EBADMSG | EOVERFLOW

  // ---------------------------------------------------------------- printing

  /** Values the printer is modelled on: 64-bit integers, strings without NUL, arrays keyed 0, 1, 2, ... */
  predicate Printable(v: Value)
    decreases v
  {
    match v
    case Object(o) => PrintableObject(o)
    case Array(a) => PrintableArray(a)
    case Str(s) => '\0' !in s
    case Int(i) => -0x8000_0000_0000_0000 <= i < 0x8000_0000_0000_0000
    case Real(_) => false
    case _ => true
  }

  predicate PrintableObject(o: Odict)
    decreases o
  {
    forall i :: 0 <= i < |o| ==> '\0' !in o[i].key && Printable(o[i].v)
  }

  predicate PrintableArray(a: Odict)
    decreases a
  {
    forall i :: 0 <= i < |a| ==> a[i].key == Digits(i, 10) && Printable(a[i].v)
  }

  /** encode_entry. */
  function Print(v: Value): string
    decreases v
  {
    match v
    case Object(o) => "{" + PrintEntries(o) + "}"
    case Array(a) => "[" + PrintItems(a) + "]"
    case Str(s) => Quote(s)
    case Int(i) => Itoa(i)
    case Real(_) => ""
    case Bool(b) => if b then "true" else "false"
    case Null => "null"
  }

  function Quote(s: string): string { "\"" + Escape(s) + "\"" }

  /** The entries of an object, separated by commas. */
  function PrintEntries(o: Odict): string
    decreases o
  {
    if o == [] then ""
    else Quote(o[0].key) + ":" + Print(o[0].v) + (if |o| == 1 then "" else "," + PrintEntries(o[1..]))
  }

  function PrintItems(a: Odict): string
    decreases a
  {
    if a == [] then ""
    else Print(a[0].v) + (if |a| == 1 then "" else "," + PrintItems(a[1..]))
  }

  /** json_encode_odict. */
  function Encode(o: Odict): string { Print(Object(o)) }

  function Depth(v: Value): nat
    decreases v
  {
    match v
    case Object(o) => 1 + DepthOf(o)
    case Array(a) => 1 + DepthOf(a)
    case _ => 0
  }

  /** How deep containers are nested below a dictionary. */
  function DepthOf(o: Odict): (d: nat)
    decreases o
  {
    if o == [] then 0 else Max(Depth(o[0].v), DepthOf(o[1..]))
  }

  // ---------------------------------------------------------------- values and names

  /** is_string: the text between the quotes. */
  function IsString(s: string): Option<string> {
    if |s| < 2 || s[0] != '\"' || s[|s| - 1] != '\"' then None else Some(s[1..|s| - 1])
  }

  function DecodeName(s: string): Option<string> {
    match IsString(s)
    case None => None
    case Some(t) =>
      match Unescape(t)
      case None => None
      case Some(u) => Some(CString(u, '\0'))
  }

  function DecodeValue(s: string): Option<Value> {
    if IsString(s).Some? then
      match Unescape(IsString(s).value)
      case None => None
      case Some(u) => Some(Str(CString(u, '\0')))
    else if IsNumber(s).Some? then
      match IsNumber(s).value
      case Whole(i) => Some(Int(i))
      case Fractional(x) => Some(Real(x))
    else if SameIgnoringCase(s, "false") then Some(Bool(false))
    else if SameIgnoringCase(s, "true") then Some(Bool(true))
    else if SameIgnoringCase(s, "null") then Some(Null)
    else None
  }

  /** object_entry: the entry for a name and a value text. */
  function ObjectEntry(name: string, val: string): Option<Entry> {
    match (DecodeName(name), DecodeValue(val))
    case (Some(n), Some(v)) => Some(Entry(n, v))
    case _ => None
  }

  function ArrayEntry(idx: nat, val: string): Option<Entry> {
    match DecodeValue(val)
    case Some(v) => Some(Entry(Digits(idx, 10), v))
    case None => None
  }

  // ---------------------------------------------------------------- the state machine

  /** The local variables of _json_decode; `val` is where the current value starts. */
  datatype State = State(esc: bool, inquot: bool, inobj: bool, inarray: bool,
                         name: Option<string>, val: Option<nat>, ws: nat, idx: nat)

  const Fresh: State := State(false, false, false, false, None, None, 0, 0)

  /** What one character does: go on, return, or decode a container with the given key. */
  datatype Action =
    | Next(st: State, o: Odict)
    | Return(r: Result)
    | Descend(key: string, arr: bool)

  datatype Result = Bad(err: Error) | Done(o: Odict, at: nat)

  /** chkval: the text of the current value, without the blanks counted at its end. */
  function ValueText(s: string, i: nat, st: State): Option<string>
    requires i <= |s|
  {
    if st.val.None? || i - st.ws < st.val.value then None else Some(s[st.val.value..i - st.ws])
  }

  /** object_start and array_start, up to the call of the handler. */
  function StartContainer(st: State, depth: nat, maxdepth: nat, arr: bool): Action {
    if depth >= maxdepth then Return(Bad(EOVERFLOW))
    else if st.inobj && st.name.None? then Return(Bad(EBADMSG))
    else if st.name.None? then Descend(Digits(st.idx, 10), arr)
    else
      match DecodeName(st.name.value)
      case None => Return(Bad(EBADMSG))
      case Some(n) => Descend(n, arr)
  }

  function OnColon(s: string, i: nat, st: State, o: Odict): Action
    requires i <= |s|
  {
    if !st.inobj || st.name.Some? || ValueText(s, i, st).None? then Return(Bad(EBADMSG))
    else Next(st.(name := ValueText(s, i, st), val := None), o)
  }

  function OnComma(s: string, i: nat, st: State, o: Odict): Action
    requires i <= |s|
  {
    match ValueText(s, i, st)
    case None => Next(st, o)
    case Some(val) =>
      if st.inobj then
        if st.name.None? then Return(Bad(EBADMSG))
        else
          match ObjectEntry(st.name.value, val)
          case None => Return(Bad(EBADMSG))
          case Some(e) => Next(st.(name := None, val := None), o + [e])
      else if st.inarray then
        match ArrayEntry(st.idx, val)
        case None => Return(Bad(EBADMSG))
        case Some(e) => Next(st.(name := None, val := None, idx := st.idx + 1), o + [e])
      else Return(Bad(EBADMSG))
  }

  function OnCloseObject(s: string, i: nat, st: State, o: Odict): Action
    requires i <= |s|
  {
    if !st.inobj then Return(Bad(EBADMSG))
    else
      match ValueText(s, i, st)
      case None => Return(Done(o, i))
      case Some(val) =>
        if st.name.None? then Return(Bad(EBADMSG))
        else
          match ObjectEntry(st.name.value, val)
          case None => Return(Bad(EBADMSG))
          case Some(e) => Return(Done(o + [e], i))
  }

  function OnCloseArray(s: string, i: nat, st: State, o: Odict): Action
    requires i <= |s|
  {
    if !st.inarray then Return(Bad(EBADMSG))
    else
      match ValueText(s, i, st)
      case None => Return(Done(o, i))
      case Some(val) =>
        match ArrayEntry(st.idx, val)
        case None => Return(Bad(EBADMSG))
        case Some(e) => Return(Done(o + [e], i))
  }

  function Act(s: string, i: nat, st: State, o: Odict, depth: nat, maxdepth: nat): (a: Action)
    requires i < |s|
    ensures a.Return? && a.r.Done? ==> a.r.at == i && (st.inobj || st.inarray)
    ensures a.Next? && (st.inobj || st.inarray) ==> a.st.inobj || a.st.inarray
    ensures a.Descend? ==> (st.inobj || st.inarray) && !st.inquot && (s[i] == '{' || s[i] == '[')
  {
    var c := s[i];
    if st.inquot then Next(st.(esc := QuoteStep(st.esc, c).0, inquot := QuoteStep(st.esc, c).1), o)
    else if c == ':' then OnColon(s, i, st, o)
    else if c == ',' then OnComma(s, i, st, o)
    else if c == '{' then
      if st.inobj || st.inarray then StartContainer(st, depth, maxdepth, false) else Next(st.(inobj := true), o)
    else if c == '[' then
      if st.inobj || st.inarray then StartContainer(st, depth, maxdepth, true)
      else Next(st.(inarray := true, idx := 0), o)
    else if c == '}' then OnCloseObject(s, i, st, o)
    else if c == ']' then OnCloseArray(s, i, st, o)
    else if c == ' ' || c == '\t' || c == '\r' || c == '\n' then Next(st.(ws := st.ws + 1), o)
    else if st.val.Some? then Next(st, o)
    else Next(st.(inquot := c == '\"', val := Some(i), ws := 0), o)
  }

  function Container(arr: bool, o: Odict): Value { if arr then Array(o) else Object(o) }

  /** The state behind a container: the name is used up and an array has moved on by one. */
  function After(st: State): State {
    st.(name := None, idx := if st.inarray then st.idx + 1 else st.idx)
  }

  /** _json_decode from index `i`, filling the dictionary `o`. */
  function Run(s: string, i: nat, st: State, o: Odict, depth: nat, maxdepth: nat): (r: Result)
    requires i <= |s|
    ensures r.Done? && (st.inobj || st.inarray) ==> i <= r.at < |s|
    ensures r.Done? && i < |s| && !st.inquot && (s[i] == '{' || s[i] == '[') ==> i <= r.at < |s|
    decreases |s| - i, if st.inobj || st.inarray then 1 else 0
  {
    if i == |s| then
      if st.inobj || st.inarray then Bad(EBADMSG) else Done(o, i)
    else
      match Act(s, i, st, o, depth, maxdepth)
      case Next(st', o') => Run(s, i + 1, st', o', depth, maxdepth)
      case Return(r) => r
      case Descend(key, arr) =>
        match Run(s, i, Fresh, [], depth + 1, maxdepth)
        case Bad(e) => Bad(e)
        case Done(oc, j) => Run(s, j + 1, After(st), o + [Entry(key, Container(arr, oc))], depth, maxdepth)
  }

  /** json_decode_odict. */
  function Decode(s: string, maxdepth: nat): Result { Run(s, 0, Fresh, [], 0, maxdepth) }

  // ---------------------------------------------------------------- one step at a time

  lemma RunNext(s: string, i: nat, st: State, o: Odict, depth: nat, maxdepth: nat)
    requires i < |s| && Act(s, i, st, o, depth, maxdepth).Next?
    ensures var a := Act(s, i, st, o, depth, maxdepth);
            Run(s, i, st, o, depth, maxdepth) == Run(s, i + 1, a.st, a.o, depth, maxdepth)
  {
    hide Act;
  }

  lemma RunReturn(s: string, i: nat, st: State, o: Odict, depth: nat, maxdepth: nat)
    requires i < |s| && Act(s, i, st, o, depth, maxdepth).Return?
    ensures Run(s, i, st, o, depth, maxdepth) == Act(s, i, st, o, depth, maxdepth).r
  {
    hide Act;
  }

  lemma RunDescend(s: string, i: nat, st: State, o: Odict, depth: nat, maxdepth: nat, oc: Odict, j: nat)
    requires i < |s| && Act(s, i, st, o, depth, maxdepth).Descend?
    requires Run(s, i, Fresh, [], depth + 1, maxdepth) == Done(oc, j)
    ensures j < |s|
    ensures var a := Act(s, i, st, o, depth, maxdepth);
            Run(s, i, st, o, depth, maxdepth)
            == Run(s, j + 1, After(st), o + [Entry(a.key, Container(a.arr, oc))], depth, maxdepth)
  {
    hide Act, After;
  }

  lemma RunDescendBad(s: string, i: nat, st: State, o: Odict, depth: nat, maxdepth: nat)
    requires i < |s| && Act(s, i, st, o, depth, maxdepth).Descend?
    requires Run(s, i, Fresh, [], depth + 1, maxdepth).Bad?
    ensures Run(s, i, st, o, depth, maxdepth) == Run(s, i, Fresh, [], depth + 1, maxdepth)
  {
    hide Act;
  }

  // ---------------------------------------------------------------- scanning a value

  /** Inside quotes the decoder only looks for the end of the string. */
  lemma {:induction false} QuotedRun(s: string, i: nat, j: nat, st: State, o: Odict, depth: nat, maxdepth: nat)
    requires i <= j <= |s| && st.inquot && StaysQuoted(st.esc, s[i..j]).Some?
    ensures Run(s, i, st, o, depth, maxdepth)
            == Run(s, j, st.(esc := StaysQuoted(st.esc, s[i..j]).value), o, depth, maxdepth)
    decreases j - i
  {
    hide Run;
    if i < j {
      RunNext(s, i, st, o, depth, maxdepth);
      assert s[i..j][0] == s[i] && s[i..j][1..] == s[i + 1..j];
      QuotedRun(s, i + 1, j, st.(esc := QuoteStep(st.esc, s[i]).0), o, depth, maxdepth);
    }
  }

  /** Between values: no string open and no name or value pending. */
  predicate Idle(st: State) { !st.esc && !st.inquot && st.val.None? }

  lemma StringRun(s: string, i: nat, t: string, st: State, o: Odict, depth: nat, maxdepth: nat)
    requires OccursAt(s, i, Quote(t)) && Idle(st)
    ensures Run(s, i, st, o, depth, maxdepth)
            == Run(s, i + |Quote(t)|, st.(val := Some(i), ws := 0), o, depth, maxdepth)
  {
    hide Run, Escape, StaysQuoted;
    var e, j := Escape(t), i + 1 + |Escape(t)|;
    SliceOfSlice(s, i, i + |Quote(t)|, 1, 1 + |e|);
    assert Quote(t)[1..1 + |e|] == e;
    assert s[i] == Quote(t)[0] && s[j] == Quote(t)[1 + |e|];
    var st1 := st.(inquot := true, val := Some(i), ws := 0);
    RunNext(s, i, st, o, depth, maxdepth);
    EscapedStaysQuoted(t);
    QuotedRun(s, i + 1, j, st1, o, depth, maxdepth);
    RunNext(s, j, st1, o, depth, maxdepth);
  }

  predicate PlainChar(c: char) {
    c != ':' && c != ',' && c != '{' && c != '}' && c != '[' && c != ']' &&
    c != ' ' && c != '\t' && c != '\r' && c != '\n' && c != '\"'
  }

  predicate PlainText(t: string) { forall i :: 0 <= i < |t| ==> PlainChar(t[i]) }

  /** Inside an unquoted value nothing happens. */
  lemma {:induction false} PlainRest(s: string, i: nat, j: nat, st: State, o: Odict, depth: nat, maxdepth: nat)
    requires i <= j <= |s| && !st.inquot && st.val.Some? && PlainText(s[i..j])
    ensures Run(s, i, st, o, depth, maxdepth) == Run(s, j, st, o, depth, maxdepth)
    decreases j - i
  {
    hide Run;
    if i < j {
      assert PlainChar(s[i..j][0]);
      RunNext(s, i, st, o, depth, maxdepth);
      assert s[i + 1..j] == s[i..j][1..];
      PlainRest(s, i + 1, j, st, o, depth, maxdepth);
    }
  }

  lemma PlainRun(s: string, i: nat, t: string, st: State, o: Odict, depth: nat, maxdepth: nat)
    requires OccursAt(s, i, t) && Idle(st) && t != "" && PlainText(t)
    ensures Run(s, i, st, o, depth, maxdepth)
            == Run(s, i + |t|, st.(val := Some(i), ws := 0), o, depth, maxdepth)
  {
    hide Run;
    assert s[i] == t[0] && PlainChar(t[0]);
    RunNext(s, i, st, o, depth, maxdepth);
    assert s[i + 1..i + |t|] == t[1..];
    PlainRest(s, i + 1, i + |t|, st.(val := Some(i), ws := 0), o, depth, maxdepth);
  }

  // ---------------------------------------------------------------- values that are not containers

  predicate Scalar(v: Value) { v.Str? || v.Int? || v.Bool? || v.Null? }

  lemma {:induction false} DigitsPlain(n: nat)
    ensures PlainText(Digits(n, 10)) && forall i :: 0 <= i < |Digits(n, 10)| ==> Digits(n, 10)[i] != '\"'
  {
    if n >= 10 { DigitsPlain(Quot(n, 10)); }
  }

  lemma PrintPlain(v: Value)
    requires Scalar(v) && !v.Str?
    ensures Print(v) != "" && PlainText(Print(v)) && Print(v)[0] != '\"'
  {
    if v.Int? { DigitsPlain(if v.i < 0 then -v.i else v.i); }
  }

  lemma ScalarRun(s: string, i: nat, v: Value, st: State, o: Odict, depth: nat, maxdepth: nat)
    requires Scalar(v) && OccursAt(s, i, Print(v)) && Idle(st)
    ensures Run(s, i, st, o, depth, maxdepth)
            == Run(s, i + |Print(v)|, st.(val := Some(i), ws := 0), o, depth, maxdepth)
  {
    hide Run, Itoa;
    if v.Str? {
      StringRun(s, i, v.s, st, o, depth, maxdepth);
    } else {
      PrintPlain(v);
      PlainRun(s, i, Print(v), st, o, depth, maxdepth);
    }
  }

  lemma WordsAreNoNumbers()
    ensures IsNumber("true") == None && IsNumber("false") == None && IsNumber("null") == None
  {
    hide Finish;
    assert "true"[..3] == "tru" && "false"[..4] == "fals" && "null"[3] == 'l';
    assert NumScan("tru", AfterExp(BEGIN)) == None;
    assert NumScan("fals", AfterExp(BEGIN)) == None;
  }

  lemma QuotedName(t: string)
    requires '\0' !in t
    ensures DecodeName(Quote(t)) == Some(t) && IsString(Quote(t)) == Some(Escape(t))
  {
    hide Escape, Unescape, CString;
    UnescapeEscape(t);
    CStringOfText(t, '\0');
    assert Quote(t)[1..|Quote(t)| - 1] == Escape(t);
  }

  /** The text of a scalar is recognised as the scalar. */
  lemma ScalarRoundTrip(v: Value)
    requires Scalar(v) && Printable(v)
    ensures DecodeValue(Print(v)) == Some(v)
  {
    hide Escape, Unescape, CString, IsNumber, Itoa;
    if v.Str? {
      QuotedName(v.s);
      UnescapeEscape(v.s);
      CStringOfText(v.s, '\0');
    } else {
      PrintPlain(v);
      WordsAreNoNumbers();
      if v.Int? { NumberRoundTrip(v.i); }
    }
  }

  // ---------------------------------------------------------------- the round trip

  /** Inside a container, ready for its next entry; an array expects the given index. */
  predicate Ready(st: State, arr: bool, idx: nat) {
    Idle(st) && st.name.None? && st.inobj == !arr && st.inarray == arr && (arr ==> st.idx == idx)
  }

  /** Ready for a value: an object has read the quoted name. */
  predicate ReadyFor(st: State, arr: bool, idx: nat, key: string) {
    && Idle(st) && st.inobj == !arr && st.inarray == arr
    && (if arr then st.name.None? && st.idx == idx && key == Digits(idx, 10)
        else st.name == Some(Quote(key)) && '\0' !in key)
  }

  function Closing(arr: bool): char { if arr then ']' else '}' }

  /** With a value pending, a comma adds the entry. */
  lemma CommaAdds(s: string, j: nat, st: State, v: Value, key: string, arr: bool, idx: nat, o: Odict,
                  depth: nat, maxdepth: nat)
    requires j < |s| && s[j] == ',' && !st.inquot && st.inobj == !arr && st.inarray == arr
    requires ValueText(s, j, st) == Some(Print(v)) && DecodeValue(Print(v)) == Some(v)
    requires if arr then st.idx == idx && key == Digits(idx, 10) && st.name.None?
             else st.name.Some? && DecodeName(st.name.value) == Some(key)
    ensures Act(s, j, st, o, depth, maxdepth)
            == Next(st.(name := None, val := None, idx := if arr then idx + 1 else st.idx), o + [Entry(key, v)])
  {
    hide Print, DecodeName, DecodeValue, Digits, ValueText;
  }

  /** A scalar and the comma behind it become an entry. */
  lemma ScalarComma(s: string, i: nat, v: Value, key: string, arr: bool, idx: nat,
                    st: State, o: Odict, depth: nat, maxdepth: nat) returns (st': State)
    requires Scalar(v) && Printable(v) && OccursAt(s, i, Print(v)) && ReadyFor(st, arr, idx, key)
    requires i + |Print(v)| < |s| && s[i + |Print(v)|] == ','
    ensures Ready(st', arr, idx + 1)
    ensures Run(s, i, st, o, depth, maxdepth)
            == Run(s, i + |Print(v)| + 1, st', o + [Entry(key, v)], depth, maxdepth)
  {
    hide Run, Print, DecodeName, DecodeValue, Quote, Digits, Act, Printable;
    var j := i + |Print(v)|;
    var st1 := st.(val := Some(i), ws := 0);
    ScalarRun(s, i, v, st, o, depth, maxdepth);
    ScalarRoundTrip(v);
    if !arr { QuotedName(key); }
    assert ValueText(s, j, st1) == Some(Print(v));
    CommaAdds(s, j, st1, v, key, arr, idx, o, depth, maxdepth);
    RunNext(s, j, st1, o, depth, maxdepth);
    st' := st.(name := None, ws := 0, idx := if arr then idx + 1 else st.idx);
  }

  /** A scalar and the closing bracket behind it end the container. */
  lemma ScalarClose(s: string, i: nat, v: Value, key: string, arr: bool, idx: nat,
                    st: State, o: Odict, depth: nat, maxdepth: nat)
    requires Scalar(v) && Printable(v) && OccursAt(s, i, Print(v)) && ReadyFor(st, arr, idx, key)
    requires i + |Print(v)| < |s| && s[i + |Print(v)|] == Closing(arr)
    ensures Run(s, i, st, o, depth, maxdepth) == Done(o + [Entry(key, v)], i + |Print(v)|)
  {
    hide Run, Print, DecodeName, DecodeValue, Quote, Digits, OnColon, OnComma, StartContainer, Printable;
    var j := i + |Print(v)|;
    var st1 := st.(val := Some(i), ws := 0);
    ScalarRun(s, i, v, st, o, depth, maxdepth);
    ScalarRoundTrip(v);
    if !arr { QuotedName(key); }
    assert ValueText(s, j, st1) == Some(Print(v));
    RunReturn(s, j, st1, o, depth, maxdepth);
  }

  /** The closing bracket, or the comma behind a container, when no value is pending. */
  lemma IdleClose(s: string, i: nat, arr: bool, idx: nat, st: State, o: Odict, depth: nat, maxdepth: nat)
    requires i < |s| && s[i] == Closing(arr) && Ready(st, arr, idx)
    ensures Run(s, i, st, o, depth, maxdepth) == Done(o, i)
  {
    hide Run;
    RunReturn(s, i, st, o, depth, maxdepth);
  }

  lemma IdleComma(s: string, i: nat, arr: bool, idx: nat, st: State, o: Odict, depth: nat, maxdepth: nat)
    requires i < |s| && s[i] == ',' && Ready(st, arr, idx)
    ensures Run(s, i, st, o, depth, maxdepth) == Run(s, i + 1, st, o, depth, maxdepth)
  {
    hide Run;
    RunNext(s, i, st, o, depth, maxdepth);
  }

  /** The quoted name of an object's entry and the colon behind it. */
  lemma NameRun(s: string, i: nat, key: string, idx: nat, st: State, o: Odict, depth: nat, maxdepth: nat)
    returns (st': State)
    requires OccursAt(s, i, Quote(key) + ":") && Ready(st, false, idx) && '\0' !in key
    ensures ReadyFor(st', false, idx, key)
    ensures Run(s, i, st, o, depth, maxdepth) == Run(s, i + |Quote(key)| + 1, st', o, depth, maxdepth)
  {
    hide Run, Quote;
    var q, j := Quote(key), i + |Quote(key)|;
    assert s[i..j + 1] == q + ":";
    SliceOfSlice(s, i, j + 1, 0, |q|);
    assert s[i..j] == (q + ":")[..|q|] == q;
    assert s[j] == s[i..j + 1][|q|] == ':';
    var st1 := st.(val := Some(i), ws := 0);
    StringRun(s, i, key, st, o, depth, maxdepth);
    assert ValueText(s, j, st1) == Some(q);
    RunNext(s, j, st1, o, depth, maxdepth);
    st' := st.(name := Some(q), ws := 0);
  }

  /** The opening bracket in the frame of the container it opens. */
  lemma OpenFresh(s: string, i: nat, arr: bool, depth: nat, maxdepth: nat) returns (st': State)
    requires i < |s| && s[i] == (if arr then '[' else '{')
    ensures Ready(st', arr, 0)
    ensures Run(s, i, Fresh, [], depth, maxdepth) == Run(s, i + 1, st', [], depth, maxdepth)
  {
    hide Run;
    RunNext(s, i, Fresh, [], depth, maxdepth);
    st' := Fresh.(inobj := !arr, inarray := arr);
  }

  /** An opening bracket where a value may stand begins a container. */
  lemma BracketDescends(s: string, i: nat, isArray: bool, key: string, arr: bool, idx: nat, st: State, o: Odict,
                        depth: nat, maxdepth: nat)
    requires i < |s| && s[i] == (if isArray then '[' else '{') && ReadyFor(st, arr, idx, key) && depth < maxdepth
    ensures Act(s, i, st, o, depth, maxdepth) == Descend(key, isArray)
    ensures Ready(After(st), arr, idx + 1)
  {
    hide DecodeName, Quote, Digits;
    if !arr { QuotedName(key); }
  }

  lemma FirstBracket(v: Value)
    requires v.Object? || v.Array?
    ensures |Print(v)| > 1 && Print(v)[0] == if v.Array? then '[' else '{'
  {
    hide PrintEntries, PrintItems;
  }

  /** A container that its own frame decodes becomes an entry of the enclosing one. */
  lemma ContainerRun(s: string, i: nat, v: Value, key: string, arr: bool, idx: nat,
                     st: State, o: Odict, depth: nat, maxdepth: nat) returns (st': State)
    requires (v.Object? || v.Array?) && OccursAt(s, i, Print(v)) && ReadyFor(st, arr, idx, key)
    requires depth < maxdepth
    requires Run(s, i, Fresh, [], depth + 1, maxdepth)
             == Done(if v.Array? then v.a else v.o, i + |Print(v)| - 1)
    ensures Ready(st', arr, idx + 1)
    ensures Run(s, i, st, o, depth, maxdepth)
            == Run(s, i + |Print(v)|, st', o + [Entry(key, v)], depth, maxdepth)
  {
    hide Run, Print, Act, ReadyFor, Ready, After;
    FirstBracket(v);
    assert s[i] == s[i..i + |Print(v)|][0];
    BracketDescends(s, i, v.Array?, key, arr, idx, st, o, depth, maxdepth);
    RunDescend(s, i, st, o, depth, maxdepth, if v.Array? then v.a else v.o, i + |Print(v)| - 1);
    st' := After(st);
  }

  /** Where the parts of an object's printed entries stand. */
  lemma {:induction false} EntryParts(s: string, i: nat, es: Odict)
    requires es != [] && OccursAt(s, i, PrintEntries(es) + "}")
    ensures var q, p := Quote(es[0].key) + ":", Print(es[0].v);
            var k := i + |q|;
            && OccursAt(s, i, q) && OccursAt(s, k, p) && k + |p| < |s|
            && (if |es| == 1 then s[k + |p|] == '}' && |PrintEntries(es)| == |q| + |p|
                else s[k + |p|] == ',' && OccursAt(s, k + |p| + 1, PrintEntries(es[1..]) + "}")
                     && |PrintEntries(es)| == |q| + |p| + 1 + |PrintEntries(es[1..])|)
  {
    hide Quote, Print, PrintEntries;
    var q, p := Quote(es[0].key) + ":", Print(es[0].v);
    var c := if |es| == 1 then "}" else ",";
    var r := if |es| == 1 then "" else PrintEntries(es[1..]) + "}";
    EntryText(es);
    OccursSplit(s, i, q, p + (c + r));
    OccursSplit(s, i + |q|, p, c + r);
    OccursSplit(s, i + |q| + |p|, c, r);
    assert s[i + |q| + |p|..i + |q| + |p| + 1][0] == c[0];
  }

  lemma {:induction false} EntryText(es: Odict)
    requires es != []
    ensures var q, p := Quote(es[0].key) + ":", Print(es[0].v);
            && (|es| == 1 ==> PrintEntries(es) + "}" == q + (p + ("}" + "")) && |PrintEntries(es)| == |q| + |p|)
            && (|es| > 1 ==> PrintEntries(es) + "}" == q + (p + ("," + (PrintEntries(es[1..]) + "}")))
                             && |PrintEntries(es)| == |q| + |p| + 1 + |PrintEntries(es[1..])|)
  {
    hide Quote, Print;
  }

  /** Where the parts of an array's printed items stand. */
  lemma {:induction false} ItemParts(s: string, i: nat, es: Odict)
    requires es != [] && OccursAt(s, i, PrintItems(es) + "]")
    ensures var p := Print(es[0].v);
            && OccursAt(s, i, p) && i + |p| < |s|
            && (if |es| == 1 then s[i + |p|] == ']' && |PrintItems(es)| == |p|
                else s[i + |p|] == ',' && OccursAt(s, i + |p| + 1, PrintItems(es[1..]) + "]")
                     && |PrintItems(es)| == |p| + 1 + |PrintItems(es[1..])|)
  {
    hide Print, PrintItems;
    var p := Print(es[0].v);
    var c := if |es| == 1 then "]" else ",";
    var r := if |es| == 1 then "" else PrintItems(es[1..]) + "]";
    ItemText(es);
    OccursSplit(s, i, p, c + r);
    OccursSplit(s, i + |p|, c, r);
    assert s[i + |p|..i + |p| + 1][0] == c[0];
  }

  lemma {:induction false} ItemText(es: Odict)
    requires es != []
    ensures var p := Print(es[0].v);
            && (|es| == 1 ==> PrintItems(es) + "]" == p + ("]" + "") && |PrintItems(es)| == |p|)
            && (|es| > 1 ==> PrintItems(es) + "]" == p + ("," + (PrintItems(es[1..]) + "]"))
                             && |PrintItems(es)| == |p| + 1 + |PrintItems(es[1..])|)
  {
    hide Print;
  }

  /** Items keyed by consecutive indices from `idx`. */
  predicate PrintableFrom(a: Odict, idx: nat) {
    forall i :: 0 <= i < |a| ==> a[i].key == Digits(idx + i, 10) && Printable(a[i].v)
  }

  /** A value followed by a comma becomes an entry and the container is ready for the next one. */
  lemma {:induction false} ValueComma(s: string, i: nat, v: Value, key: string, arr: bool, idx: nat,
                                      st: State, o: Odict, depth: nat, maxdepth: nat) returns (st': State)
    requires Printable(v) && OccursAt(s, i, Print(v)) && ReadyFor(st, arr, idx, key)
    requires depth + Depth(v) <= maxdepth
    requires i + |Print(v)| < |s| && s[i + |Print(v)|] == ','
    ensures Ready(st', arr, idx + 1)
    ensures Run(s, i, st, o, depth, maxdepth)
            == Run(s, i + |Print(v)| + 1, st', o + [Entry(key, v)], depth, maxdepth)
    decreases v, 1
  {
    hide Run, Print, ReadyFor, Ready;
    if Scalar(v) {
      st' := ScalarComma(s, i, v, key, arr, idx, st, o, depth, maxdepth);
    } else {
      FrameRun(s, i, v, depth + 1, maxdepth);
      st' := ContainerRun(s, i, v, key, arr, idx, st, o, depth, maxdepth);
      IdleComma(s, i + |Print(v)|, arr, idx + 1, st', o + [Entry(key, v)], depth, maxdepth);
    }
  }

  lemma {:induction false} ValueClose(s: string, i: nat, v: Value, key: string, arr: bool, idx: nat,
                                      st: State, o: Odict, depth: nat, maxdepth: nat)
    requires Printable(v) && OccursAt(s, i, Print(v)) && ReadyFor(st, arr, idx, key)
    requires depth + Depth(v) <= maxdepth
    requires i + |Print(v)| < |s| && s[i + |Print(v)|] == Closing(arr)
    ensures Run(s, i, st, o, depth, maxdepth) == Done(o + [Entry(key, v)], i + |Print(v)|)
    decreases v, 1
  {
    hide Run, Print, ReadyFor, Ready;
    if Scalar(v) {
      ScalarClose(s, i, v, key, arr, idx, st, o, depth, maxdepth);
    } else {
      FrameRun(s, i, v, depth + 1, maxdepth);
      var st' := ContainerRun(s, i, v, key, arr, idx, st, o, depth, maxdepth);
      IdleClose(s, i + |Print(v)|, arr, idx + 1, st', o + [Entry(key, v)], depth, maxdepth);
    }
  }

  /** The frame a container opens decodes the container's entries and stops at its closing bracket. */
  lemma {:induction false} FrameRun(s: string, i: nat, v: Value, depth: nat, maxdepth: nat)
    requires Printable(v) && (v.Object? || v.Array?) && OccursAt(s, i, Print(v))
    requires depth + Depth(v) <= maxdepth + 1
    ensures Run(s, i, Fresh, [], depth, maxdepth)
            == Done(if v.Array? then v.a else v.o, i + |Print(v)| - 1)
    decreases v, 0
  {
    hide Run, PrintEntries, PrintItems, Ready;
    assert s[i] == Print(v)[0];
    var st := OpenFresh(s, i, v.Array?, depth, maxdepth);
    match v
    case Object(o) =>
      assert Print(v) == "{" + (PrintEntries(o) + "}");
      OccursSplit(s, i, "{", PrintEntries(o) + "}");
      EntriesRun(s, i + 1, o, 0, st, [], depth, maxdepth);
      assert [] + o == o;
    case Array(a) =>
      assert Print(v) == "[" + (PrintItems(a) + "]");
      OccursSplit(s, i, "[", PrintItems(a) + "]");
      ItemsRun(s, i + 1, a, 0, st, [], depth, maxdepth);
      assert [] + a == a;
  }

  lemma {:induction false} EntriesRun(s: string, i: nat, es: Odict, idx: nat, st: State, o: Odict,
                                      depth: nat, maxdepth: nat)
    requires PrintableObject(es) && depth + DepthOf(es) <= maxdepth
    requires OccursAt(s, i, PrintEntries(es) + "}") && Ready(st, false, idx)
    ensures Run(s, i, st, o, depth, maxdepth) == Done(o + es, i + |PrintEntries(es)|)
    decreases es
  {
    hide Run, Print, Quote, Ready, ReadyFor, Depth;
    if es == [] {
      assert s[i..i + 1][0] == '}' && o + es == o;
      IdleClose(s, i, false, idx, st, o, depth, maxdepth);
    } else {
      var e, rest, k := es[0], es[1..], i + |Quote(es[0].key)| + 1;
      EntryParts(s, i, es);
      var st1 := NameRun(s, i, e.key, idx, st, o, depth, maxdepth);
      if |es| == 1 {
        ValueClose(s, k, e.v, e.key, false, idx, st1, o, depth, maxdepth);
        assert es == [Entry(e.key, e.v)];
      } else {
        var st2 := ValueComma(s, k, e.v, e.key, false, idx, st1, o, depth, maxdepth);
        EntriesRun(s, k + |Print(e.v)| + 1, rest, idx + 1, st2, o + [e], depth, maxdepth);
        assert (o + [e]) + rest == o + es;
      }
    }
  }

  lemma {:induction false} ItemsRun(s: string, i: nat, es: Odict, idx: nat, st: State, o: Odict,
                                    depth: nat, maxdepth: nat)
    requires PrintableFrom(es, idx) && depth + DepthOf(es) <= maxdepth
    requires OccursAt(s, i, PrintItems(es) + "]") && Ready(st, true, idx)
    ensures Run(s, i, st, o, depth, maxdepth) == Done(o + es, i + |PrintItems(es)|)
    decreases es
  {
    hide Run, Print, Digits, Depth;
    if es == [] {
      assert s[i..i + 1][0] == ']' && o + es == o;
      IdleClose(s, i, true, idx, st, o, depth, maxdepth);
    } else {
      var e, rest := es[0], es[1..];
      ItemParts(s, i, es);
      if |es| == 1 {
        ValueClose(s, i, e.v, e.key, true, idx, st, o, depth, maxdepth);
        assert es == [Entry(e.key, e.v)];
      } else {
        var st2 := ValueComma(s, i, e.v, e.key, true, idx, st, o, depth, maxdepth);
        assert PrintableFrom(rest, idx + 1) by {
          forall j | 0 <= j < |rest| ensures rest[j].key == Digits(idx + 1 + j, 10) && Printable(rest[j].v) {
            assert rest[j] == es[j + 1];
          }
        }
        ItemsRun(s, i + |Print(e.v)| + 1, rest, idx + 1, st2, o + [e], depth, maxdepth);
        assert (o + [e]) + rest == o + es;
      }
    }
  }

  // ---------------------------------------------------------------- nested too deep

  /** A container below the limit ends the decoding, at its bracket or somewhere inside. */
  lemma {:induction false} ValueTooDeep(s: string, i: nat, v: Value, key: string, arr: bool, idx: nat,
                                        st: State, o: Odict, depth: nat, maxdepth: nat)
    requires Printable(v) && OccursAt(s, i, Print(v)) && ReadyFor(st, arr, idx, key)
    requires depth <= maxdepth < depth + Depth(v)
    ensures Run(s, i, st, o, depth, maxdepth) == Bad(EOVERFLOW)
    decreases v, 1
  {
    hide Run, Print, Act, ReadyFor, Ready, After;
    FirstBracket(v);
    assert s[i] == s[i..i + |Print(v)|][0];
    if depth == maxdepth {
      BracketOverflows(s, i, v.Array?, key, arr, idx, st, o, depth, maxdepth);
      RunReturn(s, i, st, o, depth, maxdepth);
    } else {
      BracketDescends(s, i, v.Array?, key, arr, idx, st, o, depth, maxdepth);
      FrameTooDeep(s, i, v, depth + 1, maxdepth);
      RunDescendBad(s, i, st, o, depth, maxdepth);
    }
  }

  lemma BracketOverflows(s: string, i: nat, isArray: bool, key: string, arr: bool, idx: nat, st: State, o: Odict,
                         depth: nat, maxdepth: nat)
    requires i < |s| && s[i] == (if isArray then '[' else '{') && ReadyFor(st, arr, idx, key) && depth >= maxdepth
    ensures Act(s, i, st, o, depth, maxdepth) == Return(Bad(EOVERFLOW))
  {
    hide DecodeName, Quote, Digits;
  }

  lemma {:induction false} FrameTooDeep(s: string, i: nat, v: Value, depth: nat, maxdepth: nat)
    requires Printable(v) && OccursAt(s, i, Print(v))
    requires depth <= maxdepth && maxdepth + 1 < depth + Depth(v)
    ensures Run(s, i, Fresh, [], depth, maxdepth) == Bad(EOVERFLOW)
    decreases v, 0
  {
    hide Run, PrintEntries, PrintItems, Ready;
    assert s[i] == Print(v)[0] by { FirstBracket(v); }
    var st := OpenFresh(s, i, v.Array?, depth, maxdepth);
    match v
    case Object(o) =>
      assert Print(v) == "{" + (PrintEntries(o) + "}");
      OccursSplit(s, i, "{", PrintEntries(o) + "}");
      EntriesTooDeep(s, i + 1, o, 0, st, [], depth, maxdepth);
    case Array(a) =>
      assert Print(v) == "[" + (PrintItems(a) + "]");
      OccursSplit(s, i, "[", PrintItems(a) + "]");
      ItemsTooDeep(s, i + 1, a, 0, st, [], depth, maxdepth);
  }

  lemma {:induction false} EntriesTooDeep(s: string, i: nat, es: Odict, idx: nat, st: State, o: Odict,
                                          depth: nat, maxdepth: nat)
    requires PrintableObject(es) && depth <= maxdepth < depth + DepthOf(es)
    requires OccursAt(s, i, PrintEntries(es) + "}") && Ready(st, false, idx)
    ensures Run(s, i, st, o, depth, maxdepth) == Bad(EOVERFLOW)
    decreases es
  {
    hide Run, Print, Quote, Ready, ReadyFor, Depth;
    var e, rest, k := es[0], es[1..], i + |Quote(es[0].key)| + 1;
    EntryParts(s, i, es);
    var st1 := NameRun(s, i, e.key, idx, st, o, depth, maxdepth);
    if depth + Depth(e.v) > maxdepth {
      ValueTooDeep(s, k, e.v, e.key, false, idx, st1, o, depth, maxdepth);
    } else {
      var st2 := ValueComma(s, k, e.v, e.key, false, idx, st1, o, depth, maxdepth);
      EntriesTooDeep(s, k + |Print(e.v)| + 1, rest, idx + 1, st2, o + [e], depth, maxdepth);
    }
  }

  lemma {:induction false} ItemsTooDeep(s: string, i: nat, es: Odict, idx: nat, st: State, o: Odict,
                                        depth: nat, maxdepth: nat)
    requires PrintableFrom(es, idx) && depth <= maxdepth < depth + DepthOf(es)
    requires OccursAt(s, i, PrintItems(es) + "]") && Ready(st, true, idx)
    ensures Run(s, i, st, o, depth, maxdepth) == Bad(EOVERFLOW)
    decreases es
  {
    hide Run, Print, Digits, Depth;
    var e, rest := es[0], es[1..];
    ItemParts(s, i, es);
    if depth + Depth(e.v) > maxdepth {
      ValueTooDeep(s, i, e.v, e.key, true, idx, st, o, depth, maxdepth);
    } else {
      var st2 := ValueComma(s, i, e.v, e.key, true, idx, st, o, depth, maxdepth);
      assert PrintableFrom(rest, idx + 1) by {
        forall j | 0 <= j < |rest| ensures rest[j].key == Digits(idx + 1 + j, 10) && Printable(rest[j].v) {
          assert rest[j] == es[j + 1];
        }
      }
      ItemsTooDeep(s, i + |Print(e.v)| + 1, rest, idx + 1, st2, o + [e], depth, maxdepth);
    }
  }

  /**
   * Decoding the printed form of a dictionary rebuilds it, entry by entry and in order, exactly when its containers
   * are nested no deeper than the limit, and ends in the overflow error when they are; what stands behind the text
   * is not looked at.
   */
  lemma RoundTrip(o: Odict, maxdepth: nat, tail: string)
    requires PrintableObject(o)
    ensures Decode(Encode(o) + tail, maxdepth)
            == if DepthOf(o) <= maxdepth then Done(o, |Encode(o)| - 1) else Bad(EOVERFLOW)
  {
    hide Run, Print;
    var s := Encode(o) + tail;
    assert s[0..|Encode(o)|] == Encode(o);
    if DepthOf(o) <= maxdepth {
      FrameRun(s, 0, Object(o), 0, maxdepth);
    } else {
      FrameTooDeep(s, 0, Object(o), 0, maxdepth);
    }
  }
}
