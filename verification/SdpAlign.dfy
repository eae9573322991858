/** Aligning the local formats of an SDP media line with the remote ones. */
module SdpAlign {
  import opened Base

  const RTP_DYNPT_START: int := 96

  datatype Format = Format(id: Option<string>, params: Option<string>, rparams: Option<string>, name: Option<string>,
                           data: nat, owned: bool, sup: bool, pt: int, srate: u32, ch: u8, cmph: nat)

  /** What the comparison depends on outside this file: the format handlers by number (0 for none), and atoi. */
  datatype Env = Env(cmph: (nat, Option<string>, Option<string>, nat) -> bool, atoi: string -> int)

  type Formats = map<nat, Format>

  /** str_casecmp returning zero: absent strings equal only each other. */
  predicate SameName(s: Option<string>, t: Option<string>) {
    if s.None? || t.None? then s.None? && t.None? else SameIgnoringCase(s.value, t.value)
  }

  /** sdp_format_cmp: static payload types by id, the others by name, rate, channels and their handlers. */
  predicate FormatCmp(env: Env, a: Format, b: Format) {
    if a.pt < RTP_DYNPT_START && b.pt < RTP_DYNPT_START then a.id.Some? && b.id.Some? && a.id == b.id
    else
      && SameName(a.name, b.name) && a.srate == b.srate && a.ch == b.ch
      && (a.cmph != 0 ==> env.cmph(a.cmph, a.params, b.params, a.data))
      && (b.cmph != 0 ==> env.cmph(b.cmph, b.params, a.params, b.data))
  }

  // ---------------------------------------------------------------- the turns of the remote formats

  /** The local list and all formats, local and remote. */
  datatype St = St(l: seq<nat>, fmt: Formats)

  predicate Known(l: seq<nat>, fmt: Formats) { forall i :: 0 <= i < |l| ==> l[i] in fmt }

  predicate StOk(s: St, rl: seq<nat>) {
    && Known(s.l, s.fmt) && Known(rl, s.fmt) && NoRepeats(s.l) && NoRepeats(rl)
    && forall i, j :: 0 <= i < |s.l| && 0 <= j < |rl| ==> s.l[i] != rl[j]
  }

  /** The first local format that matches. */
  function FirstMatch(env: Env, l: seq<nat>, fmt: Formats, r: nat): (k: Option<nat>)
    ensures k.Some? ==> k.value < |l|
  {
    if l == [] then None
    else if l[0] in fmt && r in fmt && FormatCmp(env, fmt[l[0]], fmt[r]) then Some(0)
    else match FirstMatch(env, l[1..], fmt, r) case None => None case Some(k) => Some(k + 1)
  }

  lemma {:induction false} FirstMatchIsFirst(env: Env, l: seq<nat>, fmt: Formats, r: nat)
    requires Known(l, fmt) && r in fmt
    ensures match FirstMatch(env, l, fmt, r)
            case None => forall i :: 0 <= i < |l| ==> !FormatCmp(env, fmt[l[i]], fmt[r])
            case Some(k) => FormatCmp(env, fmt[l[k]], fmt[r]) && forall i :: 0 <= i < k ==> !FormatCmp(env, fmt[l[i]], fmt[r])
  {
    hide FormatCmp;
    if l != [] && !FormatCmp(env, fmt[l[0]], fmt[r]) {
      FirstMatchIsFirst(env, l[1..], fmt, r);
      assert forall i :: 0 <= i < |l| - 1 ==> l[1..][i] == l[i + 1];
      assert forall i :: 0 < i < |l| ==> l[i] == l[1..][i - 1];
    }
  }

  /** The local format after a match: on an offer it takes over the remote id. */
  function LocalAfter(env: Env, offer: bool, lf: Format, rf: Format): Format {
    var f := lf.(rparams := rf.params, sup := true);
    if offer then f.(id := rf.id, pt := env.atoi(if rf.id.Some? then rf.id.value else "")) else f
  }

  function RemoteAfter(lf: Format, rf: Format): Format { rf.(sup := true, data := lf.data, owned := lf.owned) }

  /** One remote format's turn: the matched local format moves to the end of the list on an offer. */
  function Turn(env: Env, offer: bool, s: St, r: nat): St {
    match FirstMatch(env, s.l, s.fmt, r)
    case None => if r in s.fmt then s.(fmt := s.fmt[r := s.fmt[r].(sup := false)]) else s
    case Some(k) =>
      var x := s.l[k];
      if x !in s.fmt || r !in s.fmt then s
      else
        var lf, rf := s.fmt[x], s.fmt[r];
        St(if offer then s.l[..k] + s.l[k + 1..] + [x] else s.l,
           s.fmt[x := LocalAfter(env, offer, lf, rf)][r := RemoteAfter(lf, rf)])
  }

  lemma MovedToEnd(l: seq<nat>, k: nat, t: seq<nat>)
    requires NoRepeats(l) && k < |l| && t == l[..k] + l[k + 1..] + [l[k]]
    ensures NoRepeats(t) && |t| == |l| && forall i :: 0 <= i < |t| ==> t[i] in l
  {
    forall i | 0 <= i < |t| ensures t[i] == l[if i < k then i else if i < |l| - 1 then i + 1 else k] { }
  }

  lemma TurnOk(env: Env, offer: bool, s: St, rl: seq<nat>, j: nat)
    requires StOk(s, rl) && j < |rl|
    ensures var t := Turn(env, offer, s, rl[j]);
            StOk(t, rl) && |t.l| == |s.l| && t.fmt.Keys == s.fmt.Keys
  {
    hide FormatCmp, FirstMatch;
    var t := Turn(env, offer, s, rl[j]);
    var m := FirstMatch(env, s.l, s.fmt, rl[j]);
    if m.Some? && offer && t.l != s.l {
      MovedToEnd(s.l, m.value, t.l);
    }
  }

  /** The state after the first `n` remote formats have had their turn. */
  function Turns(env: Env, offer: bool, s: St, rl: seq<nat>, n: nat): St
    requires n <= |rl|
  {
    if n == 0 then s else Turn(env, offer, Turns(env, offer, s, rl, n - 1), rl[n - 1])
  }

  lemma {:induction false} TurnsOk(env: Env, offer: bool, s: St, rl: seq<nat>, n: nat)
    requires StOk(s, rl) && n <= |rl|
    ensures var t := Turns(env, offer, s, rl, n);
            StOk(t, rl) && |t.l| == |s.l| && t.fmt.Keys == s.fmt.Keys
  {
    hide StOk, Turn;
    if n > 0 {
      TurnsOk(env, offer, s, rl, n - 1);
      TurnOk(env, offer, Turns(env, offer, s, rl, n - 1), rl, n - 1);
    }
  }

  /** Which local format matches at the turn of a remote one. */
  function Matched(env: Env, s: St, r: nat): Option<nat> {
    match FirstMatch(env, s.l, s.fmt, r) case None => None case Some(k) => Some(s.l[k])
  }

  /** Which local format matched each of the first `n` remote ones at its turn. */
  function Matches(env: Env, offer: bool, s: St, rl: seq<nat>, n: nat): (ms: seq<Option<nat>>)
    requires n <= |rl|
    ensures |ms| == n
  {
    if n == 0 then []
    else Matches(env, offer, s, rl, n - 1) + [Matched(env, Turns(env, offer, s, rl, n - 1), rl[n - 1])]
  }

  // ---------------------------------------------------------------- the resulting order

  function Excluding(l: seq<nat>, x: nat): seq<nat> {
    if l == [] then []
    else Excluding(l[..|l| - 1], x) + (if l[|l| - 1] == x then [] else [l[|l| - 1]])
  }

  /** The local formats that matched, in the order of the last remote format each of them matched. */
  function ByLastMatch(ms: seq<Option<nat>>): seq<nat> {
    if ms == [] then []
    else
      var front := ByLastMatch(ms[..|ms| - 1]);
      match ms[|ms| - 1] case None => front case Some(x) => Excluding(front, x) + [x]
  }

  /** The local formats that did not, in the order of the original list. */
  function Unmatched(l: seq<nat>, ms: seq<Option<nat>>): seq<nat> {
    if ms == [] then l
    else
      var front := Unmatched(l, ms[..|ms| - 1]);
      match ms[|ms| - 1] case None => front case Some(x) => Excluding(front, x)
  }

  lemma {:induction false} WithoutAppend(a: seq<nat>, b: seq<nat>, x: nat)
    ensures Excluding(a + b, x) == Excluding(a, x) + Excluding(b, x)
  {
    if b == [] {
      assert a + b == a;
    } else {
      var n := |b| - 1;
      assert (a + b)[..|a + b| - 1] == a + b[..n];
      WithoutAppend(a, b[..n], x);
    }
  }

  lemma {:induction false} WithoutMembers(l: seq<nat>, x: nat)
    ensures forall y :: y in Excluding(l, x) <==> y in l && y != x
    ensures x !in l ==> Excluding(l, x) == l
    ensures NoRepeats(l) ==> NoRepeats(Excluding(l, x))
  {
    if l != [] {
      var n := |l| - 1;
      var front := Excluding(l[..n], x);
      assert l == l[..n] + [l[n]];
      WithoutMembers(l[..n], x);
      assert NoRepeats(l) ==> l[n] !in l[..n];
      assert NoRepeats(l) ==> l[n] !in front;
    }
  }

  lemma WithoutOne(x: nat)
    ensures Excluding([x], x) == []
  {
    assert [x][..0] == [];
  }

  lemma NotElsewhere(l: seq<nat>, k: nat)
    requires NoRepeats(l) && k < |l|
    ensures l[k] !in l[..k] && l[k] !in l[k + 1..]
  {
    var back := l[k + 1..];
    forall i | 0 <= i < |back| ensures back[i] != l[k] {
      assert back[i] == l[k + 1 + i];
    }
  }

  /** Taking out the element at an index of a list without repetition. */
  lemma CutIsWithout(l: seq<nat>, k: nat)
    requires NoRepeats(l) && k < |l|
    ensures l[..k] + l[k + 1..] == Excluding(l, l[k])
  {
    hide Excluding, NoRepeats;
    var x, front, back := l[k], l[..k], l[k + 1..];
    NotElsewhere(l, k);
    assert l == front + ([x] + back);
    WithoutAppend(front, [x] + back, x);
    WithoutAppend([x], back, x);
    WithoutOne(x);
    WithoutMembers(front, x);
    WithoutMembers(back, x);
    assert [] + back == back;
  }

  /** What one more match does to the two halves of the list. */
  lemma OneMoreMatch(l: seq<nat>, ms: seq<Option<nat>>, m: Option<nat>)
    ensures Unmatched(l, ms + [m]) == match m case None => Unmatched(l, ms) case Some(x) => Excluding(Unmatched(l, ms), x)
    ensures ByLastMatch(ms + [m]) == match m case None => ByLastMatch(ms) case Some(x) => Excluding(ByLastMatch(ms), x) + [x]
    ensures forall x: nat :: LastMatch(ms + [m], x) == if m == Some(x) then |ms| else LastMatch(ms, x)
  {
    assert (ms + [m])[..|ms|] == ms;
  }

  /** Moving an element to the end moves it out of either half. */
  lemma MoveInHalves(l: seq<nat>, k: nat, u: seq<nat>, b: seq<nat>)
    requires NoRepeats(l) && k < |l| && l == u + b
    ensures l[..k] + l[k + 1..] + [l[k]] == Excluding(u, l[k]) + (Excluding(b, l[k]) + [l[k]])
  {
    hide Excluding;
    CutIsWithout(l, k);
    WithoutAppend(u, b, l[k]);
    Regroup(Excluding(u, l[k]), Excluding(b, l[k]), [l[k]]);
  }

  /** After any number of turns on an offer: those that have not matched yet, then those that have. */
  lemma {:induction false} TurnsOrder(env: Env, s: St, rl: seq<nat>, n: nat)
    requires StOk(s, rl) && n <= |rl|
    ensures var ms := Matches(env, true, s, rl, n);
            Turns(env, true, s, rl, n).l == Unmatched(s.l, ms) + ByLastMatch(ms)
  {
    hide Turn, Matched, StOk, Unmatched, ByLastMatch, Excluding;
    if n == 0 {
      NoMatches(s.l);
    } else {
      var t := Turns(env, true, s, rl, n - 1);
      var front := Matches(env, true, s, rl, n - 1);
      TurnsOrder(env, s, rl, n - 1);
      TurnsOk(env, true, s, rl, n - 1);
      OneMoreMatch(s.l, front, Matched(env, t, rl[n - 1]));
      TurnMoves(env, t, rl, n - 1, Unmatched(s.l, front), ByLastMatch(front));
    }
  }

  lemma NoMatches(l: seq<nat>)
    ensures Unmatched(l, []) + ByLastMatch([]) == l
  {
  }

  lemma TurnMoves(env: Env, t: St, rl: seq<nat>, j: nat, u: seq<nat>, b: seq<nat>)
    requires StOk(t, rl) && j < |rl| && t.l == u + b
    ensures Turn(env, true, t, rl[j]).l ==
            match Matched(env, t, rl[j]) case None => u + b case Some(x) => Excluding(u, x) + (Excluding(b, x) + [x])
  {
    hide FormatCmp, FirstMatch, Excluding, LocalAfter, RemoteAfter;
    var m := FirstMatch(env, t.l, t.fmt, rl[j]);
    if m.Some? {
      MoveInHalves(t.l, m.value, u, b);
    }
  }

  /** The last turn at which a local format matched. */
  function LastMatch(ms: seq<Option<nat>>, x: nat): (i: int)
    ensures -1 <= i < |ms|
  {
    if ms == [] then -1 else if ms[|ms| - 1] == Some(x) then |ms| - 1 else LastMatch(ms[..|ms| - 1], x)
  }

  predicate Ascending(b: seq<nat>, ms: seq<Option<nat>>) {
    forall i, j :: 0 <= i < j < |b| ==> LastMatch(ms, b[i]) < LastMatch(ms, b[j])
  }

  /** What the order by last match means. */
  lemma {:induction false} ByLastMatchMeans(ms: seq<Option<nat>>)
    ensures var b := ByLastMatch(ms);
            NoRepeats(b) && Ascending(b, ms) && forall x :: x in b <==> Some(x) in ms
  {
    hide ByLastMatch, Excluding, Unmatched;
    if ms == [] {
      NoMatches([]);
    } else {
      var n := |ms| - 1;
      var front := ms[..n];
      var b := ByLastMatch(front);
      assert ms == front + [ms[n]];
      ByLastMatchMeans(front);
      OneMoreMatch([], front, ms[n]);
      if ms[n].Some? {
        WithoutMembers(b, ms[n].value);
        AscendingWithout(b, front, ms[n].value);
        AscendingMore(Excluding(b, ms[n].value), front, ms[n].value);
      } else {
        assert Ascending(b, ms);
      }
    }
  }

  lemma {:induction false} AscendingWithout(b: seq<nat>, ms: seq<Option<nat>>, x: nat)
    requires Ascending(b, ms)
    ensures Ascending(Excluding(b, x), ms)
  {
    if b != [] {
      var n := |b| - 1;
      var front := Excluding(b[..n], x);
      AscendingWithout(b[..n], ms, x);
      WithoutMembers(b[..n], x);
      forall i | 0 <= i < |front| ensures LastMatch(ms, front[i]) < LastMatch(ms, b[n]) {
        assert front[i] in b[..n];
      }
    }
  }

  lemma AscendingMore(b: seq<nat>, ms: seq<Option<nat>>, x: nat)
    requires Ascending(b, ms) && x !in b
    ensures Ascending(b + [x], ms + [Some(x)])
  {
    OneMoreMatch([], ms, Some(x));
    var c := b + [x];
    forall i, j | 0 <= i < j < |c| ensures LastMatch(ms + [Some(x)], c[i]) < LastMatch(ms + [Some(x)], c[j]) {
      assert c[i] == b[i] && c[i] in b;
      assert j < |b| ==> c[j] in b;
    }
  }

  function Reversed(l: seq<nat>): (r: seq<nat>)
    ensures |r| == |l|
  {
    if l == [] then [] else [l[|l| - 1]] + Reversed(l[..|l| - 1])
  }

  /** Read backwards, position by position. */
  predicate Backwards(l: seq<nat>, r: seq<nat>) {
    |r| == |l| && forall i :: 0 <= i < |l| ==> r[i] == l[|l| - 1 - i]
  }

  lemma {:induction false} ReversedIsBackwards(l: seq<nat>)
    ensures Backwards(l, Reversed(l))
  {
    if l != [] {
      var n := |l| - 1;
      var front := Reversed(l[..n]);
      ReversedIsBackwards(l[..n]);
      forall i | 0 <= i < |l| ensures Reversed(l)[i] == l[n - i] {
        assert i > 0 ==> front[i - 1] == l[..n][n - i];
      }
    }
  }

  lemma {:induction false} ReversedPermutes(l: seq<nat>)
    ensures multiset(Reversed(l)) == multiset(l)
  {
    if l != [] {
      ReversedPermutes(l[..|l| - 1]);
      assert l == l[..|l| - 1] + [l[|l| - 1]];
    }
  }

  /** The local list after an offer. */
  function Aligned(l: seq<nat>, ms: seq<Option<nat>>): seq<nat> {
    ByLastMatch(ms) + Reversed(Unmatched(l, ms))
  }

  // ---------------------------------------------------------------- flags and contents

  /** Local formats cleared before the first turn. */
  ghost predicate Cleared(l: seq<nat>, before: Formats, after: Formats) {
    && after.Keys == before.Keys
    && forall x :: x in before ==>
         after[x] == if x in l then before[x].(rparams := None, sup := false) else before[x]
  }

  lemma TurnPermutes(env: Env, offer: bool, s: St, r: nat)
    ensures multiset(Turn(env, offer, s, r).l) == multiset(s.l)
  {
    hide FormatCmp, FirstMatch, LocalAfter, RemoteAfter;
    var m := FirstMatch(env, s.l, s.fmt, r);
    if m.Some? {
      MovePermutes(s.l, m.value);
    }
  }

  lemma MovePermutes(l: seq<nat>, k: nat)
    requires k < |l|
    ensures multiset(l[..k] + l[k + 1..] + [l[k]]) == multiset(l)
  {
    assert l == l[..k] + ([l[k]] + l[k + 1..]);
  }

  lemma {:induction false} TurnsPermute(env: Env, offer: bool, s: St, rl: seq<nat>, n: nat)
    requires n <= |rl|
    ensures multiset(Turns(env, offer, s, rl, n).l) == multiset(s.l)
    ensures !offer ==> Turns(env, offer, s, rl, n).l == s.l
  {
    hide Turn;
    if n > 0 {
      TurnsPermute(env, offer, s, rl, n - 1);
      TurnPermutes(env, offer, Turns(env, offer, s, rl, n - 1), rl[n - 1]);
      AnswerKeepsOrder(env, Turns(env, offer, s, rl, n - 1), rl[n - 1]);
    }
  }

  lemma AnswerKeepsOrder(env: Env, s: St, r: nat)
    ensures Turn(env, false, s, r).l == s.l
  {
  }

  /** What a turn does to the flags. */
  lemma TurnFlags(env: Env, offer: bool, s: St, rl: seq<nat>, j: nat, x: nat)
    requires StOk(s, rl) && j < |rl| && x in s.fmt
    ensures var t := Turn(env, offer, s, rl[j]);
            var m := Matched(env, s, rl[j]);
            && x in t.fmt
            && (x in s.l ==> (t.fmt[x].sup <==> s.fmt[x].sup || m == Some(x)))
            && (x == rl[j] ==> (t.fmt[x].sup <==> m.Some?))
            && (x in rl && x != rl[j] ==> t.fmt[x] == s.fmt[x])
  {
    hide FormatCmp, FirstMatch;
    if x in s.l {
      var i :| 0 <= i < |s.l| && s.l[i] == x;
      assert x != rl[j];
    }
    if x in rl {
      var i :| 0 <= i < |rl| && rl[i] == x;
      assert forall k :: 0 <= k < |s.l| ==> s.l[k] != x;
    }
  }

  /** A local format is marked supported exactly when it matched at some turn, a remote one when it did at its own. */
  lemma {:induction false} TurnsFlags(env: Env, offer: bool, s: St, rl: seq<nat>, n: nat, x: nat)
    requires StOk(s, rl) && n <= |rl| && x in s.fmt && (x in s.l ==> !s.fmt[x].sup)
    ensures var t, ms := Turns(env, offer, s, rl, n), Matches(env, offer, s, rl, n);
            && x in t.fmt
            && (x in s.l ==> (t.fmt[x].sup <==> Some(x) in ms))
            && (forall i :: 0 <= i < n && rl[i] == x ==> (t.fmt[x].sup <==> ms[i].Some?))
  {
    hide Turn, Matched, FormatCmp;
    if n > 0 {
      var t := Turns(env, offer, s, rl, n - 1);
      TurnsFlags(env, offer, s, rl, n - 1, x);
      TurnsOk(env, offer, s, rl, n - 1);
      TurnsPermute(env, offer, s, rl, n - 1);
      SameMembers(s.l, t.l);
      TurnFlags(env, offer, t, rl, n - 1, x);
      forall i | 0 <= i < n - 1 && rl[i] == x ensures x != rl[n - 1] && x in rl { }
    }
  }

  /**
   * The local list after an offer: a permutation of the original one, every format that matched before every one
   * that did not, the former ordered by the last remote format each matched, the latter in reverse.
   */
  lemma AlignedMeans(env: Env, s: St, rl: seq<nat>)
    requires StOk(s, rl)
    ensures var ms := Matches(env, true, s, rl, |rl|);
            var r, k := Aligned(s.l, ms), |ByLastMatch(ms)|;
            && multiset(r) == multiset(s.l) && k <= |r|
            && (forall i :: 0 <= i < |r| ==> (i < k <==> Some(r[i]) in ms))
            && (forall i, j :: 0 <= i < j < k ==> LastMatch(ms, r[i]) < LastMatch(ms, r[j]))
            && r[k..] == Reversed(Unmatched(s.l, ms)) && Sublist(Unmatched(s.l, ms), s.l)
            && Backwards(Unmatched(s.l, ms), r[k..])
  {
    hide Matches, ByLastMatch, Unmatched, StOk, LastMatch, Reversed, Turns;
    var ms := Matches(env, true, s, rl, |rl|);
    TurnsOrder(env, s, rl, |rl|);
    TurnsPermute(env, true, s, rl, |rl|);
    ByLastMatchMeans(ms);
    UnmatchedMembers(s.l, ms);
    ReversedIsBackwards(Unmatched(s.l, ms));
    HalvesTogether(ByLastMatch(ms), Unmatched(s.l, ms), ms, Aligned(s.l, ms));
  }

  lemma HalvesTogether(b: seq<nat>, u: seq<nat>, ms: seq<Option<nat>>, r: seq<nat>)
    requires r == b + Reversed(u) && Ascending(b, ms)
    requires (forall x :: x in b ==> Some(x) in ms) && forall x :: x in u ==> Some(x) !in ms
    ensures multiset(r) == multiset(u + b) && |b| <= |r| && r[|b|..] == Reversed(u)
    ensures forall i :: 0 <= i < |r| ==> (i < |b| <==> Some(r[i]) in ms)
    ensures forall i, j :: 0 <= i < j < |b| ==> LastMatch(ms, r[i]) < LastMatch(ms, r[j])
  {
    hide Reversed, LastMatch;
    ReversedPermutes(u);
    assert multiset(u + b) == multiset(u) + multiset(b);
    SameMembers(Reversed(u), u);
    forall i | 0 <= i < |r| ensures i < |b| <==> Some(r[i]) in ms {
      if i < |b| {
        assert r[i] == b[i];
      } else {
        assert r[i] in Reversed(u);
      }
    }
    assert forall i :: 0 <= i < |b| ==> r[i] == b[i];
  }

  lemma ReversedFront(x: nat, l: seq<nat>)
    ensures Reversed([x] + l) == Reversed(l) + [x]
  {
    var s := [x] + l;
    if l == [] {
      assert s == [x] && s[..0] == [];
    } else {
      var n := |l| - 1;
      assert s[..|s| - 1] == [x] + l[..n];
      ReversedFront(x, l[..n]);
    }
  }

  /** The list while the last loop is at position `le`. */
  function Separating(u: seq<nat>, b: seq<nat>, le: nat): seq<nat> {
    if le >= |u| then u + b else u[..le] + b + Reversed(u[le..])
  }

  lemma SeparatingStep(u: seq<nat>, b: seq<nat>, le: nat)
    requires 0 < le <= |u|
    ensures var l := Separating(u, b, le);
            && le <= |l| && l[le - 1] == u[le - 1]
            && l[..le - 1] + l[le..] + [u[le - 1]] == Separating(u, b, le - 1)
  {
    var l, x := Separating(u, b, le), u[le - 1];
    var tail := b + Reversed(u[le..]);
    assert u[|u|..] == [] && b + [] == b;
    assert l == u[..le] + tail;
    assert l[..le - 1] == u[..le - 1] && l[le..] == tail;
    ReversedFront(x, u[le..]);
    assert [x] + u[le..] == u[le - 1..];
    assert u[..le - 1] + tail + [x] == u[..le - 1] + b + (Reversed(u[le..]) + [x]);
  }

  /** Elements of a list, in its order, possibly with others left out. */
  ghost predicate Sublist(u: seq<nat>, l: seq<nat>)
    decreases |l|
  {
    if l == [] then u == []
    else
      var n := |l| - 1;
      Sublist(u, l[..n]) || (u != [] && u[|u| - 1] == l[n] && Sublist(u[..|u| - 1], l[..n]))
  }

  lemma {:induction false} SublistSame(l: seq<nat>)
    ensures Sublist(l, l)
  {
    if l != [] { SublistSame(l[..|l| - 1]); }
  }

  lemma {:induction false} SublistWithout(u: seq<nat>, l: seq<nat>, x: nat)
    requires Sublist(u, l)
    ensures Sublist(Excluding(u, x), l)
    decreases |l|
  {
    if l == [] {
    } else {
      var n := |l| - 1;
      if Sublist(u, l[..n]) {
        SublistWithout(u, l[..n], x);
      } else {
        var front := u[..|u| - 1];
        SublistWithout(front, l[..n], x);
        var w, r := Excluding(front, x), Excluding(u, x);
        if u[|u| - 1] == x {
          assert r == w;
        } else {
          assert r == w + [u[|u| - 1]] && r[..|r| - 1] == w;
        }
      }
    }
  }

  lemma {:induction false} UnmatchedMembers(l: seq<nat>, ms: seq<Option<nat>>)
    ensures var u := Unmatched(l, ms);
            (forall x :: x in u <==> x in l && Some(x) !in ms) && Sublist(u, l)
  {
    hide Excluding, Sublist;
    if ms == [] {
      SublistSame(l);
    } else {
      var n := |ms| - 1;
      assert ms == ms[..n] + [ms[n]];
      UnmatchedMembers(l, ms[..n]);
      if ms[n].Some? {
        WithoutMembers(Unmatched(l, ms[..n]), ms[n].value);
        SublistWithout(Unmatched(l, ms[..n]), l, ms[n].value);
      }
    }
  }

  // ---------------------------------------------------------------- the media line

  class SdpMedia {
    /** The lists hold identities of formats; every format is known by its identity. */
    var lfmtl: seq<nat>
    var rfmtl: seq<nat>
    var fmt: Formats
    var disabled: bool
    var rport: nat
    var fmtIgnore: bool
    const env: Env

    ghost predicate Valid()
      reads this
    {
      StOk(St(lfmtl, fmt), rfmtl)
    }

    constructor (lfmtl: seq<nat>, rfmtl: seq<nat>, fmt: Formats, disabled: bool, rport: nat, fmtIgnore: bool, env: Env)
      requires StOk(St(lfmtl, fmt), rfmtl)
      ensures Valid() && this.lfmtl == lfmtl && this.rfmtl == rfmtl && this.fmt == fmt && this.env == env
      ensures this.disabled == disabled && this.rport == rport && this.fmtIgnore == fmtIgnore
    {
      this.lfmtl, this.rfmtl, this.fmt, this.env := lfmtl, rfmtl, fmt, env;
      this.disabled, this.rport, this.fmtIgnore := disabled, rport, fmtIgnore;
    }

    /** sdp_media_align_formats; `start` is the state with the local flags cleared. */
    method AlignFormats(offer: bool) returns (ghost start: St)
      requires Valid()
      modifies this`lfmtl, this`fmt
      ensures Valid()
      ensures disabled || rport == 0 || fmtIgnore ==> lfmtl == old(lfmtl) && fmt == old(fmt)
      ensures !disabled && rport != 0 && !fmtIgnore ==>
        && start.l == old(lfmtl) && Cleared(old(lfmtl), old(fmt), start.fmt)
        && StOk(start, rfmtl) && fmt == Turns(env, offer, start, rfmtl, |rfmtl|).fmt
        && (offer ==> lfmtl == Aligned(old(lfmtl), Matches(env, true, start, rfmtl, |rfmtl|)))
        && (!offer ==> lfmtl == old(lfmtl))
        && FlagsSet(lfmtl, rfmtl, fmt, Matches(env, offer, start, rfmtl, |rfmtl|))
    {
      hide Turns, Matches, Cleared, Aligned, FlagsSet;
      start := St(lfmtl, fmt);
      if disabled || rport == 0 || fmtIgnore {
        return;
      }
      Clear();
      start := St(lfmtl, fmt);
      AllTurns(offer);
      TurnsPermute(env, offer, start, rfmtl, |rfmtl|);
      AllFlags(env, offer, start, rfmtl, lfmtl);
      if offer {
        Separate(start);
        AlignedMeans(env, start, rfmtl);
        AllFlags(env, offer, start, rfmtl, lfmtl);
      }
    }

    /** The first loop: local formats start unsupported. */
    method Clear()
      requires Valid()
      modifies this`fmt
      ensures Valid() && Cleared(lfmtl, old(fmt), fmt)
    {
      for i := 0 to |lfmtl|
        invariant Valid() && Cleared(lfmtl[..i], old(fmt), fmt)
      {
        assert lfmtl[..i + 1] == lfmtl[..i] + [lfmtl[i]];
        var x := lfmtl[i];
        fmt := fmt[x := fmt[x].(rparams := None, sup := false)];
      }
      assert lfmtl[..|lfmtl|] == lfmtl;
    }

    /** The loop over the remote formats. */
    method AllTurns(offer: bool)
      requires Valid()
      modifies this`lfmtl, this`fmt
      ensures Valid() && St(lfmtl, fmt) == Turns(env, offer, old(St(lfmtl, fmt)), rfmtl, |rfmtl|)
    {
      hide Turn, StOk;
      ghost var start := St(lfmtl, fmt);
      for i := 0 to |rfmtl|
        invariant Valid() && St(lfmtl, fmt) == Turns(env, offer, start, rfmtl, i)
      {
        TurnOk(env, offer, St(lfmtl, fmt), rfmtl, i);
        OneTurn(offer, i);
      }
    }

    method OneTurn(offer: bool, j: nat)
      requires Valid() && j < |rfmtl|
      modifies this`lfmtl, this`fmt
      ensures St(lfmtl, fmt) == Turn(env, offer, old(St(lfmtl, fmt)), rfmtl[j])
    {
      hide FormatCmp, FirstMatch;
      var r := rfmtl[j];
      ghost var l0, f0 := lfmtl, fmt;
      var i := 0;
      assert lfmtl[0..] == lfmtl;
      while i < |lfmtl| && !FormatCmp(env, fmt[lfmtl[i]], fmt[r])
        invariant i <= |lfmtl| && lfmtl == l0 && fmt == f0
        invariant FirstMatch(env, lfmtl, fmt, r)
               == match FirstMatch(env, lfmtl[i..], fmt, r) case None => None case Some(k) => Some(k + i)
      {
        FirstMatchReads(env, lfmtl[i..], fmt, r);
        assert lfmtl[i..][1..] == lfmtl[i + 1..];
        i := i + 1;
      }
      FirstMatchReads(env, lfmtl[i..], fmt, r);
      if i == |lfmtl| {
        fmt := fmt[r := fmt[r].(sup := false)];
        return;
      }
      var x := lfmtl[i];
      var lf, rf := fmt[x], fmt[r];
      fmt := fmt[x := LocalAfter(env, offer, lf, rf)][r := RemoteAfter(lf, rf)];
      if offer {
        lfmtl := lfmtl[..i] + lfmtl[i + 1..] + [x];
      }
    }

    /** The last loop: from the tail, unsupported formats go to the end. */
    method Separate(ghost start: St)
      requires Valid() && StOk(start, rfmtl) && St(lfmtl, fmt) == Turns(env, true, start, rfmtl, |rfmtl|)
      requires forall i :: 0 <= i < |start.l| ==> !start.fmt[start.l[i]].sup
      modifies this`lfmtl
      ensures Valid() && lfmtl == Aligned(start.l, Matches(env, true, start, rfmtl, |rfmtl|))
    {
      hide Turns, Matches, Unmatched, ByLastMatch;
      ghost var ms := Matches(env, true, start, rfmtl, |rfmtl|);
      ghost var u, b, l0 := Unmatched(start.l, ms), ByLastMatch(ms), lfmtl;
      TurnsOrder(env, start, rfmtl, |rfmtl|);
      FlagsOfHalves(env, start, rfmtl, u, b);
      TurnsOk(env, true, start, rfmtl, |rfmtl|);
      FinalOk(start, St(l0, fmt), rfmtl, u, b);
      var le := |lfmtl|;
      while le > 0
        invariant 0 <= le <= |l0| && lfmtl == Separating(u, b, le)
      {
        if le <= |u| {
          SeparatingStep(u, b, le);
        } else {
          assert lfmtl[le - 1] == b[le - 1 - |u|];
        }
        le := le - 1;
        if !fmt[lfmtl[le]].sup {
          lfmtl := lfmtl[..le] + lfmtl[le + 1..] + [lfmtl[le]];
        }
      }
      assert u[..0] + b + Reversed(u[0..]) == b + Reversed(u) by {
        assert u[0..] == u;
      }
    }
  }

  /** The separated list is as good as the list before. */
  lemma FinalOk(start: St, s: St, rl: seq<nat>, u: seq<nat>, b: seq<nat>)
    requires StOk(s, rl) && s.l == u + b
    ensures StOk(St(b + Reversed(u), s.fmt), rl)
  {
    var r := b + Reversed(u);
    ReversedPermutes(u);
    assert multiset(r) == multiset(b) + multiset(u) == multiset(s.l);
    SameMembers(s.l, r);
    SameMultisetNoRepeats(s.l, r);
    forall i | 0 <= i < |r| ensures r[i] in s.fmt && forall j :: 0 <= j < |rl| ==> r[i] != rl[j] {
      assert r[i] in r;
      var k :| 0 <= k < |s.l| && s.l[k] == r[i];
    }
  }

  /** Local formats are marked when they matched at some turn, remote ones when one matched at theirs. */
  ghost predicate FlagsSet(l: seq<nat>, rl: seq<nat>, fmt: Formats, ms: seq<Option<nat>>) {
    && (forall x :: x in l ==> x in fmt && (fmt[x].sup <==> Some(x) in ms))
    && |ms| == |rl| && forall i :: 0 <= i < |rl| ==> rl[i] in fmt && (fmt[rl[i]].sup <==> ms[i].Some?)
  }

  lemma AllFlags(env: Env, offer: bool, s: St, rl: seq<nat>, l: seq<nat>)
    requires StOk(s, rl) && multiset(l) == multiset(s.l) && forall i :: 0 <= i < |s.l| ==> !s.fmt[s.l[i]].sup
    ensures FlagsSet(l, rl, Turns(env, offer, s, rl, |rl|).fmt, Matches(env, offer, s, rl, |rl|))
  {
    hide Turns, Matches;
    SameMembers(s.l, l);
    forall x | x in l || x in rl
      ensures x in s.fmt && (x in s.l ==> !s.fmt[x].sup)
    {
      if x in l {
        var i :| 0 <= i < |s.l| && s.l[i] == x;
      } else {
        var i :| 0 <= i < |rl| && rl[i] == x;
        assert x !in s.l;
      }
    }
    forall x | x in l || x in rl
      ensures var t, ms := Turns(env, offer, s, rl, |rl|), Matches(env, offer, s, rl, |rl|);
              x in t.fmt && (x in s.l ==> (t.fmt[x].sup <==> Some(x) in ms))
              && forall i :: 0 <= i < |rl| && rl[i] == x ==> (t.fmt[x].sup <==> ms[i].Some?)
    {
      TurnsFlags(env, offer, s, rl, |rl|, x);
    }
    forall i | 0 <= i < |rl|
      ensures rl[i] in Turns(env, offer, s, rl, |rl|).fmt
      ensures Turns(env, offer, s, rl, |rl|).fmt[rl[i]].sup <==> Matches(env, offer, s, rl, |rl|)[i].Some?
    {
      assert rl[i] in rl;
    }
  }

  lemma FirstMatchReads(env: Env, l: seq<nat>, fmt: Formats, r: nat)
    ensures l == [] ==> FirstMatch(env, l, fmt, r) == None
    ensures l != [] && l[0] in fmt && r in fmt ==>
      FirstMatch(env, l, fmt, r) ==
      if FormatCmp(env, fmt[l[0]], fmt[r]) then Some(0)
      else match FirstMatch(env, l[1..], fmt, r) case None => None case Some(k) => Some(k + 1)
  {
  }

  /** After the turns, the first half of the list is unsupported and the second supported. */
  lemma FlagsOfHalves(env: Env, s: St, rl: seq<nat>, u: seq<nat>, b: seq<nat>)
    requires StOk(s, rl) && forall i :: 0 <= i < |s.l| ==> !s.fmt[s.l[i]].sup
    requires var ms := Matches(env, true, s, rl, |rl|); u == Unmatched(s.l, ms) && b == ByLastMatch(ms)
    ensures var fmt := Turns(env, true, s, rl, |rl|).fmt;
            && (forall i :: 0 <= i < |u| ==> u[i] in fmt && !fmt[u[i]].sup)
            && (forall i :: 0 <= i < |b| ==> b[i] in fmt && fmt[b[i]].sup)
  {
    hide Turns, Matches, Unmatched, ByLastMatch;
    var ms := Matches(env, true, s, rl, |rl|);
    var fmt := Turns(env, true, s, rl, |rl|).fmt;
    TurnsOrder(env, s, rl, |rl|);
    TurnsPermute(env, true, s, rl, |rl|);
    SameMembers(s.l, u + b);
    ByLastMatchMeans(ms);
    UnmatchedMembers(s.l, ms);
    forall x | x in s.l ensures x in fmt && (fmt[x].sup <==> Some(x) in ms) {
      var i :| 0 <= i < |s.l| && s.l[i] == x;
      TurnsFlags(env, true, s, rl, |rl|, x);
    }
    assert forall i :: 0 <= i < |u| ==> u[i] in u;
    assert forall i :: 0 <= i < |b| ==> b[i] in b && b[i] in u + b;
  }
}
