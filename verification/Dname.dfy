/** DNS domain names on the wire: labels, compression pointers, and the table of names already written. */
module DnsName {
  import opened Base
  import opened MemoryBuffer
  import opened HashTable

  const DOT: u8 := 46
  const COMP_MASK: u8 := 0xC0
  const OFFSET_MASK: nat := 0x3FFF
  const COMP_LOOP: nat := 255
  const NAME_BUF: nat := 256

  type Label = seq<u8>

  /** A name in the table, with the position of its first label relative to the message start. */
  datatype Entry = Entry(name: seq<u8>, pos: nat)

  datatype Error = EINVAL

  // ---------------------------------------------------------------- names as label lists

  function LowerByte(c: u8): u8 { if 65 <= c <= 90 then c + 32 else c }

  /** ASCII lower case; two names compare equal under str_casecmp when their lower cases agree. */
  function Lower(s: seq<u8>): (r: seq<u8>)
    ensures |r| == |s|
  {
    seq(|s|, i requires 0 <= i < |s| => LowerByte(s[i]))
  }

  /** Length of the first label: everything up to the first dot. */
  function LabelLen(s: seq<u8>): (k: nat)
    ensures k <= |s|
    ensures forall i :: 0 <= i < k ==> s[i] != DOT
    ensures k < |s| ==> s[k] == DOT
  {
    if s == [] || s[0] == DOT then 0 else 1 + LabelLen(s[1..])
  }

  function Labels(s: seq<u8>): seq<Label>
    decreases |s|
  {
    if s == [] then []
    else
      var k := LabelLen(s);
      [s[..k]] + (if k == |s| then [] else Labels(s[k + 1..]))
  }

  /** Labels of 1 to 63 bytes separated by single dots; there may be a dot at the end. */
  predicate Proper(s: seq<u8>)
    decreases |s|
  {
    var k := LabelLen(s);
    1 <= k < 64 && (k + 1 < |s| ==> Proper(s[k + 1..]))
  }

  /** A name without the dot at its end; the root becomes the empty string. */
  function Undotted(s: seq<u8>): seq<u8> {
    if s != [] && s[|s| - 1] == DOT then s[..|s| - 1] else s
  }

  /** A proper name, or the root written as a single dot or as the empty string. */
  predicate ValidName(s: seq<u8>) { s == [] || s == [DOT] || Proper(s) }

  /** The labels a name stands for, in lower case; none for the root. */
  function LowLabels(name: seq<u8>): seq<Label> {
    if name == [DOT] then [] else Labels(Lower(name))
  }

  /** The text of a label list: labels joined with dots. */
  function Text(ls: seq<Label>): seq<u8> {
    if ls == [] then []
    else ls[0] + (if |ls| == 1 then [] else [DOT] + Text(ls[1..]))
  }

  lemma TextCons(l: Label, ls: seq<Label>)
    ensures Text([l] + ls) == l + (if ls == [] then [] else [DOT] + Text(ls))
  {
    assert ([l] + ls)[1..] == ls;
  }

  lemma {:induction false} TextOfLabels(s: seq<u8>)
    requires Proper(s)
    ensures Text(Labels(s)) == Undotted(s) && Labels(s) != []
    decreases |s|
  {
    hide Text, Labels, LabelLen, Undotted;
    ProperNotEmpty(s);
    FirstLabel(s);
    var k := LabelLen(s);
    if k + 1 < |s| {
      var t := s[k + 1..];
      TextOfLabels(t);
      TextCons(s[..k], Labels(t));
      UndottedSplit(s, k);
    } else {
      NoLabels();
      TextCons(s[..k], []);
      assert [s[..k]] + [] == [s[..k]] && s[..k] + [] == s[..k];
      LastLabel(s, k);
    }
  }

  lemma NoLabels()
    ensures Labels([]) == []
  {
  }

  lemma UndottedSplit(s: seq<u8>, k: nat)
    requires k + 1 < |s| && s[k] == DOT
    ensures Undotted(s) == s[..k] + ([DOT] + Undotted(s[k + 1..]))
    ensures |Undotted(s)| == k + 1 + |Undotted(s[k + 1..])|
  {
    var t := s[k + 1..];
    assert s[..k + 1] == s[..k] + [DOT] && t[|t| - 1] == s[|s| - 1];
    assert s == s[..k + 1] + t;
  }

  lemma LastLabel(s: seq<u8>, k: nat)
    requires s != [] && k <= |s| <= k + 1 && (k < |s| ==> s[k] == DOT) && forall i :: 0 <= i < k ==> s[i] != DOT
    ensures Undotted(s) == s[..k] && (k < |s| ==> s[k + 1..] == [])
  {
  }

  // ---------------------------------------------------------------- what bytes spell

  predicate GoodLabel(l: Label) { 1 <= |l| < 64 }

  /** The bytes at `p` are one length-prefixed label, equal to `l` but for case. */
  predicate LabelAt(b: seq<u8>, p: nat, l: Label) {
    p + 1 + |l| <= |b| && GoodLabel(l) && b[p] == |l| && Lower(b[p + 1..p + 1 + |l|]) == l
  }

  function Target(b: seq<u8>, p: nat, start: nat): nat
    requires p + 2 <= |b|
  {
    U16OfBytes(b[p..p + 2]) % 0x4000 + start
  }

  /** The bytes at `p` spell the labels without starting with a pointer. */
  predicate Direct(b: seq<u8>, start: nat, p: nat, ls: seq<Label>)
    decreases |ls|, 0
  {
    if ls == [] then p < |b| && b[p] == 0
    else LabelAt(b, p, ls[0]) && Spells(b, start, p + 1 + |ls[0]|, ls[1..])
  }

  /** The bytes at `p` spell the labels, directly or through a pointer to a place that does so directly. */
  predicate Spells(b: seq<u8>, start: nat, p: nat, ls: seq<Label>)
    decreases |ls|, 1
  {
    || Direct(b, start, p, ls)
    || (p + 2 <= |b| && b[p] >= COMP_MASK && Direct(b, start, Target(b, p, start), ls))
  }

  /** From `p` up to `q` stand exactly these labels, with no terminator behind them. */
  predicate Chain(b: seq<u8>, p: nat, q: nat, ls: seq<Label>)
    decreases |ls|
  {
    if ls == [] then p == q
    else LabelAt(b, p, ls[0]) && Chain(b, p + 1 + |ls[0]|, q, ls[1..])
  }

  lemma {:induction false} SpellsKept(b: seq<u8>, b': seq<u8>, start: nat, p: nat, ls: seq<Label>)
    requires b <= b' && Spells(b, start, p, ls)
    ensures Spells(b', start, p, ls)
    decreases |ls|, 1
  {
    if Direct(b, start, p, ls) {
      DirectKept(b, b', start, p, ls);
    } else {
      assert b'[p..p + 2] == b[p..p + 2];
      DirectKept(b, b', start, Target(b, p, start), ls);
    }
  }

  lemma {:induction false} DirectKept(b: seq<u8>, b': seq<u8>, start: nat, p: nat, ls: seq<Label>)
    requires b <= b' && Direct(b, start, p, ls)
    ensures Direct(b', start, p, ls)
    decreases |ls|, 0
  {
    if ls != [] {
      var q := p + 1 + |ls[0]|;
      assert b'[p + 1..q] == b[p + 1..q];
      SpellsKept(b, b', start, q, ls[1..]);
    }
  }

  lemma {:induction false} ChainKept(b: seq<u8>, b': seq<u8>, p: nat, q: nat, ls: seq<Label>)
    requires Chain(b, p, q, ls) && q <= |b'| && forall i :: p <= i < q && i < |b| ==> b'[i] == b[i]
    ensures p <= q && Chain(b', p, q, ls)
    decreases |ls|
  {
    if ls != [] {
      var m := p + 1 + |ls[0]|;
      ChainBounds(b, m, q, ls[1..]);
      assert b'[p + 1..m] == b[p + 1..m];
      ChainKept(b, b', m, q, ls[1..]);
    }
  }

  lemma {:induction false} ChainBounds(b: seq<u8>, p: nat, q: nat, ls: seq<Label>)
    requires Chain(b, p, q, ls)
    ensures p <= q
    ensures ls != [] ==> p < q <= |b|
    decreases |ls|
  {
    if ls != [] {
      ChainBounds(b, p + 1 + |ls[0]|, q, ls[1..]);
    }
  }

  lemma {:induction false} ChainThenLabel(b: seq<u8>, p: nat, q: nat, ls: seq<Label>, l: Label)
    requires Chain(b, p, q, ls) && LabelAt(b, q, l)
    ensures Chain(b, p, q + 1 + |l|, ls + [l])
    decreases |ls|
  {
    if ls == [] {
      assert ls + [l] == [l] && [l][1..] == [];
    } else {
      ChainThenLabel(b, p + 1 + |ls[0]|, q, ls[1..], l);
      assert (ls + [l])[1..] == ls[1..] + [l];
    }
  }

  /** A chain of labels followed by bytes that spell the rest spells the whole, directly. */
  lemma {:induction false} ChainThenSpells(b: seq<u8>, start: nat, p: nat, q: nat, ls: seq<Label>, rest: seq<Label>)
    requires ls != [] && Chain(b, p, q, ls) && Spells(b, start, q, rest)
    ensures Direct(b, start, p, ls + rest)
    decreases |ls|
  {
    var m := p + 1 + |ls[0]|;
    assert (ls + rest)[0] == ls[0] && (ls + rest)[1..] == ls[1..] + rest;
    if |ls| == 1 {
      assert ls[1..] + rest == rest;
    } else {
      ChainThenSpells(b, start, m, q, ls[1..], rest);
    }
  }

  // ---------------------------------------------------------------- decoding

  /**
   * Failed stands for EINVAL. Overrun stands for the one case the size test of the decoder lets pass:
   * 255 characters are in the 256-byte buffer and another label follows.
   */
  datatype Decoded = Failed | Overrun | Name(text: seq<u8>, next: nat)

  /** Text so far, with the dot the decoder puts between labels. */
  function Glue(out: seq<u8>, more: seq<u8>): seq<u8> {
    if out == [] then more else out + [DOT] + more
  }

  /** dns_dname_decode from `pos`, with `out` decoded, `jumps` pointers followed and the return position. */
  function Decode(b: seq<u8>, start: nat, pos: nat, out: seq<u8>, jumps: nat, back: Option<nat>): Decoded
    decreases COMP_LOOP + 1 - jumps, |b| - pos
  {
    if pos >= |b| then Failed
    else
      var len := b[pos];
      if len == 0 then Name(CString(out, 0), if back.Some? then back.value else pos + 1)
      else if len >= COMP_MASK then
        if jumps > COMP_LOOP then Failed
        else
          // a pointer cut off by the end of the buffer reads as zero and is not stepped over
          var whole := pos + 2 <= |b|;
          var target := if whole then Target(b, pos, start) else start;
          var after := if back.Some? then back else Some(if whole then pos + 2 else pos);
          Decode(b, start, target, out, jumps + 1, after)
      else if len > |b| - (pos + 1) then Failed
      else if |out| > NAME_BUF - 2 then Overrun
      else if len > NAME_BUF - |out| - 2 then Failed
      else Decode(b, start, pos + 1 + len, Glue(out, b[pos + 1..pos + 1 + len]), jumps, back)
  }

  /** Where a name ends: behind its terminating zero or behind its first pointer. */
  function NameEnd(b: seq<u8>, p: nat): nat
    decreases |b| - p
  {
    if p >= |b| then p
    else if b[p] == 0 then p + 1
    else if b[p] >= COMP_MASK then p + 2
    else NameEnd(b, p + 1 + b[p])
  }

  lemma LowerGlue(out: seq<u8>, more: seq<u8>)
    ensures Lower(Glue(out, more)) == Glue(Lower(out), Lower(more))
  {
  }

  /** Text built up label by label. */
  function TextFrom(out: seq<u8>, ls: seq<Label>): seq<u8>
    decreases |ls|
  {
    if ls == [] then out else TextFrom(Glue(out, ls[0]), ls[1..])
  }

  /**
   * Bytes that spell a label list decode to its text, whatever the case of the letters, as long as the
   * text fits the buffer and one jump per label and one for the terminator are left.
   */
  lemma {:induction false} DecodeSpelled(b: seq<u8>, start: nat, p: nat, ls: seq<Label>, out: seq<u8>, jumps: nat,
                                         back: Option<nat>) returns (raw: seq<u8>)
    requires Spells(b, start, p, ls)
    requires |TextFrom(Lower(out), ls)| < NAME_BUF && jumps + |ls| + 1 <= COMP_LOOP + 1
    ensures Lower(raw) == TextFrom(Lower(out), ls)
    ensures Decode(b, start, p, out, jumps, back) ==
            Name(CString(raw, 0), if back.Some? then back.value else NameEnd(b, p))
    decreases |ls|, 1
  {
    if Direct(b, start, p, ls) {
      raw := DecodeDirect(b, start, p, ls, out, jumps, back);
    } else {
      var after := if back.Some? then back else Some(p + 2);
      raw := DecodeDirect(b, start, Target(b, p, start), ls, out, jumps + 1, after);
    }
  }

  lemma {:induction false} DecodeDirect(b: seq<u8>, start: nat, p: nat, ls: seq<Label>, out: seq<u8>, jumps: nat,
                                        back: Option<nat>) returns (raw: seq<u8>)
    requires Direct(b, start, p, ls)
    requires |TextFrom(Lower(out), ls)| < NAME_BUF && jumps + |ls| <= COMP_LOOP + 1
    ensures Lower(raw) == TextFrom(Lower(out), ls)
    ensures Decode(b, start, p, out, jumps, back) ==
            Name(CString(raw, 0), if back.Some? then back.value else NameEnd(b, p))
    decreases |ls|, 0
  {
    hide Target, CString, Lower;
    if ls == [] {
      raw := out;
    } else {
      var q := p + 1 + |ls[0]|;
      var out' := Glue(out, b[p + 1..q]);
      LowerGlue(out, b[p + 1..q]);
      TextGrows(Lower(out'), ls[1..]);
      raw := DecodeSpelled(b, start, q, ls[1..], out', jumps, back);
    }
  }

  lemma {:induction false} TextGrows(out: seq<u8>, ls: seq<Label>)
    ensures |out| <= |TextFrom(out, ls)|
    decreases |ls|
  {
    if ls != [] { TextGrows(Glue(out, ls[0]), ls[1..]); }
  }

  // ---------------------------------------------------------------- letter case

  lemma {:induction false} LowerKeepsDots(s: seq<u8>)
    ensures LabelLen(Lower(s)) == LabelLen(s)
  {
    if s != [] && s[0] != DOT {
      assert Lower(s)[1..] == Lower(s[1..]);
      LowerKeepsDots(s[1..]);
    }
  }

  lemma LowerSplit(s: seq<u8>, i: nat)
    requires i <= |s|
    ensures Lower(s)[..i] == Lower(s[..i]) && Lower(s)[i..] == Lower(s[i..])
  {
  }

  /** The first label of a proper name and the labels behind it, in lower case. */
  lemma LowerLabels(s: seq<u8>)
    requires Proper(s)
    ensures var k := LabelLen(s);
            Labels(Lower(s)) == [Lower(s[..k])] + (if k == |s| then [] else Labels(Lower(s[k + 1..])))
  {
    hide Labels, Proper, LabelLen, Lower;
    ProperNotEmpty(s);
    var k := LabelLen(s);
    LowerKeepsDots(s);
    FirstLabel(Lower(s));
    LowerSplit(s, k);
    if k < |s| { LowerSplit(s, k + 1); }
  }

  lemma ProperNotEmpty(s: seq<u8>)
    requires Proper(s)
    ensures s != []
  {
  }

  lemma FirstLabel(s: seq<u8>)
    requires s != []
    ensures var k := LabelLen(s);
            Labels(s) == [s[..k]] + (if k == |s| then [] else Labels(s[k + 1..]))
  {
    hide LabelLen;
  }

  lemma {:induction false} ProperLower(s: seq<u8>)
    requires Proper(s)
    ensures Proper(Lower(s))
    decreases |s|
  {
    hide LabelLen;
    var k := LabelLen(s);
    LowerKeepsDots(s);
    if k + 1 < |s| {
      ProperLower(s[k + 1..]);
      assert Lower(s)[k + 1..] == Lower(s[k + 1..]);
    }
  }

  lemma ProperNotRoot(s: seq<u8>)
    requires Proper(s)
    ensures s != [] && s != [DOT] && LowLabels(s) == Labels(Lower(s)) && LowLabels(s) != []
  {
  }

  lemma SuffixLabels(s: seq<u8>)
    requires s == [] || Proper(s)
    ensures LowLabels(s) == Labels(Lower(s)) && (s == [] ==> Labels(Lower(s)) == [])
  {
  }

  // ---------------------------------------------------------------- the table of names

  /** An entry points at bytes that spell its name. */
  ghost predicate EntryOk(b: seq<u8>, start: nat, e: Entry) {
    e.pos <= OFFSET_MASK && Direct(b, start, start + e.pos, LowLabels(e.name))
  }

  ghost predicate TableOk(b: seq<u8>, start: nat, table: seq<Entry>) {
    forall i :: 0 <= i < |table| ==> EntryOk(b, start, table[i])
  }

  /** The bytes from `p` to `q` spell the first of `all`, and `rest` is what is still to come. */
  ghost predicate Leads(b: seq<u8>, p: nat, q: nat, rest: seq<Label>, all: seq<Label>) {
    exists c: seq<Label> :: Chain(b, p, q, c) && all == c + rest
  }

  /** An entry of the name being written. */
  ghost predicate Pending(b: seq<u8>, start: nat, q: nat, rest: seq<Label>, e: Entry) {
    e.pos <= OFFSET_MASK && Leads(b, start + e.pos, q, rest, LowLabels(e.name))
  }

  lemma TableKept(b: seq<u8>, b': seq<u8>, start: nat, table: seq<Entry>)
    requires b <= b' && TableOk(b, start, table)
    ensures TableOk(b', start, table)
  {
    forall i | 0 <= i < |table| ensures EntryOk(b', start, table[i]) {
      DirectKept(b, b', start, start + table[i].pos, LowLabels(table[i].name));
    }
  }

  /** Once a label is complete, one label less is to come. */
  lemma LeadsAdvances(b: seq<u8>, b': seq<u8>, p: nat, q: nat, rest: seq<Label>, all: seq<Label>)
    requires Leads(b, p, q, rest, all) && rest != []
    requires q <= |b| == |b'| && b'[..q] == b[..q] && LabelAt(b', q, rest[0])
    ensures Leads(b', p, q + 1 + |rest[0]|, rest[1..], all)
    ensures |all| > |rest[1..]|
  {
    var c :| Chain(b, p, q, c) && all == c + rest;
    ChainBounds(b, p, q, c);
    assert forall i :: 0 <= i < q ==> b'[..q][i] == b[..q][i];
    ChainKept(b, b', p, q, c);
    ChainThenLabel(b', p, q, c, rest[0]);
    assert c + rest == (c + [rest[0]]) + rest[1..];
  }

  /** Bytes added behind the labels written so far change nothing about them. */
  lemma LeadsKept(b: seq<u8>, b': seq<u8>, p: nat, q: nat, rest: seq<Label>, all: seq<Label>)
    requires Leads(b, p, q, rest, all) && b <= b' && q <= |b|
    ensures Leads(b', p, q, rest, all)
  {
    var c :| Chain(b, p, q, c) && all == c + rest;
    ChainKept(b, b', p, q, c);
  }

  /** When the rest is in place too, the whole is spelled. */
  lemma LeadsDone(b: seq<u8>, start: nat, p: nat, q: nat, rest: seq<Label>, all: seq<Label>)
    requires Leads(b, p, q, rest, all) && Spells(b, start, q, rest) && |all| > |rest|
    ensures Direct(b, start, p, all) && NameEnd(b, p) == NameEnd(b, q)
  {
    var c :| Chain(b, p, q, c) && all == c + rest;
    ChainThenSpells(b, start, p, q, c, rest);
    ChainEnd(b, p, q, c);
  }

  lemma {:induction false} ChainEnd(b: seq<u8>, p: nat, q: nat, ls: seq<Label>)
    requires Chain(b, p, q, ls)
    ensures NameEnd(b, p) == NameEnd(b, q)
    decreases |ls|
  {
    if ls != [] {
      ChainEnd(b, p + 1 + |ls[0]|, q, ls[1..]);
    }
  }

  /** A pointer behind the contents spells whatever its target spells directly. */
  lemma PointerSpells(b: seq<u8>, b': seq<u8>, start: nat, off: nat, ls: seq<Label>)
    requires off <= OFFSET_MASK && Direct(b, start, start + off, ls)
    requires b' == b + BytesOfU16(0xC000 + off)
    ensures Spells(b', start, |b|, ls) && NameEnd(b', |b|) == |b'|
  {
    var w: int := 0xC000 + off;
    assert b'[|b|] == w / 0x100;
    assert b'[|b|..|b| + 2] == BytesOfU16(w);
    U16RoundTrip(w);
    DirectKept(b, b', start, start + off, ls);
  }

  // ---------------------------------------------------------------- invariants of the encoder

  /**
   * A name is being written behind `b0`: its labels up to position `q` stand in `b`, `rest` is to come,
   * and every entry added to the table since leads to the same point.
   */
  ghost predicate Writing(b0: seq<u8>, b: seq<u8>, start: nat, q: nat, rest: seq<Label>, name: seq<u8>,
                          table0: seq<Entry>, table: seq<Entry>) {
    && b0 <= b && q <= |b|
    && Leads(b, |b0|, q, rest, LowLabels(name))
    && table0 <= table && TableOk(b0, start, table0)
    && forall i :: |table0| <= i < |table| ==> Pending(b, start, q, rest, table[i])
  }

  /** Right behind a complete label, the name and every pending entry are longer than what is to come. */
  ghost predicate Between(b0: seq<u8>, b: seq<u8>, start: nat, rest: seq<Label>, name: seq<u8>,
                          table0: seq<Entry>, table: seq<Entry>) {
    && Writing(b0, b, start, |b|, rest, name, table0, table)
    && |b0| < |b| && |LowLabels(name)| > |rest|
    && forall i :: |table0| <= i < |table| ==> |LowLabels(table[i].name)| > |rest|
  }

  /** The label that started at `q` is complete and its length is patched in. */
  lemma LabelWritten(b0: seq<u8>, b: seq<u8>, start: nat, q: nat, rest: seq<Label>, name: seq<u8>,
                     table0: seq<Entry>, table: seq<Entry>)
    requires Writing(b0, b, start, q, rest, name, table0, table)
    requires rest != [] && |b0| <= q && q + 1 + |rest[0]| == |b| && GoodLabel(rest[0])
    requires Lower(b[q + 1..]) == rest[0]
    ensures Between(b0, b[q := |rest[0]|], start, rest[1..], name, table0, table)
  {
    hide LowLabels, Leads, EntryOk, Chain;
    var b' := b[q := |rest[0]|];
    assert b'[q + 1..q + 1 + |rest[0]|] == b[q + 1..];
    assert b'[..q] == b[..q];
    LeadsAdvances(b, b', |b0|, q, rest, LowLabels(name));
    forall i | |table0| <= i < |table|
      ensures Pending(b', start, |b'|, rest[1..], table[i]) && |LowLabels(table[i].name)| > |rest[1..]|
    {
      assert Pending(b, start, q, rest, table[i]);
      LeadsAdvances(b, b', start + table[i].pos, q, rest, LowLabels(table[i].name));
    }
  }

  /** The next label begins: its length byte is a placeholder, and its suffix may be a new entry. */
  lemma NextLabel(b0: seq<u8>, b: seq<u8>, start: nat, rest: seq<Label>, name: seq<u8>,
                  table0: seq<Entry>, table: seq<Entry>, table': seq<Entry>, suffix: seq<u8>)
    requires start <= |b|
    requires Between(b0, b, start, rest, name, table0, table) && LowLabels(suffix) == rest
    requires table' == table || (|b| - start <= OFFSET_MASK && table' == table + [Entry(suffix, |b| - start)])
    ensures Writing(b0, b + [0], start, |b|, rest, name, table0, table')
  {
    hide LowLabels, EntryOk;
    var b' := b + [0];
    LeadsKept(b, b', |b0|, |b|, rest, LowLabels(name));
    forall i | |table0| <= i < |table'|
      ensures Pending(b', start, |b|, rest, table'[i])
    {
      if i < |table| {
        assert Pending(b, start, |b|, rest, table[i]);
        LeadsKept(b, b', start + table[i].pos, |b|, rest, LowLabels(table[i].name));
      } else {
        NothingWritten(b', |b|, rest);
      }
    }
  }

  lemma NothingWritten(b: seq<u8>, p: nat, rest: seq<Label>)
    ensures Leads(b, p, p, rest, rest)
  {
    assert Chain(b, p, p, []) && rest == [] + rest;
  }

  /** The rest of the name is in place, as a terminator or as a pointer: all entries are good. */
  lemma NameWritten(b0: seq<u8>, b: seq<u8>, b': seq<u8>, start: nat, rest: seq<Label>, name: seq<u8>,
                    table0: seq<Entry>, table: seq<Entry>)
    requires Between(b0, b, start, rest, name, table0, table)
    requires b <= b' && Spells(b', start, |b|, rest) && NameEnd(b', |b|) == |b'|
    ensures b0 <= b' && TableOk(b', start, table)
    ensures Spells(b', start, |b0|, LowLabels(name)) && NameEnd(b', |b0|) == |b'|
  {
    hide LowLabels, Leads, NameEnd, Spells, Direct;
    TableKept(b0, b', start, table0);
    LeadsKept(b, b', |b0|, |b|, rest, LowLabels(name));
    LeadsDone(b', start, |b0|, |b|, rest, LowLabels(name));
    DirectSpells(b', start, |b0|, LowLabels(name));
    forall i | 0 <= i < |table|
      ensures EntryOk(b', start, table[i])
    {
      if i < |table0| {
        assert table[i] == table0[i];
      } else {
        assert Pending(b, start, |b|, rest, table[i]);
        LeadsKept(b, b', start + table[i].pos, |b|, rest, LowLabels(table[i].name));
        LeadsDone(b', start, start + table[i].pos, |b|, rest, LowLabels(table[i].name));
      }
    }
  }

  lemma DirectSpells(b: seq<u8>, start: nat, p: nat, ls: seq<Label>)
    requires Direct(b, start, p, ls)
    ensures Spells(b, start, p, ls)
  {
  }

  lemma SameLabels(x: seq<u8>, y: seq<u8>)
    requires Lower(x) == Lower(y)
    ensures LowLabels(x) == LowLabels(y)
  {
    assert x == [DOT] <==> y == [DOT] by {
      if |x| == 1 { assert Lower(x)[0] == Lower(y)[0]; }
    }
  }

  lemma ZeroSpellsRoot(b: seq<u8>, start: nat)
    ensures Direct(b + [0], start, |b|, []) && Spells(b + [0], start, |b|, []) && NameEnd(b + [0], |b|) == |b| + 1
  {
    assert (b + [0])[|b|] == 0;
  }

  /** The root name: one zero byte, and an entry for it if it was not known and is near enough. */
  lemma RootWritten(b0: seq<u8>, start: nat, table0: seq<Entry>, table: seq<Entry>, root: seq<u8>)
    requires start <= |b0| && TableOk(b0, start, table0)
    requires table == table0 || (|b0| - start <= OFFSET_MASK && table == table0 + [Entry(root, |b0| - start)])
    requires root == [DOT] || root == []
    ensures var b := b0 + [0];
            TableOk(b, start, table) && Spells(b, start, |b0|, LowLabels(root)) && NameEnd(b, |b0|) == |b|
  {
    assert LowLabels(root) == [];
    ZeroSpellsRoot(b0, start);
    TableKept(b0, b0 + [0], start, table0);
  }

  /** Before the first label: nothing is written but the placeholder, and the name may be a new entry. */
  lemma NameStarts(b0: seq<u8>, start: nat, name: seq<u8>, table0: seq<Entry>, table: seq<Entry>)
    requires start <= |b0| && TableOk(b0, start, table0)
    requires table == table0 || (|b0| - start <= OFFSET_MASK && table == table0 + [Entry(name, |b0| - start)])
    ensures Writing(b0, b0 + [0], start, |b0|, LowLabels(name), name, table0, table)
  {
    hide LowLabels, EntryOk, Leads;
    NothingWritten(b0 + [0], |b0|, LowLabels(name));
  }

  /** One more character of the current label. */
  lemma CharWritten(b0: seq<u8>, b: seq<u8>, start: nat, q: nat, rest: seq<Label>, name: seq<u8>,
                    table0: seq<Entry>, table: seq<Entry>, c: u8)
    requires Writing(b0, b, start, q, rest, name, table0, table)
    ensures Writing(b0, b + [c], start, q, rest, name, table0, table)
  {
    hide LowLabels, EntryOk, Leads;
    LeadsKept(b, b + [c], |b0|, q, rest, LowLabels(name));
    forall i | |table0| <= i < |table|
      ensures Pending(b + [c], start, q, rest, table[i])
    {
      assert Pending(b, start, q, rest, table[i]);
      LeadsKept(b, b + [c], start + table[i].pos, q, rest, LowLabels(table[i].name));
    }
  }

  /** Scanning to the end of a label finds the label that is to come next. */
  lemma LabelScanned(name: seq<u8>, lab: nat, i: nat)
    requires lab <= i <= |name| && Proper(name[lab..])
    requires forall k :: lab <= k < i ==> name[k] != DOT
    requires i < |name| ==> name[i] == DOT
    ensures GoodLabel(Lower(name[lab..i]))
    ensures i + 1 < |name| ==> Proper(name[i + 1..])
    ensures Labels(Lower(name[lab..])) ==
            [Lower(name[lab..i])] + (if i == |name| then [] else Labels(Lower(name[i + 1..])))
  {
    hide Labels, LabelLen;
    var s := name[lab..];
    LowerLabels(s);
    LabelEnds(s, i - lab);
    assert s[..i - lab] == name[lab..i];
    if i < |name| { assert s[i - lab + 1..] == name[i + 1..]; }
  }

  lemma LabelEnds(s: seq<u8>, n: nat)
    requires n <= |s| && (forall k :: 0 <= k < n ==> s[k] != DOT) && (n < |s| ==> s[n] == DOT)
    ensures LabelLen(s) == n
  {
  }

  /** What is to come behind the label that ends at `i`. */
  function RestAfter(name: seq<u8>, i: nat): seq<Label>
    requires i <= |name|
  {
    if i == |name| then [] else Labels(Lower(name[i + 1..]))
  }

  /** The label from `lab` to `i` is complete: its length is patched into the placeholder at `q`. */
  lemma LabelClosed(b0: seq<u8>, b: seq<u8>, start: nat, q: nat, name: seq<u8>, lab: nat, i: nat,
                    table0: seq<Entry>, table: seq<Entry>)
    requires lab <= i <= |name| && Proper(name[lab..])
    requires Writing(b0, b, start, q, Labels(Lower(name[lab..])), name, table0, table)
    requires |b0| <= q < |b| && b[q + 1..] == name[lab..i]
    requires forall k :: lab <= k < i ==> name[k] != DOT
    requires i < |name| ==> name[i] == DOT
    ensures lab < i && |b| == q + 1 + (i - lab) && i - lab < 64
    ensures i + 1 < |name| ==> Proper(name[i + 1..])
    ensures Between(b0, b[q := i - lab], start, RestAfter(name, i), name, table0, table)
  {
    hide Writing, Between, Labels, Proper;
    LabelScanned(name, lab, i);
    var rest := Labels(Lower(name[lab..]));
    assert rest[0] == Lower(name[lab..i]) && rest[1..] == RestAfter(name, i);
    LabelWritten(b0, b, start, q, rest, name, table0, table);
  }

  /** An entry no longer than what is to come is older than the name being written. */
  lemma OldEntry(b0: seq<u8>, b: seq<u8>, start: nat, rest: seq<Label>, name: seq<u8>,
                 table0: seq<Entry>, table: seq<Entry>, dn: Entry)
    requires Between(b0, b, start, rest, name, table0, table)
    requires dn in table && |LowLabels(dn.name)| <= |rest|
    ensures EntryOk(b0, start, dn) && b0 <= b
  {
    hide LowLabels, EntryOk, Leads;
    var i :| 0 <= i < |table| && table[i] == dn;
    assert i < |table0|;
    assert EntryOk(b0, start, table0[i]);
  }

  /** A known suffix is older than the name being written, so a pointer to it ends the name. */
  lemma PointerCloses(b0: seq<u8>, b: seq<u8>, start: nat, suffix: seq<u8>, name: seq<u8>,
                      table0: seq<Entry>, table: seq<Entry>, dn: Entry)
    requires suffix == [] || Proper(suffix)
    requires Between(b0, b, start, Labels(Lower(suffix)), name, table0, table)
    requires dn in table && Lower(dn.name) == Lower(suffix)
    ensures dn.pos <= OFFSET_MASK
    ensures var b' := b + BytesOfU16(0xC000 + dn.pos);
            && TableOk(b', start, table)
            && Spells(b', start, |b0|, LowLabels(name)) && NameEnd(b', |b0|) == |b'|
  {
    hide LowLabels, Direct, Spells, Between, NameEnd, Proper, Labels, TableOk;
    var rest := Labels(Lower(suffix));
    SameLabels(dn.name, suffix);
    SuffixLabels(suffix);
    OldEntry(b0, b, start, rest, name, table0, table, dn);
    DirectKept(b0, b, start, start + dn.pos, rest);
    var b' := b + BytesOfU16(0xC000 + dn.pos);
    PointerSpells(b, b', start, dn.pos, rest);
    NameWritten(b0, b, b', start, rest, name, table0, table);
  }

  lemma ZeroCloses(b0: seq<u8>, b: seq<u8>, start: nat, name: seq<u8>, table0: seq<Entry>, table: seq<Entry>)
    requires Between(b0, b, start, [], name, table0, table)
    ensures var b' := b + [0];
            && TableOk(b', start, table)
            && Spells(b', start, |b0|, LowLabels(name)) && NameEnd(b', |b0|) == |b'|
  {
    hide Between;
    ZeroSpellsRoot(b, start);
    NameWritten(b0, b, b + [0], start, [], name, table0, table);
  }

  // ---------------------------------------------------------------- decoding what was encoded

  /** The text of proper labels, in the order the decoder builds it. */
  lemma {:induction false} TextFromText(out: seq<u8>, ls: seq<Label>)
    requires out != [] && forall i :: 0 <= i < |ls| ==> ls[i] != []
    ensures TextFrom(out, ls) == out + (if ls == [] then [] else [DOT] + Text(ls))
    decreases |ls|
  {
    if ls != [] {
      var out' := out + [DOT] + ls[0];
      TextFromText(out', ls[1..]);
      assert ls == [ls[0]] + ls[1..];
      TextCons(ls[0], ls[1..]);
    }
  }

  lemma {:induction false} LabelsNotEmpty(s: seq<u8>)
    requires Proper(s)
    ensures forall i :: 0 <= i < |Labels(s)| ==> Labels(s)[i] != []
    ensures 1 <= |Labels(s)| <= |Undotted(s)|
    decreases |s|
  {
    hide LabelLen, Labels, Undotted;
    ProperNotEmpty(s);
    FirstLabel(s);
    NoLabels();
    var k := LabelLen(s);
    if k + 1 < |s| {
      LabelsNotEmpty(s[k + 1..]);
      UndottedSplit(s, k);
    } else {
      LastLabel(s, k);
    }
  }

  lemma LowerUndotted(s: seq<u8>)
    ensures Undotted(Lower(s)) == Lower(Undotted(s))
  {
    if s != [] { assert Lower(s)[|s| - 1] == DOT <==> s[|s| - 1] == DOT; }
  }

  lemma TextOfName(name: seq<u8>)
    requires Proper(name)
    ensures TextFrom([], LowLabels(name)) == Lower(Undotted(name)) && |LowLabels(name)| <= |Undotted(name)|
  {
    hide Proper, Labels, Text;
    LowerUndotted(name);
    var s := Lower(name);
    ProperNotRoot(name);
    ProperLower(name);
    TextOfLabels(s);
    LabelsNotEmpty(s);
    var ls := Labels(s);
    assert ls == [ls[0]] + ls[1..];
    TextCons(ls[0], ls[1..]);
    TextFromText(ls[0], ls[1..]);
    if ls[1..] == [] { assert ls[0] + [] == ls[0]; }
  }

  lemma LowerHasNoZero(s: seq<u8>, name: seq<u8>)
    requires Lower(s) == Lower(name) && 0 !in name
    ensures 0 !in s
  {
    forall i | 0 <= i < |s| ensures s[i] != 0 {
      assert Lower(s)[i] == Lower(name)[i];
      assert name[i] in name;
    }
  }

  /** Decoding at `p` gives the name back but for a dot at its end and the case of its letters, and ends at `next`. */
  predicate DecodesTo(b: seq<u8>, start: nat, p: nat, name: seq<u8>, next: nat) {
    var r := Decode(b, start, p, [], 0, None);
    r.Name? && Lower(r.text) == Lower(Undotted(name)) && r.next == next
  }

  /** A valid name of at most 255 characters, a dot at its end not counted, decodes from wherever bytes spell it. */
  lemma SpelledNameDecodes(b: seq<u8>, start: nat, p: nat, name: seq<u8>)
    requires ValidName(name) && |Undotted(name)| < NAME_BUF && 0 !in name
    requires Spells(b, start, p, LowLabels(name))
    ensures DecodesTo(b, start, p, name, NameEnd(b, p))
  {
    hide Spells, Decode, NameEnd, Labels, TextFrom;
    var ls := LowLabels(name);
    if Proper(name) {
      ProperNotRoot(name);
      TextOfName(name);
    } else {
      NoText();
    }
    assert Lower([]) == [];
    var raw := DecodeSpelled(b, start, p, ls, [], 0, None);
    LowerHasNoZero(raw, Undotted(name));
    CStringOfText(raw, 0);
  }

  lemma NoText()
    ensures TextFrom([], []) == [] && Labels([]) == []
  {
  }

  /** A name keeps its end when bytes are added behind it. */
  lemma {:induction false} NameEndKept(b: seq<u8>, b': seq<u8>, start: nat, p: nat, ls: seq<Label>)
    requires b <= b' && Spells(b, start, p, ls)
    ensures NameEnd(b', p) == NameEnd(b, p)
    decreases |ls|
  {
    if Direct(b, start, p, ls) && ls != [] {
      NameEndKept(b, b', start, p + 1 + |ls[0]|, ls[1..]);
    }
  }

  // ---------------------------------------------------------------- the decoder's buffer

  /**
   * The labels the decoder meets from `p` on, pointers followed, and whether it gets to a terminator: no size
   * limit applies here.
   */
  function LabelsSeen(b: seq<u8>, start: nat, p: nat, jumps: nat): (seq<Label>, bool)
    decreases COMP_LOOP + 1 - jumps, |b| - p
  {
    if p >= |b| then ([], false)
    else if b[p] == 0 then ([], true)
    else if b[p] >= COMP_MASK then
      if jumps > COMP_LOOP then ([], false)
      else LabelsSeen(b, start, if p + 2 <= |b| then Target(b, p, start) else start, jumps + 1)
    else if b[p] > |b| - (p + 1) then ([], false)
    else
      var (rest, ended) := LabelsSeen(b, start, p + 1 + b[p], jumps);
      ([b[p + 1..p + 1 + b[p]]] + rest, ended)
  }

  /** Some label is met when the text has already filled all but the last byte of the buffer. */
  predicate MeetsFull(out: seq<u8>, ls: seq<Label>)
    decreases |ls|
  {
    ls != [] && (|out| == NAME_BUF - 1 || MeetsFull(Glue(out, ls[0]), ls[1..]))
  }

  lemma MeetsNext(out: seq<u8>, l: Label, rest: seq<Label>)
    ensures MeetsFull(out, [l] + rest) <==> |out| == NAME_BUF - 1 || MeetsFull(Glue(out, l), rest)
    ensures TextFrom(out, [l] + rest) == TextFrom(Glue(out, l), rest)
    ensures |TextFrom(out, [l] + rest)| >= |Glue(out, l)|
    ensures |Glue(out, l)| == |out| + |l| + if out == [] then 0 else 1
  {
    assert ([l] + rest)[0] == l && ([l] + rest)[1..] == rest;
    TextGrows(Glue(out, l), rest);
  }

  lemma NothingMet(out: seq<u8>)
    ensures !MeetsFull(out, []) && TextFrom(out, []) == out
  {
  }

  /** What the decoder makes of any bytes, in terms of the labels it meets. */
  lemma {:induction false} DecodeMeans(b: seq<u8>, start: nat, p: nat, out: seq<u8>, jumps: nat, back: Option<nat>)
    requires |out| < NAME_BUF
    ensures var r, (ls, ended) := Decode(b, start, p, out, jumps, back), LabelsSeen(b, start, p, jumps);
            && (r.Overrun? <==> MeetsFull(out, ls))
            && (r.Name? <==> ended && |TextFrom(out, ls)| < NAME_BUF)
            && (r.Name? ==> r.text == CString(TextFrom(out, ls), 0))
    decreases COMP_LOOP + 1 - jumps, |b| - p
  {
    hide Target, U16OfBytes, CString, MeetsFull, TextFrom, Glue;
    NothingMet(out);
    if p >= |b| || b[p] == 0 {
    } else if b[p] >= COMP_MASK {
      if jumps <= COMP_LOOP {
        var whole := p + 2 <= |b|;
        var target := if whole then Target(b, p, start) else start;
        DecodeMeans(b, start, target, out, jumps + 1, if back.Some? then back else Some(if whole then p + 2 else p));
      }
    } else if b[p] <= |b| - (p + 1) {
      var q := p + 1 + b[p];
      var l := b[p + 1..q];
      var (rest, ended) := LabelsSeen(b, start, q, jumps);
      MeetsNext(out, l, rest);
      if |out| < NAME_BUF - 1 && b[p] <= NAME_BUF - |out| - 2 {
        DecodeMeans(b, start, q, Glue(out, l), jumps, back);
      } else {
        TooLongMeetsNothing(Glue(out, l), rest);
      }
    }
  }

  lemma {:induction false} TooLongMeetsNothing(out: seq<u8>, ls: seq<Label>)
    requires |out| >= NAME_BUF
    ensures !MeetsFull(out, ls)
    decreases |ls|
  {
    if ls != [] { TooLongMeetsNothing(Glue(out, ls[0]), ls[1..]); }
  }

  lemma {:induction false} MeetsFullMeans(out: seq<u8>, ls: seq<Label>)
    ensures MeetsFull(out, ls) <==> exists k: nat :: k < |ls| && |TextFrom(out, ls[..k])| == NAME_BUF - 1
    decreases |ls|
  {
    hide Glue;
    if ls != [] {
      var out', rest := Glue(out, ls[0]), ls[1..];
      MeetsFullMeans(out', rest);
      assert ls[..0] == [] && TextFrom(out, ls[..0]) == out;
      forall k: nat | k < |rest| ensures TextFrom(out, ls[..k + 1]) == TextFrom(out', rest[..k]) {
        assert ls[..k + 1][0] == ls[0] && ls[..k + 1][1..] == rest[..k];
      }
      if exists k: nat :: k < |rest| && |TextFrom(out', rest[..k])| == NAME_BUF - 1 {
        var k: nat :| k < |rest| && |TextFrom(out', rest[..k])| == NAME_BUF - 1;
        assert |TextFrom(out, ls[..k + 1])| == NAME_BUF - 1;
      }
      if exists k: nat :: k < |ls| && |TextFrom(out, ls[..k])| == NAME_BUF - 1 {
        var k: nat :| k < |ls| && |TextFrom(out, ls[..k])| == NAME_BUF - 1;
        assert k > 0 ==> |TextFrom(out', rest[..k - 1])| == NAME_BUF - 1;
      }
    }
  }

  lemma {:induction false} SeenNotEmpty(b: seq<u8>, start: nat, p: nat, jumps: nat)
    ensures forall i :: 0 <= i < |LabelsSeen(b, start, p, jumps).0| ==> LabelsSeen(b, start, p, jumps).0[i] != []
    decreases COMP_LOOP + 1 - jumps, |b| - p
  {
    hide Target;
    if p < |b| && b[p] != 0 {
      if b[p] >= COMP_MASK {
        if jumps <= COMP_LOOP {
          SeenNotEmpty(b, start, if p + 2 <= |b| then Target(b, p, start) else start, jumps + 1);
        }
      } else if b[p] <= |b| - (p + 1) {
        SeenNotEmpty(b, start, p + 1 + b[p], jumps);
      }
    }
  }

  lemma TextFromNothing(ls: seq<Label>)
    requires forall i :: 0 <= i < |ls| ==> ls[i] != []
    ensures TextFrom([], ls) == Text(ls)
  {
    if ls != [] {
      assert ls == [ls[0]] + ls[1..];
      TextCons(ls[0], ls[1..]);
      TextFromText(ls[0], ls[1..]);
      if ls[1..] == [] { assert ls[0] + [] == ls[0]; }
    }
  }

  /**
   * Exactly what dns_dname_decode does, for any bytes. It overruns its 256-byte buffer when it meets a label
   * behind a text of exactly 255 characters, and then only. It returns a name when it gets to a terminator and
   * the whole text has at most 255 characters, and then only; the name is that text.
   */
  lemma DecodeOutcome(b: seq<u8>, start: nat, p: nat)
    ensures var r, (ls, ended) := Decode(b, start, p, [], 0, None), LabelsSeen(b, start, p, 0);
            && (r.Overrun? <==> exists k: nat :: k < |ls| && |Text(ls[..k])| == NAME_BUF - 1)
            && (r.Name? <==> ended && |Text(ls)| < NAME_BUF)
            && (r.Name? ==> r.text == CString(Text(ls), 0) && |r.text| < NAME_BUF)
  {
    hide Decode, LabelsSeen, Text, TextFrom, MeetsFull;
    var (ls, ended) := LabelsSeen(b, start, p, 0);
    DecodeMeans(b, start, p, [], 0, None);
    MeetsFullMeans([], ls);
    SeenNotEmpty(b, start, p, 0);
    TextFromNothing(ls);
    forall k: nat | k < |ls| ensures TextFrom([], ls[..k]) == Text(ls[..k]) {
      TextFromNothing(ls[..k]);
    }
  }

  /** Where bytes spell labels, the decoder meets those labels, but for case. */
  lemma {:induction false} SeenSpelled(b: seq<u8>, start: nat, p: nat, ls: seq<Label>, jumps: nat)
    requires Spells(b, start, p, ls) && jumps + |ls| + 1 <= COMP_LOOP + 1
    ensures LabelsSeen(b, start, p, jumps).1 && SameButCase(LabelsSeen(b, start, p, jumps).0, ls)
    decreases |ls|, 1
  {
    hide Target;
    if Direct(b, start, p, ls) {
      SeenDirect(b, start, p, ls, jumps);
    } else {
      SeenDirect(b, start, Target(b, p, start), ls, jumps + 1);
    }
  }

  lemma {:induction false} SeenDirect(b: seq<u8>, start: nat, p: nat, ls: seq<Label>, jumps: nat)
    requires Direct(b, start, p, ls) && jumps + |ls| <= COMP_LOOP + 1
    ensures LabelsSeen(b, start, p, jumps).1 && SameButCase(LabelsSeen(b, start, p, jumps).0, ls)
    decreases |ls|, 0
  {
    hide Target;
    if ls != [] {
      var q := p + 1 + |ls[0]|;
      SeenSpelled(b, start, q, ls[1..], jumps);
    }
  }

  predicate SameButCase(raw: seq<Label>, ls: seq<Label>) {
    |raw| == |ls| && forall i :: 0 <= i < |ls| ==> Lower(raw[i]) == ls[i]
  }

  lemma {:induction false} SameTextLength(raw: seq<Label>, ls: seq<Label>)
    requires SameButCase(raw, ls)
    ensures |Text(raw)| == |Text(ls)|
    decreases |ls|
  {
    if ls != [] {
      assert |raw[0]| == |Lower(raw[0])|;
      SameTextLength(raw[1..], ls[1..]);
    }
  }

  /** The same for bytes that spell a given name: the outcome is settled by the lengths of its labels. */
  lemma SpelledOutcome(b: seq<u8>, start: nat, p: nat, ls: seq<Label>)
    requires Spells(b, start, p, ls) && |ls| <= COMP_LOOP
    ensures var r := Decode(b, start, p, [], 0, None);
            && (r.Overrun? <==> exists k: nat :: k < |ls| && |Text(ls[..k])| == NAME_BUF - 1)
            && (r.Name? <==> |Text(ls)| < NAME_BUF)
  {
    hide Decode, LabelsSeen, Text, Spells, Lower;
    SeenSpelled(b, start, p, ls, 0);
    DecodeOutcome(b, start, p);
    var raw := LabelsSeen(b, start, p, 0).0;
    SameTextLength(raw, ls);
    forall k: nat | k < |ls| ensures |Text(raw[..k])| == |Text(ls[..k])| {
      SameTextLength(raw[..k], ls[..k]);
    }
  }

  /** An example: four labels of 63 characters, and one more. */
  lemma OverrunExample(b: seq<u8>)
    requires |b| == 259 && b[0] == b[64] == b[128] == b[192] == 63 && b[256] == 1 && b[258] == 0
    ensures Decode(b, 0, 0, [], 0, None) == Overrun
  {
    var o1 := b[1..64];
    var o2 := o1 + [DOT] + b[65..128];
    var o3 := o2 + [DOT] + b[129..192];
    var o4 := o3 + [DOT] + b[193..256];
    assert |o4| == 255;
    assert Decode(b, 0, 256, o4, 0, None) == Overrun;
    assert Decode(b, 0, 192, o3, 0, None) == Decode(b, 0, 256, o4, 0, None);
    assert Decode(b, 0, 128, o2, 0, None) == Decode(b, 0, 192, o3, 0, None);
    assert Decode(b, 0, 64, o1, 0, None) == Decode(b, 0, 128, o2, 0, None);
  }
}
