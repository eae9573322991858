/** dns_dname_encode and dns_dname_decode as they run on a memory buffer and a hash table of names. */
module DnsNameCodec {
  import opened Base
  import opened MemoryBuffer
  import opened HashTable
  import opened DnsName

  /** Every entry sits under the hash of its lower-case name, as hash_joaat_str_ci computes it. */
  ghost predicate Keyed(log: seq<(u32, Entry)>, joaat: seq<u8> -> u32) {
    forall i :: 0 <= i < |log| ==> log[i].0 == joaat(Lower(log[i].1.name))
  }

  method LookupName(ht: Hash<Entry>, joaat: seq<u8> -> u32, name: seq<u8>) returns (dn: Option<Entry>)
    requires ht.Valid() && Keyed(ht.log, joaat)
    ensures dn.Some? ==> dn.value in Values(ht.log) && Lower(dn.value.name) == Lower(name)
    ensures dn.None? ==> forall e :: e in Values(ht.log) ==> Lower(e.name) != Lower(name)
  {
    var same := (e: Entry) => Lower(e.name) == Lower(name);
    dn := ht.Lookup(joaat(Lower(name)), same);
    FirstMeans(Values(ht.log), same);
  }

  /** dname_append: far positions and the empty name are not remembered. */
  method AppendName(ht: Hash<Entry>, joaat: seq<u8> -> u32, name: seq<u8>, pos: nat)
    requires ht.Valid() && Keyed(ht.log, joaat)
    modifies ht
    ensures ht.Valid() && Keyed(ht.log, joaat)
    ensures Values(ht.log) ==
      old(Values(ht.log)) + if pos > OFFSET_MASK || name == [] then [] else [Entry(name, pos)]
  {
    if pos > OFFSET_MASK || name == [] {
      assert old(Values(ht.log)) + [] == old(Values(ht.log));
      return;
    }
    ht.Append(joaat(Lower(name)), Entry(name, pos));
  }

  /** The operand of dname_encode_pointer: the position with the two top bits of sixteen set. */
  function PointerTo(pos: nat): u16 {
    0xC000 + pos % (OFFSET_MASK + 1)
  }

  /** A byte or a pointer written at the end of the contents. */
  method PutEnd(mb: Mbuf, data: seq<u8>)
    requires mb.Valid() && mb.pos == mb.end && data != []
    modifies mb
    ensures mb.Valid() && mb.pos == mb.end && mb.buf[..mb.end] == old(mb.buf[..mb.end]) + data
  {
    mb.WriteMem(data);
    WroteAtEnd(old(mb.buf), old(mb.pos), mb.buf, mb.pos, mb.end, data);
  }

  /** A name written from `p` to the end, and a table that is still truthful. */
  ghost predicate NameDone(b: seq<u8>, start: nat, p: nat, name: seq<u8>, table: seq<Entry>) {
    TableOk(b, start, table) && Spells(b, start, p, LowLabels(name)) && NameEnd(b, p) == |b|
  }

  /**
   * At the dot behind a label: the label's length goes into its placeholder; then either a pointer to
   * the known rest ends the name, or the rest may become a new entry and the next label begins.
   */
  method CloseLabel(mb: Mbuf, name: seq<u8>, ht: Hash<Entry>, joaat: seq<u8> -> u32, start: nat, comp: bool,
                    pos: nat, i: nat, ghost b0: seq<u8>, ghost table0: seq<Entry>)
    returns (done: bool, next: nat)
    requires mb.Valid() && start <= |b0| <= pos < mb.pos == mb.end && b0 <= mb.buf[..mb.end]
    requires ht.Valid() && Keyed(ht.log, joaat) && table0 <= Values(ht.log)
    requires i < |name|
    requires Proper(name) && i + 1 < |name| ==> Proper(name[i + 1..])
    requires Proper(name) ==>
      Between(b0, mb.buf[..mb.end][pos := Low8(mb.pos - pos - 1)], start, RestAfter(name, i), name, table0, Values(ht.log))
    modifies mb, ht
    ensures mb.Valid() && mb.pos == mb.end && b0 <= mb.buf[..mb.end]
    ensures ht.Valid() && Keyed(ht.log, joaat) && table0 <= Values(ht.log)
    ensures !done ==> |b0| <= next && next + 1 == mb.pos
    ensures Proper(name) && !done && i + 1 < |name| ==>
      Writing(b0, mb.buf[..mb.end], start, next, Labels(Lower(name[i + 1..])), name, table0, Values(ht.log))
    ensures Proper(name) && (done || i + 1 == |name|) ==>
      NameDone(mb.buf[..mb.end], start, |b0|, name, Values(ht.log))
  {
    hide LowLabels, Spells, Direct, NameEnd, Writing, Between, Proper, Labels, Values, Keyed, TableOk;
    if i + 1 == |name| { assert name[i + 1..] == []; }
    ghost var b' := mb.buf[..mb.end][pos := Low8(mb.pos - pos - 1)];
    ghost var table := Values(ht.log);
    mb.buf := mb.buf[pos := Low8(mb.pos - pos - 1)];
    assert mb.buf[..mb.end] == b';
    next := mb.pos;
    var dn := LookupName(ht, joaat, name[i + 1..]);
    if dn.Some? && comp {
      if Proper(name) {
        PointerCloses(b0, b', start, name[i + 1..], name, table0, table, dn.value);
      }
      PutEnd(mb, BytesOfU16(PointerTo(dn.value.pos)));
      return true, next;
    }
    if dn.None? {
      AppendName(ht, joaat, name[i + 1..], next - start);
    }
    if Proper(name) {
      SuffixLabels(name[i + 1..]);
      if i + 1 < |name| {
        NextLabel(b0, b', start, RestAfter(name, i), name, table0, table, Values(ht.log), name[i + 1..]);
      } else {
        assert Values(ht.log) == table;
        ZeroCloses(b0, b', start, name, table0, table);
      }
    }
    PutEnd(mb, [0]);
    done := false;
  }

  /** At the end of the name: the last label's length goes into its placeholder and a zero byte ends the name. */
  method CloseName(mb: Mbuf, name: seq<u8>, start: nat, pos: nat, ghost b0: seq<u8>, ghost table0: seq<Entry>,
                   ghost table: seq<Entry>)
    requires mb.Valid() && |b0| <= pos < mb.pos == mb.end && b0 <= mb.buf[..mb.end]
    requires Proper(name) ==>
      Between(b0, mb.buf[..mb.end][pos := Low8(mb.pos - pos - 1)], start, [], name, table0, table)
    modifies mb
    ensures mb.Valid() && mb.pos == mb.end && b0 <= mb.buf[..mb.end]
    ensures Proper(name) ==> NameDone(mb.buf[..mb.end], start, |b0|, name, table)
  {
    hide LowLabels, Spells, NameEnd, Between, Proper, TableOk;
    ghost var b' := mb.buf[..mb.end][pos := Low8(mb.pos - pos - 1)];
    mb.buf := mb.buf[pos := Low8(mb.pos - pos - 1)];
    assert mb.buf[..mb.end] == b';
    PutEnd(mb, [0]);
    if Proper(name) {
      ZeroCloses(b0, b', start, name, table0, table);
    }
  }

  /** One more character of the label that began at `lab`. */
  method PutChar(mb: Mbuf, name: seq<u8>, i: nat, start: nat, pos: nat, ghost lab: nat, ghost b0: seq<u8>,
                 ghost table0: seq<Entry>, ghost table: seq<Entry>)
    requires mb.Valid() && |b0| <= pos < mb.pos == mb.end && b0 <= mb.buf[..mb.end]
    requires lab <= i < |name| && mb.buf[..mb.end][pos + 1..] == name[lab..i]
    requires Proper(name) ==>
      Writing(b0, mb.buf[..mb.end], start, pos, Labels(Lower(name[lab..])), name, table0, table)
    modifies mb
    ensures mb.Valid() && pos < mb.pos == mb.end && b0 <= mb.buf[..mb.end]
    ensures mb.buf[..mb.end][pos + 1..] == name[lab..i + 1]
    ensures Proper(name) ==>
      Writing(b0, mb.buf[..mb.end], start, pos, Labels(Lower(name[lab..])), name, table0, table)
  {
    hide Writing, Proper, Labels, Lower;
    ghost var b := mb.buf[..mb.end];
    PutEnd(mb, [name[i]]);
    assert mb.buf[..mb.end][pos + 1..] == b[pos + 1..] + [name[i]] == name[lab..i + 1];
    if Proper(name) {
      CharWritten(b0, b, start, pos, Labels(Lower(name[lab..])), name, table0, table, name[i]);
    }
  }

  /** The loop of dns_dname_encode, from the placeholder of the first label's length on. */
  method EncodeLabels(mb: Mbuf, name: seq<u8>, ht: Hash<Entry>, joaat: seq<u8> -> u32, start: nat, comp: bool,
                      first: nat, ghost b0: seq<u8>, ghost table0: seq<Entry>)
    returns (err: Option<Error>)
    requires mb.Valid() && mb.pos == mb.end && start <= first == |b0| && mb.buf[..mb.end] == b0 + [0]
    requires ht.Valid() && Keyed(ht.log, joaat) && table0 <= Values(ht.log)
    requires Proper(name) ==>
      Writing(b0, mb.buf[..mb.end], start, first, Labels(Lower(name)), name, table0, Values(ht.log))
    modifies mb, ht
    ensures mb.Valid() && mb.pos == mb.end && b0 <= mb.buf[..mb.end]
    ensures ht.Valid() && Keyed(ht.log, joaat) && table0 <= Values(ht.log)
    ensures name == [] ==> err.None? && mb.buf[..mb.end] == b0 + [0] && ht.log == old(ht.log)
    ensures Proper(name) ==> err.None? && NameDone(mb.buf[..mb.end], start, |b0|, name, Values(ht.log))
  {
    hide LowLabels, Spells, Direct, NameEnd, Writing, Between, Proper, Labels, Values, Keyed, TableOk;
    ghost var proper, lab := Proper(name), 0;
    if proper { ProperNotEmpty(name); }
    err := None;
    var pos := first;
    assert name[0..] == name;
    var i := 0;
    while true
      invariant mb.Valid() && |b0| <= pos < mb.pos == mb.end && b0 <= mb.buf[..mb.end]
      invariant ht.Valid() && Keyed(ht.log, joaat) && table0 <= Values(ht.log)
      invariant name == [] ==> mb.buf[..mb.end] == b0 + [0] && ht.log == old(ht.log)
      invariant 0 <= lab <= i <= |name| && mb.buf[..mb.end][pos + 1..] == name[lab..i]
      invariant forall k :: lab <= k < i ==> name[k] != DOT
      invariant proper && lab < |name| ==> Proper(name[lab..])
      invariant proper && lab < |name| ==>
        Writing(b0, mb.buf[..mb.end], start, pos, Labels(Lower(name[lab..])), name, table0, Values(ht.log))
      invariant proper && lab == |name| ==> NameDone(mb.buf[..mb.end], start, |b0|, name, Values(ht.log))
      decreases |name| - i
    {
      var lablen := mb.pos - pos - 1;
      ghost var b := mb.buf[..mb.end];
      if proper && lab < |name| && (i == |name| || name[i] == DOT) {
        LabelClosed(b0, b, start, pos, name, lab, i, table0, Values(ht.log));
      }
      if i == |name| {
        if lablen == 0 {
          break;
        }
        CloseName(mb, name, start, pos, b0, table0, Values(ht.log));
        break;
      } else if name[i] == DOT {
        if lablen == 0 {
          return Some(EINVAL);
        }
        var done;
        done, pos := CloseLabel(mb, name, ht, joaat, start, comp, pos, i, b0, table0);
        if done {
          break;
        }
        lab := i + 1;
        assert mb.buf[..mb.end][pos + 1..] == [];
      } else {
        PutChar(mb, name, i, start, pos, lab, b0, table0, Values(ht.log));
      }
      i := i + 1;
    }
  }

  /**
   * dns_dname_encode. For a valid name the bytes added spell the name, possibly through pointers to
   * names written before, and every entry of the table points at bytes that spell its name.
   */
  method EncodeName(mb: Mbuf, name: seq<u8>, ht: Hash<Entry>, joaat: seq<u8> -> u32, start: nat, comp: bool)
    returns (err: Option<Error>)
    requires mb.Valid() && mb.pos == mb.end && start <= mb.pos
    requires ht.Valid() && Keyed(ht.log, joaat) && TableOk(mb.buf[..mb.end], start, Values(ht.log))
    modifies mb, ht
    ensures mb.Valid() && mb.pos == mb.end && old(mb.buf[..mb.end]) <= mb.buf[..mb.end]
    ensures ht.Valid() && Keyed(ht.log, joaat) && old(Values(ht.log)) <= Values(ht.log)
    ensures ValidName(name) ==>
      && err.None?
      && TableOk(mb.buf[..mb.end], start, Values(ht.log))
      && Spells(mb.buf[..mb.end], start, old(mb.pos), LowLabels(name))
      && NameEnd(mb.buf[..mb.end], old(mb.pos)) == mb.pos
  {
    hide LowLabels, Spells, Direct, NameEnd, Writing, Between, Proper, Labels, Values, Keyed;
    ghost var b0, table0 := mb.buf[..mb.end], Values(ht.log);
    err := None;
    var dn := LookupName(ht, joaat, name);
    if dn.Some? && comp {
      SameLabels(dn.value.name, name);
      assert EntryOk(b0, start, dn.value);
      PutEnd(mb, BytesOfU16(PointerTo(dn.value.pos)));
      PointerSpells(b0, mb.buf[..mb.end], start, dn.value.pos, LowLabels(name));
      TableKept(b0, mb.buf[..mb.end], start, table0);
      return;
    }
    var pos := mb.pos;
    if dn.None? {
      AppendName(ht, joaat, name, pos - start);
    }
    PutEnd(mb, [0]);
    assert mb.buf[..mb.end] == b0 + [0];
    if name == [DOT] {
      RootWritten(b0, start, table0, Values(ht.log), name);
      return;
    }
    if name == [] {
      RootWritten(b0, start, table0, Values(ht.log), name);
    } else {
      NameStarts(b0, start, name, table0, Values(ht.log));
    }
    if Proper(name) { ProperNotRoot(name); }
    err := EncodeLabels(mb, name, ht, joaat, start, comp, pos, b0, table0);
  }

  /** The operand of a pointer, as a position; a pointer cut off by the end reads as zero. */
  method ReadPointer(mb: Mbuf, start: nat) returns (target: nat)
    requires mb.Valid() && mb.pos < mb.end
    modifies mb`pos
    ensures var b, p := mb.buf[..mb.end], old(mb.pos);
            && mb.pos == (if p + 2 <= |b| then p + 2 else p)
            && target == (if p + 2 <= |b| then Target(b, p, start) else start)
  {
    ghost var b, p := mb.buf[..mb.end], mb.pos;
    var w := mb.ReadU16();
    if p + 2 <= |b| { assert b[p..p + 2] == mb.buf[p..p + 2]; }
    target := w % 0x4000 + start;
  }

  /** The characters of a label that is known to be there, copied to `i` in the decoder's buffer. */
  method CopyLabel(mb: Mbuf, len: nat, text: array<u8>, i: nat)
    requires mb.Valid() && mb.pos + len <= mb.end && i + len <= text.Length
    modifies mb`pos, text
    ensures mb.pos == old(mb.pos) + len
    ensures text[..i + len] == old(text[..i]) + mb.buf[..mb.end][old(mb.pos)..mb.pos]
  {
    for k := 0 to len
      invariant mb.pos == old(mb.pos) + k
      invariant text[..i + k] == old(text[..i]) + mb.buf[..mb.end][old(mb.pos)..mb.pos]
    {
      text[i + k] := mb.buf[mb.pos];
      mb.pos := mb.pos + 1;
      assert text[..i + k + 1] == text[..i + k] + [text[i + k]];
    }
  }

  /** A label that fits goes behind the text, with a dot in between. */
  method TakeLabel(mb: Mbuf, len: nat, text: array<u8>, i: nat) returns (next: nat)
    requires mb.Valid() && 0 < len && mb.pos + len <= mb.end
    requires i + len + 2 <= text.Length
    modifies mb`pos, text
    ensures mb.pos == old(mb.pos) + len && i < next < text.Length
    ensures text[..next] == Glue(old(text[..i]), mb.buf[..mb.end][old(mb.pos)..mb.pos])
  {
    next := i;
    if i > 0 {
      text[i] := DOT;
      next := i + 1;
      assert text[..next] == old(text[..i]) + [DOT];
    }
    CopyLabel(mb, len, text, next);
    next := next + len;
  }

  /** str_ncpy out of a buffer whose last byte is zero. */
  lemma {:induction false} CStringOfZero(s: seq<u8>)
    ensures CString(s + [0], 0) == CString(s, 0)
  {
    if s != [] {
      assert (s + [0])[1..] == s[1..] + [0];
      CStringOfZero(s[1..]);
    }
  }

  /**
   * dns_dname_decode: reads labels and follows pointers, moving the position of the buffer as it goes. The text
   * is built in an array of 256 bytes; where the size test lets a label pass that does not fit, the method
   * stops with Overrun, everywhere else each byte written is inside the array.
   */
  method DecodeName(mb: Mbuf, start: nat) returns (r: Decoded)
    requires mb.Valid()
    modifies mb`pos
    ensures r == Decode(mb.buf[..mb.end], start, old(mb.pos), [], 0, None)
    ensures r.Name? ==> mb.pos == r.next && |r.text| < NAME_BUF
  {
    hide Target, CString, Glue;
    var text, i, loopc, back := new u8[NAME_BUF], 0, 0, None;
    ghost var b := mb.buf[..mb.end];
    ghost var goal := Decode(b, start, mb.pos, [], 0, None);
    while mb.pos < mb.end
      invariant 0 <= loopc <= COMP_LOOP + 1 && 0 <= i < NAME_BUF
      invariant Decode(b, start, mb.pos, text[..i], loopc, back) == goal
      decreases COMP_LOOP + 1 - loopc, mb.end - mb.pos
    {
      ghost var out := text[..i];
      var len := mb.buf[mb.pos];
      mb.pos := mb.pos + 1;
      if len == 0 {
        if back.Some? {
          mb.pos := back.value;
        }
        text[i] := 0;
        i := i + 1;
        assert text[..i] == out + [0];
        CStringOfZero(out);
        CStringFits(out);
        return Name(CString(text[..i], 0), mb.pos);
      } else if len >= COMP_MASK {
        if loopc > COMP_LOOP {
          break;
        }
        loopc := loopc + 1;
        mb.pos := mb.pos - 1;
        var target := ReadPointer(mb, start);
        if back.None? {
          back := Some(mb.pos);
        }
        mb.pos := target;
      } else if len > mb.Left() {
        break;
      } else if i > NAME_BUF - 2 {
        return Overrun;
      } else if len > NAME_BUF - i - 2 {
        break;
      } else {
        i := TakeLabel(mb, len, text, i);
      }
    }
    r := Failed;
  }

  lemma CStringFits(s: seq<u8>)
    ensures |CString(s, 0)| <= |s|
  {
  }

  /** A message is written as names and other bytes in any order. */
  datatype Field = Raw(bytes: seq<u8>) | Domain(name: seq<u8>, comp: bool)

  /** The k-th field stands between its offset and the next, and a name decodes from there to itself. */
  predicate FieldOk(b: seq<u8>, start: nat, f: Field, p: nat, next: nat) {
    match f
    case Raw(bytes) => OccursAt(b, p, bytes) && next == p + |bytes|
    case Domain(name, _) => DecodesTo(b, start, p, name, next)
  }

  predicate Writable(f: Field) {
    f.Domain? ==> ValidName(f.name) && |Undotted(f.name)| < NAME_BUF && 0 !in f.name
  }

  /** FieldOk in the form that survives further writing. */
  ghost predicate FieldSpelled(b: seq<u8>, start: nat, f: Field, p: nat, next: nat) {
    match f
    case Raw(bytes) => OccursAt(b, p, bytes) && next == p + |bytes|
    case Domain(name, _) => Spells(b, start, p, LowLabels(name)) && next == NameEnd(b, p)
  }

  lemma FieldKept(b: seq<u8>, b': seq<u8>, start: nat, f: Field, p: nat, next: nat)
    requires b <= b' && FieldSpelled(b, start, f, p, next)
    ensures FieldSpelled(b', start, f, p, next)
  {
    match f
    case Raw(bytes) => assert b'[p..p + |bytes|] == b[p..p + |bytes|];
    case Domain(name, _) =>
      SpellsKept(b, b', start, p, LowLabels(name));
      NameEndKept(b, b', start, p, LowLabels(name));
  }

  /**
   * Any sequence of valid names and other fields written into one message with a shared table: every
   * name decodes from its place in the finished message to itself, ignoring case.
   */
  method WriteMessage(prefix: seq<u8>, fields: seq<Field>, joaat: seq<u8> -> u32, bsize: nat)
    returns (b: seq<u8>, offset: seq<nat>)
    requires bsize > 0 && PowerOfTwo(bsize)
    requires forall k :: 0 <= k < |fields| ==> Writable(fields[k])
    ensures prefix <= b && |offset| == |fields| + 1
    ensures offset[0] == |prefix| && offset[|fields|] == |b|
    ensures forall k :: 0 <= k < |fields| ==> FieldOk(b, |prefix|, fields[k], offset[k], offset[k + 1])
  {
    hide Spells, Direct, LowLabels, NameEnd, Decode, Proper, DecodesTo, TableOk;
    var mb := new Mbuf.FromBytes(prefix);
    mb.pos := mb.end;
    var ht := new Hash<Entry>(bsize);
    var start := mb.pos;
    EmptyTable(prefix, start);
    assert mb.buf[..mb.end] == prefix;
    offset := [mb.pos];
    for i := 0 to |fields|
      invariant mb.Valid() && mb.pos == mb.end && fresh(mb) && fresh(ht) && start <= mb.pos
      invariant prefix <= mb.buf[..mb.end]
      invariant ht.Valid() && Keyed(ht.log, joaat) && TableOk(mb.buf[..mb.end], start, Values(ht.log))
      invariant |offset| == i + 1 && offset[0] == start && offset[i] == mb.pos
      invariant forall k :: 0 <= k < i ==> FieldSpelled(mb.buf[..mb.end], start, fields[k], offset[k], offset[k + 1])
    {
      ghost var old_b := mb.buf[..mb.end];
      match fields[i] {
        case Raw(bytes) =>
          if bytes != [] {
            PutEnd(mb, bytes);
            TableKept(old_b, mb.buf[..mb.end], start, Values(ht.log));
          }
          OccursAtEnd(mb.buf[..mb.end], old_b, bytes);
        case Domain(name, comp) =>
          assert Writable(fields[i]);
          var err := EncodeName(mb, name, ht, joaat, start, comp);
      }
      forall k | 0 <= k < i
        ensures FieldSpelled(mb.buf[..mb.end], start, fields[k], offset[k], offset[k + 1])
      {
        FieldKept(old_b, mb.buf[..mb.end], start, fields[k], offset[k], offset[k + 1]);
      }
      offset := offset + [mb.pos];
    }
    b := mb.buf[..mb.end];
    forall k | 0 <= k < |fields|
      ensures FieldOk(b, start, fields[k], offset[k], offset[k + 1])
    {
      assert Writable(fields[k]);
      assert FieldSpelled(b, start, fields[k], offset[k], offset[k + 1]);
      if fields[k].Domain? {
        SpelledNameDecodes(b, start, offset[k], fields[k].name);
      }
    }
  }

  lemma OccursAtEnd(b: seq<u8>, front: seq<u8>, bytes: seq<u8>)
    requires b == front + bytes
    ensures OccursAt(b, |front|, bytes)
  {
  }

  lemma EmptyTable(b: seq<u8>, start: nat)
    ensures TableOk(b, start, [])
  {
  }
}
