/**
 Which of the images that `parse_newc` takes are the ones that `newc` writes: exactly those whose numbers are spelled
 in lower-case digits, with a sign where a device number is negative, and whose names come in ascending order.
 */
module CpioCanonical {
  import opened Prelude
  import opened PosixPath
  import opened Text
  import opened Cpio
  import opened CpioRoundTrip

  // ---------------------------------------------------------------------------------------------
  // Spelling
  // ---------------------------------------------------------------------------------------------

  predicate LowerDigit(b: Byte) { 0x30 <= b <= 0x39 || 0x61 <= b <= 0x66 }

  predicate LowerHex(s: seq<Byte>) {
    forall i :: 0 <= i < |s| ==> LowerDigit(s[i])
  }

  lemma DigitOfValue(b: Byte)
    requires LowerDigit(b)
    ensures DigitValue(b).Some? && 0 <= DigitValue(b).value < 16 && HexDigit(DigitValue(b).value) == b
  {
  }

  lemma ValueOfDigit(d: int)
    requires 0 <= d < 16
    ensures LowerDigit(HexDigit(d))
  {
  }

  lemma Quotients(q: nat, d: nat)
    requires d < 16
    ensures (q * 16 + d) / 16 == q && (q * 16 + d) % 16 == d
  {
  }

  /** Lower-case digits are the digits of their own value. */
  lemma {:induction false} HexOfDigits(s: seq<Byte>)
    requires LowerHex(s)
    ensures AllDigits(s) && 0 <= Value(s, 0) < Power16(|s|) && Hex(Value(s, 0), |s|) == s
    decreases |s|
  {
    if s != [] {
      var front, b := s[..|s| - 1], s[|s| - 1];
      HexOfDigits(front);
      DigitOfValue(b);
      ValueSnoc(front, b, 0);
      assert s == front + [b];
      Quotients(Value(front, 0), DigitValue(b).value);
      hide Value, DigitValue, HexDigit, AllDigits;
    }
  }

  predicate AllNoughts(s: seq<Byte>) {
    forall i :: 0 <= i < |s| ==> s[i] == 0x30
  }

  /** Eight lower-case digits, or a minus sign and seven of them that are not all zero. */
  predicate Spelled(s: seq<Byte>) {
    LowerHex(s) || (s != [] && s[0] == MINUS && LowerHex(s[1..]) && !AllNoughts(s[1..]))
  }

  lemma {:induction false} NoughtIsZero(s: seq<Byte>)
    requires LowerHex(s) && AllDigits(s)
    ensures AllNoughts(s) <==> Value(s, 0) == 0
    decreases |s|
  {
    if s != [] {
      var front, b := s[..|s| - 1], s[|s| - 1];
      NoughtIsZero(front);
      DigitOfValue(b);
      HexOfDigits(front);
      ValueSnoc(front, b, 0);
      assert s == front + [b];
      assert b == 0x30 <==> DigitValue(b).value == 0;
      assert AllNoughts(s) <==> AllNoughts(front) && b == 0x30;
      hide Value, HexDigit, AllDigits, Hex, Power16, AllNoughts;
    }
  }

  /** A field so spelled is the spelling of its own value. */
  lemma FieldOfText(s: seq<Byte>)
    requires Spelled(s) && |s| == 8
    ensures ParseHex(s).Some? && EightWide(ParseHex(s).value) && Field(ParseHex(s).value) == s
  {
    hide ParseHex, Value, Hex, Power16, LowerHex, AllNoughts;
    if LowerHex(s) {
      HexOfDigits(s);
      ParseAllDigits(s);
      PowerIsWord();
    } else {
      var digits := s[1..];
      HexOfDigits(digits);
      NoughtIsZero(digits);
      ParseNegative(digits);
      PowerBelowWord();
      assert s == [MINUS] + digits;
    }
  }

  /** And every number that fits is spelled so. */
  lemma FieldIsSpelled(v: int)
    requires EightWide(v)
    ensures Spelled(Field(v)) && |Field(v)| == 8 && (v < 0 <==> Field(v)[0] == MINUS)
  {
    FieldRoundTrip(v);
    hide ParseHex;
    if v >= 0 {
      HexIsLower(v, 8);
      assert LowerDigit(Hex(v, 8)[0]);
    } else {
      HexIsLower(-v, 7);
      HexValue(-v, 7);
      NoughtIsZero(Hex(-v, 7));
      hide Hex, Value, LowerHex, AllNoughts;
      assert Field(v)[1..] == Hex(-v, 7);
    }
  }

  lemma {:induction false} HexIsLower(v: nat, width: nat)
    ensures LowerHex(Hex(v, width))
    decreases width + v
  {
    if width != 0 || v != 0 {
      HexIsLower(v / 16, if width > 0 then width - 1 else 0);
      ValueOfDigit(v % 16);
    }
  }

  lemma AtJoin(data: seq<Byte>, at: nat, a: seq<Byte>, b: seq<Byte>, mid: nat)
    requires At(data, at, a) && mid == at + |a| && At(data, mid, b)
    ensures At(data, at, a + b)
  {
    forall i | 0 <= i < |a + b| ensures data[at + i] == (a + b)[i] {
      if i >= |a| { assert data[mid + (i - |a|)] == b[i - |a|]; }
    }
  }

  lemma AtOfSlice(data: seq<Byte>, lo: nat, hi: nat)
    requires lo <= hi <= |data|
    ensures At(data, lo, data[lo..hi]) && Slice(data, lo, hi) == data[lo..hi]
  {
  }

  /** The `count` fields from `pos` on are spelled as the emitter spells them. */
  predicate AllSpelled(data: seq<Byte>, pos: nat, count: nat)
    requires pos + 8 * count <= |data|
    decreases count
  {
    count == 0 || (Spelled(data[pos..pos + 8]) && AllSpelled(data, pos + 8, count - 1))
  }

  /** Fields so spelled are the text of what is read from them. */
  lemma {:induction false} FieldsSpelled(data: seq<Byte>, pos: nat, count: nat)
    requires pos + 8 * count <= |data| && AllSpelled(data, pos, count)
    ensures var vs := FieldsAt(data, pos, count);
            vs.Some? && AllEightWide(vs.value) && At(data, pos, FieldText(vs.value)) && |FieldText(vs.value)| == 8 * count
    decreases count
  {
    hide FieldsAt, FieldText, AllEightWide, At, Spelled, Slice, ParseHex, Field;
    if count == 0 {
      NoFields(data, pos);
    } else {
      var text := data[pos..pos + 8];
      AtOfSlice(data, pos, pos + 8);
      FieldOfText(text);
      FieldsSpelled(data, pos + 8, count - 1);
      FieldFirst(data, pos, count, text);
    }
  }

  lemma NoFields(data: seq<Byte>, pos: nat)
    requires pos <= |data|
    ensures FieldsAt(data, pos, 0) == Some([]) && FieldText([]) == [] && AllEightWide([]) && At(data, pos, [])
  {
  }

  lemma FieldFirst(data: seq<Byte>, pos: nat, count: nat, text: seq<Byte>)
    requires count > 0 && Slice(data, pos, pos + 8) == text && At(data, pos, text) && |text| == 8
    requires ParseHex(text).Some? && EightWide(ParseHex(text).value) && Field(ParseHex(text).value) == text
    requires var rest := FieldsAt(data, pos + 8, count - 1);
             rest.Some? && AllEightWide(rest.value) && At(data, pos + 8, FieldText(rest.value))
             && |FieldText(rest.value)| == 8 * (count - 1)
    ensures var vs := FieldsAt(data, pos, count);
            vs.Some? && AllEightWide(vs.value) && At(data, pos, FieldText(vs.value)) && |FieldText(vs.value)| == 8 * count
  {
    hide ParseHex, Slice, Field, At, EightWide;
    var v, rest := ParseHex(text).value, FieldsAt(data, pos + 8, count - 1).value;
    assert ([v] + rest)[1..] == rest;
    AtJoin(data, pos, Field(v), FieldText(rest), pos + 8);
  }

  /** The text of the fields, field by field. */
  lemma {:induction false} FieldAt(data: seq<Byte>, pos: nat, vs: seq<int>, i: nat)
    requires i < |vs| && AllEightWide(vs) && At(data, pos, FieldText(vs))
    ensures At(data, pos + 8 * i, Field(vs[i])) && |Field(vs[i])| == 8
    decreases i
  {
    hide Field, At, EightWide, ParseHex;
    FieldRoundTrip(vs[0]);
    AtSplit(data, pos, Field(vs[0]), FieldText(vs[1..]));
    if i > 0 { FieldAt(data, pos + 8, vs[1..], i - 1); }
  }

  lemma {:induction false} TextIsSpelled(data: seq<Byte>, pos: nat, vs: seq<int>)
    requires AllEightWide(vs) && At(data, pos, FieldText(vs))
    ensures pos + 8 * |vs| <= |data| && AllSpelled(data, pos, |vs|)
    decreases |vs|
  {
    hide Field, At, EightWide, Spelled;
    if vs == [] {
      AtBounds(data, pos, FieldText(vs));
    } else {
      FieldIsSpelled(vs[0]);
      AtSplit(data, pos, Field(vs[0]), FieldText(vs[1..]));
      AtSlice(data, pos, Field(vs[0]));
      TextIsSpelled(data, pos + 8, vs[1..]);
    }
  }

  // ---------------------------------------------------------------------------------------------
  // One record
  // ---------------------------------------------------------------------------------------------

  lemma {:induction false} DecodeIs(s: seq<Byte>)
    ensures Decode(s).Some? ==> IsAscii(Decode(s).value) && Encode(Decode(s).value) == s
  {
    if s != [] {
      DecodeIs(s[1..]);
      if Decode(s).Some? {
        var rest := Decode(s[1..]).value;
        assert Decode(s).value == [s[0] as char] + rest;
        assert s == [s[0]] + s[1..];
      }
    }
  }

  lemma NameSpelled(data: seq<Byte>, pos: nat, size: int)
    requires ParseName(data, pos, size).Ok?
    ensures var name := ParseName(data, pos, size).value;
            && IsAscii(name) && size == |name| + 1 && |name| < NAME_LIMIT && At(data, pos, Encode(name) + [0])
  {
    AtOfSlice(data, pos, pos + size);
    var bytes := data[pos..pos + size];
    DecodeIs(bytes[..|bytes| - 1]);
    hide Decode, Slice;
    assert bytes == bytes[..|bytes| - 1] + [0];
  }

  lemma ZerosArePad(data: seq<Byte>, pos: nat, start: nat)
    requires start == Align4(pos) <= |data| && AllZero(data[pos..start])
    ensures At(data, pos, PadBytes(pos))
  {
    PadIsZero(pos);
    hide PadBytes, Align4;
    forall i | 0 <= i < |PadBytes(pos)| ensures data[pos + i] == PadBytes(pos)[i] {
      assert data[pos..start][i] == data[pos + i];
    }
  }

  lemma BodySpelled(data: seq<Byte>, pos: nat, size: nat)
    requires pos <= |data| && ParseBody(data, pos, size).Ok?
    ensures var framed, start := ParseBody(data, pos, size).value, Align4(pos);
            && |framed.body| == size && framed.next == Align4(start + size) <= |data|
            && At(data, pos, PadBytes(pos)) && At(data, start, framed.body) && At(data, start + size, PadBytes(start + size))
  {
    var start := Align4(pos);
    var stop := start + size;
    AtOfSlice(data, pos, start);
    AtOfSlice(data, start, stop);
    AtOfSlice(data, stop, Align4(stop));
    ZerosArePad(data, pos, start);
    ZerosArePad(data, stop, Align4(stop));
    hide At, PadBytes, Align4;
  }

  lemma TailJoin(data: seq<Byte>, pos: nat, mid: nat, start: nat, stop: nat, next: nat, head: seq<Byte>, body: seq<Byte>)
    requires Aligned(pos) && mid == pos + |head| && start == Align4(mid) && stop == start + |body| && next == Align4(stop)
    requires At(data, pos, head) && At(data, mid, PadBytes(mid)) && At(data, start, body) && At(data, stop, PadBytes(stop))
    ensures At(data, pos, head + (PadBytes(|head|) + (body + PadBytes(|body|))))
    ensures next == pos + |head| + |PadBytes(|head|)| + |body| + |PadBytes(|body|)| && Aligned(next)
  {
    AlignShift(pos, |head|);
    AlignTwice(mid);
    AlignShift(start, |body|);
    hide At, Align4, PadBytes;
    AlignStep(pos, |head|, mid, start);
    AlignStep(start, |body|, stop, next);
    AtJoin(data, start, body, PadBytes(|body|), stop);
    AtJoin(data, mid, PadBytes(|head|), body + PadBytes(|body|), start);
    AtJoin(data, pos, head, PadBytes(|head|) + (body + PadBytes(|body|)), mid);
  }

  /** The entry that a record gives. */
  function EntryOf(p: Parsed): Entry
    requires |p.fields| == 13
  {
    Entry(p.fields[1], p.body, p.fields[9], p.fields[10])
  }

  /** The header of a record at `pos` is spelled as the emitter spells it, and its body's size has no sign. */
  predicate HeaderSpelled(data: seq<Byte>, pos: nat) {
    pos + HEADER_BYTES <= |data| && AllSpelled(data, pos + 6, 13) && data[pos + 54] != MINUS
  }

  lemma SizeSign(data: seq<Byte>, pos: nat, vs: seq<int>)
    requires |vs| == 13 && AllEightWide(vs) && At(data, pos + 6, FieldText(vs)) && pos + HEADER_BYTES <= |data|
    ensures data[pos + 54] == MINUS <==> vs[6] < 0
  {
    hide FieldText, Field, Spelled, EightWide, At;
    FieldAt(data, pos + 6, vs, 6);
    FieldIsSpelled(vs[6]);
    AtFirst(data, pos + 54, Field(vs[6]));
  }

  lemma AtFirst(data: seq<Byte>, at: nat, part: seq<Byte>)
    requires At(data, at, part) && part != []
    ensures at < |data| && data[at] == part[0]
  {
    assert data[at + 0] == part[0];
  }

  /** A record that is read, its header so spelled, is the record that the emitter writes. */
  ghost predicate Emitted(data: seq<Byte>, pos: nat, k: nat, p: Parsed)
    requires |p.fields| == 13
  {
    && Fields8(EntryOf(p)) && IsAscii(p.name) && |p.name| < NAME_LIMIT && |p.body| == p.fields[6]
    && At(data, pos, Record(k + 1, p.name, EntryOf(p)))
    && p.next == pos + |Record(k + 1, p.name, EntryOf(p))| && Aligned(p.next)
  }

  lemma RecordParts(data: seq<Byte>, pos: nat, k: nat)
    requires ParseRecord(data, pos, k).Ok?
    ensures var p := ParseRecord(data, pos, k).value;
            && pos + HEADER_BYTES <= |data| && Slice(data, pos, pos + 6) == MAGIC
            && FieldsAt(data, pos + 6, 13) == Some(p.fields) && p.fields[1] >= 0 && Deterministic(p.fields, k)
            && ParseName(data, pos + HEADER_BYTES, p.fields[11]) == Ok(p.name)
            && ParseBody(data, pos + HEADER_BYTES + p.fields[11], p.fields[6]) == Ok(Framed(p.body, p.next))
  {
    hide Slice, FieldsAt, ParseName, ParseBody, Deterministic;
  }

  lemma HeadSpelled(data: seq<Byte>, pos: nat, vs: seq<int>, name: seq<Byte>)
    requires pos + HEADER_BYTES <= |data| && Slice(data, pos, pos + 6) == MAGIC
    requires At(data, pos + 6, FieldText(vs)) && |FieldText(vs)| == 104 && At(data, pos + HEADER_BYTES, name)
    ensures At(data, pos, MAGIC + (FieldText(vs) + name))
  {
    AtOfSlice(data, pos, pos + 6);
    hide At, Slice, FieldText;
    AtJoin(data, pos + 6, FieldText(vs), name, pos + HEADER_BYTES);
    AtJoin(data, pos, MAGIC, FieldText(vs) + name, pos + 6);
  }

  lemma RecordSpelled(data: seq<Byte>, pos: nat, k: nat)
    requires Aligned(pos) && ParseRecord(data, pos, k).Ok? && HeaderSpelled(data, pos)
    ensures Emitted(data, pos, k, ParseRecord(data, pos, k).value)
  {
    hide ParseRecord, ParseName, ParseBody, FieldsAt, Slice, At, Align4, PadBytes, FieldText, AllSpelled, Encode;
    var p := ParseRecord(data, pos, k).value;
    RecordParts(data, pos, k);
    FieldsSpelled(data, pos + 6, 13);
    SizeSign(data, pos, p.fields);
    NameSpelled(data, pos + HEADER_BYTES, p.fields[11]);
    HeadSpelled(data, pos, p.fields, Encode(p.name) + [0]);
    var mid := pos + HEADER_BYTES + |p.name| + 1;
    AtBounds(data, pos + HEADER_BYTES, Encode(p.name) + [0]);
    BodySpelled(data, mid, p.fields[6]);
    AtBounds(data, Align4(mid), p.body);
    assert p.fields == FieldValues(k + 1, p.name, EntryOf(p));
    var start := Align4(mid);
    TailJoin(data, pos, mid, start, start + |p.body|, p.next, RecordHead(k + 1, p.name, EntryOf(p)), p.body);
  }

  // ---------------------------------------------------------------------------------------------
  // The condition
  // ---------------------------------------------------------------------------------------------

  predicate Follows(last: Option<string>, name: string) {
    last.None? || Before(last.value, name)
  }

  /** From record `k` at `pos` on: every header is spelled as the emitter does, and every name but the trailer's comes
      after the one before it. */
  predicate CanonicalFrom(data: seq<Byte>, pos: nat, k: nat, last: Option<string>)
    decreases |data| - pos
  {
    && HeaderSpelled(data, pos)
    && match ParseRecord(data, pos, k) {
         case Err(_) => false
         case Ok(p) => p.name == TRAILER
                       || (Follows(last, p.name) && pos < p.next && CanonicalFrom(data, p.next, k + 1, Some(p.name)))
       }
  }

  predicate CanonicalImage(data: seq<Byte>) {
    CanonicalFrom(data, 0, 0, None)
  }

  // ---------------------------------------------------------------------------------------------
  // Canonical images are emitted
  // ---------------------------------------------------------------------------------------------

  function LastOf(names: seq<string>): Option<string> {
    if names == [] then None else Some(names[|names| - 1])
  }

  lemma SortedSnoc(names: seq<string>, name: string)
    requires Sorted(names) && Follows(LastOf(names), name)
    ensures Sorted(names + [name])
  {
    hide Before;
    forall i | 0 <= i < |names| ensures Before(names[i], name) {
      if i < |names| - 1 { BeforeTransitive(names[i], names[|names| - 1], name); }
    }
  }

  ghost predicate Extends(records: Entries, entries: Entries) {
    forall n :: n in records ==> n in entries && entries[n] == records[n]
  }

  ghost predicate AllAscii(names: seq<string>) {
    forall i :: 0 <= i < |names| ==> IsAscii(names[i])
  }

  /** `names` lists the entries read so far, in order. */
  ghost predicate ReadSoFar(names: seq<string>, records: Entries) {
    Sorted(names) && AllAscii(names) && Elements(names) == records.Keys && Entries8(records)
  }

  /** The list that the emitter runs over when it is given `names` for an order. */
  ghost function Ordered(entries: Entries, names: seq<string>): seq<Item>
    requires Elements(names) == entries.Keys
  {
    NamesIn(entries, names);
    Items(entries, names) + [Item(TRAILER, TRAILER_ENTRY)]
  }

  lemma NamesIn(entries: Entries, names: seq<string>)
    requires Elements(names) == entries.Keys
    ensures forall n :: n in names ==> n in entries
  {
    forall n | n in names ensures n in entries { assert n in Elements(names); }
  }

  lemma OrderedFits(entries: Entries, names: seq<string>)
    requires ReadSoFar(names, entries)
    ensures Items8(Ordered(entries, names)) && AsciiNames(Ordered(entries, names))
  {
    NamesIn(entries, names);
  }

  /** What is left of the image from record `k` on is what the emitter writes from item `k` on. */
  ghost predicate Leaves(data: seq<Byte>, pos: nat, k: nat, entries: Entries, names: seq<string>) {
    && ReadSoFar(names, entries) && k <= |names|
    && Items8(Ordered(entries, names)) && AsciiNames(Ordered(entries, names))
    && At(data, pos, Records(Ordered(entries, names), k))
    && pos + |Records(Ordered(entries, names), k)| == |data|
  }

  lemma TrailerLeft(data: seq<Byte>, pos: nat, records: Entries, names: seq<string>, p: Parsed)
    requires |p.fields| == 13 && p.name == TRAILER && p.fields[1..] == TRAILER_FIELDS && p.next == |data|
    requires ReadSoFar(names, records) && Emitted(data, pos, |names|, p)
    ensures Leaves(data, pos, |names|, records, names)
  {
    TrailerGives(p);
    OrderedFits(records, names);
    LastListed(records, names);
    hide Record, At, Aligned, ReadSoFar, Ordered, EntryOf, Records, Items8, AsciiNames;
    LastRecord(Ordered(records, names), |names|);
  }

  lemma TrailerGives(p: Parsed)
    requires |p.fields| == 13 && p.fields[1..] == TRAILER_FIELDS && |p.body| == p.fields[6]
    ensures EntryOf(p) == TRAILER_ENTRY
  {
    var rest := p.fields[1..];
    assert p.fields[1] == rest[0] && p.fields[6] == rest[5] && p.fields[9] == rest[8] && p.fields[10] == rest[9];
  }

  lemma LastListed(entries: Entries, names: seq<string>)
    requires ReadSoFar(names, entries)
    ensures var items := Ordered(entries, names); |items| == |names| + 1 && items[|names|] == Item(TRAILER, TRAILER_ENTRY)
  {
    NamesIn(entries, names);
    hide Sorted;
  }

  lemma LastRecord(items: seq<Item>, k: nat)
    requires AsciiNames(items) && k + 1 == |items|
    ensures IsAscii(items[k].name) && Records(items, k) == Record(k + 1, items[k].name, items[k].entry)
  {
    hide Record;
    var last := Record(k + 1, items[k].name, items[k].entry);
    assert Records(items, k + 1) == [] && last + [] == last;
  }

  lemma RecordLeft(data: seq<Byte>, pos: nat, k: nat, entries: Entries, names: seq<string>, p: Parsed)
    requires |p.fields| == 13 && p.next >= 0 && Emitted(data, pos, k, p)
    requires Leaves(data, p.next, k + 1, entries, names)
    requires names[k] == p.name && p.name in entries && entries[p.name] == EntryOf(p)
    ensures Leaves(data, pos, k, entries, names)
  {
    hide Record, At, Aligned, Sorted;
    NamesIn(entries, names);
    var items := Ordered(entries, names);
    assert items[k] == Item(p.name, EntryOf(p));
    AtJoin(data, pos, Record(k + 1, p.name, EntryOf(p)), Records(items, k + 1), p.next);
  }

  lemma ReadOneMore(names: seq<string>, records: Entries, name: string, e: Entry)
    requires ReadSoFar(names, records) && Follows(LastOf(names), name) && IsAscii(name) && Fields8(e)
    ensures ReadSoFar(names + [name], records[name := e])
  {
    SortedSnoc(names, name);
    assert Elements(names + [name]) == Elements(names) + {name};
    hide Sorted;
  }

  lemma CanonicalStep(data: seq<Byte>, pos: nat, k: nat, last: Option<string>) returns (p: Parsed)
    requires CanonicalFrom(data, pos, k, last)
    ensures HeaderSpelled(data, pos) && pos < |data|
    ensures ParseRecord(data, pos, k) == Ok(p) && |p.fields| == 13
    ensures p.name != TRAILER ==>
              Follows(last, p.name) && pos < p.next && CanonicalFrom(data, p.next, k + 1, Some(p.name))
  {
    hide ParseRecord, AllSpelled, Follows;
    p := ParseRecord(data, pos, k).value;
  }

  lemma ParseStep(data: seq<Byte>, pos: nat, k: nat, records: Entries, p: Parsed)
    requires ParseRecord(data, pos, k) == Ok(p) && |p.fields| == 13 && ParseFrom(data, pos, k, records).Ok?
    ensures if p.name == TRAILER
            then p.fields[1..] == TRAILER_FIELDS && p.next == |data| && ParseFrom(data, pos, k, records) == Ok(records)
            else && p.name !in records && (p.name == "." || Canonical(p.name))
                 && ParseFrom(data, pos, k, records) == ParseFrom(data, p.next, k + 1, records[p.name := EntryOf(p)])
  {
    hide ParseRecord, Canonical;
  }

  lemma EmittedMeans(data: seq<Byte>, pos: nat, k: nat, p: Parsed)
    requires |p.fields| == 13 && Emitted(data, pos, k, p)
    ensures Fields8(EntryOf(p)) && IsAscii(p.name) && p.next >= 0 && Aligned(p.next)
  {
    hide At, Record;
  }

  /** Reading a canonical image to its end. */
  lemma {:induction false} CanonicalRead(data: seq<Byte>, pos: nat, k: nat, records: Entries, names: seq<string>)
    returns (all: seq<string>)
    requires Aligned(pos) && k == |names| && ReadSoFar(names, records)
    requires CanonicalFrom(data, pos, k, LastOf(names)) && ParseFrom(data, pos, k, records).Ok?
    ensures var entries := ParseFrom(data, pos, k, records).value;
            names <= all && Extends(records, entries) && Leaves(data, pos, k, entries, all)
    decreases |data| - pos
  {
    hide ParseRecord, Leaves, ReadSoFar, HeaderSpelled, Follows, Aligned, CanonicalFrom, ParseFrom, EntryOf, Emitted;
    var p := CanonicalStep(data, pos, k, LastOf(names));
    ParseStep(data, pos, k, records, p);
    RecordSpelled(data, pos, k);
    EmittedMeans(data, pos, k, p);
    if p.name == TRAILER {
      TrailerLeft(data, pos, records, names, p);
      all := names;
    } else {
      var more, longer := records[p.name := EntryOf(p)], names + [p.name];
      ReadOneMore(names, records, p.name, EntryOf(p));
      assert LastOf(longer) == Some(p.name);
      all := CanonicalRead(data, p.next, k + 1, more, longer);
      assert all[k] == longer[k];
      RecordLeft(data, pos, k, ParseFrom(data, pos, k, records).value, all, p);
    }
  }

  // ---------------------------------------------------------------------------------------------
  // Emitted images are canonical
  // ---------------------------------------------------------------------------------------------

  lemma RecordDigits(data: seq<Byte>, pos: nat, inode: nat, name: string, e: Entry)
    requires Fits(inode, name, e) && At(data, pos, Record(inode, name, e))
    ensures HeaderSpelled(data, pos)
  {
    var vs, head := FieldValues(inode, name, e), RecordHead(inode, name, e);
    FieldValuesAreEightWide(inode, name, e);
    assert |vs| == 13 && vs[6] >= 0;
    hide FieldText, PadBytes, AllSpelled, Encode, FieldValues, AllEightWide;
    AtSplit(data, pos, head, PadBytes(|head|) + (e.body + PadBytes(|e.body|)));
    AtSplit(data, pos, MAGIC, FieldText(vs) + (Encode(name) + [0]));
    AtSplit(data, pos + 6, FieldText(vs), Encode(name) + [0]);
    TextIsSpelled(data, pos + 6, vs);
    SizeSign(data, pos, vs);
  }

  /** The names from place `k` on, and the one before, ascend. */
  ghost predicate AscendsFrom(names: seq<string>, k: nat) {
    forall i :: k <= i < |names| ==> i == 0 || Before(names[i - 1], names[i])
  }

  lemma {:induction false} AscendsIsSorted(names: seq<string>)
    ensures AscendsFrom(names, 0) <==> Sorted(names)
  {
    hide Before;
    if AscendsFrom(names, 0) && names != [] {
      var front := names[..|names| - 1];
      assert AscendsFrom(front, 0);
      AscendsIsSorted(front);
      SortedSnoc(front, names[|names| - 1]);
      assert names == front + [names[|names| - 1]];
    }
  }

  /** The image of the entries listed in any order, read up to item `k`. */
  ghost predicate ReadingList(data: seq<Byte>, items: seq<Item>, entries: Entries, names: seq<string>, k: nat, pos: nat) {
    && Lists(items, entries, names) && k <= |names| < ARCHIVE_LIMIT && Reading(data, items, k, pos)
    && forall i :: 0 <= i < |names| ==> GoodName(names[i])
  }

  lemma ListStep(data: seq<Byte>, items: seq<Item>, entries: Entries, names: seq<string>, k: nat, pos: nat)
    returns (p: Parsed)
    requires ReadingList(data, items, entries, names, k, pos)
    ensures HeaderSpelled(data, pos)
    ensures ParseRecord(data, pos, k) == Ok(p)
    ensures if k == |names| then p.name == TRAILER
            else p.name == names[k] != TRAILER && pos < p.next && ReadingList(data, items, entries, names, k + 1, p.next)
  {
    hide Record, ParseRecord, Reading, GoodName, Lists, HeaderSpelled;
    ListsAt(items, entries, names, k);
    ItemEmittable(data, items, k, pos);
    var name, e := items[k].name, items[k].entry;
    var next := pos + |Record(k + 1, name, e)|;
    ReadOne(data, items, k, pos, next);
    RecordLong(k + 1, name, e);
    if k == |names| {
      TrailerIsShort();
    } else {
      GoodNameMeans(names[k]);
    }
    p := Parsed(name, FieldValues(k + 1, name, e), e.body, next);
    ReadingFits(data, items, k, pos);
    RecordDigits(data, pos, k + 1, name, e);
  }

  lemma TrailerIsShort()
    ensures |TRAILER| < NAME_LIMIT && '\0' !in TRAILER
  {
  }

  lemma GoodNameMeans(name: string)
    requires GoodName(name)
    ensures name != TRAILER && |name| < NAME_LIMIT && '\0' !in name
  {
    CanonicalNoNul(name);
  }

  lemma ReadingFits(data: seq<Byte>, items: seq<Item>, k: nat, pos: nat)
    requires k < |items| <= ARCHIVE_LIMIT && Reading(data, items, k, pos)
    ensures Fits(k + 1, items[k].name, items[k].entry)
    ensures At(data, pos, Record(k + 1, items[k].name, items[k].entry))
  {
    hide Record;
    RecordsLong(items, k, k);
    AtSplit(data, pos, Record(k + 1, items[k].name, items[k].entry), Records(items, k + 1));
  }

  /** The image of a listing is canonical from record `k` on exactly when the names ascend from there. */
  lemma {:induction false} ImageCanonical(data: seq<Byte>, items: seq<Item>, entries: Entries, names: seq<string>, k: nat,
                                          pos: nat)
    requires k <= |names| && ReadingList(data, items, entries, names, k, pos)
    ensures CanonicalFrom(data, pos, k, LastOf(names[..k])) <==> AscendsFrom(names, k)
    decreases |names| - k
  {
    hide ReadingList, ParseRecord, HeaderSpelled, Before, CanonicalFrom, AscendsFrom;
    var p := ListStep(data, items, entries, names, k, pos);
    CanonicalUnfold(data, pos, k, LastOf(names[..k]), p);
    if k == |names| {
      AscendsAtEnd(names);
    } else {
      ImageCanonical(data, items, entries, names, k + 1, p.next);
      AscendsStep(names, k);
    }
  }

  lemma CanonicalUnfold(data: seq<Byte>, pos: nat, k: nat, last: Option<string>, p: Parsed)
    requires HeaderSpelled(data, pos)
    requires ParseRecord(data, pos, k) == Ok(p)
    ensures p.name == TRAILER ==> CanonicalFrom(data, pos, k, last)
    ensures p.name != TRAILER && pos < p.next ==>
              (CanonicalFrom(data, pos, k, last) <==>
               Follows(last, p.name) && CanonicalFrom(data, p.next, k + 1, Some(p.name)))
  {
    hide ParseRecord, HeaderSpelled, Follows;
  }

  lemma AscendsAtEnd(names: seq<string>)
    ensures AscendsFrom(names, |names|)
  {
  }

  lemma AscendsStep(names: seq<string>, k: nat)
    requires k < |names|
    ensures LastOf(names[..k + 1]) == Some(names[k])
    ensures AscendsFrom(names, k) <==> Follows(LastOf(names[..k]), names[k]) && AscendsFrom(names, k + 1)
  {
    hide Before;
    assert k > 0 ==> LastOf(names[..k]) == Some(names[k - 1]);
  }

  // ---------------------------------------------------------------------------------------------
  // The exact set
  // ---------------------------------------------------------------------------------------------

  lemma {:induction false} SortedUnique(a: seq<string>, b: seq<string>)
    requires Sorted(a) && Sorted(b) && Elements(a) == Elements(b)
    ensures a == b
  {
    if a == [] || b == [] {
      NoElements(a);
      NoElements(b);
    } else {
      FirstIsLeast(a);
      FirstIsLeast(b);
      LeastUnique(a[0], b[0], Elements(a));
      SortedUnique(a[1..], b[1..]);
      assert a == [a[0]] + a[1..] && b == [b[0]] + b[1..];
    }
  }

  lemma NoElements(a: seq<string>)
    ensures Elements(a) == {} ==> a == []
  {
    if a != [] { assert a[0] in Elements(a); }
  }

  lemma FirstIsLeast(a: seq<string>)
    requires Sorted(a) && a != []
    ensures IsLeast(a[0], Elements(a)) && Sorted(a[1..]) && Elements(a[1..]) == Elements(a) - {a[0]}
  {
    hide Before;
    BeforeIrreflexive(a[0]);
    forall i | 0 < i < |a| ensures a[i] != a[0] && a[i] in a[1..] {
      assert a[1..][i - 1] == a[i];
    }
    forall y | y in Elements(a) && y != a[0] ensures Before(a[0], y) {
      var i :| 0 <= i < |a| && a[i] == y;
    }
  }

  /** Of the images that the parser takes, those that `newc` writes for what was read are exactly the canonical ones:
      numbers in lower-case digits, signs on negative device numbers only, names in ascending order. */
  lemma ParsedIsEmitted(data: seq<Byte>, entries: Entries)
    requires Parse(data) == Ok(entries)
    ensures Newc(entries) == Ok(data) <==> CanonicalImage(data)
  {
    if CanonicalImage(data) { CanonicalIsEmitted(data, entries); }
    if Newc(entries) == Ok(data) { EmittedIsCanonical(data, entries); }
  }

  lemma CanonicalIsEmitted(data: seq<Byte>, entries: Entries)
    requires Parse(data) == Ok(entries) && CanonicalImage(data)
    ensures Newc(entries) == Ok(data)
  {
    assert |data| <= ARCHIVE_LIMIT && ParseFrom(data, 0, 0, map[]) == Ok(entries);
    hide *;
    Beginning(data);
    NothingRead();
    var names := CanonicalRead(data, 0, 0, map[], []);
    LeavesAll(data, entries, names);
  }

  lemma NothingRead()
    ensures ReadSoFar([], map[]) && Aligned(0)
  {
  }

  lemma LeavesAll(data: seq<Byte>, entries: Entries, names: seq<string>)
    requires Leaves(data, 0, 0, entries, names) && |data| <= ARCHIVE_LIMIT
    ensures Newc(entries) == Ok(data)
  {
    hide Newc, Records, SortedNames, At;
    SortedNamesCorrect(entries.Keys);
    SortedUnique(names, SortedNames(entries.Keys));
    NewcMeans(entries);
    ListingMeans(entries);
    WholeImage(data, Records(Ordered(entries, names), 0));
    assert Listing(entries) == Ordered(entries, names);
  }

  lemma WholeImage(data: seq<Byte>, image: seq<Byte>)
    requires At(data, 0, image) && |image| == |data|
    ensures image == data
  {
    forall i | 0 <= i < |data| ensures image[i] == data[i] {
      assert data[0 + i] == image[i];
    }
  }

  lemma EmittedIsCanonical(data: seq<Byte>, entries: Entries)
    requires Parse(data) == Ok(entries) && Newc(entries) == Ok(data)
    ensures CanonicalImage(data)
  {
    RoundTrip(entries);
    hide Newc, Records, SortedNames, Parse, CanonicalImage, Parseable, Entries8, Items8;
    NewcMeans(entries);
    ListingMeans(entries);
    SortedNamesCorrect(entries.Keys);
    var names := SortedNames(entries.Keys);
    ListedImage(data, entries, names);
    AscendsIsSorted(names);
  }

  /** The image of a listing of parseable entries, in whatever order, is canonical exactly when the listing ascends. */
  lemma ListedImage(data: seq<Byte>, entries: Entries, names: seq<string>)
    requires Parseable(entries) && Entries8(entries) && Distinct(names) && Elements(names) == entries.Keys
    requires Items8(Ordered(entries, names)) && AsciiNames(Ordered(entries, names))
    requires data == Records(Ordered(entries, names), 0) && |data| <= ARCHIVE_LIMIT
    ensures CanonicalImage(data) <==> AscendsFrom(names, 0)
    ensures Parse(data) == Ok(entries)
  {
    var items := Ordered(entries, names);
    ListReading(data, items, entries, names);
    hide *;
    assert names[..0] == [];
    Beginning(data);
    ImageCanonical(data, items, entries, names, 0, 0);
    ReadWhole(data, items, entries, names);
  }

  lemma Beginning(data: seq<Byte>)
    ensures CanonicalImage(data) <==> CanonicalFrom(data, 0, 0, LastOf([]))
  {
    hide CanonicalFrom;
  }

  lemma ListReading(data: seq<Byte>, items: seq<Item>, entries: Entries, names: seq<string>)
    requires Parseable(entries) && Distinct(names) && Elements(names) == entries.Keys && items == Ordered(entries, names)
    requires Items8(items) && AsciiNames(items) && data == Records(items, 0) && |data| <= ARCHIVE_LIMIT
    ensures ReadingList(data, items, entries, names, 0, 0) && |names| <= ENTRY_LIMIT
  {
    hide Records, GoodName;
    NamesIn(entries, names);
    DistinctSize(names);
    RecordsLong(items, 0, 0);
    assert Reading(data, items, 0, 0);
    forall i | 0 <= i < |names| ensures GoodName(names[i]) { assert names[i] in entries; }
  }

  lemma ReadWhole(data: seq<Byte>, items: seq<Item>, entries: Entries, names: seq<string>)
    requires ReadingList(data, items, entries, names, 0, 0) && |names| <= ENTRY_LIMIT && |data| <= ARCHIVE_LIMIT
    ensures Parse(data) == Ok(entries)
  {
    hide Reading, GoodName, ParseFrom;
    assert Taken(entries, names, 0) == map[];
    ParseRecords(data, items, entries, names, 0, 0, map[]);
  }

  lemma {:induction false} DistinctSize(names: seq<string>)
    requires Distinct(names)
    ensures |Elements(names)| == |names|
  {
    if names != [] {
      var rest := names[1..];
      DistinctSize(rest);
      assert names == [names[0]] + rest;
      assert Elements(names) == Elements(rest) + {names[0]};
      assert names[0] !in Elements(rest) by {
        forall i | 0 <= i < |rest| ensures rest[i] != names[0] { assert rest[i] == names[i + 1]; }
      }
    }
  }

  /** The parser does not look at the order: the entries listed in any order but the ascending one give an image that
      reads back as the same entries and that `newc` never writes. */
  lemma ReorderedImageParses(entries: Entries, names: seq<string>, image: seq<Byte>)
    requires Parseable(entries) && Entries8(entries) && Distinct(names) && Elements(names) == entries.Keys
    requires Items8(Ordered(entries, names)) && AsciiNames(Ordered(entries, names))
    requires image == Records(Ordered(entries, names), 0) && |image| <= ARCHIVE_LIMIT
    ensures Parse(image) == Ok(entries)
    ensures Newc(entries) == Ok(image) <==> Sorted(names)
  {
    ListedImage(image, entries, names);
    hide Newc, Records, Parse, CanonicalImage;
    ParsedIsEmitted(image, entries);
    AscendsIsSorted(names);
  }

  /** Two empty files. */
  const PAIR: Entries := map["a" := TRAILER_ENTRY, "b" := TRAILER_ENTRY]

  lemma ShortName(name: string)
    requires name == "a" || name == "b"
    ensures GoodName(name) && IsAscii(name)
  {
    assert AllPlain([name]) && Join([name]) == name;
    JoinedIsCanonical([name]);
    hide Canonical;
    assert |name| != |TRAILER|;
  }

  lemma FieldTextLength(vs: seq<int>)
    requires AllEightWide(vs)
    ensures |FieldText(vs)| == 8 * |vs|
  {
    FieldsParsed(FieldText(vs), 0, vs);
  }

  lemma ShortRecord(k: nat, name: string)
    requires k < 100 && IsAscii(name) && |name| <= 10
    ensures |Record(k, name, TRAILER_ENTRY)| <= 124
  {
    FieldValuesAreEightWide(k, name, TRAILER_ENTRY);
    FieldTextLength(FieldValues(k, name, TRAILER_ENTRY));
    hide FieldText, FieldValues;
    AlignedIsMultiple(|RecordHead(k, name, TRAILER_ENTRY)|);
  }

  lemma PairListed(entries: Entries, a: string, b: string)
    requires a != b && entries == map[a := TRAILER_ENTRY, b := TRAILER_ENTRY]
    ensures Distinct([b, a]) && Elements([b, a]) == entries.Keys && |entries| == 2 && Entries8(entries)
    ensures Ordered(entries, [b, a]) == [Item(b, TRAILER_ENTRY), Item(a, TRAILER_ENTRY), Item(TRAILER, TRAILER_ENTRY)]
  {
    assert Elements([b, a]) == {a, b} == entries.Keys;
    assert |entries| == |entries.Keys| && |{a, b}| == 2;
    NamesIn(entries, [b, a]);
  }

  lemma PairImage(items: seq<Item>, a: string, b: string)
    requires items == [Item(b, TRAILER_ENTRY), Item(a, TRAILER_ENTRY), Item(TRAILER, TRAILER_ENTRY)]
    requires IsAscii(a) && IsAscii(b) && |a| <= 10 && |b| <= 10
    ensures Items8(items) && AsciiNames(items) && |Records(items, 0)| <= 372 <= ARCHIVE_LIMIT
  {
    TrailerAscii();
    hide Record, IsAscii;
    ShortRecord(1, b);
    ShortRecord(2, a);
    ShortRecord(3, TRAILER);
    assert |Records(items, 3)| == 0;
    assert |Records(items, 2)| <= 124;
    assert |Records(items, 1)| <= 248;
  }

  /** The order alone makes the difference: two files listed the wrong way round. */
  lemma SwappedPairParses(entries: Entries, a: string, b: string)
    requires Before(a, b) && GoodName(a) && GoodName(b) && IsAscii(a) && IsAscii(b) && |a| <= 10 && |b| <= 10
    requires entries == map[a := TRAILER_ENTRY, b := TRAILER_ENTRY]
    ensures exists image :: Parse(image) == Ok(entries) && Newc(entries) != Ok(image)
  {
    hide *;
    PairUnsorted(a, b);
    PairListed(entries, a, b);
    PairParseable(entries, a, b);
    var items := Ordered(entries, [b, a]);
    PairImage(items, a, b);
    ReorderedImageParses(entries, [b, a], Records(items, 0));
  }

  lemma PairUnsorted(a: string, b: string)
    requires Before(a, b)
    ensures a != b && !Sorted([b, a])
  {
    hide Before;
    BeforeIrreflexive(a);
    if Before(b, a) { BeforeTransitive(a, b, a); }
    var names := [b, a];
    assert !Before(names[0], names[1]);
  }

  lemma PairParseable(entries: Entries, a: string, b: string)
    requires GoodName(a) && GoodName(b) && entries == map[a := TRAILER_ENTRY, b := TRAILER_ENTRY] && |entries| == 2
    ensures Parseable(entries)
  {
    hide GoodName;
  }

  lemma SomePairParses()
    ensures exists image :: Parse(image) == Ok(PAIR) && Newc(PAIR) != Ok(image)
  {
    ShortName("a");
    ShortName("b");
    assert Before("a", "b");
    hide *;
    SwappedPairParses(PAIR, "a", "b");
  }

  lemma TrailerAscii()
    ensures IsAscii(TRAILER) && |TRAILER| == 10
  {
  }

  // ---------------------------------------------------------------------------------------------
  // The bytes of a record
  // ---------------------------------------------------------------------------------------------

  /** A record as the newc format lays it out: `070701`, then in eight characters each the inode number, the mode, owner
      and group zero, the number of links, time zero, the body's size, device zero, the device numbers of the entry
      itself, the size of the name with its NUL, and checksum zero; then name and body, each from a multiple of four
      on. */
  ghost predicate LaidOut(data: seq<Byte>, inode: nat, name: string, e: Entry, links: nat)
    requires IsAscii(name)
  {
    && At(data, 0, [0x30, 0x37, 0x30, 0x37, 0x30, 0x31])
    && At(data, 6, Field(inode)) && At(data, 14, Field(e.mode)) && At(data, 22, Field(0)) && At(data, 30, Field(0))
    && At(data, 38, Field(links)) && At(data, 46, Field(0)) && At(data, 54, Field(|e.body|))
    && At(data, 62, Field(0)) && At(data, 70, Field(0)) && At(data, 78, Field(e.major)) && At(data, 86, Field(e.minor))
    && At(data, 94, Field(|name| + 1)) && At(data, 102, Field(0)) && At(data, 110, Encode(name) + [0])
    && At(data, Align4(111 + |name|), e.body) && |data| == Align4(111 + |name|) + Align4(|e.body|)
  }

  /** Every record is laid out so, with two links for a directory, whose type is four, and one for anything else. */
  lemma RecordLayout(inode: nat, name: string, e: Entry, above: nat, kind: nat, permissions: nat)
    requires Fits(inode, name, e)
    requires e.mode == above * 0x1_0000 + kind * 0x1000 + permissions && kind < 0x10 && permissions < 0x1000
    ensures LaidOut(Record(inode, name, e), inode, name, e, if kind == 4 then 2 else 1)
  {
    assert IsAscii(name);
    hide *;
    FieldValuesAreEightWide(inode, name, e);
    DirectoryType(above, kind, permissions);
    HeadParts(inode, name, e);
    FieldsInOrder(Record(inode, name, e), inode, name, e, if kind == 4 then 2 else 1);
  }

  lemma FieldsInOrder(data: seq<Byte>, inode: nat, name: string, e: Entry, links: nat)
    requires IsAscii(name) && AllEightWide(FieldValues(inode, name, e)) && links == (if IsDirectory(e.mode) then 2 else 1)
    requires At(data, 0, [0x30, 0x37, 0x30, 0x37, 0x30, 0x31]) && At(data, 6, FieldText(FieldValues(inode, name, e)))
    requires At(data, 110, Encode(name) + [0])
    requires At(data, Align4(111 + |name|), e.body) && |data| == Align4(111 + |name|) + Align4(|e.body|)
    ensures LaidOut(data, inode, name, e, links)
  {
    hide At, Field, FieldText, AllEightWide, Align4, Encode, IsDirectory, FieldValues;
    var vs := FieldValues(inode, name, e);
    ValuesInOrder(inode, name, e);
    FieldAt(data, 6, vs, 0);
    FieldAt(data, 6, vs, 1);
    FieldAt(data, 6, vs, 2);
    FieldAt(data, 6, vs, 3);
    FieldAt(data, 6, vs, 4);
    FieldAt(data, 6, vs, 5);
    FieldAt(data, 6, vs, 6);
    FieldAt(data, 6, vs, 7);
    FieldAt(data, 6, vs, 8);
    FieldAt(data, 6, vs, 9);
    FieldAt(data, 6, vs, 10);
    FieldAt(data, 6, vs, 11);
    FieldAt(data, 6, vs, 12);
  }

  lemma ValuesInOrder(inode: nat, name: string, e: Entry)
    ensures var vs := FieldValues(inode, name, e);
            && |vs| == 13 && vs[0] == inode && vs[1] == e.mode && vs[2] == 0 && vs[3] == 0
            && vs[4] == (if IsDirectory(e.mode) then 2 else 1) && vs[5] == 0 && vs[6] == |e.body|
            && vs[7] == 0 && vs[8] == 0 && vs[9] == e.major && vs[10] == e.minor && vs[11] == |name| + 1 && vs[12] == 0
  {
    hide IsDirectory;
  }

  lemma HeadParts(inode: nat, name: string, e: Entry)
    requires Fits(inode, name, e)
    ensures var data := Record(inode, name, e);
            && At(data, 0, [0x30, 0x37, 0x30, 0x37, 0x30, 0x31]) && At(data, 6, FieldText(FieldValues(inode, name, e)))
            && At(data, 110, Encode(name) + [0])
            && At(data, Align4(111 + |name|), e.body) && |data| == Align4(111 + |name|) + Align4(|e.body|)
  {
    var data, head := Record(inode, name, e), RecordHead(inode, name, e);
    WholeIsAt(data);
    HeadLength(inode, name, e);
    hide FieldText, PadBytes, Encode, FieldValues, At, RecordHead, Align4;
    TailAt(data, 0, |head|, Align4(|head|), Align4(|head|) + |e.body|, head, PadBytes(|head|), e.body, PadBytes(|e.body|));
    HeadSplit(data, inode, name, e);
  }

  lemma HeadLength(inode: nat, name: string, e: Entry)
    requires Fits(inode, name, e)
    ensures |RecordHead(inode, name, e)| == 111 + |name| && |FieldText(FieldValues(inode, name, e))| == 104
  {
    FieldValuesAreEightWide(inode, name, e);
    hide FieldText, FieldValues, AllEightWide;
    FieldTextLength(FieldValues(inode, name, e));
  }

  lemma HeadSplit(data: seq<Byte>, inode: nat, name: string, e: Entry)
    requires Fits(inode, name, e) && At(data, 0, RecordHead(inode, name, e))
    ensures At(data, 0, [0x30, 0x37, 0x30, 0x37, 0x30, 0x31]) && At(data, 6, FieldText(FieldValues(inode, name, e)))
    ensures At(data, 110, Encode(name) + [0])
  {
    HeadLength(inode, name, e);
    hide FieldText, FieldValues, Encode, At;
    var text := FieldText(FieldValues(inode, name, e));
    AtSplit(data, 0, MAGIC, text + (Encode(name) + [0]));
    AtSplit(data, 6, text, Encode(name) + [0]);
  }

  lemma WholeIsAt(data: seq<Byte>)
    ensures At(data, 0, data)
  {
  }
}
