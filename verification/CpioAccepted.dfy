/**
 Which bytes `parse_newc` takes, and as what: exactly the chains of well-formed records that end in a trailer at the end
 of the data, however their numbers are spelled.
 */
module CpioAccepted {
  import opened Prelude
  import opened PosixPath
  import opened Text
  import opened Cpio
  import opened CpioCanonical

  // ---------------------------------------------------------------------------------------------
  // One record
  // ---------------------------------------------------------------------------------------------

  /** Python's slices: a negative index counts from the end, and an index beyond either end stands for that end. */
  lemma SliceExact(data: seq<Byte>, lo: int, hi: int)
    ensures 0 <= lo <= hi <= |data| ==> Slice(data, lo, hi) == data[lo..hi]
    ensures 0 <= hi <= lo ==> Slice(data, lo, hi) == []
    ensures -|data| <= lo < 0 ==> Slice(data, lo, hi) == Slice(data, |data| + lo, hi)
    ensures -|data| <= hi < 0 ==> Slice(data, lo, hi) == Slice(data, lo, |data| + hi)
    ensures lo < -|data| ==> Slice(data, lo, hi) == Slice(data, 0, hi)
    ensures hi < -|data| ==> Slice(data, lo, hi) == []
    ensures hi > |data| ==> Slice(data, lo, hi) == Slice(data, lo, |data|)
  {
  }

  /** What `text` spells in base sixteen. */
  ghost predicate SpellsNumber(text: seq<Byte>, v: int) {
    exists before, sign, prefix, body, after ::
      Spells(text, before, sign, prefix, body, after) && v == if sign == [0x2d] then -Number(body) else Number(body)
  }

  /** The multiple of four that `pos` is rounded up to. */
  predicate Rounded(pos: int, up: int) {
    pos <= up < pos + 4 && up % 4 == 0
  }

  predicate NoOther(s: seq<Byte>, b: Byte) {
    forall x :: x in s ==> x == b
  }

  ghost predicate NumbersAt(data: seq<Byte>, pos: int, values: seq<int>) {
    forall i {:trigger values[i]} :: 0 <= i < |values| ==> SpellsNumber(Slice(data, pos + 8 * i, pos + 8 * i + 8), values[i])
  }

  predicate NameAt(data: seq<Byte>, pos: int, size: int, name: string) {
    && 1 <= size <= 256 && pos + size <= |data|
    && IsAscii(name) && '\0' !in name && Slice(data, pos, pos + size) == Encode(name) + [0]
  }

  /** Zeros up to a multiple of four, the body, and zeros again. */
  ghost predicate BodyAt(data: seq<Byte>, pos: int, size: int, body: seq<Byte>, next: int) {
    exists start :: Rounded(pos, start) && BodyFrom(data, pos, start, size, body, next)
  }

  predicate BodyFrom(data: seq<Byte>, pos: int, start: int, size: int, body: seq<Byte>, next: int) {
    && Rounded(start + size, next) && next <= |data| && body == Slice(data, start, start + size)
    && NoOther(Slice(data, pos, start), 0) && NoOther(Slice(data, start + size, next), 0)
  }

  /** The fields that do not depend on the entry, and the link count, which follows from the file type. */
  predicate Settled(fields: seq<int>, inode: nat)
    requires |fields| == 13
  {
    && fields[0] == inode + 1 && fields[1] >= 0 && fields[4] == (if fields[1] / 0x1000 % 0x10 == 4 then 2 else 1)
    && fields[2] == fields[3] == fields[5] == fields[7] == fields[8] == fields[12] == 0
  }

  /** Room for a header, and `070701` at its start. */
  predicate Marked(data: seq<Byte>, pos: int) {
    pos + 110 <= |data| && Slice(data, pos, pos + 6) == [0x30, 0x37, 0x30, 0x37, 0x30, 0x31]
  }

  /** `p` is written at `pos`, as record number `inode`. */
  ghost predicate RecordAt(data: seq<Byte>, pos: int, inode: nat, p: Parsed) {
    && Marked(data, pos)
    && |p.fields| == 13 && NumbersAt(data, pos + 6, p.fields) && Settled(p.fields, inode)
    && NameAt(data, pos + 110, p.fields[11], p.name)
    && BodyAt(data, pos + 110 + p.fields[11], p.fields[6], p.body, p.next)
  }

  lemma NumberRead(text: seq<Byte>, v: int)
    ensures ParseHex(text) == Some(v) <==> SpellsNumber(text, v)
  {
    hide ParseHex, Spells, Number;
    ParseHexExact(text, v);
  }

  lemma {:induction false} NumbersRead(data: seq<Byte>, pos: int, values: seq<int>)
    ensures FieldsAt(data, pos, |values|) == Some(values) <==> NumbersAt(data, pos, values)
    decreases values
  {
    hide ParseHex, SpellsNumber, Slice;
    if values != [] {
      NumbersRead(data, pos + 8, values[1..]);
      NumberRead(Slice(data, pos, pos + 8), values[0]);
      NumbersSplit(data, pos, values);
      assert values == [values[0]] + values[1..];
    }
  }

  lemma NumbersSplit(data: seq<Byte>, pos: int, values: seq<int>)
    requires values != []
    ensures NumbersAt(data, pos, values) <==>
            SpellsNumber(Slice(data, pos, pos + 8), values[0]) && NumbersAt(data, pos + 8, values[1..])
  {
    hide SpellsNumber, Slice;
    if NumbersAt(data, pos, values) {
      forall i | 0 <= i < |values[1..]|
        ensures SpellsNumber(Slice(data, pos + 8 + 8 * i, pos + 8 + 8 * i + 8), values[1..][i])
      {
        assert values[1..][i] == values[i + 1];
      }
    }
    if SpellsNumber(Slice(data, pos, pos + 8), values[0]) && NumbersAt(data, pos + 8, values[1..]) {
      forall i | 0 <= i < |values| ensures SpellsNumber(Slice(data, pos + 8 * i, pos + 8 * i + 8), values[i]) {
        if i > 0 { assert values[i] == values[1..][i - 1]; }
      }
    }
  }

  lemma NameRead(data: seq<Byte>, pos: int, size: int, name: string)
    ensures ParseName(data, pos, size) == Ok(name) <==> NameAt(data, pos, size, name)
  {
    var bytes := Slice(data, pos, pos + size);
    hide Slice, Decode;
    if bytes != [] {
      var front := bytes[..|bytes| - 1];
      assert bytes == front + [bytes[|bytes| - 1]];
      DecodeIs(front);
      if IsAscii(name) { DecodeEncode(name); }
      if NameAt(data, pos, size, name) { assert front == Encode(name); }
    }
  }

  lemma RoundedIs(pos: int, up: int)
    ensures Rounded(pos, up) <==> up == RoundUp(pos)
  {
    RoundUpIsModulo(pos);
    hide RoundUp;
  }

  lemma ZerosAre(s: seq<Byte>)
    ensures AllZero(s) <==> NoOther(s, 0)
  {
    if NoOther(s, 0) {
      forall i | 0 <= i < |s| ensures s[i] == 0 { assert s[i] in s; }
    }
  }

  lemma BodyRead(data: seq<Byte>, pos: int, size: int, body: seq<Byte>, next: int)
    ensures ParseBody(data, pos, size) == Ok(Framed(body, next)) <==> BodyAt(data, pos, size, body, next)
  {
    var start := RoundUp(pos);
    BodyReadFrom(data, pos, start, size, body, next);
    RoundedIs(pos, start);
    hide ParseBody, BodyFrom, RoundUp, Rounded;
    forall s | Rounded(pos, s) ensures s == start { RoundedIs(pos, s); }
  }

  lemma BodyReadFrom(data: seq<Byte>, pos: int, start: int, size: int, body: seq<Byte>, next: int)
    requires start == RoundUp(pos)
    ensures ParseBody(data, pos, size) == Ok(Framed(body, next)) <==> BodyFrom(data, pos, start, size, body, next)
  {
    var end := RoundUp(start + size);
    RoundedIs(start + size, end);
    RoundedIs(start + size, next);
    ZerosAre(Slice(data, pos, start));
    ZerosAre(Slice(data, start + size, end));
    hide Slice, RoundUp, AllZero, NoOther;
  }

  lemma SettledIs(fields: seq<int>, inode: nat)
    requires |fields| == 13
    ensures fields[1] >= 0 && Deterministic(fields, inode) <==> Settled(fields, inode)
  {
  }

  lemma MarkedIs(data: seq<Byte>, pos: int, inode: nat)
    ensures ParseRecord(data, pos, inode) == if Marked(data, pos) then ParseMarked(data, pos, inode) else Err(Header)
  {
    hide Slice, ParseMarked;
  }

  lemma MarkedRead(data: seq<Byte>, pos: int, inode: nat, p: Parsed)
    requires ParseMarked(data, pos, inode) == Ok(p)
    ensures |p.fields| == 13 && NumbersAt(data, pos + 6, p.fields) && Settled(p.fields, inode)
    ensures NameAt(data, pos + 110, p.fields[11], p.name)
    ensures BodyAt(data, pos + 110 + p.fields[11], p.fields[6], p.body, p.next)
  {
    hide Slice, FieldsAt, NumbersAt, ParseName, NameAt, ParseBody, BodyAt, Deterministic, Settled;
    NumbersRead(data, pos + 6, p.fields);
    NameRead(data, pos + 110, p.fields[11], p.name);
    BodyRead(data, pos + 110 + p.fields[11], p.fields[6], p.body, p.next);
    SettledIs(p.fields, inode);
  }

  lemma MarkedReads(data: seq<Byte>, pos: int, inode: nat, p: Parsed)
    requires |p.fields| == 13 && NumbersAt(data, pos + 6, p.fields) && Settled(p.fields, inode)
    requires NameAt(data, pos + 110, p.fields[11], p.name)
    requires BodyAt(data, pos + 110 + p.fields[11], p.fields[6], p.body, p.next)
    ensures ParseMarked(data, pos, inode) == Ok(p)
  {
    hide Slice, FieldsAt, NumbersAt, ParseName, NameAt, ParseBody, BodyAt, Deterministic, Settled;
    NumbersRead(data, pos + 6, p.fields);
    NameRead(data, pos + 110, p.fields[11], p.name);
    BodyRead(data, pos + 110 + p.fields[11], p.fields[6], p.body, p.next);
    SettledIs(p.fields, inode);
  }

  /** What the parser reads as a record is what is written there. */
  lemma RecordExact(data: seq<Byte>, pos: int, inode: nat, p: Parsed)
    ensures ParseRecord(data, pos, inode) == Ok(p) <==> RecordAt(data, pos, inode, p)
  {
    hide ParseRecord, ParseMarked, Marked, NumbersAt, NameAt, BodyAt, Settled;
    MarkedIs(data, pos, inode);
    if ParseMarked(data, pos, inode) == Ok(p) { MarkedRead(data, pos, inode, p); }
    if RecordAt(data, pos, inode, p) { MarkedReads(data, pos, inode, p); }
  }

  // ---------------------------------------------------------------------------------------------
  // The archive
  // ---------------------------------------------------------------------------------------------

  /** Where record `i` starts: where the one before it ends. */
  function StartOf(records: seq<Parsed>, i: nat): int
    requires i <= |records|
  {
    if i == 0 then 0 else records[i - 1].next
  }

  ghost predicate InPlace(data: seq<Byte>, records: seq<Parsed>, i: nat)
    requires i < |records|
  {
    RecordAt(data, StartOf(records, i), i, records[i])
  }

  ghost predicate Chained(data: seq<Byte>, records: seq<Parsed>) {
    forall i :: 0 <= i < |records| ==> InPlace(data, records, i)
  }

  predicate Named(name: string) {
    name != "TRAILER!!!" && (name == "." || Canonical(name))
  }

  ghost predicate NamedApart(records: seq<Parsed>) {
    && (forall i :: 0 <= i < |records| ==> Named(records[i].name))
    && forall i, j :: 0 <= i < j < |records| ==> records[i].name != records[j].name
  }

  ghost predicate HoldsRecord(entries: Entries, p: Parsed) {
    |p.fields| == 13 && p.name in entries && entries[p.name] == Entry(p.fields[1], p.body, p.fields[9], p.fields[10])
  }

  ghost predicate HasName(records: seq<Parsed>, name: string) {
    exists i :: 0 <= i < |records| && records[i].name == name
  }

  /** `entries` holds each record under its name, and nothing else. */
  ghost predicate Holds(entries: Entries, records: seq<Parsed>) {
    && (forall i :: 0 <= i < |records| ==> HoldsRecord(entries, records[i]))
    && forall n :: n in entries ==> HasName(records, n)
  }

  predicate Closes(data: seq<Byte>, p: Parsed) {
    p.name == "TRAILER!!!" && |p.fields| == 13 && p.fields[1..] == [0, 0, 0, 1, 0, 0, 0, 0, 0, 0, 11, 0] && p.next == |data|
  }

  /** At most 64 records under distinct canonical names, each where the one before it ends, and a trailer up to the end. */
  ghost predicate Archive(data: seq<Byte>, records: seq<Parsed>, trailer: Parsed) {
    |records| <= 64 && NamedApart(records) && Chained(data, records + [trailer]) && Closes(data, trailer)
  }

  /** What the parser has collected after `records`. */
  ghost predicate Collected(data: seq<Byte>, records: seq<Parsed>, entries: Entries) {
    && Chained(data, records) && NamedApart(records) && Holds(entries, records) && |entries| == |records| <= 64
  }

  lemma ChainedNext(data: seq<Byte>, records: seq<Parsed>, p: Parsed)
    ensures Chained(data, records + [p]) <==>
            Chained(data, records) && RecordAt(data, StartOf(records, |records|), |records|, p)
  {
    hide RecordAt;
    var more := records + [p];
    assert forall i :: 0 <= i <= |records| ==> StartOf(more, i) == StartOf(records, i);
    if Chained(data, more) {
      forall i | 0 <= i < |records| ensures InPlace(data, records, i) { assert InPlace(data, more, i); }
      assert InPlace(data, more, |records|);
    }
    if Chained(data, records) && RecordAt(data, StartOf(records, |records|), |records|, p) {
      forall i | 0 <= i < |more| ensures InPlace(data, more, i) {
        if i < |records| { assert InPlace(data, records, i); }
      }
    }
  }

  lemma NamesNext(records: seq<Parsed>, p: Parsed)
    ensures NamedApart(records + [p]) <==> NamedApart(records) && Named(p.name) && !HasName(records, p.name)
  {
    hide Named;
    var more := records + [p];
    assert more[|records|] == p && forall i :: 0 <= i < |records| ==> more[i] == records[i];
  }

  lemma HoldsNext(entries: Entries, records: seq<Parsed>, p: Parsed)
    requires Holds(entries, records) && |p.fields| == 13 && p.name !in entries
    ensures Holds(entries[p.name := EntryOf(p)], records + [p])
  {
    var next, more := entries[p.name := EntryOf(p)], records + [p];
    forall i | 0 <= i < |more| ensures HoldsRecord(next, more[i]) {
      if i < |records| { assert HoldsRecord(entries, records[i]); }
    }
    forall n | n in next ensures HasName(more, n) {
      if n == p.name {
        assert more[|records|].name == n;
      } else {
        assert HasName(records, n);
        var i :| 0 <= i < |records| && records[i].name == n;
        assert more[i].name == n;
      }
    }
  }

  lemma HoldsOne(a: Entries, b: Entries, records: seq<Parsed>)
    requires Holds(a, records) && Holds(b, records)
    ensures a == b
  {
    HoldsWithin(a, b, records);
    HoldsWithin(b, a, records);
  }

  lemma HoldsWithin(a: Entries, b: Entries, records: seq<Parsed>)
    requires Holds(a, records) && Holds(b, records)
    ensures forall n :: n in a ==> n in b && a[n] == b[n]
  {
    forall n | n in a ensures n in b && a[n] == b[n] {
      assert HasName(records, n);
      var i :| 0 <= i < |records| && records[i].name == n;
      assert HoldsRecord(a, records[i]) && HoldsRecord(b, records[i]);
    }
  }

  lemma NewName(entries: Entries, records: seq<Parsed>, name: string)
    requires Holds(entries, records)
    ensures name in entries <==> HasName(records, name)
  {
    if HasName(records, name) {
      var i :| 0 <= i < |records| && records[i].name == name;
      assert HoldsRecord(entries, records[i]);
    }
  }

  lemma ClosesIs(data: seq<Byte>, p: Parsed)
    requires |p.fields| == 13 && p.name == TRAILER
    ensures Closes(data, p) <==> !(p.fields[1..] != TRAILER_FIELDS || p.next != |data|)
  {
  }

  lemma StepTrailer(data: seq<Byte>, pos: int, k: nat, entries: Entries, p: Parsed)
    requires ParseRecord(data, pos, k) == Ok(p) && |p.fields| == 13 && p.name == TRAILER && pos < |data|
    ensures Closes(data, p) ==> ParseFrom(data, pos, k, entries) == Ok(entries)
    ensures !Closes(data, p) ==> ParseFrom(data, pos, k, entries).Err?
  {
    hide ParseRecord, Closes, Canonical;
    ClosesIs(data, p);
  }

  lemma StepRecord(data: seq<Byte>, pos: int, k: nat, entries: Entries, p: Parsed)
    requires ParseRecord(data, pos, k) == Ok(p) && |p.fields| == 13 && p.name != TRAILER && pos < |data| && |entries| <= 64
    ensures if p.name !in entries && Named(p.name) && |entries| < 64
            then ParseFrom(data, pos, k, entries) == ParseFrom(data, p.next, k + 1, entries[p.name := EntryOf(p)])
            else ParseFrom(data, pos, k, entries).Err?
  {
    hide ParseRecord, Canonical;
  }

  lemma RecordFits(data: seq<Byte>, pos: int, k: nat, p: Parsed)
    requires RecordAt(data, pos, k, p)
    ensures ParseRecord(data, pos, k) == Ok(p) && |p.fields| == 13 && pos < |data|
  {
    hide ParseRecord, NumbersAt, NameAt, BodyAt, Settled;
    RecordExact(data, pos, k, p);
  }

  lemma CollectedNext(data: seq<Byte>, records: seq<Parsed>, entries: Entries, p: Parsed)
    requires Collected(data, records, entries) && RecordAt(data, StartOf(records, |records|), |records|, p)
    requires p.name !in entries && Named(p.name) && |entries| < 64 && |p.fields| == 13
    ensures Collected(data, records + [p], entries[p.name := EntryOf(p)])
  {
    hide RecordAt, Chained, NamedApart, Holds, HasName, Named;
    ChainedNext(data, records, p);
    NamesNext(records, p);
    NewName(entries, records, p.name);
    HoldsNext(entries, records, p);
  }

  /** One more record: the parser refuses it, ends with it, or goes on. */
  lemma TakeRecord(data: seq<Byte>, records: seq<Parsed>, entries: Entries, p: Parsed)
    requires Collected(data, records, entries) && RecordAt(data, StartOf(records, |records|), |records|, p)
    ensures |p.fields| == 13
    ensures var rest := ParseFrom(data, StartOf(records, |records|), |records|, entries);
            var next := entries[p.name := EntryOf(p)];
            if p.name == "TRAILER!!!" then
              if Closes(data, p) then rest == Ok(entries) else rest.Err?
            else if |records| < 64 && NamedApart(records + [p]) then
              Collected(data, records + [p], next) && rest == ParseFrom(data, p.next, |records| + 1, next)
            else
              rest.Err?
  {
    hide ParseFrom, RecordAt, ParseRecord, Chained, NamedApart, Holds, HasName, Named, Closes;
    var pos := StartOf(records, |records|);
    RecordFits(data, pos, |records|, p);
    if p.name == TRAILER {
      StepTrailer(data, pos, |records|, entries, p);
    } else {
      StepRecord(data, pos, |records|, entries, p);
      NamesNext(records, p);
      NewName(entries, records, p.name);
      if p.name !in entries && Named(p.name) && |entries| < 64 { CollectedNext(data, records, entries, p); }
    }
  }

  lemma NothingElse(data: seq<Byte>, pos: int, k: nat, entries: Entries)
    requires ParseFrom(data, pos, k, entries).Ok?
    ensures ParseRecord(data, pos, k).Ok?
  {
    hide ParseRecord;
  }

  lemma {:induction false} AcceptedIsArchive(data: seq<Byte>, records: seq<Parsed>, soFar: Entries, entries: Entries)
    returns (all: seq<Parsed>, trailer: Parsed)
    requires Collected(data, records, soFar)
    requires ParseFrom(data, StartOf(records, |records|), |records|, soFar) == Ok(entries)
    ensures Archive(data, all, trailer) && Holds(entries, all)
    decreases 64 - |records|
  {
    hide ParseFrom, ParseRecord, RecordAt, Chained, NamedApart, Holds, Closes;
    var pos := StartOf(records, |records|);
    NothingElse(data, pos, |records|, soFar);
    var p := ParseRecord(data, pos, |records|).value;
    RecordExact(data, pos, |records|, p);
    TakeRecord(data, records, soFar, p);
    if p.name == "TRAILER!!!" {
      ChainedNext(data, records, p);
      all, trailer := records, p;
    } else {
      assert StartOf(records + [p], |records| + 1) == p.next;
      all, trailer := AcceptedIsArchive(data, records + [p], soFar[p.name := EntryOf(p)], entries);
    }
  }

  lemma ArchiveAt(data: seq<Byte>, records: seq<Parsed>, trailer: Parsed, i: nat)
    requires Archive(data, records, trailer) && i <= |records|
    ensures RecordAt(data, StartOf(records, i), i, (records + [trailer])[i])
    ensures i < |records| ==> NamedApart(records[..i] + [records[i]]) && Named(records[i].name)
    ensures StartOf(records[..i], i) == StartOf(records, i)
  {
    hide RecordAt, Named, Closes;
    assert InPlace(data, records + [trailer], i);
  }

  lemma {:induction false} ArchiveIsAccepted(data: seq<Byte>, records: seq<Parsed>, trailer: Parsed, i: nat, soFar: Entries,
                                             entries: Entries)
    requires Archive(data, records, trailer) && Holds(entries, records) && i <= |records|
    requires Collected(data, records[..i], soFar)
    ensures ParseFrom(data, StartOf(records, i), i, soFar) == Ok(entries)
    decreases |records| - i
  {
    hide ParseFrom, RecordAt, Chained, NamedApart, Holds;
    ArchiveAt(data, records, trailer, i);
    if i == |records| {
      assert records[..i] == records;
      TakeRecord(data, records, soFar, trailer);
      HoldsOne(soFar, entries, records);
    } else {
      var p := records[i];
      assert records[..i] + [p] == records[..i + 1];
      TakeRecord(data, records[..i], soFar, p);
      ArchiveIsAccepted(data, records, trailer, i + 1, soFar[p.name := EntryOf(p)], entries);
    }
  }

  /** The parser takes exactly the archives of at most eight mebibytes, and gives exactly what they hold. */
  lemma ParseExact(data: seq<Byte>, entries: Entries)
    ensures Parse(data) == Ok(entries) <==>
            |data| <= 0x80_0000 && exists records, trailer :: Archive(data, records, trailer) && Holds(entries, records)
  {
    hide ParseFrom, Archive;
    assert Collected(data, [], map[]);
    if Parse(data) == Ok(entries) {
      var records, trailer := AcceptedIsArchive(data, [], map[], entries);
    }
    if |data| <= 0x80_0000 && exists records, trailer :: Archive(data, records, trailer) && Holds(entries, records) {
      var records, trailer :| Archive(data, records, trailer) && Holds(entries, records);
      assert records[..0] == [];
      ArchiveIsAccepted(data, records, trailer, 0, map[], entries);
    }
  }
}
