/** Parsing undoes emitting, and the validator accepts one image only. */
module CpioRoundTrip {
  import opened Prelude
  import opened PosixPath
  import opened Text
  import opened Cpio

  // ---------------------------------------------------------------------------------------------
  // One record
  // ---------------------------------------------------------------------------------------------

  lemma SliceAt(data: seq<Byte>, at: nat, part: seq<Byte>)
    requires At(data, at, part)
    ensures Slice(data, at, at + |part|) == part
  {
    AtSlice(data, at, part);
  }

  lemma AtBounds(data: seq<Byte>, at: nat, part: seq<Byte>)
    requires At(data, at, part)
    ensures at + |part| <= |data|
  {
  }

  ghost predicate AllEightWide(vs: seq<int>) {
    forall i :: 0 <= i < |vs| ==> EightWide(vs[i])
  }

  lemma {:induction false} FieldsParsed(data: seq<Byte>, pos: nat, vs: seq<int>)
    requires AllEightWide(vs) && At(data, pos, FieldText(vs))
    ensures |FieldText(vs)| == 8 * |vs| && FieldsAt(data, pos, |vs|) == Some(vs)
    decreases |vs|
  {
    hide ParseHex, Field, Slice, At;
    if vs != [] {
      FieldRoundTrip(vs[0]);
      AtSplit(data, pos, Field(vs[0]), FieldText(vs[1..]));
      SliceAt(data, pos, Field(vs[0]));
      FieldsParsed(data, pos + 8, vs[1..]);
      assert [vs[0]] + vs[1..] == vs;
    }
  }

  lemma NameParsed(data: seq<Byte>, pos: nat, name: string)
    requires IsAscii(name) && At(data, pos, Encode(name) + [0])
    ensures ParseName(data, pos, |name| + 1) ==
            if |name| + 1 > NAME_LIMIT then Err(NameRange) else if '\0' in name then Err(NameTermination) else Ok(name)
  {
    hide Slice, Decode, At;
    var bytes := Encode(name) + [0];
    AtBounds(data, pos, bytes);
    SliceAt(data, pos, bytes);
    assert bytes[..|bytes| - 1] == Encode(name);
    assert '\0' in name <==> 0 in Encode(name) by {
      if '\0' in name { var i :| 0 <= i < |name| && name[i] == '\0'; assert Encode(name)[i] == 0; }
    }
    DecodeEncode(name);
  }

  lemma PadIsZero(n: nat)
    ensures AllZero(PadBytes(n))
  {
  }

  lemma BodyParsed(data: seq<Byte>, pos: nat, start: nat, stop: nat, next: nat, body: seq<Byte>)
    requires start == Align4(pos) && stop == start + |body| && next == Align4(stop)
    requires At(data, pos, PadBytes(pos)) && At(data, start, body) && At(data, stop, PadBytes(stop))
    ensures ParseBody(data, pos, |body|) == Ok(Framed(body, next))
  {
    PadIsZero(pos);
    PadIsZero(stop);
    SliceAt(data, pos, PadBytes(pos));
    SliceAt(data, start, body);
    SliceAt(data, stop, PadBytes(stop));
    BodyIs(data, pos, start, stop, next, body);
  }

  lemma BodyIs(data: seq<Byte>, pos: int, start: int, stop: int, next: int, body: seq<Byte>)
    requires start == RoundUp(pos) && stop == start + |body| && next == RoundUp(stop) && next <= |data|
    requires AllZero(Slice(data, pos, start)) && Slice(data, start, stop) == body && AllZero(Slice(data, stop, next))
    ensures ParseBody(data, pos, |body|) == Ok(Framed(body, next))
  {
  }

  /** An entry whose mode `S_ISDIR` takes and whose numbers fit the eight characters of a field. */
  predicate Fields8(e: Entry) {
    WordMode(e.mode) && EightWide(e.major) && EightWide(e.minor)
  }

  ghost predicate Entries8(entries: Entries) {
    forall n :: n in entries ==> Fields8(entries[n])
  }

  ghost predicate Items8(items: seq<Item>) {
    forall i :: 0 <= i < |items| ==> Fields8(items[i].entry)
  }

  ghost predicate Fits(inode: nat, name: string, e: Entry) {
    Fields8(e) && IsAscii(name) && inode < TWO_TO_THE_32 && |name| + 1 < TWO_TO_THE_32 && |e.body| < TWO_TO_THE_32
  }

  lemma FieldValuesAreEightWide(inode: nat, name: string, e: Entry)
    requires Fits(inode, name, e)
    ensures AllEightWide(FieldValues(inode, name, e))
  {
  }

  /** Where the parts of a record stand. */
  lemma HeadAt(data: seq<Byte>, pos: nat, inode: nat, name: string, e: Entry)
    requires Fits(inode, name, e) && At(data, pos, RecordHead(inode, name, e))
    ensures |RecordHead(inode, name, e)| == HEADER_BYTES + |name| + 1
    ensures Slice(data, pos, pos + 6) == MAGIC
    ensures FieldsAt(data, pos + 6, 13) == Some(FieldValues(inode, name, e))
    ensures At(data, pos + HEADER_BYTES, Encode(name) + [0])
  {
    var vs, text := FieldValues(inode, name, e), Encode(name) + [0];
    FieldValuesAreEightWide(inode, name, e);
    AtSplit(data, pos, MAGIC, FieldText(vs) + text);
    SliceAt(data, pos, MAGIC);
    AtSplit(data, pos + 6, FieldText(vs), text);
    FieldsParsed(data, pos + 6, vs);
  }

  lemma AlignStep(pos: nat, n: nat, end: nat, next: nat)
    requires Aligned(pos) && end == pos + n && next == pos + Align4(n)
    ensures Align4(end) == next && PadBytes(end) == PadBytes(n) && Aligned(next)
  {
    AlignShift(pos, n);
    PadShift(pos, n);
    AlignTwice(pos + n);
  }

  lemma TailAt(data: seq<Byte>, pos: nat, mid: nat, start: nat, stop: nat,
               head: seq<Byte>, pad: seq<Byte>, body: seq<Byte>, last: seq<Byte>)
    requires At(data, pos, head + (pad + (body + last)))
    requires mid == pos + |head| && start == mid + |pad| && stop == start + |body|
    ensures At(data, pos, head) && At(data, mid, pad) && At(data, start, body) && At(data, stop, last)
  {
    AtSplit(data, pos, head, pad + (body + last));
    AtSplit(data, mid, pad, body + last);
    AtSplit(data, start, body, last);
  }

  lemma TailParsed(data: seq<Byte>, pos: nat, mid: nat, start: nat, stop: nat, next: nat, head: seq<Byte>, body: seq<Byte>)
    requires Aligned(pos) && At(data, pos, head + (PadBytes(|head|) + (body + PadBytes(|body|))))
    requires mid == pos + |head| && start == pos + Align4(|head|) && stop == start + |body| && next == start + Align4(|body|)
    ensures At(data, pos, head) && ParseBody(data, mid, |body|) == Ok(Framed(body, next))
  {
    hide ParseBody, Align4, PadBytes, At;
    AlignStep(pos, |head|, mid, start);
    AlignStep(start, |body|, stop, next);
    TailAt(data, pos, mid, start, stop, head, PadBytes(|head|), body, PadBytes(|body|));
    BodyParsed(data, mid, start, stop, next, body);
  }

  /** How a record is put together from its parts. */
  lemma RecordIs(data: seq<Byte>, pos: int, named: int, mid: int, inode: nat, vs: seq<int>, body: seq<Byte>, next: int)
    requires pos + HEADER_BYTES <= |data| && Slice(data, pos, pos + 6) == MAGIC
    requires FieldsAt(data, pos + 6, 13) == Some(vs) && |vs| == 13 && vs[1] >= 0 && Deterministic(vs, inode)
    requires named == pos + HEADER_BYTES && mid == named + vs[11]
    requires ParseBody(data, mid, vs[6]) == Ok(Framed(body, next))
    ensures ParseName(data, named, vs[11]).Err? ==> ParseRecord(data, pos, inode).Err?
    ensures ParseName(data, named, vs[11]).Ok? ==>
              ParseRecord(data, pos, inode) == Ok(Parsed(ParseName(data, named, vs[11]).value, vs, body, next))
  {
    hide ParseBody, ParseName, Slice, FieldsAt, Deterministic;
  }

  lemma RecordLength(pos: nat, inode: nat, name: string, e: Entry, next: nat)
    requires IsAscii(name) && Aligned(pos) && next == pos + |Record(inode, name, e)|
    ensures |Record(inode, name, e)| == Align4(|RecordHead(inode, name, e)|) + Align4(|e.body|)
    ensures Aligned(next)
  {
    hide RecordHead;
    var h := |RecordHead(inode, name, e)|;
    AlignStep(pos, h, pos + h, pos + Align4(h));
    AlignStep(pos + Align4(h), |e.body|, pos + Align4(h) + |e.body|, next);
  }

  /** Reading an emitted record, name faults included. */
  lemma RecordParsed(data: seq<Byte>, pos: nat, inode: nat, name: string, e: Entry, next: nat)
    requires Aligned(pos) && Fits(inode + 1, name, e) && At(data, pos, Record(inode + 1, name, e))
    requires next == pos + |Record(inode + 1, name, e)|
    ensures Aligned(next)
    ensures if |name| < NAME_LIMIT && '\0' !in name
            then ParseRecord(data, pos, inode) == Ok(Parsed(name, FieldValues(inode + 1, name, e), e.body, next))
            else ParseRecord(data, pos, inode).Err?
  {
    hide ParseBody, ParseName, ParseRecord, FieldsAt, RecordHead;
    var head, vs := RecordHead(inode + 1, name, e), FieldValues(inode + 1, name, e);
    var mid, start := pos + |head|, pos + Align4(|head|);
    RecordLength(pos, inode + 1, name, e, next);
    TailParsed(data, pos, mid, start, start + |e.body|, next, head, e.body);
    HeadAt(data, pos, inode + 1, name, e);
    NameParsed(data, pos + HEADER_BYTES, name);
    RecordIs(data, pos, pos + HEADER_BYTES, mid, inode, vs, e.body, next);
  }

  // ---------------------------------------------------------------------------------------------
  // Whole images
  // ---------------------------------------------------------------------------------------------

  lemma {:induction false} EmitMeans(items: seq<Item>, k: nat, output: seq<Byte>)
    requires k <= |items| && Emittable(items) && AsciiNames(items) && |output| <= ARCHIVE_LIMIT
    ensures EmitFrom(items, k, output) ==
              (if |output| + |Records(items, k)| <= ARCHIVE_LIMIT then Ok(output + Records(items, k)) else Err(ArchiveBound))
    decreases |items| - k
  {
    hide Record;
    if k == |items| {
      assert output + [] == output;
    } else {
      var rec := Record(k + 1, items[k].name, items[k].entry);
      Associative(output, rec, Records(items, k + 1));
      if |output + rec| <= ARCHIVE_LIMIT { EmitMeans(items, k + 1, output + rec); }
    }
  }

  lemma Associative(a: seq<Byte>, b: seq<Byte>, c: seq<Byte>)
    ensures a + b + c == a + (b + c)
  {
  }

  lemma {:induction false} EmitRefuses(items: seq<Item>, k: nat, output: seq<Byte>, i: nat)
    requires k <= i < |items| && !(IsAscii(items[i].name) && WordMode(items[i].entry.mode))
    ensures EmitFrom(items, k, output).Err?
    decreases |items| - k
  {
    hide Record, WordMode;
    if k < i && IsAscii(items[k].name) {
      EmitRefuses(items, k + 1, output + Record(k + 1, items[k].name, items[k].entry), i);
    }
  }

  lemma {:induction false} RecordsLong(items: seq<Item>, k: nat, i: nat)
    requires k <= i < |items| && AsciiNames(items)
    ensures |Records(items, k)| >= |items| - k
    ensures |Records(items, k)| >= |items[i].entry.body| && |Records(items, k)| >= |items[i].name| + 1
    decreases |items| - k
  {
    hide Record;
    RecordLong(k + 1, items[k].name, items[k].entry);
    if k + 1 < |items| { RecordsLong(items, k + 1, if k < i then i else k + 1); }
  }

  lemma RecordLong(inode: nat, name: string, e: Entry)
    requires IsAscii(name)
    ensures |Record(inode, name, e)| >= |e.body| + |name| + 1
  {
  }

  /** A name that the parser takes: not the trailer's, canonical or the root, and short enough. */
  predicate GoodName(name: string) {
    name != TRAILER && (name == "." || Canonical(name)) && |name| < 256
  }

  ghost predicate Parseable(entries: Entries) {
    |entries| <= 64 && forall n :: n in entries ==> GoodName(n)
  }

  /** The entries named first in `names`. */
  ghost function Taken(entries: Entries, names: seq<string>, k: nat): Entries
    requires k <= |names| && forall n :: n in names ==> n in entries
  {
    map n | n in names[..k] :: entries[n]
  }

  lemma TakenNext(entries: Entries, names: seq<string>, k: nat)
    requires k < |names| && Distinct(names) && forall n :: n in names ==> n in entries
    ensures Taken(entries, names, k + 1) == Taken(entries, names, k)[names[k] := entries[names[k]]]
    ensures names[k] !in Taken(entries, names, k)
  {
    assert names[..k + 1] == names[..k] + [names[k]];
  }

  lemma {:induction false} TakenSize(entries: Entries, names: seq<string>, k: nat)
    requires k <= |names| && Distinct(names) && forall n :: n in names ==> n in entries
    ensures |Taken(entries, names, k)| == k
  {
    if k == 0 {
      assert Taken(entries, names, 0) == map[];
    } else {
      TakenNext(entries, names, k - 1);
      hide Taken;
      TakenSize(entries, names, k - 1);
      OneMoreEntry(Taken(entries, names, k - 1), names[k - 1], entries[names[k - 1]]);
    }
  }

  lemma OneMoreEntry(entries: Entries, name: string, e: Entry)
    requires name !in entries
    ensures |entries[name := e]| == |entries| + 1
  {
  }

  lemma TakenAll(entries: Entries, names: seq<string>)
    requires Elements(names) == entries.Keys && forall n :: n in names ==> n in entries
    ensures Taken(entries, names, |names|) == entries
  {
    assert names[..|names|] == names;
    assert forall n :: n in entries ==> n in Elements(names);
  }

  /** The setting of the round trip: an image of `items`, read up to item `k` at `pos`. */
  ghost predicate Reading(data: seq<Byte>, items: seq<Item>, k: nat, pos: nat) {
    && k <= |items| && Items8(items) && AsciiNames(items)
    && Aligned(pos) && At(data, pos, Records(items, k)) && pos + |Records(items, k)| == |data| <= ARCHIVE_LIMIT
  }

  lemma ItemEmittable(data: seq<Byte>, items: seq<Item>, k: nat, pos: nat)
    requires k < |items| && Reading(data, items, k, pos)
    ensures Fields8(items[k].entry) && IsAscii(items[k].name)
  {
  }

  lemma ReadOne(data: seq<Byte>, items: seq<Item>, k: nat, pos: nat, next: nat)
    requires k < |items| <= ARCHIVE_LIMIT && Reading(data, items, k, pos)
    requires next == pos + |Record(k + 1, items[k].name, items[k].entry)|
    ensures Reading(data, items, k + 1, next) && pos < |data|
    ensures if |items[k].name| < NAME_LIMIT && '\0' !in items[k].name
            then ParseRecord(data, pos, k) == Ok(Parsed(items[k].name, FieldValues(k + 1, items[k].name, items[k].entry),
                                                        items[k].entry.body, next))
            else ParseRecord(data, pos, k).Err?
  {
    hide ParseRecord, Record, FieldValues;
    var name, e := items[k].name, items[k].entry;
    RecordsLong(items, k, k);
    AtSplit(data, pos, Record(k + 1, name, e), Records(items, k + 1));
    RecordParsed(data, pos, k, name, e, next);
    RecordLong(k + 1, name, e);
  }

  lemma TrailerRead(data: seq<Byte>, items: seq<Item>, k: nat, pos: nat, records: Entries)
    requires k + 1 == |items| <= ARCHIVE_LIMIT && Reading(data, items, k, pos)
    requires items[k] == Item(TRAILER, TRAILER_ENTRY)
    ensures ParseFrom(data, pos, k, records) == Ok(records)
  {
    hide ParseRecord, Record;
    ReadOne(data, items, k, pos, pos + |Record(k + 1, items[k].name, items[k].entry)|);
    var fields := FieldValues(k + 1, TRAILER, TRAILER_ENTRY);
    assert fields[1..] == TRAILER_FIELDS;
    assert Records(items, k + 1) == [];
  }

  lemma BadNameRead(data: seq<Byte>, items: seq<Item>, k: nat, pos: nat, records: Entries)
    requires k + 1 < |items| <= ARCHIVE_LIMIT && Reading(data, items, k, pos) && !GoodName(items[k].name)
    ensures ParseFrom(data, pos, k, records).Err?
  {
    hide ParseRecord, Record, Canonical;
    ReadOne(data, items, k, pos, pos + |Record(k + 1, items[k].name, items[k].entry)|);
    RecordsLong(items, k + 1, k + 1);
    CanonicalNoNul(items[k].name);
  }

  lemma GoodNameRead(data: seq<Byte>, items: seq<Item>, k: nat, pos: nat, next: nat, records: Entries, more: Entries)
    requires k < |items| <= ARCHIVE_LIMIT && Reading(data, items, k, pos) && GoodName(items[k].name)
    requires next == pos + |Record(k + 1, items[k].name, items[k].entry)|
    requires items[k].name !in records && more == records[items[k].name := items[k].entry]
    ensures |more| > ENTRY_LIMIT ==> ParseFrom(data, pos, k, records).Err?
    ensures |more| <= ENTRY_LIMIT ==> ParseFrom(data, pos, k, records) == ParseFrom(data, next, k + 1, more)
  {
    hide ParseRecord, Record, Canonical, ParseFrom, Reading;
    ReadOne(data, items, k, pos, next);
    CanonicalNoNul(items[k].name);
    var e, vs := items[k].entry, FieldValues(k + 1, items[k].name, items[k].entry);
    assert Entry(vs[1], e.body, vs[9], vs[10]) == e;
    TakeRecord(data, pos, k, records, Parsed(items[k].name, vs, e.body, next), more);
  }

  /** A record with a good new name joins the ones read before it. */
  lemma TakeRecord(data: seq<Byte>, pos: nat, k: nat, records: Entries, p: Parsed, more: Entries)
    requires pos < |data| && ParseRecord(data, pos, k) == Ok(p) && GoodName(p.name) && p.name !in records
    requires |p.fields| == 13 && more == records[p.name := Entry(p.fields[1], p.body, p.fields[9], p.fields[10])]
    ensures |more| > ENTRY_LIMIT ==> ParseFrom(data, pos, k, records).Err?
    ensures |more| <= ENTRY_LIMIT ==> ParseFrom(data, pos, k, records) == ParseFrom(data, p.next, k + 1, more)
  {
    hide ParseRecord, Canonical;
  }

  /** What the parser has to say of the records from `k` on. */
  ghost predicate Verdict(run: Result<Entries, Cpio.Fault>, entries: Entries, names: seq<string>, k: nat) {
    if |names| <= ENTRY_LIMIT && (forall i :: k <= i < |names| ==> GoodName(names[i])) then run == Ok(entries) else run.Err?
  }

  lemma VerdictBack(run: Result<Entries, Cpio.Fault>, entries: Entries, names: seq<string>, k: nat)
    requires k < |names| && GoodName(names[k]) && Verdict(run, entries, names, k + 1)
    ensures Verdict(run, entries, names, k)
  {
  }

  /** The cases in which the verdict is clear at once. */
  lemma VerdictEnds(run: Result<Entries, Cpio.Fault>, entries: Entries, names: seq<string>, k: nat)
    requires k <= |names| && k <= ENTRY_LIMIT
    ensures k == |names| && run == Ok(entries) ==> Verdict(run, entries, names, k)
    ensures k < |names| && !GoodName(names[k]) && run.Err? ==> Verdict(run, entries, names, k)
    ensures k < |names| && k + 1 > ENTRY_LIMIT && run.Err? ==> Verdict(run, entries, names, k)
  {
    hide GoodName;
  }

  /** `items` lists the entries in the order of `names`, then the trailer. */
  ghost predicate Lists(items: seq<Item>, entries: Entries, names: seq<string>) {
    && Distinct(names) && Elements(names) == entries.Keys
    && (forall n :: n in names ==> n in entries)
    && items == Items(entries, names) + [Item(TRAILER, TRAILER_ENTRY)]
  }

  lemma ListsAt(items: seq<Item>, entries: Entries, names: seq<string>, k: nat)
    requires Lists(items, entries, names) && k <= |names|
    ensures |items| == |names| + 1 && |Taken(entries, names, k)| == k
    ensures k == |names| ==> items[k] == Item(TRAILER, TRAILER_ENTRY) && Taken(entries, names, k) == entries
    ensures k < |names| ==> names[k] in entries && items[k] == Item(names[k], entries[names[k]])
    ensures k < |names| ==> names[k] !in Taken(entries, names, k)
    ensures k < |names| ==> Taken(entries, names, k + 1) == Taken(entries, names, k)[names[k] := entries[names[k]]]
    ensures k < |names| ==> |Taken(entries, names, k + 1)| == k + 1
  {
    TakenSize(entries, names, k);
    if k == |names| {
      TakenAll(entries, names);
    } else {
      TakenNext(entries, names, k);
      TakenSize(entries, names, k + 1);
    }
  }

  lemma {:induction false} ParseRecords(data: seq<Byte>, items: seq<Item>, entries: Entries, names: seq<string>,
                                        k: nat, pos: nat, records: Entries)
    requires Lists(items, entries, names) && k <= |names| < ARCHIVE_LIMIT && k <= ENTRY_LIMIT
    requires Reading(data, items, k, pos) && (forall n :: n in names ==> n in entries) && records == Taken(entries, names, k)
    ensures Verdict(ParseFrom(data, pos, k, records), entries, names, k)
    decreases |names| - k
  {
    hide *;
    ListsAt(items, entries, names, k);
    VerdictEnds(ParseFrom(data, pos, k, records), entries, names, k);
    if k == |names| {
      TrailerRead(data, items, k, pos, records);
    } else if GoodName(names[k]) {
      ItemEmittable(data, items, k, pos);
      var next, more := pos + |Record(k + 1, items[k].name, items[k].entry)|, Taken(entries, names, k + 1);
      GoodNameRead(data, items, k, pos, next, records, more);
      if k + 1 <= ENTRY_LIMIT {
        ReadOne(data, items, k, pos, next);
        ParseRecords(data, items, entries, names, k + 1, next, more);
        VerdictBack(ParseFrom(data, pos, k, records), entries, names, k);
      }
    } else {
      BadNameRead(data, items, k, pos, records);
    }
  }

  lemma CanonicalNoNul(name: string)
    ensures name == "." || Canonical(name) ==> '\0' !in name
  {
  }

  lemma ListingMeans(entries: Entries)
    ensures Emittable(Listing(entries)) <==> forall n :: n in entries ==> WordMode(entries[n].mode)
    ensures Items8(Listing(entries)) <==> Entries8(entries)
    ensures Items8(Listing(entries)) ==> Emittable(Listing(entries))
  {
    hide SortedNames, WordMode, EightWide;
    NamesListed(entries);
    var names, items := SortedNames(entries.Keys), Listing(entries);
    assert Fields8(TRAILER_ENTRY) by { TrailerFits(); }
    forall n | n in entries
      ensures Emittable(items) ==> WordMode(entries[n].mode)
      ensures Items8(items) ==> Fields8(entries[n])
    {
      var i :| 0 <= i < |names| && names[i] == n;
      assert items[i] == Item(n, entries[n]);
    }
  }

  lemma TrailerFits()
    ensures Fields8(TRAILER_ENTRY)
  {
  }

  /** The emitter succeeds exactly on ASCII names and on modes that `S_ISDIR` takes, within the byte limit, and then
      writes the sorted records. */
  lemma NewcMeans(entries: Entries)
    ensures Newc(entries).Ok? <==>
              && Emittable(Listing(entries)) && AsciiNames(Listing(entries))
              && |Records(Listing(entries), 0)| <= 0x80_0000
    ensures Newc(entries).Ok? ==> Newc(entries).value == Records(Listing(entries), 0)
  {
    hide Records, EmitFrom, WordMode;
    var items := Listing(entries);
    if Emittable(items) && AsciiNames(items) {
      EmitMeans(items, 0, []);
      assert [] + Records(items, 0) == Records(items, 0);
    } else {
      var i :| 0 <= i < |items| && !(IsAscii(items[i].name) && WordMode(items[i].entry.mode));
      EmitRefuses(items, 0, [], i);
    }
  }

  lemma {:induction false} FieldsEightWide(data: seq<Byte>, pos: int, count: nat)
    requires FieldsAt(data, pos, count).Some?
    ensures AllEightWide(FieldsAt(data, pos, count).value)
    decreases count
  {
    hide ParseHex, EightWide;
    if count > 0 {
      SliceShort(data, pos);
      hide Slice;
      ParsedIsEightWide(Slice(data, pos, pos + 8));
      FieldsEightWide(data, pos + 8, count - 1);
    }
  }

  lemma SliceShort(data: seq<Byte>, pos: int)
    ensures |Slice(data, pos, pos + 8)| <= 8
  {
  }

  lemma ParsedRecordFits(data: seq<Byte>, pos: int, inode: nat)
    requires ParseRecord(data, pos, inode).Ok?
    ensures var fields := ParseRecord(data, pos, inode).value.fields;
            WordMode(fields[1]) && EightWide(fields[9]) && EightWide(fields[10])
  {
    hide FieldsAt, ParseName, ParseBody, Slice, Deterministic;
    FieldsEightWide(data, pos + 6, 13);
  }

  lemma {:induction false} ParsedFrom8(data: seq<Byte>, pos: int, inode: nat, records: Entries)
    requires Entries8(records) && ParseFrom(data, pos, inode, records).Ok?
    ensures Entries8(ParseFrom(data, pos, inode, records).value)
    decreases ENTRY_LIMIT - |records|
  {
    hide ParseRecord, Canonical, EightWide, WordMode;
    ParsedRecordFits(data, pos, inode);
    var p := ParseRecord(data, pos, inode).value;
    if p.name != TRAILER {
      ParsedFrom8(data, p.next, inode + 1, records[p.name := Entry(p.fields[1], p.body, p.fields[9], p.fields[10])]);
    }
  }

  /** What the parser returns always fits the fields it was read from. */
  lemma Parsed8(data: seq<Byte>)
    requires Parse(data).Ok?
    ensures Entries8(Parse(data).value)
  {
    hide ParseFrom;
    ParsedFrom8(data, 0, 0, map[]);
  }

  lemma RoundTrip8(entries: Entries)
    requires Newc(entries).Ok? && Entries8(entries)
    ensures if Parseable(entries) then Parse(Newc(entries).value) == Ok(entries) else Parse(Newc(entries).value).Err?
  {
    hide ParseFrom, Newc, Records, SortedNames;
    NewcMeans(entries);
    ListingMeans(entries);
    NamesListed(entries);
    SortedNamesCorrect(entries.Keys);
    var names, items := SortedNames(entries.Keys), Listing(entries);
    var data := Records(items, 0);
    RecordsLong(items, 0, 0);
    assert Reading(data, items, 0, 0);
    ParseRecords(data, items, entries, names, 0, 0, map[]);
    if forall i :: 0 <= i < |names| ==> GoodName(names[i]) {
      forall n | n in entries ensures GoodName(n) { assert n in names; }
    } else {
      var i :| 0 <= i < |names| && !GoodName(names[i]);
      assert names[i] in entries;
    }
  }

  /** The round trip with its exact condition: an emitted image parses back to its entries if and only if there are
      at most 64 of them, under good names, and their device numbers fit eight characters. */
  lemma RoundTrip(entries: Entries)
    requires Newc(entries).Ok?
    ensures Parse(Newc(entries).value) == Ok(entries) <==> Parseable(entries) && Entries8(entries)
    ensures Entries8(entries) && !Parseable(entries) ==> Parse(Newc(entries).value).Err?
  {
    hide Parse, Newc, Parseable, Entries8;
    if Entries8(entries) { RoundTrip8(entries); }
    if Parse(Newc(entries).value) == Ok(entries) { Parsed8(Newc(entries).value); }
  }

  /** Hence distinct parseable entry maps have distinct images. */
  lemma NewcInjective(a: Entries, b: Entries)
    requires Entries8(a) && Entries8(b) && Parseable(a) && Parseable(b)
    requires Newc(a).Ok? && Newc(a) == Newc(b)
    ensures a == b
  {
    RoundTrip(a);
    RoundTrip(b);
  }

  /** A number of more than the given digits is not padded. */
  lemma {:induction false} HexUnpadded(v: nat, width: nat)
    requires width > 0 && v >= Power16(width - 1)
    ensures Hex(v, width) == Hex(v, width - 1)
  {
    if width > 1 {
      assert v / 16 >= Power16(width - 2);
      HexUnpadded(v / 16, width - 1);
    }
  }

  lemma {:induction false} HexLead(d: nat, width: nat)
    requires 0 < d < 16
    ensures Hex(d * Power16(width), width) == [HexDigit(d)] + Hex(0, width)
  {
    if width == 0 {
      assert Hex(d, 0) == Hex(0, 0) + [HexDigit(d)];
    } else {
      var v := d * Power16(width - 1);
      assert d * Power16(width) == 16 * v + 0;
      hide Hex, Power16, HexDigit;
      HexLead(d, width - 1);
      HexSnoc(v, 0, width - 1);
      HexSnoc(0, 0, width - 1);
    }
  }

  lemma HexSnoc(v: nat, d: nat, width: nat)
    requires d < 16
    ensures Hex(16 * v + d, width + 1) == Hex(v, width) + [HexDigit(d)]
  {
    Sixteens(v, d);
    hide HexDigit;
  }

  /** With more than eight digits it cannot be told where one number ends and the next begins. */
  lemma DigitMoves(v: nat, d: nat)
    requires v >= 0x1000_0000 && 0 < d < 16
    ensures Field(16 * v + d) + Field(0) == Field(v) + Field(d * TWO_TO_THE_32)
  {
    hide Hex, Power16, HexDigit;
    PowerBelowWord();
    PowerIsWord();
    HexUnpadded(v, 8);
    HexLead(d, 8);
    HexSnoc(v, d, 7);
    assert Hex(v, 7) + [HexDigit(d)] + Hex(0, 8) == Hex(v, 7) + ([HexDigit(d)] + Hex(0, 8));
  }

  lemma Sixteens(v: nat, d: nat)
    requires d < 16
    ensures (16 * v + d) / 16 == v && (16 * v + d) % 16 == d
  {
  }

  lemma {:induction false} FieldTextSplit(a: seq<int>, b: seq<int>)
    ensures FieldText(a + b) == FieldText(a) + FieldText(b)
  {
    hide Field;
    if a == [] {
      assert a + b == b;
    } else {
      assert (a + b)[1..] == a[1..] + b;
      FieldTextSplit(a[1..], b);
    }
  }

  lemma SameFieldText(front: seq<int>, w: int, x: int, y: int, z: int, back: seq<int>)
    requires Field(w) + Field(x) == Field(y) + Field(z)
    ensures FieldText(front + ([w, x] + back)) == FieldText(front + ([y, z] + back))
  {
    hide Field;
    PairText(w, x);
    PairText(y, z);
    hide FieldText;
    FieldTextSplit(front, [w, x] + back);
    FieldTextSplit([w, x], back);
    FieldTextSplit(front, [y, z] + back);
    FieldTextSplit([y, z], back);
  }

  lemma PairText(w: int, x: int)
    ensures FieldText([w, x]) == Field(w) + Field(x)
  {
    hide Field;
    assert [w, x][1..] == [x] && [x][1..] == [];
    assert FieldText([x]) == Field(x) + [];
  }

  lemma SameRecord(inode: nat, name: string, mode: int, body: seq<Byte>, w: int, x: int, y: int, z: int)
    requires IsAscii(name) && Field(w) + Field(x) == Field(y) + Field(z)
    ensures Record(inode, name, Entry(mode, body, w, x)) == Record(inode, name, Entry(mode, body, y, z))
  {
    hide Field, FieldText, PadBytes, Encode;
    var front := [inode, mode, 0, 0, LinkCount(mode), 0, |body|, 0, 0];
    var back := [|name| + 1, 0];
    SameFieldText(front, w, x, y, z, back);
    assert FieldValues(inode, name, Entry(mode, body, w, x)) == front + ([w, x] + back);
    assert FieldValues(inode, name, Entry(mode, body, y, z)) == front + ([y, z] + back);
  }

  /** Two lists whose items are written alike. */
  ghost predicate WrittenAlike(a: seq<Item>, b: seq<Item>) {
    |a| == |b| && forall i :: 0 <= i < |a| ==> SameItem(i, a[i], b[i])
  }

  ghost predicate SameItem(i: nat, x: Item, y: Item) {
    && x.name == y.name && x.entry.mode == y.entry.mode
    && (IsAscii(x.name) ==> Record(i + 1, x.name, x.entry) == Record(i + 1, y.name, y.entry))
  }

  lemma {:induction false} EmittedAlike(a: seq<Item>, b: seq<Item>, k: nat, output: seq<Byte>)
    requires WrittenAlike(a, b) && k <= |a|
    ensures EmitFrom(a, k, output) == EmitFrom(b, k, output)
    decreases |a| - k
  {
    hide Record, WordMode, IsAscii;
    if k < |a| {
      assert SameItem(k, a[k], b[k]);
      if IsAscii(a[k].name) {
        EmittedAlike(a, b, k + 1, output + Record(k + 1, a[k].name, a[k].entry));
      }
    }
  }

  /** Beyond eight characters images do collide: a digit of the major number can as well be one of the minor. */
  lemma WideDevicesCollide(entries: Entries, name: string, mode: int, body: seq<Byte>, v: nat, d: nat)
    requires v >= 0x1000_0000 && 0 < d < 16
    ensures var a, b := Entry(mode, body, 16 * v + d, 0), Entry(mode, body, v, d * TWO_TO_THE_32);
            a != b && Newc(entries[name := a]) == Newc(entries[name := b])
  {
    hide Record, SortedNames, Field, EmitFrom;
    var a, b := Entry(mode, body, 16 * v + d, 0), Entry(mode, body, v, d * TWO_TO_THE_32);
    var one, two := entries[name := a], entries[name := b];
    assert one.Keys == two.Keys;
    NamesListed(one);
    DigitMoves(v, d);
    var first, second := Listing(one), Listing(two);
    forall i | 0 <= i < |first| ensures SameItem(i, first[i], second[i]) {
      if first[i].name == name && IsAscii(name) {
        SameRecord(i + 1, name, mode, body, 16 * v + d, 0, v, d * TWO_TO_THE_32);
      }
    }
    EmittedAlike(first, second, 0, []);
  }

  /** What `validate_newc` tests amounts to byte equality with the canonical image of parseable entries whose numbers
      fit. */
  lemma ValidatorExact(data: seq<Byte>, expected: Entries)
    ensures (Parse(data) == Ok(expected) && Newc(expected) == Ok(data)) <==>
            (Parseable(expected) && Entries8(expected) && Newc(expected) == Ok(data))
  {
    if Newc(expected) == Ok(data) { RoundTrip(expected); }
  }

  // ---------------------------------------------------------------------------------------------
  // The parser alone is not exact
  // ---------------------------------------------------------------------------------------------

  /** The empty archive with its first inode number spelled `+0000001`. */
  ghost function LooseImage(): seq<Byte> {
    MAGIC + (LOOSE_ONE + (FieldText(TRAILER_FIELDS) + (TRAILER_NAME + [0, 0, 0])))
  }

  const TRAILER_NAME: seq<Byte> := Encode(TRAILER) + [0]

  /** A one after `n` zeros. */
  function PadOne(n: nat): (s: seq<Byte>)
    ensures |s| == n + 1
  {
    if n == 0 then [0x31] else [0x30] + PadOne(n - 1)
  }

  const LOOSE_ONE: seq<Byte> := [0x2b] + PadOne(6)

  lemma {:induction false} PadOneValue(n: nat)
    ensures AllDigits(PadOne(n)) && Value(PadOne(n), 0) == 1
  {
    if n > 0 {
      PadOneValue(n - 1);
      assert ([0x30] + PadOne(n - 1))[1..] == PadOne(n - 1);
    }
  }

  lemma LooseOne()
    ensures ParseHex(LOOSE_ONE) == Some(1)
  {
    var digits := PadOne(6);
    assert PadOne(5)[0] == 0x30 && digits[1] == PadOne(5)[0];
    assert LOOSE_ONE[1..] == digits && DropSpaces(LOOSE_ONE) == LOOSE_ONE && DropPrefix(digits) == digits;
    PadOneValue(6);
    hide PadOne, Value, Digits;
    DigitsAll(digits, 0, false);
  }

  lemma LooseFields(data: seq<Byte>, rest: seq<int>, name: seq<Byte>)
    requires |rest| == 12 && AllEightWide(rest) && |name| == 11
    requires data == MAGIC + (LOOSE_ONE + (FieldText(rest) + (name + [0, 0, 0])))
    ensures |data| == 124 && Slice(data, 0, 6) == MAGIC && FieldsAt(data, 6, 13) == Some([1] + rest)
    ensures At(data, 110, name) && At(data, 121, [0, 0, 0])
  {
    hide FieldsAt, ParseHex, Slice, FieldText;
    var text, tail := FieldText(rest), name + [0, 0, 0];
    assert At(data, 0, MAGIC + (LOOSE_ONE + (text + tail)));
    AtSplit(data, 0, MAGIC, LOOSE_ONE + (text + tail));
    AtSplit(data, 6, LOOSE_ONE, text + tail);
    AtSplit(data, 14, text, tail);
    SliceAt(data, 0, MAGIC);
    SliceAt(data, 6, LOOSE_ONE);
    LooseOne();
    FieldsParsed(data, 14, rest);
    FieldsCons(data, 6, 12, 1, rest);
    AtSplit(data, 110, name, [0, 0, 0]);
  }

  lemma FieldsCons(data: seq<Byte>, pos: int, count: nat, v: int, rest: seq<int>)
    requires ParseHex(Slice(data, pos, pos + 8)) == Some(v) && FieldsAt(data, pos + 8, count) == Some(rest)
    ensures FieldsAt(data, pos, count + 1) == Some([v] + rest)
  {
  }

  /** An image that `newc` never writes, and that the parser reads as the empty archive: Python's `int(..., 16)` takes
      more spellings than the emitter uses. It is the byte comparison that makes the validator exact. */
  lemma ParserTakesLooseSpelling()
    ensures Parse(LooseImage()) == Ok(map[]) && Newc(map[]) != Ok(LooseImage())
  {
    hide Parse, LooseImage, Newc;
    LooseParses();
    LooseIsNotEmitted();
  }

  lemma LooseParses()
    ensures Parse(LooseImage()) == Ok(map[])
  {
    hide *;
    LooseShape();
    LooseRecord(LooseImage());
    LooseEnds(LooseImage());
  }

  lemma LooseShape()
    ensures var data := LooseImage();
            && |data| == 124 && Slice(data, 0, 6) == MAGIC && FieldsAt(data, 6, 13) == Some([1] + TRAILER_FIELDS)
            && At(data, 110, TRAILER_NAME) && At(data, 121, [0, 0, 0])
  {
    hide FieldsAt, Slice, FieldText, At;
    LooseFields(LooseImage(), TRAILER_FIELDS, TRAILER_NAME);
  }

  lemma LooseEnds(data: seq<Byte>)
    requires |data| == 124 && ParseRecord(data, 0, 0) == Ok(Parsed(TRAILER, [1] + TRAILER_FIELDS, [], 124))
    ensures Parse(data) == Ok(map[])
  {
    hide ParseRecord;
    assert ([1] + TRAILER_FIELDS)[1..] == TRAILER_FIELDS;
  }

  lemma LooseRecord(data: seq<Byte>)
    requires |data| == 124 && Slice(data, 0, 6) == MAGIC && FieldsAt(data, 6, 13) == Some([1] + TRAILER_FIELDS)
    requires At(data, 110, TRAILER_NAME) && At(data, 121, [0, 0, 0])
    ensures ParseRecord(data, 0, 0) == Ok(Parsed(TRAILER, [1] + TRAILER_FIELDS, [], 124))
  {
    hide FieldsAt, Slice, ParseName, ParseBody, ParseRecord, Align4;
    NameParsed(data, 110, TRAILER);
    AlignedIsMultiple(121);
    AlignedIsMultiple(124);
    assert At(data, 124, []);
    BodyParsed(data, 121, 124, 124, 124, []);
    RecordIs(data, 0, 110, 121, 0, [1] + TRAILER_FIELDS, [], 124);
  }

  lemma LooseIsNotEmitted()
    ensures Newc(map[]) != Ok(LooseImage())
  {
    hide Records, LooseImage, Newc, SortedNames;
    var empty: Entries := map[];
    NewcMeans(empty);
    SortedNamesCorrect(empty.Keys);
    assert Listing(empty) == [Item(TRAILER, TRAILER_ENTRY)];
    FirstFieldIsDigit(Listing(empty));
    LooseSeventh();
  }

  lemma LooseSeventh()
    ensures |LooseImage()| > 6 && LooseImage()[6] == 0x2b
  {
    hide FieldText;
  }

  lemma FirstFieldIsDigit(items: seq<Item>)
    requires items == [Item(TRAILER, TRAILER_ENTRY)] && AsciiNames(items)
    ensures |Records(items, 0)| > 6 && Records(items, 0)[6] != 0x2b
  {
    hide Record;
    SeventhByte(1, TRAILER, TRAILER_ENTRY);
    HexValue(1, 8);
    assert Records(items, 0) == Record(1, TRAILER, TRAILER_ENTRY) + Records(items, 1);
  }

  lemma SeventhByte(inode: nat, name: string, e: Entry)
    requires IsAscii(name)
    ensures |Record(inode, name, e)| > 6 && Record(inode, name, e)[6] == Hex(inode, 8)[0]
  {
    FirstOf(FieldValues(inode, name, e));
    hide FieldText, FieldValues, Hex, PadBytes;
    assert RecordHead(inode, name, e)[6] == FieldText(FieldValues(inode, name, e))[0];
  }

  lemma FirstOf(vs: seq<int>)
    requires vs != [] && vs[0] >= 0
    ensures |FieldText(vs)| > 0 && FieldText(vs)[0] == Hex(vs[0], 8)[0]
  {
    hide Hex;
  }
}
