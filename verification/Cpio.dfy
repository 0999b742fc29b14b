/**
 The newc archive format ("initramfs buffer format" of the Linux early-userspace documentation): the emitter
 `newc`, the parser `parse_newc` and the validator `validate_newc`.
 */
module Cpio {
  import opened Prelude
  import opened PosixPath
  import opened Text

  const ARCHIVE_LIMIT: nat := 8 * 1024 * 1024
  const ENTRY_LIMIT: nat := 64
  const NAME_LIMIT: nat := 256
  const HEADER_BYTES: nat := 110
  const TRAILER: string := "TRAILER!!!"
  const MAGIC: seq<Byte> := [0x30, 0x37, 0x30, 0x37, 0x30, 0x31]

  /** What an archive holds under one name. */
  datatype Entry = Entry(mode: int, body: seq<Byte>, major: int, minor: int)

  type Entries = map<string, Entry>

  datatype Fault =
    | ArchiveBound | Header | MalformedFields | NameRange | NameTermination | NameEncoding | NamePadding
    | BodyRange | BodyPadding | ModeRange | Metadata | BadTrailer | DuplicatePath | CanonicalPath | EntryCount
    | MissingTrailer | Mismatch

  /** `stat.S_ISDIR`. */
  predicate IsDirectory(mode: int) {
    mode / 0x1000 % 0x10 == 4
  }

  /** By the file type, the fourth hexadecimal digit from the right: four is a directory. */
  lemma DirectoryType(above: nat, kind: nat, permissions: nat)
    requires kind < 0x10 && permissions < 0x1000
    ensures IsDirectory(above * 0x1_0000 + kind * 0x1000 + permissions) <==> kind == 4
  {
    var mode := above * 0x1_0000 + kind * 0x1000 + permissions;
    assert mode / 0x1000 == above * 0x10 + kind;
    assert (above * 0x10 + kind) % 0x10 == kind;
  }

  function LinkCount(mode: int): int {
    if IsDirectory(mode) then 2 else 1
  }

  /** The modes that `stat.S_ISDIR` can take; it raises on others. */
  predicate WordMode(mode: int) {
    0 <= mode < TWO_TO_THE_32
  }

  // ---------------------------------------------------------------------------------------------
  // The emitter
  // ---------------------------------------------------------------------------------------------

  const TRAILER_ENTRY := Entry(0, [], 0, 0)

  function FieldValues(inode: nat, name: string, e: Entry): (vs: seq<int>)
    ensures |vs| == 13
  {
    [inode, e.mode, 0, 0, LinkCount(e.mode), 0, |e.body|, 0, 0, e.major, e.minor, |name| + 1, 0]
  }

  /** `''.join(f'{v:08x}' for v in values)`. */
  function FieldText(vs: seq<int>): seq<Byte> {
    if vs == [] then [] else Field(vs[0]) + FieldText(vs[1..])
  }

  /** Magic, fields and NUL-terminated name. */
  function RecordHead(inode: nat, name: string, e: Entry): seq<Byte>
    requires IsAscii(name)
  {
    MAGIC + (FieldText(FieldValues(inode, name, e)) + (Encode(name) + [0]))
  }

  function Record(inode: nat, name: string, e: Entry): seq<Byte>
    requires IsAscii(name)
  {
    RecordHead(inode, name, e) + (PadBytes(|RecordHead(inode, name, e)|) + (e.body + PadBytes(|e.body|)))
  }

  /** A member of the list the emitter runs over. */
  datatype Item = Item(name: string, entry: Entry)

  predicate Emittable(items: seq<Item>) {
    forall i :: 0 <= i < |items| ==> WordMode(items[i].entry.mode)
  }

  predicate AsciiNames(items: seq<Item>) {
    forall i :: 0 <= i < |items| ==> IsAscii(items[i].name)
  }

  /** The records of the items from the `k`th on; the inode number is the position, counted from one. */
  function Records(items: seq<Item>, k: nat): seq<Byte>
    requires k <= |items| && AsciiNames(items)
    decreases |items| - k
  {
    if k == |items| then [] else Record(k + 1, items[k].name, items[k].entry) + Records(items, k + 1)
  }

  lemma NamesListed(entries: Entries)
    ensures forall n :: n in SortedNames(entries.Keys) <==> n in entries
  {
    SortedNamesCorrect(entries.Keys);
    forall n ensures n in SortedNames(entries.Keys) <==> n in entries {
      assert n in Elements(SortedNames(entries.Keys)) <==> n in entries.Keys;
    }
  }

  /** `sorted(entries.items()) + [trailer]`. */
  function Listing(entries: Entries): seq<Item> {
    NamesListed(entries);
    Items(entries, SortedNames(entries.Keys)) + [Item(TRAILER, TRAILER_ENTRY)]
  }

  function Items(entries: Entries, names: seq<string>): (r: seq<Item>)
    requires forall n :: n in names ==> n in entries
    ensures |r| == |names| && forall i :: 0 <= i < |names| ==> r[i] == Item(names[i], entries[names[i]])
  {
    seq(|names|, i requires 0 <= i < |names| => Item(names[i], entries[names[i]]))
  }

  /** The emitter's loop from item `k` on, once `output` is written. */
  function EmitFrom(items: seq<Item>, k: nat, output: seq<Byte>): Result<seq<Byte>, Fault>
    requires k <= |items|
    decreases |items| - k
  {
    if k == |items| then Ok(output)
    else if !IsAscii(items[k].name) then Err(NameEncoding)
    else if !WordMode(items[k].entry.mode) then Err(ModeRange)
    else
      var longer := output + Record(k + 1, items[k].name, items[k].entry);
      if |longer| > ARCHIVE_LIMIT then Err(ArchiveBound) else EmitFrom(items, k + 1, longer)
  }

  function Newc(entries: Entries): Result<seq<Byte>, Fault> {
    EmitFrom(Listing(entries), 0, [])
  }

  /** `newc`. */
  method EmitNewc(entries: Entries) returns (r: Result<seq<Byte>, Fault>)
    ensures r == Newc(entries)
  {
    r := EmitItems(Listing(entries));
  }

  /** Its loop: the byte array grows record by record. */
  method EmitItems(items: seq<Item>) returns (r: Result<seq<Byte>, Fault>)
    ensures r == EmitFrom(items, 0, [])
  {
    var output: seq<Byte> := [];
    var i := 0;
    while i < |items|
      invariant 0 <= i <= |items| && Aligned(|output|)
      invariant EmitFrom(items, i, output) == EmitFrom(items, 0, [])
    {
      if !IsAscii(items[i].name) { return Err(NameEncoding); }
      if !WordMode(items[i].entry.mode) { return Err(ModeRange); }
      output := AppendRecord(output, i + 1, items[i].name, items[i].entry);
      if |output| > ARCHIVE_LIMIT { return Err(ArchiveBound); }
      i := i + 1;
    }
    r := Ok(output);
  }

  /** The four `extend` calls of an emitter's loop body: padding is reckoned on the output as it stands. */
  method AppendRecord(before: seq<Byte>, inode: nat, name: string, e: Entry) returns (output: seq<Byte>)
    requires Aligned(|before|) && IsAscii(name)
    ensures output == before + Record(inode, name, e) && Aligned(|output|)
  {
    var values := [inode, e.mode, 0, 0, if IsDirectory(e.mode) then 2 else 1, 0, |e.body|, 0, 0, e.major, e.minor,
                   |name| + 1, 0];
    output := before + (MAGIC + (FieldText(values) + (Encode(name) + [0])));
    output := output + PadBytes(|output|);
    output := output + e.body;
    output := output + PadBytes(|output|);
    RecordAppended(before, inode, name, e);
  }

  /** Padding the growing output is padding the record, because every record starts and ends aligned. */
  lemma RecordAppended(before: seq<Byte>, inode: nat, name: string, e: Entry)
    requires Aligned(|before|) && IsAscii(name)
    ensures var a := before + RecordHead(inode, name, e);
            var b := a + PadBytes(|a|) + e.body;
            && b + PadBytes(|b|) == before + Record(inode, name, e)
            && Aligned(|before + Record(inode, name, e)|)
  {
    var head, body := RecordHead(inode, name, e), e.body;
    PadShift(|before|, |head|);
    var lead := before + head + PadBytes(|head|);
    AlignTwice(|before| + |head|);
    PadShift(|lead|, |body|);
    AlignTwice(|lead| + |body|);
    FourParts(before, head, PadBytes(|head|), body, PadBytes(|body|));
  }

  lemma FourParts(before: seq<Byte>, a: seq<Byte>, b: seq<Byte>, c: seq<Byte>, d: seq<Byte>)
    ensures before + a + b + c + d == before + (a + (b + (c + d)))
  {
  }

  lemma PadShift(base: nat, n: nat)
    requires Aligned(base)
    ensures PadBytes(base + n) == PadBytes(n)
  {
    AlignShift(base, n);
  }

  // ---------------------------------------------------------------------------------------------
  // The parser
  // ---------------------------------------------------------------------------------------------

  /** An index as Python's slicing reads it. */
  function SliceIndex(i: int, length: nat): (r: nat)
    ensures r <= length
  {
    if i < 0 then Max(0, i + length) else Min(i, length)
  }

  /** `data[lo:hi]`, negative and out-of-range indices included. */
  function Slice(data: seq<Byte>, lo: int, hi: int): seq<Byte> {
    if 0 <= lo <= hi <= |data| then data[lo..hi]
    else
      var a, b := SliceIndex(lo, |data|), SliceIndex(hi, |data|);
      if a <= b then data[a..b] else []
  }

  /** `pos + -pos % 4`, for positions of either sign. */
  function RoundUp(pos: int): int {
    if pos >= 0 then Align4(pos) else 4 - Align4(1 - pos)
  }

  lemma RoundUpIsModulo(pos: int)
    ensures RoundUp(pos) == pos + (-pos) % 4
  {
    AlignedIsMultiple(if pos >= 0 then pos else 1 - pos);
  }

  predicate AllZero(s: seq<Byte>) {
    forall i :: 0 <= i < |s| ==> s[i] == 0
  }

  /** `count` eight-character fields from `pos`, each read by `int(..., 16)`. */
  function FieldsAt(data: seq<Byte>, pos: int, count: nat): (r: Option<seq<int>>)
    ensures r.Some? ==> |r.value| == count
    decreases count
  {
    if count == 0 then Some([])
    else
      var v := ParseHex(Slice(data, pos, pos + 8));
      var rest := FieldsAt(data, pos + 8, count - 1);
      if v.None? || rest.None? then None else Some([v.value] + rest.value)
  }

  /** One record as the parser reads it. */
  datatype Parsed = Parsed(name: string, fields: seq<int>, body: seq<Byte>, next: int)

  /** The fields that follow the inode number in a trailer. */
  const TRAILER_FIELDS: seq<int> := [0, 0, 0, 1, 0, 0, 0, 0, 0, 0, 11, 0]

  function ParseRecord(data: seq<Byte>, pos: int, inode: nat): (r: Result<Parsed, Fault>)
    ensures r.Ok? ==> |r.value.fields| == 13
  {
    if pos + HEADER_BYTES > |data| || Slice(data, pos, pos + 6) != MAGIC then Err(Header) else ParseMarked(data, pos, inode)
  }

  /** A record whose header is there. */
  function ParseMarked(data: seq<Byte>, pos: int, inode: nat): (r: Result<Parsed, Fault>)
    ensures r.Ok? ==> |r.value.fields| == 13
  {
    var fields := FieldsAt(data, pos + 6, 13);
    if fields.None? then Err(MalformedFields)
    else
      var name := ParseName(data, pos + HEADER_BYTES, fields.value[11]);
      if name.Err? then Err(name.error)
      else
        var body := ParseBody(data, pos + HEADER_BYTES + fields.value[11], fields.value[6]);
        if body.Err? then Err(body.error)
        else if fields.value[1] < 0 then Err(ModeRange)
        else if !Deterministic(fields.value, inode) then Err(Metadata)
        else Ok(Parsed(name.value, fields.value, body.value.body, body.value.next))
  }

  /** The NUL-terminated name of `size` bytes. */
  function ParseName(data: seq<Byte>, pos: int, size: int): Result<string, Fault> {
    if !(1 <= size <= NAME_LIMIT) || pos + size > |data| then Err(NameRange)
    else
      var bytes := Slice(data, pos, pos + size);
      if bytes == [] || bytes[|bytes| - 1] != 0 || 0 in bytes[..|bytes| - 1] then Err(NameTermination)
      else
        var name := Decode(bytes[..|bytes| - 1]);
        if name.None? then Err(NameEncoding) else Ok(name.value)
  }

  /** A body and the position of the record after it. */
  datatype Framed = Framed(body: seq<Byte>, next: int)

  /** Padding, body, padding. */
  function ParseBody(data: seq<Byte>, pos: int, size: int): Result<Framed, Fault> {
    var start := RoundUp(pos);
    if !AllZero(Slice(data, pos, start)) then Err(NamePadding)
    else if start + size > |data| then Err(BodyRange)
    else
      var stop := start + size;
      var next := RoundUp(stop);
      if next > |data| || !AllZero(Slice(data, stop, next)) then Err(BodyPadding)
      else Ok(Framed(Slice(data, start, stop), next))
  }

  /** Everything but mode, sizes and device numbers is fixed. */
  predicate Deterministic(f: seq<int>, inode: nat)
    requires |f| == 13
  {
    f == [inode + 1, f[1], 0, 0, LinkCount(f[1]), 0, f[6], 0, 0, f[9], f[10], f[11], 0]
  }

  /** The rest of the archive from `pos`, after `inode` records. */
  function ParseFrom(data: seq<Byte>, pos: int, inode: nat, records: Entries): Result<Entries, Fault>
    decreases ENTRY_LIMIT - |records|
  {
    if pos >= |data| then Err(MissingTrailer)
    else
      var rec := ParseRecord(data, pos, inode);
      if rec.Err? then Err(rec.error)
      else
        var Parsed(name, fields, body, next) := rec.value;
        if name == TRAILER then
          if fields[1..] != TRAILER_FIELDS || next != |data| then Err(BadTrailer) else Ok(records)
        else if name in records then Err(DuplicatePath)
        else if name != "." && !Canonical(name) then Err(CanonicalPath)
        else
          var more := records[name := Entry(fields[1], body, fields[9], fields[10])];
          if |more| > ENTRY_LIMIT then Err(EntryCount) else ParseFrom(data, next, inode + 1, more)
  }

  function Parse(data: seq<Byte>): Result<Entries, Fault> {
    if |data| > ARCHIVE_LIMIT then Err(ArchiveBound) else ParseFrom(data, 0, 0, map[])
  }

  /** `parse_newc`: advances `pos` and `inode` and fills `records`. A negative size can move `pos` backwards, so
      termination rests on the count of distinct names, not on the position. */
  method ParseNewc(data: seq<Byte>) returns (r: Result<Entries, Fault>)
    ensures r == Parse(data)
  {
    if |data| > ARCHIVE_LIMIT { return Err(ArchiveBound); }
    var records: Entries, pos: int, inode: nat := map[], 0, 0;
    while pos < |data|
      invariant ParseFrom(data, pos, inode, records) == ParseFrom(data, 0, 0, map[])
      invariant |records| <= ENTRY_LIMIT
      decreases ENTRY_LIMIT - |records|
    {
      var rec := ParseRecord(data, pos, inode);
      if rec.Err? { return Err(rec.error); }
      var Parsed(name, fields, body, next) := rec.value;
      pos, inode := next, inode + 1;
      if name == TRAILER {
        if fields[1..] != TRAILER_FIELDS || pos != |data| { return Err(BadTrailer); }
        return Ok(records);
      }
      if name in records { return Err(DuplicatePath); }
      if name != "." && !Canonical(name) { return Err(CanonicalPath); }
      records := records[name := Entry(fields[1], body, fields[9], fields[10])];
      if |records| > ENTRY_LIMIT { return Err(EntryCount); }
    }
    return Err(MissingTrailer);
  }

  /** `validate_newc`. */
  method ValidateNewc(data: seq<Byte>, expected: Entries) returns (r: Result<(), Fault>)
    ensures r.Ok? <==> Parse(data) == Ok(expected) && Newc(expected) == Ok(data)
  {
    var actual := ParseNewc(data);
    if actual.Err? { return Err(actual.error); }
    if actual.value != expected { return Err(Mismatch); }
    var canonical := EmitNewc(expected);
    if canonical.Err? { return Err(canonical.error); }
    if data != canonical.value { return Err(Mismatch); }
    return Ok(());
  }
}
