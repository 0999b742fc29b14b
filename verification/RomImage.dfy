/**
 Filling in the copy sources of a boot ROM image (`populate_data_copy_sources`): the image is scanned for quadruples of
 a copy table, and the source range of each is overwritten in place with what the ROM file's sections hold at the
 destination.
 */
module RomImage {
  import opened Prelude

  const DRAM_LO := 0x3FC88000
  const DRAM_HI := 0x3FD00000

  /** A section of the ROM file: where it belongs, and its bytes. */
  datatype Section = Section(at: nat, data: seq<Byte>)

  predicate Covers(s: Section, a: nat) { s.at <= a < s.at + |s.data| }

  /** The byte at an address: that of the last section that covers it, zero if none does. */
  function VmaByte(sections: seq<Section>, a: nat): Byte
    decreases |sections|
  {
    if sections == [] then 0
    else
      var last := sections[|sections| - 1];
      if Covers(last, a) then last.data[a - last.at] else VmaByte(sections[..|sections| - 1], a)
  }

  function Zeros(n: nat): (z: seq<Byte>)
    ensures |z| == n && forall i :: 0 <= i < n ==> z[i] == 0
  {
    if n == 0 then [] else Zeros(n - 1) + [0]
  }

  /** A slice assignment that keeps the length. */
  function Patch(s: seq<Byte>, at: nat, bytes: seq<Byte>): (t: seq<Byte>)
    requires at + |bytes| <= |s|
    ensures |t| == |s|
    ensures forall i :: 0 <= i < |s| ==> t[i] == if at <= i < at + |bytes| then bytes[i - at] else s[i]
  {
    s[..at] + bytes + s[at + |bytes|..]
  }

  /** The bytes from an address on. */
  function Values(sections: seq<Section>, dst: nat, n: nat): (vals: seq<Byte>)
    ensures |vals| == n && forall k :: 0 <= k < n ==> vals[k] == VmaByte(sections, dst + k)
  {
    if n == 0 then [] else Values(sections, dst, n - 1) + [VmaByte(sections, dst + n - 1)]
  }

  /** One section laid over what the ones before it gave. */
  function Overlay(out: seq<Byte>, s: Section, addr: nat): (t: seq<Byte>)
    ensures |t| == |out|
  {
    var lo, hi := Max(addr, s.at), Min(addr + |out|, s.at + |s.data|);
    if s.at <= addr + |out| && addr < s.at + |s.data| then Patch(out, lo - addr, s.data[lo - s.at..hi - s.at]) else out
  }

  lemma OverlayAt(out: seq<Byte>, s: Section, addr: nat, k: nat)
    requires k < |out|
    ensures Overlay(out, s, addr)[k] == if Covers(s, addr + k) then s.data[addr + k - s.at] else out[k]
  {
    if s.at <= addr + |out| && addr < s.at + |s.data| {
      var lo, hi := Max(addr, s.at), Min(addr + |out|, s.at + |s.data|);
      var part := s.data[lo - s.at..hi - s.at];
      var t := Patch(out, lo - addr, part);
      hide Patch;
      assert Covers(s, addr + k) <==> lo - addr <= k < lo - addr + |part|;
      if Covers(s, addr + k) { assert part[k - (lo - addr)] == s.data[addr + k - s.at]; }
    }
  }

  /** `vma_read`. */
  method VmaRead(sections: seq<Section>, addr: nat, n: nat) returns (out: seq<Byte>)
    ensures out == Values(sections, addr, n)
  {
    hide Values, VmaByte, Overlay;
    out := Zeros(n);
    var i := 0;
    NoSections(sections, addr, n);
    while i < |sections|
      invariant 0 <= i <= |sections| && out == Values(sections[..i], addr, n)
    {
      OneSectionMore(sections, i, addr, n);
      out := Overlay(out, sections[i], addr);
      i := i + 1;
    }
    assert sections[..i] == sections;
  }

  lemma NoSections(sections: seq<Section>, addr: nat, n: nat)
    ensures Values(sections[..0], addr, n) == Zeros(n)
  {
    assert sections[..0] == [];
  }

  lemma OneSectionMore(sections: seq<Section>, i: nat, addr: nat, n: nat)
    requires i < |sections|
    ensures Values(sections[..i + 1], addr, n) == Overlay(Values(sections[..i], addr, n), sections[i], addr)
  {
    hide Values, Overlay, VmaByte;
    var out, more := Values(sections[..i], addr, n), Values(sections[..i + 1], addr, n);
    forall k | 0 <= k < n ensures more[k] == Overlay(out, sections[i], addr)[k] {
      OverlayAt(out, sections[i], addr, k);
      ByteOfLast(sections, i, addr + k);
    }
  }

  lemma ByteOfLast(sections: seq<Section>, i: nat, a: nat)
    requires i < |sections|
    ensures var last := sections[i];
            VmaByte(sections[..i + 1], a) == if Covers(last, a) then last.data[a - last.at] else VmaByte(sections[..i], a)
  {
    assert sections[..i + 1][..i] == sections[..i];
  }

  // ---------------------------------------------------------------------------------------------
  // The copy table
  // ---------------------------------------------------------------------------------------------

  datatype Quad = Quad(dstStart: nat, dstEnd: nat, src: nat, term: nat)

  /** Four bytes, the lowest first. */
  function Word(s: seq<Byte>, at: nat): nat
    requires at + 4 <= |s|
  {
    s[at] as int + 0x100 * s[at + 1] as int + 0x10000 * s[at + 2] as int + 0x1000000 * s[at + 3] as int
  }

  function QuadAt(s: seq<Byte>, at: nat): Quad
    requires at + 16 <= |s|
  {
    Quad(Word(s, at), Word(s, at + 4), Word(s, at + 8), Word(s, at + 12))
  }

  /** Whether four words are taken for an entry of the table. */
  predicate IsEntry(q: Quad, base: nat, size: nat) {
    && DRAM_LO <= q.dstStart < DRAM_HI
    && q.dstStart <= q.dstEnd < DRAM_HI
    && base <= q.src < base + size
    && q.term == 0
    && q.dstEnd - q.dstStart < 0x10000
  }

  /** An accepted entry, as a copy within the image: `size` bytes from `at` on belong at `dst`. The part that the image
      has no room for is cut off. */
  datatype Copy = Copy(at: nat, dst: nat, size: nat)

  function ToCopy(q: Quad, base: nat, size: nat): (c: Copy)
    requires IsEntry(q, base, size)
    ensures c.at + c.size <= size
  {
    Copy(q.src - base, q.dstStart, Min(q.dstEnd - q.dstStart, size - (q.src - base)))
  }

  predicate NonZero(vals: seq<Byte>) {
    exists k :: 0 <= k < |vals| && vals[k] != 0
  }

  /** What one entry does to the image. Entries whose section is absent or all zero leave it alone. */
  function Fill(image: seq<Byte>, q: Quad, base: nat, sections: seq<Section>): (filled: seq<Byte>)
    requires IsEntry(q, base, |image|)
    ensures |filled| == |image|
  {
    if NonZero(Values(sections, q.dstStart, q.dstEnd - q.dstStart))
    then
      var c := ToCopy(q, base, |image|);
      Patch(image, c.at, Values(sections, c.dst, c.size))
    else image
  }

  /** The entries met on the way, and the image they leave. */
  datatype Scanned = Scanned(image: seq<Byte>, entries: seq<Entry>)

  /** A quadruple taken for a table entry, and where it stands in the image. */
  datatype Entry = Entry(off: nat, quad: Quad)

  function Scan(image: seq<Byte>, off: nat, base: nat, sections: seq<Section>): (r: Scanned)
    ensures |r.image| == |image|
    ensures forall j :: 0 <= j < |r.entries| ==> IsEntry(r.entries[j].quad, base, |image|)
    ensures forall j :: 0 <= j < |r.entries| ==> r.entries[j].off + 16 <= |image|
    decreases |image| - off
  {
    if off + 16 > |image| then Scanned(image, [])
    else
      var q := QuadAt(image, off);
      if IsEntry(q, base, |image|) then
        var rest := Scan(Fill(image, q, base, sections), off + 16, base, sections);
        Scanned(rest.image, [Entry(off, q)] + rest.entries)
      else Scan(image, off + 4, base, sections)
  }

  /** One accepted entry, in place. */
  method FillInPlace(irom: array<Byte>, q: Quad, base: nat, sections: seq<Section>)
    requires IsEntry(q, base, irom.Length)
    modifies irom
    ensures irom[..] == Fill(old(irom[..]), q, base, sections)
  {
    var n := q.dstEnd - q.dstStart;
    var vals := VmaRead(sections, q.dstStart, n);
    if NonZero(vals) {
      ghost var c := ToCopy(q, base, irom.Length);
      var rel := q.src - base;
      var m := Min(n, irom.Length - rel);
      var i := 0;
      while i < m
        invariant 0 <= i <= m
        invariant forall k :: 0 <= k < irom.Length ==>
                    irom[k] == if rel <= k < rel + i then vals[k - rel] else old(irom[k])
      {
        irom[rel + i] := vals[i];
        i := i + 1;
      }
      assert irom[..] == Patch(old(irom[..]), c.at, Values(sections, c.dst, c.size));
    }
  }

  /** `populate_data_copy_sources`, in place; the entries counted. */
  method PopulateCopySources(irom: array<Byte>, base: nat, sections: seq<Section>) returns (entries: nat)
    modifies irom
    ensures irom[..] == Scan(old(irom[..]), 0, base, sections).image
    ensures entries == |Scan(old(irom[..]), 0, base, sections).entries|
  {
    hide Fill, IsEntry, QuadAt;
    entries := 0;
    var off := 0;
    while off + 16 <= irom.Length
      invariant 0 <= off
      invariant Scan(irom[..], off, base, sections).image == Scan(old(irom[..]), 0, base, sections).image
      invariant entries + |Scan(irom[..], off, base, sections).entries|
             == |Scan(old(irom[..]), 0, base, sections).entries|
      decreases irom.Length - off
    {
      var q := QuadAt(irom[..], off);
      if IsEntry(q, base, irom.Length) {
        FillInPlace(irom, q, base, sections);
        entries := entries + 1;
        off := off + 16;
      } else {
        off := off + 4;
      }
    }
  }

  // ---------------------------------------------------------------------------------------------
  // The image afterwards
  // ---------------------------------------------------------------------------------------------

  /** Entry `q` writes byte `i` of an image of `size` bytes. */
  predicate Fills(q: Quad, i: nat, base: nat, size: nat, sections: seq<Section>)
    requires IsEntry(q, base, size)
  {
    var c := ToCopy(q, base, size);
    c.at <= i < c.at + c.size && NonZero(Values(sections, q.dstStart, q.dstEnd - q.dstStart))
  }

  /** What belongs at byte `i` by entry `q`. */
  function Due(q: Quad, i: nat, base: nat, sections: seq<Section>): Byte
    requires base <= q.src <= base + i
  {
    VmaByte(sections, q.dstStart + (base + i - q.src))
  }

  lemma FillAt(image: seq<Byte>, q: Quad, base: nat, sections: seq<Section>, i: nat)
    requires IsEntry(q, base, |image|) && i < |image|
    ensures Fills(q, i, base, |image|, sections) ==>
              base <= q.src <= base + i && Fill(image, q, base, sections)[i] == Due(q, i, base, sections)
    ensures !Fills(q, i, base, |image|, sections) ==> Fill(image, q, base, sections)[i] == image[i]
  {
    hide NonZero, VmaByte, IsEntry;
  }

  /** None of the entries writes byte `i`. */
  predicate Untouched(entries: seq<Entry>, i: nat, base: nat, size: nat, sections: seq<Section>) {
    forall j :: 0 <= j < |entries| ==>
      IsEntry(entries[j].quad, base, size) ==> !Fills(entries[j].quad, i, base, size, sections)
  }

  lemma UntouchedFirst(e: Entry, rest: seq<Entry>, i: nat, base: nat, size: nat, sections: seq<Section>)
    requires IsEntry(e.quad, base, size) && Untouched([e] + rest, i, base, size, sections)
    ensures !Fills(e.quad, i, base, size, sections) && Untouched(rest, i, base, size, sections)
  {
    hide Fills, IsEntry;
    assert ([e] + rest)[0] == e;
    assert forall j :: 0 <= j < |rest| ==> rest[j] == ([e] + rest)[j + 1];
  }

  /** Bytes that no entry writes keep their value. */
  lemma {:induction false} OthersKeep(image: seq<Byte>, off: nat, base: nat, sections: seq<Section>, i: nat)
    requires i < |image| && Untouched(Scan(image, off, base, sections).entries, i, base, |image|, sections)
    ensures Scan(image, off, base, sections).image[i] == image[i]
    decreases |image| - off
  {
    hide QuadAt, Fill, Fills, IsEntry, Untouched;
    if off + 16 <= |image| {
      var q := QuadAt(image, off);
      ScanStep(image, off, base, sections);
      hide Scan;
      if IsEntry(q, base, |image|) {
        var next := Fill(image, q, base, sections);
        UntouchedFirst(Entry(off, q), Scan(next, off + 16, base, sections).entries, i, base, |image|, sections);
        FillAt(image, q, base, sections, i);
        OthersKeep(next, off + 16, base, sections, i);
      } else {
        OthersKeep(image, off + 4, base, sections, i);
      }
    }
  }

  lemma ScanStep(image: seq<Byte>, off: nat, base: nat, sections: seq<Section>)
    requires off + 16 <= |image|
    ensures var q := QuadAt(image, off);
            Scan(image, off, base, sections) ==
            if IsEntry(q, base, |image|) then
              var rest := Scan(Fill(image, q, base, sections), off + 16, base, sections);
              Scanned(rest.image, [Entry(off, q)] + rest.entries)
            else Scan(image, off + 4, base, sections)
  {
    hide QuadAt, Fill, IsEntry;
  }

  lemma AfterFirst(e: Entry, rest: seq<Entry>, j: nat)
    requires j <= |rest|
    ensures ([e] + rest)[j + 1..] == rest[j..] && rest[0..] == rest
    ensures j > 0 ==> ([e] + rest)[j] == rest[j - 1]
  {
  }

  /** A byte that entries write ends up as the last of them wants it. */
  lemma {:induction false} LastFillWins(image: seq<Byte>, off: nat, base: nat, sections: seq<Section>, i: nat, j: nat)
    requires i < |image| && j < |Scan(image, off, base, sections).entries|
    requires Fills(Scan(image, off, base, sections).entries[j].quad, i, base, |image|, sections)
    requires Untouched(Scan(image, off, base, sections).entries[j + 1..], i, base, |image|, sections)
    ensures var q := Scan(image, off, base, sections).entries[j].quad;
            base <= q.src <= base + i && Scan(image, off, base, sections).image[i] == Due(q, i, base, sections)
    decreases |image| - off
  {
    hide QuadAt, Fill, Fills, IsEntry, Due, Untouched;
    var all := Scan(image, off, base, sections).entries;
    assert off + 16 <= |image|;
    var q := QuadAt(image, off);
    ScanStep(image, off, base, sections);
    hide Scan;
    if IsEntry(q, base, |image|) {
      var next := Fill(image, q, base, sections);
      var rest := Scan(next, off + 16, base, sections).entries;
      assert all == [Entry(off, q)] + rest;
      AfterFirst(Entry(off, q), rest, j);
      if j == 0 {
        FillAt(image, q, base, sections, i);
        OthersKeep(next, off + 16, base, sections, i);
      } else {
        LastFillWins(next, off + 16, base, sections, i, j - 1);
      }
    } else {
      LastFillWins(image, off + 4, base, sections, i, j);
    }
  }

  /** What the last of the entries to write byte `i` puts there, if any does. */
  function LastFill(entries: seq<Entry>, i: nat, base: nat, size: nat, sections: seq<Section>): Option<Byte>
    decreases |entries|
  {
    if entries == [] then None
    else
      var later, q := LastFill(entries[1..], i, base, size, sections), entries[0].quad;
      if later.Some? then later
      else if IsEntry(q, base, size) && Fills(q, i, base, size, sections) then Some(Due(q, i, base, sections))
      else None
  }

  function Or(b: Option<Byte>, otherwise: Byte): Byte {
    match b
    case Some(v) => v
    case None => otherwise
  }

  /** Every byte of the image afterwards: as the last entry to write it wants it, or as it was. */
  lemma {:induction false} ScanByte(image: seq<Byte>, off: nat, base: nat, sections: seq<Section>, i: nat)
    requires i < |image|
    ensures var scan := Scan(image, off, base, sections);
            scan.image[i] == Or(LastFill(scan.entries, i, base, |image|, sections), image[i])
    decreases |image| - off
  {
    hide QuadAt, Fill, Fills, IsEntry, Due;
    if off + 16 <= |image| {
      var q := QuadAt(image, off);
      ScanStep(image, off, base, sections);
      hide Scan;
      if IsEntry(q, base, |image|) {
        var next := Fill(image, q, base, sections);
        var rest := Scan(next, off + 16, base, sections).entries;
        FillAt(image, q, base, sections, i);
        ScanByte(next, off + 16, base, sections, i);
        assert ([Entry(off, q)] + rest)[1..] == rest;
      } else {
        ScanByte(image, off + 4, base, sections, i);
      }
    }
  }

  // ---------------------------------------------------------------------------------------------
  // The table afterwards
  // ---------------------------------------------------------------------------------------------

  /** The image as it was when entry `j` was met. */
  lemma {:induction false} AsRead(image: seq<Byte>, off: nat, base: nat, sections: seq<Section>, j: nat)
    returns (was: seq<Byte>)
    requires j < |Scan(image, off, base, sections).entries|
    ensures var scan := Scan(image, off, base, sections);
            var e := scan.entries[j];
            && |was| == |image| && QuadAt(was, e.off) == e.quad
            && Scan(was, e.off, base, sections) == Scanned(scan.image, scan.entries[j..])
    decreases |image| - off
  {
    hide QuadAt, Fill, IsEntry;
    var q, all := QuadAt(image, off), Scan(image, off, base, sections).entries;
    ScanStep(image, off, base, sections);
    hide Scan;
    if IsEntry(q, base, |image|) {
      var next := Fill(image, q, base, sections);
      var rest := Scan(next, off + 16, base, sections).entries;
      if j == 0 {
        was := image;
        assert all[0..] == all;
      } else {
        was := AsRead(next, off + 16, base, sections, j - 1);
        assert all[j..] == rest[j - 1..];
      }
    } else {
      was := AsRead(image, off + 4, base, sections, j);
    }
  }

  /** The `k`-th byte of a word, and of a quadruple. */
  function ByteOf(n: nat, k: nat): nat {
    if k == 0 then n % 0x100 else ByteOf(n / 0x100, k - 1)
  }

  function QuadByte(q: Quad, k: nat): nat
    requires k < 16
  {
    if k < 4 then ByteOf(q.dstStart, k) else if k < 8 then ByteOf(q.dstEnd, k - 4)
    else if k < 12 then ByteOf(q.src, k - 8) else ByteOf(q.term, k - 12)
  }

  lemma WordBytes(s: seq<Byte>, at: nat)
    requires at + 4 <= |s|
    ensures var n := Word(s, at);
            ByteOf(n, 0) == s[at] && ByteOf(n, 1) == s[at + 1] && ByteOf(n, 2) == s[at + 2] && ByteOf(n, 3) == s[at + 3]
  {
    var a, b, c, d := s[at] as int, s[at + 1] as int, s[at + 2] as int, s[at + 3] as int;
    var n := Word(s, at);
    var n1, n2 := b + 0x100 * c + 0x10000 * d, c + 0x100 * d;
    assert n == a + 0x100 * n1 && n1 == b + 0x100 * n2;
    hide Word;
    Unshift(a, n1);
    Unshift(b, n2);
    Unshift(c, d);
    Unshift(d, 0);
    assert ByteOf(n, 1) == ByteOf(n1, 0) && ByteOf(n, 2) == ByteOf(n1, 1) && ByteOf(n, 3) == ByteOf(n1, 2);
    assert ByteOf(n1, 1) == ByteOf(n2, 0) && ByteOf(n1, 2) == ByteOf(n2, 1) && ByteOf(n2, 1) == ByteOf(d, 0);
  }

  lemma Unshift(low: nat, rest: nat)
    requires low < 0x100
    ensures (low + 0x100 * rest) % 0x100 == low && (low + 0x100 * rest) / 0x100 == rest
  {
  }

  lemma QuadBytes(s: seq<Byte>, at: nat, k: nat)
    requires at + 16 <= |s| && k < 16
    ensures QuadByte(QuadAt(s, at), k) == s[at + k]
  {
    WordBytes(s, at);
    WordBytes(s, at + 4);
    WordBytes(s, at + 8);
    WordBytes(s, at + 12);
    hide Word, ByteOf;
  }

  lemma SameWord(s: seq<Byte>, t: seq<Byte>, at: nat, k: nat)
    requires at + k + 4 <= |s| == |t| && s[at..at + k + 4] == t[at..at + k + 4]
    ensures Word(s, at + k) == Word(t, at + k)
  {
    var u, v := s[at..at + k + 4], t[at..at + k + 4];
    assert u[k] == s[at + k] && u[k + 1] == s[at + k + 1] && u[k + 2] == s[at + k + 2] && u[k + 3] == s[at + k + 3];
    assert v[k] == t[at + k] && v[k + 1] == t[at + k + 1] && v[k + 2] == t[at + k + 2] && v[k + 3] == t[at + k + 3];
  }

  lemma SameQuad(s: seq<Byte>, t: seq<Byte>, at: nat)
    requires at + 16 <= |s| == |t| && s[at..at + 16] == t[at..at + 16]
    ensures QuadAt(s, at) == QuadAt(t, at)
  {
    var u, v := s[at..at + 16], t[at..at + 16];
    assert s[at..at + 4] == u[..4] && s[at..at + 8] == u[..8] && s[at..at + 12] == u[..12];
    assert t[at..at + 4] == v[..4] && t[at..at + 8] == v[..8] && t[at..at + 12] == v[..12];
    SameWord(s, t, at, 0);
    SameWord(s, t, at, 4);
    SameWord(s, t, at, 8);
    SameWord(s, t, at, 12);
    hide Word;
  }

  /** Two images agree on a quadruple exactly when they agree on its bytes. */
  lemma QuadIsItsBytes(s: seq<Byte>, t: seq<Byte>, at: nat)
    requires at + 16 <= |s| == |t|
    ensures QuadAt(s, at) == QuadAt(t, at) <==> forall i :: at <= i < at + 16 ==> s[i] == t[i]
  {
    hide QuadAt, QuadByte;
    if QuadAt(s, at) == QuadAt(t, at) {
      forall i | at <= i < at + 16 ensures s[i] == t[i] {
        QuadBytes(s, at, i - at);
        QuadBytes(t, at, i - at);
      }
    }
    if forall i :: at <= i < at + 16 ==> s[i] == t[i] {
      SameQuad(s, t, at);
    }
  }

  /** Whatever entry `j` and those after it write over its own table bytes, they write what is there. */
  predicate KeepsEntry(entries: seq<Entry>, j: nat, base: nat, size: nat, sections: seq<Section>)
    requires j < |entries|
  {
    forall i :: entries[j].off <= i < entries[j].off + 16 ==> KeepsByte(entries, j, i, base, size, sections)
  }

  predicate KeepsByte(entries: seq<Entry>, j: nat, i: nat, base: nat, size: nat, sections: seq<Section>)
    requires j < |entries| && entries[j].off <= i < entries[j].off + 16
  {
    var fill := LastFill(entries[j..], i, base, size, sections);
    fill == None || fill.value == QuadByte(entries[j].quad, i - entries[j].off)
  }

  lemma ByteKept(was: seq<Byte>, entries: seq<Entry>, j: nat, i: nat, base: nat, sections: seq<Section>, b: Byte)
    requires j < |entries| && entries[j].off <= i < entries[j].off + 16 <= |was|
    requires QuadAt(was, entries[j].off) == entries[j].quad
    requires b == Or(LastFill(entries[j..], i, base, |was|, sections), was[i])
    ensures b == was[i] <==> KeepsByte(entries, j, i, base, |was|, sections)
  {
    hide QuadAt, QuadByte, LastFill;
    QuadBytes(was, entries[j].off, i - entries[j].off);
  }

  /** An entry stands in the image afterwards as it was read, exactly when the entries keep it. */
  lemma TableExact(image: seq<Byte>, base: nat, sections: seq<Section>, j: nat)
    requires j < |Scan(image, 0, base, sections).entries|
    ensures var scan := Scan(image, 0, base, sections);
            var e := scan.entries[j];
            QuadAt(scan.image, e.off) == e.quad <==> KeepsEntry(scan.entries, j, base, |image|, sections)
  {
    var scan := Scan(image, 0, base, sections);
    var e := scan.entries[j];
    var was := AsRead(image, 0, base, sections, j);
    hide Scan, QuadAt, LastFill, KeepsByte, Or;
    QuadIsItsBytes(scan.image, was, e.off);
    forall i | e.off <= i < e.off + 16
      ensures scan.image[i] == was[i] <==> KeepsByte(scan.entries, j, i, base, |image|, sections)
    {
      ScanByte(was, e.off, base, sections, i);
      ByteKept(was, scan.entries, j, i, base, sections, scan.image[i]);
    }
  }

  // ---------------------------------------------------------------------------------------------
  // The ROM's own copy
  // ---------------------------------------------------------------------------------------------

  predicate InSource(q: Quad, i: nat, base: nat, size: nat)
    requires IsEntry(q, base, size)
  {
    var c := ToCopy(q, base, size);
    c.at <= i < c.at + c.size
  }

  predicate InRange(c: Copy, a: nat) { c.dst <= a < c.dst + c.size }

  /** What the start-up code does with an entry: copy its source to its destination. */
  function BootOne(image: seq<Byte>, c: Copy, dram: map<nat, Byte>): map<nat, Byte>
    requires c.at + c.size <= |image|
  {
    dram + map a: nat | c.dst <= a < c.dst + c.size && InRange(c, a) :: image[c.at + (a - c.dst)]
  }

  /** One place of the table: the start-up code reads the quadruple out of the image it runs on. What it does with one
      that is no entry is not modelled. */
  function BootStep(image: seq<Byte>, off: nat, base: nat, dram: map<nat, Byte>): map<nat, Byte> {
    if off + 16 <= |image| && IsEntry(QuadAt(image, off), base, |image|)
    then BootOne(image, ToCopy(QuadAt(image, off), base, |image|), dram)
    else dram
  }

  function Boot(image: seq<Byte>, table: seq<nat>, base: nat, dram: map<nat, Byte>): map<nat, Byte>
    decreases |table|
  {
    if table == [] then dram else Boot(image, table[1..], base, BootStep(image, table[0], base, dram))
  }

  /** Where the entries stand. */
  function Table(entries: seq<Entry>): seq<nat> {
    if entries == [] then [] else [entries[0].off] + Table(entries[1..])
  }

  predicate Entries(entries: seq<Entry>, base: nat, size: nat) {
    forall j :: 0 <= j < |entries| ==> IsEntry(entries[j].quad, base, size)
  }

  /** The entries stand in the image. */
  predicate Intact(image: seq<Byte>, entries: seq<Entry>) {
    forall j :: 0 <= j < |entries| ==>
      entries[j].off + 16 <= |image| && QuadAt(image, entries[j].off) == entries[j].quad
  }

  /** The byte of the image that the last entry with `a` in its destination copies there, if there is one. */
  function LastSource(entries: seq<Entry>, a: nat, base: nat, size: nat): (i: Option<nat>)
    ensures i.Some? ==> i.value < size
    decreases |entries|
  {
    if entries == [] then None
    else
      var later, q := LastSource(entries[1..], a, base, size), entries[0].quad;
      if later.Some? then later
      else if IsEntry(q, base, size) && InRange(ToCopy(q, base, size), a)
      then Some(ToCopy(q, base, size).at + (a - ToCopy(q, base, size).dst))
      else None
  }

  lemma BootOneLookup(image: seq<Byte>, c: Copy, dram: map<nat, Byte>, a: nat)
    requires c.at + c.size <= |image|
    ensures var after := BootOne(image, c, dram);
            if InRange(c, a) then a in after && after[a] == image[c.at + (a - c.dst)]
            else (a in after <==> a in dram) && (a in dram ==> after[a] == dram[a])
  {
  }

  lemma BootStepLookup(image: seq<Byte>, e: Entry, base: nat, dram: map<nat, Byte>, a: nat)
    requires IsEntry(e.quad, base, |image|) && e.off + 16 <= |image| && QuadAt(image, e.off) == e.quad
    ensures var c, after := ToCopy(e.quad, base, |image|), BootStep(image, e.off, base, dram);
            if InRange(c, a) then a in after && after[a] == image[c.at + (a - c.dst)]
            else (a in after <==> a in dram) && (a in dram ==> after[a] == dram[a])
  {
    hide QuadAt, BootOne, IsEntry, InRange;
    BootOneLookup(image, ToCopy(e.quad, base, |image|), dram, a);
  }

  /** With its table intact, the copy puts at every address the byte that the last entry for it has as its source. */
  lemma {:induction false} BootAt(image: seq<Byte>, entries: seq<Entry>, base: nat, dram: map<nat, Byte>, a: nat)
    requires Entries(entries, base, |image|) && Intact(image, entries)
    ensures var after, i := Boot(image, Table(entries), base, dram), LastSource(entries, a, base, |image|);
            if i.Some? then a in after && after[a] == image[i.value]
            else (a in after <==> a in dram) && (a in dram ==> after[a] == dram[a])
    decreases |entries|
  {
    hide IsEntry, QuadAt, BootStep, InRange;
    if entries != [] {
      var e, rest := entries[0], entries[1..];
      BootStepLookup(image, e, base, dram, a);
      assert Table(entries)[1..] == Table(rest);
      BootAt(image, rest, base, BootStep(image, e.off, base, dram), a);
    }
  }

  /** What the copy leaves at an address it writes is right exactly when the last entry to write its source byte put the
      right byte there, or, if none did, it was there from the start. */
  lemma BootExact(image: seq<Byte>, base: nat, sections: seq<Section>, dram: map<nat, Byte>, a: nat, i: nat)
    requires var scan := Scan(image, 0, base, sections);
             && (forall j :: 0 <= j < |scan.entries| ==> KeepsEntry(scan.entries, j, base, |image|, sections))
             && LastSource(scan.entries, a, base, |image|) == Some(i)
    ensures var scan := Scan(image, 0, base, sections);
            var after := Boot(scan.image, Table(scan.entries), base, dram);
            && a in after
            && (after[a] == VmaByte(sections, a) <==>
                Or(LastFill(scan.entries, i, base, |image|, sections), image[i]) == VmaByte(sections, a))
  {
    TableStands(image, base, sections);
    var scan := Scan(image, 0, base, sections);
    assert Entries(scan.entries, base, |scan.image|);
    ScanByte(image, 0, base, sections, i);
    BootAt(scan.image, scan.entries, base, dram, a);
    hide *;
  }

  lemma TableStands(image: seq<Byte>, base: nat, sections: seq<Section>)
    requires var entries := Scan(image, 0, base, sections).entries;
             forall j :: 0 <= j < |entries| ==> KeepsEntry(entries, j, base, |image|, sections)
    ensures var scan := Scan(image, 0, base, sections); Intact(scan.image, scan.entries)
  {
    var scan := Scan(image, 0, base, sections);
    assert forall j :: 0 <= j < |scan.entries| ==> scan.entries[j].off + 16 <= |image|;
    hide Scan, QuadAt, KeepsEntry;
    forall j | 0 <= j < |scan.entries|
      ensures QuadAt(scan.image, scan.entries[j].off) == scan.entries[j].quad
    {
      TableExact(image, base, sections, j);
    }
  }

  // ---------------------------------------------------------------------------------------------
  // When it finds its data
  // ---------------------------------------------------------------------------------------------

  /** Address `a` is where some entry copies to. */
  ghost predicate Destined(entries: seq<Entry>, a: nat, base: nat, size: nat)
    requires Entries(entries, base, size)
  {
    exists j :: 0 <= j < |entries| && InRange(ToCopy(entries[j].quad, base, size), a)
  }

  /** No two entries have a source byte in common. */
  ghost predicate SourcesApart(entries: seq<Entry>, base: nat, size: nat)
    requires Entries(entries, base, size)
  {
    forall a, b, i: nat :: 0 <= a < b < |entries| ==>
      !(InSource(entries[a].quad, i, base, size) && InSource(entries[b].quad, i, base, size))
  }

  /** No entry's source meets an entry's own sixteen bytes. */
  ghost predicate TableApart(entries: seq<Entry>, base: nat, size: nat)
    requires Entries(entries, base, size)
  {
    forall j, k, i :: 0 <= j < |entries| && 0 <= k < |entries| && entries[j].off <= i < entries[j].off + 16 ==>
      !InSource(entries[k].quad, i, base, size)
  }

  /** An entry for which the sections have nothing but zeros finds zeros at its source. */
  ghost predicate BlankWhereNoData(image: seq<Byte>, q: Quad, base: nat, sections: seq<Section>)
    requires IsEntry(q, base, |image|)
  {
    forall i :: 0 <= i < |image| && InSource(q, i, base, |image|) && !Fills(q, i, base, |image|, sections) ==>
      image[i] == 0
  }

  lemma NoDataDue(q: Quad, i: nat, base: nat, size: nat, sections: seq<Section>)
    requires IsEntry(q, base, size) && InSource(q, i, base, size) && !Fills(q, i, base, size, sections)
    ensures Due(q, i, base, sections) == 0
  {
    hide VmaByte, IsEntry;
    var n := q.dstEnd - q.dstStart;
    var vals := Values(sections, q.dstStart, n);
    assert vals[base + i - q.src] == 0;
  }

  lemma DueAt(q: Quad, base: nat, size: nat, sections: seq<Section>, a: nat)
    requires IsEntry(q, base, size) && InRange(ToCopy(q, base, size), a)
    ensures var c := ToCopy(q, base, size);
            InSource(q, c.at + (a - c.dst), base, size)
            && Due(q, c.at + (a - c.dst), base, sections) == VmaByte(sections, a)
  {
    hide VmaByte;
    var c := ToCopy(q, base, size);
    var i := c.at + (a - c.dst);
    assert q.dstStart + (base + i - q.src) == a;
  }

  /** The last source of an address is the source of an entry, at the place where the address's byte is due. */
  lemma {:induction false} LastSourceOf(entries: seq<Entry>, a: nat, base: nat, size: nat, sections: seq<Section>)
    returns (j: nat)
    requires Entries(entries, base, size) && Destined(entries, a, base, size)
    ensures var i := LastSource(entries, a, base, size);
            && i.Some? && j < |entries| && InSource(entries[j].quad, i.value, base, size)
            && Due(entries[j].quad, i.value, base, sections) == VmaByte(sections, a)
    decreases |entries|
  {
    var q, rest := entries[0].quad, entries[1..];
    assert forall k :: 0 <= k < |rest| ==> rest[k] == entries[k + 1];
    if Destined(rest, a, base, size) {
      hide IsEntry, InRange, Due, VmaByte, InSource;
      var k := LastSourceOf(rest, a, base, size, sections);
      j := k + 1;
    } else {
      NotDestined(rest, a, base, size);
      OnlyFirst(entries, a, base, size);
      j := 0;
      DueAt(q, base, size, sections, a);
    }
  }

  lemma OnlyFirst(entries: seq<Entry>, a: nat, base: nat, size: nat)
    requires Entries(entries, base, size) && Destined(entries, a, base, size) && !Destined(entries[1..], a, base, size)
    ensures InRange(ToCopy(entries[0].quad, base, size), a)
  {
    hide IsEntry, InRange;
    var rest := entries[1..];
    forall k | 0 < k < |entries| ensures !InRange(ToCopy(entries[k].quad, base, size), a) {
      assert entries[k] == rest[k - 1];
    }
  }

  lemma {:induction false} NotDestined(entries: seq<Entry>, a: nat, base: nat, size: nat)
    requires Entries(entries, base, size) && !Destined(entries, a, base, size)
    ensures LastSource(entries, a, base, size) == None
    decreases |entries|
  {
    hide IsEntry, InRange;
    if entries != [] {
      var rest := entries[1..];
      assert forall k :: 0 <= k < |rest| ==> rest[k] == entries[k + 1];
      NotDestined(rest, a, base, size);
    }
  }

  lemma {:induction false} NoFill(entries: seq<Entry>, i: nat, base: nat, size: nat, sections: seq<Section>)
    requires Untouched(entries, i, base, size, sections)
    ensures LastFill(entries, i, base, size, sections) == None
    decreases |entries|
  {
    hide IsEntry, Fills, Due;
    if entries != [] {
      assert forall k :: 0 <= k < |entries[1..]| ==> entries[1..][k] == entries[k + 1];
      NoFill(entries[1..], i, base, size, sections);
    }
  }

  /** If only entry `j` can write byte `i`, it decides. */
  lemma {:induction false} OnlyFill(entries: seq<Entry>, j: nat, i: nat, base: nat, size: nat, sections: seq<Section>)
    requires Entries(entries, base, size) && j < |entries|
    requires forall k :: 0 <= k < |entries| && k != j ==> !Fills(entries[k].quad, i, base, size, sections)
    ensures LastFill(entries, i, base, size, sections)
         == if Fills(entries[j].quad, i, base, size, sections) then Some(Due(entries[j].quad, i, base, sections)) else None
    decreases |entries|
  {
    var rest := entries[1..];
    assert forall k :: 0 <= k < |rest| ==> rest[k] == entries[k + 1];
    hide IsEntry, Fills, Due;
    if j == 0 {
      NoFill(rest, i, base, size, sections);
    } else {
      OnlyFill(rest, j - 1, i, base, size, sections);
    }
  }

  lemma OthersDoNotFill(entries: seq<Entry>, j: nat, i: nat, base: nat, size: nat, sections: seq<Section>)
    requires Entries(entries, base, size) && SourcesApart(entries, base, size)
    requires j < |entries| && InSource(entries[j].quad, i, base, size)
    ensures forall k :: 0 <= k < |entries| && k != j ==> !Fills(entries[k].quad, i, base, size, sections)
  {
    hide IsEntry;
    forall k | 0 <= k < |entries| && k != j ensures !Fills(entries[k].quad, i, base, size, sections) {
      assert !InSource(entries[k].quad, i, base, size);
    }
  }

  lemma ApartKeepsEntry(entries: seq<Entry>, j: nat, base: nat, size: nat, sections: seq<Section>)
    requires Entries(entries, base, size) && TableApart(entries, base, size) && j < |entries|
    ensures KeepsEntry(entries, j, base, size, sections)
  {
    hide IsEntry;
    forall i | entries[j].off <= i < entries[j].off + 16 ensures KeepsByte(entries, j, i, base, size, sections) {
      var rest := entries[j..];
      forall k | 0 <= k < |rest| ensures !InSource(rest[k].quad, i, base, size) {
        assert rest[k] == entries[j + k];
      }
      NoFill(rest, i, base, size, sections);
    }
  }

  /** The byte that ends up at the only source of an address is the one due there. */
  lemma SourceEndsRight(image: seq<Byte>, entries: seq<Entry>, base: nat, sections: seq<Section>, j: nat, i: nat)
    requires Entries(entries, base, |image|) && SourcesApart(entries, base, |image|)
    requires j < |entries| && i < |image| && InSource(entries[j].quad, i, base, |image|)
    requires BlankWhereNoData(image, entries[j].quad, base, sections)
    ensures Or(LastFill(entries, i, base, |image|, sections), image[i]) == Due(entries[j].quad, i, base, sections)
  {
    OthersDoNotFill(entries, j, i, base, |image|, sections);
    OnlyFill(entries, j, i, base, |image|, sections);
    hide IsEntry, Due, LastFill;
    if !Fills(entries[j].quad, i, base, |image|, sections) {
      NoDataDue(entries[j].quad, i, base, |image|, sections);
    }
  }

  /** What the image is filled in for. If the entries' sources overlap neither each other nor the table, and entries
      without data find zeros, then the ROM's own copy, reading its table from the filled-in image, puts at every
      destination address exactly the byte that the ROM file's sections hold there. */
  lemma BootFindsItsData(image: seq<Byte>, base: nat, sections: seq<Section>, dram: map<nat, Byte>, a: nat)
    requires var entries := Scan(image, 0, base, sections).entries;
             && SourcesApart(entries, base, |image|) && TableApart(entries, base, |image|)
             && (forall j :: 0 <= j < |entries| ==> BlankWhereNoData(image, entries[j].quad, base, sections))
             && Destined(entries, a, base, |image|)
    ensures var scan := Scan(image, 0, base, sections);
            var after := Boot(scan.image, Table(scan.entries), base, dram);
            a in after && after[a] == VmaByte(sections, a)
  {
    var entries := Scan(image, 0, base, sections).entries;
    assert Entries(entries, base, |image|);
    hide Scan, IsEntry, Due, VmaByte, Boot, BlankWhereNoData, Destined, LastSource, LastFill, KeepsEntry, SourcesApart,
         TableApart, Or;
    forall j | 0 <= j < |entries| ensures KeepsEntry(entries, j, base, |image|, sections) {
      ApartKeepsEntry(entries, j, base, |image|, sections);
    }
    var j := LastSourceOf(entries, a, base, |image|, sections);
    var i := LastSource(entries, a, base, |image|).value;
    SourceEndsRight(image, entries, base, sections, j, i);
    BootExact(image, base, sections, dram, a, i);
  }

  // ---------------------------------------------------------------------------------------------
  // The table before the run
  // ---------------------------------------------------------------------------------------------

  /** The entries of an image that nobody writes to meanwhile. */
  function Found(image: seq<Byte>, off: nat, base: nat): (entries: seq<Entry>)
    ensures forall j :: 0 <= j < |entries| ==> IsEntry(entries[j].quad, base, |image|)
    decreases |image| - off
  {
    if off + 16 > |image| then []
    else
      var q := QuadAt(image, off);
      if IsEntry(q, base, |image|) then [Entry(off, q)] + Found(image, off + 16, base) else Found(image, off + 4, base)
  }

  /** Four bytes as a little-endian word. */
  ghost function LittleEndian(s: seq<Byte>, at: nat): int
    requires at + 4 <= |s|
  {
    ((s[at + 3] as int * 0x100 + s[at + 2] as int) * 0x100 + s[at + 1] as int) * 0x100 + s[at] as int
  }

  /** Four words that can be an entry: a destination of less than 64 KiB inside the data RAM from 0x3fc88000 up to
      0x3fd00000, a source in the image, and a zero. */
  ghost predicate Candidate(image: seq<Byte>, off: nat, base: nat) {
    off + 16 <= |image| &&
    var start, end := LittleEndian(image, off), LittleEndian(image, off + 4);
    && 0x3fc88000 <= start <= end < 0x3fd00000 && end - start < 0x10000
    && base <= LittleEndian(image, off + 8) < base + |image| && LittleEndian(image, off + 12) == 0
  }

  lemma CandidateIs(image: seq<Byte>, off: nat, base: nat)
    ensures Candidate(image, off, base) <==> off + 16 <= |image| && IsEntry(QuadAt(image, off), base, |image|)
  {
    if off + 16 <= |image| {
      WordIs(image, off);
      WordIs(image, off + 4);
      WordIs(image, off + 8);
      WordIs(image, off + 12);
      hide Word, LittleEndian;
    }
  }

  lemma WordIs(s: seq<Byte>, at: nat)
    requires at + 4 <= |s|
    ensures Word(s, at) == LittleEndian(s, at)
  {
  }

  /** The bytes that an entry concerns: those of the image from its source on, as many as its destination has, and the
      addresses of its destination, in both cases as far as the image reaches. */
  lemma CopyExact(q: Quad, base: nat, size: nat, i: nat, a: nat)
    requires IsEntry(q, base, size)
    ensures InSource(q, i, base, size) <==> i < size && q.src <= base + i < q.src + (q.dstEnd - q.dstStart)
    ensures InRange(ToCopy(q, base, size), a) <==>
            q.dstStart <= a < q.dstEnd && q.src + (a - q.dstStart) < base + size
  {
  }

  ghost predicate Listed(entries: seq<Entry>, off: nat) {
    exists j :: 0 <= j < |entries| && entries[j].off == off
  }

  ghost predicate InsideOne(entries: seq<Entry>, off: nat) {
    exists j :: 0 <= j < |entries| && entries[j].off < off < entries[j].off + 16
  }

  /** A place that a scan from `from` on can look at. */
  ghost predicate OnGrid(off: nat, from: nat) {
    from <= off && (off - from) % 4 == 0
  }

  ghost predicate AtCandidates(entries: seq<Entry>, image: seq<Byte>, from: nat, base: nat) {
    forall j :: 0 <= j < |entries| ==> OnGrid(entries[j].off, from) && Candidate(image, entries[j].off, base)
  }

  ghost predicate Apart(entries: seq<Entry>) {
    forall j :: 0 < j < |entries| ==> entries[j - 1].off + 16 <= entries[j].off
  }

  ghost predicate NoneMissed(entries: seq<Entry>, image: seq<Byte>, from: nat, base: nat) {
    forall off: nat :: OnGrid(off, from) && Candidate(image, off, base) ==> Listed(entries, off) || InsideOne(entries, off)
  }

  /** Greedy selection from `from` on: the entries stand at candidates, sixteen bytes or more apart, in order; and every
      candidate is one of them or begins inside one. */
  ghost predicate Greedy(entries: seq<Entry>, image: seq<Byte>, from: nat, base: nat) {
    AtCandidates(entries, image, from, base) && Apart(entries) && NoneMissed(entries, image, from, base)
  }

  lemma GreedyEnds(image: seq<Byte>, from: nat, base: nat)
    requires from + 16 > |image|
    ensures Greedy([], image, from, base)
  {
    hide LittleEndian;
  }

  lemma GridFour(off: nat, from: nat)
    ensures OnGrid(off, from) <==> off == from || OnGrid(off, from + 4)
  {
  }

  lemma GridSixteen(off: nat, from: nat)
    ensures OnGrid(off, from + 16) ==> OnGrid(off, from)
    ensures OnGrid(off, from) ==> off < from + 16 || OnGrid(off, from + 16)
  {
    GridFour(off, from);
    GridFour(off, from + 4);
    GridFour(off, from + 8);
    GridFour(off, from + 12);
  }

  lemma GreedySkips(entries: seq<Entry>, image: seq<Byte>, from: nat, base: nat)
    requires Greedy(entries, image, from + 4, base) && !Candidate(image, from, base)
    ensures Greedy(entries, image, from, base)
  {
    forall off: nat ensures OnGrid(off, from) <==> off == from || OnGrid(off, from + 4) { GridFour(off, from); }
    hide Candidate, Listed, InsideOne, OnGrid, Apart;
  }

  lemma GreedyTakes(entries: seq<Entry>, q: Quad, image: seq<Byte>, from: nat, base: nat)
    requires Greedy(entries, image, from + 16, base) && Candidate(image, from, base)
    ensures Greedy([Entry(from, q)] + entries, image, from, base)
  {
    hide Candidate, Listed, InsideOne, OnGrid, Apart, AtCandidates, NoneMissed;
    TakenAtCandidates(entries, q, image, from, base);
    TakenNoneMissed(entries, q, image, from, base);
  }

  lemma TakenAtCandidates(entries: seq<Entry>, q: Quad, image: seq<Byte>, from: nat, base: nat)
    requires AtCandidates(entries, image, from + 16, base) && Apart(entries) && Candidate(image, from, base)
    ensures AtCandidates([Entry(from, q)] + entries, image, from, base) && Apart([Entry(from, q)] + entries)
  {
    var all := [Entry(from, q)] + entries;
    assert OnGrid(from, from);
    forall j | 0 <= j < |entries| ensures entries[j].off >= from + 16 {
      assert OnGrid(entries[j].off, from + 16);
    }
    hide Candidate, OnGrid;
    forall j | 0 <= j < |all| ensures OnGrid(all[j].off, from) && Candidate(image, all[j].off, base) {
      if j > 0 {
        assert all[j] == entries[j - 1];
        GridSixteen(all[j].off, from);
      }
    }
    forall j | 0 < j < |all| ensures all[j - 1].off + 16 <= all[j].off {
      assert all[j] == entries[j - 1];
      if j > 1 { assert all[j - 1] == entries[j - 2]; }
    }
  }

  lemma TakenNoneMissed(entries: seq<Entry>, q: Quad, image: seq<Byte>, from: nat, base: nat)
    requires NoneMissed(entries, image, from + 16, base)
    ensures NoneMissed([Entry(from, q)] + entries, image, from, base)
  {
    var all := [Entry(from, q)] + entries;
    forall off: nat ensures OnGrid(off, from) ==> from <= off { }
    hide Candidate, OnGrid;
    assert all[0].off == from;
    forall off: nat | OnGrid(off, from) && Candidate(image, off, base) ensures Listed(all, off) || InsideOne(all, off) {
      GridSixteen(off, from);
      if off >= from + 16 { LaterIn(Entry(from, q), entries, off); }
    }
  }

  lemma LaterIn(e: Entry, entries: seq<Entry>, off: nat)
    requires Listed(entries, off) || InsideOne(entries, off)
    ensures Listed([e] + entries, off) || InsideOne([e] + entries, off)
  {
    var all := [e] + entries;
    if Listed(entries, off) {
      var j :| 0 <= j < |entries| && entries[j].off == off;
      assert all[j + 1].off == off;
    } else {
      var j :| 0 <= j < |entries| && entries[j].off < off < entries[j].off + 16;
      assert all[j + 1].off < off < all[j + 1].off + 16;
    }
  }

  /** The entries of an image are the candidates at multiples of four, from the first on, that do not begin inside an
      entry taken before. */
  lemma {:induction false} FoundExact(image: seq<Byte>, from: nat, base: nat)
    ensures Greedy(Found(image, from, base), image, from, base)
    decreases |image| - from
  {
    hide Greedy, Candidate, QuadAt, IsEntry;
    if from + 16 > |image| {
      GreedyEnds(image, from, base);
    } else {
      CandidateIs(image, from, base);
      if IsEntry(QuadAt(image, from), base, |image|) {
        FoundExact(image, from + 16, base);
        GreedyTakes(Found(image, from + 16, base), QuadAt(image, from), image, from, base);
      } else {
        FoundExact(image, from + 4, base);
        GreedySkips(Found(image, from + 4, base), image, from, base);
      }
    }
  }

  /** The source of an entry lies wholly behind the entry's end, or there is no data for it. */
  predicate Behind(e: Entry, base: nat, size: nat, sections: seq<Section>)
    requires IsEntry(e.quad, base, size)
  {
    var c := ToCopy(e.quad, base, size);
    c.at + c.size <= e.off + 16 || !NonZero(Values(sections, e.quad.dstStart, e.quad.dstEnd - e.quad.dstStart))
  }

  ghost predicate AllBehind(entries: seq<Entry>, base: nat, size: nat, sections: seq<Section>) {
    forall j :: 0 <= j < |entries| ==> IsEntry(entries[j].quad, base, size) && Behind(entries[j], base, size, sections)
  }

  /** Two images agree from `off` on. */
  ghost predicate SameFrom(a: seq<Byte>, b: seq<Byte>, off: nat) {
    |a| == |b| && forall i :: off <= i < |a| ==> a[i] == b[i]
  }

  lemma SameQuads(a: seq<Byte>, b: seq<Byte>, off: nat)
    requires SameFrom(a, b, off) && off + 16 <= |a|
    ensures QuadAt(a, off) == QuadAt(b, off)
  {
  }

  lemma BehindFill(now: seq<Byte>, image: seq<Byte>, e: Entry, base: nat, sections: seq<Section>)
    requires SameFrom(now, image, e.off) && IsEntry(e.quad, base, |now|) && Behind(e, base, |now|, sections)
    ensures SameFrom(Fill(now, e.quad, base, sections), image, e.off + 16)
  {
    hide Fill, IsEntry, Values, NonZero;
    var next := Fill(now, e.quad, base, sections);
    forall i | e.off + 16 <= i < |next| ensures next[i] == image[i] {
      FillAt(now, e.quad, base, sections, i);
    }
  }

  lemma BehindFirst(e: Entry, rest: seq<Entry>, base: nat, size: nat, sections: seq<Section>)
    requires AllBehind([e] + rest, base, size, sections)
    ensures IsEntry(e.quad, base, size) && Behind(e, base, size, sections) && AllBehind(rest, base, size, sections)
  {
    hide Behind, IsEntry;
    var all := [e] + rest;
    assert all[0] == e;
    forall j | 0 <= j < |rest| ensures IsEntry(rest[j].quad, base, size) && Behind(rest[j], base, size, sections) {
      assert rest[j] == all[j + 1];
    }
  }

  lemma {:induction false} FoundFrom(now: seq<Byte>, image: seq<Byte>, off: nat, base: nat, sections: seq<Section>)
    requires SameFrom(now, image, off) && AllBehind(Found(image, off, base), base, |image|, sections)
    ensures Scan(now, off, base, sections).entries == Found(image, off, base)
    decreases |image| - off
  {
    hide QuadAt, Fill, IsEntry, AllBehind, SameFrom, Behind;
    SameSize(now, image, off);
    if off + 16 <= |image| {
      var q := QuadAt(image, off);
      SameQuads(now, image, off);
      ScanStep(now, off, base, sections);
      hide Scan;
      if IsEntry(q, base, |image|) {
        BehindFirst(Entry(off, q), Found(image, off + 16, base), base, |image|, sections);
        BehindFill(now, image, Entry(off, q), base, sections);
        FoundFrom(Fill(now, q, base, sections), image, off + 16, base, sections);
      } else {
        SameLater(now, image, off);
        FoundFrom(now, image, off + 4, base, sections);
      }
    }
  }

  lemma SameSize(a: seq<Byte>, b: seq<Byte>, off: nat)
    requires SameFrom(a, b, off)
    ensures |a| == |b|
  {
  }

  lemma SameLater(a: seq<Byte>, b: seq<Byte>, off: nat)
    requires SameFrom(a, b, off)
    ensures SameFrom(a, b, off + 4)
  {
  }

  /** If every source lies behind its entry, the run finds the entries that stand in the image before it. */
  lemma EntriesBeforehand(image: seq<Byte>, base: nat, sections: seq<Section>)
    requires AllBehind(Found(image, 0, base), base, |image|, sections)
    ensures Scan(image, 0, base, sections).entries == Found(image, 0, base)
  {
    FoundFrom(image, image, 0, base, sections);
  }

  /** Hence conditions on the image alone: with sources behind their entries that overlap neither each other nor the
      table, and zeros where the file has no data, the ROM's copy puts the right byte at every destination. */
  lemma BootFindsItsDataBeforehand(image: seq<Byte>, base: nat, sections: seq<Section>, dram: map<nat, Byte>, a: nat)
    requires var entries := Found(image, 0, base);
             && AllBehind(entries, base, |image|, sections)
             && SourcesApart(entries, base, |image|) && TableApart(entries, base, |image|)
             && (forall j :: 0 <= j < |entries| ==> BlankWhereNoData(image, entries[j].quad, base, sections))
             && Destined(entries, a, base, |image|)
    ensures var scan := Scan(image, 0, base, sections);
            var after := Boot(scan.image, Table(scan.entries), base, dram);
            a in after && after[a] == VmaByte(sections, a)
  {
    EntriesBeforehand(image, base, sections);
    hide Scan, Found, IsEntry, VmaByte, Boot, BlankWhereNoData, Destined, SourcesApart, TableApart, AllBehind;
    BootFindsItsData(image, base, sections, dram, a);
  }

  // ---------------------------------------------------------------------------------------------
  // A table that overwrites itself
  // ---------------------------------------------------------------------------------------------

  function Ones(n: nat): (s: seq<Byte>)
    ensures |s| == n && forall i :: 0 <= i < n ==> s[i] == 1
  {
    if n == 0 then [] else Ones(n - 1) + [1]
  }

  /** An image of nothing but one entry, sixteen bytes long, whose source is the entry itself. */
  const SELF_IMAGE: seq<Byte> := [0x00, 0x80, 0xc8, 0x3f, 0x10, 0x80, 0xc8, 0x3f, 0, 0, 0, 0x40, 0, 0, 0, 0]
  const SELF_BASE := 0x40000000
  const SELF_ENTRY := Entry(0, Quad(DRAM_LO, DRAM_LO + 16, SELF_BASE, 0))

  lemma SelfIsEntry()
    ensures QuadAt(SELF_IMAGE, 0) == SELF_ENTRY.quad && IsEntry(SELF_ENTRY.quad, SELF_BASE, 16)
  {
  }

  lemma SelfFilled(sections: seq<Section>)
    requires sections == [Section(DRAM_LO, Ones(16))]
    ensures Fill(SELF_IMAGE, SELF_ENTRY.quad, SELF_BASE, sections) == Ones(16)
  {
    hide Fill, Values, QuadAt, IsEntry, NonZero, Ones;
    SelfIsEntry();
    OneValues(sections);
    FilledWhole(SELF_IMAGE, SELF_ENTRY.quad, SELF_BASE, sections);
  }

  lemma FilledWhole(image: seq<Byte>, q: Quad, base: nat, sections: seq<Section>)
    requires IsEntry(q, base, |image|) && q.src == base && q.dstEnd - q.dstStart == |image|
    requires NonZero(Values(sections, q.dstStart, |image|))
    ensures Fill(image, q, base, sections) == Values(sections, q.dstStart, |image|)
  {
    var vals := Values(sections, q.dstStart, |image|);
    hide NonZero, Values;
    WholePatch(image, vals);
  }

  lemma OneValues(sections: seq<Section>)
    requires sections == [Section(DRAM_LO, Ones(16))]
    ensures Values(sections, DRAM_LO, 16) == Ones(16) && NonZero(Ones(16))
  {
    hide Values, Ones;
    assert Ones(16)[0] != 0;
    var vals := Values(sections, DRAM_LO, 16);
    forall k | 0 <= k < 16 ensures vals[k] == 1 {
      assert Covers(sections[0], DRAM_LO + k);
    }
    hide VmaByte, NonZero;
    assert vals == Ones(16);
  }

  lemma WholePatch(image: seq<Byte>, vals: seq<Byte>)
    requires |image| == |vals|
    ensures Patch(image, 0, vals) == vals
  {
  }

  lemma OnesAreNoEntry()
    ensures !IsEntry(QuadAt(Ones(16), 0), SELF_BASE, 16)
  {
    assert Word(Ones(16), 0) == 0x01010101;
  }

  /** Without the condition on the table the claim fails: here the fill destroys the entry it was made for, and the ROM's
      copy leaves the address it was meant to write as it was. */
  lemma OverwrittenTableCopiesNothing(sections: seq<Section>, dram: map<nat, Byte>)
    requires sections == [Section(DRAM_LO, Ones(16))]
    ensures var scan := Scan(SELF_IMAGE, 0, SELF_BASE, sections);
            && scan.entries == [SELF_ENTRY]
            && SourcesApart(scan.entries, SELF_BASE, 16) && Destined(scan.entries, DRAM_LO, SELF_BASE, 16)
            && BlankWhereNoData(SELF_IMAGE, SELF_ENTRY.quad, SELF_BASE, sections)
            && Boot(scan.image, Table(scan.entries), SELF_BASE, dram) == dram
  {
    SelfIsEntry();
    SelfFilled(sections);
    OnesAreNoEntry();
    SelfHasData(sections);
    hide QuadAt, Fill, Fills;
    ScanStep(SELF_IMAGE, 0, SELF_BASE, sections);
    var scan := Scan(SELF_IMAGE, 0, SELF_BASE, sections);
    assert Scan(Ones(16), 16, SELF_BASE, sections) == Scanned(Ones(16), []);
    assert scan == Scanned(Ones(16), [SELF_ENTRY]);
    assert InRange(ToCopy(scan.entries[0].quad, SELF_BASE, 16), DRAM_LO);
    assert Table([SELF_ENTRY]) == [0] + [];
    assert [0][1..] == [];
  }

  lemma SelfHasData(sections: seq<Section>)
    requires sections == [Section(DRAM_LO, Ones(16))] && IsEntry(SELF_ENTRY.quad, SELF_BASE, 16)
    ensures forall i :: 0 <= i < 16 ==> Fills(SELF_ENTRY.quad, i, SELF_BASE, 16, sections)
  {
    var vals := Values(sections, DRAM_LO, 16);
    assert Covers(sections[0], DRAM_LO + 0);
    assert vals[0] == 1;
    hide Values;
  }
}
