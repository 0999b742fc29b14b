/**
 `bounded_tar`: the physical walk over an expanded TAR stream that bounds headers, payload and hidden metadata
 before anything interprets them, and the default bound of `selected_members`.
 */
module BoundedTar {
  import opened Prelude

  const BLOCK: nat := 512

  /** What one 512-byte physical header says: extension records carry metadata, the rest payload. */
  datatype HeaderKind = Extension | GnuSparse | Ordinary

  datatype Header = Header(kind: HeaderKind, size: int)

  /** `TarInfo.frombuf` on one block; None where it raises. */
  type HeaderReader = seq<Byte> -> Option<Header>

  datatype Limits = Limits(count: int, individual: int, total: int, expanded: int, metadata: int, metadataTotal: int) {
    predicate AnyNegative() {
      count < 0 || individual < 0 || total < 0 || expanded < 0 || metadata < 0 || metadataTotal < 0
    }
  }

  datatype Stats = Stats(records: nat, payload: int, extensions: nat, metadata: int, largest: int)

  const NO_STATS := Stats(0, 0, 0, 0, 0)

  datatype Fault =
    | NegativeBounds | ExpandedBound | TruncatedBlock | InvalidHeader | CountBound | NegativeSize | Sparse
    | MetadataBound | PayloadBound | TruncatedPayload

  predicate IsZero(block: seq<Byte>) {
    forall i :: 0 <= i < |block| ==> block[i] == 0
  }

  /** Such a block holds no byte but zero. */
  lemma IsZeroMeans(block: seq<Byte>)
    ensures IsZero(block) <==> forall b :: b in block ==> b == 0
  {
    if forall b :: b in block ==> b == 0 {
      forall i | 0 <= i < |block| ensures block[i] == 0 { assert block[i] in block; }
    }
  }

  /** `(size + 511) // 512 * 512`. */
  function Padded(size: nat): (r: nat)
    ensures size <= r <= size + 511
  {
    (size + 511) / BLOCK * BLOCK
  }

  /** A place between the blocks of a stream that is made of whole blocks. */
  predicate OnBlock(data: seq<Byte>, offset: nat) {
    offset <= |data| && offset % BLOCK == 0 && |data| % BLOCK == 0
  }

  lemma BlockFits(data: seq<Byte>, offset: nat)
    requires OnBlock(data, offset)
    ensures offset <= |data|
    ensures offset < |data| ==> offset + BLOCK <= |data| && OnBlock(data, offset + BLOCK)
  {
  }

  lemma BodyFits(data: seq<Byte>, offset: nat, size: nat)
    requires OnBlock(data, offset)
    ensures offset + BLOCK + Padded(size) <= |data| ==> OnBlock(data, offset + BLOCK + Padded(size))
  {
  }

  /** The bookkeeping for one header: new statistics, or the bound it breaks. */
  function Account(h: Header, st: Stats, limits: Limits): Result<Stats, Fault> {
    if st.records + 1 > limits.count then Err(CountBound)
    else if h.size < 0 then Err(NegativeSize)
    else if h.kind.GnuSparse? then Err(Sparse)
    else if h.kind.Extension? then
      if h.size > limits.metadata || st.metadata + h.size > limits.metadataTotal then Err(MetadataBound)
      else Ok(Stats(st.records + 1, st.payload, st.extensions + 1, st.metadata + h.size, Max(st.largest, h.size)))
    else
      if h.size > limits.individual || st.payload + h.size > limits.total then Err(PayloadBound)
      else Ok(st.(records := st.records + 1, payload := st.payload + h.size))
  }

  function ScanFrom(data: seq<Byte>, offset: nat, read: HeaderReader, limits: Limits, st: Stats): Result<Stats, Fault>
    requires OnBlock(data, offset)
    decreases |data| - offset
  {
    BlockFits(data, offset);
    if offset == |data| then Ok(st)
    else
      var block := data[offset..offset + BLOCK];
      if IsZero(block) then ScanFrom(data, offset + BLOCK, read, limits, st)
      else
        var h := read(block);
        if h.None? then Err(InvalidHeader)
        else
          var more := Account(h.value, st, limits);
          if more.Err? then more
          else if offset + BLOCK + Padded(h.value.size) > |data| then Err(TruncatedPayload)
          else
            BodyFits(data, offset, h.value.size);
            ScanFrom(data, offset + BLOCK + Padded(h.value.size), read, limits, more.value)
  }

  function Scan(data: seq<Byte>, read: HeaderReader, limits: Limits): Result<Stats, Fault> {
    if limits.AnyNegative() then Err(NegativeBounds)
    else if |data| > limits.expanded then Err(ExpandedBound)
    else if |data| % BLOCK != 0 then Err(TruncatedBlock)
    else ScanFrom(data, 0, read, limits, NO_STATS)
  }

  /** `bounded_tar` on the decompressed stream. */
  method BoundTar(data: seq<Byte>, read: HeaderReader, limits: Limits) returns (r: Result<Stats, Fault>)
    ensures r == Scan(data, read, limits)
  {
    if limits.AnyNegative() { return Err(NegativeBounds); }
    if |data| > limits.expanded { return Err(ExpandedBound); }
    if |data| % BLOCK != 0 { return Err(TruncatedBlock); }
    assert OnBlock(data, 0);
    hide Padded, IsZero, OnBlock;
    var offset, records, payload, extensions, metadata, largest := 0, 0, 0, 0, 0, 0;
    while offset < |data|
      invariant 0 <= offset <= |data| && OnBlock(data, offset) && records >= 0 && extensions >= 0
      invariant ScanFrom(data, offset, read, limits, Stats(records, payload, extensions, metadata, largest))
             == ScanFrom(data, 0, read, limits, NO_STATS)
      decreases |data| - offset
    {
      BlockFits(data, offset);
      var block := data[offset..offset + BLOCK];
      if IsZero(block) {
        offset := offset + BLOCK;
        continue;
      }
      var member := read(block);
      if member.None? { return Err(InvalidHeader); }
      var size := member.value.size;
      records := records + 1;
      if records > limits.count { return Err(CountBound); }
      if size < 0 { return Err(NegativeSize); }
      if member.value.kind.GnuSparse? { return Err(Sparse); }
      if member.value.kind.Extension? {
        extensions, metadata, largest := extensions + 1, metadata + size, Max(largest, size);
        if size > limits.metadata || metadata > limits.metadataTotal { return Err(MetadataBound); }
      } else {
        payload := payload + size;
        if size > limits.individual || payload > limits.total { return Err(PayloadBound); }
      }
      BodyFits(data, offset, size);
      if offset + BLOCK + Padded(size) > |data| { return Err(TruncatedPayload); }
      offset := offset + BLOCK + Padded(size);
    }
    return Ok(Stats(records, payload, extensions, metadata, largest));
  }

  // ---------------------------------------------------------------------------------------------
  // What a stream is made of
  // ---------------------------------------------------------------------------------------------

  /** A stream is a run of zero blocks and of headers, each header followed by its padded body. */
  datatype Piece = Zero | Member(header: Header)

  /** The pieces of a stream from `offset`; None if a header is unreadable, has a negative size or overruns the end. */
  function Pieces(data: seq<Byte>, offset: nat, read: HeaderReader): Option<seq<Piece>>
    requires OnBlock(data, offset)
    decreases |data| - offset
  {
    BlockFits(data, offset);
    if offset == |data| then Some([])
    else
      var block := data[offset..offset + BLOCK];
      if IsZero(block) then
        var rest := Pieces(data, offset + BLOCK, read);
        if rest.None? then None else Some([Zero] + rest.value)
      else
        var h := read(block);
        if h.None? || h.value.size < 0 || offset + BLOCK + Padded(h.value.size) > |data| then None
        else
          BodyFits(data, offset, h.value.size);
          var rest := Pieces(data, offset + BLOCK + Padded(h.value.size), read);
          if rest.None? then None else Some([Member(h.value)] + rest.value)
  }

  predicate SizesNonNegative(ps: seq<Piece>) {
    forall i :: 0 <= i < |ps| && ps[i].Member? ==> ps[i].header.size >= 0
  }

  function Zeros(ps: seq<Piece>): nat {
    if ps == [] then 0 else (if ps[0].Zero? then 1 else 0) + Zeros(ps[1..])
  }

  function Members(ps: seq<Piece>): nat {
    if ps == [] then 0 else (if ps[0].Member? then 1 else 0) + Members(ps[1..])
  }

  function Extensions(ps: seq<Piece>): nat {
    if ps == [] then 0 else (if ps[0].Member? && ps[0].header.kind.Extension? then 1 else 0) + Extensions(ps[1..])
  }

  /** Total size of the bodies of extension records, or of the others. */
  function Bytes(ps: seq<Piece>, extension: bool): int {
    if ps == [] then 0
    else
      var here := if ps[0].Member? && ps[0].header.kind.Extension? == extension then ps[0].header.size else 0;
      here + Bytes(ps[1..], extension)
  }

  function LargestExtension(ps: seq<Piece>, least: int): int {
    if ps == [] then least
    else
      LargestExtension(ps[1..], if ps[0].Member? && ps[0].header.kind.Extension? then Max(least, ps[0].header.size) else least)
  }

  function PaddedBytes(ps: seq<Piece>): nat
    requires SizesNonNegative(ps)
  {
    if ps == [] then 0 else (if ps[0].Member? then Padded(ps[0].header.size) else 0) + PaddedBytes(ps[1..])
  }

  /** No sparse record, and every body within its own limit. */
  predicate EachWithin(ps: seq<Piece>, limits: Limits) {
    forall i :: 0 <= i < |ps| && ps[i].Member? ==>
      && !ps[i].header.kind.GnuSparse?
      && 0 <= ps[i].header.size <= (if ps[i].header.kind.Extension? then limits.metadata else limits.individual)
  }

  /** What the limits other than the expanded length ask of a stream. */
  predicate WithinLimits(ps: seq<Piece>, limits: Limits) {
    && EachWithin(ps, limits)
    && Members(ps) <= limits.count
    && Bytes(ps, false) <= limits.total
    && Bytes(ps, true) <= limits.metadataTotal
  }

  function Tally(ps: seq<Piece>, st: Stats): Stats {
    Stats(st.records + Members(ps), st.payload + Bytes(ps, false), st.extensions + Extensions(ps),
          st.metadata + Bytes(ps, true), LargestExtension(ps, st.largest))
  }

  /** The limits that remain when `st` has been used up. */
  function Remaining(limits: Limits, st: Stats): Limits {
    limits.(count := limits.count - st.records, total := limits.total - st.payload,
            metadataTotal := limits.metadataTotal - st.metadata)
  }

  lemma {:induction false} BytesNonNegative(ps: seq<Piece>, extension: bool, limits: Limits)
    requires EachWithin(ps, limits)
    ensures Bytes(ps, extension) >= 0
  {
    if ps != [] { BytesNonNegative(ps[1..], extension, limits); }
  }

  lemma EachWithinCons(p: Piece, rest: seq<Piece>, limits: Limits)
    ensures EachWithin([p] + rest, limits) <==> EachWithin([p], limits) && EachWithin(rest, limits)
  {
    var ps := [p] + rest;
    if EachWithin(ps, limits) {
      assert ps[0] == p;
      forall i | 0 <= i < |rest| ensures rest[i] == ps[i + 1] {}
    }
  }

  /** The scan accepts exactly the well-formed streams within the limits, and its counters are the exact totals. */
  lemma {:induction false} ScanMeans(data: seq<Byte>, offset: nat, read: HeaderReader, limits: Limits, st: Stats)
    requires OnBlock(data, offset)
    requires !Remaining(limits, st).AnyNegative()
    ensures var ps := Pieces(data, offset, read);
            var scan := ScanFrom(data, offset, read, limits, st);
            if ps.Some? && WithinLimits(ps.value, Remaining(limits, st)) then scan == Ok(Tally(ps.value, st)) else scan.Err?
    decreases |data| - offset
  {
    NothingLeft(limits, st);
    BlockFits(data, offset);
    hide WithinLimits, Tally, IsZero, OnBlock, Padded;
    if offset < |data| {
      var block := data[offset..offset + BLOCK];
      if IsZero(block) {
        ScanMeans(data, offset + BLOCK, read, limits, st);
        var rest := Pieces(data, offset + BLOCK, read);
        if rest.Some? { ZeroFirst(rest.value, limits, st); }
      } else if read(block).Some? {
        var h := read(block).value;
        var more := Account(h, st, limits);
        if h.size >= 0 && offset + BLOCK + Padded(h.size) <= |data| {
          var next := offset + BLOCK + Padded(h.size);
          BodyFits(data, offset, h.size);
          var rest := Pieces(data, next, read);
          if more.Ok? {
            ScanMeans(data, next, read, limits, more.value);
            if rest.Some? { MemberFirst(h, rest.value, limits, st); }
          } else if rest.Some? {
            MemberRefused(h, rest.value, limits, st);
          }
        }
      }
    }
  }

  lemma NothingLeft(limits: Limits, st: Stats)
    requires !Remaining(limits, st).AnyNegative()
    ensures WithinLimits([], Remaining(limits, st)) && Tally([], st) == st
  {
  }

  lemma ZeroFirst(rest: seq<Piece>, limits: Limits, st: Stats)
    ensures WithinLimits([Zero] + rest, Remaining(limits, st)) <==> WithinLimits(rest, Remaining(limits, st))
    ensures Tally([Zero] + rest, st) == Tally(rest, st)
  {
    assert ([Zero] + rest)[1..] == rest;
    EachWithinCons(Zero, rest, Remaining(limits, st));
  }

  lemma MemberFirst(h: Header, rest: seq<Piece>, limits: Limits, st: Stats)
    requires Account(h, st, limits).Ok?
    ensures var more := Account(h, st, limits).value;
            && (WithinLimits([Member(h)] + rest, Remaining(limits, st)) <==> WithinLimits(rest, Remaining(limits, more)))
            && Tally([Member(h)] + rest, st) == Tally(rest, more)
  {
    assert ([Member(h)] + rest)[1..] == rest;
    EachWithinCons(Member(h), rest, Remaining(limits, st));
    var more := Account(h, st, limits).value;
    assert EachWithin(rest, Remaining(limits, st)) <==> EachWithin(rest, Remaining(limits, more));
  }

  lemma MemberRefused(h: Header, rest: seq<Piece>, limits: Limits, st: Stats)
    requires Account(h, st, limits).Err?
    ensures !WithinLimits([Member(h)] + rest, Remaining(limits, st))
  {
    var ps, left := [Member(h)] + rest, Remaining(limits, st);
    assert ps[1..] == rest && ps[0] == Member(h);
    EachWithinCons(Member(h), rest, left);
    if EachWithin(rest, left) {
      BytesNonNegative(rest, false, left);
      BytesNonNegative(rest, true, left);
    }
  }

  /** Conservation: a stream is its blocks and its padded bodies, and nothing else. */
  lemma {:induction false} Conservation(data: seq<Byte>, offset: nat, read: HeaderReader)
    requires OnBlock(data, offset)
    requires Pieces(data, offset, read).Some?
    ensures var ps := Pieces(data, offset, read).value;
            && SizesNonNegative(ps)
            && |data| - offset == BLOCK * (Members(ps) + Zeros(ps)) + PaddedBytes(ps)
    decreases |data| - offset
  {
    BlockFits(data, offset);
    hide OnBlock, Padded;
    if offset < |data| {
      var block := data[offset..offset + BLOCK];
      if !IsZero(block) { BodyFits(data, offset, read(block).value.size); }
      var next := if IsZero(block) then offset + BLOCK else offset + BLOCK + Padded(read(block).value.size);
      Conservation(data, next, read);
      var ps := Pieces(data, offset, read).value;
      assert ps[1..] == Pieces(data, next, read).value;
      forall i | 0 <= i < |ps| && ps[i].Member? ensures ps[i].header.size >= 0 {
        if i > 0 { assert ps[i] == ps[1..][i - 1]; }
      }
    }
  }

  /** The whole of `bounded_tar`: it accepts exactly the block-aligned streams that decompose, within every limit;
      its report is the exact tally; and the expanded length is accounted for to the byte. */
  lemma AcceptanceExact(data: seq<Byte>, read: HeaderReader, limits: Limits)
    ensures Scan(data, read, limits).Ok? <==>
            && limits.count >= 0 && limits.individual >= 0 && limits.total >= 0
            && limits.metadata >= 0 && limits.metadataTotal >= 0
            && |data| <= limits.expanded && |data| % BLOCK == 0
            && Pieces(data, 0, read).Some? && WithinLimits(Pieces(data, 0, read).value, limits)
    ensures Scan(data, read, limits).Ok? ==>
            var ps := Pieces(data, 0, read).value;
            && SizesNonNegative(ps)
            && Scan(data, read, limits).value
               == Stats(Members(ps), Bytes(ps, false), Extensions(ps), Bytes(ps, true), LargestExtension(ps, 0))
            && |data| == BLOCK * (Members(ps) + Zeros(ps)) + PaddedBytes(ps)
  {
    if |data| % BLOCK == 0 && !limits.AnyNegative() {
      ScanMeans(data, 0, read, limits, NO_STATS);
      assert Remaining(limits, NO_STATS) == limits;
      if Pieces(data, 0, read).Some? { Conservation(data, 0, read); }
    }
  }

  // ---------------------------------------------------------------------------------------------
  // The default bound on the expanded length
  // ---------------------------------------------------------------------------------------------

  const TRAILER_BYTES: nat := 3 * 10240

  /** The default of `selected_members`. */
  function DefaultExpanded(count: int, total: int, metadataTotal: int): int {
    total + count * 1024 + TRAILER_BYTES + metadataTotal
  }

  lemma {:induction false} PaddingCost(ps: seq<Piece>)
    requires SizesNonNegative(ps)
    ensures PaddedBytes(ps) <= Bytes(ps, false) + Bytes(ps, true) + 511 * Members(ps)
  {
    if ps != [] {
      assert SizesNonNegative(ps[1..]) by {
        forall i | 0 <= i < |ps[1..]| && ps[1..][i].Member? ensures ps[1..][i].header.size >= 0 {
          assert ps[1..][i] == ps[i + 1];
        }
      }
      PaddingCost(ps[1..]);
    }
  }

  /** The default expanded bound refuses no stream that meets the other limits and carries at most three 10-KiB
      trailers' worth of zero blocks. */
  lemma DefaultBoundSuffices(data: seq<Byte>, read: HeaderReader, limits: Limits)
    requires |data| % BLOCK == 0 && Pieces(data, 0, read).Some? && WithinLimits(Pieces(data, 0, read).value, limits)
    requires limits.expanded == DefaultExpanded(limits.count, limits.total, limits.metadataTotal)
    requires BLOCK * Zeros(Pieces(data, 0, read).value) <= TRAILER_BYTES
    ensures |data| <= limits.expanded
  {
    Conservation(data, 0, read);
    PaddingCost(Pieces(data, 0, read).value);
  }

  /** One zero block more can be refused: with every other limit at zero, a stream of zero blocks is taken if and only
      if it fits in the three trailers. */
  lemma TrailerBudgetIsTight(data: seq<Byte>, read: HeaderReader)
    requires IsZero(data) && |data| % BLOCK == 0
    ensures var limits := Limits(0, 0, 0, DefaultExpanded(0, 0, 0), 0, 0);
            Scan(data, read, limits).Ok? <==> |data| <= TRAILER_BYTES
  {
    var limits := Limits(0, 0, 0, DefaultExpanded(0, 0, 0), 0, 0);
    ZeroStream(data, 0, read);
    AcceptanceExact(data, read, limits);
  }

  lemma {:induction false} ZeroStream(data: seq<Byte>, offset: nat, read: HeaderReader)
    requires IsZero(data) && OnBlock(data, offset)
    ensures Pieces(data, offset, read).Some?
    ensures var ps := Pieces(data, offset, read).value;
            Members(ps) == 0 && Bytes(ps, false) == 0 && Bytes(ps, true) == 0 && forall i :: 0 <= i < |ps| ==> ps[i].Zero?
    decreases |data| - offset
  {
    BlockFits(data, offset);
    hide OnBlock;
    if offset < |data| {
      assert IsZero(data[offset..offset + BLOCK]);
      ZeroStream(data, offset + BLOCK, read);
      var ps := Pieces(data, offset, read).value;
      assert ps[1..] == Pieces(data, offset + BLOCK, read).value;
    }
  }

  // ---------------------------------------------------------------------------------------------
  // How much room the default leaves
  // ---------------------------------------------------------------------------------------------

  function Trailer(zeros: nat): (s: seq<Byte>)
    ensures |s| == BLOCK * zeros && IsZero(s)
  {
    if zeros == 0 then [] else seq(BLOCK, _ => 0) + Trailer(zeros - 1)
  }

  /** `n` members of one byte each, and zero blocks after them. */
  function SmallMembers(head: seq<Byte>, body: seq<Byte>, n: nat, zeros: nat): (s: seq<Byte>)
    requires |head| == BLOCK && |body| == BLOCK
    ensures |s| == 1024 * n + BLOCK * zeros
  {
    if n == 0 then Trailer(zeros) else head + (body + SmallMembers(head, body, n - 1, zeros))
  }

  function SmallPieces(n: nat, zeros: nat): seq<Piece> {
    if n > 0 then [Member(Header(Ordinary, 1))] + SmallPieces(n - 1, zeros)
    else if zeros > 0 then [Zero] + SmallPieces(0, zeros - 1)
    else []
  }

  lemma {:induction false} SmallTally(n: nat, zeros: nat, limits: Limits)
    requires limits.individual >= 1
    ensures var ps := SmallPieces(n, zeros);
            && Members(ps) == n && Bytes(ps, false) == n && Bytes(ps, true) == 0 && EachWithin(ps, limits)
  {
    var ps := SmallPieces(n, zeros);
    if n > 0 {
      SmallTally(n - 1, zeros, limits);
      assert ps[1..] == SmallPieces(n - 1, zeros);
      EachWithinCons(Member(Header(Ordinary, 1)), SmallPieces(n - 1, zeros), limits);
    } else if zeros > 0 {
      SmallTally(0, zeros - 1, limits);
      assert ps[1..] == SmallPieces(0, zeros - 1);
      EachWithinCons(Zero, SmallPieces(0, zeros - 1), limits);
    }
  }

  lemma SmallPadding()
    ensures Padded(1) == BLOCK
  {
  }

  lemma {:induction false} SmallStream(data: seq<Byte>, offset: nat, read: HeaderReader, head: seq<Byte>, body: seq<Byte>,
                                       n: nat, zeros: nat)
    requires OnBlock(data, offset) && |head| == BLOCK && |body| == BLOCK && !IsZero(head)
    requires read(head) == Some(Header(Ordinary, 1)) && data[offset..] == SmallMembers(head, body, n, zeros)
    ensures Pieces(data, offset, read) == Some(SmallPieces(n, zeros))
    decreases n, zeros
  {
    BlockFits(data, offset);
    SmallPadding();
    var rest := data[offset..];
    if n > 0 {
      var more := SmallMembers(head, body, n - 1, zeros);
      assert data[offset..offset + BLOCK] == rest[..BLOCK] == head;
      assert data[offset + BLOCK + BLOCK..] == rest[BLOCK + BLOCK..] == more;
      BodyFits(data, offset, 1);
      hide OnBlock, Padded, IsZero, SmallMembers;
      SmallStream(data, offset + BLOCK + BLOCK, read, head, body, n - 1, zeros);
    } else if zeros > 0 {
      assert data[offset..offset + BLOCK] == rest[..BLOCK];
      assert IsZero(data[offset..offset + BLOCK]);
      assert data[offset + BLOCK..] == rest[BLOCK..] == Trailer(zeros - 1);
      hide OnBlock, Padded, IsZero;
      SmallStream(data, offset + BLOCK, read, head, body, 0, zeros - 1);
    }
  }

  /** The room that the default bound leaves, to the byte, for any number of members and any totals: a stream of `n`
      members of one byte each, with the other limits just wide enough for them, is taken if and only if its zero blocks
      fit into three trailers and the totals together. */
  lemma DefaultBoundTight(read: HeaderReader, head: seq<Byte>, body: seq<Byte>, n: nat, zeros: nat, total: nat,
                          metadataTotal: nat)
    requires |head| == BLOCK && |body| == BLOCK && !IsZero(head) && read(head) == Some(Header(Ordinary, 1)) && n <= total
    ensures var limits := Limits(n, 1, total, DefaultExpanded(n, total, metadataTotal), 0, metadataTotal);
            Scan(SmallMembers(head, body, n, zeros), read, limits).Ok? <==> 512 * zeros <= 30720 + total + metadataTotal
  {
    var data := SmallMembers(head, body, n, zeros);
    var limits := Limits(n, 1, total, DefaultExpanded(n, total, metadataTotal), 0, metadataTotal);
    assert data[0..] == data;
    SmallStream(data, 0, read, head, body, n, zeros);
    SmallTally(n, zeros, limits);
    hide SmallMembers, SmallPieces, Pieces, EachWithin, Bytes, Members, Scan;
    AcceptanceExact(data, read, limits);
  }
}
