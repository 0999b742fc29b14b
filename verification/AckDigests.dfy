/**
 Stamping model digests into the validation manifest as text (`write_ack_digests`): for each board in play, the digest
 line of that board's block is replaced, or put in after its acknowledgement line, and nothing else moves.
 */
module AckDigests {
  import opened Prelude

  // ---------------------------------------------------------------------------------------------
  // Lines
  // ---------------------------------------------------------------------------------------------

  /** Python's white space. */
  predicate IsSpace(c: char) {
    var n := c as int;
    9 <= n <= 13 || 0x1c <= n <= 0x20 || n == 0x85 || n == 0xa0 || n == 0x1680 || 0x2000 <= n <= 0x200a
    || n == 0x2028 || n == 0x2029 || n == 0x202f || n == 0x205f || n == 0x3000
  }

  /** The white space a line starts with. */
  function Indent(line: string): (s: string)
    ensures s <= line && forall i :: 0 <= i < |s| ==> IsSpace(s[i])
  {
    if line == "" || !IsSpace(line[0]) then "" else [line[0]] + Indent(line[1..])
  }

  function DropTrailing(line: string): string {
    if line == "" || !IsSpace(line[|line| - 1]) then line else DropTrailing(line[..|line| - 1])
  }

  function Strip(line: string): string {
    DropTrailing(line[|Indent(line)|..])
  }

  predicate StartsWith(s: string, prefix: string) { prefix <= s }

  const HEAD := "- id: "
  const ACK := "drift_ack:"
  const DIGEST := "drift_ack_digest:"

  predicate IsHead(line: string) { StartsWith(Strip(line), HEAD) }

  predicate Names(line: string, id: string) { Strip(line) == HEAD + id }

  predicate IsAck(line: string) { StartsWith(Strip(line), ACK) }

  predicate IsDigest(line: string) { StartsWith(Strip(line), DIGEST) }

  function DigestLine(indent: string, digest: string): string {
    indent + (DIGEST + " " + digest)
  }

  lemma NamesIsHead(line: string, id: string)
    ensures Names(line, id) ==> IsHead(line)
  {
  }

  lemma NamesOne(line: string, id: string, other: string)
    requires Names(line, id) && id != other
    ensures !Names(line, other)
  {
    assert (HEAD + id)[|HEAD|..] == id && (HEAD + other)[|HEAD|..] == other;
  }

  /** A digest line is neither a header nor an acknowledgement. */
  lemma DigestIsNeither(line: string)
    requires IsDigest(line)
    ensures !IsHead(line) && !IsAck(line)
  {
    var s := Strip(line);
    assert s[0] == DIGEST[0] && HEAD[0] != DIGEST[0];
    assert s[9] == DIGEST[9] && ACK[9] != DIGEST[9];
  }

  lemma {:induction false} IndentOf(indent: string, s: string)
    requires forall i :: 0 <= i < |indent| ==> IsSpace(indent[i])
    requires s != "" && !IsSpace(s[0])
    ensures Indent(indent + s) == indent
  {
    hide IsSpace;
    if indent == "" {
      assert indent + s == s;
    } else {
      assert (indent + s)[1..] == indent[1..] + s;
      IndentOf(indent[1..], s);
    }
  }

  lemma {:induction false} DropKeeps(s: string, prefix: string)
    requires prefix <= s && prefix != "" && !IsSpace(prefix[|prefix| - 1])
    ensures prefix <= DropTrailing(s)
    decreases |s|
  {
    hide IsSpace;
    if s != "" && IsSpace(s[|s| - 1]) {
      assert |prefix| < |s|;
      DropKeeps(s[..|s| - 1], prefix);
    }
  }

  ghost predicate AllSpace(s: string) {
    forall i :: 0 <= i < |s| ==> IsSpace(s[i])
  }

  /** Text that neither starts nor ends with white space. */
  ghost predicate Trimmed(s: string) {
    s == "" || (!IsSpace(s[0]) && !IsSpace(s[|s| - 1]))
  }

  lemma {:induction false} IndentAll(s: string)
    requires AllSpace(s)
    ensures Indent(s) == s
  {
    if s != "" {
      assert s == [s[0]] + s[1..];
      IndentAll(s[1..]);
    }
  }

  lemma {:induction false} DropAfter(s: string, after: string)
    requires Trimmed(s) && AllSpace(after)
    ensures DropTrailing(s + after) == s
    decreases |after|
  {
    if after == "" {
      assert s + after == s;
    } else {
      var all, shorter := s + after, after[..|after| - 1];
      assert all[|all| - 1] == after[|after| - 1] && all[..|all| - 1] == s + shorter;
      DropAfter(s, shorter);
    }
  }

  /** Stripping takes off the white space on either side and nothing else. */
  lemma StripExact(before: string, s: string, after: string)
    requires AllSpace(before) && Trimmed(s) && AllSpace(after)
    ensures Strip(before + s + after) == s
  {
    hide IsSpace;
    var line := before + s + after;
    if s == "" {
      assert line == before + after;
      IndentAll(line);
      assert line[|line|..] == "";
    } else {
      assert line == before + (s + after);
      IndentOf(before, s + after);
      assert line[|before|..] == s + after;
      DropAfter(s, after);
    }
  }

  /** How the lines of a board are told: its header by the whole of its text, the next header, the acknowledgement and the
      digest by how they start, white space around them aside. */
  lemma LinesTold(before: string, s: string, after: string, id: string)
    requires AllSpace(before) && Trimmed(s) && AllSpace(after)
    ensures var line := before + s + after;
            && (Names(line, id) <==> s == "- id: " + id)
            && (IsHead(line) <==> "- id: " <= s)
            && (IsAck(line) <==> "drift_ack:" <= s)
            && (IsDigest(line) <==> "drift_ack_digest:" <= s)
  {
    StripExact(before, s, after);
    hide Strip;
  }

  /** A stamped line is a digest line, whatever the digest. */
  lemma DigestLineIs(indent: string, digest: string)
    requires forall i :: 0 <= i < |indent| ==> IsSpace(indent[i])
    ensures IsDigest(DigestLine(indent, digest))
  {
    var tail := DIGEST + " " + digest;
    assert tail[0] == 'd' && DIGEST[|DIGEST| - 1] == ':';
    IndentOf(indent, tail);
    assert (indent + tail)[|indent|..] == tail;
    DropKeeps(tail, DIGEST);
  }

  // ---------------------------------------------------------------------------------------------
  // Blocks
  // ---------------------------------------------------------------------------------------------

  /** The lines up to the next header. */
  function Body(lines: seq<string>): (body: seq<string>)
    ensures body <= lines && forall i :: 0 <= i < |body| ==> !IsHead(body[i])
  {
    if lines == [] || IsHead(lines[0]) then [] else [lines[0]] + Body(lines[1..])
  }

  /** A board's block: from the first line that names it to the next header. Empty if there is none. */
  function Block(lines: seq<string>, id: string): seq<string> {
    if lines == [] then []
    else if Names(lines[0], id) then [lines[0]] + Body(lines[1..])
    else Block(lines[1..], id)
  }

  function FirstAck(block: seq<string>): Option<string> {
    if block == [] then None else if IsAck(block[0]) then Some(block[0]) else FirstAck(block[1..])
  }

  function FirstDigest(block: seq<string>): Option<string> {
    if block == [] then None else if IsDigest(block[0]) then Some(block[0]) else FirstDigest(block[1..])
  }

  function ReplaceDigest(block: seq<string>, line: string): seq<string> {
    if block == [] then [] else if IsDigest(block[0]) then [line] + block[1..]
    else [block[0]] + ReplaceDigest(block[1..], line)
  }

  function InsertAfterAck(block: seq<string>, line: string): seq<string> {
    if block == [] then [] else if IsAck(block[0]) then [block[0]] + ([line] + block[1..])
    else [block[0]] + InsertAfterAck(block[1..], line)
  }

  /** What becomes of a block. */
  function StampBlock(block: seq<string>, digest: string): seq<string> {
    match FirstAck(block)
    case None => block
    case Some(ack) =>
      var line := DigestLine(Indent(ack), digest);
      if FirstDigest(block).Some? then ReplaceDigest(block, line) else InsertAfterAck(block, line)
  }

  /** What becomes of the file for one board. */
  function Stamp(lines: seq<string>, id: string, digest: string): seq<string> {
    if lines == [] then []
    else if Names(lines[0], id) then
      var body := Body(lines[1..]);
      StampBlock([lines[0]] + body, digest) + lines[1 + |body|..]
    else [lines[0]] + Stamp(lines[1..], id, digest)
  }

  // ---------------------------------------------------------------------------------------------
  // One block
  // ---------------------------------------------------------------------------------------------

  /** The lines that are not digest lines. */
  function Erase(lines: seq<string>): seq<string> {
    if lines == [] then [] else (if IsDigest(lines[0]) then [] else [lines[0]]) + Erase(lines[1..])
  }

  ghost predicate NoHeads(lines: seq<string>) {
    forall i :: 0 <= i < |lines| ==> !IsHead(lines[i])
  }

  lemma NoHeadsFirst(line: string, rest: seq<string>)
    ensures NoHeads([line] + rest) <==> !IsHead(line) && NoHeads(rest)
  {
    hide IsHead;
    var all := [line] + rest;
    assert all[0] == line && forall i :: 0 <= i < |rest| ==> rest[i] == all[i + 1];
  }

  lemma {:induction false} ReplaceMeans(block: seq<string>, line: string)
    requires IsDigest(line) && FirstDigest(block).Some?
    ensures FirstDigest(ReplaceDigest(block, line)) == Some(line)
    ensures FirstAck(ReplaceDigest(block, line)) == FirstAck(block)
    ensures Erase(ReplaceDigest(block, line)) == Erase(block)
    ensures NoHeads(block) ==> NoHeads(ReplaceDigest(block, line))
    ensures ReplaceDigest(ReplaceDigest(block, line), line) == ReplaceDigest(block, line)
  {
    var rest := block[1..];
    assert block == [block[0]] + rest;
    DigestIsNeither(line);
    NoHeadsFirst(block[0], rest);
    if IsDigest(block[0]) {
      DigestIsNeither(block[0]);
      hide IsDigest, IsAck, IsHead, NoHeads;
      var after := [line] + rest;
      assert after[1..] == rest;
      NoHeadsFirst(line, rest);
    } else {
      hide IsDigest, IsAck, IsHead, NoHeads;
      ReplaceMeans(rest, line);
      var after := [block[0]] + ReplaceDigest(rest, line);
      assert after[1..] == ReplaceDigest(rest, line);
      NoHeadsFirst(block[0], ReplaceDigest(rest, line));
    }
  }

  lemma {:induction false} InsertMeans(block: seq<string>, line: string)
    requires IsDigest(line) && FirstDigest(block).None? && FirstAck(block).Some?
    ensures FirstDigest(InsertAfterAck(block, line)) == Some(line)
    ensures FirstAck(InsertAfterAck(block, line)) == FirstAck(block)
    ensures Erase(InsertAfterAck(block, line)) == Erase(block)
    ensures NoHeads(block) ==> NoHeads(InsertAfterAck(block, line))
    ensures ReplaceDigest(InsertAfterAck(block, line), line) == InsertAfterAck(block, line)
  {
    var rest := block[1..];
    assert block == [block[0]] + rest;
    if IsAck(block[0]) {
      InsertHere(block[0], rest, line);
    } else {
      NoHeadsFirst(block[0], rest);
      hide IsDigest, IsAck, IsHead, NoHeads;
      InsertMeans(rest, line);
      var after := [block[0]] + InsertAfterAck(rest, line);
      assert after[1..] == InsertAfterAck(rest, line);
      NoHeadsFirst(block[0], InsertAfterAck(rest, line));
    }
  }

  lemma InsertHere(ack: string, rest: seq<string>, line: string)
    requires IsDigest(line) && IsAck(ack) && !IsDigest(ack)
    ensures var block, after := [ack] + rest, [ack] + ([line] + rest);
            && FirstDigest(after) == Some(line)
            && FirstAck(after) == Some(ack)
            && Erase(after) == Erase(block)
            && (NoHeads(block) ==> NoHeads(after))
            && ReplaceDigest(after, line) == after
  {
    DigestFront(line, rest);
    hide IsDigest, IsAck, IsHead, NoHeads, ReplaceDigest, Erase, FirstDigest, FirstAck;
    OtherFront(ack, rest, line);
    OtherFront(ack, [line] + rest, line);
    NoHeadsFirst(ack, rest);
    NoHeadsFirst(ack, [line] + rest);
  }

  /** A digest line in front. */
  lemma DigestFront(line: string, rest: seq<string>)
    requires IsDigest(line)
    ensures var tail := [line] + rest;
            && FirstDigest(tail) == Some(line) && ReplaceDigest(tail, line) == tail && Erase(tail) == Erase(rest)
            && (NoHeads(rest) ==> NoHeads(tail))
  {
    DigestIsNeither(line);
    NoHeadsFirst(line, rest);
    hide IsDigest, IsHead, NoHeads;
    assert ([line] + rest)[1..] == rest;
  }

  /** Another line in front. */
  lemma OtherFront(first: string, rest: seq<string>, line: string)
    requires !IsDigest(first)
    ensures var all := [first] + rest;
            && FirstDigest(all) == FirstDigest(rest) && ReplaceDigest(all, line) == [first] + ReplaceDigest(rest, line)
            && Erase(all) == [first] + Erase(rest) && (IsAck(first) ==> FirstAck(all) == Some(first))
  {
    hide IsDigest, IsAck;
    assert ([first] + rest)[1..] == rest;
  }

  /** The digest line a block should have. */
  function Wanted(block: seq<string>, digest: string): Option<string> {
    match FirstAck(block)
    case None => FirstDigest(block)
    case Some(ack) => Some(Indent(ack) + "drift_ack_digest: " + digest)
  }

  lemma DigestLineText(indent: string, digest: string)
    ensures DigestLine(indent, digest) == indent + "drift_ack_digest: " + digest
  {
    assert DIGEST + " " == "drift_ack_digest: ";
  }

  /** After stamping, the block's digest line is the one wanted; only digest lines have changed; stamping again changes
      nothing. */
  lemma StampBlockMeans(block: seq<string>, digest: string)
    ensures FirstDigest(StampBlock(block, digest)) == Wanted(block, digest)
    ensures FirstAck(StampBlock(block, digest)) == FirstAck(block)
    ensures Erase(StampBlock(block, digest)) == Erase(block)
    ensures NoHeads(block) ==> NoHeads(StampBlock(block, digest))
    ensures StampBlock(StampBlock(block, digest), digest) == StampBlock(block, digest)
  {
    match FirstAck(block)
    case None =>
    case Some(ack) =>
      var line := DigestLine(Indent(ack), digest);
      DigestLineIs(Indent(ack), digest);
      DigestLineText(Indent(ack), digest);
      hide IsDigest, IsAck, IsHead, DigestLine, NoHeads, Erase, FirstAck, FirstDigest, ReplaceDigest, InsertAfterAck;
      if FirstDigest(block).Some? {
        ReplaceMeans(block, line);
      } else {
        InsertMeans(block, line);
      }
  }

  /** A header is neither kind of line, so that only the lines after it matter. */
  lemma HeaderIsNeither(line: string)
    requires IsHead(line)
    ensures !IsAck(line) && !IsDigest(line)
  {
    var s := Strip(line);
    assert s[0] == HEAD[0] && HEAD[0] != ACK[0] && HEAD[0] != DIGEST[0];
  }

  lemma StampAfterHeader(head: string, body: seq<string>, digest: string)
    requires IsHead(head)
    ensures StampBlock([head] + body, digest) == [head] + StampBlock(body, digest)
    ensures Erase([head] + body) == [head] + Erase(body)
    ensures FirstAck([head] + body) == FirstAck(body) && FirstDigest([head] + body) == FirstDigest(body)
  {
    HeaderIsNeither(head);
    hide IsDigest, IsAck, IsHead, DigestLine, Indent;
    assert ([head] + body)[1..] == body;
  }

  // ---------------------------------------------------------------------------------------------
  // The file
  // ---------------------------------------------------------------------------------------------

  lemma {:induction false} BodyOf(body: seq<string>, rest: seq<string>)
    requires NoHeads(body) && (rest == [] || IsHead(rest[0]))
    ensures Body(body + rest) == body
  {
    if body == [] {
      assert body + rest == rest;
    } else {
      NoHeadsFirst(body[0], body[1..]);
      assert body == [body[0]] + body[1..];
      assert (body + rest)[1..] == body[1..] + rest;
      hide IsHead;
      BodyOf(body[1..], rest);
    }
  }

  lemma {:induction false} AfterBody(lines: seq<string>)
    ensures lines == Body(lines) + lines[|Body(lines)|..]
    ensures |Body(lines)| < |lines| ==> IsHead(lines[|Body(lines)|])
  {
    hide IsHead;
    if lines != [] && !IsHead(lines[0]) {
      AfterBody(lines[1..]);
      assert lines[1..][|Body(lines[1..])|..] == lines[|Body(lines)|..];
    }
  }

  lemma {:induction false} BlockPast(body: seq<string>, rest: seq<string>, id: string)
    requires NoHeads(body)
    ensures Block(body + rest, id) == Block(rest, id)
  {
    if body == [] {
      assert body + rest == rest;
    } else {
      NamesIsHead(body[0], id);
      NoHeadsFirst(body[0], body[1..]);
      assert body == [body[0]] + body[1..];
      assert (body + rest)[1..] == body[1..] + rest;
      hide IsHead, Names;
      BlockPast(body[1..], rest, id);
    }
  }

  /** The first lines of a file, up to its first header, belong to no board. */
  lemma {:induction false} StampKeepsBody(lines: seq<string>, id: string, digest: string)
    ensures Body(Stamp(lines, id, digest)) == Body(lines)
  {
    if lines != [] {
      NamesIsHead(lines[0], id);
      if Names(lines[0], id) {
        StampAfterHeader(lines[0], Body(lines[1..]), digest);
      } else {
        hide IsHead, Names;
        var rest := Stamp(lines[1..], id, digest);
        StampKeepsBody(lines[1..], id, digest);
        assert ([lines[0]] + rest)[1..] == rest;
      }
    }
  }

  /** The lines of a file whose first line names the board. */
  lemma StampHere(lines: seq<string>, id: string, digest: string)
    requires lines != [] && Names(lines[0], id)
    ensures var body, rest := Body(lines[1..]), lines[1 + |Body(lines[1..])|..];
            && lines == [lines[0]] + (body + rest)
            && (rest == [] || IsHead(rest[0]))
            && NoHeads(body) && NoHeads(StampBlock(body, digest))
            && Stamp(lines, id, digest) == [lines[0]] + (StampBlock(body, digest) + rest)
            && IsHead(lines[0])
  {
    var body, rest := Body(lines[1..]), lines[1 + |Body(lines[1..])|..];
    NamesIsHead(lines[0], id);
    AfterBody(lines[1..]);
    StampAfterHeader(lines[0], body, digest);
    StampBlockMeans(body, digest);
    hide IsHead, Names, StampBlock, Body;
    DropTwice(lines, |body|);
    Regroup(lines[0], StampBlock(body, digest), rest);
    assert lines == [lines[0]] + lines[1..];
  }

  lemma DropTwice(lines: seq<string>, n: nat)
    requires n + 1 <= |lines|
    ensures lines[1..][n..] == lines[1 + n..]
  {
  }

  lemma Regroup(first: string, a: seq<string>, b: seq<string>)
    ensures ([first] + a) + b == [first] + (a + b)
  {
  }

  /** Another board's block is what it was. */
  lemma {:induction false} OtherBlocksKept(lines: seq<string>, id: string, other: string, digest: string)
    requires id != other
    ensures Block(Stamp(lines, id, digest), other) == Block(lines, other)
  {
    if lines != [] {
      if Names(lines[0], id) {
        StampHere(lines, id, digest);
        NamesOne(lines[0], id, other);
        var body, rest := Body(lines[1..]), lines[1 + |Body(lines[1..])|..];
        hide Names, IsHead, Stamp, StampBlock, Body, NoHeads;
        BlockPast(StampBlock(body, digest), rest, other);
        BlockPast(body, rest, other);
        assert Stamp(lines, id, digest)[1..] == StampBlock(body, digest) + rest;
        assert lines[1..] == body + rest;
      } else {
        var rest := Stamp(lines[1..], id, digest);
        hide Names, IsHead;
        StampKeepsBody(lines[1..], id, digest);
        OtherBlocksKept(lines[1..], id, other, digest);
        assert ([lines[0]] + rest)[1..] == rest;
      }
    }
  }

  /** The board's own block is stamped. */
  lemma {:induction false} OwnBlockStamped(lines: seq<string>, id: string, digest: string)
    ensures Block(Stamp(lines, id, digest), id) == StampBlock(Block(lines, id), digest)
  {
    if lines != [] {
      if Names(lines[0], id) {
        StampHere(lines, id, digest);
        var body, rest := Body(lines[1..]), lines[1 + |Body(lines[1..])|..];
        StampAfterHeader(lines[0], body, digest);
        hide Names, IsHead, Stamp, StampBlock, NoHeads;
        BodyOf(StampBlock(body, digest), rest);
        assert Stamp(lines, id, digest)[1..] == StampBlock(body, digest) + rest;
      } else {
        hide Names, StampBlock;
        var rest := Stamp(lines[1..], id, digest);
        OwnBlockStamped(lines[1..], id, digest);
        assert ([lines[0]] + rest)[1..] == rest;
      }
    }
  }

  lemma {:induction false} EraseConcat(a: seq<string>, b: seq<string>)
    ensures Erase(a + b) == Erase(a) + Erase(b)
  {
    hide IsDigest;
    if a == [] {
      assert a + b == b;
    } else {
      assert (a + b)[1..] == a[1..] + b;
      EraseConcat(a[1..], b);
    }
  }

  /** Without its digest lines the file is what it was: no other line is changed, moved, added or lost. */
  lemma {:induction false} OnlyDigestLinesChange(lines: seq<string>, id: string, digest: string)
    ensures Erase(Stamp(lines, id, digest)) == Erase(lines)
  {
    if lines != [] {
      if Names(lines[0], id) {
        StampHere(lines, id, digest);
        var body, rest := Body(lines[1..]), lines[1 + |Body(lines[1..])|..];
        StampAfterHeader(lines[0], body + rest, digest);
        StampAfterHeader(lines[0], StampBlock(body, digest) + rest, digest);
        StampBlockMeans(body, digest);
        hide Erase, Stamp, StampBlock, Names, IsHead;
        EraseConcat(body, rest);
        EraseConcat(StampBlock(body, digest), rest);
      } else {
        hide Names, IsDigest;
        var rest := Stamp(lines[1..], id, digest);
        OnlyDigestLinesChange(lines[1..], id, digest);
        assert ([lines[0]] + rest)[1..] == rest;
      }
    }
  }

  // ---------------------------------------------------------------------------------------------
  // The code
  // ---------------------------------------------------------------------------------------------

  datatype Test = Naming(id: string) | Heading | Acknowledging | Stamping

  predicate Is(line: string, test: Test) {
    match test
    case Naming(id) => Names(line, id)
    case Heading => IsHead(line)
    case Acknowledging => IsAck(line)
    case Stamping => IsDigest(line)
  }

  /** Line `i` is the first in a range to pass a test; none does if `i` is the end. */
  ghost predicate FirstIn(lines: seq<string>, from: nat, end: nat, test: Test, i: nat)
    requires from <= i <= end <= |lines|
  {
    (forall k :: from <= k < i ==> !Is(lines[k], test)) && (i < end ==> Is(lines[i], test))
  }

  /** The first line in a range that passes a test, or the end of the range. */
  method Find(lines: seq<string>, from: nat, end: nat, test: Test) returns (i: nat)
    requires from <= end <= |lines|
    ensures from <= i <= end && FirstIn(lines, from, end, test, i)
  {
    hide Is;
    i := from;
    while i < end && !Is(lines[i], test)
      invariant from <= i <= end && forall k :: from <= k < i ==> !Is(lines[k], test)
    {
      i := i + 1;
    }
  }

  lemma {:induction false} NoneFound(lines: seq<string>, id: string, digest: string)
    requires forall k :: 0 <= k < |lines| ==> !Names(lines[k], id)
    ensures Stamp(lines, id, digest) == lines
  {
    hide Names;
    if lines != [] { NoneFound(lines[1..], id, digest); }
  }

  lemma {:induction false} StampAfter(before: seq<string>, lines: seq<string>, id: string, digest: string)
    requires forall k :: 0 <= k < |before| ==> !Names(before[k], id)
    ensures Stamp(before + lines, id, digest) == before + Stamp(lines, id, digest)
  {
    hide Names, StampBlock;
    if before == [] {
      assert before + lines == lines && before + Stamp(lines, id, digest) == Stamp(lines, id, digest);
    } else {
      assert (before + lines)[1..] == before[1..] + lines;
      StampAfter(before[1..], lines, id, digest);
      Prefixed(before[0], before[1..], Stamp(lines, id, digest));
    }
  }

  lemma StampFirst(head: string, body: seq<string>, rest: seq<string>, id: string, digest: string)
    requires Names(head, id) && NoHeads(body) && (rest == [] || IsHead(rest[0]))
    ensures Stamp([head] + body + rest, id, digest) == StampBlock([head] + body, digest) + rest
  {
    hide Names, IsHead, StampBlock, NoHeads, Body;
    BodyOf(body, rest);
    var all := [head] + body + rest;
    assert all[1..] == body + rest && all[1 + |body|..] == rest;
  }

  lemma StampAt(lines: seq<string>, start: nat, end: nat, id: string, digest: string)
    requires start < end <= |lines| && Names(lines[start], id)
    requires forall k :: 0 <= k < start ==> !Names(lines[k], id)
    requires forall k :: start < k < end ==> !IsHead(lines[k])
    requires end < |lines| ==> IsHead(lines[end])
    ensures Stamp(lines, id, digest) == lines[..start] + (StampBlock(lines[start..end], digest) + lines[end..])
  {
    hide Names, IsHead, StampBlock, Stamp;
    var body, rest := lines[start + 1..end], lines[end..];
    assert lines[start..end] == [lines[start]] + body;
    StampFirst(lines[start], body, rest, id, digest);
    StampAfter(lines[..start], lines[start..end] + rest, id, digest);
    assert lines == lines[..start] + (lines[start..end] + rest);
  }

  lemma Prefixed(first: string, a: seq<string>, b: seq<string>)
    ensures [first] + (a + b) == ([first] + a) + b
  {
  }

  lemma {:induction false} AckAt(block: seq<string>, a: nat, line: string)
    requires a <= |block| && (forall k :: 0 <= k < a ==> !IsAck(block[k])) && (a < |block| ==> IsAck(block[a]))
    ensures FirstAck(block) == if a < |block| then Some(block[a]) else None
    ensures a < |block| ==> InsertAfterAck(block, line) == block[..a + 1] + ([line] + block[a + 1..])
    decreases a
  {
    hide IsAck;
    if a > 0 {
      AckAt(block[1..], a - 1, line);
      if a < |block| {
        assert block[..a + 1] == [block[0]] + block[1..][..a] && block[1..][a..] == block[a + 1..];
        Prefixed(block[0], block[1..][..a], [line] + block[a + 1..]);
      }
    }
  }

  lemma {:induction false} DigestAt(block: seq<string>, k: nat, line: string)
    requires k <= |block| && (forall j :: 0 <= j < k ==> !IsDigest(block[j])) && (k < |block| ==> IsDigest(block[k]))
    ensures FirstDigest(block).Some? <==> k < |block|
    ensures k < |block| ==> ReplaceDigest(block, line) == block[k := line]
    decreases k
  {
    hide IsDigest;
    if k > 0 {
      DigestAt(block[1..], k - 1, line);
      if k < |block| {
        assert block[k := line] == [block[0]] + block[1..][k - 1 := line];
      }
    } else if block != [] {
      assert block[0 := line] == [line] + block[1..];
    }
  }

  lemma NoAckEdit(lines: seq<string>, start: nat, end: nat, digest: string)
    requires start <= end <= |lines| && FirstIn(lines, start, end, Acknowledging, end)
    ensures lines[..start] + (StampBlock(lines[start..end], digest) + lines[end..]) == lines
  {
    hide IsAck, Indent, DigestLine, InsertAfterAck, ReplaceDigest, FirstDigest, FirstAck;
    AckAt(lines[start..end], end - start, "");
    assert lines[..start] + (lines[start..end] + lines[end..]) == lines;
  }

  lemma BlockEdit(lines: seq<string>, start: nat, end: nat, ack: nat, at: nat, digest: string)
    requires start <= ack < end <= |lines| && start <= at <= end
    requires FirstIn(lines, start, end, Acknowledging, ack) && FirstIn(lines, start, end, Stamping, at)
    ensures var block, line := lines[start..end], DigestLine(Indent(lines[ack]), digest);
            StampBlock(block, digest)
            == if at < end then block[at - start := line]
               else block[..ack - start + 1] + ([line] + block[ack - start + 1..])
  {
    hide IsAck, IsDigest, Indent, DigestLine, InsertAfterAck, ReplaceDigest, FirstDigest, FirstAck;
    var block, line := lines[start..end], DigestLine(Indent(lines[ack]), digest);
    AckAt(block, ack - start, line);
    DigestAt(block, at - start, line);
  }

  lemma BoardFound(lines: seq<string>, start: nat, end: nat, id: string, digest: string)
    requires start < end <= |lines|
    requires FirstIn(lines, 0, |lines|, Naming(id), start) && FirstIn(lines, start + 1, |lines|, Heading, end)
    ensures Stamp(lines, id, digest) == lines[..start] + (StampBlock(lines[start..end], digest) + lines[end..])
  {
    hide Names, IsHead, StampBlock, Stamp;
    StampAt(lines, start, end, id, digest);
  }

  lemma BoardMissing(lines: seq<string>, id: string, digest: string)
    requires FirstIn(lines, 0, |lines|, Naming(id), |lines|)
    ensures Stamp(lines, id, digest) == lines
  {
    NoneFound(lines, id, digest);
  }

  /** The edit for one board: find its header, the end of its block, its acknowledgement and its digest line. */
  method StampBoard(lines: seq<string>, id: string, digest: string) returns (stamped: seq<string>)
    ensures stamped == Stamp(lines, id, digest)
  {
    hide *;
    var start := Find(lines, 0, |lines|, Naming(id));
    if start == |lines| {
      BoardMissing(lines, id, digest);
      return lines;
    }
    var end := Find(lines, start + 1, |lines|, Heading);
    BoardFound(lines, start, end, id, digest);
    var ack := Find(lines, start, end, Acknowledging);
    if ack == end {
      NoAckEdit(lines, start, end, digest);
      return lines;
    }
    var line := DigestLine(Indent(lines[ack]), digest);
    var at := Find(lines, start, end, Stamping);
    BlockEdit(lines, start, end, ack, at, digest);
    if at == end {
      stamped := lines[..ack + 1] + [line] + lines[ack + 1..];
      Spliced(lines, start, ack, end, line);
    } else {
      stamped := lines[at := line];
      Updated(lines, start, at, end, line);
    }
  }

  lemma Spliced(lines: seq<string>, start: nat, ack: nat, end: nat, line: string)
    requires start <= ack < end <= |lines|
    ensures var block, a := lines[start..end], ack - start;
            lines[..start] + ((block[..a + 1] + ([line] + block[a + 1..])) + lines[end..])
            == lines[..ack + 1] + [line] + lines[ack + 1..]
  {
  }

  lemma Updated(lines: seq<string>, start: nat, at: nat, end: nat, line: string)
    requires start <= at < end <= |lines|
    ensures lines[..start] + (lines[start..end][at - start := line] + lines[end..]) == lines[at := line]
  {
  }

  // ---------------------------------------------------------------------------------------------
  // All boards
  // ---------------------------------------------------------------------------------------------

  /** A board of the manifest: whether it is acknowledged, the digest of its models if they have one, the digest that
      is recorded, and whether its models have drifted. */
  datatype Board = Board(id: string, acked: bool, digest: string, recorded: Option<string>, drifted: bool)

  predicate InPlay(b: Board, stampAll: bool) {
    b.acked && b.digest != "" && b.recorded != Some(b.digest) && (stampAll || b.drifted)
  }

  function StampBoards(lines: seq<string>, boards: seq<Board>, stampAll: bool): seq<string>
    decreases |boards|
  {
    if boards == [] then lines
    else StampBoards(if InPlay(boards[0], stampAll) then Stamp(lines, boards[0].id, boards[0].digest) else lines,
                     boards[1..], stampAll)
  }

  /** `write_ack_digests`, from the lines of the manifest to the lines written back. */
  method WriteAckDigests(lines: seq<string>, boards: seq<Board>, stampAll: bool) returns (written: seq<string>)
    ensures written == StampBoards(lines, boards, stampAll)
  {
    hide Stamp;
    written := lines;
    var i := 0;
    assert boards[0..] == boards;
    while i < |boards|
      invariant 0 <= i <= |boards| && StampBoards(written, boards[i..], stampAll) == StampBoards(lines, boards, stampAll)
    {
      assert boards[i..][1..] == boards[i + 1..];
      if InPlay(boards[i], stampAll) {
        written := StampBoard(written, boards[i].id, boards[i].digest);
      }
      i := i + 1;
    }
  }

  /** The last board with an identifier that is acknowledged, has a digest, does not record that digest already and has
      drifted, or is stamped all the same, decides about its block. */
  function LastInPlay(boards: seq<Board>, id: string, stampAll: bool): Option<Board>
    decreases |boards|
  {
    if boards == [] then None
    else
      var last := boards[|boards| - 1];
      if last.id == id && last.acked && last.digest != "" && last.recorded != Some(last.digest) && (last.drifted || stampAll)
      then Some(last)
      else LastInPlay(boards[..|boards| - 1], id, stampAll)
  }

  lemma {:induction false} StampBoardsLast(lines: seq<string>, boards: seq<Board>, stampAll: bool)
    requires boards != []
    ensures var before, last := StampBoards(lines, boards[..|boards| - 1], stampAll), boards[|boards| - 1];
            StampBoards(lines, boards, stampAll)
            == if InPlay(last, stampAll) then Stamp(before, last.id, last.digest) else before
    decreases |boards|
  {
    hide Stamp, InPlay;
    if |boards| == 1 {
      assert boards[1..] == [] && boards[..0] == [];
    } else {
      var first := if InPlay(boards[0], stampAll) then Stamp(lines, boards[0].id, boards[0].digest) else lines;
      StampBoardsLast(first, boards[1..], stampAll);
      assert boards[1..][..|boards| - 2] == boards[..|boards| - 1][1..];
    }
  }

  /** After the whole run: the block of a board in play carries that board's digest under its own acknowledgement, every
      other block is untouched, and no line but digest lines has changed. */
  lemma {:induction false} RunStampsItsBoards(lines: seq<string>, boards: seq<Board>, stampAll: bool, id: string)
    ensures var before, after := Block(lines, id), Block(StampBoards(lines, boards, stampAll), id);
            && FirstAck(after) == FirstAck(before)
            && match LastInPlay(boards, id, stampAll) {
                 case None => after == before
                 case Some(b) => FirstDigest(after) == Wanted(before, b.digest)
               }
    ensures Erase(StampBoards(lines, boards, stampAll)) == Erase(lines)
    decreases |boards|
  {
    if boards != [] {
      var rest, last := boards[..|boards| - 1], boards[|boards| - 1];
      var before, middle := Block(lines, id), StampBoards(lines, rest, stampAll);
      StampBoardsLast(lines, boards, stampAll);
      RunStampsItsBoards(lines, rest, stampAll, id);
      OnlyDigestLinesChange(middle, last.id, last.digest);
      hide Stamp, InPlay, Block, Erase, StampBlock, FirstAck, FirstDigest, StampBoards;
      if InPlay(last, stampAll) {
        if last.id == id {
          OwnBlockStamped(middle, id, last.digest);
          StampBlockMeans(Block(middle, id), last.digest);
          SameWanted(before, Block(middle, id), LastInPlay(rest, id, stampAll), last.digest);
        } else {
          OtherBlocksKept(middle, last.id, id, last.digest);
        }
      }
    }
  }

  lemma SameWanted(before: seq<string>, middle: seq<string>, earlier: Option<Board>, digest: string)
    requires FirstAck(middle) == FirstAck(before)
    requires match earlier case None => middle == before case Some(b) => FirstDigest(middle) == Wanted(before, b.digest)
    ensures Wanted(middle, digest) == Wanted(before, digest)
  {
    hide FirstAck, FirstDigest;
  }

  // Stamps for one board replace each other, and stamps for different boards do not disturb each other.

  lemma {:induction false} ReplaceTwice(block: seq<string>, first: string, second: string)
    requires IsDigest(first)
    ensures ReplaceDigest(ReplaceDigest(block, first), second) == ReplaceDigest(block, second)
  {
    hide IsDigest;
    if block != [] {
      var rest := block[1..];
      if IsDigest(block[0]) {
        assert ([first] + rest)[1..] == rest;
      } else {
        ReplaceTwice(rest, first, second);
        assert ([block[0]] + ReplaceDigest(rest, first))[1..] == ReplaceDigest(rest, first);
      }
    }
  }

  lemma {:induction false} ReplaceInserted(block: seq<string>, first: string, second: string)
    requires IsDigest(first) && FirstDigest(block).None? && FirstAck(block).Some?
    ensures ReplaceDigest(InsertAfterAck(block, first), second) == InsertAfterAck(block, second)
  {
    hide IsDigest, IsAck;
    var rest := block[1..];
    if IsAck(block[0]) {
      OtherFront(block[0], [first] + rest, second);
      assert ([first] + rest)[1..] == rest;
    } else {
      ReplaceInserted(rest, first, second);
      OtherFront(block[0], InsertAfterAck(rest, first), second);
    }
  }

  lemma StampBlockTwice(block: seq<string>, first: string, second: string)
    ensures StampBlock(StampBlock(block, first), second) == StampBlock(block, second)
  {
    StampBlockMeans(block, first);
    match FirstAck(block)
    case None =>
    case Some(ack) =>
      var one, two := DigestLine(Indent(ack), first), DigestLine(Indent(ack), second);
      DigestLineIs(Indent(ack), first);
      hide IsDigest, DigestLine, Indent, FirstAck, FirstDigest, ReplaceDigest, InsertAfterAck;
      if FirstDigest(block).Some? {
        ReplaceTwice(block, one, two);
      } else {
        ReplaceInserted(block, one, two);
      }
  }

  /** A later stamp for the same board makes an earlier one as if it had not been. */
  lemma {:induction false} StampReplaces(lines: seq<string>, id: string, first: string, second: string)
    ensures Stamp(Stamp(lines, id, first), id, second) == Stamp(lines, id, second)
  {
    if lines != [] {
      if Names(lines[0], id) {
        StampHere(lines, id, first);
        StampHere(lines, id, second);
        var body, rest := Body(lines[1..]), lines[1 + |Body(lines[1..])|..];
        StampBlockTwice(body, first, second);
        hide Names, IsHead, StampBlock, NoHeads, Body, Stamp;
        StampFirst(lines[0], StampBlock(body, first), rest, id, second);
        StampAfterHeader(lines[0], StampBlock(body, first), second);
        Regroup(lines[0], StampBlock(body, first), rest);
        Regroup(lines[0], StampBlock(body, second), rest);
      } else {
        hide Names, StampBlock;
        var once := Stamp(lines[1..], id, first);
        StampReplaces(lines[1..], id, first, second);
        assert ([lines[0]] + once)[1..] == once;
      }
    }
  }

  lemma NamelessBlock(head: string, body: seq<string>, id: string, other: string)
    requires Names(head, id) && id != other && NoHeads(body)
    ensures forall k :: 0 <= k < |[head] + body| ==> !Names(([head] + body)[k], other)
  {
    NamesOne(head, id, other);
    forall k | 0 <= k < |body| ensures !Names(body[k], other) {
      NamesIsHead(body[k], other);
    }
    hide Names;
  }

  lemma StampKeepsFirst(lines: seq<string>, id: string, digest: string)
    ensures lines == [] ==> Stamp(lines, id, digest) == []
    ensures lines != [] ==> Stamp(lines, id, digest) != [] && Stamp(lines, id, digest)[0] == lines[0]
  {
    if lines != [] && Names(lines[0], id) { StampHere(lines, id, digest); }
    hide StampBlock, Names;
  }

  /** The file starts with the block of `id`: a stamp for another board goes past it. */
  lemma StampPast(lines: seq<string>, id: string, first: string, other: string, second: string)
    requires lines != [] && Names(lines[0], id) && id != other
    ensures Stamp(Stamp(lines, id, first), other, second) == Stamp(Stamp(lines, other, second), id, first)
  {
    StampHere(lines, id, first);
    var head, body, rest := lines[0], Body(lines[1..]), lines[1 + |Body(lines[1..])|..];
    var stamped, later := StampBlock(body, first), Stamp(rest, other, second);
    hide Names, IsHead, StampBlock, NoHeads, Body, Stamp;
    NamelessBlock(head, stamped, id, other);
    NamelessBlock(head, body, id, other);
    Regroup(head, stamped, rest);
    Regroup(head, body, rest);
    StampAfter([head] + stamped, rest, other, second);
    StampAfter([head] + body, rest, other, second);
    StampKeepsFirst(rest, other, second);
    StampFirst(head, body, later, id, first);
    StampAfterHeader(head, body, first);
  }

  lemma {:induction false} StampsCommute(lines: seq<string>, id: string, first: string, other: string, second: string)
    requires id != other
    ensures Stamp(Stamp(lines, id, first), other, second) == Stamp(Stamp(lines, other, second), id, first)
  {
    if lines != [] {
      if Names(lines[0], id) {
        StampPast(lines, id, first, other, second);
      } else if Names(lines[0], other) {
        StampPast(lines, other, second, id, first);
      } else {
        hide Names, StampBlock;
        var a, b := Stamp(lines[1..], id, first), Stamp(lines[1..], other, second);
        StampsCommute(lines[1..], id, first, other, second);
        assert ([lines[0]] + a)[1..] == a && ([lines[0]] + b)[1..] == b;
      }
    }
  }

  predicate Restamped(boards: seq<Board>, id: string, stampAll: bool) {
    exists b :: b in boards && b.id == id && InPlay(b, stampAll)
  }

  /** A stamp before a run is lost in the run if the run stamps that board, and otherwise might come after it. */
  lemma {:induction false} StampThenRun(lines: seq<string>, id: string, digest: string, boards: seq<Board>, stampAll: bool)
    ensures StampBoards(Stamp(lines, id, digest), boards, stampAll)
         == if Restamped(boards, id, stampAll) then StampBoards(lines, boards, stampAll)
            else Stamp(StampBoards(lines, boards, stampAll), id, digest)
    decreases |boards|
  {
    hide Stamp, InPlay;
    if boards != [] {
      var b, rest := boards[0], boards[1..];
      assert boards == [b] + rest;
      if !InPlay(b, stampAll) {
        StampThenRun(lines, id, digest, rest, stampAll);
      } else if b.id == id {
        assert b in boards;
        StampReplaces(lines, id, digest, b.digest);
      } else {
        StampsCommute(lines, id, digest, b.id, b.digest);
        StampThenRun(Stamp(lines, b.id, b.digest), id, digest, rest, stampAll);
      }
    }
  }

  /** A second run over the same boards changes nothing. */
  lemma {:induction false} SecondRunChangesNothing(lines: seq<string>, boards: seq<Board>, stampAll: bool)
    ensures StampBoards(StampBoards(lines, boards, stampAll), boards, stampAll) == StampBoards(lines, boards, stampAll)
    decreases |boards|
  {
    hide Stamp, InPlay;
    if boards != [] {
      var front, last := boards[..|boards| - 1], boards[|boards| - 1];
      var once := StampBoards(lines, front, stampAll);
      StampBoardsLast(lines, boards, stampAll);
      StampBoardsLast(StampBoards(lines, boards, stampAll), boards, stampAll);
      SecondRunChangesNothing(lines, front, stampAll);
      hide StampBoards, Restamped;
      if InPlay(last, stampAll) {
        StampThenRun(once, last.id, last.digest, front, stampAll);
        StampReplaces(once, last.id, last.digest, last.digest);
      }
    }
  }
}
