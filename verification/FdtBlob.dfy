/**
 The devicetree blob as bytes: header checks, the byte-level walk of `validate_dtb`, and the encoding of a
 tree (sections 5.2, 5.4 and 5.5 of the Devicetree Specification v0.4) that the walk undoes.
 */
module FdtBlob {
  import opened Prelude
  import opened FdtTree
  import opened Text

  const FDT_MAGIC: U32 := 0xd00d_feed
  const HEADER_BYTES: nat := 40
  const RESERVATION_BYTES: nat := 16

  /** `struct.unpack_from('>I', data, at)`. */
  function BigEndian(data: seq<Byte>, at: nat): U32
    requires at + 4 <= |data|
  {
    data[at] as int * 0x100_0000 + data[at + 1] as int * 0x1_0000 + data[at + 2] as int * 0x100 + data[at + 3] as int
  }

  function EncodeWord(n: U32): (w: seq<Byte>)
    ensures |w| == 4
  {
    var a := n / 0x100;
    var b := a / 0x100;
    [b / 0x100, b % 0x100, a % 0x100, n % 0x100]
  }

  lemma WordRoundTrip(n: U32, data: seq<Byte>, at: nat)
    requires At(data, at, EncodeWord(n))
    ensures BigEndian(data, at) == n
  {
    var w := EncodeWord(n);
    assert data[at + 0] == w[0] && data[at + 1] == w[1] && data[at + 2] == w[2] && data[at + 3] == w[3];
  }

  /** `word`: a 32-bit read that must end inside the structure block. */
  function Word(data: seq<Byte>, at: nat, end: nat): Result<U32, Fault>
    requires end <= |data|
  {
    if at + 4 > end then Err(WordRange) else Ok(BigEndian(data, at))
  }

  /** `block[:end].find(b'\0', from)`. */
  function FindNul(block: seq<Byte>, from: nat, end: nat): (r: Option<nat>)
    requires end <= |block|
    ensures r.Some? ==> from <= r.value < end
    decreases end - from
  {
    if from >= end then None
    else if block[from] == 0 then Some(from)
    else FindNul(block, from + 1, end)
  }

  /** `string(block[:end], at)`: the NUL-terminated ASCII string at `at`, and the position after its terminator. */
  function StringAt(block: seq<Byte>, at: nat, end: nat): (r: Result<(string, nat), Fault>)
    requires end <= |block|
    ensures r.Ok? ==> at < r.value.1
  {
    if at >= end then Err(StringOffset)
    else
      var nul := FindNul(block, at, end);
      if nul.None? then Err(MissingTerminator)
      else
        var text := Decode(block[at..nul.value]);
        if text.None? then Err(StringEncoding) else Ok((text.value, nul.value + 1))
  }

  /** One token read from the block, and where the next one starts. */
  datatype Lexeme = Item(tok: Token, next: nat) | EndOfBlock(next: nat)

  function Lex(data: seq<Byte>, pos: nat, end: nat, names: seq<Byte>): (r: Result<Lexeme, Fault>)
    requires end <= |data|
    ensures r.Ok? ==> r.value.next > pos
  {
    var token := Word(data, pos, end);
    if token.Err? then Err(token.error)
    else if token.value == 1 then LexNode(data, pos + 4, end)
    else if token.value == 2 then Ok(Item(EndNode, pos + 4))
    else if token.value == 3 then LexProperty(data, pos + 4, end, names)
    else if token.value == 4 then Ok(Item(Nop, pos + 4))
    else if token.value == 9 then Ok(EndOfBlock(pos + 4))
    else Err(UnknownToken)
  }

  function LexNode(data: seq<Byte>, pos: nat, end: nat): (r: Result<Lexeme, Fault>)
    requires end <= |data|
    ensures r.Ok? ==> r.value.next > pos
  {
    var name := StringAt(data, pos, end);
    if name.Err? then Err(name.error) else Ok(Item(BeginNode(name.value.0), Align4(name.value.1)))
  }

  function LexProperty(data: seq<Byte>, pos: nat, end: nat, names: seq<Byte>): (r: Result<Lexeme, Fault>)
    requires end <= |data|
    ensures r.Ok? ==> r.value.next > pos
  {
    var length, offset := Word(data, pos, end), Word(data, pos + 4, end);
    if length.Err? then Err(length.error)
    else if offset.Err? then Err(offset.error)
    else
      var name := StringAt(names, offset.value, |names|);
      if name.Err? then Err(name.error)
      else if pos + 8 + length.value > end then Err(PropertyRange)
      else Ok(Item(Prop(name.value.0, data[pos + 8..pos + 8 + length.value]), Align4(pos + 8 + length.value)))
  }

  /** What one turn of the loop leaves behind. */
  datatype Turn = Finished(nodes: NodeTable) | Continue(st: State, next: nat)

  function TurnAt(data: seq<Byte>, pos: nat, end: nat, names: seq<Byte>, st: State): (r: Result<Turn, Fault>)
    requires end <= |data| && st.Valid()
    ensures r.Ok? && r.value.Continue? ==> r.value.st.Valid() && r.value.next > pos
  {
    var lexeme := Lex(data, pos, end, names);
    if lexeme.Err? then Err(lexeme.error)
    else match lexeme.value
      case EndOfBlock(next) => if st.stack != [] || next != end then Err(Trailing) else Ok(Finished(st.nodes))
      case Item(tok, next) =>
        var stepped := Step(st, tok);
        if stepped.Err? then Err(stepped.error) else Ok(Continue(stepped.value, next))
  }

  /** The walk as a recursion over positions. */
  function WalkFrom(data: seq<Byte>, pos: nat, end: nat, names: seq<Byte>, st: State): Result<NodeTable, Fault>
    requires end <= |data| && st.Valid()
    decreases end - pos
  {
    if pos >= end then Err(MissingEnd)
    else
      var turn := TurnAt(data, pos, end, names, st);
      if turn.Err? then Err(turn.error)
      else match turn.value
        case Finished(nodes) => Ok(nodes)
        case Continue(st, next) => WalkFrom(data, next, end, names, st)
  }

  /** The loop of `validate_dtb`, updating `nodes`, `stack` and `pos` token by token. It always terminates. */
  method Walk(data: seq<Byte>, start: nat, end: nat, names: seq<Byte>) returns (r: Result<NodeTable, Fault>)
    requires end <= |data|
    ensures r == WalkFrom(data, start, end, names, INITIAL)
  {
    var nodes: NodeTable, stack: seq<string>, pos := map[], [], start;
    while pos < end
      invariant State(nodes, stack).Valid()
      invariant WalkFrom(data, pos, end, names, State(nodes, stack)) == WalkFrom(data, start, end, names, INITIAL)
      decreases end - pos
    {
      var turn := TakeToken(data, pos, end, names, nodes, stack);
      if turn.Err? { return Err(turn.error); }
      if turn.value.Finished? { return Ok(turn.value.nodes); }
      nodes, stack, pos := turn.value.st.nodes, turn.value.st.stack, turn.value.next;
    }
    return Err(MissingEnd);
  }

  /** The body of that loop. */
  method TakeToken(data: seq<Byte>, start: nat, end: nat, names: seq<Byte>, nodes: NodeTable, stack: seq<string>)
    returns (r: Result<Turn, Fault>)
    requires end <= |data| && State(nodes, stack).Valid()
    ensures r == TurnAt(data, start, end, names, State(nodes, stack))
  {
    var pos := start;
    if pos + 4 > end { return Err(WordRange); }
    var token := BigEndian(data, pos);
    pos := pos + 4;
    if token == 1 {
      var s := StringAt(data, pos, end);
      if s.Err? { return Err(s.error); }
      var name := s.value.0;
      pos := Align4(s.value.1);
      if '/' in name || (stack == [] && (name != "" || nodes != map[])) { return Err(NodeName); }
      var path := (if stack != [] then RStrip(stack[|stack| - 1]) else "") + "/" + name;
      if path in nodes { return Err(DuplicateNode); }
      return Ok(Continue(State(nodes[path := map[]], stack + [path]), pos));
    } else if token == 2 {
      if stack == [] { return Err(Unbalanced); }
      return Ok(Continue(State(nodes, stack[..|stack| - 1]), pos));
    } else if token == 3 {
      if pos + 8 > end { return Err(WordRange); }
      var length, offset := BigEndian(data, pos), BigEndian(data, pos + 4);
      pos := pos + 8;
      var s := StringAt(names, offset, |names|);
      if s.Err? { return Err(s.error); }
      var name := s.value.0;
      if stack == [] || pos + length > end || name in nodes[stack[|stack| - 1]] { return Err(PropertyRange); }
      var top := stack[|stack| - 1];
      var grown := nodes[top := nodes[top][name := data[pos..pos + length]]];
      pos := Align4(pos + length);
      return Ok(Continue(State(grown, stack), pos));
    } else if token == 4 {
      return Ok(Continue(State(nodes, stack), pos));
    } else if token == 9 {
      if stack != [] || pos != end { return Err(Trailing); }
      return Ok(Finished(nodes));
    } else {
      return Err(UnknownToken);
    }
  }

  // ---------------------------------------------------------------------------------------------
  // From bytes to tokens
  // ---------------------------------------------------------------------------------------------

  /** The tokens of a block that ends with FDT_END exactly at its end. */
  function Tokens(data: seq<Byte>, pos: nat, end: nat, names: seq<Byte>): Option<seq<Token>>
    requires end <= |data|
    decreases end - pos
  {
    if pos >= end then None
    else
      var lexeme := Lex(data, pos, end, names);
      if lexeme.Err? then None
      else match lexeme.value
        case EndOfBlock(next) => if next == end then Some([]) else None
        case Item(tok, next) =>
          var rest := Tokens(data, next, end, names);
          if rest.None? then None else Some([tok] + rest.value)
  }

  /** The byte walk is the token walk over what the bytes spell. */
  lemma {:induction false} WalkRunsTokens(data: seq<Byte>, pos: nat, end: nat, names: seq<Byte>, st: State)
    requires end <= |data| && st.Valid()
    ensures var ts := Tokens(data, pos, end, names);
            var walk := WalkFrom(data, pos, end, names, st);
            if ts.Some? && Run(st, ts.value).Ok? && Run(st, ts.value).value.stack == []
            then walk == Ok(Run(st, ts.value).value.nodes) else walk.Err?
    decreases end - pos
  {
    if pos < end && Lex(data, pos, end, names).Ok? {
      var lexeme := Lex(data, pos, end, names).value;
      if lexeme.Item? {
        var rest := Tokens(data, lexeme.next, end, names);
        if rest.Some? { RunCons(st, lexeme.tok, rest.value); }
        if Step(st, lexeme.tok).Ok? { WalkRunsTokens(data, lexeme.next, end, names, Step(st, lexeme.tok).value); }
      }
    }
  }

  // ---------------------------------------------------------------------------------------------
  // From tokens to bytes
  // ---------------------------------------------------------------------------------------------

  /** A name that a NUL can terminate. */
  predicate AsciiName(s: string) {
    IsAscii(s) && '\0' !in s
  }

  predicate Encodable(tok: Token, offsets: map<string, U32>) {
    match tok
    case BeginNode(name) => AsciiName(name)
    case Prop(name, value) => |value| < TWO_TO_THE_32 && name in offsets
    case _ => true
  }

  predicate AllEncodable(ts: seq<Token>, offsets: map<string, U32>) {
    ts == [] || (Encodable(ts[0], offsets) && AllEncodable(ts[1..], offsets))
  }

  /** `offsets` says where each property name stands in the strings block. */
  predicate Resolves(names: seq<Byte>, offsets: map<string, U32>) {
    forall n :: n in offsets ==> StringAt(names, offsets[n], |names|).Ok? && StringAt(names, offsets[n], |names|).value.0 == n
  }

  function EncodeToken(tok: Token, offsets: map<string, U32>): (r: seq<Byte>)
    requires Encodable(tok, offsets)
  {
    match tok
    case BeginNode(name) => EncodeWord(1) + (Encode(name) + [0] + PadBytes(|name| + 1))
    case EndNode => EncodeWord(2)
    case Prop(name, value) => EncodeWord(3) + (EncodeWord(|value|) + (EncodeWord(offsets[name]) + (value + PadBytes(|value|))))
    case Nop => EncodeWord(4)
  }

  function EncodeBlock(ts: seq<Token>, offsets: map<string, U32>): (r: seq<Byte>)
    requires AllEncodable(ts, offsets)
  {
    if ts == [] then EncodeWord(9)
    else EncodeToken(ts[0], offsets) + EncodeBlock(ts[1..], offsets)
  }

  lemma {:induction false} FindNulIs(block: seq<Byte>, from: nat, at: nat, end: nat)
    requires from <= at < end <= |block| && block[at] == 0
    requires forall i :: from <= i < at ==> block[i] != 0
    ensures FindNul(block, from, end) == Some(at)
    decreases at - from
  {
    if from < at { FindNulIs(block, from + 1, at, end); }
  }

  lemma StringEncoded(block: seq<Byte>, at: nat, end: nat, name: string)
    requires AsciiName(name) && At(block, at, Encode(name) + [0]) && at + |name| < end <= |block|
    ensures StringAt(block, at, end) == Ok((name, at + |name| + 1))
  {
    AtSplit(block, at, Encode(name), [0]);
    assert block[at + |name|] == [0][0];
    forall i | at <= i < at + |name| ensures block[i] != 0 {
      assert block[at + (i - at)] == Encode(name)[i - at];
    }
    FindNulIs(block, at, at + |name|, end);
    AtSlice(block, at, Encode(name));
    DecodeEncode(name);
  }

  // What Lex makes of each kind of token, given what stands in the block.

  lemma LexBareAt(data: seq<Byte>, pos: nat, end: nat, names: seq<Byte>)
    requires pos + 4 <= end <= |data|
    ensures BigEndian(data, pos) == 2 ==> Lex(data, pos, end, names) == Ok(Item(EndNode, pos + 4))
    ensures BigEndian(data, pos) == 4 ==> Lex(data, pos, end, names) == Ok(Item(Nop, pos + 4))
    ensures BigEndian(data, pos) == 9 ==> Lex(data, pos, end, names) == Ok(EndOfBlock(pos + 4))
  {
  }

  lemma AlignPast(pos: nat, words: nat, n: nat)
    requires Aligned(pos)
    ensures Align4(pos + 4 * words + n) == pos + 4 * words + Align4(n)
    ensures Aligned(pos + 4 * words + Align4(n))
    decreases words
  {
    AlignTwice(n);
    AlignShift(pos, n);
    AlignShift(pos, Align4(n));
    if words > 0 {
      AlignShift(pos, 4);
      AlignPast(pos + 4, words - 1, n);
    }
  }

  lemma LexNodeAt(data: seq<Byte>, pos: nat, end: nat, names: seq<Byte>, name: string)
    requires pos + 4 <= end <= |data| && BigEndian(data, pos) == 1
    requires StringAt(data, pos + 4, end) == Ok((name, pos + 4 + |name| + 1))
    ensures Lex(data, pos, end, names) == Ok(Item(BeginNode(name), Align4(pos + 4 + |name| + 1)))
  {
  }

  lemma LexPropertyAt(data: seq<Byte>, pos: nat, end: nat, names: seq<Byte>, offset: U32, name: string, value: seq<Byte>)
    requires pos + 12 + |value| <= end <= |data|
    requires BigEndian(data, pos) == 3 && BigEndian(data, pos + 4) == |value| && BigEndian(data, pos + 8) == offset
    requires data[pos + 12..pos + 12 + |value|] == value
    requires StringAt(names, offset, |names|).Ok? && StringAt(names, offset, |names|).value.0 == name
    ensures Lex(data, pos, end, names) == Ok(Item(Prop(name, value), Align4(pos + 12 + |value|)))
  {
  }

  // What stands in the block when a token has been encoded there.

  lemma WordAt(data: seq<Byte>, pos: nat, n: U32, rest: seq<Byte>)
    requires At(data, pos, EncodeWord(n) + rest)
    ensures BigEndian(data, pos) == n && At(data, pos + 4, rest)
  {
    AtSplit(data, pos, EncodeWord(n), rest);
    WordRoundTrip(n, data, pos);
  }

  lemma NodeAt(data: seq<Byte>, pos: nat, end: nat, name: string)
    requires AsciiName(name) && pos + 4 + |name| < end <= |data|
    requires At(data, pos, EncodeWord(1) + (Encode(name) + [0] + PadBytes(|name| + 1)))
    ensures BigEndian(data, pos) == 1
    ensures StringAt(data, pos + 4, end) == Ok((name, pos + 4 + |name| + 1))
  {
    WordAt(data, pos, 1, Encode(name) + [0] + PadBytes(|name| + 1));
    AtSplit(data, pos + 4, Encode(name) + [0], PadBytes(|name| + 1));
    StringEncoded(data, pos + 4, end, name);
  }

  lemma PropertyAt(data: seq<Byte>, pos: nat, offset: U32, value: seq<Byte>)
    requires |value| < TWO_TO_THE_32
    requires At(data, pos, EncodeWord(3) + (EncodeWord(|value|) + (EncodeWord(offset) + (value + PadBytes(|value|)))))
    ensures pos + 12 + |value| <= |data|
    ensures BigEndian(data, pos) == 3 && BigEndian(data, pos + 4) == |value| && BigEndian(data, pos + 8) == offset
    ensures data[pos + 12..pos + 12 + |value|] == value
  {
    WordAt(data, pos, 3, EncodeWord(|value|) + (EncodeWord(offset) + (value + PadBytes(|value|))));
    WordAt(data, pos + 4, |value|, EncodeWord(offset) + (value + PadBytes(|value|)));
    WordAt(data, pos + 8, offset, value + PadBytes(|value|));
    AtSplit(data, pos + 12, value, PadBytes(|value|));
    AtSlice(data, pos + 12, value);
  }

  /** Where the token after `tok` starts, when `tok` is encoded at an aligned position. */
  function NextAfter(pos: nat, tok: Token): nat {
    match tok
    case BeginNode(name) => Align4(pos + 4 + |name| + 1)
    case Prop(_, value) => Align4(pos + 12 + |value|)
    case _ => pos + 4
  }

  lemma EncodedLength(pos: nat, tok: Token, offsets: map<string, U32>)
    requires Aligned(pos) && Encodable(tok, offsets)
    ensures pos + |EncodeToken(tok, offsets)| == NextAfter(pos, tok)
    ensures Aligned(NextAfter(pos, tok)) && NextAfter(pos, tok) > pos
  {
    match tok
    case BeginNode(name) => AlignPast(pos, 1, |name| + 1);
    case Prop(_, value) => AlignPast(pos, 3, |value|);
    case _ => AlignPast(pos, 1, 0);
  }

  lemma LexEncoded(data: seq<Byte>, pos: nat, end: nat, names: seq<Byte>, offsets: map<string, U32>, tok: Token)
    requires Encodable(tok, offsets) && Resolves(names, offsets)
    requires At(data, pos, EncodeToken(tok, offsets)) && pos + |EncodeToken(tok, offsets)| <= end <= |data|
    ensures Lex(data, pos, end, names) == Ok(Item(tok, NextAfter(pos, tok)))
  {
    hide Lex, At, EncodeWord;
    match tok
    case BeginNode(name) => NodeEncoded(data, pos, end, names, offsets, name);
    case Prop(name, value) => PropertyEncoded(data, pos, end, names, offsets, name, value);
    case _ => BareEncoded(data, pos, end, names, offsets, tok);
  }

  lemma BareEncoded(data: seq<Byte>, pos: nat, end: nat, names: seq<Byte>, offsets: map<string, U32>, tok: Token)
    requires (tok == EndNode || tok == Nop) && pos + 4 <= end <= |data|
    requires At(data, pos, EncodeToken(tok, offsets))
    ensures Lex(data, pos, end, names) == Ok(Item(tok, pos + 4))
  {
    WordRoundTrip(if tok == EndNode then 2 else 4, data, pos);
    LexBareAt(data, pos, end, names);
  }

  lemma NodeEncoded(data: seq<Byte>, pos: nat, end: nat, names: seq<Byte>, offsets: map<string, U32>, name: string)
    requires AsciiName(name) && pos + |EncodeToken(BeginNode(name), offsets)| <= end <= |data|
    requires At(data, pos, EncodeToken(BeginNode(name), offsets))
    ensures Lex(data, pos, end, names) == Ok(Item(BeginNode(name), Align4(pos + 4 + |name| + 1)))
  {
    NodeAt(data, pos, end, name);
    LexNodeAt(data, pos, end, names, name);
  }

  lemma PropertyEncoded(data: seq<Byte>, pos: nat, end: nat, names: seq<Byte>, offsets: map<string, U32>,
                        name: string, value: seq<Byte>)
    requires Encodable(Prop(name, value), offsets) && Resolves(names, offsets)
    requires pos + |EncodeToken(Prop(name, value), offsets)| <= end <= |data|
    requires At(data, pos, EncodeToken(Prop(name, value), offsets))
    ensures Lex(data, pos, end, names) == Ok(Item(Prop(name, value), Align4(pos + 12 + |value|)))
  {
    PropertyAt(data, pos, offsets[name], value);
    LexPropertyAt(data, pos, end, names, offsets[name], name, value);
  }

  lemma SliceSplit(data: seq<Byte>, pos: nat, end: nat, head: seq<Byte>, tail: seq<Byte>)
    requires pos <= end <= |data| && data[pos..end] == head + tail
    ensures pos + |head| <= end && At(data, pos, head) && data[pos + |head|..end] == tail
  {
    assert At(data, pos, head + tail);
    AtSplit(data, pos, head, tail);
  }

  lemma HeadEncoded(data: seq<Byte>, pos: nat, end: nat, names: seq<Byte>, offsets: map<string, U32>,
                    tok: Token, tail: seq<Byte>)
    requires pos <= end <= |data| && Aligned(pos) && Encodable(tok, offsets) && Resolves(names, offsets)
    requires data[pos..end] == EncodeToken(tok, offsets) + tail
    ensures pos < NextAfter(pos, tok) <= end && Aligned(NextAfter(pos, tok))
    ensures Lex(data, pos, end, names) == Ok(Item(tok, NextAfter(pos, tok)))
    ensures data[NextAfter(pos, tok)..end] == tail
  {
    EncodedLength(pos, tok, offsets);
    SliceSplit(data, pos, end, EncodeToken(tok, offsets), tail);
    LexEncoded(data, pos, end, names, offsets, tok);
  }

  lemma TokensCons(data: seq<Byte>, pos: nat, end: nat, names: seq<Byte>, tok: Token, next: nat)
    requires pos < end <= |data| && Lex(data, pos, end, names) == Ok(Item(tok, next))
    ensures Tokens(data, next, end, names).Some? ==>
              Tokens(data, pos, end, names) == Some([tok] + Tokens(data, next, end, names).value)
  {
  }

  lemma EndEncoded(data: seq<Byte>, pos: nat, end: nat, names: seq<Byte>, offsets: map<string, U32>)
    requires end <= |data| && pos <= end && data[pos..end] == EncodeBlock([], offsets)
    ensures Tokens(data, pos, end, names) == Some([])
  {
    WordRoundTrip(9, data, pos);
    LexBareAt(data, pos, end, names);
  }

  lemma BlockFirst(ts: seq<Token>, offsets: map<string, U32>)
    requires ts != [] && AllEncodable(ts, offsets)
    ensures Encodable(ts[0], offsets) && AllEncodable(ts[1..], offsets)
    ensures EncodeBlock(ts, offsets) == EncodeToken(ts[0], offsets) + EncodeBlock(ts[1..], offsets)
  {
    hide Encodable, EncodeToken;
  }

  lemma {:induction false} TokensEncoded(data: seq<Byte>, pos: nat, end: nat, names: seq<Byte>,
                                         offsets: map<string, U32>, ts: seq<Token>)
    requires end <= |data| && pos <= end && Aligned(pos)
    requires Resolves(names, offsets) && AllEncodable(ts, offsets)
    requires data[pos..end] == EncodeBlock(ts, offsets)
    ensures Tokens(data, pos, end, names) == Some(ts)
    decreases |ts|
  {
    hide *;
    if ts == [] {
      EndEncoded(data, pos, end, names, offsets);
    } else {
      BlockFirst(ts, offsets);
      var next := NextAfter(pos, ts[0]);
      HeadEncoded(data, pos, end, names, offsets, ts[0], EncodeBlock(ts[1..], offsets));
      TokensEncoded(data, next, end, names, offsets, ts[1..]);
      TokensCons(data, pos, end, names, ts[0], next);
      assert [ts[0]] + ts[1..] == ts;
    }
  }

  // ---------------------------------------------------------------------------------------------
  // Whole blobs
  // ---------------------------------------------------------------------------------------------

  datatype Layout = Layout(offStruct: nat, endStruct: nat, names: seq<Byte>)

  /** The header checks that precede the walk; on success they yield the structure range and the strings block. */
  function ReadHeader(data: seq<Byte>): (r: Result<Layout, Fault>)
    ensures r.Ok? ==> r.value.offStruct <= r.value.endStruct <= |data| && r.value.offStruct % 4 == 0
  {
    if |data| < HEADER_BYTES then Err(Truncated)
    else
      var size, offS, offN, offR := BigEndian(data, 4), BigEndian(data, 8), BigEndian(data, 12), BigEndian(data, 16);
      var version, compatible, cpu := BigEndian(data, 20), BigEndian(data, 24), BigEndian(data, 28);
      var lenN, lenS := BigEndian(data, 32), BigEndian(data, 36);
      if BigEndian(data, 0) != FDT_MAGIC || size != |data| || version != 17 || cpu != 0 || compatible > 17 then
        Err(BadHeader)
      else if !(HEADER_BYTES <= offR && offR + RESERVATION_BYTES <= offS && offS + lenS <= offN && offN + lenN == size) then
        Err(BlockRanges)
      else if offS % 4 != 0 || offR % 8 != 0 || exists i :: offR <= i < offS && data[i] != 0 then
        Err(Reservations)
      else Ok(Layout(offS, offS + lenS, data[offN..offN + lenN]))
  }

  /** The four bytes of word `k` of the header, most significant first. */
  ghost predicate HeaderWord(data: seq<Byte>, k: nat, value: int) {
    4 * k + 4 <= |data|
    && value == ((data[4 * k] as int * 0x100 + data[4 * k + 1] as int) * 0x100 + data[4 * k + 2] as int) * 0x100
                + data[4 * k + 3] as int
  }

  /** A version-17 blob whose structure block stands at `start` up to `end` and whose strings block is `names`. The empty
      memory reservation block, at `map`, is nothing but zeros up to the structure block and at least one entry long; the
      strings block comes last. */
  ghost predicate BlobWith(data: seq<Byte>, reserved: nat, compatible: nat, start: nat, end: nat, names: seq<Byte>) {
    && HeaderWord(data, 0, 0xd00dfeed) && HeaderWord(data, 1, |data|)
    && HeaderWord(data, 2, start) && HeaderWord(data, 3, |data| - |names|) && HeaderWord(data, 4, reserved)
    && HeaderWord(data, 5, 17) && HeaderWord(data, 6, compatible) && compatible <= 17 && HeaderWord(data, 7, 0)
    && HeaderWord(data, 8, |names|) && HeaderWord(data, 9, end - start)
    && 40 <= reserved && reserved + 16 <= start <= end <= |data| - |names|
    && reserved % 8 == 0 && start % 4 == 0
    && (forall i :: reserved <= i < start ==> data[i] == 0)
    && data[|data| - |names|..] == names
  }

  /** The header checks let pass exactly the blobs of that shape, and find their parts. */
  lemma ReadHeaderExact(data: seq<Byte>, start: nat, end: nat, names: seq<Byte>)
    ensures ReadHeader(data) == Ok(Layout(start, end, names)) <==>
            exists reserved, compatible :: BlobWith(data, reserved, compatible, start, end, names)
  {
    hide BlobWith, ReadHeader;
    if ReadHeader(data) == Ok(Layout(start, end, names)) {
      PassedHasShape(data, start, end, names);
    }
    if exists reserved, compatible :: BlobWith(data, reserved, compatible, start, end, names) {
      var reserved, compatible :| BlobWith(data, reserved, compatible, start, end, names);
      ShapePasses(data, reserved, compatible, start, end, names);
    }
  }

  lemma WordMeans(data: seq<Byte>, k: nat, at: nat, value: int)
    requires at == 4 * k
    ensures HeaderWord(data, k, value) <==> at + 4 <= |data| && BigEndian(data, at) == value
  {
  }

  lemma ShapePasses(data: seq<Byte>, reserved: nat, compatible: nat, start: nat, end: nat, names: seq<Byte>)
    requires BlobWith(data, reserved, compatible, start, end, names)
    ensures ReadHeader(data) == Ok(Layout(start, end, names))
  {
    hide HeaderWord, BigEndian;
    WordMeans(data, 0, 0, 0xd00dfeed);
    WordMeans(data, 1, 4, |data|);
    WordMeans(data, 2, 8, start);
    WordMeans(data, 3, 12, |data| - |names|);
    WordMeans(data, 4, 16, reserved);
    WordMeans(data, 5, 20, 17);
    WordMeans(data, 6, 24, compatible);
    WordMeans(data, 7, 28, 0);
    WordMeans(data, 8, 32, |names|);
    WordMeans(data, 9, 36, end - start);
    assert data[|data| - |names|..|data|] == data[|data| - |names|..];
  }

  lemma PassedHasShape(data: seq<Byte>, start: nat, end: nat, names: seq<Byte>)
    requires ReadHeader(data) == Ok(Layout(start, end, names))
    ensures |data| >= 40 && BlobWith(data, BigEndian(data, 16), BigEndian(data, 24), start, end, names)
  {
    hide HeaderWord, BigEndian;
    WordMeans(data, 0, 0, 0xd00dfeed);
    WordMeans(data, 1, 4, |data|);
    WordMeans(data, 2, 8, start);
    WordMeans(data, 3, 12, |data| - |names|);
    WordMeans(data, 4, 16, BigEndian(data, 16));
    WordMeans(data, 5, 20, 17);
    WordMeans(data, 6, 24, BigEndian(data, 24));
    WordMeans(data, 7, 28, 0);
    WordMeans(data, 8, 32, |names|);
    WordMeans(data, 9, 36, end - start);
    assert data[|data| - |names|..|data|] == data[|data| - |names|..];
  }

  function ReadBlob(data: seq<Byte>): Result<NodeTable, Fault> {
    var layout := ReadHeader(data);
    if layout.Err? then Err(layout.error)
    else WalkFrom(data, layout.value.offStruct, layout.value.endStruct, layout.value.names, INITIAL)
  }

  /** `validate_dtb` up to the comparison with the board's fixed table. */
  method ReadDtb(data: seq<Byte>) returns (r: Result<NodeTable, Fault>)
    ensures r == ReadBlob(data)
  {
    var layout := ReadHeader(data);
    if layout.Err? { return Err(layout.error); }
    r := Walk(data, layout.value.offStruct, layout.value.endStruct, layout.value.names);
  }

  function EncodeWords(ws: seq<U32>): (r: seq<Byte>)
    ensures |r| == 4 * |ws|
  {
    if ws == [] then [] else EncodeWord(ws[0]) + EncodeWords(ws[1..])
  }

  lemma {:induction false} WordsRoundTrip(ws: seq<U32>, data: seq<Byte>, at: nat, k: nat)
    requires At(data, at, EncodeWords(ws)) && k < |ws|
    ensures BigEndian(data, at + 4 * k) == ws[k]
    decreases k
  {
    AtSplit(data, at, EncodeWord(ws[0]), EncodeWords(ws[1..]));
    if k == 0 { WordRoundTrip(ws[0], data, at); } else { WordsRoundTrip(ws[1..], data, at + 4, k - 1); }
  }

  function HeaderWords(lenStruct: nat, lenNames: nat): (ws: seq<U32>)
    requires 56 + lenStruct + lenNames < TWO_TO_THE_32
    ensures |ws| == 10
  {
    [FDT_MAGIC, 56 + lenStruct + lenNames, 56, 56 + lenStruct, HEADER_BYTES, 17, 16, 0, lenNames, lenStruct]
  }

  /** A version-17 blob: header, an empty reservation block, the structure block, the strings block. */
  function BuildBlob(structure: seq<Byte>, names: seq<Byte>): (r: seq<Byte>)
    requires 56 + |structure| + |names| < TWO_TO_THE_32
    ensures |r| == 56 + |structure| + |names|
  {
    EncodeWords(HeaderWords(|structure|, |names|)) + seq(RESERVATION_BYTES, _ => 0) + structure + names
  }

  lemma HeaderRoundTrip(structure: seq<Byte>, names: seq<Byte>)
    requires 56 + |structure| + |names| < TWO_TO_THE_32
    ensures var data := BuildBlob(structure, names);
            && ReadHeader(data) == Ok(Layout(56, 56 + |structure|, names))
            && data[56..56 + |structure|] == structure
  {
    BlobParts(structure, names);
    hide BuildBlob, BigEndian;
    HeaderReads(BuildBlob(structure, names), |structure|, names);
  }

  /** The ten words of a blob's header. */
  ghost predicate HasWords(data: seq<Byte>, ws: seq<U32>)
    requires |ws| == 10 && |data| >= HEADER_BYTES
  {
    forall k :: 0 <= k < 10 ==> WordIs(data, k, ws[k])
  }

  ghost predicate WordIs(data: seq<Byte>, k: nat, word: U32)
    requires |data| >= 4 * k + 4
  {
    BigEndian(data, 4 * k) == word
  }

  lemma BlobParts(structure: seq<Byte>, names: seq<Byte>)
    requires 56 + |structure| + |names| < TWO_TO_THE_32
    ensures var data := BuildBlob(structure, names);
            && HasWords(data, HeaderWords(|structure|, |names|)) && (forall i :: 40 <= i < 56 ==> data[i] == 0)
            && data[56..56 + |structure|] == structure
            && data[56 + |structure|..56 + |structure| + |names|] == names
  {
    var data := BuildBlob(structure, names);
    var ws := HeaderWords(|structure|, |names|);
    assert At(data, 0, EncodeWords(ws));
    hide HeaderWords, BigEndian, EncodeWords;
    forall k | 0 <= k < 10 ensures WordIs(data, k, ws[k]) { WordsRoundTrip(ws, data, 0, k); }
  }

  lemma HeaderReads(data: seq<Byte>, lenStruct: nat, names: seq<Byte>)
    requires |data| == 56 + lenStruct + |names| < TWO_TO_THE_32 && HasWords(data, HeaderWords(lenStruct, |names|))
    requires (forall i :: 40 <= i < 56 ==> data[i] == 0) && data[56 + lenStruct..56 + lenStruct + |names|] == names
    ensures ReadHeader(data) == Ok(Layout(56, 56 + lenStruct, names))
  {
    hide BigEndian;
    var ws := HeaderWords(lenStruct, |names|);
    assert WordIs(data, 0, ws[0]) && WordIs(data, 1, ws[1]) && WordIs(data, 2, ws[2]) && WordIs(data, 3, ws[3]);
    assert WordIs(data, 4, ws[4]) && WordIs(data, 5, ws[5]) && WordIs(data, 6, ws[6]) && WordIs(data, 7, ws[7]);
    assert WordIs(data, 8, ws[8]) && WordIs(data, 9, ws[9]);
  }

  /** The blob of any tree, with NOPs around the root and any sound strings block, is accepted if and only if the
      tree is acceptable, and reading it gives back the tree's table. */
  lemma {:induction false} BlobAccepted(before: nat, root: Body, after: nat, names: seq<Byte>, offsets: map<string, U32>)
    requires Resolves(names, offsets)
    requires AllEncodable(FlattenBlock(before, root, after), offsets)
    requires 56 + |EncodeBlock(FlattenBlock(before, root, after), offsets)| + |names| < TWO_TO_THE_32
    ensures var data := BuildBlob(EncodeBlock(FlattenBlock(before, root, after), offsets), names);
            && (Acceptable(root) ==> ReadBlob(data) == Ok(TreeTable(root)))
            && (!Acceptable(root) ==> ReadBlob(data).Err?)
            && (Conforming(root) ==> ReadBlob(data) == Ok(TreeTable(root)))
    ensures Acceptable(root) <==> Addressed(root)
    ensures Acceptable(root) ==> Describes(TreeTable(root), root)
  {
    BlobOfTokens(FlattenBlock(before, root, after), names, offsets);
    BlockAccepted(before, root, after);
    if Conforming(root) { ConformingIsAcceptable(root); }
    hide *;
  }

  lemma BlobOfTokens(ts: seq<Token>, names: seq<Byte>, offsets: map<string, U32>)
    requires Resolves(names, offsets)
    requires AllEncodable(ts, offsets)
    requires 56 + |EncodeBlock(ts, offsets)| + |names| < TWO_TO_THE_32
    ensures var read := ReadBlob(BuildBlob(EncodeBlock(ts, offsets), names));
            var run := Run(INITIAL, ts);
            if run.Ok? && run.value.stack == [] then read == Ok(run.value.nodes) else read.Err?
  {
    var structure := EncodeBlock(ts, offsets);
    var data := BuildBlob(structure, names);
    HeaderRoundTrip(structure, names);
    AlignedIsMultiple(56);
    BlobWalked(data, Layout(56, 56 + |structure|, names));
    hide BuildBlob, EncodeBlock, AllEncodable, Resolves, Tokens, ReadHeader, Aligned, WalkFrom, Run, Lex, ReadBlob;
    TokensEncoded(data, 56, 56 + |structure|, names, offsets, ts);
    WalkRunsTokens(data, 56, 56 + |structure|, names, INITIAL);
  }

  lemma BlobWalked(data: seq<Byte>, layout: Layout)
    requires ReadHeader(data) == Ok(layout)
    ensures layout.endStruct <= |data|
    ensures ReadBlob(data) == WalkFrom(data, layout.offStruct, layout.endStruct, layout.names, INITIAL)
  {
    hide ReadHeader, WalkFrom;
  }

  /** Any blob that is read to at least one node spells, token for token, one acceptable tree under a single root,
      with FDT_END exactly at the end of the structure block, and what is read is that tree's table. */
  lemma {:induction false} ReadBlobIsTree(data: seq<Byte>) returns (before: nat, root: Body, after: nat)
    requires ReadBlob(data).Ok? && ReadBlob(data).value != map[]
    ensures var layout := ReadHeader(data).value;
            Tokens(data, layout.offStruct, layout.endStruct, layout.names) == Some(FlattenBlock(before, root, after))
    ensures Acceptable(root)
    ensures ReadBlob(data) == Ok(TreeTable(root)) && Describes(TreeTable(root), root)
  {
    var layout := ReadHeader(data).value;
    WalkRunsTokens(data, layout.offStruct, layout.endStruct, layout.names, INITIAL);
    before, root, after := AcceptedIsTree(Tokens(data, layout.offStruct, layout.endStruct, layout.names).value);
    TableDescribes(root);
    hide *;
  }
}
