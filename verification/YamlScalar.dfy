/**
 Writing a string as a YAML scalar (`yaml_str`, `escaped_scalar`), and reading it back by the rules of the YAML 1.2.2
 specification: section 5.7 for escapes, 7.3.1 for double quotes, 7.3.2 for single quotes and 7.3.3 for plain scalars.
 */
module YamlScalar {
  import opened Prelude

  /** A code point of a Python string, surrogates included. */
  type Code = c: int | 0 <= c < 0x110000

  const QUOTE: Code := 0x22
  const APOSTROPHE: Code := 0x27
  const BACKSLASH: Code := 0x5c
  const COLON: Code := 0x3a
  const HASH: Code := 0x23
  const SPACE: Code := 0x20

  // ---------------------------------------------------------------------------------------------
  // Escapes
  // ---------------------------------------------------------------------------------------------

  /** The letter of a character that has an escape of its own. */
  function Letter(c: Code): Option<Code> {
    match c
    case 0 => Some(0x30)       // 0
    case 7 => Some(0x61)       // a
    case 8 => Some(0x62)       // b
    case 9 => Some(0x74)       // t
    case 10 => Some(0x6e)      // n
    case 11 => Some(0x76)      // v
    case 12 => Some(0x66)      // f
    case 13 => Some(0x72)      // r
    case 0x1b => Some(0x65)    // e
    case 0x85 => Some(0x4e)    // N
    case 0x2028 => Some(0x4c)  // L
    case 0x2029 => Some(0x50)  // P
    case _ => None
  }

  predicate Printable(c: Code) {
    0x20 <= c <= 0x7e || c == 0x85 || 0xa0 <= c <= 0xd7ff || 0xe000 <= c <= 0xfffd || c >= 0x10000
  }

  predicate Surrogate(c: Code) { 0xd800 <= c <= 0xdfff }

  function HexDigit(d: nat): Code
    requires d < 16
  {
    if d < 10 then 0x30 + d else 0x41 + d - 10
  }

  /** `n` in `width` upper-case digits. */
  function Hex(n: nat, width: nat): (s: seq<Code>)
    ensures |s| == width
    decreases width
  {
    if width == 0 then [] else Hex(n / 16, width - 1) + [HexDigit(n % 16)]
  }

  /** How one character is written between double quotes. The eight-digit form is never needed: above 0xffff every code
      point is printable. */
  function Escape(c: Code): seq<Code> {
    if c == QUOTE || c == BACKSLASH then [BACKSLASH, c]
    else if Letter(c).Some? then [BACKSLASH, Letter(c).value]
    else if Printable(c) then [c]
    else if c <= 0xff then [BACKSLASH, 0x78] + Hex(c, 2)
    else [BACKSLASH, 0x75] + Hex(c, 4)
  }

  function EscapeAll(value: seq<Code>): seq<Code> {
    if value == [] then [] else Escape(value[0]) + EscapeAll(value[1..])
  }

  /** `escaped_scalar`. */
  method EscapedScalar(value: seq<Code>) returns (text: seq<Code>)
    ensures text == [QUOTE] + EscapeAll(value) + [QUOTE]
  {
    hide Escape;
    var out := [];
    var i := 0;
    assert value[0..] == value;
    while i < |value|
      invariant 0 <= i <= |value| && out + EscapeAll(value[i..]) == EscapeAll(value)
    {
      assert value[i..][1..] == value[i + 1..];
      out := out + Escape(value[i]);
      i := i + 1;
    }
    text := [QUOTE] + out + [QUOTE];
  }

  // ---------------------------------------------------------------------------------------------
  // Reading
  // ---------------------------------------------------------------------------------------------

  function DigitValue(c: Code): Option<nat> {
    if 0x30 <= c <= 0x39 then Some(c - 0x30)
    else if 0x41 <= c <= 0x46 then Some(c - 0x41 + 10)
    else if 0x61 <= c <= 0x66 then Some(c - 0x61 + 10)
    else None
  }

  function ReadHex(s: seq<Code>): Option<nat> {
    if s == [] then Some(0)
    else match ReadHex(s[..|s| - 1])
      case None => None
      case Some(n) => match DigitValue(s[|s| - 1]) { case None => None case Some(d) => Some(16 * n + d) }
  }

  /** What a one-letter escape stands for. */
  function Meaning(letter: Code): Option<Code> {
    match letter
    case 0x30 => Some(0) case 0x61 => Some(7) case 0x62 => Some(8) case 0x74 => Some(9) case 0x09 => Some(9)
    case 0x6e => Some(10) case 0x76 => Some(11) case 0x66 => Some(12) case 0x72 => Some(13) case 0x65 => Some(0x1b)
    case 0x20 => Some(0x20) case 0x22 => Some(0x22) case 0x2f => Some(0x2f) case 0x5c => Some(0x5c)
    case 0x4e => Some(0x85) case 0x5f => Some(0xa0) case 0x4c => Some(0x2028) case 0x50 => Some(0x2029)
    case _ => None
  }

  /** The digits that follow `\\x`, `\\u` and `\\U`. */
  function Digits(letter: Code): nat {
    if letter == 0x78 then 2 else if letter == 0x75 then 4 else if letter == 0x55 then 8 else 0
  }

  /** One character, or why there is none. */
  datatype Unit = Unit(code: Code, length: nat) | Bad

  /** The character at the front of the inside of a double-quoted scalar. A numbered escape must name a character. */
  function ReadUnit(s: seq<Code>): (u: Unit)
    requires s != []
    ensures u.Unit? ==> 0 < u.length <= |s|
  {
    if s[0] != BACKSLASH then (if s[0] != QUOTE && (s[0] == 9 || s[0] >= 0x20) then Unit(s[0], 1) else Bad)
    else if |s| < 2 then Bad
    else if Meaning(s[1]).Some? then Unit(Meaning(s[1]).value, 2)
    else
      var n := Digits(s[1]);
      if n == 0 || |s| < 2 + n then Bad
      else match ReadHex(s[2..2 + n])
        case None => Bad
        case Some(c) => if c < 0x110000 && !(0xd800 <= c <= 0xdfff) then Unit(c, 2 + n) else Bad
  }

  function ReadInside(s: seq<Code>): Option<seq<Code>>
    decreases |s|
  {
    if s == [] then Some([])
    else match ReadUnit(s)
      case Bad => None
      case Unit(c, n) => match ReadInside(s[n..]) { case None => None case Some(rest) => Some([c] + rest) }
  }

  function ReadDouble(text: seq<Code>): Option<seq<Code>> {
    if |text| >= 2 && text[0] == QUOTE && text[|text| - 1] == QUOTE then ReadInside(text[1..|text| - 1]) else None
  }

  // ---------------------------------------------------------------------------------------------
  // The round trip between double quotes
  // ---------------------------------------------------------------------------------------------

  lemma DigitBack(d: nat)
    requires d < 16
    ensures DigitValue(HexDigit(d)) == Some(d)
  {
  }

  function Power(width: nat): nat {
    if width == 0 then 1 else 16 * Power(width - 1)
  }

  lemma {:induction false} HexBack(n: nat, width: nat)
    requires n < Power(width)
    ensures ReadHex(Hex(n, width)) == Some(n)
    decreases width
  {
    if width > 0 {
      var front := Hex(n / 16, width - 1);
      HexBack(n / 16, width - 1);
      DigitBack(n % 16);
      assert (front + [HexDigit(n % 16)])[..width - 1] == front;
    }
  }

  lemma Powers()
    ensures Power(2) == 0x100 && Power(4) == 0x10000
  {
    assert Power(1) == 16 && Power(3) == 0x1000;
  }

  lemma LetterMeans(c: Code)
    ensures Letter(c).Some? ==> Meaning(Letter(c).value) == Some(c)
  {
  }

  /** A numbered escape reads back, unless it is a surrogate's. */
  lemma ReadNumbered(c: Code, letter: Code, width: nat, tail: seq<Code>)
    requires Digits(letter) == width > 0 && Meaning(letter) == None && c < Power(width)
    ensures ReadUnit([BACKSLASH, letter] + Hex(c, width) + tail) == if Surrogate(c) then Bad else Unit(c, 2 + width)
  {
    hide Meaning, Digits, Hex, ReadHex, Power;
    var s := [BACKSLASH, letter] + Hex(c, width) + tail;
    HexBack(c, width);
    assert s[2..2 + width] == Hex(c, width);
  }

  lemma ReadEscape(c: Code, tail: seq<Code>)
    ensures ReadUnit(Escape(c) + tail) == if Surrogate(c) then Bad else Unit(c, |Escape(c)|)
  {
    Powers();
    LetterMeans(c);
    var s := Escape(c) + tail;
    if c == QUOTE || c == BACKSLASH || Letter(c).Some? || Printable(c) {
      hide ReadHex, Hex, Letter;
    } else {
      NoLetter(c);
      hide Meaning, Letter, Hex, ReadHex, Power, ReadUnit;
      if c <= 0xff {
        ReadNumbered(c, 0x78, 2, tail);
      } else {
        ReadNumbered(c, 0x75, 4, tail);
      }
    }
  }

  lemma NoLetter(c: Code)
    ensures Meaning(0x78) == None && Meaning(0x75) == None && Digits(0x78) == 2 && Digits(0x75) == 4
    ensures !Printable(c) ==> c <= 0xffff
  {
  }

  ghost predicate NoSurrogate(value: seq<Code>) {
    forall i :: 0 <= i < |value| ==> !Surrogate(value[i])
  }

  /** What is written between double quotes reads back as the value exactly when the value has no surrogates; with one,
      it does not read at all. */
  lemma {:induction false} EscapesRead(value: seq<Code>)
    ensures ReadInside(EscapeAll(value)) == if NoSurrogate(value) then Some(value) else None
  {
    hide Escape, ReadUnit, Surrogate;
    if value != [] {
      var tail := EscapeAll(value[1..]);
      EscapesRead(value[1..]);
      ReadEscape(value[0], tail);
      EscapeLong(value[0]);
      assert (Escape(value[0]) + tail)[|Escape(value[0])|..] == tail;
      assert value == [value[0]] + value[1..];
      SurrogateFirst(value);
    }
  }

  lemma EscapeLong(c: Code)
    ensures |Escape(c)| > 0
  {
  }

  lemma SurrogateFirst(value: seq<Code>)
    requires value != []
    ensures NoSurrogate(value) <==> !Surrogate(value[0]) && NoSurrogate(value[1..])
  {
    hide Surrogate;
    assert value == [value[0]] + value[1..];
  }

  lemma DoubleQuotedRead(value: seq<Code>)
    ensures ReadDouble([QUOTE] + EscapeAll(value) + [QUOTE]) == if NoSurrogate(value) then Some(value) else None
  {
    hide EscapeAll, ReadInside;
    EscapesRead(value);
    var text := [QUOTE] + EscapeAll(value) + [QUOTE];
    assert text[1..|text| - 1] == EscapeAll(value);
  }

  // ---------------------------------------------------------------------------------------------
  // What a reader will take
  // ---------------------------------------------------------------------------------------------

  /** A character that may stand in a YAML file and does not end a line. */
  predicate OnLine(c: Code) {
    || 0x20 <= c <= 0x7e || 0xa0 <= c < 0x2028 || 0x2029 < c < 0xd800
    || 0xe000 <= c < 0xfffe || c >= 0x10000
  }

  predicate AllOnLine(s: seq<Code>) {
    forall i :: 0 <= i < |s| ==> OnLine(s[i])
  }

  lemma {:induction false} HexOnLine(n: nat, width: nat)
    ensures AllOnLine(Hex(n, width))
    decreases width
  {
    if width > 0 { HexOnLine(n / 16, width - 1); }
  }

  lemma LetterOnLine(c: Code)
    ensures Letter(c).Some? ==> OnLine(Letter(c).value)
    ensures Letter(c).None? && Printable(c) <==> OnLine(c)
  {
  }

  /** Between double quotes, too, a character is escaped only where it could not stand for itself. */
  lemma EscapedOnlyIfNeeded(c: Code)
    ensures Escape(c) == [c] <==> OnLine(c) && c != QUOTE && c != BACKSLASH
  {
    LetterOnLine(c);
    hide Letter, Printable, Hex;
  }

  lemma EscapeOnLine(c: Code)
    ensures AllOnLine(Escape(c))
  {
    HexOnLine(c, 2);
    HexOnLine(c, 4);
    LetterOnLine(c);
    hide Letter, Hex;
  }

  /** Whatever the value, its escaped form is one line of characters that YAML allows. */
  lemma {:induction false} EscapedOnLine(value: seq<Code>)
    ensures AllOnLine([QUOTE] + EscapeAll(value) + [QUOTE])
  {
    hide Escape;
    if value != [] {
      EscapeOnLine(value[0]);
      EscapedOnLine(value[1..]);
      var rest := [QUOTE] + EscapeAll(value[1..]) + [QUOTE];
      assert EscapeAll(value[1..]) == rest[1..|rest| - 1];
      assert AllOnLine(EscapeAll(value[1..]));
    }
  }

  // ---------------------------------------------------------------------------------------------
  // The choice of style
  // ---------------------------------------------------------------------------------------------

  predicate Indicator(c: Code) {
    c in [0x2d, 0x3f, 0x3a, 0x2c, 0x5b, 0x5d, 0x7b, 0x7d, 0x23, 0x26, 0x2a, 0x21, 0x7c, 0x3e, 0x27, 0x22, 0x25, 0x40, 0x60]
  }

  /** Python's white space, as far as it is printable. */
  predicate White(c: Code) {
    c == 0x20 || c == 0xa0 || c == 0x1680 || 0x2000 <= c <= 0x200a || c == 0x202f || c == 0x205f || c == 0x3000
  }

  predicate HasPair(s: seq<Code>, a: Code, b: Code) {
    exists i :: 0 <= i < |s| - 1 && s[i] == a && s[i + 1] == b
  }

  predicate NeedsQuote(value: seq<Code>)
    requires value != []
  {
    || HasPair(value, COLON, SPACE)
    || value[|value| - 1] == COLON
    || HasPair(value, SPACE, HASH)
    || Indicator(value[0])
    || White(value[0]) || White(value[|value| - 1])
  }

  function DoubleApostrophes(value: seq<Code>): seq<Code> {
    if value == [] then []
    else (if value[0] == APOSTROPHE then [APOSTROPHE, APOSTROPHE] else [value[0]]) + DoubleApostrophes(value[1..])
  }

  predicate NeedsEscape(value: seq<Code>) {
    exists i :: 0 <= i < |value| && (Letter(value[i]).Some? || !Printable(value[i]))
  }

  /** `yaml_str`. */
  function YamlStr(value: seq<Code>): seq<Code> {
    if value == [] then [APOSTROPHE, APOSTROPHE]
    else if NeedsEscape(value) then [QUOTE] + EscapeAll(value) + [QUOTE]
    else if NeedsQuote(value) then [APOSTROPHE] + DoubleApostrophes(value) + [APOSTROPHE]
    else value
  }

  // ---------------------------------------------------------------------------------------------
  // Reading any style
  // ---------------------------------------------------------------------------------------------

  function ReadApostrophes(s: seq<Code>): Option<seq<Code>>
    decreases |s|
  {
    if s == [] then Some([])
    else if !OnLine(s[0]) then None
    else if s[0] != APOSTROPHE then
      match ReadApostrophes(s[1..]) { case None => None case Some(rest) => Some([s[0]] + rest) }
    else if |s| < 2 || s[1] != APOSTROPHE then None
    else match ReadApostrophes(s[2..]) { case None => None case Some(rest) => Some([APOSTROPHE] + rest) }
  }

  function ReadSingle(text: seq<Code>): Option<seq<Code>> {
    if |text| >= 2 && text[0] == APOSTROPHE && text[|text| - 1] == APOSTROPHE
    then ReadApostrophes(text[1..|text| - 1]) else None
  }

  /** The indicators of section 5.3. */
  predicate StartsOther(c: Code) {
    c < 0x80 && c as char in "-?:,[]{}#&*!|>'\"%@`"
  }

  ghost predicate Contains(text: seq<Code>, part: seq<Code>) {
    exists before, after :: text == before + part + after
  }

  lemma IndicatorIs(c: Code)
    ensures Indicator(c) <==> StartsOther(c)
  {
  }

  lemma PairIs(s: seq<Code>, a: Code, b: Code)
    ensures HasPair(s, a, b) <==> Contains(s, [a, b])
  {
    if HasPair(s, a, b) {
      var i :| 0 <= i < |s| - 1 && s[i] == a && s[i + 1] == b;
      assert s == s[..i] + [a, b] + s[i + 2..];
    }
    if Contains(s, [a, b]) {
      var before, after :| s == before + [a, b] + after;
      assert s[|before|] == a && s[|before| + 1] == b;
    }
  }

  /** A value needs quotes exactly when it is no plain scalar, or starts with `-`, `?` or `:`, or Python would strip it. */
  lemma QuoteIs(value: seq<Code>)
    requires value != [] && AllOnLine(value)
    ensures !NeedsQuote(value) <==>
            && PlainText(value) && value[0] !in [0x2d, 0x3f, COLON] && !White(value[0]) && !White(value[|value| - 1])
  {
    IndicatorIs(value[0]);
    PairIs(value, COLON, SPACE);
    PairIs(value, SPACE, HASH);
    hide Indicator, HasPair, Contains, OnLine;
    assert value[0] in [0x2d, 0x3f, COLON] ==> StartsOther(value[0]);
  }

  lemma QuotesStart()
    ensures StartsOther(QUOTE) && StartsOther(APOSTROPHE)
  {
  }

  /** A plain scalar on one line of a block: it does not start like anything else, no colon ends a key in it and no hash
      starts a comment, and no white space surrounds it. */
  ghost predicate PlainText(text: seq<Code>) {
    && text != [] && AllOnLine(text)
    && text[0] != 0x20 && text[|text| - 1] != 0x20
    && (StartsOther(text[0]) ==> text[0] in [0x2d, 0x3f, 0x3a] && |text| > 1 && text[1] != 0x20)
    && text[|text| - 1] != 0x3a && !Contains(text, [0x3a, 0x20]) && !Contains(text, [0x20, 0x23])
  }

  ghost function ReadScalar(text: seq<Code>): Option<seq<Code>> {
    if text == [] then None
    else if text[0] == QUOTE then ReadDouble(text)
    else if text[0] == APOSTROPHE then ReadSingle(text)
    else if PlainText(text) then Some(text)
    else None
  }

  lemma {:induction false} ApostrophesRead(value: seq<Code>)
    requires AllOnLine(value)
    ensures ReadApostrophes(DoubleApostrophes(value)) == Some(value)
  {
    hide OnLine;
    if value != [] {
      var rest := DoubleApostrophes(value[1..]);
      ApostrophesRead(value[1..]);
      ApostropheOnLine();
      assert value == [value[0]] + value[1..];
      if value[0] == APOSTROPHE {
        assert ([APOSTROPHE, APOSTROPHE] + rest)[2..] == rest;
      } else {
        assert ([value[0]] + rest)[1..] == rest;
      }
    }
  }

  lemma ApostropheOnLine()
    ensures OnLine(APOSTROPHE)
  {
  }

  lemma UnescapedOnLine(value: seq<Code>)
    ensures !NeedsEscape(value) <==> AllOnLine(value)
    ensures AllOnLine(value) ==> NoSurrogate(value)
  {
    if AllOnLine(value) {
      forall i | 0 <= i < |value| ensures Letter(value[i]).None? && Printable(value[i]) {
        LetterOnLine(value[i]);
      }
    } else {
      var i :| 0 <= i < |value| && !OnLine(value[i]);
      LetterOnLine(value[i]);
    }
  }

  /** Quotes are added only where they are needed, and double quotes only around what no other style can hold. */
  lemma StyleExact(value: seq<Code>)
    requires value != []
    ensures YamlStr(value)[0] == QUOTE <==> !AllOnLine(value)
    ensures YamlStr(value) == value <==>
            && PlainText(value) && value[0] !in [0x2d, 0x3f, COLON] && !White(value[0]) && !White(value[|value| - 1])
  {
    UnescapedOnLine(value);
    EscapesLong(value);
    ApostrophesLong(value);
    QuotesStart();
    hide NeedsEscape, NeedsQuote, OnLine, EscapeAll, Contains, White, DoubleApostrophes, StartsOther;
    if AllOnLine(value) { QuoteIs(value); }
  }

  lemma {:induction false} EscapesLong(value: seq<Code>)
    ensures |EscapeAll(value)| >= |value|
  {
    if value != [] {
      EscapeLong(value[0]);
      EscapesLong(value[1..]);
      hide Escape;
    }
  }

  lemma {:induction false} ApostrophesLong(value: seq<Code>)
    ensures |DoubleApostrophes(value)| >= |value|
  {
    if value != [] { ApostrophesLong(value[1..]); }
  }

  /** Whatever style is chosen, what is written reads back as the value, exactly when the value has no surrogates. */
  lemma ScalarReadsBack(value: seq<Code>)
    ensures ReadScalar(YamlStr(value)) == if NoSurrogate(value) then Some(value) else None
  {
    if value == [] {
      assert [APOSTROPHE, APOSTROPHE][1..1] == [];
    } else if NeedsEscape(value) {
      DoubleQuotedRead(value);
      hide EscapeAll, ReadDouble, NoSurrogate, NeedsEscape;
    } else {
      UnescapedOnLine(value);
      QuoteIs(value);
      QuotesStart();
      hide NeedsEscape, NeedsQuote, OnLine, ReadDouble, StartsOther, Contains, White;
      if NeedsQuote(value) {
        ApostrophesRead(value);
        var text := [APOSTROPHE] + DoubleApostrophes(value) + [APOSTROPHE];
        assert text[1..|text| - 1] == DoubleApostrophes(value);
      }
    }
  }

  /** What is written never spans lines and holds nothing that YAML forbids. */
  lemma {:induction false} ScalarOnLine(value: seq<Code>)
    ensures AllOnLine(YamlStr(value))
  {
    EscapedOnLine(value);
    if value != [] && !NeedsEscape(value) {
      UnescapedOnLine(value);
      hide OnLine, NeedsEscape, NeedsQuote;
      ApostrophesOnLine(value);
      ApostropheOnLine();
    }
  }

  lemma {:induction false} ApostrophesOnLine(value: seq<Code>)
    requires AllOnLine(value)
    ensures AllOnLine(DoubleApostrophes(value))
  {
    if value != [] { ApostrophesOnLine(value[1..]); }
  }
}
