/** Text as bytes: ASCII names, hexadecimal fields, and Python's `int(text, 16)`; and sorted names. */
module Text {
  import opened Prelude

  // ---------------------------------------------------------------------------------------------
  // ASCII
  // ---------------------------------------------------------------------------------------------

  predicate IsAscii(s: string) {
    forall i :: 0 <= i < |s| ==> s[i] as int < 128
  }

  /** `s.encode('ascii')`. */
  function Encode(s: string): (r: seq<Byte>)
    requires IsAscii(s)
    ensures |r| == |s| && forall i :: 0 <= i < |s| ==> r[i] == s[i] as int
  {
    seq(|s|, i requires 0 <= i < |s| => s[i] as int)
  }

  /** `s.decode('ascii')`. */
  function Decode(s: seq<Byte>): (r: Option<string>)
    ensures r.Some? ==> |r.value| == |s|
  {
    if s == [] then Some("")
    else
      var rest := Decode(s[1..]);
      if s[0] >= 128 || rest.None? then None else Some([s[0] as char] + rest.value)
  }

  lemma {:induction false} DecodeEncode(s: string)
    requires IsAscii(s)
    ensures Decode(Encode(s)) == Some(s)
  {
    if s != "" {
      assert Encode(s)[1..] == Encode(s[1..]);
      DecodeEncode(s[1..]);
      assert s == [s[0]] + s[1..];
    }
  }

  // ---------------------------------------------------------------------------------------------
  // Hexadecimal
  // ---------------------------------------------------------------------------------------------

  function HexDigit(d: int): Byte
    requires 0 <= d < 16
  {
    if d < 10 then 0x30 + d else 0x57 + d
  }

  /** The value of a hexadecimal digit of either case. */
  function DigitValue(b: Byte): Option<int> {
    if 0x30 <= b <= 0x39 then Some(b - 0x30)
    else if 0x61 <= b <= 0x66 then Some(b - 0x57)
    else if 0x41 <= b <= 0x46 then Some(b - 0x37)
    else None
  }

  /** `v` in lower-case hexadecimal, zero-padded on the left to at least `width` digits. */
  function Hex(v: nat, width: nat): (r: seq<Byte>)
    ensures |r| >= width
    decreases width + v
  {
    if width == 0 && v == 0 then []
    else Hex(v / 16, if width > 0 then width - 1 else 0) + [HexDigit(v % 16)]
  }

  predicate IsSpace(b: Byte) {
    b == 0x20 || 9 <= b <= 13
  }

  function DropSpaces(s: seq<Byte>): seq<Byte> {
    if s != [] && IsSpace(s[0]) then DropSpaces(s[1..]) else s
  }

  /** Digits with single underscores between them: the value, and what follows. */
  function Digits(s: seq<Byte>, acc: int, any: bool, underscore: bool): Option<(int, seq<Byte>)> {
    if s != [] && s[0] == 0x5f && !underscore then Digits(s[1..], acc, any, true)
    else if s != [] && DigitValue(s[0]).Some? then Digits(s[1..], acc * 16 + DigitValue(s[0]).value, true, false)
    else if any && !underscore then Some((acc, s))
    else None
  }

  /** What is left after an optional `0x`, which one underscore may follow. */
  function DropPrefix(s: seq<Byte>): seq<Byte> {
    if |s| >= 2 && s[0] == 0x30 && (s[1] == 0x78 || s[1] == 0x58) then
      if |s| > 2 && s[2] == 0x5f then s[3..] else s[2..]
    else s
  }

  /** `int(text, 16)`: blanks, a sign, `0x` and underscores are allowed where Python allows them. */
  function ParseHex(text: seq<Byte>): Option<int> {
    var s := DropSpaces(text);
    var negative := s != [] && s[0] == 0x2d;
    var digits := DropPrefix(if s != [] && (s[0] == 0x2b || s[0] == 0x2d) then s[1..] else s);
    if digits != [] && digits[0] == 0x5f then None
    else
      var value := Digits(digits, 0, false, false);
      if value.None? || DropSpaces(value.value.1) != [] then None
      else Some(if negative then -value.value.0 else value.value.0)
  }

  predicate AllDigits(s: seq<Byte>) {
    forall i :: 0 <= i < |s| ==> DigitValue(s[i]).Some?
  }

  function Value(s: seq<Byte>, acc: int): int
    requires AllDigits(s)
  {
    if s == [] then acc else Value(s[1..], acc * 16 + DigitValue(s[0]).value)
  }

  lemma {:induction false} DigitsAll(s: seq<Byte>, acc: int, any: bool)
    requires AllDigits(s) && (any || s != [])
    ensures Digits(s, acc, any, false) == Some((Value(s, acc), []))
  {
    if s != [] { DigitsAll(s[1..], acc * 16 + DigitValue(s[0]).value, true); }
  }

  lemma {:induction false} ValueSnoc(s: seq<Byte>, b: Byte, acc: int)
    requires AllDigits(s) && DigitValue(b).Some?
    ensures AllDigits(s + [b]) && Value(s + [b], acc) == Value(s, acc) * 16 + DigitValue(b).value
  {
    if s == [] {
      assert [b][1..] == [];
    } else {
      ValueSnoc(s[1..], b, acc * 16 + DigitValue(s[0]).value);
      assert (s + [b])[1..] == s[1..] + [b];
    }
  }

  lemma {:induction false} HexValue(v: nat, width: nat)
    ensures AllDigits(Hex(v, width)) && Value(Hex(v, width), 0) == v
    decreases width + v
  {
    if width != 0 || v != 0 {
      var w := if width > 0 then width - 1 else 0;
      HexValue(v / 16, w);
      ValueSnoc(Hex(v / 16, w), HexDigit(v % 16), 0);
    }
  }

  function Power16(width: nat): nat {
    if width == 0 then 1 else 16 * Power16(width - 1)
  }

  lemma {:induction false} HexWidth(v: nat, width: nat)
    requires v < Power16(width)
    ensures |Hex(v, width)| == width
  {
    if width > 0 {
      assert v / 16 < Power16(width - 1);
      HexWidth(v / 16, width - 1);
    }
  }

  lemma ParseAllDigits(s: seq<Byte>)
    requires |s| >= 2 && AllDigits(s)
    ensures ParseHex(s) == Some(Value(s, 0))
  {
    assert DigitValue(s[0]).Some? && DigitValue(s[1]).Some?;
    DigitsAll(s, 0, false);
  }

  lemma PowerIsWord()
    ensures Power16(8) == TWO_TO_THE_32
  {
    assert Power16(4) == 0x1_0000;
    assert Power16(8) == 16 * (16 * (16 * (16 * Power16(4))));
  }

  /** An eight-digit field reads back as its value. */
  lemma HexRoundTrip(v: U32)
    ensures |Hex(v, 8)| == 8 && ParseHex(Hex(v, 8)) == Some(v)
  {
    PowerIsWord();
    HexWidth(v, 8);
    HexValue(v, 8);
    ParseAllDigits(Hex(v, 8));
  }

  /** `f'{v:08x}'`: the sign counts towards the width, and a number that needs more digits gets them. */
  function Field(v: int): seq<Byte> {
    if v >= 0 then Hex(v, 8) else [MINUS] + Hex(-v, 7)
  }

  const MINUS: Byte := 0x2d

  /** The numbers that take just eight characters. */
  predicate EightWide(v: int) {
    -0x1000_0000 < v < TWO_TO_THE_32
  }

  lemma PowerBelowWord()
    ensures Power16(7) == 0x1000_0000
  {
    assert Power16(4) == 0x1_0000;
    assert Power16(7) == 16 * (16 * (16 * Power16(4)));
  }

  lemma ParseNegative(s: seq<Byte>)
    requires |s| >= 2 && AllDigits(s)
    ensures ParseHex([MINUS] + s) == Some(-Value(s, 0))
  {
    hide Value, Digits, AllDigits, DropPrefix, DigitValue, DropSpaces;
    var text := [MINUS] + s;
    NoPrefix(s);
    DigitsAll(s, 0, false);
    assert text[1..] == s;
    NoSpaces(text);
    NoSpaces([]);
  }

  lemma NoSpaces(s: seq<Byte>)
    requires s == [] || s[0] == MINUS
    ensures DropSpaces(s) == s
  {
  }

  lemma NoPrefix(s: seq<Byte>)
    requires |s| >= 2 && AllDigits(s)
    ensures DropPrefix(s) == s && s[0] != 0x5f
  {
    assert DigitValue(s[0]).Some? && DigitValue(s[1]).Some?;
  }

  /** A field of eight characters, with or without a sign, reads back as its value. */
  lemma FieldRoundTrip(v: int)
    requires EightWide(v)
    ensures |Field(v)| == 8 && ParseHex(Field(v)) == Some(v)
  {
    if v >= 0 {
      HexRoundTrip(v);
    } else {
      PowerBelowWord();
      HexWidth(-v, 7);
      HexValue(-v, 7);
      ParseNegative(Hex(-v, 7));
    }
  }

  lemma {:induction false} DigitsBound(s: seq<Byte>, acc: nat, any: bool, underscore: bool, room: nat)
    requires room >= |s|
    ensures var value := Digits(s, acc, any, underscore);
            value.Some? ==> 0 <= value.value.0 < (acc + 1) * Power16(room)
    decreases |s|
  {
    PowerGrows(acc, room);
    if s != [] && s[0] == 0x5f && !underscore {
      DigitsBound(s[1..], acc, any, true, room);
    } else if s != [] && DigitValue(s[0]).Some? {
      var d := DigitValue(s[0]).value;
      DigitsBound(s[1..], acc * 16 + d, true, false, room - 1);
      PowerStep(acc, d, room);
    }
  }

  lemma PowerPositive(n: nat)
    ensures Power16(n) >= 1
  {
  }

  lemma PowerGrows(acc: nat, room: nat)
    ensures acc < (acc + 1) * Power16(room)
  {
    PowerPositive(room);
    Times(acc + 1, 1, Power16(room));
  }

  lemma Times(a: nat, b: nat, c: nat)
    requires b <= c
    ensures a * b <= a * c
  {
  }

  lemma PowerStep(acc: nat, d: nat, room: nat)
    requires d < 16 && room > 0
    ensures (acc * 16 + d + 1) * Power16(room - 1) <= (acc + 1) * Power16(room)
  {
    var p := Power16(room - 1);
    Times(p, acc * 16 + d + 1, (acc + 1) * 16);
    assert (acc + 1) * (16 * p) == p * ((acc + 1) * 16);
  }

  lemma {:induction false} DropSpacesShorter(s: seq<Byte>)
    ensures |DropSpaces(s)| <= |s|
  {
    if s != [] { DropSpacesShorter(s[1..]); }
  }

  /** Whatever `int(text, 16)` makes of eight characters, it is a number that is written in eight characters. */
  lemma ParsedIsEightWide(text: seq<Byte>)
    requires |text| <= 8 && ParseHex(text).Some?
    ensures EightWide(ParseHex(text).value)
  {
    DropSpacesShorter(text);
    PowerBelowWord();
    PowerIsWord();
    var s := DropSpaces(text);
    var signed := s != [] && (s[0] == 0x2b || s[0] == 0x2d);
    var digits := DropPrefix(if signed then s[1..] else s);
    DigitsBound(digits, 0, false, false, if signed then 7 else 8);
    hide Digits, DropSpaces, Power16;
  }

  // ---------------------------------------------------------------------------------------------
  // Exactly what `int(text, 16)` reads
  // ---------------------------------------------------------------------------------------------

  predicate IsDigit(b: Byte) {
    0x30 <= b <= 0x39 || 0x41 <= b <= 0x46 || 0x61 <= b <= 0x66
  }

  predicate AllBlank(s: seq<Byte>) {
    forall i :: 0 <= i < |s| ==> s[i] == 0x20 || 9 <= s[i] <= 13
  }

  const UNDERSCORE: Byte := 0x5f

  /** Digits, with underscores between them but no two together. */
  predicate Grouped(s: seq<Byte>) {
    && s != [] && IsDigit(s[0]) && IsDigit(s[|s| - 1])
    && (forall i :: 0 <= i < |s| ==> IsDigit(s[i]) || s[i] == UNDERSCORE)
    && (forall i :: 0 < i < |s| ==> s[i - 1] != UNDERSCORE || s[i] != UNDERSCORE)
  }

  /** The number that the digits make, underscores aside. */
  function Number(s: seq<Byte>): int
    decreases |s|
  {
    if s == [] then 0
    else
      var last, before := s[|s| - 1], Number(s[..|s| - 1]);
      if last == UNDERSCORE || !IsDigit(last) then before
      else 16 * before + if last <= 0x39 then last - 0x30 else if last <= 0x46 then last - 0x41 + 10 else last - 0x61 + 10
  }

  predicate IsSign(sign: seq<Byte>) { sign in {[], [0x2b], [0x2d]} }

  predicate IsPrefix(prefix: seq<Byte>) {
    prefix in {[], [0x30, 0x78], [0x30, 0x58], [0x30, 0x78, UNDERSCORE], [0x30, 0x58, UNDERSCORE]}
  }

  /** A spelling of a number: blanks, a sign, `0x` which an underscore may follow, grouped digits, blanks. All but the
      digits may be left out. */
  ghost predicate Spells(text: seq<Byte>, before: seq<Byte>, sign: seq<Byte>, prefix: seq<Byte>, body: seq<Byte>,
                         after: seq<Byte>)
  {
    && text == before + (sign + (prefix + (body + after)))
    && AllBlank(before) && IsSign(sign) && IsPrefix(prefix) && Grouped(body) && AllBlank(after)
  }

  lemma DigitIs(b: Byte)
    ensures DigitValue(b).Some? <==> IsDigit(b)
    ensures IsDigit(b) ==>
              DigitValue(b).value == if b <= 0x39 then b - 0x30 else if b <= 0x46 then b - 0x41 + 10 else b - 0x61 + 10
    ensures IsDigit(b) ==> b != UNDERSCORE && !IsSpace(b)
  {
  }

  /** What can stand after `done` has been read: nothing, or more of a grouped number. */
  predicate Underway(done: seq<Byte>) {
    && (done == [] || IsDigit(done[0]))
    && (forall i :: 0 <= i < |done| ==> IsDigit(done[i]) || done[i] == UNDERSCORE)
    && (forall i :: 0 < i < |done| ==> done[i - 1] != UNDERSCORE || done[i] != UNDERSCORE)
  }

  lemma UnderwayMore(done: seq<Byte>, b: Byte)
    requires Underway(done)
    requires IsDigit(b) || (b == UNDERSCORE && done != [] && done[|done| - 1] != UNDERSCORE)
    ensures Underway(done + [b])
  {
  }

  lemma NumberMore(done: seq<Byte>, b: Byte)
    ensures b == UNDERSCORE ==> Number(done + [b]) == Number(done)
    ensures IsDigit(b) ==> Number(done + [b]) == Number(done) * 16 + DigitValue(b).value
  {
    DigitIs(b);
    assert (done + [b])[..|done|] == done;
  }

  lemma DigitsTake(s: seq<Byte>, acc: int, any: bool, underscore: bool)
    ensures s != [] && s[0] == UNDERSCORE && !underscore ==>
              Digits(s, acc, any, underscore) == Digits(s[1..], acc, any, true)
    ensures s != [] && IsDigit(s[0]) ==>
              Digits(s, acc, any, underscore) == Digits(s[1..], acc * 16 + DigitValue(s[0]).value, true, false)
    ensures (s == [] || (!IsDigit(s[0]) && !(s[0] == UNDERSCORE && !underscore))) ==>
              Digits(s, acc, any, underscore) == if any && !underscore then Some((acc, s)) else None
  {
    if s != [] { DigitIs(s[0]); }
  }

  /** Reading on after `done`, which is nothing or ends in a digit or a single underscore. */
  lemma {:induction false} DigitsExact(done: seq<Byte>, s: seq<Byte>)
    requires Underway(done) && (done == [] ==> s == [] || s[0] != UNDERSCORE)
    ensures var underscore := done != [] && done[|done| - 1] == UNDERSCORE;
            var value := Digits(s, Number(done), done != [], underscore);
            && (value.Some? ==>
                  exists k :: 0 <= k <= |s| && Reads(done + s[..k], s[k..]) && value.value == (Number(done + s[..k]), s[k..]))
            && (forall k :: 0 <= k <= |s| && Reads(done + s[..k], s[k..]) ==>
                  value == Some((Number(done + s[..k]), s[k..])))
    decreases |s|
  {
    hide Digits, Number;
    var underscore := done != [] && done[|done| - 1] == UNDERSCORE;
    var value := Digits(s, Number(done), done != [], underscore);
    DigitsTake(s, Number(done), done != [], underscore);
    assert done + s[..0] == done && s[0..] == s;
    if s != [] && (IsDigit(s[0]) || (s[0] == UNDERSCORE && !underscore)) {
      var b, rest := s[0], s[1..];
      DigitIs(b);
      UnderwayMore(done, b);
      NumberMore(done, b);
      DigitsExact(done + [b], rest);
      forall k | 0 <= k <= |rest| ensures done + [b] + rest[..k] == done + s[..k + 1] && rest[k..] == s[k + 1..] {
      }
      OneStep(done, s, value);
    } else {
      StopsHere(done, s, value);
    }
  }

  /** `body` is a grouped number and what follows does not carry it on. */
  predicate Reads(body: seq<Byte>, rest: seq<Byte>) {
    Grouped(body) && (rest == [] || (!IsDigit(rest[0]) && rest[0] != UNDERSCORE))
  }

  lemma OneStep(done: seq<Byte>, s: seq<Byte>, value: Option<(int, seq<Byte>)>)
    requires s != [] && (IsDigit(s[0]) || s[0] == UNDERSCORE)
    requires var b, rest := s[0], s[1..];
             && (forall k :: 0 <= k <= |rest| ==> done + [b] + rest[..k] == done + s[..k + 1] && rest[k..] == s[k + 1..])
             && (value.Some? ==>
                   exists k :: 0 <= k <= |rest| && Reads(done + [b] + rest[..k], rest[k..])
                               && value.value == (Number(done + [b] + rest[..k]), rest[k..]))
             && (forall k :: 0 <= k <= |rest| && Reads(done + [b] + rest[..k], rest[k..]) ==>
                   value == Some((Number(done + [b] + rest[..k]), rest[k..])))
    ensures value.Some? ==>
              exists k :: 0 <= k <= |s| && Reads(done + s[..k], s[k..]) && value.value == (Number(done + s[..k]), s[k..])
    ensures forall k :: 0 <= k <= |s| && Reads(done + s[..k], s[k..]) ==> value == Some((Number(done + s[..k]), s[k..]))
  {
    hide Number, Grouped;
    var b, rest := s[0], s[1..];
    assert s[0..] == s;
    if value.Some? {
      var k :| 0 <= k <= |rest| && Reads(done + [b] + rest[..k], rest[k..])
               && value.value == (Number(done + [b] + rest[..k]), rest[k..]);
      assert Reads(done + s[..k + 1], s[k + 1..]);
    }
    forall k | 0 <= k <= |s| && Reads(done + s[..k], s[k..]) ensures value == Some((Number(done + s[..k]), s[k..])) {
      assert k > 0;
      assert Reads(done + [b] + rest[..k - 1], rest[k - 1..]);
    }
  }

  lemma StopsHere(done: seq<Byte>, s: seq<Byte>, value: Option<(int, seq<Byte>)>)
    requires Underway(done) && (done == [] ==> s == [] || s[0] != UNDERSCORE)
    requires s == [] || !IsDigit(s[0])
    requires var underscore := done != [] && done[|done| - 1] == UNDERSCORE;
             && (s != [] && s[0] == UNDERSCORE ==> underscore)
             && value == if done != [] && !underscore then Some((Number(done), s)) else None
    ensures value.Some? ==>
              exists k :: 0 <= k <= |s| && Reads(done + s[..k], s[k..]) && value.value == (Number(done + s[..k]), s[k..])
    ensures forall k :: 0 <= k <= |s| && Reads(done + s[..k], s[k..]) ==> value == Some((Number(done + s[..k]), s[k..]))
  {
    hide Number;
    assert done + s[..0] == done && s[0..] == s;
    if value.Some? { assert Reads(done + s[..0], s[0..]); }
    forall k | 0 < k <= |s| ensures !Reads(done + s[..k], s[k..]) {
      var body := done + s[..k];
      assert body[|done|] == s[0];
      if done != [] { assert body[|done| - 1] == done[|done| - 1]; }
    }
  }

  lemma {:induction false} DropSpacesOff(before: seq<Byte>, s: seq<Byte>)
    requires AllBlank(before) && (s == [] || !IsSpace(s[0]))
    ensures DropSpaces(before + s) == s
  {
    if before == [] {
      assert before + s == s;
    } else {
      assert (before + s)[1..] == before[1..] + s;
      DropSpacesOff(before[1..], s);
    }
  }

  function SignOf(s: seq<Byte>): seq<Byte> {
    if s != [] && (s[0] == 0x2b || s[0] == 0x2d) then [s[0]] else []
  }

  /** How the parser goes about it: what is left of the text after the blanks, the sign and the prefix. */
  lemma ParseHexIs(text: seq<Byte>)
    ensures var s := DropSpaces(text);
            var digits := DropPrefix(s[|SignOf(s)|..]);
            var value := Digits(digits, 0, false, false);
            && (ParseHex(text).Some? <==>
                (digits == [] || digits[0] != UNDERSCORE) && value.Some? && DropSpaces(value.value.1) == [])
            && (ParseHex(text).Some? ==>
                  ParseHex(text).value == if SignOf(s) == [0x2d] then -value.value.0 else value.value.0)
  {
    hide Digits, DropSpaces, DropPrefix;
    var s := DropSpaces(text);
    assert s[0..] == s;
  }

  /** The prefix that is taken off. */
  lemma PrefixIs(t: seq<Byte>)
    ensures var digits := DropPrefix(t);
            |digits| <= |t| && t == t[..|t| - |digits|] + digits && IsPrefix(t[..|t| - |digits|])
  {
    var digits := DropPrefix(t);
    var cut := t[..|t| - |digits|];
    if |t| >= 2 && t[0] == 0x30 && (t[1] == 0x78 || t[1] == 0x58) {
      if |t| > 2 && t[2] == UNDERSCORE { assert cut == [t[0], t[1], t[2]]; } else { assert cut == [t[0], t[1]]; }
    } else {
      assert cut == [];
    }
  }

  lemma PrefixOff(prefix: seq<Byte>, body: seq<Byte>, after: seq<Byte>)
    requires IsPrefix(prefix) && Grouped(body) && AllBlank(after)
    ensures DropPrefix(prefix + (body + after)) == body + after
  {
    var rest := body + after;
    var t := prefix + rest;
    assert rest[0] == body[0];
    if prefix == [] {
      assert t == rest;
      if |t| >= 2 { assert |body| >= 2 ==> t[1] == body[1]; }
    } else {
      assert t[0] == prefix[0] && t[1] == prefix[1];
      if |prefix| == 2 {
        assert t[2] == body[0] && t[2..] == rest;
      } else {
        assert t[2] == prefix[2] && t[3..] == rest;
      }
    }
  }

  /** `int(text, 16)` reads exactly the spellings of numbers, and as the number spelled. */
  lemma ParseHexExact(text: seq<Byte>, v: int)
    ensures ParseHex(text) == Some(v) <==>
            exists before, sign, prefix, body, after ::
              Spells(text, before, sign, prefix, body, after) && v == if sign == [0x2d] then -Number(body) else Number(body)
  {
    hide ParseHex, Spells, Number;
    if ParseHex(text) == Some(v) {
      var before, sign, prefix, body, after := ReadAsSpelled(text);
    }
    if exists before, sign, prefix, body, after :: Spells(text, before, sign, prefix, body, after)
                                                   && v == if sign == [0x2d] then -Number(body) else Number(body)
    {
      var before, sign, prefix, body, after :| Spells(text, before, sign, prefix, body, after)
                                               && v == if sign == [0x2d] then -Number(body) else Number(body);
      SpelledIsRead(text, before, sign, prefix, body, after);
    }
  }

  lemma ReadAsSpelled(text: seq<Byte>)
    returns (before: seq<Byte>, sign: seq<Byte>, prefix: seq<Byte>, body: seq<Byte>, after: seq<Byte>)
    requires ParseHex(text).Some?
    ensures Spells(text, before, sign, prefix, body, after)
    ensures ParseHex(text).value == if sign == [0x2d] then -Number(body) else Number(body)
  {
    hide DropSpaces, DropPrefix, Digits, Number, Grouped, ParseHex, AllBlank, IsPrefix, Reads, SignOf, IsSign;
    var s := DropSpaces(text);
    ParseHexIs(text);
    before := BlanksOff(text);
    SignTaken(s);
    sign := SignOf(s);
    var t := s[|sign|..];
    prefix := PrefixTaken(t);
    var digits := DropPrefix(t);
    body, after := DigitsSplit(digits);
    AllDropped(after);
    ReadsGrouped(body, after);
  }

  lemma {:induction false} BlanksOff(text: seq<Byte>) returns (before: seq<Byte>)
    ensures text == before + DropSpaces(text) && AllBlank(before)
  {
    before := [];
    if text != [] && IsSpace(text[0]) {
      var rest := BlanksOff(text[1..]);
      before := [text[0]] + rest;
      assert text == [text[0]] + text[1..];
    }
  }

  lemma SignTaken(s: seq<Byte>)
    ensures |SignOf(s)| <= |s| && s == SignOf(s) + s[|SignOf(s)|..] && IsSign(SignOf(s))
  {
  }

  lemma PrefixTaken(t: seq<Byte>) returns (prefix: seq<Byte>)
    ensures t == prefix + DropPrefix(t) && IsPrefix(prefix)
  {
    PrefixIs(t);
    prefix := t[..|t| - |DropPrefix(t)|];
  }

  lemma DigitsSplit(digits: seq<Byte>) returns (body: seq<Byte>, after: seq<Byte>)
    requires (digits == [] || digits[0] != UNDERSCORE) && Digits(digits, 0, false, false).Some?
    ensures digits == body + after && Reads(body, after)
    ensures Digits(digits, 0, false, false).value == (Number(body), after)
  {
    hide Digits, Number, Reads;
    var k := DigitsRead(digits);
    body, after := digits[..k], digits[k..];
  }

  lemma ReadsGrouped(body: seq<Byte>, rest: seq<Byte>)
    requires Reads(body, rest)
    ensures Grouped(body)
  {
  }

  lemma AllDropped(s: seq<Byte>)
    requires DropSpaces(s) == []
    ensures AllBlank(s)
  {
    var before := BlanksOff(s);
  }

  lemma NothingYet()
    ensures Number([]) == 0 && Underway([])
  {
  }

  lemma DigitsRead(digits: seq<Byte>) returns (k: nat)
    requires (digits == [] || digits[0] != UNDERSCORE) && Digits(digits, 0, false, false).Some?
    ensures k <= |digits| && Reads(digits[..k], digits[k..])
    ensures Digits(digits, 0, false, false).value == (Number(digits[..k]), digits[k..])
  {
    hide Digits, Number, Reads, Underway;
    NothingYet();
    DigitsExact([], digits);
    var value := Digits(digits, 0, false, false);
    k :| 0 <= k <= |digits| && Reads([] + digits[..k], digits[k..])
         && value.value == (Number([] + digits[..k]), digits[k..]);
    assert [] + digits[..k] == digits[..k];
  }

  lemma DigitsOf(body: seq<Byte>, after: seq<Byte>)
    requires Reads(body, after)
    ensures Digits(body + after, 0, false, false) == Some((Number(body), after))
  {
    var digits, k := body + after, |body|;
    assert digits[0] == body[0];
    DigitIs(body[0]);
    hide Digits, Number, Reads, Underway;
    NothingYet();
    DigitsExact([], digits);
    assert digits[..k] == body && digits[k..] == after && [] + body == body;
    assert Reads([] + digits[..k], digits[k..]);
  }

  lemma SpelledIsRead(text: seq<Byte>, before: seq<Byte>, sign: seq<Byte>, prefix: seq<Byte>, body: seq<Byte>,
                      after: seq<Byte>)
    requires Spells(text, before, sign, prefix, body, after)
    ensures ParseHex(text) == Some(if sign == [0x2d] then -Number(body) else Number(body))
  {
    hide DropSpaces, DropPrefix, Digits, Number, Grouped, ParseHex, AllBlank, IsPrefix, IsSpace, SignOf;
    var digits := body + after;
    var t := prefix + digits;
    var s := sign + t;
    FirstNotBlank(sign, prefix, body, after);
    DropSpacesOff(before, s);
    PrefixOff(prefix, body, after);
    AfterNumber(after);
    DigitsOf(body, after);
    assert s[|sign|..] == t;
    ParseHexIs(text);
    BlankDropped(after);
  }

  lemma BlankDropped(s: seq<Byte>)
    requires AllBlank(s)
    ensures DropSpaces(s) == []
  {
    DropSpacesOff(s, []);
    assert s + [] == s;
  }

  lemma AfterNumber(after: seq<Byte>)
    requires AllBlank(after)
    ensures after == [] || (!IsDigit(after[0]) && after[0] != UNDERSCORE)
  {
  }

  lemma FirstNotBlank(sign: seq<Byte>, prefix: seq<Byte>, body: seq<Byte>, after: seq<Byte>)
    requires IsSign(sign) && IsPrefix(prefix) && Grouped(body)
    ensures var s := sign + (prefix + (body + after));
            s != [] && !IsSpace(s[0]) && SignOf(s) == sign && (body + after)[0] == body[0] != UNDERSCORE
  {
    DigitIs(body[0]);
    var t := prefix + (body + after);
    assert t[0] == if prefix == [] then body[0] else prefix[0];
    var s := sign + t;
    assert s[0] == if sign == [] then t[0] else sign[0];
  }

  // ---------------------------------------------------------------------------------------------
  // Sorted names
  // ---------------------------------------------------------------------------------------------

  /** Python's order on strings: by code point, shorter first. */
  predicate Before(a: string, b: string) {
    if b == "" then false
    else if a == "" then true
    else if a[0] == b[0] then Before(a[1..], b[1..])
    else a[0] < b[0]
  }

  lemma {:induction false} BeforeTotal(a: string, b: string)
    ensures a != b ==> Before(a, b) || Before(b, a)
  {
    if a != "" && b != "" {
      BeforeTotal(a[1..], b[1..]);
      assert a == [a[0]] + a[1..] && b == [b[0]] + b[1..];
    }
  }

  lemma {:induction false} BeforeTransitive(a: string, b: string, c: string)
    requires Before(a, b) && Before(b, c)
    ensures Before(a, c)
  {
    if a != "" && b[0] == c[0] && a[0] == b[0] { BeforeTransitive(a[1..], b[1..], c[1..]); }
  }

  lemma {:induction false} BeforeIrreflexive(a: string)
    ensures !Before(a, a)
  {
    if a != "" { BeforeIrreflexive(a[1..]); }
  }

  predicate IsLeast(x: string, s: set<string>) {
    x in s && forall y :: y in s && y != x ==> Before(x, y)
  }

  lemma {:induction false} LeastExists(s: set<string>) returns (x: string)
    requires s != {}
    ensures IsLeast(x, s)
  {
    var y :| y in s;
    if s == {y} { return y; }
    assert s - {y} != {};
    var z := LeastExists(s - {y});
    BeforeTotal(y, z);
    x := if Before(y, z) then y else z;
    forall w | w in s && w != x ensures Before(x, w) {
      if x == y && w != z { BeforeTransitive(y, z, w); }
    }
  }

  lemma LeastUnique(x: string, y: string, s: set<string>)
    requires IsLeast(x, s) && IsLeast(y, s)
    ensures x == y
  {
    if x != y {
      BeforeTransitive(x, y, x);
      BeforeIrreflexive(x);
    }
  }

  lemma LeastOnce(s: set<string>)
    requires s != {}
    ensures exists x :: x in s && IsLeast(x, s)
    ensures forall x, y :: x in s && IsLeast(x, s) && y in s && IsLeast(y, s) ==> x == y
  {
    var least := LeastExists(s);
    forall x, y | IsLeast(x, s) && IsLeast(y, s) ensures x == y { LeastUnique(x, y, s); }
  }

  /** `sorted(names)`. */
  function SortedNames(s: set<string>): seq<string> {
    if s == {} then []
    else
      LeastOnce(s);
      var x :| x in s && IsLeast(x, s);
      [x] + SortedNames(s - {x})
  }

  ghost predicate Sorted(names: seq<string>) {
    forall i, j :: 0 <= i < j < |names| ==> Before(names[i], names[j])
  }

  lemma SortedCons(x: string, rest: seq<string>)
    requires Sorted(rest) && Distinct(rest) && forall i :: 0 <= i < |rest| ==> rest[i] != x && Before(x, rest[i])
    ensures Sorted([x] + rest) && Distinct([x] + rest)
  {
  }

  lemma ElementsCons(x: string, rest: seq<string>)
    ensures Elements([x] + rest) == {x} + Elements(rest)
  {
  }

  lemma {:induction false} SortedNamesCorrect(s: set<string>)
    ensures Elements(SortedNames(s)) == s && |SortedNames(s)| == |s|
    ensures Sorted(SortedNames(s)) && Distinct(SortedNames(s))
  {
    if s != {} {
      LeastOnce(s);
      var x :| x in s && IsLeast(x, s);
      var rest := SortedNames(s - {x});
      SortedNamesCorrect(s - {x});
      forall i | 0 <= i < |rest| ensures rest[i] != x && Before(x, rest[i]) {
        assert rest[i] in Elements(rest);
      }
      assert SortedNames(s) == [x] + rest;
      hide SortedNames, Sorted, Distinct, IsLeast, Before;
      SortedCons(x, rest);
      ElementsCons(x, rest);
    }
  }
}
