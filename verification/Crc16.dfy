/**
 The CRC-16 that the XMODEM sender and the bootloader compute byte by byte (`crc16_xmodem` in `bench_xmodem.py` and in
 the bootloader's `main.rs`). It is shown to be the bit-serial division register, which is what makes its error
 detection provable: every burst of up to sixteen bits and every odd number of flipped bits is detected, and a block
 followed by its own CRC, and by nothing else, leaves a zero register.
 */
module Crc16 {
  // ---------------------------------------------------------------------------------------------
  // The CRC
  // ---------------------------------------------------------------------------------------------

  /** One turn of the inner loop: shift out the top bit, and reduce by the polynomial if it was set. */
  function Shift(crc: bv16): bv16 {
    if crc & 0x8000 != 0 then (crc << 1) ^ 0x1021 else crc << 1
  }

  function ShiftTimes(crc: bv16, n: nat): bv16
    decreases n
  {
    if n == 0 then crc else ShiftTimes(Shift(crc), n - 1)
  }

  function ByteStep(crc: bv16, b: bv8): bv16 {
    ShiftTimes(crc ^ ((b as bv16) << 8), 8)
  }

  function CrcFrom(crc: bv16, data: seq<bv8>): bv16
    decreases |data|
  {
    if data == [] then crc else CrcFrom(ByteStep(crc, data[0]), data[1..])
  }

  function Crc(data: seq<bv8>): bv16 {
    CrcFrom(0, data)
  }

  /** The inner loop of `crc16_xmodem`: the eight shifts after a byte went in. */
  method ShiftByte(start: bv16) returns (crc: bv16)
    ensures crc == ShiftTimes(start, 8)
  {
    crc := start;
    var k := 0;
    while k < 8
      invariant 0 <= k <= 8 && ShiftTimes(crc, 8 - k) == ShiftTimes(start, 8)
    {
      crc := if crc & 0x8000 != 0 then (crc << 1) ^ 0x1021 else crc << 1;
      k := k + 1;
    }
  }

  /** `crc16_xmodem`. */
  method Crc16Xmodem(data: seq<bv8>) returns (crc: bv16)
    ensures crc == Crc(data)
  {
    hide ShiftTimes;
    crc := 0;
    var i := 0;
    while i < |data|
      invariant 0 <= i <= |data| && CrcFrom(crc, data[i..]) == Crc(data)
    {
      assert data[i..][1..] == data[i + 1..];
      crc := ShiftByte(crc ^ ((data[i] as bv16) << 8));
      i := i + 1;
    }
  }

  // ---------------------------------------------------------------------------------------------
  // The same register, fed bit by bit
  // ---------------------------------------------------------------------------------------------

  // Word operations by name, so that algebra can be done without looking inside them.

  function Xor(a: bv16, b: bv16): bv16 { a ^ b }

  function Half(a: bv16): bv16 { a >> 1 }

  function Double(a: bv16): bv16 { a << 1 }

  function And(a: bv16, b: bv16): bv16 { a & b }

  function Top(bit: bool): bv16 { if bit then 0x8000 else 0 }

  function Feed(crc: bv16, bits: seq<bool>): bv16
    decreases |bits|
  {
    if bits == [] then crc else Feed(Shift(Xor(crc, Top(bits[0]))), bits[1..])
  }

  /** The bits of a byte in the order they are sent, most significant first. */
  function ByteBits(b: bv8): (bits: seq<bool>)
    ensures |bits| == 8
  {
    [b & 0x80 != 0, b & 0x40 != 0, b & 0x20 != 0, b & 0x10 != 0, b & 8 != 0, b & 4 != 0, b & 2 != 0, b & 1 != 0]
  }

  function Bits(data: seq<bv8>): (bits: seq<bool>)
    ensures |bits| == 8 * |data|
  {
    if data == [] then [] else ByteBits(data[0]) + Bits(data[1..])
  }

  lemma XorAssociative(a: bv16, b: bv16, c: bv16)
    ensures Xor(Xor(a, b), c) == Xor(a, Xor(b, c))
  {
  }

  lemma XorSwap(a: bv16, b: bv16, c: bv16, d: bv16)
    ensures Xor(Xor(a, b), Xor(c, d)) == Xor(Xor(a, c), Xor(b, d))
  {
    hide Xor;
    XorAssociative(a, b, Xor(c, d));
    XorAssociative(b, c, d);
    XorCommutes(b, c);
    XorAssociative(c, b, d);
    XorAssociative(a, c, Xor(b, d));
  }

  lemma XorCommutes(a: bv16, b: bv16)
    ensures Xor(a, b) == Xor(b, a)
  {
  }

  lemma XorZero(a: bv16)
    ensures Xor(a, 0) == a && Xor(0, a) == a && Xor(a, a) == 0
  {
  }

  lemma XorCancel(a: bv16, b: bv16)
    ensures Xor(a, Xor(a, b)) == b
  {
  }

  // The register is linear, and a nonzero register never shifts to zero.

  /** What a shift reduces by. */
  function Reduction(crc: bv16): bv16 {
    if crc & 0x8000 != 0 then 0x1021 else 0
  }

  lemma ShiftIs(crc: bv16)
    ensures Shift(crc) == Xor(Double(crc), Reduction(crc))
  {
    XorZero(Double(crc));
  }

  lemma DoubleLinear(a: bv16, b: bv16)
    ensures Double(Xor(a, b)) == Xor(Double(a), Double(b))
  {
  }

  function TopBit(a: bv16): bool { a & 0x8000 != 0 }

  lemma TopBitLinear(a: bv16, b: bv16)
    ensures TopBit(Xor(a, b)) == (TopBit(a) != TopBit(b))
  {
    MaskedXor(a, b);
    OneBit(a);
    OneBit(b);
  }

  lemma MaskedXor(a: bv16, b: bv16)
    ensures (a ^ b) & 0x8000 == (a & 0x8000) ^ (b & 0x8000)
  {
  }

  lemma OneBit(a: bv16)
    ensures a & 0x8000 == 0 || a & 0x8000 == 0x8000
  {
  }

  lemma ReductionLinear(a: bv16, b: bv16)
    ensures Reduction(Xor(a, b)) == Xor(Reduction(a), Reduction(b))
  {
    TopBitLinear(a, b);
    ReductionIs(a);
    ReductionIs(b);
    ReductionIs(Xor(a, b));
    XorZero(0x1021);
    XorZero(0);
    hide *;
  }

  lemma ReductionIs(crc: bv16)
    ensures Reduction(crc) == if TopBit(crc) then 0x1021 else 0
  {
  }

  lemma ShiftLinear(a: bv16, b: bv16)
    ensures Shift(Xor(a, b)) == Xor(Shift(a), Shift(b))
  {
    hide *;
    ShiftIs(Xor(a, b));
    DoubleLinear(a, b);
    ReductionLinear(a, b);
    XorSwap(Double(a), Double(b), Reduction(a), Reduction(b));
    ShiftIs(a);
    ShiftIs(b);
  }

  lemma ShiftInjective(a: bv16)
    ensures Shift(a) == 0 ==> a == 0
  {
  }

  lemma {:induction false} ShiftTimesInjective(a: bv16, n: nat)
    requires a != 0
    ensures ShiftTimes(a, n) != 0
    decreases n
  {
    if n > 0 {
      ShiftInjective(a);
      hide Shift;
      ShiftTimesInjective(Shift(a), n - 1);
    }
  }

  // ---------------------------------------------------------------------------------------------
  // Up to sixteen bits can be gathered in a word before shifting
  // ---------------------------------------------------------------------------------------------

  /** The bits left-aligned in a word. */
  function Pack(bits: seq<bool>): bv16 {
    if bits == [] then 0 else Xor(Top(bits[0]), Half(Pack(bits[1..])))
  }

  /** The positions below the first `n` bits of a word. */
  function Low(n: nat): bv16
    requires n <= 16
  {
    match n
    case 0 => 0xffff case 1 => 0x7fff case 2 => 0x3fff case 3 => 0x1fff
    case 4 => 0x0fff case 5 => 0x07ff case 6 => 0x03ff case 7 => 0x01ff
    case 8 => 0x00ff case 9 => 0x007f case 10 => 0x003f case 11 => 0x001f
    case 12 => 0x000f case 13 => 0x0007 case 14 => 0x0003 case 15 => 0x0001
    case _ => 0
  }

  lemma LowStep(n: nat)
    requires n < 16
    ensures Low(n + 1) == Half(Low(n)) && And(Low(n), 1) == 1
  {
  }

  lemma MaskHalf(bit: bool, rest: bv16, low: bv16)
    ensures And(rest, low) == 0 ==> And(Xor(Top(bit), Half(rest)), Half(low)) == 0
  {
    MaskDistributes(Top(bit), rest, low);
    MaskTop(bit, low);
    hide *;
    XorZero(0);
  }

  lemma MaskDistributes(top: bv16, rest: bv16, low: bv16)
    ensures And(Xor(top, Half(rest)), Half(low)) == Xor(And(top, Half(low)), Half(And(rest, low)))
  {
  }

  lemma MaskTop(bit: bool, low: bv16)
    ensures And(Top(bit), Half(low)) == 0 && Half(0) == 0
  {
  }

  lemma {:induction false} PackLow(bits: seq<bool>)
    requires |bits| <= 16
    ensures And(Pack(bits), Low(|bits|)) == 0
  {
    if bits != [] {
      PackLow(bits[1..]);
      LowStep(|bits| - 1);
      hide Low, Xor, Half, And, Top;
      MaskHalf(bits[0], Pack(bits[1..]), Low(|bits| - 1));
    }
  }

  lemma LowestBit(word: bv16, low: bv16)
    ensures And(And(word, low), 1) == And(word, And(low, 1)) && And(0, 1) == 0
  {
  }

  lemma HalfDouble(word: bv16)
    ensures Double(Half(word)) == Xor(word, And(word, 1))
  {
    HalfDoubleBits(word);
  }

  lemma HalfDoubleBits(word: bv16)
    ensures (word >> 1) << 1 == word ^ (word & 1)
  {
  }

  lemma HalfShift(word: bv16)
    ensures Shift(Half(word)) == Double(Half(word))
  {
  }

  /** Halving a packed word loses nothing: a shift brings it back. */
  lemma PackHalf(bits: seq<bool>)
    requires |bits| <= 15
    ensures Shift(Half(Pack(bits))) == Pack(bits)
  {
    PackLow(bits);
    LowStep(|bits|);
    hide *;
    LowestBit(Pack(bits), Low(|bits|));
    HalfShift(Pack(bits));
    HalfDouble(Pack(bits));
    XorZero(Pack(bits));
  }

  lemma TopStays(word: bv16)
    ensures Xor(0x8000, Half(word)) != 0
  {
  }

  lemma ShiftZero()
    ensures Shift(0) == 0
  {
  }

  lemma {:induction false} PackNonZero(bits: seq<bool>)
    requires |bits| <= 16 && true in bits
    ensures Pack(bits) != 0
  {
    var rest := bits[1..];
    if bits[0] {
      hide Xor, Half;
      TopStays(Pack(rest));
    } else {
      assert true in rest;
      PackNonZero(rest);
      hide Xor, Half, Shift;
      PackHalf(rest);
      ShiftZero();
      XorZero(Half(Pack(rest)));
    }
  }

  lemma PackOneMore(crc: bv16, bits: seq<bool>)
    requires 1 <= |bits| <= 16
    ensures Xor(Shift(Xor(crc, Top(bits[0]))), Pack(bits[1..])) == Shift(Xor(crc, Pack(bits)))
  {
    hide Xor, Half, Shift, Top;
    var half, top := Half(Pack(bits[1..])), Top(bits[0]);
    PackHalf(bits[1..]);
    ShiftLinear(Xor(crc, top), half);
    XorAssociative(crc, top, half);
  }

  /** Feeding up to sixteen bits is xoring them in at the top and shifting. */
  lemma {:induction false} FeedIsPack(crc: bv16, bits: seq<bool>)
    requires |bits| <= 16
    ensures Feed(crc, bits) == ShiftTimes(Xor(crc, Pack(bits)), |bits|)
    decreases |bits|
  {
    hide Xor, Half, Shift, Top;
    if bits == [] {
      XorZero(crc);
    } else {
      FeedIsPack(Shift(Xor(crc, Top(bits[0]))), bits[1..]);
      PackOneMore(crc, bits);
    }
  }

  lemma PackTail(bits: seq<bool>, i: nat)
    requires i < |bits|
    ensures Pack(bits[i..]) == Xor(Top(bits[i]), Half(Pack(bits[i + 1..])))
  {
    assert bits[i..][1..] == bits[i + 1..];
  }

  lemma PackOfByte(b: bv8)
    ensures var bits := ByteBits(b);
            Xor(Top(bits[0]), Half(Xor(Top(bits[1]), Half(Xor(Top(bits[2]), Half(Xor(Top(bits[3]),
              Half(Xor(Top(bits[4]), Half(Xor(Top(bits[5]), Half(Xor(Top(bits[6]), Half(Xor(Top(bits[7]), Half(0))))))))))))))))
            == (b as bv16) << 8
  {
  }

  lemma PackByte(b: bv8)
    ensures Pack(ByteBits(b)) == (b as bv16) << 8
  {
    PackOfByte(b);
    hide Xor, Half, Top, ByteBits;
    var bits := ByteBits(b);
    assert bits[8..] == [] && bits[0..] == bits;
    PackTail(bits, 7);
    PackTail(bits, 6);
    PackTail(bits, 5);
    PackTail(bits, 4);
    PackTail(bits, 3);
    PackTail(bits, 2);
    PackTail(bits, 1);
    PackTail(bits, 0);
  }

  lemma ByteStepIs(crc: bv16, b: bv8)
    ensures ByteStep(crc, b) == ShiftTimes(Xor(crc, (b as bv16) << 8), 8)
  {
    hide Shift, ShiftTimes;
  }

  lemma ByteIsBits(crc: bv16, b: bv8)
    ensures ByteStep(crc, b) == Feed(crc, ByteBits(b))
  {
    hide *;
    PackByte(b);
    ByteStepIs(crc, b);
    FeedIsPack(crc, ByteBits(b));
  }

  lemma {:induction false} FeedConcat(crc: bv16, a: seq<bool>, b: seq<bool>)
    ensures Feed(crc, a + b) == Feed(Feed(crc, a), b)
    decreases |a|
  {
    if a == [] {
      assert a + b == b;
    } else {
      assert (a + b)[1..] == a[1..] + b;
      FeedConcat(Shift(Xor(crc, Top(a[0]))), a[1..], b);
    }
  }

  /** The byte-wise CRC is the bit-serial one. */
  lemma {:induction false} CrcIsFeed(crc: bv16, data: seq<bv8>)
    ensures CrcFrom(crc, data) == Feed(crc, Bits(data))
    decreases |data|
  {
    if data != [] {
      ByteIsBits(crc, data[0]);
      FeedConcat(crc, ByteBits(data[0]), Bits(data[1..]));
      CrcIsFeed(ByteStep(crc, data[0]), data[1..]);
    }
  }

  // ---------------------------------------------------------------------------------------------
  // Burst detection
  // ---------------------------------------------------------------------------------------------

  /** Where two bit strings differ. */
  function Difference(a: seq<bool>, b: seq<bool>): (d: seq<bool>)
    requires |a| == |b|
    ensures |d| == |a| && forall i :: 0 <= i < |a| ==> d[i] == (a[i] != b[i])
  {
    seq(|a|, i requires 0 <= i < |a| => a[i] != b[i])
  }

  lemma TopDifference(x: bool, y: bool)
    ensures Xor(Top(x), Top(y)) == Top(x != y)
  {
  }

  /** Feeding is linear: registers and inputs may be xored before or after. */
  lemma {:induction false} FeedLinear(p: bv16, q: bv16, a: seq<bool>, b: seq<bool>)
    requires |a| == |b|
    ensures Xor(Feed(p, a), Feed(q, b)) == Feed(Xor(p, q), Difference(a, b))
    decreases |a|
  {
    hide Xor, Top, Shift;
    if a != [] {
      var p', q', d := Xor(p, Top(a[0])), Xor(q, Top(b[0])), Difference(a, b);
      FeedLinear(Shift(p'), Shift(q'), a[1..], b[1..]);
      ShiftLinear(p', q');
      XorSwap(p, Top(a[0]), q, Top(b[0]));
      TopDifference(a[0], b[0]);
      DifferenceFirst(a, b);
      FeedFirst(p, a);
      FeedFirst(q, b);
      FeedFirst(Xor(p, q), d);
      hide Feed, Difference;
    }
  }

  lemma FeedFirst(crc: bv16, bits: seq<bool>)
    requires bits != []
    ensures Feed(crc, bits) == Feed(Shift(Xor(crc, Top(bits[0]))), bits[1..])
  {
    hide Xor, Top, Shift;
  }

  lemma DifferenceFirst(a: seq<bool>, b: seq<bool>)
    requires |a| == |b| > 0
    ensures Difference(a, b)[0] == (a[0] != b[0]) && Difference(a, b)[1..] == Difference(a[1..], b[1..])
  {
  }

  predicate AllFalse(bits: seq<bool>) {
    forall i :: 0 <= i < |bits| ==> !bits[i]
  }

  /** Zeros only shift the register. */
  lemma {:induction false} FeedZeros(crc: bv16, bits: seq<bool>)
    requires AllFalse(bits)
    ensures Feed(crc, bits) == ShiftTimes(crc, |bits|)
    decreases |bits|
  {
    hide Xor, Shift;
    if bits != [] {
      XorZero(crc);
      FeedZeros(Shift(crc), bits[1..]);
    }
  }

  lemma {:induction false} ShiftTimesZero(n: nat)
    ensures ShiftTimes(0, n) == 0
  {
    hide Shift;
    if n > 0 {
      ShiftZero();
      ShiftTimesZero(n - 1);
    }
  }

  lemma BurstSurvives(before: seq<bool>, burst: seq<bool>, after: seq<bool>)
    requires AllFalse(before) && AllFalse(after) && |burst| <= 16 && true in burst
    ensures Feed(0, before + (burst + after)) != 0
  {
    hide *;
    FeedConcat(0, before, burst + after);
    FeedZeros(0, before);
    ShiftTimesZero(|before|);
    FeedConcat(0, burst, after);
    FeedIsPack(0, burst);
    XorZero(Pack(burst));
    PackNonZero(burst);
    ShiftTimesInjective(Pack(burst), |burst|);
    FeedZeros(Feed(0, burst), after);
    ShiftTimesInjective(Feed(0, burst), |after|);
  }

  /** A nonzero pattern confined to sixteen consecutive bits leaves a nonzero register. */
  lemma BurstLeavesMark(d: seq<bool>, k: nat)
    requires true in d && forall i :: 0 <= i < |d| && d[i] ==> k <= i < k + 16
    ensures Feed(0, d) != 0
  {
    hide *;
    var hit :| 0 <= hit < |d| && d[hit];
    var stop := if |d| < k + 16 then |d| else k + 16;
    QuietOutside(d, k, stop);
    HitInside(d, k, stop, hit);
    BurstSurvives(d[..k], d[k..stop], d[stop..]);
  }

  lemma QuietOutside(d: seq<bool>, k: nat, stop: nat)
    requires k <= stop <= |d| && forall i :: 0 <= i < |d| && d[i] ==> k <= i < stop
    ensures AllFalse(d[..k]) && AllFalse(d[stop..])
  {
  }

  lemma HitInside(d: seq<bool>, k: nat, stop: nat, hit: nat)
    requires k <= hit < stop <= |d| && d[hit]
    ensures true in d[k..stop] && d == d[..k] + (d[k..stop] + d[stop..])
  {
    assert d[k..stop][hit - k];
  }

  /** A byte put together from its bits. */
  function FromBits(bits: seq<bool>): bv8
    requires |bits| == 8
  {
    (if bits[0] then 0x80 else 0) | (if bits[1] then 0x40 else 0) | (if bits[2] then 0x20 else 0)
    | (if bits[3] then 0x10 else 0) | (if bits[4] then 8 else 0) | (if bits[5] then 4 else 0)
    | (if bits[6] then 2 else 0) | (if bits[7] then 1 else 0)
  }

  lemma ByteOfBits(x: bv8)
    ensures FromBits(ByteBits(x)) == x
  {
  }

  lemma SomeBitDiffers(x: bv8, y: bv8)
    requires x != y
    ensures exists i :: 0 <= i < 8 && ByteBits(x)[i] != ByteBits(y)[i]
  {
    ByteOfBits(x);
    ByteOfBits(y);
    hide ByteBits, FromBits;
    assert ByteBits(x) != ByteBits(y);
  }

  lemma {:induction false} BitsInjective(x: seq<bv8>, y: seq<bv8>)
    requires |x| == |y| && x != y
    ensures exists i :: 0 <= i < |Bits(x)| && Bits(x)[i] != Bits(y)[i]
  {
    hide ByteBits;
    if x[0] != y[0] {
      SomeBitDiffers(x[0], y[0]);
      var i :| 0 <= i < 8 && ByteBits(x[0])[i] != ByteBits(y[0])[i];
      assert Bits(x)[i] == ByteBits(x[0])[i] && Bits(y)[i] == ByteBits(y[0])[i];
    } else {
      assert x == [x[0]] + x[1..] && y == [y[0]] + y[1..];
      BitsInjective(x[1..], y[1..]);
      var i :| 0 <= i < |Bits(x[1..])| && Bits(x[1..])[i] != Bits(y[1..])[i];
      assert Bits(x)[8 + i] == Bits(x[1..])[i] && Bits(y)[8 + i] == Bits(y[1..])[i];
    }
  }

  /** Two blocks of equal length, of any length, that differ, and only within sixteen consecutive bits wherever they
      stand, never have the same CRC. */
  lemma BurstDetected(x: seq<bv8>, y: seq<bv8>, k: nat)
    requires |x| == |y| && x != y
    requires forall i :: 0 <= i < |Bits(x)| && Bits(x)[i] != Bits(y)[i] ==> k <= i < k + 16
    ensures Crc(x) != Crc(y)
  {
    hide Xor, Feed, CrcFrom, Bits;
    var d := Difference(Bits(x), Bits(y));
    BitsInjective(x, y);
    var i :| 0 <= i < |Bits(x)| && Bits(x)[i] != Bits(y)[i];
    assert d[i];
    BurstLeavesMark(d, k);
    CrcIsFeed(0, x);
    CrcIsFeed(0, y);
    FeedLinear(0, 0, Bits(x), Bits(y));
    XorZero(0);
    XorZero(Crc(x));
  }

  // ---------------------------------------------------------------------------------------------
  // Odd errors
  // ---------------------------------------------------------------------------------------------

  /** Whether the first `n` bits of a word hold an odd number of ones. */
  function OddOnes(a: bv16, n: nat): bool
    decreases n
  {
    if n == 0 then false else TopBit(a) != OddOnes(Double(a), n - 1)
  }

  function WordParity(a: bv16): bool {
    OddOnes(a, 16)
  }

  function Parity(bits: seq<bool>): bool {
    if bits == [] then false else bits[0] != Parity(bits[1..])
  }

  lemma {:induction false} OddOnesLinear(a: bv16, b: bv16, n: nat)
    ensures OddOnes(Xor(a, b), n) == (OddOnes(a, n) != OddOnes(b, n))
    decreases n
  {
    hide Xor, Double, TopBit;
    if n > 0 {
      TopBitLinear(a, b);
      DoubleLinear(a, b);
      OddOnesLinear(Double(a), Double(b), n - 1);
    }
  }

  function DoubleTimes(a: bv16, n: nat): bv16
    decreases n
  {
    if n == 0 then a else DoubleTimes(Double(a), n - 1)
  }

  lemma {:induction false} OddOnesLast(a: bv16, n: nat)
    ensures OddOnes(a, n + 1) == (OddOnes(a, n) != TopBit(DoubleTimes(a, n)))
    decreases n
  {
    hide Double, TopBit;
    if n > 0 {
      OddOnesLast(Double(a), n - 1);
    }
  }

  lemma DoubleFourTimes(a: bv16)
    ensures DoubleTimes(a, 4) == a << 4
  {
    assert Double(a) == a << 1;
    assert Double(a << 1) == a << 2;
    assert Double(a << 2) == a << 3;
    assert Double(a << 3) == a << 4;
  }

  lemma {:induction false} DoubleMore(a: bv16, m: nat, n: nat)
    ensures DoubleTimes(a, m + n) == DoubleTimes(DoubleTimes(a, m), n)
    decreases m
  {
    hide Double;
    if m > 0 {
      DoubleMore(Double(a), m - 1, n);
    }
  }

  lemma ShiftedOut(a: bv16)
    ensures (((a << 4) << 4) << 4) << 4 == 0
  {
  }

  lemma DoubledAway(a: bv16)
    ensures DoubleTimes(a, 16) == 0
  {
    ShiftedOut(a);
    hide *;
    DoubleMore(a, 4, 12);
    DoubleMore(a << 4, 4, 8);
    DoubleMore((a << 4) << 4, 4, 4);
    DoubleFourTimes(a);
    DoubleFourTimes(a << 4);
    DoubleFourTimes((a << 4) << 4);
    DoubleFourTimes(((a << 4) << 4) << 4);
  }

  lemma {:induction false} ZeroIsEven(n: nat)
    ensures !OddOnes(0, n)
  {
    if n > 0 { ZeroIsEven(n - 1); }
  }

  lemma PolynomialIsOdd()
    ensures OddOnes(0x1021, 16)
  {
    assert OddOnes(0x8000, 1);
    assert OddOnes(0x4000, 2);
    assert OddOnes(0x2000, 3);
    assert OddOnes(0x1000, 4);
    assert OddOnes(0x0800, 5);
    assert !OddOnes(0x8400, 6);
    assert !OddOnes(0x4200, 7);
    assert !OddOnes(0x2100, 8);
    assert !OddOnes(0x1080, 9);
    assert !OddOnes(0x0840, 10);
    assert !OddOnes(0x0420, 11);
    assert !OddOnes(0x0210, 12);
    assert OddOnes(0x8108, 13);
    assert OddOnes(0x4084, 14);
    assert OddOnes(0x2042, 15);
    assert OddOnes(0x1021, 16);
  }

  lemma ReductionParity(a: bv16)
    ensures WordParity(Reduction(a)) == TopBit(a)
  {
    PolynomialIsOdd();
    ZeroIsEven(16);
  }

  lemma ShiftKeepsParity(a: bv16)
    ensures WordParity(Shift(a)) == WordParity(a)
  {
    ReductionParity(a);
    ZeroParity();
    hide Shift, Double, Xor, Reduction, TopBit;
    ShiftIs(a);
    OddOnesLinear(Double(a), Reduction(a), 16);
    OddOnesLast(Double(a), 15);
    DoubledAway(a);
  }

  lemma TopParity(a: bv16, bit: bool)
    ensures WordParity(Xor(a, Top(bit))) == (WordParity(a) != bit)
  {
    TopIsOdd(bit);
    hide *;
    OddOnesLinear(a, Top(bit), 16);
    WordParityIs(a);
    WordParityIs(Top(bit));
    WordParityIs(Xor(a, Top(bit)));
  }

  lemma TopIsOdd(bit: bool)
    ensures WordParity(Top(bit)) == bit
  {
    assert TopBit(0x8000) && Double(0x8000) == 0;
    ZeroIsEven(15);
    ZeroIsEven(16);
  }

  lemma WordParityIs(a: bv16)
    ensures WordParity(a) == OddOnes(a, 16)
  {
    hide OddOnes;
  }

  /** The register's parity is that of everything fed to it, because the polynomial has an even number of terms. */
  lemma {:induction false} FeedParity(crc: bv16, bits: seq<bool>)
    ensures WordParity(Feed(crc, bits)) == (WordParity(crc) != Parity(bits))
    decreases |bits|
  {
    if bits != [] {
      TopParity(crc, bits[0]);
      ShiftKeepsParity(Xor(crc, Top(bits[0])));
      hide Xor, Top, Shift, WordParity;
      FeedParity(Shift(Xor(crc, Top(bits[0]))), bits[1..]);
    }
  }

  /** Two blocks of equal length that differ in an odd number of bits never have the same CRC. */
  lemma OddErrorsDetected(x: seq<bv8>, y: seq<bv8>)
    requires |x| == |y| && Parity(Difference(Bits(x), Bits(y)))
    ensures Crc(x) != Crc(y)
  {
    hide *;
    CrcIsFeed(0, x);
    CrcIsFeed(0, y);
    FeedLinear(0, 0, Bits(x), Bits(y));
    XorZero(0);
    FeedParity(0, Difference(Bits(x), Bits(y)));
    XorZero(CrcFrom(0, x));
    CrcUnfold(x);
    CrcUnfold(y);
    ZeroParity();
  }

  lemma CrcUnfold(data: seq<bv8>)
    ensures Crc(data) == CrcFrom(0, data)
  {
  }

  lemma ZeroParity()
    ensures !WordParity(0) && !TopBit(0)
  {
    ZeroIsEven(16);
  }

  // ---------------------------------------------------------------------------------------------
  // The residue
  // ---------------------------------------------------------------------------------------------

  function HalfTimes(a: bv16, n: nat): bv16
    decreases n
  {
    if n == 0 then a else Half(HalfTimes(a, n - 1))
  }

  lemma HalfLinear(a: bv16, b: bv16)
    ensures Half(Xor(a, b)) == Xor(Half(a), Half(b))
  {
  }

  lemma {:induction false} PackConcat(a: seq<bool>, b: seq<bool>)
    ensures Pack(a + b) == Xor(Pack(a), HalfTimes(Pack(b), |a|))
    decreases |a|
  {
    hide Xor, Half, Top;
    if a == [] {
      assert a + b == b;
      XorZero(Pack(b));
    } else {
      assert (a + b)[1..] == a[1..] + b;
      PackConcat(a[1..], b);
      HalfLinear(Pack(a[1..]), HalfTimes(Pack(b), |a| - 1));
      XorAssociative(Top(a[0]), Half(Pack(a[1..])), HalfTimes(Pack(b), |a|));
    }
  }

  lemma HalfByte(b: bv8)
    ensures HalfTimes((b as bv16) << 8, 8) == b as bv16
  {
    var w := (b as bv16) << 8;
    assert Half(w) == (b as bv16) << 7 && Half((b as bv16) << 7) == (b as bv16) << 6;
    assert Half((b as bv16) << 6) == (b as bv16) << 5 && Half((b as bv16) << 5) == (b as bv16) << 4;
    assert Half((b as bv16) << 4) == (b as bv16) << 3 && Half((b as bv16) << 3) == (b as bv16) << 2;
    assert Half((b as bv16) << 2) == (b as bv16) << 1 && Half((b as bv16) << 1) == b as bv16;
    hide Half;
    assert HalfTimes(w, 2) == (b as bv16) << 6;
    assert HalfTimes(w, 4) == (b as bv16) << 4;
    assert HalfTimes(w, 6) == (b as bv16) << 2;
  }

  /** Two bytes as a word, the first one high. */
  function Word(hi: bv8, lo: bv8): bv16 {
    Xor((hi as bv16) << 8, lo as bv16)
  }

  lemma PackWord(hi: bv8, lo: bv8)
    ensures Pack(ByteBits(hi) + ByteBits(lo)) == Word(hi, lo)
  {
    hide Xor, Half, Pack, ByteBits, HalfTimes;
    PackConcat(ByteBits(hi), ByteBits(lo));
    PackByte(hi);
    PackByte(lo);
    HalfByte(lo);
  }

  lemma {:induction false} BitsConcat(x: seq<bv8>, y: seq<bv8>)
    ensures Bits(x + y) == Bits(x) + Bits(y)
  {
    hide ByteBits;
    if x == [] {
      assert x + y == y;
    } else {
      assert (x + y)[1..] == x[1..] + y;
      BitsConcat(x[1..], y);
    }
  }

  lemma XorEqual(a: bv16, b: bv16)
    ensures Xor(a, b) == 0 <==> a == b
  {
    hide Xor;
    XorCancel(a, b);
    XorZero(a);
  }

  lemma BitsOfPair(hi: bv8, lo: bv8)
    ensures Bits([hi, lo]) == ByteBits(hi) + ByteBits(lo)
  {
    hide ByteBits;
    assert [hi, lo][1..] == [lo] && [lo][1..] == [];
    assert Bits([lo]) == ByteBits(lo) + [];
  }

  /** A block followed by two bytes leaves a zero register exactly when the two bytes are the block's CRC. */
  lemma ResidueExact(data: seq<bv8>, hi: bv8, lo: bv8)
    ensures Crc(data + [hi, lo]) == 0 <==> Crc(data) == Word(hi, lo)
  {
    hide *;
    var pair := ByteBits(hi) + ByteBits(lo);
    CrcUnfold(data + [hi, lo]);
    CrcUnfold(data);
    CrcIsFeed(0, data + [hi, lo]);
    CrcIsFeed(0, data);
    BitsConcat(data, [hi, lo]);
    BitsOfPair(hi, lo);
    FeedConcat(0, Bits(data), pair);
    FeedIsPack(Crc(data), pair);
    PackWord(hi, lo);
    XorEqual(Crc(data), Word(hi, lo));
    ShiftTimesZero(16);
    if Xor(Crc(data), Word(hi, lo)) != 0 {
      ShiftTimesInjective(Xor(Crc(data), Word(hi, lo)), 16);
    }
  }

  // ---------------------------------------------------------------------------------------------
  // Polynomial division
  // ---------------------------------------------------------------------------------------------

  /** The generator, x^16 + x^12 + x^5 + 1, its coefficients from the highest down. */
  const GENERATOR: seq<bool> := [true, false, false, false, true, false, false, false, false, false, false, true,
                                 false, false, false, false, true]

  /** One step of long division over the field of two elements: take the generator off under a leading one. */
  function Subtract(s: seq<bool>): (r: seq<bool>)
    requires |s| >= 17
    ensures |r| == |s| && forall i :: 0 <= i < |s| ==> (r[i] <==> (s[i] != (i < 17 && s[0] && GENERATOR[i])))
  {
    seq(|s|, i requires 0 <= i < |s| => s[i] != (i < 17 && s[0] && GENERATOR[i]))
  }

  /** The remainder of the polynomial with these coefficients. */
  function Remainder(s: seq<bool>): seq<bool>
    requires |s| >= 16
    decreases |s|
  {
    if |s| == 16 then s else Remainder(Subtract(s)[1..])
  }

  /** The register's sixteen bits laid over the front of what is still to be divided. */
  function Onto(bits: seq<bool>, s: seq<bool>): (r: seq<bool>)
    requires |bits| == 16 && |s| >= 16
    ensures |r| == |s| && forall i :: 0 <= i < |s| ==> (r[i] <==> (s[i] != (i < 16 && bits[i])))
  {
    seq(|s|, i requires 0 <= i < |s| => s[i] != (i < 16 && bits[i]))
  }

  /** The register's bits after `bit` is fed to it. */
  function Fed(bits: seq<bool>, bit: bool): (r: seq<bool>)
    requires |bits| == 16
    ensures |r| == 16
    ensures forall i :: 0 <= i < 16 ==> (r[i] <==> ((i < 15 && bits[i + 1]) != ((bits[0] != bit) && GENERATOR[i + 1])))
  {
    seq(16, i requires 0 <= i < 16 => (i < 15 && bits[i + 1]) != ((bits[0] != bit) && GENERATOR[i + 1]))
  }

  lemma {:induction false} PackLinear(a: seq<bool>, b: seq<bool>)
    requires |a| == |b|
    ensures Pack(Difference(a, b)) == Xor(Pack(a), Pack(b))
  {
    hide Xor, Half, Top;
    if a == [] {
      XorZero(0);
    } else {
      var d := Difference(a, b);
      assert d[1..] == Difference(a[1..], b[1..]);
      PackLinear(a[1..], b[1..]);
      TopDifference(a[0], b[0]);
      HalfLinear(Pack(a[1..]), Pack(b[1..]));
      XorSwap(Top(a[0]), Top(b[0]), Half(Pack(a[1..])), Half(Pack(b[1..])));
    }
  }

  lemma {:induction false} PackFalse(bits: seq<bool>)
    requires AllFalse(bits)
    ensures Pack(bits) == 0
  {
    if bits != [] {
      PackFalse(bits[1..]);
      MaskTop(false, 0);
      hide Xor, Half;
      XorZero(0);
    }
  }

  lemma {:induction false} PackFalseEnd(bits: seq<bool>)
    ensures Pack(bits + [false]) == Pack(bits)
  {
    hide Xor, Half, Top;
    if bits == [] {
      assert [] + [false] == [false];
      PackFalse([false]);
    } else {
      assert (bits + [false])[1..] == bits[1..] + [false];
      PackFalseEnd(bits[1..]);
    }
  }

  lemma PackAt(bits: seq<bool>, i: nat, rest: bv16, word: bv16)
    requires i < |bits| && Pack(bits[i + 1..]) == rest && word == Xor(Top(bits[i]), Half(rest))
    ensures Pack(bits[i..]) == word
  {
    hide Xor, Half, Top, Pack;
    PackTail(bits, i);
  }

  lemma PackClear(bits: seq<bool>, i: nat, rest: bv16, word: bv16)
    requires i < |bits| && !bits[i] && Pack(bits[i + 1..]) == rest && word == rest >> 1
    ensures Pack(bits[i..]) == word
  {
    XorZero(Half(rest));
    hide Xor, Pack;
    PackAt(bits, i, rest, word);
  }

  lemma GeneratorLow(bits: seq<bool>)
    requires |bits| == 16 && !bits[8] && !bits[9] && bits[10] && !bits[11] && !bits[12] && !bits[13] && !bits[14] && bits[15]
    ensures Pack(bits[8..]) == 0x2100
  {
    hide Xor, Half, Top, Pack;
    PackFalse(bits[16..]);
    SetBit(0, 0x8000);
    PackAt(bits, 15, 0, 0x8000);
    PackClear(bits, 14, 0x8000, 0x4000);
    PackClear(bits, 13, 0x4000, 0x2000);
    PackClear(bits, 12, 0x2000, 0x1000);
    PackClear(bits, 11, 0x1000, 0x800);
    SetBit(0x800, 0x8400);
    PackAt(bits, 10, 0x800, 0x8400);
    PackClear(bits, 9, 0x8400, 0x4200);
    PackClear(bits, 8, 0x4200, 0x2100);
  }

  lemma GeneratorHigh(bits: seq<bool>)
    requires |bits| == 16 && !bits[0] && !bits[1] && !bits[2] && bits[3] && !bits[4] && !bits[5] && !bits[6] && !bits[7]
    requires Pack(bits[8..]) == 0x2100
    ensures Pack(bits) == 0x1021
  {
    hide Xor, Half, Top, Pack;
    PackClear(bits, 7, 0x2100, 0x1080);
    PackClear(bits, 6, 0x1080, 0x840);
    PackClear(bits, 5, 0x840, 0x420);
    PackClear(bits, 4, 0x420, 0x210);
    SetBit(0x210, 0x8108);
    PackAt(bits, 3, 0x210, 0x8108);
    PackClear(bits, 2, 0x8108, 0x4084);
    PackClear(bits, 1, 0x4084, 0x2042);
    PackClear(bits, 0, 0x2042, 0x1021);
    assert bits[0..] == bits;
  }

  lemma GeneratorWord()
    ensures Pack(GENERATOR[1..]) == 0x1021
  {
    hide Pack;
    var bits := GENERATOR[1..];
    GeneratorLow(bits);
    GeneratorHigh(bits);
  }

  lemma SetBit(rest: bv16, word: bv16)
    ensures 0x8000 | (rest >> 1) == word ==> Xor(Top(true), Half(rest)) == word
  {
  }

  lemma ShiftTop(bit: bool)
    ensures Shift(Top(bit)) == if bit then 0x1021 else 0
  {
  }

  /** Feeding a bit is what `Fed` says. */
  lemma PackFed(bits: seq<bool>, bit: bool)
    requires |bits| == 16
    ensures Shift(Xor(Pack(bits), Top(bit))) == Pack(Fed(bits, bit))
  {
    hide Xor, Half, Top, Shift, Fed, Pack;
    var rest, lead := bits[1..], bits[0] != bit;
    PackFirst(bits);
    ShiftFed(Top(bits[0]), Half(Pack(rest)), Top(bit));
    TopDifference(bits[0], bit);
    PackHalf(rest);
    ShiftTop(lead);
    PackTaken(bits, bit);
    XorCommutes(Shift(Top(lead)), Pack(rest));
  }

  lemma PackFirst(bits: seq<bool>)
    requires bits != []
    ensures Pack(bits) == Xor(Top(bits[0]), Half(Pack(bits[1..])))
  {
  }

  lemma ShiftFed(top: bv16, half: bv16, bit: bv16)
    ensures Shift(Xor(Xor(top, half), bit)) == Xor(Shift(Xor(top, bit)), Shift(half))
  {
    hide Xor, Shift;
    XorAssociative(top, half, bit);
    XorCommutes(half, bit);
    XorAssociative(top, bit, half);
    ShiftLinear(Xor(top, bit), half);
  }

  lemma PackTaken(bits: seq<bool>, bit: bool)
    requires |bits| == 16
    ensures Pack(Fed(bits, bit)) == Xor(Pack(bits[1..]), if bits[0] != bit then 0x1021 else 0)
  {
    hide Xor, Half, Top, Fed, Pack;
    var rest, none := bits[1..], seq(16, _ => false);
    var less := if bits[0] != bit then GENERATOR[1..] else none;
    GeneratorWord();
    PackFalse(none);
    PackFalseEnd(rest);
    PackLinear(rest + [false], less);
    FedIsDifference(bits, bit, less);
  }

  lemma FedIsDifference(bits: seq<bool>, bit: bool, less: seq<bool>)
    requires |bits| == 16 && |less| == 16
    requires forall i :: 0 <= i < 16 ==> less[i] == ((bits[0] != bit) && GENERATOR[i + 1])
    ensures Fed(bits, bit) == Difference(bits[1..] + [false], less)
  {
    hide Fed, Difference;
    var a, b := Fed(bits, bit), Difference(bits[1..] + [false], less);
    forall i | 0 <= i < 16 ensures a[i] == b[i] {
      assert (bits[1..] + [false])[i] == (i < 15 && bits[i + 1]);
    }
  }

  /** It is a step of the division. */
  lemma DivisionStep(bits: seq<bool>, s: seq<bool>)
    requires |bits| == 16 && |s| >= 17
    ensures Subtract(Onto(bits, s))[1..] == Onto(Fed(bits, s[0]), s[1..])
  {
    hide Subtract, Onto, Fed;
    var before := Onto(bits, s);
    var left, right := Subtract(before)[1..], Onto(Fed(bits, s[0]), s[1..]);
    forall i | 0 <= i < |left| ensures left[i] == right[i] {
      assert left[i] == Subtract(before)[i + 1];
    }
  }

  lemma {:induction false} FeedDivides(bits: seq<bool>, message: seq<bool>, tail: seq<bool>)
    requires |bits| == 16 && |tail| == 16 && AllFalse(tail)
    ensures Pack(Remainder(Onto(bits, message + tail))) == Feed(Pack(bits), message)
    decreases |message|
  {
    hide Xor, Half, Top, Shift, Fed, Subtract, Onto, Pack;
    var s := message + tail;
    if message == [] {
      assert Onto(bits, s) == bits;
    } else {
      DivisionStep(bits, s);
      assert s[1..] == message[1..] + tail && s[0] == message[0];
      PackFed(bits, message[0]);
      FeedDivides(Fed(bits, message[0]), message[1..], tail);
    }
  }

  /** The CRC is the remainder of the message, followed by sixteen zeros, on division by the generator. */
  lemma CrcIsRemainder(data: seq<bv8>, tail: seq<bool>)
    requires |tail| == 16 && AllFalse(tail)
    ensures Crc(data) == Pack(Remainder(Bits(data) + tail))
  {
    CrcIsFeed(0, data);
    PackFalse(tail);
    hide Feed, Bits, CrcFrom, Remainder, Onto, Pack;
    FeedDivides(tail, Bits(data), tail);
    assert Onto(tail, Bits(data) + tail) == Bits(data) + tail;
  }
}
