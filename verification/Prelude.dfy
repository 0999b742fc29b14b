/** Values shared by every component: bytes, machine words, results, and a few facts about sequences. */
module Prelude {

  type Byte = b: int | 0 <= b < 256

  const TWO_TO_THE_32: int := 0x1_0000_0000

  type U32 = n: int | 0 <= n < 0x1_0000_0000

  datatype Option<+T> = None | Some(value: T)

  /** A call that returns a value, or raises `ValueError` for the given reason. */
  datatype Result<+T, +E> = Ok(value: T) | Err(error: E)

  function Min(a: int, b: int): int { if a <= b then a else b }

  function Max(a: int, b: int): int { if a >= b then a else b }

  /** `n` rounded up to a multiple of four, by counting in fours. */
  function Align4(n: nat): (r: nat)
    ensures n <= r < n + 4
  {
    if n == 0 then 0 else if n < 4 then 4 else 4 + Align4(n - 4)
  }

  predicate Aligned(n: nat) {
    Align4(n) == n
  }

  lemma {:induction false} AlignedIsMultiple(n: nat)
    ensures Align4(n) % 4 == 0 && (Aligned(n) <==> n % 4 == 0)
  {
    if n >= 4 { AlignedIsMultiple(n - 4); }
  }

  lemma {:induction false} AlignShift(base: nat, n: nat)
    requires Aligned(base)
    ensures Align4(base + n) == base + Align4(n)
    ensures Aligned(n) ==> Aligned(base + n)
  {
    if base > 0 { AlignShift(base - 4, n); }
  }

  lemma {:induction false} AlignTwice(n: nat)
    ensures Aligned(Align4(n))
  {
    if n >= 4 { AlignTwice(n - 4); }
  }

  /** The zero bytes that take `n` to a multiple of four: `bytes(-n % 4)`. */
  function PadBytes(n: nat): (z: seq<Byte>)
    ensures n + |z| == Align4(n)
  {
    var d := Align4(n) - n;
    if d == 0 then [] else if d == 1 then [0] else if d == 2 then [0, 0] else [0, 0, 0]
  }

  ghost predicate Distinct<T>(s: seq<T>) {
    forall i, j :: 0 <= i < j < |s| ==> s[i] != s[j]
  }

  ghost function Elements<T>(s: seq<T>): set<T> {
    set x | x in s
  }

  lemma DistinctConcat<T>(a: seq<T>, b: seq<T>)
    ensures Distinct(a + b) <==> Distinct(a) && Distinct(b) && Elements(a) !! Elements(b)
  {
    var ab := a + b;
    if Distinct(ab) {
      forall i, j | 0 <= i < j < |a| ensures a[i] != a[j] { assert ab[i] == a[i] && ab[j] == a[j]; }
      forall i, j | 0 <= i < j < |b| ensures b[i] != b[j] { assert ab[|a| + i] == b[i] && ab[|a| + j] == b[j]; }
      forall x | x in a ensures x !in b {
        var i :| 0 <= i < |a| && a[i] == x;
        forall j | 0 <= j < |b| ensures b[j] != x { assert ab[i] == x && ab[|a| + j] == b[j]; }
      }
    }
    if Distinct(a) && Distinct(b) && Elements(a) !! Elements(b) {
      forall i, j | 0 <= i < j < |ab| ensures ab[i] != ab[j] {
        if i < |a| <= j { assert ab[i] in Elements(a) && ab[j] in Elements(b); }
      }
    }
  }

  /** `part` stands in `whole` at `at`. */
  ghost predicate At(whole: seq<Byte>, at: nat, part: seq<Byte>) {
    at + |part| <= |whole| && forall i :: 0 <= i < |part| ==> whole[at + i] == part[i]
  }

  lemma AtSplit(whole: seq<Byte>, at: nat, a: seq<Byte>, b: seq<Byte>)
    requires At(whole, at, a + b)
    ensures At(whole, at, a) && At(whole, at + |a|, b)
  {
    forall i | 0 <= i < |a| ensures whole[at + i] == a[i] { assert (a + b)[i] == a[i]; }
    forall i | 0 <= i < |b| ensures whole[at + |a| + i] == b[i] { assert (a + b)[|a| + i] == b[i]; }
  }

  lemma AtSlice(whole: seq<Byte>, at: nat, part: seq<Byte>)
    requires At(whole, at, part)
    ensures whole[at..at + |part|] == part
  {
  }
}
