/**
 Reading the 64-bit simulated clock through two 32-bit words, when every read is itself an access that lets time pass
 (`labwired_simctl_read64`). The clock is a function of the number of accesses made so far.
 */
module SimClock {
  import opened Prelude

  const WORD := TWO_TO_THE_32

  function High(t: nat): nat { t / WORD }

  function Low(t: nat): nat { t % WORD }

  /** What the two halves mean together. */
  function Joined(high: nat, low: nat): nat { high * WORD + low }

  lemma Halves(t: nat)
    ensures Joined(High(t), Low(t)) == t && Low(t) < 0x1_0000_0000
    ensures t < 0x1_0000_0000_0000_0000 <==> High(t) < 0x1_0000_0000
  {
  }

  lemma HighMonotone(t: nat, u: nat)
    ensures t <= u ==> High(t) <= High(u)
  {
  }

  /** Time does not go back. */
  ghost predicate Monotone(clock: nat -> nat) {
    forall i: nat, j: nat :: i <= j ==> clock(i) <= clock(j)
  }

  /** The register is 64 bits wide. */
  ghost predicate InRange(clock: nat -> nat) {
    forall i: nat :: clock(i) < 0x1_0000_0000_0000_0000
  }

  /** The pass begun at access `at` sees the high word move. */
  predicate Carried(clock: nat -> nat, at: nat) {
    High(clock(at)) != High(clock(at + 2))
  }

  /** The pass `n` times three accesses after `start` is the first that sees no carry. */
  ghost predicate FirstQuiet(clock: nat -> nat, start: nat, n: nat) {
    !Carried(clock, start + 3 * n) && AllCarried(clock, start, n)
  }

  ghost predicate AllCarried(clock: nat -> nat, start: nat, n: nat) {
    forall p: nat :: p < n ==> Carried(clock, start + 3 * p)
  }

  /** `labwired_simctl_read64`, begun when `start` accesses have been made. `next` counts the accesses afterwards. The
      value is the time at the read of the low word of the first pass without a carry, so it is never torn. If the clock
      moves by less than a full low word in the six accesses of two passes, there is at most one retry. */
  method Read64(clock: nat -> nat, start: nat) returns (value: nat, next: nat)
    requires Monotone(clock) && InRange(clock)
    ensures next >= start + 3 && value == clock(next - 2)
    ensures clock(start) <= value <= clock(next - 1)
    ensures exists n: nat :: next == start + 3 * n + 3 && FirstQuiet(clock, start, n)
    ensures next <= start + 3 * (1 + High(clock(next - 1)) - High(clock(start)))
    ensures clock(start + 5) - clock(start) < 0x1_0000_0000 ==> next <= start + 6
  {
    hide *;
    var high, low, again := Pass(clock, start);
    next := start + 3;
    ghost var n: nat := 0;
    NoPassYet(clock, start);
    while high != again
      invariant next == start + 3 * n + 3 && AllCarried(clock, start, n)
      invariant high == High(clock(next - 3)) && low == Low(clock(next - 2)) && again == High(clock(next - 1))
      invariant High(clock(start)) <= high <= again < WORD && clock(start) <= clock(next - 2) <= clock(next - 1)
      invariant high == again ==> Joined(high, low) == clock(next - 2)
      invariant next <= start + 3 * (1 + high - High(clock(start)))
      decreases WORD - high
    {
      InOrder(clock, start, next);
      OneCarryMore(clock, start, n);
      high, low, again := Pass(clock, next);
      next, n := next + 3, n + 1;
    }
    value := Joined(high, low);
    QuietAt(clock, start, n);
    AtMostOneRetry(clock, start, n);
  }

  lemma NoPassYet(clock: nat -> nat, start: nat)
    ensures AllCarried(clock, start, 0)
  {
  }

  lemma OneCarryMore(clock: nat -> nat, start: nat, n: nat)
    requires AllCarried(clock, start, n) && High(clock(start + 3 * n)) != High(clock(start + 3 * n + 2))
    ensures AllCarried(clock, start, n + 1)
  {
    hide High;
  }

  lemma QuietAt(clock: nat -> nat, start: nat, n: nat)
    requires AllCarried(clock, start, n) && High(clock(start + 3 * n)) == High(clock(start + 3 * n + 2))
    ensures FirstQuiet(clock, start, n)
  {
    hide High;
  }

  /** Two passes that both see a carry take the clock a full low word further. */
  lemma AtMostOneRetry(clock: nat -> nat, start: nat, n: nat)
    requires Monotone(clock) && AllCarried(clock, start, n)
    ensures clock(start + 5) - clock(start) < 0x1_0000_0000 ==> n <= 1
  {
    if n >= 2 {
      assert Carried(clock, start + 3 * 0) && Carried(clock, start + 3 * 1);
      HighMonotone(clock(start), clock(start + 2));
      HighMonotone(clock(start + 2), clock(start + 3));
      HighMonotone(clock(start + 3), clock(start + 5));
      HighByOne(clock(start), clock(start + 5));
      hide High;
    }
  }

  lemma InOrder(clock: nat -> nat, start: nat, next: nat)
    requires Monotone(clock) && start < next
    ensures clock(start) <= clock(next + 1) && High(clock(next - 1)) <= High(clock(next))
  {
    HighMonotone(clock(next - 1), clock(next));
  }

  /** One pass: the high word, the low word, the high word again. */
  method Pass(clock: nat -> nat, at: nat) returns (high: nat, low: nat, again: nat)
    requires Monotone(clock) && InRange(clock)
    ensures high == High(clock(at)) && low == Low(clock(at + 1)) && again == High(clock(at + 2))
    ensures high <= again < WORD && clock(at) <= clock(at + 1) <= clock(at + 2)
    ensures high == again ==> Joined(high, low) == clock(at + 1)
  {
    high, low, again := High(clock(at)), Low(clock(at + 1)), High(clock(at + 2));
    HighMonotone(clock(at), clock(at + 1));
    HighMonotone(clock(at + 1), clock(at + 2));
    Halves(clock(at + 1));
    Halves(clock(at + 2));
    hide High, Low, Joined;
  }

  /** Two reads one after the other never see time go back, and see it pass if it passed between them. */
  method ReadTwice(clock: nat -> nat, start: nat) returns (first: nat, second: nat, between: nat, next: nat)
    requires Monotone(clock) && InRange(clock)
    ensures first <= second && start + 3 <= between < next
    ensures clock(between - 2) < clock(between) ==> first < second
  {
    first, between := Read64(clock, start);
    second, next := Read64(clock, between);
    assert clock(between - 2) <= clock(between);
  }

  lemma HighByOne(t: nat, u: nat)
    ensures t <= u < t + WORD ==> High(u) <= High(t) + 1
  {
  }

  /** One read of each word gives a time of the clock exactly when no carry comes between the two reads; */
  lemma SinglePassExact(clock: nat -> nat, at: nat)
    ensures Joined(High(clock(at)), Low(clock(at + 1))) == clock(at + 1) <==> High(clock(at)) == High(clock(at + 1))
  {
    Halves(clock(at + 1));
  }

  /** and on a clock that does carry there, the joined value is a time that it passed long ago. */
  lemma SinglePassTears(clock: nat -> nat, at: nat, h: nat)
    requires clock(at) == Joined(h, WORD - 1) && clock(at + 1) == Joined(h + 1, 0)
    ensures Joined(High(clock(at)), Low(clock(at + 1))) + (WORD - 1) == clock(at)
  {
    HalvesOf(h, WORD - 1);
    HalvesOf(h + 1, 0);
  }

  lemma HalvesOf(h: nat, l: nat)
    requires l < WORD
    ensures High(Joined(h, l)) == h && Low(Joined(h, l)) == l
  {
  }

  /** The 32-bit form measures an interval, in word arithmetic, exactly when the interval is shorter than its wrap. */
  lemma ShortIntervals(t: nat, u: nat)
    requires t <= u
    ensures (Low(u) - Low(t)) % 0x1_0000_0000 == u - t <==> u - t < 0x1_0000_0000
  {
    Halves(t);
    Halves(u);
    WrapAround(Low(u) - Low(t), u - t, High(u) - High(t));
  }

  lemma WrapAround(d: int, whole: int, k: int)
    requires whole == d + k * WORD
    ensures d % WORD == whole % WORD
  {
    var q := d / WORD;
    assert whole == (q + k) * WORD + d % WORD;
  }
}
