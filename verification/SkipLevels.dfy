/**
 The levels of a static skip list: a record takes part in level i if its index is divisible by the
 i-th power of the step unit.
 */
module SkipLevels {
  import opened Multiples

  /** The distance a link of a level spans. */
  ghost function Span(step: nat, level: nat): (n: nat)
    requires step >= 2
    ensures n >= 1
  {
    if level == 0 then 1
    else
      TimesMonotone(step, 1, Span(step, level - 1));
      Times(step, Span(step, level - 1))
  }

  /** The level of the record with an index. */
  ghost function Level(n: nat, step: nat, max: nat): (level: nat)
    requires step >= 2
    ensures level <= max
  {
    if max == 0 || !Aligned(n, step) then 0 else 1 + Level(Quotient(n, step), step, max - 1)
  }

  /** A record takes part in exactly the levels whose spans divide its index. */
  lemma {:induction false} LevelDivides(n: nat, step: nat, max: nat, i: nat)
    requires step >= 2 && i <= max
    ensures i <= Level(n, step, max) <==> Aligned(n, Span(step, i))
  {
    if i == 0 {
      AlignedToOne(n);
    } else {
      SpanAligned(step, 1, i);
      SpanOne(step);
      if Aligned(n, step) {
        Divided(n, step);
        LevelDivides(Quotient(n, step), step, max - 1, i - 1);
        AlignedProduct(Quotient(n, step), step, Span(step, i - 1));
      } else if Aligned(n, Span(step, i)) {
        AlignedThrough(n, Span(step, i), step);
        assert false;
      }
    }
  }

  lemma {:induction false} AlignedToOne(n: nat)
    ensures Aligned(n, 1)
  {
    if n > 0 { AlignedToOne(n - 1); }
  }

  lemma SpanOne(step: nat)
    requires step >= 2
    ensures Span(step, 1) == step
  {
    assert Span(step, 0) == 1;
  }

  lemma {:induction false} SpanAligned(step: nat, i: nat, j: nat)
    requires step >= 2 && i <= j
    ensures Aligned(Span(step, j), Span(step, i)) && Span(step, i) <= Span(step, j)
  {
    if i == j {
      assert Aligned(0, Span(step, i));
    } else {
      SpanAligned(step, i, j - 1);
      Multiplied(Span(step, j - 1), step, Span(step, i));
    }
  }

  lemma {:induction false} Multiplied(n: nat, step: nat, a: int)
    requires a >= 1 && step >= 1 && Aligned(n, a)
    ensures Aligned(Times(step, n), a) && n <= Times(step, n)
  {
    TimesMonotone(step, n, n);
    TimesCommute(step, n);
    AlignedTimes(n, step, a);
  }

  lemma {:induction false} AlignedTimes(n: nat, k: nat, a: int)
    requires a >= 1 && Aligned(n, a)
    ensures Aligned(Times(n, k), a)
  {
    if k > 0 {
      AlignedTimes(n, k - 1, a);
      AlignedSum(n, Times(n, k - 1), a);
    }
  }

  lemma TimesCommute(a: nat, b: nat)
    ensures Times(a, b) == Times(b, a)
  {
    TimesIsProduct(a, b);
    TimesIsProduct(b, a);
  }

  /** The loop that finds the level of an index. */
  method FindLevel(index: nat, step: nat, max: nat) returns (level: nat)
    requires step >= 2
    ensures level == Level(index, step, max)
  {
    level := 0;
    var rest := index;
    Divided(rest, step);
    while level < max && rest % step == 0
      invariant 0 <= rest && Remainder(rest, step) == rest % step
      invariant 0 <= rest && level <= max && level + Level(rest, step, max - level) == Level(index, step, max)
    {
      Divided(rest, step);
      rest := rest / step;
      level := level + 1;
      Divided(rest, step);
    }
  }

  /** The loop that multiplies out the distance of a link. */
  method FindSpan(step: nat, level: nat) returns (diff: nat)
    requires step >= 2
    ensures diff == Span(step, level)
  {
    diff := 1;
    for i := 0 to level
      invariant diff == Span(step, i)
    {
      TimesIsProduct(step, diff);
      diff := step * diff;
    }
  }

  /** The digits of a number in base `step`, the last `level` of them apart from what is in front, summed up. */
  ghost function DigitSum(n: nat, step: nat, level: nat): nat
    requires step >= 2
  {
    if level == 0 then n else Remainder(n, step) + DigitSum(Quotient(n, step), step, level - 1)
  }

  /** Taking away the largest span that fits takes one off the sum. */
  lemma {:induction false} DigitSumSpan(n: nat, step: nat, i: nat, max: nat)
    requires step >= 2 && i <= max
    requires n >= Span(step, i) && (i < max ==> n < Span(step, i + 1))
    ensures DigitSum(n, step, max) == 1 + DigitSum(n - Span(step, i), step, max)
  {
    if max > 0 {
      var q := Quotient(n, step);
      if i == 0 {
        SpanOne(step);
      } else {
        DividedMinus(n, step, Span(step, i - 1));
        if i < max { QuotientBelow(n, step, Span(step, i)); }
        DigitSumSpan(q, step, i - 1, max - 1);
      }
    }
  }

  lemma QuotientBelow(n: nat, step: nat, t: nat)
    requires step >= 2 && n < Times(step, t)
    ensures Quotient(n, step) < t
  {
    Divided(n, step);
    TimesMonotone(step, t, Quotient(n, step));
  }

  lemma {:induction false} DigitSumZero(step: nat, max: nat)
    requires step >= 2
    ensures DigitSum(0, step, max) == 0
  {
    if max > 0 { DigitSumZero(step, max - 1); }
  }

  /** Spans are the powers of the step unit, */
  lemma SpanIs(step: nat, level: nat)
    requires step >= 2
    ensures Span(step, 0) == 1 && Span(step, level + 1) == step * Span(step, level)
  {
    TimesIsProduct(step, Span(step, level));
  }

  /** levels count those that divide an index without rest, */
  lemma LevelIs(n: nat, step: nat, max: nat, i: nat)
    requires step >= 2
    ensures i <= Level(n, step, max) <==> i <= max && n % Span(step, i) == 0
  {
    if i <= max { LevelDivides(n, step, max, i); }
    AlignedHasNoRest(n, Span(step, i));
  }

  /** and digits are the rests of repeated division. */
  lemma DigitSumIs(n: nat, step: nat, level: nat)
    requires step >= 2
    ensures DigitSum(n, step, 0) == n
    ensures DigitSum(n, step, level + 1) == n % step + DigitSum(n / step, step, level)
  {
    Divided(n, step);
  }
}
