/**
 Divisibility, defined by subtraction so that proofs about offsets and indices stay linear.
 */
module Multiples {
  /** `n` is so many times `a`; negative numbers do not count. */
  ghost predicate Aligned(n: int, a: int)
    requires a >= 1
    decreases if n < 0 then 0 else n
  {
    if n < a then n == 0 else Aligned(n - a, a)
  }

  lemma TimesDifference(a: int, d: int)
    requires a >= 1
    ensures d >= 1 ==> a * d >= a
    ensures d <= -1 ==> a * d <= -a
  {
  }

  lemma TimesOrder(a: int, p: int, q: int)
    requires a >= 1
    ensures p <= q ==> a * p <= a * q
    ensures p < q ==> a * p + a <= a * q
    ensures p < q <==> a * p < a * q
  {
    TimesDifference(a, q - p);
    assert a * q - a * p == a * (q - p);
  }

  lemma TimesSum(a: int, p: int, q: int)
    ensures a * (p + q) == a * p + a * q && a * (p - q) == a * p - a * q
  {
  }

  lemma DivMod(n: nat, a: int)
    requires a >= 1
    ensures n == a * (n / a) + n % a && 0 <= n % a < a && n / a >= 0
  {
  }

  /** Quotient and remainder are the only ones there are. */
  lemma DivIs(n: nat, a: int, q: int, r: int)
    requires a >= 1 && n == a * q + r && 0 <= r < a
    ensures n / a == q && n % a == r
  {
    DivMod(n, a);
    TimesOrder(a, q, n / a);
    TimesOrder(a, n / a, q);
  }

  lemma {:induction false} AlignedSum(n: nat, m: nat, a: int)
    requires a >= 1 && Aligned(n, a) && Aligned(m, a)
    ensures Aligned(n + m, a)
    decreases n
  {
    if n >= a { AlignedSum(n - a, m, a); }
  }

  /** Between a multiple and the next one there is none. */
  lemma {:induction false} AlignedGap(n: nat, m: nat, a: int)
    requires a >= 1 && Aligned(n, a) && Aligned(m, a) && n < m
    ensures n + a <= m
    decreases n
  {
    if n >= a { AlignedGap(n - a, m - a, a); }
  }

  lemma {:induction false} AlignedThrough(n: nat, b: int, a: int)
    requires a >= 1 && b >= 1 && Aligned(b, a) && Aligned(n, b)
    ensures Aligned(n, a)
    decreases n
  {
    if n >= b {
      AlignedThrough(n - b, b, a);
      AlignedSum(n - b, b, a);
    }
  }

  // ---------------------------------------------------------------- products

  /** The product as a repeated sum. */
  ghost function Times(a: nat, n: nat): (p: nat)
    ensures n == 0 ==> p == 0
    ensures n >= 1 ==> p >= a
  {
    if n == 0 then 0 else a + Times(a, n - 1)
  }

  lemma {:induction false} TimesIsProduct(a: nat, n: nat)
    ensures Times(a, n) == a * n
  {
    if n > 0 {
      TimesIsProduct(a, n - 1);
      TimesSum(a, n - 1, 1);
    }
  }

  lemma {:induction false} TimesMonotone(a: nat, p: nat, q: nat)
    requires a >= 1
    ensures p <= q <==> Times(a, p) <= Times(a, q)
    ensures Times(a, p) >= p
  {
    if p > 0 && q > 0 {
      TimesMonotone(a, p - 1, q - 1);
    } else if p > 0 {
      TimesMonotone(a, p - 1, q);
    }
  }

  lemma {:induction false} TimesPlus(a: nat, p: nat, q: nat)
    ensures Times(a, p + q) == Times(a, p) + Times(a, q)
  {
    if q > 0 { TimesPlus(a, p, q - 1); }
  }

  /** Multiples of a product are the multiples of one factor whose quotients are multiples of the other. */
  lemma {:induction false} AlignedProduct(q: nat, a: nat, t: nat)
    requires a >= 1 && t >= 1
    ensures Aligned(Times(a, q), Times(a, t)) <==> Aligned(q, t)
    decreases q
  {
    TimesMonotone(a, t, q);
    TimesMonotone(a, 1, q);
    if q >= t {
      AlignedProduct(q - t, a, t);
      TimesPlus(a, q - t, t);
    }
  }

  // ---------------------------------------------------------------- quotient and remainder

  ghost function Quotient(n: nat, a: int): (q: nat)
    requires a >= 1
    ensures q <= n
    decreases n
  {
    if n < a then 0 else 1 + Quotient(n - a, a)
  }

  ghost function Remainder(n: nat, a: int): (r: nat)
    requires a >= 1
    ensures r < a && (r == 0 <==> Aligned(n, a))
    decreases n
  {
    if n < a then n else Remainder(n - a, a)
  }

  lemma {:induction false} Divided(n: nat, a: nat)
    requires a >= 1
    ensures Quotient(n, a) == n / a && Remainder(n, a) == n % a
    ensures n == Times(a, Quotient(n, a)) + Remainder(n, a)
    decreases n
  {
    if n < a {
      DivIs(n, a, 0, n);
    } else {
      Divided(n - a, a);
      TimesIsProduct(a, Quotient(n, a));
      DivIs(n, a, Quotient(n, a), Remainder(n, a));
    }
  }

  lemma AlignedHasNoRest(n: nat, a: nat)
    requires a >= 1
    ensures Aligned(n, a) <==> n % a == 0
  {
    Divided(n, a);
  }

  /** Taking a multiple away from a number takes as much from the quotient and nothing from the remainder. */
  lemma {:induction false} DividedMinus(n: nat, a: nat, s: nat)
    requires a >= 1 && Times(a, s) <= n
    ensures s <= Quotient(n, a)
    ensures Quotient(n - Times(a, s), a) == Quotient(n, a) - s && Remainder(n - Times(a, s), a) == Remainder(n, a)
    decreases s
  {
    if s > 0 { DividedMinus(n - a, a, s - 1); }
  }

  /** The last multiple below a positive number. */
  ghost function LastMultiple(n: nat, a: int): (m: nat)
    requires a >= 1 && n > 0
    ensures m < n
  {
    RemainderAtMost(n - 1, a);
    n - 1 - Remainder(n - 1, a)
  }

  lemma {:induction false} RemainderAtMost(n: nat, a: int)
    requires a >= 1
    ensures Remainder(n, a) <= n
    decreases n
  {
    if n >= a { RemainderAtMost(n - a, a); }
  }

  /** Before a multiple it is the one a step back, otherwise the same as for the number below. */
  lemma {:induction false} LastMultipleStep(n: nat, a: int)
    requires a >= 1
    ensures Aligned(n, a) ==> LastMultiple(n + 1, a) == n
    ensures Aligned(n, a) && n > 0 ==> n >= a && LastMultiple(n, a) == n - a
    ensures !Aligned(n, a) ==> n > 0 && LastMultiple(n + 1, a) == LastMultiple(n, a)
    decreases n
  {
    if n >= a {
      LastMultipleStep(n - a, a);
      if n == a {
        assert Remainder(n - 1, a) == a - 1;
      }
    }
  }

  /** The last multiple below a number is one, and behind it there is none. */
  lemma {:induction false} LastMultipleIs(n: nat, a: int, m: nat)
    requires a >= 1 && n > 0 && m == LastMultiple(n, a)
    ensures Aligned(m, a) && forall x: nat :: m < x < n ==> !Aligned(x, a)
    decreases n
  {
    LastMultipleStep(n - 1, a);
    if n > 1 && !Aligned(n - 1, a) { LastMultipleIs(n - 1, a, m); }
  }
}
