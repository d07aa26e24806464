/** mbedtls_int_div_int: two limbs divided by one. */
module LimbDivision {
  import opened Arith
  import opened Limbs
  import opened MpiBase

  /** The branch with a double-width type. */
  method IntDivIntWide(u1: limb, u0: limb, d: limb) returns (quotient: limb, r: limb)
    ensures d == 0 || u1 >= d ==> quotient == BETA - 1 && r == BETA - 1
    ensures u1 < d ==> quotient == (u1 * BETA + u0) / d && r == (u1 * BETA + u0) % d
  {
    if d == 0 || u1 >= d {
      return BETA - 1, BETA - 1;
    }
    var dividend := u1 * BETA + u0;
    var q := dividend / d;
    assert q < BETA by {
      if q >= BETA {
        MulLe(d, BETA, q);
        MulLe(BETA, u1 + 1, d);
      }
    }
    if q > BETA - 1 {
      q := BETA - 1;
    }
    return q, dividend - q * d;
  }

  /** What a quotient digit is compared with: the test of the source, on half limbs,
      says exactly whether the digit is too large for the whole divisor. */
  lemma DigitTest(u: int, m: int, d1: int, d0: int, q: int, r: int)
    requires r == u - d1 * q
    ensures q * d0 > RADIX * r + m <==> q * (d1 * RADIX + d0) > u * RADIX + m
  {
    calc {
      q * (d1 * RADIX + d0) - (u * RADIX + m);
      { MulDist(q, d1 * RADIX, d0); MulAssoc(q, d1, RADIX); }
      RADIX * (d1 * q - u) + q * d0 - m;
      q * d0 - (RADIX * r + m);
    }
  }

  lemma QuotientBelow(n: nat, d: int, q: int)
    requires d > 0
    ensures q * d > n ==> q > n / d
    ensures q * d <= n ==> q <= n / d
  {
    var t := n / d;
    assert n == d * t + n % d;
    if q * d > n && q <= t {
      MulLe(d, q, t);
    }
    if q * d <= n && q > t {
      MulLe(d, t + 1, q);
      MulDist(d, t, 1);
    }
  }

  /** u < d keeps the digit below the half-limb radix. */
  lemma DigitBelowRadix(u: int, m: int, d: int)
    requires 0 <= u < d && 0 <= m < RADIX
    ensures 0 <= (u * RADIX + m) / d < RADIX
  {
    var n := u * RADIX + m;
    assert RADIX * d > n;
    QuotientBelow(n, d, RADIX);
  }

  /** The guess from the upper half of the divisor is never too small. */
  lemma GuessAbove(u: int, m: int, d1: int, d0: int)
    requires u >= 0 && d1 > 0 && d0 >= 0 && 0 <= m < RADIX
    ensures (u * RADIX + m) / (d1 * RADIX + d0) <= u / d1
  {
    var g, n, d := u / d1, u * RADIX + m, d1 * RADIX + d0;
    assert u + 1 <= (g + 1) * d1;
    assert (g + 1) * (d1 * RADIX) == (g + 1) * d1 * RADIX;
    MulLe(g + 1, d1 * RADIX, d);
    assert (g + 1) * d > n;
    QuotientBelow(n, d, g + 1);
  }

  /** With a normalised divisor the guess is at most one past the radix. */
  lemma GuessBound(u: int, d1: int, d0: int)
    requires 0 <= u < d1 * RADIX + d0 && d0 < RADIX <= 2 * d1
    ensures u / d1 <= RADIX + 1
  {
    assert (RADIX + 2) * d1 == d1 * RADIX + 2 * d1;
    QuotientBelow(u, d1, RADIX + 2);
  }

  /** The loop condition of the source means the digit is too large... */
  lemma DigitTooLarge(u: int, m: int, d1: int, d0: int, q: int, r: int)
    requires r == u - d1 * q && 0 <= u < d1 * RADIX + d0 && 0 <= m < RADIX
    requires q >= RADIX || q * d0 > RADIX * r + m
    ensures q > (u * RADIX + m) / (d1 * RADIX + d0)
  {
    var d, n := d1 * RADIX + d0, u * RADIX + m;
    DigitBelowRadix(u, m, d);
    if q < RADIX {
      DigitTest(u, m, d1, d0, q, r);
      QuotientBelow(n, d, q);
    }
  }

  /** ...and its failure, or a partial remainder past the radix, means that it is not. */
  lemma DigitNotTooLarge(u: int, m: int, d1: int, d0: int, q: int, r: int)
    requires r == u - d1 * q && 0 <= u < d1 * RADIX + d0 && 0 <= m && 0 <= d0 < RADIX && 0 <= q <= RADIX
    requires r >= RADIX || q * d0 <= RADIX * r + m
    ensures q <= (u * RADIX + m) / (d1 * RADIX + d0)
  {
    if r >= RADIX {
      MulLe(q, d0, RADIX);
      MulLe(RADIX, q, RADIX);
      MulLe(RADIX, RADIX, r);
    }
    DigitTest(u, m, d1, d0, q, r);
    QuotientBelow(u * RADIX + m, d1 * RADIX + d0, q);
  }

  /** Truncation to a limb. */
  function Wrap(x: int): (y: limb)
    ensures 0 <= x < BETA ==> y == x
  {
    x % BETA
  }

  /** The correction test in wrapping arithmetic. */
  predicate CorrectionNeeded(q: limb, d0: limb, r0: limb, m: limb) {
    q >= RADIX || Wrap(q * d0) > Wrap(RADIX * r0 + m)
  }

  /** Nothing wraps while the operands of the test are half limbs. */
  lemma CorrectionExact(q: limb, d0: limb, r0: limb, m: limb)
    requires d0 < RADIX && r0 < RADIX && m < RADIX
    ensures CorrectionNeeded(q, d0, r0, m) <==> q >= RADIX || q * d0 > RADIX * r0 + m
  {
    if q < RADIX {
      MulLe(q, d0, RADIX);
    }
  }

  /** One turn of the correction loop. */
  method CorrectDigit(u: limb, m: limb, d1: limb, d0: limb, q: limb, r0: limb) returns (q': limb, r': limb)
    requires m < RADIX && d0 < RADIX && 0 < d1 < RADIX && u < d1 * RADIX + d0 && r0 < RADIX
    requires r0 == u - d1 * q && CorrectionNeeded(q, d0, r0, m) && q <= RADIX + 1
    ensures q' == q - 1 && r' == u - d1 * q' && r' >= r0
    ensures q' >= (u * RADIX + m) / (d1 * RADIX + d0)
  {
    CorrectionExact(q, d0, r0, m);
    DigitTooLarge(u, m, d1, d0, q, r0);
    DigitBelowRadix(u, m, d1 * RADIX + d0);
    MulDist(d1, q, 1);
    q' := q - 1;
    r' := Wrap(r0 + d1);
  }

  /** One quotient digit: guess by the upper half of the divisor, then correct downwards. */
  method HalfDigit(u: limb, m: limb, d1: limb, d0: limb) returns (q: limb)
    requires m < RADIX && d0 < RADIX && d1 < RADIX <= 2 * d1 && u < d1 * RADIX + d0
    ensures q == (u * RADIX + m) / (d1 * RADIX + d0) < RADIX
  {
    ghost var t := (u * RADIX + m) / (d1 * RADIX + d0);
    assert 0 <= t < RADIX && t <= u / d1 <= RADIX + 1 by {
      DigitBelowRadix(u, m, d1 * RADIX + d0);
      GuessAbove(u, m, d1, d0);
      GuessBound(u, d1, d0);
    }
    q := u / d1;
    assert 0 <= u - d1 * q < d1;
    var r0 := Wrap(u - d1 * q);
    q, r0 := CorrectionLoop(u, m, d1, d0, q, r0);
    DigitNotTooLarge(u, m, d1, d0, q, r0);
  }

  /** The correction loop: it stops at the first digit that is not too large. */
  method CorrectionLoop(u: limb, m: limb, d1: limb, d0: limb, guess: limb, rest: limb) returns (q: limb, r0: limb)
    requires m < RADIX && d0 < RADIX && 0 < d1 < RADIX && u < d1 * RADIX + d0
    requires (u * RADIX + m) / (d1 * RADIX + d0) <= guess <= RADIX + 1 && rest == u - d1 * guess < RADIX
    ensures (u * RADIX + m) / (d1 * RADIX + d0) <= q <= RADIX && r0 == u - d1 * q
    ensures r0 >= RADIX || q * d0 <= RADIX * r0 + m
  {
    q, r0 := guess, rest;
    while CorrectionNeeded(q, d0, r0, m)
      invariant (u * RADIX + m) / (d1 * RADIX + d0) <= q <= RADIX + 1
      invariant r0 == u - d1 * q && r0 < RADIX
      decreases q
    {
      q, r0 := CorrectDigit(u, m, d1, d0, q, r0);
      if r0 >= RADIX {
        return;
      }
    }
    CorrectionExact(q, d0, r0, m);
  }

  /** The normalising shift of the dividend; for s == 0 the source masks the out-of-range shift away. */
  lemma NormalizedDividend(u1: limb, u0: limb, s: nat)
    requires s < BIL && u1 < Pow2(BIL - s)
    ensures var c := if s == 0 then 0 else u0 / Pow2(BIL - s);
            var h := (u1 * Pow2(s)) % BETA + c;
            var l := (u0 * Pow2(s)) % BETA;
            0 <= h < BETA && h * BETA + l == (u1 * BETA + u0) * Pow2(s)
  {
    if s == 0 {
      assert Pow2(0) == 1;
    } else {
      hide Pow2;
      var a, b := Pow2(s), Pow2(BIL - s);
      assert a * b == BETA by {
        Pow2Limb();
        Pow2Add(s, BIL - s);
      }
      DividendSplit(u1, u0, a, b);
    }
  }

  lemma DividendSplit(u1: limb, u0: limb, a: int, b: int)
    requires a > 0 && b > 0 && a * b == BETA && u1 < b
    ensures var h, l := (u1 * a) % BETA + u0 / b, (u0 * a) % BETA;
            0 <= h < BETA && h * BETA + l == (u1 * BETA + u0) * a
  {
    ShiftedHigh(u1, a, b);
    ShiftedLow(u0, a, b);
    MulDist(a, u1 * BETA, u0);
    MulAssoc(a, u1, BETA);
  }

  lemma ShiftedHigh(x: limb, a: int, b: int)
    requires a > 0 && b > 0 && a * b == BETA && x < b
    ensures (x * a) % BETA == x * a <= BETA - a
  {
    MulLe(a, x, b - 1);
    MulDist(a, b, 1);
  }

  lemma ShiftedLow(x: limb, a: int, b: int)
    requires a > 0 && b > 0 && a * b == BETA
    ensures 0 <= x / b < a && x * a == (x / b) * BETA + (x * a) % BETA
  {
    var hi, lo, y := x / b, x % b, x * a;
    assert x == b * hi + lo && 0 <= lo < b;
    ShiftedParts(x, a, b, hi, lo);
    DivModUnique(y, BETA, hi, lo * a);
  }

  lemma ShiftedParts(x: limb, a: int, b: int, hi: int, lo: int)
    requires a > 0 && b > 0 && a * b == BETA && x == b * hi + lo && 0 <= lo < b
    ensures 0 <= hi < a && x * a == hi * BETA + lo * a && 0 <= lo * a < BETA
  {
    if hi >= a {
      MulLe(b, a, hi);
    }
    if hi < 0 {
      MulLe(b, hi, -1);
    }
    MulLe(a, 0, lo);
    MulLe(a, lo, b - 1);
    MulDist(a, b, 1);
    MulDist(a, b * hi, lo);
    MulAssoc(a, b, hi);
  }

  /** A limb shifted up by its leading zeros has its top bit set and loses nothing. */
  lemma NormalizedDivisor(d: limb, s: nat)
    requires d > 0 && s == BIL - BitLen(d)
    ensures s < BIL && d < Pow2(BIL - s)
    ensures (d * Pow2(s)) % BETA == d * Pow2(s)
    ensures BETA / 2 <= d * Pow2(s) < BETA
  {
    BitLenBound(d);
    HalfBase(s);
    ScaleInto(d, Pow2(s), Pow2(BIL - s - 1));
  }

  lemma HalfBase(s: nat)
    requires s < BIL
    ensures Pow2(s) * Pow2(BIL - s - 1) == BETA / 2
  {
    Pow2Limb();
    Pow2Add(s, BIL - s - 1);
    assert Pow2(BIL) == 2 * Pow2(BIL - 1);
  }

  lemma ScaleInto(d: limb, a: int, b: int)
    requires a > 0 && b > 0 && a * b == BETA / 2 && b <= d < 2 * b
    ensures BETA / 2 <= d * a < BETA
  {
    MulLe(a, b, d);
    MulLe(a, d + 1, 2 * b);
    MulDist(a, d, 1);
    MulAssoc(2, b, a);
  }

  /** Two digits of a quotient, put together. */
  lemma TwoDigits(u: int, m: int, l: int, d: int, q1: int, q0: int, x: int)
    requires d > 0
    requires q1 == (u * RADIX + m) / d && x == (u * RADIX + m) % d
    requires q0 == (x * RADIX + l) / d
    ensures (u * RADIX + m) * RADIX + l == (q1 * RADIX + q0) * d + (x * RADIX + l) % d
  {
    assert u * RADIX + m == d * q1 + x;
    assert x * RADIX + l == d * q0 + (x * RADIX + l) % d;
    MulDist(d, q1 * RADIX, q0);
    MulAssoc(d, q1, RADIX);
  }

  /** Undoing the normalisation: the quotient is that of the original operands, the remainder scaled. */
  lemma Denormalize(n: int, d: int, a: int, q: int, r: int)
    requires d > 0 && a > 0 && n * a == q * (d * a) + r && 0 <= r < d * a
    ensures q == n / d && r / a == n % d
  {
    var t := n - q * d;
    assert r == t * a by {
      MulAssoc(q, d, a);
      MulDist(a, n, q * d);
    }
    if t < 0 {
      MulLe(a, t, -1);
    }
    if t >= d {
      MulLe(a, d, t);
    }
    DivModUnique(n, d, q, t);
    MultipleMod(t, a);
  }

  /** The partial remainder after a digit, computed modulo BETA, is the true one. */
  lemma PartialRemainder(u: limb, m: limb, d: limb, q: limb)
    requires d > 0 && m < RADIX && q == (u * RADIX + m) / d
    ensures Wrap(u * RADIX + (m - q * d)) == (u * RADIX + m) % d
  {
    var n := u * RADIX + m;
    assert n == d * q + n % d;
  }

  /** Divisor and dividend shifted left until the divisor's top bit is set. */
  method NormalizeOperands(u1: limb, u0: limb, d: limb) returns (s: nat, un1: limb, un0: limb, dn: limb)
    requires u1 < d
    ensures s < BIL && dn == d * Pow2(s) && dn >= BETA / 2
    ensures un1 < dn && un1 * BETA + un0 == (u1 * BETA + u0) * Pow2(s)
  {
    hide Pow2;
    s := Clz(d);
    NormalizedDivisor(d, s);
    NormalizedDividend(u1, u0, s);
    dn := (d * Pow2(s)) % BETA;
    un1 := (u1 * Pow2(s)) % BETA + if s == 0 then 0 else u0 / Pow2(BIL - s);
    un0 := (u0 * Pow2(s)) % BETA;
    NormalizedBelow(u1, u0, d, Pow2(s), un1, un0);
  }

  /** The branch without a double-width type: Algorithm D of Knuth's section 4.3.1 on half limbs. */
  method IntDivInt(u1: limb, u0: limb, d: limb) returns (quotient: limb, r: limb)
    ensures d == 0 || u1 >= d ==> quotient == BETA - 1 && r == BETA - 1
    ensures u1 < d ==> quotient == (u1 * BETA + u0) / d && r == (u1 * BETA + u0) % d
  {
    if d == 0 || u1 >= d {
      return BETA - 1, BETA - 1;
    }
    var s, un1, un0, dn := NormalizeOperands(u1, u0, d);
    var rem: limb;
    quotient, rem := DivNormalized(un1, un0, dn);
    Denormalize(u1 * BETA + u0, d, Pow2(s), quotient, rem);
    ShrinkRemainder(rem, Pow2(s));
    r := rem / Pow2(s);
  }

  lemma NormalizedBelow(u1: limb, u0: limb, d: limb, a: int, h: int, l: int)
    requires a > 0 && u1 < d && 0 <= l && h * BETA + l == (u1 * BETA + u0) * a
    ensures h < d * a
  {
    MulLt(a, u1 * BETA + u0, d * BETA);
    assert (d * BETA) * a == (d * a) * BETA;
  }

  lemma ShrinkRemainder(r: limb, a: int)
    requires a > 0
    ensures 0 <= r / a < BETA
  {
    var q := r / a;
    assert r == a * q + r % a;
    if q > r {
      MulLe(q, 1, a);
    }
  }

  /** The two quotient digits for a divisor with its top bit set. */
  method DivNormalized(u1: limb, u0: limb, d: limb) returns (quotient: limb, rem: limb)
    requires d >= BETA / 2 && u1 < d
    ensures u1 * BETA + u0 == quotient * d + rem && rem < d
  {
    var d1, d0 := d / RADIX, d % RADIX;
    var msw, lsw := u0 / RADIX, u0 % RADIX;
    assert d == d1 * RADIX + d0 && u0 == msw * RADIX + lsw;
    var q1 := HalfDigit(u1, msw, d1, d0);
    PartialRemainder(u1, msw, d, q1);
    var rAX := Wrap(u1 * RADIX + (msw - q1 * d));
    var q0 := HalfDigit(rAX, lsw, d1, d0);
    PartialRemainder(rAX, lsw, d, q0);
    rem := Wrap(rAX * RADIX + (lsw - q0 * d));
    TwoDigits(u1, msw, lsw, d, q1, q0, rAX);
    quotient := Wrap(q1 * RADIX + q0);
  }
}
