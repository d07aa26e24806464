/** Powers, congruences and divisibility over the mathematical integers. */
module Arith {

  function Pow(b: int, e: nat): int {
    if e == 0 then 1 else b * Pow(b, e - 1)
  }

  lemma {:induction false} PowAdd(b: int, m: nat, n: nat)
    ensures Pow(b, m + n) == Pow(b, m) * Pow(b, n)
  {
    if m > 0 {
      PowAdd(b, m - 1, n);
      assert Pow(b, m + n) == b * Pow(b, m - 1 + n);
      MulAssoc(b, Pow(b, m - 1), Pow(b, n));
    }
  }

  lemma {:induction false} PowOfProduct(a: int, b: int, e: nat)
    ensures Pow(a * b, e) == Pow(a, e) * Pow(b, e)
  {
    if e > 0 {
      PowOfProduct(a, b, e - 1);
      var x, y := Pow(a, e - 1), Pow(b, e - 1);
      assert (a * b) * (x * y) == (a * x) * (b * y) by {
        MulAssoc(a, b, x * y);
        MulAssoc(b, x, y);
        MulAssoc(x, b, y);
        MulAssoc(a, x, b * y);
      }
    }
  }

  lemma {:induction false} PowPositive(b: int, e: nat)
    requires b > 0
    ensures Pow(b, e) > 0
  {
    if e > 0 {
      PowPositive(b, e - 1);
    }
  }

  lemma {:induction false} PowOne(e: nat)
    ensures Pow(1, e) == 1
  {
    if e > 0 {
      PowOne(e - 1);
    }
  }

  lemma PowNext(b: int, e: nat)
    ensures Pow(b, e + 1) == b * Pow(b, e)
  {
  }

  /** Powers of two: the weight of a bit position. */
  function Pow2(e: nat): (r: int)
    ensures r > 0
  {
    if e == 0 then 1 else 2 * Pow2(e - 1)
  }

  lemma {:induction false} Pow2Add(m: nat, n: nat)
    ensures Pow2(m + n) == Pow2(m) * Pow2(n)
  {
    if m > 0 {
      Pow2Add(m - 1, n);
      assert Pow2(m + n) == 2 * Pow2(m - 1 + n);
      MulAssoc(2, Pow2(m - 1), Pow2(n));
    }
  }

  lemma Pow2Next(n: nat)
    ensures Pow2(n + 1) == 2 * Pow2(n)
  {
  }

  lemma Pow2Zero()
    ensures Pow2(0) == 1
  {
  }

  lemma Pow2Monotone(m: nat, n: nat)
    requires m <= n
    ensures Pow2(m) <= Pow2(n)
  {
    Pow2Add(m, n - m);
    MulLe(Pow2(m), 1, Pow2(n - m));
  }

  // ----- products -----

  lemma MulAssoc(a: int, b: int, c: int)
    ensures (a * b) * c == a * (b * c)
  {
  }

  lemma MulLe(a: int, b: int, c: int)
    requires a >= 0 && b <= c
    ensures a * b <= a * c
  {
  }

  lemma MulLt(a: int, b: int, c: int)
    requires a > 0 && b < c
    ensures a * b < a * c
  {
  }

  /** a * (b + c), for the places where the solver must be handed the split. */
  lemma MulDist(a: int, b: int, c: int)
    ensures a * (b + c) == a * b + a * c
    ensures a * (b - c) == a * b - a * c
  {
  }

  // ----- division with remainder -----

  lemma Euclid(a: int, n: int)
    requires n > 0
    ensures a == n * (a / n) + a % n && 0 <= a % n < n
  {
  }

  /** Quotient and remainder are unique. */
  lemma DivModUnique(a: int, n: int, q: int, r: int)
    requires n > 0 && a == q * n + r && 0 <= r < n
    ensures a / n == q && a % n == r
  {
    var q', r' := a / n, a % n;
    assert a == n * q' + r';
    assert n * (q' - q) == r - r' by {
      MulDist(n, q', q);
    }
    if q' - q >= 1 {
      MulLe(n, 1, q' - q);
    } else if q' - q <= -1 {
      MulLe(n, q' - q, -1);
    }
  }

  lemma MultipleMod(k: int, n: int)
    requires n > 0
    ensures (k * n) % n == 0 && (k * n) / n == k
  {
    DivModUnique(k * n, n, k, 0);
  }

  // ----- congruence -----

  predicate Cong(a: int, b: int, n: int)
    requires n > 0
  {
    (a - b) % n == 0
  }

  lemma CongBy(a: int, b: int, n: int, k: int)
    requires n > 0 && a - b == k * n
    ensures Cong(a, b, n)
  {
    MultipleMod(k, n);
  }

  lemma CongQuotient(a: int, b: int, n: int) returns (k: int)
    requires n > 0 && Cong(a, b, n)
    ensures a - b == k * n
  {
    k := (a - b) / n;
  }

  lemma CongZero(a: int, n: int)
    requires n > 0
    ensures Cong(a, 0, n) <==> a % n == 0
  {
  }

  lemma CongRefl(a: int, n: int)
    requires n > 0
    ensures Cong(a, a, n)
  {
    CongBy(a, a, n, 0);
  }

  lemma CongSym(a: int, b: int, n: int)
    requires n > 0 && Cong(a, b, n)
    ensures Cong(b, a, n)
  {
    var k := CongQuotient(a, b, n);
    CongBy(b, a, n, -k);
  }

  lemma CongTrans(a: int, b: int, c: int, n: int)
    requires n > 0 && Cong(a, b, n) && Cong(b, c, n)
    ensures Cong(a, c, n)
  {
    var k := CongQuotient(a, b, n);
    var l := CongQuotient(b, c, n);
    MulDist(n, k, l);
    CongBy(a, c, n, k + l);
  }

  lemma CongMul(a: int, b: int, c: int, d: int, n: int)
    requires n > 0 && Cong(a, b, n) && Cong(c, d, n)
    ensures Cong(a * c, b * d, n)
  {
    var k := CongQuotient(a, b, n);
    var l := CongQuotient(c, d, n);
    calc {
      a * c - b * d;
      (b + k * n) * (d + l * n) - b * d;
      (b * l + k * d + k * n * l) * n;
    }
    CongBy(a * c, b * d, n, b * l + k * d + k * n * l);
  }

  lemma CongScale(a: int, b: int, c: int, n: int)
    requires n > 0 && Cong(a, b, n)
    ensures Cong(a * c, b * c, n) && Cong(c * a, c * b, n)
  {
    CongRefl(c, n);
    CongMul(a, b, c, c, n);
  }

  lemma CongAdd(a: int, b: int, c: int, d: int, n: int)
    requires n > 0 && Cong(a, b, n) && Cong(c, d, n)
    ensures Cong(a + c, b + d, n)
  {
    var k := CongQuotient(a, b, n);
    var l := CongQuotient(c, d, n);
    MulDist(n, k, l);
    CongBy(a + c, b + d, n, k + l);
  }

  lemma {:induction false} CongPow(a: int, b: int, e: nat, n: int)
    requires n > 0 && Cong(a, b, n)
    ensures Cong(Pow(a, e), Pow(b, e), n)
  {
    if e == 0 {
      CongRefl(1, n);
    } else {
      CongPow(a, b, e - 1, n);
      CongMul(a, b, Pow(a, e - 1), Pow(b, e - 1), n);
    }
  }

  lemma CongMod(a: int, n: int)
    requires n > 0
    ensures Cong(a % n, a, n)
  {
    CongBy(a % n, a, n, -(a / n));
  }

  /** A residue in [0, n) is determined by its class. */
  lemma CongUnique(a: int, b: int, n: int)
    requires n > 0 && Cong(a, b, n) && 0 <= a < n
    ensures a == b % n
  {
    var k := CongQuotient(a, b, n);
    DivModUnique(b, n, -k, a);
  }

  lemma CongIffMod(a: int, b: int, n: int)
    requires n > 0
    ensures Cong(a, b, n) <==> a % n == b % n
  {
    CongMod(a, n);
    CongMod(b, n);
    if Cong(a, b, n) {
      CongTrans(a % n, a, b, n);
      CongUnique(a % n, b, n);
    }
    if a % n == b % n {
      CongSym(a % n, a, n);
      CongTrans(a, a % n, b, n);
    }
  }

  /** An odd modulus lets a factor two be cancelled. */
  lemma CongHalve(a: int, b: int, n: int)
    requires n > 0 && n % 2 == 1 && Cong(2 * a, 2 * b, n)
    ensures Cong(a, b, n)
  {
    var k := CongQuotient(2 * a, 2 * b, n);
    var h, r, m := k / 2, k % 2, n / 2;
    assert k * n == (2 * h + r) * (2 * m + 1) == 2 * (2 * h * m + h + r * m) + r;
    assert r == 0;
    MulAssoc(2, k / 2, n);
    CongBy(a, b, n, k / 2);
  }

  lemma {:induction false} CongCancelPow2(a: int, b: int, e: nat, n: int)
    requires n > 0 && n % 2 == 1 && Cong(a * Pow2(e), b * Pow2(e), n)
    ensures Cong(a, b, n)
  {
    if e > 0 {
      assert a * Pow2(e) == 2 * (a * Pow2(e - 1));
      assert b * Pow2(e) == 2 * (b * Pow2(e - 1));
      CongHalve(a * Pow2(e - 1), b * Pow2(e - 1), n);
      CongCancelPow2(a, b, e - 1, n);
    }
  }
}
