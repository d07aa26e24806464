/** Greatest common divisors, primes, and Fermat's little theorem. */
module NumberTheory {
  import opened Arith

  // ----- divisibility -----

  predicate Divides(d: nat, a: int) {
    if d == 0 then a == 0 else a % d == 0
  }

  lemma DividesBy(d: nat, a: int, k: int)
    requires a == k * d
    ensures Divides(d, a)
  {
    if d > 0 {
      MultipleMod(k, d);
    }
  }

  lemma DividesQuotient(d: nat, a: int) returns (k: int)
    requires Divides(d, a)
    ensures a == k * d
  {
    k := if d == 0 then 0 else a / d;
  }

  lemma DividesSum(d: nat, a: int, b: int, x: int, y: int)
    requires Divides(d, a) && Divides(d, b)
    ensures Divides(d, x * a + y * b)
  {
    var k := DividesQuotient(d, a);
    var l := DividesQuotient(d, b);
    assert x * a + y * b == (x * k + y * l) * d by {
      MulAssoc(x, k, d);
      MulAssoc(y, l, d);
      MulDist(d, x * k, y * l);
    }
    DividesBy(d, x * a + y * b, x * k + y * l);
  }

  lemma DividesTrans(d: nat, e: nat, a: int)
    requires Divides(d, e) && Divides(e, a)
    ensures Divides(d, a)
  {
    var k := DividesQuotient(d, e);
    var l := DividesQuotient(e, a);
    MulAssoc(l, k, d);
    DividesBy(d, a, l * k);
  }

  lemma DividesAntisym(d: nat, e: nat)
    requires Divides(d, e) && Divides(e, d)
    ensures d == e
  {
    var k := DividesQuotient(d, e);
    var l := DividesQuotient(e, d);
    if d > 0 && e > 0 {
      if k <= 0 {
        MulLe(d, k, 0);
      }
      if l <= 0 {
        MulLe(e, l, 0);
      }
      MulLe(d, 1, k);
      MulLe(e, 1, l);
    }
  }

  // ----- greatest common divisor -----

  /** Euclid's algorithm, as the definition. */
  function Gcd(a: nat, b: nat): (g: nat)
    decreases b
  {
    if b == 0 then a else Gcd(b, a % b)
  }

  lemma {:induction false} GcdDivides(a: nat, b: nat)
    ensures Divides(Gcd(a, b), a) && Divides(Gcd(a, b), b)
    decreases b
  {
    var g := Gcd(a, b);
    if b == 0 {
      DividesBy(g, a, 1);
      DividesBy(g, 0, 0);
    } else {
      GcdDivides(b, a % b);
      DividesSum(g, b, a % b, a / b, 1);
      assert a == (a / b) * b + 1 * (a % b);
    }
  }

  lemma {:induction false} GcdGreatest(a: nat, b: nat, d: nat)
    requires Divides(d, a) && Divides(d, b)
    ensures Divides(d, Gcd(a, b))
    decreases b
  {
    if b > 0 {
      DividesSum(d, a, b, 1, -(a / b));
      assert a % b == 1 * a + -(a / b) * b;
      GcdGreatest(b, a % b, d);
    }
  }

  /** Pairs with the same common divisors have the same greatest one. */
  lemma GcdSame(a: nat, b: nat, c: nat, d: nat)
    requires forall k: nat :: Divides(k, a) && Divides(k, b) <==> Divides(k, c) && Divides(k, d)
    ensures Gcd(a, b) == Gcd(c, d)
  {
    var g, h := Gcd(a, b), Gcd(c, d);
    GcdDivides(a, b);
    GcdDivides(c, d);
    GcdGreatest(c, d, g);
    GcdGreatest(a, b, h);
    DividesAntisym(g, h);
  }

  lemma GcdSymmetric(a: nat, b: nat)
    ensures Gcd(a, b) == Gcd(b, a)
  {
    GcdSame(a, b, b, a);
  }

  lemma GcdSubtract(a: nat, b: nat)
    requires b <= a
    ensures Gcd(a, b) == Gcd(a - b, b)
  {
    forall k: nat
      ensures Divides(k, a) && Divides(k, b) <==> Divides(k, a - b) && Divides(k, b)
    {
      if Divides(k, a) && Divides(k, b) {
        DividesSum(k, a, b, 1, -1);
      }
      if Divides(k, a - b) && Divides(k, b) {
        DividesSum(k, a - b, b, 1, 1);
      }
    }
    GcdSame(a, b, a - b, b);
  }

  lemma {:induction false} GcdScale(k: nat, a: nat, b: nat)
    ensures k * a >= 0 && k * b >= 0 && Gcd(k * a, k * b) == k * Gcd(a, b)
    decreases b
  {
    MulLe(k, 0, a);
    MulLe(k, 0, b);
    if b == 0 {
      assert k * b == 0;
    } else if k == 0 {
      assert k * a == 0 && k * b == 0 && k * Gcd(a, b) == 0;
    } else {
      MulLt(k, 0, b);
      assert k * a == (a / b) * (k * b) + k * (a % b) by {
        MulAssoc(a / b, k, b);
        MulAssoc(k, a / b, b);
        MulDist(k, (a / b) * b, a % b);
      }
      MulLt(k, a % b, b);
      MulLe(k, 0, a % b);
      DivModUnique(k * a, k * b, a / b, k * (a % b));
      GcdScale(k, b, a % b);
    }
  }

  /** An odd divisor of an even number divides its half. */
  lemma OddDividesHalf(d: nat, a: int)
    requires d % 2 == 1 && Divides(d, 2 * a)
    ensures Divides(d, a)
  {
    CongHalve(a, 0, d);
  }

  lemma OddDivisor(d: nat, g: nat)
    requires Divides(d, g) && g % 2 == 1
    ensures d % 2 == 1
  {
    var k := DividesQuotient(d, g);
    var h, r := d / 2, d % 2;
    assert g == 2 * (k * h) + k * r by {
      MulDist(k, 2 * h, r);
    }
  }

  /** Halving one argument leaves an odd gcd alone. */
  lemma GcdHalve(a: nat, b: nat)
    requires Gcd(2 * a, b) % 2 == 1
    ensures Gcd(a, b) == Gcd(2 * a, b)
  {
    forall k: nat
      ensures Divides(k, a) && Divides(k, b) <==> Divides(k, 2 * a) && Divides(k, b)
    {
      if Divides(k, a) {
        DividesSum(k, a, a, 1, 1);
      }
      if Divides(k, 2 * a) && Divides(k, b) {
        GcdGreatest(2 * a, b, k);
        OddDivisor(k, Gcd(2 * a, b));
        OddDividesHalf(k, a);
      }
    }
    GcdSame(a, b, 2 * a, b);
  }

  lemma {:induction false} GcdOddPart(a: nat, j: nat, b: nat)
    requires Gcd(a * Pow2(j), b) % 2 == 1
    ensures Gcd(a, b) == Gcd(a * Pow2(j), b)
  {
    if j > 0 {
      assert a * Pow2(j) == 2 * (a * Pow2(j - 1));
      MulLe(a, 0, Pow2(j - 1));
      GcdHalve(a * Pow2(j - 1), b);
      GcdOddPart(a, j - 1, b);
    }
  }

  /** Bezout coefficients. */
  lemma {:induction false} Bezout(a: nat, b: nat) returns (x: int, y: int)
    ensures x * a + y * b == Gcd(a, b)
    decreases b
  {
    if b == 0 {
      x, y := 1, 0;
    } else {
      var u, v := Bezout(b, a % b);
      x, y := v, u - v * (a / b);
      calc {
        v * a + (u - v * (a / b)) * b;
        { MulDist(b, u, v * (a / b)); MulAssoc(v, a / b, b); }
        v * a + u * b - v * ((a / b) * b);
        { MulDist(v, a, (a / b) * b); }
        u * b + v * (a % b);
      }
    }
  }

  // ----- primes -----

  ghost predicate Prime(p: int) {
    p > 1 && forall d: nat :: 1 < d < p ==> !Divides(d, p)
  }

  lemma DividesBound(d: nat, a: int)
    requires Divides(d, a) && a > 0
    ensures 0 < d <= a
  {
    var k := DividesQuotient(d, a);
    if k <= 0 {
      MulLe(d, k, 0);
    }
    MulLe(d, 1, k);
  }

  lemma CoprimeTimes(x: int, p: int, z: int, a: int, b: int)
    requires x * p + z * a == 1
    ensures b == (x * b) * p + z * (a * b)
  {
    MulAssoc(x, b, p);
    MulAssoc(x, p, b);
    MulAssoc(z, a, b);
    MulDist(b, x * p, z * a);
  }

  /** Euclid's lemma. */
  lemma PrimeDividesProduct(p: int, a: int, b: int)
    requires Prime(p) && Divides(p, a * b)
    ensures Divides(p, a) || Divides(p, b)
  {
    var m: nat := if a < 0 then -a else a;
    var g := Gcd(p, m);
    GcdDivides(p, m);
    DividesBound(g, p);
    if g == p {
      DividesSum(p, m, m, if a < 0 then -1 else 1, 0);
    } else {
      assert g == 1;
      var x, y := Bezout(p, m);
      var z := if a < 0 then -y else y;
      CoprimeTimes(x, p, z, a, b);
      DividesBy(p, p, 1);
      DividesSum(p, p, a * b, x * b, z);
    }
  }

  // ----- binomial coefficients -----

  function Choose(n: nat, k: nat): nat {
    if k == 0 then 1 else if n == 0 then 0 else Choose(n - 1, k - 1) + Choose(n - 1, k)
  }

  lemma {:induction false} ChooseBeyond(n: nat, k: nat)
    requires k > n
    ensures Choose(n, k) == 0
  {
    if n > 0 {
      ChooseBeyond(n - 1, k - 1);
      ChooseBeyond(n - 1, k);
    }
  }

  lemma {:induction false} ChooseAll(n: nat)
    ensures Choose(n, n) == 1
  {
    if n > 0 {
      ChooseAll(n - 1);
      ChooseBeyond(n - 1, n);
    }
  }

  /** k * C(n, k) = n * C(n - 1, k - 1). */
  lemma {:induction false} ChooseAbsorb(n: nat, k: nat)
    requires n > 0 && k > 0
    ensures k * Choose(n, k) == n * Choose(n - 1, k - 1)
  {
    if n == 1 {
      if k > 1 {
        ChooseBeyond(1, k);
        ChooseBeyond(0, k - 1);
      }
    } else if k == 1 {
      ChooseAbsorb(n - 1, 1);
    } else {
      var x, y, z := Choose(n - 2, k - 2), Choose(n - 2, k - 1), Choose(n - 1, k);
      ChooseAbsorb(n - 1, k - 1);
      ChooseAbsorb(n - 1, k);
      AbsorbStep(n, k, x, y, z);
    }
  }

  lemma AbsorbStep(n: int, k: int, x: int, y: int, z: int)
    requires (k - 1) * (x + y) == (n - 1) * x && k * z == (n - 1) * y
    ensures k * ((x + y) + z) == n * (x + y)
  {
    MulDist(k, x + y, z);
  }

  /** The first j terms of the expansion of (a + 1)^n. */
  function Expansion(a: int, n: nat, j: nat): int {
    if j == 0 then 0 else Expansion(a, n, j - 1) + Choose(n, j - 1) * Pow(a, j - 1)
  }

  lemma {:induction false} ExpansionStep(a: int, n: nat, j: nat)
    ensures Expansion(a, n + 1, j + 1) == Expansion(a, n, j + 1) + a * Expansion(a, n, j)
  {
    if j == 0 {
      assert Expansion(a, n + 1, 1) == Expansion(a, n + 1, 0) + Choose(n + 1, 0) * Pow(a, 0);
      assert Expansion(a, n, 1) == Expansion(a, n, 0) + Choose(n, 0) * Pow(a, 0);
    } else {
      ExpansionStep(a, n, j - 1);
      var x, y, q := Choose(n, j - 1), Choose(n, j), Pow(a, j - 1);
      assert (x + y) * (a * q) == y * (a * q) + a * (x * q) by {
        MulDist(a * q, x, y);
        MulAssoc(x, a, q);
        MulAssoc(a, x, q);
      }
      MulDist(a, Expansion(a, n, j - 1), x * q);
    }
  }

  lemma ExpansionBeyond(a: int, n: nat)
    ensures Expansion(a, n, n + 2) == Expansion(a, n, n + 1)
  {
    hide Choose, Pow;
    ChooseBeyond(n, n + 1);
  }

  lemma {:induction false} Binomial(a: int, n: nat)
    ensures Pow(a + 1, n) == Expansion(a, n, n + 1)
  {
    hide Expansion, Choose, Pow;
    if n == 0 {
      FirstExpansion(a);
    } else {
      Binomial(a, n - 1);
      ExpansionStep(a, n - 1, n);
      ExpansionBeyond(a, n - 1);
      PowNext(a + 1, n - 1);
      MulDist(Pow(a + 1, n - 1), a, 1);
    }
  }

  lemma FirstExpansion(a: int)
    ensures Pow(a + 1, 0) == Expansion(a, 0, 1)
  {
    assert Expansion(a, 0, 1) == Expansion(a, 0, 0) + 1 * Pow(a, 0);
  }

  // ----- Fermat's little theorem -----

  lemma PrimeChoose(p: int, k: nat)
    requires Prime(p) && 0 < k < p
    ensures Divides(p, Choose(p, k))
  {
    ChooseAbsorb(p, k);
    DividesBy(p, k * Choose(p, k), Choose(p - 1, k - 1));
    PrimeDividesProduct(p, k, Choose(p, k));
    if Divides(p, k) {
      DividesBound(p, k);
    }
  }

  lemma TermVanishes(p: int, x: int, q: int)
    requires p > 0 && Divides(p, x)
    ensures Cong(x * q, 0, p)
  {
    var c := DividesQuotient(p, x);
    MulAssoc(c, p, q);
    MulAssoc(c, q, p);
    CongBy(x * q, 0, p, c * q);
  }

  lemma {:induction false} PrimeExpansion(a: int, p: int, j: nat)
    requires Prime(p) && 1 <= j <= p
    ensures Cong(Expansion(a, p, j), 1, p)
  {
    if j == 1 {
      assert Expansion(a, p, 1) == Expansion(a, p, 0) + 1 * Pow(a, 0);
    } else {
      hide Cong, Choose, Pow;
      PrimeExpansion(a, p, j - 1);
      PrimeChoose(p, j - 1);
      var x, q := Choose(p, j - 1), Pow(a, j - 1);
      TermVanishes(p, x, q);
      CongAdd(Expansion(a, p, j - 1), 1, x * q, 0, p);
    }
  }

  /** a^p = a modulo a prime p. */
  lemma {:induction false} FermatPower(a: nat, p: int)
    requires Prime(p)
    ensures Cong(Pow(a, p), a, p)
  {
    if a == 0 {
      CongRefl(0, p);
    } else {
      FermatPower(a - 1, p);
      Binomial(a - 1, p);
      PrimeExpansion(a - 1, p, p);
      ChooseAll(p);
      assert Pow(a, p) == Expansion(a - 1, p, p) + 1 * Pow(a - 1, p);
      CongAdd(Expansion(a - 1, p, p), 1, Pow(a - 1, p), a - 1, p);
    }
  }

  /** Fermat's little theorem. */
  lemma Fermat(a: nat, p: int)
    requires Prime(p) && 0 < a < p
    ensures Cong(Pow(a, p - 1), 1, p)
  {
    FermatPower(a, p);
    var q := Pow(a, p - 1);
    var k := CongQuotient(a * q, a, p);
    assert a * (q - 1) == k * p by {
      MulDist(a, q, 1);
    }
    DividesBy(p, a * (q - 1), k);
    PrimeDividesProduct(p, a, q - 1);
    if Divides(p, a) {
      DividesBound(p, a);
    }
    var l := DividesQuotient(p, q - 1);
    CongBy(q, 1, p, l);
  }

  /** The square roots of 1 modulo a prime are 1 and -1. */
  lemma RootsOfOne(x: int, p: int)
    requires Prime(p) && Cong(x * x, 1, p)
    ensures Cong(x, 1, p) || Cong(x, -1, p)
  {
    var k := CongQuotient(x * x, 1, p);
    assert (x - 1) * (x + 1) == k * p;
    DividesBy(p, (x - 1) * (x + 1), k);
    PrimeDividesProduct(p, x - 1, x + 1);
    if Divides(p, x - 1) {
      var l := DividesQuotient(p, x - 1);
      CongBy(x, 1, p, l);
    } else {
      var l := DividesQuotient(p, x + 1);
      CongBy(x, -1, p, l);
    }
  }
}
