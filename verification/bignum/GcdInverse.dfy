/** mbedtls_mpi_gcd and mbedtls_mpi_inv_mod: binary algorithms. */
module GcdInverse {
  import opened Arith
  import opened NumberTheory
  import opened Limbs
  import opened MpiBase
  import opened MpiShift
  import opened MpiArith
  import opened MpiDivision

  // ----- greatest common divisor -----

  /** Dividing out the trailing zeros. */
  lemma OddPart(v: nat)
    requires v > 0
    ensures var e := Pow2(TrailingZeros(v));
            v == (v / e) * e && (v / e) % 2 == 1 && 0 < v / e <= v
  {
    hide TrailingZeros, Pow2;
    TrailingZerosDivides(v);
    var e := Pow2(TrailingZeros(v));
    var q := v / e;
    assert v == q * e + v % e;
    MulLe(q, 1, e);
  }

  /** A number without its trailing zeros. */
  function Odd(v: nat): (x: nat)
    ensures x <= v && (v > 0 ==> x > 0 && x % 2 == 1)
  {
    if v > 0 then
      OddPart(v);
      v / Pow2(TrailingZeros(v))
    else
      0
  }

  /** X >>= lsb(X). */
  method DropTrailingZeros(X: Mpi) returns (r: Status)
    requires X.s == 1
    modifies X
    ensures !r.Ok? ==> r == AllocFailed
    ensures r.Ok? ==> X.s == 1 && Val(X.p) == Odd(old(Val(X.p)))
  {
    var lz := Lsb(X);
    :- ShiftR(X, lz);
    return Ok;
  }

  /** X >>= 1. */
  method Halve(X: Mpi) returns (r: Status)
    modifies X
    ensures !r.Ok? ==> r == AllocFailed
    ensures r.Ok? ==> Val(X.p) == old(Val(X.p)) / 2
    ensures r.Ok? ==> X.s == old(X.s) || (X.s == 1 && Val(X.p) == 0)
    ensures |old(X.p)| > 0 ==> |X.p| == |old(X.p)| && X.s == old(X.s)
  {
    assert Pow2(1) == 2;
    r := ShiftR(X, 1);
  }

  /** Progress of the loop of mbedtls_mpi_gcd from (a, b) to (a', b'). */
  ghost predicate GcdProgress(a: nat, b: nat, a': nat, b': nat) {
    a' + b' < a + b && (b == 0 ==> b' == 0)
    && (b > 0 && Gcd(a, b) % 2 == 1 ==> b' > 0 && Gcd(a', b') == Gcd(a, b))
  }

  /** Both ways the turn can end. */
  lemma GcdTurn(a: nat, b: nat)
    requires a > 0
    ensures var x, y := Odd(a), Odd(b);
            (x >= y ==> GcdProgress(a, b, (x - y) / 2, y)) && (x < y ==> GcdProgress(a, b, x, (y - x) / 2))
  {
    var x, y := Odd(a), Odd(b);
    if b > 0 {
      OddParts(a, b);
      if x >= y {
        HalvedDifference(x, y);
      } else {
        HalvedDifference(y, x);
        GcdSymmetric(x, y);
        GcdSymmetric((y - x) / 2, x);
      }
    }
  }

  /** One turn of the loop of mbedtls_mpi_gcd. */
  method GcdStep(TA: Mpi, TB: Mpi) returns (r: Status)
    requires TA != TB && TA.s == 1 && TB.s == 1 && Val(TA.p) > 0
    modifies TA, TB
    ensures !r.Ok? ==> r == AllocFailed
    ensures r.Ok? ==> TA.s == 1 && TB.s == 1
    ensures r.Ok? ==> GcdProgress(old(Val(TA.p)), old(Val(TB.p)), Val(TA.p), Val(TB.p))
  {
    GcdTurn(Val(TA.p), Val(TB.p));
    :- DropTrailingZeros(TA);
    :- DropTrailingZeros(TB);
    var c := CmpMpi(TA, TB);
    if c >= 0 {
      :- SubAbs(TA, TA, TB);
      :- Halve(TA);
    } else {
      :- SubAbs(TB, TB, TA);
      :- Halve(TB);
    }
    return Ok;
  }

  lemma OddParts(a: nat, b: nat)
    requires a > 0 && b > 0
    ensures Gcd(a, b) % 2 == 1 ==> Gcd(Odd(a), Odd(b)) == Gcd(a, b)
  {
    OddPart(a);
    OddPart(b);
    if Gcd(a, b) % 2 == 1 {
      GcdOddPart(Odd(a), TrailingZeros(a), b);
      GcdSymmetric(Odd(a), b);
      GcdOddPart(Odd(b), TrailingZeros(b), Odd(a));
      GcdSymmetric(Odd(b), Odd(a));
    }
  }

  lemma HalvedDifference(x: nat, y: nat)
    requires y <= x && x % 2 == 1 && y % 2 == 1
    ensures Gcd(x, y) % 2 == 1 ==> Gcd((x - y) / 2, y) == Gcd(x, y)
  {
    HalvedGcd(x, y, (x - y) / 2);
  }

  lemma HalvedGcd(x: nat, y: nat, h: nat)
    requires x == y + 2 * h
    ensures Gcd(x, y) % 2 == 1 ==> Gcd(h, y) == Gcd(x, y)
  {
    GcdSubtract(x, y);
    if Gcd(x, y) % 2 == 1 {
      GcdHalve(h, y);
    }
  }

  /** The common power of two that mbedtls_mpi_gcd takes out first. */
  function CommonShift(a: nat, b: nat): nat {
    if TrailingZeros(b) < TrailingZeros(a) then TrailingZeros(b) else TrailingZeros(a)
  }

  /** Without it the gcd is odd, and it comes back as a factor. */
  lemma CommonTwos(a: nat, b: nat)
    requires a > 0 && b > 0
    ensures var e := Pow2(CommonShift(a, b));
            b / e > 0 && Gcd(a, b) == Gcd(a / e, b / e) * e && Gcd(a / e, b / e) % 2 == 1
  {
    var e := Pow2(CommonShift(a, b));
    var x, y := a / e, b / e;
    TwosDivide(a, CommonShift(a, b));
    TwosDivide(b, CommonShift(a, b));
    ScaledGcd(a, b, e, x, y);
    OddAfterShift(a, b, x, y);
    OddGcd(x, y);
  }

  lemma ScaledGcd(a: nat, b: nat, e: nat, x: nat, y: nat)
    requires a == e * x && b == e * y
    ensures Gcd(a, b) == Gcd(x, y) * e
  {
    GcdScale(e, x, y);
  }

  lemma OddAfterShift(a: nat, b: nat, x: int, y: int)
    requires a > 0 && b > 0 && x == a / Pow2(CommonShift(a, b)) && y == b / Pow2(CommonShift(a, b))
    ensures x % 2 == 1 || y % 2 == 1
  {
    TrailingZerosDivides(a);
    TrailingZerosDivides(b);
  }

  lemma OddGcd(x: nat, y: nat)
    requires x % 2 == 1 || y % 2 == 1
    ensures Gcd(x, y) % 2 == 1
  {
    var g := Gcd(x, y);
    GcdDivides(x, y);
    if g % 2 == 0 {
      EvenDivides(g, x);
      EvenDivides(g, y);
    }
  }

  lemma EvenDivides(g: nat, x: int)
    requires g % 2 == 0 && Divides(g, x)
    ensures x % 2 == 0
  {
    var k := DividesQuotient(g, x);
    assert x == 2 * (k * (g / 2)) by {
      MulAssoc(k, 2, g / 2);
    }
  }

  lemma {:induction false} TwosDivide(v: nat, j: nat)
    requires j <= TrailingZeros(v)
    ensures v == Pow2(j) * (v / Pow2(j)) && (v > 0 ==> v / Pow2(j) > 0)
  {
    if j == 0 {
      assert v / Pow2(0) == v;
    } else {
      TwosDivide(v / 2, j - 1);
      DivDivBy(v, 2, Pow2(j - 1));
      MulAssoc(2, Pow2(j - 1), v / Pow2(j));
    }
  }

  /** mbedtls_mpi_gcd: the greatest common divisor of the magnitudes, but zero when B is zero. */
  method GcdMpi(G: Mpi, A: Mpi, B: Mpi) returns (r: Status)
    requires A.Valid() && B.Valid()
    modifies G
    ensures !r.Ok? ==> r == AllocFailed
    ensures r.Ok? ==> G.Valid() && G.Value() == if old(B.Abs()) == 0 then 0 else Gcd(old(A.Abs()), old(B.Abs()))
  {
    ghost var a, b := Val(A.p), Val(B.p);
    var TA := new Mpi();
    var TB := new Mpi();
    :- Copy(TA, A);
    :- Copy(TB, B);
    var lz := Lsb(TA);
    var lzt := Lsb(TB);
    if lzt < lz {
      lz := lzt;
    }
    assert lz == CommonShift(a, b);
    :- ShiftR(TA, lz);
    :- ShiftR(TB, lz);
    TA.s, TB.s := 1, 1;
    ghost var x, y := Val(TA.p), Val(TB.p);
    :- GcdLoop(TA, TB);
    ghost var t := Val(TB.p);
    GcdUnshifted(a, b, x, y, t);
    :- ShiftL(TB, lz);
    :- Copy(G, TB);
    return Ok;
  }

  /** What the loop leaves, shifted back, in every case. */
  lemma GcdUnshifted(a: nat, b: nat, x: nat, y: nat, t: nat)
    requires var e := Pow2(CommonShift(a, b)); x == a / e && y == b / e
    requires y == 0 ==> t == 0
    requires x == 0 ==> t == y
    requires y > 0 && Gcd(x, y) % 2 == 1 ==> t == Gcd(x, y)
    ensures t * Pow2(CommonShift(a, b)) == if b == 0 then 0 else Gcd(a, b)
  {
    if a == 0 {
      assert CommonShift(a, b) == 0 && Pow2(0) == 1;
      GcdSymmetric(0, b);
    } else if b > 0 {
      CommonTwos(a, b);
    }
  }

  /** The loop of mbedtls_mpi_gcd: TA runs down to zero and TB is left with the gcd. */
  method GcdLoop(TA: Mpi, TB: Mpi) returns (r: Status)
    requires TA != TB && TA.s == 1 && TB.s == 1
    modifies TA, TB
    ensures !r.Ok? ==> r == AllocFailed
    ensures r.Ok? ==> TB.s == 1
    ensures r.Ok? && old(Val(TB.p)) == 0 ==> Val(TB.p) == 0
    ensures r.Ok? && old(Val(TA.p)) == 0 ==> Val(TB.p) == old(Val(TB.p))
    ensures r.Ok? && old(Val(TB.p)) > 0 && Gcd(old(Val(TA.p)), old(Val(TB.p))) % 2 == 1 ==>
              Val(TB.p) == Gcd(old(Val(TA.p)), old(Val(TB.p)))
  {
    ghost var a, b := Val(TA.p), Val(TB.p);
    var c := CmpInt(TA, 0);
    while c != 0
      invariant TA.s == 1 && TB.s == 1 && c == Sgn(Val(TA.p))
      invariant b == 0 ==> Val(TB.p) == 0
      invariant a == 0 ==> Val(TA.p) == 0 && Val(TB.p) == b
      invariant b > 0 && Gcd(a, b) % 2 == 1 ==> Val(TB.p) > 0 && Gcd(Val(TA.p), Val(TB.p)) == Gcd(a, b)
      decreases Val(TA.p) + Val(TB.p)
    {
      :- GcdStep(TA, TB);
      c := CmpInt(TA, 0);
    }
    GcdSymmetric(0, Val(TB.p));
    return Ok;
  }

  // ----- modular inverse -----

  /** U = U1 * A + U2 * B, for numbers with at least one limb. */
  ghost predicate Combination(U: Mpi, U1: Mpi, U2: Mpi, a: int, b: int)
    reads U, U1, U2
  {
    U.Valid() && U1.Valid() && U2.Valid() && |U.p| > 0 && |U1.p| > 0 && |U2.p| > 0
    && U.Value() == U1.Value() * a + U2.Value() * b
  }

  /** When U is even but a coefficient is odd, adding B and subtracting A makes both even. */
  lemma CoefficientParity(u: int, u1: int, u2: int, a: int, b: int)
    requires u == u1 * a + u2 * b && u % 2 == 0
    requires u1 % 2 == 1 || u2 % 2 == 1
    requires a % 2 == 1 || b % 2 == 1
    ensures (u1 + b) % 2 == 0 && (u2 - a) % 2 == 0
  {
    ProductParity(u1, a);
    ProductParity(-u2, b);
    SameParity(u1 * a, (-u2) * b);
    SameParity(u1, -b);
    SameParity(u2, a);
    NegatedParity(u2);
    NegatedParity(b);
  }

  lemma SameParity(p: int, q: int)
    ensures (p - q) % 2 == 0 <==> p % 2 == q % 2
  {
  }

  lemma NegatedParity(p: int)
    ensures (-p) % 2 == p % 2
  {
  }

  lemma ProductParity(x: int, y: int)
    ensures (x * y) % 2 == if x % 2 == 1 && y % 2 == 1 then 1 else 0
  {
    var h, r, k, s := x / 2, x % 2, y / 2, y % 2;
    ParityIdentity(h, r, k, s);
    DivModUnique(x * y, 2, h * (2 * k + s) + r * k, r * s);
  }

  lemma ParityIdentity(h: int, r: int, k: int, s: int)
    ensures (2 * h + r) * (2 * k + s) == (h * (2 * k + s) + r * k) * 2 + r * s
  {
    MulDist(2 * k + s, 2 * h, r);
    MulAssoc(2, h, 2 * k + s);
    MulDist(r, 2 * k, s);
    MulAssoc(r, k, 2);
  }

  /** The exchange leaves the combination as it is... */
  lemma ExchangedCombination(u1: int, u2: int, a: int, b: int)
    ensures (u1 + b) * a + (u2 - a) * b == u1 * a + u2 * b
  {
  }

  /** ...and even coefficients can be halved with it. */
  lemma HalvedCombination(u: int, u1: int, u2: int, a: int, b: int)
    requires u == u1 * a + u2 * b && u1 % 2 == 0 && u2 % 2 == 0
    ensures u % 2 == 0 && u / 2 == (u1 / 2) * a + (u2 / 2) * b
  {
    var h, k := u1 / 2, u2 / 2;
    assert u1 * a == 2 * (h * a) && u2 * b == 2 * (k * b);
  }

  /** X >>= 1 on an even number of either sign is an exact half. */
  method HalveEven(X: Mpi) returns (r: Status)
    requires X.Valid() && |X.p| > 0 && X.Value() % 2 == 0
    modifies X
    ensures !r.Ok? ==> r == AllocFailed
    ensures r.Ok? ==> X.Valid() && |X.p| == |old(X.p)| && X.Value() == old(X.Value()) / 2
  {
    r := Halve(X);
  }

  lemma SignedParity(X: Mpi)
    requires X.Valid() && |X.p| > 0
    ensures X.p[0] % 2 == X.Value() % 2
  {
    ValParity(X.p);
  }

  /** One turn of the inner loops: U is halved, and its coefficients with it. */
  method HalveStep(U: Mpi, U1: Mpi, U2: Mpi, TA: Mpi, TB: Mpi) returns (r: Status)
    requires U !in {U1, U2, TA, TB} && U1 !in {U2, TA, TB} && U2 !in {TA, TB}
    requires TA.Valid() && TB.Valid() && |TA.p| > 0 && |TB.p| > 0
    requires TA.Value() % 2 == 1 || TB.Value() % 2 == 1
    requires Combination(U, U1, U2, TA.Value(), TB.Value()) && U.Value() % 2 == 0
    modifies U, U1, U2
    ensures !r.Ok? ==> r == AllocFailed
    ensures r.Ok? ==> Combination(U, U1, U2, TA.Value(), TB.Value()) && U.Value() == old(U.Value()) / 2
  {
    ghost var a, b, u := TA.Value(), TB.Value(), U.Value();
    :- HalveEven(U);
    SignedParity(U1);
    SignedParity(U2);
    if U1.p[0] % 2 != 0 || U2.p[0] % 2 != 0 {
      CoefficientParity(u, U1.Value(), U2.Value(), a, b);
      ExchangedCombination(U1.Value(), U2.Value(), a, b);
      :- AddMpi(U1, U1, TB);
      :- SubMpi(U2, U2, TA);
    }
    HalvedCombination(u, U1.Value(), U2.Value(), a, b);
    :- HalveEven(U1);
    :- HalveEven(U2);
    return Ok;
  }

  lemma OddOfEven(v: nat)
    requires v > 0 && v % 2 == 0
    ensures Odd(v) == Odd(v / 2)
  {
    DivDivBy(v, 2, Pow2(TrailingZeros(v / 2)));
  }

  lemma OddOfOdd(v: nat)
    requires v % 2 == 1
    ensures Odd(v) == v
  {
    assert v / Pow2(0) == v;
  }

  /** An inner loop of mbedtls_mpi_inv_mod. */
  method HalveLoop(U: Mpi, U1: Mpi, U2: Mpi, TA: Mpi, TB: Mpi) returns (r: Status)
    requires U !in {U1, U2, TA, TB} && U1 !in {U2, TA, TB} && U2 !in {TA, TB}
    requires TA.Valid() && TB.Valid() && |TA.p| > 0 && |TB.p| > 0
    requires TA.Value() % 2 == 1 || TB.Value() % 2 == 1
    requires Combination(U, U1, U2, TA.Value(), TB.Value()) && U.Value() > 0
    modifies U, U1, U2
    ensures !r.Ok? ==> r == AllocFailed
    ensures r.Ok? ==> Combination(U, U1, U2, TA.Value(), TB.Value()) && U.Value() == Odd(old(U.Value()))
  {
    SignedParity(U);
    while U.p[0] % 2 == 0
      invariant Combination(U, U1, U2, TA.Value(), TB.Value())
      invariant U.Value() > 0 && Odd(U.Value()) == Odd(old(U.Value()))
      invariant U.p[0] % 2 == U.Value() % 2
      decreases U.Value()
    {
      OddOfEven(U.Value());
      :- HalveStep(U, U1, U2, TA, TB);
      SignedParity(U);
    }
    OddOfOdd(U.Value());
    return Ok;
  }

  /** The eight temporaries are different objects. */
  ghost predicate InvTemps(TA: Mpi, TU: Mpi, U1: Mpi, U2: Mpi, TB: Mpi, TV: Mpi, V1: Mpi, V2: Mpi) {
    TA !in {TU, U1, U2, TB, TV, V1, V2} && TU !in {U1, U2, TB, TV, V1, V2} && U1 !in {U2, TB, TV, V1, V2}
    && U2 !in {TB, TV, V1, V2} && TB !in {TV, V1, V2} && TV !in {V1, V2} && V1 != V2
  }

  /** The combinations of two numbers, subtracted. */
  lemma SubtractedCombination(u: int, u1: int, u2: int, v: int, v1: int, v2: int, a: int, b: int)
    requires u == u1 * a + u2 * b && v == v1 * a + v2 * b
    ensures u - v == (u1 - v1) * a + (u2 - v2) * b
  {
    MulDist(a, u1 - v1, v1);
    MulDist(b, u2 - v2, v2);
  }

  /** X -= Y on two numbers with limbs. */
  method SubtractFrom(X: Mpi, Y: Mpi) returns (r: Status)
    requires X != Y && X.Valid() && Y.Valid() && |X.p| > 0 && |Y.p| > 0
    modifies X
    ensures !r.Ok? ==> r == AllocFailed
    ensures r.Ok? ==> X.Valid() && |X.p| > 0 && X.Value() == old(X.Value()) - Y.Value()
  {
    r := SubMpi(X, X, Y);
  }

  /** (U, U1, U2) := (U, U1, U2) - (V, V1, V2). */
  method SubtractTriple(U: Mpi, U1: Mpi, U2: Mpi, V: Mpi, V1: Mpi, V2: Mpi, ghost a: int, ghost b: int) returns (r: Status)
    requires U !in {U1, U2, V, V1, V2} && U1 !in {U2, V, V1, V2} && U2 !in {V, V1, V2}
    requires Combination(U, U1, U2, a, b) && Combination(V, V1, V2, a, b)
    modifies U, U1, U2
    ensures !r.Ok? ==> r == AllocFailed
    ensures r.Ok? ==> Combination(U, U1, U2, a, b) && U.Value() == old(U.Value()) - V.Value()
  {
    SubtractedCombination(U.Value(), U1.Value(), U2.Value(), V.Value(), V1.Value(), V2.Value(), a, b);
    :- SubtractFrom(U, V);
    :- SubtractFrom(U1, V1);
    :- SubtractFrom(U2, V2);
    return Ok;
  }

  /** gcd of the odd parts, and of what the subtraction leaves. */
  lemma CoprimeTurn(u: nat, v: nat)
    requires u > 0 && v > 0 && Gcd(u, v) == 1
    ensures Gcd(Odd(u), Odd(v)) == 1
    ensures Odd(u) >= Odd(v) ==> Gcd(Odd(u) - Odd(v), Odd(v)) == 1
    ensures Odd(u) < Odd(v) ==> Gcd(Odd(u), Odd(v) - Odd(u)) == 1
  {
    OddParts(u, v);
    if Odd(u) >= Odd(v) {
      GcdSubtract(Odd(u), Odd(v));
    } else {
      GcdSymmetric(Odd(u), Odd(v));
      GcdSubtract(Odd(v), Odd(u));
      GcdSymmetric(Odd(u), Odd(v) - Odd(u));
    }
  }

  /** One turn of the main loop. */
  method InvStep(TA: Mpi, TU: Mpi, U1: Mpi, U2: Mpi, TB: Mpi, TV: Mpi, V1: Mpi, V2: Mpi) returns (r: Status)
    requires InvTemps(TA, TU, U1, U2, TB, TV, V1, V2)
    requires TA.Valid() && TB.Valid() && |TA.p| > 0 && |TB.p| > 0
    requires TA.Value() % 2 == 1 || TB.Value() % 2 == 1
    requires Combination(TU, U1, U2, TA.Value(), TB.Value()) && Combination(TV, V1, V2, TA.Value(), TB.Value())
    requires TU.Value() > 0 && TV.Value() > 0 && Gcd(TU.Value(), TV.Value()) == 1
    modifies TU, U1, U2, TV, V1, V2
    ensures !r.Ok? ==> r == AllocFailed
    ensures r.Ok? ==> Combination(TU, U1, U2, TA.Value(), TB.Value()) && Combination(TV, V1, V2, TA.Value(), TB.Value())
    ensures r.Ok? ==> TU.Value() >= 0 && TV.Value() > 0 && Gcd(TU.Value(), TV.Value()) == 1
    ensures r.Ok? ==> TU.Value() + TV.Value() < old(TU.Value()) + old(TV.Value())
  {
    CoprimeTurn(TU.Value(), TV.Value());
    :- HalveLoop(TU, U1, U2, TA, TB);
    :- HalveLoop(TV, V1, V2, TA, TB);
    r := SubtractSmaller(TU, U1, U2, TV, V1, V2, TA.Value(), TB.Value());
  }

  /** The smaller of U and V is subtracted from the other. */
  method SubtractSmaller(TU: Mpi, U1: Mpi, U2: Mpi, TV: Mpi, V1: Mpi, V2: Mpi, ghost a: int, ghost b: int) returns (r: Status)
    requires TU !in {U1, U2, TV, V1, V2} && U1 !in {U2, TV, V1, V2} && U2 !in {TV, V1, V2} && TV !in {V1, V2} && V1 != V2
    requires Combination(TU, U1, U2, a, b) && Combination(TV, V1, V2, a, b)
    modifies TU, U1, U2, TV, V1, V2
    ensures !r.Ok? ==> r == AllocFailed
    ensures r.Ok? ==> Combination(TU, U1, U2, a, b) && Combination(TV, V1, V2, a, b)
    ensures r.Ok? && old(TU.Value()) >= old(TV.Value()) ==>
              TU.Value() == old(TU.Value()) - TV.Value() && TV.Value() == old(TV.Value())
    ensures r.Ok? && old(TU.Value()) < old(TV.Value()) ==>
              TV.Value() == old(TV.Value()) - TU.Value() && TU.Value() == old(TU.Value())
  {
    var c := CmpMpi(TU, TV);
    if c >= 0 {
      :- SubtractTriple(TU, U1, U2, TV, V1, V2, a, b);
    } else {
      :- SubtractTriple(TV, V1, V2, TU, U1, U2, a, b);
    }
    return Ok;
  }

  /** The main loop: U runs down to zero and V = 1 = V1 * TA + V2 * TB is left. */
  method InvLoop(TA: Mpi, TU: Mpi, U1: Mpi, U2: Mpi, TB: Mpi, TV: Mpi, V1: Mpi, V2: Mpi) returns (r: Status)
    requires InvTemps(TA, TU, U1, U2, TB, TV, V1, V2)
    requires TA.Valid() && TB.Valid() && |TA.p| > 0 && |TB.p| > 0
    requires TA.Value() % 2 == 1 || TB.Value() % 2 == 1
    requires Combination(TU, U1, U2, TA.Value(), TB.Value()) && Combination(TV, V1, V2, TA.Value(), TB.Value())
    requires TU.Value() > 0 && TV.Value() > 0 && Gcd(TU.Value(), TV.Value()) == 1
    modifies TU, U1, U2, TV, V1, V2
    ensures !r.Ok? ==> r == AllocFailed
    ensures r.Ok? ==> Combination(TV, V1, V2, TA.Value(), TB.Value()) && TV.Value() == 1
  {
    ghost var a, b := TA.Value(), TB.Value();
    var more := true;
    while more
      invariant Combination(TU, U1, U2, a, b) && Combination(TV, V1, V2, a, b)
      invariant TU.Value() >= 0 && TV.Value() > 0 && Gcd(TU.Value(), TV.Value()) == 1
      invariant more <==> TU.Value() != 0
      decreases TU.Value() + TV.Value()
    {
      :- InvStep(TA, TU, U1, U2, TB, TV, V1, V2);
      var c := CmpInt(TU, 0);
      more := c != 0;
    }
    GcdSymmetric(0, TV.Value());
    return Ok;
  }

  /** Reducing a number of either sign modulo n keeps its gcd with n. */
  lemma GcdMod(a: int, n: nat)
    requires n > 0
    ensures Gcd(a % n, n) == Gcd(if a < 0 then -a else a, n)
  {
    var m := if a < 0 then -a else a;
    forall k: nat
      ensures Divides(k, a % n) && Divides(k, n) <==> Divides(k, m) && Divides(k, n)
    {
      assert a % n == 1 * a + -(a / n) * n;
      if Divides(k, m) && Divides(k, n) {
        DividesSum(k, m, n, if a < 0 then -1 else 1, -(a / n));
      }
      if Divides(k, a % n) && Divides(k, n) {
        DividesSum(k, a % n, n, if a < 0 then -1 else 1, if a < 0 then -(a / n) else a / n);
        ReducedSigns(a, n, m);
      }
    }
    GcdSame(a % n, n, m, n);
  }

  lemma ReducedSigns(a: int, n: nat, m: nat)
    requires n > 0 && m == if a < 0 then -a else a
    ensures m == (if a < 0 then -1 else 1) * (a % n) + (if a < 0 then -(a / n) else a / n) * n
  {
    assert a == (a / n) * n + a % n;
  }

  /** Coprime numbers are not both even, and zero is coprime only to one. */
  lemma CoprimeFacts(x: nat, n: nat)
    requires Gcd(x, n) == 1 && n > 1
    ensures x > 0 && (x % 2 == 1 || n % 2 == 1)
  {
    if x == 0 {
      GcdSymmetric(0, n);
    }
    if x % 2 == 0 && n % 2 == 0 {
      assert Divides(2, x) && Divides(2, n);
      GcdGreatest(x, n, 2);
    }
  }

  /** A coefficient that makes 1 out of a mod n inverts a, and so does every number congruent to it. */
  lemma InverseCoefficient(a: int, n: int, v1: int, v2: int, x: int)
    requires n > 1 && v1 * (a % n) + v2 * n == 1 && Cong(x, v1, n)
    ensures Cong(a * x, 1, n)
  {
    CongMod(a, n);
    CongSym(a % n, a, n);
    CongMul(a, a % n, x, v1, n);
    CongBy((a % n) * v1, 1, n, -v2);
    CongTrans(a * x, (a % n) * v1, 1, n);
  }

  /** (U, U1, U2) := (S, x, y), the start of a combination. */
  method StartTriple(U: Mpi, U1: Mpi, U2: Mpi, S: Mpi, x: int, y: int, ghost a: int, ghost b: int) returns (r: Status)
    requires U !in {U1, U2, S} && U1 !in {U2, S} && U2 != S && S.Valid() && |S.p| > 0
    requires -BETA < x < BETA && -BETA < y < BETA && S.Value() == x * a + y * b
    modifies U, U1, U2
    ensures !r.Ok? ==> r == AllocFailed
    ensures r.Ok? ==> Combination(U, U1, U2, a, b) && U.Value() == S.Value()
  {
    ghost var v := S.Value();
    :- Copy(U, S);
    :- Lset(U1, x);
    :- Lset(U2, y);
    return Ok;
  }

  /** The coefficient the loops compute, for coprime TA and TB. */
  method InverseOf(V1: Mpi, TA: Mpi, TB: Mpi) returns (r: Status, ghost v2: int)
    requires V1 !in {TA, TB} && TA != TB
    requires TA.Valid() && TB.Valid() && TA.Value() > 0 && TB.Value() > 1
    requires Gcd(TA.Value(), TB.Value()) == 1
    modifies V1
    ensures !r.Ok? ==> r == AllocFailed
    ensures r.Ok? ==> V1.Valid() && V1.Value() * TA.Value() + v2 * TB.Value() == 1
  {
    v2 := 0;
    ghost var a, b := TA.Value(), TB.Value();
    CoprimeFacts(a, b);
    var TU := new Mpi();
    var U1 := new Mpi();
    var U2 := new Mpi();
    var TV := new Mpi();
    var V2 := new Mpi();
    :- StartTriple(TU, U1, U2, TA, 1, 0, a, b);
    :- StartTriple(TV, V1, V2, TB, 0, 1, a, b);
    :- InvLoop(TA, TU, U1, U2, TB, TV, V1, V2);
    v2 := V2.Value();
    r := Ok;
  }

  /** The part of mbedtls_mpi_inv_mod after its checks. */
  method InvertCoprime(X: Mpi, A: Mpi, N: Mpi) returns (r: Status)
    requires A.Valid() && N.Valid() && N.Value() > 1 && Gcd(A.Abs(), N.Value()) == 1
    modifies X
    ensures !r.Ok? ==> r == AllocFailed
    ensures r.Ok? ==> X.Valid() && 0 <= X.Value() < old(N.Value())
    ensures r.Ok? ==> Cong(old(A.Value()) * X.Value(), 1, old(N.Value()))
  {
    ghost var a, n := A.Value(), N.Value();
    ghost var v2;
    GcdMod(a, n);
    CoprimeFacts(a % n, n);
    var TA := new Mpi();
    var TB := new Mpi();
    var V1 := new Mpi();
    :- Reduce(TA, A, N);
    :- Copy(TB, N);
    v2 :- InverseOf(V1, TA, TB);
    ghost var v1 := V1.Value();
    :- BringIntoRange(V1, N);
    ghost var x := V1.Value();
    InverseCoefficient(a, n, v1, v2, x);
    :- Copy(X, V1);
    return Ok;
  }

  /** mbedtls_mpi_inv_mod: X = A^-1 mod N when A and N are coprime. It terminates for every N except 1,
      which OneNeverEnds is about. */
  method InvMod(X: Mpi, A: Mpi, N: Mpi) returns (r: Status)
    requires A.Valid() && N.Valid() && N.Value() != 1
    modifies X
    ensures r == BadInput <==> old(N.Value()) <= 0
    ensures r == NotAcceptable ==> Gcd(old(A.Abs()), old(N.Abs())) != 1
    ensures r.Ok? ==> Gcd(old(A.Abs()), old(N.Abs())) == 1
    ensures r.Ok? ==> X.Valid() && 0 <= X.Value() < old(N.Value())
    ensures r.Ok? ==> Cong(old(A.Value()) * X.Value(), 1, old(N.Value()))
    ensures r.Ok? || r == BadInput || r == NotAcceptable || r == AllocFailed
  {
    var c := CmpInt(N, 0);
    if c <= 0 {
      return BadInput;
    }
    var G := new Mpi();
    :- GcdMpi(G, A, N);
    c := CmpInt(G, 1);
    if c != 0 {
      return NotAcceptable;
    }
    r := InvertCoprime(X, A, N);
  }

  // ----- N = 1 -----

  lemma GcdWithOne(a: nat)
    ensures Gcd(a, 1) == 1
  {
    GcdDivides(a, 1);
    DividesBound(Gcd(a, 1), 1);
  }

  /** Past the checks, the loops start from TU = A mod N, which is zero for N = 1 and for no other N. */
  lemma StartsAtZero(a: int, n: nat)
    requires n > 0 && Gcd(if a < 0 then -a else a, n) == 1
    ensures a % n == 0 <==> n == 1
  {
    if n > 1 {
      GcdMod(a, n);
      CoprimeFacts(a % n, n);
    }
  }

  /** Turns of the first inner loop on TU = 0: the guard holds again after each of them. */
  method HalveZero(turns: nat, U: Mpi, U1: Mpi, U2: Mpi, TA: Mpi, TB: Mpi) returns (r: Status)
    requires U !in {U1, U2, TA, TB} && U1 !in {U2, TA, TB} && U2 !in {TA, TB}
    requires TA.Valid() && TB.Valid() && |TA.p| > 0 && |TB.p| > 0 && TB.Value() % 2 == 1
    requires Combination(U, U1, U2, TA.Value(), TB.Value()) && U.Value() == 0
    modifies U, U1, U2
    ensures !r.Ok? ==> r == AllocFailed
    ensures r.Ok? ==> |U.p| > 0 && U.Value() == 0 && U.p[0] % 2 == 0
  {
    var i := 0;
    while i < turns
      invariant Combination(U, U1, U2, TA.Value(), TB.Value()) && U.Value() == 0
    {
      :- HalveStep(U, U1, U2, TA, TB);
      i := i + 1;
    }
    SignedParity(U);
    return Ok;
  }

  /** The loop as it is entered for N = 1, from TU = A mod 1. */
  method TurnsForOne(TU: Mpi, A: Mpi, N: Mpi, turns: nat) returns (r: Status)
    requires TU !in {A, N} && A.Valid() && |A.p| > 0 && N.Valid() && N.Value() == 1
    modifies TU
    ensures !r.Ok? ==> r == AllocFailed
    ensures r.Ok? ==> |TU.p| > 0 && TU.Value() == 0 && TU.p[0] % 2 == 0
  {
    assert |N.p| > 0;
    hide Val;
    var TA := new Mpi();
    var TB := new Mpi();
    var U1 := new Mpi();
    var U2 := new Mpi();
    :- Reduce(TA, A, N);
    :- Copy(TB, N);
    :- StartTriple(TU, U1, U2, TA, 1, 0, 0, 1);
    r := HalveZero(turns, TU, U1, U2, TA, TB);
  }

  /** N = 1 passes the checks, and after any number of turns the first inner loop has not ended: the
      guard still finds TU even. Only a refused allocation stops it. (An A that was never given limbs
      leaves TU without any, and TU.p[0] is then a read through a null pointer.) */
  method OneNeverEnds(A: Mpi, N: Mpi, turns: nat) returns (r: Status, TU: Mpi)
    requires A.Valid() && |A.p| > 0 && N.Valid() && N.Value() == 1
    ensures fresh(TU)
    ensures r.Ok? || r == AllocFailed
    ensures r.Ok? ==> |TU.p| > 0 && TU.Value() == 0 && TU.p[0] % 2 == 0
  {
    hide Gcd, Val;
    TU := new Mpi();
    var G := new Mpi();
    :- GcdMpi(G, A, N);
    GcdWithOne(A.Abs());
    var c := CmpInt(G, 1);
    if c != 0 {
      return NotAcceptable, TU;
    }
    r := TurnsForOne(TU, A, N, turns);
  }

  /** TA = A mod N for positive N. */
  method Reduce(TA: Mpi, A: Mpi, N: Mpi) returns (r: Status)
    requires TA !in {A, N} && A.Valid() && N.Valid() && N.Value() > 0
    modifies TA
    ensures !r.Ok? ==> r == AllocFailed
    ensures r.Ok? ==> TA.Valid() && TA.Value() == A.Value() % N.Value()
    ensures r.Ok? && |A.p| > 0 ==> |TA.p| > 0
  {
    r := ModMpi(TA, A, N);
  }

  /** The two closing loops. */
  method BringIntoRange(V1: Mpi, N: Mpi) returns (r: Status)
    requires V1 != N && V1.Valid() && N.Valid() && N.Value() > 0
    modifies V1
    ensures !r.Ok? ==> r == AllocFailed
    ensures r.Ok? ==> V1.Valid() && 0 <= V1.Value() < N.Value() && Cong(V1.Value(), old(V1.Value()), N.Value())
  {
    ghost var v, n := V1.Value(), N.Value();
    :- AddUntilNonnegative(V1, N);
    ghost var w := V1.Value();
    :- SubtractUntilBelow(V1, N);
    CongTrans(V1.Value(), w, v, n);
    return Ok;
  }
}
