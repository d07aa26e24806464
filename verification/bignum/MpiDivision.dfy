/** mbedtls_mpi_div_mpi and mbedtls_mpi_mod_mpi: schoolbook division with corrected trial digits. */
module MpiDivision {
  import opened Arith
  import opened Limbs
  import opened MpiBase
  import opened MpiShift
  import opened MpiArith
  import opened MpiMul
  import opened LimbDivision

  // ----- what division means -----

  function AbsInt(x: int): nat {
    if x < 0 then -x else x
  }

  /** Quotient rounded towards zero. */
  function TruncQuot(a: int, b: int): int
    requires b != 0
  {
    Sgn(a) * Sgn(b) * (AbsInt(a) / AbsInt(b))
  }

  /** Remainder with the sign of the dividend. */
  function TruncRem(a: int, b: int): int
    requires b != 0
  {
    Sgn(a) * (AbsInt(a) % AbsInt(b))
  }

  /** What the pair satisfies... */
  lemma TruncDivision(a: int, b: int)
    requires b != 0
    ensures a == TruncQuot(a, b) * b + TruncRem(a, b)
    ensures AbsInt(TruncRem(a, b)) < AbsInt(b)
    ensures TruncRem(a, b) == 0 || Sgn(TruncRem(a, b)) == Sgn(a)
  {
    var m, d := AbsInt(a), AbsInt(b);
    assert m == d * (m / d) + m % d;
  }

  /** ...and nothing else does. */
  lemma TruncDivisionUnique(a: int, b: int, q: int, r: int)
    requires b != 0 && a == q * b + r && AbsInt(r) < AbsInt(b) && (r == 0 || Sgn(r) == Sgn(a))
    ensures q == TruncQuot(a, b) && r == TruncRem(a, b)
  {
    var s := Sgn(a) * Sgn(b);
    if a == 0 {
      DivModUnique(0, AbsInt(b), if b > 0 then q else -q, 0);
    } else if s == 1 {
      DivModUnique(AbsInt(a), AbsInt(b), q, AbsInt(r));
    } else {
      DivModUnique(AbsInt(a), AbsInt(b), -q, AbsInt(r));
    }
  }

  // ----- the trial digit -----

  /** Leading parts u of x and v of d, both cut at p: a digit that fits the numbers fits the parts. */
  lemma DigitFitsParts(x: int, d: int, p: int, u: int, v: int, q: int)
    requires p > 0 && u * p <= x < u * p + p && v * p <= d && q >= 0
    requires q * d <= x
    ensures q * v <= u
  {
    MulLe(q, v * p, d);
    MulAssoc(q, v, p);
    if q * v >= u + 1 {
      MulLe(p, u + 1, q * v);
      MulDist(p, u, 1);
    }
  }

  /** ...and one that fits leading parts this long is at most one too large for the numbers. */
  lemma DigitAtMostOneTooLarge(x: int, d: int, p: int, u: int, v: int, z: int)
    requires p > 0 && u * p <= x && v * p <= d < v * p + p && v >= BETA
    requires 0 < z < BETA && z * v <= u
    ensures (z - 1) * d <= x
  {
    var y := z - 1;
    MulLe(y, d, v * p + p);
    assert y * (v * p + p) == (y * v + y) * p by {
      MulAssoc(y, v, p);
      MulDist(y, v * p, p);
      MulDist(p, y * v, y);
    }
    assert y * v + y <= u by {
      assert z * v == y * v + v;
    }
    MulLe(p, y * v + y, u);
  }

  /** A number lies within one unit of limb i of what its limbs from i upwards say. */
  lemma LeadingLimbs(p: seq<limb>, i: nat)
    requires i <= |p|
    ensures Val(p[i..]) * Weight(i) <= Val(p) < Val(p[i..]) * Weight(i) + Weight(i)
  {
    var v, w, hi, lo := Val(p), Weight(i), Val(p[i..]), Val(p[..i]);
    assert v == lo + w * hi by {
      ValSplit(p, i);
    }
    assert lo < w by {
      ValBound(p[..i]);
    }
  }

  lemma TopTwoLimbs(p: seq<limb>, i: nat)
    requires i + 1 < |p| && Val(p) < Weight(i + 2)
    ensures Val(p[i..]) == p[i] + BETA * p[i + 1]
  {
    ValSmall(p, i + 2);
    ValCons(p, i);
    ValCons(p, i + 1);
  }

  lemma TopThreeLimbs(p: seq<limb>, i: nat)
    requires i + 2 < |p| && Val(p) < Weight(i + 3)
    ensures Val(p[i..]) == p[i] + BETA * p[i + 1] + BETA * BETA * p[i + 2]
  {
    ValSmall(p, i + 3);
    ValCons(p, i);
    ValCons(p, i + 1);
    ValCons(p, i + 2);
  }

  /** Bounds at the scale of limb i, seen from one limb higher. */
  lemma ScaleUp(v: int, u: int, w: int)
    requires u * w <= v < u * w + w
    ensures u * (BETA * w) <= BETA * v < u * (BETA * w) + BETA * w
  {
    assert u * (BETA * w) == BETA * (u * w);
  }

  /** One limb below, standing for zero below the bottom. */
  function LimbBelow(p: seq<limb>, i: nat): limb
    requires i < |p|
  {
    if i < 1 then 0 else p[i - 1]
  }

  function TwoBelow(p: seq<limb>, i: nat): limb
    requires i < |p|
  {
    if i < 2 then 0 else p[i - 2]
  }

  /** The two-limb divisor part of the test, against BETA times the divisor. */
  lemma DivisorPart(p: seq<limb>, t: nat)
    requires t < |p| && Val(p) < Weight(t + 1)
    ensures var v := LimbBelow(p, t) + BETA * p[t];
            v * Weight(t) <= BETA * Val(p) < v * Weight(t) + Weight(t)
  {
    if t == 0 {
      ValSnoc(p, 0);
      ValSmall(p, 1);
      assert Val(p[..0]) == 0;
    } else {
      TopTwoLimbs(p, t - 1);
      LeadingLimbs(p, t - 1);
      ScaleUp(Val(p), Val(p[t - 1..]), Weight(t - 1));
    }
  }

  /** The three-limb dividend part of the test, against BETA times the dividend. */
  lemma DividendPart(p: seq<limb>, i: nat)
    requires 1 <= i < |p| && Val(p) < Weight(i + 1)
    ensures var u := TwoBelow(p, i) + BETA * p[i - 1] + BETA * BETA * p[i];
            u * Weight(i - 1) <= BETA * Val(p) < u * Weight(i - 1) + Weight(i - 1)
  {
    if i == 1 {
      TopTwoLimbs(p, 0);
      assert p[0..] == p;
    } else {
      TopThreeLimbs(p, i - 2);
      LeadingLimbs(p, i - 2);
      ScaleUp(Val(p), Val(p[i - 2..]), Weight(i - 2));
    }
  }

  lemma ValTwo(x: limb, y: limb, n: nat)
    ensures Val([x, y] + Zeros(n)) == x + BETA * y
  {
    ValGrow([x, y], n);
    assert [x, y][1..] == [y] && [y][1..] == [];
    assert Val([y]) == y;
  }

  lemma ValThree(x: limb, y: limb, z: limb, n: nat)
    ensures Val([x, y, z] + Zeros(n)) == x + BETA * y + BETA * BETA * z
  {
    ValGrow([x, y, z], n);
    assert [x, y, z][1..] == [y, z] && [y, z][1..] == [z] && [z][1..] == [];
    assert Val([z]) == z;
  }

  /** Left side of the test: the two top divisor limbs times the digit. */
  method TestProduct(T1: Mpi, Y: Mpi, t: nat, z: limb) returns (r: Status)
    requires T1 != Y && t < |Y.p| && |T1.p| >= 2
    modifies T1
    ensures r.Ok? ==> |T1.p| >= |old(T1.p)|
    ensures r.Ok? ==> T1.Valid() && T1.Value() == z * (LimbBelow(Y.p, t) + BETA * Y.p[t])
    ensures !r.Ok? ==> r == AllocFailed
  {
    hide Val, LimbBelow;
    r := Ok;
    :- Lset(T1, 0);
    T1.p := T1.p[0 := LimbBelow(Y.p, t)];
    T1.p := T1.p[1 := Y.p[t]];
    assert T1.p == [LimbBelow(Y.p, t), Y.p[t]] + Zeros(|T1.p| - 2);
    ValTwo(LimbBelow(Y.p, t), Y.p[t], |T1.p| - 2);
    r := MulInt(T1, T1, z);
  }

  /** Right side of the test: the three top dividend limbs. */
  method TestDividend(T2: Mpi, X: Mpi, i: nat) returns (r: Status)
    requires T2 != X && 1 <= i < |X.p| && |T2.p| >= 3
    modifies T2
    ensures |T2.p| == |old(T2.p)|
    ensures r.Ok? ==> T2.Valid() && T2.Value() == TwoBelow(X.p, i) + BETA * X.p[i - 1] + BETA * BETA * X.p[i]
    ensures !r.Ok? ==> r == AllocFailed
  {
    r := Ok;
    :- Lset(T2, 0);
    T2.p := T2.p[0 := TwoBelow(X.p, i)];
    T2.p := T2.p[1 := LimbBelow(X.p, i)];
    T2.p := T2.p[2 := X.p[i]];
    assert T2.p == [TwoBelow(X.p, i), X.p[i - 1], X.p[i]] + Zeros(|T2.p| - 3);
    ValThree(TwoBelow(X.p, i), X.p[i - 1], X.p[i], |T2.p| - 3);
    return Ok;
  }

  /** The digit of the quotient x / y at limb j, for x < y * Weight(j + 1). */
  ghost function TrueDigit(x: seq<limb>, y: seq<limb>, j: nat): (q: nat)
    requires Val(y) > 0
  {
    MulLt(Val(y), 0, Weight(j));
    var d := Val(y) * Weight(j);
    Val(x) / d
  }

  /** First guess of a digit: never below the true one. */
  method GuessDigit(X: Mpi, Y: Mpi, i: nat, t: nat) returns (z: limb)
    requires t < i < |X.p| && t < |Y.p| && Y.p[t] > 0
    requires Val(Y.p) < Weight(t + 1) && Val(X.p) < Val(Y.p) * Weight(i - t)
    ensures Val(Y.p) > 0 && z >= TrueDigit(X.p, Y.p, i - t - 1)
  {
    ghost var x, d := Val(X.p), Val(Y.p) * Weight(i - t - 1);
    DigitWeight(Y.p, t, i);
    ghost var q := x / d;
    DigitOf(x, d);
    if X.p[i] >= Y.p[t] {
      return BETA - 1;
    }
    var rem;
    z, rem := IntDivInt(X.p[i], X.p[i - 1], Y.p[t]);
    ghost var u := X.p[i - 1] + BETA * X.p[i];
    TopTwoLimbs(X.p, i - 1);
    LeadingLimbs(X.p, i - 1);
    DigitFitsParts(x, d, Weight(i - 1), u, Y.p[t], q);
    QuotientBelow(u, Y.p[t], q);
  }

  /** The weight of a digit: bounds that come from the divisor's top limb. */
  lemma DigitWeight(p: seq<limb>, t: nat, i: nat)
    requires t < |p| && t < i && p[t] > 0 && Val(p) < Weight(t + 1)
    ensures var d := Val(p) * Weight(i - t - 1);
            d > 0 && p[t] * Weight(i - 1) <= d && d < Weight(i) && Val(p) * Weight(i - t) == BETA * d
  {
    var y, w := Val(p), Weight(i - t - 1);
    assert y * w < Weight(i) by {
      WeightAdd(t + 1, i - t - 1);
      MulLt(w, y, Weight(t + 1));
    }
    DigitWeightBelow(p, t, i, w);
    MulLt(w, 0, p[t]);
    assert Weight(i - t) == BETA * w;
    MulAssoc(y, BETA, w);
    MulAssoc(BETA, y, w);
  }

  lemma DigitWeightBelow(p: seq<limb>, t: nat, i: nat, w: int)
    requires t < |p| && t < i && p[t] > 0 && w == Weight(i - t - 1)
    ensures 0 < p[t] * Weight(i - 1) <= Val(p) * w
  {
    var x, a, y, b := p[t], Weight(t), Val(p), Weight(i - 1);
    assert x * a <= y by {
      ValTop(p, t);
    }
    assert a * w == b by {
      WeightAdd(t, i - t - 1);
    }
    MulLe(w, x * a, y);
    MulAssoc(x, a, w);
    MulLt(b, 0, x);
  }

  lemma DigitOf(x: nat, d: int)
    requires d > 0 && x < BETA * d
    ensures 0 <= x / d < BETA && (x / d) * d <= x < (x / d) * d + d
    ensures x % d == x - (x / d) * d
  {
    var q := x / d;
    assert x == d * q + x % d;
    if q >= BETA {
      MulLe(d, BETA, q);
    }
  }

  /** The limb test rejects a digit only when it is too large; passing it, a digit is at most one too large. */
  lemma TestMeaning(X: seq<limb>, Y: seq<limb>, i: nat, t: nat, z: int)
    requires t < i < |X| && t < |Y| && Y[t] > 0
    requires Val(Y) < Weight(t + 1) && Val(X) < Weight(i + 1)
    requires 0 <= z < BETA
    ensures var v := LimbBelow(Y, t) + BETA * Y[t];
            var u := TwoBelow(X, i) + BETA * X[i - 1] + BETA * BETA * X[i];
            var d := Val(Y) * Weight(i - t - 1);
            (z * v > u ==> z * d > Val(X)) && (z * v <= u && z > 0 ==> (z - 1) * d <= Val(X))
  {
    var v := LimbBelow(Y, t) + BETA * Y[t];
    var u := TwoBelow(X, i) + BETA * X[i - 1] + BETA * BETA * X[i];
    var d, p, w := Val(Y) * Weight(i - t - 1), Weight(i - 1), Weight(i - t - 1);
    assert v * p <= BETA * d < v * p + p by {
      DivisorPart(Y, t);
      ScaleBounds(BETA * Val(Y), v, Weight(t), w);
      WeightAdd(t, i - t - 1);
      MulAssoc(BETA, Val(Y), w);
    }
    DividendPart(X, i);
    ScaledTest(Val(X), d, p, u, v, z);
  }

  /** The meaning of the test for numbers whose BETA-fold multiples have leading parts u and v. */
  lemma ScaledTest(x: int, d: int, p: int, u: int, v: int, z: int)
    requires p > 0 && u * p <= BETA * x < u * p + p && v * p <= BETA * d < v * p + p && v >= BETA
    requires 0 <= z < BETA
    ensures z * v > u ==> z * d > x
    ensures z * v <= u && z > 0 ==> (z - 1) * d <= x
  {
    assert z * (BETA * d) == BETA * (z * d);
    assert (z - 1) * (BETA * d) == BETA * ((z - 1) * d);
    if z * v > u && z * d <= x {
      DigitFitsParts(BETA * x, BETA * d, p, u, v, z);
    }
    if z * v <= u && z > 0 {
      DigitAtMostOneTooLarge(BETA * x, BETA * d, p, u, v, z);
    }
  }

  lemma ScaleBounds(y: int, v: int, a: int, w: int)
    requires v * a <= y < v * a + a && w > 0
    ensures v * (a * w) <= y * w < v * (a * w) + a * w
  {
    MulAssoc(v, a, w);
    MulLe(w, v * a, y);
    MulLt(w, y, v * a + a);
    MulDist(w, v * a, a);
  }

  /** The do-while condition: T1 > T2 for digit z, and what it says about the true digit. */
  method TestDigit(X: Mpi, Y: Mpi, T1: Mpi, T2: Mpi, i: nat, t: nat, z: limb) returns (r: Status, tooLarge: bool)
    requires X != T1 && X != T2 && Y != T1 && Y != T2 && T1 != T2
    requires t < i < |X.p| && t < |Y.p| && Y.p[t] > 0
    requires Val(Y.p) < Weight(t + 1) && Val(X.p) < Val(Y.p) * Weight(i - t)
    requires |T1.p| >= 2 && |T2.p| >= 3
    modifies T1, T2
    ensures !r.Ok? ==> r == AllocFailed
    ensures r.Ok? ==> |T1.p| >= 2 && |T2.p| >= 3
    ensures r.Ok? ==> Val(Y.p) > 0
    ensures r.Ok? && tooLarge ==> z > TrueDigit(X.p, Y.p, i - t - 1)
    ensures r.Ok? && !tooLarge ==> z <= TrueDigit(X.p, Y.p, i - t - 1) + 1
  {
    tooLarge := false;
    :- TestProduct(T1, Y, t, z);
    :- TestDividend(T2, X, i);
    var c := CmpMpi(T1, T2);
    tooLarge := c > 0;
    DigitWeight(Y.p, t, i);
    WeightMonotone(i, i + 1);
    TestMeaning(X.p, Y.p, i, t, z);
    TestDecides(Val(X.p), Val(Y.p) * Weight(i - t - 1), z, tooLarge);
    return Ok, tooLarge;
  }

  lemma TestDecides(x: nat, d: int, z: nat, tooLarge: bool)
    requires d > 0
    requires tooLarge ==> z * d > x
    requires !tooLarge && z > 0 ==> (z - 1) * d <= x
    ensures tooLarge ==> z > x / d
    ensures !tooLarge ==> z <= x / d + 1
  {
    QuotientBelow(x, d, z);
    QuotientBelow(x, d, z - 1);
  }

  /** The guess and the do-while correction of one quotient digit, left in limb i - t - 1 of Z. */
  method TrialDigit(X: Mpi, Y: Mpi, Z: Mpi, T1: Mpi, T2: Mpi, i: nat, t: nat) returns (r: Status)
    requires Distinct(X, Y, Z, T1, T2)
    requires t < i < |X.p| && t < |Y.p| && Y.p[t] > 0 && i - t - 1 < |Z.p|
    requires Val(Y.p) < Weight(t + 1) && Val(X.p) < Val(Y.p) * Weight(i - t)
    requires |T1.p| >= 2 && |T2.p| >= 3
    modifies Z`p, T1, T2
    ensures !r.Ok? ==> r == AllocFailed
    ensures r.Ok? ==> |T1.p| >= 2 && |T2.p| >= 3
    ensures r.Ok? ==> |Z.p| == |old(Z.p)| && Z.p == old(Z.p)[i - t - 1 := Z.p[i - t - 1]]
    ensures r.Ok? ==> Val(Y.p) > 0
    ensures r.Ok? ==> TrueDigit(X.p, Y.p, i - t - 1) <= Z.p[i - t - 1] <= TrueDigit(X.p, Y.p, i - t - 1) + 1
  {
    assert Val(Y.p) > 0 by {
      ValTop(Y.p, t);
    }
    ghost var q := TrueDigit(X.p, Y.p, i - t - 1);
    var j := i - t - 1;
    var guess := GuessDigit(X, Y, i, t);
    Z.p := Z.p[j := guess];
    Z.p := Z.p[j := Wrap((Z.p[j] as int) + 1)];
    ghost var z: int := (guess as int) + 1;
    while true
      invariant q + 1 <= z <= BETA && |Z.p| == |old(Z.p)| && Z.p == old(Z.p)[j := Wrap(z)]
      invariant |T1.p| >= 2 && |T2.p| >= 3
      decreases z
    {
      z := z - 1;
      Z.p := Z.p[j := Wrap((Z.p[j] as int) - 1)];
      var ret, tooLarge := TestDigit(X, Y, T1, T2, i, t, Z.p[j]);
      if ret.IsFailure() {
        return ret;
      }
      if !tooLarge {
        break;
      }
    }
    return Ok;
  }

  ghost predicate Distinct(X: Mpi, Y: Mpi, Z: Mpi, T1: Mpi, T2: Mpi) {
    X != Y && X != Z && X != T1 && X != T2 && Y != Z && Y != T1 && Y != T2 && Z != T1 && Z != T2 && T1 != T2
  }

  /** T := Y * z shifted to limb j, and what that is worth. */
  method ShiftedMultiple(T: Mpi, Y: Mpi, z: limb, j: nat) returns (r: Status)
    requires T != Y && Y.Valid() && Y.s == 1 && |Y.p| > 0
    modifies T
    ensures !r.Ok? ==> r == AllocFailed
    ensures r.Ok? ==> T.Valid() && T.Value() == z * (Val(Y.p) * Weight(j)) && |T.p| >= |old(T.p)| && |T.p| > 0
  {
    ghost var y, w := Val(Y.p), Weight(j);
    :- MulInt(T, Y, z);
    assert T.s == 1 && Val(T.p) == y * z;
    WeightIsPow2(j);
    :- ShiftL(T, BIL * j);
    assert Val(T.p) == z * (y * w) by {
      MulAssoc(z, y, w);
    }
    return Ok;
  }

  /** Same for the divisor itself, by copying. */
  method ShiftedCopy(T: Mpi, Y: Mpi, j: nat) returns (r: Status)
    requires T != Y && Y.Valid() && Y.s == 1 && |Y.p| > 0
    modifies T
    ensures !r.Ok? ==> r == AllocFailed
    ensures r.Ok? ==> T.Valid() && T.Value() == Val(Y.p) * Weight(j) && |T.p| >= |old(T.p)| && |T.p| > 0
  {
    r := Ok;
    :- Copy(T, Y);
    :- ShiftL(T, BIL * j);
    WeightIsPow2(j);
    return Ok;
  }

  /** Subtracting the digit's multiple, with the add-back when the digit was one too large. */
  method SubtractDigit(X: Mpi, Y: Mpi, Z: Mpi, T1: Mpi, j: nat, ghost q: int, ghost d: int) returns (r: Status)
    requires X != Y && X != Z && X != T1 && Y != Z && Y != T1 && Z != T1
    requires X.Valid() && T1.Valid() && Y.s == 1 && |Y.p| > 0 && |T1.p| > 0 && j < |Z.p|
    requires d == Val(Y.p) * Weight(j) && q * d <= X.Value() < q * d + d && q >= 0
    requires T1.Value() == Z.p[j] * d
    requires Z.p[j] == q || (Z.p[j] == q + 1 && Z.p[j] * d == q * d + d)
    modifies X, Z`p, T1
    ensures !r.Ok? ==> r == AllocFailed
    ensures r.Ok? ==> |T1.p| >= |old(T1.p)| && |X.p| >= |old(X.p)| && |Z.p| == |old(Z.p)|
    ensures r.Ok? ==> X.Valid() && Z.p == old(Z.p)[j := Z.p[j]] && Z.p[j] == q
    ensures r.Ok? ==> X.Value() == old(X.Value()) - q * d
  {
    r := Ok;
    :- SubMpi(X, X, T1);
    var c := CmpInt(X, 0);
    if c < 0 {
      :- ShiftedCopy(T1, Y, j);
      :- AddMpi(X, X, T1);
      Z.p := Z.p[j := Wrap((Z.p[j] as int) - 1)];
    }
    return Ok;
  }

  lemma OneTooLarge(z: int, q: int, d: int)
    requires q <= z <= q + 1
    ensures z == q || (z == q + 1 && z * d == q * d + d)
  {
  }

  /** One turn of the main loop: digit j = i - t - 1 of the quotient, and what remains of X. */
  method DivDigit(X: Mpi, Y: Mpi, Z: Mpi, T1: Mpi, T2: Mpi, i: nat, t: nat) returns (r: Status)
    requires Distinct(X, Y, Z, T1, T2)
    requires t < i < |X.p| && t < |Y.p| && Y.p[t] > 0 && i - t - 1 < |Z.p|
    requires Val(Y.p) < Weight(t + 1) && Val(X.p) < Val(Y.p) * Weight(i - t)
    requires X.Valid() && X.Value() >= 0 && Y.s == 1
    requires |T1.p| >= 2 && |T2.p| >= 3
    modifies X, Z`p, T1, T2
    ensures !r.Ok? ==> r == AllocFailed
    ensures r.Ok? ==> |T1.p| >= 2 && |T2.p| >= 3 && |X.p| >= |old(X.p)| && |Z.p| == |old(Z.p)|
    ensures r.Ok? ==> X.Valid() && Z.p == old(Z.p)[i - t - 1 := Z.p[i - t - 1]]
    ensures r.Ok? ==> var d := Val(Y.p) * Weight(i - t - 1);
              0 <= X.Value() < d && old(X.Value()) == Z.p[i - t - 1] * d + X.Value()
  {
    hide Val, Weight;
    var j := i - t - 1;
    ghost var x := Val(X.p);
    :- TrialDigit(X, Y, Z, T1, T2, i, t);
    ghost var d, q, z := Val(Y.p) * Weight(j), TrueDigit(X.p, Y.p, j), Z.p[j];
    assert d > 0 && q * d <= x < q * d + d by {
      DigitWeight(Y.p, t, i);
      DigitOf(x, d);
    }
    OneTooLarge(z, q, d);
    :- ShiftedMultiple(T1, Y, Z.p[j], j);
    :- SubtractDigit(X, Y, Z, T1, j, q, d);
    return Ok;
  }

  // ----- normalisation and the two loops -----

  /** No leading zero limbs. */
  ghost predicate Tight(p: seq<limb>) {
    |p| > 0 && Weight(|p| - 1) <= Val(p)
  }

  lemma TightAfterShift(v: nat, n: nat, k: nat, n': nat)
    requires n > 0 && Weight(n - 1) <= v < Weight(n) && k < BIL
    requires var bits := BitLen(v) + k; n' == if BIL * n < bits then (bits + BIL - 1) / BIL else n
    ensures 0 < n' <= n + 1 && Weight(n' - 1) <= v * Pow2(k)
  {
    hide BitLen, Pow2, Weight;
    var bits, e := BitLen(v) + k, Pow2(k);
    BitLenFits(v, n);
    if BIL * n < bits {
      assert Weight(n' - 1) <= Pow2(bits - 1) by {
        WeightIsPow2(n' - 1);
        Pow2Monotone(BIL * (n' - 1), bits - 1);
      }
      BitLenBound(v);
      Pow2Add(BitLen(v) - 1, k);
      MulLe(e, Pow2(BitLen(v) - 1), v);
    } else {
      MulLe(v, 1, e);
    }
  }

  /** Shifting up by less than a limb keeps a number tight. */
  lemma TightShifted(p: seq<limb>, k: nat, p': seq<limb>)
    requires Tight(p) && k < BIL && Val(p') == Val(p) * Pow2(k)
    requires var bits := BitLen(Val(p)) + k; |p'| == if BIL * |p| < bits then (bits + BIL - 1) / BIL else |p|
    ensures Tight(p') && |p'| <= |p| + 1
  {
    hide Val, BitLen, Pow2, Weight;
    ValBound(p);
    TightAfterShift(Val(p), |p|, k, |p'|);
  }

  /** The shift that gives the divisor's top limb a fixed length of biL - 1 bits. */
  method Normalize(X: Mpi, Y: Mpi) returns (r: Status, k: nat)
    requires X != Y && Tight(X.p) && Tight(Y.p)
    modifies X`p, Y`p
    ensures !r.Ok? ==> r == AllocFailed
    ensures k < BIL
    ensures r.Ok? ==> Tight(X.p) && Val(X.p) == old(Val(X.p)) * Pow2(k)
    ensures r.Ok? ==> Tight(Y.p) && Val(Y.p) == old(Val(Y.p)) * Pow2(k)
    ensures r.Ok? ==> |X.p| <= |old(X.p)| + 1
  {
    hide Tight, Val, BitLen, Pow2;
    var bits := Bitlen(Y);
    k := bits % BIL;
    if k < BIL - 1 {
      k := BIL - 1 - k;
      ghost var x, y := X.p, Y.p;
      :- ShiftL(X, k);
      TightShifted(x, k, X.p);
      :- ShiftL(Y, k);
      TightShifted(y, k, Y.p);
    } else {
      k := 0;
      Pow2Zero();
    }
    return Ok, k;
  }

  lemma BitLenFits(v: nat, n: nat)
    requires v < Weight(n)
    ensures BitLen(v) <= BIL * n
  {
    WeightIsPow2(n);
    BitLenAtMost(v, BIL * n);
  }

  lemma {:induction false} BitLenAtMost(v: nat, m: nat)
    requires v < Pow2(m)
    ensures BitLen(v) <= m
  {
    if v > 0 {
      BitLenAtMost(v / 2, m - 1);
    }
  }

  /** The top digit, by repeated subtraction of the divisor shifted to the dividend's length. */
  method DivTop(X: Mpi, Y: Mpi, Z: Mpi, n: nat, t: nat) returns (r: Status)
    requires X != Y && X != Z && Y != Z
    requires Tight(X.p) && Tight(Y.p) && n == |X.p| - 1 && t == |Y.p| - 1 && t <= n
    requires X.s == 1 && Y.s == 1 && n - t < |Z.p| && Z.p[n - t] == 0
    modifies X, Y, Z`p
    ensures !r.Ok? ==> r == AllocFailed
    ensures r.Ok? ==> Y.s == 1 && Val(Y.p) == old(Val(Y.p)) && |Y.p| > t
    ensures r.Ok? ==> |X.p| > n && X.Valid() && |Z.p| == |old(Z.p)| && Z.p == old(Z.p)[n - t := Z.p[n - t]]
    ensures r.Ok? ==> var d := Val(Y.p) * Weight(n - t);
              0 <= X.Value() < d && old(Val(X.p)) == Z.p[n - t] * d + X.Value()
  {
    ghost var x, y, d := Val(X.p), Val(Y.p), Val(Y.p) * Weight(n - t);
    WeightIsPow2(n - t);
    TopWeight(Y.p, t, n);
    :- ShiftL(Y, BIL * (n - t));
    HasLimb(Y.p, n);
    ValBound(X.p);
    :- CountTop(X, Y, Z, n - t, n);
    r := ShiftR(Y, BIL * (n - t));
    DivModUnique(d, Weight(n - t), y, 0);
  }

  lemma HasLimb(p: seq<limb>, n: nat)
    requires Weight(n) <= Val(p)
    ensures n < |p|
  {
    ValBound(p);
    if |p| <= n {
      WeightMonotone(|p|, n);
    }
  }

  lemma TopWeight(p: seq<limb>, t: nat, n: nat)
    requires t < |p| && Weight(t) <= Val(p) && t <= n
    ensures Weight(n) <= Val(p) * Weight(n - t)
  {
    WeightAdd(t, n - t);
    MulLe(Weight(n - t), Weight(t), Val(p));
  }

  /** The subtractions are counted in the top digit. */
  method CountTop(X: Mpi, Y: Mpi, Z: Mpi, j: nat, n: nat) returns (r: Status)
    requires X != Y && X != Z && Y != Z && j < |Z.p| && Z.p[j] == 0
    requires X.s == 1 && Y.s == 1 && |Y.p| > n && |X.p| > n
    requires Val(X.p) < BETA * Weight(n) && Weight(n) <= Val(Y.p)
    modifies X, Z`p
    ensures !r.Ok? ==> r == AllocFailed
    ensures r.Ok? ==> |X.p| > n && X.Valid() && |Z.p| == |old(Z.p)| && Z.p == old(Z.p)[j := Z.p[j]]
    ensures r.Ok? ==> 0 <= X.Value() < Val(Y.p) && old(Val(X.p)) == Z.p[j] * Val(Y.p) + X.Value()
  {
    ghost var x, d := Val(X.p), Val(Y.p);
    var c := CmpMpi(X, Y);
    while c >= 0
      invariant X.Valid() && |X.p| > n
      invariant |Z.p| == |old(Z.p)| && Z.p == old(Z.p)[j := Z.p[j]]
      invariant X.Value() >= 0 && c == Sgn(X.Value() - d)
      invariant x == Z.p[j] * d + X.Value()
      decreases X.Value()
    {
      CountFits(x, d, Z.p[j], X.Value(), Weight(n));
      Z.p := Z.p[j := Wrap((Z.p[j] as int) + 1)];
      :- SubMpi(X, X, Y);
      c := CmpMpi(X, Y);
    }
    return Ok;
  }

  /** The top digit stays below BETA. */
  lemma CountFits(x: int, d: int, c: int, rest: int, w: int)
    requires w > 0 && d >= w && x < BETA * w && c >= 0 && rest >= d && x == c * d + rest
    ensures c + 1 < BETA && (c + 1) * d == c * d + d
  {
    assert (c + 1) * d == c * d + d;
    MulLe(c + 1, w, d);
    if c + 1 >= BETA {
      MulLe(w, BETA, c + 1);
    }
  }

  /** One turn of the main loop: what leaves X is stored in Z. */
  method DivTurn(X: Mpi, Y: Mpi, Z: Mpi, T1: Mpi, T2: Mpi, i: nat, t: nat) returns (r: Status)
    requires Distinct(X, Y, Z, T1, T2)
    requires t < i < |X.p| && t < |Y.p| && Y.p[t] > 0 && i - t - 1 < |Z.p| && Z.p[i - t - 1] == 0
    requires Val(Y.p) < Weight(t + 1) && X.Valid() && 0 <= X.Value() < Val(Y.p) * Weight(i - t) && Y.s == 1
    requires |T1.p| >= 2 && |T2.p| >= 3
    modifies X, Z`p, T1, T2
    ensures !r.Ok? ==> r == AllocFailed
    ensures r.Ok? ==> |T1.p| >= 2 && |T2.p| >= 3 && |X.p| >= |old(X.p)| && |Z.p| == |old(Z.p)|
    ensures r.Ok? ==> X.Valid() && Z.p == old(Z.p)[i - t - 1 := Z.p[i - t - 1]]
    ensures r.Ok? ==> 0 <= X.Value() < Val(Y.p) * Weight(i - t - 1)
    ensures r.Ok? ==> old(Val(Z.p)) * Val(Y.p) + old(X.Value()) == Val(Z.p) * Val(Y.p) + X.Value()
  {
    ghost var z, x := Z.p, X.Value();
    :- DivDigit(X, Y, Z, T1, T2, i, t);
    DigitStored(z, Z.p, i - t - 1, Val(Y.p), x, X.Value());
    return Ok;
  }

  /** The main loop: one quotient digit per turn, from limb n - t - 1 down to limb 0. */
  method DivLoop(X: Mpi, Y: Mpi, Z: Mpi, T1: Mpi, T2: Mpi, n: nat, t: nat) returns (r: Status)
    requires Distinct(X, Y, Z, T1, T2) && t <= n
    requires n < |X.p| && t < |Y.p| && n - t < |Z.p| && Y.s == 1
    requires Weight(t) <= Val(Y.p) < Weight(t + 1)
    requires X.Valid() && 0 <= X.Value() < Val(Y.p) * Weight(n - t)
    requires forall j :: 0 <= j < n - t ==> Z.p[j] == 0
    requires |T1.p| >= 2 && |T2.p| >= 3
    modifies X, Z`p, T1, T2
    ensures !r.Ok? ==> r == AllocFailed
    ensures r.Ok? ==> X.Valid() && 0 <= X.Value() < Val(Y.p)
    ensures r.Ok? ==> old(Val(Z.p)) * Val(Y.p) + old(X.Value()) == Val(Z.p) * Val(Y.p) + X.Value()
    ensures r.Ok? ==> |X.p| > n && |Z.p| == |old(Z.p)|
  {
    ghost var y := Val(Y.p);
    TopLimb(Y.p, t);
    var i := n;
    while i > t
      invariant t <= i <= n < |X.p| && n - t < |Z.p| == |old(Z.p)|
      invariant |T1.p| >= 2 && |T2.p| >= 3
      invariant X.Valid() && 0 <= X.Value() < y * Weight(i - t)
      invariant forall j :: 0 <= j < i - t ==> Z.p[j] == 0
      invariant old(Val(Z.p)) * y + old(X.Value()) == Val(Z.p) * y + X.Value()
    {
      :- DivTurn(X, Y, Z, T1, T2, i, t);
      i := i - 1;
    }
    assert y * Weight(0) == y;
    return Ok;
  }

  lemma TopLimb(p: seq<limb>, t: nat)
    requires t < |p| && Weight(t) <= Val(p) < Weight(t + 1)
    ensures p[t] > 0
  {
    ValSmall(p, t + 1);
    ValSnoc(p, t);
    ValBound(p[..t]);
  }

  lemma DigitStored(z: seq<limb>, z': seq<limb>, j: nat, y: int, x: int, x': int)
    requires j < |z| == |z'| && z[j] == 0 && z' == z[j := z'[j]]
    requires x == z'[j] * (y * Weight(j)) + x'
    ensures Val(z) * y + x == Val(z') * y + x'
  {
    ValUpdate(z, j, z'[j]);
    DigitIdentity(Val(z), Val(z'), z'[j], Weight(j), y);
  }

  lemma DigitIdentity(v: int, v': int, q: int, w: int, y: int)
    requires v' == v + q * w
    ensures v' * y == v * y + q * (y * w)
  {
    MulAssoc(q, w, y);
    MulAssoc(q, y, w);
    MulDist(y, v, q * w);
  }

  /** mbedtls_mpi_div_mpi: A = Q * B + R. Q and R may be absent; R may be A or B, Q may not. */
  method DivMpi(Q: Mpi?, R: Mpi?, A: Mpi, B: Mpi) returns (r: Status)
    requires A.Valid() && B.Valid()
    requires Q != null ==> Q != A && Q != B && Q != R
    modifies Q, R
    ensures r == DivisionByZero <==> old(B.Value()) == 0
    ensures r.Ok? || r == DivisionByZero || r == AllocFailed
    ensures r.Ok? && Q != null ==> Q.Valid() && Q.Value() == TruncQuot(old(A.Value()), old(B.Value()))
    ensures r.Ok? && R != null ==> R.Valid() && R.Value() == TruncRem(old(A.Value()), old(B.Value()))
    ensures r.Ok? && R != null && |old(A.p)| > 0 ==> |R.p| >= 1 && |R.p| >= |old(R.p)|
    ensures r.Ok? && R != null && |old(A.p)| > 0 && old(A.s) == 1 ==> R.s == 1
  {
    hide AbsInt, TruncQuot, TruncRem, Pow2, Val;
    ghost var a, b := A.Value(), B.Value();
    var z := CmpInt(B, 0);
    if z == 0 {
      return DivisionByZero;
    }
    SignedAbs(A);
    SignedAbs(B);
    var c := CmpAbs(A, B);
    if c < 0 {
      SmallDividend(a, b);
      if Q != null {
        :- Lset(Q, 0);
      }
      if R != null {
        :- Copy(R, A);
      }
      return Ok;
    }
    var X := new Mpi();
    var Z := new Mpi();
    var k;
    r, k := DivMagnitudes(X, Z, A, B);
    if r.IsFailure() {
      return;
    }
    TruncParts(a, b, A.s, B.s);
    if Q != null {
      :- StoreQuotient(Q, Z, A.s * B.s);
    }
    if R != null {
      :- StoreRemainder(R, X, k, A.s, Val(A.p) % Val(B.p));
    }
    return Ok;
  }

  /** The tail of mbedtls_mpi_div_mpi: undo the normalising shift and attach the sign. */
  method StoreQuotient(Q: Mpi, Z: Mpi, sign: int) returns (r: Status)
    requires Q != Z && (sign == 1 || sign == -1) && Z.Valid()
    modifies Q
    ensures !r.Ok? ==> r == AllocFailed
    ensures r.Ok? ==> Q.Valid() && Q.Value() == sign * Val(Z.p)
  {
    r := Ok;
    :- Copy(Q, Z);
    Q.s := sign;
    return Ok;
  }

  method StoreRemainder(R: Mpi, X: Mpi, k: nat, sign: int, ghost m: int) returns (r: Status)
    requires R != X && (sign == 1 || sign == -1) && k < BIL && |X.p| > 0 && m >= 0
    requires Val(X.p) == m * Pow2(k)
    modifies R, X
    ensures !r.Ok? ==> r == AllocFailed
    ensures r.Ok? ==> R.Valid() && R.Value() == sign * m && |R.p| >= 1 && |R.p| >= |old(R.p)|
    ensures r.Ok? && sign == 1 ==> R.s == 1
  {
    MultipleMod(m, Pow2(k));
    :- ShiftR(X, k);
    X.s := sign;
    :- Copy(R, X);
    var e := CmpInt(R, 0);
    if e == 0 {
      R.s := 1;
    }
    return Ok;
  }

  lemma TruncParts(a: int, b: int, s: int, t: int)
    requires b != 0 && a != 0 && s == Sgn(a) && t == Sgn(b)
    ensures s * t == Sgn(a) * Sgn(b)
    ensures TruncQuot(a, b) == (s * t) * (AbsInt(a) / AbsInt(b))
    ensures TruncRem(a, b) == s * (AbsInt(a) % AbsInt(b))
  {
  }

  lemma SignedAbs(A: Mpi)
    requires A.Valid()
    ensures AbsInt(A.Value()) == Val(A.p)
    ensures A.Value() != 0 ==> Sgn(A.Value()) == A.s
  {
  }

  lemma SmallDividend(a: int, b: int)
    requires AbsInt(a) < AbsInt(b)
    ensures TruncQuot(a, b) == 0 && TruncRem(a, b) == a
  {
    DivModUnique(AbsInt(a), AbsInt(b), 0, AbsInt(a));
  }

  /** The division proper, on copies of the operands: X is left holding the remainder times 2^k. */
  method DivMagnitudes(X: Mpi, Z: Mpi, A: Mpi, B: Mpi) returns (r: Status, k: nat)
    requires X != Z && X != A && X != B && Z != A && Z != B && X.p == [] && Z.p == []
    requires Val(A.p) >= Val(B.p) > 0
    modifies X, Z
    ensures !r.Ok? ==> r == AllocFailed
    ensures r.Ok? ==> k < BIL && Z.Valid() && Val(Z.p) == Val(A.p) / Val(B.p) && |Z.p| > 0
    ensures r.Ok? ==> Val(X.p) == (Val(A.p) % Val(B.p)) * Pow2(k) && |X.p| > 0
  {
    k := 0;
    var Y := new Mpi();
    var T1 := new Mpi();
    var T2 := new Mpi();
    r, k := DivPrepare(X, Y, Z, T1, T2, A, B);
    if r.IsFailure() {
      return;
    }
    r := DivScaled(X, Y, Z, T1, T2);
    if r.IsFailure() {
      return;
    }
    UnscaledDivision(Val(A.p), Val(B.p), Pow2(k), Val(Z.p), X.Value());
  }

  /** Copies of the operands, both scaled so that the divisor is normalised. */
  method DivPrepare(X: Mpi, Y: Mpi, Z: Mpi, T1: Mpi, T2: Mpi, A: Mpi, B: Mpi) returns (r: Status, k: nat)
    requires Distinct(X, Y, Z, T1, T2) && A !in {X, Y, Z, T1, T2} && B !in {X, Y, Z, T1, T2}
    requires X.p == [] && Y.p == [] && Z.p == []
    requires Val(A.p) >= Val(B.p) > 0
    modifies X, Y, Z, T1, T2
    ensures !r.Ok? ==> r == AllocFailed
    ensures k < BIL
    ensures r.Ok? ==> X.s == 1 && Y.s == 1 && Z.s == 1 && Tight(X.p) && Tight(Y.p)
    ensures r.Ok? ==> Val(X.p) == Val(A.p) * Pow2(k) && Val(Y.p) == Val(B.p) * Pow2(k) && Val(Y.p) <= Val(X.p)
    ensures r.Ok? ==> Z.p == Zeros(|Z.p|) && |X.p| < |Z.p| && |T1.p| >= 2 && |T2.p| >= 3
  {
    hide Tight, Val, Pow2;
    k := 0;
    r := DivCopies(X, Y, Z, T1, T2, A, B);
    if r.IsFailure() {
      return;
    }
    r, k := Normalize(X, Y);
    MulLe(Pow2(k), Val(B.p), Val(A.p));
  }

  /** Top digit, then the rest. */
  method DivScaled(X: Mpi, Y: Mpi, Z: Mpi, T1: Mpi, T2: Mpi) returns (r: Status)
    requires Distinct(X, Y, Z, T1, T2) && X.s == 1 && Y.s == 1
    requires Tight(X.p) && Tight(Y.p) && Val(Y.p) <= Val(X.p)
    requires Z.p == Zeros(|Z.p|) && |X.p| < |Z.p| && |T1.p| >= 2 && |T2.p| >= 3
    modifies X, Y, Z, T1, T2
    ensures !r.Ok? ==> r == AllocFailed
    ensures r.Ok? ==> X.Valid() && Z.s == old(Z.s) && |X.p| > 0 && |Z.p| > 0
    ensures r.Ok? ==> 0 <= X.Value() < old(Val(Y.p))
    ensures r.Ok? ==> old(Val(X.p)) == Val(Z.p) * old(Val(Y.p)) + X.Value()
  {
    var n, t := |X.p| - 1, |Y.p| - 1;
    TightOrder(X.p, Y.p);
    ValBound(Y.p);
    ghost var a, y := Val(X.p), Val(Y.p);
    :- DivTop(X, Y, Z, n, t);
    TopDigitValue(Z.p, n - t);
    DigitIdentity(0, Val(Z.p), Z.p[n - t], Weight(n - t), y);
    assert Val(Z.p) * y + X.Value() == a;
    :- DivLoop(X, Y, Z, T1, T2, n, t);
    return Ok;
  }

  /** The temporaries of the division: copies of the operands and zeros. */
  method DivCopies(X: Mpi, Y: Mpi, Z: Mpi, T1: Mpi, T2: Mpi, A: Mpi, B: Mpi) returns (r: Status)
    requires Distinct(X, Y, Z, T1, T2) && A !in {X, Y, Z, T1, T2} && B !in {X, Y, Z, T1, T2}
    requires X.p == [] && Y.p == [] && Z.p == []
    requires Val(A.p) > 0 && Val(B.p) > 0
    modifies X, Y, Z, T1, T2
    ensures !r.Ok? ==> r == AllocFailed
    ensures r.Ok? ==> X.s == 1 && Val(X.p) == Val(A.p) && Tight(X.p) && |X.p| <= |A.p|
    ensures r.Ok? ==> Y.s == 1 && Val(Y.p) == Val(B.p) && Tight(Y.p)
    ensures r.Ok? ==> |Z.p| == |A.p| + 2 && Z.p == Zeros(|Z.p|) && Z.s == 1
    ensures r.Ok? ==> |T1.p| >= 2 && |T2.p| >= 3
  {
    r := Ok;
    :- Copy(X, A);
    :- Copy(Y, B);
    X.s, Y.s := 1, 1;
    CopyTight(X.p);
    CopyTight(Y.p);
    :- Grow(Z, |A.p| + 2);
    :- Lset(Z, 0);
    assert Z.p == Zeros(|Z.p|);
    :- Grow(T1, 2);
    :- Grow(T2, 3);
    return Ok;
  }

  lemma CopyTight(p: seq<limb>)
    requires |p| > 0 && p[|p| - 1] != 0
    ensures Tight(p)
  {
    ValTop(p, |p| - 1);
    MulLe(Weight(|p| - 1), 1, p[|p| - 1]);
  }

  /** The longer of two tight numbers is the larger. */
  lemma TightOrder(p: seq<limb>, q: seq<limb>)
    requires Tight(p) && Tight(q) && Val(q) <= Val(p)
    ensures |q| <= |p|
  {
    ValBound(p);
    if |p| < |q| {
      WeightMonotone(|p|, |q| - 1);
    }
  }

  lemma TopDigitValue(z: seq<limb>, j: nat)
    requires j < |z| && forall k :: 0 <= k < |z| && k != j ==> z[k] == 0
    ensures Val(z) == z[j] * Weight(j)
  {
    var o := z[j := 0];
    ValAllZero(o);
    ValUpdate(o, j, z[j]);
    assert o[j := z[j]] == z;
  }

  /** Scaling both operands leaves the quotient alone and scales the remainder. */
  lemma UnscaledDivision(a: nat, b: nat, e: int, q: int, x: int)
    requires b > 0 && e > 0 && a * e == q * (b * e) + x && 0 <= x < b * e
    ensures q == a / b && x == (a % b) * e
  {
    Denormalize(a, b, e, q, x);
    assert a == b * q + a % b;
    MulAssoc(q, b, e);
    MulDist(e, b * q, a % b);
  }

  /** The loop that adds B while R is negative. */
  method AddUntilNonnegative(R: Mpi, B: Mpi) returns (r: Status)
    requires R != B && R.Valid() && B.Valid() && B.Value() > 0
    modifies R
    ensures !r.Ok? ==> r == AllocFailed
    ensures r.Ok? ==> R.Valid() && R.Value() >= 0 && |R.p| >= |old(R.p)|
    ensures r.Ok? ==> Cong(R.Value(), old(R.Value()), B.Value())
    ensures r.Ok? ==> R.Value() < B.Value() || R.Value() == old(R.Value())
    ensures r.Ok? && old(R.Value()) >= 0 ==> R.s == old(R.s) && R.Value() == old(R.Value())
  {
    ghost var v, b := R.Value(), B.Value();
    CongRefl(v, b);
    var c := CmpInt(R, 0);
    while c < 0
      invariant R.Valid() && c == Sgn(R.Value()) && |R.p| >= |old(R.p)| && |B.p| > 0
      invariant Cong(R.Value(), v, b) && (R.Value() < b || R.Value() == v)
      invariant v >= 0 ==> R.s == old(R.s) && R.Value() == v
      decreases -R.Value()
    {
      CongStep(R.Value(), b, v, b);
      :- AddMpi(R, R, B);
      c := CmpInt(R, 0);
    }
    return Ok;
  }

  /** The loop that subtracts B while R is not below it. */
  method SubtractUntilBelow(R: Mpi, B: Mpi) returns (r: Status)
    requires R != B && R.Valid() && B.Valid() && B.Value() > 0 && R.Value() >= 0
    modifies R
    ensures !r.Ok? ==> r == AllocFailed
    ensures r.Ok? ==> R.Valid() && 0 <= R.Value() < B.Value() && |R.p| >= |old(R.p)|
    ensures r.Ok? ==> Cong(R.Value(), old(R.Value()), B.Value())
    ensures r.Ok? && old(R.Value()) < B.Value() ==> R.s == old(R.s)
  {
    ghost var v, b := R.Value(), B.Value();
    CongRefl(v, b);
    var c := CmpMpi(R, B);
    while c >= 0
      invariant R.Valid() && c == Sgn(R.Value() - b) && |R.p| >= |old(R.p)| && |B.p| > 0
      invariant R.Value() >= 0 && Cong(R.Value(), v, b)
      invariant v < b ==> R.s == old(R.s) && R.Value() == v
      decreases R.Value()
    {
      CongStep(R.Value(), -b, v, b);
      :- SubMpi(R, R, B);
      c := CmpMpi(R, B);
    }
    return Ok;
  }

  lemma CongStep(x: int, d: int, v: int, b: int)
    requires b > 0 && (d == b || d == -b) && Cong(x, v, b)
    ensures Cong(x + d, v, b)
  {
    CongBy(x + d, x, b, if d == b then 1 else -1);
    CongTrans(x + d, x, v, b);
  }

  /** mbedtls_mpi_mod_mpi: R = A mod B in [0, B). R may be A, not B. */
  method ModMpi(R: Mpi, A: Mpi, B: Mpi) returns (r: Status)
    requires A.Valid() && B.Valid() && R != B
    modifies R
    ensures r == NegativeValue <==> B.Value() < 0
    ensures r == DivisionByZero <==> B.Value() == 0
    ensures r.Ok? || r == NegativeValue || r == DivisionByZero || r == AllocFailed
    ensures r.Ok? ==> R.Valid() && R.Value() == old(A.Value()) % B.Value()
    ensures r.Ok? && |old(A.p)| > 0 ==> |R.p| >= 1 && |R.p| >= |old(R.p)|
    ensures r.Ok? && |old(A.p)| > 0 && old(A.s) == 1 ==> R.s == 1
  {
    ghost var a, b := A.Value(), B.Value();
    var c := CmpInt(B, 0);
    if c < 0 {
      return NegativeValue;
    }
    :- DivMpi(null, R, A, B);
    RemCongruent(a, b);
    TruncDivision(a, b);
    :- AddUntilNonnegative(R, B);
    CongTrans(R.Value(), TruncRem(a, b), a, b);
    ghost var v := R.Value();
    :- SubtractUntilBelow(R, B);
    CongTrans(R.Value(), v, a, b);
    CongUnique(R.Value(), a, b);
    return Ok;
  }

  lemma RemCongruent(a: int, b: int)
    requires b > 0
    ensures Cong(TruncRem(a, b), a, b)
  {
    TruncDivision(a, b);
    CongBy(TruncRem(a, b), a, b, -TruncQuot(a, b));
  }
}
