/** Montgomery arithmetic: mpi_montg_init, mpi_montmul, mpi_montred. */
module Montgomery {
  import opened Arith
  import opened Limbs
  import opened MpiBase
  import opened MpiArith
  import opened MpiMul
  import opened LimbDivision

  // ----- mpi_montg_init -----

  lemma CongDivisor(a: int, b: int, m: int, n: int)
    requires m > 0 && n > 0 && m * n > 0 && Cong(a, b, m * n)
    ensures Cong(a, b, m)
  {
    var k := CongQuotient(a, b, m * n);
    assert k * (m * n) == (k * n) * m by {
      MulAssoc(k, n, m);
    }
    CongBy(a, b, m, k * n);
  }

  lemma WrapCong(x: int)
    ensures Cong(Wrap(x), x, BETA)
  {
    CongMod(x, BETA);
  }

  /** Doubling the precision of an inverse: m * x = 1 + k * n gives m * x' = 1 - k^2 * n^2. */
  lemma NewtonStep(m: int, x: int, n: int)
    requires n > 0 && Cong(m * x, 1, n)
    ensures n * n > 0 && Cong(m * (x * (2 - m * x)), 1, n * n)
  {
    var k := CongQuotient(m * x, 1, n);
    var e := k * n;
    MulLt(n, 0, n);
    assert m * (x * (2 - m * x)) == (1 + e) * (1 - e) by {
      MulAssoc(m, x, 2 - m * x);
    }
    assert (1 + e) * (1 - e) == 1 - e * e;
    assert e * e == (k * k) * (n * n) by {
      MulAssoc(k, n, k * n);
      MulAssoc(n, k, n);
      MulAssoc(k, k, n * n);
      MulAssoc(k, n, n);
    }
    CongBy(m * (x * (2 - m * x)), 1, n * n, -(k * k));
  }

  /** The starting value is an inverse modulo 16. */
  lemma SeedInverse(m: limb)
    requires m % 2 == 1
    ensures Cong(m * Wrap(m + 2 * Wrap((Wrap(m + 2) / 4 % 2) * 4)), 1, 16)
  {
    var b := Wrap(m + 2) / 4 % 2;
    var x := Wrap(m + 8 * b);
    var c := m % 16;
    LowBits(m, b, x);
    CongMul(m, c, x, c + 8 * b, 16);
    SeedResidue(c, b);
    CongTrans(m * x, c * (c + 8 * b), 1, 16);
  }

  /** Only the low four bits count. */
  lemma LowBits(m: limb, b: int, x: int)
    requires b == Wrap(m + 2) / 4 % 2 && x == Wrap(m + 8 * b)
    ensures b == (m % 16 + 2) / 4 % 2
    ensures Cong(m, m % 16, 16) && Cong(x, m % 16 + 8 * b, 16)
    ensures m % 16 % 2 == m % 2
  {
    var c, h := m % 16, m / 16;
    DivModUnique(m, 2, 8 * h + c / 2, c % 2);
    assert m == 16 * h + c;
    CongBy(m, c, 16, h);
    var s := (m + 2) / BETA;
    assert m + 2 == BETA * s + Wrap(m + 2);
    LowQuotient(Wrap(m + 2), h - (BETA / 16) * s, c + 2);
    var t := (m + 8 * b) / BETA;
    assert m + 8 * b == BETA * t + x;
    CongBy(x, c + 8 * b, 16, h - (BETA / 16) * t);
  }

  lemma LowQuotient(v: int, g: int, e: int)
    requires v == 16 * g + e
    ensures v / 4 % 2 == e / 4 % 2
  {
    var k := e / 4;
    DivModUnique(v, 4, 4 * g + k, e % 4);
    DivModUnique(4 * g + k, 2, 2 * g + k / 2, k % 2);
  }

  lemma SeedResidue(c: int, b: int)
    requires 0 <= c < 16 && c % 2 == 1 && b == (c + 2) / 4 % 2
    ensures Cong(c * (c + 8 * b), 1, 16)
  {
    if c < 8 {
      assert c == 1 || c == 3 || c == 5 || c == 7;
    } else {
      assert c == 9 || c == 11 || c == 13 || c == 15;
    }
  }

  /** The step in wrapping arithmetic, modulo BETA. */
  lemma WrappedStep(m: limb, x: limb)
    ensures Cong(Wrap(x * Wrap(2 - Wrap(m * x))), x * (2 - m * x), BETA)
  {
    var p, w := m * x, Wrap(2 - Wrap(m * x));
    assert Cong(w, 2 - p, BETA) by {
      WrapCong(p);
      var t := CongQuotient(Wrap(p), p, BETA);
      CongBy(2 - Wrap(p), 2 - p, BETA, -t);
      WrapCong(2 - Wrap(p));
      CongTrans(w, 2 - Wrap(p), 2 - p, BETA);
    }
    CongScale(w, 2 - p, x, BETA);
    WrapCong(x * w);
    CongTrans(Wrap(x * w), x * w, x * (2 - p), BETA);
  }

  /** One wrapping Newton step from e to 2e correct bits. */
  lemma NewtonLimb(m: limb, x: limb, e: nat)
    requires 2 * e <= BIL && Cong(m * x, 1, Pow2(e))
    ensures Cong(m * Wrap(x * Wrap(2 - Wrap(m * x))), 1, Pow2(2 * e))
  {
    hide Cong, Wrap, Pow2;
    var y := x * (2 - m * x);
    var w := Wrap(x * Wrap(2 - Wrap(m * x)));
    var n := Pow2(2 * e);
    assert Cong(m * y, 1, n) by {
      NewtonStep(m, x, Pow2(e));
      Pow2Add(e, e);
    }
    assert Cong(w, y, n) by {
      WrappedStep(m, x);
      Pow2Limb();
      Pow2Add(2 * e, BIL - 2 * e);
      CongDivisor(w, y, n, Pow2(BIL - 2 * e));
    }
    CongScale(w, y, m, n);
    CongTrans(m * w, m * y, 1, n);
  }

  /** mpi_montg_init: mm * N[0] is -1 modulo BETA. */
  method MontgInit(N: Mpi) returns (mm: limb)
    requires |N.p| > 0 && N.p[0] % 2 == 1
    ensures (mm * N.p[0] + 1) % BETA == 0
  {
    var m0 := N.p[0];
    SeedInverse(m0);
    var x: limb := Wrap(m0 + 2 * Wrap((Wrap(m0 + 2) / 4 % 2) * 4));
    ghost var e := 4;
    assert Pow2(4) == 16;
    var i := BIL;
    while i >= 8
      invariant (i == 32 && e == 4) || (i == 16 && e == 8) || (i == 8 && e == 16) || (i == 4 && e == 32)
      invariant Cong(m0 * x, 1, Pow2(e))
    {
      NewtonLimb(m0, x, e);
      x := Wrap(x * Wrap(2 - Wrap(m0 * x)));
      i := i / 2;
      e := 2 * e;
    }
    Pow2Limb();
    mm := Wrap(BETA - 1 - x + 1);
    NegatedInverse(m0, x, mm);
  }

  lemma NegatedInverse(m: limb, x: limb, mm: limb)
    requires Cong(m * x, 1, BETA) && mm == Wrap(BETA - x)
    ensures (mm * m + 1) % BETA == 0
  {
    var k := CongQuotient(m * x, 1, BETA);
    WrapCong(BETA - x);
    var t := CongQuotient(mm, BETA - x, BETA);
    NegatedProduct(m, x, mm, k, t + 1);
    MultipleMod((t + 1) * m - k, BETA);
  }

  lemma NegatedProduct(m: int, x: int, y: int, k: int, t: int)
    requires m * x - 1 == k * BETA && y == t * BETA - x
    ensures y * m + 1 == (t * m - k) * BETA
  {
    MulDist(m, t * BETA, x);
    MulAssoc(m, t, BETA);
    MulDist(BETA, t * m, k);
  }

  // ----- mpi_montmul -----

  /** The two accumulations of a row: the lowest limb of the window becomes zero. */
  method MontAccumulate(T: Mpi, i: nat, u0: limb, b: seq<limb>, m: nat, N: Mpi, mm: limb) returns (u1: limb)
    requires T != N && 0 < m <= |b| && 0 < |N.p| && i + |N.p| + 2 < |T.p| && m <= |N.p|
    requires (mm * N.p[0] + 1) % BETA == 0
    requires Val(b[..m]) <= Val(N.p) && Val(T.p[i..]) < Val(N.p) + Val(b[..m])
    modifies T`p
    ensures |T.p| == |old(T.p)| && T.p[..i] == old(T.p[..i]) && T.p[i] == 0
    ensures Val(T.p[i..]) == old(Val(T.p[i..])) + u0 * Val(b[..m]) + u1 * Val(N.p)
  {
    var n := |N.p|;
    ghost var d, d0, vb, vn := Val(T.p[i..]), T.p[i], Val(b[..m]), Val(N.p);
    ValParity(T.p[i..]);
    u1 := Wrap((T.p[i] + u0 * b[0]) * mm);
    ValBound(N.p);
    RowBound(d, u0, u1, vb, vn, n, |T.p| - i);
    MulHlp(m, b, T, i, u0);
    assert N.p[..n] == N.p;
    MulHlp(n, N.p, T, i, u1);
    RowVanishes(d0, d, u0, u1, b[..m], N.p, mm);
    ValParity(T.p[i..]);
  }

  /** One row of the product and one of the reduction, and a shift by one limb. The window into T
      starts at limb i; the limb it leaves behind is overwritten with u0. */
  method MontRow(T: Mpi, i: nat, u0: limb, b: seq<limb>, m: nat, N: Mpi, mm: limb) returns (u1: limb)
    requires T != N && 0 < m <= |b| && 0 < |N.p| && i + |N.p| + 2 < |T.p| && m <= |N.p|
    requires (mm * N.p[0] + 1) % BETA == 0
    requires Val(b[..m]) <= Val(N.p) && Val(T.p[i..]) < Val(N.p) + Val(b[..m])
    modifies T`p
    ensures |T.p| == |old(T.p)| && T.p[..i] == old(T.p[..i]) && T.p[i] == u0
    ensures BETA * Val(T.p[i + 1..]) == old(Val(T.p[i..])) + u0 * Val(b[..m]) + u1 * Val(N.p)
    ensures Val(T.p[i + 1..]) < Val(N.p) + Val(b[..m])
  {
    var n := |N.p|;
    ghost var d, vb, vn := Val(T.p[i..]), Val(b[..m]), Val(N.p);
    u1 := MontAccumulate(T, i, u0, b, m, N, mm);
    ValCons(T.p, i);
    ghost var v := T.p[i + 1..];
    RowShrinks(d, u0, u1, vb, vn, Val(v));
    HighLimbZero(v, N.p);
    T.p := T.p[i := u0];
    T.p := T.p[i + n + 2 := 0];
    assert T.p[i + 1..] == v;
  }

  /** Everything a row adds fits two limbs above the modulus. */
  lemma RowBound(d: int, u0: limb, u1: limb, b: int, n: int, k: nat, len: nat)
    requires 0 <= b <= n && 0 <= d < n + b && n < Weight(k) && k + 2 <= len
    ensures 0 <= u0 * b && 0 <= u1 * n
    ensures d + u0 * b + u1 * n < Weight(len)
  {
    MulLe(b, u0, BETA - 1);
    MulLe(n, u1, BETA - 1);
    assert d + u0 * b + u1 * n < BETA * (n + b);
    WeightMonotone(k + 2, len);
  }

  /** The multiple of N is chosen to clear the lowest limb. */
  lemma RowVanishes(d0: limb, d: int, u0: limb, u1: limb, b: seq<limb>, N: seq<limb>, mm: limb)
    requires |b| > 0 && |N| > 0 && d % BETA == d0 && (mm * N[0] + 1) % BETA == 0
    requires u1 == Wrap((d0 + u0 * b[0]) * mm)
    ensures (d + u0 * Val(b) + u1 * Val(N)) % BETA == 0
  {
    hide Cong, Val, Wrap;
    var t := d0 + u0 * b[0];
    LowLimbCong(b);
    LowLimbCong(N);
    CongMod(d, BETA);
    WrapCong(t * mm);
    CongZero(mm * N[0] + 1, BETA);
    RowClasses(d0, d, u0, u1, b[0], Val(b), N[0], Val(N), mm);
    CongZero(d + u0 * Val(b) + u1 * Val(N), BETA);
  }

  lemma RowClasses(d0: int, d: int, u0: int, u1: int, b0: int, b: int, n0: int, n: int, mm: int)
    requires Cong(d0, d, BETA) && Cong(b, b0, BETA) && Cong(n, n0, BETA)
    requires Cong(u1, (d0 + u0 * b0) * mm, BETA) && Cong(mm * n0 + 1, 0, BETA)
    ensures Cong(d + u0 * b + u1 * n, 0, BETA)
  {
    hide Cong;
    var t := d0 + u0 * b0;
    CongSym(d0, d, BETA);
    CongScale(b, b0, u0, BETA);
    CongAdd(d, d0, u0 * b, u0 * b0, BETA);
    CongMul(u1, t * mm, n, n0, BETA);
    CongAdd(d + u0 * b, t, u1 * n, (t * mm) * n0, BETA);
    assert t + (t * mm) * n0 == t * (mm * n0 + 1) by {
      MulAssoc(t, mm, n0);
      MulDist(t, mm * n0, 1);
    }
    CongScale(mm * n0 + 1, 0, t, BETA);
    CongTrans(d + u0 * b + u1 * n, t * (mm * n0 + 1), t * 0, BETA);
  }

  lemma LowLimbCong(p: seq<limb>)
    requires |p| > 0
    ensures Cong(Val(p), p[0], BETA)
  {
    CongBy(Val(p), p[0], BETA, Val(p[1..]));
  }

  /** The window stays below N + B. */
  lemma RowShrinks(d: int, u0: limb, u1: limb, b: int, n: int, v: int)
    requires 0 <= b && 0 <= n && d < n + b && BETA * v == d + u0 * b + u1 * n
    ensures v < n + b
  {
    MulLe(b, u0, BETA - 1);
    MulLe(n, u1, BETA - 1);
    assert BETA * v < BETA * (n + b);
  }

  /** Below twice the modulus nothing reaches the second limb above it. */
  lemma HighLimbZero(p: seq<limb>, N: seq<limb>)
    requires |N| + 1 < |p| && Val(p) < 2 * Val(N)
    ensures p[|N| + 1] == 0
  {
    ValBound(N);
    assert Weight(|N| + 1) == BETA * Weight(|N|);
    ValSmallLimb(p, |N| + 1, |N| + 1);
  }

  /** The row loop: after all limbs of A, the window W satisfies W * BETA^n = A * B + K * N. */
  method MontRows(A: seq<limb>, B: seq<limb>, m: nat, N: Mpi, mm: limb, T: Mpi)
    requires T != N && 0 < m <= |B| && 0 < |N.p| <= |A| && m <= |N.p| && |T.p| >= 2 * (|N.p| + 1)
    requires (mm * N.p[0] + 1) % BETA == 0
    requires Val(B[..m]) <= Val(N.p) && Val(N.p) > 0 && Val(T.p) == 0
    modifies T`p
    ensures |T.p| == |old(T.p)| && T.p[..|N.p|] == A[..|N.p|]
    ensures Val(T.p[|N.p|..]) < Val(N.p) + Val(B[..m])
    ensures Cong(Val(T.p[|N.p|..]) * Weight(|N.p|), Val(A[..|N.p|]) * Val(B[..m]), Val(N.p))
  {
    var n := |N.p|;
    ghost var b, vn := Val(B[..m]), Val(N.p);
    ghost var K := 0;
    var i := 0;
    assert T.p[0..] == T.p;
    while i < n
      invariant 0 <= i <= n && |T.p| == |old(T.p)| && T.p[..i] == A[..i]
      invariant Val(T.p[i..]) < vn + b
      invariant Val(T.p[i..]) * Weight(i) == Val(A[..i]) * b + K * vn
    {
      ghost var d, w, va := Val(T.p[i..]), Weight(i), Val(A[..i]);
      ghost var low := T.p[..i];
      var u1 := MontRow(T, i, A[i], B, m, N, mm);
      assert T.p[..i + 1] == low + [A[i]] == A[..i + 1];
      ValSnoc(A, i);
      RowInvariant(d, Val(T.p[i + 1..]), w, va, A[i], u1, b, vn, K);
      K := K + u1 * w;
      i := i + 1;
    }
    CongBy(Val(T.p[n..]) * Weight(n), Val(A[..n]) * b, vn, K);
  }

  lemma RowInvariant(d: int, d': int, w: int, a: int, u0: int, u1: int, b: int, n: int, k: int)
    requires BETA * d' == d + u0 * b + u1 * n && d * w == a * b + k * n
    ensures d' * (BETA * w) == (a + u0 * w) * b + (k + u1 * w) * n
  {
    calc {
      d' * (BETA * w);
      (BETA * d') * w;
      (d + u0 * b + u1 * n) * w;
      { MulDist(w, d, u0 * b); MulDist(w, d + u0 * b, u1 * n); }
      d * w + (u0 * b) * w + (u1 * n) * w;
      { MulAssoc(u0, b, w); MulAssoc(u0, w, b); MulAssoc(u1, n, w); MulAssoc(u1, w, n); }
      a * b + k * n + (u0 * w) * b + (u1 * w) * n;
      { MulDist(b, a, u0 * w); MulDist(n, k, u1 * w); }
      (a + u0 * w) * b + (k + u1 * w) * n;
    }
  }

  /** What the temporaries of a Montgomery product must be. */
  ghost predicate MontReady(A: Mpi, B: Mpi, N: Mpi, mm: limb, T: Mpi)
    reads A, B, N, T
  {
    T != A && T != B && T != N && A != N && 0 < |N.p| < |A.p| && |B.p| > 0 && |T.p| >= 2 * (|N.p| + 1)
    && (mm * N.p[0] + 1) % BETA == 0 && Val(N.p) > 0
    && Val(A.p) < Weight(|N.p|) && Val(B.p) <= Val(N.p)
  }

  /** mpi_montmul: A = A * B * R^-1 mod N with R = BETA^n. B may be A. */
  method MontMul(A: Mpi, B: Mpi, N: Mpi, mm: limb, T: Mpi)
    requires MontReady(A, B, N, mm, T)
    modifies A`p, T`p
    ensures |A.p| == |old(A.p)| && |T.p| == |old(T.p)|
    ensures Val(A.p) < Val(N.p)
    ensures Cong(Val(A.p) * Weight(|N.p|), old(Val(A.p)) * old(Val(B.p)), Val(N.p))
  {
    var n := |N.p|;
    var m := if |B.p| < n then |B.p| else n;
    ghost var a: int, b: int := Val(A.p), Val(B.p);
    ValBound(N.p);
    ValSmall(A.p, n);
    ShortOperand(B.p, m, n);
    T.p := Zeros(|T.p|);
    ValAllZero(T.p);
    MontRows(A.p, B.p, m, N, mm, T);
    assert Weight(n + 1) == BETA * Weight(n);
    WindowCopied(T.p[n..], A.p, n);
    assert T.p[n..2 * n + 1] == T.p[n..][..n + 1];
    A.p := T.p[n..2 * n + 1] + A.p[n + 1..];
    MontFinish(A, N, T, a * b);
  }

  /** The final conditional subtraction; its twin in the other branch only wastes time. */
  method MontFinish(A: Mpi, N: Mpi, T: Mpi, ghost ab: int)
    requires T != A && T != N && A != N && 0 < |N.p| < |A.p| && |N.p| <= |T.p|
    requires Val(A.p) == Val(T.p[|N.p|..]) < 2 * Val(N.p) && Val(N.p) > 0
    requires Cong(Val(A.p) * Weight(|N.p|), ab, Val(N.p))
    modifies A`p, T`p
    ensures |A.p| == |old(A.p)| && |T.p| == |old(T.p)|
    ensures Val(A.p) < Val(N.p) && Cong(Val(A.p) * Weight(|N.p|), ab, Val(N.p))
  {
    var n := |N.p|;
    var c := CmpAbs(A, N);
    if c >= 0 {
      assert N.p[..n] == N.p;
      FinalSubtraction(Val(A.p), Val(N.p), Weight(n), ab);
      SubHlp(n, N.p, A);
    } else {
      DummyFits(A.p, T.p, n);
      SubHlp(n, A.p, T);
    }
  }

  lemma ShortOperand(p: seq<limb>, m: nat, n: nat)
    requires Val(p) < Weight(n) && m == if |p| < n then |p| else n
    ensures m <= |p| && Val(p[..m]) == Val(p)
  {
    if |p| < n {
      assert p[..m] == p;
    } else {
      ValSmall(p, n);
    }
  }

  /** The n + 1 limbs copied back are the whole window, and A's further limbs are zero already. */
  lemma WindowCopied(w: seq<limb>, a: seq<limb>, n: nat)
    requires n < |a| && n < |w| && Val(a) < Weight(n) && Val(w) < Weight(n + 1)
    ensures Val(w[..n + 1] + a[n + 1..]) == Val(w)
  {
    ValSmall(w, n + 1);
    WeightMonotone(n, n + 1);
    ValSmall(a, n + 1);
    AppendNothing(w[..n + 1], a[n + 1..]);
  }

  lemma AppendNothing(p: seq<limb>, q: seq<limb>)
    requires Val(q) == 0
    ensures Val(p + q) == Val(p)
  {
    ValAppend(p, q);
  }

  lemma FinalSubtraction(w: int, n: int, r: int, ab: int)
    requires n > 0 && Cong(w * r, ab, n)
    ensures Cong((w - n) * r, ab, n)
  {
    MulDist(r, w, n);
    CongBy((w - n) * r, w * r, n, -r);
    CongTrans((w - n) * r, w * r, ab, n);
  }

  /** The subtraction made only for its timing stays inside T. */
  lemma DummyFits(a: seq<limb>, t: seq<limb>, n: nat)
    requires n <= |a| && n <= |t| && Val(a) == Val(t[n..])
    ensures Val(a[..n]) <= Val(t)
  {
    var w, x, y := Weight(n), Val(a), Val(t);
    assert Val(a[..n]) <= x by {
      PrefixBelow(a, n);
    }
    assert x <= y by {
      SuffixBelow(t, n);
    }
  }

  lemma PrefixBelow(p: seq<limb>, n: nat)
    requires n <= |p|
    ensures Val(p[..n]) <= Val(p)
  {
    ValSplit(p, n);
    MulLe(Weight(n), 0, Val(p[n..]));
  }

  lemma SuffixBelow(p: seq<limb>, n: nat)
    requires n <= |p|
    ensures Val(p[n..]) <= Val(p)
  {
    var lo, hi, w := Val(p[..n]), Val(p[n..]), Weight(n);
    assert Val(p) == lo + w * hi by {
      ValSplit(p, n);
    }
    MulLe(hi, 1, w);
  }

  /** mpi_montred: the product with one. */
  method MontRed(A: Mpi, N: Mpi, mm: limb, T: Mpi)
    requires T != A && T != N && A != N && 0 < |N.p| < |A.p| && |T.p| >= 2 * (|N.p| + 1)
    requires (mm * N.p[0] + 1) % BETA == 0 && Val(N.p) > 0 && Val(A.p) < Weight(|N.p|)
    modifies A`p, T`p
    ensures |A.p| == |old(A.p)| && |T.p| == |old(T.p)|
    ensures Val(A.p) < Val(N.p)
    ensures Cong(Val(A.p) * Weight(|N.p|), old(Val(A.p)), Val(N.p))
  {
    ghost var a := Val(A.p);
    var U := OneLimb(1);
    assert Val(U.p) == 1;
    MontMul(A, U, N, mm, T);
    assert a * 1 == a;
  }
}
