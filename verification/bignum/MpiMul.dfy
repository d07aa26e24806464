/** Multiplication: the multiply-accumulate step, one row, and the whole product. */
module MpiMul {
  import opened Arith
  import opened Limbs
  import opened MpiBase
  import opened MpiArith

  /** Adding a limb to a double-width number kept as r0 + BETA * r1, in wrapping arithmetic. */
  lemma AccumulateLimb(r0: limb, r1: int, x: limb)
    requires 0 <= r1 && r0 + BETA * r1 + x < BETA * BETA
    ensures var y := (r0 + x) % BETA;
            var h := if y < x then 1 else 0;
            0 <= r1 + h < BETA && y + BETA * (r1 + h) == r0 + BETA * r1 + x
  {
  }

  /** The pair of statements that add one limb and count the wrap: r0 += x; r1 += (r0 < x). */
  method Accumulate(r0: limb, r1: limb, x: limb) returns (lo: limb, hi: limb)
    requires r0 + BETA * r1 + x < BETA * BETA
    ensures lo + BETA * hi == r0 + BETA * r1 + x
  {
    AccumulateLimb(r0, r1, x);
    lo := (r0 + x) % BETA;
    hi := (r1 + if lo < x then 1 else 0) % BETA;
  }

  lemma LimbProductBound(x: int, y: int, m: int)
    requires 0 <= x < m && 0 <= y < m
    ensures 0 <= x * y <= (m - 1) * (m - 1)
  {
    MulLe(x, y, m - 1);
    MulLe(m - 1, x, m - 1);
  }

  /** MULADDC_CORE with a double-width type: r := s * b + c + d, split in two limbs. */
  method MulAddC(s: limb, b: limb, c: limb, d: limb) returns (lo: limb, hi: limb)
    ensures lo + BETA * hi == s * b + c + d
  {
    var r := s * b;
    LimbProductBound(s, b, BETA);
    var r0, r1 := r % BETA, r / BETA;
    lo, hi := Accumulate(r0, r1, c);
    lo, hi := Accumulate(lo, hi, d);
  }

  /** The four partial products of two limbs cut in halves. */
  lemma HalfProducts(s0: int, s1: int, b0: int, b1: int)
    ensures (s0 + RADIX * s1) * (b0 + RADIX * b1) ==
            s0 * b0 + RADIX * (s0 * b1) + RADIX * (s1 * b0) + BETA * (s1 * b1)
  {
    calc {
      (s0 + RADIX * s1) * (b0 + RADIX * b1);
      { MulDist(s0 + RADIX * s1, b0, RADIX * b1); }
      (s0 + RADIX * s1) * b0 + (s0 + RADIX * s1) * (RADIX * b1);
      s0 * b0 + RADIX * (s1 * b0) + RADIX * (s0 * b1) + RADIX * RADIX * (s1 * b1);
    }
  }

  /** A half-limb cross product enters the sum in two parts. */
  lemma CrossTerm(rx: limb)
    ensures RADIX * rx == (rx * RADIX) % BETA + BETA * (rx / RADIX)
  {
    ScaleHalf(rx);
  }

  lemma ScaleHalf(x: limb)
    ensures (x * RADIX) % BETA == (x % RADIX) * RADIX
  {
    assert x == RADIX * (x / RADIX) + x % RADIX;
    assert x * RADIX == BETA * (x / RADIX) + (x % RADIX) * RADIX;
  }

  /** MULADDC_CORE without a double-width type: half-limb products and wrapping sums. */
  method MulAddCHalves(s: limb, b: limb, c: limb, d: limb) returns (lo: limb, hi: limb)
    ensures lo + BETA * hi == s * b + c + d
  {
    ghost var total := s * b + c + d;
    LimbProductBound(s, b, BETA);
    ScaleHalf(b);
    ScaleHalf(s);
    var b0, b1 := ((b * RADIX) % BETA) / RADIX, b / RADIX;
    var s0, s1 := ((s * RADIX) % BETA) / RADIX, s / RADIX;
    LimbProductBound(s0, b1, RADIX);
    LimbProductBound(s0, b0, RADIX);
    LimbProductBound(s1, b0, RADIX);
    LimbProductBound(s1, b1, RADIX);
    HalfProducts(s0, s1, b0, b1);
    var rx, ry := s0 * b1, s1 * b0;
    var r0, r1 := s0 * b0, s1 * b1;
    CrossTerm(rx);
    CrossTerm(ry);
    lo, hi := SumHalves(rx, ry, r0, r1, c, d);
  }

  /** The additions of the half-limb step; nothing leaves the upper limb. */
  method SumHalves(rx0: limb, ry0: limb, low: limb, high: limb, c: limb, d: limb) returns (r0: limb, r1: limb)
    requires low + RADIX * rx0 + RADIX * ry0 + BETA * high + c + d < BETA * BETA
    ensures r0 + BETA * r1 == low + RADIX * rx0 + RADIX * ry0 + BETA * high + c + d
  {
    var rx, ry := rx0, ry0;
    r0, r1 := low, high;
    HighPart(low, rx0, ry0, high);
    r1 := (r1 + rx / RADIX) % BETA;
    r1 := (r1 + ry / RADIX) % BETA;
    rx := (rx * RADIX) % BETA;
    ry := (ry * RADIX) % BETA;
    r0, r1 := Accumulate(r0, r1, rx);
    r0, r1 := Accumulate(r0, r1, ry);
    r0, r1 := Accumulate(r0, r1, c);
    r0, r1 := Accumulate(r0, r1, d);
  }

  /** The upper halves of the cross terms go into the upper limb without a carry. */
  lemma HighPart(low: limb, rx: limb, ry: limb, high: limb)
    requires low + RADIX * rx + RADIX * ry + BETA * high < BETA * BETA
    ensures var r := (high + rx / RADIX) % BETA;
            var r' := (r + ry / RADIX) % BETA;
            low + RADIX * rx + RADIX * ry + BETA * high == low + (rx * RADIX) % BETA + (ry * RADIX) % BETA + BETA * r'
  {
    CrossTerm(rx);
    CrossTerm(ry);
  }

  /** One step of a row: what is stored plus the new carry is the old limb, the product and the old carry. */
  lemma MulStep(d: seq<limb>, d': seq<limb>, i: nat, s: limb, b: limb, c: int, c': int, sum: int)
    requires i < |d| == |d'| && d' == d[i := d'[i]]
    requires d'[i] + BETA * c' == d[i] + s * b + c
    requires Val(d) + c * Weight(i) == sum
    ensures Val(d') + c' * Weight(i + 1) == sum + b * (s * Weight(i))
  {
    var w := Weight(i);
    ValUpdate(d, i, d'[i]);
    calc {
      Val(d') + c' * (BETA * w);
      Val(d) + (d'[i] - d[i] + BETA * c') * w;
      Val(d) + (s * b + c) * w;
      { MulAssoc(b, s, w); }
      sum + b * (s * w);
    }
  }

  /** mpi_mul_hlp: d += b * s over the first n limbs of s, d being X's limbs from o upwards.
      The carry runs on until it is absorbed, inside d because the sum fits. The 16- and
      8-fold unrolled loops of the source repeat the same step. */
  method MulHlp(n: nat, s: seq<limb>, X: Mpi, o: nat, b: limb)
    requires n <= |s| && o + n < |X.p|
    requires Val(X.p[o..]) + b * Val(s[..n]) < Weight(|X.p| - o)
    modifies X`p
    ensures |X.p| == |old(X.p)| && X.p[..o] == old(X.p[..o])
    ensures Val(X.p[o..]) == old(Val(X.p[o..])) + b * Val(s[..n])
  {
    ghost var v, len := Val(X.p[o..]), |X.p|;
    var i := 0;
    var c: limb := 0;
    while i < n
      invariant 0 <= i <= n && |X.p| == len && X.p[..o] == old(X.p[..o])
      invariant Val(X.p[o..]) + c * Weight(i) == v + b * Val(s[..i])
    {
      ghost var d := X.p[o..];
      var lo, hi := MulAddC(s[i], b, c, X.p[o + i]);
      X.p := X.p[o + i := lo];
      assert X.p[o..] == d[i := lo];
      MulStep(d, X.p[o..], i, s[i], b, c, hi, v + b * Val(s[..i]));
      ValSnoc(s, i);
      MulDist(b, Val(s[..i]), s[i] * Weight(i));
      c := hi;
      i := i + 1;
    }
    MulCarry(X, o, n, c);
  }

  /** The closing do-while of mpi_mul_hlp. */
  method MulCarry(X: Mpi, o: nat, n: nat, carry: limb)
    requires o + n < |X.p|
    requires Val(X.p[o..]) + carry * Weight(n) < Weight(|X.p| - o)
    modifies X`p
    ensures |X.p| == |old(X.p)| && X.p[..o] == old(X.p[..o])
    ensures Val(X.p[o..]) == old(Val(X.p[o..])) + carry * Weight(n)
  {
    ghost var sum, len := Val(X.p[o..]) + carry * Weight(n), |X.p|;
    var i := n;
    var c: limb := carry;
    c := MulCarryStep(X, o, i, c);
    i := i + 1;
    while c != 0
      invariant n <= i && o < |X.p| == len && X.p[..o] == old(X.p[..o])
      invariant Val(X.p[o..]) + c * Weight(i) == sum
      decreases len - i
    {
      CarryInside(Val(X.p[o..]), c, i, len - o);
      c := MulCarryStep(X, o, i, c);
      i := i + 1;
    }
  }

  /** A carry that is still pending has a limb to go to when the sum fits. */
  lemma CarryInside(v: nat, c: nat, i: nat, m: nat)
    requires c > 0 && v + c * Weight(i) < Weight(m)
    ensures i < m
  {
    MulLe(Weight(i), 1, c);
    if m <= i {
      WeightMonotone(m, i);
    }
  }

  method MulCarryStep(X: Mpi, o: nat, i: nat, c: limb) returns (c': limb)
    requires o + i < |X.p|
    modifies X`p
    ensures |X.p| == |old(X.p)| && X.p[..o] == old(X.p[..o])
    ensures Val(X.p[o..]) + c' * Weight(i + 1) == old(Val(X.p[o..])) + c * Weight(i)
  {
    ghost var d := X.p[o..];
    X.p := X.p[o + i := (X.p[o + i] + c) % BETA];
    c' := if X.p[o + i] < c then 1 else 0;
    assert X.p[o..] == d[i := X.p[o + i]];
    MulStep(d, X.p[o..], i, 0, 0, c, c', Val(d) + c * Weight(i));
  }

  /** mbedtls_mpi_mul_mpi: X = A * B, row by row from the top limb of B. */
  method MulMpi(X: Mpi, A: Mpi, B: Mpi) returns (r: Status)
    requires A.Valid() && B.Valid()
    modifies X
    ensures r.Ok? ==> X.Valid() && X.Value() == old(A.Value()) * old(B.Value())
    ensures r.Ok? && |old(A.p)| > 0 && |old(B.p)| > 0 ==> X.s == old(A.s) * old(B.s)
    ensures r.Ok? ==> |X.p| >= 1 && |X.p| >= |old(X.p)|
    ensures !r.Ok? ==> r == AllocFailed
  {
    var a, b := A, B;
    if X == A {
      var TA := new Mpi();
      :- Copy(TA, A);
      a := TA;
    }
    if X == B {
      var TB := new Mpi();
      :- Copy(TB, B);
      b := TB;
    }
    :- MulDistinct(X, a, b);
    X.s := a.s * b.s;
    SignedProduct(a.s, b.s, Val(a.p), Val(b.p));
    return Ok;
  }

  /** The magnitude part of mbedtls_mpi_mul_mpi, once X is neither operand. */
  method MulDistinct(X: Mpi, A: Mpi, B: Mpi) returns (r: Status)
    requires X != A && X != B
    modifies X
    ensures r.Ok? ==> Val(X.p) == Val(A.p) * Val(B.p)
    ensures r.Ok? ==> |X.p| >= 1 && |X.p| >= |old(X.p)|
    ensures !r.Ok? ==> r == AllocFailed
  {
    var i := SignificantLimbs(A.p);
    var j := SignificantLimbs(B.p);
    :- Grow(X, i + j);
    :- Lset(X, 0);
    ProductFits(Val(A.p), Val(B.p), i, j, |X.p|);
    MulRows(X, A.p, i, B.p, j);
    return Ok;
  }

  lemma SignedProduct(s: int, t: int, a: int, b: int)
    ensures (s * t) * (a * b) == (s * a) * (t * b)
  {
    MulAssoc(s, t, a * b);
    MulAssoc(t, a, b);
    MulAssoc(a, t, b);
    MulAssoc(s, a, t * b);
  }

  lemma ProductFits(a: nat, b: nat, i: nat, j: nat, n: nat)
    requires a < Weight(i) && b < Weight(j) && i + j <= n
    ensures a * b < Weight(n)
  {
    WeightAdd(i, j);
    WeightMonotone(i + j, n);
    MulLe(a, b, Weight(j));
    MulLt(Weight(j), a, Weight(i));
  }

  /** The row loop of mbedtls_mpi_mul_mpi over the j significant limbs of B. */
  method MulRows(X: Mpi, a: seq<limb>, i: nat, b: seq<limb>, top: nat)
    requires i <= |a| && top <= |b| && i + top <= |X.p| && Val(X.p) == 0
    requires Val(a) == Val(a[..i]) && Val(b) == Val(b[..top])
    requires Val(a) * Val(b) < Weight(|X.p|)
    modifies X`p
    ensures |X.p| == |old(X.p)| && Val(X.p) == Val(a) * Val(b)
  {
    var j := top;
    while j > 0
      invariant 0 <= j <= top && |X.p| == |old(X.p)|
      invariant Val(X.p) == Val(a) * (Weight(j) * Val(b[j..top]))
    {
      MulRow(X, a, i, b, j, top);
      j := j - 1;
    }
    assert b[0..top] == b[..top];
  }

  /** One turn of the loop of mbedtls_mpi_mul_mpi: the row for limb j - 1 of B. */
  method MulRow(X: Mpi, a: seq<limb>, i: nat, b: seq<limb>, j: nat, ghost top: nat)
    requires i <= |a| && 0 < j <= top <= |b| && i + top <= |X.p|
    requires Val(a) == Val(a[..i]) && Val(b) == Val(b[..top])
    requires Val(a) * Val(b) < Weight(|X.p|)
    requires Val(X.p) == Val(a) * (Weight(j) * Val(b[j..top]))
    modifies X`p
    ensures |X.p| == |old(X.p)|
    ensures Val(X.p) == Val(a) * (Weight(j - 1) * Val(b[j - 1..top]))
  {
    hide Val, Weight;
    var o := j - 1;
    ghost var w, va, x, rest := Weight(o), Val(a), b[o], Val(b[j..top]);
    RowSuffix(b, o, top);
    assert Val(X.p) == w * (BETA * (va * rest)) by {
      WeightNext(o);
      RowRegroup(va, w, rest);
    }
    RowAligned(X.p, o, BETA * (va * rest));
    RowRegroup2(va, w, x, rest);
    assert w * (BETA * (va * rest) + x * va) <= va * Val(b) by {
      MulLe(va, w * Val(b[o..top]), Val(b));
    }
    RowFits(w, BETA * (va * rest) + x * va, o, |X.p|);
    ghost var low := X.p[..o];
    MulHlp(i, a, X, o, b[o]);
    ValSplit(X.p, o);
    assert X.p[..o] == low;
  }

  lemma RowSuffix(b: seq<limb>, o: nat, top: nat)
    requires o < top <= |b| && Val(b) == Val(b[..top])
    ensures Val(b[o..top]) == b[o] + BETA * Val(b[o + 1..top])
    ensures Weight(o) * Val(b[o..top]) <= Val(b)
  {
    var t := b[..top];
    assert t[o..] == b[o..top] && t[o + 1..] == b[o + 1..top];
    ValCons(t, o);
    ValSplit(t, o);
  }

  lemma RowRegroup(a: int, w: int, rest: int)
    ensures a * ((BETA * w) * rest) == w * (BETA * (a * rest))
  {
    MulAssoc(BETA, w, rest);
    MulAssoc(w, a, rest);
    MulAssoc(a, w, rest);
    assert a * (w * rest) == w * (a * rest);
  }

  lemma RowRegroup2(a: int, w: int, x: int, rest: int)
    ensures w * (BETA * (a * rest) + x * a) == a * (w * (x + BETA * rest))
  {
    MulDist(a, x, BETA * rest);
    MulAssoc(a, w, x + BETA * rest);
    MulAssoc(w, a, x + BETA * rest);
    assert a * (x + BETA * rest) == x * a + BETA * (a * rest);
  }

  /** A number that is a multiple of Weight(o) has only zeros below limb o. */
  lemma RowAligned(p: seq<limb>, o: nat, k: nat)
    requires o <= |p| && Val(p) == Weight(o) * k
    ensures Val(p[o..]) == k && Val(p[..o]) == 0
  {
    var v, w, hi, lo := Val(p), Weight(o), Val(p[o..]), Val(p[..o]);
    assert v == lo + w * hi by {
      ValSplit(p, o);
    }
    assert lo < w by {
      ValBound(p[..o]);
    }
    SameParts(w, hi, lo, k);
  }

  lemma SameParts(w: int, hi: int, lo: int, k: int)
    requires w > 0 && 0 <= lo < w && lo + w * hi == w * k
    ensures hi == k && lo == 0
  {
    DivModUnique(w * k, w, k, 0);
    DivModUnique(w * k, w, hi, lo);
  }

  lemma RowFits(w: int, v: int, o: nat, n: nat)
    requires o <= n && w == Weight(o) && w * v < Weight(n)
    ensures v < Weight(n - o)
  {
    WeightAdd(o, n - o);
    if v >= Weight(n - o) {
      MulLe(w, Weight(n - o), v);
    }
  }

  /** mbedtls_mpi_mul_int: X = A * b. */
  method MulInt(X: Mpi, A: Mpi, b: limb) returns (r: Status)
    requires A.Valid()
    modifies X
    ensures r.Ok? ==> X.Valid() && X.Value() == old(A.Value()) * b
    ensures r.Ok? && |old(A.p)| > 0 ==> X.s == old(A.s)
    ensures r.Ok? ==> |X.p| >= 1 && |X.p| >= |old(X.p)|
    ensures !r.Ok? ==> r == AllocFailed
  {
    var B := new Mpi();
    B.s, B.p := 1, [b];
    assert Val(B.p[1..]) == 0;
    r := MulMpi(X, A, B);
  }
}
