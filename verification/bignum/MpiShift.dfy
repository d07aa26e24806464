/** Shifts and the count of trailing zero bits. */
module MpiShift {
  import opened Arith
  import opened Limbs
  import opened MpiBase

  /** mbedtls_mpi_lsb. */
  method Lsb(X: Mpi) returns (count: nat)
    ensures count == TrailingZeros(Val(X.p))
  {
    count := 0;
    var i := 0;
    while i < |X.p|
      invariant 0 <= i <= |X.p| && count == BIL * i
      invariant forall k :: 0 <= k < i ==> X.p[k] == 0
    {
      var j := 0;
      while j < BIL
        invariant 0 <= j <= BIL && count == BIL * i + j
        invariant X.p[i] % Pow2(j) == 0
      {
        if (X.p[i] / Pow2(j)) % 2 != 0 {
          LsbFound(X.p, i, j);
          return count;
        }
        LowBit(X.p[i], j);
        j, count := j + 1, count + 1;
      }
      Pow2Limb();
      i := i + 1;
    }
    ValZero(X.p);
    return 0;
  }

  lemma LowBit(x: nat, j: nat)
    requires x % Pow2(j) == 0 && (x / Pow2(j)) % 2 == 0
    ensures x % Pow2(j + 1) == 0
  {
    var k := x / Pow2(j);
    assert x == Pow2(j) * k;
    assert x == (k / 2) * Pow2(j + 1) by {
      MulAssoc(Pow2(j), 2, k / 2);
    }
    MultipleMod(k / 2, Pow2(j + 1));
  }

  /** w * (t * k + (t * u) * v) with k odd and u even is w * t times an odd number. */
  lemma OddMultiple(w: int, t: int, k: int, u: int, v: int)
    requires k % 2 == 1
    ensures w * (t * k + (t * (2 * u)) * v) == (k + 2 * (u * v)) * (w * t)
    ensures (k + 2 * (u * v)) % 2 == 1
  {
    var odd := k + 2 * (u * v);
    assert t * k + (t * (2 * u)) * v == t * odd by {
      MulAssoc(t, 2 * u, v);
      MulAssoc(2, u, v);
      MulDist(t, k, 2 * (u * v));
    }
    MulAssoc(w, t, odd);
  }

  lemma LsbFound(p: seq<limb>, i: nat, j: nat)
    requires i < |p| && j < BIL && forall k :: 0 <= k < i ==> p[k] == 0
    requires p[i] % Pow2(j) == 0 && (p[i] / Pow2(j)) % 2 == 1
    ensures TrailingZeros(Val(p)) == BIL * i + j
  {
    var k, v, u := p[i] / Pow2(j), Val(p[i + 1..]), Pow2(BIL - j - 1);
    LsbValue(p, i, j, k, u);
    OddMultiple(Weight(i), Pow2(j), k, u, v);
    WeightIsPow2(i);
    Pow2Add(BIL * i, j);
    LsbCount(Val(p), BIL * i + j, k + 2 * (u * v));
  }

  lemma LsbValue(p: seq<limb>, i: nat, j: nat, k: int, u: int)
    requires i < |p| && j < BIL && forall k :: 0 <= k < i ==> p[k] == 0
    requires p[i] % Pow2(j) == 0 && k == p[i] / Pow2(j) && u == Pow2(BIL - j - 1)
    ensures Val(p) == Weight(i) * (Pow2(j) * k + (Pow2(j) * (2 * u)) * Val(p[i + 1..]))
  {
    var t, v, w, x := Pow2(j), Val(p[i + 1..]), Weight(i), p[i];
    assert x == t * k;
    assert t * (2 * u) == BETA by {
      Pow2Limb();
      Pow2Add(j, BIL - j);
    }
    assert Val(p) == w * (x + BETA * v) by {
      ValSplit(p, i);
      ValZero(p[..i]);
      ValCons(p, i);
    }
  }

  lemma LsbCount(v: nat, n: nat, odd: int)
    requires odd % 2 == 1 && v == odd * Pow2(n) && v >= 0
    ensures n == TrailingZeros(v)
  {
    DivModUnique(v, Pow2(n), odd, 0);
    TrailingZerosUnique(v, n);
  }

  // ----- left shift -----

  /** x times a, cut at a * b: the top part is x / b, the rest is a multiple of a. */
  lemma ScaleSplit(x: int, a: int, b: int, m: int)
    requires a > 0 && b > 0 && m == a * b && 0 <= x < m
    ensures 0 <= x / b < a && (x * a) / m == x / b
    ensures (x * a) % m == (x % b) * a <= m - a
  {
    var hi, lo := x / b, x % b;
    assert x == b * hi + lo;
    assert hi < a by {
      if hi >= a {
        MulLe(b, a, hi);
      }
    }
    MulLe(a, lo, b - 1);
    MulDist(a, b, 1);
    assert x * a == hi * m + lo * a by {
      MulDist(a, b * hi, lo);
      MulAssoc(a, b, hi);
    }
    DivModUnique(x * a, m, hi, lo * a);
  }

  /** One limb of a left shift by t bits: what stays, what is carried out. */
  lemma ShlLimb(x: limb, t: nat, r: nat)
    requires 0 < t < BIL && r < Pow2(t)
    ensures x / Pow2(BIL - t) < Pow2(t)
    ensures (x * Pow2(t)) % BETA + r < BETA
    ensures x * Pow2(t) == (x * Pow2(t)) % BETA + BETA * (x / Pow2(BIL - t))
  {
    Pow2Limb();
    Pow2Add(t, BIL - t);
    ScaleSplit(x, Pow2(t), Pow2(BIL - t), BETA);
  }

  /** A number shifted by count fits n limbs when its bits and count do. */
  lemma ShiftFits(v: nat, count: nat, n: nat)
    requires BitLen(v) + count <= BIL * n
    ensures count / BIL <= n && v < Weight(n - count / BIL)
    ensures v * Pow2(count) < Weight(n)
  {
    var room := BIL * n - count;
    var w := Pow2(room);
    assert v < w by {
      BitLenBound(v);
      Pow2Monotone(BitLen(v), room);
    }
    assert w <= Weight(n - count / BIL) by {
      WeightIsPow2(n - count / BIL);
      Pow2Monotone(room, BIL * (n - count / BIL));
    }
    ScaledFits(v, w, count, n);
  }

  lemma ScaledFits(v: nat, w: int, count: nat, n: nat)
    requires count <= BIL * n && w == Pow2(BIL * n - count) && v < w
    ensures v * Pow2(count) < Weight(n)
  {
    Pow2Add(BIL * n - count, count);
    WeightIsPow2(n);
    ScaledBelow(v, w, Pow2(count), Weight(n));
  }

  lemma ScaledBelow(v: int, w: int, c: int, m: int)
    requires v < w && c > 0 && w * c == m
    ensures v * c < m
  {
    MulLt(c, v, w);
  }

  /** mbedtls_mpi_shift_l: X <<= count. OR-ing r0 into bits just vacated is adding it. */
  method ShiftL(X: Mpi, count: nat) returns (r: Status)
    modifies X`p
    ensures r.Ok? ==> Val(X.p) == old(Val(X.p)) * Pow2(count)
    ensures r.Ok? ==> var bits := BitLen(old(Val(X.p))) + count;
              |X.p| == if BIL * |old(X.p)| < bits then (bits + BIL - 1) / BIL else |old(X.p)|
    ensures !r.Ok? ==> r == AllocFailed && X.p == old(X.p)
  {
    hide Val, Weight, Pow2, BitLen;
    var v0, t1 := count / BIL, count % BIL;
    var bits := Bitlen(X);
    var i := bits + count;
    if |X.p| * BIL < i {
      :- Grow(X, i / BIL + if i % BIL != 0 then 1 else 0);
    }
    ghost var v := Val(X.p);
    ShiftFits(v, count, |X.p|);
    ShiftLLimbs(X, v0);
    ShiftTwice(v, v0, t1);
    if t1 > 0 {
      ShiftLBits(X, v0, t1);
    } else {
      Pow2Zero();
    }
    return Ok;
  }

  lemma ShiftTwice(v: nat, v0: nat, t1: nat)
    ensures v * Weight(v0) * Pow2(t1) == v * Pow2(BIL * v0 + t1)
  {
    WeightIsPow2(v0);
    Pow2Add(BIL * v0, t1);
    MulAssoc(v, Weight(v0), Pow2(t1));
  }

  /** The first part of mbedtls_mpi_shift_l: whole limbs, from the top down. */
  method ShiftLLimbs(X: Mpi, v0: nat)
    requires v0 <= |X.p| && Val(X.p) < Weight(|X.p| - v0)
    modifies X`p
    ensures |X.p| == |old(X.p)| && Val(X.p) == old(Val(X.p)) * Weight(v0)
    ensures Val(X.p[..v0]) == 0
  {
    hide Val, Weight;
    ghost var q := X.p;
    if v0 > 0 {
      var i := |X.p|;
      while i > v0
        invariant v0 <= i <= |X.p| == |q|
        invariant forall k :: i <= k < |q| ==> X.p[k] == q[k - v0]
        invariant forall k :: 0 <= k < i ==> X.p[k] == q[k]
      {
        X.p := X.p[i - 1 := X.p[i - v0 - 1]];
        i := i - 1;
      }
      while i > 0
        invariant 0 <= i <= v0 <= |X.p| == |q|
        invariant forall k :: v0 <= k < |q| ==> X.p[k] == q[k - v0]
        invariant forall k :: i <= k < v0 ==> X.p[k] == 0
      {
        X.p := X.p[i - 1 := 0];
        i := i - 1;
      }
    }
    LimbShiftUp(q, X.p, v0);
  }

  /** Moving every limb v0 places up, over limbs known to be zero at the top. */
  lemma LimbShiftUp(q: seq<limb>, p: seq<limb>, v0: nat)
    requires v0 <= |q| == |p| && Val(q) < Weight(|q| - v0)
    requires forall k :: v0 <= k < |p| ==> p[k] == q[k - v0]
    requires forall k :: 0 <= k < v0 ==> p[k] == 0
    ensures Val(p) == Val(q) * Weight(v0) && Val(p[..v0]) == 0
  {
    hide Val, Weight;
    ValSplit(p, v0);
    ValAllZero(p[..v0]);
    assert p[v0..] == q[..|q| - v0];
    ValSmall(q, |q| - v0);
  }

  /** The second loop of mbedtls_mpi_shift_l: carry the top bits of each limb into the next. */
  method ShlInPlace(X: Mpi, i: nat, t: nat, r0: int) returns (r1: int)
    requires i < |X.p| && 0 < t < BIL && 0 <= r0 < Pow2(t)
    modifies X`p
    ensures |X.p| == |old(X.p)| && X.p == old(X.p)[i := X.p[i]]
    ensures 0 <= r1 < Pow2(t) && old(X.p)[i] * Pow2(t) == X.p[i] - r0 + BETA * r1
  {
    var x := X.p[i];
    ShlLimb(x, t, r0);
    r1 := x / Pow2(BIL - t);
    X.p := X.p[i := (x * Pow2(t)) % BETA + r0];
  }

  lemma ShlPrefix(p: seq<limb>, p': seq<limb>, q: seq<limb>, i: nat, t: nat, r0: int, r1: int)
    requires i < |p| == |p'| == |q| && p' == p[i := p'[i]] && p[i] == q[i]
    requires Val(p[..i]) + Weight(i) * r0 == Val(q[..i]) * Pow2(t)
    requires p[i] * Pow2(t) == p'[i] - r0 + BETA * r1
    ensures Val(p'[..i + 1]) + Weight(i + 1) * r1 == Val(q[..i + 1]) * Pow2(t)
  {
    assert p'[..i] == p[..i];
    ValSnoc(p', i);
    ValSnoc(q, i);
    ShlStep(Val(p[..i]), Val(q[..i]), Weight(i), q[i], Pow2(t), r0, p'[i] - r0, r1);
  }

  method ShiftLBits(X: Mpi, v0: nat, t1: nat)
    requires v0 <= |X.p| && 0 < t1 < BIL && Val(X.p[..v0]) == 0
    requires Val(X.p) * Pow2(t1) < Weight(|X.p|)
    modifies X`p
    ensures |X.p| == |old(X.p)| && Val(X.p) == old(Val(X.p)) * Pow2(t1)
  {
    ghost var q := X.p;
    var r0 := 0;
    var i := v0;
    while i < |X.p|
      invariant v0 <= i <= |X.p| == |q|
      invariant 0 <= r0 < Pow2(t1)
      invariant X.p[i..] == q[i..]
      invariant Val(X.p[..i]) + Weight(i) * r0 == Val(q[..i]) * Pow2(t1)
    {
      ghost var before := X.p;
      assert X.p[i] == q[i] by { assert X.p[i] == X.p[i..][0]; }
      var r1 := ShlInPlace(X, i, t1, r0);
      assert X.p[i + 1..] == q[i + 1..] by { assert before[i + 1..] == before[i..][1..]; }
      ShlPrefix(before, X.p, q, i, t1, r0, r1);
      r0 := r1;
      i := i + 1;
    }
    assert X.p[..i] == X.p && q[..i] == q;
    if r0 > 0 {
      MulLe(Weight(i), 1, r0);
    }
  }

  lemma ShlStep(lo: int, qlo: int, w: int, x: int, a: int, r: int, m: int, h: int)
    requires x * a == m + BETA * h && lo + w * r == qlo * a
    ensures lo + (m + r) * w + (BETA * w) * h == (qlo + x * w) * a
  {
    calc {
      (qlo + x * w) * a;
      qlo * a + x * w * a;
      { MulAssoc(x, w, a); MulAssoc(x, a, w); }
      qlo * a + (x * a) * w;
      lo + w * r + (m + BETA * h) * w;
      lo + (m + r) * w + (BETA * w) * h;
    }
  }

  // ----- right shift -----

  lemma ShiftDownIdentity(x: int, v: int, a: int, b: int, q: int, s: int, hi: int, lo: int)
    requires x == a * hi + lo && v == a * q + s
    ensures x + (a * b) * v == (hi + s * b + (a * b) * q) * a + lo
  {
    calc {
      (hi + s * b + (a * b) * q) * a;
      a * hi + a * (s * b) + a * ((a * b) * q);
      { MulAssoc(a, b, s); MulAssoc(a * b, a, q); MulAssoc(a, a * b, q); }
      a * hi + (a * b) * s + (a * b) * (a * q);
      { MulDist(a * b, a * q, s); }
      a * hi + (a * b) * v;
    }
  }

  lemma RemainderBound(x: int, a: int, b: int)
    requires a > 0 && b > 0 && 0 <= x < a * b
    ensures 0 <= x / a < b
  {
    if x / a >= b {
      MulLe(a, b, x / a);
    }
  }

  lemma ProductBound(s: int, a: int, b: int)
    requires b > 0 && 0 <= s < a
    ensures 0 <= s * b <= a * b - b
  {
    MulLe(b, s, a - 1);
    MulDist(b, a, 1);
  }

  /** (x + m * v) / a when m = a * b: v's remainder comes down above x's quotient. */
  lemma ShiftDownSplit(x: int, v: int, a: int, b: int, m: int)
    requires a > 0 && b > 0 && m == a * b && 0 <= x < m && v >= 0
    ensures 0 <= x / a < b && 0 <= (v % a) * b <= m - b
    ensures (x + m * v) / a == x / a + (v % a) * b + m * (v / a)
    ensures (x + m * v) % a == x % a
  {
    RemainderBound(x, a, b);
    ProductBound(v % a, a, b);
    Euclid(x, a);
    Euclid(v, a);
    ShiftDownDigits(x, v, a, b, m, v / a, v % a, x / a, x % a);
  }

  lemma ShiftDownDigits(x: int, v: int, a: int, b: int, m: int, q: int, s: int, hi: int, lo: int)
    requires a > 0 && m == a * b && x == a * hi + lo && v == a * q + s && 0 <= lo < a
    ensures (x + m * v) / a == hi + s * b + m * q && (x + m * v) % a == lo
  {
    ShiftDownIdentity(x, v, a, b, q, s, hi, lo);
    DivModUnique(x + m * v, a, hi + s * b + m * q, lo);
  }

  /** One limb of a right shift by t bits, with the low bits of v coming down from above. */
  lemma ShrLimb(x: limb, t: nat, v: nat)
    requires 0 < t < BIL
    ensures 0 <= x / Pow2(t) + (v % Pow2(t)) * Pow2(BIL - t) < BETA
    ensures (x * Pow2(BIL - t)) % BETA == (x % Pow2(t)) * Pow2(BIL - t)
    ensures (x + BETA * v) / Pow2(t) == x / Pow2(t) + (v % Pow2(t)) * Pow2(BIL - t) + BETA * (v / Pow2(t))
    ensures (x + BETA * v) % Pow2(t) == x % Pow2(t)
  {
    var a, b := Pow2(t), Pow2(BIL - t);
    assert a * b == BETA by {
      Pow2Limb();
      Pow2Add(t, BIL - t);
    }
    ScaleSplit(x, b, a, BETA);
    ShiftDownSplit(x, v, a, b, BETA);
  }

  /** mbedtls_mpi_shift_r: X >>= count, on the magnitude. */
  method ShiftR(X: Mpi, count: nat) returns (r: Status)
    modifies X
    ensures r.Ok? ==> Val(X.p) == old(Val(X.p)) / Pow2(count)
    ensures r.Ok? ==> X.s == old(X.s) || (X.s == 1 && Val(X.p) == 0)
    ensures |X.p| == |old(X.p)| || |X.p| == 1 > |old(X.p)|
    ensures count <= BIL * |old(X.p)| ==> |X.p| == |old(X.p)| && X.s == old(X.s)
    ensures !r.Ok? ==> r == AllocFailed && X.p == old(X.p) && X.s == old(X.s)
  {
    var v0, v1 := count / BIL, count % BIL;
    if v0 > |X.p| || (v0 == |X.p| && v1 > 0) {
      ShiftedOut(X.p, count);
      r := Lset(X, 0);
      return;
    }
    ghost var v := Val(X.p);
    ShiftRLimbs(X, v0);
    DivDiv(v, BIL * v0, v1);
    if v1 > 0 {
      ShiftRBits(X, v1);
    } else {
      assert Val(X.p) / Pow2(0) == Val(X.p);
    }
    return Ok;
  }

  lemma ShiftedOut(p: seq<limb>, count: nat)
    requires count >= BIL * |p|
    ensures Val(p) / Pow2(count) == 0
  {
    var v, w := Val(p), Pow2(count);
    assert v < w by {
      ValBound(p);
      WeightIsPow2(|p|);
      Pow2Monotone(BIL * |p|, count);
    }
    DivModUnique(v, w, 0, v);
  }

  /** The first part of mbedtls_mpi_shift_r: whole limbs, from the bottom up. */
  method ShiftRLimbs(X: Mpi, v0: nat)
    requires v0 <= |X.p|
    modifies X`p
    ensures |X.p| == |old(X.p)| && Val(X.p) == old(Val(X.p)) / Pow2(BIL * v0)
  {
    ghost var q := X.p;
    ghost var n := |X.p|;
    if v0 > 0 {
      var i := 0;
      while i < |X.p| - v0
        invariant 0 <= i <= n - v0 && |X.p| == n
        invariant forall k :: 0 <= k < i ==> X.p[k] == q[k + v0]
        invariant forall k :: i <= k < n ==> X.p[k] == q[k]
      {
        X.p := X.p[i := X.p[i + v0]];
        i := i + 1;
      }
      while i < |X.p|
        invariant n - v0 <= i <= n == |X.p|
        invariant forall k :: 0 <= k < n - v0 ==> X.p[k] == q[k + v0]
        invariant forall k :: n - v0 <= k < i ==> X.p[k] == 0
      {
        X.p := X.p[i := 0];
        i := i + 1;
      }
    }
    LimbShiftDown(q, X.p, v0);
    WeightIsPow2(v0);
  }

  lemma LimbShiftDown(q: seq<limb>, p: seq<limb>, v0: nat)
    requires v0 <= |q| == |p|
    requires forall k :: 0 <= k < |p| - v0 ==> p[k] == q[k + v0]
    requires forall k :: |p| - v0 <= k < |p| ==> p[k] == 0
    ensures Val(p) == Val(q) / Weight(v0)
  {
    assert Val(p) == Val(q[v0..]) by {
      assert p[..|p| - v0] == q[v0..];
      ValPadded(p, |p| - v0);
    }
    DropLimbs(q, v0);
  }

  lemma DivDivBy(v: int, a: int, b: int)
    requires v >= 0 && a > 0 && b > 0
    ensures a * b > 0 && v / (a * b) == (v / a) / b
  {
    var q, r := v / a, v % a;
    var q', r' := q / b, q % b;
    assert v == a * q + r && q == b * q' + r';
    MulLt(a, 0, b);
    assert v == q' * (a * b) + (a * r' + r) by {
      MulDist(a, b * q', r');
      MulAssoc(a, b, q');
    }
    MulLe(a, r', b - 1);
    MulDist(a, b, 1);
    DivModUnique(v, a * b, q', a * r' + r);
  }

  lemma DivDiv(v: nat, m: nat, n: nat)
    ensures v / Pow2(m + n) == (v / Pow2(m)) / Pow2(n)
  {
    Pow2Add(m, n);
    DivDivBy(v, Pow2(m), Pow2(n));
  }

  /** The second loop of mbedtls_mpi_shift_r, from the top limb down. */
  method ShiftRBits(X: Mpi, v1: nat)
    requires 0 < v1 < BIL
    modifies X`p
    ensures |X.p| == |old(X.p)| && Val(X.p) == old(Val(X.p)) / Pow2(v1)
  {
    ghost var q := X.p;
    var r0 := 0;
    var i := |X.p|;
    assert q[i..] == [];
    DivModUnique(0, Pow2(v1), 0, 0);
    while i > 0
      invariant 0 <= i <= |X.p| == |q|
      invariant X.p[..i] == q[..i]
      invariant r0 == (Val(q[i..]) % Pow2(v1)) * Pow2(BIL - v1)
      invariant Val(X.p[i..]) == Val(q[i..]) / Pow2(v1)
    {
      var x := X.p[i - 1];
      assert x == q[i - 1] by { assert x == X.p[..i][i - 1]; }
      ghost var above := X.p[i..];
      ShrLimb(x, v1, Val(q[i..]));
      var r1 := (x * Pow2(BIL - v1)) % BETA;
      X.p := X.p[i - 1 := x / Pow2(v1) + r0];
      assert X.p[i..] == above;
      ValCons(X.p, i - 1);
      ValCons(q, i - 1);
      r0 := r1;
      i := i - 1;
      assert X.p[..i] == q[..i] by {
        assert forall k :: 0 <= k < i ==> X.p[k] == q[k];
      }
    }
    assert X.p[0..] == X.p && q[0..] == q;
  }
}
