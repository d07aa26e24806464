/** The mbedtls_mpi record, and the operations that allocate, copy, set and measure it. */
module MpiBase {
  import opened Arith
  import opened Limbs

  /** Result codes; a failing call stops its caller, which is what MBEDTLS_MPI_CHK does. */
  datatype Status = Ok | BadInput | NegativeValue | DivisionByZero | NotAcceptable | AllocFailed | RandomFailed {
    predicate IsFailure() {
      !Ok?
    }

    function PropagateFailure(): Status
      requires IsFailure()
    {
      this
    }
  }

  const MAX_LIMBS: nat := 10000

  /** Sign and limbs. An empty limb sequence is the NULL pointer with n == 0. */
  class Mpi {
    var s: int
    var p: seq<limb>

    constructor ()
      ensures s == 1 && p == []
    {
      s, p := 1, [];
    }

    ghost predicate Valid()
      reads this
    {
      s == 1 || s == -1
    }

    ghost function Abs(): nat
      reads this
    {
      Val(p)
    }

    ghost function Value(): int
      reads this
    {
      s * Val(p)
    }
  }

  // ----- memory -----

  /** mbedtls_mpi_grow: the allocator may refuse. */
  method Grow(X: Mpi, nblimbs: nat) returns (r: Status)
    modifies X`p
    ensures r.Ok? ==> X.p == old(X.p) + Zeros(if |old(X.p)| < nblimbs then nblimbs - |old(X.p)| else 0)
    ensures r.Ok? ==> Val(X.p) == old(Val(X.p))
    ensures !r.Ok? ==> r == AllocFailed && X.p == old(X.p)
  {
    if nblimbs > MAX_LIMBS {
      return AllocFailed;
    }
    if |X.p| < nblimbs {
      var granted: bool := *;
      if !granted {
        return AllocFailed;
      }
      ValGrow(X.p, nblimbs - |X.p|);
      X.p := X.p + Zeros(nblimbs - |X.p|);
    } else {
      assert X.p + Zeros(0) == X.p;
    }
    return Ok;
  }

  /** Number of limbs up to the highest nonzero one. */
  method SignificantLimbs(p: seq<limb>) returns (i: nat)
    ensures i <= |p| && (i > 0 ==> p[i - 1] != 0)
    ensures forall k :: i <= k < |p| ==> p[k] == 0
    ensures Val(p) == Val(p[..i]) < Weight(i)
    ensures i == 0 <==> Val(p) == 0
    ensures i > 0 ==> Weight(i - 1) <= Val(p)
  {
    hide Weight;
    i := |p|;
    while i > 0
      invariant i <= |p|
      invariant forall k :: i <= k < |p| ==> p[k] == 0
    {
      if p[i - 1] != 0 {
        break;
      }
      i := i - 1;
    }
    ValPadded(p, i);
    if i > 0 {
      ValTop(p, i - 1);
      MulLe(Weight(i - 1), 1, p[i - 1]);
    }
  }

  /** mbedtls_mpi_copy: X takes the value and sign of Y, dropping Y's leading zero limbs. */
  method Copy(X: Mpi, Y: Mpi) returns (r: Status)
    modifies X
    ensures r.Ok? ==> X.Abs() == old(Y.Abs()) && (X == Y || |old(Y.p)| > 0 ==> X.s == old(Y.s))
    ensures r.Ok? && X != Y && |old(Y.p)| == 0 ==> X.p == [] && X.s == 1
    ensures r.Ok? && |old(Y.p)| > 0 ==> |X.p| >= 1 && |X.p| >= |old(X.p)|
    ensures r.Ok? && X != Y && |old(X.p)| == 0 && Val(Y.p) > 0 ==> X.p[|X.p| - 1] != 0
    ensures r.Ok? && X != Y && |old(Y.p)| > 0 ==> |X.p| <= |old(X.p)| || |X.p| <= |old(Y.p)|
    ensures !r.Ok? ==> r == AllocFailed && X.p == old(X.p)
    ensures old(Y.Valid()) && old(X.Valid()) ==> X.Valid()
    ensures r.Ok? && old(Y.Valid()) ==> X.Valid() && X.Value() == old(Y.Value())
  {
    if X == Y {
      return Ok;
    }
    if |Y.p| == 0 {
      X.s, X.p := 1, [];
      return Ok;
    }
    var i := |Y.p| - 1;
    while i > 0
      invariant 0 <= i < |Y.p|
      invariant forall k :: i < k < |Y.p| ==> Y.p[k] == 0
    {
      if Y.p[i] != 0 {
        break;
      }
      i := i - 1;
    }
    i := i + 1;
    X.s := Y.s;
    :- Grow(X, i);
    ghost var n := |X.p|;
    X.p := Y.p[..i] + Zeros(|X.p| - i);
    ValGrow(Y.p[..i], n - i);
    ValPadded(Y.p, i);
    if |old(X.p)| == 0 {
      assert X.p == Y.p[..i];
      ValZero(Y.p);
    }
    return Ok;
  }

  /** mbedtls_mpi_lset. */
  method Lset(X: Mpi, z: int) returns (r: Status)
    requires -BETA < z < BETA
    modifies X
    ensures r.Ok? ==> X.Valid() && X.Value() == z && X.s == (if z < 0 then -1 else 1)
    ensures r.Ok? ==> |X.p| == (if |old(X.p)| == 0 then 1 else |old(X.p)|)
    ensures r.Ok? ==> X.p == [if z < 0 then -z else z] + Zeros(|X.p| - 1)
    ensures !r.Ok? ==> r == AllocFailed && X.p == old(X.p) && X.s == old(X.s)
  {
    r := Ok;
    :- Grow(X, 1);
    ghost var n := |X.p|;
    X.p := Zeros(|X.p|);
    X.p := X.p[0 := if z < 0 then -z else z];
    X.s := if z < 0 then -1 else 1;
    assert X.p == [if z < 0 then -z else z] + Zeros(n - 1);
    ValGrow([if z < 0 then -z else z], n - 1);
    return Ok;
  }

  // ----- bits -----

  /** Number of binary digits. */
  function BitLen(v: nat): (n: nat) {
    if v == 0 then 0 else 1 + BitLen(v / 2)
  }

  lemma {:induction false} BitLenBound(v: nat)
    ensures v < Pow2(BitLen(v))
    ensures v > 0 ==> BitLen(v) > 0 && Pow2(BitLen(v) - 1) <= v
  {
    if v > 0 {
      BitLenBound(v / 2);
    }
  }

  /** The bit length is the only exponent that fits. */
  lemma BitLenUnique(v: nat, n: nat)
    requires v < Pow2(n) && (n > 0 ==> Pow2(n - 1) <= v)
    ensures n == BitLen(v)
  {
    BitLenBound(v);
    if n < BitLen(v) {
      Pow2Monotone(n, BitLen(v) - 1);
    } else if n > BitLen(v) {
      Pow2Monotone(BitLen(v), n - 1);
    }
  }

  /** Bit j of x, as (x >> j) & 1. */
  function Bit(x: nat, j: nat): (b: nat)
    ensures b == 0 || b == 1
  {
    (x / Pow2(j)) % 2
  }

  lemma TopBit(x: nat, m: nat)
    requires m > 0 && x < 2 * m
    ensures (x / m) % 2 == 1 <==> x >= m
  {
    if x >= m {
      DivModUnique(x, m, 1, x - m);
    } else {
      DivModUnique(x, m, 0, x);
    }
  }

  /** mbedtls_clz: a one-bit mask runs down from the top bit. */
  method Clz(x: limb) returns (j: nat)
    ensures j <= BIL && j == BIL - BitLen(x)
  {
    Pow2Limb();
    j := 0;
    var mask := Pow2(BIL - 1);
    while j < BIL
      invariant 0 <= j <= BIL
      invariant j < BIL ==> mask == Pow2(BIL - 1 - j)
      invariant x < Pow2(BIL - j)
    {
      TopBit(x, mask);
      if (x / mask) % 2 == 1 {
        break;
      }
      mask := mask / 2;
      j := j + 1;
    }
    BitLenUnique(x, BIL - j);
  }

  /** mbedtls_mpi_bitlen. */
  method Bitlen(X: Mpi) returns (n: nat)
    ensures n == BitLen(Val(X.p))
    ensures n <= BIL * |X.p|
  {
    if |X.p| == 0 {
      return 0;
    }
    var i := |X.p| - 1;
    while i > 0
      invariant 0 <= i < |X.p|
      invariant forall k :: i < k < |X.p| ==> X.p[k] == 0
    {
      if X.p[i] != 0 {
        break;
      }
      i := i - 1;
    }
    var z := Clz(X.p[i]);
    var j := BIL - z;
    n := i * BIL + j;
    ValPadded(X.p, i + 1);
    BitLenOfTop(X.p, i);
  }

  /** Bit length of top * w + low, where w is the weight of the top limb. */
  lemma BitLenShift(low: nat, top: nat, e: nat)
    requires low < Pow2(e) && top > 0
    ensures BitLen(low + top * Pow2(e)) == e + BitLen(top)
  {
    var b, w := BitLen(top), Pow2(e);
    BitLenBound(top);
    Pow2Add(e, b);
    Pow2Add(e, b - 1);
    MulLe(w, top + 1, Pow2(b));
    MulDist(w, top, 1);
    MulLe(w, Pow2(b - 1), top);
    BitLenUnique(low + top * w, e + b);
  }

  lemma BitLenOfTop(p: seq<limb>, i: nat)
    requires i < |p| && Val(p) == Val(p[..i + 1]) && (i > 0 ==> p[i] != 0)
    ensures BitLen(Val(p)) == BIL * i + BitLen(p[i])
  {
    ValSnoc(p, i);
    ValBound(p[..i]);
    WeightIsPow2(i);
    if p[i] > 0 {
      BitLenShift(Val(p[..i]), p[i], BIL * i);
    } else {
      assert p[..0] == [];
    }
  }

  /** Number of trailing zero bits; zero for zero, as the source has it. */
  function TrailingZeros(v: nat): (n: nat)
    decreases v
  {
    if v == 0 || v % 2 == 1 then 0 else 1 + TrailingZeros(v / 2)
  }

  lemma {:induction false} TrailingZerosDivides(v: nat)
    ensures v % Pow2(TrailingZeros(v)) == 0
    ensures v > 0 ==> (v / Pow2(TrailingZeros(v))) % 2 == 1
  {
    var n := TrailingZeros(v);
    if n > 0 {
      TrailingZerosDivides(v / 2);
      var h, k := v / 2, (v / 2) / Pow2(n - 1);
      assert v == 2 * h && h == k * Pow2(n - 1);
      assert v == k * Pow2(n);
      MultipleMod(k, Pow2(n));
    } else {
      assert v / Pow2(0) == v;
    }
  }

  lemma {:induction false} TrailingZerosUnique(v: nat, n: nat)
    requires v > 0 && v % Pow2(n) == 0 && (v / Pow2(n)) % 2 == 1
    ensures n == TrailingZeros(v)
  {
    if n == 0 {
      assert v / Pow2(0) == v;
    } else {
      var k := v / Pow2(n);
      assert v == k * Pow2(n) == 2 * (k * Pow2(n - 1));
      assert v / 2 == k * Pow2(n - 1);
      MultipleMod(k, Pow2(n - 1));
      TrailingZerosUnique(v / 2, n - 1);
    }
  }
}
