/** Comparison, addition and subtraction of MPIs. */
module MpiArith {
  import opened Arith
  import opened Limbs
  import opened MpiBase

  function Sgn(x: int): int {
    if x > 0 then 1 else if x < 0 then -1 else 0
  }

  // ----- comparison -----

  /** The loops shared by cmp_abs and cmp_mpi: equally long numbers, top limb first. */
  method CmpLimbs(p: seq<limb>, q: seq<limb>, n: nat) returns (c: int)
    requires n <= |p| && n <= |q|
    ensures c == Sgn(Val(p[..n]) - Val(q[..n]))
  {
    var i := n;
    while i > 0
      invariant 0 <= i <= n
      invariant p[i..n] == q[i..n]
    {
      assert p[..n][i..] == p[i..n] && q[..n][i..] == q[i..n];
      if p[i - 1] > q[i - 1] {
        ValCompare(q[..n], p[..n], i - 1);
        return 1;
      }
      if p[i - 1] < q[i - 1] {
        ValCompare(p[..n], q[..n], i - 1);
        return -1;
      }
      i := i - 1;
      assert p[i..n] == [p[i]] + p[i + 1..n] && q[i..n] == [q[i]] + q[i + 1..n];
    }
    assert p[..n] == p[0..n] && q[..n] == q[0..n];
    return 0;
  }

  /** mbedtls_mpi_cmp_abs. */
  method CmpAbs(X: Mpi, Y: Mpi) returns (c: int)
    ensures c == Sgn(X.Abs() - Y.Abs())
  {
    var i := SignificantLimbs(X.p);
    var j := SignificantLimbs(Y.p);
    if i == 0 && j == 0 {
      return 0;
    }
    if i > j {
      WeightMonotone(j, i - 1);
      return 1;
    }
    if j > i {
      WeightMonotone(i, j - 1);
      return -1;
    }
    c := CmpLimbs(X.p, Y.p, i);
  }

  /** mbedtls_mpi_cmp_mpi. */
  method CmpMpi(X: Mpi, Y: Mpi) returns (c: int)
    requires X.Valid() && Y.Valid()
    ensures c == Sgn(X.Value() - Y.Value())
  {
    var i := SignificantLimbs(X.p);
    var j := SignificantLimbs(Y.p);
    if i == 0 && j == 0 {
      return 0;
    }
    if i > j {
      WeightMonotone(j, i - 1);
      return X.s;
    }
    if j > i {
      WeightMonotone(i, j - 1);
      return -Y.s;
    }
    if X.s > 0 && Y.s < 0 {
      return 1;
    }
    if Y.s > 0 && X.s < 0 {
      return -1;
    }
    c := CmpLimbs(X.p, Y.p, i);
    if c > 0 {
      return X.s;
    }
    if c < 0 {
      return -X.s;
    }
    return 0;
  }

  /** A one-limb operand built on the stack, as the _int variants do. */
  method OneLimb(z: int) returns (Y: Mpi)
    requires -BETA < z < BETA
    ensures fresh(Y) && Y.Valid() && Y.Value() == z && |Y.p| == 1
  {
    Y := new Mpi();
    Y.p := [if z < 0 then -z else z];
    Y.s := if z < 0 then -1 else 1;
    assert Val(Y.p[1..]) == 0;
  }

  /** mbedtls_mpi_cmp_int. */
  method CmpInt(X: Mpi, z: int) returns (c: int)
    requires X.Valid() && -BETA < z < BETA
    ensures c == Sgn(X.Value() - z)
  {
    var Y := OneLimb(z);
    c := CmpMpi(X, Y);
  }

  // ----- addition -----

  /** Adding one limb with carry, in wrapping arithmetic. */
  lemma AddLimb(x: limb, o: limb, c: int)
    requires 0 <= c <= 1
    ensures var y := (x + c) % BETA;
            var c1 := if y < c then 1 else 0;
            var z := (y + o) % BETA;
            var c2 := c1 + if z < o then 1 else 0;
            0 <= c2 <= 1 && z + BETA * c2 == x + c + o
  {
  }

  /** One turn of the addition loop; o and p are the same memory when X == B. */
  method AddLimbInPlace(X: Mpi, B: Mpi, i: nat, c: int) returns (c': int)
    requires i < |X.p| && i < |B.p| && 0 <= c <= 1
    modifies X`p
    ensures 0 <= c' <= 1 && |X.p| == |old(X.p)| && X.p == old(X.p)[i := X.p[i]]
    ensures X != B ==> Val(X.p) + c' * Weight(i + 1) == old(Val(X.p)) + c * Weight(i) + B.p[i] * Weight(i)
    ensures X == B && c == 0 ==> c' == 0 && X.p[i] == (2 * old(X.p[i])) % BETA
  {
    ghost var p0 := X.p;
    ghost var x, o := X.p[i], B.p[i];
    AddLimb(x, o, c);
    X.p := X.p[i := (X.p[i] + c) % BETA];
    c' := if X.p[i] < c then 1 else 0;
    X.p := X.p[i := (X.p[i] + B.p[i]) % BETA];
    c' := c' + if X.p[i] < B.p[i] then 1 else 0;
    if X != B {
      AddStep(p0, X.p, i, x, o, c, c', Val(p0) + c * Weight(i));
    }
  }

  /** The addition loop of mbedtls_mpi_add_abs. */
  method AddLoop(X: Mpi, B: Mpi, j: nat) returns (c: int)
    requires j <= |X.p| && j <= |B.p|
    modifies X`p
    ensures |X.p| == |old(X.p)| && 0 <= c <= 1
    ensures X != B ==> Val(X.p) + c * Weight(j) == old(Val(X.p)) + Val(B.p[..j])
    ensures X == B ==> c == 0
    ensures X == B ==> forall k :: 0 <= k < |X.p| ==> X.p[k] == if k < j then (2 * old(X.p)[k]) % BETA else old(X.p)[k]
  {
    ghost var v, q := Val(X.p), X.p;
    ghost var b := B.p;
    c := 0;
    var i := 0;
    while i < j
      invariant 0 <= i <= j && 0 <= c <= 1 && |X.p| == |q|
      invariant X != B ==> B.p == b && Val(X.p) + c * Weight(i) == v + Val(b[..i])
      invariant X == B ==> c == 0
      invariant X == B ==> forall k :: 0 <= k < |q| ==> X.p[k] == if k < i then (2 * q[k]) % BETA else q[k]
    {
      ValSnoc(b, i);
      c := AddLimbInPlace(X, B, i, c);
      i := i + 1;
    }
  }

  lemma AddStep(p: seq<limb>, p': seq<limb>, i: nat, x: limb, o: limb, c: int, c': int, sum: int)
    requires i < |p| == |p'| && x == p[i] && p' == p[i := p'[i]]
    requires p'[i] + BETA * c' == x + c + o
    requires Val(p) + c * Weight(i) == sum
    ensures Val(p') + c' * Weight(i + 1) == sum + o * Weight(i)
  {
    var w := Weight(i);
    ValUpdate(p, i, p'[i]);
    calc {
      Val(p') + c' * (BETA * w);
      Val(p) + (p'[i] - x + BETA * c') * w;
      Val(p) + (c + o) * w;
    }
  }

  /** One limb of the carry loop. */
  method CarryStep(X: Mpi, i: nat, c: int) returns (c': int)
    requires i < |X.p| && 0 <= c <= 1
    modifies X`p
    ensures |X.p| == |old(X.p)| && 0 <= c' <= 1
    ensures old(X.p)[i] == 0 ==> c' == 0
    ensures Val(X.p) + c' * Weight(i + 1) == old(Val(X.p)) + c * Weight(i)
  {
    ghost var p0, x := X.p, X.p[i];
    AddLimb(x, 0, c);
    X.p := X.p[i := (X.p[i] + c) % BETA];
    c' := if X.p[i] < c then 1 else 0;
    AddStep(p0, X.p, i, x, 0, c, c', Val(p0) + c * Weight(i));
  }

  /** The carry loop of mbedtls_mpi_add_abs, which grows X when the carry leaves its top. */
  method AddCarry(X: Mpi, carry: int, start: nat) returns (r: Status)
    requires 0 <= carry <= 1 && start <= |X.p|
    modifies X`p
    ensures r.Ok? ==> Val(X.p) == old(Val(X.p)) + carry * Weight(start)
    ensures r.Ok? ==> |X.p| >= |old(X.p)|
    ensures carry == 0 ==> r.Ok? && X.p == old(X.p)
    ensures !r.Ok? ==> r == AllocFailed
  {
    ghost var sum := Val(X.p) + carry * Weight(start);
    ghost var n := |X.p|;
    var i, c := start, carry;
    while c != 0
      invariant start <= i && 0 <= c <= 1 && |X.p| >= n
      invariant i <= n || c == 0
      invariant c != 0 ==> |X.p| == n
      invariant Val(X.p) + c * Weight(i) == sum
      invariant carry == 0 ==> c == 0 && X.p == old(X.p)
      decreases n - i, c
    {
      if i >= |X.p| {
        :- Grow(X, i + 1);
        assert X.p[i] == Zeros(1)[0];
      }
      c := CarryStep(X, i, c);
      i := i + 1;
    }
    return Ok;
  }

  /** mbedtls_mpi_add_abs: X = |A| + |B|; the carries are lost when all three are one object. */
  method AddAbs(X: Mpi, A: Mpi, B: Mpi) returns (r: Status)
    modifies X
    ensures r.Ok? && !(X == A && X == B) ==> X.Abs() == old(A.Abs()) + old(B.Abs())
    ensures r.Ok? && X == A && X == B ==> X.p == DoubledLimbs(old(X.p))
    ensures r.Ok? ==> X.s == 1
    ensures !r.Ok? ==> r == AllocFailed
    ensures r.Ok? && (X == A || X == B) ==> |X.p| >= |old(X.p)|
  {
    hide Val, Weight;
    var a, b := A, B;
    if X == b {
      a, b := X, a;
    }
    if X != a {
      :- Copy(X, a);
    }
    X.s := 1;
    var j := SignificantLimbs(b.p);
    :- Grow(X, j);
    ghost var p0 := X.p;
    var c := AddLoop(X, b, j);
    if X == b {
      assert X.p == DoubledLimbs(p0);
    }
    r := AddCarry(X, c, j);
  }

  /** What add_abs leaves when it is asked to double a number in place. */
  function DoubledLimbs(p: seq<limb>): (q: seq<limb>) {
    seq(|p|, i requires 0 <= i < |p| => (2 * p[i]) % BETA)
  }

  /** In-place doubling is right exactly when no limb has its top bit set. */
  lemma {:induction false} DoubledLimbsExact(p: seq<limb>)
    ensures Val(DoubledLimbs(p)) <= 2 * Val(p)
    ensures Val(DoubledLimbs(p)) == 2 * Val(p) <==> forall i :: 0 <= i < |p| ==> p[i] < BETA / 2
  {
    if |p| > 0 {
      var d, t := DoubledLimbs(p), p[1..];
      assert d[1..] == DoubledLimbs(t);
      DoubledLimbsExact(t);
      assert (forall i :: 0 <= i < |p| ==> p[i] < BETA / 2) <==>
             p[0] < BETA / 2 && (forall i :: 0 <= i < |t| ==> t[i] < BETA / 2) by {
        assert forall i :: 1 <= i < |p| ==> p[i] == t[i - 1];
      }
    }
  }

  /** Adding 2^31 to itself leaves zero. */
  lemma DoublingFails()
    ensures Val([0x8000_0000]) == 0x8000_0000 && Val(DoubledLimbs([0x8000_0000])) == 0
  {
    assert DoubledLimbs([0x8000_0000]) == [0];
  }

  // ----- subtraction -----

  /** Subtracting one limb with borrow, in wrapping arithmetic. */
  lemma SubLimb(x: limb, s: limb, c: int)
    requires 0 <= c <= 1
    ensures var z := if x < c then 1 else 0;
            var y := (x - c) % BETA;
            var c' := (if y < s then 1 else 0) + z;
            var y' := (y - s) % BETA;
            0 <= c' <= 1 && y' - BETA * c' == x - c - s
  {
  }

  lemma SubStep(p: seq<limb>, p': seq<limb>, i: nat, x: limb, s: limb, c: int, c': int, diff: int)
    requires i < |p| == |p'| && x == p[i] && p' == p[i := p'[i]]
    requires p'[i] - BETA * c' == x - c - s
    requires Val(p) - c * Weight(i) == diff
    ensures Val(p') - c' * Weight(i + 1) == diff - s * Weight(i)
  {
    hide Val, Weight;
    ValUpdate(p, i, p'[i]);
    WeightNext(i);
    BorrowIdentity(p'[i] - x, c', c, s, Weight(i));
  }

  lemma BorrowIdentity(d: int, c': int, c: int, s: int, w: int)
    requires d == BETA * c' - c - s
    ensures d * w == c' * (BETA * w) - c * w - s * w
  {
    MulDist(w, BETA * c', c + s);
    MulDist(w, c, s);
    MulAssoc(c', BETA, w);
  }

  /** One limb of the subtraction loops. */
  method SubLimbInPlace(X: Mpi, i: nat, s: limb, c: int) returns (c': int)
    requires i < |X.p| && 0 <= c <= 1
    modifies X`p
    ensures |X.p| == |old(X.p)| && 0 <= c' <= 1
    ensures Val(X.p) - c' * Weight(i + 1) == old(Val(X.p)) - c * Weight(i) - s * Weight(i)
  {
    ghost var p0, x := X.p, X.p[i];
    SubLimb(x, s, c);
    var z := if X.p[i] < c then 1 else 0;
    X.p := X.p[i := (X.p[i] - c) % BETA];
    c' := (if X.p[i] < s then 1 else 0) + z;
    X.p := X.p[i := (X.p[i] - s) % BETA];
    SubStep(p0, X.p, i, x, s, c, c', Val(p0) - c * Weight(i));
  }

  /** mpi_sub_hlp: d -= s on the first n limbs; the borrow stays inside d because d >= s. */
  method SubHlp(n: nat, s: seq<limb>, X: Mpi)
    requires n <= |s| && n <= |X.p| && Val(s[..n]) <= Val(X.p)
    modifies X`p
    ensures |X.p| == |old(X.p)| && Val(X.p) == old(Val(X.p)) - Val(s[..n])
  {
    hide Val, Weight;
    ghost var v, len := Val(X.p), |X.p|;
    var i, c := 0, 0;
    ValNone(s);
    while i < n
      invariant 0 <= i <= n && 0 <= c <= 1 && |X.p| == len
      invariant Val(X.p) - c * Weight(i) == v - Val(s[..i])
    {
      c := SubLimbInPlace(X, i, s[i], c);
      ValSnoc(s, i);
      i := i + 1;
    }
    while c != 0
      invariant n <= i <= len == |X.p| && 0 <= c <= 1
      invariant Val(X.p) - c * Weight(i) == v - Val(s[..n])
      decreases len - i
    {
      ValBound(X.p);
      c := SubLimbInPlace(X, i, 0, c);
      i := i + 1;
    }
  }

  /** mbedtls_mpi_sub_abs: X = |A| - |B|, refused when |A| < |B|. */
  method SubAbs(X: Mpi, A: Mpi, B: Mpi) returns (r: Status)
    modifies X
    ensures r == NegativeValue <==> old(A.Abs()) < old(B.Abs())
    ensures r.Ok? ==> X.Abs() == old(A.Abs()) - old(B.Abs()) && X.s == 1
    ensures r.Ok? || r == NegativeValue || r == AllocFailed
    ensures r == NegativeValue ==> X.p == old(X.p) && X.s == old(X.s)
    ensures r.Ok? && (X == A || (X == B && |old(A.p)| > 0)) ==> |X.p| >= |old(X.p)|
  {
    hide Val, Weight;
    var c := CmpAbs(A, B);
    if c < 0 {
      return NegativeValue;
    }
    var b := B;
    if X == B {
      var TB := new Mpi();
      :- Copy(TB, B);
      b := TB;
    }
    if X != A {
      :- Copy(X, A);
    }
    X.s := 1;
    var n := SignificantLimbs(b.p);
    if n > |X.p| {
      WeightMonotone(|X.p|, n - 1);
      ValBound(X.p);
    }
    SubHlp(n, b.p, X);
    return Ok;
  }

  /** mbedtls_mpi_add_mpi: X = A + B. */
  method AddMpi(X: Mpi, A: Mpi, B: Mpi) returns (r: Status)
    requires A.Valid() && B.Valid()
    modifies X
    ensures r.Ok? ==> X.Valid()
    ensures r.Ok? && !(X == A && X == B) ==> X.Value() == old(A.Value()) + old(B.Value())
    ensures r.Ok? && X == A && X == B ==> X.p == DoubledLimbs(old(X.p)) && X.s == old(X.s)
    ensures !r.Ok? ==> r == AllocFailed
    ensures r.Ok? && X == A ==> |X.p| >= |old(X.p)| || |X.p| >= |old(B.p)| > 0
    ensures r.Ok? && X == A && |old(B.p)| > 0 ==> |X.p| >= |old(X.p)|
  {
    var s := A.s;
    if A.s * B.s < 0 {
      var c := CmpAbs(A, B);
      if c >= 0 {
        :- SubAbs(X, A, B);
        X.s := s;
      } else {
        :- SubAbs(X, B, A);
        X.s := -s;
      }
    } else {
      :- AddAbs(X, A, B);
      X.s := s;
    }
    return Ok;
  }

  /** mbedtls_mpi_sub_mpi: X = A - B. */
  method SubMpi(X: Mpi, A: Mpi, B: Mpi) returns (r: Status)
    requires A.Valid() && B.Valid()
    modifies X
    ensures r.Ok? ==> X.Valid() && X.Value() == old(A.Value()) - old(B.Value())
    ensures !r.Ok? ==> r == AllocFailed
    ensures r.Ok? && X == A && |old(B.p)| > 0 ==> |X.p| >= |old(X.p)|
  {
    var s := A.s;
    if A.s * B.s > 0 {
      var c := CmpAbs(A, B);
      if c >= 0 {
        :- SubAbs(X, A, B);
        X.s := s;
      } else {
        :- SubAbs(X, B, A);
        X.s := -s;
      }
    } else {
      :- AddAbs(X, A, B);
      X.s := s;
    }
    return Ok;
  }

  /** mbedtls_mpi_sub_int: X = A - b. */
  method SubInt(X: Mpi, A: Mpi, b: int) returns (r: Status)
    requires A.Valid() && -BETA < b < BETA
    modifies X
    ensures r.Ok? ==> X.Valid() && X.Value() == old(A.Value()) - b
    ensures !r.Ok? ==> r == AllocFailed
  {
    var B := OneLimb(b);
    r := SubMpi(X, A, B);
  }
}
