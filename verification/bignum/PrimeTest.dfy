/** mbedtls_mpi_mod_int, the small-factor test, and mbedtls_mpi_is_prime. */
module PrimeTest {
  import opened Arith
  import opened Limbs
  import opened MpiBase
  import opened MpiArith
  import opened NumberTheory
  import opened MillerRabin
  import opened PrimeTable

  // ----- remainders by half limbs -----

  /** (y << 16 | h) mod b, where the shift drops what leaves the limb. */
  function HalfStep(y: nat, h: nat, b: int): (z: int)
    requires b > 0
    ensures 0 <= z < b
  {
    (y * RADIX % BETA + h) % b
  }

  /** Half limb by half limb, from the top. */
  function HalfwiseMod(p: seq<limb>, b: int): (y: int)
    requires b > 0
    ensures 0 <= y < b
  {
    if p == [] then 0 else HalfStep(HalfStep(HalfwiseMod(p[1..], b), p[0] / RADIX, b), p[0] % RADIX, b)
  }

  /** No shift drops anything that matters. */
  predicate Safe(b: int)
    requires b > 0
  {
    b <= RADIX || BETA % b == 0
  }

  lemma ShiftCongruent(y: nat, b: int)
    requires b > 0 && Safe(b) && y < b
    ensures Cong(y * RADIX % BETA, y * RADIX, b)
  {
    hide Cong;
    var s, t := y * RADIX, y * RADIX % BETA;
    if b <= RADIX {
      MulLe(RADIX, y, RADIX - 1);
      DivModUnique(s, BETA, 0, s);
      CongRefl(s, b);
    } else {
      var k, c := s / BETA, BETA / b;
      Euclid(BETA, b);
      MulAssoc(k, c, b);
      CongBy(s, t, b, k * c);
      CongSym(s, t, b);
    }
  }

  lemma HalfStepRight(y: nat, v: nat, h: nat, b: int)
    requires b > 0 && Safe(b) && y < b && Cong(y, v, b)
    ensures Cong(HalfStep(y, h, b), v * RADIX + h, b)
  {
    ShiftCongruent(y, b);
    hide Cong, Safe;
    var s, t := y * RADIX, y * RADIX % BETA;
    CongScale(y, v, RADIX, b);
    CongTrans(t, s, v * RADIX, b);
    CongRefl(h, b);
    CongAdd(t, v * RADIX, h, h, b);
    CongMod(t + h, b);
    CongTrans(HalfStep(y, h, b), t + h, v * RADIX + h, b);
  }

  lemma {:induction false} HalfwiseModRight(p: seq<limb>, b: int)
    requires b > 0 && Safe(b)
    ensures HalfwiseMod(p, b) == Val(p) % b
  {
    if p == [] {
      DivModUnique(0, b, 0, 0);
    } else {
      var y, v := HalfwiseMod(p[1..], b), Val(p[1..]);
      var hi, lo := p[0] / RADIX, p[0] % RADIX;
      HalfwiseModRight(p[1..], b);
      hide HalfStep, Cong, Safe;
      CongMod(v, b);
      HalfStepRight(y, v, hi, b);
      HalfStepRight(HalfStep(y, hi, b), v * RADIX + hi, lo, b);
      HalvesOf(p[0], v);
      CongUnique(HalfwiseMod(p, b), Val(p), b);
    }
  }

  lemma HalvesOf(x: limb, v: nat)
    ensures (v * RADIX + x / RADIX) * RADIX + x % RADIX == x + BETA * v
  {
  }

  /** The remainders are right for all numbers exactly if the divisor is at most 2^16 or a power of two. */
  lemma HalfwiseModExact(b: int)
    requires 0 < b < BETA
    ensures (forall p: seq<limb> :: HalfwiseMod(p, b) == Val(p) % b) <==> Safe(b)
  {
    if Safe(b) {
      forall p: seq<limb> ensures HalfwiseMod(p, b) == Val(p) % b {
        HalfwiseModRight(p, b);
      }
    } else {
      DroppedBits(b);
      assert HalfwiseMod([0, 1], b) != Val([0, 1]) % b;
    }
  }

  /** 2^32 loses its only bit. */
  lemma DroppedBits(b: int)
    requires b > RADIX
    ensures HalfwiseMod([0, 1], b) == 0 && Val([0, 1]) == BETA
  {
    var p: seq<limb> := [0, 1];
    assert p[1..] == [1] && p[1..][1..] == [];
    assert Val(p[1..]) == 1;
    DivModUnique(0, b, 0, 0);
    DivModUnique(1, b, 0, 1);
    DivModUnique(RADIX, b, 0, RADIX);
    assert HalfStep(0, 0, b) == 0 && HalfStep(0, 1, b) == 1;
    assert HalfStep(1, 0, b) == RADIX && HalfStep(RADIX, 0, b) == 0;
    hide HalfStep;
    assert HalfwiseMod(p[1..], b) == 1;
  }

  /** mbedtls_mpi_mod_int. */
  method ModInt(A: Mpi, b: int) returns (r: Status, rem: limb)
    requires A.Valid() && -0x8000_0000 <= b < 0x8000_0000 && (b == 2 ==> |A.p| > 0)
    ensures r == if b == 0 then DivisionByZero else if b < 0 then NegativeValue else Ok
    ensures r.Ok? && Safe(b) ==> rem == A.Value() % b
  {
    rem := 0;
    if b == 0 {
      return DivisionByZero, rem;
    }
    if b < 0 {
      return NegativeValue, rem;
    }
    if b == 1 {
      return Ok, 0;
    }
    if b == 2 {
      ParityOfValue(A);
      return Ok, A.p[0] % 2;
    }
    var y := HalvesLoop(A.p, b);
    if Safe(b) {
      HalfwiseModRight(A.p, b);
      SignedRemainder(A.s, Val(A.p), b);
    }
    if A.s < 0 && y != 0 {
      y := b - y;
    }
    return Ok, y;
  }

  /** The loop of the general case. */
  method HalvesLoop(p: seq<limb>, b: int) returns (y: limb)
    requires 0 < b < BETA
    ensures y == HalfwiseMod(p, b)
  {
    var i := |p|;
    y := 0;
    while i > 0
      invariant 0 <= i <= |p| && y == HalfwiseMod(p[i..], b)
    {
      var x := p[i - 1];
      assert p[i - 1..][1..] == p[i..];
      LowHalf(x);
      y := HalfTurn(y, x / RADIX, b);
      x := x * RADIX % BETA;
      y := HalfTurn(y, x / RADIX, b);
      i := i - 1;
    }
    assert p[0..] == p;
  }

  lemma LowHalf(x: limb)
    ensures x * RADIX % BETA / RADIX == x % RADIX
  {
    var q, r := x / RADIX, x % RADIX;
    assert x * RADIX == q * BETA + r * RADIX;
    DivModUnique(x * RADIX, BETA, q, r * RADIX);
  }

  /** A half limb is shifted in, and the remainder taken. */
  method HalfTurn(y0: limb, h: nat, b: int) returns (y: limb)
    requires 0 < b < BETA && h < RADIX
    ensures y == HalfStep(y0, h, b)
  {
    ShiftedRoom(y0);
    y := y0 * RADIX % BETA + h;
    var z := y / b;
    assert y == z * b + y % b;
    y := y - z * b;
  }

  lemma ShiftedRoom(y: limb)
    ensures y * RADIX % BETA <= BETA - RADIX
  {
    var q, r := y / RADIX, y % RADIX;
    assert y * RADIX == q * BETA + r * RADIX;
    DivModUnique(y * RADIX, BETA, q, r * RADIX);
  }

  lemma SignedRemainder(s: int, v: nat, b: int)
    requires b > 0 && (s == 1 || s == -1)
    ensures (s * v) % b == if s < 0 && v % b != 0 then b - v % b else v % b
  {
    var w, q, r := s * v, v / b, v % b;
    assert v == q * b + r;
    if s == -1 {
      if r == 0 {
        DivModUnique(w, b, -q, 0);
      } else {
        assert (-q - 1) * b == -(q * b) - b;
        DivModUnique(w, b, -q - 1, b - r);
      }
    }
  }

  lemma ParityOfValue(A: Mpi)
    requires A.Valid() && |A.p| > 0
    ensures A.Value() % 2 == A.p[0] % 2
  {
    ValParity(A.p);
    SignedRemainder(A.s, Val(A.p), 2);
  }

  // ----- small factors -----

  /** The odd primes up to some bound, in increasing order. */
  ghost predicate SmallPrimes(table: seq<int>) {
    |table| > 0
    && (forall i :: 0 <= i < |table| ==> Prime(table[i]) && 3 <= table[i] <= RADIX)
    && (forall i, j :: 0 <= i < j < |table| ==> table[i] < table[j])
    && (forall p: int :: Prime(p) && 3 <= p <= table[|table| - 1] ==> p in table)
  }

  lemma TableRight()
    ensures SmallPrimes(SMALL_PRIMES) && SMALL_PRIMES[|SMALL_PRIMES| - 1] == 997
  {
    TableListsPrimes();
    OddPrimes(SMALL_PRIMES, 997);
  }

  lemma OddPrimes(table: seq<int>, last: int)
    requires |table| > 0 && table[|table| - 1] == last <= RADIX && Lists(table, 2, last)
    ensures SmallPrimes(table)
  {
  }

  datatype Verdict = Certain | Open | Refused

  /** mpi_check_small_factors: certainly prime, open, or certainly not. */
  method CheckSmallFactors(X: Mpi, table: seq<int>) returns (v: Verdict)
    requires X.s == 1 && |X.p| > 0 && Val(X.p) > 1 && SmallPrimes(table)
    ensures v == Certain ==> Prime(Val(X.p)) && Val(X.p) <= table[|table| - 1]
    ensures v == Refused ==> !Prime(Val(X.p)) || Val(X.p) == 2
    ensures v == Open ==> Val(X.p) > table[|table| - 1] && Val(X.p) % 2 == 1
    ensures v == Open ==> forall p: int :: p in table ==> Val(X.p) % p != 0
  {
    ghost var x: int := Val(X.p);
    ValParity(X.p);
    if X.p[0] % 2 == 0 {
      EvenNotPrime(x);
      return Refused;
    }
    var i := 0;
    while i < |table|
      invariant 0 <= i <= |table|
      invariant forall j :: 0 <= j < i ==> x > table[j] && x % table[j] != 0
    {
      var c := CmpInt(X, table[i]);
      if c <= 0 {
        NoSmallFactor(x, table, i);
        return Certain;
      }
      var r, rem := ModInt(X, table[i]);
      if rem == 0 {
        FactorFound(x, table[i]);
        return Refused;
      }
      i := i + 1;
    }
    return Open;
  }

  lemma EvenNotPrime(x: int)
    requires x > 1 && x % 2 == 0
    ensures !Prime(x) || x == 2
  {
    if x > 2 {
      assert Divides(2, x);
    }
  }

  lemma FactorFound(x: int, p: int)
    requires 1 < p < x && x % p == 0
    ensures !Prime(x)
  {
    assert Divides(p, x);
  }

  /** An odd number that no smaller table entry divides and that does not exceed the next one is prime. */
  lemma NoSmallFactor(x: int, table: seq<int>, i: nat)
    requires SmallPrimes(table) && i < |table| && 1 < x <= table[i] && x % 2 == 1
    requires forall j :: 0 <= j < i ==> x % table[j] != 0
    ensures Prime(x)
  {
    var q := PrimeFactor(x);
    assert q == x;
  }

  // ----- the test as a whole -----

  /** mbedtls_mpi_is_prime. It refuses a prime only when 31 candidates in a row were out of range, and up to the last
      prime of the table it is exact and draws nothing. */
  method IsPrime(X: Mpi, rng: Random) returns (r: Status, ghost bases: seq<nat>, ghost rounds: seq<seq<Draw>>)
    modifies rng
    ensures Prime(X.Abs()) && r == NotAcceptable ==> GaveUp(rounds, X.Abs(), 4 * |X.p|)
    ensures X.Abs() <= 997 ==> r == (if Prime(X.Abs()) then Ok else NotAcceptable) && rng.drawn == old(rng.drawn)
    ensures r.Ok? && X.Abs() > 997 ==>
              && (forall p: int :: Prime(p) && 2 < p <= 997 ==> X.Abs() % p != 0)
              && |rounds| == |bases| && Enough(BitLen(X.Abs()), |bases|) && Tested(bases, X.Abs())
              && Passes(bases[|bases| - 1], X.Abs())
    ensures (r.Ok? || r == NotAcceptable) && X.Abs() > 1 ==>
              rng.drawn == old(rng.drawn) + Joined(rounds) && BasesDrawn(rounds, bases, X.Abs(), 4 * |X.p|)
    ensures rng.failures == old(rng.failures) + if r == RandomFailed then 1 else 0
  {
    TableRight();
    hide GaveUp, BasesDrawn, Joined, Enough, Tested, Passes;
    r, bases, rounds := IsPrimeBy(X, SMALL_PRIMES, rng);
  }

  /** The test with any table of small primes. */
  method IsPrimeBy(X: Mpi, table: seq<int>, rng: Random)
    returns (r: Status, ghost bases: seq<nat>, ghost rounds: seq<seq<Draw>>)
    requires SmallPrimes(table)
    modifies rng
    ensures X.Abs() > 1 && Prime(X.Abs()) && r == NotAcceptable ==> GaveUp(rounds, X.Abs(), 4 * |X.p|)
    ensures X.Abs() <= table[|table| - 1] ==>
              r == (if Prime(X.Abs()) then Ok else NotAcceptable) && rng.drawn == old(rng.drawn)
    ensures r.Ok? && X.Abs() > table[|table| - 1] ==>
              && (forall p: int :: p in table ==> X.Abs() % p != 0)
              && |rounds| == |bases| && Enough(BitLen(X.Abs()), |bases|) && Tested(bases, X.Abs())
              && Passes(bases[|bases| - 1], X.Abs())
    ensures (r.Ok? || r == NotAcceptable) && X.Abs() > 1 ==>
              rng.drawn == old(rng.drawn) + Joined(rounds) && BasesDrawn(rounds, bases, X.Abs(), 4 * |X.p|)
    ensures rng.failures == old(rng.failures) + if r == RandomFailed then 1 else 0
  {
    hide Prime, SmallPrimes, Enough, Joined, BasesDrawn, GaveUp, Tested, Passes;
    bases, rounds := [], [];
    TwoIsPrime();
    LastEntry(table);
    var XX := new Mpi();
    XX.s, XX.p := 1, X.p;
    var zero := CmpInt(XX, 0);
    var one := CmpInt(XX, 1);
    if zero == 0 || one == 0 {
      return NotAcceptable, bases, rounds;
    }
    r, bases, rounds := AboveOne(XX, table, rng);
  }

  lemma LastEntry(table: seq<int>)
    requires SmallPrimes(table)
    ensures |table| > 0 && table[|table| - 1] >= 3
  {
  }

  /** The test of a number above 1. */
  method AboveOne(X: Mpi, table: seq<int>, rng: Random)
    returns (r: Status, ghost bases: seq<nat>, ghost rounds: seq<seq<Draw>>)
    requires SmallPrimes(table) && X.s == 1 && Val(X.p) > 1
    modifies rng
    ensures Prime(Val(X.p)) && r == NotAcceptable ==> GaveUp(rounds, Val(X.p), 4 * |X.p|)
    ensures Val(X.p) <= table[|table| - 1] ==>
              r == (if Prime(Val(X.p)) then Ok else NotAcceptable) && rng.drawn == old(rng.drawn)
    ensures r.Ok? && Val(X.p) > table[|table| - 1] ==>
              && (forall p: int :: p in table ==> Val(X.p) % p != 0)
              && |rounds| == |bases| && Enough(BitLen(Val(X.p)), |bases|) && Tested(bases, Val(X.p))
              && Passes(bases[|bases| - 1], Val(X.p))
    ensures r.Ok? || r == NotAcceptable ==>
              rng.drawn == old(rng.drawn) + Joined(rounds) && BasesDrawn(rounds, bases, Val(X.p), 4 * |X.p|)
    ensures rng.failures == old(rng.failures) + if r == RandomFailed then 1 else 0
  {
    hide Prime, SmallPrimes, Enough, Joined, BasesDrawn, GaveUp, Tested, Passes;
    bases, rounds := [], [];
    TwoIsPrime();
    LastEntry(table);
    NoRounds(Val(X.p), 4 * |X.p|);
    var two := CmpInt(X, 2);
    if two == 0 {
      return Ok, bases, rounds;
    }
    var v := CheckSmallFactors(X, table);
    if v == Certain {
      return Ok, bases, rounds;
    }
    if v == Refused {
      return NotAcceptable, bases, rounds;
    }
    r, bases, rounds := MillerRabin.MillerRabin(X, rng);
  }

  lemma TwoIsPrime()
    ensures Prime(2) && !Prime(0) && !Prime(1)
  {
  }
}
