/** mpi_miller_rabin: the pseudo-primality test, with an arbitrary random source. */
module MillerRabin {
  import opened Arith
  import opened NumberTheory
  import opened Limbs
  import opened MpiBase
  import opened MpiBinary
  import opened Octets
  import opened MpiShift
  import opened MpiArith
  import opened MpiMul
  import opened MpiDivision
  import opened ExpMod

  // ----- the test on one base, as a property of numbers -----

  /** a^(d * 2^j) mod x, the chain of squarings. */
  function Chain(a: int, d: nat, j: nat, x: int): (y: int)
    requires x > 0
    ensures 0 <= y < x
  {
    MulLe(d, 0, Pow2(j));
    PowMod(a, d * Pow2(j), x)
  }

  /** a is no witness against x: a^d is 1, or some a^(d * 2^j) with j < s is -1. */
  ghost predicate Probable(a: int, d: nat, s: nat, x: int)
    requires x > 0
  {
    Chain(a, d, 0, x) == 1 || exists j :: 0 <= j < s && Chain(a, d, j, x) == x - 1
  }

  function SquareModulo(y: int, x: int): int
    requires x > 0
  {
    (y * y) % x
  }

  lemma ModSquare(q: int, x: int)
    requires x > 0
    ensures (q * q) % x == SquareModulo(q % x, x)
  {
    CongMod(q, x);
    CongMul(q % x, q, q % x, q, x);
    CongIffMod((q % x) * (q % x), q * q, x);
  }

  /** Modulo a prime only 1 and -1 have the square 1. */
  lemma RootOfOneModulo(y: int, x: int)
    requires Prime(x) && 0 <= y < x && SquareModulo(y, x) == 1
    ensures y == 1 || y == x - 1
  {
    DivModUnique(1, x, 0, 1);
    CongIffMod(y * y, 1, x);
    RootsOfOne(y, x);
    if Cong(y, 1, x) {
      CongUnique(y, 1, x);
    } else {
      CongUnique(y, -1, x);
      DivModUnique(-1, x, -1, x - 1);
    }
  }

  lemma ChainSquare(a: int, d: nat, j: nat, x: int)
    requires x > 0
    ensures Chain(a, d, j + 1, x) == SquareModulo(Chain(a, d, j, x), x)
  {
    MulLe(d, 0, Pow2(j));
    var e := d * Pow2(j);
    assert d * Pow2(j + 1) == e + e by {
      MulDist(d, Pow2(j), Pow2(j));
    }
    PowAdd(a, e, e);
    ModSquare(Pow(a, e), x);
  }

  /** Once 1, the chain stays 1. */
  lemma {:induction false} ChainOnes(a: int, d: nat, i: nat, j: nat, x: int)
    requires x > 1 && i <= j && Chain(a, d, i, x) == 1
    ensures Chain(a, d, j, x) == 1
  {
    if i < j {
      ChainOnes(a, d, i, j - 1, x);
      ChainSquare(a, d, j - 1, x);
      DivModUnique(1, x, 0, 1);
    }
  }

  lemma {:induction false} ChainDescends(a: int, d: nat, s: nat, x: int)
    requires Prime(x) && Chain(a, d, s, x) == 1
    ensures Probable(a, d, s, x)
  {
    if s > 0 {
      ChainSquare(a, d, s - 1, x);
      RootOfOneModulo(Chain(a, d, s - 1, x), x);
      if Chain(a, d, s - 1, x) == 1 {
        ChainDescends(a, d, s - 1, x);
      }
    }
  }

  /** No base is a witness against a prime. */
  lemma PrimeProbable(a: nat, d: nat, s: nat, x: int)
    requires Prime(x) && 0 < a < x && x - 1 == d * Pow2(s)
    ensures Probable(a, d, s, x)
  {
    FermatResidue(a, x);
    ChainAt(a, d, s, x - 1, x);
    ChainDescends(a, d, s, x);
  }

  lemma FermatResidue(a: nat, x: int)
    requires Prime(x) && 0 < a < x
    ensures PowMod(a, x - 1, x) == 1
  {
    Fermat(a, x);
    CongSym(Pow(a, x - 1), 1, x);
    CongUnique(1, Pow(a, x - 1), x);
  }

  lemma ChainAt(a: int, d: nat, s: nat, e: nat, x: int)
    requires x > 0 && e == d * Pow2(s)
    ensures Chain(a, d, s, x) == PowMod(a, e, x)
  {
  }

  // ----- the test on one base, as computed -----

  /** The odd part of a number. */
  function OddFactor(v: nat): nat {
    v / Pow2(TrailingZeros(v))
  }

  /** W = X - 1 = d * 2^s with d odd. */
  ghost predicate Decomposed(W: Mpi, R: Mpi, X: Mpi, s: nat)
    reads W, R, X
  {
    X.s == 1 && |X.p| > 0 && Val(X.p) >= 3 && W.Valid() && W.Value() == Val(X.p) - 1
    && R.s == 1 && Val(R.p) == OddFactor(Val(X.p) - 1) && s == TrailingZeros(Val(X.p) - 1)
  }

  lemma OddFactorTimes(v: nat)
    requires v > 0
    ensures v == OddFactor(v) * Pow2(TrailingZeros(v))
  {
    hide TrailingZeros, Pow2;
    TrailingZerosDivides(v);
    var p := Pow2(TrailingZeros(v));
    assert v == (v / p) * p + v % p;
  }

  /** A = A * A mod X. */
  method SquareMod(A: Mpi, X: Mpi, T: Mpi) returns (r: Status)
    requires A !in {X, T} && T != X && A.Valid() && X.s == 1 && Val(X.p) > 0
    modifies A, T
    ensures !r.Ok? ==> r == AllocFailed
    ensures r.Ok? ==> A.Valid() && A.Value() == SquareModulo(old(A.Value()), Val(X.p))
  {
    r := Ok;
    :- MulMpi(T, A, A);
    r := ModMpi(A, T, X);
  }

  /** The squaring loop: it stops at -1, at 1, or after s - 1 squarings. */
  method SquaringLoop(A: Mpi, W: Mpi, R: Mpi, X: Mpi, T: Mpi, s: nat, ghost a: nat) returns (r: Status)
    requires A !in {W, R, X, T} && T !in {W, R, X} && A.Valid() && Decomposed(W, R, X, s)
    requires A.Value() == Chain(a, Val(R.p), 0, Val(X.p)) && A.Value() != 1 && A.Value() != Val(X.p) - 1
    modifies A, T
    ensures !r.Ok? ==> r == AllocFailed
    ensures r.Ok? ==> A.Valid() && (A.Value() == Val(X.p) - 1 <==> Probable(a, Val(R.p), s, Val(X.p)))
  {
    ghost var d, x := Val(R.p), Val(X.p);
    var j := 1;
    var c := CmpMpi(A, W);
    while j < s && c != 0
      invariant 1 <= j && A.Valid() && A.Value() == Chain(a, d, j - 1, x)
      invariant A.Value() != 1 && (c == 0 <==> A.Value() == x - 1)
      invariant c == 0 ==> j - 1 < s
      invariant forall i :: 0 <= i < j - 1 ==> Chain(a, d, i, x) != x - 1
      invariant s > 0 ==> j <= s
    {
      ChainSquare(a, d, j - 1, x);
      :- SquareMod(A, X, T);
      c := CmpInt(A, 1);
      if c == 0 {
        OnesFollow(a, d, j, s, x);
        return Ok;
      }
      c := CmpMpi(A, W);
      j := j + 1;
    }
    return Ok;
  }

  /** A 1 after the start, without a -1 before it, is a witness's. */
  lemma OnesFollow(a: int, d: nat, j: nat, s: nat, x: int)
    requires x > 2 && 1 <= j && Chain(a, d, j, x) == 1 && Chain(a, d, 0, x) != 1
    requires forall i :: 0 <= i < j ==> Chain(a, d, i, x) != x - 1
    ensures !Probable(a, d, s, x)
  {
    forall i | 0 <= i < s
      ensures Chain(a, d, i, x) != x - 1
    {
      if i >= j {
        ChainOnes(a, d, j, i, x);
      }
    }
  }

  /** A = A^R mod X, the start of the chain. */
  method StartChain(A: Mpi, W: Mpi, R: Mpi, X: Mpi, RR: Mpi, s: nat) returns (r: Status)
    requires A !in {R, X, RR} && RR !in {W, R, X}
    requires A.s == 1 && |A.p| > 0 && Decomposed(W, R, X, s) && CacheRight(RR, X)
    modifies A, RR
    ensures CacheRight(RR, X)
    ensures r == BadInput <==> Val(X.p) % 2 == 0
    ensures r.Ok? || r == BadInput || r == AllocFailed
    ensures r.Ok? ==> A.Valid() && A.Value() == Chain(old(Val(A.p)), Val(R.p), 0, Val(X.p))
  {
    ghost var a, d, x := Val(A.p), Val(R.p), Val(X.p);
    ValParity(X.p);
    r := ExpMod.ExpMod(A, A, R, X, RR, MPI_WINDOW_SIZE);
    ChainStart(a, d, x);
  }

  lemma ChainStart(a: int, d: nat, x: int)
    requires x > 0
    ensures Chain(a, d, 0, x) == ExpModResult(a, false, d, x)
  {
    assert d * Pow2(0) == d;
  }

  /** Before an odd number at least one square root can be taken, so a start at 1 or -1 counts. */
  lemma StartProbable(a: int, X: Mpi)
    requires Val(X.p) >= 3 && Val(X.p) % 2 == 1
    requires var y := Chain(a, OddFactor(Val(X.p) - 1), 0, Val(X.p)); y == 1 || y == Val(X.p) - 1
    ensures Probable(a, OddFactor(Val(X.p) - 1), TrailingZeros(Val(X.p) - 1), Val(X.p))
  {
    assert TrailingZeros(Val(X.p) - 1) > 0;
  }

  /** One round: is A a witness against X? */
  method TestBase(A: Mpi, W: Mpi, R: Mpi, X: Mpi, T: Mpi, RR: Mpi, s: nat) returns (r: Status, accept: bool)
    requires A !in {W, R, X, T, RR} && T !in {W, R, X, RR} && RR !in {W, R, X}
    requires A.s == 1 && |A.p| > 0 && Decomposed(W, R, X, s) && CacheRight(RR, X)
    modifies A, T, RR
    ensures CacheRight(RR, X)
    ensures r == BadInput <==> Val(X.p) % 2 == 0
    ensures r.Ok? || r == BadInput || r == AllocFailed
    ensures r.Ok? ==> (accept <==> Probable(old(Val(A.p)), Val(R.p), s, Val(X.p)))
  {
    ghost var a := Val(A.p);
    accept := true;
    :- StartChain(A, W, R, X, RR, s);
    var c := CmpMpi(A, W);
    var one := CmpInt(A, 1);
    if c == 0 || one == 0 {
      StartProbable(a, X);
      return Ok, true;
    }
    :- SquaringLoop(A, W, R, X, T, s, a);
    c := CmpMpi(A, W);
    one := CmpInt(A, 1);
    accept := !(c != 0 || one == 0);
    r := Ok;
  }

  // ----- the whole test -----

  const MPI_WINDOW_SIZE: nat := 6
  const MPI_MAX_SIZE: nat := 1024

  /** What the source supplies at one call. */
  type Draw = seq<byte>

  /** The caller's random source: any bytes, or a failure. It remembers what it supplied. */
  class Random {
    ghost var drawn: seq<Draw>
    ghost var failures: nat

    /** f_rng. */
    method Fill(size: nat) returns (ok: bool, buf: seq<byte>)
      modifies this
      ensures ok ==> |buf| == size && drawn == old(drawn) + [buf] && failures == old(failures)
      ensures !ok ==> drawn == old(drawn) && failures == old(failures) + 1
    {
      ok := *;
      buf := [];
      if !ok {
        failures := failures + 1;
        return;
      }
      while |buf| < size
        invariant |buf| <= size && drawn == old(drawn) && failures == old(failures)
      {
        var x: byte := *;
        buf := buf + [x];
      }
      drawn := drawn + [buf];
    }
  }

  /** The draws made since. */
  ghost function Since(before: seq<Draw>, drawn: seq<Draw>): (draws: seq<Draw>)
    ensures before <= drawn ==> drawn == before + draws
  {
    if before <= drawn then drawn[|before|..] else []
  }

  /** mbedtls_mpi_fill_random: one draw of that many limbs, as a number. */
  method FillRandom(X: Mpi, limbs: nat, rng: Random) returns (r: Status)
    modifies X, rng
    ensures old(rng.drawn) <= rng.drawn
    ensures r.Ok? ==> X.Valid() && X.s == 1 && |X.p| > 0
    ensures r.Ok? ==> |rng.drawn| == |old(rng.drawn)| + 1 && var draw := rng.drawn[|old(rng.drawn)|];
                      |draw| == 4 * limbs && Val(X.p) == Number(draw)
    ensures r == BadInput <==> 4 * limbs > MPI_MAX_SIZE
    ensures r.Ok? || r == BadInput || r == AllocFailed || r == RandomFailed
    ensures rng.failures == old(rng.failures) + if r == RandomFailed then 1 else 0
  {
    if 4 * limbs > MPI_MAX_SIZE {
      return BadInput;
    }
    var ok, buf := rng.Fill(4 * limbs);
    if !ok {
      return RandomFailed;
    }
    r := ReadBinary(X, buf);
    return r;
  }

  // ----- the draws of a round -----

  /** A draw as the loop uses it: its number, shifted to the length of w if it is longer. */
  function Candidate(draw: Draw, w: nat): int {
    var v := Number(draw);
    if BitLen(v) > BitLen(w) then v / Pow2(BitLen(v) - BitLen(w)) else v
  }

  predicate InRange(draw: Draw, w: nat) {
    1 < Candidate(draw, w) < w
  }

  /** Draws of a size, all out of range. */
  ghost predicate Rejected(draws: seq<Draw>, w: nat, size: nat) {
    forall i :: 0 <= i < |draws| ==> |draws[i]| == size && !InRange(draws[i], w)
  }

  lemma RejectedNone(w: nat, size: nat)
    ensures Rejected([], w, size)
  {
  }

  lemma RejectedMore(draws: seq<Draw>, w: nat, size: nat, draw: Draw)
    requires Rejected(draws, w, size) && |draw| == size && !InRange(draw, w)
    ensures Rejected(draws + [draw], w, size)
  {
    hide InRange;
  }

  /** The loop ended with the base a, the first candidate in range. */
  ghost predicate Picked(draws: seq<Draw>, w: nat, size: nat, a: nat) {
    && 1 <= |draws| <= 31 && Rejected(draws[..|draws| - 1], w, size)
    && var last := draws[|draws| - 1];
       |last| == size && a == Candidate(last, w) && 1 < a < w
  }

  lemma PickedRange(draws: seq<Draw>, w: nat, size: nat, a: nat)
    requires Picked(draws, w, size, a)
    ensures 1 < a < w
  {
  }

  lemma PickedLast(draws: seq<Draw>, w: nat, size: nat, draw: Draw, a: nat)
    requires |draws| <= 30 && Rejected(draws, w, size) && |draw| == size && InRange(draw, w) && a == Candidate(draw, w)
    ensures Picked(draws + [draw], w, size, a)
  {
    hide Candidate, Rejected;
    assert (draws + [draw])[..|draws|] == draws;
  }

  /** The loop gave up: 31 candidates out of range, and a last draw that is not looked at. */
  ghost predicate Exhausted(draws: seq<Draw>, w: nat, size: nat) {
    |draws| == 32 && Rejected(draws[..31], w, size) && |draws[31]| == size
  }

  lemma ExhaustedLast(draws: seq<Draw>, w: nat, size: nat, draw: Draw)
    requires |draws| == 31 && Rejected(draws, w, size) && |draw| == size
    ensures Exhausted(draws + [draw], w, size)
  {
    hide Rejected;
    assert (draws + [draw])[..31] == draws;
  }

  /** HAC, table 4.4: the number of rounds for that many bits. */
  function Rounds(bits: nat): nat {
    if bits >= 1300 then 2 else if bits >= 850 then 3 else if bits >= 650 then 4 else if bits >= 350 then 8
    else if bits >= 250 then 12 else if bits >= 150 then 18 else 27
  }

  /** x | 3. */
  function LowBitsSet(x: limb): limb {
    x - x % 4 + 3
  }

  /** The draw that is made first and then thrown away. */
  method FirstDraw(A: Mpi, W: Mpi, X: Mpi, rng: Random) returns (r: Status)
    requires A !in {W, X} && W.Valid() && W.Value() >= 0
    modifies A, rng
    ensures old(rng.drawn) <= rng.drawn
    ensures r == BadInput <==> 4 * |X.p| > MPI_MAX_SIZE
    ensures r.Ok? || r == BadInput || r == AllocFailed || r == RandomFailed
    ensures rng.failures == old(rng.failures) + if r == RandomFailed then 1 else 0
    ensures r.Ok? ==> A.s == 1 && |A.p| > 0 && |rng.drawn| == |old(rng.drawn)| + 1
  {
    r := Ok;
    :- FillRandom(A, |X.p|, rng);
    var c := CmpMpi(A, W);
    Magnitude(A);
    Magnitude(W);
    if c >= 0 {
      var i := Bitlen(A);
      var j := Bitlen(W);
      BitLenOrder(Val(W.p), Val(A.p));
      :- ShiftR(A, i - j + 1);
    }
    A.p := A.p[0 := LowBitsSet(A.p[0])];
    return Ok;
  }

  lemma Magnitude(X: Mpi)
    requires X.Valid() && X.Value() >= 0
    ensures X.Value() == Val(X.p)
  {
  }

  lemma {:induction false} BitLenOrder(v: nat, w: nat)
    requires v <= w
    ensures BitLen(v) <= BitLen(w)
  {
    BitLenBound(v);
    BitLenBound(w);
    if BitLen(v) > BitLen(w) {
      Pow2Monotone(BitLen(w), BitLen(v) - 1);
    }
  }

  /** The drawing loop: the first of at most 31 draws whose candidate lies strictly between 1 and X - 1, or giving up. */
  method DrawBase(A: Mpi, W: Mpi, X: Mpi, rng: Random) returns (r: Status, gaveUp: bool)
    requires A !in {W, X} && W.Valid() && W.Value() >= 0
    modifies A, rng
    ensures old(rng.drawn) <= rng.drawn
    ensures r == BadInput <==> 4 * |X.p| > MPI_MAX_SIZE
    ensures r.Ok? || r == BadInput || r == AllocFailed || r == RandomFailed
    ensures rng.failures == old(rng.failures) + if r == RandomFailed then 1 else 0
    ensures r.Ok? ==> A.s == 1 && |A.p| > 0
    ensures r.Ok? && gaveUp ==> Exhausted(Since(old(rng.drawn), rng.drawn), W.Value(), 4 * |X.p|)
    ensures r.Ok? && !gaveUp ==> Picked(Since(old(rng.drawn), rng.drawn), W.Value(), 4 * |X.p|, Val(A.p))
  {
    hide Candidate, Picked, Exhausted, Rejected;
    gaveUp := false;
    Magnitude(W);
    ghost var w, size, rejected := Val(W.p), 4 * |X.p|, [];
    RejectedNone(w, size);
    var count := 0;
    while true
      invariant A !in {W, X} && 0 <= count <= 31 && rng.failures == old(rng.failures)
      invariant count > 0 ==> 4 * |X.p| <= MPI_MAX_SIZE
      invariant rng.drawn == old(rng.drawn) + rejected && |rejected| == count && Rejected(rejected, w, size)
      decreases 32 - count
    {
      ghost var draw;
      draw :- DrawCandidate(A, W, X, rng);
      SinceIs(old(rng.drawn), rejected, draw, rng.drawn);
      if count > 30 {
        ExhaustedLast(rejected, w, size, draw);
        return Ok, true;
      }
      count := count + 1;
      var c := CmpMpi(A, W);
      var one := CmpInt(A, 1);
      if !(c >= 0 || one <= 0) {
        PickedLast(rejected, w, size, draw, Val(A.p));
        return Ok, false;
      }
      RejectedMore(rejected, w, size, draw);
      rejected := rejected + [draw];
    }
  }

  /** A draw, shifted to the length of W. */
  method DrawCandidate(A: Mpi, W: Mpi, X: Mpi, rng: Random) returns (r: Status, ghost draw: Draw)
    requires A !in {W, X} && W.Valid() && W.Value() >= 0
    modifies A, rng
    ensures old(rng.drawn) <= rng.drawn
    ensures r == BadInput <==> 4 * |X.p| > MPI_MAX_SIZE
    ensures r.Ok? || r == BadInput || r == AllocFailed || r == RandomFailed
    ensures rng.failures == old(rng.failures) + if r == RandomFailed then 1 else 0
    ensures r.Ok? ==> A.Valid() && A.s == 1 && |A.p| > 0 && Val(A.p) == Candidate(draw, W.Value())
    ensures r.Ok? ==> rng.drawn == old(rng.drawn) + [draw] && |draw| == 4 * |X.p|
  {
    hide Candidate, BitLen, Number;
    draw := [];
    :- FillRandom(A, |X.p|, rng);
    draw := rng.drawn[|rng.drawn| - 1];
    Magnitude(W);
    CandidateIs(draw, W.Value());
    var j := Bitlen(A);
    var k := Bitlen(W);
    if j > k {
      :- ShiftR(A, j - k);
    }
    r := Ok;
  }

  lemma CandidateIs(draw: Draw, w: nat)
    ensures BitLen(Number(draw)) > BitLen(w) ==> Candidate(draw, w) == Number(draw) / Pow2(BitLen(Number(draw)) - BitLen(w))
    ensures BitLen(Number(draw)) <= BitLen(w) ==> Candidate(draw, w) == Number(draw)
  {
  }

  lemma SinceIs(before: seq<Draw>, draws: seq<Draw>, draw: Draw, drawn: seq<Draw>)
    requires before + draws <= drawn && |drawn| == |before + draws| + 1 && draw == drawn[|drawn| - 1]
    ensures before <= drawn && Since(before, drawn) == draws + [draw] && drawn == before + (draws + [draw])
  {
  }

  /** W = X - 1 and R = W >> lsb(W). */
  method Decompose(W: Mpi, R: Mpi, X: Mpi) returns (r: Status, s: nat)
    requires W !in {R, X} && R != X && X.s == 1 && |X.p| > 0 && Val(X.p) >= 3 && R.s == 1
    modifies W, R
    ensures !r.Ok? ==> r == AllocFailed
    ensures r.Ok? ==> Decomposed(W, R, X, s)
  {
    s := 0;
    :- SubInt(W, X, 1);
    s := Lsb(W);
    :- Copy(R, W);
    :- ShiftR(R, s);
    r := Ok;
  }

  /** x is a strong probable prime to the base a. */
  ghost predicate Passes(a: nat, x: int)
    requires x > 1
  {
    Probable(a, OddFactor(x - 1), TrailingZeros(x - 1), x)
  }

  lemma PrimePasses(a: nat, x: int)
    requires Prime(x) && 0 < a < x
    ensures Passes(a, x)
  {
    OddFactorTimes(x - 1);
    PrimeProbable(a, OddFactor(x - 1), TrailingZeros(x - 1), x);
  }

  /** The bases that were tested lie strictly between 1 and x - 1, and all but the last passed. */
  ghost predicate Tested(bases: seq<nat>, x: int)
    requires x > 1
  {
    (forall i :: 0 <= i < |bases| ==> 1 < bases[i] < x - 1)
    && (forall i :: 0 <= i < |bases| - 1 ==> Passes(bases[i], x))
  }

  // ----- the draws of a run -----

  /** The draws of all rounds, one after the other. */
  ghost function Joined(rounds: seq<seq<Draw>>): seq<Draw> {
    if rounds == [] then [] else Joined(rounds[..|rounds| - 1]) + rounds[|rounds| - 1]
  }

  lemma JoinedMore(rounds: seq<seq<Draw>>, draws: seq<Draw>)
    ensures Joined(rounds + [draws]) == Joined(rounds) + draws
  {
    assert (rounds + [draws])[..|rounds|] == rounds;
  }

  /** Every base is what its round picked, after a first draw that is not used. */
  ghost predicate BasesDrawn(rounds: seq<seq<Draw>>, bases: seq<nat>, x: int, size: nat)
    requires x > 1
  {
    |bases| <= |rounds| && forall i :: 0 <= i < |bases| ==> rounds[i] != [] && Picked(rounds[i][1..], x - 1, size, bases[i])
  }

  /** The last round gave up. */
  ghost predicate GaveUp(rounds: seq<seq<Draw>>, x: int, size: nat)
    requires x > 1
  {
    rounds != [] && rounds[|rounds| - 1] != [] && Exhausted(rounds[|rounds| - 1][1..], x - 1, size)
  }

  /** HAC, table 4.4, by its intervals. */
  predicate Enough(bits: nat, rounds: nat) {
    && (bits < 150 ==> rounds == 27) && (150 <= bits < 250 ==> rounds == 18) && (250 <= bits < 350 ==> rounds == 12)
    && (350 <= bits < 650 ==> rounds == 8) && (650 <= bits < 850 ==> rounds == 4)
    && (850 <= bits < 1300 ==> rounds == 3) && (1300 <= bits ==> rounds == 2)
  }

  /** mpi_miller_rabin. It accepts when every round's base passes, and refuses when one does not or when
      a round gives up drawing; a prime is refused only in the second way. */
  method MillerRabin(X: Mpi, rng: Random) returns (r: Status, ghost bases: seq<nat>, ghost rounds: seq<seq<Draw>>)
    requires X.s == 1 && |X.p| > 0 && Val(X.p) >= 3
    modifies rng
    ensures Tested(bases, Val(X.p))
    ensures r.Ok? || r == NotAcceptable ==>
              rng.drawn == old(rng.drawn) + Joined(rounds) && BasesDrawn(rounds, bases, Val(X.p), 4 * |X.p|)
    ensures r.Ok? ==> |rounds| == |bases| && Enough(BitLen(Val(X.p)), |bases|) && Passes(bases[|bases| - 1], Val(X.p))
    ensures r.Ok? ==> Val(X.p) % 2 == 1 && Val(X.p) > 3
    ensures r == NotAcceptable ==>
              || (|rounds| == |bases| && bases != [] && !Passes(bases[|bases| - 1], Val(X.p)))
              || (|rounds| == |bases| + 1 && GaveUp(rounds, Val(X.p), 4 * |X.p|))
    ensures r == NotAcceptable && Prime(Val(X.p)) ==> GaveUp(rounds, Val(X.p), 4 * |X.p|)
    ensures r.Ok? || r == NotAcceptable || r == BadInput || r == AllocFailed || r == RandomFailed
    ensures r == BadInput ==> Val(X.p) % 2 == 0 || 4 * |X.p| > MPI_MAX_SIZE
    ensures rng.failures == old(rng.failures) + if r == RandomFailed then 1 else 0
  {
    hide Joined, BasesDrawn, GaveUp, Passes, Prime, Tested, Enough, Rounds;
    bases, rounds := [], [];
    NoRounds(Val(X.p), 4 * |X.p|);
    var W := new Mpi();
    var R := new Mpi();
    var T := new Mpi();
    var A := new Mpi();
    var RR := new Mpi();
    var s;
    s :- Decompose(W, R, X);
    var bits := Bitlen(X);
    var n := Rounds(bits);
    r, bases, rounds := RunRounds(n, A, W, R, X, T, RR, s, rng);
    RoundsEnough(bits);
    TestedRange(bases, Val(X.p));
  }

  lemma RoundsEnough(bits: nat)
    ensures Rounds(bits) >= 2 && Enough(bits, Rounds(bits))
  {
  }

  lemma TestedRange(bases: seq<nat>, x: int)
    requires x > 1 && Tested(bases, x)
    ensures bases != [] ==> x > 3
  {
    if bases != [] {
      assert 1 < bases[0] < x - 1;
    }
  }

  /** The rounds. */
  method RunRounds(n: nat, A: Mpi, W: Mpi, R: Mpi, X: Mpi, T: Mpi, RR: Mpi, s: nat, rng: Random)
    returns (r: Status, ghost bases: seq<nat>, ghost rounds: seq<seq<Draw>>)
    requires A !in {W, R, X, T, RR} && T !in {W, R, X, RR} && RR !in {W, R, X}
    requires Decomposed(W, R, X, s) && CacheRight(RR, X)
    modifies A, T, RR, rng
    ensures Tested(bases, Val(X.p))
    ensures r.Ok? || r == NotAcceptable ==>
              rng.drawn == old(rng.drawn) + Joined(rounds) && BasesDrawn(rounds, bases, Val(X.p), 4 * |X.p|)
    ensures r.Ok? ==> |rounds| == |bases| == n && (n > 0 ==> Passes(bases[n - 1], Val(X.p)) && Val(X.p) % 2 == 1)
    ensures r == NotAcceptable ==>
              || (|rounds| == |bases| && bases != [] && !Passes(bases[|bases| - 1], Val(X.p)))
              || (|rounds| == |bases| + 1 && GaveUp(rounds, Val(X.p), 4 * |X.p|))
    ensures r == NotAcceptable && Prime(Val(X.p)) ==> GaveUp(rounds, Val(X.p), 4 * |X.p|)
    ensures r.Ok? || r == NotAcceptable || r == BadInput || r == AllocFailed || r == RandomFailed
    ensures r == BadInput ==> Val(X.p) % 2 == 0 || 4 * |X.p| > MPI_MAX_SIZE
    ensures rng.failures == old(rng.failures) + if r == RandomFailed then 1 else 0
  {
    bases, rounds := [], [];
    ghost var x := Val(X.p);
    hide Passes, Picked, Exhausted, Prime, BasesDrawn, GaveUp, Joined, Since, Tested, AllPassed;
    NoRounds(x, 4 * |X.p|);
    var i := 0;
    while i < n
      invariant 0 <= i <= n && |bases| == |rounds| == i && (i > 0 ==> x % 2 == 1)
      invariant Decomposed(W, R, X, s) && CacheRight(RR, X)
      invariant Tested(bases, x) && AllPassed(bases, x)
      invariant rng.drawn == old(rng.drawn) + Joined(rounds) && BasesDrawn(rounds, bases, x, 4 * |X.p|)
      invariant rng.failures == old(rng.failures)
    {
      ghost var a, before := 0, rng.drawn;
      var gaveUp, accept;
      gaveUp, accept, a :- TestRound(A, W, R, X, T, RR, s, rng);
      ghost var draws := Since(before, rng.drawn);
      JoinedMore(rounds, draws);
      assert rng.drawn == old(rng.drawn) + Joined(rounds + [draws]) by {
        Appended(old(rng.drawn), Joined(rounds), before, rng.drawn);
      }
      if gaveUp {
        OneMoreGaveUp(rounds, bases, x, 4 * |X.p|, draws);
        rounds := rounds + [draws];
        return NotAcceptable, bases, rounds;
      }
      OneMoreBase(rounds, bases, x, 4 * |X.p|, draws, a);
      bases, rounds := bases + [a], rounds + [draws];
      if !accept {
        return NotAcceptable, bases, rounds;
      }
      i := i + 1;
    }
    r := Ok;
    AllPassedLast(bases, x);
  }

  /** The bases all passed. */
  ghost predicate AllPassed(bases: seq<nat>, x: int)
    requires x > 1
  {
    forall i :: 0 <= i < |bases| ==> Passes(bases[i], x)
  }

  lemma AllPassedLast(bases: seq<nat>, x: int)
    requires x > 1 && AllPassed(bases, x)
    ensures bases != [] ==> Passes(bases[|bases| - 1], x)
  {
  }

  lemma NoRounds(x: int, size: nat)
    requires x > 1
    ensures Tested([], x) && AllPassed([], x) && BasesDrawn([], [], x, size) && Joined([]) == []
  {
  }

  lemma Appended(start: seq<Draw>, joined: seq<Draw>, before: seq<Draw>, drawn: seq<Draw>)
    requires before == start + joined && before <= drawn
    ensures drawn == start + (joined + Since(before, drawn))
  {
  }

  lemma OneMoreBase(rounds: seq<seq<Draw>>, bases: seq<nat>, x: int, size: nat, draws: seq<Draw>, a: nat)
    requires x > 1 && |rounds| == |bases| && BasesDrawn(rounds, bases, x, size)
    requires Tested(bases, x) && AllPassed(bases, x)
    requires draws != [] && Picked(draws[1..], x - 1, size, a) && 1 < a < x - 1
    ensures BasesDrawn(rounds + [draws], bases + [a], x, size) && Tested(bases + [a], x)
    ensures Passes(a, x) ==> AllPassed(bases + [a], x)
  {
    hide Picked, Passes;
  }

  lemma OneMoreGaveUp(rounds: seq<seq<Draw>>, bases: seq<nat>, x: int, size: nat, draws: seq<Draw>)
    requires x > 1 && |rounds| == |bases| && BasesDrawn(rounds, bases, x, size)
    requires draws != [] && Exhausted(draws[1..], x - 1, size)
    ensures BasesDrawn(rounds + [draws], bases, x, size) && GaveUp(rounds + [draws], x, size)
  {
    hide Picked, Exhausted;
  }

  lemma SinceFirst(before: seq<Draw>, first: seq<Draw>, drawn: seq<Draw>)
    requires before <= first <= drawn && |first| == |before| + 1
    ensures Since(before, drawn) != [] && Since(before, drawn)[1..] == Since(first, drawn)
  {
  }

  /** A round: a base is drawn and tested. */
  method TestRound(A: Mpi, W: Mpi, R: Mpi, X: Mpi, T: Mpi, RR: Mpi, s: nat, rng: Random)
    returns (r: Status, gaveUp: bool, accept: bool, ghost a: nat)
    requires A !in {W, R, X, T, RR} && T !in {W, R, X, RR} && RR !in {W, R, X}
    requires Decomposed(W, R, X, s) && CacheRight(RR, X)
    modifies A, T, RR, rng
    ensures CacheRight(RR, X) && old(rng.drawn) <= rng.drawn
    ensures r.Ok? || r == BadInput || r == AllocFailed || r == RandomFailed
    ensures r == BadInput ==> Val(X.p) % 2 == 0 || 4 * |X.p| > MPI_MAX_SIZE
    ensures rng.failures == old(rng.failures) + if r == RandomFailed then 1 else 0
    ensures r.Ok? ==> Since(old(rng.drawn), rng.drawn) != []
    ensures r.Ok? && gaveUp ==> Exhausted(Since(old(rng.drawn), rng.drawn)[1..], Val(X.p) - 1, 4 * |X.p|)
    ensures r.Ok? && !gaveUp ==> Picked(Since(old(rng.drawn), rng.drawn)[1..], Val(X.p) - 1, 4 * |X.p|, a)
    ensures r.Ok? && !gaveUp ==> 1 < a < Val(X.p) - 1 && (accept <==> Passes(a, Val(X.p))) && Val(X.p) % 2 == 1
    ensures r.Ok? && !gaveUp && Prime(Val(X.p)) ==> accept
  {
    hide Picked, Exhausted, Prime, Passes;
    gaveUp, accept, a := false, false, 0;
    :- FirstDraw(A, W, X, rng);
    ghost var first := rng.drawn;
    gaveUp :- DrawBase(A, W, X, rng);
    SinceFirst(old(rng.drawn), first, rng.drawn);
    a := Val(A.p);
    if !gaveUp {
      PickedRange(Since(first, rng.drawn), W.Value(), 4 * |X.p|, a);
      accept :- JudgeBase(A, W, R, X, T, RR, s);
    }
    r := Ok;
  }

  /** A base in range is tested. */
  method JudgeBase(A: Mpi, W: Mpi, R: Mpi, X: Mpi, T: Mpi, RR: Mpi, s: nat) returns (r: Status, accept: bool)
    requires A !in {W, R, X, T, RR} && T !in {W, R, X, RR} && RR !in {W, R, X}
    requires A.s == 1 && |A.p| > 0 && Decomposed(W, R, X, s) && CacheRight(RR, X) && 1 < Val(A.p) < Val(X.p) - 1
    modifies A, T, RR
    ensures CacheRight(RR, X)
    ensures r == BadInput ==> Val(X.p) % 2 == 0
    ensures r.Ok? || r == BadInput || r == AllocFailed
    ensures r.Ok? ==> (accept <==> Passes(old(Val(A.p)), Val(X.p))) && Val(X.p) % 2 == 1
    ensures r.Ok? && Prime(Val(X.p)) ==> accept
  {
    hide Prime, Probable;
    accept := false;
    ghost var a := Val(A.p);
    accept :- TestBase(A, W, R, X, T, RR, s);
    if Prime(Val(X.p)) {
      PrimePasses(a, Val(X.p));
    }
    r := Ok;
  }
}
