/** The table of small primes in bignum.c, shown to be the list of the odd primes up to 997. */
module PrimeTable {
  import opened Arith
  import opened NumberTheory

  const FIRST_ROWS: seq<int> :=
    [3, 5, 7, 11, 13, 17, 19, 23]
    + [29, 31, 37, 41, 43, 47, 53, 59]
    + [61, 67, 71, 73, 79, 83, 89, 97]
    + [101, 103, 107, 109, 113, 127, 131, 137]
    + [139, 149, 151, 157, 163, 167, 173, 179]

  const SECOND_ROWS: seq<int> :=
    [181, 191, 193, 197, 199, 211, 223, 227]
    + [229, 233, 239, 241, 251, 257, 263, 269]
    + [271, 277, 281, 283, 293, 307, 311, 313]
    + [317, 331, 337, 347, 349, 353, 359, 367]
    + [373, 379, 383, 389, 397, 401, 409, 419]

  const THIRD_ROWS: seq<int> :=
    [421, 431, 433, 439, 443, 449, 457, 461]
    + [463, 467, 479, 487, 491, 499, 503, 509]
    + [521, 523, 541, 547, 557, 563, 569, 571]
    + [577, 587, 593, 599, 601, 607, 613, 617]
    + [619, 631, 641, 643, 647, 653, 659, 661]

  const FOURTH_ROWS: seq<int> :=
    [673, 677, 683, 691, 701, 709, 719, 727]
    + [733, 739, 743, 751, 757, 761, 769, 773]
    + [787, 797, 809, 811, 821, 823, 827, 829]
    + [839, 853, 857, 859, 863, 877, 881, 883]
    + [887, 907, 911, 919, 929, 937, 941, 947]

  const LAST_ROW: seq<int> := [953, 967, 971, 977, 983, 991, 997]

  /** small_prime, without the negative number that ends it. */
  const SMALL_PRIMES: seq<int> := FIRST_ROWS + SECOND_ROWS + THIRD_ROWS + FOURTH_ROWS + LAST_ROW

  /** The primes above lo and up to hi, in order. */
  ghost predicate Lists(c: seq<int>, lo: int, hi: int) {
    (forall i :: 0 <= i < |c| ==> Prime(c[i]) && lo < c[i] <= hi)
    && (forall i, j :: 0 <= i < j < |c| ==> c[i] < c[j])
    && (forall p: int :: Prime(p) && lo < p <= hi ==> p in c)
  }

  // ----- trial division -----

  /** n is odd, and no prime up to 31 divides it, unless it is n. */
  predicate Sieve(n: int) {
    n % 2 != 0 && (n == 3 || n % 3 != 0) && (n == 5 || n % 5 != 0) && (n == 7 || n % 7 != 0)
    && (n == 11 || n % 11 != 0) && (n == 13 || n % 13 != 0) && (n == 17 || n % 17 != 0) && (n == 19 || n % 19 != 0)
    && (n == 23 || n % 23 != 0) && (n == 29 || n % 29 != 0) && (n == 31 || n % 31 != 0)
  }

  /** A number has a prime factor, itself if it is prime. */
  lemma {:induction false} PrimeFactor(x: nat) returns (q: nat)
    requires x > 1
    ensures Prime(q) && Divides(q, x) && q <= x
    decreases x
  {
    if Prime(x) {
      DividesBy(x, x, 1);
      q := x;
    } else {
      var d: nat :| 1 < d < x && Divides(d, x);
      q := PrimeFactor(d);
      DividesTrans(q, d, x);
    }
  }

  /** A composite number up to 1000 has a prime factor of at most 31. */
  lemma SmallFactor(n: nat) returns (q: nat)
    requires 1 < n <= 1000 && !Prime(n)
    ensures Prime(q) && q <= 31 && q < n && n % q == 0
  {
    var d: nat :| 1 < d < n && Divides(d, n);
    var k := DividesQuotient(d, n);
    CofactorBounds(n, d, k);
    var m := if d <= k then d else k;
    q := PrimeFactor(m);
    DividesBy(k, n, d);
    DividesTrans(q, m, n);
  }

  lemma CofactorBounds(n: nat, d: nat, k: int)
    requires n <= 1000 && 1 < d < n && n == k * d
    ensures 1 < k < n && (d <= 31 || k <= 31)
  {
    if k <= 1 {
      MulLe(d, k, 1);
    }
    MulLe(k, 2, d);
    if d >= 32 && k >= 32 {
      MulLe(d, 32, k);
    }
  }

  lemma NoDivisor(p: int, d: int)
    requires Prime(p) && 1 < d < p
    ensures p % d != 0
  {
    assert !Divides(d, p);
  }

  lemma PrimesUpTo31(q: nat)
    requires Prime(q) && q <= 31
    ensures q in {2, 3, 5, 7, 11, 13, 17, 19, 23, 29, 31}
  {
    if q > 2 {
      NoDivisor(q, 2);
    }
    if q > 3 {
      NoDivisor(q, 3);
    }
    if q > 5 {
      NoDivisor(q, 5);
    }
  }

  lemma SieveExact(n: nat)
    requires 2 < n <= 1000
    ensures Prime(n) <==> Sieve(n)
  {
    if !Prime(n) {
      var q := SmallFactor(n);
      PrimesUpTo31(q);
    } else {
      forall q | q in {2, 3, 5, 7, 11, 13, 17, 19, 23, 29, 31} && n != q ensures n % q != 0 {
        if q < n {
          NoDivisor(n, q);
        }
      }
    }
  }

  /** No odd number between a and p passes. */
  predicate Gap(a: int, p: int) {
    a < p <= a + 20 && (a % 2 == 1 || p == a + 1)
    && (a + 2 >= p || !Sieve(a + 2)) && (a + 4 >= p || !Sieve(a + 4)) && (a + 6 >= p || !Sieve(a + 6))
    && (a + 8 >= p || !Sieve(a + 8)) && (a + 10 >= p || !Sieve(a + 10)) && (a + 12 >= p || !Sieve(a + 12))
    && (a + 14 >= p || !Sieve(a + 14)) && (a + 16 >= p || !Sieve(a + 16)) && (a + 18 >= p || !Sieve(a + 18))
  }

  lemma InGap(a: int, p: int, q: int)
    requires Gap(a, p) && a < q < p
    ensures !Sieve(q)
  {
    hide Sieve;
    if q % 2 == 0 {
      EvenFails(q);
    } else {
      var d := (q - a) / 2;
      assert q == a + 2 * d && 1 <= d <= 9;
    }
  }

  lemma EvenFails(q: int)
    requires q % 2 == 0
    ensures !Sieve(q)
  {
  }

  /** A number that passes behind a gap is the next prime. */
  lemma NextPrime(c: seq<int>, lo: int, a: int, p: int)
    requires 2 <= lo <= a < p <= 1000 && Lists(c, lo, a) && Gap(a, p) && Sieve(p)
    ensures Lists(c + [p], lo, p)
  {
    hide Sieve, Gap, Prime;
    SieveExact(p);
    forall q: int | Prime(q) && lo < q <= p ensures q in c + [p] {
      if a < q < p {
        SieveExact(q);
        InGap(a, p, q);
      }
    }
  }

  lemma ListsJoin(a: seq<int>, b: seq<int>, lo: int, mid: int, hi: int)
    requires Lists(a, lo, mid) && Lists(b, mid, hi) && lo <= mid <= hi
    ensures Lists(a + b, lo, hi)
  {
    hide Prime;
  }

  /** Eight primes more. */
  lemma NextRow(t: seq<int>, lo: int, last: int, a: int, b: int, c: int, d: int, e: int, f: int, g: int, h: int)
    returns (r: seq<int>)
    requires 2 <= lo <= last && h <= 1000 && Lists(t, lo, last)
    requires Gap(last, a) && Gap(a, b) && Gap(b, c) && Gap(c, d) && Gap(d, e) && Gap(e, f) && Gap(f, g) && Gap(g, h)
    requires Sieve(a) && Sieve(b) && Sieve(c) && Sieve(d) && Sieve(e) && Sieve(f) && Sieve(g) && Sieve(h)
    ensures r == t + [a, b, c, d, e, f, g, h] && Lists(r, lo, h)
  {
    hide Sieve, Gap, Lists;
    GapsIncrease(last, a, b, c, d);
    GapsIncrease(d, e, f, g, h);
    NextPrime(t, lo, last, a);
    NextPrime(t + [a], lo, a, b);
    NextPrime(t + [a] + [b], lo, b, c);
    NextPrime(t + [a] + [b] + [c], lo, c, d);
    var half := t + [a] + [b] + [c] + [d];
    NextPrime(half, lo, d, e);
    NextPrime(half + [e], lo, e, f);
    NextPrime(half + [e] + [f], lo, f, g);
    NextPrime(half + [e] + [f] + [g], lo, g, h);
    r := half + [e] + [f] + [g] + [h];
    assert r == t + [a, b, c, d, e, f, g, h];
  }

  lemma GapsIncrease(z: int, a: int, b: int, c: int, d: int)
    requires Gap(z, a) && Gap(a, b) && Gap(b, c) && Gap(c, d)
    ensures z < a < b < c < d
  {
    hide Sieve;
  }

  lemma NoneYet(lo: int)
    ensures Lists([], lo, lo)
  {
  }

  // ----- the table, row by row -----

  lemma FirstRows()
    ensures Lists(FIRST_ROWS, 2, 179)
  {
    hide Lists;
    NoneYet(2);
    var t: seq<int> := [];
    t := NextRow(t, 2, 2, 3, 5, 7, 11, 13, 17, 19, 23);
    assert t == [3, 5, 7, 11, 13, 17, 19, 23];
    t := NextRow(t, 2, 23, 29, 31, 37, 41, 43, 47, 53, 59);
    t := NextRow(t, 2, 59, 61, 67, 71, 73, 79, 83, 89, 97);
    t := NextRow(t, 2, 97, 101, 103, 107, 109, 113, 127, 131, 137);
    t := NextRow(t, 2, 137, 139, 149, 151, 157, 163, 167, 173, 179);
  }

  lemma SecondRows()
    ensures Lists(SECOND_ROWS, 179, 419)
  {
    hide Lists;
    NoneYet(179);
    var t: seq<int> := [];
    t := NextRow(t, 179, 179, 181, 191, 193, 197, 199, 211, 223, 227);
    assert t == [181, 191, 193, 197, 199, 211, 223, 227];
    t := NextRow(t, 179, 227, 229, 233, 239, 241, 251, 257, 263, 269);
    t := NextRow(t, 179, 269, 271, 277, 281, 283, 293, 307, 311, 313);
    t := NextRow(t, 179, 313, 317, 331, 337, 347, 349, 353, 359, 367);
    t := NextRow(t, 179, 367, 373, 379, 383, 389, 397, 401, 409, 419);
  }

  lemma ThirdRows()
    ensures Lists(THIRD_ROWS, 419, 661)
  {
    hide Lists;
    NoneYet(419);
    var t: seq<int> := [];
    t := NextRow(t, 419, 419, 421, 431, 433, 439, 443, 449, 457, 461);
    assert t == [421, 431, 433, 439, 443, 449, 457, 461];
    t := NextRow(t, 419, 461, 463, 467, 479, 487, 491, 499, 503, 509);
    t := NextRow(t, 419, 509, 521, 523, 541, 547, 557, 563, 569, 571);
    t := NextRow(t, 419, 571, 577, 587, 593, 599, 601, 607, 613, 617);
    t := NextRow(t, 419, 617, 619, 631, 641, 643, 647, 653, 659, 661);
  }

  lemma FourthRows()
    ensures Lists(FOURTH_ROWS, 661, 947)
  {
    hide Lists;
    NoneYet(661);
    var t: seq<int> := [];
    t := NextRow(t, 661, 661, 673, 677, 683, 691, 701, 709, 719, 727);
    assert t == [673, 677, 683, 691, 701, 709, 719, 727];
    t := NextRow(t, 661, 727, 733, 739, 743, 751, 757, 761, 769, 773);
    t := NextRow(t, 661, 773, 787, 797, 809, 811, 821, 823, 827, 829);
    t := NextRow(t, 661, 829, 839, 853, 857, 859, 863, 877, 881, 883);
    t := NextRow(t, 661, 883, 887, 907, 911, 919, 929, 937, 941, 947);
  }

  lemma LastRow()
    ensures Lists(LAST_ROW, 947, 997)
  {
    hide Lists;
    NoneYet(947);
    var t: seq<int> := [];
    NextPrime(t, 947, 947, 953);
    NextPrime(t + [953], 947, 953, 967);
    NextPrime(t + [953] + [967], 947, 967, 971);
    NextPrime(t + [953] + [967] + [971], 947, 971, 977);
    NextPrime(t + [953] + [967] + [971] + [977], 947, 977, 983);
    NextPrime(t + [953] + [967] + [971] + [977] + [983], 947, 983, 991);
    NextPrime(t + [953] + [967] + [971] + [977] + [983] + [991], 947, 991, 997);
    assert t + [953] + [967] + [971] + [977] + [983] + [991] + [997] == LAST_ROW;
  }

  /** The table is the list of the odd primes up to 997. */
  lemma TableListsPrimes()
    ensures Lists(SMALL_PRIMES, 2, 997) && |SMALL_PRIMES| == 167 && SMALL_PRIMES[166] == 997
  {
    hide Lists, Prime;
    FirstRows();
    SecondRows();
    ThirdRows();
    FourthRows();
    LastRow();
    ListsJoin(FIRST_ROWS, SECOND_ROWS, 2, 179, 419);
    ListsJoin(FIRST_ROWS + SECOND_ROWS, THIRD_ROWS, 2, 419, 661);
    ListsJoin(FIRST_ROWS + SECOND_ROWS + THIRD_ROWS, FOURTH_ROWS, 2, 661, 947);
    ListsJoin(FIRST_ROWS + SECOND_ROWS + THIRD_ROWS + FOURTH_ROWS, LAST_ROW, 2, 947, 997);
  }
}
