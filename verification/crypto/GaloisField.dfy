/** GF(2^8) with the AES polynomial: multiplication by x and by 3, and general products. */
module GaloisField {
  import opened Bits

  // ----- bits -----

  function Double(x: bv8): bv8 {
    x << 1
  }

  function Half(x: bv8): bv8 {
    x >> 1
  }

  lemma ShiftXor(a: bv8, b: bv8)
    ensures Double(Xor(a, b)) == Xor(Double(a), Double(b))
    ensures Half(Xor(a, b)) == Xor(Half(a), Half(b))
  {
  }

  // ----- multiplication by x and by 3 -----

  /** What reducing a doubled x takes away. */
  function Reduced(x: bv8): bv8 {
    if x & 0x80 != 0 then 0x1B else 0
  }

  /** XTIME: multiplication by x. */
  function XTime(x: bv8): bv8 {
    Xor(Double(x), Reduced(x))
  }

  /** Multiplication by 3, the generator of the nonzero elements. */
  function Triple(x: bv8): bv8 {
    Xor(x, XTime(x))
  }

  lemma ReducedXor(a: bv8, b: bv8)
    ensures Reduced(Xor(a, b)) == Xor(Reduced(a), Reduced(b))
  {
  }

  lemma XTimeXor(a: bv8, b: bv8)
    ensures XTime(Xor(a, b)) == Xor(XTime(a), XTime(b))
  {
    hide Xor, Double, Reduced;
    ShiftXor(a, b);
    ReducedXor(a, b);
    XorRegroup(Double(a), Double(b), Reduced(a), Reduced(b));
  }

  lemma TripleInjective(x: bv8, y: bv8)
    requires Triple(x) == Triple(y)
    ensures x == y
  {
  }

  lemma TripleNonzero(x: bv8)
    ensures Triple(x) == 0 <==> x == 0
  {
  }

  // ----- products -----

  /** a, if the lowest bit of b is set. */
  function Term(a: bv8, b: bv8): bv8 {
    if b & 1 != 0 then a else 0
  }

  /** The product of a and the low n bits of b. */
  function MulBits(a: bv8, b: bv8, n: nat): bv8
    decreases n
  {
    if n == 0 then 0 else Xor(Term(a, b), MulBits(XTime(a), Half(b), n - 1))
  }

  /** Multiplication modulo x^8 + x^4 + x^3 + x + 1. */
  function Mul(a: bv8, b: bv8): bv8 {
    MulBits(a, b, 8)
  }

  lemma TermXor(a: bv8, b: bv8, c: bv8)
    ensures Term(a, Xor(b, c)) == Xor(Term(a, b), Term(a, c))
  {
  }

  lemma TermXTime(a: bv8, b: bv8)
    ensures XTime(Term(a, b)) == Term(XTime(a), b) && XTime(0) == 0
  {
  }

  lemma {:induction false} MulBitsXor(a: bv8, b: bv8, c: bv8, n: nat)
    ensures MulBits(a, Xor(b, c), n) == Xor(MulBits(a, b, n), MulBits(a, c, n))
    decreases n
  {
    hide Xor, Half, Term, XTime;
    if n == 0 {
      XorZero(0);
    } else {
      var x := XTime(a);
      ShiftXor(b, c);
      TermXor(a, b, c);
      MulBitsXor(x, Half(b), Half(c), n - 1);
      XorRegroup(Term(a, b), Term(a, c), MulBits(x, Half(b), n - 1), MulBits(x, Half(c), n - 1));
    }
  }

  lemma TermLeft(a: bv8, c: bv8, b: bv8)
    ensures Term(Xor(a, c), b) == Xor(Term(a, b), Term(c, b))
  {
  }

  lemma {:induction false} MulBitsLeft(a: bv8, c: bv8, b: bv8, n: nat)
    ensures MulBits(Xor(a, c), b, n) == Xor(MulBits(a, b, n), MulBits(c, b, n))
    decreases n
  {
    hide Xor, Half, Term, XTime;
    if n == 0 {
      XorZero(0);
    } else {
      TermLeft(a, c, b);
      XTimeXor(a, c);
      MulBitsLeft(XTime(a), XTime(c), Half(b), n - 1);
      XorRegroup(Term(a, b), Term(c, b), MulBits(XTime(a), Half(b), n - 1), MulBits(XTime(c), Half(b), n - 1));
    }
  }

  lemma {:induction false} MulBitsXTime(a: bv8, b: bv8, n: nat)
    ensures MulBits(XTime(a), b, n) == XTime(MulBits(a, b, n))
    decreases n
  {
    hide Xor, Half, Term, XTime;
    TermXTime(a, b);
    if n > 0 {
      MulBitsXTime(XTime(a), Half(b), n - 1);
      XTimeXor(Term(a, b), MulBits(XTime(a), Half(b), n - 1));
    }
  }

  // ----- multiplying the second factor -----

  /** b has no bit at n or above. */
  predicate Below(b: bv8, n: nat)
    decreases n
  {
    if n == 0 then b == 0 else Below(Half(b), n - 1)
  }

  /** A byte is its lowest bit and its doubled half. */
  lemma HalfAndBit(x: bv8)
    ensures Xor(Term(1, x), XTime(Half(x))) == x
  {
  }

  lemma {:induction false} OneMulBits(x: bv8, n: nat)
    requires Below(x, n)
    ensures MulBits(1, x, n) == x
    decreases n
  {
    hide Xor, Half, Term, XTime;
    if n > 0 {
      OneMulBits(Half(x), n - 1);
      MulBitsXTime(1, Half(x), n - 1);
      HalfAndBit(x);
    }
  }

  lemma BelowEight(x: bv8)
    ensures Below(x, 8)
  {
  }

  lemma OneMul(x: bv8)
    ensures Mul(1, x) == x
  {
    BelowEight(x);
    OneMulBits(x, 8);
  }

  /** b is the bit n. */
  predicate OneBit(b: bv8, n: nat)
    decreases n
  {
    if n == 0 then b == 1 else b & 1 == 0 && OneBit(Half(b), n - 1)
  }

  /** a * x^n. */
  function Times(a: bv8, n: nat): bv8
    decreases n
  {
    if n == 0 then a else Times(XTime(a), n - 1)
  }

  lemma TermCases(a: bv8, b: bv8)
    ensures Term(a, b) == if b & 1 == 0 then 0 else a
  {
  }

  lemma {:induction false} BitsAbove(a: bv8, b: bv8, n: nat)
    requires Below(b, n)
    ensures MulBits(a, b, n + 1) == MulBits(a, b, n)
    decreases n
  {
    if n == 0 {
      assert Term(a, 0) == 0;
      XorZero(0);
    } else {
      hide Xor, Half, Term, XTime;
      BitsAbove(XTime(a), Half(b), n - 1);
    }
  }

  lemma LowPart(b: bv8)
    ensures Below(b & 0x7F, 7)
    ensures b == Xor(b & 0x7F, b & 0x80) && (b & 0x80 == 0 || b & 0x80 == 0x80)
    ensures Double(b & 0x7F) & 1 == 0 && Half(Double(b & 0x7F)) == b & 0x7F && Double(b) == Double(b & 0x7F)
    ensures Reduced(b) == if b & 0x80 == 0 then 0 else 0x1B
  {
  }

  lemma {:induction false} MulBitsZero(a: bv8, n: nat)
    ensures MulBits(a, 0, n) == 0
    decreases n
  {
    if n > 0 {
      assert Half(0) == 0 && Term(a, 0) == 0;
      MulBitsZero(XTime(a), n - 1);
      XorZero(0);
    }
  }

  lemma TopBit()
    ensures OneBit(0x80, 7) && OneBit(1, 0) && OneBit(2, 1) && OneBit(8, 3) && OneBit(16, 4)
    ensures 0x1B == Xor(Xor(1, 2), Xor(8, 16)) && XTime(0) == 0
  {
  }

  lemma {:induction false} MulOneBit(a: bv8, b: bv8, n: nat, m: nat)
    requires OneBit(b, n) && n < m
    ensures MulBits(a, b, m) == Times(a, n)
    decreases n
  {
    TermCases(a, b);
    if n == 0 {
      assert Half(1) == 0;
      MulBitsZero(XTime(a), m - 1);
      XorZero(a);
    } else {
      hide Xor, Half, Term, XTime;
      MulOneBit(XTime(a), Half(b), n - 1, m - 1);
      XorZero(Times(XTime(a), n - 1));
    }
  }

  lemma {:induction false} TimesNext(a: bv8, n: nat)
    ensures Times(a, n + 1) == XTime(Times(a, n))
    decreases n
  {
    hide XTime;
    if n > 0 {
      TimesNext(XTime(a), n - 1);
    }
  }

  /** x^8 = x^4 + x^3 + x + 1. */
  lemma Polynomial(a: bv8)
    ensures Times(a, 8) == Xor(Xor(a, Times(a, 1)), Xor(Times(a, 3), Times(a, 4)))
  {
    var a1 := XTime(a);
    var a2 := XTime(a1);
    var a3 := XTime(a2);
    var a4 := XTime(a3);
    var a5 := XTime(a4);
    var a6 := XTime(a5);
    var a7 := XTime(a6);
    assert XTime(a7) == Xor(Xor(a, a1), Xor(a3, a4));
    hide XTime, Xor;
    TimesUnrolled(a, a1, a2, a3, a4, a5, a6, a7);
  }

  lemma TimesUnrolled(a: bv8, a1: bv8, a2: bv8, a3: bv8, a4: bv8, a5: bv8, a6: bv8, a7: bv8)
    requires a1 == XTime(a) && a2 == XTime(a1) && a3 == XTime(a2) && a4 == XTime(a3)
    requires a5 == XTime(a4) && a6 == XTime(a5) && a7 == XTime(a6)
    ensures Times(a, 1) == a1 && Times(a, 3) == a3 && Times(a, 4) == a4 && Times(a, 8) == XTime(a7)
  {
    hide XTime;
    assert Times(a, 0) == a;
    TimesNext(a, 0);
    TimesNext(a, 1);
    TimesNext(a, 2);
    TimesNext(a, 3);
    TimesNext(a, 4);
    TimesNext(a, 5);
    TimesNext(a, 6);
    TimesNext(a, 7);
  }

  lemma MulReduced(a: bv8, b: bv8)
    ensures Mul(a, Reduced(b)) == XTime(Mul(a, b & 0x80))
  {
    hide Xor, XTime, Reduced, Half, Term;
    LowPart(b);
    TopBit();
    if b & 0x80 == 0 {
      MulBitsZero(a, 8);
    } else {
      MulBitsXor(a, Xor(1, 2), Xor(8, 16), 8);
      MulBitsXor(a, 1, 2, 8);
      MulBitsXor(a, 8, 16, 8);
      MulOneBit(a, 1, 0, 8);
      MulOneBit(a, 2, 1, 8);
      MulOneBit(a, 8, 3, 8);
      MulOneBit(a, 16, 4, 8);
      MulOneBit(a, 0x80, 7, 8);
      TimesNext(a, 7);
      Polynomial(a);
    }
  }

  lemma MulDoubledLow(a: bv8, b: bv8)
    ensures Mul(a, Double(b & 0x7F)) == XTime(Mul(a, b & 0x7F))
  {
    var lo := b & 0x7F;
    LowPart(b);
    TermCases(a, Double(lo));
    MulBitsXTime(a, lo, 7);
    BitsAbove(a, lo, 7);
    hide Xor, XTime, Half, Double, Term;
    XorZero(MulBits(XTime(a), lo, 7));
  }

  lemma MulXTime(a: bv8, b: bv8)
    ensures Mul(a, XTime(b)) == XTime(Mul(a, b))
  {
    var lo, hi := b & 0x7F, b & 0x80;
    LowPart(b);
    MulDoubledLow(a, b);
    MulReduced(a, b);
    hide Xor, Double, Reduced, MulBits;
    assert XTime(b) == Xor(Double(lo), Reduced(b));
    hide XTime;
    MulBitsXor(a, Double(lo), Reduced(b), 8);
    MulBitsXor(a, lo, hi, 8);
    XTimeXor(Mul(a, lo), Mul(a, hi));
  }

  /** Multiplying by 3 before or after is the same. */
  lemma MulTriple(a: bv8, b: bv8)
    ensures Mul(a, Triple(b)) == Triple(Mul(a, b))
  {
    hide Xor, XTime, MulBits;
    MulBitsXor(a, b, XTime(b), 8);
    MulXTime(a, b);
  }

  lemma MulOne(a: bv8)
    ensures Mul(a, 1) == a && Mul(a, 0) == 0
  {
    TopBit();
    MulOneBit(a, 1, 0, 8);
    MulBitsZero(a, 8);
  }

  // ----- powers of 3 -----

  /** x * 3^k. */
  function Scaled(x: bv8, k: nat): bv8 {
    if k == 0 then x else Triple(Scaled(x, k - 1))
  }

  function Power(k: nat): bv8 {
    Scaled(1, k)
  }

  lemma {:induction false} ScaledSum(x: bv8, j: nat, k: nat)
    ensures Scaled(Scaled(x, j), k) == Scaled(x, j + k)
    decreases k
  {
    hide Triple;
    if k > 0 {
      ScaledSum(x, j, k - 1);
    }
  }

  lemma {:induction false} ScaledInjective(x: bv8, y: bv8, k: nat)
    requires Scaled(x, k) == Scaled(y, k)
    ensures x == y
    decreases k
  {
    hide Triple;
    if k > 0 {
      TripleInjective(Scaled(x, k - 1), Scaled(y, k - 1));
      ScaledInjective(x, y, k - 1);
    }
  }

  lemma {:induction false} MulScaled(a: bv8, b: bv8, k: nat)
    ensures Mul(a, Scaled(b, k)) == Scaled(Mul(a, b), k)
    decreases k
  {
    hide Triple, Mul;
    if k > 0 {
      MulScaled(a, b, k - 1);
      MulTriple(a, Scaled(b, k - 1));
    }
  }

  lemma PowerSum(j: nat, k: nat)
    ensures Power(j + k) == Mul(Power(j), Power(k))
  {
    hide Triple, Mul;
    ScaledSum(1, j, k);
    MulScaled(Power(j), 1, k);
    MulOne(Power(j));
  }

  lemma SmallPowers()
    ensures Power(0) == 1 && Power(1) == 3 && Power(2) == 5 && Power(4) == 0x11
  {
  }

  lemma Products()
    ensures Mul(0x11, 0x11) == 0x1A && Mul(0x1A, 0x1A) == 0x5F && Mul(0x5F, 3) == 0xE1
    ensures Mul(0xE1, 0xE1) == 0x5C && Mul(0x5C, 0xE1) == 0x0C && Mul(0x0C, 0x5C) == 0xBD
    ensures Mul(0xBD, 0xBD) == 0xBC && Mul(0xBC, 0xBD) == 1
  {
  }
}
