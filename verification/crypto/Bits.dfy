/** Exclusive or of bytes and of words, and its algebra. */
module Bits {
  function Xor(a: bv8, b: bv8): bv8 {
    a ^ b
  }

  function Xor32(a: bv32, b: bv32): bv32 {
    a ^ b
  }

  // ----- bytes -----

  lemma XorCommutes(a: bv8, b: bv8)
    ensures Xor(a, b) == Xor(b, a)
  {
  }

  lemma XorAssociates(a: bv8, b: bv8, c: bv8)
    ensures Xor(Xor(a, b), c) == Xor(a, Xor(b, c))
  {
  }

  lemma XorZero(a: bv8)
    ensures Xor(a, 0) == a && Xor(0, a) == a && Xor(a, a) == 0
  {
  }

  lemma XorBack(a: bv8, b: bv8)
    ensures Xor(Xor(a, b), b) == a && Xor(b, Xor(b, a)) == a && Xor(Xor(b, a), b) == a
  {
    hide Xor;
    XorAssociates(a, b, b);
    XorAssociates(b, b, a);
    XorCommutes(a, b);
    XorZero(b);
    XorZero(a);
  }

  lemma XorRegroup(a: bv8, b: bv8, c: bv8, d: bv8)
    ensures Xor(Xor(a, b), Xor(c, d)) == Xor(Xor(a, c), Xor(b, d))
  {
    hide Xor;
    calc {
      Xor(Xor(a, b), Xor(c, d));
      { XorAssociates(a, b, Xor(c, d)); }
      Xor(a, Xor(b, Xor(c, d)));
      { XorAssociates(b, c, d); }
      Xor(a, Xor(Xor(b, c), d));
      { XorCommutes(b, c); }
      Xor(a, Xor(Xor(c, b), d));
      { XorAssociates(c, b, d); }
      Xor(a, Xor(c, Xor(b, d)));
      { XorAssociates(a, c, Xor(b, d)); }
      Xor(Xor(a, c), Xor(b, d));
    }
  }

  /** A summand on both sides disappears, wherever it stands. */
  lemma XorCancel(a: bv8, b: bv8, c: bv8)
    ensures Xor(Xor(a, b), Xor(a, c)) == Xor(b, c) && Xor(Xor(b, a), Xor(c, a)) == Xor(b, c)
    ensures Xor(Xor(a, b), Xor(c, a)) == Xor(b, c) && Xor(Xor(b, a), Xor(a, c)) == Xor(b, c)
  {
    hide Xor;
    XorRegroup(a, b, a, c);
    XorZero(a);
    XorZero(Xor(b, c));
    XorCommutes(a, b);
    XorCommutes(a, c);
  }

  // ----- strings of bytes -----

  lemma OneMore(text: seq<bv8>, i: nat)
    requires i < |text|
    ensures text[..i + 1] == text[..i] + [text[i]]
  {
  }

  // ----- words -----

  lemma Xor32Commutes(a: bv32, b: bv32)
    ensures Xor32(a, b) == Xor32(b, a)
  {
  }

  lemma Xor32Associates(a: bv32, b: bv32, c: bv32)
    ensures Xor32(Xor32(a, b), c) == Xor32(a, Xor32(b, c))
  {
  }

  lemma Xor32Zero(a: bv32)
    ensures Xor32(a, 0) == a && Xor32(0, a) == a && Xor32(a, a) == 0
  {
  }

  lemma Xor32Back(a: bv32, b: bv32)
    ensures Xor32(Xor32(a, b), b) == a && Xor32(b, Xor32(b, a)) == a
  {
    hide Xor32;
    Xor32Associates(a, b, b);
    Xor32Associates(b, b, a);
    Xor32Zero(b);
    Xor32Zero(a);
  }
}
