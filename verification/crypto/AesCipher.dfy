/** The AES cipher and its equivalent inverse (FIPS-197 sections 5.1 to 5.3.5) on four 32-bit words, lowest byte first. */
module AesCipher {
  import opened Bits
  import opened GaloisField
  import opened AesSbox

  // ----- words -----

  function B0(w: bv32): bv8 { (w & 0xFF) as bv8 }
  function B1(w: bv32): bv8 { ((w >> 8) & 0xFF) as bv8 }
  function B2(w: bv32): bv8 { ((w >> 16) & 0xFF) as bv8 }
  function B3(w: bv32): bv8 { ((w >> 24) & 0xFF) as bv8 }

  /** Four bytes as a word, lowest first. */
  function Word(a: bv8, b: bv8, c: bv8, d: bv8): bv32 {
    (a as bv32) ^ ((b as bv32) << 8) ^ ((c as bv32) << 16) ^ ((d as bv32) << 24)
  }

  lemma WordBytes(a: bv8, b: bv8, c: bv8, d: bv8)
    ensures var w := Word(a, b, c, d); B0(w) == a && B1(w) == b && B2(w) == c && B3(w) == d
  {
  }

  lemma BytesWord(w: bv32)
    ensures Word(B0(w), B1(w), B2(w), B3(w)) == w
  {
  }

  lemma XorByte0(v: bv32, w: bv32)
    ensures B0(Xor32(v, w)) == Xor(B0(v), B0(w))
  {
  }

  lemma XorByte1(v: bv32, w: bv32)
    ensures B1(Xor32(v, w)) == Xor(B1(v), B1(w))
  {
  }

  lemma XorByte2(v: bv32, w: bv32)
    ensures B2(Xor32(v, w)) == Xor(B2(v), B2(w))
  {
  }

  lemma XorByte3(v: bv32, w: bv32)
    ensures B3(Xor32(v, w)) == Xor(B3(v), B3(w))
  {
  }

  lemma XorWords(a: bv8, b: bv8, c: bv8, d: bv8, e: bv8, f: bv8, g: bv8, h: bv8)
    ensures Xor32(Word(a, b, c, d), Word(e, f, g, h)) == Word(Xor(a, e), Xor(b, f), Xor(c, g), Xor(d, h))
  {
  }

  // ----- columns -----

  /** A row of the mixing matrix: 2, 3, 1, 1. */
  function Row(a: bv8, b: bv8, c: bv8, d: bv8): bv8 {
    Xor(Xor(XTime(a), Triple(b)), Xor(c, d))
  }

  /** A row of its inverse: 14, 11, 13, 9. */
  function InvRow(a: bv8, b: bv8, c: bv8, d: bv8): bv8 {
    Xor(Xor(Mul(0x0E, a), Mul(0x0B, b)), Xor(Mul(0x0D, c), Mul(0x09, d)))
  }

  function MixColumn(w: bv32): bv32 {
    var a, b, c, d := B0(w), B1(w), B2(w), B3(w);
    Word(Row(a, b, c, d), Row(b, c, d, a), Row(c, d, a, b), Row(d, a, b, c))
  }

  function InvMixColumn(w: bv32): bv32 {
    var a, b, c, d := B0(w), B1(w), B2(w), B3(w);
    Word(InvRow(a, b, c, d), InvRow(b, c, d, a), InvRow(c, d, a, b), InvRow(d, a, b, c))
  }

  /** Multiplication by 1, 2, 4 and 8. */
  lemma MulBinary(x: bv8)
    ensures Mul(1, x) == x && Mul(2, x) == XTime(x) && Mul(4, x) == XTime(XTime(x)) && Mul(8, x) == XTime(XTime(XTime(x)))
  {
    hide MulBits;
    assert XTime(1) == 2 && XTime(2) == 4 && XTime(4) == 8;
    hide XTime;
    OneMul(x);
    MulBitsXTime(1, x, 8);
    MulBitsXTime(2, x, 8);
    MulBitsXTime(4, x, 8);
  }

  lemma Mul9(x: bv8)
    ensures Mul(0x09, x) == Xor(x, XTime(XTime(XTime(x))))
  {
    assert 9 == Xor(1, 8);
    hide Xor, XTime, MulBits;
    MulBinary(x);
    MulBitsLeft(1, 8, x, 8);
  }

  lemma Mul11(x: bv8)
    ensures Mul(0x0B, x) == Xor(Xor(x, XTime(x)), XTime(XTime(XTime(x))))
  {
    assert 11 == Xor(Xor(1, 2), 8);
    hide Xor, XTime, MulBits;
    MulBinary(x);
    MulBitsLeft(Xor(1, 2), 8, x, 8);
    MulBitsLeft(1, 2, x, 8);
  }

  lemma Mul13(x: bv8)
    ensures Mul(0x0D, x) == Xor(Xor(x, XTime(XTime(x))), XTime(XTime(XTime(x))))
  {
    assert 13 == Xor(Xor(1, 4), 8);
    hide Xor, XTime, MulBits;
    MulBinary(x);
    MulBitsLeft(Xor(1, 4), 8, x, 8);
    MulBitsLeft(1, 4, x, 8);
  }

  lemma Mul14(x: bv8)
    ensures Mul(0x0E, x) == Xor(Xor(XTime(x), XTime(XTime(x))), XTime(XTime(XTime(x))))
  {
    assert 14 == Xor(Xor(2, 4), 8);
    hide Xor, XTime, MulBits;
    MulBinary(x);
    MulBitsLeft(Xor(2, 4), 8, x, 8);
    MulBitsLeft(2, 4, x, 8);
  }

  lemma FirstEntry(x: bv8, x1: bv8, x2: bv8, x3: bv8, x4: bv8)
    ensures Xor(Xor(Xor(Xor(x2, x3), x4), Xor(Xor(x, x1), x3)), Xor(Xor(Xor(x, x2), x3), Xor(Xor(x, x3), Xor(x1, x4)))) == x
  {
    hide Xor;
    var e, f := Xor(x2, x3), Xor(x, x1);
    XorRegroup(Xor(e, x4), Xor(f, x3), Xor(Xor(x, x2), x3), Xor(Xor(x, x3), Xor(x1, x4)));
    XorAssociates(x, x2, x3);
    XorCancel(e, x4, x);
    XorRegroup(x, x3, x1, x4);
    XorCancel(f, x3, Xor(x3, x4));
    XorBack(x4, x3);
    XorBack(x, x4);
  }

  lemma SecondEntry(x: bv8, x1: bv8, x2: bv8, x3: bv8, x4: bv8)
    ensures Xor(Xor(Xor(Xor(Xor(x1, x2), x3), Xor(Xor(x2, x3), x4)), Xor(Xor(x1, x2), x4)), Xor(Xor(Xor(x, x2), x3), Xor(x, x3))) == 0
  {
    hide Xor;
    var e := Xor(x2, x3);
    XorAssociates(x1, x2, x3);
    XorCancel(e, x1, x4);
    XorCancel(x4, x1, Xor(x1, x2));
    XorBack(x2, x1);
    XorAssociates(x, x2, x3);
    XorCancel(x, e, x3);
    XorBack(x2, x3);
    XorZero(x2);
  }

  lemma ThirdEntry(x: bv8, x1: bv8, x2: bv8, x3: bv8, x4: bv8)
    ensures Xor(Xor(Xor(Xor(x1, x2), x3), Xor(Xor(Xor(x, x1), x3), Xor(Xor(x1, x2), x4))), Xor(Xor(Xor(x1, x3), x4), Xor(x, x3))) == 0
  {
    hide Xor;
    var f, g := Xor(x, x1), Xor(x1, x2);
    XorCommutes(Xor(f, x3), Xor(g, x4));
    XorAssociates(Xor(g, x3), Xor(g, x4), Xor(f, x3));
    XorCancel(g, x3, x4);
    XorCancel(x3, x4, f);
    XorCommutes(Xor(x1, x3), x4);
    XorAssociates(x4, Xor(x1, x3), Xor(x, x3));
    XorCancel(x3, x1, x);
    XorCommutes(x, x1);
    XorZero(Xor(x4, f));
  }

  lemma FourthEntry(x: bv8, x1: bv8, x2: bv8, x3: bv8, x4: bv8)
    ensures Xor(Xor(Xor(Xor(x1, x2), x3), Xor(Xor(x, x1), x3)), Xor(Xor(Xor(Xor(x, x2), x3), Xor(Xor(x1, x3), x4)), Xor(x1, x4))) == 0
  {
    hide Xor;
    XorCancel(x3, Xor(x1, x2), Xor(x, x1));
    XorCancel(x1, x2, x);
    XorAssociates(Xor(Xor(x, x2), x3), Xor(Xor(x1, x3), x4), Xor(x1, x4));
    XorCancel(x4, Xor(x1, x3), x1);
    XorBack(x3, x1);
    XorBack(Xor(x, x2), x3);
    XorCommutes(x, x2);
    XorZero(Xor(x, x2));
  }

  /** The first row of the product of the two matrices is 1, 0, 0, 0. */
  lemma MatrixEntries(x: bv8)
    ensures Xor(Xor(Mul(0x0E, XTime(x)), Mul(0x0B, x)), Xor(Mul(0x0D, x), Mul(0x09, Triple(x)))) == x
    ensures Xor(Xor(Mul(0x0E, Triple(x)), Mul(0x0B, XTime(x))), Xor(Mul(0x0D, x), Mul(0x09, x))) == 0
    ensures Xor(Xor(Mul(0x0E, x), Mul(0x0B, Triple(x))), Xor(Mul(0x0D, XTime(x)), Mul(0x09, x))) == 0
    ensures Xor(Xor(Mul(0x0E, x), Mul(0x0B, x)), Xor(Mul(0x0D, Triple(x)), Mul(0x09, XTime(x)))) == 0
  {
    hide Xor, XTime, MulBits;
    var x1 := XTime(x);
    var x2 := XTime(x1);
    var x3 := XTime(x2);
    var x4 := XTime(x3);
    Mul9(x);
    Mul9(x1);
    Mul11(x);
    Mul11(x1);
    Mul13(x);
    Mul13(x1);
    Mul14(x);
    Mul14(x1);
    MulBitsXor(0x09, x, x1, 8);
    MulBitsXor(0x0B, x, x1, 8);
    MulBitsXor(0x0D, x, x1, 8);
    MulBitsXor(0x0E, x, x1, 8);
    hide Mul;
    FirstEntry(x, x1, x2, x3, x4);
    SecondEntry(x, x1, x2, x3, x4);
    ThirdEntry(x, x1, x2, x3, x4);
    FourthEntry(x, x1, x2, x3, x4);
  }

  lemma MulRow(m: bv8, a: bv8, b: bv8, c: bv8, d: bv8)
    ensures Mul(m, Row(a, b, c, d)) == Xor(Xor(Mul(m, XTime(a)), Mul(m, Triple(b))), Xor(Mul(m, c), Mul(m, d)))
  {
    hide Xor, XTime, Triple, MulBits;
    MulBitsXor(m, Xor(XTime(a), Triple(b)), Xor(c, d), 8);
    MulBitsXor(m, XTime(a), Triple(b), 8);
    MulBitsXor(m, c, d, 8);
  }

  /** Sixteen summands, by rows and by columns. */
  lemma Transposed(a0: bv8, a1: bv8, a2: bv8, a3: bv8, b0: bv8, b1: bv8, b2: bv8, b3: bv8,
                   c0: bv8, c1: bv8, c2: bv8, c3: bv8, d0: bv8, d1: bv8, d2: bv8, d3: bv8)
    ensures Xor(Xor(Xor(Xor(a0, a1), Xor(a2, a3)), Xor(Xor(b1, b2), Xor(b3, b0))),
                Xor(Xor(Xor(c2, c3), Xor(c0, c1)), Xor(Xor(d3, d0), Xor(d1, d2))))
         == Xor(Xor(Xor(Xor(a0, b0), Xor(c0, d0)), Xor(Xor(a1, b1), Xor(c1, d1))),
                Xor(Xor(Xor(a2, b2), Xor(c2, d2)), Xor(Xor(a3, b3), Xor(c3, d3))))
  {
    hide Xor;
    Rotate(b1, b2, b3, b0);
    Rotate(d0, d1, d2, d3);
    Rotate(d3, d0, d1, d2);
    Rotate(c2, c3, c0, c1);
    Rotate(c1, c2, c3, c0);
    Rotate(c0, c1, c2, c3);
    Rotate(b0, b1, b2, b3);
    Rotate(b2, b3, b0, b1);
    Rotate(b3, b0, b1, b2);
    Rotate(d1, d2, d3, d0);
    Rotate(d2, d3, d0, d1);
    AddRows(a0, a1, a2, a3, b0, b1, b2, b3);
    AddRows(c0, c1, c2, c3, d0, d1, d2, d3);
    XorRegroup(Xor(Xor(a0, b0), Xor(a1, b1)), Xor(Xor(a2, b2), Xor(a3, b3)),
               Xor(Xor(c0, d0), Xor(c1, d1)), Xor(Xor(c2, d2), Xor(c3, d3)));
    XorRegroup(Xor(a0, b0), Xor(a1, b1), Xor(c0, d0), Xor(c1, d1));
    XorRegroup(Xor(a2, b2), Xor(a3, b3), Xor(c2, d2), Xor(c3, d3));
  }

  lemma Rotate(a: bv8, b: bv8, c: bv8, d: bv8)
    ensures Xor(Xor(a, b), Xor(c, d)) == Xor(Xor(b, c), Xor(d, a))
  {
    hide Xor;
    XorCommutes(a, b);
    XorRegroup(b, a, c, d);
    XorCommutes(a, d);
  }

  lemma AddRows(a0: bv8, a1: bv8, a2: bv8, a3: bv8, b0: bv8, b1: bv8, b2: bv8, b3: bv8)
    ensures Xor(Xor(Xor(a0, a1), Xor(a2, a3)), Xor(Xor(b0, b1), Xor(b2, b3)))
         == Xor(Xor(Xor(a0, b0), Xor(a1, b1)), Xor(Xor(a2, b2), Xor(a3, b3)))
  {
    hide Xor;
    XorRegroup(Xor(a0, a1), Xor(a2, a3), Xor(b0, b1), Xor(b2, b3));
    XorRegroup(a0, a1, b0, b1);
    XorRegroup(a2, a3, b2, b3);
  }

  lemma InvRowRow(a: bv8, b: bv8, c: bv8, d: bv8)
    ensures InvRow(Row(a, b, c, d), Row(b, c, d, a), Row(c, d, a, b), Row(d, a, b, c)) == a
  {
    hide Xor, XTime, Triple, Mul, Row;
    MulRow(0x0E, a, b, c, d);
    MulRow(0x0B, b, c, d, a);
    MulRow(0x0D, c, d, a, b);
    MulRow(0x09, d, a, b, c);
    Transposed(Mul(0x0E, XTime(a)), Mul(0x0E, Triple(b)), Mul(0x0E, c), Mul(0x0E, d),
               Mul(0x0B, a), Mul(0x0B, XTime(b)), Mul(0x0B, Triple(c)), Mul(0x0B, d),
               Mul(0x0D, a), Mul(0x0D, b), Mul(0x0D, XTime(c)), Mul(0x0D, Triple(d)),
               Mul(0x09, Triple(a)), Mul(0x09, b), Mul(0x09, c), Mul(0x09, XTime(d)));
    MatrixEntries(a);
    MatrixEntries(b);
    MatrixEntries(c);
    MatrixEntries(d);
    XorZero(a);
    XorZero(0);
  }

  /** The inverse mixing undoes the mixing. */
  lemma InvMixMix(w: bv32)
    ensures InvMixColumn(MixColumn(w)) == w
  {
    hide B0, B1, B2, B3, Word, Row, InvRow;
    var a, b, c, d := B0(w), B1(w), B2(w), B3(w);
    WordBytes(Row(a, b, c, d), Row(b, c, d, a), Row(c, d, a, b), Row(d, a, b, c));
    InvRowRow(a, b, c, d);
    InvRowRow(b, c, d, a);
    InvRowRow(c, d, a, b);
    InvRowRow(d, a, b, c);
    BytesWord(w);
  }

  lemma InvRowXor(a: bv8, b: bv8, c: bv8, d: bv8, e: bv8, f: bv8, g: bv8, h: bv8)
    ensures InvRow(Xor(a, e), Xor(b, f), Xor(c, g), Xor(d, h)) == Xor(InvRow(a, b, c, d), InvRow(e, f, g, h))
  {
    hide Xor, MulBits;
    MulBitsXor(0x0E, a, e, 8);
    MulBitsXor(0x0B, b, f, 8);
    MulBitsXor(0x0D, c, g, 8);
    MulBitsXor(0x09, d, h, 8);
    hide Mul;
    XorRegroup(Mul(0x0E, a), Mul(0x0E, e), Mul(0x0B, b), Mul(0x0B, f));
    XorRegroup(Mul(0x0D, c), Mul(0x0D, g), Mul(0x09, d), Mul(0x09, h));
    XorRegroup(Xor(Mul(0x0E, a), Mul(0x0B, b)), Xor(Mul(0x0E, e), Mul(0x0B, f)),
               Xor(Mul(0x0D, c), Mul(0x09, d)), Xor(Mul(0x0D, g), Mul(0x09, h)));
  }

  /** The inverse mixing is linear. */
  lemma InvMixXor(v: bv32, w: bv32)
    ensures InvMixColumn(Xor32(v, w)) == Xor32(InvMixColumn(v), InvMixColumn(w))
  {
    hide Xor, Xor32, B0, B1, B2, B3, Word, InvRow;
    var a, b, c, d, e, f, g, h := B0(v), B1(v), B2(v), B3(v), B0(w), B1(w), B2(w), B3(w);
    XorByte0(v, w);
    XorByte1(v, w);
    XorByte2(v, w);
    XorByte3(v, w);
    InvRowXor(a, b, c, d, e, f, g, h);
    InvRowXor(b, c, d, a, f, g, h, e);
    InvRowXor(c, d, a, b, g, h, e, f);
    InvRowXor(d, a, b, c, h, e, f, g);
    XorWords(InvRow(a, b, c, d), InvRow(b, c, d, a), InvRow(c, d, a, b), InvRow(d, a, b, c),
             InvRow(e, f, g, h), InvRow(f, g, h, e), InvRow(g, h, e, f), InvRow(h, e, f, g));
  }

  // ----- the state and its transformations -----

  datatype State = State(w0: bv32, w1: bv32, w2: bv32, w3: bv32)

  function AddRoundKey(s: State, k: State): State {
    State(Xor32(s.w0, k.w0), Xor32(s.w1, k.w1), Xor32(s.w2, k.w2), Xor32(s.w3, k.w3))
  }

  ghost function SubWord(w: bv32): bv32 {
    Word(SBox(B0(w)), SBox(B1(w)), SBox(B2(w)), SBox(B3(w)))
  }

  ghost function InvSubWord(w: bv32): bv32 {
    Word(InvSBox(B0(w)), InvSBox(B1(w)), InvSBox(B2(w)), InvSBox(B3(w)))
  }

  ghost function SubBytes(s: State): State {
    State(SubWord(s.w0), SubWord(s.w1), SubWord(s.w2), SubWord(s.w3))
  }

  ghost function InvSubBytes(s: State): State {
    State(InvSubWord(s.w0), InvSubWord(s.w1), InvSubWord(s.w2), InvSubWord(s.w3))
  }

  function ShiftRows(s: State): State {
    State(Word(B0(s.w0), B1(s.w1), B2(s.w2), B3(s.w3)), Word(B0(s.w1), B1(s.w2), B2(s.w3), B3(s.w0)),
          Word(B0(s.w2), B1(s.w3), B2(s.w0), B3(s.w1)), Word(B0(s.w3), B1(s.w0), B2(s.w1), B3(s.w2)))
  }

  function InvShiftRows(s: State): State {
    State(Word(B0(s.w0), B1(s.w3), B2(s.w2), B3(s.w1)), Word(B0(s.w1), B1(s.w0), B2(s.w3), B3(s.w2)),
          Word(B0(s.w2), B1(s.w1), B2(s.w0), B3(s.w3)), Word(B0(s.w3), B1(s.w2), B2(s.w1), B3(s.w0)))
  }

  function MixColumns(s: State): State {
    State(MixColumn(s.w0), MixColumn(s.w1), MixColumn(s.w2), MixColumn(s.w3))
  }

  function InvMixColumns(s: State): State {
    State(InvMixColumn(s.w0), InvMixColumn(s.w1), InvMixColumn(s.w2), InvMixColumn(s.w3))
  }

  lemma AddTwice(s: State, k: State)
    ensures AddRoundKey(AddRoundKey(s, k), k) == s
  {
    hide Xor32;
    Xor32Back(s.w0, k.w0);
    Xor32Back(s.w1, k.w1);
    Xor32Back(s.w2, k.w2);
    Xor32Back(s.w3, k.w3);
  }

  lemma SubWordBack(w: bv32)
    ensures InvSubWord(SubWord(w)) == w
  {
    hide Word, B0, B1, B2, B3, SBox, InvSBox;
    WordBytes(SBox(B0(w)), SBox(B1(w)), SBox(B2(w)), SBox(B3(w)));
    InvSBoxUndoes(B0(w));
    InvSBoxUndoes(B1(w));
    InvSBoxUndoes(B2(w));
    InvSBoxUndoes(B3(w));
    BytesWord(w);
  }

  lemma ShiftRowsBack(s: State)
    ensures InvShiftRows(ShiftRows(s)) == s
  {
    hide Word, B0, B1, B2, B3;
    WordBytes(B0(s.w0), B1(s.w1), B2(s.w2), B3(s.w3));
    WordBytes(B0(s.w1), B1(s.w2), B2(s.w3), B3(s.w0));
    WordBytes(B0(s.w2), B1(s.w3), B2(s.w0), B3(s.w1));
    WordBytes(B0(s.w3), B1(s.w0), B2(s.w1), B3(s.w2));
    BytesWord(s.w0);
    BytesWord(s.w1);
    BytesWord(s.w2);
    BytesWord(s.w3);
  }

  /** Substitution and row shifts commute, so the inverse ones undo them in either order. */
  lemma SubShiftBack(s: State)
    ensures InvShiftRows(InvSubBytes(ShiftRows(SubBytes(s)))) == s
    ensures InvSubBytes(InvShiftRows(ShiftRows(SubBytes(s)))) == s
  {
    ShiftRowsBack(SubBytes(s));
    InvSubShiftCommute(ShiftRows(SubBytes(s)));
    hide SubWord, InvSubWord, ShiftRows, InvShiftRows;
    SubWordBack(s.w0);
    SubWordBack(s.w1);
    SubWordBack(s.w2);
    SubWordBack(s.w3);
  }

  lemma InvSubShiftCommute(s: State)
    ensures InvShiftRows(InvSubBytes(s)) == InvSubBytes(InvShiftRows(s))
  {
    hide Word, B0, B1, B2, B3, InvSBox;
    InvSubBytesOf(s.w0);
    InvSubBytesOf(s.w1);
    InvSubBytesOf(s.w2);
    InvSubBytesOf(s.w3);
    WordBytes(B0(s.w0), B1(s.w3), B2(s.w2), B3(s.w1));
    WordBytes(B0(s.w1), B1(s.w0), B2(s.w3), B3(s.w2));
    WordBytes(B0(s.w2), B1(s.w1), B2(s.w0), B3(s.w3));
    WordBytes(B0(s.w3), B1(s.w2), B2(s.w1), B3(s.w0));
  }

  lemma InvSubBytesOf(w: bv32)
    ensures var v := InvSubWord(w);
            B0(v) == InvSBox(B0(w)) && B1(v) == InvSBox(B1(w)) && B2(v) == InvSBox(B2(w)) && B3(v) == InvSBox(B3(w))
  {
    hide Word, B0, B1, B2, B3, InvSBox;
    WordBytes(InvSBox(B0(w)), InvSBox(B1(w)), InvSBox(B2(w)), InvSBox(B3(w)));
  }

  lemma MixColumnsBack(s: State, k: State)
    ensures InvMixColumns(AddRoundKey(MixColumns(s), k)) == AddRoundKey(s, InvMixColumns(k))
  {
    MixBack(s.w0, k.w0);
    MixBack(s.w1, k.w1);
    MixBack(s.w2, k.w2);
    MixBack(s.w3, k.w3);
  }

  lemma MixBack(w: bv32, k: bv32)
    ensures InvMixColumn(Xor32(MixColumn(w), k)) == Xor32(w, InvMixColumn(k))
  {
    hide MixColumn, InvMixColumn, Xor32;
    InvMixXor(MixColumn(w), k);
    InvMixMix(w);
  }

  // ----- the ciphers -----

  /** The state after the first r rounds, with their round keys. */
  ghost function Rounds(keys: seq<State>, s: State, r: nat): State
    requires r < |keys|
  {
    if r == 0 then AddRoundKey(s, keys[0])
    else AddRoundKey(MixColumns(ShiftRows(SubBytes(Rounds(keys, s, r - 1)))), keys[r])
  }

  /** The cipher: the last round does not mix. */
  ghost function Cipher(keys: seq<State>, s: State): State
    requires |keys| >= 2
  {
    var n := |keys| - 1;
    AddRoundKey(ShiftRows(SubBytes(Rounds(keys, s, n - 1))), keys[n])
  }

  ghost function InvRounds(keys: seq<State>, s: State, r: nat): State
    requires r < |keys|
  {
    if r == 0 then AddRoundKey(s, keys[0])
    else AddRoundKey(InvMixColumns(InvShiftRows(InvSubBytes(InvRounds(keys, s, r - 1)))), keys[r])
  }

  /** The equivalent inverse cipher: the same steps in the same order, inverted. */
  ghost function EqInvCipher(keys: seq<State>, s: State): State
    requires |keys| >= 2
  {
    var n := |keys| - 1;
    AddRoundKey(InvShiftRows(InvSubBytes(InvRounds(keys, s, n - 1))), keys[n])
  }

  /** Its keys: those of the cipher backwards, all but the first and last through the inverse mixing. */
  ghost predicate InverseKeys(keys: seq<State>, inv: seq<State>) {
    |keys| == |inv| >= 2 && inv[0] == keys[|keys| - 1] && inv[|keys| - 1] == keys[0]
    && forall i :: 0 < i < |keys| - 1 ==> inv[i] == InvMixColumns(keys[|keys| - 1 - i])
  }

  /** Each round of the inverse cipher undoes one of the cipher. */
  lemma {:induction false} RoundsBack(keys: seq<State>, inv: seq<State>, s: State, r: nat)
    requires InverseKeys(keys, inv) && r < |keys| - 1
    ensures InvRounds(inv, Cipher(keys, s), r) == ShiftRows(SubBytes(Rounds(keys, s, |keys| - 2 - r)))
  {
    hide AddRoundKey, ShiftRows, SubBytes, MixColumns, InvShiftRows, InvSubBytes, InvMixColumns;
    var n := |keys| - 1;
    if r == 0 {
      AddTwice(ShiftRows(SubBytes(Rounds(keys, s, n - 1))), keys[n]);
    } else {
      RoundsBack(keys, inv, s, r - 1);
      var t := ShiftRows(SubBytes(Rounds(keys, s, n - 1 - r)));
      SubShiftBack(Rounds(keys, s, n - r));
      MixColumnsBack(t, keys[n - r]);
      AddTwice(t, InvMixColumns(keys[n - r]));
    }
  }

  /** Decryption with the inverted key schedule undoes encryption, for any number of rounds and any round keys. */
  lemma DecryptEncrypt(keys: seq<State>, inv: seq<State>, s: State)
    requires InverseKeys(keys, inv)
    ensures EqInvCipher(inv, Cipher(keys, s)) == s
  {
    hide AddRoundKey, ShiftRows, SubBytes, MixColumns, InvShiftRows, InvSubBytes, InvMixColumns;
    RoundsBack(keys, inv, s, |keys| - 2);
    SubShiftBack(Rounds(keys, s, 0));
    AddTwice(s, keys[0]);
  }
}
