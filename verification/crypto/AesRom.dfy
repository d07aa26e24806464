/** The substitution box that aes.c keeps in ROM (Figure 7 of FIPS-197), and that it is the one the code generates. */
module AesRom {
  import opened Bits
  import opened GaloisField
  import opened AesSbox

  // ----- the powers of 3 and their inverses, one after the other -----

  predicate Inverses(x: bv8, y: bv8) {
    x != 0 && y != 0 && Mul(x, y) == 1
  }

  /** Two inverse elements and their entries. */
  ghost predicate Pair(x: bv8, y: bv8, sx: bv8, sy: bv8) {
    Inverses(x, y) && SBox(x) == sx && SBox(y) == sy
  }

  lemma InverseIs(x: bv8, y: bv8)
    requires x != 0 && y != 0 && Mul(x, y) == 1
    ensures Inverse(x) == y && Inverse(y) == x
  {
    hide Power, Mul;
    var k, l := Log(x), Log(y);
    LogMul(x, y, k, l);
    SmallPowers();
    var m := (k + l) % 255;
    if m != 0 {
      OrderOfThree(m);
    }
    PowersKnown();
    if k < 255 {
      assert l == 255 - k;
    }
  }

  lemma TripleMul(x: bv8, y: bv8)
    ensures Mul(Triple(x), y) == Triple(Mul(x, y))
  {
    hide Xor, XTime, MulBits;
    MulBitsLeft(x, XTime(x), y, 8);
    MulBitsXTime(x, y, 8);
  }

  /** The next power, and the one before its inverse. */
  lemma Next(x: bv8, y: bv8, sx: bv8, sy: bv8, x3: bv8, y3: bv8, sx3: bv8, sy3: bv8)
    requires Pair(x, y, sx, sy) && Triple(x) == x3 && Triple(y3) == y && x3 != 0 && y3 != 0
    requires Affine(x3) == sy3 && Affine(y3) == sx3
    ensures Pair(x3, y3, sx3, sy3)
  {
    hide Power, Mul, Triple, Affine, Inverse;
    MulTriple(x, y3);
    TripleMul(x, y3);
    InverseIs(x3, y3);
  }

  lemma First()
    ensures SBox(0) == 0x63 && Pair(1, 1, 0x7C, 0x7C)
  {
    hide Mul, Power;
    MulOne(1);
    InverseIs(1, 1);
  }

  lemma Powers0()
    ensures Pair(0x01, 0x01, 0x7C, 0x7C) && Pair(0x03, 0xF6, 0x7B, 0x42)
    ensures Pair(0x05, 0x52, 0x6B, 0x00) && Pair(0x0F, 0xC7, 0x76, 0xC6)
    ensures Pair(0x11, 0xB4, 0x82, 0x8D) && Pair(0x33, 0x6C, 0xC3, 0x50)
    ensures Pair(0x55, 0x24, 0xFC, 0x36) && Pair(0xFF, 0x1C, 0x16, 0x9C)
    ensures Pair(0x1A, 0xFD, 0xA2, 0x54) && Pair(0x2E, 0xA2, 0x31, 0x3A)
    ensures Pair(0x72, 0x97, 0x40, 0x88) && Pair(0x96, 0x84, 0x90, 0x5F)
    ensures Pair(0xA1, 0x7C, 0x32, 0x10) && Pair(0xF8, 0xDD, 0x41, 0xC1)
    ensures Pair(0x13, 0x4B, 0x7D, 0xB3) && Pair(0x35, 0x39, 0x96, 0x12)
    ensures Pair(0x5F, 0x17, 0xCF, 0xF0) && Pair(0xE1, 0x0D, 0xF8, 0xD7)
    ensures Pair(0x38, 0xF2, 0x07, 0x89) && Pair(0x48, 0xA7, 0x52, 0x5C)
    ensures Pair(0xD8, 0x94, 0x61, 0x22) && Pair(0x73, 0x85, 0x8F, 0x97)
    ensures Pair(0x95, 0x8A, 0x2A, 0x7E) && Pair(0xA4, 0x8F, 0x49, 0x73)
    ensures Pair(0xF7, 0x8C, 0x68, 0x64) && Pair(0x02, 0x8D, 0x77, 0x5D)
    ensures Pair(0x06, 0x7B, 0x6F, 0x21) && Pair(0x0A, 0x29, 0x67, 0xA5)
    ensures Pair(0x1E, 0xEE, 0x72, 0x28) && Pair(0x22, 0x5A, 0x93, 0xBE)
    ensures Pair(0x66, 0x36, 0x33, 0x05) && Pair(0xAA, 0x12, 0xAC, 0xC9)
  {
    hide Pair;
    First();
    Next(0x01, 0x01, 0x7C, 0x7C, 0x03, 0xF6, 0x7B, 0x42);
    Next(0x03, 0xF6, 0x7B, 0x42, 0x05, 0x52, 0x6B, 0x00);
    Next(0x05, 0x52, 0x6B, 0x00, 0x0F, 0xC7, 0x76, 0xC6);
    Next(0x0F, 0xC7, 0x76, 0xC6, 0x11, 0xB4, 0x82, 0x8D);
    Next(0x11, 0xB4, 0x82, 0x8D, 0x33, 0x6C, 0xC3, 0x50);
    Next(0x33, 0x6C, 0xC3, 0x50, 0x55, 0x24, 0xFC, 0x36);
    Next(0x55, 0x24, 0xFC, 0x36, 0xFF, 0x1C, 0x16, 0x9C);
    Next(0xFF, 0x1C, 0x16, 0x9C, 0x1A, 0xFD, 0xA2, 0x54);
    Next(0x1A, 0xFD, 0xA2, 0x54, 0x2E, 0xA2, 0x31, 0x3A);
    Next(0x2E, 0xA2, 0x31, 0x3A, 0x72, 0x97, 0x40, 0x88);
    Next(0x72, 0x97, 0x40, 0x88, 0x96, 0x84, 0x90, 0x5F);
    Next(0x96, 0x84, 0x90, 0x5F, 0xA1, 0x7C, 0x32, 0x10);
    Next(0xA1, 0x7C, 0x32, 0x10, 0xF8, 0xDD, 0x41, 0xC1);
    Next(0xF8, 0xDD, 0x41, 0xC1, 0x13, 0x4B, 0x7D, 0xB3);
    Next(0x13, 0x4B, 0x7D, 0xB3, 0x35, 0x39, 0x96, 0x12);
    Next(0x35, 0x39, 0x96, 0x12, 0x5F, 0x17, 0xCF, 0xF0);
    Next(0x5F, 0x17, 0xCF, 0xF0, 0xE1, 0x0D, 0xF8, 0xD7);
    Next(0xE1, 0x0D, 0xF8, 0xD7, 0x38, 0xF2, 0x07, 0x89);
    Next(0x38, 0xF2, 0x07, 0x89, 0x48, 0xA7, 0x52, 0x5C);
    Next(0x48, 0xA7, 0x52, 0x5C, 0xD8, 0x94, 0x61, 0x22);
    Next(0xD8, 0x94, 0x61, 0x22, 0x73, 0x85, 0x8F, 0x97);
    Next(0x73, 0x85, 0x8F, 0x97, 0x95, 0x8A, 0x2A, 0x7E);
    Next(0x95, 0x8A, 0x2A, 0x7E, 0xA4, 0x8F, 0x49, 0x73);
    Next(0xA4, 0x8F, 0x49, 0x73, 0xF7, 0x8C, 0x68, 0x64);
    Next(0xF7, 0x8C, 0x68, 0x64, 0x02, 0x8D, 0x77, 0x5D);
    Next(0x02, 0x8D, 0x77, 0x5D, 0x06, 0x7B, 0x6F, 0x21);
    Next(0x06, 0x7B, 0x6F, 0x21, 0x0A, 0x29, 0x67, 0xA5);
    Next(0x0A, 0x29, 0x67, 0xA5, 0x1E, 0xEE, 0x72, 0x28);
    Next(0x1E, 0xEE, 0x72, 0x28, 0x22, 0x5A, 0x93, 0xBE);
    Next(0x22, 0x5A, 0x93, 0xBE, 0x66, 0x36, 0x33, 0x05);
    Next(0x66, 0x36, 0x33, 0x05, 0xAA, 0x12, 0xAC, 0xC9);
  }

  lemma Powers32()
    requires Pair(0xAA, 0x12, 0xAC, 0xC9)
    ensures Pair(0xE5, 0x0E, 0xD9, 0xAB) && Pair(0x34, 0xF3, 0x18, 0x0D)
    ensures Pair(0x5C, 0x51, 0x4A, 0xD1) && Pair(0xE4, 0xC6, 0x69, 0xB4)
    ensures Pair(0x37, 0x42, 0x9A, 0x2C) && Pair(0x59, 0x3E, 0xCB, 0xB2)
    ensures Pair(0xEB, 0xE3, 0xE9, 0x11) && Pair(0x26, 0xA8, 0xF7, 0xC2)
    ensures Pair(0x6A, 0x91, 0x02, 0x81) && Pair(0xBE, 0x86, 0xAE, 0x44)
    ensures Pair(0xD9, 0x8B, 0x35, 0x3D) && Pair(0x70, 0x79, 0x51, 0xB6)
    ensures Pair(0x90, 0xDE, 0x60, 0x1D) && Pair(0xAB, 0x4A, 0x62, 0xD6)
    ensures Pair(0xE6, 0xCF, 0x8E, 0x8A) && Pair(0x31, 0x45, 0xC7, 0x6E)
    ensures Pair(0x53, 0xCA, 0xED, 0x74) && Pair(0xF5, 0x46, 0xE6, 0x5A)
    ensures Pair(0x04, 0xCB, 0xF2, 0x1F) && Pair(0x0C, 0xB0, 0xFE, 0xE7)
    ensures Pair(0x14, 0x99, 0xFA, 0xEE) && Pair(0x3C, 0x77, 0xEB, 0xF5)
    ensures Pair(0x44, 0x2D, 0x1B, 0xD8) && Pair(0xCC, 0x1B, 0x4B, 0xAF)
    ensures Pair(0x4F, 0x09, 0x84, 0x01) && Pair(0xD1, 0x07, 0x3E, 0xC5)
    ensures Pair(0x68, 0xF4, 0x45, 0xBF) && Pair(0xB8, 0xA5, 0x6C, 0x06)
    ensures Pair(0xD3, 0x63, 0x66, 0xFB) && Pair(0x6E, 0x21, 0x9F, 0xFD)
    ensures Pair(0xB2, 0x1F, 0x37, 0xC0) && Pair(0xCD, 0xFC, 0xBD, 0xB0)
  {
    hide Pair;
    Next(0xAA, 0x12, 0xAC, 0xC9, 0xE5, 0x0E, 0xD9, 0xAB);
    Next(0xE5, 0x0E, 0xD9, 0xAB, 0x34, 0xF3, 0x18, 0x0D);
    Next(0x34, 0xF3, 0x18, 0x0D, 0x5C, 0x51, 0x4A, 0xD1);
    Next(0x5C, 0x51, 0x4A, 0xD1, 0xE4, 0xC6, 0x69, 0xB4);
    Next(0xE4, 0xC6, 0x69, 0xB4, 0x37, 0x42, 0x9A, 0x2C);
    Next(0x37, 0x42, 0x9A, 0x2C, 0x59, 0x3E, 0xCB, 0xB2);
    Next(0x59, 0x3E, 0xCB, 0xB2, 0xEB, 0xE3, 0xE9, 0x11);
    Next(0xEB, 0xE3, 0xE9, 0x11, 0x26, 0xA8, 0xF7, 0xC2);
    Next(0x26, 0xA8, 0xF7, 0xC2, 0x6A, 0x91, 0x02, 0x81);
    Next(0x6A, 0x91, 0x02, 0x81, 0xBE, 0x86, 0xAE, 0x44);
    Next(0xBE, 0x86, 0xAE, 0x44, 0xD9, 0x8B, 0x35, 0x3D);
    Next(0xD9, 0x8B, 0x35, 0x3D, 0x70, 0x79, 0x51, 0xB6);
    Next(0x70, 0x79, 0x51, 0xB6, 0x90, 0xDE, 0x60, 0x1D);
    Next(0x90, 0xDE, 0x60, 0x1D, 0xAB, 0x4A, 0x62, 0xD6);
    Next(0xAB, 0x4A, 0x62, 0xD6, 0xE6, 0xCF, 0x8E, 0x8A);
    Next(0xE6, 0xCF, 0x8E, 0x8A, 0x31, 0x45, 0xC7, 0x6E);
    Next(0x31, 0x45, 0xC7, 0x6E, 0x53, 0xCA, 0xED, 0x74);
    Next(0x53, 0xCA, 0xED, 0x74, 0xF5, 0x46, 0xE6, 0x5A);
    Next(0xF5, 0x46, 0xE6, 0x5A, 0x04, 0xCB, 0xF2, 0x1F);
    Next(0x04, 0xCB, 0xF2, 0x1F, 0x0C, 0xB0, 0xFE, 0xE7);
    Next(0x0C, 0xB0, 0xFE, 0xE7, 0x14, 0x99, 0xFA, 0xEE);
    Next(0x14, 0x99, 0xFA, 0xEE, 0x3C, 0x77, 0xEB, 0xF5);
    Next(0x3C, 0x77, 0xEB, 0xF5, 0x44, 0x2D, 0x1B, 0xD8);
    Next(0x44, 0x2D, 0x1B, 0xD8, 0xCC, 0x1B, 0x4B, 0xAF);
    Next(0xCC, 0x1B, 0x4B, 0xAF, 0x4F, 0x09, 0x84, 0x01);
    Next(0x4F, 0x09, 0x84, 0x01, 0xD1, 0x07, 0x3E, 0xC5);
    Next(0xD1, 0x07, 0x3E, 0xC5, 0x68, 0xF4, 0x45, 0xBF);
    Next(0x68, 0xF4, 0x45, 0xBF, 0xB8, 0xA5, 0x6C, 0x06);
    Next(0xB8, 0xA5, 0x6C, 0x06, 0xD3, 0x63, 0x66, 0xFB);
    Next(0xD3, 0x63, 0x66, 0xFB, 0x6E, 0x21, 0x9F, 0xFD);
    Next(0x6E, 0x21, 0x9F, 0xFD, 0xB2, 0x1F, 0x37, 0xC0);
    Next(0xB2, 0x1F, 0x37, 0xC0, 0xCD, 0xFC, 0xBD, 0xB0);
  }

  lemma Powers64()
    requires Pair(0xCD, 0xFC, 0xBD, 0xB0)
    ensures Pair(0x4C, 0x54, 0x29, 0x20) && Pair(0xD4, 0xC5, 0x48, 0xA6)
    ensures Pair(0x67, 0x43, 0x85, 0x1A) && Pair(0xA9, 0xC8, 0xD3, 0xE8)
    ensures Pair(0xE0, 0xB1, 0xE1, 0xC8) && Pair(0x3B, 0x6F, 0xE2, 0xA8)
    ensures Pair(0x4D, 0x25, 0xE3, 0x3F) && Pair(0xD7, 0xEA, 0x0E, 0x87)
    ensures Pair(0x62, 0xAF, 0xAA, 0x79) && Pair(0xA6, 0x65, 0x24, 0x4D)
    ensures Pair(0xF1, 0x23, 0xA1, 0x26) && Pair(0x08, 0xE8, 0x30, 0x9B)
    ensures Pair(0x18, 0x58, 0xAD, 0x6A) && Pair(0x28, 0xC1, 0x34, 0x78)
    ensures Pair(0x78, 0xB6, 0xBC, 0x4E) && Pair(0x88, 0x9B, 0xC4, 0x14)
    ensures Pair(0x83, 0x80, 0xEC, 0xCD) && Pair(0x9E, 0x89, 0x0B, 0xA7)
    ensures Pair(0xB9, 0x8E, 0x56, 0x19) && Pair(0xD0, 0x7A, 0x70, 0xDA)
    ensures Pair(0x6B, 0xDF, 0x7F, 0x9E) && Pair(0xBD, 0xBC, 0x7A, 0x65)
    ensures Pair(0xDC, 0x9D, 0x86, 0x5E) && Pair(0x7F, 0x82, 0xD2, 0x13)
    ensures Pair(0x81, 0x7E, 0x0C, 0xF3) && Pair(0x98, 0x2A, 0x46, 0xE5)
    ensures Pair(0xB3, 0xEF, 0x6D, 0xDF) && Pair(0xCE, 0xAC, 0x8B, 0x91)
    ensures Pair(0x49, 0x64, 0x3B, 0x43) && Pair(0xDB, 0xD5, 0xB9, 0x03)
    ensures Pair(0x76, 0xBA, 0x38, 0xF4) && Pair(0x9A, 0x9F, 0xB8, 0xDB)
  {
    hide Pair;
    Next(0xCD, 0xFC, 0xBD, 0xB0, 0x4C, 0x54, 0x29, 0x20);
    Next(0x4C, 0x54, 0x29, 0x20, 0xD4, 0xC5, 0x48, 0xA6);
    Next(0xD4, 0xC5, 0x48, 0xA6, 0x67, 0x43, 0x85, 0x1A);
    Next(0x67, 0x43, 0x85, 0x1A, 0xA9, 0xC8, 0xD3, 0xE8);
    Next(0xA9, 0xC8, 0xD3, 0xE8, 0xE0, 0xB1, 0xE1, 0xC8);
    Next(0xE0, 0xB1, 0xE1, 0xC8, 0x3B, 0x6F, 0xE2, 0xA8);
    Next(0x3B, 0x6F, 0xE2, 0xA8, 0x4D, 0x25, 0xE3, 0x3F);
    Next(0x4D, 0x25, 0xE3, 0x3F, 0xD7, 0xEA, 0x0E, 0x87);
    Next(0xD7, 0xEA, 0x0E, 0x87, 0x62, 0xAF, 0xAA, 0x79);
    Next(0x62, 0xAF, 0xAA, 0x79, 0xA6, 0x65, 0x24, 0x4D);
    Next(0xA6, 0x65, 0x24, 0x4D, 0xF1, 0x23, 0xA1, 0x26);
    Next(0xF1, 0x23, 0xA1, 0x26, 0x08, 0xE8, 0x30, 0x9B);
    Next(0x08, 0xE8, 0x30, 0x9B, 0x18, 0x58, 0xAD, 0x6A);
    Next(0x18, 0x58, 0xAD, 0x6A, 0x28, 0xC1, 0x34, 0x78);
    Next(0x28, 0xC1, 0x34, 0x78, 0x78, 0xB6, 0xBC, 0x4E);
    Next(0x78, 0xB6, 0xBC, 0x4E, 0x88, 0x9B, 0xC4, 0x14);
    Next(0x88, 0x9B, 0xC4, 0x14, 0x83, 0x80, 0xEC, 0xCD);
    Next(0x83, 0x80, 0xEC, 0xCD, 0x9E, 0x89, 0x0B, 0xA7);
    Next(0x9E, 0x89, 0x0B, 0xA7, 0xB9, 0x8E, 0x56, 0x19);
    Next(0xB9, 0x8E, 0x56, 0x19, 0xD0, 0x7A, 0x70, 0xDA);
    Next(0xD0, 0x7A, 0x70, 0xDA, 0x6B, 0xDF, 0x7F, 0x9E);
    Next(0x6B, 0xDF, 0x7F, 0x9E, 0xBD, 0xBC, 0x7A, 0x65);
    Next(0xBD, 0xBC, 0x7A, 0x65, 0xDC, 0x9D, 0x86, 0x5E);
    Next(0xDC, 0x9D, 0x86, 0x5E, 0x7F, 0x82, 0xD2, 0x13);
    Next(0x7F, 0x82, 0xD2, 0x13, 0x81, 0x7E, 0x0C, 0xF3);
    Next(0x81, 0x7E, 0x0C, 0xF3, 0x98, 0x2A, 0x46, 0xE5);
    Next(0x98, 0x2A, 0x46, 0xE5, 0xB3, 0xEF, 0x6D, 0xDF);
    Next(0xB3, 0xEF, 0x6D, 0xDF, 0xCE, 0xAC, 0x8B, 0x91);
    Next(0xCE, 0xAC, 0x8B, 0x91, 0x49, 0x64, 0x3B, 0x43);
    Next(0x49, 0x64, 0x3B, 0x43, 0xDB, 0xD5, 0xB9, 0x03);
    Next(0xDB, 0xD5, 0xB9, 0x03, 0x76, 0xBA, 0x38, 0xF4);
    Next(0x76, 0xBA, 0x38, 0xF4, 0x9A, 0x9F, 0xB8, 0xDB);
  }

  lemma Powers96()
    requires Pair(0x9A, 0x9F, 0xB8, 0xDB)
    ensures Pair(0xB5, 0x75, 0xD5, 0x9D) && Pair(0xC4, 0xDA, 0x1C, 0x57)
    ensures Pair(0x57, 0xBF, 0x5B, 0x08) && Pair(0xF9, 0x9C, 0x99, 0xDE)
    ensures Pair(0x10, 0x74, 0xCA, 0x92) && Pair(0x30, 0x2C, 0x04, 0x71)
    ensures Pair(0x50, 0xED, 0x53, 0x55) && Pair(0xF0, 0x5B, 0x8C, 0x39)
    ensures Pair(0x0B, 0xC0, 0x2B, 0xBA) && Pair(0x1D, 0x40, 0xA4, 0x09)
    ensures Pair(0x27, 0xC9, 0xCC, 0xDD) && Pair(0x69, 0x47, 0xF9, 0xA0)
    ensures Pair(0xBB, 0x3D, 0xEA, 0x27) && Pair(0xD6, 0xE2, 0xF6, 0x98)
    ensures Pair(0x61, 0x5E, 0xEF, 0x58) && Pair(0xA3, 0xC3, 0x0A, 0x2E)
    ensures Pair(0xFE, 0x41, 0xBB, 0x83) && Pair(0x19, 0x3F, 0xD4, 0x75)
    ensures Pair(0x2B, 0x15, 0xF1, 0x59) && Pair(0x7D, 0xFA, 0xFF, 0x2D)
    ensures Pair(0x87, 0x56, 0x17, 0xB1) && Pair(0x92, 0x32, 0x4F, 0x23)
    ensures Pair(0xAD, 0xE7, 0x95, 0x94) && Pair(0xEC, 0x5D, 0xCE, 0x4C)
    ensures Pair(0x2F, 0xC2, 0x15, 0x25) && Pair(0x71, 0xB7, 0xA3, 0xA9)
    ensures Pair(0x93, 0x6D, 0xDC, 0x3C) && Pair(0xAE, 0xD2, 0xE4, 0xB5)
    ensures Pair(0xE9, 0x4E, 0x1E, 0x2F) && Pair(0x20, 0x3A, 0xB7, 0x80)
    ensures Pair(0x60, 0x16, 0xD0, 0x47) && Pair(0xA0, 0xFB, 0xE0, 0x0F)
  {
    hide Pair;
    Next(0x9A, 0x9F, 0xB8, 0xDB, 0xB5, 0x75, 0xD5, 0x9D);
    Next(0xB5, 0x75, 0xD5, 0x9D, 0xC4, 0xDA, 0x1C, 0x57);
    Next(0xC4, 0xDA, 0x1C, 0x57, 0x57, 0xBF, 0x5B, 0x08);
    Next(0x57, 0xBF, 0x5B, 0x08, 0xF9, 0x9C, 0x99, 0xDE);
    Next(0xF9, 0x9C, 0x99, 0xDE, 0x10, 0x74, 0xCA, 0x92);
    Next(0x10, 0x74, 0xCA, 0x92, 0x30, 0x2C, 0x04, 0x71);
    Next(0x30, 0x2C, 0x04, 0x71, 0x50, 0xED, 0x53, 0x55);
    Next(0x50, 0xED, 0x53, 0x55, 0xF0, 0x5B, 0x8C, 0x39);
    Next(0xF0, 0x5B, 0x8C, 0x39, 0x0B, 0xC0, 0x2B, 0xBA);
    Next(0x0B, 0xC0, 0x2B, 0xBA, 0x1D, 0x40, 0xA4, 0x09);
    Next(0x1D, 0x40, 0xA4, 0x09, 0x27, 0xC9, 0xCC, 0xDD);
    Next(0x27, 0xC9, 0xCC, 0xDD, 0x69, 0x47, 0xF9, 0xA0);
    Next(0x69, 0x47, 0xF9, 0xA0, 0xBB, 0x3D, 0xEA, 0x27);
    Next(0xBB, 0x3D, 0xEA, 0x27, 0xD6, 0xE2, 0xF6, 0x98);
    Next(0xD6, 0xE2, 0xF6, 0x98, 0x61, 0x5E, 0xEF, 0x58);
    Next(0x61, 0x5E, 0xEF, 0x58, 0xA3, 0xC3, 0x0A, 0x2E);
    Next(0xA3, 0xC3, 0x0A, 0x2E, 0xFE, 0x41, 0xBB, 0x83);
    Next(0xFE, 0x41, 0xBB, 0x83, 0x19, 0x3F, 0xD4, 0x75);
    Next(0x19, 0x3F, 0xD4, 0x75, 0x2B, 0x15, 0xF1, 0x59);
    Next(0x2B, 0x15, 0xF1, 0x59, 0x7D, 0xFA, 0xFF, 0x2D);
    Next(0x7D, 0xFA, 0xFF, 0x2D, 0x87, 0x56, 0x17, 0xB1);
    Next(0x87, 0x56, 0x17, 0xB1, 0x92, 0x32, 0x4F, 0x23);
    Next(0x92, 0x32, 0x4F, 0x23, 0xAD, 0xE7, 0x95, 0x94);
    Next(0xAD, 0xE7, 0x95, 0x94, 0xEC, 0x5D, 0xCE, 0x4C);
    Next(0xEC, 0x5D, 0xCE, 0x4C, 0x2F, 0xC2, 0x15, 0x25);
    Next(0x2F, 0xC2, 0x15, 0x25, 0x71, 0xB7, 0xA3, 0xA9);
    Next(0x71, 0xB7, 0xA3, 0xA9, 0x93, 0x6D, 0xDC, 0x3C);
    Next(0x93, 0x6D, 0xDC, 0x3C, 0xAE, 0xD2, 0xE4, 0xB5);
    Next(0xAE, 0xD2, 0xE4, 0xB5, 0xE9, 0x4E, 0x1E, 0x2F);
    Next(0xE9, 0x4E, 0x1E, 0x2F, 0x20, 0x3A, 0xB7, 0x80);
    Next(0x20, 0x3A, 0xB7, 0x80, 0x60, 0x16, 0xD0, 0x47);
    Next(0x60, 0x16, 0xD0, 0x47, 0xA0, 0xFB, 0xE0, 0x0F);
  }

  /** FSb, entry by entry. */
  lemma RomTable()
    ensures SBox(0x00) == 0x63 && SBox(0x01) == 0x7C && SBox(0x02) == 0x77 && SBox(0x03) == 0x7B
    ensures SBox(0x04) == 0xF2 && SBox(0x05) == 0x6B && SBox(0x06) == 0x6F && SBox(0x07) == 0xC5
    ensures SBox(0x08) == 0x30 && SBox(0x09) == 0x01 && SBox(0x0A) == 0x67 && SBox(0x0B) == 0x2B
    ensures SBox(0x0C) == 0xFE && SBox(0x0D) == 0xD7 && SBox(0x0E) == 0xAB && SBox(0x0F) == 0x76
    ensures SBox(0x10) == 0xCA && SBox(0x11) == 0x82 && SBox(0x12) == 0xC9 && SBox(0x13) == 0x7D
    ensures SBox(0x14) == 0xFA && SBox(0x15) == 0x59 && SBox(0x16) == 0x47 && SBox(0x17) == 0xF0
    ensures SBox(0x18) == 0xAD && SBox(0x19) == 0xD4 && SBox(0x1A) == 0xA2 && SBox(0x1B) == 0xAF
    ensures SBox(0x1C) == 0x9C && SBox(0x1D) == 0xA4 && SBox(0x1E) == 0x72 && SBox(0x1F) == 0xC0
    ensures SBox(0x20) == 0xB7 && SBox(0x21) == 0xFD && SBox(0x22) == 0x93 && SBox(0x23) == 0x26
    ensures SBox(0x24) == 0x36 && SBox(0x25) == 0x3F && SBox(0x26) == 0xF7 && SBox(0x27) == 0xCC
    ensures SBox(0x28) == 0x34 && SBox(0x29) == 0xA5 && SBox(0x2A) == 0xE5 && SBox(0x2B) == 0xF1
    ensures SBox(0x2C) == 0x71 && SBox(0x2D) == 0xD8 && SBox(0x2E) == 0x31 && SBox(0x2F) == 0x15
    ensures SBox(0x30) == 0x04 && SBox(0x31) == 0xC7 && SBox(0x32) == 0x23 && SBox(0x33) == 0xC3
    ensures SBox(0x34) == 0x18 && SBox(0x35) == 0x96 && SBox(0x36) == 0x05 && SBox(0x37) == 0x9A
    ensures SBox(0x38) == 0x07 && SBox(0x39) == 0x12 && SBox(0x3A) == 0x80 && SBox(0x3B) == 0xE2
    ensures SBox(0x3C) == 0xEB && SBox(0x3D) == 0x27 && SBox(0x3E) == 0xB2 && SBox(0x3F) == 0x75
    ensures SBox(0x40) == 0x09 && SBox(0x41) == 0x83 && SBox(0x42) == 0x2C && SBox(0x43) == 0x1A
    ensures SBox(0x44) == 0x1B && SBox(0x45) == 0x6E && SBox(0x46) == 0x5A && SBox(0x47) == 0xA0
    ensures SBox(0x48) == 0x52 && SBox(0x49) == 0x3B && SBox(0x4A) == 0xD6 && SBox(0x4B) == 0xB3
    ensures SBox(0x4C) == 0x29 && SBox(0x4D) == 0xE3 && SBox(0x4E) == 0x2F && SBox(0x4F) == 0x84
    ensures SBox(0x50) == 0x53 && SBox(0x51) == 0xD1 && SBox(0x52) == 0x00 && SBox(0x53) == 0xED
    ensures SBox(0x54) == 0x20 && SBox(0x55) == 0xFC && SBox(0x56) == 0xB1 && SBox(0x57) == 0x5B
    ensures SBox(0x58) == 0x6A && SBox(0x59) == 0xCB && SBox(0x5A) == 0xBE && SBox(0x5B) == 0x39
    ensures SBox(0x5C) == 0x4A && SBox(0x5D) == 0x4C && SBox(0x5E) == 0x58 && SBox(0x5F) == 0xCF
    ensures SBox(0x60) == 0xD0 && SBox(0x61) == 0xEF && SBox(0x62) == 0xAA && SBox(0x63) == 0xFB
    ensures SBox(0x64) == 0x43 && SBox(0x65) == 0x4D && SBox(0x66) == 0x33 && SBox(0x67) == 0x85
    ensures SBox(0x68) == 0x45 && SBox(0x69) == 0xF9 && SBox(0x6A) == 0x02 && SBox(0x6B) == 0x7F
    ensures SBox(0x6C) == 0x50 && SBox(0x6D) == 0x3C && SBox(0x6E) == 0x9F && SBox(0x6F) == 0xA8
    ensures SBox(0x70) == 0x51 && SBox(0x71) == 0xA3 && SBox(0x72) == 0x40 && SBox(0x73) == 0x8F
    ensures SBox(0x74) == 0x92 && SBox(0x75) == 0x9D && SBox(0x76) == 0x38 && SBox(0x77) == 0xF5
    ensures SBox(0x78) == 0xBC && SBox(0x79) == 0xB6 && SBox(0x7A) == 0xDA && SBox(0x7B) == 0x21
    ensures SBox(0x7C) == 0x10 && SBox(0x7D) == 0xFF && SBox(0x7E) == 0xF3 && SBox(0x7F) == 0xD2
    ensures SBox(0x80) == 0xCD && SBox(0x81) == 0x0C && SBox(0x82) == 0x13 && SBox(0x83) == 0xEC
    ensures SBox(0x84) == 0x5F && SBox(0x85) == 0x97 && SBox(0x86) == 0x44 && SBox(0x87) == 0x17
    ensures SBox(0x88) == 0xC4 && SBox(0x89) == 0xA7 && SBox(0x8A) == 0x7E && SBox(0x8B) == 0x3D
    ensures SBox(0x8C) == 0x64 && SBox(0x8D) == 0x5D && SBox(0x8E) == 0x19 && SBox(0x8F) == 0x73
    ensures SBox(0x90) == 0x60 && SBox(0x91) == 0x81 && SBox(0x92) == 0x4F && SBox(0x93) == 0xDC
    ensures SBox(0x94) == 0x22 && SBox(0x95) == 0x2A && SBox(0x96) == 0x90 && SBox(0x97) == 0x88
    ensures SBox(0x98) == 0x46 && SBox(0x99) == 0xEE && SBox(0x9A) == 0xB8 && SBox(0x9B) == 0x14
    ensures SBox(0x9C) == 0xDE && SBox(0x9D) == 0x5E && SBox(0x9E) == 0x0B && SBox(0x9F) == 0xDB
    ensures SBox(0xA0) == 0xE0 && SBox(0xA1) == 0x32 && SBox(0xA2) == 0x3A && SBox(0xA3) == 0x0A
    ensures SBox(0xA4) == 0x49 && SBox(0xA5) == 0x06 && SBox(0xA6) == 0x24 && SBox(0xA7) == 0x5C
    ensures SBox(0xA8) == 0xC2 && SBox(0xA9) == 0xD3 && SBox(0xAA) == 0xAC && SBox(0xAB) == 0x62
    ensures SBox(0xAC) == 0x91 && SBox(0xAD) == 0x95 && SBox(0xAE) == 0xE4 && SBox(0xAF) == 0x79
    ensures SBox(0xB0) == 0xE7 && SBox(0xB1) == 0xC8 && SBox(0xB2) == 0x37 && SBox(0xB3) == 0x6D
    ensures SBox(0xB4) == 0x8D && SBox(0xB5) == 0xD5 && SBox(0xB6) == 0x4E && SBox(0xB7) == 0xA9
    ensures SBox(0xB8) == 0x6C && SBox(0xB9) == 0x56 && SBox(0xBA) == 0xF4 && SBox(0xBB) == 0xEA
    ensures SBox(0xBC) == 0x65 && SBox(0xBD) == 0x7A && SBox(0xBE) == 0xAE && SBox(0xBF) == 0x08
    ensures SBox(0xC0) == 0xBA && SBox(0xC1) == 0x78 && SBox(0xC2) == 0x25 && SBox(0xC3) == 0x2E
    ensures SBox(0xC4) == 0x1C && SBox(0xC5) == 0xA6 && SBox(0xC6) == 0xB4 && SBox(0xC7) == 0xC6
    ensures SBox(0xC8) == 0xE8 && SBox(0xC9) == 0xDD && SBox(0xCA) == 0x74 && SBox(0xCB) == 0x1F
    ensures SBox(0xCC) == 0x4B && SBox(0xCD) == 0xBD && SBox(0xCE) == 0x8B && SBox(0xCF) == 0x8A
    ensures SBox(0xD0) == 0x70 && SBox(0xD1) == 0x3E && SBox(0xD2) == 0xB5 && SBox(0xD3) == 0x66
    ensures SBox(0xD4) == 0x48 && SBox(0xD5) == 0x03 && SBox(0xD6) == 0xF6 && SBox(0xD7) == 0x0E
    ensures SBox(0xD8) == 0x61 && SBox(0xD9) == 0x35 && SBox(0xDA) == 0x57 && SBox(0xDB) == 0xB9
    ensures SBox(0xDC) == 0x86 && SBox(0xDD) == 0xC1 && SBox(0xDE) == 0x1D && SBox(0xDF) == 0x9E
    ensures SBox(0xE0) == 0xE1 && SBox(0xE1) == 0xF8 && SBox(0xE2) == 0x98 && SBox(0xE3) == 0x11
    ensures SBox(0xE4) == 0x69 && SBox(0xE5) == 0xD9 && SBox(0xE6) == 0x8E && SBox(0xE7) == 0x94
    ensures SBox(0xE8) == 0x9B && SBox(0xE9) == 0x1E && SBox(0xEA) == 0x87 && SBox(0xEB) == 0xE9
    ensures SBox(0xEC) == 0xCE && SBox(0xED) == 0x55 && SBox(0xEE) == 0x28 && SBox(0xEF) == 0xDF
    ensures SBox(0xF0) == 0x8C && SBox(0xF1) == 0xA1 && SBox(0xF2) == 0x89 && SBox(0xF3) == 0x0D
    ensures SBox(0xF4) == 0xBF && SBox(0xF5) == 0xE6 && SBox(0xF6) == 0x42 && SBox(0xF7) == 0x68
    ensures SBox(0xF8) == 0x41 && SBox(0xF9) == 0x99 && SBox(0xFA) == 0x2D && SBox(0xFB) == 0x0F
    ensures SBox(0xFC) == 0xB0 && SBox(0xFD) == 0x54 && SBox(0xFE) == 0xBB && SBox(0xFF) == 0x16
  {
    hide SBox, Inverses;
    First();
    Powers0();
    Powers32();
    Powers64();
    Powers96();
  }
}
