/** AES as FIPS-197 writes it: on bytes by their row and column, sections 5.1 and 5.2, and that aes.c computes it. */
module AesStandard {
  import opened Bits
  import opened GaloisField
  import opened AesSbox
  import opened AesCipher
  import opened AesTables
  import opened Aes

  type block = b: seq<bv8> | |b| == 16 witness seq(16, _ => 0)

  // ----- the standard: byte i of a block stands in row i % 4 and column i / 4 -----

  /** Section 5.1.1: every byte by itself. */
  ghost function Substitute(s: block): block {
    seq(16, i requires 0 <= i < 16 => SBox(s[i]))
  }

  /** Section 5.1.2: row r is shifted by r columns to the left. */
  function Shift(s: block): block {
    seq(16, i requires 0 <= i < 16 => s[(i + 4 * (i % 4)) % 16])
  }

  /** The rows of the matrix of section 5.1.3: 2, 3, 1, 1. */
  function Mixed(a: bv8, b: bv8, c: bv8, d: bv8): bv8 {
    Xor(Xor(Mul(2, a), Mul(3, b)), Xor(c, d))
  }

  /** The place below place i in its column, cyclically. */
  function Below(i: nat): (j: nat)
    requires i < 16
    ensures j < 16
  {
    if i % 4 == 3 then i - 3 else i + 1
  }

  /** Byte i with the three below it. */
  function MixedAt(s: block, i: nat): bv8
    requires i < 16
  {
    var j := Below(i);
    var k := Below(j);
    Mixed(s[i], s[j], s[k], s[Below(k)])
  }

  /** Section 5.1.3. */
  function Mix(s: block): block {
    seq(16, i requires 0 <= i < 16 => MixedAt(s, i))
  }

  /** Section 5.1.4. */
  function Add(s: block, k: block): block {
    seq(16, i requires 0 <= i < 16 => Xor(s[i], k[i]))
  }

  /** x^(i-1). */
  function Rcon(i: nat): bv8 {
    if i <= 1 then 1 else Mul(2, Rcon(i - 1))
  }

  /** Section 5.2: byte i of the expanded key is byte i % 4 of word i / 4. */
  ghost function KeyByte(key: seq<bv8>, nk: nat, i: nat): bv8
    requires KeyWords(nk) && |key| == 4 * nk
    decreases i
  {
    if i < 4 * nk then key[i]
    else
      var j, r := i / 4, i % 4;
      Xor(KeyByte(key, nk, i - 4 * nk),
          if j % nk == 0 then Xor(SBox(KeyByte(key, nk, 4 * (j - 1) + (r + 1) % 4)), if r == 0 then Rcon(j / nk) else 0)
          else if nk > 6 && j % nk == 4 then SBox(KeyByte(key, nk, i - 4))
          else KeyByte(key, nk, i - 4))
  }

  ghost function RoundKey(key: seq<bv8>, nk: nat, r: nat): block
    requires KeyWords(nk) && |key| == 4 * nk
  {
    seq(16, i requires 0 <= i < 16 => KeyByte(key, nk, 16 * r + i))
  }

  /** The block after r rounds. */
  ghost function After(key: seq<bv8>, nk: nat, b: block, r: nat): block
    requires KeyWords(nk) && |key| == 4 * nk
  {
    if r == 0 then Add(b, RoundKey(key, nk, 0))
    else Add(Mix(Shift(Substitute(After(key, nk, b, r - 1)))), RoundKey(key, nk, r))
  }

  /** Section 5.1. */
  ghost function Encipher(key: seq<bv8>, nk: nat, b: block): block
    requires KeyWords(nk) && |key| == 4 * nk
  {
    Add(Shift(Substitute(After(key, nk, b, nk + 5))), RoundKey(key, nk, nk + 6))
  }

  // ----- states as blocks -----

  function Bytes(s: State): block {
    [B0(s.w0), B1(s.w0), B2(s.w0), B3(s.w0), B0(s.w1), B1(s.w1), B2(s.w1), B3(s.w1),
     B0(s.w2), B1(s.w2), B2(s.w2), B3(s.w2), B0(s.w3), B1(s.w3), B2(s.w3), B3(s.w3)]
  }

  lemma StoreBytes(s: State)
    ensures Store(s) == Bytes(s)
  {
    hide B0, B1, B2, B3;
    assert Put(s.w0) + Put(s.w1) == [B0(s.w0), B1(s.w0), B2(s.w0), B3(s.w0), B0(s.w1), B1(s.w1), B2(s.w1), B3(s.w1)];
  }

  // The operations, written out.

  lemma SubstituteIs(b: block)
    ensures Substitute(b) ==
      [SBox(b[0]), SBox(b[1]), SBox(b[2]), SBox(b[3]), SBox(b[4]), SBox(b[5]), SBox(b[6]), SBox(b[7]), SBox(b[8]),
       SBox(b[9]), SBox(b[10]), SBox(b[11]), SBox(b[12]), SBox(b[13]), SBox(b[14]), SBox(b[15])]
  {
    hide SBox;
  }

  lemma ShiftIs(b: block)
    ensures Shift(b) ==
      [b[0], b[5], b[10], b[15], b[4], b[9], b[14], b[3], b[8], b[13], b[2], b[7], b[12], b[1], b[6], b[11]]
  {
  }

  lemma AddIs(b: block, k: block)
    ensures Add(b, k) ==
      [Xor(b[0], k[0]), Xor(b[1], k[1]), Xor(b[2], k[2]), Xor(b[3], k[3]), Xor(b[4], k[4]), Xor(b[5], k[5]),
       Xor(b[6], k[6]), Xor(b[7], k[7]), Xor(b[8], k[8]), Xor(b[9], k[9]), Xor(b[10], k[10]), Xor(b[11], k[11]),
       Xor(b[12], k[12]), Xor(b[13], k[13]), Xor(b[14], k[14]), Xor(b[15], k[15])]
  {
    hide Xor;
  }

  lemma Places()
    ensures Below(0) == 1 && Below(1) == 2 && Below(2) == 3 && Below(3) == 0
    ensures Below(4) == 5 && Below(5) == 6 && Below(6) == 7 && Below(7) == 4
    ensures Below(8) == 9 && Below(9) == 10 && Below(10) == 11 && Below(11) == 8
    ensures Below(12) == 13 && Below(13) == 14 && Below(14) == 15 && Below(15) == 12
  {
  }

  lemma MixedIs(b: block, i: nat, j: nat, k: nat, l: nat)
    requires i < 16 && j < 16 && k < 16 && Below(i) == j && Below(j) == k && Below(k) == l
    ensures Mix(b)[i] == Mixed(b[i], b[j], b[k], b[l])
  {
    hide Mixed, Below;
  }

  lemma MixIs(b: block)
    ensures Mix(b) ==
      [Mixed(b[0], b[1], b[2], b[3]), Mixed(b[1], b[2], b[3], b[0]), Mixed(b[2], b[3], b[0], b[1]), Mixed(b[3], b[0],
       b[1], b[2]), Mixed(b[4], b[5], b[6], b[7]), Mixed(b[5], b[6], b[7], b[4]), Mixed(b[6], b[7], b[4], b[5]),
       Mixed(b[7], b[4], b[5], b[6]), Mixed(b[8], b[9], b[10], b[11]), Mixed(b[9], b[10], b[11], b[8]), Mixed(b[10],
       b[11], b[8], b[9]), Mixed(b[11], b[8], b[9], b[10]), Mixed(b[12], b[13], b[14], b[15]), Mixed(b[13], b[14],
       b[15], b[12]), Mixed(b[14], b[15], b[12], b[13]), Mixed(b[15], b[12], b[13], b[14])]
  {
    hide Mixed, Mix, Below;
    Places();
    MixedIs(b, 0, 1, 2, 3);
    MixedIs(b, 1, 2, 3, 0);
    MixedIs(b, 2, 3, 0, 1);
    MixedIs(b, 3, 0, 1, 2);
    MixedIs(b, 4, 5, 6, 7);
    MixedIs(b, 5, 6, 7, 4);
    MixedIs(b, 6, 7, 4, 5);
    MixedIs(b, 7, 4, 5, 6);
    MixedIs(b, 8, 9, 10, 11);
    MixedIs(b, 9, 10, 11, 8);
    MixedIs(b, 10, 11, 8, 9);
    MixedIs(b, 11, 8, 9, 10);
    MixedIs(b, 12, 13, 14, 15);
    MixedIs(b, 13, 14, 15, 12);
    MixedIs(b, 14, 15, 12, 13);
    MixedIs(b, 15, 12, 13, 14);
  }

  // The operations on words are these.

  lemma SubstituteBytes(s: State)
    ensures Bytes(SubBytes(s)) == Substitute(Bytes(s))
  {
    hide B0, B1, B2, B3, Word, SBox, Substitute;
    SubstituteIs(Bytes(s));
    WordBytes(SBox(B0(s.w0)), SBox(B1(s.w0)), SBox(B2(s.w0)), SBox(B3(s.w0)));
    WordBytes(SBox(B0(s.w1)), SBox(B1(s.w1)), SBox(B2(s.w1)), SBox(B3(s.w1)));
    WordBytes(SBox(B0(s.w2)), SBox(B1(s.w2)), SBox(B2(s.w2)), SBox(B3(s.w2)));
    WordBytes(SBox(B0(s.w3)), SBox(B1(s.w3)), SBox(B2(s.w3)), SBox(B3(s.w3)));
  }

  lemma ShiftBytes(s: State)
    ensures Bytes(ShiftRows(s)) == Shift(Bytes(s))
  {
    hide B0, B1, B2, B3, Word, Shift;
    ShiftIs(Bytes(s));
    WordBytes(B0(s.w0), B1(s.w1), B2(s.w2), B3(s.w3));
    WordBytes(B0(s.w1), B1(s.w2), B2(s.w3), B3(s.w0));
    WordBytes(B0(s.w2), B1(s.w3), B2(s.w0), B3(s.w1));
    WordBytes(B0(s.w3), B1(s.w0), B2(s.w1), B3(s.w2));
  }

  lemma AddBytes(s: State, k: State)
    ensures Bytes(AddRoundKey(s, k)) == Add(Bytes(s), Bytes(k))
  {
    hide B0, B1, B2, B3, Xor, Xor32, Add;
    AddIs(Bytes(s), Bytes(k));
    AddWord(s.w0, k.w0);
    AddWord(s.w1, k.w1);
    AddWord(s.w2, k.w2);
    AddWord(s.w3, k.w3);
  }

  lemma AddWord(v: bv32, w: bv32)
    ensures var x := Xor32(v, w);
            && B0(x) == Xor(B0(v), B0(w)) && B1(x) == Xor(B1(v), B1(w))
            && B2(x) == Xor(B2(v), B2(w)) && B3(x) == Xor(B3(v), B3(w))
  {
    hide B0, B1, B2, B3, Xor, Xor32;
    XorByte0(v, w);
    XorByte1(v, w);
    XorByte2(v, w);
    XorByte3(v, w);
  }

  lemma Mul3(x: bv8)
    ensures Mul(3, x) == Triple(x)
  {
    assert 3 == Xor(1, 2);
    hide Xor, XTime, MulBits;
    MulBinary(x);
    MulBitsLeft(1, 2, x, 8);
  }

  lemma RowMixed(a: bv8, b: bv8, c: bv8, d: bv8)
    ensures Row(a, b, c, d) == Mixed(a, b, c, d)
  {
    hide Mul, Xor, XTime, Triple;
    MulBinary(a);
    Mul3(b);
  }

  /** A column is mixed as the standard's matrix says. */
  lemma MixWord(w: bv32)
    ensures var m, a, b, c, d := MixColumn(w), B0(w), B1(w), B2(w), B3(w);
            B0(m) == Mixed(a, b, c, d) && B1(m) == Mixed(b, c, d, a)
            && B2(m) == Mixed(c, d, a, b) && B3(m) == Mixed(d, a, b, c)
  {
    hide B0, B1, B2, B3, Word, Row, Mixed;
    var a, b, c, d := B0(w), B1(w), B2(w), B3(w);
    WordBytes(Row(a, b, c, d), Row(b, c, d, a), Row(c, d, a, b), Row(d, a, b, c));
    RowMixed(a, b, c, d);
    RowMixed(b, c, d, a);
    RowMixed(c, d, a, b);
    RowMixed(d, a, b, c);
  }

  lemma MixBytes(s: State)
    ensures Bytes(MixColumns(s)) == Mix(Bytes(s))
  {
    hide B0, B1, B2, B3, MixColumn, Mix, Mixed;
    MixIs(Bytes(s));
    MixWord(s.w0);
    MixWord(s.w1);
    MixWord(s.w2);
    MixWord(s.w3);
  }

  // ----- the key schedule -----

  lemma RconIs(i: nat)
    ensures Rcon(i + 1) == RoundConstant(i)
  {
    hide Mul, XTime;
    if i > 0 {
      RconIs(i - 1);
      MulBinary(RoundConstant(i - 1));
    }
  }

  /** The four bytes from i on of the expanded key. */
  ghost predicate WordIs(key: seq<bv8>, nk: nat, i: nat, w: bv32)
    requires KeyWords(nk) && |key| == 4 * nk
  {
    && B0(w) == KeyByte(key, nk, i) && B1(w) == KeyByte(key, nk, i + 1)
    && B2(w) == KeyByte(key, nk, i + 2) && B3(w) == KeyByte(key, nk, i + 3)
  }

  lemma KeyByteStep(key: seq<bv8>, nk: nat, j: nat, r: nat)
    requires KeyWords(nk) && |key| == 4 * nk && j >= nk && r < 4
    ensures KeyByte(key, nk, 4 * j + r) ==
            Xor(KeyByte(key, nk, 4 * (j - nk) + r),
                if j % nk == 0 then
                  Xor(SBox(KeyByte(key, nk, 4 * (j - 1) + (r + 1) % 4)), if r == 0 then Rcon(j / nk) else 0)
                else if nk > 6 && j % nk == 4 then SBox(KeyByte(key, nk, 4 * (j - 1) + r))
                else KeyByte(key, nk, 4 * (j - 1) + r))
  {
    hide Xor, SBox, Rcon;
    var i := 4 * j + r;
    assert i / 4 == j && i % 4 == r && i >= 4 * nk;
    assert i - 4 * nk == 4 * (j - nk) + r && i - 4 == 4 * (j - 1) + r;
  }

  lemma KeyMaskBytes(key: seq<bv8>, nk: nat, j: nat, w: bv32)
    requires KeyWords(nk) && |key| == 4 * nk && j >= nk && WordIs(key, nk, 4 * (j - 1), w)
    ensures var m := KeyMask(w, nk, j);
            && KeyByte(key, nk, 4 * j) == Xor(KeyByte(key, nk, 4 * (j - nk)), B0(m))
            && KeyByte(key, nk, 4 * j + 1) == Xor(KeyByte(key, nk, 4 * (j - nk) + 1), B1(m))
            && KeyByte(key, nk, 4 * j + 2) == Xor(KeyByte(key, nk, 4 * (j - nk) + 2), B2(m))
            && KeyByte(key, nk, 4 * j + 3) == Xor(KeyByte(key, nk, 4 * (j - nk) + 3), B3(m))
  {
    hide KeyByte, Xor, Xor32, B0, B1, B2, B3, Word, SBox, Rcon, RoundConstant, SubWord, RotWord;
    KeyByteStep(key, nk, j, 0);
    KeyByteStep(key, nk, j, 1);
    KeyByteStep(key, nk, j, 2);
    KeyByteStep(key, nk, j, 3);
    if j % nk == 0 {
      FirstMask(w, j / nk - 1);
    } else {
      SubWordBytes(w);
    }
  }

  lemma SubWordBytes(w: bv32)
    ensures var s := SubWord(w);
            B0(s) == SBox(B0(w)) && B1(s) == SBox(B1(w)) && B2(s) == SBox(B2(w)) && B3(s) == SBox(B3(w))
  {
    hide B0, B1, B2, B3, Word, SBox;
    WordBytes(SBox(B0(w)), SBox(B1(w)), SBox(B2(w)), SBox(B3(w)));
  }

  lemma FirstMask(w: bv32, i: nat)
    ensures var m := Xor32(SubWord(RotWord(w)), RoundConstant(i) as bv32);
            && B0(m) == Xor(SBox(B1(w)), Rcon(i + 1)) && B1(m) == Xor(SBox(B2(w)), 0)
            && B2(m) == Xor(SBox(B3(w)), 0) && B3(m) == Xor(SBox(B0(w)), 0)
  {
    hide B0, B1, B2, B3, Word, SBox, SubWord, Xor, Xor32, RoundConstant;
    RconIs(i);
    WordBytes(B1(w), B2(w), B3(w), B0(w));
    SubWordBytes(RotWord(w));
    AddWord(SubWord(RotWord(w)), RoundConstant(i) as bv32);
    LowByte(RoundConstant(i));
  }

  lemma LowByte(x: bv8)
    ensures B0(x as bv32) == x && B1(x as bv32) == 0 && B2(x as bv32) == 0 && B3(x as bv32) == 0
  {
  }

  lemma {:induction false} KeyWordBytes(key: seq<bv8>, nk: nat, j: nat)
    requires KeyWords(nk) && |key| == 4 * nk
    ensures WordIs(key, nk, 4 * j, KeyWord(key, nk, j))
    decreases j
  {
    hide KeyWord, KeyByte, KeyMask, Xor, Xor32, B0, B1, B2, B3;
    if j < nk {
      FirstWords(key, nk, j);
    } else {
      KeyWordBytes(key, nk, j - nk);
      KeyWordBytes(key, nk, j - 1);
      KeyWordStep(key, nk, j);
      KeyMaskBytes(key, nk, j, KeyWord(key, nk, j - 1));
      AddWord(KeyWord(key, nk, j - nk), KeyMask(KeyWord(key, nk, j - 1), nk, j));
    }
  }

  lemma FirstWords(key: seq<bv8>, nk: nat, j: nat)
    requires KeyWords(nk) && |key| == 4 * nk && j < nk
    ensures WordIs(key, nk, 4 * j, KeyWord(key, nk, j))
  {
    hide B0, B1, B2, B3, Word, GetUint32;
    GetUint32Word(key, 4 * j);
    WordBytes(key[4 * j], key[4 * j + 1], key[4 * j + 2], key[4 * j + 3]);
  }

  lemma RoundKeyBytes(key: seq<bv8>, nk: nat, r: nat)
    requires KeyWords(nk) && |key| == 4 * nk && r < nk + 7
    ensures Bytes(RoundKeys(key, nk)[r]) == RoundKey(key, nk, r)
  {
    hide KeyWord, KeyByte, RoundKey, B0, B1, B2, B3, WordIs;
    var i := 16 * r;
    KeyWordBytes(key, nk, 4 * r);
    KeyWordBytes(key, nk, 4 * r + 1);
    KeyWordBytes(key, nk, 4 * r + 2);
    KeyWordBytes(key, nk, 4 * r + 3);
    assert 4 * (4 * r + 1) == i + 4 && 4 * (4 * r + 2) == i + 8 && 4 * (4 * r + 3) == i + 12;
    FourWords(key, nk, i, RoundKeys(key, nk)[r]);
    RoundKeyIs(key, nk, r);
  }

  lemma FourWords(key: seq<bv8>, nk: nat, i: nat, s: State)
    requires KeyWords(nk) && |key| == 4 * nk
    requires WordIs(key, nk, i, s.w0) && WordIs(key, nk, i + 4, s.w1)
    requires WordIs(key, nk, i + 8, s.w2) && WordIs(key, nk, i + 12, s.w3)
    ensures Bytes(s) == KeyBytes(key, nk, i)
  {
    hide KeyByte, B0, B1, B2, B3;
  }

  ghost function KeyBytes(key: seq<bv8>, nk: nat, i: nat): block
    requires KeyWords(nk) && |key| == 4 * nk
  {
    var k := (n: nat) => KeyByte(key, nk, n);
    [k(i), k(i + 1), k(i + 2), k(i + 3), k(i + 4), k(i + 5), k(i + 6), k(i + 7),
     k(i + 8), k(i + 9), k(i + 10), k(i + 11), k(i + 12), k(i + 13), k(i + 14), k(i + 15)]
  }

  lemma RoundKeyIs(key: seq<bv8>, nk: nat, r: nat)
    requires KeyWords(nk) && |key| == 4 * nk
    ensures RoundKey(key, nk, r) == KeyBytes(key, nk, 16 * r)
  {
    hide KeyByte;
  }

  // ----- the cipher -----

  lemma {:induction false} RoundsBytes(key: seq<bv8>, nk: nat, s: State, r: nat)
    requires KeyWords(nk) && |key| == 4 * nk && r < nk + 7
    ensures Bytes(Rounds(RoundKeys(key, nk), s, r)) == After(key, nk, Bytes(s), r)
  {
    hide RoundKeys, RoundKey, Bytes, AddRoundKey, MixColumns, ShiftRows, SubBytes, Add, Mix, Shift, Substitute;
    var keys := RoundKeys(key, nk);
    RoundKeyBytes(key, nk, r);
    if r == 0 {
      AddBytes(s, keys[0]);
    } else {
      var x := Rounds(keys, s, r - 1);
      RoundsBytes(key, nk, s, r - 1);
      SubstituteBytes(x);
      ShiftBytes(SubBytes(x));
      MixBytes(ShiftRows(SubBytes(x)));
      AddBytes(MixColumns(ShiftRows(SubBytes(x))), keys[r]);
    }
  }

  /** Words by tables, or bytes by the standard: the same cipher, for every key of the three lengths and every block. */
  lemma CipherIsStandard(key: seq<bv8>, nk: nat, b: block)
    requires KeyWords(nk) && |key| == 4 * nk
    ensures Store(Cipher(RoundKeys(key, nk), Load(b))) == Encipher(key, nk, b)
  {
    hide RoundKeys, RoundKey, Bytes, Load, Store, AddRoundKey, ShiftRows, SubBytes, Add, Shift, Substitute;
    var keys, s := RoundKeys(key, nk), Load(b);
    StoreLoad(b);
    StoreBytes(s);
    var x := Rounds(keys, s, nk + 5);
    RoundsBytes(key, nk, s, nk + 5);
    RoundKeyBytes(key, nk, nk + 6);
    SubstituteBytes(x);
    ShiftBytes(SubBytes(x));
    AddBytes(ShiftRows(SubBytes(x)), keys[nk + 6]);
    StoreBytes(Cipher(keys, s));
  }

  /** mbedtls_aes_setkey_enc and mbedtls_aes_encrypt: the standard's ciphertext, under every key of the three lengths. */
  method EncryptBlock(lib: Library, key: seq<bv8>, keybits: nat, input: array<bv8>, output: array<bv8>)
    requires lib.Valid() && keybits in {128, 192, 256} && |key| == keybits / 8
    requires input.Length == 16 && output.Length == 16 && input !in lib.tables.Bytes && output !in lib.tables.Bytes
    modifies lib`initDone, lib.tables.Bytes, lib.tables.Words, output
    ensures output[..] == Encipher(key, keybits / 32, old(input[..]))
  {
    hide RoundKeys, Cipher, Encipher, Load, Store, lib.tables.Ready;
    ghost var plain := input[..];
    var ctx := new Context();
    var ret := SetkeyEnc(lib, ctx, key, keybits);
    Encrypt(lib.tables, ctx, input, output);
    CipherIsStandard(key, keybits / 32, plain);
  }
}
