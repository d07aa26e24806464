/** aes.c: key schedules and block encryption and decryption by tables. */
module Aes {
  import opened Arith
  import opened Bits
  import opened GaloisField
  import opened AesSbox
  import opened AesCipher
  import opened AesTables

  const MBEDTLS_ERR_AES_INVALID_KEY_LENGTH: int := -0x0020

  // ----- words and blocks -----

  /** GET_UINT32_LE. */
  function GetUint32(b: seq<bv8>, i: nat): bv32
    requires i + 4 <= |b|
  {
    (b[i] as bv32) | ((b[i + 1] as bv32) << 8) | ((b[i + 2] as bv32) << 16) | ((b[i + 3] as bv32) << 24)
  }

  lemma GetUint32Word(b: seq<bv8>, i: nat)
    requires i + 4 <= |b|
    ensures GetUint32(b, i) == Word(b[i], b[i + 1], b[i + 2], b[i + 3])
  {
    OrIsXor(b[i], b[i + 1], b[i + 2], b[i + 3]);
  }

  lemma OrIsXor(a: bv8, b: bv8, c: bv8, d: bv8)
    ensures (a as bv32) | ((b as bv32) << 8) | ((c as bv32) << 16) | ((d as bv32) << 24)
         == (a as bv32) ^ ((b as bv32) << 8) ^ ((c as bv32) << 16) ^ ((d as bv32) << 24)
  {
  }

  /** Four bytes of a word, as PUT_UINT32_LE stores them. */
  function Put(w: bv32): seq<bv8> {
    [B0(w), B1(w), B2(w), B3(w)]
  }

  /** A block of sixteen bytes, loaded. */
  function Load(b: seq<bv8>): State
    requires |b| == 16
  {
    State(GetUint32(b, 0), GetUint32(b, 4), GetUint32(b, 8), GetUint32(b, 12))
  }

  /** A state, stored. */
  function Store(s: State): (b: seq<bv8>)
    ensures |b| == 16
  {
    Put(s.w0) + Put(s.w1) + Put(s.w2) + Put(s.w3)
  }

  lemma LoadStore(s: State)
    ensures Load(Store(s)) == s
  {
    var b := Store(s);
    GetUint32Word(b, 0);
    GetUint32Word(b, 4);
    GetUint32Word(b, 8);
    GetUint32Word(b, 12);
    hide Word, B0, B1, B2, B3, GetUint32;
    BytesWord(s.w0);
    BytesWord(s.w1);
    BytesWord(s.w2);
    BytesWord(s.w3);
  }

  lemma StoreLoad(b: seq<bv8>)
    requires |b| == 16
    ensures Store(Load(b)) == b
  {
    GetUint32Word(b, 0);
    GetUint32Word(b, 4);
    GetUint32Word(b, 8);
    GetUint32Word(b, 12);
    hide Word, B0, B1, B2, B3, GetUint32;
    WordBytes(b[0], b[1], b[2], b[3]);
    WordBytes(b[4], b[5], b[6], b[7]);
    WordBytes(b[8], b[9], b[10], b[11]);
    WordBytes(b[12], b[13], b[14], b[15]);
  }

  // ----- the key schedule (FIPS-197 section 5.2) -----

  predicate KeyWords(nk: nat) {
    nk == 4 || nk == 6 || nk == 8
  }

  function RotWord(w: bv32): bv32 {
    Word(B1(w), B2(w), B3(w), B0(w))
  }

  /** Word j of the expanded key. */
  ghost function KeyWord(key: seq<bv8>, nk: nat, j: nat): bv32
    requires KeyWords(nk) && |key| == 4 * nk
    decreases j
  {
    if j < nk then GetUint32(key, 4 * j)
    else Xor32(KeyWord(key, nk, j - nk), KeyMask(KeyWord(key, nk, j - 1), nk, j))
  }

  /** What is added to the word nk places back. */
  ghost function KeyMask(previous: bv32, nk: nat, j: nat): bv32
    requires KeyWords(nk) && j >= nk
  {
    if j % nk == 0 then Xor32(SubWord(RotWord(previous)), RoundConstant(j / nk - 1) as bv32)
    else if nk > 6 && j % nk == 4 then SubWord(previous)
    else previous
  }

  function StateAt(w: seq<bv32>, r: nat): State
    requires 4 * r + 4 <= |w|
  {
    State(w[4 * r], w[4 * r + 1], w[4 * r + 2], w[4 * r + 3])
  }

  /** The round keys of a key: one more than there are rounds. */
  ghost function RoundKeys(key: seq<bv8>, nk: nat): (keys: seq<State>)
    requires KeyWords(nk) && |key| == 4 * nk
    ensures |keys| == nk + 7
  {
    seq(nk + 7, r requires 0 <= r < nk + 7 =>
      State(KeyWord(key, nk, 4 * r), KeyWord(key, nk, 4 * r + 1), KeyWord(key, nk, 4 * r + 2), KeyWord(key, nk, 4 * r + 3)))
  }

  function StatesOf(w: seq<bv32>, n: nat): (keys: seq<State>)
    requires 4 * n <= |w|
    ensures |keys| == n
  {
    seq(n, r requires 0 <= r < n => StateAt(w, r))
  }

  class Context {
    var nr: nat
    const buf: array<bv32>

    constructor ()
      ensures buf.Length == 68 && fresh(buf)
    {
      nr := 0;
      buf := new bv32[68];
    }

    ghost predicate Valid()
      reads this
    {
      buf.Length == 68 && (nr == 10 || nr == 12 || nr == 14)
    }

    /** The round keys in the buffer. */
    ghost function Keys(): (keys: seq<State>)
      requires Valid()
      reads this, buf
      ensures |keys| == nr + 1
    {
      StatesOf(buf[..], nr + 1)
    }
  }

  /** The buffer holds the expanded key up to word n. */
  ghost predicate Expanded(w: seq<bv32>, key: seq<bv8>, nk: nat, n: nat)
    requires KeyWords(nk) && |key| == 4 * nk
  {
    n <= |w| && forall j :: 0 <= j < n ==> w[j] == KeyWord(key, nk, j)
  }

  lemma ExpandedKeys(w: seq<bv32>, key: seq<bv8>, nk: nat)
    requires KeyWords(nk) && |key| == 4 * nk && Expanded(w, key, nk, 4 * (nk + 7))
    ensures StatesOf(w, nk + 7) == RoundKeys(key, nk)
  {
    hide KeyWord;
    forall r | 0 <= r < nk + 7
      ensures StateAt(w, r) == RoundKeys(key, nk)[r]
    {
      assert 4 * r + 3 < 4 * (nk + 7);
    }
  }

  // ----- setting a key -----

  /** FSb[B1] ^ FSb[B2] << 8 ^ FSb[B3] << 16 ^ FSb[B0] << 24. */
  method SubRotated(t: Tables, w: bv32) returns (r: bv32)
    requires t.Ready()
    ensures r == SubWord(RotWord(w))
  {
    hide B0, B1, B2, B3, Word, SBox, Index, Byte;
    Lookups(t);
    WordBytes(B1(w), B2(w), B3(w), B0(w));
    r := Word(t.FSb[Index(B1(w))], t.FSb[Index(B2(w))], t.FSb[Index(B3(w))], t.FSb[Index(B0(w))]);
  }

  method Substituted(t: Tables, w: bv32) returns (r: bv32)
    requires t.Ready()
    ensures r == SubWord(w)
  {
    hide B0, B1, B2, B3, Word, SBox, Index, Byte;
    Lookups(t);
    r := Word(t.FSb[Index(B0(w))], t.FSb[Index(B1(w))], t.FSb[Index(B2(w))], t.FSb[Index(B3(w))]);
  }

  /** Reading the tables at a byte. */
  lemma Lookups(t: Tables)
    requires t.Ready()
    ensures forall x: bv8 :: t.FSb[Index(x)] == SBox(x) && t.RSb[Index(x)] == InvSBox(x)
  {
    hide SBox, InvSBox;
    forall x: bv8
      ensures t.FSb[Index(x)] == SBox(x) && t.RSb[Index(x)] == InvSBox(x)
    {
      assert t.SboxEntry(Index(x));
      ByteIndex(x);
      hide Index, Byte;
    }
  }

  /** Storing one more word of the schedule. */
  method Extend(buf: array<bv32>, j: nat, w: bv32, ghost key: seq<bv8>, ghost nk: nat)
    requires KeyWords(nk) && |key| == 4 * nk && j < buf.Length && Expanded(buf[..], key, nk, j)
    requires w == KeyWord(key, nk, j)
    modifies buf
    ensures Expanded(buf[..], key, nk, j + 1)
  {
    hide KeyWord;
    buf[j] := w;
  }

  lemma KeyWordStep(key: seq<bv8>, nk: nat, j: nat)
    requires KeyWords(nk) && |key| == 4 * nk && j >= nk
    ensures KeyWord(key, nk, j) == Xor32(KeyWord(key, nk, j - nk), KeyMask(KeyWord(key, nk, j - 1), nk, j))
  {
  }

  /** RK[j] = RK[j - nk] ^ RK[j - 1]. */
  method PlainWord(buf: array<bv32>, j: nat, ghost key: seq<bv8>, nk: nat)
    requires KeyWords(nk) && |key| == 4 * nk && nk <= j < buf.Length && Expanded(buf[..], key, nk, j)
    requires j % nk != 0 && !(nk > 6 && j % nk == 4)
    modifies buf
    ensures Expanded(buf[..], key, nk, j + 1)
  {
    KeyWordStep(key, nk, j);
    hide KeyWord;
    Extend(buf, j, Xor32(buf[j - nk], buf[j - 1]), key, nk);
  }

  lemma ThreeXor(a: bv32, b: bv32, c: bv32)
    ensures Xor32(Xor32(a, b), c) == Xor32(a, Xor32(c, b))
  {
    hide Xor32;
    Xor32Associates(a, b, c);
    Xor32Commutes(b, c);
  }

  lemma BlockStart(key: seq<bv8>, nk: nat, j: nat, i: nat)
    requires KeyWords(nk) && |key| == 4 * nk && j == nk * (i + 1)
    ensures forall w: bv32 :: KeyMask(w, nk, j) == Xor32(SubWord(RotWord(w)), RoundConstant(i) as bv32)
  {
    hide SubWord, RotWord, Xor32, RoundConstant;
    DivModUnique(j, nk, i + 1, 0);
  }

  /** RK[j] = RK[j - nk] ^ RCON[i] ^ the substituted rotation of RK[j - 1]. */
  method FirstWord(t: Tables, buf: array<bv32>, j: nat, i: nat, ghost key: seq<bv8>, nk: nat)
    requires t.Ready() && buf !in t.Words && i < 10
    requires KeyWords(nk) && |key| == 4 * nk && nk <= j < buf.Length && Expanded(buf[..], key, nk, j)
    requires j == nk * (i + 1)
    modifies buf
    ensures Expanded(buf[..], key, nk, j + 1)
  {
    KeyWordStep(key, nk, j);
    BlockStart(key, nk, j, i);
    hide KeyWord, KeyMask, Xor32, SubWord, RotWord, RoundConstant;
    var s := SubRotated(t, buf[j - 1]);
    ThreeXor(buf[j - nk], t.RCON[i], s);
    Extend(buf, j, Xor32(Xor32(buf[j - nk], t.RCON[i]), s), key, nk);
  }

  /** The middle word of a 256-bit round: RK[j] = RK[j - 8] ^ the substitution of RK[j - 1]. */
  method MiddleWord(t: Tables, buf: array<bv32>, j: nat, ghost key: seq<bv8>)
    requires t.Ready() && buf !in t.Words
    requires |key| == 32 && 8 <= j < buf.Length && j % 8 == 4 && Expanded(buf[..], key, 8, j)
    modifies buf
    ensures Expanded(buf[..], key, 8, j + 1)
  {
    KeyWordStep(key, 8, j);
    hide KeyWord;
    var s := Substituted(t, buf[j - 1]);
    hide Xor32, SubWord;
    Extend(buf, j, Xor32(buf[j - 8], s), key, 8);
  }

  /** The key itself. */
  method LoadKey(buf: array<bv32>, key: seq<bv8>, nk: nat)
    requires KeyWords(nk) && |key| == 4 * nk && buf.Length == 68
    modifies buf
    ensures Expanded(buf[..], key, nk, nk)
  {
    var i := 0;
    while i < nk
      invariant 0 <= i <= nk && Expanded(buf[..], key, nk, i)
    {
      Extend(buf, i, GetUint32(key, 4 * i), key, nk);
      i := i + 1;
    }
  }

  /** The schedule for 128-bit keys. */
  method Expand128(t: Tables, buf: array<bv32>, ghost key: seq<bv8>)
    requires t.Ready() && buf !in t.Words && buf.Length == 68 && |key| == 16 && Expanded(buf[..], key, 4, 4)
    modifies buf
    ensures Expanded(buf[..], key, 4, 44)
  {
    hide KeyWord, Expanded, t.Ready;
    var i := 0;
    while i < 10
      invariant 0 <= i <= 10 && Expanded(buf[..], key, 4, 4 * i + 4) && t.Ready()
    {
      var j := 4 * i + 4;
      FirstWord(t, buf, j, i, key, 4);
      PlainWord(buf, j + 1, key, 4);
      PlainWord(buf, j + 2, key, 4);
      PlainWord(buf, j + 3, key, 4);
      i := i + 1;
    }
  }

  /** The schedule for 192-bit keys. */
  method Expand192(t: Tables, buf: array<bv32>, ghost key: seq<bv8>)
    requires t.Ready() && buf !in t.Words && buf.Length == 68 && |key| == 24 && Expanded(buf[..], key, 6, 6)
    modifies buf
    ensures Expanded(buf[..], key, 6, 54)
  {
    hide KeyWord, Expanded, t.Ready;
    var i := 0;
    while i < 8
      invariant 0 <= i <= 8 && Expanded(buf[..], key, 6, 6 * i + 6) && t.Ready()
    {
      var j := 6 * i + 6;
      FirstWord(t, buf, j, i, key, 6);
      PlainWord(buf, j + 1, key, 6);
      PlainWord(buf, j + 2, key, 6);
      PlainWord(buf, j + 3, key, 6);
      PlainWord(buf, j + 4, key, 6);
      PlainWord(buf, j + 5, key, 6);
      i := i + 1;
    }
  }

  /** The schedule for 256-bit keys. */
  method Expand256(t: Tables, buf: array<bv32>, ghost key: seq<bv8>)
    requires t.Ready() && buf !in t.Words && buf.Length == 68 && |key| == 32 && Expanded(buf[..], key, 8, 8)
    modifies buf
    ensures Expanded(buf[..], key, 8, 64)
  {
    hide KeyWord, Expanded;
    var i := 0;
    while i < 7
      invariant 0 <= i <= 7 && Expanded(buf[..], key, 8, 8 * i + 8) && t.Ready()
    {
      EightWords(t, buf, 8 * i + 8, i, key);
      i := i + 1;
    }
  }

  /** One turn of the loop for 256-bit keys. */
  method EightWords(t: Tables, buf: array<bv32>, j: nat, i: nat, ghost key: seq<bv8>)
    requires t.Ready() && buf !in t.Words && buf.Length == 68 && |key| == 32 && i < 7 && j == 8 * i + 8
    requires Expanded(buf[..], key, 8, j)
    modifies buf
    ensures t.Ready() && Expanded(buf[..], key, 8, j + 8)
  {
    hide KeyWord, Expanded, t.Ready;
    FirstWord(t, buf, j, i, key, 8);
    PlainWord(buf, j + 1, key, 8);
    PlainWord(buf, j + 2, key, 8);
    PlainWord(buf, j + 3, key, 8);
    MiddleWord(t, buf, j + 4, key);
    PlainWord(buf, j + 5, key, 8);
    PlainWord(buf, j + 6, key, 8);
    PlainWord(buf, j + 7, key, 8);
  }

  /** The static tables and aes_init_done. */
  class Library {
    const tables: Tables
    var initDone: bool

    constructor ()
      ensures Valid() && fresh(tables) && fresh(tables.Bytes) && fresh(tables.Words)
    {
      initDone := false;
      tables := new Tables();
    }

    ghost predicate Valid()
      reads this, tables.Bytes, tables.Words
    {
      tables.Sized() && (initDone ==> tables.Ready())
    }

    method EnsureTables()
      requires Valid()
      modifies `initDone, tables.Bytes, tables.Words
      ensures Valid() && initDone
    {
      if !initDone {
        GenTables(tables);
        initDone := true;
      }
    }
  }

  /** mbedtls_aes_setkey_enc. */
  method SetkeyEnc(lib: Library, ctx: Context, key: seq<bv8>, keybits: nat) returns (ret: int)
    requires lib.Valid() && ctx.buf.Length == 68 && ctx.buf !in lib.tables.Words
    requires keybits in {128, 192, 256} ==> |key| == keybits / 8
    modifies lib`initDone, lib.tables.Bytes, lib.tables.Words, ctx`nr, ctx.buf
    ensures lib.Valid()
    ensures ret == if keybits in {128, 192, 256} then 0 else MBEDTLS_ERR_AES_INVALID_KEY_LENGTH
    ensures ret == 0 ==> lib.initDone && ctx.Valid() && ctx.nr == keybits / 32 + 6 && ctx.Keys() == RoundKeys(key, keybits / 32)
  {
    lib.EnsureTables();
    hide KeyWord, StatesOf, RoundKeys;
    if keybits == 128 {
      ctx.nr := 10;
    } else if keybits == 192 {
      ctx.nr := 12;
    } else if keybits == 256 {
      ctx.nr := 14;
    } else {
      return MBEDTLS_ERR_AES_INVALID_KEY_LENGTH;
    }
    LoadKey(ctx.buf, key, keybits / 32);
    if ctx.nr == 10 {
      Expand128(lib.tables, ctx.buf, key);
    } else if ctx.nr == 12 {
      Expand192(lib.tables, ctx.buf, key);
    } else {
      Expand256(lib.tables, ctx.buf, key);
    }
    ExpandedKeys(ctx.buf[..], key, keybits / 32);
    return 0;
  }

  // ----- table rounds -----

  lemma RoundLookups(t: Tables)
    requires t.Ready()
    ensures forall x: bv8 :: t.FT0[Index(x)] == Forward0(x) && t.FT1[Index(x)] == Forward1(x)
                          && t.FT2[Index(x)] == Forward2(x) && t.FT3[Index(x)] == Forward3(x)
    ensures forall x: bv8 :: t.RT0[Index(x)] == Inverse0(InvSBox(x)) && t.RT1[Index(x)] == Inverse1(InvSBox(x))
                          && t.RT2[Index(x)] == Inverse2(InvSBox(x)) && t.RT3[Index(x)] == Inverse3(InvSBox(x))
  {
    hide SBox, InvSBox, Forward0, Forward1, Forward2, Forward3, Inverse0, Inverse1, Inverse2, Inverse3;
    forall x: bv8
      ensures t.FT0[Index(x)] == Forward0(x) && t.FT1[Index(x)] == Forward1(x)
           && t.FT2[Index(x)] == Forward2(x) && t.FT3[Index(x)] == Forward3(x)
      ensures t.RT0[Index(x)] == Inverse0(InvSBox(x)) && t.RT1[Index(x)] == Inverse1(InvSBox(x))
           && t.RT2[Index(x)] == Inverse2(InvSBox(x)) && t.RT3[Index(x)] == Inverse3(InvSBox(x))
    {
      assert t.RoundEntry(Index(x));
      ByteIndex(x);
      hide Index, Byte;
    }
  }

  /** k ^ a ^ b ^ c ^ d, as the round macros add. */
  function Sum5(k: bv32, a: bv32, b: bv32, c: bv32, d: bv32): bv32 {
    Xor32(Xor32(Xor32(Xor32(k, a), b), c), d)
  }

  lemma Sum5Regroup(k: bv32, a: bv32, b: bv32, c: bv32, d: bv32)
    ensures Sum5(k, a, b, c, d) == Xor32(Xor32(Xor32(a, b), Xor32(c, d)), k)
  {
    hide Xor32;
    Xor32Associates(k, a, b);
    Xor32Associates(Xor32(k, Xor32(a, b)), c, d);
    Xor32Associates(k, Xor32(a, b), Xor32(c, d));
    Xor32Commutes(k, Xor32(Xor32(a, b), Xor32(c, d)));
  }

  /** Four columns of a matrix, added. */
  lemma ColumnSum(a0: bv8, a1: bv8, a2: bv8, a3: bv8, b0: bv8, b1: bv8, b2: bv8, b3: bv8,
                  c0: bv8, c1: bv8, c2: bv8, c3: bv8, d0: bv8, d1: bv8, d2: bv8, d3: bv8)
    ensures Xor32(Xor32(Word(a0, a1, a2, a3), Word(b0, b1, b2, b3)), Xor32(Word(c0, c1, c2, c3), Word(d0, d1, d2, d3)))
         == Word(Xor(Xor(a0, b0), Xor(c0, d0)), Xor(Xor(a1, b1), Xor(c1, d1)),
                 Xor(Xor(a2, b2), Xor(c2, d2)), Xor(Xor(a3, b3), Xor(c3, d3)))
  {
    hide Xor, Xor32, Word;
    XorWords(a0, a1, a2, a3, b0, b1, b2, b3);
    XorWords(c0, c1, c2, c3, d0, d1, d2, d3);
    XorWords(Xor(a0, b0), Xor(a1, b1), Xor(a2, b2), Xor(a3, b3), Xor(c0, d0), Xor(c1, d1), Xor(c2, d2), Xor(c3, d3));
  }

  /** The forward tables mix a substituted column. */
  lemma ForwardColumn(k: bv32, p: bv8, q: bv8, r: bv8, s: bv8)
    ensures Sum5(k, Forward0(p), Forward1(q), Forward2(r), Forward3(s))
         == Xor32(MixColumn(Word(SBox(p), SBox(q), SBox(r), SBox(s))), k)
  {
    hide Xor, Xor32, Word, B0, B1, B2, B3, XTime, Triple, SBox, Sum5;
    var a, b, c, d := SBox(p), SBox(q), SBox(r), SBox(s);
    Sum5Regroup(k, Forward0(p), Forward1(q), Forward2(r), Forward3(s));
    WordBytes(a, b, c, d);
    ColumnSum(XTime(a), a, a, Triple(a), Triple(b), XTime(b), b, b, c, Triple(c), XTime(c), c, d, d, Triple(d), XTime(d));
    RowOrder(XTime(b), Triple(c), d, a);
    RowOrder(XTime(c), Triple(d), a, b);
    RowOrder(XTime(d), Triple(a), b, c);
  }

  /** The orders in which the rows come out of the sums. */
  lemma RowOrder(a: bv8, b: bv8, c: bv8, d: bv8)
    ensures Xor(Xor(d, a), Xor(b, c)) == Xor(Xor(a, b), Xor(c, d))
    ensures Xor(Xor(c, d), Xor(a, b)) == Xor(Xor(a, b), Xor(c, d))
    ensures Xor(Xor(b, c), Xor(d, a)) == Xor(Xor(a, b), Xor(c, d))
  {
    hide Xor;
    Rotate(a, b, c, d);
    Rotate(b, c, d, a);
    Rotate(c, d, a, b);
  }

  /** The reverse tables mix an inversely substituted column back. */
  lemma ReverseColumn(k: bv32, a: bv8, b: bv8, c: bv8, d: bv8)
    ensures Sum5(k, Inverse0(a), Inverse1(b), Inverse2(c), Inverse3(d)) == Xor32(InvMixColumn(Word(a, b, c, d)), k)
  {
    hide Xor, Xor32, Word, B0, B1, B2, B3, Mul, Sum5;
    Sum5Regroup(k, Inverse0(a), Inverse1(b), Inverse2(c), Inverse3(d));
    WordBytes(a, b, c, d);
    ColumnSum(Mul(0x0E, a), Mul(0x09, a), Mul(0x0D, a), Mul(0x0B, a), Mul(0x0B, b), Mul(0x0E, b), Mul(0x09, b), Mul(0x0D, b),
              Mul(0x0D, c), Mul(0x0B, c), Mul(0x0E, c), Mul(0x09, c), Mul(0x09, d), Mul(0x0D, d), Mul(0x0B, d), Mul(0x0E, d));
    RowOrder(Mul(0x0E, b), Mul(0x0B, c), Mul(0x0D, d), Mul(0x09, a));
    RowOrder(Mul(0x0E, c), Mul(0x0B, d), Mul(0x0D, a), Mul(0x09, b));
    RowOrder(Mul(0x0E, d), Mul(0x0B, a), Mul(0x0D, b), Mul(0x09, c));
  }

  // ----- the rounds -----

  /** One column of AES_FROUND. */
  method ForwardWord(t: Tables, k: bv32, y0: bv32, y1: bv32, y2: bv32, y3: bv32) returns (x: bv32)
    requires t.Ready()
    ensures x == Xor32(MixColumn(Word(SBox(B0(y0)), SBox(B1(y1)), SBox(B2(y2)), SBox(B3(y3)))), k)
  {
    RoundLookups(t);
    hide Xor32, MixColumn, Word, B0, B1, B2, B3, SBox, InvSBox, Index, Sum5;
    ForwardColumn(k, B0(y0), B1(y1), B2(y2), B3(y3));
    hide Forward0, Forward1, Forward2, Forward3;
    x := Sum5(k, t.FT0[Index(B0(y0))], t.FT1[Index(B1(y1))], t.FT2[Index(B2(y2))], t.FT3[Index(B3(y3))]);
  }

  /** One column of AES_RROUND. */
  method ReverseWord(t: Tables, k: bv32, y0: bv32, y1: bv32, y2: bv32, y3: bv32) returns (x: bv32)
    requires t.Ready()
    ensures x == Xor32(InvMixColumn(Word(InvSBox(B0(y0)), InvSBox(B1(y1)), InvSBox(B2(y2)), InvSBox(B3(y3)))), k)
  {
    RoundLookups(t);
    hide Xor32, InvMixColumn, Word, B0, B1, B2, B3, SBox, InvSBox, Index, Sum5;
    ReverseColumn(k, InvSBox(B0(y0)), InvSBox(B1(y1)), InvSBox(B2(y2)), InvSBox(B3(y3)));
    hide Inverse0, Inverse1, Inverse2, Inverse3;
    x := Sum5(k, t.RT0[Index(B0(y0))], t.RT1[Index(B1(y1))], t.RT2[Index(B2(y2))], t.RT3[Index(B3(y3))]);
  }

  /** AES_FROUND. */
  method ForwardRound(t: Tables, k: State, y: State) returns (x: State)
    requires t.Ready()
    ensures x == AddRoundKey(MixColumns(ShiftRows(SubBytes(y))), k)
  {
    hide Xor32, MixColumn, Word, B0, B1, B2, B3, SBox, ShiftRows, SubBytes;
    ShiftedColumns(y);
    var x0 := ForwardWord(t, k.w0, y.w0, y.w1, y.w2, y.w3);
    var x1 := ForwardWord(t, k.w1, y.w1, y.w2, y.w3, y.w0);
    var x2 := ForwardWord(t, k.w2, y.w2, y.w3, y.w0, y.w1);
    var x3 := ForwardWord(t, k.w3, y.w3, y.w0, y.w1, y.w2);
    x := State(x0, x1, x2, x3);
  }

  lemma SubWordBytes(w: bv32)
    ensures B0(SubWord(w)) == SBox(B0(w)) && B1(SubWord(w)) == SBox(B1(w))
    ensures B2(SubWord(w)) == SBox(B2(w)) && B3(SubWord(w)) == SBox(B3(w))
  {
    hide Word, B0, B1, B2, B3, SBox;
    WordBytes(SBox(B0(w)), SBox(B1(w)), SBox(B2(w)), SBox(B3(w)));
  }

  /** Substituted and shifted, column by column. */
  lemma ShiftedColumns(y: State)
    ensures ShiftRows(SubBytes(y)) == State(
              Word(SBox(B0(y.w0)), SBox(B1(y.w1)), SBox(B2(y.w2)), SBox(B3(y.w3))),
              Word(SBox(B0(y.w1)), SBox(B1(y.w2)), SBox(B2(y.w3)), SBox(B3(y.w0))),
              Word(SBox(B0(y.w2)), SBox(B1(y.w3)), SBox(B2(y.w0)), SBox(B3(y.w1))),
              Word(SBox(B0(y.w3)), SBox(B1(y.w0)), SBox(B2(y.w1)), SBox(B3(y.w2))))
  {
    hide Word, B0, B1, B2, B3, SBox, SubWord;
    SubWordBytes(y.w0);
    SubWordBytes(y.w1);
    SubWordBytes(y.w2);
    SubWordBytes(y.w3);
  }

  lemma InvShiftedColumns(y: State)
    ensures InvShiftRows(InvSubBytes(y)) == State(
              Word(InvSBox(B0(y.w0)), InvSBox(B1(y.w3)), InvSBox(B2(y.w2)), InvSBox(B3(y.w1))),
              Word(InvSBox(B0(y.w1)), InvSBox(B1(y.w0)), InvSBox(B2(y.w3)), InvSBox(B3(y.w2))),
              Word(InvSBox(B0(y.w2)), InvSBox(B1(y.w1)), InvSBox(B2(y.w0)), InvSBox(B3(y.w3))),
              Word(InvSBox(B0(y.w3)), InvSBox(B1(y.w2)), InvSBox(B2(y.w1)), InvSBox(B3(y.w0))))
  {
    hide Word, B0, B1, B2, B3, InvSBox, InvSubWord;
    InvSubBytesOf(y.w0);
    InvSubBytesOf(y.w1);
    InvSubBytesOf(y.w2);
    InvSubBytesOf(y.w3);
  }

  /** AES_RROUND. */
  method ReverseRound(t: Tables, k: State, y: State) returns (x: State)
    requires t.Ready()
    ensures x == AddRoundKey(InvMixColumns(InvShiftRows(InvSubBytes(y))), k)
  {
    hide Xor32, InvMixColumn, Word, B0, B1, B2, B3, InvSBox, InvShiftRows, InvSubBytes;
    InvShiftedColumns(y);
    var x0 := ReverseWord(t, k.w0, y.w0, y.w3, y.w2, y.w1);
    var x1 := ReverseWord(t, k.w1, y.w1, y.w0, y.w3, y.w2);
    var x2 := ReverseWord(t, k.w2, y.w2, y.w1, y.w0, y.w3);
    var x3 := ReverseWord(t, k.w3, y.w3, y.w2, y.w1, y.w0);
    x := State(x0, x1, x2, x3);
  }

  /** The last round of the cipher, without mixing. */
  method LastForward(t: Tables, k: State, y: State) returns (x: State)
    requires t.Ready()
    ensures x == AddRoundKey(ShiftRows(SubBytes(y)), k)
  {
    hide Xor32, Word, B0, B1, B2, B3, SBox, ShiftRows, SubBytes;
    ShiftedColumns(y);
    var x0 := SubbedColumn(t, k.w0, y.w0, y.w1, y.w2, y.w3);
    var x1 := SubbedColumn(t, k.w1, y.w1, y.w2, y.w3, y.w0);
    var x2 := SubbedColumn(t, k.w2, y.w2, y.w3, y.w0, y.w1);
    var x3 := SubbedColumn(t, k.w3, y.w3, y.w0, y.w1, y.w2);
    Xor32Commutes(Word(SBox(B0(y.w0)), SBox(B1(y.w1)), SBox(B2(y.w2)), SBox(B3(y.w3))), k.w0);
    Xor32Commutes(Word(SBox(B0(y.w1)), SBox(B1(y.w2)), SBox(B2(y.w3)), SBox(B3(y.w0))), k.w1);
    Xor32Commutes(Word(SBox(B0(y.w2)), SBox(B1(y.w3)), SBox(B2(y.w0)), SBox(B3(y.w1))), k.w2);
    Xor32Commutes(Word(SBox(B0(y.w3)), SBox(B1(y.w0)), SBox(B2(y.w1)), SBox(B3(y.w2))), k.w3);
    x := State(x0, x1, x2, x3);
  }

  method SubbedColumn(t: Tables, k: bv32, y0: bv32, y1: bv32, y2: bv32, y3: bv32) returns (x: bv32)
    requires t.Ready()
    ensures x == Xor32(k, Word(SBox(B0(y0)), SBox(B1(y1)), SBox(B2(y2)), SBox(B3(y3))))
  {
    Lookups(t);
    hide Xor32, Word, B0, B1, B2, B3, SBox, InvSBox, Index;
    x := Xor32(k, Word(t.FSb[Index(B0(y0))], t.FSb[Index(B1(y1))], t.FSb[Index(B2(y2))], t.FSb[Index(B3(y3))]));
  }

  /** The last round of decryption. */
  method LastReverse(t: Tables, k: State, y: State) returns (x: State)
    requires t.Ready()
    ensures x == AddRoundKey(InvShiftRows(InvSubBytes(y)), k)
  {
    hide Xor32, Word, B0, B1, B2, B3, InvSBox, InvShiftRows, InvSubBytes;
    InvShiftedColumns(y);
    var x0 := InvSubbedColumn(t, k.w0, y.w0, y.w3, y.w2, y.w1);
    var x1 := InvSubbedColumn(t, k.w1, y.w1, y.w0, y.w3, y.w2);
    var x2 := InvSubbedColumn(t, k.w2, y.w2, y.w1, y.w0, y.w3);
    var x3 := InvSubbedColumn(t, k.w3, y.w3, y.w2, y.w1, y.w0);
    Xor32Commutes(Word(InvSBox(B0(y.w0)), InvSBox(B1(y.w3)), InvSBox(B2(y.w2)), InvSBox(B3(y.w1))), k.w0);
    Xor32Commutes(Word(InvSBox(B0(y.w1)), InvSBox(B1(y.w0)), InvSBox(B2(y.w3)), InvSBox(B3(y.w2))), k.w1);
    Xor32Commutes(Word(InvSBox(B0(y.w2)), InvSBox(B1(y.w1)), InvSBox(B2(y.w0)), InvSBox(B3(y.w3))), k.w2);
    Xor32Commutes(Word(InvSBox(B0(y.w3)), InvSBox(B1(y.w2)), InvSBox(B2(y.w1)), InvSBox(B3(y.w0))), k.w3);
    x := State(x0, x1, x2, x3);
  }

  method InvSubbedColumn(t: Tables, k: bv32, y0: bv32, y1: bv32, y2: bv32, y3: bv32) returns (x: bv32)
    requires t.Ready()
    ensures x == Xor32(k, Word(InvSBox(B0(y0)), InvSBox(B1(y1)), InvSBox(B2(y2)), InvSBox(B3(y3))))
  {
    Lookups(t);
    hide Xor32, Word, B0, B1, B2, B3, SBox, InvSBox, Index;
    x := Xor32(k, Word(t.RSb[Index(B0(y0))], t.RSb[Index(B1(y1))], t.RSb[Index(B2(y2))], t.RSb[Index(B3(y3))]));
  }

  // ----- blocks -----

  method LoadBlock(input: array<bv8>) returns (s: State)
    requires input.Length == 16
    ensures s == Load(input[..])
  {
    s := State(GetUint32(input[..], 0), GetUint32(input[..], 4), GetUint32(input[..], 8), GetUint32(input[..], 12));
  }

  /** PUT_UINT32_LE. */
  method PutUint32(w: bv32, b: array<bv8>, i: nat)
    requires i + 4 <= b.Length
    modifies b
    ensures b[..] == old(b[..i]) + Put(w) + old(b[i + 4..])
  {
    b[i], b[i + 1], b[i + 2], b[i + 3] := B0(w), B1(w), B2(w), B3(w);
  }

  method StoreBlock(s: State, output: array<bv8>)
    requires output.Length == 16
    modifies output
    ensures output[..] == Store(s)
  {
    hide Put;
    PutUint32(s.w0, output, 0);
    PutUint32(s.w1, output, 4);
    PutUint32(s.w2, output, 8);
    PutUint32(s.w3, output, 12);
  }

  function RoundKeyAt(buf: array<bv32>, r: nat): State
    requires 4 * r + 4 <= buf.Length
    reads buf
  {
    State(buf[4 * r], buf[4 * r + 1], buf[4 * r + 2], buf[4 * r + 3])
  }

  lemma KeysAt(ctx: Context, r: nat)
    requires ctx.Valid() && r <= ctx.nr
    ensures RoundKeyAt(ctx.buf, r) == ctx.Keys()[r]
  {
  }

  lemma FirstRound(keys: seq<State>, s: State)
    requires |keys| >= 1
    ensures Rounds(keys, s, 0) == AddRoundKey(s, keys[0]) && InvRounds(keys, s, 0) == AddRoundKey(s, keys[0])
  {
    hide AddRoundKey, MixColumns, ShiftRows, SubBytes, InvMixColumns, InvShiftRows, InvSubBytes;
  }

  lemma NextRound(keys: seq<State>, s: State, r: nat)
    requires r + 1 < |keys|
    ensures Rounds(keys, s, r + 1) == AddRoundKey(MixColumns(ShiftRows(SubBytes(Rounds(keys, s, r)))), keys[r + 1])
    ensures InvRounds(keys, s, r + 1)
         == AddRoundKey(InvMixColumns(InvShiftRows(InvSubBytes(InvRounds(keys, s, r)))), keys[r + 1])
  {
    hide AddRoundKey, MixColumns, ShiftRows, SubBytes, InvMixColumns, InvShiftRows, InvSubBytes;
  }

  /** x is s after r rounds of encryption. */
  ghost predicate Enciphered(keys: seq<State>, s: State, r: nat, x: State) {
    r < |keys| && x == Rounds(keys, s, r)
  }

  method NextForward(t: Tables, ctx: Context, x: State, r: nat, ghost s: State) returns (y: State)
    requires t.Ready() && ctx.Valid() && r < ctx.nr && Enciphered(ctx.Keys(), s, r, x)
    ensures Enciphered(ctx.Keys(), s, r + 1, y)
  {
    hide Enciphered, AddRoundKey, MixColumns, ShiftRows, SubBytes, StatesOf, RoundKeyAt, t.Ready, ctx.Keys;
    KeysAt(ctx, r + 1);
    y := ForwardRound(t, RoundKeyAt(ctx.buf, r + 1), x);
    EncipheredNext(ctx.Keys(), s, r, x, y);
  }

  lemma EncipheredNext(keys: seq<State>, s: State, r: nat, x: State, y: State)
    requires r + 1 < |keys| && Enciphered(keys, s, r, x)
    requires y == AddRoundKey(MixColumns(ShiftRows(SubBytes(x))), keys[r + 1])
    ensures Enciphered(keys, s, r + 1, y)
  {
    hide AddRoundKey, MixColumns, ShiftRows, SubBytes;
    NextRound(keys, s, r);
  }

  method FirstEncrypt(ctx: Context, s: State) returns (x: State)
    requires ctx.Valid()
    ensures Enciphered(ctx.Keys(), s, 0, x)
  {
    hide Rounds, AddRoundKey, MixColumns, ShiftRows, SubBytes, StatesOf, RoundKeyAt, ctx.Keys;
    KeysAt(ctx, 0);
    FirstRound(ctx.Keys(), s);
    x := AddRoundKey(s, RoundKeyAt(ctx.buf, 0));
  }

  method LastEncrypt(t: Tables, ctx: Context, x: State, ghost s: State) returns (y: State)
    requires t.Ready() && ctx.Valid() && Enciphered(ctx.Keys(), s, ctx.nr - 1, x)
    ensures y == Cipher(ctx.Keys(), s)
  {
    hide Rounds, AddRoundKey, MixColumns, ShiftRows, SubBytes, StatesOf, RoundKeyAt, t.Ready, ctx.Keys;
    KeysAt(ctx, ctx.nr);
    y := LastForward(t, RoundKeyAt(ctx.buf, ctx.nr), x);
  }

  /** The rounds of mbedtls_aes_encrypt, two per turn of the loop. */
  method EncryptState(t: Tables, ctx: Context, s: State) returns (x: State)
    requires t.Ready() && ctx.Valid()
    ensures x == Cipher(ctx.Keys(), s)
  {
    hide Enciphered, Cipher, t.Ready, ctx.Keys;
    x := FirstEncrypt(ctx, s);
    var r := 0;
    var i := ctx.nr / 2 - 1;
    while i > 0
      invariant 0 <= i && r == ctx.nr - 2 - 2 * i && Enciphered(ctx.Keys(), s, r, x)
    {
      var y := NextForward(t, ctx, x, r, s);
      x := NextForward(t, ctx, y, r + 1, s);
      r := r + 2;
      i := i - 1;
    }
    var y := NextForward(t, ctx, x, r, s);
    x := LastEncrypt(t, ctx, y, s);
  }

  /** mbedtls_aes_encrypt. Output may be the input. */
  method Encrypt(t: Tables, ctx: Context, input: array<bv8>, output: array<bv8>)
    requires t.Ready() && ctx.Valid() && input.Length == 16 && output.Length == 16
    modifies output
    ensures output[..] == Store(Cipher(ctx.Keys(), Load(old(input[..]))))
  {
    hide Cipher, Load, Store, t.Ready, ctx.Keys;
    var x := LoadBlock(input);
    x := EncryptState(t, ctx, x);
    StoreBlock(x, output);
  }

  /** x is s after r rounds of decryption. */
  ghost predicate Deciphered(keys: seq<State>, s: State, r: nat, x: State) {
    r < |keys| && x == InvRounds(keys, s, r)
  }

  method NextReverse(t: Tables, ctx: Context, x: State, r: nat, ghost s: State) returns (y: State)
    requires t.Ready() && ctx.Valid() && r < ctx.nr && Deciphered(ctx.Keys(), s, r, x)
    ensures Deciphered(ctx.Keys(), s, r + 1, y)
  {
    hide Deciphered, AddRoundKey, InvMixColumns, InvShiftRows, InvSubBytes, StatesOf, RoundKeyAt, t.Ready, ctx.Keys;
    KeysAt(ctx, r + 1);
    y := ReverseRound(t, RoundKeyAt(ctx.buf, r + 1), x);
    DecipheredNext(ctx.Keys(), s, r, x, y);
  }

  lemma DecipheredNext(keys: seq<State>, s: State, r: nat, x: State, y: State)
    requires r + 1 < |keys| && Deciphered(keys, s, r, x)
    requires y == AddRoundKey(InvMixColumns(InvShiftRows(InvSubBytes(x))), keys[r + 1])
    ensures Deciphered(keys, s, r + 1, y)
  {
    hide AddRoundKey, InvMixColumns, InvShiftRows, InvSubBytes;
    NextRound(keys, s, r);
  }

  method FirstDecrypt(ctx: Context, s: State) returns (x: State)
    requires ctx.Valid()
    ensures Deciphered(ctx.Keys(), s, 0, x)
  {
    hide InvRounds, AddRoundKey, InvMixColumns, InvShiftRows, InvSubBytes, StatesOf, RoundKeyAt, ctx.Keys;
    KeysAt(ctx, 0);
    FirstRound(ctx.Keys(), s);
    x := AddRoundKey(s, RoundKeyAt(ctx.buf, 0));
  }

  method LastDecrypt(t: Tables, ctx: Context, x: State, ghost s: State) returns (y: State)
    requires t.Ready() && ctx.Valid() && Deciphered(ctx.Keys(), s, ctx.nr - 1, x)
    ensures y == EqInvCipher(ctx.Keys(), s)
  {
    hide InvRounds, AddRoundKey, InvMixColumns, InvShiftRows, InvSubBytes, StatesOf, RoundKeyAt, t.Ready, ctx.Keys;
    KeysAt(ctx, ctx.nr);
    y := LastReverse(t, RoundKeyAt(ctx.buf, ctx.nr), x);
  }

  /** The rounds of mbedtls_aes_decrypt, two per turn of the loop. */
  method DecryptState(t: Tables, ctx: Context, s: State) returns (x: State)
    requires t.Ready() && ctx.Valid()
    ensures x == EqInvCipher(ctx.Keys(), s)
  {
    hide Deciphered, EqInvCipher, t.Ready, ctx.Keys;
    x := FirstDecrypt(ctx, s);
    var r := 0;
    var i := ctx.nr / 2 - 1;
    while i > 0
      invariant 0 <= i && r == ctx.nr - 2 - 2 * i && Deciphered(ctx.Keys(), s, r, x)
    {
      var y := NextReverse(t, ctx, x, r, s);
      x := NextReverse(t, ctx, y, r + 1, s);
      r := r + 2;
      i := i - 1;
    }
    var y := NextReverse(t, ctx, x, r, s);
    x := LastDecrypt(t, ctx, y, s);
  }

  /** mbedtls_aes_decrypt. Output may be the input. */
  method Decrypt(t: Tables, ctx: Context, input: array<bv8>, output: array<bv8>)
    requires t.Ready() && ctx.Valid() && input.Length == 16 && output.Length == 16
    modifies output
    ensures output[..] == Store(EqInvCipher(ctx.Keys(), Load(old(input[..]))))
  {
    hide EqInvCipher, Load, Store, t.Ready, ctx.Keys;
    var x := LoadBlock(input);
    x := DecryptState(t, ctx, x);
    StoreBlock(x, output);
  }

  // ----- the decryption schedule -----

  lemma LookupAt(t: Tables, x: bv8)
    requires t.Ready()
    ensures t.FSb[Index(x)] == SBox(x)
    ensures t.RT0[Index(x)] == Inverse0(InvSBox(x)) && t.RT1[Index(x)] == Inverse1(InvSBox(x))
    ensures t.RT2[Index(x)] == Inverse2(InvSBox(x)) && t.RT3[Index(x)] == Inverse3(InvSBox(x))
  {
    hide SBox, InvSBox, Inverse0, Inverse1, Inverse2, Inverse3;
    assert t.SboxEntry(Index(x)) && t.RoundEntry(Index(x));
    ByteIndex(x);
  }

  /** RT0[FSb[..]] ^ RT1[FSb[..]] ^ RT2[FSb[..]] ^ RT3[FSb[..]]: the inverse mixing of a key word. */
  method InvertedWord(t: Tables, w: bv32) returns (r: bv32)
    requires t.Ready()
    ensures r == InvMixColumn(w)
  {
    hide Xor32, InvMixColumn, Word, B0, B1, B2, B3, SBox, InvSBox, Index, Sum5, Inverse0, Inverse1, Inverse2, Inverse3;
    var a, b, c, d := B0(w), B1(w), B2(w), B3(w);
    LookupAt(t, a);
    LookupAt(t, b);
    LookupAt(t, c);
    LookupAt(t, d);
    LookupAt(t, SBox(a));
    LookupAt(t, SBox(b));
    LookupAt(t, SBox(c));
    LookupAt(t, SBox(d));
    InvSBoxUndoes(a);
    InvSBoxUndoes(b);
    InvSBoxUndoes(c);
    InvSBoxUndoes(d);
    assert t.Sized();
    hide t.Ready;
    ReverseColumn(0, a, b, c, d);
    BytesWord(w);
    SumOfFour(Inverse0(a), Inverse1(b), Inverse2(c), Inverse3(d), InvMixColumn(w));
    r := Xor32(Xor32(Xor32(t.RT0[Index(t.FSb[Index(a)])], t.RT1[Index(t.FSb[Index(b)])]),
                     t.RT2[Index(t.FSb[Index(c)])]), t.RT3[Index(t.FSb[Index(d)])]);
  }

  /** Adding to nothing. */
  lemma SumOfFour(a: bv32, b: bv32, c: bv32, d: bv32, r: bv32)
    requires Sum5(0, a, b, c, d) == Xor32(r, 0)
    ensures Xor32(Xor32(Xor32(a, b), c), d) == r
  {
    hide Xor32;
    Xor32Zero(a);
    Xor32Zero(r);
  }

  /** A round key copied as it is. */
  method CopyRoundKey(src: array<bv32>, from: nat, dst: array<bv32>, to: nat)
    requires src != dst && 4 * from + 4 <= src.Length && 4 * to + 4 <= dst.Length
    modifies dst
    ensures RoundKeyAt(dst, to) == RoundKeyAt(src, from)
    ensures forall k :: 0 <= k && k != to && 4 * k + 4 <= dst.Length ==> RoundKeyAt(dst, k) == old(RoundKeyAt(dst, k))
  {
    var j := 0;
    while j < 4
      invariant 0 <= j <= 4
      invariant forall k :: 4 * to <= k < 4 * to + j ==> dst[k] == src[k - 4 * to + 4 * from]
      invariant forall k :: 0 <= k < dst.Length && !(4 * to <= k < 4 * to + 4) ==> dst[k] == old(dst[k])
    {
      dst[4 * to + j] := src[4 * from + j];
      j := j + 1;
    }
  }

  /** A round key through the inverse mixing. */
  method InvertRoundKey(t: Tables, src: array<bv32>, from: nat, dst: array<bv32>, to: nat)
    requires t.Ready() && src != dst && dst !in t.Words && 4 * from + 4 <= src.Length && 4 * to + 4 <= dst.Length
    modifies dst
    ensures RoundKeyAt(dst, to) == InvMixColumns(RoundKeyAt(src, from))
    ensures forall k :: 0 <= k && k != to && 4 * k + 4 <= dst.Length ==> RoundKeyAt(dst, k) == old(RoundKeyAt(dst, k))
  {
    hide InvMixColumn;
    var j := 0;
    while j < 4
      invariant 0 <= j <= 4 && t.Ready()
      invariant forall k :: 4 * to <= k < 4 * to + j ==> dst[k] == InvMixColumn(src[k - 4 * to + 4 * from])
      invariant forall k :: 0 <= k < dst.Length && !(4 * to <= k < 4 * to + 4) ==> dst[k] == old(dst[k])
    {
      dst[4 * to + j] := InvertedWord(t, src[4 * from + j]);
      j := j + 1;
    }
  }

  /** The blocks done so far: the last round key, then earlier ones through the inverse mixing. */
  ghost predicate Inverted(src: array<bv32>, dst: array<bv32>, nr: nat, n: nat)
    requires 4 * nr + 4 <= src.Length && 4 * nr + 4 <= dst.Length && n <= nr
    reads src, dst
  {
    (n > 0 ==> RoundKeyAt(dst, 0) == RoundKeyAt(src, nr))
    && forall k :: 1 <= k < n ==> RoundKeyAt(dst, k) == InvMixColumns(RoundKeyAt(src, nr - k))
  }

  /** The loops of mbedtls_aes_setkey_dec. */
  method InvertSchedule(t: Tables, cty: Context, ctx: Context)
    requires t.Ready() && cty.Valid() && ctx.Valid() && ctx.nr == cty.nr && cty.buf != ctx.buf && ctx.buf !in t.Words
    modifies ctx.buf
    ensures InverseKeys(cty.Keys(), ctx.Keys())
  {
    hide RoundKeyAt, InvMixColumns, t.Ready, StatesOf, ctx.Keys, cty.Keys;
    var nr := ctx.nr;
    CopyRoundKey(cty.buf, nr, ctx.buf, 0);
    var i := nr - 1;
    while i > 0
      invariant 0 <= i < nr && t.Ready() && Inverted(cty.buf, ctx.buf, nr, nr - i)
    {
      InvertRoundKey(t, cty.buf, i, ctx.buf, nr - i);
      i := i - 1;
    }
    CopyRoundKey(cty.buf, 0, ctx.buf, nr);
    InvertedKeys(cty, ctx);
  }

  lemma InvertedKeys(cty: Context, ctx: Context)
    requires cty.Valid() && ctx.Valid() && ctx.nr == cty.nr && Inverted(cty.buf, ctx.buf, ctx.nr, ctx.nr)
    requires RoundKeyAt(ctx.buf, ctx.nr) == RoundKeyAt(cty.buf, 0)
    ensures InverseKeys(cty.Keys(), ctx.Keys())
  {
    hide RoundKeyAt, InvMixColumns, StatesOf, ctx.Keys, cty.Keys;
    var nr := ctx.nr;
    KeysAt(ctx, 0);
    KeysAt(cty, nr);
    KeysAt(ctx, nr);
    KeysAt(cty, 0);
    forall k | 0 < k < nr
      ensures ctx.Keys()[k] == InvMixColumns(cty.Keys()[nr - k])
    {
      KeysAt(ctx, k);
      KeysAt(cty, nr - k);
    }
  }

  /** mbedtls_aes_setkey_dec. */
  method SetkeyDec(lib: Library, ctx: Context, key: seq<bv8>, keybits: nat) returns (ret: int)
    requires lib.Valid() && ctx.buf.Length == 68 && ctx.buf !in lib.tables.Words
    requires keybits in {128, 192, 256} ==> |key| == keybits / 8
    modifies lib`initDone, lib.tables.Bytes, lib.tables.Words, ctx`nr, ctx.buf
    ensures lib.Valid()
    ensures ret == if keybits in {128, 192, 256} then 0 else MBEDTLS_ERR_AES_INVALID_KEY_LENGTH
    ensures ret == 0 ==> lib.initDone && ctx.Valid() && InverseKeys(RoundKeys(key, keybits / 32), ctx.Keys())
  {
    hide KeyWord, StatesOf, RoundKeys, InverseKeys, lib.tables.Ready;
    var cty := new Context();
    ret := SetkeyEnc(lib, cty, key, keybits);
    if ret != 0 {
      return;
    }
    ctx.nr := cty.nr;
    InvertSchedule(lib.tables, cty, ctx);
  }

  // ----- the whole cipher -----

  /** Decrypting with the inverted schedule what was encrypted gives the block back. */
  lemma BlockRoundTrip(keys: seq<State>, inv: seq<State>, block: seq<bv8>)
    requires |block| == 16 && InverseKeys(keys, inv)
    ensures Store(EqInvCipher(inv, Load(Store(Cipher(keys, Load(block)))))) == block
  {
    assert |keys| == |inv| >= 2;
    hide Cipher, EqInvCipher, InverseKeys, Load, Store;
    LoadStore(Cipher(keys, Load(block)));
    DecryptEncrypt(keys, inv, Load(block));
    StoreLoad(block);
  }

  /** mbedtls_aes_setkey_enc and mbedtls_aes_encrypt, then mbedtls_aes_setkey_dec and mbedtls_aes_decrypt: every block
      comes back under every key of the three lengths. */
  method EncryptThenDecrypt(lib: Library, key: seq<bv8>, keybits: nat, block: array<bv8>)
    requires lib.Valid() && keybits in {128, 192, 256} && |key| == keybits / 8
    requires block.Length == 16 && block !in lib.tables.Bytes
    modifies lib`initDone, lib.tables.Bytes, lib.tables.Words, block
    ensures block[..] == old(block[..])
  {
    hide RoundKeys, Cipher, EqInvCipher, InverseKeys, Load, Store, lib.tables.Ready;
    ghost var plain := block[..];
    var enc := new Context();
    var dec := new Context();
    var ret := SetkeyEnc(lib, enc, key, keybits);
    ghost var keys := enc.Keys();
    ret := SetkeyDec(lib, dec, key, keybits);
    ghost var inv := dec.Keys();
    Encrypt(lib.tables, enc, block, block);
    Decrypt(lib.tables, dec, block, block);
    BlockRoundTrip(keys, inv, plain);
  }
}
