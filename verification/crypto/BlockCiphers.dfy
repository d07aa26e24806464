/** AES and Blowfish contexts as block ciphers. */
module BlockCiphers {
  import opened Bits
  import opened AesCipher
  import opened AesTables
  import opened BlockModes
  import Aes
  import Blowfish

  // ----- the two ciphers as block ciphers -----

  /** GET_UINT32_BE. */
  function GetBigEndian(b: seq<bv8>, i: nat): bv32
    requires i + 4 <= |b|
  {
    Word(b[i + 3], b[i + 2], b[i + 1], b[i])
  }

  /** PUT_UINT32_BE. */
  function PutBigEndian(w: bv32): (b: seq<bv8>)
    ensures |b| == 4
  {
    [B3(w), B2(w), B1(w), B0(w)]
  }

  function LoadHalves(b: bytes): Blowfish.Halves
    requires |b| == 8
  {
    Blowfish.Halves(GetBigEndian(b, 0), GetBigEndian(b, 4))
  }

  function StoreHalves(x: Blowfish.Halves): (b: bytes)
    ensures |b| == 8
  {
    PutBigEndian(x.l) + PutBigEndian(x.r)
  }

  lemma HalvesBack(x: Blowfish.Halves, b: bytes)
    requires |b| == 8
    ensures LoadHalves(StoreHalves(x)) == x && StoreHalves(LoadHalves(b)) == b
  {
    hide Word, B0, B1, B2, B3;
    BytesWord(x.l);
    BytesWord(x.r);
    WordBytes(b[3], b[2], b[1], b[0]);
    WordBytes(b[7], b[6], b[5], b[4]);
  }

  ghost function AesBlock(keys: seq<State>): bytes -> bytes
    requires |keys| >= 2
  {
    (b: bytes) => if |b| == 16 then Aes.Store(Cipher(keys, Aes.Load(b))) else b
  }

  ghost function AesInvBlock(keys: seq<State>): bytes -> bytes
    requires |keys| >= 2
  {
    (b: bytes) => if |b| == 16 then Aes.Store(EqInvCipher(keys, Aes.Load(b))) else b
  }

  ghost function BlowfishBlock(s: Blowfish.Schedule): bytes -> bytes
    requires s.Sized()
  {
    (b: bytes) => if |b| == 8 then StoreHalves(Blowfish.Enciphered(s, LoadHalves(b))) else b
  }

  ghost function BlowfishInvBlock(s: Blowfish.Schedule): bytes -> bytes
    requires s.Sized()
  {
    (b: bytes) => if |b| == 8 then StoreHalves(Blowfish.Deciphered(s, LoadHalves(b))) else b
  }

  /** With the two AES schedules of one key, the block functions are inverse. */
  lemma AesInverts(keys: seq<State>, inv: seq<State>)
    requires InverseKeys(keys, inv)
    ensures Inverts(AesBlock(keys), AesInvBlock(inv), 16)
  {
    hide Cipher, EqInvCipher, Aes.Load, Aes.Store;
    forall b: bytes | |b| == 16
      ensures AesInvBlock(inv)(AesBlock(keys)(b)) == b
    {
      Aes.BlockRoundTrip(keys, inv, b);
    }
  }

  lemma BlowfishInverts(s: Blowfish.Schedule)
    requires s.Sized()
    ensures Inverts(BlowfishBlock(s), BlowfishInvBlock(s), 8)
  {
    hide Blowfish.Enciphered, Blowfish.Deciphered, LoadHalves, StoreHalves;
    forall b: bytes | |b| == 8
      ensures BlowfishInvBlock(s)(BlowfishBlock(s)(b)) == b
    {
      var x := LoadHalves(b);
      HalvesBack(Blowfish.Enciphered(s, x), b);
      Blowfish.DecipherEncipher(s, x);
    }
  }

  // ----- contexts -----

  /** A context, with the generated tables that AES reads. */
  datatype BlockCipher = AesContext(t: Tables, aes: Aes.Context) | BlowfishContext(blowfish: Blowfish.Context)

  function BlockSize(cipher: BlockCipher): (n: nat)
    ensures n == 8 || n == 16
  {
    if cipher.AesContext? then 16 else 8
  }

  /** What a context reads. */
  ghost function Region(cipher: BlockCipher): set<object> {
    match cipher
    case AesContext(t, ctx) => {ctx, ctx.buf} + t.Bytes + t.Words
    case BlowfishContext(ctx) => {ctx.P, ctx.S0, ctx.S1, ctx.S2, ctx.S3}
  }

  /** The context's block function in one direction is f. */
  ghost predicate Runs(cipher: BlockCipher, encrypt: bool, f: bytes -> bytes)
    reads Region(cipher)
  {
    match cipher
    case AesContext(t, ctx) =>
      t.Sized() && t.Ready() && ctx.Valid() && f == (if encrypt then AesBlock(ctx.Keys()) else AesInvBlock(ctx.Keys()))
    case BlowfishContext(ctx) =>
      ctx.Sized() && f == if encrypt then BlowfishBlock(ctx.Contents()) else BlowfishInvBlock(ctx.Contents())
  }

  lemma RunsKeeps(cipher: BlockCipher, encrypt: bool, f: bytes -> bytes)
    requires Runs(cipher, encrypt, f)
    ensures Keeps(f, BlockSize(cipher))
  {
    hide Cipher, EqInvCipher, Aes.Load, Blowfish.Enciphered, Blowfish.Deciphered, LoadHalves;
  }

  /** mbedtls_aes_crypt_ecb and mbedtls_blowfish_crypt_ecb, on the bytes of a block. */
  method CryptEcb(cipher: BlockCipher, encrypt: bool, b: bytes, ghost f: bytes -> bytes) returns (r: bytes)
    requires Runs(cipher, encrypt, f) && |b| == BlockSize(cipher)
    ensures r == f(b) && |r| == |b|
  {
    match cipher {
      case AesContext(t, ctx) =>
        hide Cipher, EqInvCipher, Aes.Load, Aes.Store;
        var x := Aes.Load(b);
        if encrypt {
          x := Aes.EncryptState(t, ctx, x);
        } else {
          x := Aes.DecryptState(t, ctx, x);
        }
        r := Aes.Store(x);
      case BlowfishContext(ctx) =>
        hide Blowfish.Enciphered, Blowfish.Deciphered, LoadHalves, StoreHalves;
        var x := LoadHalves(b);
        if encrypt {
          x := ctx.Enc(x);
        } else {
          x := ctx.Dec(x);
        }
        r := StoreHalves(x);
    }
  }
}
