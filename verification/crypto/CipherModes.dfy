/** The streaming modes of aes.c and blowfish.c, in place on buffers. */
module CipherModes {
  import opened Arith
  import opened Bits
  import opened BlockModes
  import opened BlockCiphers

  const MBEDTLS_ERR_AES_INVALID_INPUT_LENGTH: int := -0x0022
  const MBEDTLS_ERR_BLOWFISH_INVALID_INPUT_LENGTH: int := -0x0018

  // ----- buffers -----

  /** memcpy into a window. */
  method CopyInto(src: bytes, dst: array<bv8>, o: nat)
    requires o + |src| <= dst.Length
    modifies dst
    ensures dst[o..o + |src|] == src
    ensures forall k :: 0 <= k < dst.Length && !(o <= k < o + |src|) ==> dst[k] == old(dst[k])
  {
    var i := 0;
    while i < |src|
      invariant 0 <= i <= |src| && forall k :: 0 <= k < i ==> dst[o + k] == src[k]
      invariant forall k :: 0 <= k < dst.Length && !(o <= k < o + i) ==> dst[k] == old(dst[k])
    {
      dst[o + i] := src[i];
      i := i + 1;
    }
  }

  /** memcpy of a whole block. */
  method CopyAll(src: bytes, dst: array<bv8>)
    requires |src| == dst.Length
    modifies dst
    ensures dst[..] == src
  {
    CopyInto(src, dst, 0);
  }

  /** What the mode methods demand of their buffers; input and output may be one array. */
  ghost predicate Buffers(cipher: BlockCipher, iv: array<bv8>, input: array<bv8>, output: array<bv8>, length: nat) {
    iv.Length == BlockSize(cipher) && length <= input.Length && length <= output.Length
    && iv != input && iv != output && iv !in Region(cipher) && output !in Region(cipher)
  }

  /** One byte. */
  method StoreAt(dst: array<bv8>, i: nat, x: bv8)
    requires i < dst.Length
    modifies dst
    ensures dst[i] == x && dst[..i + 1] == old(dst[..i]) + [x]
    ensures forall k :: 0 <= k < dst.Length && k != i ==> dst[k] == old(dst[k])
  {
    dst[i] := x;
  }

  /** The shift of a vector by one byte. */
  lemma Appended(v: bytes, c: bv8)
    requires v != []
    ensures (v + [c])[1..] == v[1..] + [c]
  {
  }

  lemma NothingYet(output: array<bv8>)
    ensures output[..0] == []
  {
  }

  /** A block in place. */
  method EcbInPlace(cipher: BlockCipher, encrypt: bool, block: array<bv8>, ghost f: bytes -> bytes)
    requires Runs(cipher, encrypt, f) && block.Length == BlockSize(cipher) && block !in Region(cipher)
    modifies block
    ensures block[..] == f(old(block[..])) && Runs(cipher, encrypt, f)
  {
    hide Runs;
    var r := CryptEcb(cipher, encrypt, block[..], f);
    CopyAll(r, block);
  }

  // ----- CFB -----

  /** One turn of the loop of CryptCfb. */
  method CfbStep(cipher: BlockCipher, size: nat, encrypt: bool, iv: array<bv8>, n: nat, input: array<bv8>, output: array<bv8>,
                 i: nat, ghost f: bytes -> bytes) returns (next: nat)
    requires size == BlockSize(cipher) && iv.Length == size && i < input.Length && i < output.Length
    requires Runs(cipher, true, f) && Keeps(f, size) && Buffers(cipher, iv, input, output, i + 1)
    requires n < size
    modifies iv, output
    ensures Runs(cipher, true, f) && next < size
    ensures forall k :: i < k < output.Length ==> output[k] == old(output[k])
    ensures output[..i + 1] == old(output[..i]) + [output[i]]
    ensures CfbTurn(f, size, encrypt, Feedback(old(iv[..]), n), old(input[i]), Feedback(iv[..], next), output[i])
  {
    hide Runs, Xor;
    if n == 0 {
      EcbInPlace(cipher, true, iv, f);
    }
    var c := input[i];
    StoreAt(output, i, Xor(iv[n], c));
    iv[n] := if encrypt then output[i] else c;
    next := (n + 1) % size;
  }

  /** mbedtls_aes_crypt_cfb128 and mbedtls_blowfish_crypt_cfb64: the offset goes in and comes out. */
  method CryptCfb(cipher: BlockCipher, encrypt: bool, length: nat, ivOff: nat, iv: array<bv8>,
                  input: array<bv8>, output: array<bv8>, ghost f: bytes -> bytes) returns (n: nat)
    requires Runs(cipher, true, f) && Buffers(cipher, iv, input, output, length)
    requires ivOff < BlockSize(cipher)
    modifies iv, output
    ensures Keeps(f, BlockSize(cipher))
    ensures n < BlockSize(cipher)
    ensures forall k :: length <= k < output.Length ==> output[k] == old(output[k])
    ensures Cfb(f, BlockSize(cipher), encrypt, Feedback(old(iv[..]), ivOff), old(input[..length]))
         == Streamed(Feedback(iv[..], n), output[..length])
  {
    hide Runs, Region, BlockSize, CfbDone, Cfb, CfbTurn, Keeps;
    RunsKeeps(cipher, true, f);
    ghost var text, s := input[..length], Feedback(iv[..], ivOff);
    var size := BlockSize(cipher);
    n := ivOff;
    var i := 0;
    CfbBegins(f, size, encrypt, s, text);
    NothingYet(output);
    while i < length
      invariant 0 <= i <= length && n < size && Runs(cipher, true, f)
      invariant forall k :: i <= k < length ==> input[k] == text[k]
      invariant forall k :: length <= k < output.Length ==> output[k] == old(output[k])
      invariant CfbDone(f, size, encrypt, s, text, i, Feedback(iv[..], n), output[..i])
    {
      ghost var now, out := Feedback(iv[..], n), output[..i];
      n := CfbStep(cipher, size, encrypt, iv, n, input, output, i, f);
      CfbNext(f, size, encrypt, s, text, i, now, out, Feedback(iv[..], n), output[i]);
      i := i + 1;
    }
    CfbEnds(f, size, encrypt, s, text, Feedback(iv[..], n), output[..length]);
  }

  // ----- CFB8 -----

  /** One turn of the loop of CryptCfb8: ov holds the old vector and the ciphertext byte. */
  method Cfb8Step(cipher: BlockCipher, size: nat, encrypt: bool, iv: array<bv8>, input: array<bv8>, output: array<bv8>,
                  i: nat, ghost f: bytes -> bytes)
    requires size == BlockSize(cipher) && iv.Length == size && i < input.Length && i < output.Length
    requires Runs(cipher, true, f) && Keeps(f, size) && Buffers(cipher, iv, input, output, i + 1)
    modifies iv, output
    ensures Runs(cipher, true, f)
    ensures forall k :: i < k < output.Length ==> output[k] == old(output[k])
    ensures output[..i + 1] == old(output[..i]) + [output[i]]
    ensures Cfb8Turn(f, size, encrypt, old(iv[..]), old(input[i]), iv[..], output[i])
  {
    hide Runs, Xor;
    var ov := iv[..];
    EcbInPlace(cipher, true, iv, f);
    var c := input[i];
    StoreAt(output, i, Xor(iv[0], c));
    Appended(ov, if encrypt then output[i] else c);
    ov := ov + [if encrypt then output[i] else c];
    CopyAll(ov[1..], iv);
  }

  /** mbedtls_aes_crypt_cfb8. */
  method CryptCfb8(cipher: BlockCipher, encrypt: bool, length: nat, iv: array<bv8>,
                   input: array<bv8>, output: array<bv8>, ghost f: bytes -> bytes)
    requires cipher.AesContext?
    requires Runs(cipher, true, f) && Buffers(cipher, iv, input, output, length)
    modifies iv, output
    ensures Keeps(f, BlockSize(cipher))
    ensures forall k :: length <= k < output.Length ==> output[k] == old(output[k])
    ensures Cfb8(f, BlockSize(cipher), encrypt, old(iv[..]), old(input[..length])) == Streamed(iv[..], output[..length])
  {
    hide Runs, Region, BlockSize, Cfb8Done, Cfb8, Cfb8Turn, Keeps;
    RunsKeeps(cipher, true, f);
    ghost var text, iv0 := input[..length], iv[..];
    var size := BlockSize(cipher);
    var i := 0;
    Cfb8Begins(f, size, encrypt, iv0, text);
    NothingYet(output);
    while i < length
      invariant 0 <= i <= length && Runs(cipher, true, f)
      invariant forall k :: i <= k < length ==> input[k] == text[k]
      invariant forall k :: length <= k < output.Length ==> output[k] == old(output[k])
      invariant Cfb8Done(f, size, encrypt, iv0, text, i, iv[..], output[..i])
    {
      ghost var now, out := iv[..], output[..i];
      Cfb8Step(cipher, size, encrypt, iv, input, output, i, f);
      Cfb8Next(f, size, encrypt, iv0, text, i, now, out, iv[..], output[i]);
      i := i + 1;
    }
    Cfb8Ends(f, size, encrypt, iv0, text, iv[..], output[..length]);
  }

  // ----- CTR -----

  /** The loop that adds one to the counter, from its last byte on while bytes wrap to zero. */
  method IncrementCounter(counter: array<bv8>)
    modifies counter
    ensures counter[..] == Increment(old(counter[..]))
  {
    hide Increment;
    ghost var start := counter[..];
    var i := counter.Length;
    IncrementEnds(start, i);
    while i > 0
      invariant 0 <= i <= counter.Length && forall k :: 0 <= k < i ==> counter[k] == start[k]
      invariant Increment(start) == Increment(start[..i]) + counter[i..]
    {
      IncrementByte(start, i);
      ghost var tail := counter[i..];
      if counter[i - 1] == 0xFF {
        counter[i - 1] := 0;
        assert counter[i - 1..] == [0] + tail;
        i := i - 1;
      } else {
        counter[i - 1] := counter[i - 1] + 1;
        assert counter[..] == start[..i - 1] + [counter[i - 1]] + tail;
        return;
      }
    }
    IncrementEnds(start, 0);
    assert counter[i..] == counter[..];
  }

  lemma IncrementEnds(c: bytes, n: nat)
    ensures n == |c| ==> Increment(c) == Increment(c[..n]) + c[n..]
    ensures Increment(c[..0]) == []
  {
    if n == |c| {
      assert c[..n] == c && c[n..] == [];
    }
  }

  /** What the loop does to byte i - 1. */
  lemma IncrementByte(c: bytes, i: nat)
    requires 0 < i <= |c|
    ensures c[i - 1] == 0xFF ==> Increment(c[..i]) == Increment(c[..i - 1]) + [0]
    ensures c[i - 1] != 0xFF ==> Increment(c[..i]) == c[..i - 1] + [c[i - 1] + 1]
  {
    assert c[..i][..i - 1] == c[..i - 1];
  }

  /** One turn of the loop of CryptCtr. */
  method CtrStep(cipher: BlockCipher, size: nat, counter: array<bv8>, stream: array<bv8>, n: nat,
                 input: array<bv8>, output: array<bv8>, i: nat, ghost f: bytes -> bytes) returns (next: nat)
    requires size == BlockSize(cipher) && counter.Length == size == stream.Length
    requires i < input.Length && i < output.Length
    requires Runs(cipher, true, f) && Keeps(f, size) && Buffers(cipher, counter, input, output, i + 1)
    requires Buffers(cipher, stream, input, output, i + 1) && stream != counter && n < size
    modifies counter, stream, output
    ensures Runs(cipher, true, f) && next < size
    ensures forall k :: i < k < output.Length ==> output[k] == old(output[k])
    ensures output[..i + 1] == old(output[..i]) + [output[i]]
    ensures CtrTurn(f, size, Counter(old(counter[..]), old(stream[..]), n), old(input[i]),
                    Counter(counter[..], stream[..], next), output[i])
  {
    hide Runs, Xor, Increment;
    if n == 0 {
      var block := CryptEcb(cipher, true, counter[..], f);
      CopyAll(block, stream);
      IncrementCounter(counter);
    }
    var c := input[i];
    StoreAt(output, i, Xor(c, stream[n]));
    next := (n + 1) % size;
  }

  /** mbedtls_aes_crypt_ctr and mbedtls_blowfish_crypt_ctr: counter, stream block and offset go in and come out. */
  method CryptCtr(cipher: BlockCipher, length: nat, ncOff: nat, counter: array<bv8>, stream: array<bv8>,
                  input: array<bv8>, output: array<bv8>, ghost f: bytes -> bytes) returns (n: nat)
    requires Runs(cipher, true, f) && Buffers(cipher, counter, input, output, length)
    requires Buffers(cipher, stream, input, output, length) && stream != counter && ncOff < BlockSize(cipher)
    modifies counter, stream, output
    ensures Keeps(f, BlockSize(cipher))
    ensures n < BlockSize(cipher)
    ensures forall k :: length <= k < output.Length ==> output[k] == old(output[k])
    ensures Ctr(f, BlockSize(cipher), Counter(old(counter[..]), old(stream[..]), ncOff), old(input[..length]))
         == Streamed(Counter(counter[..], stream[..], n), output[..length])
  {
    hide Runs, Region, BlockSize, CtrDone, Ctr, CtrTurn, Keeps;
    RunsKeeps(cipher, true, f);
    ghost var text, s := input[..length], Counter(counter[..], stream[..], ncOff);
    var size := BlockSize(cipher);
    n := ncOff;
    var i := 0;
    CtrBegins(f, size, s, text);
    NothingYet(output);
    while i < length
      invariant 0 <= i <= length && n < size && Runs(cipher, true, f)
      invariant forall k :: i <= k < length ==> input[k] == text[k]
      invariant forall k :: length <= k < output.Length ==> output[k] == old(output[k])
      invariant CtrDone(f, size, s, text, i, Counter(counter[..], stream[..], n), output[..i])
    {
      ghost var now, out := Counter(counter[..], stream[..], n), output[..i];
      n := CtrStep(cipher, size, counter, stream, n, input, output, i, f);
      CtrNext(f, size, s, text, i, now, out, Counter(counter[..], stream[..], n), output[i]);
      i := i + 1;
    }
    CtrEnds(f, size, s, text, Counter(counter[..], stream[..], n), output[..length]);
  }

  // ----- CBC -----

  /** One block of CBC encryption. */
  method CbcEncryptStep(cipher: BlockCipher, size: nat, iv: array<bv8>, input: array<bv8>, output: array<bv8>, i: nat,
                        ghost f: bytes -> bytes)
    requires size == BlockSize(cipher) && iv.Length == size && i + size <= input.Length && i + size <= output.Length
    requires Runs(cipher, true, f) && Keeps(f, size) && Buffers(cipher, iv, input, output, i + size)
    modifies iv, output
    ensures Runs(cipher, true, f)
    ensures CbcTurn(f, size, true, old(iv[..]), old(input[i..i + size]), iv[..], output[i..i + size])
    ensures forall k :: 0 <= k < output.Length && !(i <= k < i + size) ==> output[k] == old(output[k])
  {
    hide Runs, XorSeq, BlockSize;
    var block := XorSeq(input[i..i + size], iv[..]);
    block := CryptEcb(cipher, true, block, f);
    CopyInto(block, output, i);
    CopyAll(block, iv);
  }

  /** One block of CBC decryption: the ciphertext is kept aside before it is overwritten. */
  method CbcDecryptStep(cipher: BlockCipher, size: nat, iv: array<bv8>, input: array<bv8>, output: array<bv8>, i: nat,
                        ghost f: bytes -> bytes)
    requires size == BlockSize(cipher) && iv.Length == size && i + size <= input.Length && i + size <= output.Length
    requires Runs(cipher, false, f) && Keeps(f, size) && Buffers(cipher, iv, input, output, i + size)
    modifies iv, output
    ensures Runs(cipher, false, f)
    ensures CbcTurn(f, size, false, old(iv[..]), old(input[i..i + size]), iv[..], output[i..i + size])
    ensures forall k :: 0 <= k < output.Length && !(i <= k < i + size) ==> output[k] == old(output[k])
  {
    hide Runs, XorSeq, BlockSize;
    var temp := input[i..i + size];
    var block := CryptEcb(cipher, false, temp, f);
    CopyInto(XorSeq(block, iv[..]), output, i);
    CopyAll(temp, iv);
  }

  /** One block in either direction, as the specification has it. */
  method CbcStep(cipher: BlockCipher, size: nat, encrypt: bool, iv: array<bv8>, input: array<bv8>, output: array<bv8>,
                 i: nat, ghost f: bytes -> bytes)
    requires size == BlockSize(cipher) && iv.Length == size && i + size <= input.Length && i + size <= output.Length
    requires Runs(cipher, encrypt, f) && Keeps(f, size) && Buffers(cipher, iv, input, output, i + size)
    modifies iv, output
    ensures Runs(cipher, encrypt, f)
    ensures forall k :: i + size <= k < output.Length ==> output[k] == old(output[k])
    ensures output[..i + size] == old(output[..i]) + output[i..i + size]
    ensures CbcTurn(f, size, encrypt, old(iv[..]), old(input[i..i + size]), iv[..], output[i..i + size])
  {
    hide Runs, Region, CbcTurn, BlockSize;
    if encrypt {
      CbcEncryptStep(cipher, size, iv, input, output, i, f);
    } else {
      CbcDecryptStep(cipher, size, iv, input, output, i, f);
    }
  }

  /** mbedtls_aes_crypt_cbc and mbedtls_blowfish_crypt_cbc. */
  method CryptCbc(cipher: BlockCipher, encrypt: bool, length: nat, iv: array<bv8>,
                  input: array<bv8>, output: array<bv8>, ghost f: bytes -> bytes) returns (ret: int)
    requires Runs(cipher, encrypt, f) && Buffers(cipher, iv, input, output, length)
    modifies iv, output
    ensures Keeps(f, BlockSize(cipher))
    ensures ret == if length % BlockSize(cipher) == 0 then 0
                   else if cipher.AesContext? then MBEDTLS_ERR_AES_INVALID_INPUT_LENGTH
                   else MBEDTLS_ERR_BLOWFISH_INVALID_INPUT_LENGTH
    ensures ret != 0 ==> iv[..] == old(iv[..]) && output[..] == old(output[..])
    ensures forall k :: length <= k < output.Length ==> output[k] == old(output[k])
    ensures ret == 0 ==> CbcText(f, BlockSize(cipher), encrypt, old(iv[..]), old(input[..length])) == Cbc(output[..length], iv[..])
  {
    RunsKeeps(cipher, encrypt, f);
    var size := BlockSize(cipher);
    if length % size != 0 {
      return if cipher.AesContext? then MBEDTLS_ERR_AES_INVALID_INPUT_LENGTH
             else MBEDTLS_ERR_BLOWFISH_INVALID_INPUT_LENGTH;
    }
    CbcLoop(cipher, encrypt, length, iv, input, output, f);
    return 0;
  }

  /** The loop over whole blocks. */
  method CbcLoop(cipher: BlockCipher, encrypt: bool, length: nat, iv: array<bv8>,
                 input: array<bv8>, output: array<bv8>, ghost f: bytes -> bytes)
    requires Runs(cipher, encrypt, f) && Keeps(f, BlockSize(cipher)) && Buffers(cipher, iv, input, output, length)
    requires length % BlockSize(cipher) == 0
    modifies iv, output
    ensures forall k :: length <= k < output.Length ==> output[k] == old(output[k])
    ensures CbcText(f, BlockSize(cipher), encrypt, old(iv[..]), old(input[..length])) == Cbc(output[..length], iv[..])
  {
    hide Runs, Region, BlockSize, CbcDone, CbcText, CbcTurn, Keeps;
    ghost var text, iv0 := input[..length], iv[..];
    var size := BlockSize(cipher);
    var i := 0;
    CbcBegins(f, size, encrypt, iv0, text);
    NothingYet(output);
    while i < length
      invariant 0 <= i <= length && i % size == 0 && Runs(cipher, encrypt, f)
      invariant forall k :: i <= k < length ==> input[k] == text[k]
      invariant forall k :: length <= k < output.Length ==> output[k] == old(output[k])
      invariant CbcDone(f, size, encrypt, iv0, text, i, iv[..], output[..i])
    {
      WholeBlock(i, length, size);
      SameWindow(input, text, i, size);
      ghost var now, out := iv[..], output[..i];
      CbcStep(cipher, size, encrypt, iv, input, output, i, f);
      CbcNext(f, size, encrypt, iv0, text, i, now, out, iv[..], output[i..i + size]);
      i := i + size;
    }
    CbcEnds(f, size, encrypt, iv0, text, iv[..], output[..length]);
  }

  lemma SameWindow(input: array<bv8>, text: bytes, i: nat, n: nat)
    requires i + n <= |text| && |text| <= input.Length && forall k :: i <= k < |text| ==> input[k] == text[k]
    ensures input[i..i + n] == text[i..i + n]
  {
  }

  /** Where something is left there is a whole block. */
  lemma WholeBlock(i: nat, length: nat, n: nat)
    requires n > 0 && i < length && i % n == 0 && length % n == 0
    ensures i + n <= length && (i + n) % n == 0
  {
    var p := WholeBlocks(i, n);
    var q := WholeBlocks(length, n);
    if q <= p {
      MulLe(n, q, p);
    }
    MulLe(n, p + 1, q);
    MulDist(n, p, 1);
    assert i + n == (p + 1) * n;
    MultipleMod(p + 1, n);
  }
}
