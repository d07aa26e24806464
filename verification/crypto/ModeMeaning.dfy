/** What the modes compute, byte by byte from the texts alone: the standard's own equations (NIST SP 800-38A section 6),
    for any offset into a block. */
module ModeMeaning {
  import opened Arith
  import opened Bits
  import opened Octets
  import opened BlockModes

  // ----- positions -----

  /** A position and the one a block earlier. */
  lemma BlockBefore(j: nat, n: nat)
    requires n > 0
    ensures j < n ==> j / n == 0 && j % n == j
    ensures j >= n ==> j / n == (j - n) / n + 1 && j % n == (j - n) % n
  {
    if j < n {
      DivModUnique(j, n, 0, j);
    } else {
      Euclid(j - n, n);
      MulDist(n, (j - n) / n, 1);
      DivModUnique(j, n, (j - n) / n + 1, (j - n) % n);
    }
  }

  /** A whole block lies before the start of the block that holds position j, if j is not in the first one. */
  lemma BlockStart(j: nat, n: nat)
    requires n > 0
    ensures j % n <= j && (j >= n ==> j - j % n >= n)
  {
    BlockBefore(j, n);
    Euclid(j, n);
    if j >= n {
      MulLe(n, 1, j / n);
    }
  }

  // ----- CBC -----

  /** A block in front of position i. */
  lemma WholeBlock(i: nat, n: nat)
    requires n > 0 && i % n == 0 && i > 0
    ensures i >= n && (i - n) % n == 0
  {
    BlockCount(i, n);
  }

  /** Byte j of what the block at position i is chained to: the vector, or the ciphertext block before. */
  function Chained(n: nat, iv: bytes, cipher: bytes, i: nat, j: nat): bv8
    requires |iv| == n && j < n && i <= |cipher| && (i > 0 ==> i >= n)
  {
    if i == 0 then iv[j] else cipher[i - n + j]
  }

  /** The exclusive or of a text block and what it is chained to. */
  function Mixed(n: nat, iv: bytes, text: bytes, cipher: bytes, i: nat): (x: bytes)
    requires |iv| == n && i + n <= |text| == |cipher| && (i > 0 ==> i >= n)
    ensures |x| == n
  {
    seq(n, j requires 0 <= j < n => text[i + j] ^ Chained(n, iv, cipher, i, j))
  }

  lemma MixedFirst(n: nat, iv: bytes, text: bytes, cipher: bytes)
    requires |iv| == n <= |text| == |cipher|
    ensures Mixed(n, iv, text, cipher, 0) == XorSeq(text[..n], iv)
  {
  }

  lemma MixedLater(n: nat, iv: bytes, text: bytes, y: bytes, cipher: bytes, i: nat)
    requires |iv| == n == |y| && n <= i && i + n <= |text| == n + |cipher| && (i > n ==> i >= 2 * n)
    ensures Mixed(n, iv, text, y + cipher, i) == Mixed(n, y, text[n..], cipher, i - n)
  {
  }

  /** Section 6.2: each ciphertext block is the enciphered exclusive or of the text block and the ciphertext block
      before. */
  lemma {:induction false} CbcEncryptMeaning(enc: bytes -> bytes, n: nat, iv: bytes, text: bytes, i: nat)
    requires n > 0 && |iv| == n && |text| % n == 0 && Keeps(enc, n) && i % n == 0 && i + n <= |text|
    ensures i > 0 ==> i >= n
    ensures var c := CbcEncrypt(enc, n, iv, text).text; c[i..i + n] == enc(Mixed(n, iv, text, c, i))
    decreases |text|
  {
    hide Mixed, XorSeq;
    BlockCount(|text|, n);
    var y, rest := enc(XorSeq(text[..n], iv)), text[n..];
    var r := CbcEncrypt(enc, n, y, rest).text;
    MixedFirst(n, iv, text, y + r);
    if i > 0 {
      WholeBlock(i, n);
      if i > n {
        WholeBlock(i - n, n);
      }
      CbcEncryptMeaning(enc, n, y, rest, i - n);
      MixedLater(n, iv, text, y, r, i);
      assert (y + r)[i..i + n] == r[i - n..i];
    }
  }

  /** Decryption: each text block is the exclusive or of the deciphered block and the ciphertext block before. */
  lemma {:induction false} CbcDecryptMeaning(dec: bytes -> bytes, n: nat, iv: bytes, cipher: bytes, i: nat, j: nat)
    requires n > 0 && |iv| == n && |cipher| % n == 0 && Keeps(dec, n) && i % n == 0 && i + n <= |cipher| && j < n
    ensures i > 0 ==> i >= n
    ensures CbcDecrypt(dec, n, iv, cipher).text[i + j] == dec(cipher[i..i + n])[j] ^ Chained(n, iv, cipher, i, j)
    decreases |cipher|
  {
    hide XorSeq;
    BlockCount(|cipher|, n);
    var b, rest := cipher[..n], cipher[n..];
    if i == 0 {
      assert cipher[0..n] == b;
      XorSeqAt(dec(b), iv, j);
    } else {
      WholeBlock(i, n);
      if i > n {
        WholeBlock(i - n, n);
      }
      CbcDecryptMeaning(dec, n, b, rest, i - n, j);
      LaterBlock(n, iv, cipher, i, j);
    }
  }

  lemma XorSeqAt(a: bytes, b: bytes, j: nat)
    requires |a| == |b| && j < |a|
    ensures XorSeq(a, b)[j] == a[j] ^ b[j]
  {
  }

  lemma LaterBlock(n: nat, iv: bytes, cipher: bytes, i: nat, j: nat)
    requires |iv| == n && j < n <= i && i + n <= |cipher| && (i > n ==> i >= 2 * n)
    ensures cipher[n..][i - n..i] == cipher[i..i + n]
    ensures Chained(n, cipher[..n], cipher[n..], i - n, j) == Chained(n, iv, cipher, i, j)
  {
  }

  /** The vector that is left is the last ciphertext block. */
  lemma {:induction false} CbcVector(f: bytes -> bytes, n: nat, encrypt: bool, iv: bytes, text: bytes)
    requires n > 0 && |iv| == n && |text| % n == 0 && Keeps(f, n)
    ensures text != [] ==> |text| >= n
    ensures var r := CbcText(f, n, encrypt, iv, text);
            r.iv == if text == [] then iv else (if encrypt then r.text else text)[|text| - n..]
    decreases |text|
  {
    hide XorSeq;
    if text != [] {
      BlockCount(|text|, n);
      CbcVector(f, n, encrypt, if encrypt then f(XorSeq(text[..n], iv)) else text[..n], text[n..]);
    }
  }

  // ----- CFB -----

  /** The ciphertext that passed through the vector: what lies in it already, and all of the message's. */
  function History(s: Feedback, cipher: bytes): (h: bytes)
    requires s.off <= |s.iv|
    ensures |h| == s.off + |cipher|
  {
    s.iv[..s.off] + cipher
  }

  /** Section 6.3: the key stream at position j, counted from the start of the block in use. It is what the vector
      still holds, or the enciphered vector of a fresh start, or the enciphered ciphertext block before. */
  ghost function CfbStream(enc: bytes -> bytes, n: nat, s: Feedback, h: bytes, j: nat): bv8
    requires ValidFeedback(s, n) && Keeps(enc, n) && s.off <= j <= |h|
  {
    BlockStart(j, n);
    if j < n then (if s.off == 0 then enc(s.iv) else s.iv)[j]
    else enc(h[j - j % n - n..j - j % n])[j % n]
  }

  /** Each byte comes out as its exclusive or with the key stream. */
  lemma {:induction false} CfbMeaning(enc: bytes -> bytes, n: nat, encrypt: bool, s: Feedback, text: bytes, i: nat)
    requires ValidFeedback(s, n) && Keeps(enc, n) && i < |text|
    ensures Cfb(enc, n, encrypt, s, text).text[i]
         == text[i] ^ CfbStream(enc, n, s, History(s, Ciphertext(enc, n, encrypt, s, text)), s.off + i)
    decreases |text|
  {
    hide CfbStream, History, CfbByte, Fed;
    var t := CfbByte(enc, n, encrypt, s, text[0]);
    var c, rest := if encrypt then t.1 else text[0], Ciphertext(enc, n, encrypt, t.0, text[1..]);
    NextFeedback(enc, n, encrypt, s, text[0]);
    CiphertextNext(enc, n, encrypt, s, text);
    if i == 0 {
      FirstByte(enc, n, encrypt, s, text[0], History(s, [c] + rest));
    } else {
      CfbMeaning(enc, n, encrypt, t.0, text[1..], i - 1);
      CfbStreamNext(enc, n, s, c, t.0, rest, i);
    }
  }

  lemma FirstByte(enc: bytes -> bytes, n: nat, encrypt: bool, s: Feedback, x: bv8, h: bytes)
    requires ValidFeedback(s, n) && Keeps(enc, n) && s.off <= |h|
    ensures CfbByte(enc, n, encrypt, s, x).1 == x ^ CfbStream(enc, n, s, h, s.off)
  {
    hide CfbStream;
    CfbEarly(enc, n, s, h, s.off);
    XorIs((if s.off == 0 then enc(s.iv) else s.iv)[s.off], x);
  }

  /** The ciphertext, in either direction. */
  ghost function Ciphertext(enc: bytes -> bytes, n: nat, encrypt: bool, s: Feedback, text: bytes): (c: bytes)
    requires ValidFeedback(s, n) && Keeps(enc, n)
    ensures |c| == |text|
  {
    if encrypt then Cfb(enc, n, encrypt, s, text).text else text
  }

  lemma CiphertextNext(enc: bytes -> bytes, n: nat, encrypt: bool, s: Feedback, text: bytes)
    requires ValidFeedback(s, n) && Keeps(enc, n) && text != []
    ensures var t := CfbByte(enc, n, encrypt, s, text[0]); var c := if encrypt then t.1 else text[0];
            Ciphertext(enc, n, encrypt, s, text) == [c] + Ciphertext(enc, n, encrypt, t.0, text[1..])
  {
    hide CfbByte;
  }

  /** What one byte does to the vector. */
  lemma NextFeedback(enc: bytes -> bytes, n: nat, encrypt: bool, s: Feedback, x: bv8)
    requires ValidFeedback(s, n) && Keeps(enc, n)
    ensures var t := CfbByte(enc, n, encrypt, s, x); Fed(enc, n, s, if encrypt then t.1 else x, t.0)
  {
    BlockBefore(s.off + 1, n);
  }

  /** The vector s, refilled if it was used up, with ciphertext byte c stored at the offset. */
  ghost predicate Fed(enc: bytes -> bytes, n: nat, s: Feedback, c: bv8, t: Feedback) {
    ValidFeedback(s, n) && ValidFeedback(t, n) && Keeps(enc, n)
    && t.iv == (if s.off == 0 then enc(s.iv) else s.iv)[s.off := c]
    && t.off == if s.off + 1 == n then 0 else s.off + 1
  }

  lemma CfbEarly(enc: bytes -> bytes, n: nat, s: Feedback, h: bytes, j: nat)
    requires ValidFeedback(s, n) && Keeps(enc, n) && s.off <= j < n && j <= |h|
    ensures CfbStream(enc, n, s, h, j) == (if s.off == 0 then enc(s.iv) else s.iv)[j]
  {
  }

  lemma CfbLate(enc: bytes -> bytes, n: nat, s: Feedback, h: bytes, j: nat)
    requires ValidFeedback(s, n) && Keeps(enc, n) && s.off <= j && n <= j <= |h|
    ensures j - j % n >= n && CfbStream(enc, n, s, h, j) == enc(h[j - j % n - n..j - j % n])[j % n]
  {
    BlockStart(j, n);
  }

  lemma SliceBehind(a: bytes, b: bytes, m: nat, n: nat)
    requires |a| == n && 2 * n <= m <= n + |b|
    ensures (a + b)[m - n..m] == b[m - n - n..m - n]
  {
  }

  lemma CfbStreamNext(enc: bytes -> bytes, n: nat, s: Feedback, c: bv8, t: Feedback, rest: bytes, i: nat)
    requires Fed(enc, n, s, c, t) && 0 < i <= |rest|
    ensures CfbStream(enc, n, t, History(t, rest), t.off + i - 1) == CfbStream(enc, n, s, History(s, [c] + rest), s.off + i)
  {
    hide CfbStream, History;
    var h, h', j := History(s, [c] + rest), History(t, rest), s.off + i;
    HistoryNext(enc, n, s, c, t, rest);
    if t.off == 0 {
      CfbLate(enc, n, s, h, j);
      BlockBefore(j, n);
      if j - n >= n {
        CfbLate(enc, n, t, h', j - n);
        SliceBehind(t.iv, h', j - j % n, n);
      } else {
        CfbEarly(enc, n, t, h', j - n);
        BlockBefore(j - n, n);
        SliceFront(t.iv, h', n);
      }
    } else {
      SameBlock(enc, n, s, c, t, h, j);
    }
  }

  lemma SliceFront(a: bytes, b: bytes, n: nat)
    requires |a| == n
    ensures (a + b)[n - n..n] == a
  {
  }

  lemma SameBlock(enc: bytes -> bytes, n: nat, s: Feedback, c: bv8, t: Feedback, h: bytes, j: nat)
    requires Fed(enc, n, s, c, t) && t.off > 0 && s.off < j <= |h|
    ensures CfbStream(enc, n, t, h, j) == CfbStream(enc, n, s, h, j)
  {
    hide CfbStream;
    if j < n {
      CfbEarly(enc, n, s, h, j);
      CfbEarly(enc, n, t, h, j);
    } else {
      CfbLate(enc, n, s, h, j);
      CfbLate(enc, n, t, h, j);
    }
  }

  /** The state that is left: the offset goes around, and the vector holds the last ciphertext, followed by what is
      left of the key stream block in use. */
  lemma {:induction false} CfbVector(enc: bytes -> bytes, n: nat, encrypt: bool, s: Feedback, text: bytes)
    requires ValidFeedback(s, n) && Keeps(enc, n)
    ensures var st, h := Cfb(enc, n, encrypt, s, text).state, History(s, Ciphertext(enc, n, encrypt, s, text));
            st.off == |h| % n && (text != [] && |h| % n == 0 ==> |h| >= n && st.iv == h[|h| - n..])
    decreases |text|
  {
    hide History, CfbByte, Ciphertext;
    BlockBefore(s.off, n);
    if text == [] {
      EmptyHistory(enc, n, encrypt, s);
    } else {
      var t := CfbByte(enc, n, encrypt, s, text[0]).0;
      var c := if encrypt then CfbByte(enc, n, encrypt, s, text[0]).1 else text[0];
      var rest := Ciphertext(enc, n, encrypt, t, text[1..]);
      NextFeedback(enc, n, encrypt, s, text[0]);
      CfbVector(enc, n, encrypt, t, text[1..]);
      HistoryNext(enc, n, s, c, t, rest);
      CiphertextNext(enc, n, encrypt, s, text);
      if text[1..] == [] {
        LastHistory(enc, n, s, c, t, rest);
      } else if t.off == 0 && |History(t, rest)| % n == 0 {
        LastOfHistory(t.iv, History(t, rest), n);
      }
    }
  }

  lemma EmptyHistory(enc: bytes -> bytes, n: nat, encrypt: bool, s: Feedback)
    requires ValidFeedback(s, n) && Keeps(enc, n)
    ensures |History(s, Ciphertext(enc, n, encrypt, s, []))| == s.off
  {
  }

  lemma LastHistory(enc: bytes -> bytes, n: nat, s: Feedback, c: bv8, t: Feedback, rest: bytes)
    requires Fed(enc, n, s, c, t) && rest == []
    ensures |History(t, rest)| == t.off
    ensures t.off == 0 ==> |History(s, [c] + rest)| == n && History(s, [c] + rest) == t.iv
  {
    HistoryNext(enc, n, s, c, t, rest);
  }

  lemma LastOfHistory(a: bytes, h: bytes, n: nat)
    requires |h| >= n
    ensures (a + h)[|a| + |h| - n..] == h[|h| - n..]
  {
  }

  lemma HistoryNext(enc: bytes -> bytes, n: nat, s: Feedback, c: bv8, t: Feedback, rest: bytes)
    requires Fed(enc, n, s, c, t)
    ensures History(s, [c] + rest) == if t.off == 0 then t.iv + History(t, rest) else History(t, rest)
    ensures |History(t, rest)| % n == |History(s, [c] + rest)| % n
  {
    BlockBefore(n + |rest|, n);
    if t.off == 0 {
      assert t.iv[..0] == [] && s.iv[..s.off] + ([c] + rest) == t.iv + rest;
    } else {
      assert s.iv[..s.off] + ([c] + rest) == t.iv[..t.off] + rest;
    }
  }

  // ----- CFB8 -----

  /** The vector, and all the ciphertext that is shifted into it. */
  ghost function Shifted(enc: bytes -> bytes, n: nat, encrypt: bool, iv: bytes, text: bytes): (h: bytes)
    requires n > 0 && |iv| == n && Keeps(enc, n)
    ensures |h| == n + |text|
  {
    iv + if encrypt then Cfb8(enc, n, encrypt, iv, text).text else text
  }

  lemma ShiftedNext(enc: bytes -> bytes, n: nat, encrypt: bool, iv: bytes, text: bytes)
    requires n > 0 && |iv| == n && Keeps(enc, n) && text != []
    ensures var t := Cfb8Byte(enc, n, encrypt, iv, text[0]);
            Shifted(enc, n, encrypt, iv, text) == [iv[0]] + Shifted(enc, n, encrypt, t.0, text[1..])
  {
    hide Xor;
    var t := Cfb8Byte(enc, n, encrypt, iv, text[0]);
    var c := if encrypt then t.1 else text[0];
    var rest := if encrypt then Cfb8(enc, n, encrypt, t.0, text[1..]).text else text[1..];
    assert (if encrypt then Cfb8(enc, n, encrypt, iv, text).text else text) == [c] + rest;
    ShiftIn(iv, c, rest);
  }

  lemma ShiftIn(iv: bytes, c: bv8, rest: bytes)
    requires iv != []
    ensures iv + ([c] + rest) == [iv[0]] + ((iv[1..] + [c]) + rest)
  {
  }

  lemma Tail(x: bv8, h: bytes, i: nat, n: nat)
    requires 0 < i && i - 1 + n <= |h|
    ensures ([x] + h)[i..i + n] == h[i - 1..i - 1 + n]
  {
  }

  /** Section 6.3 with segments of a byte: each byte is the exclusive or with the first byte of the enciphered last n
      bytes of vector and ciphertext. */
  lemma {:induction false} Cfb8Meaning(enc: bytes -> bytes, n: nat, encrypt: bool, iv: bytes, text: bytes, i: nat)
    requires n > 0 && |iv| == n && Keeps(enc, n) && i < |text|
    ensures var h := Shifted(enc, n, encrypt, iv, text);
            Cfb8(enc, n, encrypt, iv, text).text[i] == text[i] ^ enc(h[i..i + n])[0]
    decreases |text|
  {
    hide Xor, Shifted;
    var t := Cfb8Byte(enc, n, encrypt, iv, text[0]);
    var h := Shifted(enc, n, encrypt, t.0, text[1..]);
    ShiftedNext(enc, n, encrypt, iv, text);
    if i == 0 {
      ShiftedStart(enc, n, encrypt, iv, text);
      XorIs(enc(iv)[0], text[0]);
    } else {
      Cfb8Meaning(enc, n, encrypt, t.0, text[1..], i - 1);
      Tail(iv[0], h, i, n);
    }
  }

  lemma ShiftedStart(enc: bytes -> bytes, n: nat, encrypt: bool, iv: bytes, text: bytes)
    requires n > 0 && |iv| == n && Keeps(enc, n)
    ensures Shifted(enc, n, encrypt, iv, text)[0..n] == iv
  {
  }

  /** The last n of these bytes are the vector that is left. */
  lemma {:induction false} Cfb8Vector(enc: bytes -> bytes, n: nat, encrypt: bool, iv: bytes, text: bytes)
    requires n > 0 && |iv| == n && Keeps(enc, n)
    ensures Cfb8(enc, n, encrypt, iv, text).state == Shifted(enc, n, encrypt, iv, text)[|text|..]
    decreases |text|
  {
    hide Xor, Shifted;
    if text == [] {
      ShiftedStart(enc, n, encrypt, iv, text);
    } else {
      Cfb8Vector(enc, n, encrypt, Cfb8Byte(enc, n, encrypt, iv, text[0]).0, text[1..]);
      ShiftedNext(enc, n, encrypt, iv, text);
    }
  }

  lemma XorIs(a: bv8, b: bv8)
    ensures Xor(a, b) == b ^ a && Xor(b, a) == b ^ a
  {
  }

  // ----- CTR -----

  /** A counter block of n bytes that stands for v, highest byte first, modulo 256^n. */
  predicate CountsTo(c: bytes, n: nat, v: nat) {
    |c| == n && Number(Ints(c)) == v % ByteWeight(n)
  }

  /** The number determines the block. */
  lemma {:induction false} CounterUnique(c: bytes, d: bytes)
    requires |c| == |d| && Number(Ints(c)) == Number(Ints(d))
    ensures c == d
    decreases |c|
  {
    if c != [] {
      hide Number, Ints;
      var n := |c| - 1;
      NumberOfInts(c);
      NumberOfInts(d);
      LastEqual(c[n], d[n], Number(Ints(c[..n])), Number(Ints(d[..n])));
      CounterUnique(c[..n], d[..n]);
      assert c == c[..n] + [c[n]] && d == d[..n] + [d[n]];
    }
  }

  lemma LastEqual(x: bv8, y: bv8, a: nat, b: nat)
    requires 256 * a + (x as int) == 256 * b + (y as int)
    ensures x == y && a == b
  {
    assert 0 <= x as int < 256 && 0 <= y as int < 256;
  }

  /** How many enciphered counter blocks lie before position j. */
  function BlocksBefore(s: Counter, n: nat, j: nat): int
    requires n > 0
  {
    j / n - if s.off == 0 then 0 else 1
  }

  /** Section 6.5: k is the byte of key stream at position j, counted from the start of the block in use. Where that
      block was begun before, what is left of it is used; every other block is an enciphered counter block, and these
      count up by one. */
  ghost predicate CtrStream(enc: bytes -> bytes, n: nat, s: Counter, j: nat, c: bytes, k: bv8) {
    ValidCounter(s, n) && Keeps(enc, n) && s.off <= j &&
    if s.off > 0 && j < n then k == s.stream[j]
    else
      BlocksBefore(s, n, j) >= 0 && CountsTo(c, n, Number(Ints(s.counter)) + BlocksBefore(s, n, j))
      && k == enc(c)[j % n]
  }

  /** Each byte comes out as its exclusive or with the key stream. */
  lemma {:induction false} CtrMeaning(enc: bytes -> bytes, n: nat, s: Counter, text: bytes, i: nat)
    returns (c: bytes, k: bv8)
    requires ValidCounter(s, n) && Keeps(enc, n) && i < |text|
    ensures CtrStream(enc, n, s, s.off + i, c, k) && Ctr(enc, n, s, text).text[i] == text[i] ^ k
    decreases |text|
  {
    hide CtrStream, CtrByte, Counted;
    CountedByte(enc, n, s, text[0]);
    var t := CtrByte(enc, n, s, text[0]).0;
    if i == 0 {
      c, k := FirstStream(enc, n, s, text[0]);
    } else {
      c, k := CtrMeaning(enc, n, t, text[1..], i - 1);
      c := CtrStreamNext(enc, n, s, t, i, c, k);
    }
  }

  lemma FirstStream(enc: bytes -> bytes, n: nat, s: Counter, x: bv8) returns (c: bytes, k: bv8)
    requires ValidCounter(s, n) && Keeps(enc, n)
    ensures CtrStream(enc, n, s, s.off, c, k) && CtrByte(enc, n, s, x).1 == x ^ k
  {
    hide Increment;
    c, k := s.counter, (if s.off == 0 then enc(s.counter) else s.stream)[s.off];
    BlockBefore(s.off, n);
    IncrementAddsOne(s.counter);
    SmallMod(Number(Ints(s.counter)), ByteWeight(n));
    XorIs(k, x);
  }

  lemma SmallMod(v: nat, w: nat)
    requires v < w
    ensures v % w == v
  {
  }

  /** What one byte does to the state. */
  ghost predicate Counted(enc: bytes -> bytes, n: nat, s: Counter, t: Counter) {
    ValidCounter(s, n) && ValidCounter(t, n) && Keeps(enc, n)
    && Number(Ints(s.counter)) < ByteWeight(n)
    && CountsTo(t.counter, n, Number(Ints(s.counter)) + if s.off == 0 then 1 else 0)
    && t.stream == (if s.off == 0 then enc(s.counter) else s.stream)
    && t.off == if s.off + 1 == n then 0 else s.off + 1
  }

  lemma CountedByte(enc: bytes -> bytes, n: nat, s: Counter, x: bv8)
    requires ValidCounter(s, n) && Keeps(enc, n)
    ensures Counted(enc, n, s, CtrByte(enc, n, s, x).0)
  {
    hide Increment, Number, Ints, ByteWeight, Xor;
    IncrementAddsOne(s.counter);
    BlockBefore(s.off + 1, n);
    NextMod(Number(Ints(s.counter)), ByteWeight(n));
  }

  lemma NextMod(v: nat, w: nat)
    requires v < w
    ensures v % w == v && (v + 1) % w == if v + 1 == w then 0 else v + 1
  {
  }

  lemma AddMod(v: nat, a: nat, w: nat)
    requires w > 0
    ensures (v % w + a) % w == (v + a) % w
  {
    CongMod(v, w);
    CongRefl(a, w);
    CongAdd(v % w, v, a, a, w);
    CongIffMod(v % w + a, v + a, w);
  }

  lemma CtrStreamNext(enc: bytes -> bytes, n: nat, s: Counter, t: Counter, i: nat, c: bytes, k: bv8) returns (d: bytes)
    requires Counted(enc, n, s, t) && i > 0 && CtrStream(enc, n, t, t.off + i - 1, c, k)
    ensures CtrStream(enc, n, s, s.off + i, d, k)
  {
    hide Number, Ints;
    var j, v := s.off + i, Number(Ints(s.counter));
    BlockBefore(j, n);
    d := c;
    if s.off == 0 && t.off > 0 && j < n {
      d := s.counter;
      SmallMod(v, ByteWeight(n));
    } else if t.off == 0 || j >= n {
      var b := BlocksBefore(t, n, t.off + i - 1);
      AddMod(v + if s.off == 0 then 1 else 0, b, ByteWeight(n));
    }
  }

  /** The state that is left: the counter has moved on by one for every block that was begun. */
  lemma {:induction false} CtrState(enc: bytes -> bytes, n: nat, s: Counter, text: bytes)
    requires ValidCounter(s, n) && Keeps(enc, n)
    ensures var r, j := Ctr(enc, n, s, text).state, s.off + |text|;
            && r.off == j % n && BlocksBefore(s, n, j + n - 1) >= 0
            && CountsTo(r.counter, n, Number(Ints(s.counter)) + BlocksBefore(s, n, j + n - 1))
    decreases |text|
  {
    hide CtrByte, Increment, Number, Ints;
    var j, v := s.off + |text|, Number(Ints(s.counter));
    BlockBefore(j + n - 1, n);
    BlockBefore(j, n);
    if text == [] {
      IncrementAddsOne(s.counter);
      SmallMod(v, ByteWeight(n));
      BlockBefore(s.off + n - 1, n);
      if s.off > 0 {
        BlockBefore(s.off - 1, n);
      }
    } else {
      var t := CtrByte(enc, n, s, text[0]).0;
      CountedByte(enc, n, s, text[0]);
      CtrState(enc, n, t, text[1..]);
      AddMod(v + if s.off == 0 then 1 else 0, BlocksBefore(t, n, t.off + |text| - 1 + n - 1), ByteWeight(n));
    }
  }
}
