/** CBC, CFB, CFB8 and CTR as functions of a block cipher, for any block size. */
module BlockModes {
  import opened Arith
  import opened Bits
  import opened Octets

  type bytes = seq<bv8>

  /** A block cipher and its inverse on blocks of n bytes. */
  ghost predicate Inverts(enc: bytes -> bytes, dec: bytes -> bytes, n: nat) {
    forall b: bytes :: |b| == n ==> |enc(b)| == n && |dec(b)| == n && dec(enc(b)) == b
  }

  /** A function from blocks to blocks. */
  ghost predicate Keeps(enc: bytes -> bytes, n: nat) {
    forall b: bytes :: |b| == n ==> |enc(b)| == n
  }

  function XorSeq(a: bytes, b: bytes): (r: bytes)
    requires |a| == |b|
    ensures |r| == |a|
  {
    seq(|a|, i requires 0 <= i < |a| => Xor(a[i], b[i]))
  }

  lemma XorSeqBack(a: bytes, b: bytes)
    requires |a| == |b|
    ensures XorSeq(XorSeq(a, b), b) == a
  {
    hide Xor;
    forall i | 0 <= i < |a|
      ensures XorSeq(XorSeq(a, b), b)[i] == a[i]
    {
      XorBack(a[i], b[i]);
    }
  }

  // ----- CBC -----

  /** The blocks of the text, and the last vector. */
  datatype Cbc = Cbc(text: bytes, iv: bytes)

  ghost function CbcEncrypt(enc: bytes -> bytes, n: nat, iv: bytes, text: bytes): (r: Cbc)
    requires n > 0 && |iv| == n && |text| % n == 0 && Keeps(enc, n)
    ensures |r.text| == |text| && |r.iv| == n
    decreases |text|
  {
    if text == [] then Cbc([], iv)
    else
      BlockCount(|text|, n);
      var c := enc(XorSeq(text[..n], iv));
      var rest := CbcEncrypt(enc, n, c, text[n..]);
      Cbc(c + rest.text, rest.iv)
  }

  ghost function CbcDecrypt(dec: bytes -> bytes, n: nat, iv: bytes, text: bytes): (r: Cbc)
    requires n > 0 && |iv| == n && |text| % n == 0 && Keeps(dec, n)
    ensures |r.text| == |text| && |r.iv| == n
    decreases |text|
  {
    if text == [] then Cbc([], iv)
    else
      BlockCount(|text|, n);
      var p := XorSeq(dec(text[..n]), iv);
      var rest := CbcDecrypt(dec, n, text[..n], text[n..]);
      Cbc(p + rest.text, rest.iv)
  }

  lemma WholeBlocks(len: nat, n: nat) returns (q: int)
    requires n > 0 && len % n == 0
    ensures len == n * q == q * n
  {
    q := len / n;
  }

  lemma BlockCount(len: nat, n: nat)
    requires n > 0 && len > 0 && len % n == 0
    ensures len >= n && (len - n) % n == 0
  {
    var q := WholeBlocks(len, n);
    if q <= 0 {
      MulLe(n, q, 0);
    }
    MulLe(n, 1, q);
    MulDist(n, q, 1);
    MultipleMod(q - 1, n);
  }

  /** CBC decryption gives the text back and leaves the same vector. */
  lemma {:induction false} CbcRoundTrip(enc: bytes -> bytes, dec: bytes -> bytes, n: nat, iv: bytes, text: bytes)
    requires n > 0 && |iv| == n && |text| % n == 0 && Inverts(enc, dec, n)
    ensures Keeps(enc, n) && Keeps(dec, n)
    ensures var c := CbcEncrypt(enc, n, iv, text); CbcDecrypt(dec, n, iv, c.text) == Cbc(text, c.iv)
    decreases |text|
  {
    if text != [] {
      BlockCount(|text|, n);
      var b := XorSeq(text[..n], iv);
      var c := enc(b);
      var rest := CbcEncrypt(enc, n, c, text[n..]);
      assert |b| == n && dec(c) == b;
      XorSeqBack(text[..n], iv);
      CbcRoundTrip(enc, dec, n, c, text[n..]);
      assert (c + rest.text)[..n] == c && (c + rest.text)[n..] == rest.text;
      assert text == text[..n] + text[n..];
    }
  }

  /** Either direction. */
  ghost function CbcText(f: bytes -> bytes, n: nat, encrypt: bool, iv: bytes, text: bytes): (r: Cbc)
    requires n > 0 && |iv| == n && |text| % n == 0 && Keeps(f, n)
    ensures |r.text| == |text| && |r.iv| == n
  {
    if encrypt then CbcEncrypt(f, n, iv, text) else CbcDecrypt(f, n, iv, text)
  }

  lemma BlockSum(a: nat, b: nat, n: nat)
    requires n > 0 && a % n == 0 && b % n == 0
    ensures (a + b) % n == 0
  {
    var p := WholeBlocks(a, n);
    var q := WholeBlocks(b, n);
    MulDist(n, p, q);
    MultipleMod(p + q, n);
  }

  /** A message processed in two calls gives what one call gives. */
  lemma {:induction false} CbcSplit(f: bytes -> bytes, n: nat, encrypt: bool, iv: bytes, a: bytes, b: bytes)
    requires n > 0 && |iv| == n && |a| % n == 0 && |b| % n == 0 && Keeps(f, n)
    ensures |a + b| % n == 0
    ensures var first := CbcText(f, n, encrypt, iv, a);
            var second := CbcText(f, n, encrypt, first.iv, b);
            CbcText(f, n, encrypt, iv, a + b) == Cbc(first.text + second.text, second.iv)
    decreases |a|
  {
    hide XorSeq;
    BlockSum(|a|, |b|, n);
    if a == [] {
      assert a + b == b;
    } else {
      BlockCount(|a|, n);
      assert (a + b)[..n] == a[..n] && (a + b)[n..] == a[n..] + b;
      CbcSplit(f, n, encrypt, if encrypt then f(XorSeq(a[..n], iv)) else a[..n], a[n..], b);
    }
  }

  /** The blocks among the first i bytes of a text led to the vector now and the bytes out. */
  ghost predicate CbcDone(f: bytes -> bytes, n: nat, encrypt: bool, iv: bytes, text: bytes, i: nat, now: bytes, out: bytes) {
    n > 0 && |iv| == n == |now| && i % n == 0 && i <= |text| && Keeps(f, n)
    && CbcText(f, n, encrypt, iv, text[..i]) == Cbc(out, now)
  }

  lemma CbcBegins(f: bytes -> bytes, n: nat, encrypt: bool, iv: bytes, text: bytes)
    requires n > 0 && |iv| == n && Keeps(f, n)
    ensures CbcDone(f, n, encrypt, iv, text, 0, iv, [])
  {
  }

  lemma CbcEnds(f: bytes -> bytes, n: nat, encrypt: bool, iv: bytes, text: bytes, now: bytes, out: bytes)
    requires CbcDone(f, n, encrypt, iv, text, |text|, now, out)
    ensures CbcText(f, n, encrypt, iv, text) == Cbc(out, now)
  {
    assert text[..|text|] == text;
  }

  /** One block in either direction. */
  ghost function CbcBlock(f: bytes -> bytes, n: nat, encrypt: bool, iv: bytes, b: bytes): (c: bytes)
    requires |iv| == n && |b| == n && Keeps(f, n)
    ensures |c| == n
  {
    if encrypt then f(XorSeq(b, iv)) else XorSeq(f(b), iv)
  }

  /** One block led from the vector iv to next and from b to c. */
  ghost predicate CbcTurn(f: bytes -> bytes, n: nat, encrypt: bool, iv: bytes, b: bytes, next: bytes, c: bytes) {
    |iv| == n == |b| && Keeps(f, n) && c == CbcBlock(f, n, encrypt, iv, b) && next == if encrypt then c else b
  }

  /** One block more. */
  lemma CbcNext(f: bytes -> bytes, n: nat, encrypt: bool, iv: bytes, text: bytes, i: nat, now: bytes, out: bytes,
                next: bytes, c: bytes)
    requires CbcDone(f, n, encrypt, iv, text, i, now, out) && i + n <= |text|
    requires CbcTurn(f, n, encrypt, now, text[i..i + n], next, c)
    ensures CbcDone(f, n, encrypt, iv, text, i + n, next, out + c)
  {
    hide XorSeq, CbcText;
    MultipleMod(1, n);
    BlockSum(i, n, n);
    var b := text[i..i + n];
    CbcSplit(f, n, encrypt, iv, text[..i], b);
    CbcOne(f, n, encrypt, now, b);
    assert text[..i + n] == text[..i] + b;
  }

  lemma CbcOne(f: bytes -> bytes, n: nat, encrypt: bool, iv: bytes, b: bytes)
    requires n > 0 && |iv| == n && |b| == n && Keeps(f, n)
    ensures n % n == 0
    ensures var c := if encrypt then f(XorSeq(b, iv)) else XorSeq(f(b), iv);
            CbcText(f, n, encrypt, iv, b) == Cbc(c, if encrypt then c else b)
  {
    hide XorSeq;
    MultipleMod(1, n);
    assert b[..n] == b && b[n..] == [];
    if encrypt {
      var c := f(XorSeq(b, iv));
      assert CbcEncrypt(f, n, c, []) == Cbc([], c) && c + [] == c;
    } else {
      var p := XorSeq(f(b), iv);
      assert CbcDecrypt(f, n, b, []) == Cbc([], b) && p + [] == p;
    }
  }

  // ----- CFB -----

  /** The vector and the offset carried from call to call. */
  datatype Feedback = Feedback(iv: bytes, off: nat)

  datatype Streamed<S> = Streamed(state: S, text: bytes)

  predicate ValidFeedback(s: Feedback, n: nat) {
    |s.iv| == n && s.off < n
  }

  /** One byte: a fresh block where the offset is 0, then the ciphertext byte goes into the vector. */
  ghost function CfbByte(enc: bytes -> bytes, n: nat, encrypt: bool, s: Feedback, c: bv8): (r: (Feedback, bv8))
    requires ValidFeedback(s, n) && Keeps(enc, n)
    ensures ValidFeedback(r.0, n)
  {
    var iv := if s.off == 0 then enc(s.iv) else s.iv;
    var o := Xor(iv[s.off], c);
    (Feedback(iv[s.off := if encrypt then o else c], (s.off + 1) % n), o)
  }

  ghost function Cfb(enc: bytes -> bytes, n: nat, encrypt: bool, s: Feedback, text: bytes): (r: Streamed<Feedback>)
    requires ValidFeedback(s, n) && Keeps(enc, n)
    ensures ValidFeedback(r.state, n) && |r.text| == |text|
    decreases |text|
  {
    if text == [] then Streamed(s, [])
    else
      var first := CfbByte(enc, n, encrypt, s, text[0]);
      var rest := Cfb(enc, n, encrypt, first.0, text[1..]);
      Streamed(rest.state, [first.1] + rest.text)
  }

  /** A message processed in two calls gives what one call gives. */
  lemma {:induction false} CfbSplit(enc: bytes -> bytes, n: nat, encrypt: bool, s: Feedback, a: bytes, b: bytes)
    requires ValidFeedback(s, n) && Keeps(enc, n)
    ensures var first := Cfb(enc, n, encrypt, s, a);
            var second := Cfb(enc, n, encrypt, first.state, b);
            Cfb(enc, n, encrypt, s, a + b) == Streamed(second.state, first.text + second.text)
    decreases |a|
  {
    hide Xor;
    if a == [] {
      assert a + b == b;
    } else {
      assert (a + b)[1..] == a[1..] + b;
      CfbSplit(enc, n, encrypt, CfbByte(enc, n, encrypt, s, a[0]).0, a[1..], b);
    }
  }

  /** One byte led from s to next and from c to o. */
  ghost predicate CfbTurn(enc: bytes -> bytes, n: nat, encrypt: bool, s: Feedback, c: bv8, next: Feedback, o: bv8) {
    ValidFeedback(s, n) && Keeps(enc, n) && (next, o) == CfbByte(enc, n, encrypt, s, c)
  }

  /** The first i bytes of a text led to the state now and the bytes out. */
  ghost predicate CfbDone(enc: bytes -> bytes, n: nat, encrypt: bool, s: Feedback, text: bytes, i: nat, now: Feedback, out: bytes) {
    ValidFeedback(s, n) && ValidFeedback(now, n) && Keeps(enc, n) && i <= |text| && Cfb(enc, n, encrypt, s, text[..i]) == Streamed(now, out)
  }

  lemma CfbBegins(enc: bytes -> bytes, n: nat, encrypt: bool, s: Feedback, text: bytes)
    requires ValidFeedback(s, n) && Keeps(enc, n)
    ensures CfbDone(enc, n, encrypt, s, text, 0, s, [])
  {
  }

  lemma CfbEnds(enc: bytes -> bytes, n: nat, encrypt: bool, s: Feedback, text: bytes, now: Feedback, out: bytes)
    requires CfbDone(enc, n, encrypt, s, text, |text|, now, out)
    ensures Cfb(enc, n, encrypt, s, text) == Streamed(now, out)
  {
    assert text[..|text|] == text;
  }

  lemma CfbNext(enc: bytes -> bytes, n: nat, encrypt: bool, s: Feedback, text: bytes, i: nat, now: Feedback, out: bytes,
                 next: Feedback, o: bv8)
    requires CfbDone(enc, n, encrypt, s, text, i, now, out) && i < |text|
    requires CfbTurn(enc, n, encrypt, now, text[i], next, o)
    ensures CfbDone(enc, n, encrypt, s, text, i + 1, next, out + [o])
  {
    hide CfbByte;
    CfbSplit(enc, n, encrypt, s, text[..i], [text[i]]);
    OneMore(text, i);
    assert [text[i]][1..] == [];
  }

  lemma CfbByteBack(enc: bytes -> bytes, n: nat, s: Feedback, c: bv8)
    requires ValidFeedback(s, n) && Keeps(enc, n)
    ensures CfbByte(enc, n, false, s, CfbByte(enc, n, true, s, c).1) == (CfbByte(enc, n, true, s, c).0, c)
  {
    hide Xor;
    var iv := if s.off == 0 then enc(s.iv) else s.iv;
    XorBack(c, iv[s.off]);
  }

  /** CFB decryption gives the text back and ends in the same state. */
  lemma {:induction false} CfbRoundTrip(enc: bytes -> bytes, n: nat, s: Feedback, text: bytes)
    requires ValidFeedback(s, n) && Keeps(enc, n)
    ensures var c := Cfb(enc, n, true, s, text); Cfb(enc, n, false, s, c.text) == Streamed(c.state, text)
    decreases |text|
  {
    hide CfbByte;
    if text != [] {
      CfbByteBack(enc, n, s, text[0]);
      CfbRoundTrip(enc, n, CfbByte(enc, n, true, s, text[0]).0, text[1..]);
    }
  }

  // ----- CFB8 -----

  /** One byte: the vector shifts in the ciphertext byte. */
  ghost function Cfb8Byte(enc: bytes -> bytes, n: nat, encrypt: bool, iv: bytes, c: bv8): (r: (bytes, bv8))
    requires n > 0 && |iv| == n && Keeps(enc, n)
    ensures |r.0| == n
  {
    var o := Xor(enc(iv)[0], c);
    (iv[1..] + [if encrypt then o else c], o)
  }

  ghost function Cfb8(enc: bytes -> bytes, n: nat, encrypt: bool, iv: bytes, text: bytes): (r: Streamed<bytes>)
    requires n > 0 && |iv| == n && Keeps(enc, n)
    ensures |r.state| == n && |r.text| == |text|
    decreases |text|
  {
    if text == [] then Streamed(iv, [])
    else
      var first := Cfb8Byte(enc, n, encrypt, iv, text[0]);
      var rest := Cfb8(enc, n, encrypt, first.0, text[1..]);
      Streamed(rest.state, [first.1] + rest.text)
  }

  lemma {:induction false} Cfb8Split(enc: bytes -> bytes, n: nat, encrypt: bool, iv: bytes, a: bytes, b: bytes)
    requires n > 0 && |iv| == n && Keeps(enc, n)
    ensures var first := Cfb8(enc, n, encrypt, iv, a);
            var second := Cfb8(enc, n, encrypt, first.state, b);
            Cfb8(enc, n, encrypt, iv, a + b) == Streamed(second.state, first.text + second.text)
    decreases |a|
  {
    hide Xor;
    if a == [] {
      assert a + b == b;
    } else {
      assert (a + b)[1..] == a[1..] + b;
      Cfb8Split(enc, n, encrypt, Cfb8Byte(enc, n, encrypt, iv, a[0]).0, a[1..], b);
    }
  }

  lemma {:induction false} Cfb8RoundTrip(enc: bytes -> bytes, n: nat, iv: bytes, text: bytes)
    requires n > 0 && |iv| == n && Keeps(enc, n)
    ensures var c := Cfb8(enc, n, true, iv, text); Cfb8(enc, n, false, iv, c.text) == Streamed(c.state, text)
    decreases |text|
  {
    hide Xor;
    if text != [] {
      XorBack(text[0], enc(iv)[0]);
      Cfb8RoundTrip(enc, n, Cfb8Byte(enc, n, true, iv, text[0]).0, text[1..]);
    }
  }

  /** One byte led from s to next and from c to o. */
  ghost predicate Cfb8Turn(enc: bytes -> bytes, n: nat, encrypt: bool, s: bytes, c: bv8, next: bytes, o: bv8) {
    n > 0 && |s| == n && Keeps(enc, n) && (next, o) == Cfb8Byte(enc, n, encrypt, s, c)
  }

  /** The first i bytes of a text led to the state now and the bytes out. */
  ghost predicate Cfb8Done(enc: bytes -> bytes, n: nat, encrypt: bool, iv: bytes, text: bytes, i: nat, now: bytes, out: bytes) {
    n > 0 && |iv| == n && |now| == n && Keeps(enc, n) && i <= |text| && Cfb8(enc, n, encrypt, iv, text[..i]) == Streamed(now, out)
  }

  lemma Cfb8Begins(enc: bytes -> bytes, n: nat, encrypt: bool, iv: bytes, text: bytes)
    requires n > 0 && |iv| == n && Keeps(enc, n)
    ensures Cfb8Done(enc, n, encrypt, iv, text, 0, iv, [])
  {
  }

  lemma Cfb8Ends(enc: bytes -> bytes, n: nat, encrypt: bool, iv: bytes, text: bytes, now: bytes, out: bytes)
    requires Cfb8Done(enc, n, encrypt, iv, text, |text|, now, out)
    ensures Cfb8(enc, n, encrypt, iv, text) == Streamed(now, out)
  {
    assert text[..|text|] == text;
  }

  lemma Cfb8Next(enc: bytes -> bytes, n: nat, encrypt: bool, iv: bytes, text: bytes, i: nat, now: bytes, out: bytes,
                 next: bytes, o: bv8)
    requires Cfb8Done(enc, n, encrypt, iv, text, i, now, out) && i < |text|
    requires Cfb8Turn(enc, n, encrypt, now, text[i], next, o)
    ensures Cfb8Done(enc, n, encrypt, iv, text, i + 1, next, out + [o])
  {
    hide Cfb8Byte;
    Cfb8Split(enc, n, encrypt, iv, text[..i], [text[i]]);
    OneMore(text, i);
    assert [text[i]][1..] == [];
  }

  // ----- CTR -----

  /** The counter, the stream block in use and the offset into it. */
  datatype Counter = Counter(counter: bytes, stream: bytes, off: nat)

  predicate ValidCounter(s: Counter, n: nat) {
    |s.counter| == n && |s.stream| == n && s.off < n
  }

  /** The counter plus one, as a big-endian number. */
  function Increment(c: bytes): (r: bytes)
    ensures |r| == |c|
  {
    if c == [] then []
    else
      var n := |c| - 1;
      if c[n] == 0xFF then Increment(c[..n]) + [0] else c[n := c[n] + 1]
  }

  /** The bytes as numbers. */
  function Ints(c: bytes): (s: seq<byte>)
    ensures |s| == |c| && forall i :: 0 <= i < |c| ==> s[i] == c[i] as int
  {
    seq(|c|, i requires 0 <= i < |c| => c[i] as int)
  }

  lemma NumberOfInts(c: bytes)
    requires c != []
    ensures var n := |c| - 1; Number(Ints(c)) == 256 * Number(Ints(c[..n])) + (c[n] as int)
  {
    assert Ints(c)[..|c| - 1] == Ints(c[..|c| - 1]);
  }

  lemma NextByte(x: bv8)
    ensures x != 0xFF ==> (x + 1) as int == (x as int) + 1
    ensures x == 0xFF <==> x as int == 255
  {
  }

  /** Incrementing adds one modulo the size of the counter. */
  lemma {:induction false} IncrementAddsOne(c: bytes)
    ensures Number(Ints(c)) < ByteWeight(|c|)
    ensures var v := Number(Ints(c)) + 1; Number(Ints(Increment(c))) == if v == ByteWeight(|c|) then 0 else v
    decreases |c|
  {
    if c != [] {
      hide Number, Ints;
      var n, r := |c| - 1, Increment(c);
      IncrementAddsOne(c[..n]);
      NumberOfInts(c);
      NumberOfInts(r);
      NextByte(c[n]);
      if c[n] == 0xFF {
        assert r[..n] == Increment(c[..n]) && r[n] as int == 0;
      } else {
        assert r[..n] == c[..n];
      }
    } else {
      assert Ints(c) == [];
    }
  }

  ghost function CtrByte(enc: bytes -> bytes, n: nat, s: Counter, c: bv8): (r: (Counter, bv8))
    requires ValidCounter(s, n) && Keeps(enc, n)
    ensures ValidCounter(r.0, n)
  {
    var t := if s.off == 0 then Counter(Increment(s.counter), enc(s.counter), 0) else s;
    (t.(off := (s.off + 1) % n), Xor(c, t.stream[s.off]))
  }

  ghost function Ctr(enc: bytes -> bytes, n: nat, s: Counter, text: bytes): (r: Streamed<Counter>)
    requires ValidCounter(s, n) && Keeps(enc, n)
    ensures ValidCounter(r.state, n) && |r.text| == |text|
    decreases |text|
  {
    if text == [] then Streamed(s, [])
    else
      var first := CtrByte(enc, n, s, text[0]);
      var rest := Ctr(enc, n, first.0, text[1..]);
      Streamed(rest.state, [first.1] + rest.text)
  }

  lemma {:induction false} CtrSplit(enc: bytes -> bytes, n: nat, s: Counter, a: bytes, b: bytes)
    requires ValidCounter(s, n) && Keeps(enc, n)
    ensures var first := Ctr(enc, n, s, a);
            var second := Ctr(enc, n, first.state, b);
            Ctr(enc, n, s, a + b) == Streamed(second.state, first.text + second.text)
    decreases |a|
  {
    hide Xor, Increment;
    if a == [] {
      assert a + b == b;
    } else {
      assert (a + b)[1..] == a[1..] + b;
      CtrSplit(enc, n, CtrByte(enc, n, s, a[0]).0, a[1..], b);
    }
  }

  /** One byte led from s to next and from c to o. */
  ghost predicate CtrTurn(enc: bytes -> bytes, n: nat, s: Counter, c: bv8, next: Counter, o: bv8) {
    ValidCounter(s, n) && Keeps(enc, n) && (next, o) == CtrByte(enc, n, s, c)
  }

  /** The first i bytes of a text led to the state now and the bytes out. */
  ghost predicate CtrDone(enc: bytes -> bytes, n: nat, s: Counter, text: bytes, i: nat, now: Counter, out: bytes) {
    ValidCounter(s, n) && ValidCounter(now, n) && Keeps(enc, n) && i <= |text| && Ctr(enc, n, s, text[..i]) == Streamed(now, out)
  }

  lemma CtrBegins(enc: bytes -> bytes, n: nat, s: Counter, text: bytes)
    requires ValidCounter(s, n) && Keeps(enc, n)
    ensures CtrDone(enc, n, s, text, 0, s, [])
  {
  }

  lemma CtrEnds(enc: bytes -> bytes, n: nat, s: Counter, text: bytes, now: Counter, out: bytes)
    requires CtrDone(enc, n, s, text, |text|, now, out)
    ensures Ctr(enc, n, s, text) == Streamed(now, out)
  {
    assert text[..|text|] == text;
  }

  lemma CtrNext(enc: bytes -> bytes, n: nat, s: Counter, text: bytes, i: nat, now: Counter, out: bytes,
                 next: Counter, o: bv8)
    requires CtrDone(enc, n, s, text, i, now, out) && i < |text|
    requires CtrTurn(enc, n, now, text[i], next, o)
    ensures CtrDone(enc, n, s, text, i + 1, next, out + [o])
  {
    hide CtrByte;
    CtrSplit(enc, n, s, text[..i], [text[i]]);
    OneMore(text, i);
    CtrOne(enc, n, now, text[i]);
  }

  lemma CtrOne(enc: bytes -> bytes, n: nat, s: Counter, c: bv8)
    requires ValidCounter(s, n) && Keeps(enc, n)
    ensures Ctr(enc, n, s, [c]) == Streamed(CtrByte(enc, n, s, c).0, [CtrByte(enc, n, s, c).1])
  {
    hide CtrByte, ValidCounter;
    assert [c][1..] == [];
  }

  lemma CtrByteBack(enc: bytes -> bytes, n: nat, s: Counter, c: bv8)
    requires ValidCounter(s, n) && Keeps(enc, n)
    ensures CtrByte(enc, n, s, CtrByte(enc, n, s, c).1) == (CtrByte(enc, n, s, c).0, c)
  {
    hide Xor, Increment;
    var t := if s.off == 0 then Counter(Increment(s.counter), enc(s.counter), 0) else s;
    XorBack(c, t.stream[s.off]);
  }

  /** CTR undoes itself: it does not look at the text. */
  lemma {:induction false} CtrRoundTrip(enc: bytes -> bytes, n: nat, s: Counter, text: bytes)
    requires ValidCounter(s, n) && Keeps(enc, n)
    ensures var c := Ctr(enc, n, s, text); Ctr(enc, n, s, c.text) == Streamed(c.state, text)
    decreases |text|
  {
    hide CtrByte;
    if text != [] {
      CtrByteBack(enc, n, s, text[0]);
      CtrRoundTrip(enc, n, CtrByte(enc, n, s, text[0]).0, text[1..]);
    }
  }
}
