/** blowfish.c: the block cipher, for any contents of the P array and the S boxes. */
module Blowfish {
  import opened Bits

  const ROUNDS: nat := 16

  /** The two halves of a block. */
  datatype Halves = Halves(l: bv32, r: bv32)

  // ----- the cipher -----

  /** The contents of a context. */
  datatype Schedule = Schedule(p: seq<bv32>, s0: seq<bv32>, s1: seq<bv32>, s2: seq<bv32>, s3: seq<bv32>) {
    predicate Sized() {
      |p| == 18 && |s0| == |s1| == |s2| == |s3| == 256
    }
  }

  /** The lowest byte, as an index. */
  function Low(x: bv32): (i: nat)
    ensures i < 256
  {
    (x & 0xFF) as int
  }

  function ShiftRight8(x: bv32): bv32 {
    x >> 8
  }

  function Add32(a: bv32, b: bv32): bv32 {
    a + b
  }

  /** The round function. */
  function F(s: Schedule, x: bv32): bv32
    requires s.Sized()
  {
    var x1 := ShiftRight8(x);
    var x2 := ShiftRight8(x1);
    var x3 := ShiftRight8(x2);
    Add32(Xor32(Add32(s.s0[Low(x3)], s.s1[Low(x2)]), s.s2[Low(x1)]), s.s3[Low(x)])
  }

  /** What both directions do with a round key: mix it in, and exchange the halves. */
  function Round(s: Schedule, k: bv32, x: Halves): Halves
    requires s.Sized()
  {
    var l := Xor32(x.l, k);
    Halves(Xor32(F(s, l), x.r), l)
  }

  /** The first n rounds of encryption. */
  function Forward(s: Schedule, x: Halves, n: nat): Halves
    requires s.Sized() && n <= ROUNDS
  {
    if n == 0 then x else Round(s, s.p[n - 1], Forward(s, x, n - 1))
  }

  /** The first n rounds of decryption. */
  function Backward(s: Schedule, x: Halves, n: nat): Halves
    requires s.Sized() && n <= ROUNDS
  {
    if n == 0 then x else Round(s, s.p[ROUNDS + 2 - n], Backward(s, x, n - 1))
  }

  /** The last exchange is undone and the remaining keys are mixed in. */
  function Finish(x: Halves, kr: bv32, kl: bv32): Halves {
    Halves(Xor32(x.r, kl), Xor32(x.l, kr))
  }

  function Enciphered(s: Schedule, x: Halves): Halves
    requires s.Sized()
  {
    Finish(Forward(s, x, ROUNDS), s.p[ROUNDS], s.p[ROUNDS + 1])
  }

  function Deciphered(s: Schedule, x: Halves): Halves
    requires s.Sized()
  {
    Finish(Backward(s, x, ROUNDS), s.p[1], s.p[0])
  }

  /** Removing two keys and one value of the round function. */
  lemma Unround(f: bv32, r: bv32, k: bv32, k': bv32, l: bv32)
    ensures Xor32(Xor32(l, k'), k') == l
    ensures Xor32(f, Xor32(Xor32(f, r), k)) == Xor32(r, k)
  {
    hide Xor32;
    Xor32Back(l, k');
    Xor32Associates(f, r, k);
    Xor32Back(Xor32(r, k), f);
  }

  /** n rounds of decryption lead back to where the last n rounds of encryption started: each half is that of a
      forward state with a round key on it. */
  lemma {:induction false} BackwardMeetsForward(s: Schedule, x: Halves, n: nat)
    requires s.Sized() && n <= ROUNDS
    ensures var f := Forward(s, x, ROUNDS - n);
            Backward(s, Enciphered(s, x), n) == Halves(Xor32(f.r, s.p[ROUNDS + 1 - n]), Xor32(f.l, s.p[ROUNDS - n]))
  {
    hide F, Xor32;
    if n > 0 {
      BackwardMeetsForward(s, x, n - 1);
      var f := Forward(s, x, ROUNDS - n);
      var g := Round(s, s.p[ROUNDS - n], f);
      assert g == Forward(s, x, ROUNDS - (n - 1));
      Unround(F(s, g.r), f.r, s.p[ROUNDS + 1 - n], s.p[ROUNDS + 2 - n], g.r);
    }
  }

  /** Decryption undoes encryption for every contents of P and the S boxes. */
  lemma DecipherEncipher(s: Schedule, x: Halves)
    requires s.Sized()
    ensures Deciphered(s, Enciphered(s, x)) == x
  {
    BackwardMeetsForward(s, x, ROUNDS);
    ForwardStart(s, x);
    hide F, Xor32, Forward, Backward;
    Xor32Back(x.l, s.p[0]);
    Xor32Back(x.r, s.p[1]);
  }

  lemma ForwardStart(s: Schedule, x: Halves)
    requires s.Sized()
    ensures Forward(s, x, 0) == x
  {
    hide F, Xor32;
  }

  // ----- the context -----

  class Context {
    const P: array<bv32>
    const S0: array<bv32>
    const S1: array<bv32>
    const S2: array<bv32>
    const S3: array<bv32>

    constructor ()
      ensures Sized() && fresh(P) && fresh(S0) && fresh(S1) && fresh(S2) && fresh(S3)
    {
      P := new bv32[18];
      S0, S1, S2, S3 := new bv32[256], new bv32[256], new bv32[256], new bv32[256];
    }

    predicate Sized() {
      P.Length == 18 && S0.Length == S1.Length == S2.Length == S3.Length == 256
    }

    ghost function Contents(): (s: Schedule)
      requires Sized()
      reads P, S0, S1, S2, S3
      ensures s.Sized()
    {
      Schedule(P[..], S0[..], S1[..], S2[..], S3[..])
    }

    /** The round function on the context's own arrays. */
    method RoundFunction(x0: bv32) returns (y: bv32)
      requires Sized()
      ensures y == F(Contents(), x0)
    {
      hide Low, Add32, Xor32, ShiftRight8;
      var x := x0;
      var d := Low(x);
      x := ShiftRight8(x);
      var c := Low(x);
      x := ShiftRight8(x);
      var b := Low(x);
      x := ShiftRight8(x);
      var a := Low(x);
      y := Add32(S0[a], S1[b]);
      y := Xor32(y, S2[c]);
      y := Add32(y, S3[d]);
    }

    /** blowfish_enc. */
    method Enc(x: Halves) returns (y: Halves)
      requires Sized()
      ensures y == Enciphered(Contents(), x)
    {
      hide F, Xor32;
      var xl, xr := x.l, x.r;
      var i := 0;
      while i < ROUNDS
        invariant 0 <= i <= ROUNDS && Halves(xl, xr) == Forward(Contents(), x, i)
      {
        xl := Xor32(xl, P[i]);
        var f := RoundFunction(xl);
        xr := Xor32(f, xr);
        var temp := xl;
        xl := xr;
        xr := temp;
        i := i + 1;
      }
      var temp := xl;
      xl := xr;
      xr := temp;
      xr := Xor32(xr, P[ROUNDS]);
      xl := Xor32(xl, P[ROUNDS + 1]);
      y := Halves(xl, xr);
    }

    /** blowfish_dec. */
    method Dec(x: Halves) returns (y: Halves)
      requires Sized()
      ensures y == Deciphered(Contents(), x)
    {
      hide F, Xor32;
      var xl, xr := x.l, x.r;
      var i := ROUNDS + 1;
      while i > 1
        invariant 1 <= i <= ROUNDS + 1 && Halves(xl, xr) == Backward(Contents(), x, ROUNDS + 1 - i)
      {
        xl := Xor32(xl, P[i]);
        var f := RoundFunction(xl);
        xr := Xor32(f, xr);
        var temp := xl;
        xl := xr;
        xr := temp;
        i := i - 1;
      }
      var temp := xl;
      xl := xr;
      xr := temp;
      xr := Xor32(xr, P[1]);
      xl := Xor32(xl, P[0]);
      y := Halves(xl, xr);
    }
  }
}
