/** Bytes, and byte strings read as numbers, highest byte first. */
module Octets {
  import opened Arith

  type byte = x: int | 0 <= x < 256

  /** 256^n: the weight of a byte. */
  function ByteWeight(n: nat): (w: int)
    ensures w > 0
  {
    PowPositive(256, n);
    Pow(256, n)
  }

  lemma ByteWeightAdd(m: nat, n: nat)
    ensures ByteWeight(m + n) == ByteWeight(m) * ByteWeight(n)
  {
    PowAdd(256, m, n);
  }

  lemma {:induction false} ByteWeightIsPow2(n: nat)
    ensures ByteWeight(n) == Pow2(8 * n)
  {
    if n > 0 {
      ByteWeightIsPow2(n - 1);
      Pow2Add(8, 8 * (n - 1));
      assert Pow2(8) == 256 by {
        Pow2Add(4, 4);
        Pow2Add(2, 2);
      }
    }
  }

  /** The number that a byte string stands for. */
  function Number(s: seq<byte>): (v: nat) {
    if s == [] then 0 else 256 * Number(s[..|s| - 1]) + s[|s| - 1]
  }

  lemma {:induction false} NumberBound(s: seq<byte>)
    ensures Number(s) < ByteWeight(|s|)
  {
    if s != [] {
      NumberBound(s[..|s| - 1]);
    }
  }

  /** A byte more in front. */
  lemma {:induction false} NumberCons(b: byte, s: seq<byte>)
    ensures Number([b] + s) == b * ByteWeight(|s|) + Number(s)
    decreases |s|
  {
    if s == [] {
      assert ([b] + s)[..0] == [];
    } else {
      var t := s[..|s| - 1];
      NumberCons(b, t);
      assert ([b] + s)[..|s|] == [b] + t;
      MulAssoc(256, b, ByteWeight(|t|));
      MulAssoc(b, 256, ByteWeight(|t|));
      MulDist(256, b * ByteWeight(|t|), Number(t));
    }
  }

  /** Zeros in front change nothing. */
  lemma {:induction false} NumberPadded(s: seq<byte>, n: nat)
    requires n <= |s| && forall i :: 0 <= i < n ==> s[i] == 0
    ensures Number(s) == Number(s[n..])
    decreases n
  {
    if n > 0 {
      assert s == [s[0]] + s[1..];
      NumberCons(0, s[1..]);
      NumberPadded(s[1..], n - 1);
      assert s[1..][n - 1..] == s[n..];
    } else {
      assert s[0..] == s;
    }
  }

  /** The lowest n base-256 digits of v. */
  function Digits(v: nat, n: nat): (s: seq<byte>)
    ensures |s| == n
  {
    if n == 0 then [] else Digits(v / 256, n - 1) + [v % 256]
  }

  /** A digit more in front. */
  lemma {:induction false} DigitsCons(v: nat, n: nat)
    ensures Digits(v, n + 1) == [(v / ByteWeight(n)) % 256] + Digits(v, n)
  {
    if n > 0 {
      DigitsCons(v / 256, n - 1);
      DivByteWeight(v, n - 1);
    }
  }

  lemma DivByteWeight(v: nat, n: nat)
    ensures (v / 256) / ByteWeight(n) == v / ByteWeight(n + 1)
  {
    var w := ByteWeight(n);
    var h, l := v / 256, v % 256;
    var q, r := h / w, h % w;
    assert h == q * w + r;
    assert v == 256 * (q * w + r) + l;
    assert 256 * (q * w) == q * (256 * w);
    DivModUnique(v, 256 * w, q, 256 * r + l);
  }

  /** What fits is restored. */
  lemma {:induction false} NumberOfDigits(v: nat, n: nat)
    requires v < ByteWeight(n)
    ensures Number(Digits(v, n)) == v
  {
    if n > 0 {
      NumberOfDigits(v / 256, n - 1);
      assert Digits(v, n)[..n - 1] == Digits(v / 256, n - 1);
    }
  }

  /** Digits above those needed are zero. */
  lemma {:induction false} DigitsPadded(v: nat, n: nat, k: nat)
    requires v < ByteWeight(n)
    ensures Digits(v, k + n) == seq(k, _ => 0) + Digits(v, n)
    decreases k
  {
    if k > 0 {
      DigitsPadded(v, n, k - 1);
      DigitsCons(v, k - 1 + n);
      DigitAbove(v, n, k - 1);
      ZerosCons(k);
    } else {
      assert seq(0, _ => 0 as byte) == [];
    }
  }

  lemma DigitAbove(v: nat, n: nat, k: nat)
    requires v < ByteWeight(n)
    ensures (v / ByteWeight(k + n)) % 256 == 0
  {
    ByteWeightAdd(k, n);
    MulLe(ByteWeight(n), 1, ByteWeight(k));
    DivModUnique(v, ByteWeight(k + n), 0, v);
  }

  lemma ZerosCons(k: nat)
    requires k > 0
    ensures seq(k, _ => 0 as byte) == [0] + seq(k - 1, _ => 0 as byte)
  {
  }
}
