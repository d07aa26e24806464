/** Logarithms to base 3, inverses, and the AES S-box. */
module AesSbox {
  import opened Arith
  import opened NumberTheory
  import opened Bits
  import opened GaloisField

  // ----- bytes as indices -----

  function Index(x: bv8): (i: nat)
    ensures i < 256
  {
    x as int
  }

  function Byte(i: nat): bv8
    requires i < 256
  {
    i as bv8
  }

  lemma ByteIndex(x: bv8)
    ensures Byte(Index(x)) == x && (Index(x) == 0 <==> x == 0)
  {
  }

  lemma IndexNext(x: bv8)
    requires x != 255
    ensures Index(x + 1) == Index(x) + 1
  {
  }

  lemma {:induction false} ByteAt(i: nat) returns (x: bv8)
    requires i < 256
    ensures Index(x) == i
  {
    x := 0;
    if i > 0 {
      var y := ByteAt(i - 1);
      IndexNext(y);
      x := y + 1;
    }
  }

  lemma IndexByte(i: nat)
    requires i < 256
    ensures Index(Byte(i)) == i
  {
    var x := ByteAt(i);
    ByteIndex(x);
  }

  predicate Distinct(s: seq<bv8>) {
    forall i, j :: 0 <= i < j < |s| ==> s[i] != s[j]
  }

  lemma {:induction false} DistinctSize(s: seq<bv8>)
    requires Distinct(s)
    ensures |set x | x in s| == |s|
  {
    if s != [] {
      var n := |s| - 1;
      DistinctSize(s[..n]);
      assert s == s[..n] + [s[n]];
      assert (set x | x in s) == (set x | x in s[..n]) + {s[n]};
    }
  }

  lemma {:induction false} BytesSize(n: nat)
    requires n <= 256
    ensures |set i | 0 <= i < n :: Byte(i)| <= n
  {
    if n > 0 {
      BytesSize(n - 1);
      assert (set i | 0 <= i < n :: Byte(i)) == (set i | 0 <= i < n - 1 :: Byte(i)) + {Byte(n - 1)};
    }
  }

  lemma {:induction false} SubsetFull<T>(a: set<T>, b: set<T>)
    requires a <= b && |a| >= |b|
    ensures a == b
  {
    if a != {} {
      var x :| x in a;
      SubsetFull(a - {x}, b - {x});
    }
  }

  /** 256 different bytes are all bytes. */
  lemma AllBytes(s: seq<bv8>, x: bv8)
    requires |s| == 256 && Distinct(s)
    ensures x in s
  {
    var a, b := set y | y in s, set i | 0 <= i < 256 :: Byte(i);
    DistinctSize(s);
    BytesSize(256);
    forall y | y in a
      ensures y in b
    {
      ByteIndex(y);
    }
    SubsetFull(a, b);
    ByteIndex(x);
    assert x in b;
  }

  // ----- the order of 3 -----

  lemma PowersKnown()
    ensures Power(17) == 0xE1 && Power(51) == 0x0C && Power(85) == 0xBD && Power(255) == 1
  {
    SmallPowers();
    Products();
    hide Power, Mul;
    PowerSum(4, 4);
    PowerSum(8, 8);
    PowerSum(16, 1);
    PowerSum(17, 17);
    PowerSum(34, 17);
    PowerSum(51, 34);
    PowerSum(85, 85);
    PowerSum(170, 85);
  }

  lemma PowerFifteen()
    ensures Power(15) != 1
  {
    PowersKnown();
    SmallPowers();
    assert Mul(1, 5) == 5;
    hide Power, Mul;
    PowerSum(15, 2);
  }

  lemma PowerDifference(a: nat, b: nat)
    requires b <= a && Power(a) == 1 && Power(b) == 1
    ensures Power(a - b) == 1
  {
    ScaledSum(1, b, a - b);
  }

  lemma {:induction false} PowerMultiple(g: nat, k: nat)
    requires Power(g) == 1
    ensures k * g >= 0 && Power(k * g) == 1
  {
    hide Scaled;
    if k == 0 {
      SmallPowers();
    } else {
      PowerMultiple(g, k - 1);
      assert k * g == (k - 1) * g + g;
      ScaledSum(1, (k - 1) * g, g);
    }
  }

  lemma {:induction false} PowerRemainder(a: nat, b: nat)
    requires b > 0 && Power(a) == 1 && Power(b) == 1
    ensures Power(a % b) == 1
  {
    if a >= b {
      PowerDifference(a, b);
      PowerRemainder(a - b, b);
      DivModUnique(a, b, (a - b) / b + 1, (a - b) % b);
    }
  }

  lemma {:induction false} PowerGcd(a: nat, b: nat)
    requires Power(a) == 1 && Power(b) == 1
    ensures Power(Gcd(a, b)) == 1
    decreases b
  {
    hide Power;
    if b > 0 {
      PowerRemainder(a, b);
      PowerGcd(b, a % b);
    }
  }

  lemma SmallDivisor(g: nat)
    requires 1 <= g <= 15 && 255 % g == 0
    ensures g == 1 || g == 3 || g == 5 || g == 15
  {
    assert g == 1 || g == 2 || g == 3 || g == 4 || g == 5 || g == 6 || g == 7 || g == 8
        || g == 9 || g == 10 || g == 11 || g == 12 || g == 13 || g == 14 || g == 15;
  }

  /** The maximal proper divisors of 255 are 85, 51 and 15. */
  lemma MaximalDivisors(g: nat)
    requires 0 < g < 255 && 255 % g == 0
    ensures 85 % g == 0 || 51 % g == 0 || 15 % g == 0
  {
    var k := 255 / g;
    assert 255 == g * k;
    if g <= 15 {
      SmallDivisor(g);
    } else {
      if k > 15 {
        MulLe(g, 16, k);
      }
      MultipleMod(g, k);
      SmallDivisor(k);
      assert k == 3 || k == 5 || k == 15;
    }
  }

  /** No power of 3 below the 255th is 1 again. */
  lemma OrderOfThree(d: nat)
    requires 0 < d < 255
    ensures Power(d) != 1
  {
    if Power(d) == 1 {
      PowersKnown();
      PowerFifteen();
      var g := Gcd(255, d);
      PowerGcd(255, d);
      assert 0 < g <= d && 255 % g == 0 by {
        hide Power;
        GcdDivides(255, d);
        DividesBound(g, d);
      }
      hide Power, Gcd;
      MaximalDivisors(g);
      if 85 % g == 0 {
        MultipleIsOne(85, g);
      } else if 51 % g == 0 {
        MultipleIsOne(51, g);
      } else {
        MultipleIsOne(15, g);
      }
    }
  }

  lemma MultipleIsOne(m: nat, g: nat)
    requires g > 0 && Power(g) == 1 && m % g == 0
    ensures Power(m) == 1
  {
    hide Power;
    PowerMultiple(g, m / g);
  }

  lemma PowersDistinct(i: nat, j: nat)
    requires i < j && j - i < 255
    ensures Power(i) != Power(j)
  {
    if Power(i) == Power(j) {
      ScaledSum(1, j - i, i);
      ScaledInjective(Power(j - i), 1, i);
      OrderOfThree(j - i);
    }
  }

  lemma {:induction false} PowerNonzero(k: nat)
    ensures Power(k) != 0
  {
    if k > 0 {
      PowerNonzero(k - 1);
      TripleNonzero(Power(k - 1));
    }
  }

  // ----- logarithms and inverses -----

  predicate IsLog(k: nat, x: bv8) {
    1 <= k <= 255 && Power(k) == x
  }

  /** Every nonzero byte has a logarithm. */
  lemma HasLog(x: bv8) returns (k: nat)
    requires x != 0
    ensures IsLog(k, x)
  {
    var s := [0] + seq(255, i requires 0 <= i < 255 => Power(i + 1));
    forall i, j | 0 <= i < j < 256
      ensures s[i] != s[j]
    {
      if i == 0 {
        PowerNonzero(j);
      } else {
        PowersDistinct(i, j);
      }
    }
    AllBytes(s, x);
    k :| 0 <= k < 256 && s[k] == x;
  }

  lemma LogUnique(k: nat, l: nat, x: bv8)
    requires IsLog(k, x) && IsLog(l, x)
    ensures k == l
  {
    if k < l {
      PowersDistinct(k, l);
    } else if l < k {
      PowersDistinct(l, k);
    }
  }

  lemma LogExists(x: bv8)
    requires x != 0
    ensures exists k :: IsLog(k, x)
  {
    var k := HasLog(x);
  }

  ghost function Log(x: bv8): (k: nat)
    requires x != 0
    ensures IsLog(k, x)
  {
    LogExists(x);
    var k :| IsLog(k, x);
    k
  }

  /** The inverse, and 0 for 0. */
  ghost function Inverse(x: bv8): bv8 {
    if x == 0 then 0 else Power(255 - Log(x))
  }

  lemma InverseWorks(x: bv8)
    requires x != 0
    ensures Mul(x, Inverse(x)) == 1 && Inverse(x) != 0
  {
    hide Mul, Power;
    var k := Log(x);
    PowersKnown();
    PowerSum(k, 255 - k);
    PowerNonzero(255 - k);
  }

  lemma InverseInjective(x: bv8, y: bv8)
    requires Inverse(x) == Inverse(y)
    ensures x == y
  {
    if x != 0 {
      InverseWorks(x);
    }
    if y != 0 {
      InverseWorks(y);
    }
    if x != 0 && y != 0 && Log(x) != Log(y) {
      var i, j := 255 - Log(x), 255 - Log(y);
      if i < j {
        PowersDistinct(i, j);
      } else {
        PowersDistinct(j, i);
      }
    }
  }

  /** Multiplication by logarithms. */
  lemma LogMul(x: bv8, y: bv8, k: nat, l: nat)
    requires IsLog(k, x) && IsLog(l, y)
    ensures Power((k + l) % 255) == Mul(x, y)
  {
    hide Mul, Power;
    PowersKnown();
    SmallPowers();
    PowerSum(k, l);
    if k + l >= 255 {
      PowerWraps(k + l - 255);
      if k + l - 255 == 255 {
        PowerWraps(0);
      }
    }
  }

  lemma PowerWraps(j: nat)
    ensures Power(j + 255) == Power(j)
  {
    PowersKnown();
    hide Scaled;
    ScaledSum(1, 255, j);
  }

  // ----- the S-box (FIPS-197 section 5.1.1) -----

  function Rotated(y: bv8): bv8 {
    (y << 1) | (y >> 7)
  }

  /** The affine map, as the source computes it. */
  function Affine(x: bv8): bv8 {
    var y1 := Rotated(x);
    var y2 := Rotated(y1);
    var y3 := Rotated(y2);
    var y4 := Rotated(y3);
    Xor(Xor(Xor(Xor(x, y1), y2), y3), Xor(y4, 0x63))
  }

  /** Undoes it: rotations by 1, 3 and 6. */
  function AffineBack(y: bv8): bv8 {
    ((y << 1) | (y >> 7)) ^ ((y << 3) | (y >> 5)) ^ ((y << 6) | (y >> 2)) ^ 0x05
  }

  lemma AffineUndone(x: bv8)
    ensures AffineBack(Affine(x)) == x
  {
  }

  ghost function SBox(x: bv8): bv8 {
    Affine(Inverse(x))
  }

  lemma SBoxInjective(x: bv8, y: bv8)
    requires SBox(x) == SBox(y)
    ensures x == y
  {
    hide Affine, AffineBack, Inverse;
    AffineUndone(Inverse(x));
    AffineUndone(Inverse(y));
    InverseInjective(x, y);
  }

  lemma SBoxOnto(y: bv8) returns (x: bv8)
    ensures SBox(x) == y
  {
    var s := seq(256, i requires 0 <= i < 256 => SBox(Byte(i)));
    forall i, j | 0 <= i < j < 256
      ensures s[i] != s[j]
    {
      if s[i] == s[j] {
        SBoxInjective(Byte(i), Byte(j));
        IndexByte(i);
        IndexByte(j);
      }
    }
    AllBytes(s, y);
    var i :| 0 <= i < 256 && s[i] == y;
    x := Byte(i);
  }

  /** The inverse S-box. */
  ghost predicate InvertsSBox(x: bv8, y: bv8) {
    SBox(x) == y
  }

  lemma SBoxOntoExists(y: bv8)
    ensures exists x :: InvertsSBox(x, y)
  {
    var x := SBoxOnto(y);
    assert InvertsSBox(x, y);
  }

  ghost function InvSBox(y: bv8): (x: bv8)
    ensures SBox(x) == y
  {
    SBoxOntoExists(y);
    var x :| InvertsSBox(x, y);
    x
  }

  lemma InvSBoxUndoes(x: bv8)
    ensures InvSBox(SBox(x)) == x
  {
    SBoxInjective(InvSBox(SBox(x)), x);
  }
}
