/** Little-endian sequences of 32-bit limbs and the natural numbers they stand for. */
module Limbs {
  import opened Arith

  const BIL: nat := 32
  const RADIX: int := 0x1_0000
  const BETA: int := 0x1_0000_0000

  /** One mbedtls_mpi_uint. */
  type limb = x: int | 0 <= x < BETA

  lemma Pow2Half()
    ensures Pow2(16) == RADIX
  {
    Pow2Add(8, 8);
    assert Pow2(8) == 256 by {
      Pow2Add(4, 4);
      assert Pow2(4) == 16 by {
        Pow2Add(2, 2);
      }
    }
  }

  lemma Pow2Limb()
    ensures Pow2(BIL) == BETA
  {
    Pow2Half();
    Pow2Add(16, 16);
  }

  /** Weight of limb number i. */
  function Weight(i: nat): (w: int)
    ensures w > 0
  {
    if i == 0 then 1 else BETA * Weight(i - 1)
  }

  lemma {:induction false} WeightAdd(i: nat, j: nat)
    ensures Weight(i + j) == Weight(i) * Weight(j)
  {
    if i > 0 {
      WeightAdd(i - 1, j);
      assert Weight(i + j) == BETA * Weight(i - 1 + j);
      MulAssoc(BETA, Weight(i - 1), Weight(j));
    }
  }

  lemma WeightMonotone(i: nat, j: nat)
    requires i <= j
    ensures Weight(i) <= Weight(j)
    ensures i < j ==> BETA * Weight(i) <= Weight(j)
  {
    WeightAdd(i, j - i);
    MulLe(Weight(i), 1, Weight(j - i));
    if i < j {
      WeightAdd(i + 1, j - i - 1);
      MulLe(Weight(i + 1), 1, Weight(j - i - 1));
    }
  }

  lemma {:induction false} WeightIsPow2(i: nat)
    ensures Weight(i) == Pow2(BIL * i)
  {
    if i > 0 {
      WeightIsPow2(i - 1);
      Pow2Limb();
      Pow2Add(BIL, BIL * (i - 1));
    }
  }

  /** The number a limb sequence stands for. */
  function Val(p: seq<limb>): nat {
    if |p| == 0 then 0 else p[0] + BETA * Val(p[1..])
  }

  function Zeros(n: nat): (z: seq<limb>)
    ensures |z| == n && forall i :: 0 <= i < n ==> z[i] == 0
  {
    seq(n, _ => 0)
  }

  lemma {:induction false} ValAppend(p: seq<limb>, q: seq<limb>)
    ensures Val(p + q) == Val(p) + Weight(|p|) * Val(q)
  {
    if |p| == 0 {
      assert p + q == q;
    } else {
      assert (p + q)[1..] == p[1..] + q;
      ValAppend(p[1..], q);
      MulAssoc(BETA, Weight(|p| - 1), Val(q));
    }
  }

  lemma ValSplit(p: seq<limb>, i: nat)
    requires i <= |p|
    ensures Val(p) == Val(p[..i]) + Weight(i) * Val(p[i..])
  {
    assert p == p[..i] + p[i..];
    ValAppend(p[..i], p[i..]);
  }

  lemma ValNone(p: seq<limb>)
    ensures Val(p[..0]) == 0
  {
  }

  lemma WeightNext(i: nat)
    ensures Weight(i + 1) == BETA * Weight(i)
  {
  }

  /** Taking one more limb at the top. */
  lemma ValSnoc(p: seq<limb>, i: nat)
    requires i < |p|
    ensures Val(p[..i + 1]) == Val(p[..i]) + p[i] * Weight(i)
  {
    assert p[..i + 1] == p[..i] + [p[i]];
    ValAppend(p[..i], [p[i]]);
    assert Val([p[i]]) == p[i];
  }

  /** Taking one more limb at the bottom. */
  lemma ValCons(p: seq<limb>, i: nat)
    requires i < |p|
    ensures Val(p[i..]) == p[i] + BETA * Val(p[i + 1..])
  {
    assert p[i..][1..] == p[i + 1..];
  }

  lemma {:induction false} ValBound(p: seq<limb>)
    ensures Val(p) < Weight(|p|)
  {
    if |p| > 0 {
      ValBound(p[1..]);
    }
  }

  lemma {:induction false} ValZero(p: seq<limb>)
    ensures Val(p) == 0 <==> forall i :: 0 <= i < |p| ==> p[i] == 0
  {
    if |p| > 0 {
      ValZero(p[1..]);
      if forall i :: 0 <= i < |p| ==> p[i] == 0 {
        assert forall i :: 0 <= i < |p[1..]| ==> p[1..][i] == p[i + 1];
      }
      if Val(p) == 0 {
        assert forall i :: 1 <= i < |p| ==> p[i] == p[1..][i - 1];
      }
    }
  }

  /** Storing v in limb i changes the number by the difference times the weight of that limb. */
  lemma ValUpdate(p: seq<limb>, i: nat, v: limb)
    requires i < |p|
    ensures Val(p[i := v]) == Val(p) + (v - p[i]) * Weight(i)
  {
    var q := p[i := v];
    ValSplit(p, i);
    ValSplit(q, i);
    assert q[..i] == p[..i];
    ValCons(p, i);
    ValCons(q, i);
    assert q[i + 1..] == p[i + 1..];
    UpdateIdentity(Val(p[..i]), Weight(i), v, p[i], BETA * Val(p[i + 1..]));
  }

  lemma UpdateIdentity(l: int, w: int, v: int, x: int, t: int)
    ensures l + w * (v + t) == l + w * (x + t) + (v - x) * w
  {
    MulDist(w, v, t);
    MulDist(w, x, t);
    MulDist(w, v, x);
  }

  /** A number below the weight of limb k has nothing from limb k upwards. */
  lemma ValSmall(p: seq<limb>, k: nat)
    requires k <= |p| && Val(p) < Weight(k)
    ensures Val(p[k..]) == 0 && Val(p[..k]) == Val(p)
  {
    hide Val, Weight;
    ValSplit(p, k);
    if Val(p[k..]) > 0 {
      MulLe(Weight(k), 1, Val(p[k..]));
    }
  }

  lemma ValSmallLimb(p: seq<limb>, k: nat, i: nat)
    requires k <= i < |p| && Val(p) < Weight(k)
    ensures p[i] == 0
  {
    ValSmall(p, k);
    ValZero(p[k..]);
    assert p[i] == p[k..][i - k];
  }

  lemma {:induction false} ValAllZero(p: seq<limb>)
    requires forall i :: 0 <= i < |p| ==> p[i] == 0
    ensures Val(p) == 0
  {
    if |p| > 0 {
      ValAllZero(p[1..]);
    }
  }

  lemma ValPadded(p: seq<limb>, k: nat)
    requires k <= |p| && (forall i :: k <= i < |p| ==> p[i] == 0)
    ensures Val(p) == Val(p[..k]) < Weight(k)
  {
    var v, w, hi, lo := Val(p), Weight(k), Val(p[k..]), Val(p[..k]);
    assert v == lo + w * hi by {
      ValSplit(p, k);
    }
    assert hi == 0 by {
      ValAllZero(p[k..]);
    }
    assert lo < w by {
      ValBound(p[..k]);
    }
  }

  lemma ValGrow(p: seq<limb>, n: nat)
    ensures Val(p + Zeros(n)) == Val(p)
  {
    ValAppend(p, Zeros(n));
    ValZero(Zeros(n));
  }

  /** Dropping the low limbs divides by their weight. */
  lemma DropLimbs(q: seq<limb>, i: nat)
    requires i <= |q|
    ensures Val(q[i..]) == Val(q) / Weight(i)
  {
    var a, w, hi, lo := Val(q), Weight(i), Val(q[i..]), Val(q[..i]);
    assert a == lo + w * hi by {
      ValSplit(q, i);
    }
    assert lo < w by {
      ValBound(q[..i]);
    }
    DivModUnique(a, w, hi, lo);
  }

  /** A nonzero top limb bounds the number from below. */
  lemma ValTop(p: seq<limb>, i: nat)
    requires i < |p|
    ensures p[i] * Weight(i) <= Val(p)
  {
    ValSplit(p, i);
    ValCons(p, i);
    MulLe(Weight(i), p[i], Val(p[i..]));
  }

  /** The parity of a number is the parity of its lowest limb. */
  lemma ValParity(p: seq<limb>)
    requires |p| > 0
    ensures Val(p) % 2 == p[0] % 2
    ensures Val(p) % BETA == p[0]
  {
    DivModUnique(Val(p), BETA, Val(p[1..]), p[0]);
  }

  /** Numbers of equal length compare by their highest differing limb. */
  lemma ValCompare(p: seq<limb>, q: seq<limb>, i: nat)
    requires |p| == |q| && i < |p| && p[i + 1..] == q[i + 1..] && p[i] < q[i]
    ensures Val(p) < Val(q)
  {
    hide Val, Weight;
    ValSplit(p, i);
    ValSplit(q, i);
    ValBound(p[..i]);
    ValCons(p, i);
    ValCons(q, i);
    MulLe(Weight(i), Val(p[i..]) + 1, Val(q[i..]));
    MulDist(Weight(i), Val(p[i..]), 1);
  }
}
