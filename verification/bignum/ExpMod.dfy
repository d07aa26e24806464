/** mbedtls_mpi_exp_mod: sliding-window exponentiation over Montgomery products. */
module ExpMod {
  import opened Arith
  import opened Limbs
  import opened MpiBase
  import opened MpiShift
  import opened MpiArith
  import opened MpiDivision
  import opened Montgomery
  import NumberTheory

  // ----- powers in Montgomery form -----

  /** The modulus, its constant and the scratch number are fit for Montgomery products. */
  ghost predicate Ready(N: Mpi, mm: limb, T: Mpi)
    reads N, T
  {
    T != N && |N.p| > 0 && N.p[0] % 2 == 1 && Val(N.p) > 0
    && |T.p| >= 2 * (|N.p| + 1) && (mm * N.p[0] + 1) % BETA == 0
  }

  /** x stands for a^k, scaled by R = BETA^len. */
  ghost predicate IsPower(x: int, a: int, k: nat, n: int, len: nat)
    requires n > 0
  {
    0 <= x < n && Cong(x, Pow(a, k) * Weight(len), n)
  }

  ghost predicate Holds(X: Mpi, a: int, k: nat, N: Mpi)
    reads X, N
  {
    |N.p| > 0 && Val(N.p) > 0 && |X.p| > |N.p| && IsPower(Val(X.p), a, k, Val(N.p), |N.p|)
  }

  lemma OddModulus(p: seq<limb>)
    requires |p| > 0 && p[0] % 2 == 1
    ensures Val(p) % 2 == 1
  {
    ValParity(p);
  }

  /** The scaling factor can be cancelled modulo an odd number. */
  lemma CancelWeight(x: int, y: int, len: nat, n: int)
    requires n > 0 && n % 2 == 1 && Cong(x * Weight(len), y * Weight(len), n)
    ensures Cong(x, y, n)
  {
    WeightIsPow2(len);
    CongCancelPow2(x, y, BIL * len, n);
  }

  /** A Montgomery product adds exponents. */
  lemma PowerProduct(x: int, y: int, z: int, a: int, k: nat, l: nat, n: int, len: nat)
    requires n > 0 && n % 2 == 1 && IsPower(x, a, k, n, len) && IsPower(y, a, l, n, len)
    requires 0 <= z < n && Cong(z * Weight(len), x * y, n)
    ensures IsPower(z, a, k + l, n, len)
  {
    var w, u, v := Weight(len), Pow(a, k), Pow(a, l);
    CongMul(x, u * w, y, v * w, n);
    CongTrans(z * w, x * y, (u * w) * (v * w), n);
    PowAdd(a, k, l);
    assert (u * w) * (v * w) == ((u * v) * w) * w by {
      MulAssoc(u, w, v * w);
      MulAssoc(w, v, w);
      MulAssoc(v, w, w);
      MulAssoc(u, v, w * w);
      MulAssoc(u * v, w, w);
    }
    CancelWeight(z, (u * v) * w, len, n);
  }

  /** mpi_montmul on powers: X = a^k and Y = a^l give a^(k + l). */
  method MulPower(X: Mpi, Y: Mpi, N: Mpi, mm: limb, T: Mpi, ghost a: int, ghost k: nat, ghost l: nat)
    requires Ready(N, mm, T) && T != X && T != Y && X != N
    requires Holds(X, a, k, N) && Holds(Y, a, l, N)
    modifies X`p, T`p
    ensures |T.p| == |old(T.p)| && |X.p| == |old(X.p)| && Holds(X, a, k + l, N)
  {
    ghost var x, y := Val(X.p), Val(Y.p);
    OddModulus(N.p);
    ValBound(N.p);
    MontMul(X, Y, N, mm, T);
    PowerProduct(x, y, Val(X.p), a, k, l, Val(N.p), |N.p|);
  }

  /** s squarings raise the exponent to k * 2^s. */
  method Squarings(X: Mpi, s: nat, N: Mpi, mm: limb, T: Mpi, ghost a: int, ghost k: nat)
    requires Ready(N, mm, T) && T != X && X != N && Holds(X, a, k, N)
    modifies X`p, T`p
    ensures k * Pow2(s) >= 0
    ensures |T.p| == |old(T.p)| && |X.p| == |old(X.p)| && Holds(X, a, k * Pow2(s), N)
  {
    ghost var e := k;
    var i := 0;
    assert Pow2(0) == 1;
    while i < s
      invariant 0 <= i <= s && e == k * Pow2(i)
      invariant |T.p| == |old(T.p)| && |X.p| == |old(X.p)| && Holds(X, a, e, N)
    {
      MulPower(X, X, N, mm, T, a, e, e);
      assert Pow2(i + 1) == 2 * Pow2(i);
      e := e + e;
      i := i + 1;
    }
  }

  // ----- the window table -----

  ghost predicate Separate(W: seq<Mpi>, others: set<Mpi>) {
    (forall i, j :: 0 <= i < j < |W| ==> W[i] != W[j]) && (forall i :: 0 <= i < |W| ==> W[i] !in others)
  }

  /** Zeroed MPIs, as memset and mbedtls_mpi_init leave them. */
  method NewTable(n: nat) returns (W: seq<Mpi>)
    ensures |W| == n && Separate(W, {})
    ensures forall i :: 0 <= i < n ==> fresh(W[i]) && W[i].p == [] && W[i].Valid()
  {
    W := [];
    while |W| < n
      invariant |W| <= n && Separate(W, {})
      invariant forall i :: 0 <= i < |W| ==> fresh(W[i]) && W[i].p == [] && W[i].Valid()
    {
      var x := new Mpi();
      W := W + [x];
    }
  }

  /** W[to] := a copy of W[from], with room for Montgomery products. */
  method CopyEntry(W: seq<Mpi>, to: nat, from: nat, N: Mpi, ghost a: int, ghost k: nat) returns (r: Status)
    requires to < |W| && from < |W| && W[to] != W[from] && W[to] != N && W[from] != N
    requires Holds(W[from], a, k, N)
    modifies W[to]
    ensures !r.Ok? ==> r == AllocFailed
    ensures r.Ok? ==> Holds(W[to], a, k, N)
  {
    r := Ok;
    :- Grow(W[to], |N.p| + 1);
    :- Copy(W[to], W[from]);
    return Ok;
  }

  /** The powers a^(2^(wsize-1)) .. a^(2^wsize - 1), each one product away from the one before. */
  method FillTable(W: seq<Mpi>, wsize: nat, N: Mpi, mm: limb, T: Mpi, ghost a: int) returns (r: Status)
    requires 1 < wsize && Pow2(wsize) <= |W| && Separate(W, {N, T}) && Ready(N, mm, T)
    requires Holds(W[1], a, 1, N)
    modifies W, T`p
    ensures !r.Ok? ==> r == AllocFailed
    ensures |T.p| == |old(T.p)|
    ensures r.Ok? ==> Holds(W[1], a, 1, N)
    ensures r.Ok? ==> forall i :: Pow2(wsize - 1) <= i < Pow2(wsize) ==> Holds(W[i], a, i, N)
  {
    hide Holds;
    var j := Pow2(wsize - 1);
    assert Pow2(wsize) == 2 * j && j == 2 * Pow2(wsize - 2);
    :- CopyEntry(W, j, 1, N, a, 1);
    Squarings(W[j], wsize - 1, N, mm, T, a, 1);
    assert 1 * Pow2(wsize - 1) == j;
    var i := j + 1;
    while i < Pow2(wsize)
      invariant j < i <= 2 * j && |T.p| == |old(T.p)| && Ready(N, mm, T)
      invariant Holds(W[1], a, 1, N)
      invariant forall k :: j <= k < i ==> Holds(W[k], a, k, N)
    {
      :- CopyEntry(W, i, i - 1, N, a, i - 1);
      MulPower(W[i], W[1], N, mm, T, a, i - 1, 1);
      i := i + 1;
    }
    return Ok;
  }

  // ----- the bits of the exponent -----

  /** Bit k of limb j is bit 32 j + k of the number. */
  lemma BitOfLimb(p: seq<limb>, j: nat, k: nat)
    requires j < |p| && k < BIL
    ensures (p[j] / Pow2(k)) % 2 == (Val(p) / Pow2(BIL * j + k)) % 2
  {
    hide Val, Weight, Pow2;
    var x, v := p[j], Val(p[j + 1..]);
    var z := Pow2(BIL - k - 1) * v;
    assert Val(p) / Pow2(BIL * j) == x + BETA * v by {
      WeightIsPow2(j);
      DropLimbs(p, j);
      ValCons(p, j);
    }
    assert Val(p) / Pow2(BIL * j + k) == x / Pow2(k) + 2 * z by {
      DivDiv(Val(p), BIL * j, k);
      LowBits(x, v, k);
    }
    EvenPart(x / Pow2(k), z);
  }

  lemma EvenPart(q: int, z: int)
    ensures (q + 2 * z) % 2 == q % 2
  {
  }

  lemma LowBits(x: limb, v: nat, k: nat)
    requires k < BIL
    ensures (x + BETA * v) / Pow2(k) == x / Pow2(k) + 2 * (Pow2(BIL - k - 1) * v)
  {
    var a, b := Pow2(k), Pow2(BIL - k - 1);
    assert a * (2 * b) == BETA by {
      Pow2Limb();
      Pow2Add(k, BIL - k);
    }
    var q, m := x / a, x % a;
    assert x == a * q + m;
    assert x + BETA * v == (q + 2 * (b * v)) * a + m by {
      MulAssoc(a, 2 * b, v);
      MulAssoc(2, b, v);
      MulDist(a, q, 2 * (b * v));
    }
    DivModUnique(x + BETA * v, a, q + 2 * (b * v), m);
  }

  /** Reading one more bit of e. */
  lemma NextBit(e: nat, r: nat)
    requires r > 0
    ensures e / Pow2(r - 1) == 2 * (e / Pow2(r)) + (e / Pow2(r - 1)) % 2
  {
    DivDiv(e, r - 1, 1);
    assert Pow2(1) == 2;
  }

  // ----- the scan -----

  /** Where the scan stands. The bits read so far make the number prefix; X is a^k; the nbits bits in
      the current window make f, kept in wbits shifted to the top of the window. State 0 is before the
      first one bit, 1 outside a window, 2 inside one. */
  ghost predicate Scanning(prefix: int, k: int, f: int, nbits: int, wbits: int, wsize: nat, state: int) {
    0 <= nbits <= wsize && k >= 0 && 0 <= f < Pow2(nbits) && (nbits > 0 ==> Pow2(nbits - 1) <= f)
    && prefix == k * Pow2(nbits) + f && wbits == f * Pow2(wsize - nbits)
    && 0 <= state <= 2 && (state == 2 <==> nbits > 0) && (state == 0 ==> k == 0)
  }

  /** Reading a bit into the window: OR-ing it in below the bits already there. */
  lemma AppendBit(prefix: int, k: int, f: int, nbits: int, wbits: int, wsize: nat, state: int, ei: int)
    requires Scanning(prefix, k, f, nbits, wbits, wsize, state) && nbits < wsize
    requires ei == 1 || (ei == 0 && state == 2)
    ensures Scanning(2 * prefix + ei, k, 2 * f + ei, nbits + 1, wbits + ei * Pow2(wsize - nbits - 1), wsize, 2)
  {
    var a, b := Pow2(nbits), Pow2(wsize - nbits - 1);
    assert Pow2(nbits + 1) == 2 * a && Pow2(wsize - nbits) == 2 * b;
    WindowIdentity(k, f, ei, a, b);
    assert nbits > 0 ==> Pow2(nbits) == 2 * Pow2(nbits - 1);
  }

  lemma WindowIdentity(k: int, f: int, ei: int, a: int, b: int)
    ensures (2 * f + ei) * b == f * (2 * b) + ei * b
    ensures 2 * (k * a + f) + ei == k * (2 * a) + (2 * f + ei)
  {
  }

  /** A full window holds its number outright, and that number is in the table. */
  lemma FullWindow(prefix: int, k: int, f: int, wbits: int, wsize: nat, state: int)
    requires wsize > 0 && Scanning(prefix, k, f, wsize, wbits, wsize, state)
    ensures wbits == f && prefix == k * Pow2(wsize) + f && Pow2(wsize - 1) <= f < Pow2(wsize)
    ensures Scanning(prefix, k * Pow2(wsize) + f, 0, 0, 0, wsize, 1)
  {
    assert Pow2(0) == 1;
    MulLe(Pow2(wsize), 0, k);
  }

  /** The table entries a window can name. */
  ghost predicate TableReady(W: seq<Mpi>, wsize: nat, a: int, N: Mpi)
    reads W, N
  {
    1 <= wsize && Pow2(wsize) <= |W| && 2 <= |W| && Holds(W[1], a, 1, N)
    && (forall i :: Pow2(wsize - 1) <= i < Pow2(wsize) ==> Holds(W[i], a, i, N))
  }

  /** A window of wsize bits: as many squarings and one product. */
  method CloseWindow(X: Mpi, W: seq<Mpi>, wbits: nat, wsize: nat, N: Mpi, mm: limb, T: Mpi, ghost a: int, ghost k: nat)
    requires Ready(N, mm, T) && X != N && X != T && Separate(W, {X, N, T}) && TableReady(W, wsize, a, N)
    requires Holds(X, a, k, N) && Pow2(wsize - 1) <= wbits < Pow2(wsize)
    modifies X`p, T`p
    ensures |T.p| == |old(T.p)| && |X.p| == |old(X.p)| && TableReady(W, wsize, a, N)
    ensures k * Pow2(wsize) >= 0 && Holds(X, a, k * Pow2(wsize) + wbits, N)
  {
    assert X !in W && T !in W;
    Squarings(X, wsize, N, mm, T, a, k);
    assert Holds(W[wbits], a, wbits, N);
    MulPower(X, W[wbits], N, mm, T, a, k * Pow2(wsize), wbits);
  }

  /** What the main loop does with one bit. */
  method ScanBit(X: Mpi, W: seq<Mpi>, ei: int, wsize: nat, N: Mpi, mm: limb, T: Mpi, ghost a: int, ghost prefix: int,
                 nbits0: nat, wbits0: nat, state0: int, ghost k0: nat, ghost f0: nat)
    returns (nbits: nat, wbits: nat, state: int, ghost k: nat, ghost f: nat)
    requires Ready(N, mm, T) && X != N && X != T && Separate(W, {X, N, T}) && TableReady(W, wsize, a, N)
    requires nbits0 < wsize && Scanning(prefix, k0, f0, nbits0, wbits0, wsize, state0)
    requires (ei == 0 || ei == 1) && Holds(X, a, k0, N)
    modifies X`p, T`p
    ensures |T.p| == |old(T.p)| && |X.p| == |old(X.p)| && TableReady(W, wsize, a, N)
    ensures nbits < wsize && Scanning(2 * prefix + ei, k, f, nbits, wbits, wsize, state)
    ensures Holds(X, a, k, N)
  {
    nbits, wbits, state, k, f := nbits0, wbits0, state0, k0, f0;
    assert X !in W && T !in W;
    if ei == 0 && state == 0 {
      ZeroBit(prefix, k, f, nbits, wbits, wsize, state);
      return;
    }
    if ei == 0 && state == 1 {
      ZeroBit(prefix, k, f, nbits, wbits, wsize, state);
      MulPower(X, X, N, mm, T, a, k, k);
      k := k + k;
      return;
    }
    nbits, wbits, state, k, f := WindowBit(X, W, ei, wsize, N, mm, T, a, prefix, nbits, wbits, state, k, f);
  }

  /** A bit goes into the window, and a full window into X. */
  method WindowBit(X: Mpi, W: seq<Mpi>, ei: int, wsize: nat, N: Mpi, mm: limb, T: Mpi, ghost a: int, ghost prefix: int,
                   nbits0: nat, wbits0: nat, state0: int, ghost k0: nat, ghost f0: nat)
    returns (nbits: nat, wbits: nat, state: int, ghost k: nat, ghost f: nat)
    requires Ready(N, mm, T) && X != N && X != T && Separate(W, {X, N, T}) && TableReady(W, wsize, a, N)
    requires nbits0 < wsize && Scanning(prefix, k0, f0, nbits0, wbits0, wsize, state0)
    requires (ei == 1 || (ei == 0 && state0 == 2)) && Holds(X, a, k0, N)
    modifies X`p, T`p
    ensures |T.p| == |old(T.p)| && |X.p| == |old(X.p)| && TableReady(W, wsize, a, N)
    ensures nbits < wsize && Scanning(2 * prefix + ei, k, f, nbits, wbits, wsize, state)
    ensures Holds(X, a, k, N)
  {
    hide Ready, Holds, Separate, TableReady, Scanning, Pow2;
    nbits, wbits, state, k, f := nbits0, wbits0, state0, k0, f0;
    AppendBit(prefix, k, f, nbits, wbits, wsize, state, ei);
    state := 2;
    nbits := nbits + 1;
    f := 2 * f + ei;
    wbits := wbits + ei * Pow2(wsize - nbits);
    if nbits == wsize {
      FullWindow(2 * prefix + ei, k, f, wbits, wsize, state);
      CloseWindow(X, W, wbits, wsize, N, mm, T, a, k);
      k := k * Pow2(wsize) + f;
      f := 0;
      state := state - 1;
      nbits := 0;
      wbits := 0;
    }
  }

  /** A zero bit outside a window. */
  lemma ZeroBit(prefix: int, k: int, f: int, nbits: int, wbits: int, wsize: nat, state: int)
    requires Scanning(prefix, k, f, nbits, wbits, wsize, state) && state < 2
    ensures state == 0 ==> Scanning(2 * prefix, k, f, nbits, wbits, wsize, 0)
    ensures Scanning(2 * prefix, k + k, f, nbits, wbits, wsize, state)
  {
    assert Pow2(0) == 1;
  }

  /** The main loop: the bits of E from the top, collected into windows that start with a one. */
  method ScanExponent(X: Mpi, W: seq<Mpi>, E: Mpi, wsize: nat, N: Mpi, mm: limb, T: Mpi, ghost a: int)
    returns (nbits: nat, wbits: nat, ghost k: nat, ghost f: nat)
    requires Ready(N, mm, T) && X != N && X != T && X != E && T != E
    requires Separate(W, {X, N, T, E}) && TableReady(W, wsize, a, N)
    requires Holds(X, a, 0, N)
    modifies X`p, T`p
    ensures |T.p| == |old(T.p)| && |X.p| == |old(X.p)| && TableReady(W, wsize, a, N)
    ensures nbits < wsize && f < Pow2(nbits) && wbits == f * Pow2(wsize - nbits)
    ensures Val(E.p) == k * Pow2(nbits) + f && Holds(X, a, k, N)
  {
    hide Holds, Val, Scanning, Pow2;
    assert X !in W && T !in W;
    ghost var e := Val(E.p);
    var nblimbs, bufsize, state := |E.p|, 0, 0;
    nbits, wbits, k, f := 0, 0, 0, 0;
    NothingRead(E.p);
    ScanStart(wsize);
    while true
      invariant 0 <= nblimbs <= |E.p| && 0 <= bufsize < BIL && (nblimbs == |E.p| ==> bufsize == 0)
      invariant Ready(N, mm, T) && |T.p| == |old(T.p)| && |X.p| == |old(X.p)| && TableReady(W, wsize, a, N)
      invariant nbits < wsize && Scanning(e / Pow2(BIL * nblimbs + bufsize), k, f, nbits, wbits, wsize, state)
      invariant Holds(X, a, k, N)
      decreases BIL * nblimbs + bufsize
    {
      if bufsize == 0 {
        if nblimbs == 0 {
          break;
        }
        nblimbs := nblimbs - 1;
        bufsize := BIL;
      }
      bufsize := bufsize - 1;
      var ei := (E.p[nblimbs] / Pow2(bufsize)) % 2;
      ghost var prefix := e / Pow2(BIL * nblimbs + bufsize + 1);
      BitOfLimb(E.p, nblimbs, bufsize);
      NextBit(e, BIL * nblimbs + bufsize + 1);
      nbits, wbits, state, k, f := ScanBit(X, W, ei, wsize, N, mm, T, a, prefix, nbits, wbits, state, k, f);
    }
    ScanEnd(e, k, f, nbits, wbits, wsize, state);
  }

  lemma ScanStart(wsize: nat)
    ensures Scanning(0, 0, 0, 0, 0, wsize, 0)
  {
    Pow2Zero();
  }

  lemma ScanEnd(e: nat, k: int, f: int, nbits: int, wbits: int, wsize: nat, state: int)
    requires Scanning(e / Pow2(0), k, f, nbits, wbits, wsize, state)
    ensures 0 <= nbits <= wsize && f < Pow2(nbits) && wbits == f * Pow2(wsize - nbits) && e == k * Pow2(nbits) + f
  {
    Pow2Zero();
  }

  lemma NothingRead(p: seq<limb>)
    ensures Val(p) / Pow2(BIL * |p|) == 0
  {
    ValBound(p);
    WeightIsPow2(|p|);
    DivModUnique(Val(p), Pow2(BIL * |p|), 0, Val(p));
  }

  /** The bits of an unfinished window, one squaring each. */
  method RemainingBits(X: Mpi, W: seq<Mpi>, nbits: nat, window: nat, wsize: nat, N: Mpi, mm: limb, T: Mpi,
                       ghost a: int, ghost k: nat, ghost f: nat)
    requires Ready(N, mm, T) && X != N && X != T && Separate(W, {X, N, T}) && TableReady(W, wsize, a, N)
    requires nbits < wsize && f < Pow2(nbits) && window == f * Pow2(wsize - nbits)
    requires Holds(X, a, k, N)
    modifies X`p, T`p
    ensures |T.p| == |old(T.p)| && |X.p| == |old(X.p)|
    ensures k * Pow2(nbits) >= 0 && Holds(X, a, k * Pow2(nbits) + f, N)
  {
    assert X !in W && T !in W;
    var wbits := window;
    ghost var c := k;
    var i := 0;
    FirstOfWindow(f, nbits, k);
    while i < nbits
      invariant 0 <= i <= nbits && Ready(N, mm, T) && TableReady(W, wsize, a, N)
      invariant |T.p| == |old(T.p)| && |X.p| == |old(X.p)|
      invariant wbits == f * Pow2(wsize - nbits + i)
      invariant c == k * Pow2(i) + f / Pow2(nbits - i) && Holds(X, a, c, N)
    {
      NextOfWindow(f, nbits, i, wsize, k);
      wbits, c := RemainingBit(X, W, wbits, wsize, N, mm, T, a, c);
      i := i + 1;
    }
    assert f / Pow2(0) == f;
  }

  /** One bit of the left-over window: square, and multiply by the base if the bit is set. */
  method RemainingBit(X: Mpi, W: seq<Mpi>, window: nat, wsize: nat, N: Mpi, mm: limb, T: Mpi, ghost a: int, ghost c0: nat)
    returns (wbits: nat, ghost c: nat)
    requires Ready(N, mm, T) && X != N && X != T && Separate(W, {X, N, T}) && TableReady(W, wsize, a, N)
    requires Holds(X, a, c0, N)
    modifies X`p, T`p
    ensures |T.p| == |old(T.p)| && |X.p| == |old(X.p)| && TableReady(W, wsize, a, N)
    ensures wbits == window * 2 && c == 2 * c0 + (wbits / Pow2(wsize)) % 2 && Holds(X, a, c, N)
  {
    assert X !in W && T !in W;
    MulPower(X, X, N, mm, T, a, c0, c0);
    c := c0 + c0;
    wbits := window * 2;
    if (wbits / Pow2(wsize)) % 2 != 0 {
      MulPower(X, W[1], N, mm, T, a, c, 1);
      c := c + 1;
    }
  }

  lemma FirstOfWindow(f: nat, nbits: nat, k: nat)
    requires f < Pow2(nbits)
    ensures k == k * Pow2(0) + f / Pow2(nbits - 0)
  {
    DivModUnique(f, Pow2(nbits), 0, f);
  }

  /** Shifting the window up by one bit brings the next bit of f to position wsize. */
  lemma NextOfWindow(f: nat, nbits: nat, i: nat, wsize: nat, k: nat)
    requires i < nbits < wsize
    ensures f * Pow2(wsize - nbits + i) * 2 == f * Pow2(wsize - nbits + (i + 1))
    ensures var b := (f * Pow2(wsize - nbits + i) * 2 / Pow2(wsize)) % 2;
            k * Pow2(i + 1) + f / Pow2(nbits - i - 1) == 2 * (k * Pow2(i) + f / Pow2(nbits - i)) + b
  {
    hide Pow2;
    var d := nbits - i - 1;
    var v, u := Pow2(wsize - nbits + i), Pow2(wsize - d);
    Pow2Next(wsize - nbits + i);
    Pow2Next(i);
    MulAssoc(f, v, 2);
    Pow2Add(d, wsize - d);
    ScaledQuotient(f, Pow2(d), u);
    NextBit(f, d + 1);
    MulAssoc(k, Pow2(i), 2);
  }

  lemma ScaledQuotient(f: nat, a: int, u: int)
    requires a > 0 && u > 0
    ensures a * u > 0 && (f * u) / (a * u) == f / a
  {
    var q, r := f / a, f % a;
    assert f == a * q + r;
    MulLt(a, 0, u);
    assert f * u == q * (a * u) + r * u by {
      MulDist(u, a * q, r);
      MulAssoc(q, a, u);
    }
    MulLe(u, 0, r);
    MulLt(u, r, a);
    DivModUnique(f * u, a * u, q, r * u);
  }

  // ----- the whole computation -----

  ghost function RSquared(n: seq<limb>): int
    requires Val(n) > 0
  {
    (Weight(|n|) * Weight(|n|)) % Val(n)
  }

  function PowMod(a: int, e: nat, n: int): (r: int)
    requires n > 0
    ensures 0 <= r < n
  {
    Pow(a, e) % n
  }

  /** What mbedtls_mpi_exp_mod leaves for a base of either sign. */
  function ExpModResult(a: int, negative: bool, e: nat, n: int): int
    requires n > 0
  {
    if negative then n - PowMod(-a, e, n) else PowMod(a, e, n)
  }

  /** The cached R^2 mod N is absent, or right. */
  ghost predicate CacheRight(C: Mpi?, N: Mpi)
    reads C, N
  {
    C == null || |C.p| == 0 ||
    (Val(N.p) > 0 && C.s == 1 && Val(C.p) == RSquared(N.p))
  }

  /** RR = R^2 mod N: from the cache, or computed and then put there. */
  method PrepareRR(RR: Mpi, cache: Mpi?, N: Mpi) returns (r: Status)
    requires RR.p == [] && RR != N && cache != RR && cache != N && N.s == 1 && |N.p| > 0 && Val(N.p) > 0
    requires CacheRight(cache, N)
    modifies RR, cache
    ensures !r.Ok? ==> r == AllocFailed
    ensures CacheRight(cache, N)
    ensures r.Ok? ==> RR.s == 1 && |RR.p| > 0
    ensures r.Ok? ==> Val(RR.p) == RSquared(N.p)
    ensures r.Ok? && cache != null ==> |cache.p| > 0
  {
    if cache == null || |cache.p| == 0 {
      :- Lset(RR, 1);
      assert Val(RR.p) == 1;
      :- ShiftL(RR, |N.p| * 2 * BIL);
      WeightIsPow2(2 * |N.p|);
      WeightAdd(|N.p|, |N.p|);
      assert RR.Value() == Weight(|N.p|) * Weight(|N.p|);
      :- ModMpi(RR, RR, N);
      if cache != null {
        cache.s, cache.p := RR.s, RR.p;
      }
    } else {
      RR.s, RR.p := cache.s, cache.p;
    }
    return Ok;
  }

  /** W[1] = A * R^2 * R^-1 mod N = A * R mod N. */
  method FirstPower(W1: Mpi, A: Mpi, RR: Mpi, N: Mpi, mm: limb, T: Mpi) returns (r: Status)
    requires Ready(N, mm, T) && N.s == 1 && W1 !in {A, RR, N, T} && RR !in {N, T} && A != T
    requires |W1.p| > |N.p| && A.Valid() && A.Value() >= 0 && |A.p| > 0 && |RR.p| > 0
    requires Val(RR.p) == RSquared(N.p)
    modifies W1, T`p
    ensures !r.Ok? ==> r == AllocFailed
    ensures |T.p| == |old(T.p)|
    ensures r.Ok? ==> Holds(W1, Val(A.p), 1, N)
  {
    ghost var a, n, w := Val(A.p), Val(N.p), Weight(|N.p|);
    var c := CmpMpi(A, N);
    if c >= 0 {
      :- ModMpi(W1, A, N);
    } else {
      :- Copy(W1, A);
      DivModUnique(a, n, 0, a);
    }
    assert Val(W1.p) == a % n;
    ghost var x := Val(W1.p);
    ValBound(N.p);
    MontMul(W1, RR, N, mm, T);
    OddModulus(N.p);
    FirstPowerValue(Val(W1.p), a, n, w, |N.p|);
    return Ok;
  }

  lemma FirstPowerValue(z: int, a: int, n: int, w: int, len: nat)
    requires n > 0 && n % 2 == 1 && w == Weight(len) && 0 <= z < n
    requires Cong(z * w, (a % n) * ((w * w) % n), n)
    ensures IsPower(z, a, 1, n, len)
  {
    CongMod(a, n);
    CongMod(w * w, n);
    CongMul(a % n, a, (w * w) % n, w * w, n);
    CongTrans(z * w, (a % n) * ((w * w) % n), a * (w * w), n);
    MulAssoc(a, w, w);
    CancelWeight(z, a * w, len, n);
    assert Pow(a, 1) == a * Pow(a, 0) == a;
  }

  /** X = R^2 * R^-1 mod N = R mod N, the power zero. */
  method ZerothPower(X: Mpi, RR: Mpi, N: Mpi, mm: limb, T: Mpi, ghost a: int) returns (r: Status)
    requires Ready(N, mm, T) && X !in {RR, N, T} && RR !in {N, T}
    requires |X.p| > |N.p| && RR.s == 1 && |RR.p| > 0
    requires Val(RR.p) == RSquared(N.p)
    modifies X, T`p
    ensures !r.Ok? ==> r == AllocFailed
    ensures |T.p| == |old(T.p)|
    ensures r.Ok? ==> X.s == 1 && Holds(X, a, 0, N)
  {
    ghost var n, w := Val(N.p), Weight(|N.p|);
    :- Copy(X, RR);
    ValBound(N.p);
    MontRed(X, N, mm, T);
    OddModulus(N.p);
    CongMod(w * w, n);
    CongTrans(Val(X.p) * w, (w * w) % n, w * w, n);
    CancelWeight(Val(X.p), w, |N.p|, n);
    assert Pow(a, 0) * w == w;
    return Ok;
  }

  /** Leaving Montgomery form: X = A^E * R * R^-1 mod N. */
  method LeaveMontgomery(X: Mpi, N: Mpi, mm: limb, T: Mpi, ghost a: int, ghost e: nat)
    requires Ready(N, mm, T) && X !in {N, T} && Holds(X, a, e, N)
    modifies X`p, T`p
    ensures Val(X.p) == PowMod(a, e, Val(N.p)) && |X.p| == |old(X.p)|
  {
    ghost var n, w, x := Val(N.p), Weight(|N.p|), Val(X.p);
    ValBound(N.p);
    MontRed(X, N, mm, T);
    OddModulus(N.p);
    CongTrans(Val(X.p) * w, x, Pow(a, e) * w, n);
    CancelWeight(Val(X.p), Pow(a, e), |N.p|, n);
    CongUnique(Val(X.p), Pow(a, e), n);
  }

  /** The window size for an exponent of that many bits. */
  function WindowSize(bits: nat, maxWindow: nat): (w: nat)
    requires 1 <= maxWindow <= 6
    ensures 1 <= w <= maxWindow
  {
    var w := if bits > 671 then 6 else if bits > 239 then 5 else if bits > 79 then 4 else if bits > 23 then 3 else 1;
    if w > maxWindow then maxWindow else w
  }

  /** The power of a nonnegative base, once its first Montgomery power is in the table. */
  method PowerOfBase(X: Mpi, W: seq<Mpi>, E: Mpi, wsize: nat, N: Mpi, mm: limb, T: Mpi, ghost a: int) returns (r: Status)
    requires Ready(N, mm, T) && X !in {N, T, E} && T != E && Separate(W, {X, N, T, E})
    requires 1 <= wsize && Pow2(wsize) <= |W| && 2 <= |W|
    requires Holds(W[1], a, 1, N) && Holds(X, a, 0, N)
    modifies X`p, T`p, W
    ensures !r.Ok? ==> r == AllocFailed
    ensures r.Ok? ==> Val(X.p) == PowMod(a, Val(E.p), Val(N.p))
    ensures |X.p| == |old(X.p)|
  {
    assert X !in W && T !in W && E !in W && N !in W;
    if wsize > 1 {
      :- FillTable(W, wsize, N, mm, T, a);
    } else {
      assert Pow2(0) == 1 && Pow2(1) == 2;
    }
    var nbits, wbits;
    ghost var k, f;
    nbits, wbits, k, f := ScanExponent(X, W, E, wsize, N, mm, T, a);
    RemainingBits(X, W, nbits, wbits, wsize, N, mm, T, a, k, f);
    LeaveMontgomery(X, N, mm, T, a, Val(E.p));
    return Ok;
  }

  /** mbedtls_mpi_exp_mod: X = A^E mod N for odd N. X may be A; the cache, if given, keeps R^2 mod N.
      A negative A is replaced by its magnitude and the result by N minus it. */
  method ExpMod(X: Mpi, A: Mpi, E: Mpi, N: Mpi, cache: Mpi?, maxWindow: nat) returns (r: Status)
    requires A.Valid() && E.Valid() && N.Valid() && |N.p| > 0 && |A.p| > 0 && 1 <= maxWindow <= 6
    requires X != E && X != N && cache != X && cache != A && cache != E && cache != N && CacheRight(cache, N)
    modifies X, cache
    ensures r == BadInput <==> N.Value() < 0 || N.p[0] % 2 == 0 || E.Value() < 0
    ensures r.Ok? || r == BadInput || r == AllocFailed
    ensures CacheRight(cache, N)
    ensures r.Ok? ==> X.Valid() && Val(N.p) > 0
    ensures r.Ok? ==> X.Value() == ExpModResult(old(A.Value()), old(A.s) == -1, Val(E.p), Val(N.p))
    ensures r.Ok? ==> |X.p| > 0
  {
    hide ExpModResult, Val, RSquared;
    var c := CmpInt(N, 0);
    if c < 0 || N.p[0] % 2 == 0 {
      return BadInput;
    }
    c := CmpInt(E, 0);
    if c < 0 {
      return BadInput;
    }
    OddModulus(N.p);
    var mm := MontgInit(N);
    var bits := Bitlen(E);
    var wsize := WindowSize(bits, maxWindow);
    var RR := new Mpi();
    var T := new Mpi();
    var W := NewTable(Pow2(maxWindow + 1));
    Pow2Monotone(wsize, maxWindow);
    Pow2Monotone(0, maxWindow);
    r := ExpModIn(X, A, E, N, cache, mm, wsize, RR, T, W);
  }

  /** The body of mbedtls_mpi_exp_mod after its input checks, on freshly initialised temporaries. */
  method ExpModIn(X: Mpi, A: Mpi, E: Mpi, N: Mpi, cache: Mpi?, mm: limb, wsize: nat, RR: Mpi, T: Mpi, W: seq<Mpi>)
    returns (r: Status)
    requires A.Valid() && N.s == 1 && |N.p| > 0 && |A.p| > 0 && 1 <= wsize && Pow2(wsize) <= |W| && 2 <= |W|
    requires X != E && X != N && cache != X && cache != A && cache != E && cache != N && CacheRight(cache, N)
    requires Separate(W, {X, A, E, N, RR, T}) && (cache != null ==> cache !in W)
    requires RR !in {X, A, E, N, T} && T !in {X, A, E, N} && cache != RR && cache != T
    requires RR.p == [] && T.p == [] && (forall i :: 0 <= i < |W| ==> W[i].p == [])
    requires Val(N.p) > 0 && N.p[0] % 2 == 1 && (mm * N.p[0] + 1) % BETA == 0
    modifies X, cache, RR, T, W
    ensures r.Ok? || r == AllocFailed
    ensures CacheRight(cache, N)
    ensures r.Ok? ==> X.Valid() && |X.p| > 0
    ensures r.Ok? ==> X.Value() == ExpModResult(old(A.Value()), old(A.s) == -1, Val(E.p), Val(N.p))
  {
    hide PowMod, Pow2, Val, RSquared;
    assert X !in W && T !in W && E !in W && N !in W && RR !in W && A !in W && W[1] != X && W[1] != N;
    var j := |N.p| + 1;
    ghost var a := Val(A.p);
    var neg := A.s == -1;
    :- Grow(X, j);
    :- Grow(W[1], j);
    :- Grow(T, j * 2);
    var base :- PositiveBase(A);
    :- PowerOfPositive(X, base, E, N, cache, mm, wsize, RR, T, W);
    if neg {
      :- ComplementResult(X, N);
    }
    return Ok;
  }

  /** A itself, or a positive copy of a negative A. */
  method PositiveBase(A: Mpi) returns (r: Status, base: Mpi)
    requires A.Valid() && |A.p| > 0
    ensures !r.Ok? ==> r == AllocFailed
    ensures r.Ok? ==> base.s == 1 && |base.p| > 0 && Val(base.p) == Val(A.p) && (base == A || fresh(base))
  {
    base := A;
    if A.s == -1 {
      base := new Mpi();
      :- Copy(base, A);
      base.s := 1;
    }
    r := Ok;
  }

  /** X = N + (-X), what is done for a negative base. */
  method ComplementResult(X: Mpi, N: Mpi) returns (r: Status)
    requires X != N && X.s == 1 && N.s == 1 && Val(X.p) < Val(N.p)
    modifies X
    ensures !r.Ok? ==> r == AllocFailed
    ensures r.Ok? ==> X.Valid() && |X.p| > 0 && X.Value() == Val(N.p) - old(Val(X.p))
  {
    X.s := -1;
    r := AddMpi(X, N, X);
  }

  /** The computation for a base made nonnegative, which may be X itself. */
  method PowerOfPositive(X: Mpi, A: Mpi, E: Mpi, N: Mpi, cache: Mpi?, mm: limb, wsize: nat, RR: Mpi, T: Mpi, W: seq<Mpi>)
    returns (r: Status)
    requires A.s == 1 && N.s == 1 && |A.p| > 0 && 1 <= wsize && Pow2(wsize) <= |W| && 2 <= |W| && Ready(N, mm, T)
    requires X != E && X != N && cache != X && cache != A && cache != E && cache != N && CacheRight(cache, N)
    requires Separate(W, {X, A, E, N, RR, T}) && (cache != null ==> cache !in W)
    requires RR !in {X, A, E, N, T} && T !in {X, A, E, N} && cache != RR && cache != T
    requires RR.p == [] && |X.p| > |N.p| && |W[1].p| > |N.p|
    modifies X, cache, RR, T, W
    ensures r.Ok? || r == AllocFailed
    ensures CacheRight(cache, N)
    ensures r.Ok? ==> X.s == 1 && |X.p| > 0
    ensures r.Ok? ==> Val(X.p) == PowMod(old(Val(A.p)), Val(E.p), Val(N.p))
  {
    assert X !in W && T !in W && E !in W && N !in W && RR !in W && A !in W;
    ghost var a := Val(A.p);
    :- PrepareRR(RR, cache, N);
    :- FirstPower(W[1], A, RR, N, mm, T);
    :- ZerothPower(X, RR, N, mm, T, a);
    :- PowerOfBase(X, W, E, wsize, N, mm, T, a);
    return Ok;
  }

  // ----- negative bases -----

  lemma {:induction false} PowOfNegation(a: int, e: nat)
    ensures Pow(-a, e) == if e % 2 == 0 then Pow(a, e) else -Pow(a, e)
  {
    if e > 0 {
      PowOfNegation(a, e - 1);
    }
  }

  /** For a negative base the result stands for A^E exactly when E is odd or N divides A^E; it is a
      proper residue exactly when N does not divide A^E. */
  lemma NegativeBaseExact(a: int, e: nat, n: int)
    requires a <= 0 && n > 0 && n % 2 == 1
    ensures var x := ExpModResult(a, true, e, n);
            && 0 < x <= n
            && (x < n <==> Pow(a, e) % n != 0)
            && (Cong(x, Pow(a, e), n) <==> e % 2 == 1 || Pow(a, e) % n == 0)
  {
    PowOfNegation(a, e);
    ComplementedResidue(Pow(-a, e), n);
    if e % 2 == 1 {
      NegatedResidue(Pow(a, e), n);
    } else {
      NegatedClass(ExpModResult(a, true, e, n), Pow(a, e), n);
    }
  }

  /** For a base prime to the modulus the parity of the exponent decides. */
  lemma NegativeBaseCoprime(a: int, e: nat, n: int)
    requires a <= 0 && n > 1 && n % 2 == 1 && NumberTheory.Gcd(-a, n) == 1
    ensures var x := ExpModResult(a, true, e, n);
            0 < x < n && (Cong(x, Pow(a, e), n) <==> e % 2 == 1)
  {
    hide ExpModResult, Pow, NumberTheory.Gcd, Cong;
    NegativeBaseExact(a, e, n);
    CoprimePower(-a, e, n);
    PowOfNegation(a, e);
    NegatedResidue(Pow(a, e), n);
  }

  lemma CoprimePower(a: nat, e: nat, n: int)
    requires n > 1 && NumberTheory.Gcd(a, n) == 1
    ensures Pow(a, e) % n != 0
  {
    hide Pow, NumberTheory.Gcd, Cong;
    var x, y := NumberTheory.Bezout(a, n);
    var p, q := Pow(x, e), Pow(a, e);
    assert Cong(p * q, 1, n) by {
      CongBy(x * a, 1, n, -y);
      CongPow(x * a, 1, e, n);
      PowOfProduct(x, a, e);
      PowOne(e);
    }
    CongZero(q, n);
    if Cong(q, 0, n) {
      CongScale(q, 0, p, n);
      CongSym(p * q, 1, n);
      CongTrans(1, p * q, p * 0, n);
      CongZero(1, n);
    }
  }

  /** (-2)^2 is 4 modulo 5; the code leaves 1. */
  lemma NegativeBaseFails()
    ensures ExpModResult(-2, true, 2, 5) == 1 && Pow(-2, 2) % 5 == 4
  {
    assert Pow(2, 2) == 2 * Pow(2, 1) == 2 * 2 * Pow(2, 0);
    assert Pow(-2, 2) == -2 * Pow(-2, 1) == -2 * -2 * Pow(-2, 0);
  }

  lemma ComplementedResidue(q: int, n: int)
    requires n > 0
    ensures 0 < n - q % n <= n && (n - q % n < n <==> q % n != 0) && Cong(n - q % n, -q, n)
  {
    assert q == (q / n) * n + q % n;
    CongBy(n - q % n, -q, n, 1 + q / n);
  }

  /** Zero residues are zero for a number and its negation alike. */
  lemma NegatedResidue(p: int, n: int)
    requires n > 0
    ensures p % n == 0 <==> (-p) % n == 0
  {
    Euclid(p, n);
    Euclid(-p, n);
    if p % n == 0 {
      NegatedMultiple(p / n, n);
    }
    if (-p) % n == 0 {
      NegatedMultiple((-p) / n, n);
    }
  }

  lemma NegatedMultiple(k: int, n: int)
    requires n > 0
    ensures (-(n * k)) % n == 0
  {
    MulDist(n, 0, k);
    MultipleMod(-k, n);
  }

  /** A class equals its negation modulo an odd number only at zero. */
  lemma NegatedClass(x: int, p: int, n: int)
    requires n > 0 && n % 2 == 1 && Cong(x, -p, n)
    ensures Cong(x, p, n) <==> p % n == 0
  {
    if Cong(x, p, n) {
      CongSym(x, p, n);
      CongTrans(p, x, -p, n);
      var k := CongQuotient(p, -p, n);
      CongBy(2 * p, 2 * 0, n, k);
      CongHalve(p, 0, n);
    }
    if p % n == 0 {
      CongBy(-p, p, n, -2 * (p / n));
      CongTrans(x, -p, p, n);
    }
  }
}
