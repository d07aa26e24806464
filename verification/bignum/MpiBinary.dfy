/** Numbers as byte strings, highest byte first: mbedtls_mpi_size, mbedtls_mpi_read_binary, mbedtls_mpi_write_binary. */
module MpiBinary {
  import opened Arith
  import opened Octets
  import opened Limbs
  import opened MpiBase
  import opened MpiShift

  // ----- size -----

  /** n is the least number of bytes that hold v. */
  predicate Fills(v: nat, n: nat) {
    v < ByteWeight(n) && (n > 0 ==> ByteWeight(n - 1) <= v)
  }

  lemma BytesOfBits(v: nat)
    ensures Fills(v, (BitLen(v) + 7) / 8)
  {
    hide Pow2, ByteWeight;
    var n := (BitLen(v) + 7) / 8;
    BitLenBound(v);
    ByteWeightIsPow2(n);
    Pow2Monotone(BitLen(v), 8 * n);
    if n > 0 {
      ByteWeightIsPow2(n - 1);
      Pow2Monotone(8 * (n - 1), BitLen(v) - 1);
    }
  }

  /** mbedtls_mpi_size. */
  method Size(X: Mpi) returns (n: nat)
    ensures Fills(Val(X.p), n) && n <= 4 * |X.p|
  {
    var bits := Bitlen(X);
    BytesOfBits(Val(X.p));
    n := (bits + 7) / 8;
  }

  // ----- limbs and bytes -----

  lemma WeightInBytes(k: nat)
    ensures Weight(k) == ByteWeight(4 * k)
  {
    WeightIsPow2(k);
    ByteWeightIsPow2(4 * k);
  }

  /** Byte j of the number is byte j % 4 of limb j / 4. */
  lemma LimbByte(p: seq<limb>, j: nat)
    requires j / 4 < |p|
    ensures (Val(p) / ByteWeight(j)) % 256 == (p[j / 4] / ByteWeight(j % 4)) % 256
  {
    var k, r := j / 4, j % 4;
    WeightInBytes(k);
    ByteWeightAdd(4 * k, r);
    DivDivBy(Val(p), Weight(k), ByteWeight(r));
    DropLimbs(p, k);
    ValCons(p, k);
    LowLimbByte(p[k], Val(p[k + 1..]), r);
  }

  lemma LowLimbByte(x: limb, h: nat, r: nat)
    requires r < 4
    ensures ((x + BETA * h) / ByteWeight(r)) % 256 == (x / ByteWeight(r)) % 256
  {
    var w := ByteWeight(r);
    var c := if r == 0 then 0x100_0000 else if r == 1 then 0x1_0000 else if r == 2 then 0x100 else 1;
    assert BETA == 256 * c * w by {
      SmallWeights();
    }
    var q, s := x / w, x % w;
    assert x + BETA * h == (q + 256 * (c * h)) * w + s by {
      MulAssoc(256 * c, w, h);
      MulAssoc(256 * c, h, w);
      MulAssoc(256, c, h);
      MulDist(w, q, 256 * (c * h));
    }
    DivModUnique(x + BETA * h, w, q + 256 * (c * h), s);
    CongBy(q + 256 * (c * h), q, 256, c * h);
    CongIffMod(q + 256 * (c * h), q, 256);
  }

  lemma SmallWeights()
    ensures ByteWeight(0) == 1 && ByteWeight(1) == 256 && ByteWeight(2) == 65536 && ByteWeight(3) == 16777216
    ensures ByteWeight(4) == BETA
  {
    assert ByteWeight(2) == 256 * ByteWeight(1);
    assert ByteWeight(3) == 256 * ByteWeight(2);
    assert ByteWeight(4) == 256 * ByteWeight(3);
  }

  // ----- writing -----

  /** mbedtls_mpi_write_binary, to the buflen bytes at off; false is MBEDTLS_ERR_MPI_BUFFER_TOO_SMALL. */
  method WriteBinary(X: Mpi, buf: array<byte>, off: nat, buflen: nat) returns (fits: bool)
    requires off + buflen <= buf.Length
    modifies buf
    ensures fits <==> Val(X.p) < ByteWeight(buflen)
    ensures fits ==> buf[off..off + buflen] == Digits(Val(X.p), buflen)
    ensures forall i :: 0 <= i < buf.Length && !(fits && off <= i < off + buflen) ==> buf[i] == old(buf[i])
  {
    hide Val, Digits, ByteWeight, Fills;
    var size := Size(X);
    ghost var v := Val(X.p);
    FitsBySize(v, size, buflen);
    if buflen < size {
      return false;
    }
    Zeroize(buf, off, buflen);
    StoreBytes(X, buf, off + buflen, size);
    DigitsPadded(v, size, buflen - size);
    ZerosAhead(buf[..], off, buflen - size, size);
    return true;
  }

  lemma ZerosAhead(s: seq<byte>, off: nat, k: nat, n: nat)
    requires off + k + n <= |s| && forall i :: off <= i < off + k ==> s[i] == 0
    ensures s[off..off + k + n] == seq(k, _ => 0 as byte) + s[off + k..off + k + n]
  {
  }

  /** The lowest size bytes of the number, from end - 1 downwards. */
  method StoreBytes(X: Mpi, buf: array<byte>, end: nat, size: nat)
    requires size <= end <= buf.Length && size <= 4 * |X.p|
    modifies buf
    ensures buf[end - size..end] == Digits(Val(X.p), size)
    ensures forall k :: 0 <= k < buf.Length && !(end - size <= k < end) ==> buf[k] == old(buf[k])
  {
    ghost var v := Val(X.p);
    NoDigits(v);
    hide Val, Digits, ByteWeight;
    var i, j, n := end - 1, 0, size;
    while n > 0
      invariant 0 <= n <= size && j == size - n && i == end - 1 - j
      invariant buf[i + 1..end] == Digits(v, j)
      invariant forall k :: 0 <= k < buf.Length && !(i < k < end) ==> buf[k] == old(buf[k])
    {
      LimbByte(X.p, j);
      DigitsCons(v, j);
      ghost var low := buf[i + 1..end];
      buf[i] := X.p[j / 4] / ByteWeight(j % 4) % 256;
      assert buf[i..end] == [buf[i]] + low;
      i, j, n := i - 1, j + 1, n - 1;
    }
  }

  lemma NoDigits(v: nat)
    ensures Digits(v, 0) == []
  {
  }

  lemma FitsBySize(v: nat, size: nat, n: nat)
    requires Fills(v, size)
    ensures size <= n <==> v < ByteWeight(n)
  {
    if size <= n {
      ByteWeightLe(size, n);
    } else {
      ByteWeightLe(n, size - 1);
    }
  }

  lemma ByteWeightLe(m: nat, n: nat)
    requires m <= n
    ensures ByteWeight(m) <= ByteWeight(n)
  {
    ByteWeightAdd(m, n - m);
    MulLe(ByteWeight(m), 1, ByteWeight(n - m));
  }

  method Zeroize(buf: array<byte>, off: nat, n: nat)
    requires off + n <= buf.Length
    modifies buf
    ensures forall k :: off <= k < off + n ==> buf[k] == 0
    ensures forall k :: 0 <= k < buf.Length && !(off <= k < off + n) ==> buf[k] == old(buf[k])
  {
    var i := 0;
    while i < n
      invariant 0 <= i <= n && forall k :: off <= k < off + i ==> buf[k] == 0
      invariant forall k :: 0 <= k < buf.Length && !(off <= k < off + n) ==> buf[k] == old(buf[k])
    {
      buf[off + i] := 0;
      i := i + 1;
    }
  }

  // ----- reading -----

  /** mbedtls_mpi_read_binary. */
  method ReadBinary(X: Mpi, buf: seq<byte>) returns (r: Status)
    modifies X
    ensures r.Ok? ==> X.Valid() && X.s == 1 && |X.p| > 0 && X.Value() == Number(buf)
    ensures !r.Ok? ==> r == AllocFailed
  {
    r := Ok;
    var buflen := |buf|;
    var n := LeadingZeros(buf);
    :- Grow(X, (buflen - n) / 4 + if (buflen - n) % 4 != 0 then 1 else 0);
    :- Lset(X, 0);
    LoadBytes(X, buf, n);
    return Ok;
  }

  /** The bytes from n on, from the last one down, into limbs that are zero. */
  method LoadBytes(X: Mpi, buf: seq<byte>, n: nat)
    requires n <= |buf| <= 4 * |X.p| + n && Val(X.p) == 0
    modifies X`p
    ensures Val(X.p) == Number(buf[n..]) && |X.p| == |old(X.p)|
  {
    var i, j := |buf|, 0;
    assert buf[i..] == [];
    hide Val, Number, WithByte;
    while i > n
      invariant n <= i <= |buf| && j == |buf| - i
      invariant |X.p| == |old(X.p)| && Val(X.p) == Number(buf[i..])
    {
      NextByte(X.p, buf, i, j);
      X.p := WithByte(X.p, j, buf[i - 1]);
      i, j := i - 1, j + 1;
    }
  }

  /** The zero bytes in front, which the number does not depend on. */
  method LeadingZeros(buf: seq<byte>) returns (n: nat)
    ensures n <= |buf| && Number(buf[n..]) == Number(buf)
  {
    n := 0;
    while n < |buf|
      invariant 0 <= n <= |buf| && forall k :: 0 <= k < n ==> buf[k] == 0
    {
      if buf[n] != 0 {
        break;
      }
      n := n + 1;
    }
    NumberPadded(buf, n);
  }

  /** The byte or-ed in at byte j, where there are zeros: addition. */
  function WithByte(p: seq<limb>, j: nat, b: byte): (q: seq<limb>)
    requires j / 4 < |p| && p[j / 4] + b * ByteWeight(j % 4) < BETA
    ensures |q| == |p|
  {
    p[j / 4 := p[j / 4] + b * ByteWeight(j % 4)]
  }

  /** One more byte of the string moves into the limbs. */
  lemma NextByte(p: seq<limb>, buf: seq<byte>, i: nat, j: nat)
    requires 0 < i <= |buf| && j == |buf| - i && j / 4 < |p| && Val(p) == Number(buf[i..])
    ensures p[j / 4] + buf[i - 1] * ByteWeight(j % 4) < BETA
    ensures Val(WithByte(p, j, buf[i - 1])) == Number(buf[i - 1..])
  {
    hide Val, Number;
    NumberBound(buf[i..]);
    LimbRoom(p, j);
    ByteIntoLimb(p, j, buf[i - 1]);
    assert buf[i - 1..] == [buf[i - 1]] + buf[i..];
    NumberCons(buf[i - 1], buf[i..]);
  }

  /** Limb j / 4 is still zero from byte j % 4 on, so that or-ing a byte in adds it. */
  lemma LimbRoom(p: seq<limb>, j: nat)
    requires j / 4 < |p| && Val(p) < ByteWeight(j)
    ensures p[j / 4] < ByteWeight(j % 4)
  {
    var k, r := j / 4, j % 4;
    WeightInBytes(k);
    ByteWeightAdd(4 * k, r);
    ValTop(p, k);
    if p[k] >= ByteWeight(r) {
      MulLe(Weight(k), ByteWeight(r), p[k]);
    }
  }

  lemma ByteIntoLimb(p: seq<limb>, j: nat, b: byte)
    requires j / 4 < |p| && p[j / 4] < ByteWeight(j % 4)
    ensures p[j / 4] + b * ByteWeight(j % 4) < BETA
    ensures Val(p[j / 4 := p[j / 4] + b * ByteWeight(j % 4)]) == Val(p) + b * ByteWeight(j)
  {
    var k, r := j / 4, j % 4;
    SmallWeights();
    assert p[k] + b * ByteWeight(r) < 256 * ByteWeight(r) <= BETA by {
      MulLe(ByteWeight(r), b, 255);
    }
    ValUpdate(p, k, p[k] + b * ByteWeight(r));
    WeightInBytes(k);
    ByteWeightAdd(4 * k, r);
    MulAssoc(b, ByteWeight(r), Weight(k));
  }
}
