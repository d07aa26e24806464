/** aes_gen_tables: logarithms, round constants, S-boxes and the round tables, filled in place. */
module AesTables {
  import opened Bits
  import opened GaloisField
  import opened AesSbox
  import opened AesCipher

  /** ROTL8. */
  function RotateLeft8(w: bv32): bv32 {
    (w << 8) | (w >> 24)
  }

  lemma RotateLeft8Word(a: bv8, b: bv8, c: bv8, d: bv8)
    ensures RotateLeft8(Word(a, b, c, d)) == Word(d, a, b, c)
  {
  }

  // ----- what the tables hold -----

  /** A column of the mixing matrix times a substituted byte. */
  ghost function Forward0(x: bv8): bv32 {
    Word(XTime(SBox(x)), SBox(x), SBox(x), Triple(SBox(x)))
  }

  ghost function Forward1(x: bv8): bv32 {
    Word(Triple(SBox(x)), XTime(SBox(x)), SBox(x), SBox(x))
  }

  ghost function Forward2(x: bv8): bv32 {
    Word(SBox(x), Triple(SBox(x)), XTime(SBox(x)), SBox(x))
  }

  ghost function Forward3(x: bv8): bv32 {
    Word(SBox(x), SBox(x), Triple(SBox(x)), XTime(SBox(x)))
  }

  /** A column of the inverse matrix times a byte. */
  function Inverse0(y: bv8): bv32 {
    Word(Mul(0x0E, y), Mul(0x09, y), Mul(0x0D, y), Mul(0x0B, y))
  }

  function Inverse1(y: bv8): bv32 {
    Word(Mul(0x0B, y), Mul(0x0E, y), Mul(0x09, y), Mul(0x0D, y))
  }

  function Inverse2(y: bv8): bv32 {
    Word(Mul(0x0D, y), Mul(0x0B, y), Mul(0x0E, y), Mul(0x09, y))
  }

  function Inverse3(y: bv8): bv32 {
    Word(Mul(0x09, y), Mul(0x0D, y), Mul(0x0B, y), Mul(0x0E, y))
  }

  /** The round constant 2^i. */
  function RoundConstant(i: nat): bv8 {
    if i == 0 then 1 else XTime(RoundConstant(i - 1))
  }

  /** The static tables. */
  class Tables {
    const FSb: array<bv8>
    const FT0: array<bv32>
    const FT1: array<bv32>
    const FT2: array<bv32>
    const FT3: array<bv32>
    const RSb: array<bv8>
    const RT0: array<bv32>
    const RT1: array<bv32>
    const RT2: array<bv32>
    const RT3: array<bv32>
    const RCON: array<bv32>
    ghost const Bytes: set<array<bv8>>
    ghost const Words: set<array<bv32>>

    constructor ()
      ensures Sized() && fresh(Bytes) && fresh(Words)
    {
      FSb, RSb := new bv8[256], new bv8[256];
      FT0, FT1, FT2, FT3 := new bv32[256], new bv32[256], new bv32[256], new bv32[256];
      RT0, RT1, RT2, RT3 := new bv32[256], new bv32[256], new bv32[256], new bv32[256];
      RCON := new bv32[10];
      Bytes, Words := {FSb, RSb}, {FT0, FT1, FT2, FT3, RT0, RT1, RT2, RT3, RCON};
    }

    ghost predicate Sized() {
      FSb.Length == RSb.Length == 256 && RCON.Length == 10 && FSb != RSb
      && FT0.Length == FT1.Length == FT2.Length == FT3.Length == 256
      && RT0.Length == RT1.Length == RT2.Length == RT3.Length == 256
      && FT0 !in {FT1, FT2, FT3, RT0, RT1, RT2, RT3, RCON} && FT1 !in {FT2, FT3, RT0, RT1, RT2, RT3, RCON}
      && FT2 !in {FT3, RT0, RT1, RT2, RT3, RCON} && FT3 !in {RT0, RT1, RT2, RT3, RCON}
      && RT0 !in {RT1, RT2, RT3, RCON} && RT1 !in {RT2, RT3, RCON} && RT2 !in {RT3, RCON} && RT3 != RCON
      && Bytes == {FSb, RSb} && Words == {FT0, FT1, FT2, FT3, RT0, RT1, RT2, RT3, RCON}
    }

    /** Not one of these arrays. */
    ghost predicate Apart(o: object) {
      o !in {FSb as object, RSb, FT0, FT1, FT2, FT3, RT0, RT1, RT2, RT3, RCON}
    }

    /** The S-box entries for byte i. */
    ghost predicate SboxEntry(i: nat)
      requires i < 256 && Sized()
      reads Bytes
    {
      FSb[i] == SBox(Byte(i)) && RSb[i] == InvSBox(Byte(i))
    }

    /** The round table entries for byte i. */
    ghost predicate RoundEntry(i: nat)
      requires i < 256 && Sized()
      reads Words
    {
      var x := Byte(i);
      FT0[i] == Forward0(x) && FT1[i] == Forward1(x) && FT2[i] == Forward2(x) && FT3[i] == Forward3(x)
      && RT0[i] == Inverse0(InvSBox(x)) && RT1[i] == Inverse1(InvSBox(x))
      && RT2[i] == Inverse2(InvSBox(x)) && RT3[i] == Inverse3(InvSBox(x))
    }

    ghost predicate Ready()
      reads Bytes, Words
    {
      Sized() && (forall i :: 0 <= i < 256 ==> SboxEntry(i)) && (forall i :: 0 <= i < 256 ==> RoundEntry(i))
      && forall i :: 0 <= i < 10 ==> RCON[i] == RoundConstant(i) as bv32
    }
  }

  // ----- powers and logarithms -----

  /** pow and log hold the powers of 3 and, for every power, an exponent. */
  method PowersAndLogs() returns (pow: array<bv8>, log: array<nat>)
    ensures fresh(pow) && fresh(log) && pow.Length == log.Length == 256
    ensures forall k :: 0 <= k < 256 ==> pow[k] == Power(k)
    ensures forall x: bv8 :: x != 0 ==> IsLog(log[Index(x)], x)
  {
    hide Power, Triple, Index, Byte, IsLog;
    pow, log := new bv8[256], new nat[256];
    var i, x := 0, 1;
    PowerStart();
    while i < 256
      invariant 0 <= i <= 256 && x == Power(i)
      invariant forall k :: 0 <= k < i ==> pow[k] == Power(k)
      invariant forall k :: 1 <= k < i ==> IsLog(log[Index(Power(k))], Power(k))
    {
      pow[i] := x;
      PowersIndexed(i);
      log[Index(x)] := i;
      PowerStep(i);
      x := Triple(x);
      i := i + 1;
    }
    forall y: bv8 | y != 0
      ensures IsLog(log[Index(y)], y)
    {
      PowerOfLog(y);
    }
  }

  lemma PowerOfLog(y: bv8)
    requires y != 0
    ensures 1 <= Log(y) <= 255 && Power(Log(y)) == y
  {
  }

  lemma PowerStart()
    ensures Power(0) == 1
  {
  }

  lemma PowerStep(i: nat)
    ensures Power(i + 1) == Triple(Power(i))
  {
  }

  /** Different powers have different indices. */
  lemma PowersIndexed(i: nat)
    ensures forall k: nat :: Index(Power(k)) == Index(Power(i)) ==> Power(k) == Power(i)
    ensures 1 <= i <= 255 ==> IsLog(i, Power(i))
  {
    forall k: nat | Index(Power(k)) == Index(Power(i))
      ensures Power(k) == Power(i)
    {
      ByteIndex(Power(k));
      ByteIndex(Power(i));
    }
  }

  /** MUL. */
  method MulByTables(pow: array<bv8>, log: array<nat>, x: bv8, y: bv8) returns (r: bv8)
    requires pow.Length == log.Length == 256
    requires forall k :: 0 <= k < 256 ==> pow[k] == Power(k)
    requires forall z: bv8 :: z != 0 ==> IsLog(log[Index(z)], z)
    ensures r == Mul(x, y)
  {
    hide Power, Mul, Index;
    ZeroFactor(x, y);
    if x != 0 && y != 0 {
      LogMul(x, y, log[Index(x)], log[Index(y)]);
      r := pow[(log[Index(x)] + log[Index(y)]) % 255];
    } else {
      r := 0;
    }
  }

  lemma ZeroFactor(x: bv8, y: bv8)
    ensures x == 0 || y == 0 ==> Mul(x, y) == 0
  {
    if y == 0 {
      MulBitsZero(x, 8);
    }
    if x == 0 {
      ZeroTimes(y, 8);
    }
  }

  lemma {:induction false} ZeroTimes(b: bv8, n: nat)
    ensures MulBits(0, b, n) == 0
  {
    if n > 0 {
      assert XTime(0) == 0 && Term(0, b) == 0;
      ZeroTimes(Half(b), n - 1);
      XorZero(0);
    }
  }

  // ----- generating the tables -----

  /** The affine map, one rotation at a time. */
  method AffineSteps(x0: bv8) returns (x: bv8)
    ensures x == Affine(x0)
  {
    hide Xor, Rotated;
    x := x0;
    var y := x;
    y := Rotated(y);
    x := Xor(x, y);
    y := Rotated(y);
    x := Xor(x, y);
    y := Rotated(y);
    x := Xor(x, y);
    y := Rotated(y);
    x := Xor(x, Xor(y, 0x63));
  }

  method RoundConstants(t: Tables)
    requires t.Sized()
    modifies t.RCON
    ensures forall i :: 0 <= i < 10 ==> t.RCON[i] == RoundConstant(i) as bv32
  {
    hide XTime;
    var i, x := 0, 1;
    while i < 10
      invariant 0 <= i <= 10 && x == RoundConstant(i)
      invariant forall k :: 0 <= k < i ==> t.RCON[k] == RoundConstant(k) as bv32
    {
      t.RCON[i] := x as bv32;
      x := XTime(x);
      i := i + 1;
    }
  }

  lemma InverseByLog(x: bv8, k: nat)
    requires x != 0 && IsLog(k, x)
    ensures Power(255 - k) == Inverse(x)
  {
    LogUnique(k, Log(x), x);
  }

  /** Where a new S-box value lands, no other is. */
  lemma SBoxIndexed(x: bv8)
    ensures forall y: bv8 :: Index(SBox(y)) == Index(SBox(x)) ==> y == x
  {
    forall y: bv8 | Index(SBox(y)) == Index(SBox(x))
      ensures y == x
    {
      ByteIndex(SBox(x));
      ByteIndex(SBox(y));
      SBoxInjective(x, y);
    }
  }

  lemma BytesIndexed()
    ensures forall i :: 0 <= i < 256 ==> Index(Byte(i)) == i && (Byte(i) == 0 <==> i == 0)
    ensures forall x: bv8 :: Byte(Index(x)) == x
    ensures forall y: bv8 :: SBox(InvSBox(y)) == y
    ensures SBox(0) == 0x63
  {
    forall i | 0 <= i < 256
      ensures Index(Byte(i)) == i && (Byte(i) == 0 <==> i == 0)
    {
      IndexByte(i);
      ByteIndex(Byte(i));
    }
    forall x: bv8
      ensures Byte(Index(x)) == x
    {
      ByteIndex(x);
    }
    assert Affine(0) == 0x63;
  }

  /** The loop that fills the two S-boxes. */
  method SBoxes(t: Tables, pow: array<bv8>, log: array<nat>)
    requires t.Sized() && pow.Length == log.Length == 256 && t.Apart(pow) && t.Apart(log)
    requires forall k :: 0 <= k < 256 ==> pow[k] == Power(k)
    requires forall x: bv8 :: x != 0 ==> IsLog(log[Index(x)], x)
    modifies t.FSb, t.RSb
    ensures forall i :: 0 <= i < 256 ==> t.SboxEntry(i)
  {
    SBoxLoop(t, pow, log);
    BytesIndexed();
    hide Power, IsLog, Index, Byte, SBox, InvSBox, Affine, Inverse;
    forall k | 0 <= k < 256
      ensures t.SboxEntry(k)
    {
      var y := Byte(k);
      assert t.RSb[Index(SBox(Byte(Index(InvSBox(y)))))] == InvSBox(y);
    }
  }

  method SBoxLoop(t: Tables, pow: array<bv8>, log: array<nat>)
    requires t.Sized() && pow.Length == log.Length == 256 && t.Apart(pow) && t.Apart(log)
    requires forall k :: 0 <= k < 256 ==> pow[k] == Power(k)
    requires forall x: bv8 :: x != 0 ==> IsLog(log[Index(x)], x)
    modifies t.FSb, t.RSb
    ensures forall k :: 0 <= k < 256 ==> t.FSb[k] == SBox(Byte(k)) && t.RSb[Index(SBox(Byte(k)))] == Byte(k)
  {
    BytesIndexed();
    hide Power, IsLog, Index, Byte, SBox, InvSBox, Affine, Inverse;
    t.FSb[0] := 0x63;
    t.RSb[Index(0x63)] := 0;
    var i := 1;
    while i < 256
      invariant 1 <= i <= 256
      invariant forall k :: 0 <= k < i ==> t.FSb[k] == SBox(Byte(k)) && t.RSb[Index(SBox(Byte(k)))] == Byte(k)
      invariant forall k :: 0 <= k < 256 ==> pow[k] == Power(k)
      invariant forall x: bv8 :: x != 0 ==> IsLog(log[Index(x)], x)
    {
      var x := SBoxValue(pow, log, Byte(i));
      StoreSBox(t, i, x);
      i := i + 1;
    }
  }

  method StoreSBox(t: Tables, i: nat, x: bv8)
    requires t.Sized() && i < 256 && x == SBox(Byte(i))
    requires forall k :: 0 <= k < i ==> t.FSb[k] == SBox(Byte(k)) && t.RSb[Index(SBox(Byte(k)))] == Byte(k)
    modifies t.FSb, t.RSb
    ensures forall k :: 0 <= k <= i ==> t.FSb[k] == SBox(Byte(k)) && t.RSb[Index(SBox(Byte(k)))] == Byte(k)
  {
    hide Index, Byte, SBox;
    SBoxIndexed(Byte(i));
    BytesIndexed();
    t.FSb[i] := x;
    t.RSb[Index(x)] := Byte(i);
  }

  method SBoxValue(pow: array<bv8>, log: array<nat>, b: bv8) returns (x: bv8)
    requires pow.Length == log.Length == 256 && b != 0
    requires forall k :: 0 <= k < 256 ==> pow[k] == Power(k)
    requires IsLog(log[Index(b)], b)
    ensures x == SBox(b)
  {
    InverseByLog(b, log[Index(b)]);
    x := pow[255 - log[Index(b)]];
    x := AffineSteps(x);
  }

  /** The four forward tables at one index. */
  method ForwardEntry(t: Tables, i: nat)
    requires i < 256 && t.Sized() && t.FSb[i] == SBox(Byte(i))
    modifies t.FT0, t.FT1, t.FT2, t.FT3
    ensures var x := Byte(i);
            t.FT0[i] == Forward0(x) && t.FT1[i] == Forward1(x) && t.FT2[i] == Forward2(x) && t.FT3[i] == Forward3(x)
    ensures forall k :: 0 <= k < 256 && k != i ==>
              t.FT0[k] == old(t.FT0[k]) && t.FT1[k] == old(t.FT1[k]) && t.FT2[k] == old(t.FT2[k]) && t.FT3[k] == old(t.FT3[k])
  {
    hide XTime, Word, RotateLeft8, Byte, SBox;
    var x := t.FSb[i];
    var y := XTime(x);
    var z := Xor(y, x);
    TripleBySum(x);
    hide Xor, Triple;
    t.FT0[i] := Word(y, x, x, z);
    RotateLeft8Word(y, x, x, z);
    t.FT1[i] := RotateLeft8(t.FT0[i]);
    RotateLeft8Word(z, y, x, x);
    t.FT2[i] := RotateLeft8(t.FT1[i]);
    RotateLeft8Word(x, z, y, x);
    t.FT3[i] := RotateLeft8(t.FT2[i]);
  }

  lemma TripleBySum(x: bv8)
    ensures Xor(XTime(x), x) == Triple(x)
  {
  }

  /** The four reverse tables at one index. */
  method ReverseEntry(t: Tables, i: nat, pow: array<bv8>, log: array<nat>)
    requires i < 256 && t.Sized() && t.RSb[i] == InvSBox(Byte(i))
    requires pow.Length == log.Length == 256 && t.Apart(pow) && t.Apart(log)
    requires forall k :: 0 <= k < 256 ==> pow[k] == Power(k)
    requires forall z: bv8 :: z != 0 ==> IsLog(log[Index(z)], z)
    modifies t.RT0, t.RT1, t.RT2, t.RT3
    ensures var y := InvSBox(Byte(i));
            t.RT0[i] == Inverse0(y) && t.RT1[i] == Inverse1(y) && t.RT2[i] == Inverse2(y) && t.RT3[i] == Inverse3(y)
    ensures forall k :: 0 <= k < 256 && k != i ==>
              t.RT0[k] == old(t.RT0[k]) && t.RT1[k] == old(t.RT1[k]) && t.RT2[k] == old(t.RT2[k]) && t.RT3[k] == old(t.RT3[k])
  {
    hide Power, IsLog, Index, Mul, Word, RotateLeft8, Byte, InvSBox;
    var x := t.RSb[i];
    var e := MulByTables(pow, log, 0x0E, x);
    var n := MulByTables(pow, log, 0x09, x);
    var d := MulByTables(pow, log, 0x0D, x);
    var b := MulByTables(pow, log, 0x0B, x);
    t.RT0[i] := Word(e, n, d, b);
    RotateLeft8Word(e, n, d, b);
    t.RT1[i] := RotateLeft8(t.RT0[i]);
    RotateLeft8Word(b, e, n, d);
    t.RT2[i] := RotateLeft8(t.RT1[i]);
    RotateLeft8Word(d, b, e, n);
    t.RT3[i] := RotateLeft8(t.RT2[i]);
  }

  /** aes_gen_tables. */
  method GenTables(t: Tables)
    requires t.Sized()
    modifies t.Bytes, t.Words
    ensures t.Ready()
  {
    var pow, log := PowersAndLogs();
    hide Power, IsLog, Index, Byte, SBox, InvSBox;
    RoundConstants(t);
    SBoxes(t, pow, log);
    RoundTables(t, pow, log);
  }

  method RoundTables(t: Tables, pow: array<bv8>, log: array<nat>)
    requires t.Sized() && (forall i :: 0 <= i < 256 ==> t.SboxEntry(i))
    requires pow.Length == log.Length == 256 && t.Apart(pow) && t.Apart(log)
    requires forall k :: 0 <= k < 256 ==> pow[k] == Power(k)
    requires forall z: bv8 :: z != 0 ==> IsLog(log[Index(z)], z)
    modifies t.FT0, t.FT1, t.FT2, t.FT3, t.RT0, t.RT1, t.RT2, t.RT3
    ensures forall i :: 0 <= i < 256 ==> t.RoundEntry(i)
  {
    hide Power, IsLog, Index, Byte, SBox, InvSBox, Forward0, Forward1, Forward2, Forward3, Inverse0, Inverse1, Inverse2, Inverse3;
    var i := 0;
    while i < 256
      invariant 0 <= i <= 256
      invariant forall k :: 0 <= k < i ==> t.RoundEntry(k)
      invariant forall k :: 0 <= k < 256 ==> t.SboxEntry(k) && pow[k] == Power(k)
      invariant forall z: bv8 :: z != 0 ==> IsLog(log[Index(z)], z)
    {
      assert t.SboxEntry(i);
      label Before:
      ForwardEntry(t, i);
      ReverseEntry(t, i, pow, log);
      forall k | 0 <= k < i
        ensures t.RoundEntry(k)
      {
        assert old@Before(t.RoundEntry(k));
      }
      i := i + 1;
    }
  }
}
