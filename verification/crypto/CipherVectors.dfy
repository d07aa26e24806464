/** ARC4 and Blowfish: what their tables and rounds compute, on concrete values and as equations. */
module CipherVectors {
  import opened Bits
  import opened Octets
  import opened AesSbox
  import opened AesCipher
  import Arc4
  import Blowfish

  // ----- ARC4 -----

  /** The first three steps of the key schedule for the key 1, 2, 3. */
  lemma FirstSwaps()
    ensures var (m, j) := Arc4.Scheduled([1, 2, 3], 3);
            j == 8 && m[0] == 1 && m[1] == 3 && m[2] == 8 && m[3] == 0 && m[8] == 2
  {
    var key: seq<byte> := [1, 2, 3];
    var (m1, j1) := Arc4.Scheduled(key, 1);
    assert j1 == 1 && m1 == Arc4.Swapped(Arc4.Numbered(), 0, 1);
    var (m2, j2) := Arc4.Scheduled(key, 2);
    assert j2 == 3 && m2 == Arc4.Swapped(m1, 1, 3);
    var (m3, j3) := Arc4.Scheduled(key, 3);
    assert j3 == 8 && m3 == Arc4.Swapped(m2, 2, 8);
  }

  /** The first three bytes of the stream from the table 0, 1, 2, ..., 255. */
  lemma FirstBytes()
    ensures var s := Arc4.State(Arc4.Numbered(), 0, 0);
            && Arc4.Step(s).1 == 2 && Arc4.Step(Arc4.Step(s).0).1 == 5
            && Arc4.Step(Arc4.Step(Arc4.Step(s).0).0).1 == 7
  {
    var m := Arc4.Numbered();
    assert m[1] == 1 && m[2] == 2 && m[3] == 3 && m[5] == 5 && m[7] == 7;
    hide Arc4.Numbered, Arc4.Step, Arc4.Permutation;
    FirstStep(m);
    SecondStep(m);
    ThirdStep(Arc4.Swapped(m, 2, 3));
  }

  lemma FirstStep(m: seq<byte>)
    requires Arc4.Permutation(m) && m[1] == 1 && m[2] == 2
    ensures Arc4.Step(Arc4.State(m, 0, 0)) == (Arc4.State(m, 1, 1), 2)
  {
    assert Arc4.Swapped(m, 1, 1) == m;
  }

  lemma SecondStep(m: seq<byte>)
    requires Arc4.Permutation(m) && m[2] == 2 && m[3] == 3 && m[5] == 5 && m[7] == 7
    ensures var m2 := Arc4.Swapped(m, 2, 3);
            Arc4.Step(Arc4.State(m, 1, 1)) == (Arc4.State(m2, 2, 3), 5) && m2[3] == 2 && m2[5] == 5 && m2[7] == 7
            && Arc4.Permutation(m2)
  {
    Arc4.SwapKeepsPermutation(m, 2, 3);
  }

  lemma ThirdStep(m: seq<byte>)
    requires Arc4.Permutation(m) && m[3] == 2 && m[5] == 5 && m[7] == 7
    ensures Arc4.Step(Arc4.State(m, 2, 3)).1 == 7
  {
  }

  /** Each byte of the text is mixed with one byte of the stream. */
  lemma StreamMixed(s: Arc4.State, a: bv8, b: bv8)
    requires s.Valid()
    ensures var s1, s2 := Arc4.Step(s).0, Arc4.Step(Arc4.Step(s).0).0;
            Arc4.Crypt(s, [a, b]) == Arc4.Output(s2, [Xor(a, Byte(Arc4.Step(s).1)), Xor(b, Byte(Arc4.Step(s1).1))])
  {
    hide Arc4.Step, Xor, Byte;
    assert [a, b][1..] == [b] && [b][1..] == [];
    var s1 := Arc4.Step(s).0;
    assert Arc4.Crypt(s1, [b]) == Arc4.Output(Arc4.Step(s1).0, [Xor(b, Byte(Arc4.Step(s1).1))] + []);
  }

  // ----- Blowfish -----

  /** The round function, byte by byte from the top: ((S0[a] + S1[b]) xor S2[c]) + S3[d]. */
  lemma RoundFunction(s: Blowfish.Schedule, a: bv8, b: bv8, c: bv8, d: bv8)
    requires s.Sized()
    ensures a as int < 256 && b as int < 256 && c as int < 256 && d as int < 256
    ensures Blowfish.F(s, Word(d, c, b, a)) ==
            Blowfish.Add32(Xor32(Blowfish.Add32(s.s0[a as int], s.s1[b as int]), s.s2[c as int]), s.s3[d as int])
  {
    TopBytes(a, b, c, d);
    hide Word, Xor32, Blowfish.Add32, Blowfish.Low, Blowfish.ShiftRight8;
  }

  /** Addition wraps around. */
  lemma AddWraps(x: bv32)
    ensures Blowfish.Add32(0xFFFF_FFFF, 3) == 2 && Blowfish.Add32(1, 2) == 3 && Blowfish.Add32(x, -x) == 0
  {
  }

  lemma TopBytes(a: bv8, b: bv8, c: bv8, d: bv8)
    ensures var x := Word(d, c, b, a);
            var x1 := Blowfish.ShiftRight8(x);
            var x2 := Blowfish.ShiftRight8(x1);
            && Blowfish.Low(x) == d as int && Blowfish.Low(x1) == c as int && Blowfish.Low(x2) == b as int
            && Blowfish.Low(Blowfish.ShiftRight8(x2)) == a as int
  {
  }

  /** A round of the network: the left half gets its key, the right half the round function of that, and they trade
      places; in the end they trade back and get the last two keys. */
  lemma Network(s: Blowfish.Schedule, x: Blowfish.Halves, n: nat)
    requires s.Sized() && n < 16
    ensures var before, after := Blowfish.Forward(s, x, n), Blowfish.Forward(s, x, n + 1);
            after.r == Xor32(before.l, s.p[n]) && after.l == Xor32(Blowfish.F(s, after.r), before.r)
    ensures Blowfish.Forward(s, x, 0) == x
    ensures var last, out := Blowfish.Forward(s, x, 16), Blowfish.Enciphered(s, x);
            out.l == Xor32(last.r, s.p[17]) && out.r == Xor32(last.l, s.p[16])
  {
    hide Blowfish.F, Xor32;
  }
}
