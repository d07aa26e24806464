/** Base64 texts: which are accepted, and what they stand for. */
module Base64Text {
  import opened Octets

  const SPACE: byte := 32
  const LF: byte := 10
  const CR: byte := 13
  const PAD: byte := 61

  /** A six-bit value; PADDING is what the decoding map holds for '='. */
  type sextet = x: int | 0 <= x <= 64

  const PADDING: sextet := 64
  const INVALID: byte := 127

  /** base64_enc_map. */
  function Symbol(v: int): (c: byte)
    requires 0 <= v < 64
  {
    if v < 26 then v + 65 else if v < 52 then v + 71 else if v < 62 then v - 4 else if v == 62 then 43 else 47
  }

  /** base64_dec_map, and 127 for what lies behind its end. */
  function Lookup(c: byte): (v: byte)
    ensures v == INVALID || v <= PADDING
    ensures v == PADDING <==> c == PAD
    ensures v < PADDING ==> c == Symbol(v)
  {
    if 65 <= c <= 90 then c - 65
    else if 97 <= c <= 122 then c - 71
    else if 48 <= c <= 57 then c + 4
    else if c == 43 then 62
    else if c == 47 then 63
    else if c == PAD then PADDING
    else INVALID
  }

  lemma LookupSymbol(v: int)
    requires 0 <= v < 64
    ensures Lookup(Symbol(v)) == v && !Blank(Symbol(v))
  {
  }

  predicate Blank(c: byte) {
    c == SPACE || c == LF || c == CR
  }

  // ----- encoding -----

  /** Four symbols for the first n of three bytes, of which those missing are zero. */
  function Group(a: byte, b: byte, c: byte, n: nat): (s: seq<byte>)
    ensures |s| == 4
  {
    [Symbol(a / 4), Symbol(a % 4 * 16 + b / 16),
     if n < 2 then PAD else Symbol(b % 16 * 4 + c / 64), if n < 3 then PAD else Symbol(c % 64)]
  }

  /** RFC 1521 section 5.2. */
  function Encoded(b: seq<byte>): (s: seq<byte>)
    ensures |s| == 4 * ((|b| + 2) / 3)
  {
    if b == [] then []
    else if |b| < 3 then Group(b[0], if |b| < 2 then 0 else b[1], 0, |b|)
    else Group(b[0], b[1], b[2], 3) + Encoded(b[3..])
  }

  // ----- the first pass of the decoder -----

  datatype Scanned = Refused | Accepted(symbols: nat, pads: nat)

  function LeadingSpaces(s: seq<byte>): (k: nat)
    ensures k <= |s| && (forall i :: 0 <= i < k ==> s[i] == SPACE) && (k < |s| ==> s[k] != SPACE)
  {
    if s != [] && s[0] == SPACE then 1 + LeadingSpaces(s[1..]) else 0
  }

  /** The turns of the loop that are left when s is: n symbols and j pads were counted. */
  function Scan(s: seq<byte>, n: nat, j: nat): (r: Scanned)
    decreases |s|
  {
    var k := LeadingSpaces(s);
    var t := s[k..];
    if t == [] then Accepted(n, j)
    else if (|t| >= 2 && t[0] == CR && t[1] == LF) || t[0] == LF then Scan(t[1..], n, j)
    else if k > 0 then Refused
    else
      var j' := if t[0] == PAD then j + 1 else j;
      if j' > 2 && t[0] == PAD then Refused
      else if Lookup(t[0]) == INVALID then Refused
      else if Lookup(t[0]) < PADDING && j' != 0 then Refused
      else Scan(t[1..], n + 1, j')
  }

  // ----- the same without a scan -----

  /** A space runs on to more blanks or to the end, a carriage return is followed by a line feed, and all else is
      in the alphabet. */
  predicate Fits(s: seq<byte>, i: nat)
    requires i < |s|
  {
    if s[i] == SPACE then i + 1 == |s| || Blank(s[i + 1])
    else if s[i] == CR then i + 1 < |s| && s[i + 1] == LF
    else s[i] == LF || Lookup(s[i]) != INVALID
  }

  predicate Clean(s: seq<byte>) {
    forall i :: 0 <= i < |s| ==> Fits(s, i)
  }

  /** The values of the symbols, in order. */
  function Values(s: seq<byte>): (t: seq<sextet>)
    ensures |t| <= |s|
  {
    if s == [] then [] else ValueOf(s[0]) + Values(s[1..])
  }

  function ValueOf(c: byte): (t: seq<sextet>)
    ensures |t| <= 1
  {
    if Blank(c) || Lookup(c) == INVALID then [] else [Lookup(c)]
  }

  function Pads(t: seq<sextet>): (n: nat)
    ensures n <= |t|
  {
    if t == [] then 0 else (if t[0] == PADDING then 1 else 0) + Pads(t[1..])
  }

  /** No data behind a pad, once j pads were seen, and at most two pads in all. */
  predicate Padded(t: seq<sextet>, j: nat) {
    if t == [] then j <= 2
    else if t[0] == PADDING then Padded(t[1..], j + 1)
    else j == 0 && Padded(t[1..], j)
  }

  // ----- laws of the parts -----

  lemma {:induction false} ValuesAppend(a: seq<byte>, b: seq<byte>)
    ensures Values(a + b) == Values(a) + Values(b)
  {
    hide ValueOf;
    if a == [] {
      assert a + b == b;
    } else {
      ValuesAppend(a[1..], b);
      assert (a + b)[1..] == a[1..] + b && (a + b)[0] == a[0];
      Regroup(ValueOf(a[0]), Values(a[1..]), Values(b));
    }
  }

  lemma Regroup(a: seq<sextet>, b: seq<sextet>, c: seq<sextet>)
    ensures a + (b + c) == a + b + c
  {
  }

  lemma {:induction false} PadsAppend(a: seq<sextet>, b: seq<sextet>)
    ensures Pads(a + b) == Pads(a) + Pads(b)
  {
    if a == [] {
      assert a + b == b;
    } else {
      PadsAppend(a[1..], b);
      assert (a + b)[1..] == a[1..] + b;
    }
  }

  lemma {:induction false} PaddedBound(t: seq<sextet>, j: nat)
    requires Padded(t, j)
    ensures j + Pads(t) <= 2 && (j > 0 ==> Pads(t) == |t|)
  {
    if t != [] {
      PaddedBound(t[1..], if t[0] == PADDING then j + 1 else j);
    }
  }

  lemma {:induction false} PaddedDrop(t: seq<sextet>, j: nat, k: nat)
    requires Padded(t, j) && k <= |t|
    ensures Padded(t[k..], j + Pads(t[..k]))
  {
    if k > 0 {
      var j' := if t[0] == PADDING then j + 1 else j;
      PaddedDrop(t[1..], j', k - 1);
      assert t[1..][k - 1..] == t[k..] && t[..k][1..] == t[1..][..k - 1];
    } else {
      assert t[0..] == t;
    }
  }

  /** A text is clean if its first character fits and the rest is clean. */
  lemma CleanCons(s: seq<byte>)
    requires s != []
    ensures Clean(s) <==> Fits(s, 0) && Clean(s[1..])
  {
    if Clean(s) {
      forall i | 0 <= i < |s[1..]| ensures Fits(s[1..], i) {
        assert Fits(s, i + 1);
      }
    }
    if Fits(s, 0) && Clean(s[1..]) {
      forall i | 0 <= i < |s| ensures Fits(s, i) {
        if i > 0 {
          assert Fits(s[1..], i - 1);
        }
      }
    }
  }

  lemma {:induction false} SpacesAhead(s: seq<byte>, k: nat)
    requires k == LeadingSpaces(s)
    ensures Values(s) == Values(s[k..])
    ensures Clean(s) <==> Clean(s[k..]) && (k == 0 || k == |s| || Blank(s[k]))
  {
    hide Clean;
    if k > 0 {
      SpacesAhead(s[1..], k - 1);
      assert s[1..][k - 1..] == s[k..];
      SpaceAhead(s);
    } else {
      assert s[0..] == s;
    }
  }

  lemma SpaceAhead(s: seq<byte>)
    requires s != [] && s[0] == SPACE
    ensures Values(s) == Values(s[1..])
    ensures Clean(s) <==> Clean(s[1..]) && (|s| == 1 || Blank(s[1]))
  {
    hide Clean;
    CleanCons(s);
  }

  // ----- the first pass accepts the clean and well padded texts -----

  /** A clean and well padded text is accepted with what it holds. */
  function Outcome(s: seq<byte>, n: nat, j: nat): (r: Scanned) {
    if Clean(s) && Padded(Values(s), j) then Accepted(n + |Values(s)|, j + Pads(Values(s))) else Refused
  }

  lemma {:induction false} ScanIff(s: seq<byte>, n: nat, j: nat)
    requires j <= 2
    ensures Scan(s, n, j) == Outcome(s, n, j)
    decreases |s|
  {
    var k := LeadingSpaces(s);
    var t := s[k..];
    BlanksAhead(s, n, j);
    if t == [] {
      OutcomeEmpty(n, j);
    } else {
      hide LeadingSpaces, Outcome, Lookup;
      if (|t| >= 2 && t[0] == CR && t[1] == LF) || t[0] == LF {
        BreakAhead(t, n, j);
        ScanIff(t[1..], n, j);
      } else if k == 0 {
        SymbolAhead(t, n, j);
        if Lookup(t[0]) != INVALID && (t[0] != PAD || j < 2) {
          ScanIff(t[1..], n + 1, if t[0] == PAD then j + 1 else j);
        }
      }
    }
  }

  lemma OutcomeEmpty(n: nat, j: nat)
    requires j <= 2
    ensures Outcome([], n, j) == Accepted(n, j)
  {
  }

  predicate Break(t: seq<byte>) {
    t == [] || (|t| >= 2 && t[0] == CR && t[1] == LF) || t[0] == LF
  }

  lemma BlanksAhead(s: seq<byte>, n: nat, j: nat)
    ensures var k := LeadingSpaces(s);
            Outcome(s, n, j) == if k == 0 || Break(s[k..]) then Outcome(s[k..], n, j) else Refused
  {
    var k := LeadingSpaces(s);
    SpacesAhead(s, k);
    hide Clean, Padded, Pads, Values;
    if k < |s| {
      CleanCons(s[k..]);
    }
  }

  lemma BreakAhead(t: seq<byte>, n: nat, j: nat)
    requires t != [] && ((|t| >= 2 && t[0] == CR && t[1] == LF) || t[0] == LF)
    ensures Outcome(t, n, j) == Outcome(t[1..], n, j)
  {
    hide Clean, Padded, Pads;
    CleanCons(t);
    assert Values(t) == Values(t[1..]);
  }

  lemma SymbolAhead(t: seq<byte>, n: nat, j: nat)
    requires !Break(t) && t[0] != SPACE && j <= 2
    ensures Outcome(t, n, j)
         == if Lookup(t[0]) == INVALID || (if t[0] == PAD then j == 2 else j != 0) then Refused
            else Outcome(t[1..], n + 1, if t[0] == PAD then j + 1 else j)
  {
    hide Clean;
    CleanCons(t);
    if Lookup(t[0]) != INVALID {
      assert Values(t)[1..] == Values(t[1..]);
      if Padded(Values(t), j) {
        PaddedBound(Values(t), j);
      }
    }
  }

  // ----- line breaks -----

  function Spaces(k: nat): (s: seq<byte>)
    ensures |s| == k && forall i :: 0 <= i < k ==> s[i] == SPACE
  {
    seq(k, _ => SPACE)
  }

  /** A line break, perhaps behind spaces, in the middle of an accepted text: nothing changes, unless the break
      separates the two characters of a line break that is there already. */
  lemma LineBreak(a: seq<byte>, b: seq<byte>, k: nat, eol: seq<byte>)
    requires eol == [LF] || eol == [CR, LF]
    requires Scan(a + b, 0, 0).Accepted?
    ensures Values(a + Spaces(k) + eol + b) == Values(a + b)
    ensures Scan(a + Spaces(k) + eol + b, 0, 0)
         == if a != [] && a[|a| - 1] == CR && (k > 0 || eol[0] == CR) then Refused else Scan(a + b, 0, 0)
  {
    var gap := Spaces(k) + eol;
    assert a + Spaces(k) + eol + b == a + gap + b;
    GapValues(k, eol);
    assert Clean(gap);
    GapNeutral(a, gap, b);
  }

  lemma GapNeutral(a: seq<byte>, gap: seq<byte>, b: seq<byte>)
    requires gap != [] && gap[|gap| - 1] == LF && Clean(gap) && (forall i :: 0 <= i < |gap| ==> Blank(gap[i]))
    requires Values(gap) == [] && Scan(a + b, 0, 0).Accepted?
    ensures Values(a + gap + b) == Values(a + b)
    ensures Scan(a + gap + b, 0, 0)
         == if a != [] && a[|a| - 1] == CR && gap[0] != LF then Refused else Scan(a + b, 0, 0)
  {
    hide Values, Clean, Scan, Padded, Pads, Blank;
    ValuesAppend(a + gap, b);
    ValuesAppend(a, gap);
    ValuesAppend(a, b);
    ScanIff(a + b, 0, 0);
    ScanIff(a + gap + b, 0, 0);
    GapClean(a, gap, b);
  }

  lemma {:induction false} GapValues(k: nat, eol: seq<byte>)
    requires eol == [LF] || eol == [CR, LF]
    ensures Values(Spaces(k) + eol) == []
  {
    if k > 0 {
      GapValues(k - 1, eol);
      assert (Spaces(k) + eol)[1..] == Spaces(k - 1) + eol;
    } else {
      assert Spaces(0) + eol == eol && eol[|eol| - 1..] == [LF];
    }
  }

  /** A gap of blanks that ends in a line feed, with no bare carriage return. */
  lemma GapClean(a: seq<byte>, gap: seq<byte>, b: seq<byte>)
    requires gap != [] && gap[|gap| - 1] == LF && Clean(gap) && (forall i :: 0 <= i < |gap| ==> Blank(gap[i]))
    requires Clean(a + b)
    ensures Clean(a + gap + b) <==> !(a != [] && a[|a| - 1] == CR && gap[0] != LF)
  {
    var s, n := a + gap + b, |a| + |gap|;
    forall i | 0 <= i < |s| && i != |a| - 1 ensures Fits(s, i) {
      if i < |a| {
        assert Fits(a + b, i);
      } else if i < n {
        assert Fits(gap, i - |a|);
      } else {
        assert Fits(a + b, i - |gap|);
      }
    }
    if a != [] {
      assert Fits(a + b, |a| - 1);
      assert Fits(s, |a| - 1) <==> !(a[|a| - 1] == CR && gap[0] != LF);
    }
  }

  // ----- decoding -----

  /** The 24 bits of four values, as three bytes. */
  function Three(t: seq<sextet>): (b: seq<byte>)
    requires |t| == 4
    ensures |b| == 3
  {
    var x := Packed(t);
    [x / 65536 % 256, x / 256 % 256, x % 256]
  }

  /** Six bits each. */
  function Packed(t: seq<sextet>): (x: nat) {
    if t == [] then 0 else Packed(t[..|t| - 1]) * 64 + t[|t| - 1] as int % 64
  }

  /** The bytes of the complete groups; pads seen so far shorten a group. */
  function Unpacked(t: seq<sextet>, j: nat): (b: seq<byte>)
    requires Pads(t) <= j <= 3
  {
    if |t| < 4 then []
    else
      assert t == t[..4] + t[4..];
      PadsAppend(t[..4], t[4..]);
      var j' := j - Pads(t[..4]);
      Three(t[..4])[..j'] + Unpacked(t[4..], j')
  }

  /** What the first pass computes as the length of the result. */
  function Needed(n: nat, pads: nat): int {
    (n * 6 + 7) / 8 - pads
  }

  /** The second pass stays within that length, and fills it when the text is padded to whole groups. */
  lemma {:induction false} UnpackedSize(t: seq<sextet>)
    requires Padded(t, 0) && Pads(t) <= 3
    ensures |Unpacked(t, 3)| <= Needed(|t|, Pads(t))
    ensures |t| % 4 == 0 ==> |Unpacked(t, 3)| == Needed(|t|, Pads(t))
  {
    PaddedBound(t, 0);
    if |t| >= 4 {
      assert t == t[..4] + t[4..];
      PadsAppend(t[..4], t[4..]);
      PaddedDrop(t, 0, 4);
      PaddedBound(t[4..], Pads(t[..4]));
      if Pads(t[..4]) == 0 {
        UnpackedSize(t[4..]);
      }
    }
  }

  // ----- the round trip -----

  lemma {:induction false} ValuesOf4(s: seq<byte>)
    requires |s| == 4 && forall i :: 0 <= i < 4 ==> |ValueOf(s[i])| == 1
    ensures Values(s) == ValueOf(s[0]) + ValueOf(s[1]) + ValueOf(s[2]) + ValueOf(s[3])
  {
    hide ValueOf;
    assert s[1..][1..][1..][1..] == [];
    assert Values(s[1..][1..][1..]) == ValueOf(s[3]);
    assert Values(s[1..][1..]) == ValueOf(s[2]) + ValueOf(s[3]);
    assert Values(s[1..]) == ValueOf(s[1]) + ValueOf(s[2]) + ValueOf(s[3]);
  }

  /** A group of an encoding: its values, and the bytes that they carry. */
  lemma GroupEncodes(a: byte, b: byte, c: byte, n: nat)
    requires 1 <= n <= 3 && (n < 2 ==> b == 0) && (n < 3 ==> c == 0)
    ensures Encodes(Group(a, b, c, n), [a, b, c][..n])
  {
    hide Group, Sextets, Lookup, Values, Three, Pads, Padded, Unpacked, Blank;
    var t := Sextets(a, b, c, n);
    GroupSymbols(a, b, c, n);
    GroupValues(a, b, c, n);
    SextetParts(a, b, c, n);
    SixBitsOfThree(a, b, c, t);
    PadsOf4(t, n);
    OneGroup(t);
  }

  lemma SextetParts(a: byte, b: byte, c: byte, n: nat)
    requires 1 <= n <= 3 && (n < 2 ==> b == 0) && (n < 3 ==> c == 0)
    ensures var t := Sextets(a, b, c, n);
            && t[0] == a / 4 < PADDING && t[1] == a % 4 * 16 + b / 16 < PADDING
            && t[2] % 64 == b % 16 * 4 + c / 64 && t[3] % 64 == c % 64
            && (t[2] == PADDING <==> n < 2) && (t[3] == PADDING <==> n < 3)
            && (forall i :: 0 <= i < 4 ==> t[i] != INVALID)
  {
  }

  function Sextets(a: byte, b: byte, c: byte, n: nat): (t: seq<sextet>)
    ensures |t| == 4
  {
    [a / 4, a % 4 * 16 + b / 16, if n < 2 then PADDING else b % 16 * 4 + c / 64, if n < 3 then PADDING else c % 64]
  }

  lemma GroupSymbols(a: byte, b: byte, c: byte, n: nat)
    requires 1 <= n <= 3
    ensures var s, t := Group(a, b, c, n), Sextets(a, b, c, n);
            forall i :: 0 <= i < 4 ==> !Blank(s[i]) && Lookup(s[i]) == t[i]
  {
    LookupSymbol(a / 4);
    LookupSymbol(a % 4 * 16 + b / 16);
    LookupSymbol(b % 16 * 4 + c / 64);
    LookupSymbol(c % 64);
    PadLookup();
    hide Lookup, Symbol, Blank;
  }

  lemma PadLookup()
    ensures Lookup(PAD) == PADDING && !Blank(PAD)
  {
  }

  lemma GroupValues(a: byte, b: byte, c: byte, n: nat)
    requires 1 <= n <= 3
    ensures Values(Group(a, b, c, n)) == Sextets(a, b, c, n)
  {
    GroupSymbols(a, b, c, n);
    var s := Group(a, b, c, n);
    ValuesOf4(s);
    hide Lookup, Symbol, Blank, Group, Values;
  }

  /** Symbols only, padded to whole groups, and decoded to b. */
  predicate Encodes(s: seq<byte>, b: seq<byte>) {
    var t := Values(s);
    (forall i :: 0 <= i < |s| ==> !Blank(s[i]) && Lookup(s[i]) != INVALID)
    && |t| == |s| && Pads(t) == (3 - |b| % 3) % 3 && Padded(t, 0) && Unpacked(t, 3) == b
  }

  lemma SixBitsOfThree(a: byte, b: byte, c: byte, t: seq<sextet>)
    requires |t| == 4 && t[0] % 64 == a / 4 && t[1] % 64 == a % 4 * 16 + b / 16
    requires t[2] % 64 == b % 16 * 4 + c / 64 && t[3] % 64 == c % 64
    ensures Three(t) == [a, b, c]
  {
    PackedOf4(t);
    ThreeBytes(a, b, c);
  }

  lemma PackedOf4(t: seq<sextet>)
    requires |t| == 4
    ensures Packed(t) == t[0] as int % 64 * 262144 + t[1] as int % 64 * 4096 + t[2] as int % 64 * 64 + t[3] as int % 64
  {
    var t1, t2, t3 := t[..1], t[..2], t[..3];
    assert t3[..2] == t2 && t2[..1] == t1 && t1[..0] == [];
    assert Packed(t1) == t[0] as int % 64;
    assert Packed(t2) == Packed(t1) * 64 + t[1] as int % 64;
    assert Packed(t3) == Packed(t2) * 64 + t[2] as int % 64;
  }

  lemma ThreeBytes(a: byte, b: byte, c: byte)
    ensures var x := a / 4 * 262144 + (a % 4 * 16 + b / 16) * 4096 + (b % 16 * 4 + c / 64) * 64 + c % 64;
            x == a * 65536 + b * 256 + c && x / 65536 % 256 == a && x / 256 % 256 == b && x % 256 == c
  {
    var x := a * 65536 + b * 256 + c;
    assert x / 256 == a * 256 + b;
    assert x / 65536 == a;
  }

  lemma PadsOf4(t: seq<sextet>, n: nat)
    requires |t| == 4 && 1 <= n <= 3 && t[0] < PADDING && t[1] < PADDING
    requires (t[2] == PADDING <==> n < 2) && (t[3] == PADDING <==> n < 3)
    ensures Pads(t) == 3 - n && Padded(t, 0)
  {
    var t1, t2, t3 := t[1..], t[1..][1..], t[1..][1..][1..];
    assert t3[1..] == [];
    assert Pads(t3) == (if n < 3 then 1 else 0) && Pads(t2) == 3 - n;
    assert Padded(t3, if n < 2 then 1 else 0);
    assert Padded(t2, 0);
  }

  /** Every encoding is an accepted text without line breaks, and decoding it gives the bytes back. */
  lemma EncodedAccepted(b: seq<byte>)
    ensures Scan(Encoded(b), 0, 0) == Accepted(|Encoded(b)|, (3 - |b| % 3) % 3)
    ensures Pads(Values(Encoded(b))) <= 3 && Unpacked(Values(Encoded(b)), 3) == b
  {
    EncodedShape(b);
    CleanSymbols(Encoded(b));
    ScanIff(Encoded(b), 0, 0);
  }

  lemma CleanSymbols(s: seq<byte>)
    requires forall i :: 0 <= i < |s| ==> !Blank(s[i]) && Lookup(s[i]) != INVALID
    ensures Clean(s)
  {
    hide Lookup;
    forall i | 0 <= i < |s| ensures Fits(s, i) {
      assert !Blank(s[i]);
    }
  }

  lemma {:induction false} EncodedShape(b: seq<byte>)
    ensures Encodes(Encoded(b), b)
  {
    hide Encodes, Group;
    if b == [] {
      NothingEncoded();
    } else if |b| < 3 {
      var b1 := if |b| < 2 then 0 else b[1];
      GroupEncodes(b[0], b1, 0, |b|);
      assert [b[0], b1, 0][..|b|] == b;
    } else {
      GroupEncodes(b[0], b[1], b[2], 3);
      EncodedShape(b[3..]);
      DataGroup(b[0], b[1], b[2]);
      assert [b[0], b[1], b[2]][..3] == [b[0], b[1], b[2]];
      MoreGroups(Group(b[0], b[1], b[2], 3), [b[0], b[1], b[2]], Encoded(b[3..]), b[3..]);
      assert [b[0], b[1], b[2]] + b[3..] == b;
    }
  }

  lemma DataGroup(a: byte, b: byte, c: byte)
    ensures forall i :: 0 <= i < 4 ==> Lookup(Group(a, b, c, 3)[i]) < PADDING
  {
    GroupSymbols(a, b, c, 3);
    hide Lookup, Symbol, Group;
  }

  lemma NothingEncoded()
    ensures Encodes([], [])
  {
  }

  lemma OneGroup(t: seq<sextet>)
    requires |t| == 4 && Pads(t) <= 3
    ensures Unpacked(t, 3) == Three(t)[..3 - Pads(t)]
  {
    assert t + [] == t;
    GroupAhead(t, [], 3);
  }

  lemma GroupAhead(t: seq<sextet>, rest: seq<sextet>, j: nat)
    requires |t| == 4 && Pads(t + rest) <= j <= 3
    ensures Pads(t) + Pads(rest) <= j
    ensures Unpacked(t + rest, j) == Three(t)[..j - Pads(t)] + Unpacked(rest, j - Pads(t))
  {
    PadsAppend(t, rest);
    assert (t + rest)[..4] == t && (t + rest)[4..] == rest;
    hide Three, Pads;
  }

  /** A group of data in front of an encoding. */
  lemma MoreGroups(g: seq<byte>, b: seq<byte>, s: seq<byte>, c: seq<byte>)
    requires |g| == 4 && |b| == 3 && (forall i :: 0 <= i < 4 ==> Lookup(g[i]) < PADDING)
    requires Encodes(g, b) && Encodes(s, c)
    ensures Encodes(g + s, b + c)
  {
    hide Values, Lookup, Blank, Three, ValueOf, Pads, Padded, Unpacked;
    var t, u := Values(g), Values(s);
    ValuesAppend(g, s);
    DataValues(g);
    PadsAppend(t, u);
    SkipData(t, u);
    OneGroup(t);
    GroupAhead(t, u, 3);
  }

  lemma {:induction false} DataValues(s: seq<byte>)
    requires forall i :: 0 <= i < |s| ==> Lookup(s[i]) < PADDING
    ensures forall i :: 0 <= i < |Values(s)| ==> Values(s)[i] < PADDING
  {
    if s != [] {
      DataValues(s[1..]);
    }
  }

  lemma {:induction false} SkipData(g: seq<sextet>, t: seq<sextet>)
    requires forall i :: 0 <= i < |g| ==> g[i] < PADDING
    ensures Padded(g + t, 0) <==> Padded(t, 0)
  {
    if g == [] {
      assert g + t == t;
    } else {
      SkipData(g[1..], t);
      assert (g + t)[1..] == g[1..] + t;
    }
  }
}
