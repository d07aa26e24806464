/** base64.c: the encoder, and the decoder's two passes. */
module Base64 {
  import opened Arith
  import opened Octets
  import opened Base64Text

  const BUFFER_TOO_SMALL: int := -0x2A
  const INVALID_CHARACTER: int := -0x2C

  // ----- encoding -----

  /** mbedtls_base64_encode, for any width of size_t; sizeMax is its largest value. */
  method Encode(dst: array<byte>, src: seq<byte>, sizeMax: nat) returns (rc: int, olen: nat)
    requires |src| <= sizeMax
    modifies dst
    ensures var groups := Groups(|src|);
            if groups == 0 then rc == 0 && olen == 0
            else if groups > (sizeMax - 1) / 4 then rc == BUFFER_TOO_SMALL && olen == sizeMax
            else if dst.Length < groups * 4 + 1 then rc == BUFFER_TOO_SMALL && olen == groups * 4 + 1
            else rc == 0 && olen == groups * 4
    ensures rc == 0 && src != [] ==> olen < dst.Length && dst[..olen + 1] == Encoded(src) + [0]
    ensures rc != 0 || src == [] ==> dst[..] == old(dst[..])
  {
    if |src| == 0 {
      return 0, 0;
    }
    EncodedSize(src);
    hide Encoded, Groups;
    var n := |src| / 3 + if |src| % 3 != 0 then 1 else 0;
    if n > (sizeMax - 1) / 4 {
      return BUFFER_TOO_SMALL, sizeMax;
    }
    n := n * 4;
    if dst.Length < n + 1 {
      return BUFFER_TOO_SMALL, n + 1;
    }
    olen := Fill(dst, src);
    assert dst[..olen + 1] == dst[..olen] + [dst[olen]];
    rc := 0;
  }

  /** How many groups of up to three bytes there are. */
  function Groups(k: nat): (n: nat)
    ensures n == 0 <==> k == 0
  {
    (k + 2) / 3
  }

  lemma EncodedSize(src: seq<byte>)
    ensures |Encoded(src)| == Groups(|src|) * 4
    ensures Groups(|src|) == |src| / 3 + if |src| % 3 != 0 then 1 else 0
  {
  }

  /** The loop over whole groups, the rest, and the closing zero. */
  method Fill(dst: array<byte>, src: seq<byte>) returns (p: nat)
    requires dst.Length > |Encoded(src)|
    modifies dst
    ensures p == |Encoded(src)| && dst[..p] == Encoded(src) && dst[p] == 0
  {
    hide Before, Encoded, Group, Symbol;
    var n := |src| / 3 * 3;
    var i := 0;
    p := 0;
    EncodedStart(src);
    assert dst[..p] == [];
    ghost var size, left := |Encoded(src)|, |src| / 3;
    assert n <= |src| < n + 3;
    while i < n
      invariant 0 <= i <= n <= |src| && n - i == 3 * left
      invariant 0 <= p <= size && Before(dst[..p], src, i)
    {
      EncodedMore(dst[..p], src, i);
      p := PutGroup(dst, p, src[i], src[i + 1], src[i + 2]);
      i := i + 3;
      left := left - 1;
    }
    p := PutEnd(dst, p, src, i);
  }

  /** What the loop leaves: one or two bytes, and the closing zero. */
  method PutEnd(dst: array<byte>, p: nat, src: seq<byte>, i: nat) returns (next: nat)
    requires i <= |src| < i + 3 && p <= |Encoded(src)| < dst.Length && Before(dst[..p], src, i)
    modifies dst
    ensures next == |Encoded(src)| && dst[..next] == Encoded(src) && dst[next] == 0
  {
    hide Before, Encoded, Group, Symbol;
    next := p;
    EncodedEnd(dst[..p], src, i);
    if i < |src| {
      next := PutRest(dst, p, src[i], if i + 1 < |src| then src[i + 1] else 0, i + 1 < |src|);
    }
    dst[next] := 0;
  }

  lemma EncodedStart(src: seq<byte>)
    ensures Before([], src, 0)
  {
    hide Encoded;
    assert src[0..] == src && [] + Encoded(src) == Encoded(src);
  }

  /** done is the encoding up to where that of src[i..] starts. */
  predicate Before(done: seq<byte>, src: seq<byte>, i: nat) {
    i <= |src| && done + Encoded(src[i..]) == Encoded(src)
  }

  lemma EncodedMore(done: seq<byte>, src: seq<byte>, i: nat)
    requires Before(done, src, i) && i + 3 <= |src|
    ensures |done| + 4 <= |Encoded(src)| && Before(done + Group(src[i], src[i + 1], src[i + 2], 3), src, i + 3)
  {
    hide Group;
    assert src[i..][3..] == src[i + 3..];
  }

  lemma EncodedEnd(done: seq<byte>, src: seq<byte>, i: nat)
    requires Before(done, src, i) && |src| < i + 3
    ensures Encoded(src)
         == done + if i == |src| then [] else Group(src[i], if i + 1 < |src| then src[i + 1] else 0, 0, |src| - i)
  {
    hide Group;
  }

  /** The four characters of a whole group. */
  method PutGroup(dst: array<byte>, p: nat, c1: byte, c2: byte, c3: byte) returns (next: nat)
    requires p + 4 <= dst.Length
    modifies dst
    ensures next == p + 4 && dst[..next] == old(dst[..p]) + Group(c1, c2, c3, 3)
  {
    hide Symbol;
    dst[p], dst[p + 1] := Symbol(c1 / 4), Symbol(c1 % 4 * 16 + c2 / 16);
    dst[p + 2], dst[p + 3] := Symbol(c2 % 16 * 4 + c3 / 64), Symbol(c3 % 64);
    next := p + 4;
  }

  /** The four characters of the last one or two bytes. */
  method PutRest(dst: array<byte>, p: nat, c1: byte, c2: byte, two: bool) returns (next: nat)
    requires p + 4 <= dst.Length
    modifies dst
    ensures next == p + 4 && dst[..next] == old(dst[..p]) + Group(c1, c2, 0, if two then 2 else 1)
  {
    hide Symbol;
    dst[p], dst[p + 1] := Symbol(c1 / 4), Symbol(c1 % 4 * 16 + c2 / 16);
    dst[p + 2] := if two then Symbol(c2 % 16 * 4) else PAD;
    dst[p + 3] := PAD;
    next := p + 4;
  }

  // ----- decoding -----

  /** The size computation for n symbols stays within size_t. */
  predicate SizeFits(n: nat, sizeMax: nat) {
    n * 6 + 7 <= sizeMax
  }

  /** Where it does not, the wrapped sum asks for a buffer that is too small. */
  lemma WrappedSize(n: nat, sizeMax: nat)
    requires sizeMax >= 7
    ensures (n * 6 + 7) % (sizeMax + 1) / 8 == (n * 6 + 7) / 8 <==> SizeFits(n, sizeMax)
  {
    var m, b := n * 6 + 7, sizeMax + 1;
    if m < b {
      DivModUnique(m, b, 0, m);
    } else {
      Euclid(m, b);
      MulLe(b, 1, m / b);
    }
  }

  /** mbedtls_base64_decode, for any width of size_t; sizeMax is its largest value. */
  method Decode(dst: array?<byte>, src: seq<byte>, sizeMax: nat) returns (rc: int, olen: nat)
    requires |src| <= sizeMax && var scan := Scan(src, 0, 0); scan.Accepted? ==> SizeFits(scan.symbols, sizeMax)
    modifies dst
    ensures match Scan(src, 0, 0)
            case Refused => rc == INVALID_CHARACTER
            case Accepted(n, pads) =>
              if n == 0 then rc == 0 && olen == 0
              else if dst == null || dst.Length < Needed(n, pads) then
                rc == BUFFER_TOO_SMALL && olen == Needed(n, pads)
              else
                rc == 0 && olen <= Needed(n, pads)
                && (n % 4 == 0 ==> olen == Needed(n, pads))
                && Pads(Values(src)) <= 3 && dst[..olen] == Unpacked(Values(src), 3)
    ensures dst != null ==> (var k := if rc == 0 && olen <= dst.Length then olen else 0; dst[k..] == old(dst[..])[k..])
  {
    ScanIff(src, 0, 0);
    olen := 0;
    var n, pads;
    rc, n, pads := FirstPass(src);
    if rc != 0 {
      return;
    }
    if n == 0 {
      return 0, 0;
    }
    PaddedBound(Values(src), 0);
    UnpackedSize(Values(src));
    var need := (n * 6 + 7) / 8;
    need := need - pads;
    if dst == null || dst.Length < need {
      return BUFFER_TOO_SMALL, need;
    }
    olen := SecondPass(dst, src);
    return 0, olen;
  }

  /** Validity, the number of symbols, and the pads among them. */
  method FirstPass(src: seq<byte>) returns (rc: int, n: nat, j: nat)
    ensures Scan(src, 0, 0) == if rc == 0 then Accepted(n, j) else Refused
    ensures rc == 0 || rc == INVALID_CHARACTER
  {
    hide ScanFrom, Lookup, LeadingSpaces, Scan;
    var i := 0;
    n, j := 0, 0;
    ScanStarts(src);
    ghost var all := ScanFrom(src, 0, 0, 0);
    while i < |src|
      invariant 0 <= i <= |src| && all == ScanFrom(src, i, n, j)
    {
      var x;
      ghost var start := i;
      i, x := SkipSpaces(src, i);
      ScanTurn(src, start, i, n, j);
      if i == |src| {
        break;
      }
      if |src| - i >= 2 && src[i] == CR && src[i + 1] == LF {
        i := i + 1;
        continue;
      }
      if src[i] == LF {
        i := i + 1;
        continue;
      }
      if x != 0 {
        return INVALID_CHARACTER, n, j;
      }
      if src[i] == PAD {
        j := j + 1;
        if j > 2 {
          return INVALID_CHARACTER, n, j;
        }
      }
      if src[i] > 127 || Lookup(src[i]) == INVALID {
        return INVALID_CHARACTER, n, j;
      }
      if Lookup(src[i]) < 64 && j != 0 {
        return INVALID_CHARACTER, n, j;
      }
      n := n + 1;
      i := i + 1;
    }
    ScanTurn(src, |src|, |src|, n, j);
    return 0, n, j;
  }

  function ScanFrom(src: seq<byte>, i: nat, n: nat, j: nat): Scanned
    requires i <= |src|
  {
    Scan(src[i..], n, j)
  }

  lemma ScanStarts(src: seq<byte>)
    ensures ScanFrom(src, 0, 0, 0) == Scan(src, 0, 0)
  {
    assert src[0..] == src;
  }

  /** Counts the spaces before the next line break or symbol. */
  method SkipSpaces(src: seq<byte>, start: nat) returns (i: nat, x: nat)
    requires start <= |src|
    ensures start <= i <= |src| && x == i - start && LeadingSpaces(src[start..]) == x
  {
    i, x := start, 0;
    while i < |src| && src[i] == SPACE
      invariant start <= i <= |src| && x == i - start
      invariant forall k :: start <= k < i ==> src[k] == SPACE
    {
      i := i + 1;
      x := x + 1;
    }
    SpacesFound(src, start, i);
  }

  /** One turn of the loop. */
  lemma ScanTurn(src: seq<byte>, start: nat, i: nat, n: nat, j: nat)
    requires start <= i <= |src| && LeadingSpaces(src[start..]) == i - start
    ensures ScanFrom(src, start, n, j)
         == if i == |src| then Accepted(n, j)
            else if (|src| - i >= 2 && src[i] == CR && src[i + 1] == LF) || src[i] == LF then ScanFrom(src, i + 1, n, j)
            else if i > start then Refused
            else
              var j' := if src[i] == PAD then j + 1 else j;
              if (j' > 2 && src[i] == PAD) || Lookup(src[i]) == INVALID || (Lookup(src[i]) < 64 && j' != 0) then Refused
              else ScanFrom(src, i + 1, n + 1, j')
  {
    var t := src[start..][i - start..];
    assert t == src[i..];
    if i < |src| {
      assert t[1..] == src[i + 1..];
    }
    hide LeadingSpaces, Lookup;
  }

  lemma {:induction false} SpacesFound(src: seq<byte>, start: nat, i: nat)
    requires start <= i <= |src| && forall k :: start <= k < i ==> src[k] == SPACE
    requires i < |src| ==> src[i] != SPACE
    ensures LeadingSpaces(src[start..]) == i - start
    decreases i - start
  {
    if start < i {
      SpacesFound(src, start + 1, i);
      assert src[start..][1..] == src[start + 1..];
    }
  }

  /** Six bits per symbol are shifted into x, and every fourth symbol yields up to three bytes. */
  method SecondPass(dst: array<byte>, src: seq<byte>) returns (p: nat)
    requires Clean(src) && Pads(Values(src)) <= 3 && |Unpacked(Values(src), 3)| <= dst.Length
    modifies dst
    ensures p <= dst.Length && dst[..p] == Unpacked(Values(src), 3)
    ensures forall k :: p <= k < dst.Length ==> dst[k] == old(dst[k])
  {
    hide Clean, Values, Pads, Unpacked, Packed, Shifted, Remaining, Lookup, Shift;
    var i: nat, j: int, n: nat, x: nat := 0, 3, 0, 0;
    p := 0;
    ghost var pending: seq<sextet>, group: nat := [], 3;
    DecodingStarts(src);
    while i < |src|
      invariant 0 <= i <= |src| && 0 <= p <= dst.Length && forall k :: p <= k < dst.Length ==> dst[k] == old(dst[k])
      invariant Shifted(pending, n, x, j, group) && n < 4 && Remaining(dst[..p], pending, group, src, i)
    {
      if src[i] == CR || src[i] == LF || src[i] == SPACE {
        BlankAt(dst[..p], pending, group, src, i);
      } else {
        SymbolAt(dst[..p], pending, group, src, i);
        var v: sextet := Lookup(src[i]);
        ShiftIn(pending, n, x, j, group, v);
        j := j - if v == PADDING then 1 else 0;
        x := Shift(x, v);
        pending := pending + [v];
        n := n + 1;
        if n == 4 {
          UnpackGroup(dst[..p], pending, x, j, group, src, i + 1);
          p := PutBytes(dst, p, x, j);
          n := 0;
          pending, group := [], j;
        }
      }
      i := i + 1;
    }
    ShiftedSize(pending, n, x, j, group);
    NothingLeft(dst[..p], pending, group, src);
  }

  /** x << 6 | v & 0x3F in 32 bits. */
  function Shift(x: nat, v: sextet): (r: nat) {
    (x * 64 + v as int % 64) % 0x1_0000_0000
  }

  /** done, then what the pending values and those of src[i..] yield. */
  predicate Remaining(done: seq<byte>, pending: seq<sextet>, group: nat, src: seq<byte>, i: nat) {
    i <= |src| && Pads(Values(src)) <= 3
    && Pads(pending + ValuesFrom(src, i)) <= group <= 3
    && Unpacked(Values(src), 3) == done + Unpacked(pending + ValuesFrom(src, i), group)
  }

  lemma DecodingStarts(src: seq<byte>)
    requires Pads(Values(src)) <= 3
    ensures Remaining([], [], 3, src, 0) && Shifted([], 0, 0, 3, 3)
  {
    assert src[0..] == src && [] + Values(src) == Values(src);
  }

  function ValuesFrom(src: seq<byte>, i: nat): seq<sextet>
    requires i <= |src|
  {
    Values(src[i..])
  }

  /** Up to three bytes of x, the highest first. */
  method PutBytes(dst: array<byte>, p: nat, x: nat, j: nat) returns (next: nat)
    requires j <= 3 && p + j <= dst.Length
    modifies dst
    ensures next == p + j && forall k :: next <= k < dst.Length ==> dst[k] == old(dst[k])
    ensures dst[..next] == old(dst[..p]) + [x / 65536 % 256, x / 256 % 256, x % 256][..j]
  {
    next := p;
    if j > 0 {
      dst[next] := x / 65536 % 256;
      next := next + 1;
    }
    if j > 1 {
      dst[next] := x / 256 % 256;
      next := next + 1;
    }
    if j > 2 {
      dst[next] := x % 256;
      next := next + 1;
    }
  }

  /** x ends with the n pending values, and j is what the group may still yield. */
  predicate Shifted(pending: seq<sextet>, n: nat, x: nat, j: int, group: nat) {
    |pending| == n <= 4 && x % SextetWeight(n) == Packed(pending)
    && j == group - Pads(pending) && 0 <= j && group <= 3 && x < 0x1_0000_0000
  }

  function SextetWeight(n: nat): (w: nat)
    ensures w > 0
  {
    if n == 0 then 1 else if n == 1 then 64 else if n == 2 then 4096 else if n == 3 then 262144 else 16777216
  }

  /** One more value. */
  lemma ShiftIn(pending: seq<sextet>, n: nat, x: nat, j: int, group: nat, v: sextet)
    requires Shifted(pending, n, x, j, group) && n < 4 && Pads(pending + [v]) <= group
    ensures Shifted(pending + [v], n + 1, Shift(x, v), j - if v == PADDING then 1 else 0, group)
  {
    PadsAppend(pending, [v]);
    assert Pads([v]) == if v == PADDING then 1 else 0;
    assert (pending + [v])[..n] == pending;
    ShiftMod(x, v % 64, n);
  }

  lemma ShiftMod(x: nat, v: nat, n: nat)
    requires n < 4 && v < 64
    ensures (x * 64 + v) % 0x1_0000_0000 % SextetWeight(n + 1) == x % SextetWeight(n) * 64 + v
  {
    var y, w := x * 64 + v, SextetWeight(n);
    var q, r := x / w, x % w;
    assert x == q * w + r;
    assert y == q * SextetWeight(n + 1) + (r * 64 + v);
    DivModUnique(y, SextetWeight(n + 1), q, r * 64 + v);
    ModMod(y, n + 1);
  }

  /** Reducing to 32 bits keeps the last n values. */
  lemma ModMod(y: nat, n: nat)
    requires n <= 4
    ensures y % 0x1_0000_0000 % SextetWeight(n) == y % SextetWeight(n)
  {
    var m, w := 0x1_0000_0000, SextetWeight(n);
    var k := if n == 0 then m else if n == 1 then 0x400_0000 else if n == 2 then 0x10_0000 else if n == 3 then 0x4000 else 0x100;
    var q, r, s := y / m, y % m, y % w;
    var p := y / w;
    assert m == k * w;
    assert y == q * m + r && y == p * w + s;
    assert r == (p - q * k) * w + s by {
      MulAssoc(q, k, w);
    }
    DivModUnique(r, w, p - q * k, s);
  }

  /** A complete group. */
  lemma UnpackGroup(done: seq<byte>, t: seq<sextet>, x: nat, j: int, group: nat, src: seq<byte>, i: nat)
    requires Shifted(t, 4, x, j, group) && Remaining(done, t, group, src, i)
    ensures 0 <= j <= 3 && |done| + j <= |Unpacked(Values(src), 3)|
    ensures Remaining(done + [x / 65536 % 256, x / 256 % 256, x % 256][..j], [], j, src, i)
    ensures Shifted([], 0, x, j, j)
  {
    hide Values, Pads, Packed, Three, Unpacked, ValuesFrom;
    NothingShifted(x, j);
    var rest := ValuesFrom(src, i);
    GroupAhead(t, rest, group);
    ThreeOf(t, x);
    assert [] + rest == rest;
  }

  lemma ShiftedSize(pending: seq<sextet>, n: nat, x: nat, j: int, group: nat)
    requires Shifted(pending, n, x, j, group)
    ensures |pending| == n
  {
  }

  lemma NothingShifted(x: nat, j: nat)
    requires j <= 3 && x < 0x1_0000_0000
    ensures Shifted([], 0, x, j, j)
  {
  }

  lemma ThreeOf(t: seq<sextet>, x: nat)
    requires |t| == 4 && x % 16777216 == Packed(t)
    ensures Three(t) == [x / 65536 % 256, x / 256 % 256, x % 256]
  {
    LowBytes(x, Packed(t));
    hide Packed;
  }

  lemma LowBytes(x: nat, y: nat)
    requires x % 16777216 == y
    ensures x / 65536 % 256 == y / 65536 % 256 && x / 256 % 256 == y / 256 % 256 && x % 256 == y % 256
  {
    var q := x / 16777216;
    assert x == q * 16777216 + y;
    SameByte(x, y, q, 65536, 1);
    SameByte(x, y, q, 256, 256);
    SameByte(x, y, q, 1, 65536);
    assert x / 1 == x && y / 1 == y;
  }

  lemma SameByte(x: nat, y: nat, q: nat, w: nat, k: nat)
    requires w > 0 && x == q * 16777216 + y && 256 * k * w == 16777216
    ensures x / w % 256 == y / w % 256
  {
    var h, l := y / w, y % w;
    assert y == h * w + l;
    assert x == (q * k * 256 + h) * w + l by {
      MulAssoc(q * k, 256, w);
      MulAssoc(q, k, 256 * w);
      MulDist(w, q * k * 256, h);
      assert q * 16777216 == q * (k * (256 * w));
    }
    DivModUnique(x, w, q * k * 256 + h, l);
    CongBy(q * k * 256 + h, h, 256, q * k);
    CongIffMod(q * k * 256 + h, h, 256);
  }

  lemma BlankAt(done: seq<byte>, pending: seq<sextet>, group: nat, src: seq<byte>, i: nat)
    requires Remaining(done, pending, group, src, i) && i < |src| && Blank(src[i])
    ensures Remaining(done, pending, group, src, i + 1)
  {
    assert src[i..][1..] == src[i + 1..];
    assert ValuesFrom(src, i) == ValuesFrom(src, i + 1);
  }

  lemma SymbolAt(done: seq<byte>, pending: seq<sextet>, group: nat, src: seq<byte>, i: nat)
    requires Remaining(done, pending, group, src, i) && Clean(src) && i < |src| && !Blank(src[i])
    ensures Lookup(src[i]) <= PADDING && Pads(pending + [Lookup(src[i])]) <= group
    ensures Remaining(done, pending + [Lookup(src[i])], group, src, i + 1)
  {
    assert Fits(src, i);
    var v, rest := Lookup(src[i]), ValuesFrom(src, i + 1);
    assert src[i..][1..] == src[i + 1..];
    assert ValuesFrom(src, i) == [v] + rest;
    hide Values, ValuesFrom, Pads, Unpacked, Lookup;
    assert pending + ([v] + rest) == (pending + [v]) + rest;
    PadsAppend(pending + [v], rest);
  }

  lemma NothingLeft(done: seq<byte>, pending: seq<sextet>, group: nat, src: seq<byte>)
    requires Remaining(done, pending, group, src, |src|) && |pending| < 4
    ensures Unpacked(Values(src), 3) == done
  {
    assert ValuesFrom(src, |src|) == [];
  }
}
