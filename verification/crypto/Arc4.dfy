/** arc4.c: the key schedule and the stream, on a table that stays a permutation of 0..255. */
module Arc4 {
  import opened Bits
  import opened AesSbox
  import opened Arith
  import opened Octets

  // ----- tables -----

  /** 256 different bytes: a permutation. */
  predicate Permutation(m: seq<byte>) {
    |m| == 256 && forall i, j :: 0 <= i < j < 256 ==> m[i] != m[j]
  }

  function Swapped(m: seq<byte>, x: byte, y: byte): (r: seq<byte>)
    requires |m| == 256
    ensures |r| == 256
  {
    m[x := m[y]][y := m[x]]
  }

  lemma SwapKeepsPermutation(m: seq<byte>, x: byte, y: byte)
    requires Permutation(m)
    ensures Permutation(Swapped(m, x, y)) && multiset(Swapped(m, x, y)) == multiset(m)
  {
  }

  /** Different bytes in 256 places are all bytes. */
  lemma PermutationOnto(m: seq<byte>, v: byte)
    requires Permutation(m)
    ensures v in m
  {
    var a, b := Entries(m, 256), Upto(256);
    assert a <= b;
    SubsetFull<int>(a, b);
    assert v in b;
  }

  /** The first n entries. */
  ghost function Entries(m: seq<byte>, n: nat): (r: set<int>)
    requires Permutation(m) && n <= 256
    ensures |r| == n && forall v: int :: v in r <==> exists i :: 0 <= i < n && m[i] == v
  {
    if n == 0 then {} else Entries(m, n - 1) + {m[n - 1] as int}
  }

  ghost function Upto(n: nat): (r: set<int>)
    ensures |r| == n && forall v: int :: v in r <==> 0 <= v < n
  {
    if n == 0 then {} else Upto(n - 1) + {n - 1}
  }

  // ----- key schedule -----

  function Numbered(): (r: seq<byte>)
    ensures Permutation(r)
  {
    seq(256, k requires 0 <= k < 256 => k)
  }

  /** Table and j after i steps of the key schedule. */
  function Scheduled(key: seq<byte>, i: nat): (r: (seq<byte>, byte))
    requires |key| > 0 && i <= 256
    ensures Permutation(r.0)
  {
    if i == 0 then (Numbered(), 0)
    else
      var (m, j) := Scheduled(key, i - 1);
      var j' := (j as int + m[i - 1] as int + key[(i - 1) % |key|] as int) % 256;
      SwapKeepsPermutation(m, i - 1, j');
      (Swapped(m, i - 1, j'), j')
  }

  // ----- the stream -----

  datatype State = State(m: seq<byte>, x: byte, y: byte) {
    predicate Valid() {
      Permutation(m)
    }
  }

  /** One step: the next state and the next byte of the stream. */
  function Step(s: State): (r: (State, byte))
    requires s.Valid()
    ensures r.0.Valid()
  {
    var x := (s.x as int + 1) % 256;
    var y := (s.y as int + s.m[x] as int) % 256;
    SwapKeepsPermutation(s.m, x, y);
    var m := Swapped(s.m, x, y);
    (State(m, x, y), m[(s.m[x] as int + s.m[y] as int) % 256])
  }

  datatype Output = Output(state: State, text: seq<bv8>)

  function Crypt(s: State, text: seq<bv8>): (r: Output)
    requires s.Valid()
    ensures r.state.Valid() && |r.text| == |text|
    decreases |text|
  {
    if text == [] then Output(s, [])
    else
      var (s', k) := Step(s);
      var rest := Crypt(s', text[1..]);
      Output(rest.state, [Xor(text[0], Byte(k))] + rest.text)
  }

  /** A message processed in two calls gives what one call gives. */
  lemma {:induction false} CryptSplit(s: State, a: seq<bv8>, b: seq<bv8>)
    requires s.Valid()
    ensures var first := Crypt(s, a);
            var second := Crypt(first.state, b);
            Crypt(s, a + b) == Output(second.state, first.text + second.text)
    decreases |a|
  {
    hide Step, Xor, Byte;
    if a == [] {
      assert a + b == b;
    } else {
      assert (a + b)[1..] == a[1..] + b;
      CryptSplit(Step(s).0, a[1..], b);
    }
  }

  /** From the same state the stream undoes itself. */
  lemma {:induction false} CryptTwice(s: State, text: seq<bv8>)
    requires s.Valid()
    ensures Crypt(s, Crypt(s, text).text) == Output(Crypt(s, text).state, text)
    decreases |text|
  {
    hide Step, Xor, Byte;
    if text != [] {
      XorBack(text[0], Byte(Step(s).1));
      CryptTwice(Step(s).0, text[1..]);
    }
  }

  // ----- the context -----

  class Context {
    var x: int
    var y: int
    const m: array<byte>

    constructor ()
      ensures m.Length == 256 && fresh(m)
    {
      x, y := 0, 0;
      m := new byte[256];
    }

    ghost predicate Valid()
      reads this, m
    {
      0 <= x < 256 && 0 <= y < 256 && m.Length == 256 && Permutation(m[..])
    }

    ghost function Abstract(): (s: State)
      requires Valid()
      reads this, m
      ensures s.Valid()
    {
      State(m[..], x, y)
    }

    /** The table is neither buffer. */
    ghost predicate Apart(input: array<bv8>, output: array<bv8>) {
      (m as object) !in {input as object, output as object}
    }

    /** m[i], m[j] = m[j], m[i]. */
    method Swap(i: byte, j: byte)
      requires m.Length == 256
      modifies m
      ensures m[..] == Swapped(old(m[..]), i, j)
    {
      var a := m[i];
      m[i] := m[j];
      m[j] := a;
    }

    method Number()
      requires m.Length == 256
      modifies m
      ensures m[..] == Numbered()
    {
      var i := 0;
      while i < 256
        invariant 0 <= i <= 256 && forall k :: 0 <= k < i ==> m[k] == k
      {
        m[i] := i;
        i := i + 1;
      }
    }

    /** mbedtls_arc4_setup. */
    method Setup(key: seq<byte>)
      requires m.Length == 256 && |key| > 0
      modifies this, m
      ensures Valid() && Abstract() == State(Scheduled(key, 256).0, 0, 0)
    {
      x, y := 0, 0;
      Number();
      hide Numbered, Permutation, Swapped;
      var i, j: byte, k := 0, 0, 0;
      while i < 256
        invariant 0 <= i <= 256 && (m[..], j) == Scheduled(key, i)
        invariant 0 <= k <= |key| && (k == i % |key| || (k == |key| && i % |key| == 0))
        modifies m
      {
        if k >= |key| {
          k := 0;
        }
        NextIndex(i, |key|);
        var a := m[i];
        assert a == m[..][i];
        j := (j as int + a as int + key[k] as int) % 256;
        Swap(i, j);
        i := i + 1;
        k := k + 1;
      }
    }

    /** mbedtls_arc4_crypt. Output may be the input. */
    method CryptInPlace(length: nat, input: array<bv8>, output: array<bv8>)
      requires Valid() && Apart(input, output) && length <= input.Length && length <= output.Length
      modifies this, m, output
      ensures Valid() && output[length..] == old(output[length..])
      ensures Crypt(old(Abstract()), old(input[..length])) == Output(Abstract(), output[..length])
    {
      ghost var text, s := input[..length], Abstract();
      CryptEmpty(s);
      hide Step, Xor, Byte, Crypt, Permutation, Valid, Abstract;
      var i := 0;
      while i < length
        invariant 0 <= i <= length && Valid()
        invariant forall n :: i <= n < length ==> input[n] == text[n]
        invariant forall n :: length <= n < output.Length ==> output[n] == old(output[n])
        invariant Crypt(s, text[..i]) == Output(Abstract(), output[..i])
      {
        CryptNext(s, text, i);
        ghost var done := output[..i];
        CryptOctet(input, output, i);
        i := i + 1;
        assert output[..i] == done + [output[i - 1]];
      }
      assert text[..length] == text;
    }

    /** The body of the loop above. */
    method CryptOctet(input: array<bv8>, output: array<bv8>, i: nat)
      requires Valid() && Apart(input, output) && i < input.Length && i < output.Length
      modifies this, m, output
      ensures Valid() && Abstract() == Step(old(Abstract())).0
      ensures output[i] == Xor(old(input[i]), Byte(Step(old(Abstract())).1))
      ensures forall n :: 0 <= n < output.Length && n != i ==> output[n] == old(output[n])
    {
      hide Step, Xor, Byte, Permutation;
      var k := Advance();
      output[i] := Xor(input[i], Byte(k));
    }

    /** The state moves, and yields a byte of the stream. */
    method Advance() returns (k: byte)
      requires Valid()
      modifies this, m
      ensures Valid() && (Abstract(), k) == Step(old(Abstract()))
    {
      SwapKeepsPermutation(m[..], (x + 1) % 256, (y + m[(x + 1) % 256] as int) % 256);
      x := (x + 1) % 256;
      var a := m[x];
      y := (y + a as int) % 256;
      var b := m[y];
      Swap(x, y);
      k := m[(a as int + b as int) % 256];
    }
  }

  lemma NextIndex(i: nat, n: nat)
    requires n > 0
    ensures (i + 1) % n == if i % n + 1 == n then 0 else i % n + 1
  {
    var q, r := i / n, i % n;
    assert i == q * n + r;
    if r + 1 == n {
      assert i + 1 == (q + 1) * n by {
        assert (q + 1) * n == q * n + n;
      }
      DivModUnique(i + 1, n, q + 1, 0);
    } else {
      DivModUnique(i + 1, n, q, r + 1);
    }
  }

  lemma CryptNext(s: State, text: seq<bv8>, i: nat)
    requires s.Valid() && i < |text|
    ensures var done := Crypt(s, text[..i]);
            var (s', k) := Step(done.state);
            Crypt(s, text[..i + 1]) == Output(s', done.text + [Xor(text[i], Byte(k))])
  {
    hide Crypt, Step, Xor, Byte, Permutation;
    var a, b := text[..i], [text[i]];
    CryptSplit(s, a, b);
    CryptOne(Crypt(s, a).state, text[i]);
    OneMore(text, i);
  }

  lemma CryptOne(s: State, c: bv8)
    requires s.Valid()
    ensures Crypt(s, [c]) == Output(Step(s).0, [Xor(c, Byte(Step(s).1))])
  {
    hide Step, Xor, Byte;
    assert Crypt(Step(s).0, [c][1..]) == Output(Step(s).0, []);
  }

  lemma CryptEmpty(s: State)
    requires s.Valid()
    ensures Crypt(s, []) == Output(s, [])
  {
  }
}
