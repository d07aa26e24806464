/** DER values as byte sequences (ITU-T X.690): what the writers produce, what the parsers read, and their laws. */
module DerWire {
  import opened Arith
  import opened Octets

  const BOOLEAN: byte := 0x01
  const INTEGER: byte := 0x02
  const BIT_STRING: byte := 0x03
  const NULL_VALUE: byte := 0x05
  const OBJECT_ID: byte := 0x06
  const SEQUENCE: byte := 0x30

  const OUT_OF_DATA: int := -0x60
  const UNEXPECTED_TAG: int := -0x62
  const INVALID_LENGTH: int := -0x64
  const LENGTH_MISMATCH: int := -0x66
  const INVALID_DATA: int := -0x68
  const ALLOC_FAILED: int := -0x6A
  const BUF_TOO_SMALL: int := -0x6C

  // ----- what is written -----

  /** Section 8.1.3; lengths from 65536 on lose their high part. */
  function LengthBytes(n: nat): (s: seq<byte>)
    ensures 1 <= |s| <= 3
  {
    if n < 0x80 then [n] else if n <= 0xFF then [0x81, n] else [0x82, n / 256 % 256, n % 256]
  }

  /** Tag, length, and contents. */
  function Tlv(tag: byte, body: seq<byte>): (s: seq<byte>)
    ensures |s| == 1 + |LengthBytes(|body|)| + |body|
  {
    [tag] + LengthBytes(|body|) + body
  }

  function BoolBytes(boolean: int): seq<byte> {
    Tlv(BOOLEAN, [if boolean != 0 then 255 else 0])
  }

  /** One byte of the value, and a zero in front where that would look negative. */
  function IntBytes(val: int): seq<byte> {
    Tlv(INTEGER, if val > 0 && val % 256 >= 128 then [0, val % 256] else [val % 256])
  }

  /** The magnitude in size bytes, perhaps behind a zero. */
  function MpiBytes(v: nat, size: nat, padded: bool): seq<byte> {
    Tlv(INTEGER, (if padded then [0] else []) + Digits(v, size))
  }

  /** How many bytes the bits take. */
  function BitSize(bits: nat): nat {
    bits / 8 + if bits % 8 != 0 then 1 else 0
  }

  function BitBytes(data: seq<byte>, bits: nat): seq<byte>
    requires BitSize(bits) <= |data|
  {
    Tlv(BIT_STRING, [BitSize(bits) * 8 - bits] + data[..BitSize(bits)])
  }

  function AlgBytes(oid: seq<byte>, params: seq<byte>): seq<byte> {
    Tlv(SEQUENCE, Tlv(OBJECT_ID, oid) + params)
  }

  /** The items of a SEQUENCE OF, one behind the other. */
  function ItemBytes(items: seq<seq<byte>>, tag: byte): seq<byte> {
    if items == [] then [] else Tlv(tag, items[0]) + ItemBytes(items[1..], tag)
  }

  // ----- what is read -----

  /** A result, or an error code; used is how far the read position moved. Undefined: a read behind the buffer. */
  datatype Scan<T> = Done(value: T, used: nat) | Failed(code: int, used: nat) | Undefined

  /** The end of mbedtls_asn1_get_len: the contents must be there. */
  function Sized(n: nat, used: nat, have: nat): (r: Scan<nat>)
    requires used <= have
    ensures r.Done? ==> r.used + r.value <= have
    ensures !r.Undefined? && (r.Failed? ==> r.code < 0)
  {
    if n > have - used then Failed(OUT_OF_DATA, used) else Done(n, used)
  }

  /** mbedtls_asn1_get_len, on the bytes up to the end. */
  function ReadLen(s: seq<byte>): (r: Scan<nat>)
    ensures r.Done? ==> r.used + r.value <= |s|
    ensures !r.Undefined? && (r.Failed? ==> r.code < 0)
  {
    if |s| < 1 then Failed(OUT_OF_DATA, 0)
    else if s[0] < 0x80 then Sized(s[0], 1, |s|)
    else
      var k := s[0] - 0x80;
      if k < 1 || k > 4 then Failed(INVALID_LENGTH, 0)
      else if |s| < k + 1 then Failed(OUT_OF_DATA, 0)
      else Sized(Number(s[1..k + 1]), k + 1, |s|)
  }

  /** mbedtls_asn1_get_tag. */
  function ReadTag(s: seq<byte>, tag: byte): (r: Scan<nat>)
    ensures r.Done? ==> r.used + r.value <= |s|
    ensures !r.Undefined? && (r.Failed? ==> r.code < 0)
  {
    if |s| < 1 then Failed(OUT_OF_DATA, 0)
    else if s[0] != tag then Failed(UNEXPECTED_TAG, 0)
    else match ReadLen(s[1..])
      case Done(n, u) => Done(n, u + 1)
      case Failed(c, u) => Failed(c, u + 1)
      case Undefined => Undefined
  }

  /** mbedtls_asn1_get_bool. */
  function ReadBool(s: seq<byte>): Scan<int> {
    match ReadTag(s, BOOLEAN)
    case Done(n, u) => if n != 1 then Failed(INVALID_LENGTH, u) else Done(if s[u] != 0 then 1 else 0, u + 1)
    case Failed(c, u) => Failed(c, u)
    case Undefined => Undefined
  }

  /** mbedtls_asn1_get_int. It looks at the byte behind the length even when the contents are empty; behind are the
      bytes of the buffer from the end on. */
  function ReadInt(s: seq<byte>, behind: seq<byte>): Scan<int> {
    match ReadTag(s, INTEGER)
    case Done(n, u) =>
      if n > 4 then Failed(INVALID_LENGTH, u)
      else if u == |s + behind| then Undefined
      else if (s + behind)[u] >= 0x80 then Failed(INVALID_LENGTH, u)
      else Done(Number(s[u..u + n]), u + n)
    case Failed(c, u) => Failed(c, u)
    case Undefined => Undefined
  }

  /** mbedtls_asn1_get_mpi: the number that is stored. */
  function ReadMpi(s: seq<byte>): Scan<nat> {
    match ReadTag(s, INTEGER)
    case Done(n, u) => Done(Number(s[u..u + n]), u + n)
    case Failed(c, u) => Failed(c, u)
    case Undefined => Undefined
  }

  datatype BitString = BitString(unused: byte, data: seq<byte>)

  /** mbedtls_asn1_get_bitstring. */
  function ReadBitString(s: seq<byte>): Scan<BitString> {
    match ReadTag(s, BIT_STRING)
    case Done(n, u) =>
      if n < 1 then Failed(OUT_OF_DATA, u)
      else if s[u] > 7 then Failed(INVALID_LENGTH, u)
      else if u + n != |s| then Failed(LENGTH_MISMATCH, u + n)
      else Done(BitString(s[u], s[u + 1..u + n]), u + n)
    case Failed(c, u) => Failed(c, u)
    case Undefined => Undefined
  }

  datatype Algorithm = Algorithm(oid: seq<byte>, tag: byte, params: seq<byte>)

  /** mbedtls_asn1_get_alg; parameters that are absent are zeroed. */
  function ReadAlg(s: seq<byte>): (r: Scan<Algorithm>)
    ensures !r.Undefined? && (r.Failed? ==> r.code < 0)
  {
    match ReadTag(s, SEQUENCE)
    case Done(n, u) => if |s| - u < 1 then Failed(OUT_OF_DATA, u) else Moved(ReadAlgBody(s[u..u + n]), u)
    case Failed(c, u) => Failed(c, u)
    case Undefined => Undefined
  }

  function Moved<T>(r: Scan<T>, u: nat): Scan<T> {
    match r
    case Done(x, v) => Done(x, u + v)
    case Failed(c, v) => Failed(c, u + v)
    case Undefined => Undefined
  }

  function ReadAlgBody(t: seq<byte>): (r: Scan<Algorithm>)
    ensures !r.Undefined? && (r.Failed? ==> r.code < 0)
  {
    match ReadTag(t, OBJECT_ID)
    case Done(n, u) => if u + n == |t| then Done(Algorithm(t[u..], 0, []), |t|) else ReadParams(t, t[u..u + n], u + n)
    case Failed(c, u) => Failed(c, u)
    case Undefined => Undefined
  }

  function ReadParams(t: seq<byte>, oid: seq<byte>, pos: nat): (r: Scan<Algorithm>)
    requires pos < |t|
    ensures !r.Undefined? && (r.Failed? ==> r.code < 0)
  {
    match ReadLen(t[pos + 1..])
    case Done(n, u) =>
      var from := pos + 1 + u;
      if from + n != |t| then Failed(LENGTH_MISMATCH, from + n)
      else Done(Algorithm(oid, t[pos], t[from..]), |t|)
    case Failed(c, u) => Failed(c, pos + 1 + u)
    case Undefined => Undefined
  }

  /** mbedtls_asn1_get_alg_null. */
  function ReadAlgNull(s: seq<byte>): Scan<seq<byte>> {
    match ReadAlg(s)
    case Done(a, u) =>
      if (a.tag != NULL_VALUE && a.tag != 0) || a.params != [] then Failed(INVALID_DATA, u) else Done(a.oid, u)
    case Failed(c, u) => Failed(c, u)
    case Undefined => Undefined
  }

  /** An item of a list: the contents behind the tag. */
  function ReadItem(s: seq<byte>, tag: byte): (r: Scan<seq<byte>>)
    ensures r.Done? ==> 0 < r.used <= |s|
    ensures !r.Undefined? && (r.Failed? ==> r.code < 0)
  {
    match ReadTag(s, tag)
    case Done(n, u) => Done(s[u..u + n], u + n)
    case Failed(c, u) => Failed(c, u)
    case Undefined => Undefined
  }

  /** The loop of mbedtls_asn1_get_sequence_of, with memory enough. */
  function ReadItems(s: seq<byte>, tag: byte): (r: Scan<seq<seq<byte>>>)
    decreases |s|
  {
    if s == [] then Done([], 0)
    else match ReadItem(s, tag)
      case Done(x, u) => (
        match ReadItems(s[u..], tag)
        case Done(items, v) => Done([x] + items, u + v)
        case Failed(c, v) => Failed(c, u + v)
        case Undefined => Undefined
      )
      case Failed(c, u) => Failed(c, u)
      case Undefined => Undefined
  }

  /** mbedtls_asn1_get_sequence_of. */
  function ReadSequenceOf(s: seq<byte>, tag: byte): Scan<seq<seq<byte>>> {
    match ReadTag(s, SEQUENCE)
    case Done(n, u) => if u + n != |s| then Failed(LENGTH_MISMATCH, u) else Moved(ReadItems(s[u..], tag), u)
    case Failed(c, u) => Failed(c, u)
    case Undefined => Undefined
  }

  // ----- lengths and tags come back -----

  /** A written length is read back, up to 65535. */
  lemma LengthRoundTrip(n: nat, rest: seq<byte>)
    requires n <= |rest|
    ensures ReadLen(LengthBytes(n) + rest) == Done(if n <= 65535 then n else n % 65536, |LengthBytes(n)|)
  {
    var s := LengthBytes(n) + rest;
    if n >= 0x80 {
      var k := |LengthBytes(n)|;
      assert s[1..k] == LengthBytes(n)[1..];
      if n <= 0xFF {
        assert s[1..2] == [n] && [n][..0] == [];
        assert Number(s[1..2]) == n;
      } else {
        assert s[1..3] == [n / 256 % 256, n % 256];
        NumberOfTwo(n / 256 % 256, n % 256);
        HighPart(n);
        assert Number(s[1..3]) == n % 65536;
      }
    }
  }

  lemma NumberOfTwo(a: byte, b: byte)
    ensures Number([a, b]) == 256 * a + b
  {
    assert [a, b][..1] == [a] && [a][..0] == [];
    assert Number([a]) == a;
  }

  lemma HighPart(n: nat)
    ensures n / 256 % 256 * 256 + n % 256 == n % 65536 <= n && (n <= 65535 ==> n % 65536 == n)
  {
    var q := n / 256;
    assert n == q / 256 * 65536 + (q % 256 * 256 + n % 256);
    DivModUnique(n, 65536, q / 256, q % 256 * 256 + n % 256);
    if n <= 65535 {
      DivModUnique(n, 65536, 0, n);
    }
  }

  /** A written value is found by its tag, with its contents behind what was read. */
  lemma TagRoundTrip(tag: byte, body: seq<byte>, rest: seq<byte>)
    requires |body| <= 65535
    ensures var s, u := Tlv(tag, body) + rest, |Tlv(tag, body)| - |body|;
            ReadTag(s, tag) == Done(|body|, u) && s[u..u + |body|] == body && s[u + |body|..] == rest
  {
    var s := Tlv(tag, body) + rest;
    assert s[1..] == LengthBytes(|body|) + (body + rest);
    LengthRoundTrip(|body|, body + rest);
  }

  /** From 65536 bytes on it is not: the length that is read differs from the one that was written. */
  lemma TagRoundTripFails(tag: byte, body: seq<byte>, rest: seq<byte>)
    requires |body| > 65535
    ensures ReadTag(Tlv(tag, body) + rest, tag) == Done(|body| % 65536, 4)
  {
    var s := Tlv(tag, body) + rest;
    assert s[1..] == LengthBytes(|body|) + (body + rest);
    LengthRoundTrip(|body|, body + rest);
  }

  // ----- values come back -----

  lemma BoolRoundTrip(boolean: int, rest: seq<byte>)
    ensures ReadBool(BoolBytes(boolean) + rest) == Done(if boolean != 0 then 1 else 0, |BoolBytes(boolean)|)
  {
    hide Tlv, ReadTag;
    TagRoundTrip(BOOLEAN, [if boolean != 0 then 255 else 0], rest);
  }

  /** An int is read back exactly if it is one of 0 to 255. */
  lemma IntRoundTrip(val: int, rest: seq<byte>, behind: seq<byte>)
    ensures ReadInt(IntBytes(val) + rest, behind) == Done(val, |IntBytes(val)|) <==> 0 <= val <= 255
  {
    var b := val % 256;
    var body: seq<byte> := if val > 0 && b >= 128 then [0, b] else [b];
    TagRoundTrip(INTEGER, body, rest);
    var s := Tlv(INTEGER, body) + rest;
    var u := |Tlv(INTEGER, body)| - |body|;
    NumberOfTwo(0, b);
    assert [b][..0] == [];
    assert Number(body) == b;
    assert (s + behind)[u] == s[u] == s[u..u + |body|][0];
    hide Tlv, ReadTag, Number;
  }

  /** The number that is read is the magnitude that was written. */
  lemma MpiRoundTrip(v: nat, size: nat, padded: bool, rest: seq<byte>)
    requires v < ByteWeight(size) && size < 65535
    ensures ReadMpi(MpiBytes(v, size, padded) + rest) == Done(v, |MpiBytes(v, size, padded)|)
  {
    hide Tlv, ReadTag, Number, Digits;
    var body := (if padded then [0] else []) + Digits(v, size);
    TagRoundTrip(INTEGER, body, rest);
    NumberOfDigits(v, size);
    if padded {
      NumberPadded(body, 1);
      assert body[1..] == Digits(v, size);
    } else {
      assert body == Digits(v, size);
    }
  }

  lemma BitsRoundTrip(data: seq<byte>, bits: nat)
    requires BitSize(bits) <= |data| && BitSize(bits) < 65535
    ensures ReadBitString(BitBytes(data, bits))
         == Done(BitString(BitSize(bits) * 8 - bits, data[..BitSize(bits)]), |BitBytes(data, bits)|)
  {
    hide Tlv, ReadTag;
    var size := BitSize(bits);
    var body: seq<byte> := [size * 8 - bits] + data[..size];
    TagRoundTrip(BIT_STRING, body, []);
    var s := BitBytes(data, bits);
    assert s + [] == s;
    var u := |s| - |body|;
    BodyParts(s, u, size * 8 - bits, data[..size]);
  }

  lemma BodyParts(s: seq<byte>, u: nat, b: byte, rest: seq<byte>)
    requires u + 1 + |rest| <= |s| && s[u..u + 1 + |rest|] == [b] + rest
    ensures s[u] == b && s[u + 1..u + 1 + |rest|] == rest
  {
    assert s[u] == s[u..u + 1 + |rest|][0];
    assert s[u + 1..u + 1 + |rest|] == s[u..u + 1 + |rest|][1..];
  }

  /** The object identifier and the parameters of an algorithm. */
  lemma AlgRoundTrip(oid: seq<byte>, tag: byte, params: seq<byte>, rest: seq<byte>)
    requires |Tlv(OBJECT_ID, oid) + Tlv(tag, params)| <= 65535
    ensures var s := AlgBytes(oid, Tlv(tag, params));
            ReadAlg(s + rest) == Done(Algorithm(oid, tag, params), |s|)
  {
    hide Tlv, ReadTag, ReadAlgBody;
    var t := Tlv(OBJECT_ID, oid) + Tlv(tag, params);
    TagRoundTrip(SEQUENCE, t, rest);
    AlgBodyRoundTrip(oid, tag, params);
  }

  lemma AlgBodyRoundTrip(oid: seq<byte>, tag: byte, params: seq<byte>)
    requires |oid| <= 65535 && |params| <= 65535
    ensures var t := Tlv(OBJECT_ID, oid) + Tlv(tag, params);
            ReadAlgBody(t) == Done(Algorithm(oid, tag, params), |t|)
  {
    var t := Tlv(OBJECT_ID, oid) + Tlv(tag, params);
    TagRoundTrip(OBJECT_ID, oid, Tlv(tag, params));
    var pos := |Tlv(OBJECT_ID, oid)|;
    ParamsRoundTrip(t, oid, pos, tag, params);
    hide Tlv, ReadTag, ReadParams;
  }

  lemma ParamsRoundTrip(t: seq<byte>, oid: seq<byte>, pos: nat, tag: byte, params: seq<byte>)
    requires pos <= |t| && t[pos..] == Tlv(tag, params) && |params| <= 65535
    ensures pos < |t| && ReadParams(t, oid, pos) == Done(Algorithm(oid, tag, params), |t|)
  {
    LengthRoundTrip(|params|, params);
    var u := LengthBytes(|params|);
    assert t[pos..][1..] == t[pos + 1..] == u + params;
    assert t[pos + 1 + |u|..] == t[pos + 1..][|u|..];
    hide ReadLen, LengthBytes;
  }

  /** With no parameters a NULL is written, which mbedtls_asn1_get_alg_null accepts. */
  lemma AlgNullRoundTrip(oid: seq<byte>, rest: seq<byte>)
    requires |Tlv(OBJECT_ID, oid) + Tlv(NULL_VALUE, [])| <= 65535
    ensures var s := AlgBytes(oid, Tlv(NULL_VALUE, []));
            ReadAlgNull(s + rest) == Done(oid, |s|)
  {
    hide ReadAlg, AlgBytes, Tlv;
    AlgRoundTrip(oid, NULL_VALUE, [], rest);
  }

  /** Any number of items. */
  lemma {:induction false} ItemsRoundTrip(items: seq<seq<byte>>, tag: byte)
    requires forall i :: 0 <= i < |items| ==> |items[i]| <= 65535
    ensures ReadItems(ItemBytes(items, tag), tag) == Done(items, |ItemBytes(items, tag)|)
  {
    if items != [] {
      var rest := ItemBytes(items[1..], tag);
      TagRoundTrip(tag, items[0], rest);
      ItemsRoundTrip(items[1..], tag);
      hide Tlv, ReadTag;
      assert [items[0]] + items[1..] == items;
    }
  }

  lemma SequenceOfRoundTrip(items: seq<seq<byte>>, tag: byte)
    requires |ItemBytes(items, tag)| <= 65535
    ensures var s := Tlv(SEQUENCE, ItemBytes(items, tag));
            ReadSequenceOf(s, tag) == Done(items, |s|)
  {
    ItemSizes(items, tag);
    ItemsRoundTrip(items, tag);
    TagRoundTrip(SEQUENCE, ItemBytes(items, tag), []);
    var s := Tlv(SEQUENCE, ItemBytes(items, tag));
    assert s + [] == s;
    hide Tlv, ReadTag, ReadItems, ItemBytes;
    var u := |s| - |ItemBytes(items, tag)|;
    assert s[u..] == s[u..u + |ItemBytes(items, tag)|];
  }

  lemma {:induction false} ItemSizes(items: seq<seq<byte>>, tag: byte)
    ensures forall i :: 0 <= i < |items| ==> |items[i]| <= |ItemBytes(items, tag)|
  {
    if items != [] {
      ItemSizes(items[1..], tag);
      hide Tlv;
    }
  }

  // ----- the shape of numbers (section 8.3) -----

  /** A positive number is written in two's complement, and in no more bytes than needed. */
  lemma MpiCanonical(v: nat, size: nat, padded: bool)
    requires v > 0 && v < ByteWeight(size) && size > 0 && ByteWeight(size - 1) <= v
    requires padded <==> Digits(v, size)[0] >= 128
    ensures var body := (if padded then [0] else []) + Digits(v, size);
            body[0] < 128 && (|body| > 1 && body[0] == 0 ==> body[1] >= 128)
  {
    DigitsCons(v, size - 1);
    TopDigit(v, size - 1);
  }

  lemma TopDigit(v: nat, n: nat)
    requires ByteWeight(n) <= v < ByteWeight(n + 1)
    ensures 0 < v / ByteWeight(n) < 256
  {
    var q, r := v / ByteWeight(n), v % ByteWeight(n);
    assert v == q * ByteWeight(n) + r;
    if q >= 256 {
      MulLe(ByteWeight(n), 256, q);
    }
  }
}
