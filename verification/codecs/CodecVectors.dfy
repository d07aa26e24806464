/** Base64 and DER on concrete bytes: the test vectors of RFC 4648 and the examples of ITU-T X.690, written out. */
module CodecVectors {
  import opened Arith
  import opened Octets
  import opened Base64Text
  import opened DerWire

  // ----- numbers -----

  /** The first byte is the most significant one. */
  lemma BigEndian()
    ensures Number([0x01]) == 1 && Number([0x01, 0x02]) == 0x0102 && Number([0x01, 0x02, 0x03]) == 0x010203
    ensures Digits(0x010203, 3) == [0x01, 0x02, 0x03]
  {
    var b: seq<byte> := [0x01, 0x02, 0x03];
    assert b[..2] == [0x01, 0x02] && b[..2][..1] == [0x01] && [b[0]][..0] == [];
    assert Number([0x01]) == 1 && Number([0x01, 0x02]) == 0x0102;
    assert Digits(0x01, 1) == [0x01] && Digits(0x0102, 2) == [0x01, 0x02];
  }

  // ----- Base64 -----

  /** Table 1 of RFC 4648. */
  lemma Alphabet(v: nat)
    requires v < 64
    ensures v < 26 ==> Symbol(v) as int == 'A' as int + v
    ensures 26 <= v < 52 ==> Symbol(v) as int == 'a' as int + (v - 26)
    ensures 52 <= v < 62 ==> Symbol(v) as int == '0' as int + (v - 52)
    ensures v == 62 ==> Symbol(v) as int == '+' as int
    ensures v == 63 ==> Symbol(v) as int == '/' as int
    ensures PAD as int == '=' as int
  {
  }

  /** The symbols of three bytes are the digits of their number to the base 64. */
  lemma GroupDigits(a: byte, b: byte, c: byte)
    ensures var n, s := a as int * 65536 + b as int * 256 + c as int, Group(a, b, c, 3);
            && 0 <= n / 262144 < 64
            && s[0] == Symbol(n / 262144) && s[1] == Symbol(n / 4096 % 64)
            && s[2] == Symbol(n / 64 % 64) && s[3] == Symbol(n % 64)
  {
    var a, b, c := a as int, b as int, c as int;
    var n := a * 65536 + b * 256 + c;
    hide Symbol;
    Digit(n, 262144, a / 4, a % 4 * 65536 + b * 256 + c, 0, a / 4);
    Digit(n, 4096, a * 16 + b / 16, b % 16 * 256 + c, a / 4, a % 4 * 16 + b / 16);
    Digit(n, 64, a * 1024 + b * 4 + c / 64, c % 64, a * 16 + b / 16, b % 16 * 4 + c / 64);
    Digit(n, 1, n, 0, a * 1024 + b * 4 + c / 64, c % 64);
  }

  lemma Digit(n: int, w: int, q: int, r: int, high: int, digit: int)
    requires w > 0 && n == q * w + r && 0 <= r < w && q == 64 * high + digit && 0 <= digit < 64
    ensures n / w == q && n / w % 64 == digit
  {
    DivModUnique(n, w, q, r);
    DivModUnique(q, 64, high, digit);
  }

  /** Section 10 of RFC 4648: "", "f", "fo", "foo". */
  lemma Rfc4648()
    ensures Encoded([]) == []
    ensures Encoded([102]) == [90, 103, 61, 61]
    ensures Encoded([102, 111]) == [90, 109, 56, 61]
    ensures Encoded([102, 111, 111]) == [90, 109, 57, 118]
  {
    assert [102, 111, 111][3..] == [];
  }

  /** Its other vectors, "foob", "fooba" and "foobar", behind the "Zm9v" that they share. */
  lemma Rfc4648Longer()
    ensures Encoded([102, 111, 111, 98]) == [90, 109, 57, 118] + [89, 103, 61, 61]
    ensures Encoded([102, 111, 111, 98, 97]) == [90, 109, 57, 118] + [89, 109, 69, 61]
    ensures Encoded([102, 111, 111, 98, 97, 114]) == [90, 109, 57, 118] + [89, 109, 70, 121]
  {
    assert [102, 111, 111, 98][3..] == [98] && [102, 111, 111, 98, 97][3..] == [98, 97];
    assert [102, 111, 111, 98, 97, 114][3..] == [98, 97, 114] && [98, 97, 114][3..] == [];
    assert Encoded([98]) == [89, 103, 61, 61] && Encoded([98, 97]) == [89, 109, 69, 61];
    assert Encoded([98, 97, 114]) == [89, 109, 70, 121] + [];
    assert Group(102, 111, 111, 3) == [90, 109, 57, 118];
    hide Group;
  }

  // ----- DER -----

  /** Section 8.1.3: the short form, the example of the long form, and two bytes. */
  lemma Lengths()
    ensures LengthBytes(38) == [0x26] && LengthBytes(127) == [0x7F] && LengthBytes(128) == [0x81, 0x80]
    ensures LengthBytes(201) == [0x81, 0xC9] && LengthBytes(435) == [0x82, 0x01, 0xB3]
  {
  }

  /** The same read: a length of two bytes is a number with its first byte on top. */
  lemma LengthsRead(body: seq<byte>)
    requires |body| == 435
    ensures ReadLen([0x82, 0x01, 0xB3] + body) == Done(435, 3)
    ensures ReadLen([0x80] + body) == Failed(INVALID_LENGTH, 0) && ReadLen([0x85] + body) == Failed(INVALID_LENGTH, 0)
  {
    var s := [0x82, 0x01, 0xB3] + body;
    assert s[1..3] == [0x01, 0xB3];
    NumberOfTwo(0x01, 0xB3);
  }

  /** Sections 8.2, 8.3 and 8.8: TRUE, FALSE, integers, and NULL. */
  lemma SmallValues()
    ensures BoolBytes(1) == [0x01, 0x01, 0xFF] && BoolBytes(0) == [0x01, 0x01, 0x00]
    ensures IntBytes(5) == [0x02, 0x01, 0x05] && IntBytes(128) == [0x02, 0x02, 0x00, 0x80]
    ensures MpiBytes(0x010203, 3, false) == [0x02, 0x03, 0x01, 0x02, 0x03]
    ensures MpiBytes(0x80, 1, true) == [0x02, 0x02, 0x00, 0x80]
    ensures Tlv(NULL_VALUE, []) == [0x05, 0x00]
  {
    BigEndian();
    assert Digits(0x80, 1) == [0x80];
  }

  /** The example of section 8.6.4: the 44 bits 0A3B5F291CD. */
  lemma Bits()
    ensures BitBytes([0x0A, 0x3B, 0x5F, 0x29, 0x1C, 0xD0], 44) == [0x03, 0x07, 0x04, 0x0A, 0x3B, 0x5F, 0x29, 0x1C, 0xD0]
    ensures ReadBitString([0x03, 0x02, 0x04, 0xD0]) == Done(BitString(4, [0xD0]), 4)
  {
    assert [0x0A, 0x3B, 0x5F, 0x29, 0x1C, 0xD0][..6] == [0x0A, 0x3B, 0x5F, 0x29, 0x1C, 0xD0];
    var s: seq<byte> := [0x03, 0x02, 0x04, 0xD0];
    assert s[1..] == [0x02, 0x04, 0xD0] && s[3..4] == [0xD0];
  }

  /** The identifier of section 8.19.5, 2.100.3, in an AlgorithmIdentifier with NULL. */
  lemma Identifier()
    ensures AlgBytes([0x81, 0x34, 0x03], [0x05, 0x00]) == [0x30, 0x07, 0x06, 0x03, 0x81, 0x34, 0x03, 0x05, 0x00]
  {
    assert Tlv(OBJECT_ID, [0x81, 0x34, 0x03]) == [0x06, 0x03, 0x81, 0x34, 0x03];
  }

  /** A SEQUENCE OF two INTEGERs. */
  lemma TwoIntegers()
    ensures Tlv(SEQUENCE, ItemBytes([[0x01], [0x02]], INTEGER)) == [0x30, 0x06, 0x02, 0x01, 0x01, 0x02, 0x01, 0x02]
  {
    assert [[0x01], [0x02]][1..] == [[0x02]] && [[0x02]][1..] == [];
    assert ItemBytes([[0x02]], INTEGER) == [0x02, 0x01, 0x02] + [];
  }
}
