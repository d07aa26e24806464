/** asn1write.c: writers that store bytes in front of what is there, moving a position towards the start. */
module DerWriter {
  import opened Octets
  import opened DerWire
  import opened MpiBase
  import opened MpiBinary
  import L = Limbs

  /** What writing w in front of p0 does: with room enough, w lies there, r is its length, and that is how far the
      position moved. Without, r is the error. Nothing from p0 on and nothing below the new position changes. */
  predicate Put(before: seq<byte>, p0: nat, after: seq<byte>, p1: nat, start: nat, w: seq<byte>, r: int) {
    start <= p1 <= p0 <= |before| == |after|
    && after[p0..] == before[p0..] && after[..p1] == before[..p1]
    && if p0 - start >= |w| then r == |w| == p0 - p1 && after[p1..p0] == w else r == BUF_TOO_SMALL
  }

  /** Writing w1 and then w2 puts w2 + w1, whether or not both fit. */
  /** What has no room is not put, however much of it was written. */
  lemma PutFull(b0: seq<byte>, p0: nat, b: seq<byte>, p: nat, start: nat, w: seq<byte>, r: int, whole: seq<byte>)
    requires Put(b0, p0, b, p, start, w, r) && p0 - start < |whole|
    ensures Put(b0, p0, b, p, start, whole, BUF_TOO_SMALL)
  {
  }

  lemma PutStored(b0: seq<byte>, p0: nat, b: seq<byte>, p: nat, start: nat, w: seq<byte>)
    requires start <= p && p + |w| == p0 <= |b0| == |b| && b[p..p0] == w
    requires forall i :: 0 <= i < |b| && !(p <= i < p0) ==> b[i] == b0[i]
    ensures Put(b0, p0, b, p, start, w, |w|)
  {
  }

  lemma PutThen(b0: seq<byte>, p0: nat, b1: seq<byte>, p1: nat, b2: seq<byte>, p2: nat, start: nat,
                w1: seq<byte>, r1: int, w2: seq<byte>, r2: int)
    requires Put(b0, p0, b1, p1, start, w1, r1) && r1 >= 0 && Put(b1, p1, b2, p2, start, w2, r2)
    ensures Put(b0, p0, b2, p2, start, w2 + w1, if r2 < 0 then r2 else r1 + r2)
  {
    assert b2[p0..] == b2[p1..][p0 - p1..] == b1[p1..][p0 - p1..] == b1[p0..];
    assert b2[..p2] == b1[..p2] == b1[..p1][..p2] == b0[..p1][..p2] == b0[..p2];
    if p1 - start >= |w2| {
      assert b2[p1..p0] == b2[p1..][..p0 - p1] == b1[p1..][..p0 - p1] == b1[p1..p0] == w1;
      assert b2[p2..p0] == b2[p2..p1] + b2[p1..p0];
    }
  }

  /** Where w1 does not fit, w2 + w1 does not either. */
  lemma PutFails(b0: seq<byte>, p0: nat, b1: seq<byte>, p1: nat, start: nat, w1: seq<byte>, r: int, w2: seq<byte>)
    requires Put(b0, p0, b1, p1, start, w1, r) && r < 0
    ensures Put(b0, p0, b1, p1, start, w2 + w1, r)
  {
  }

  class Writer {
    const buf: array<byte>
    const start: nat
    var p: nat

    /** A position at the end of the buffer. */
    constructor (buffer: array<byte>, first: nat)
      requires first <= buffer.Length
      ensures buf == buffer && start == first && p == buffer.Length && Valid()
    {
      buf, start, p := buffer, first, buffer.Length;
    }

    ghost predicate Valid()
      reads this
    {
      start <= p <= buf.Length
    }

    /** One byte in front. */
    method Prepend(c: byte)
      requires Valid() && p > start
      modifies this`p, buf
      ensures Put(old(buf[..]), old(p), buf[..], p, start, [c], 1) && p == old(p) - 1
    {
      p := p - 1;
      buf[p] := c;
    }

    /** mbedtls_asn1_write_len. */
    method WriteLen(len: nat) returns (r: int)
      requires Valid()
      modifies this`p, buf
      ensures Valid() && Put(old(buf[..]), old(p), buf[..], p, start, LengthBytes(len), r)
    {
      if len < 0x80 {
        if p - start < 1 {
          return BUF_TOO_SMALL;
        }
        Prepend(len);
        return 1;
      }
      if len <= 0xFF {
        if p - start < 2 {
          return BUF_TOO_SMALL;
        }
        p := p - 1;
        buf[p] := len;
        p := p - 1;
        buf[p] := 0x81;
        return 2;
      }
      if p - start < 3 {
        return BUF_TOO_SMALL;
      }
      p := p - 1;
      buf[p] := len % 256;
      p := p - 1;
      buf[p] := len / 256 % 256;
      p := p - 1;
      buf[p] := 0x82;
      return 3;
    }

    /** mbedtls_asn1_write_tag. */
    method WriteTag(tag: byte) returns (r: int)
      requires Valid()
      modifies this`p, buf
      ensures Put(old(buf[..]), old(p), buf[..], p, start, [tag], r)
    {
      if p - start < 1 {
        return BUF_TOO_SMALL;
      }
      Prepend(tag);
      return 1;
    }

    /** mbedtls_asn1_write_raw_buffer. */
    method WriteRaw(data: seq<byte>) returns (r: int)
      requires Valid()
      modifies this`p, buf
      ensures Put(old(buf[..]), old(p), buf[..], p, start, data, r)
    {
      if p < start || p - start < |data| {
        return BUF_TOO_SMALL;
      }
      p := p - |data|;
      Copy(p, data);
      return |data|;
    }

    /** memcpy. */
    method Copy(off: nat, data: seq<byte>)
      requires off + |data| <= buf.Length
      modifies buf
      ensures buf[..] == old(buf[..off]) + data + old(buf[off + |data|..])
    {
      forall i | 0 <= i < |data| {
        buf[off + i] := data[i];
      }
    }

    /** Length and tag in front of contents that were written: the end of every writer. */
    method Head(tag: byte, ghost body: seq<byte>, ghost before: seq<byte>, ghost p0: nat, len: nat) returns (r: int)
      requires Put(before, p0, buf[..], p, start, body, len) && len == |body|
      modifies this`p, buf
      ensures Put(before, p0, buf[..], p, start, Tlv(tag, body), r)
    {
      assert Valid();
      hide Put;
      ghost var b1, p1 := buf[..], p;
      r := WriteLen(len);
      assert [tag] + (LengthBytes(len) + body) == Tlv(tag, body);
      PutThen(before, p0, b1, p1, buf[..], p, start, body, len, LengthBytes(len), r);
      if r < 0 {
        PutFails(before, p0, buf[..], p, start, LengthBytes(len) + body, r, [tag]);
        return;
      }
      ghost var b2, p2 := buf[..], p;
      var total := len + r;
      r := WriteTag(tag);
      PutThen(before, p0, b2, p2, buf[..], p, start, LengthBytes(len) + body, total, [tag], r);
      if r < 0 {
        return;
      }
      total := total + r;
      return total;
    }

    /** mbedtls_asn1_write_octet_string, mbedtls_asn1_write_oid, mbedtls_asn1_write_printable_string, and
        mbedtls_asn1_write_ia5_string, which differ in the tag only. */
    method WriteString(tag: byte, data: seq<byte>) returns (r: int)
      requires Valid()
      modifies this`p, buf
      ensures Put(old(buf[..]), old(p), buf[..], p, start, Tlv(tag, data), r)
    {
      hide Put;
      ghost var b0, p0 := buf[..], p;
      r := WriteRaw(data);
      if r < 0 {
        PutFails(b0, p0, buf[..], p, start, data, r, [tag] + LengthBytes(|data|));
        return;
      }
      PutLength(b0, p0, buf[..], p, start, data, r);
      r := Head(tag, data, b0, p0, r);
    }

    /** mbedtls_asn1_write_null. */
    method WriteNull() returns (r: int)
      requires Valid()
      modifies this`p, buf
      ensures Put(old(buf[..]), old(p), buf[..], p, start, Tlv(NULL_VALUE, []), r)
    {
      PutNothing(buf[..], p, p, start);
      hide Put;
      r := Head(NULL_VALUE, [], buf[..], p, 0);
    }

    /** mbedtls_asn1_write_algorithm_identifier, in front of parLen bytes of parameters, or with a NULL. */
    method WriteAlg(oid: seq<byte>, parLen: nat) returns (r: int)
      requires Valid() && p + parLen <= buf.Length
      modifies this`p, buf
      ensures var params := if parLen == 0 then Tlv(NULL_VALUE, []) else old(buf[p..p + parLen]);
              Put(old(buf[..]), old(p) + parLen, buf[..], p, start, AlgBytes(oid, params), r)
    {
      ghost var b0, p0 := buf[..], p + parLen;
      ghost var params := if parLen == 0 then Tlv(NULL_VALUE, []) else buf[p..p + parLen];
      ghost var body := Tlv(OBJECT_ID, oid) + params;
      PutNothing(b0, p0, p, start);
      hide Put;
      var len := parLen;
      if parLen == 0 {
        r := WriteNull();
        if r < 0 {
          FailsInside(b0, p0, buf[..], p, start, params, r, Tlv(OBJECT_ID, oid), SEQUENCE);
          return;
        }
        len := r;
      }
      ghost var b1, p1 := buf[..], p;
      r := WriteString(OBJECT_ID, oid);
      PutThen(b0, p0, b1, p1, buf[..], p, start, params, len, Tlv(OBJECT_ID, oid), r);
      if r < 0 {
        FailsInside(b0, p0, buf[..], p, start, body, r, [], SEQUENCE);
        return;
      }
      len := len + r;
      PutLength(b0, p0, buf[..], p, start, body, len);
      r := Head(SEQUENCE, body, b0, p0, len);
    }

    /** mbedtls_asn1_write_bool. */
    method WriteBool(boolean: int) returns (r: int)
      requires Valid()
      modifies this`p, buf
      ensures Put(old(buf[..]), old(p), buf[..], p, start, BoolBytes(boolean), r)
    {
      if p - start < 1 {
        return BUF_TOO_SMALL;
      }
      ghost var b0, p0 := buf[..], p;
      Prepend(if boolean != 0 then 255 else 0);
      hide Put;
      r := Head(BOOLEAN, [if boolean != 0 then 255 else 0], b0, p0, 1);
    }

    /** mbedtls_asn1_write_int. */
    method WriteInt(val: int) returns (r: int)
      requires Valid()
      modifies this`p, buf
      ensures Put(old(buf[..]), old(p), buf[..], p, start, IntBytes(val), r)
    {
      if p - start < 1 {
        return BUF_TOO_SMALL;
      }
      ghost var b0, p0 := buf[..], p;
      var len := 1;
      Prepend(val % 256);
      ghost var body := [val % 256];
      if val > 0 && buf[p] >= 0x80 {
        if p - start < 1 {
          return BUF_TOO_SMALL;
        }
        ghost var b1, p1 := buf[..], p;
        Prepend(0);
        PutThen(b0, p0, b1, p1, buf[..], p, start, body, 1, [0], 1);
        len := len + 1;
        body := [0] + body;
      }
      hide Put;
      assert Tlv(INTEGER, body) == IntBytes(val);
      r := Head(INTEGER, body, b0, p0, len);
    }

    /** mbedtls_asn1_write_bitstring. */
    method WriteBitString(data: seq<byte>, bits: nat) returns (r: int)
      requires Valid() && BitSize(bits) <= |data|
      modifies this`p, buf
      ensures Put(old(buf[..]), old(p), buf[..], p, start, BitBytes(data, bits), r)
    {
      var size := bits / 8 + if bits % 8 != 0 then 1 else 0;
      if p < start || p - start < size + 1 {
        return BUF_TOO_SMALL;
      }
      ghost var b0, p0 := buf[..], p;
      r := WriteRaw(data[..size]);
      ghost var b1, p1 := buf[..], p;
      Prepend(size * 8 - bits);
      PutThen(b0, p0, b1, p1, buf[..], p, start, data[..size], size, [size * 8 - bits], 1);
      hide Put;
      r := Head(BIT_STRING, [size * 8 - bits] + data[..size], b0, p0, size + 1);
    }

    /** mbedtls_asn1_write_mpi. For zero it looks at the byte behind, where there is one. */
    method WriteMpi(X: Mpi) returns (r: int, ghost size: nat, ghost padded: bool)
      requires Valid()
      modifies this`p, buf
      ensures Fills(L.Val(X.p), size)
      ensures size > 0 ==> (padded <==> X.s == 1 && Digits(L.Val(X.p), size)[0] >= 0x80)
      ensures size == 0 ==> padded ==> X.s == 1 && (old(p) < buf.Length ==> old(buf[p]) >= 0x80)
      ensures Put(old(buf[..]), old(p), buf[..], p, start, MpiBytes(L.Val(X.p), size, padded), r)
    {
      hide Put;
      ghost var b0, p0, v := buf[..], p, L.Val(X.p);
      var len := Size(X);
      size, padded := len, X.s == 1 && len > 0 && Digits(v, len)[0] >= 0x80;
      if p < start || p - start < len {
        PutNothing(b0, p0, p0, start);
        PutFull(b0, p0, b0, p0, start, b0[p0..p0], 0, MpiBytes(v, size, padded));
        return BUF_TOO_SMALL, size, padded;
      }
      p := p - len;
      var fits := WriteBinary(X, buf, p, len);
      PutStored(b0, p0, buf[..], p, start, Digits(v, len));
      var first: byte := 0;
      if p < buf.Length {
        first := buf[p];
      } else {
        first := *;
      }
      ghost var body := Digits(v, len);
      if X.s == 1 && first >= 0x80 {
        padded := true;
        if p - start < 1 {
          PutFull(b0, p0, buf[..], p, start, body, len, MpiBytes(v, size, padded));
          return BUF_TOO_SMALL, size, padded;
        }
        ghost var b1, p1 := buf[..], p;
        Prepend(0);
        PutThen(b0, p0, b1, p1, buf[..], p, start, body, len, [0], 1);
        body := [0] + body;
        len := len + 1;
      } else {
        assert [] + body == body;
      }
      r := Head(INTEGER, body, b0, p0, len);
    }
  }

  lemma PutLength(b0: seq<byte>, p0: nat, b1: seq<byte>, p1: nat, start: nat, w: seq<byte>, r: int)
    requires Put(b0, p0, b1, p1, start, w, r) && r >= 0
    ensures r == |w|
  {
  }

  lemma PutNothing(b: seq<byte>, p0: nat, p: nat, start: nat)
    requires start <= p <= p0 <= |b|
    ensures Put(b, p0, b, p, start, b[p..p0], p0 - p)
    ensures Put(b, p, b, p, start, [], 0)
  {
  }

  /** A failure within the contents of a value. */
  lemma FailsInside(b0: seq<byte>, p0: nat, b1: seq<byte>, p1: nat, start: nat, w1: seq<byte>, r: int, w2: seq<byte>,
                    tag: byte)
    requires Put(b0, p0, b1, p1, start, w1, r) && r < 0
    ensures Put(b0, p0, b1, p1, start, Tlv(tag, w2 + w1), r)
  {
    assert Tlv(tag, w2 + w1) == [tag] + LengthBytes(|w2 + w1|) + w2 + w1;
  }
}
