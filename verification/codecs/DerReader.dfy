/** asn1parse.c: parsers that move a read position through a buffer. */
module DerReader {
  import opened Octets
  import opened DerWire
  import opened MpiBase
  import opened MpiBinary

  /** A parser's return code, its result, and where its position came to lie, against what there was to read. */
  predicate Agrees<T(==)>(r: Scan<T>, rc: int, value: T, before: nat, after: nat) {
    match r
    case Done(x, u) => rc == 0 && value == x && after == before + u
    case Failed(c, u) => rc == c && after == before + u
    case Undefined => true
  }

  class Reader {
    const data: seq<byte>
    var p: nat

    constructor (bytes: seq<byte>)
      ensures data == bytes && p == 0
    {
      data, p := bytes, 0;
    }

    /** What there is to read. */
    ghost function Ahead(end: nat): seq<byte>
      requires p <= end <= |data|
      reads this
    {
      data[p..end]
    }

    /** mbedtls_asn1_get_len. */
    method GetLen(end: nat) returns (rc: int, len: nat)
      requires p <= end <= |data|
      modifies this`p
      ensures Agrees(ReadLen(old(Ahead(end))), rc, len, old(p), p) && old(p) <= p <= end
      ensures rc == 0 ==> ReadLen(old(Ahead(end))).Done? && p + len <= end
    {
      ghost var s := Ahead(end);
      len := 0;
      if end - p < 1 {
        return OUT_OF_DATA, len;
      }
      if data[p] < 0x80 {
        len := data[p];
        p := p + 1;
      } else {
        var k := data[p] - 0x80;
        if k == 0 || k > 4 {
          return INVALID_LENGTH, len;
        }
        if end - p < k + 1 {
          return OUT_OF_DATA, len;
        }
        len := Gather(data, p + 1, k);
        Slice(data, p, end, 1, k);
        p := p + k + 1;
      }
      if len > end - p {
        return OUT_OF_DATA, len;
      }
      return 0, len;
    }

    /** mbedtls_asn1_get_tag. */
    method GetTag(end: nat, tag: byte) returns (rc: int, len: nat)
      requires p <= end <= |data|
      modifies this`p
      ensures Agrees(ReadTag(old(Ahead(end)), tag), rc, len, old(p), p) && old(p) <= p <= end
      ensures rc == 0 ==> ReadTag(old(Ahead(end)), tag).Done? && p + len <= end
    {
      ghost var s := Ahead(end);
      len := 0;
      if end - p < 1 {
        return OUT_OF_DATA, len;
      }
      if data[p] != tag {
        return UNEXPECTED_TAG, len;
      }
      p := p + 1;
      Slice(data, p - 1, end, 1, 0);
      rc, len := GetLen(end);
    }

    /** mbedtls_asn1_get_bool. */
    method GetBool(end: nat) returns (rc: int, val: int)
      requires p <= end <= |data|
      modifies this`p
      ensures Agrees(ReadBool(old(Ahead(end))), rc, val, old(p), p)
    {
      hide ReadTag;
      var len;
      rc, len := GetTag(end, BOOLEAN);
      val := 0;
      if rc != 0 {
        return;
      }
      if len != 1 {
        return INVALID_LENGTH, val;
      }
      val := if data[p] != 0 then 1 else 0;
      p := p + 1;
    }

    /** mbedtls_asn1_get_int. */
    method GetInt(end: nat) returns (rc: int, val: int)
      requires p <= end <= |data|
      modifies this`p
      ensures Agrees(ReadInt(old(Ahead(end)), data[end..]), rc, val, old(p), p)
    {
      hide ReadTag;
      ghost var s, p0 := Ahead(end), p;
      var len;
      rc, len := GetTag(end, INTEGER);
      val := 0;
      if rc != 0 {
        return;
      }
      Slice(data, p0, end, p - p0, len);
      var first: byte := 0;
      if p < |data| {
        first := data[p];
        assert first == (s + data[end..])[p - p0];
      } else {
        first := *;
      }
      if len > 4 || first >= 0x80 {
        return INVALID_LENGTH, val;
      }
      val := Gather(data, p, len);
      p := p + len;
    }

    /** mbedtls_asn1_get_mpi. */
    method GetMpi(end: nat, X: Mpi) returns (rc: int)
      requires p <= end <= |data|
      modifies this`p, X
      ensures rc != ALLOC_FAILED ==> Agrees(ReadMpi(old(Ahead(end))), rc, X.Abs(), old(p), p)
      ensures rc == 0 ==> X.Valid() && X.s == 1
    {
      hide ReadTag;
      ghost var s, p0 := Ahead(end), p;
      var len;
      rc, len := GetTag(end, INTEGER);
      if rc != 0 {
        return;
      }
      var r := ReadBinary(X, data[p..p + len]);
      Slice(data, p0, end, p - p0, len);
      p := p + len;
      rc := if r.Ok? then 0 else ALLOC_FAILED;
    }

    /** mbedtls_asn1_get_bitstring. */
    method GetBitString(end: nat) returns (rc: int, bs: BitString)
      requires p <= end <= |data|
      modifies this`p
      ensures Agrees(ReadBitString(old(Ahead(end))), rc, bs, old(p), p)
    {
      hide ReadTag;
      ghost var s, p0 := Ahead(end), p;
      bs := BitString(0, []);
      var len;
      rc, len := GetTag(end, BIT_STRING);
      if rc != 0 {
        return;
      }
      if len < 1 {
        return OUT_OF_DATA, bs;
      }
      len := len - 1;
      var unused := data[p];
      if unused > 7 {
        return INVALID_LENGTH, bs;
      }
      p := p + 1;
      bs := BitString(unused, data[p..p + len]);
      Slice(data, p0, end, p - p0, len);
      p := p + len;
      if p != end {
        return LENGTH_MISMATCH, bs;
      }
    }

    /** mbedtls_asn1_get_alg. */
    method GetAlg(end: nat) returns (rc: int, alg: Algorithm)
      requires p <= end <= |data|
      modifies this`p
      ensures Agrees(ReadAlg(old(Ahead(end))), rc, alg, old(p), p)
    {
      hide ReadTag, ReadAlgBody;
      ghost var s, p0 := Ahead(end), p;
      alg := Algorithm([], 0, []);
      var len;
      rc, len := GetTag(end, SEQUENCE);
      if rc != 0 {
        return;
      }
      if end - p < 1 {
        return OUT_OF_DATA, alg;
      }
      Slice(data, p0, end, p - p0, len);
      rc, alg := GetAlgBody(p + len);
    }

    /** The contents of the sequence above, which end at end. */
    method GetAlgBody(end: nat) returns (rc: int, alg: Algorithm)
      requires p <= end <= |data|
      modifies this`p
      ensures Agrees(ReadAlgBody(old(Ahead(end))), rc, alg, old(p), p)
    {
      hide ReadTag, ReadParams;
      ghost var t, p0 := Ahead(end), p;
      alg := Algorithm([], 0, []);
      var len;
      rc, len := GetTag(end, OBJECT_ID);
      if rc != 0 {
        return;
      }
      alg := Algorithm(data[p..p + len], 0, []);
      Slice(data, p0, end, p - p0, len);
      p := p + len;
      if p == end {
        return 0, alg;
      }
      rc, alg := GetParams(end, alg.oid, p0);
    }

    /** The parameters behind the object identifier of a sequence that started at p0. */
    method GetParams(end: nat, oid: seq<byte>, ghost p0: nat) returns (rc: int, alg: Algorithm)
      requires p0 <= p < end <= |data|
      modifies this`p
      ensures Agrees(ReadParams(data[p0..end], oid, old(p) - p0), rc, alg, p0, p)
    {
      hide ReadLen;
      ghost var pos := p - p0;
      var tag := data[p];
      var len;
      p := p + 1;
      Slice(data, p0, end, pos + 1, 0);
      rc, len := GetLen(end);
      if rc != 0 {
        return rc, Algorithm(oid, 0, []);
      }
      alg := Algorithm(oid, tag, data[p..p + len]);
      Slice(data, p0, end, p - p0, len);
      p := p + len;
      if p != end {
        return LENGTH_MISMATCH, alg;
      }
    }

    /** mbedtls_asn1_get_alg_null. */
    method GetAlgNull(end: nat) returns (rc: int, oid: seq<byte>)
      requires p <= end <= |data|
      modifies this`p
      ensures Agrees(ReadAlgNull(old(Ahead(end))), rc, oid, old(p), p)
    {
      hide ReadAlg;
      var alg;
      rc, alg := GetAlg(end);
      oid := alg.oid;
      if rc != 0 {
        return;
      }
      if (alg.tag != NULL_VALUE && alg.tag != 0) || alg.params != [] {
        rc := INVALID_DATA;
      }
    }

    /** mbedtls_asn1_get_sequence_of; the linked list of items is a sequence here. */
    method GetSequenceOf(end: nat, tag: byte) returns (rc: int, items: seq<seq<byte>>)
      requires p <= end <= |data|
      modifies this`p
      ensures rc != ALLOC_FAILED ==> Agrees(ReadSequenceOf(old(Ahead(end)), tag), rc, items, old(p), p)
    {
      hide ReadTag, ReadItems;
      ghost var s, p0 := Ahead(end), p;
      items := [];
      var len;
      rc, len := GetTag(end, SEQUENCE);
      if rc != 0 {
        return;
      }
      if p + len != end {
        return LENGTH_MISMATCH, items;
      }
      Slice(data, p0, end, p - p0, 0);
      rc, items := GetItems(end, tag);
    }

    /** One turn of its loop. */
    method GetItem(end: nat, tag: byte) returns (rc: int, item: seq<byte>)
      requires p <= end <= |data|
      modifies this`p
      ensures Agrees(ReadItem(old(Ahead(end)), tag), rc, item, old(p), p) && old(p) <= p <= end
      ensures rc == 0 ==> ReadItem(old(Ahead(end)), tag).Done? && Ahead(end) == old(Ahead(end))[p - old(p)..]
    {
      hide ReadTag;
      ghost var s, p0 := Ahead(end), p;
      item := [];
      var len;
      rc, len := GetTag(end, tag);
      if rc != 0 {
        return;
      }
      Slice(data, p0, end, p - p0, len);
      item := data[p..p + len];
      p := p + len;
    }

    /** The same, within the whole loop: items were read before, in u bytes. */
    method NextItem(end: nat, tag: byte, ghost items: seq<seq<byte>>, ghost u: nat) returns (rc: int, item: seq<byte>)
      requires p < end <= |data|
      modifies this`p
      ensures old(p) <= p <= end && (rc == 0 ==> old(p) < p)
      ensures var all := Behind(items, u, ReadItems(old(Ahead(end)), tag));
              if rc == 0 then all == Behind(items + [item], u + p - old(p), ReadItems(Ahead(end), tag))
              else all == Failed(rc, u + p - old(p))
    {
      hide ReadItem, ReadItems, Behind;
      assert Ahead(end) != [];
      FirstItem(Ahead(end), tag, items, u);
      rc, item := GetItem(end, tag);
    }

    /** The loop itself. */
    method GetItems(end: nat, tag: byte) returns (rc: int, items: seq<seq<byte>>)
      requires p <= end <= |data|
      modifies this`p
      ensures rc != ALLOC_FAILED ==> Agrees(ReadItems(old(Ahead(end)), tag), rc, items, old(p), p)
    {
      hide ReadItem, ReadItems, Behind;
      items := [];
      ghost var p0, whole := p, ReadItems(Ahead(end), tag);
      NoItem(whole, [], 0, tag);
      while p < end
        invariant p0 <= p <= end
        invariant whole == Behind(items, p - p0, ReadItems(Ahead(end), tag))
      {
        var item;
        rc, item := NextItem(end, tag, items, p - p0);
        if rc != 0 {
          return;
        }
        items := items + [item];
        if p < end {
          var granted: bool := *;
          if !granted {
            return ALLOC_FAILED, items;
          }
        }
      }
      assert Ahead(end) == [];
      NoItem(whole, items, p - p0, tag);
      return 0, items;
    }
  }

  /** k bytes of the buffer as a number. */
  method Gather(data: seq<byte>, off: nat, k: nat) returns (v: nat)
    requires off + k <= |data|
    ensures v == Number(data[off..off + k])
  {
    v := 0;
    var i := 0;
    while i < k
      invariant 0 <= i <= k && v == Number(data[off..off + i])
    {
      assert data[off..off + i + 1][..i] == data[off..off + i];
      v := v * 256 + data[off + i];
      i := i + 1;
    }
  }

  /** Slices of a slice. */
  lemma Slice(b: seq<byte>, lo: nat, hi: nat, i: nat, n: nat)
    requires lo + i + n <= hi <= |b|
    ensures b[lo..hi][i..i + n] == b[lo + i..lo + i + n] 
    ensures b[lo..hi][i..] == b[lo + i..hi]
  {
    var t, u := b[lo..hi][i..], b[lo + i..hi];
    assert |t| == |u|;
    assert forall k :: 0 <= k < |t| ==> t[k] == b[lo + i + k] == u[k];
  }

  /** The items read so far in front of what reading on yields. */
  function Behind(items: seq<seq<byte>>, u: nat, r: Scan<seq<seq<byte>>>): Scan<seq<seq<byte>>> {
    match r
    case Done(more, v) => Done(items + more, u + v)
    case Failed(c, v) => Failed(c, u + v)
    case Undefined => Undefined
  }

  lemma FirstItem(t: seq<byte>, tag: byte, items: seq<seq<byte>>, u: nat)
    requires t != []
    ensures var r, all := ReadItem(t, tag), Behind(items, u, ReadItems(t, tag));
            (r.Done? ==> all == Behind(items + [r.value], u + r.used, ReadItems(t[r.used..], tag)))
            && (r.Failed? ==> all == Failed(r.code, u + r.used))
  {
    hide ReadItem;
    var r := ReadItem(t, tag);
    if r.Done? {
      var rest := ReadItems(t[r.used..], tag);
      if rest.Done? {
        assert items + ([r.value] + rest.value) == items + [r.value] + rest.value;
      }
    }
  }

  lemma NoItem(r: Scan<seq<seq<byte>>>, items: seq<seq<byte>>, u: nat, tag: byte)
    ensures Behind([], 0, r) == r && Behind(items, u, ReadItems([], tag)) == Done(items, u)
  {
    assert items + [] == items;
    if r.Done? {
      assert [] + r.value == r.value;
    }
  }
}
