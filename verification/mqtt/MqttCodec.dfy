/** The serializers, which move a write position through a buffer, and the parsers, which move a read position. */
module MqttCodec {
  import opened MqttCodes
  import opened Octets
  import opened MqttWire
  import opened MqttRequests

  // ----- writing -----

  /** aws_iot_mqtt_internal_write_char. */
  method WriteChar(buf: array<byte>, pos: nat, c: byte) returns (next: nat)
    requires pos < buf.Length
    modifies buf
    ensures next == pos + 1 && buf[..next] == old(buf[..pos]) + [c]
  {
    buf[pos] := c;
    next := pos + 1;
  }

  lemma OneMoreByte(done: seq<byte>, left: nat)
    ensures done + EncodeLen(left)
         == if left / 128 > 0 then done + [left % 128 + 128] + EncodeLen(left / 128) else done + [left % 128]
  {
  }

  /** aws_iot_mqtt_internal_write_len_to_buffer. */
  method WriteLen(buf: array<byte>, pos: nat, length: nat) returns (next: nat)
    requires pos + |EncodeLen(length)| <= buf.Length
    modifies buf
    ensures next == pos + |EncodeLen(length)| && buf[..next] == old(buf[..pos]) + EncodeLen(length)
  {
    hide EncodeLen;
    var left := length;
    next := pos;
    ghost var goal := buf[..pos] + EncodeLen(length);
    var more := true;
    while more
      invariant pos <= next <= |goal| && (more ==> next < |goal|)
      invariant buf[..next] + (if more then EncodeLen(left) else []) == goal
      decreases left, more
    {
      OneMoreByte(buf[..next], left);
      var encoded := left % 128;
      left := left / 128;
      if left > 0 {
        encoded := encoded + 128;
      }
      next := WriteChar(buf, next, encoded);
      more := left > 0;
    }
  }

  /** aws_iot_mqtt_internal_write_uint_16. */
  method WriteU16(buf: array<byte>, pos: nat, n: nat) returns (next: nat)
    requires pos + 2 <= buf.Length && n < 65536
    modifies buf
    ensures next == pos + 2 && buf[..next] == old(buf[..pos]) + U16(n)
  {
    next := WriteChar(buf, pos, n / 256);
    next := WriteChar(buf, next, n % 256);
  }

  /** memcpy to the write position. */
  method WriteBytes(buf: array<byte>, pos: nat, data: seq<byte>) returns (next: nat)
    requires pos + |data| <= buf.Length
    modifies buf
    ensures next == pos + |data| && buf[..next] == old(buf[..pos]) + data
  {
    var i := 0;
    while i < |data|
      invariant 0 <= i <= |data| && buf[..pos + i] == old(buf[..pos]) + data[..i]
    {
      buf[pos + i] := data[i];
      i := i + 1;
    }
    next := pos + i;
  }

  /** aws_iot_mqtt_internal_write_utf8_string. */
  method WriteStr(buf: array<byte>, pos: nat, t: seq<byte>) returns (next: nat)
    requires |t| < 65536 && pos + |Str(t)| <= buf.Length
    modifies buf
    ensures next == pos + |Str(t)| && buf[..next] == old(buf[..pos]) + Str(t)
  {
    next := WriteU16(buf, pos, |t|);
    next := WriteBytes(buf, next, t);
  }

  /** aws_iot_mqtt_internal_init_header. */
  method InitHeader(kind: int, qos: int, dup: int, retained: int) returns (rc: int, header: byte)
    ensures rc == SUCCESS <==> 1 <= kind <= 14
    ensures rc == SUCCESS ==> header == Header(kind, qos == 1, dup == 1, retained == 1)
    ensures rc == SUCCESS || rc == FAILURE
  {
    if kind < 1 || kind > 14 {
      return FAILURE, 0;
    }
    header := 16 * kind;
    header := header + if dup == 1 then 8 else 0;
    header := header + if qos == 1 then 2 else 0;
    header := header + if retained == 1 then 1 else 0;
    rc := SUCCESS;
  }

  /** Header byte and remaining length, which start every packet. */
  method WriteFixed(buf: array<byte>, header: byte, remLen: nat) returns (next: nat)
    requires 1 + |EncodeLen(remLen)| <= buf.Length
    modifies buf
    ensures next == 1 + |EncodeLen(remLen)| && buf[..next] == [header] + EncodeLen(remLen)
  {
    next := WriteChar(buf, 0, header);
    next := WriteLen(buf, next, remLen);
  }

  /** _aws_iot_mqtt_internal_serialize_publish. */
  method SerializePublish(buf: array<byte>, m: Message) returns (rc: int, len: nat)
    requires m.Valid() && Covered(|PublishBody(m)|, buf.Length)
    modifies buf
    ensures rc == if FinalLength(|PublishBody(m)|) > buf.Length then MQTT_TX_BUFFER_TOO_SHORT_ERROR else SUCCESS
    ensures rc == SUCCESS ==> len <= buf.Length && buf[..len] == PublishPacket(m)
    ensures rc != SUCCESS ==> buf[..] == old(buf[..])
  {
    hide EncodeLen, Str, U16, PublishPacket, PublishBody, FinalLength, Header;
    len := 0;
    var remLen := |m.topic| + |m.payload| + 2;
    if m.qos1 {
      remLen := remLen + 2;
    }
    PublishLayout(m);
    if FinalLength(remLen) > buf.Length {
      return MQTT_TX_BUFFER_TOO_SHORT_ERROR, len;
    }
    var header;
    rc, header := InitHeader(PUBLISH, Bit(m.qos1), Bit(m.dup), Bit(m.retained));
    len := WriteFixed(buf, header, remLen);
    len := WriteStr(buf, len, m.topic);
    if m.qos1 {
      len := WriteU16(buf, len, m.id);
    }
    len := WriteBytes(buf, len, m.payload);
  }

  lemma PublishLayout(m: Message)
    requires m.Valid()
    ensures |PublishBody(m)| == |m.topic| + |m.payload| + 2 + (if m.qos1 then 2 else 0)
    ensures PublishPacket(m) == [Header(PUBLISH, m.qos1, m.dup, m.retained)] + EncodeLen(|PublishBody(m)|)
                              + Str(m.topic) + (if m.qos1 then U16(m.id) else []) + m.payload
  {
    var head := [Header(PUBLISH, m.qos1, m.dup, m.retained)] + EncodeLen(|PublishBody(m)|);
    assert PublishPacket(m) == head + PublishBody(m);
  }

  /** aws_iot_mqtt_internal_serialize_ack. */
  method SerializeAck(buf: array<byte>, kind: int, dup: bool, id: nat) returns (rc: int, len: nat)
    requires id < 65536
    modifies buf
    ensures rc == if buf.Length < 4 then MQTT_TX_BUFFER_TOO_SHORT_ERROR else if 1 <= kind <= 14 then SUCCESS else FAILURE
    ensures rc == SUCCESS ==> len == 4 && buf[..len] == AckPacket(kind, dup, id)
    ensures rc != SUCCESS ==> buf[..] == old(buf[..])
  {
    len := 0;
    if 4 > buf.Length {
      return MQTT_TX_BUFFER_TOO_SHORT_ERROR, len;
    }
    var header;
    rc, header := InitHeader(kind, if kind == PUBREL then 1 else 0, Bit(dup), 0);
    if rc != SUCCESS {
      return;
    }
    len := WriteFixed(buf, header, 2);
    len := WriteU16(buf, len, id);
  }

  /** aws_iot_mqtt_internal_serialize_zero. */
  method SerializeZero(buf: array<byte>, kind: int) returns (rc: int, len: nat)
    modifies buf
    ensures rc == if buf.Length < 4 then MQTT_TX_BUFFER_TOO_SHORT_ERROR else if 1 <= kind <= 14 then SUCCESS else FAILURE
    ensures rc == SUCCESS ==> len == 2 && buf[..len] == Packet(Header(kind, false, false, false), [])
    ensures rc != SUCCESS ==> buf[..] == old(buf[..])
  {
    len := 0;
    if 4 > buf.Length {
      return MQTT_TX_BUFFER_TOO_SHORT_ERROR, len;
    }
    var header;
    rc, header := InitHeader(kind, 0, 0, 0);
    if rc != SUCCESS {
      return;
    }
    len := WriteFixed(buf, header, 0);
  }

  function OptStr(t: Option<seq<byte>>): seq<byte>
    requires t.Some? ==> |t.value| < 65536
  {
    if t.Some? then Str(t.value) else []
  }

  function WillStr(will: Option<Will>): seq<byte>
    requires will.Some? ==> |will.value.topic| < 65536 && |will.value.message| < 65536
  {
    if will.Some? then Str(will.value.topic) + Str(will.value.message) else []
  }

  /** A user name or password, if there is one. */
  method WriteOptional(buf: array<byte>, pos: nat, t: Option<seq<byte>>) returns (next: nat)
    requires (t.Some? ==> |t.value| < 65536) && pos + |OptStr(t)| <= buf.Length
    modifies buf
    ensures next == pos + |OptStr(t)| && buf[..next] == old(buf[..pos]) + OptStr(t)
  {
    next := pos;
    if t.Some? {
      next := WriteStr(buf, next, t.value);
    }
  }

  method WriteWill(buf: array<byte>, pos: nat, will: Option<Will>) returns (next: nat)
    requires will.Some? ==> |will.value.topic| < 65536 && |will.value.message| < 65536
    requires pos + |WillStr(will)| <= buf.Length
    modifies buf
    ensures next == pos + |WillStr(will)| && buf[..next] == old(buf[..pos]) + WillStr(will)
  {
    hide Str;
    next := pos;
    if will.Some? {
      next := WriteStr(buf, next, will.value.topic);
      next := WriteStr(buf, next, will.value.message);
    }
  }

  /** The strings of a CONNECT, in order. */
  method WriteTexts(buf: array<byte>, pos: nat, p: ConnectParams) returns (next: nat)
    requires p.Valid() && pos + |Strs(p.Texts())| <= buf.Length
    modifies buf
    ensures next == pos + |Strs(p.Texts())| && buf[..next] == old(buf[..pos]) + Strs(p.Texts())
  {
    hide Str, Strs, OptStr, WillStr, p.Texts;
    TextsWritten(p);
    next := WriteStr(buf, pos, p.clientId);
    next := WriteWill(buf, next, p.will);
    next := WriteOptional(buf, next, p.username);
    next := WriteOptional(buf, next, p.password);
  }

  lemma TextsWritten(p: ConnectParams)
    requires p.Valid()
    ensures Strs(p.Texts()) == Str(p.clientId) + WillStr(p.will) + OptStr(p.username) + OptStr(p.password)
  {
    var a, b := [p.clientId], if p.will.Some? then [p.will.value.topic, p.will.value.message] else [];
    var c, d := if p.username.Some? then [p.username.value] else [], if p.password.Some? then [p.password.value] else [];
    StrsAppend(a, b);
    StrsAppend(a + b, c);
    StrsAppend(a + b + c, d);
    OneString(p.clientId);
    if p.will.Some? {
      OneString(p.will.value.topic);
      OneString(p.will.value.message);
      StrsAppend([p.will.value.topic], [p.will.value.message]);
    }
    if p.username.Some? {
      OneString(p.username.value);
    }
    if p.password.Some? {
      OneString(p.password.value);
    }
  }

  /** No CONNECT is long enough to outgrow the pre-check. */
  lemma ConnectCovered(p: ConnectParams, size: nat)
    requires p.Valid()
    ensures Covered(ConnectLength(p), size)
  {
    hide FinalLength;
    CoveredExactly(ConnectLength(p), size);
  }

  /** _aws_iot_mqtt_serialize_connect. */
  method SerializeConnect(buf: array<byte>, p: ConnectParams) returns (rc: int, len: nat)
    requires p.Valid()
    modifies buf
    ensures rc == if FinalLength(|ConnectBody(p)|) > buf.Length then MQTT_TX_BUFFER_TOO_SHORT_ERROR else SUCCESS
    ensures rc == SUCCESS ==> len <= buf.Length && buf[..len] == ConnectPacket(p)
    ensures rc != SUCCESS ==> buf[..] == old(buf[..])
  {
    len := 0;
    var remLen := ConnectLength(p);
    ConnectLengthExact(p);
    ConnectCovered(p, buf.Length);
    if FinalLength(remLen) > buf.Length {
      return MQTT_TX_BUFFER_TOO_SHORT_ERROR, len;
    }
    ConnectLayout(p);
    hide EncodeLen, Str, Strs, U16, ConnectPacket, ConnectBody, ConnectFlags, ConnectLength, p.Texts;
    var header;
    rc, header := InitHeader(CONNECT, 0, 0, 0);
    len := WriteFixed(buf, header, remLen);
    len := WriteStr(buf, len, PROTOCOL);
    len := WriteChar(buf, len, 4);
    len := WriteChar(buf, len, ConnectFlags(p));
    len := WriteU16(buf, len, p.keepAlive);
    len := WriteTexts(buf, len, p);
  }

  lemma ConnectLayout(p: ConnectParams)
    requires p.Valid()
    ensures ConnectPacket(p) == [Header(CONNECT, false, false, false)] + EncodeLen(|ConnectBody(p)|)
                              + Str(PROTOCOL) + [4] + [ConnectFlags(p)] + U16(p.keepAlive) + Strs(p.Texts())
  {
    var head := [Header(CONNECT, false, false, false)] + EncodeLen(|ConnectBody(p)|);
    assert ConnectPacket(p) == head + ConnectBody(p);
  }

  /** _aws_iot_mqtt_serialize_subscribe. */
  method SerializeSubscribe(buf: array<byte>, dup: bool, id: nat, filters: seq<Filter>) returns (rc: int, len: nat)
    requires id < 65536 && ShortFilters(filters) && Covered(|SubscribeBody(id, filters)|, buf.Length)
    modifies buf
    ensures rc == if FinalLength(|SubscribeBody(id, filters)|) > buf.Length then MQTT_TX_BUFFER_TOO_SHORT_ERROR else SUCCESS
    ensures rc == SUCCESS ==> len <= buf.Length && buf[..len] == SubscribePacket(dup, id, filters)
    ensures rc != SUCCESS ==> buf[..] == old(buf[..])
  {
    len := 0;
    var remLen, itr := 2, 0;
    while itr < |filters|
      invariant 0 <= itr <= |filters| && remLen + FiltersLength(filters[itr..]) == 2 + FiltersLength(filters)
    {
      assert filters[itr..][1..] == filters[itr + 1..];
      remLen := remLen + |filters[itr].topic| + 2 + 1;
      itr := itr + 1;
    }
    FiltersLengthExact(filters);
    if FinalLength(remLen) > buf.Length {
      return MQTT_TX_BUFFER_TOO_SHORT_ERROR, len;
    }
    var header;
    rc, header := InitHeader(SUBSCRIBE, 1, Bit(dup), 0);
    len := WriteFixed(buf, header, remLen);
    len := WriteU16(buf, len, id);
    len := WriteFilters(buf, len, filters);
    assert buf[..len] == SubscribePacket(dup, id, filters);
  }

  method WriteFilters(buf: array<byte>, pos: nat, filters: seq<Filter>) returns (next: nat)
    requires ShortFilters(filters) && pos + |Filters(filters)| <= buf.Length
    modifies buf
    ensures next == pos + |Filters(filters)| && buf[..next] == old(buf[..pos]) + Filters(filters)
  {
    next := pos;
    var itr := 0;
    ghost var done: seq<byte> := [];
    while itr < |filters|
      invariant 0 <= itr <= |filters| && done + Filters(filters[itr..]) == Filters(filters)
      invariant next == pos + |done| <= buf.Length && buf[..next] == old(buf[..pos]) + done
    {
      assert filters[itr..][1..] == filters[itr + 1..];
      next := WriteStr(buf, next, filters[itr].topic);
      next := WriteChar(buf, next, filters[itr].qos);
      done := done + OneFilter(filters[itr]);
      itr := itr + 1;
    }
  }

  /** _aws_iot_mqtt_serialize_unsubscribe. */
  method SerializeUnsubscribe(buf: array<byte>, dup: bool, id: nat, topics: seq<seq<byte>>) returns (rc: int, len: nat)
    requires id < 65536 && Short(topics) && Covered(|UnsubscribeBody(id, topics)|, buf.Length)
    modifies buf
    ensures rc == if FinalLength(|UnsubscribeBody(id, topics)|) > buf.Length then MQTT_TX_BUFFER_TOO_SHORT_ERROR else SUCCESS
    ensures rc == SUCCESS ==> len <= buf.Length && buf[..len] == UnsubscribePacket(dup, id, topics)
    ensures rc != SUCCESS ==> buf[..] == old(buf[..])
  {
    len := 0;
    var remLen, i := 2, 0;
    while i < |topics|
      invariant 0 <= i <= |topics| && remLen + TotalLength(topics[i..], 2) == 2 + TotalLength(topics, 2)
    {
      assert topics[i..][1..] == topics[i + 1..];
      remLen := remLen + |topics[i]| + 2;
      i := i + 1;
    }
    StrsLength(topics);
    if FinalLength(remLen) > buf.Length {
      return MQTT_TX_BUFFER_TOO_SHORT_ERROR, len;
    }
    var header;
    rc, header := InitHeader(UNSUBSCRIBE, 1, Bit(dup), 0);
    len := WriteFixed(buf, header, remLen);
    len := WriteU16(buf, len, id);
    len := WriteStrs(buf, len, topics);
    assert buf[..len] == UnsubscribePacket(dup, id, topics);
  }

  method WriteStrs(buf: array<byte>, pos: nat, topics: seq<seq<byte>>) returns (next: nat)
    requires Short(topics) && pos + |Strs(topics)| <= buf.Length
    modifies buf
    ensures next == pos + |Strs(topics)| && buf[..next] == old(buf[..pos]) + Strs(topics)
  {
    next := pos;
    var i := 0;
    ghost var done: seq<byte> := [];
    while i < |topics|
      invariant 0 <= i <= |topics| && done + Strs(topics[i..]) == Strs(topics)
      invariant next == pos + |done| <= buf.Length && buf[..next] == old(buf[..pos]) + done
    {
      assert topics[i..][1..] == topics[i + 1..];
      next := WriteStr(buf, next, topics[i]);
      done := done + Str(topics[i]);
      i := i + 1;
    }
  }

  // ----- reading -----

  /** aws_iot_mqtt_internal_decode_remaining_length_from_buffer. */
  method DecodeRemainingLength(buf: array<byte>, start: nat) returns (rc: int, value: nat, bytes: nat)
    requires start <= buf.Length && DecodeLen(buf[start..], 0, 1, 0) != OffEnd
    ensures match DecodeLen(buf[start..], 0, 1, 0)
            case Length(v, k) => rc == SUCCESS && value == v && bytes == k
            case TooLong => rc == MQTT_DECODE_REMAINING_LENGTH_ERROR
            case OffEnd => false
  {
    var multiplier: nat, len: nat := 1, 0;
    value, bytes := 0, 0;
    while true
      invariant 0 <= len <= MAX_REMAINING_LENGTH_BYTES && multiplier >= 0
      invariant DecodeLen(buf[start..], len, multiplier, value) == DecodeLen(buf[start..], 0, 1, 0)
      decreases MAX_REMAINING_LENGTH_BYTES - len
    {
      len := len + 1;
      if len > MAX_REMAINING_LENGTH_BYTES {
        return MQTT_DECODE_REMAINING_LENGTH_ERROR, value, bytes;
      }
      var encoded: int := buf[start + len - 1];
      Scale(encoded % 128, multiplier);
      value := value + (encoded % 128) * multiplier;
      multiplier := multiplier * 128;
      if encoded < 128 {
        break;
      }
    }
    bytes := len;
    rc := SUCCESS;
  }

  /** _aws_iot_mqtt_read_string_with_len. */
  method ReadStringWithLen(buf: array<byte>, cur: nat, end: int) returns (rc: int, text: seq<byte>, next: nat)
    requires ReadString(buf[..], cur, end) != Undefined
    ensures ReadString(buf[..], cur, end) == if rc == SUCCESS then Ok(Piece(text, next)) else Err(rc)
  {
    rc, text, next := FAILURE, [], cur;
    if end - cur > 1 {
      var n := ReadU16(buf[..], cur);
      if cur + 2 + n <= end {
        text := buf[cur + 2..cur + 2 + n];
        next := cur + 2 + n;
        rc := SUCCESS;
      }
    }
  }

  /** The fixed header: a read position behind it, and where the packet ends. */
  method ReadFixedHeader(buf: array<byte>) returns (rc: int, start: nat, end: nat)
    requires ReadFixed(buf[..]) != Undefined
    ensures ReadFixed(buf[..]) == if rc == SUCCESS then Ok(Fixed(buf[0], start, end)) else Err(rc)
  {
    assert buf[..][1..] == buf[1..];
    var value, bytes;
    rc, value, bytes := DecodeRemainingLength(buf, 1);
    start := 1 + bytes;
    end := start + value;
  }

  /** aws_iot_mqtt_internal_deserialize_publish, on a buffer that holds the packet it parses. */
  method DeserializePublish(buf: array<byte>) returns (r: Parsed<Publication>)
    requires ParsePublish(buf[..]) != Undefined
    ensures r == ParsePublish(buf[..])
  {
    if 4 > buf.Length {
      return Err(MQTT_RX_BUFFER_TOO_SHORT_ERROR);
    }
    var header := buf[0];
    if header / 16 != PUBLISH {
      return Err(FAILURE);
    }
    var dup, qos, retained := header / 8 % 2, header / 2 % 4, header % 2;
    var rc, cur, end := ReadFixedHeader(buf);
    if rc != SUCCESS {
      return Err(rc);
    }
    var topic;
    rc, topic, cur := ReadStringWithLen(buf, cur, end);
    if rc != SUCCESS || 0 > end - cur {
      return Err(FAILURE);
    }
    var id := None;
    if qos != 0 {
      id := Some(ReadU16(buf[..], cur));
      cur := cur + 2;
    }
    r := Ok(Publication(dup, qos, retained, id, topic, buf[cur..end]));
  }

  /** aws_iot_mqtt_internal_deserialize_ack, on a buffer that holds the packet it parses. */
  method DeserializeAck(buf: array<byte>) returns (r: Parsed<Ack>)
    requires ParseAck(buf[..]) != Undefined
    ensures r == ParseAck(buf[..])
  {
    if 4 > buf.Length {
      return Err(MQTT_RX_BUFFER_TOO_SHORT_ERROR);
    }
    var rc, cur, end := ReadFixedHeader(buf);
    if rc != SUCCESS {
      return Err(rc);
    }
    if end - cur < 2 {
      return Err(FAILURE);
    }
    r := Ok(Ack(buf[0] / 16, buf[0] / 8 % 2, ReadU16(buf[..], cur)));
  }

  /** _aws_iot_mqtt_deserialize_suback, on a buffer that holds the packet it parses. */
  method DeserializeSuback(buf: array<byte>, maxExpected: nat) returns (r: Parsed<Suback>)
    requires ParseSuback(buf[..], maxExpected) != Undefined
    ensures r == ParseSuback(buf[..], maxExpected)
  {
    if 5 > buf.Length {
      return Err(MQTT_RX_BUFFER_TOO_SHORT_ERROR);
    }
    if buf[0] / 16 != SUBACK {
      return Err(FAILURE);
    }
    var rc, start, end := ReadFixedHeader(buf);
    if rc != SUCCESS {
      return Err(rc);
    }
    if end - start < 2 {
      return Err(FAILURE);
    }
    var id, cur := ReadU16(buf[..], start), start + 2;
    var granted: seq<byte> := [];
    while cur < end
      invariant start + 2 <= cur <= end && cur == start + 2 + |granted| && |granted| <= maxExpected + 1
      invariant cur <= buf.Length && granted == buf[start + 2..cur]
    {
      if |granted| > maxExpected {
        return Err(FAILURE);
      }
      granted := granted + [buf[cur]];
      cur := cur + 1;
    }
    r := Ok(Suback(id, granted));
  }
}
