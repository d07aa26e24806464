/** MQTT 3.1.1 packets as byte sequences: what the serializers write, what the parsers read, and their laws. */
module MqttWire {
  import opened MqttCodes
  import opened Octets

  // ----- remaining length (section 2.2.3) -----

  /** Seven bits per byte, lowest first, the top bit marking that more follow. */
  function EncodeLen(n: nat): (s: seq<byte>)
    ensures |s| > 0
  {
    if n < 128 then [n] else [n % 128 + 128] + EncodeLen(n / 128)
  }

  datatype Decoded = Length(value: nat, bytes: nat) | TooLong | OffEnd

  const MAX_REMAINING_LENGTH_BYTES: nat := 4

  /** The decoding loop after k bytes; OffEnd is a read behind the buffer. */
  function DecodeLen(s: seq<byte>, k: nat, multiplier: nat, acc: nat): (r: Decoded)
    requires k <= MAX_REMAINING_LENGTH_BYTES
    ensures r.Length? ==> k < r.bytes <= |s|
    decreases MAX_REMAINING_LENGTH_BYTES - k
  {
    if k == MAX_REMAINING_LENGTH_BYTES then TooLong
    else if k >= |s| then OffEnd
    else
      Scale(s[k] % 128, multiplier);
      var acc' := acc + (s[k] % 128) * multiplier;
      if s[k] >= 128 then DecodeLen(s, k + 1, multiplier * 128, acc') else Length(acc', k + 1)
  }

  lemma Scale(a: int, b: int)
    requires a >= 0 && b >= 0
    ensures a * b >= 0
  {
  }

  /** Decoding picks up an encoded length behind any first k bytes. */
  lemma {:induction false} DecodeEncoded(front: seq<byte>, n: nat, rest: seq<byte>, multiplier: nat, acc: nat)
    requires |front| <= MAX_REMAINING_LENGTH_BYTES
    ensures n * multiplier >= 0
    ensures DecodeLen(front + EncodeLen(n) + rest, |front|, multiplier, acc)
         == if |front| + |EncodeLen(n)| <= MAX_REMAINING_LENGTH_BYTES
            then Length(acc + n * multiplier, |front| + |EncodeLen(n)|) else TooLong
    decreases n
  {
    Scale(n, multiplier);
    var s := front + EncodeLen(n) + rest;
    if |front| < MAX_REMAINING_LENGTH_BYTES {
      if n < 128 {
        assert s[|front|] == n;
      } else {
        var b: byte := n % 128 + 128;
        assert s[|front|] == b && b % 128 == n % 128;
        assert s == (front + [b]) + EncodeLen(n / 128) + rest;
        DecodeEncoded(front + [b], n / 128, rest, multiplier * 128, acc + (n % 128) * multiplier);
        DigitSum(n, multiplier);
      }
    }
  }

  lemma DigitSum(n: nat, m: nat)
    ensures (n % 128) * m + (n / 128) * (m * 128) == n * m
  {
    var q, r := n / 128, n % 128;
    assert (q * 128 + r) * m == q * 128 * m + r * m;
  }

  /** How many bytes a length takes. */
  lemma EncodedSize(n: nat)
    ensures |EncodeLen(n)| == 1 <==> n < 128
    ensures |EncodeLen(n)| <= 2 <==> n < 16384
    ensures |EncodeLen(n)| <= 3 <==> n < 2097152
    ensures |EncodeLen(n)| <= 4 <==> n < 268435456
    ensures n < 0x1_0000_0000 ==> |EncodeLen(n)| <= 5
  {
    if n >= 128 {
      EncodedSizeStep(n / 128);
      assert n / 128 < 128 <==> n < 16384;
      assert n / 128 < 16384 <==> n < 2097152;
      assert n / 128 < 2097152 <==> n < 268435456;
    }
  }

  lemma EncodedSizeStep(n: nat)
    ensures |EncodeLen(n)| <= 1 <==> n < 128
    ensures |EncodeLen(n)| <= 2 <==> n < 16384
    ensures |EncodeLen(n)| <= 3 <==> n < 2097152
    ensures n < 268435456 ==> |EncodeLen(n)| <= 4
  {
    if n >= 128 {
      var m := n / 128;
      if m >= 128 {
        var l := m / 128;
        if l >= 128 {
          var j := l / 128;
          assert n < 268435456 ==> j < 128;
        }
      }
    }
  }

  /** Decoding undoes encoding exactly for the lengths below 2^28; a longer one is refused. */
  lemma LengthRoundTrip(n: nat, rest: seq<byte>)
    ensures DecodeLen(EncodeLen(n) + rest, 0, 1, 0)
         == if n < 268435456 then Length(n, |EncodeLen(n)|) else TooLong
  {
    EncodedSize(n);
    DecodeEncoded([], n, rest, 1, 0);
    assert [] + EncodeLen(n) + rest == EncodeLen(n) + rest;
  }

  /** aws_iot_mqtt_internal_get_final_packet_length_from_remaining_length. */
  function FinalLength(remLen: nat): nat {
    var n := remLen + 1;
    if n < 128 then n + 1 else if n < 16384 then n + 2 else if n < 2097152 then n + 3 else n + 4
  }

  /** The length a packet has. */
  function PacketSize(remLen: nat): nat {
    1 + |EncodeLen(remLen)| + remLen
  }

  /** The pre-check length is the size, or one more just below the three length boundaries. */
  lemma FinalLengthBound(remLen: nat)
    requires remLen < 268435456
    ensures FinalLength(remLen)
         == PacketSize(remLen) + if remLen == 127 || remLen == 16383 || remLen == 2097151 then 1 else 0
  {
    EncodedSize(remLen);
  }

  /** From 2^28 on, where no length of four bytes exists, the pre-check falls short of what is written. */
  lemma FinalLengthShort(remLen: nat)
    ensures FinalLength(remLen) >= PacketSize(remLen) <==> remLen < 268435456
  {
    EncodedSize(remLen);
    if remLen < 268435456 {
      FinalLengthBound(remLen);
    }
  }

  /** A buffer that passes the pre-check holds the packet. */
  predicate Covered(remLen: nat, size: nat) {
    FinalLength(remLen) <= size ==> PacketSize(remLen) <= size
  }

  /** It fails to for one size of buffer alone, and only from 2^28 on. */
  lemma CoveredExactly(remLen: nat, size: nat)
    requires remLen < 0x1_0000_0000
    ensures Covered(remLen, size) <==> remLen < 268435456 || size != remLen + 5
  {
    EncodedSize(remLen);
    FinalLengthShort(remLen);
  }

  // ----- integers and strings -----

  function U16(n: nat): (s: seq<byte>)
    requires n < 65536
    ensures |s| == 2
  {
    [n / 256, n % 256]
  }

  function Str(t: seq<byte>): (s: seq<byte>)
    requires |t| < 65536
    ensures |s| == |t| + 2
  {
    U16(|t|) + t
  }

  /** The two bytes at i. */
  function ReadU16(s: seq<byte>, i: nat): (n: nat)
    requires i + 2 <= |s|
    ensures n < 65536
  {
    (s[i + 1] as int) + 256 * (s[i] as int)
  }

  lemma ReadU16Of(front: seq<byte>, n: nat, rest: seq<byte>)
    requires n < 65536
    ensures ReadU16(front + U16(n) + rest, |front|) == n
  {
    var s := front + U16(n) + rest;
    assert s[|front|] == n / 256 && s[|front| + 1] == n % 256;
  }

  /** Results of the parsers; Undefined is a read behind the buffer or the declared end of the packet. */
  datatype Parsed<T> = Ok(value: T) | Err(code: int) | Undefined

  /** A string and the position behind it. */
  datatype Piece = Piece(text: seq<byte>, next: nat)

  /** _aws_iot_mqtt_read_string_with_len. */
  function ReadString(s: seq<byte>, cur: nat, end: int): (r: Parsed<Piece>)
    ensures r.Ok? ==> cur + 2 <= r.value.next <= |s| && r.value.next <= end
  {
    if end - cur <= 1 then Err(FAILURE)
    else if cur + 2 > |s| then Undefined
    else
      var n := ReadU16(s, cur);
      if cur + 2 + n > end then Err(FAILURE)
      else if cur + 2 + n > |s| then Undefined
      else Ok(Piece(s[cur + 2..cur + 2 + n], cur + 2 + n))
  }

  lemma ReadStringOf(front: seq<byte>, t: seq<byte>, rest: seq<byte>, end: int)
    requires |t| < 65536 && |front| + 2 + |t| <= end
    ensures ReadString(front + Str(t) + rest, |front|, end) == Ok(Piece(t, |front| + 2 + |t|))
  {
    var s := front + Str(t) + rest;
    assert s == front + U16(|t|) + (t + rest);
    ReadU16Of(front, |t|, t + rest);
    assert s[|front| + 2..|front| + 2 + |t|] == t;
  }

  // ----- headers -----

  /** The bits of MQTTHeader: retain, two bits of QoS, dup, four bits of type. */
  function Header(kind: nat, qos1: bool, dup: bool, retained: bool): (h: byte)
    requires kind < 16
    ensures h / 16 == kind && h / 8 % 2 == Bit(dup) && h / 2 % 4 == Bit(qos1) && h % 2 == Bit(retained)
  {
    var high := 2 * kind + Bit(dup);
    var h := 8 * high + 2 * Bit(qos1) + Bit(retained);
    assert h / 8 == high && h / 16 == high / 2;
    assert h / 2 == 4 * high + Bit(qos1);
    h
  }

  function Bit(b: bool): (n: nat)
    ensures n < 2
  {
    if b then 1 else 0
  }

  /** Header byte, remaining length, and what it counts. */
  function Packet(header: byte, body: seq<byte>): (s: seq<byte>)
    ensures |s| == PacketSize(|body|)
  {
    [header] + EncodeLen(|body|) + body
  }

  /** The fixed header of a packet: its first byte, and the start and end of its body. */
  datatype Fixed = Fixed(header: byte, start: nat, end: nat)

  function ReadFixed(s: seq<byte>): (r: Parsed<Fixed>)
    ensures r.Ok? ==> 1 < r.value.start <= |s| && r.value.start <= r.value.end && r.value.header == s[0]
    ensures r.Err? ==> r.code == MQTT_DECODE_REMAINING_LENGTH_ERROR
  {
    if s == [] then Undefined else
    match DecodeLen(s[1..], 0, 1, 0)
    case Length(value, bytes) => Ok(Fixed(s[0], 1 + bytes, 1 + bytes + value))
    case TooLong => Err(MQTT_DECODE_REMAINING_LENGTH_ERROR)
    case OffEnd => Undefined
  }

  /** Whatever follows it, a packet's header and body are found again, exactly when the body is shorter than 2^28. */
  lemma FixedRoundTrip(header: byte, body: seq<byte>, rest: seq<byte>)
    ensures var s, e := Packet(header, body) + rest, |EncodeLen(|body|)|;
            if |body| < 268435456
            then ReadFixed(s) == Ok(Fixed(header, 1 + e, 1 + e + |body|)) && s[1 + e..1 + e + |body|] == body
            else ReadFixed(s) == Err(MQTT_DECODE_REMAINING_LENGTH_ERROR)
  {
    var s := Packet(header, body) + rest;
    assert s[1..] == EncodeLen(|body|) + (body + rest);
    LengthRoundTrip(|body|, body + rest);
  }

  // ----- PUBLISH (section 3.3) -----

  datatype Message = Message(dup: bool, qos1: bool, retained: bool, id: nat, topic: seq<byte>, payload: seq<byte>) {
    predicate Valid() {
      |topic| < 65536 && id < 65536
    }
  }

  function PublishBody(m: Message): (s: seq<byte>)
    requires m.Valid()
    ensures |s| == |m.topic| + |m.payload| + 2 + if m.qos1 then 2 else 0
  {
    Str(m.topic) + (if m.qos1 then U16(m.id) else []) + m.payload
  }

  function PublishPacket(m: Message): seq<byte>
    requires m.Valid()
  {
    Packet(Header(PUBLISH, m.qos1, m.dup, m.retained), PublishBody(m))
  }

  /** What aws_iot_mqtt_internal_deserialize_publish stores; it leaves the packet id alone for QoS 0. */
  datatype Publication = Publication(dup: nat, qos: nat, retained: nat, id: Option<nat>, topic: seq<byte>, payload: seq<byte>)

  datatype Option<T> = None | Some(value: T)

  function ParsePublish(s: seq<byte>): Parsed<Publication> {
    if |s| < 4 then Err(MQTT_RX_BUFFER_TOO_SHORT_ERROR)
    else if s[0] / 16 != PUBLISH then Err(FAILURE)
    else
      match ReadFixed(s)
      case Undefined => Undefined
      case Err(code) => Err(code)
      case Ok(f) =>
        match ReadString(s, f.start, f.end)
        case Undefined => Undefined
        case Err(code) => Err(code)
        case Ok(topic) => ParsePayload(s, topic, f.end)
  }

  /** The rest of a PUBLISH after its topic. */
  function ParsePayload(s: seq<byte>, topic: Piece, end: int): Parsed<Publication>
    requires |s| > 0 && topic.next <= |s|
  {
    var dup, qos, retained := s[0] / 8 % 2, s[0] / 2 % 4, s[0] % 2;
    if qos == 0 then
      if topic.next <= end <= |s| then
        Ok(Publication(dup, qos, retained, None, topic.text, s[topic.next..end]))
      else Undefined
    else if topic.next + 2 <= end <= |s| then
      Ok(Publication(dup, qos, retained, Some(ReadU16(s, topic.next)), topic.text, s[topic.next + 2..end]))
    else Undefined
  }

  function Sent(m: Message): Publication {
    Publication(Bit(m.dup), Bit(m.qos1), Bit(m.retained), if m.qos1 then Some(m.id) else None, m.topic, m.payload)
  }

  /** The parts of a serialized PUBLISH. */
  function PublishTail(m: Message): seq<byte>
    requires m.Valid()
  {
    (if m.qos1 then U16(m.id) else []) + m.payload
  }

  lemma PublishParts(m: Message, front: seq<byte>, rest: seq<byte>)
    requires m.Valid()
    requires front == [Header(PUBLISH, m.qos1, m.dup, m.retained)] + EncodeLen(|PublishBody(m)|)
    ensures PublishPacket(m) + rest == front + Str(m.topic) + (PublishTail(m) + rest)
    ensures PublishPacket(m) + rest == front + Str(m.topic) + PublishTail(m) + rest
    ensures |PublishBody(m)| == |m.topic| + 2 + |PublishTail(m)| && |PublishPacket(m)| >= 4
  {
    assert PublishBody(m) == Str(m.topic) + PublishTail(m);
  }

  /** A serialized PUBLISH parses back to all its fields, whatever follows it in the buffer. */
  lemma PublishRoundTrip(m: Message, rest: seq<byte>)
    requires m.Valid()
    ensures ParsePublish(PublishPacket(m) + rest)
         == if |PublishBody(m)| < 268435456 then Ok(Sent(m)) else Err(MQTT_DECODE_REMAINING_LENGTH_ERROR)
  {
    hide EncodeLen, ReadFixed, ReadString, ParsePayload, PublishTail, PublishBody, Packet, Str;
    var h, body := Header(PUBLISH, m.qos1, m.dup, m.retained), PublishBody(m);
    var s, front := PublishPacket(m) + rest, [h] + EncodeLen(|body|);
    FixedRoundTrip(h, body, rest);
    PublishParts(m, front, rest);
    assert s[0] == h && |s| >= 4;
    if |body| < 268435456 {
      var end, topic := |front| + |body|, Piece(m.topic, |front| + 2 + |m.topic|);
      assert ReadFixed(s) == Ok(Fixed(h, |front|, end));
      ReadStringOf(front, m.topic, PublishTail(m) + rest, end);
      assert ReadString(s, |front|, end) == Ok(topic);
      PayloadRoundTrip(m, front + Str(m.topic), rest);
      assert ParsePayload(s, topic, end) == Ok(Sent(m));
    }
  }

  lemma PayloadRoundTrip(m: Message, front: seq<byte>, rest: seq<byte>)
    requires m.Valid() && |front| > 0 && front[0] == Header(PUBLISH, m.qos1, m.dup, m.retained)
    ensures var tail := PublishTail(m);
            ParsePayload(front + tail + rest, Piece(m.topic, |front|), |front| + |tail|) == Ok(Sent(m))
  {
    var tail := PublishTail(m);
    var s := front + tail + rest;
    assert s[0] == front[0];
    if m.qos1 {
      assert s == front + U16(m.id) + (m.payload + rest);
      ReadU16Of(front, m.id, m.payload + rest);
      assert s[|front| + 2..|front| + |tail|] == m.payload;
    } else {
      assert s[|front|..|front| + |tail|] == m.payload;
    }
  }

  // ----- acknowledgements (sections 3.4 to 3.7 and 3.11) -----

  const PUBREL: nat := 6

  function AckPacket(kind: nat, dup: bool, id: nat): seq<byte>
    requires 1 <= kind <= 14 && id < 65536
  {
    Packet(Header(kind, kind == PUBREL, dup, false), U16(id))
  }

  datatype Ack = Ack(kind: nat, dup: nat, id: nat)

  /** aws_iot_mqtt_internal_deserialize_ack. */
  function ParseAck(s: seq<byte>): Parsed<Ack> {
    if |s| < 4 then Err(MQTT_RX_BUFFER_TOO_SHORT_ERROR)
    else
      match ReadFixed(s)
      case Undefined => Undefined
      case Err(code) => Err(code)
      case Ok(f) =>
        if f.end - f.start < 2 then Err(FAILURE)
        else if f.start + 2 > |s| then Undefined
        else Ok(Ack(s[0] / 16, s[0] / 8 % 2, ReadU16(s, f.start)))
  }

  lemma AckRoundTrip(kind: nat, dup: bool, id: nat, rest: seq<byte>)
    requires 1 <= kind <= 14 && id < 65536
    ensures |AckPacket(kind, dup, id)| == 4
    ensures ParseAck(AckPacket(kind, dup, id) + rest) == Ok(Ack(kind, Bit(dup), id))
  {
    var h := Header(kind, kind == PUBREL, dup, false);
    var s := AckPacket(kind, dup, id) + rest;
    FixedRoundTrip(h, U16(id), rest);
    assert s == [h, 2] + U16(id) + rest;
    ReadU16Of([h, 2], id, rest);
  }
}
