/** The packets on concrete bytes: what the sections of the MQTT 3.1.1 standard say, written out. */
module MqttVectors {
  import opened MqttCodes
  import opened Octets
  import opened MqttWire
  import opened MqttRequests

  // ----- remaining length -----

  /** Section 2.2.3: the low seven bits of the bytes are digits to the base 128, the first one lowest. */
  function Weighted(s: seq<byte>): nat {
    if s == [] then 0 else s[0] % 128 + 128 * Weighted(s[1..])
  }

  /** The digits make up the length, and the top bit is set in all bytes but the last. */
  lemma {:induction false} LengthDigits(n: nat)
    ensures var s := EncodeLen(n);
            Weighted(s) == n && s[|s| - 1] < 128 && forall i :: 0 <= i < |s| - 1 ==> s[i] >= 128
    decreases n
  {
    if n < 128 {
      assert [n][1..] == [];
    } else {
      var b: byte := n % 128 + 128;
      LengthDigits(n / 128);
      assert ([b] + EncodeLen(n / 128))[1..] == EncodeLen(n / 128);
    }
  }

  /** Table 2.4: the borders between lengths of one, two, three and four bytes. */
  lemma LengthTable()
    ensures EncodeLen(0) == [0x00] && EncodeLen(127) == [0x7F]
    ensures EncodeLen(128) == [0x80, 0x01] && EncodeLen(16383) == [0xFF, 0x7F]
    ensures EncodeLen(16384) == [0x80, 0x80, 0x01] && EncodeLen(2097151) == [0xFF, 0xFF, 0x7F]
    ensures EncodeLen(2097152) == [0x80, 0x80, 0x80, 0x01] && EncodeLen(268435455) == [0xFF, 0xFF, 0xFF, 0x7F]
    ensures EncodeLen(321) == [193, 2]
  {
    assert EncodeLen(1) == [1] && EncodeLen(127) == [127];
    assert EncodeLen(128) == [128] + EncodeLen(1) && EncodeLen(16383) == [255] + EncodeLen(127);
    assert EncodeLen(16384) == [128] + EncodeLen(128) && EncodeLen(2097151) == [255] + EncodeLen(16383);
    assert EncodeLen(2097152) == [128] + EncodeLen(16384) && EncodeLen(268435455) == [255] + EncodeLen(2097151);
    assert EncodeLen(321) == [193] + EncodeLen(2);
  }

  /** Section 1.5.2: big endian. */
  lemma TwoBytes(n: nat)
    requires n < 65536
    ensures U16(n)[0] as int * 256 + U16(n)[1] as int == n
    ensures U16(0x1234) == [0x12, 0x34] && ReadU16([0x12, 0x34], 0) == 0x1234
  {
  }

  /** Section 1.5.3: "A" and a letter of four bytes, behind their length. */
  lemma StringExample()
    ensures Str([0x41, 0xF0, 0xAA, 0x9B, 0x94]) == [0x00, 0x05, 0x41, 0xF0, 0xAA, 0x9B, 0x94]
  {
  }

  // ----- packets -----

  /** Section 3.3: a PUBLISH to "a/b" with identifier 10, QoS 1 and a payload, and one with QoS 0. */
  lemma PublishExample()
    ensures PublishPacket(Message(false, true, false, 10, [0x61, 0x2F, 0x62], [7, 8]))
         == [0x32, 9, 0x00, 0x03, 0x61, 0x2F, 0x62, 0x00, 0x0A, 7, 8]
    ensures PublishPacket(Message(true, false, true, 10, [0x61, 0x2F, 0x62], [7])) == [0x39, 6, 0x00, 0x03, 0x61, 0x2F, 0x62, 7]
  {
  }

  lemma PublishReadExample()
    ensures ParsePublish([0x3A, 9, 0x00, 0x03, 0x61, 0x2F, 0x62, 0x00, 0x0A, 7, 8])
         == Ok(Publication(1, 1, 0, Some(10), [0x61, 0x2F, 0x62], [7, 8]))
  {
    var s: seq<byte> := [0x3A, 9, 0x00, 0x03, 0x61, 0x2F, 0x62, 0x00, 0x0A, 7, 8];
    assert s[1..] == [9] + s[2..];
    assert DecodeLen(s[1..], 0, 1, 0) == Length(9, 1);
    assert s[4..7] == [0x61, 0x2F, 0x62];
    assert ReadString(s, 2, 11) == Ok(Piece([0x61, 0x2F, 0x62], 7));
    assert s[9..11] == [7, 8];
  }

  /** Sections 3.4, 3.6 and 3.11: PUBACK, PUBREL with its reserved bits, UNSUBACK. */
  lemma AckExamples()
    ensures AckPacket(PUBACK, false, 0x1234) == [0x40, 2, 0x12, 0x34]
    ensures AckPacket(PUBREL, false, 0x1234) == [0x62, 2, 0x12, 0x34]
    ensures AckPacket(UNSUBACK, false, 10) == [0xB0, 2, 0x00, 0x0A]
    ensures ParseAck([0x40, 2, 0x12, 0x34]) == Ok(Ack(PUBACK, 0, 0x1234))
  {
    var s: seq<byte> := [0x40, 2, 0x12, 0x34];
    assert s[1..] == [2, 0x12, 0x34];
    assert DecodeLen(s[1..], 0, 1, 0) == Length(2, 1);
  }

  /** Section 3.8.3: "a/b" with QoS 1 and "c/d" with QoS 2. */
  lemma SubscribeExample(filters: seq<Filter>)
    requires filters == [Filter([0x61, 0x2F, 0x62], 1), Filter([0x63, 0x2F, 0x64], 2)]
    ensures ShortFilters(filters) && Filters(filters) == [0, 3, 0x61, 0x2F, 0x62, 1, 0, 3, 0x63, 0x2F, 0x64, 2]
    ensures SubscribePacket(false, 10, filters) == [0x82, 14, 0x00, 0x0A] + Filters(filters)
  {
    ExampleFilters(filters);
    assert |SubscribeBody(10, filters)| == 14;
    hide Filters;
    assert EncodeLen(14) == [14];
  }

  lemma ExampleFilters(filters: seq<Filter>)
    requires filters == [Filter([0x61, 0x2F, 0x62], 1), Filter([0x63, 0x2F, 0x64], 2)]
    ensures ShortFilters(filters) && Filters(filters) == [0, 3, 0x61, 0x2F, 0x62, 1, 0, 3, 0x63, 0x2F, 0x64, 2]
  {
    var f, g := Filter([0x61, 0x2F, 0x62], 1), Filter([0x63, 0x2F, 0x64], 2);
    assert filters[1..] == [g] && [g][1..] == [];
    assert Filters([g]) == OneFilter(g) + [];
    assert OneFilter(f) == [0, 3, 0x61, 0x2F, 0x62, 1] && OneFilter(g) == [0, 3, 0x63, 0x2F, 0x64, 2];
    hide OneFilter;
  }

  /** Section 3.10.3. */
  lemma UnsubscribeExample()
    ensures UnsubscribePacket(false, 10, [[0x61, 0x2F, 0x62], [0x63, 0x2F, 0x64]])
         == [0xA2, 12, 0x00, 0x0A, 0x00, 0x03, 0x61, 0x2F, 0x62, 0x00, 0x03, 0x63, 0x2F, 0x64]
  {
    var f: seq<byte>, g: seq<byte> := [0x61, 0x2F, 0x62], [0x63, 0x2F, 0x64];
    assert [f, g][1..] == [g] && [g][1..] == [];
    assert Strs([g]) == Str(g) + [];
    assert Strs([f, g]) == [0x00, 0x03, 0x61, 0x2F, 0x62] + [0x00, 0x03, 0x63, 0x2F, 0x64];
  }

  /** Section 3.1: a CONNECT with a will of QoS 1, a user name and a password, 10 seconds of keep-alive. */
  lemma ConnectExample(p: ConnectParams)
    requires p == ConnectParams(true, 10, [0x63], Some(Will([0x77], [0x6D], true, false)), Some([0x75]), Some([0x70]))
    ensures p.Valid() && ConnectHead(p) == [0x00, 0x04, 0x4D, 0x51, 0x54, 0x54, 0x04, 0xCE, 0x00, 0x0A]
    ensures Strs(p.Texts()) == [0, 1, 0x63, 0, 1, 0x77, 0, 1, 0x6D, 0, 1, 0x75, 0, 1, 0x70]
    ensures ConnectPacket(p) == [0x10, 25] + ConnectHead(p) + Strs(p.Texts())
  {
    ExampleHead(p);
    ExampleTexts(p);
    assert |ConnectBody(p)| == 25;
    hide Strs, ConnectHead;
    assert EncodeLen(25) == [25];
  }

  lemma ExampleTexts(p: ConnectParams)
    requires p == ConnectParams(true, 10, [0x63], Some(Will([0x77], [0x6D], true, false)), Some([0x75]), Some([0x70]))
    ensures p.Valid() && Strs(p.Texts()) == [0, 1, 0x63, 0, 1, 0x77, 0, 1, 0x6D, 0, 1, 0x75, 0, 1, 0x70]
  {
    FiveStrings([0x63], [0x77], [0x6D], [0x75], [0x70]);
    ExampleStrings();
    assert p.Texts() == [[0x63], [0x77], [0x6D], [0x75], [0x70]];
    hide Strs, Str;
  }

  lemma ExampleHead(p: ConnectParams)
    requires p == ConnectParams(true, 10, [0x63], Some(Will([0x77], [0x6D], true, false)), Some([0x75]), Some([0x70]))
    ensures p.Valid() && ConnectHead(p) == [0x00, 0x04, 0x4D, 0x51, 0x54, 0x54, 0x04, 0xCE, 0x00, 0x0A]
  {
  }

  lemma ExampleStrings()
    ensures Str([0x63]) == [0x00, 0x01, 0x63] && Str([0x77]) == [0x00, 0x01, 0x77] && Str([0x6D]) == [0x00, 0x01, 0x6D]
    ensures Str([0x75]) == [0x00, 0x01, 0x75] && Str([0x70]) == [0x00, 0x01, 0x70]
  {
  }

  lemma FiveStrings(a: seq<byte>, b: seq<byte>, c: seq<byte>, d: seq<byte>, e: seq<byte>)
    requires Short([a, b, c, d, e])
    ensures |a| < 65536 && |b| < 65536 && |c| < 65536 && |d| < 65536 && |e| < 65536
    ensures Strs([a, b, c, d, e]) == Str(a) + Str(b) + Str(c) + Str(d) + Str(e)
  {
    var all := [a, b, c, d, e];
    assert |all[0]| < 65536 && |all[1]| < 65536 && |all[2]| < 65536 && |all[3]| < 65536 && |all[4]| < 65536;
    hide Strs, Str;
    OneString(a);
    OneString(b);
    OneString(c);
    OneString(d);
    OneString(e);
    StrsAppend([a], [b]);
    StrsAppend([a, b], [c]);
    StrsAppend([a, b, c], [d]);
    StrsAppend([a, b, c, d], [e]);
    assert [a] + [b] == [a, b] && [a, b] + [c] == [a, b, c] && [a, b, c] + [d] == [a, b, c, d] && [a, b, c, d] + [e] == all;
  }

  /** Sections 3.9 and 3.2: a SUBACK with the codes 0 and 0x80, and a CONNACK that refuses. */
  lemma AnswersExample()
    ensures ParseSuback([0x90, 4, 0x00, 0x0A, 0x00, 0x80], 2) == Ok(Suback(10, [0x00, 0x80]))
    ensures ParseConnack([0x20, 2, 0x00, 0x05]) == Ok(Connack(0, 5))
  {
    var s: seq<byte>, c: seq<byte> := [0x90, 4, 0x00, 0x0A, 0x00, 0x80], [0x20, 2, 0x00, 0x05];
    assert s[1..] == [4, 0x00, 0x0A, 0x00, 0x80] && c[1..] == [2, 0x00, 0x05];
    assert DecodeLen(s[1..], 0, 1, 0) == Length(4, 1) && DecodeLen(c[1..], 0, 1, 0) == Length(2, 1);
    assert s[4..6] == [0x00, 0x80];
  }

  // ----- states -----

  /** The states that count as connected are those that are neither before, between nor after connections; a connection
      can be started in four of the others. */
  lemma StatesOfConnection(s: ClientState)
    ensures s.Connected() <==> s !in {Invalid, Initialized, Connecting, Disconnecting,
                                      DisconnectedError, DisconnectedManually, PendingReconnect}
    ensures s.ValidForConnect() <==> !s.Connected() && s !in {Invalid, Connecting, Disconnecting}
  {
  }
}
