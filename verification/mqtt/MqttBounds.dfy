/** The inputs on which the packet parsers read behind the buffer they were given. */
module MqttBounds {
  import opened MqttCodes
  import opened Octets
  import opened MqttWire
  import opened MqttRequests

  /** Decoding a remaining length runs off the buffer exactly if that holds fewer than four bytes and every one of
      them announces another. */
  lemma {:induction false} LengthCut(s: seq<byte>, k: nat, multiplier: nat, acc: nat)
    requires k <= MAX_REMAINING_LENGTH_BYTES
    ensures DecodeLen(s, k, multiplier, acc) == OffEnd <==> k < 4 && |s| < 4 && forall i :: k <= i < |s| ==> s[i] >= 128
    decreases MAX_REMAINING_LENGTH_BYTES - k
  {
    if k < MAX_REMAINING_LENGTH_BYTES && k < |s| && s[k] >= 128 {
      Scale(s[k] % 128, multiplier);
      LengthCut(s, k + 1, multiplier * 128, acc + (s[k] % 128) * multiplier);
    }
  }

  /** The remaining length declared behind the first byte. */
  function Declared(s: seq<byte>): Decoded
    requires s != []
  {
    DecodeLen(s[1..], 0, 1, 0)
  }

  lemma DeclaredCut(s: seq<byte>)
    requires |s| >= 4
    ensures Declared(s) == OffEnd <==> |s| == 4 && s[1] >= 128 && s[2] >= 128 && s[3] >= 128
  {
    var t := s[1..];
    LengthCut(t, 0, 1, 0);
    assert forall i :: 0 <= i < |t| ==> t[i] == s[i + 1];
  }

  /** An acknowledgement, whatever its type: the length bytes run off, or the two bytes behind them do. */
  lemma AckCut(s: seq<byte>)
    ensures ParseAck(s) == Undefined <==>
            |s| >= 4 && match Declared(s)
                        case OffEnd => true
                        case TooLong => false
                        case Length(value, bytes) => value >= 2 && 1 + bytes + 2 > |s|
  {
    hide DecodeLen;
  }

  lemma ConnackCut(s: seq<byte>)
    ensures ParseConnack(s) == Undefined <==> |s| >= 4 && s[0] / 16 == CONNACK && ParseAck(s) == Undefined
  {
    hide DecodeLen;
  }

  /** A SUBACK: the codes up to the declared end, or up to the one too many, run off. */
  lemma SubackCut(s: seq<byte>, maxExpected: nat)
    ensures ParseSuback(s, maxExpected) == Undefined <==>
            |s| >= 5 && s[0] / 16 == SUBACK && Declared(s).Length? && Declared(s).value >= 2
            && 1 + Declared(s).bytes + 2 + (if Declared(s).value - 2 <= maxExpected + 1 then Declared(s).value - 2
                                            else maxExpected + 1) > |s|
  {
    if |s| >= 5 {
      DeclaredCut(s);
    }
    hide DecodeLen;
  }

  /** Where a string ends whose length is at start. */
  function StringEnd(s: seq<byte>, start: nat): nat
    requires start + 2 <= |s|
  {
    start + 2 + ReadU16(s, start)
  }

  /** A string: its length runs off, or the string does although it fits the declared end. */
  lemma StringCut(s: seq<byte>, cur: nat, end: int)
    ensures ReadString(s, cur, end) == Undefined <==>
            end - cur >= 2 && (cur + 2 > |s| || |s| < StringEnd(s, cur) <= end)
  {
  }

  /** A PUBLISH: the length bytes or the topic's length run off; or the topic fits the declared end, and that lies
      behind the buffer or leaves no room for the packet id that a QoS above 0 asks for. */
  lemma PublishCut(s: seq<byte>)
    ensures ParsePublish(s) == Undefined <==>
            |s| >= 4 && s[0] / 16 == PUBLISH
            && match Declared(s)
               case OffEnd => true
               case TooLong => false
               case Length(value, bytes) =>
                 var start, end := 1 + bytes, 1 + bytes + value;
                 value >= 2 && (start + 2 > |s|
                                || (StringEnd(s, start) <= end
                                    && (end > |s| || (s[0] / 2 % 4 != 0 && StringEnd(s, start) + 2 > end))))
  {
    hide DecodeLen;
  }

  /** A buffer that holds the packet it declares is safe for every parser but that of PUBLISH, which reads a packet
      id behind the end when QoS is above 0 and fewer than two bytes follow the topic. */
  lemma WholePackets(s: seq<byte>, maxExpected: nat)
    requires ReadFixed(s).Ok? && ReadFixed(s).value.end <= |s|
    ensures ParseAck(s) != Undefined && ParseConnack(s) != Undefined && ParseSuback(s, maxExpected) != Undefined
    ensures ParsePublish(s) == Undefined <==>
            |s| >= 4 && s[0] / 16 == PUBLISH && s[0] / 2 % 4 != 0
            && var f := ReadFixed(s).value; f.start + 2 <= f.end && StringEnd(s, f.start) <= f.end < StringEnd(s, f.start) + 2
  {
    hide DecodeLen;
  }

  /** QoS 1, a topic of two bytes, and nothing behind it. */
  lemma NoPacketId()
    ensures ParsePublish([0x32, 4, 0, 2, 97, 98]) == Undefined
  {
    var s: seq<byte> := [0x32, 4, 0, 2, 97, 98];
    assert s[1..][0] == 4;
    assert Declared(s) == Length(4, 1);
    assert StringEnd(s, 2) == 6;
    PublishCut(s);
  }
}
