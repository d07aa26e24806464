/** CONNECT, SUBSCRIBE and UNSUBSCRIBE as written, with readers that follow the standard; SUBACK and CONNACK as read. */
module MqttRequests {
  import opened MqttCodes
  import opened Octets
  import opened MqttWire

  // ----- lists of strings -----

  predicate Short(texts: seq<seq<byte>>) {
    forall i :: 0 <= i < |texts| ==> |texts[i]| < 65536
  }

  /** Length-prefixed strings, one after the other. */
  function Strs(texts: seq<seq<byte>>): seq<byte>
    requires Short(texts)
  {
    if texts == [] then [] else Str(texts[0]) + Strs(texts[1..])
  }

  /** All the strings from a position to the end. */
  function ReadStrs(s: seq<byte>, cur: nat): Parsed<seq<seq<byte>>>
    requires cur <= |s|
    decreases |s| - cur
  {
    if cur == |s| then Ok([])
    else
      match ReadString(s, cur, |s|)
      case Ok(piece) =>
        (match ReadStrs(s, piece.next)
         case Ok(texts) => Ok([piece.text] + texts)
         case Err(code) => Err(code)
         case Undefined => Undefined)
      case Err(code) => Err(code)
      case Undefined => Undefined
  }

  lemma OneMoreText(s: seq<byte>, cur: nat, texts: seq<seq<byte>>)
    requires texts != [] && var next := cur + 2 + |texts[0]|;
             next <= |s| && ReadString(s, cur, |s|) == Ok(Piece(texts[0], next)) && ReadStrs(s, next) == Ok(texts[1..])
    ensures ReadStrs(s, cur) == Ok(texts)
  {
    hide ReadString;
    assert texts == [texts[0]] + texts[1..];
  }

  lemma NoTexts(front: seq<byte>)
    ensures ReadStrs(front + Strs([]), |front|) == Ok([])
  {
  }

  lemma ShortCons(texts: seq<seq<byte>>)
    requires Short(texts) && texts != []
    ensures |texts[0]| < 65536 && Short(texts[1..])
  {
  }

  lemma StrsCons(front: seq<byte>, texts: seq<seq<byte>>)
    requires Short(texts) && texts != []
    ensures front + Strs(texts) == front + Str(texts[0]) + Strs(texts[1..])
  {
    hide Str;
  }

  lemma {:induction false} StrsRoundTrip(front: seq<byte>, texts: seq<seq<byte>>)
    requires Short(texts)
    ensures ReadStrs(front + Strs(texts), |front|) == Ok(texts)
    decreases |texts|
  {
    hide Short, Strs, ReadStrs, ReadString, Str;
    if texts != [] {
      ShortCons(texts);
      var t, tail, front' := texts[0], texts[1..], front + Str(texts[0]);
      var s := front' + Strs(tail);
      StrsCons(front, texts);
      ReadStringOf(front, t, Strs(tail), |s|);
      StrsRoundTrip(front', tail);
      OneMoreText(s, |front|, texts);
    } else {
      NoTexts(front);
    }
  }

  lemma ShortAppend(a: seq<seq<byte>>, b: seq<seq<byte>>)
    requires Short(a) && Short(b)
    ensures Short(a + b)
  {
  }

  lemma {:induction false} StrsAppend(a: seq<seq<byte>>, b: seq<seq<byte>>)
    requires Short(a) && Short(b)
    ensures Short(a + b) && Strs(a + b) == Strs(a) + Strs(b)
  {
    hide Short, Str, Strs;
    ShortAppend(a, b);
    if a == [] {
      StrsParts(a);
      assert a + b == b;
    } else {
      ShortCons(a);
      StrsAppend(a[1..], b);
      StrsParts(a);
      StrsParts(a + b);
      assert (a + b)[1..] == a[1..] + b;
      Regroup(Str(a[0]), Strs(a[1..]), Strs(b));
    }
  }

  lemma StrsParts(texts: seq<seq<byte>>)
    requires Short(texts)
    ensures Strs(texts) == if texts == [] then [] else Str(texts[0]) + Strs(texts[1..])
  {
  }

  lemma Regroup(a: seq<byte>, b: seq<byte>, c: seq<byte>)
    ensures a + (b + c) == (a + b) + c
  {
  }

  /** The sum the serializers form: each text and extra bytes around it. */
  function TotalLength(texts: seq<seq<byte>>, extra: nat): nat {
    if texts == [] then 0 else |texts[0]| + extra + TotalLength(texts[1..], extra)
  }

  lemma {:induction false} StrsLength(texts: seq<seq<byte>>)
    requires Short(texts)
    ensures |Strs(texts)| == TotalLength(texts, 2)
  {
    if texts != [] {
      StrsLength(texts[1..]);
    }
  }

  // ----- CONNECT (section 3.1) -----

  datatype Will = Will(topic: seq<byte>, message: seq<byte>, qos1: bool, retained: bool)

  datatype ConnectParams = ConnectParams(
    cleanSession: bool, keepAlive: nat, clientId: seq<byte>,
    will: Option<Will>, username: Option<seq<byte>>, password: Option<seq<byte>>)
  {
    predicate Valid() {
      keepAlive < 65536 && |clientId| < 65536
      && (will.Some? ==> |will.value.topic| < 65536 && |will.value.message| < 65536)
      && (username.Some? ==> |username.value| < 65536)
      && (password.Some? ==> |password.value| < 65536)
    }

    /** The strings after the variable header, in order. */
    function Texts(): (texts: seq<seq<byte>>)
      requires Valid()
      ensures Short(texts)
    {
      [clientId]
      + (if will.Some? then [will.value.topic, will.value.message] else [])
      + (if username.Some? then [username.value] else [])
      + (if password.Some? then [password.value] else [])
    }
  }

  const PROTOCOL: seq<byte> := [77, 81, 84, 84]

  /** Where the flags are found again in the byte they make. */
  lemma FlagBits(clean: nat, will: nat, qos: nat, retained: nat, password: nat, username: nat)
    requires clean < 2 && will < 2 && qos < 2 && retained < 2 && password < 2 && username < 2
    ensures var b := 2 * clean + 4 * will + 8 * qos + 32 * retained + 64 * password + 128 * username;
            && b % 2 == 0 && b / 2 % 2 == clean && b / 4 % 2 == will && b / 8 % 4 == qos && b / 32 % 2 == retained
            && b / 64 % 2 == password && b / 128 == username && b < 256
  {
    var b := 2 * clean + 4 * will + 8 * qos + 32 * retained + 64 * password + 128 * username;
    var e := retained + 2 * password + 4 * username;
    assert b / 32 == e && b / 64 == e / 2 && b / 128 == e / 4;
    assert b / 8 == qos + 4 * e;
    assert b / 4 == will + 2 * (qos + 4 * e);
  }

  function ConnectFlags(p: ConnectParams): (b: byte)
    ensures b % 2 == 0 && b / 2 % 2 == Bit(p.cleanSession) && b / 4 % 2 == Bit(p.will.Some?)
    ensures b / 8 % 4 == Bit(p.will.Some? && p.will.value.qos1) && b / 32 % 2 == Bit(p.will.Some? && p.will.value.retained)
    ensures b / 64 % 2 == Bit(p.password.Some?) && b / 128 == Bit(p.username.Some?)
  {
    var clean, will, password, username := Bit(p.cleanSession), Bit(p.will.Some?), Bit(p.password.Some?), Bit(p.username.Some?);
    var qos, retained := Bit(p.will.Some? && p.will.value.qos1), Bit(p.will.Some? && p.will.value.retained);
    FlagBits(clean, will, qos, retained, password, username);
    2 * clean + 4 * will + 8 * qos + 32 * retained + 64 * password + 128 * username
  }

  function ConnectHead(p: ConnectParams): (s: seq<byte>)
    requires p.Valid()
    ensures |s| == 10
  {
    Str(PROTOCOL) + [4] + [ConnectFlags(p)] + U16(p.keepAlive)
  }

  function ConnectBody(p: ConnectParams): seq<byte>
    requires p.Valid()
  {
    ConnectHead(p) + Strs(p.Texts())
  }

  function ConnectPacket(p: ConnectParams): seq<byte>
    requires p.Valid()
  {
    Packet(Header(CONNECT, false, false, false), ConnectBody(p))
  }

  /** _aws_iot_get_connect_packet_length. */
  function ConnectLength(p: ConnectParams): nat
    requires p.Valid()
  {
    10 + |p.clientId| + 2
    + (if p.will.Some? then |p.will.value.topic| + 2 + |p.will.value.message| + 2 else 0)
    + (if p.username.Some? then |p.username.value| + 2 else 0)
    + (if p.password.Some? then |p.password.value| + 2 else 0)
  }

  /** The declared length is the number of bytes that follow it. */
  lemma ConnectLengthExact(p: ConnectParams)
    requires p.Valid()
    ensures ConnectLength(p) == |ConnectBody(p)|
  {
    var a, b := [p.clientId], if p.will.Some? then [p.will.value.topic, p.will.value.message] else [];
    var c, d := if p.username.Some? then [p.username.value] else [], if p.password.Some? then [p.password.value] else [];
    StrsAppend(a, b);
    StrsAppend(a + b, c);
    StrsAppend(a + b + c, d);
    OneString(p.clientId);
    if p.will.Some? {
      OneString(p.will.value.topic);
      OneString(p.will.value.message);
      StrsAppend([p.will.value.topic], [p.will.value.message]);
    }
    if p.username.Some? {
      OneString(p.username.value);
    }
    if p.password.Some? {
      OneString(p.password.value);
    }
  }

  lemma OneString(t: seq<byte>)
    requires |t| < 65536
    ensures Strs([t]) == Str(t)
  {
    assert [t][1..] == [];
  }

  /** The standard's reader of a CONNECT body. */
  function ReadConnect(s: seq<byte>): Parsed<ConnectParams> {
    if |s| < 10 || s[..6] != Str(PROTOCOL) || s[6] != 4 || s[7] % 2 != 0 then Err(FAILURE)
    else
      match ReadStrs(s, 10)
      case Err(code) => Err(code)
      case Undefined => Undefined
      case Ok(texts) =>
        var w, u, p := s[7] / 4 % 2, s[7] / 128, s[7] / 64 % 2;
        if |texts| != 1 + 2 * w + u + p then Err(FAILURE)
        else Ok(ConnectParams(
          s[7] / 2 % 2 == 1, ReadU16(s, 8), texts[0],
          if w == 1 then Some(Will(texts[1], texts[2], s[7] / 8 % 4 == 1, s[7] / 32 % 2 == 1)) else None,
          if u == 1 then Some(texts[1 + 2 * w]) else None,
          if p == 1 then Some(texts[1 + 2 * w + u]) else None))
  }

  /** A server that reads by the standard finds the client's parameters. */
  lemma ConnectRoundTrip(p: ConnectParams)
    requires p.Valid()
    ensures ReadConnect(ConnectBody(p)) == Ok(p)
  {
    var s, head := ConnectBody(p), ConnectHead(p);
    StrsRoundTrip(head, p.Texts());
    assert s[..6] == head[..6] == Str(PROTOCOL);
    assert s[6] == 4 && s[7] == ConnectFlags(p);
    ReadU16Of(head[..8], p.keepAlive, Strs(p.Texts()));
    assert s == head[..8] + U16(p.keepAlive) + Strs(p.Texts());
    TextsBack(p);
  }

  lemma TextsBack(p: ConnectParams)
    requires p.Valid()
    ensures var texts, w, u := p.Texts(), Bit(p.will.Some?), Bit(p.username.Some?);
            && |texts| == 1 + 2 * w + u + Bit(p.password.Some?)
            && texts[0] == p.clientId
            && (p.will.Some? ==> texts[1] == p.will.value.topic && texts[2] == p.will.value.message)
            && (p.username.Some? ==> texts[1 + 2 * w] == p.username.value)
            && (p.password.Some? ==> texts[1 + 2 * w + u] == p.password.value)
  {
  }

  // ----- SUBSCRIBE (section 3.8) -----

  datatype Filter = Filter(topic: seq<byte>, qos: byte)

  predicate ShortFilters(filters: seq<Filter>) {
    forall i :: 0 <= i < |filters| ==> |filters[i].topic| < 65536
  }

  function Filters(filters: seq<Filter>): seq<byte>
    requires ShortFilters(filters)
  {
    if filters == [] then [] else OneFilter(filters[0]) + Filters(filters[1..])
  }

  function OneFilter(f: Filter): seq<byte>
    requires |f.topic| < 65536
  {
    Str(f.topic) + [f.qos]
  }

  function SubscribeBody(id: nat, filters: seq<Filter>): seq<byte>
    requires id < 65536 && ShortFilters(filters)
  {
    U16(id) + Filters(filters)
  }

  function SubscribePacket(dup: bool, id: nat, filters: seq<Filter>): seq<byte>
    requires id < 65536 && ShortFilters(filters)
  {
    Packet(Header(SUBSCRIBE, true, dup, false), SubscribeBody(id, filters))
  }

  function FiltersLength(filters: seq<Filter>): nat {
    if filters == [] then 0 else |filters[0].topic| + 2 + 1 + FiltersLength(filters[1..])
  }

  lemma {:induction false} FiltersLengthExact(filters: seq<Filter>)
    requires ShortFilters(filters)
    ensures |Filters(filters)| == FiltersLength(filters)
  {
    if filters != [] {
      FiltersLengthExact(filters[1..]);
    }
  }

  /** The standard's reader of the filters between two positions. */
  function ReadFilters(s: seq<byte>, cur: nat): Parsed<seq<Filter>>
    requires cur <= |s|
    decreases |s| - cur
  {
    if cur == |s| then Ok([])
    else
      match ReadString(s, cur, |s| - 1)
      case Err(code) => Err(code)
      case Undefined => Undefined
      case Ok(piece) =>
        match ReadFilters(s, piece.next + 1)
        case Err(code) => Err(code)
        case Undefined => Undefined
        case Ok(filters) => Ok([Filter(piece.text, s[piece.next])] + filters)
  }

  lemma OneMoreFilter(s: seq<byte>, cur: nat, filters: seq<Filter>)
    requires filters != [] && var f, next := filters[0], cur + 2 + |filters[0].topic|;
             next < |s| && ReadString(s, cur, |s| - 1) == Ok(Piece(f.topic, next)) && s[next] == f.qos
             && ReadFilters(s, next + 1) == Ok(filters[1..])
    ensures ReadFilters(s, cur) == Ok(filters)
  {
    hide ReadString;
    assert filters == [filters[0]] + filters[1..];
  }

  lemma OneFilterLength(f: Filter)
    requires |f.topic| < 65536
    ensures |OneFilter(f)| == 3 + |f.topic|
  {
  }

  lemma NoFilters(front: seq<byte>)
    ensures ReadFilters(front + Filters([]), |front|) == Ok([])
  {
  }

  lemma ShortFiltersCons(filters: seq<Filter>)
    requires ShortFilters(filters) && filters != []
    ensures |filters[0].topic| < 65536 && ShortFilters(filters[1..])
  {
  }

  lemma FiltersCons(front: seq<byte>, filters: seq<Filter>)
    requires ShortFilters(filters) && filters != []
    ensures front + Filters(filters) == front + OneFilter(filters[0]) + Filters(filters[1..])
  {
    hide OneFilter;
  }

  /** The filters of a SUBSCRIBE come back, in order, each with its QoS. */
  lemma {:induction false} FiltersRoundTrip(front: seq<byte>, filters: seq<Filter>)
    requires ShortFilters(filters)
    ensures ReadFilters(front + Filters(filters), |front|) == Ok(filters)
    decreases |filters|
  {
    hide ShortFilters, Filters, ReadFilters, ReadString, OneFilter;
    if filters != [] {
      ShortFiltersCons(filters);
      var f, rest := filters[0], Filters(filters[1..]);
      var s := front + OneFilter(f) + rest;
      FiltersCons(front, filters);
      OneFilterLength(f);
      FilterRead(front, f, rest);
      FiltersRoundTrip(front + OneFilter(f), filters[1..]);
      OneMoreFilter(s, |front|, filters);
    } else {
      NoFilters(front);
    }
  }

  lemma FilterRead(front: seq<byte>, f: Filter, rest: seq<byte>)
    requires |f.topic| < 65536
    ensures var s, next := front + OneFilter(f) + rest, |front| + 2 + |f.topic|;
            ReadString(s, |front|, |s| - 1) == Ok(Piece(f.topic, next)) && s[next] == f.qos
  {
    var s := front + OneFilter(f) + rest;
    assert s == front + Str(f.topic) + ([f.qos] + rest);
    ReadStringOf(front, f.topic, [f.qos] + rest, |s| - 1);
  }

  lemma SubscribeRoundTrip(id: nat, filters: seq<Filter>)
    requires id < 65536 && ShortFilters(filters)
    ensures |SubscribeBody(id, filters)| == 2 + FiltersLength(filters)
    ensures ReadU16(SubscribeBody(id, filters), 0) == id
    ensures ReadFilters(SubscribeBody(id, filters), 2) == Ok(filters)
  {
    hide Filters, FiltersLength, ReadFilters;
    FiltersLengthExact(filters);
    assert [] + U16(id) + Filters(filters) == SubscribeBody(id, filters);
    ReadU16Of([], id, Filters(filters));
    FiltersRoundTrip(U16(id), filters);
  }

  // ----- UNSUBSCRIBE (section 3.10) -----

  function UnsubscribeBody(id: nat, topics: seq<seq<byte>>): seq<byte>
    requires id < 65536 && Short(topics)
  {
    U16(id) + Strs(topics)
  }

  function UnsubscribePacket(dup: bool, id: nat, topics: seq<seq<byte>>): seq<byte>
    requires id < 65536 && Short(topics)
  {
    Packet(Header(UNSUBSCRIBE, true, dup, false), UnsubscribeBody(id, topics))
  }

  lemma UnsubscribeRoundTrip(id: nat, topics: seq<seq<byte>>)
    requires id < 65536 && Short(topics)
    ensures |UnsubscribeBody(id, topics)| == 2 + TotalLength(topics, 2)
    ensures ReadU16(UnsubscribeBody(id, topics), 0) == id
    ensures ReadStrs(UnsubscribeBody(id, topics), 2) == Ok(topics)
  {
    hide Strs, TotalLength, ReadStrs;
    StrsLength(topics);
    StrsRoundTrip(U16(id), topics);
    assert [] + U16(id) + Strs(topics) == UnsubscribeBody(id, topics);
    ReadU16Of([], id, Strs(topics));
  }

  // ----- SUBACK (section 3.9) -----

  datatype Suback = Suback(id: nat, granted: seq<byte>)

  function SubackPacket(id: nat, codes: seq<byte>): seq<byte>
    requires id < 65536
  {
    Packet(Header(SUBACK, false, false, false), U16(id) + codes)
  }

  /** _aws_iot_mqtt_deserialize_suback: it gives up once more than maxExpected codes are stored and another follows. */
  function ParseSuback(s: seq<byte>, maxExpected: nat): Parsed<Suback> {
    if |s| < 5 then Err(MQTT_RX_BUFFER_TOO_SHORT_ERROR)
    else if s[0] / 16 != SUBACK then Err(FAILURE)
    else
      match ReadFixed(s)
      case Undefined => Undefined
      case Err(code) => Err(code)
      case Ok(f) =>
        if f.end - f.start < 2 then Err(FAILURE)
        else if f.start + 2 > |s| then Undefined
        else
          var stored := if f.end - f.start - 2 <= maxExpected + 1 then f.end else f.start + 2 + maxExpected + 1;
          if stored > |s| then Undefined
          else if f.end != stored then Err(FAILURE)
          else Ok(Suback(ReadU16(s, f.start), s[f.start + 2..f.end]))
  }

  /** A SUBACK is read in full exactly when it has at most one code more than expected. */
  lemma SubackRead(id: nat, codes: seq<byte>, rest: seq<byte>, maxExpected: nat)
    requires id < 65536 && 0 < |codes| < 268435454
    ensures ParseSuback(SubackPacket(id, codes) + rest, maxExpected)
         == if |codes| <= maxExpected + 1 then Ok(Suback(id, codes)) else Err(FAILURE)
  {
    var h, body := Header(SUBACK, false, false, false), U16(id) + codes;
    var s, front := SubackPacket(id, codes) + rest, [h] + EncodeLen(|body|);
    FixedRoundTrip(h, body, rest);
    assert s == front + U16(id) + (codes + rest);
    ReadU16Of(front, id, codes + rest);
    assert s[|front| + 2..|front| + |body|] == codes;
  }

  // ----- CONNACK (section 3.2) -----

  datatype Connack = Connack(sessionPresent: nat, returnCode: byte)

  /** _aws_iot_mqtt_deserialize_connack: the session flag is read from the top bit of its byte. */
  function ParseConnack(s: seq<byte>): Parsed<Connack> {
    if |s| < 4 then Err(MQTT_RX_BUFFER_TOO_SHORT_ERROR)
    else if s[0] / 16 != CONNACK then Err(FAILURE)
    else
      match ReadFixed(s)
      case Undefined => Undefined
      case Err(code) => Err(code)
      case Ok(f) =>
        if f.end - f.start < 2 then Err(FAILURE)
        else if f.start + 2 > |s| then Undefined
        else Ok(Connack(s[f.start] / 128, s[f.start + 1]))
  }

  function ConnackPacket(flags: byte, code: byte): seq<byte> {
    Packet(Header(CONNACK, false, false, false), [flags, code])
  }

  /** The return code always comes through. The flag is the standard's session-present bit, the lowest one, only
      where the top bit equals it; so the standard's own flag byte 1 reads as 0. */
  lemma ConnackRead(flags: byte, code: byte, rest: seq<byte>)
    ensures var r := ParseConnack(ConnackPacket(flags, code) + rest);
            && r.Ok? && r.value.returnCode == code
            && (r.value.sessionPresent == flags % 2 <==> flags / 128 == flags % 2)
            && (flags == 1 ==> r.value.sessionPresent == 0)
  {
    var h := Header(CONNACK, false, false, false);
    var s := ConnackPacket(flags, code) + rest;
    FixedRoundTrip(h, [flags, code], rest);
    assert s == [h, 2, flags, code] + rest;
  }
}
