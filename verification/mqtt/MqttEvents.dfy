/** What the MQTT client does to the network, the timers and the packets, as a record, and what its calls leave there. */
module MqttEvents {
  import opened MqttCodes

  datatype What =
    // A packet: written, not serialized, not sent; read whole, or not parsed.
    | Sent(packet: nat)
    | Unbuilt(packet: nat, code: int)
    | Unsent(packet: nat, code: int)
    | Got(kind: nat, qos1: bool)
    | Misread(kind: nat, code: int)
    // A poll that found nothing, or lost the connection at a length byte, or read no packet.
    | Silence
    | Lost(code: int)
    | Unread(code: int)
    // The network stack: connected, answered by the server, asked for its state, closed.
    | Link(code: int)
    | Connack(code: int)
    | Physical(code: int)
    | Closed(ok: bool)
    // The timers of a call, of the keep-alive and of the reconnect delay.
    | TimeUp
    | PingTimer(ranOut: bool)
    | NoKeepAlive
    | DelayTimer(ranOut: bool)

  /** Something a call did, and how deeply message callbacks may still nest below it. */
  datatype Event = Event(level: nat, what: What)

  // ----- the record -----

  function Since(before: seq<Event>, after: seq<Event>): seq<Event> {
    if before <= after then after[|before|..] else []
  }

  function Own(events: seq<Event>, level: nat): seq<What> {
    if events == [] then []
    else
      var n := |events| - 1;
      Own(events[..n], level) + if events[n].level == level then [events[n].what] else []
  }

  /** What calls of a level did, without what callbacks did in between. */
  function Did(before: seq<Event>, after: seq<Event>, level: nat): seq<What> {
    Own(Since(before, after), level)
  }

  /** The record grew, by events of that level and of the callbacks below it. */
  ghost predicate Grew(before: seq<Event>, after: seq<Event>, level: nat) {
    before <= after && forall i :: |before| <= i < |after| ==> after[i].level <= level
  }

  /** The record grew, by events of callbacks only. */
  ghost predicate GrewBelow(before: seq<Event>, after: seq<Event>, level: nat) {
    before <= after && forall i :: |before| <= i < |after| ==> after[i].level < level
  }

  lemma {:induction false} OwnJoined(a: seq<Event>, b: seq<Event>, level: nat)
    ensures Own(a + b, level) == Own(a, level) + Own(b, level)
  {
    if b == [] {
      assert a + b == a;
    } else {
      var n := |b| - 1;
      OwnJoined(a, b[..n], level);
      assert (a + b)[..|a + b| - 1] == a + b[..n];
    }
  }

  lemma {:induction false} OwnNone(events: seq<Event>, level: nat)
    requires forall i :: 0 <= i < |events| ==> events[i].level != level
    ensures Own(events, level) == []
  {
    if events != [] {
      OwnNone(events[..|events| - 1], level);
    }
  }

  lemma Nothing(events: seq<Event>, level: nat)
    ensures Grew(events, events, level) && GrewBelow(events, events, level) && Did(events, events, level) == []
  {
  }

  lemma One(events: seq<Event>, level: nat, what: What)
    ensures Grew(events, events + [Event(level, what)], level) && Did(events, events + [Event(level, what)], level) == [what]
  {
    var after := events + [Event(level, what)];
    assert after[|events|..] == [Event(level, what)];
    assert Own([Event(level, what)], level) == Own([], level) + [what];
  }

  lemma Joined(a: seq<Event>, b: seq<Event>, c: seq<Event>, level: nat)
    requires Grew(a, b, level) && Grew(b, c, level)
    ensures Grew(a, c, level) && Did(a, c, level) == Did(a, b, level) + Did(b, c, level)
  {
    hide Own;
    assert c[|a|..] == b[|a|..] + c[|b|..];
    OwnJoined(b[|a|..], c[|b|..], level);
  }

  lemma JoinedBelow(a: seq<Event>, b: seq<Event>, c: seq<Event>, level: nat)
    requires GrewBelow(a, b, level) && GrewBelow(b, c, level)
    ensures GrewBelow(a, c, level)
  {
  }

  lemma Below(a: seq<Event>, b: seq<Event>, level: nat)
    requires GrewBelow(a, b, level)
    ensures Grew(a, b, level) && Did(a, b, level) == []
  {
    OwnNone(Since(a, b), level);
  }

  lemma Deeper(a: seq<Event>, b: seq<Event>, level: nat)
    requires level > 0 && Grew(a, b, level - 1)
    ensures GrewBelow(a, b, level)
  {
  }

  /** What was done is in the record. */
  lemma {:induction false} OwnFrom(events: seq<Event>, level: nat, what: What)
    requires what in Own(events, level)
    ensures exists i :: 0 <= i < |events| && events[i].what == what
  {
    var n := |events| - 1;
    if events[n].what != what {
      OwnFrom(events[..n], level, what);
    }
  }

  lemma DidFrom(before: seq<Event>, after: seq<Event>, level: nat, what: What)
    requires what in Did(before, after, level)
    ensures exists i :: 0 <= i < |after| && after[i].what == what
  {
    OwnFrom(Since(before, after), level, what);
    var i :| 0 <= i < |Since(before, after)| && Since(before, after)[i].what == what;
    assert after[|before| + i].what == what;
  }

  // ----- what calls do -----

  /** The parts of a record, one after the other. */
  function Flat(parts: seq<seq<What>>): seq<What> {
    if parts == [] then [] else Flat(parts[..|parts| - 1]) + parts[|parts| - 1]
  }

  lemma FlatMore(parts: seq<seq<What>>, part: seq<What>)
    ensures Flat(parts + [part]) == Flat(parts) + part
  {
    assert (parts + [part])[..|parts|] == parts;
  }

  /** Delivering a PUBLISH: with QoS 1 it is acknowledged, after the callbacks ran. */
  predicate Handled(own: seq<What>, qos1: bool, rc: int) {
    if rc == SUCCESS then (if qos1 then own == [Sent(PUBACK)] else own == [])
    else
      && rc != NETWORK_DISCONNECTED_ERROR
      && (own == [Misread(PUBLISH, rc)]
          || (own == [] && rc == MQTT_UNEXPECTED_CLIENT_STATE_ERROR)
          || (qos1 && (own == [Unbuilt(PUBACK, rc)] || own == [Unsent(PUBACK, rc)])))
  }

  /** One packet read and dispatched, or none. */
  predicate Cycle(own: seq<What>, oldType: nat, newType: nat, rc: int) {
    own != [] &&
    match own[0]
    case Silence => |own| == 1 && rc == SUCCESS && newType == oldType
    case Lost(code) =>
      |own| == 1 && code != SUCCESS && newType == oldType && rc == if code == MQTT_NOTHING_TO_READ then SUCCESS else code
    case Unread(code) =>
      |own| == 1 && rc == code && code != SUCCESS && code != NETWORK_DISCONNECTED_ERROR && newType == oldType
    case Got(kind, qos1) =>
      newType == kind &&
      if kind == PUBLISH then Handled(own[1..], qos1, rc)
      else |own| == 1 && rc == if kind in {2, 4, 5, 7, 9, 11, 13} then SUCCESS else MQTT_RX_MESSAGE_PACKET_TYPE_INVALID_ERROR
    case _ => false
  }

  /** What ends the wait for an acknowledgement. */
  predicate Ends(what: What, ack: nat) {
    what == TimeUp || what == Lost(NETWORK_DISCONNECTED_ERROR) || (what.Got? && what.kind == ack)
  }

  /** Waiting goes on until the first thing that ends it, and returns what that was. */
  predicate Waited(own: seq<What>, ack: nat, rc: int) {
    own != [] &&
    (forall i :: 0 <= i < |own| - 1 ==> !Ends(own[i], ack)) &&
    match own[|own| - 1]
    case Got(kind, _) => kind == ack && rc == SUCCESS
    case TimeUp => rc == MQTT_REQUEST_TIMEOUT_ERROR
    case Lost(code) => rc == code == NETWORK_DISCONNECTED_ERROR
    case _ => false
  }

  /** A request is sent, its acknowledgement read, and that parsed. */
  predicate Exchanged(own: seq<What>, request: nat, ack: nat, rc: int) {
    own != [] &&
    if own[0] == Sent(request) then
      || Waited(own[1..], ack, rc)
      || (rc < 0 && |own| > 2 && own[|own| - 1] == Misread(ack, rc) && Waited(own[1..|own| - 1], ack, SUCCESS))
    else own == [Unsent(request, rc)] && rc < 0
  }

  /** The same from the serializer on. */
  predicate Requested(own: seq<What>, request: nat, ack: nat, rc: int) {
    (own == [Unbuilt(request, rc)] && rc < 0) || Exchanged(own, request, ack, rc)
  }

  predicate Published(own: seq<What>, qos1: bool, rc: int) {
    if qos1 then Requested(own, PUBLISH, PUBACK, rc)
    else if rc == SUCCESS then own == [Sent(PUBLISH)]
    else own == [Unbuilt(PUBLISH, rc)] || own == [Unsent(PUBLISH, rc)]
  }

  /** The network stack connects, CONNECT is sent, CONNACK read, and the server accepts. */
  predicate Connected(own: seq<What>, rc: int) {
    own != [] && own[0].Link? &&
    if own[0].code != SUCCESS then |own| == 1 && rc == own[0].code
    else if |own| == 2 && own[1].Unbuilt? then own[1].packet == CONNECT && rc == MQTT_CONNECTION_ERROR
    else
      var last := own[|own| - 1];
      if last.Connack? then
        Exchanged(own[1..|own| - 1], CONNECT, CONNACK, SUCCESS) && (rc == SUCCESS <==> last.code == MQTT_CONNACK_CONNECTION_ACCEPTED)
      else rc != SUCCESS && Exchanged(own[1..], CONNECT, CONNACK, rc)
  }

  /** DISCONNECT is sent and the network stack closed. */
  predicate Disconnected(own: seq<What>, rc: int) {
    || (own == [Sent(DISCONNECT), Closed(true)] && rc == SUCCESS)
    || (own == [Sent(DISCONNECT), Closed(false)] && rc == FAILURE)
    || (rc != SUCCESS && (own == [Unbuilt(DISCONNECT, rc)] || own == [Unsent(DISCONNECT, rc)]))
  }

  /** The keep-alive: nothing to do, a ping, or the connection given up. */
  predicate KeptAlive(own: seq<What>, pinging: bool, rc: int) {
    own != [] &&
    if own[0] != PingTimer(true) then (own == [NoKeepAlive] || own == [PingTimer(false)]) && rc == SUCCESS
    else if pinging then rc == NETWORK_DISCONNECTED_ERROR && |own| > 1 && own[|own| - 1].Closed?
    else
      |own| > 1 &&
      match own[1]
      case Sent(packet) => packet == PINGREQ && |own| == 2 && rc == SUCCESS
      case Unbuilt(packet, code) => packet == PINGREQ && |own| == 2 && rc == code && rc != SUCCESS
      case Unsent(packet, _) => packet == PINGREQ && own[|own| - 1].Closed? && rc == NETWORK_DISCONNECTED_ERROR
      case _ => false
  }

  // ----- waiting -----

  /** Nothing yet that ends the wait. */
  predicate Waiting(own: seq<What>, ack: nat) {
    forall i :: 0 <= i < |own| ==> !Ends(own[i], ack)
  }

  lemma WaitedOut(own: seq<What>, ack: nat)
    requires Waiting(own, ack)
    ensures Waited(own + [TimeUp], ack, MQTT_REQUEST_TIMEOUT_ERROR)
  {
  }

  /** One more packet, or none: the wait goes on, or this ends it. */
  lemma OneCycle(own: seq<What>, cycle: seq<What>, ack: nat, oldType: nat, newType: nat, rc: int)
    requires Waiting(own, ack) && Cycle(cycle, oldType, newType, rc) && oldType != ack && ack in {CONNACK, PUBACK, SUBACK, UNSUBACK}
    ensures if rc != NETWORK_DISCONNECTED_ERROR && newType != ack then Waiting(own + cycle, ack)
            else Waited(own + cycle, ack, rc) && (rc != NETWORK_DISCONNECTED_ERROR ==> newType == ack)
  {
    CycleEnds(cycle, ack, oldType, newType, rc);
    hide Cycle, Ends;
    var all := own + cycle;
    if |cycle| == 1 {
      assert all[|all| - 1] == cycle[0];
    }
  }

  lemma CycleEnds(cycle: seq<What>, ack: nat, oldType: nat, newType: nat, rc: int)
    requires Cycle(cycle, oldType, newType, rc) && oldType != ack && ack in {CONNACK, PUBACK, SUBACK, UNSUBACK}
    ensures cycle != [] && forall i :: 0 < i < |cycle| ==> !Ends(cycle[i], ack)
    ensures !Ends(cycle[0], ack) <==> rc != NETWORK_DISCONNECTED_ERROR && newType != ack
    ensures Ends(cycle[0], ack) ==> |cycle| == 1 && (rc == NETWORK_DISCONNECTED_ERROR || newType == ack)
    ensures Ends(cycle[0], ack) ==>
              if cycle[0].Got? then cycle[0].kind == ack && rc == SUCCESS
              else cycle[0] == Lost(NETWORK_DISCONNECTED_ERROR) && rc == NETWORK_DISCONNECTED_ERROR
  {
    assert forall i :: 0 < i < |cycle| ==> cycle[i] == cycle[1..][i - 1];
  }

  lemma WaitedSome(own: seq<What>, ack: nat, rc: int)
    requires Waited(own, ack, rc)
    ensures own != [] && rc <= 0
  {
  }

  lemma ExchangedSome(own: seq<What>, request: nat, ack: nat, rc: int)
    requires Exchanged(own, request, ack, rc)
    ensures own != [] && !own[|own| - 1].Connack? && (|own| == 1 ==> !own[0].Unbuilt?)
  {
  }

  lemma ConnectedBy(exchange: seq<What>, code: int, rc: int)
    requires Exchanged(exchange, CONNECT, CONNACK, SUCCESS) && (rc == SUCCESS <==> code == MQTT_CONNACK_CONNECTION_ACCEPTED)
    ensures Connected([Link(SUCCESS)] + exchange + [Connack(code)], rc)
  {
    var own := [Link(SUCCESS)] + exchange + [Connack(code)];
    ExchangedSome(exchange, CONNECT, CONNACK, SUCCESS);
    hide Exchanged;
    assert own[1..|own| - 1] == exchange;
  }

  lemma ConnectFailedBy(exchange: seq<What>, rc: int)
    requires Exchanged(exchange, CONNECT, CONNACK, rc) && rc != SUCCESS
    ensures Connected([Link(SUCCESS)] + exchange, rc)
  {
    var own := [Link(SUCCESS)] + exchange;
    ExchangedSome(exchange, CONNECT, CONNACK, rc);
    hide Exchanged;
    assert own[1..] == exchange;
  }

  predicate Subscribed(own: seq<What>, rc: int) {
    Requested(own, SUBSCRIBE, SUBACK, rc) || (own == [] && rc == MQTT_MAX_SUBSCRIPTIONS_REACHED_ERROR)
  }

  /** One exchange after the other, each acknowledged but perhaps the last. */
  predicate Resubscribed(parts: seq<seq<What>>, rc: int) {
    (parts == [] ==> rc == SUCCESS) &&
    forall i :: 0 <= i < |parts| ==> Requested(parts[i], SUBSCRIBE, SUBACK, if i < |parts| - 1 then SUCCESS else rc)
  }

  /** Connected again, and every subscription renewed. */
  ghost predicate Reconnected(own: seq<What>) {
    exists first: seq<What>, parts :: Connected(first, SUCCESS) && Resubscribed(parts, SUCCESS) && own == first + Flat(parts)
  }

  lemma ReconnectedBy(first: seq<What>, parts: seq<seq<What>>)
    requires Connected(first, SUCCESS) && Resubscribed(parts, SUCCESS)
    ensures Reconnected(first + Flat(parts))
  {
  }

  // ----- yielding -----

  predicate Last(own: seq<What>, what: What) {
    own != [] && own[|own| - 1] == what
  }

  /** A turn of the yield loop that goes on: a successful read with the keep-alive behind it, or a reconnection. */
  ghost predicate Turn(own: seq<What>) {
    || (own != [] && own[0].DelayTimer?)
    || exists read: seq<What>, newType, kept: seq<What>, pinging, rc ::
         Cycle(read, 0, newType, SUCCESS) && KeptAlive(kept, pinging, rc) && own == read + kept
  }

  lemma ReconnectTurn(own: seq<What>)
    requires own != [] && own[0].DelayTimer?
    ensures Turn(own)
  {
  }

  lemma ReadTurn(read: seq<What>, newType: nat, kept: seq<What>, pinging: bool, rc: int)
    requires Cycle(read, 0, newType, SUCCESS) && KeptAlive(kept, pinging, rc)
    ensures Turn(read + kept)
  {
  }

  ghost predicate AllTurns(turns: seq<seq<What>>) {
    forall i :: 0 <= i < |turns| ==> Turn(turns[i])
  }

  lemma NoTurns()
    ensures AllTurns([]) && Flat([]) == []
  {
  }

  lemma OneMoreTurn(turns: seq<seq<What>>, own: seq<What>)
    requires AllTurns(turns) && Turn(own)
    ensures AllTurns(turns + [own]) && Flat(turns + [own]) == Flat(turns) + own
  {
    hide Turn, Flat;
    FlatMore(turns, own);
  }

  /** A read that ends a yield. */
  ghost predicate FailedRead(own: seq<What>, rc: int) {
    exists newType :: Cycle(own, 0, newType, rc)
  }

  /** The turns of a yield. It ends when its time is up, or with a turn that failed: success means the former. */
  ghost predicate Yielded(turns: seq<seq<What>>, rc: int, own: seq<What>) {
    || (AllTurns(turns) && own == Flat(turns) + [TimeUp])
    || (AllTurns(turns) && own == Flat(turns) && rc != SUCCESS)
    || (turns != [] && AllTurns(turns[..|turns| - 1]) && own == Flat(turns) && rc != SUCCESS
        && FailedRead(turns[|turns| - 1], rc))
  }

  lemma YieldedBy(turns: seq<seq<What>>, rc: int)
    requires AllTurns(turns)
    ensures Yielded(turns, rc, Flat(turns) + [TimeUp]) && (rc != SUCCESS ==> Yielded(turns, rc, Flat(turns)))
  {
  }

  lemma YieldFailedBy(turns: seq<seq<What>>, read: seq<What>, newType: nat, rc: int)
    requires AllTurns(turns) && Cycle(read, 0, newType, rc) && rc != SUCCESS
    ensures Yielded(turns + [read], rc, Flat(turns) + read)
    ensures read == [Lost(rc)] ==> Last(Flat(turns) + read, Lost(rc))
  {
    hide Cycle, Flat, AllTurns;
    FlatMore(turns, read);
    assert (turns + [read])[..|turns|] == turns;
    assert FailedRead(read, rc);
  }

  lemma YieldedSuccess(turns: seq<seq<What>>, own: seq<What>)
    requires Yielded(turns, SUCCESS, own)
    ensures Last(own, TimeUp)
  {
  }
}
