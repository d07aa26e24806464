/** The MQTT client's state machine: nested callbacks, keep-alive, reconnection. Transport, timers and callbacks are
    nondeterministic; depth bounds how deeply message callbacks may nest. */
module MqttClient {
  import opened MqttCodes
  import opened MqttEvents

  /** The two results for which aws_iot_mqtt_yield leaves the client state as it is. */
  predicate KeepsState(rc: int) {
    rc == NETWORK_DISCONNECTED_ERROR || rc == NETWORK_ATTEMPTING_RECONNECT
  }

  /** The codes that serializers, parsers and the send loop return. */
  predicate LocalCode(rc: int) {
    rc == SUCCESS || rc == FAILURE || rc == MQTT_TX_BUFFER_TOO_SHORT_ERROR || rc == MQTT_RX_BUFFER_TOO_SHORT_ERROR
    || rc == MQTT_DECODE_REMAINING_LENGTH_ERROR
  }

  /** A serializer, a parser, or the send loop: any of its codes. */
  method LocalStep() returns (rc: int)
    ensures LocalCode(rc)
  {
    var fails: bool := *;
    var code: int := *;
    rc := if !fails then SUCCESS else if LocalCode(code) then code else FAILURE;
  }

  /** 1000 * 2^k. */
  function Interval(k: nat): (v: nat)
    ensures v >= MIN_RECONNECT_WAIT_INTERVAL
  {
    if k == 0 then MIN_RECONNECT_WAIT_INTERVAL else 2 * Interval(k - 1)
  }

  /** A topic filter by a number; two filters are the same text if they have the same number. */
  datatype Handler = Unused | On(topic: nat)

  /** The message handlers: which topic filter each has. */
  type Handlers = h: seq<Handler> | |h| == NUM_SUBSCRIBE_HANDLERS witness [Unused, Unused, Unused, Unused, Unused]

  /** _aws_iot_mqtt_get_free_message_handler_index: the first unused one, or their number. */
  method FreeHandler(h: Handlers) returns (i: nat)
    ensures FirstUnused(h, i)
  {
    i := 0;
    while i < NUM_SUBSCRIBE_HANDLERS && h[i] != Unused
      invariant i <= NUM_SUBSCRIBE_HANDLERS && forall k :: 0 <= k < i ==> h[k].On?
    {
      i := i + 1;
    }
  }

  ghost predicate FirstUnused(h: Handlers, i: nat) {
    && i <= NUM_SUBSCRIBE_HANDLERS && (forall k :: 0 <= k < i ==> h[k].On?)
    && (i < NUM_SUBSCRIBE_HANDLERS ==> h[i] == Unused)
  }

  class Client {
    var clientState: ClientState
    var isPingOutstanding: bool
    var isAutoReconnectEnabled: bool
    var keepAliveInterval: nat
    var currentReconnectWaitInterval: nat
    var counterNetworkDisconnected: nat
    var nextPacketId: nat
    var handlers: Handlers

    /** The current reconnect episode: whether there was one since initialisation, the waits started, how often
        the interval was doubled, and the connection attempts made. */
    ghost var begun: bool
    ghost var waits: seq<nat>
    ghost var doublings: nat
    ghost var attempts: nat

    /** Everything done so far. */
    ghost var events: seq<Event>

    /** aws_iot_mqtt_init, after its allocations succeeded. It leaves the packet id and both intervals as the
        memory had them. */
    constructor (autoReconnect: bool, packetId: nat, keepAlive: nat, waitInterval: nat)
      requires packetId <= MAX_PACKET_ID
      ensures clientState == Initialized && !isPingOutstanding && isAutoReconnectEnabled == autoReconnect
      ensures counterNetworkDisconnected == 0 && nextPacketId == packetId
      ensures currentReconnectWaitInterval == waitInterval && events == []
      ensures FirstUnused(handlers, 0) && Orderly() && LeftInOrder()
    {
      clientState := Initialized;
      isPingOutstanding, isAutoReconnectEnabled := false, autoReconnect;
      keepAliveInterval, currentReconnectWaitInterval := keepAlive, waitInterval;
      counterNetworkDisconnected, nextPacketId := 0, packetId;
      handlers := [Unused, Unused, Unused, Unused, Unused];
      begun, waits, doublings, attempts, events := false, [], 0, 0, [];
    }

    // ----- what calls keep -----

    /** Nothing happened to the state but, perhaps, a disconnection by a callback. */
    twostate predicate Settles()
      reads this
    {
      clientState == old(clientState) || (old(clientState).Connected() && clientState == DisconnectedManually)
    }

    /** The reconnect episode did not move. */
    twostate predicate EpisodeKept()
      reads this
    {
      && currentReconnectWaitInterval == old(currentReconnectWaitInterval) && waits == old(waits)
      && begun == old(begun) && doublings == old(doublings) && attempts == old(attempts)
    }

    /** No ping became outstanding. */
    twostate predicate NoNewPing()
      reads this
    {
      isPingOutstanding ==> old(isPingOutstanding)
    }

    /** Waits of 1000, 2000, 4000 and 8000, in this order, and then no more. */
    ghost predicate InOrder()
      reads this
    {
      doublings <= 4 && currentReconnectWaitInterval == Interval(doublings)
      && |waits| == (if doublings < 4 then doublings + 1 else 4)
      && forall i :: 0 <= i < |waits| ==> waits[i] == Interval(i)
    }

    /** Such waits with one attempt at most after each. */
    ghost predicate Backoff()
      reads this
    {
      InOrder() && attempts <= doublings
    }

    /** Once an episode has begun, in any state: what it leaves behind is in order. */
    ghost predicate LeftInOrder()
      reads this
    {
      begun ==> InOrder()
    }

    /** Reconnection is pending only within an episode that backs off. */
    ghost predicate Orderly()
      reads this
    {
      clientState == PendingReconnect ==> Backoff()
    }

    twostate lemma OrderKept()
      requires EpisodeKept()
      ensures InOrder() <==> old(InOrder())
    {
    }

    // ----- small steps -----

    /** aws_iot_mqtt_set_client_state: compare and set. */
    method SetClientState(expected: ClientState, newState: ClientState) returns (rc: int)
      modifies this`clientState
      ensures old(clientState) == expected ==> rc == SUCCESS && clientState == newState
      ensures old(clientState) != expected ==>
                rc == MQTT_UNEXPECTED_CLIENT_STATE_ERROR && clientState == old(clientState)
    {
      if expected == clientState {
        clientState := newState;
        rc := SUCCESS;
      } else {
        rc := MQTT_UNEXPECTED_CLIENT_STATE_ERROR;
      }
    }

    /** aws_iot_mqtt_get_next_packet_id: never zero. */
    method NextPacketId() returns (id: nat)
      requires nextPacketId <= MAX_PACKET_ID
      modifies this`nextPacketId
      ensures 1 <= id <= MAX_PACKET_ID && nextPacketId == id
      ensures old(nextPacketId) < MAX_PACKET_ID ==> id == old(nextPacketId) + 1
    {
      nextPacketId := if nextPacketId == MAX_PACKET_ID then 1 else nextPacketId + 1;
      id := nextPacketId;
    }

    /** A record entry. */
    ghost method Log(depth: nat, what: What)
      modifies this`events
      ensures Grew(old(events), events, depth) && Did(old(events), events, depth) == [what]
    {
      One(events, depth, what);
      events := events + [Event(depth, what)];
    }

    /** A serializer. */
    method Prepare(depth: nat, packet: nat) returns (rc: int)
      modifies this`events
      ensures LocalCode(rc) && Grew(old(events), events, depth)
      ensures Did(old(events), events, depth) == if rc == SUCCESS then [] else [Unbuilt(packet, rc)]
    {
      Nothing(events, depth);
      rc := LocalStep();
      if rc != SUCCESS {
        Log(depth, Unbuilt(packet, rc));
      }
    }

    /** aws_iot_mqtt_internal_send_packet. */
    method SendPacket(depth: nat, packet: nat) returns (rc: int)
      modifies this`events
      ensures LocalCode(rc) && Grew(old(events), events, depth)
      ensures Did(old(events), events, depth) == if rc == SUCCESS then [Sent(packet)] else [Unsent(packet, rc)]
    {
      rc := LocalStep();
      Log(depth, if rc == SUCCESS then Sent(packet) else Unsent(packet, rc));
    }

    /** A parser. */
    method Parse(depth: nat, kind: nat) returns (rc: int)
      modifies this`events
      ensures LocalCode(rc) && Grew(old(events), events, depth)
      ensures Did(old(events), events, depth) == if rc == SUCCESS then [] else [Misread(kind, rc)]
    {
      Nothing(events, depth);
      rc := LocalStep();
      if rc != SUCCESS {
        Log(depth, Misread(kind, rc));
      }
    }

    /** The network stack's disconnect and destroy. */
    method CloseNetwork(depth: nat) returns (ok: bool)
      modifies this`events
      ensures Grew(old(events), events, depth) && Did(old(events), events, depth) == [Closed(ok)]
    {
      ok := *;
      Log(depth, Closed(ok));
    }

    /** _aws_iot_mqtt_internal_read_packet. Only the reads of the length bytes hand the transport's own code on. */
    method ReadPacket(depth: nat) returns (rc: int, kind: nat, qos1: bool)
      modifies this`events
      ensures Grew(old(events), events, depth)
      ensures var own := Did(old(events), events, depth);
              || (own == [Silence] && rc == MQTT_NOTHING_TO_READ)
              || (own == [Lost(rc)] && rc != SUCCESS)
              || (own == [Unread(rc)] && rc != SUCCESS && LocalCode(rc))
              || (own == [Got(kind, qos1)] && rc == SUCCESS)
      ensures kind < 16
    {
      kind, qos1 := *, *;
      if kind >= 16 {
        kind := 0;
      }
      var first: int := *;
      if first == NETWORK_SSL_NOTHING_TO_READ {
        Log(depth, Silence);
        return MQTT_NOTHING_TO_READ, kind, qos1;
      }
      var lengthBytes: int := *;
      if lengthBytes != SUCCESS {
        Log(depth, Lost(lengthBytes));
        return lengthBytes, kind, qos1;
      }
      rc := LocalStep();
      Log(depth, if rc == SUCCESS then Got(kind, qos1) else Unread(rc));
    }

    // ----- incoming messages -----

    /** An application callback: any number of API calls on this client, except for connecting. In the states it
        is called in no yield can start. */
    method Callback(depth: nat)
      requires nextPacketId <= MAX_PACKET_ID
      requires clientState != Idle && clientState != PendingReconnect
      modifies this
      ensures Settles() && EpisodeKept() && NoNewPing() && nextPacketId <= MAX_PACKET_ID
      ensures GrewBelow(old(events), events, depth)
      decreases depth, 0
    {
      hide Grew, GrewBelow, Did;
      Nothing(events, depth);
      if depth == 0 {
        return;
      }
      var calls: nat := *;
      while calls > 0
        invariant Settles() && EpisodeKept() && NoNewPing() && nextPacketId <= MAX_PACKET_ID
        invariant GrewBelow(old(events), events, depth)
        decreases calls
      {
        calls := calls - 1;
        ghost var before := events;
        CallBack(depth - 1);
        Deeper(before, events, depth);
        JoinedBelow(old(events), before, events, depth);
      }
    }

    /** One of those calls. */
    method CallBack(depth: nat)
      requires nextPacketId <= MAX_PACKET_ID
      requires clientState != Idle && clientState != PendingReconnect
      modifies this
      ensures Settles() && EpisodeKept() && NoNewPing() && nextPacketId <= MAX_PACKET_ID
      ensures Grew(old(events), events, depth)
      decreases depth, 12
    {
      hide Grew, GrewBelow, Did;
      var which: int := *;
      var rc;
      if which == 0 {
        var qos1: bool := *;
        rc := Publish(depth, qos1);
      } else if which == 1 {
        var topic: nat := *;
        rc := Subscribe(depth, topic);
      } else if which == 2 {
        var topic: nat := *;
        rc := Unsubscribe(depth, topic);
      } else if which == 3 {
        ghost var parts;
        rc, parts := Resubscribe(depth);
      } else if which == 4 {
        rc := Disconnect(depth);
      } else if which == 5 {
        ghost var stuck;
        rc, stuck := Yield(depth);
      } else {
        isAutoReconnectEnabled := *;
        Nothing(events, depth);
      }
    }

    /** _aws_iot_mqtt_internal_deliver_message: callbacks run in the waiting state, and the entry state is put back. */
    method DeliverMessage(depth: nat) returns (rc: int)
      requires nextPacketId <= MAX_PACKET_ID
      modifies this
      ensures clientState == old(clientState) || clientState == DisconnectedManually
      ensures EpisodeKept() && NoNewPing() && nextPacketId <= MAX_PACKET_ID && GrewBelow(old(events), events, depth)
      ensures rc == SUCCESS || rc == MQTT_UNEXPECTED_CLIENT_STATE_ERROR
      ensures rc == SUCCESS ==> clientState == old(clientState)
      decreases depth, 1
    {
      hide Grew, GrewBelow, Did;
      Nothing(events, depth);
      var entry := clientState;
      rc := SetClientState(entry, WaitForCbReturn);
      var itr := 0;
      while itr < NUM_SUBSCRIBE_HANDLERS
        invariant clientState == WaitForCbReturn || clientState == DisconnectedManually
        invariant EpisodeKept() && NoNewPing() && nextPacketId <= MAX_PACKET_ID && GrewBelow(old(events), events, depth)
      {
        var matches: bool := *;
        if handlers[itr].On? && matches {
          ghost var before := events;
          Callback(depth);
          JoinedBelow(old(events), before, events, depth);
        }
        itr := itr + 1;
      }
      rc := SetClientState(WaitForCbReturn, entry);
    }

    /** _aws_iot_mqtt_internal_handle_publish. */
    method HandlePublish(depth: nat, qos1: bool) returns (rc: int)
      requires nextPacketId <= MAX_PACKET_ID
      modifies this
      ensures clientState == old(clientState) || clientState == DisconnectedManually
      ensures EpisodeKept() && NoNewPing() && nextPacketId <= MAX_PACKET_ID && Grew(old(events), events, depth)
      ensures LocalCode(rc) || rc == MQTT_UNEXPECTED_CLIENT_STATE_ERROR
      ensures rc == SUCCESS ==> clientState == old(clientState)
      ensures Handled(Did(old(events), events, depth), qos1, rc)
      decreases depth, 2
    {
      hide Grew, GrewBelow, Did;
      rc := Parse(depth, PUBLISH);
      if rc != SUCCESS {
        return;
      }
      ghost var parsed := events;
      rc := DeliverMessage(depth);
      Below(parsed, events, depth);
      Joined(old(events), parsed, events, depth);
      if rc != SUCCESS {
        return;
      }
      if !qos1 {
        return SUCCESS;
      }
      ghost var delivered := events;
      rc := Prepare(depth, PUBACK);
      Joined(old(events), delivered, events, depth);
      if rc != SUCCESS {
        return;
      }
      ghost var prepared := events;
      rc := SendPacket(depth, PUBACK);
      Joined(old(events), prepared, events, depth);
    }

    /** aws_iot_mqtt_internal_cycle_read. */
    method CycleRead(depth: nat, oldType: nat) returns (rc: int, packetType: nat)
      requires nextPacketId <= MAX_PACKET_ID
      modifies this
      ensures clientState == old(clientState) || clientState == DisconnectedManually
      ensures EpisodeKept() && NoNewPing() && nextPacketId <= MAX_PACKET_ID && Grew(old(events), events, depth)
      ensures var own := Did(old(events), events, depth);
              && Cycle(own, oldType, packetType, rc)
              && (KeepsState(rc) ==> own == [Lost(rc)])
              && (own[0].Lost? || rc == SUCCESS ==> clientState == old(clientState))
              && (own[0].Got? && own[0].kind == PINGRESP ==> !isPingOutstanding)
              && (!own[0].Got? || own[0].kind !in {PUBLISH, PINGRESP} ==> isPingOutstanding == old(isPingOutstanding))
      decreases depth, 3
    {
      hide Grew, GrewBelow, Did;
      packetType := oldType;
      var newType, qos1;
      rc, newType, qos1 := ReadPacket(depth);
      if rc == MQTT_NOTHING_TO_READ {
        return SUCCESS, packetType;
      }
      if rc != SUCCESS {
        return;
      }
      packetType := newType;
      if packetType == PUBLISH {
        ghost var read := events;
        rc := HandlePublish(depth, qos1);
        Joined(old(events), read, events, depth);
        assert ([Got(PUBLISH, qos1)] + Did(read, events, depth))[1..] == Did(read, events, depth);
      } else if packetType == PINGRESP {
        isPingOutstanding := false;
      } else if packetType !in {CONNACK, PUBACK, SUBACK, UNSUBACK, PUBREC, PUBCOMP} {
        rc := MQTT_RX_MESSAGE_PACKET_TYPE_INVALID_ERROR;
      }
    }

    /** aws_iot_mqtt_internal_wait_for_read. */
    method WaitForRead(depth: nat, expectedType: nat) returns (rc: int)
      requires nextPacketId <= MAX_PACKET_ID && expectedType in {CONNACK, PUBACK, SUBACK, UNSUBACK}
      modifies this
      ensures clientState == old(clientState) || clientState == DisconnectedManually
      ensures EpisodeKept() && NoNewPing() && nextPacketId <= MAX_PACKET_ID && Grew(old(events), events, depth)
      ensures Waited(Did(old(events), events, depth), expectedType, rc)
      decreases depth, 4
    {
      hide Grew, GrewBelow, Did, Cycle, Ends, Waited;
      Nothing(events, depth);
      var readType := 0;
      var polls: nat := *;
      rc := SUCCESS;
      ghost var timedOut := false;
      var more := true;
      while more
        invariant clientState == old(clientState) || clientState == DisconnectedManually
        invariant EpisodeKept() && NoNewPing() && nextPacketId <= MAX_PACKET_ID && Grew(old(events), events, depth)
        invariant if more then Waiting(Did(old(events), events, depth), expectedType) && readType != expectedType
                  else Waited(Did(old(events), events, depth), expectedType, rc)
        invariant !more && rc != NETWORK_DISCONNECTED_ERROR ==> readType == expectedType
        decreases polls, more
      {
        ghost var before := events;
        if polls == 0 {
          rc := MQTT_REQUEST_TIMEOUT_ERROR;
          Log(depth, TimeUp);
          Joined(old(events), before, events, depth);
          WaitedOut(Did(old(events), before, depth), expectedType);
          break;
        }
        polls := polls - 1;
        ghost var oldType := readType;
        rc, readType := CycleRead(depth, readType);
        more := rc != NETWORK_DISCONNECTED_ERROR && readType != expectedType;
        Joined(old(events), before, events, depth);
        OneCycle(Did(old(events), before, depth), Did(before, events, depth), expectedType, oldType, readType, rc);
      }
      if rc != MQTT_REQUEST_TIMEOUT_ERROR && rc != NETWORK_DISCONNECTED_ERROR && readType != expectedType {
        rc := FAILURE;
      }
    }

    // ----- publish, subscribe, unsubscribe -----

    /** A request is sent and its acknowledgement awaited and parsed, which all three calls consist of. */
    method Exchange(depth: nat, request: nat, ackType: nat) returns (rc: int)
      requires nextPacketId <= MAX_PACKET_ID && ackType in {CONNACK, PUBACK, SUBACK, UNSUBACK}
      modifies this
      ensures clientState == old(clientState) || clientState == DisconnectedManually
      ensures EpisodeKept() && NoNewPing() && nextPacketId <= MAX_PACKET_ID && Grew(old(events), events, depth)
      ensures Exchanged(Did(old(events), events, depth), request, ackType, rc) && rc <= 0
      decreases depth, 5
    {
      hide Grew, GrewBelow, Did, Waited;
      rc := SendPacket(depth, request);
      if rc != SUCCESS {
        return;
      }
      ghost var sent := events;
      rc := WaitForRead(depth, ackType);
      Joined(old(events), sent, events, depth);
      ghost var wait := Did(sent, events, depth);
      WaitedSome(wait, ackType, rc);
      assert ([Sent(request)] + wait)[1..] == wait;
      if rc != SUCCESS {
        return;
      }
      ghost var acked := events;
      rc := Parse(depth, ackType);
      Joined(old(events), acked, events, depth);
      assert rc != SUCCESS ==> ([Sent(request)] + wait + [Misread(ackType, rc)])[1..|wait| + 1] == wait;
      assert rc == SUCCESS ==> [Sent(request)] + wait + [] == [Sent(request)] + wait;
    }

    /** _aws_iot_mqtt_internal_publish. */
    method InternalPublish(depth: nat, qos1: bool) returns (rc: int)
      requires nextPacketId <= MAX_PACKET_ID
      modifies this
      ensures clientState == old(clientState) || clientState == DisconnectedManually
      ensures EpisodeKept() && NoNewPing() && nextPacketId <= MAX_PACKET_ID && Grew(old(events), events, depth)
      ensures Published(Did(old(events), events, depth), qos1, rc)
      decreases depth, 6
    {
      hide Grew, GrewBelow, Did, Exchanged;
      if qos1 {
        var id := NextPacketId();
      }
      rc := Prepare(depth, PUBLISH);
      if rc != SUCCESS {
        return;
      }
      ghost var prepared := events;
      if qos1 {
        rc := Exchange(depth, PUBLISH, PUBACK);
      } else {
        rc := SendPacket(depth, PUBLISH);
      }
      Joined(old(events), prepared, events, depth);
      assert [] + Did(prepared, events, depth) == Did(prepared, events, depth);
    }

    /** The result of a call: that of its internal part, unless the state could not be put back. */
    twostate predicate Returns(rc: int, inner: int)
      reads this
    {
      rc == if inner == SUCCESS && clientState != old(clientState) then MQTT_UNEXPECTED_CLIENT_STATE_ERROR else inner
    }

    /** Whether a call of publish, subscribe or unsubscribe starts. */
    ghost predicate Free()
      reads this
    {
      clientState == Idle || clientState == WaitForCbReturn
    }

    /** aws_iot_mqtt_publish. */
    method Publish(depth: nat, qos1: bool) returns (rc: int)
      requires nextPacketId <= MAX_PACKET_ID
      modifies this
      ensures Settles() && EpisodeKept() && NoNewPing() && nextPacketId <= MAX_PACKET_ID
      ensures Grew(old(events), events, depth) && (rc == SUCCESS ==> clientState == old(clientState) && old(Free()))
      ensures old(Free()) ==> exists inner :: Published(Did(old(events), events, depth), qos1, inner) && Returns(rc, inner)
      ensures !old(Free()) ==> Did(old(events), events, depth) == []
      decreases depth, 7
    {
      hide Grew, GrewBelow, Did, Published;
      Nothing(events, depth);
      if !clientState.Connected() {
        return NETWORK_DISCONNECTED_ERROR;
      }
      var entry := clientState;
      if entry != Idle && entry != WaitForCbReturn {
        return MQTT_CLIENT_NOT_IDLE_ERROR;
      }
      rc := SetClientState(entry, PublishInProgress);
      if rc != SUCCESS {
        return;
      }
      var pubRc := InternalPublish(depth, qos1);
      rc := SetClientState(PublishInProgress, entry);
      if pubRc != SUCCESS || rc == SUCCESS {
        rc := pubRc;
      }
    }

    /** _aws_iot_mqtt_internal_subscribe. */
    method InternalSubscribe(depth: nat, topic: nat) returns (rc: int)
      requires nextPacketId <= MAX_PACKET_ID
      modifies this
      ensures clientState == old(clientState) || clientState == DisconnectedManually
      ensures EpisodeKept() && NoNewPing() && nextPacketId <= MAX_PACKET_ID && Grew(old(events), events, depth)
      ensures Subscribed(Did(old(events), events, depth), rc)
      ensures SubscribedTo(old(handlers), handlers, topic, Did(old(events), events, depth), rc)
      decreases depth, 6
    {
      hide Grew, GrewBelow, Did, Exchanged;
      var id := NextPacketId();
      rc := Prepare(depth, SUBSCRIBE);
      if rc != SUCCESS {
        return;
      }
      var free := FreeHandler(handlers);
      if NUM_SUBSCRIBE_HANDLERS <= free {
        return MQTT_MAX_SUBSCRIPTIONS_REACHED_ERROR;
      }
      ghost var prepared := events;
      rc := Exchange(depth, SUBSCRIBE, SUBACK);
      Joined(old(events), prepared, events, depth);
      assert [] + Did(prepared, events, depth) == Did(prepared, events, depth);
      ExchangedSome(Did(prepared, events, depth), SUBSCRIBE, SUBACK, rc);
      if rc != SUCCESS {
        return;
      }
      handlers := handlers[free := On(topic)];
    }

    /** The handler that was the first unused one has the topic after success; without one nothing is sent. */
    static ghost predicate SubscribedTo(before: Handlers, after: Handlers, topic: nat, own: seq<What>, rc: int) {
      || (|own| == 1 && own[0].Unbuilt?)
      || exists free: nat :: FirstUnused(before, free) &&
           if free == NUM_SUBSCRIBE_HANDLERS then own == [] && rc == MQTT_MAX_SUBSCRIPTIONS_REACHED_ERROR
           else own != [] && (rc == SUCCESS ==> after[free] == On(topic))
    }

    /** aws_iot_mqtt_subscribe. */
    method Subscribe(depth: nat, topic: nat) returns (rc: int)
      requires nextPacketId <= MAX_PACKET_ID
      modifies this
      ensures Settles() && EpisodeKept() && NoNewPing() && nextPacketId <= MAX_PACKET_ID
      ensures Grew(old(events), events, depth) && (rc == SUCCESS ==> clientState == old(clientState) && old(Free()))
      ensures old(Free()) ==>
                exists inner :: Subscribed(Did(old(events), events, depth), inner) && Returns(rc, inner)
                                && SubscribedTo(old(handlers), handlers, topic, Did(old(events), events, depth), inner)
      ensures !old(Free()) ==> Did(old(events), events, depth) == []
      decreases depth, 7
    {
      hide Grew, GrewBelow, Did, Subscribed, SubscribedTo;
      Nothing(events, depth);
      if !clientState.Connected() {
        return NETWORK_DISCONNECTED_ERROR;
      }
      var entry := clientState;
      if entry != Idle && entry != WaitForCbReturn {
        return MQTT_CLIENT_NOT_IDLE_ERROR;
      }
      rc := SetClientState(entry, SubscribeInProgress);
      if rc != SUCCESS {
        return;
      }
      var subRc := InternalSubscribe(depth, topic);
      rc := SetClientState(SubscribeInProgress, entry);
      if subRc != SUCCESS || rc == SUCCESS {
        rc := subRc;
      }
    }

    /** _aws_iot_mqtt_internal_unsubscribe. */
    method InternalUnsubscribe(depth: nat, topic: nat) returns (rc: int)
      requires nextPacketId <= MAX_PACKET_ID
      modifies this
      ensures clientState == old(clientState) || clientState == DisconnectedManually
      ensures EpisodeKept() && NoNewPing() && nextPacketId <= MAX_PACKET_ID && Grew(old(events), events, depth)
      ensures Requested(Did(old(events), events, depth), UNSUBSCRIBE, UNSUBACK, rc)
      ensures rc == SUCCESS ==> On(topic) !in handlers
      decreases depth, 6
    {
      var id := NextPacketId();
      rc := Request(depth, UNSUBSCRIBE, UNSUBACK);
      if rc != SUCCESS {
        return;
      }
      ghost var before, done := clientState, events;
      var i := 0;
      while i < NUM_SUBSCRIBE_HANDLERS
        invariant 0 <= i <= NUM_SUBSCRIBE_HANDLERS && forall k :: 0 <= k < i ==> handlers[k] != On(topic)
        invariant clientState == before && events == done && EpisodeKept() && NoNewPing() && nextPacketId <= MAX_PACKET_ID
      {
        if handlers[i] == On(topic) {
          handlers := handlers[i := Unused];
        }
        i := i + 1;
      }
    }

    /** A request from the serializer on. */
    method Request(depth: nat, request: nat, ackType: nat) returns (rc: int)
      requires nextPacketId <= MAX_PACKET_ID && ackType in {CONNACK, PUBACK, SUBACK, UNSUBACK}
      modifies this
      ensures clientState == old(clientState) || clientState == DisconnectedManually
      ensures EpisodeKept() && NoNewPing() && nextPacketId <= MAX_PACKET_ID && Grew(old(events), events, depth)
      ensures Requested(Did(old(events), events, depth), request, ackType, rc) && rc <= 0
      decreases depth, 6, 0
    {
      hide Grew, GrewBelow, Did, Exchanged;
      rc := Prepare(depth, request);
      if rc != SUCCESS {
        return;
      }
      ghost var prepared := events;
      rc := Exchange(depth, request, ackType);
      Joined(old(events), prepared, events, depth);
      assert [] + Did(prepared, events, depth) == Did(prepared, events, depth);
    }

    /** aws_iot_mqtt_unsubscribe. */
    method Unsubscribe(depth: nat, topic: nat) returns (rc: int)
      requires nextPacketId <= MAX_PACKET_ID
      modifies this
      ensures Settles() && EpisodeKept() && NoNewPing() && nextPacketId <= MAX_PACKET_ID
      ensures Grew(old(events), events, depth) && (rc == SUCCESS ==> clientState == old(clientState) && old(Free()))
      ensures old(Free()) ==>
                exists inner :: Requested(Did(old(events), events, depth), UNSUBSCRIBE, UNSUBACK, inner) && Returns(rc, inner)
                                && (inner == SUCCESS ==> On(topic) !in handlers)
      ensures !old(Free()) ==> Did(old(events), events, depth) == []
      decreases depth, 7
    {
      hide Grew, GrewBelow, Did, Requested;
      Nothing(events, depth);
      if !clientState.Connected() {
        return NETWORK_DISCONNECTED_ERROR;
      }
      var entry := clientState;
      if entry != Idle && entry != WaitForCbReturn {
        return MQTT_CLIENT_NOT_IDLE_ERROR;
      }
      rc := SetClientState(entry, UnsubscribeInProgress);
      if rc != SUCCESS {
        return;
      }
      var unsubRc := InternalUnsubscribe(depth, topic);
      rc := SetClientState(UnsubscribeInProgress, entry);
      if unsubRc != SUCCESS || rc == SUCCESS {
        rc := unsubRc;
      }
    }

    /** aws_iot_mqtt_resubscribe with its internal loop: one exchange for each handler before the first free one. */
    method Resubscribe(depth: nat) returns (rc: int, ghost parts: seq<seq<What>>)
      requires nextPacketId <= MAX_PACKET_ID
      modifies this
      ensures Settles() && EpisodeKept() && NoNewPing() && nextPacketId <= MAX_PACKET_ID
      ensures Grew(old(events), events, depth)
      ensures rc <= 0 && (rc == SUCCESS ==> clientState == old(clientState) == Idle)
      ensures old(clientState) != Idle ==> clientState == old(clientState)
      ensures Did(old(events), events, depth) == Flat(parts) && (old(clientState) != Idle ==> parts == [])
      ensures old(clientState) == Idle ==> exists inner :: Resubscribed(parts, inner) && Returns(rc, inner)
                                                           && (inner == SUCCESS ==> FirstUnused(old(handlers), |parts|))
      decreases depth, 7
    {
      hide Grew, GrewBelow, Did, Requested;
      Nothing(events, depth);
      parts := [];
      if !clientState.Connected() {
        return NETWORK_DISCONNECTED_ERROR, parts;
      }
      if clientState != Idle {
        return MQTT_CLIENT_NOT_IDLE_ERROR, parts;
      }
      rc := SetClientState(Idle, ResubscribeInProgress);
      if rc != SUCCESS {
        return;
      }
      var resubRc := SUCCESS;
      var existing := FreeHandler(handlers);
      var itr := 0;
      while itr < existing
        invariant itr == |parts| <= existing
        invariant clientState == ResubscribeInProgress || clientState == DisconnectedManually
        invariant EpisodeKept() && NoNewPing() && nextPacketId <= MAX_PACKET_ID && Grew(old(events), events, depth)
        invariant Did(old(events), events, depth) == Flat(parts) && resubRc == SUCCESS && Resubscribed(parts, resubRc)
      {
        itr := itr + 1;
        var id := NextPacketId();
        ghost var before := events;
        resubRc := Request(depth, SUBSCRIBE, SUBACK);
        Joined(old(events), before, events, depth);
        FlatMore(parts, Did(before, events, depth));
        parts := parts + [Did(before, events, depth)];
        assert Resubscribed(parts, resubRc) && resubRc <= 0;
        if resubRc != SUCCESS {
          break;
        }
      }
      rc := SetClientState(ResubscribeInProgress, Idle);
      assert Resubscribed(parts, resubRc);
      if resubRc != SUCCESS || rc == SUCCESS {
        rc := resubRc;
      }
    }

    // ----- connecting and disconnecting -----

    /** _aws_iot_mqtt_internal_disconnect: the DISCONNECT packet, then the network stack. */
    method InternalDisconnect(depth: nat) returns (rc: int)
      modifies this`events
      ensures LocalCode(rc) && Grew(old(events), events, depth) && Disconnected(Did(old(events), events, depth), rc)
    {
      hide Grew, GrewBelow, Did;
      rc := Prepare(depth, DISCONNECT);
      if rc != SUCCESS {
        return;
      }
      ghost var prepared := events;
      rc := SendPacket(depth, DISCONNECT);
      Joined(old(events), prepared, events, depth);
      if rc != SUCCESS {
        return;
      }
      ghost var sent := events;
      var ok := CloseNetwork(depth);
      Joined(old(events), sent, events, depth);
      rc := if ok then SUCCESS else FAILURE;
    }

    /** aws_iot_mqtt_disconnect. */
    method Disconnect(depth: nat) returns (rc: int)
      modifies this`clientState, this`events
      ensures Settles() && Grew(old(events), events, depth)
      ensures rc == SUCCESS <==> old(clientState).Connected() && clientState == DisconnectedManually
      ensures rc != SUCCESS ==> clientState == old(clientState)
      ensures if old(clientState).Connected() then Disconnected(Did(old(events), events, depth), rc)
              else rc == NETWORK_DISCONNECTED_ERROR && Did(old(events), events, depth) == []
    {
      hide Grew, GrewBelow, Did, Disconnected;
      Nothing(events, depth);
      var entry := clientState;
      if !clientState.Connected() {
        return NETWORK_DISCONNECTED_ERROR;
      }
      rc := SetClientState(entry, Disconnecting);
      if rc != SUCCESS {
        return;
      }
      rc := InternalDisconnect(depth);
      if rc != SUCCESS {
        clientState := entry;
      } else {
        clientState := DisconnectedManually;
      }
    }

    /** _aws_iot_mqtt_internal_connect. */
    method InternalConnect(depth: nat) returns (rc: int)
      requires nextPacketId <= MAX_PACKET_ID
      modifies this
      ensures clientState == old(clientState) || clientState == DisconnectedManually
      ensures EpisodeKept() && NoNewPing() && nextPacketId <= MAX_PACKET_ID && Grew(old(events), events, depth)
      ensures Connected(Did(old(events), events, depth), rc) && (rc == SUCCESS ==> !isPingOutstanding)
      decreases depth, 6
    {
      hide Grew, GrewBelow, Did, Exchanged;
      var network: int := *;
      Log(depth, Link(network));
      if network != SUCCESS {
        return network;
      }
      keepAliveInterval := *;
      ghost var linked := events;
      rc := Prepare(depth, CONNECT);
      Joined(old(events), linked, events, depth);
      if rc != SUCCESS {
        return MQTT_CONNECTION_ERROR;
      }
      ghost var prepared := events;
      rc := Exchange(depth, CONNECT, CONNACK);
      ghost var exchange := Did(prepared, events, depth);
      Joined(old(events), prepared, events, depth);
      assert Did(old(events), events, depth) == [Link(SUCCESS)] + exchange;
      if rc != SUCCESS {
        ConnectFailedBy(exchange, rc);
        return;
      }
      var connackRc: int := *;
      ghost var exchanged := events;
      Log(depth, Connack(connackRc));
      Joined(old(events), exchanged, events, depth);
      if connackRc != MQTT_CONNACK_CONNECTION_ACCEPTED {
        // The refusals are all errors.
        rc := if connackRc < 0 then connackRc else FAILURE;
        ConnectedBy(exchange, connackRc, rc);
        return;
      }
      ConnectedBy(exchange, connackRc, SUCCESS);
      isPingOutstanding := false;
      return SUCCESS;
    }

    /** aws_iot_mqtt_connect. After a failure the network stack is closed. */
    method Connect(depth: nat) returns (rc: int)
      requires nextPacketId <= MAX_PACKET_ID
      modifies this
      ensures EpisodeKept() && NoNewPing() && nextPacketId <= MAX_PACKET_ID && Grew(old(events), events, depth)
      ensures !old(clientState).ValidForConnect() ==>
                rc == NETWORK_ALREADY_CONNECTED_ERROR && clientState == old(clientState)
                && Did(old(events), events, depth) == []
      ensures old(clientState).ValidForConnect() ==>
                clientState == DisconnectedManually || clientState == if rc == SUCCESS then Idle else DisconnectedError
      ensures old(clientState).ValidForConnect() ==>
                var own := Did(old(events), events, depth);
                if rc == SUCCESS then Connected(own, rc)
                else |own| > 0 && own[|own| - 1].Closed? && Connected(own[..|own| - 1], rc)
      ensures rc == SUCCESS ==> !isPingOutstanding
      decreases depth, 7
    {
      hide Grew, GrewBelow, Did, MqttEvents.Connected;
      Nothing(events, depth);
      var entry := clientState;
      if !entry.ValidForConnect() {
        return NETWORK_ALREADY_CONNECTED_ERROR;
      }
      var ignored := SetClientState(entry, Connecting);
      rc := InternalConnect(depth);
      if rc != SUCCESS {
        ghost var failed := events;
        var closed := CloseNetwork(depth);
        Joined(old(events), failed, events, depth);
        assert (Did(old(events), failed, depth) + [Closed(closed)])[..|Did(old(events), failed, depth)|] == Did(old(events), failed, depth);
        ignored := SetClientState(Connecting, DisconnectedError);
      } else {
        ignored := SetClientState(Connecting, Idle);
      }
    }

    /** aws_iot_mqtt_attempt_reconnect. */
    method AttemptReconnect(depth: nat) returns (rc: int)
      requires nextPacketId <= MAX_PACKET_ID
      modifies this
      ensures EpisodeKept() && NoNewPing() && nextPacketId <= MAX_PACKET_ID && Grew(old(events), events, depth)
      ensures old(clientState).Connected() ==>
                rc == NETWORK_ALREADY_CONNECTED_ERROR && clientState == old(clientState)
                && Did(old(events), events, depth) == []
      ensures old(clientState).ValidForConnect() ==>
                clientState == Idle || clientState == DisconnectedManually
                || (clientState == PendingReconnect && rc == NETWORK_ATTEMPTING_RECONNECT)
      ensures clientState == PendingReconnect && old(clientState) != PendingReconnect ==> (Orderly() <==> old(Backoff()))
      ensures old(LeftInOrder()) ==> LeftInOrder()
      ensures rc == NETWORK_RECONNECTED && old(clientState).ValidForConnect() ==>
                Reconnected(Did(old(events), events, depth)) && clientState == Idle && !isPingOutstanding
      decreases depth, 8
    {
      hide Grew, GrewBelow, Did, MqttEvents.Connected, Resubscribed;
      Nothing(events, depth);
      if clientState.Connected() {
        return NETWORK_ALREADY_CONNECTED_ERROR;
      }
      rc := Connect(depth);
      if clientState != Idle {
        var ignored := SetClientState(DisconnectedError, PendingReconnect);
        return NETWORK_ATTEMPTING_RECONNECT;
      }
      ghost var connected := events;
      ghost var parts;
      rc, parts := Resubscribe(depth);
      Joined(old(events), connected, events, depth);
      if rc != SUCCESS {
        return;
      }
      ReconnectedBy(Did(old(events), connected, depth), parts);
      return NETWORK_RECONNECTED;
    }

    // ----- yield -----

    /** _aws_iot_mqtt_force_client_disconnect and _aws_iot_mqtt_handle_disconnect. */
    method HandleDisconnect(depth: nat) returns (rc: int)
      requires nextPacketId <= MAX_PACKET_ID
      modifies this
      ensures clientState == DisconnectedError && rc == NETWORK_DISCONNECTED_ERROR
      ensures EpisodeKept() && NoNewPing() && nextPacketId <= MAX_PACKET_ID && Grew(old(events), events, depth)
      ensures var own := Did(old(events), events, depth); own != [] && own[|own| - 1].Closed?
      decreases depth, 8
    {
      hide Grew, GrewBelow, Did;
      rc := Disconnect(depth);
      if rc != SUCCESS {
        clientState := DisconnectedError;
        ghost var before := events;
        var closed := CloseNetwork(depth);
        Joined(old(events), before, events, depth);
      }
      var handler: bool := *;
      if handler {
        ghost var before := events;
        Callback(depth);
        Below(before, events, depth);
        Joined(old(events), before, events, depth);
        assert Did(old(events), before, depth) + [] == Did(old(events), before, depth);
      }
      clientState := DisconnectedError;
      return NETWORK_DISCONNECTED_ERROR;
    }

    /** _aws_iot_mqtt_keep_alive. */
    method KeepAlive(depth: nat) returns (rc: int)
      requires nextPacketId <= MAX_PACKET_ID
      modifies this
      ensures EpisodeKept() && nextPacketId <= MAX_PACKET_ID && Grew(old(events), events, depth)
      ensures if rc == NETWORK_DISCONNECTED_ERROR then clientState == DisconnectedError else clientState == old(clientState)
      ensures rc != NETWORK_ATTEMPTING_RECONNECT
      ensures var own := Did(old(events), events, depth);
              && KeptAlive(own, old(isPingOutstanding), rc)
              && (own[0] == NoKeepAlive <==> old(keepAliveInterval) == 0)
              && (rc == SUCCESS ==> isPingOutstanding == (old(isPingOutstanding) || |own| == 2))
      decreases depth, 9
    {
      hide Grew, GrewBelow, Did;
      if keepAliveInterval == 0 {
        Log(depth, NoKeepAlive);
        return SUCCESS;
      }
      var pingTimerExpired: bool := *;
      Log(depth, PingTimer(pingTimerExpired));
      if !pingTimerExpired {
        return SUCCESS;
      }
      ghost var before := events;
      if isPingOutstanding {
        rc := HandleDisconnect(depth);
        Joined(old(events), before, events, depth);
        return;
      }
      rc := Prepare(depth, PINGREQ);
      Joined(old(events), before, events, depth);
      if rc != SUCCESS {
        return;
      }
      before := events;
      rc := SendPacket(depth, PINGREQ);
      Joined(old(events), before, events, depth);
      if rc != SUCCESS {
        before := events;
        rc := HandleDisconnect(depth);
        Joined(old(events), before, events, depth);
        return;
      }
      isPingOutstanding := true;
      return SUCCESS;
    }

    /** _aws_iot_mqtt_handle_reconnect. */
    method HandleReconnect(depth: nat) returns (rc: int)
      requires nextPacketId <= MAX_PACKET_ID
      requires clientState == PendingReconnect && currentReconnectWaitInterval <= MAX_RECONNECT_WAIT_INTERVAL
      modifies this
      ensures nextPacketId <= MAX_PACKET_ID && Grew(old(events), events, depth) && NoNewPing()
      ensures clientState in {PendingReconnect, Idle, YieldInProgress, DisconnectedManually}
      ensures old(Backoff()) ==> Orderly()
      ensures old(LeftInOrder()) ==> LeftInOrder()
      ensures currentReconnectWaitInterval in {old(currentReconnectWaitInterval), 2 * old(currentReconnectWaitInterval)}
      ensures clientState == YieldInProgress ==> rc == NETWORK_RECONNECTED
      ensures old(attempts) <= attempts <= old(attempts) + 1
      ensures var own := Did(old(events), events, depth);
              && own != [] && own[0].DelayTimer?
              && (!own[0].ranOut ==> |own| == 1 && rc == NETWORK_ATTEMPTING_RECONNECT && clientState == PendingReconnect
                                     && EpisodeKept())
              && (own[0].ranOut ==> |own| > 1 && own[1].Physical?
                                    && (attempts > old(attempts) <==> own[1].code == NETWORK_PHYSICAL_LAYER_CONNECTED)
                                    && if clientState == YieldInProgress then Reconnected(own[2..]) && EpisodeMovedOn()
                                       else rc == NETWORK_RECONNECTED || rc == MQTT_UNEXPECTED_CLIENT_STATE_ERROR
                                            || currentReconnectWaitInterval == 2 * old(currentReconnectWaitInterval))
      decreases depth, 9
    {
      hide Grew, GrewBelow, Did, Reconnected;
      var delayExpired: bool := *;
      Log(depth, DelayTimer(delayExpired));
      if !delayExpired {
        return NETWORK_ATTEMPTING_RECONNECT;
      }
      rc := NETWORK_PHYSICAL_LAYER_DISCONNECTED;
      var canAsk: bool := *;
      if canAsk {
        rc := *;
      }
      ghost var before := events;
      Log(depth, Physical(rc));
      Joined(old(events), before, events, depth);
      if rc == NETWORK_PHYSICAL_LAYER_CONNECTED {
        attempts := attempts + 1;
        before := events;
        rc := AttemptReconnect(depth);
        Joined(old(events), before, events, depth);
        assert Did(old(events), events, depth)[2..] == Did(before, events, depth);
        if rc == NETWORK_RECONNECTED {
          rc := SetClientState(Idle, YieldInProgress);
          if rc != SUCCESS {
            return;
          }
          return NETWORK_RECONNECTED;
        }
      }
      rc := ScheduleNext(rc);
    }

    /** One attempt more, and nothing else. */
    twostate predicate EpisodeMovedOn()
      reads this
    {
      currentReconnectWaitInterval == old(currentReconnectWaitInterval) && waits == old(waits)
      && begun == old(begun) && doublings == old(doublings) && attempts == old(attempts) + 1
    }

    /** The end of _aws_iot_mqtt_handle_reconnect: the interval doubles, and unless it is too long a wait starts. */
    method ScheduleNext(rc0: int) returns (rc: int)
      modifies this`currentReconnectWaitInterval, this`doublings, this`waits
      ensures currentReconnectWaitInterval == 2 * old(currentReconnectWaitInterval) && doublings == old(doublings) + 1
      ensures if currentReconnectWaitInterval > MAX_RECONNECT_WAIT_INTERVAL
              then rc == NETWORK_RECONNECT_TIMED_OUT_ERROR && waits == old(waits)
              else rc == rc0 && waits == old(waits) + [currentReconnectWaitInterval]
    {
      currentReconnectWaitInterval := currentReconnectWaitInterval * 2;
      doublings := doublings + 1;
      if MAX_RECONNECT_WAIT_INTERVAL < currentReconnectWaitInterval {
        return NETWORK_RECONNECT_TIMED_OUT_ERROR;
      }
      waits := waits + [currentReconnectWaitInterval];
      return rc0;
    }

    /** The start of a reconnect episode after a lost connection. */
    method StartReconnecting() returns (rc: int)
      requires clientState == DisconnectedError
      modifies this
      ensures rc == NETWORK_ATTEMPTING_RECONNECT && clientState == PendingReconnect
      ensures begun && Backoff() && attempts == 0
      ensures nextPacketId == old(nextPacketId) && events == old(events) && isPingOutstanding == old(isPingOutstanding)
    {
      rc := SetClientState(DisconnectedError, PendingReconnect);
      currentReconnectWaitInterval := MIN_RECONNECT_WAIT_INTERVAL;
      begun, waits, doublings, attempts := true, [currentReconnectWaitInterval], 0, 0;
      return NETWORK_ATTEMPTING_RECONNECT;
    }

    /** _aws_iot_mqtt_internal_yield. stuck: a read just handed one of the two codes of KeepsState to a client
        that was yielding. turns: what the turns of the loop did, each a read and the keep-alive, or a reconnection. */
    method InternalYield(depth: nat) returns (yieldRc: int, ghost stuck: bool, ghost turns: seq<seq<What>>)
      requires nextPacketId <= MAX_PACKET_ID
      requires clientState in {YieldInProgress, PendingReconnect}
      modifies this
      ensures nextPacketId <= MAX_PACKET_ID && Grew(old(events), events, depth)
      ensures old(Orderly()) ==> Orderly()
      ensures old(LeftInOrder()) ==> LeftInOrder()
      ensures clientState in {YieldInProgress, PendingReconnect, Idle, DisconnectedManually, DisconnectedError}
      ensures clientState == DisconnectedError ==> yieldRc == NETWORK_DISCONNECTED_ERROR && !isAutoReconnectEnabled
      ensures stuck <==> KeepsState(yieldRc) && clientState == YieldInProgress
      ensures stuck ==> Last(Did(old(events), events, depth), Lost(yieldRc))
      ensures old(Exhausted()) ==> Exhausted() && EpisodeKept()
      ensures Yielded(turns, yieldRc, Did(old(events), events, depth))
      decreases depth, 10
    {
      hide Grew, GrewBelow, Did, Cycle, KeptAlive, Turn, AllTurns, Flat, Last, Yielded, InOrder;
      Nothing(events, depth);
      NoTurns();
      yieldRc, stuck, turns := SUCCESS, false, [];
      var polls: nat := *;
      while polls > 0
        invariant nextPacketId <= MAX_PACKET_ID && !stuck && Grew(old(events), events, depth)
        invariant (old(Orderly()) ==> Orderly()) && (old(LeftInOrder()) ==> LeftInOrder())
        invariant clientState in {YieldInProgress, PendingReconnect, Idle, DisconnectedManually}
        invariant clientState == YieldInProgress ==> !KeepsState(yieldRc)
        invariant old(Exhausted()) ==> Exhausted() && EpisodeKept()
        invariant Did(old(events), events, depth) == Flat(turns) && AllTurns(turns)
        decreases polls
      {
        polls := polls - 1;
        ghost var before := events;
        if clientState == PendingReconnect {
          if MAX_RECONNECT_WAIT_INTERVAL < currentReconnectWaitInterval {
            yieldRc := NETWORK_RECONNECT_TIMED_OUT_ERROR;
            YieldedBy(turns, yieldRc);
            return;
          }
          yieldRc := HandleReconnect(depth);
          Joined(old(events), before, events, depth);
          ReconnectTurn(Did(before, events, depth));
          OneMoreTurn(turns, Did(before, events, depth));
          turns := turns + [Did(before, events, depth)];
          continue;
        }
        var packetType;
        label Read:
        yieldRc, packetType := CycleRead(depth, 0);
        OrderKept@Read();
        Joined(old(events), before, events, depth);
        ghost var read := Did(before, events, depth);
        if yieldRc != SUCCESS {
          stuck := KeepsState(yieldRc) && clientState == YieldInProgress;
          YieldFailedBy(turns, read, packetType, yieldRc);
          turns := turns + [read];
          return;
        }
        ghost var pinging, middle := isPingOutstanding, events;
        label Watch:
        yieldRc := KeepAlive(depth);
        OrderKept@Watch();
        Joined(before, middle, events, depth);
        Joined(old(events), before, events, depth);
        ReadTurn(read, packetType, Did(middle, events, depth), pinging, yieldRc);
        OneMoreTurn(turns, read + Did(middle, events, depth));
        turns := turns + [read + Did(middle, events, depth)];
        YieldedBy(turns, yieldRc);
        if yieldRc == NETWORK_DISCONNECTED_ERROR {
          counterNetworkDisconnected := counterNetworkDisconnected + 1;
          OrderKept@Watch();
          if !isAutoReconnectEnabled {
            return;
          }
          yieldRc := StartReconnecting();
        } else if yieldRc != SUCCESS {
          return;
        }
      }
      ghost var before := events;
      label End:
      Log(depth, TimeUp);
      OrderKept@End();
      Joined(old(events), before, events, depth);
      YieldedBy(turns, yieldRc);
    }

    /** Waiting to reconnect, with the interval beyond its maximum. */
    ghost predicate Exhausted()
      reads this
    {
      clientState == PendingReconnect && currentReconnectWaitInterval > MAX_RECONNECT_WAIT_INTERVAL
    }

    /** aws_iot_mqtt_yield. It does nothing unless the client is idle or waiting to reconnect, and then leaves it
        idle, waiting, or disconnected. The one exception is the client left yielding because a read handed on a
        code that equals one of the two results in KeepsState. */
    method Yield(depth: nat) returns (rc: int, ghost stuck: bool)
      requires nextPacketId <= MAX_PACKET_ID
      modifies this
      ensures nextPacketId <= MAX_PACKET_ID && Grew(old(events), events, depth)
      ensures old(Orderly()) ==> Orderly()
      ensures old(LeftInOrder()) ==> LeftInOrder()
      ensures old(clientState) !in {Idle, PendingReconnect} ==>
                clientState == old(clientState) && EpisodeKept() && NoNewPing() && Did(old(events), events, depth) == []
      ensures old(clientState) in {Idle, PendingReconnect} ==>
                clientState in {Idle, PendingReconnect, DisconnectedError, DisconnectedManually, YieldInProgress}
                && (clientState == YieldInProgress <==> stuck)
      ensures old(clientState) in {Idle, PendingReconnect} && clientState == DisconnectedError ==>
                rc == NETWORK_DISCONNECTED_ERROR && !isAutoReconnectEnabled
      ensures stuck ==> KeepsState(rc) && Last(Did(old(events), events, depth), Lost(rc))
      ensures rc == SUCCESS ==> clientState == Idle && Last(Did(old(events), events, depth), TimeUp)
      ensures old(Exhausted()) ==> Exhausted() && EpisodeKept()
      decreases depth, 11
    {
      hide Grew, GrewBelow, Did, Yielded, Last;
      Nothing(events, depth);
      stuck := false;
      var entry := clientState;
      if entry == DisconnectedManually {
        return NETWORK_MANUALLY_DISCONNECTED, stuck;
      }
      if entry != PendingReconnect {
        if !clientState.Connected() {
          return NETWORK_DISCONNECTED_ERROR, stuck;
        }
        if entry != Idle {
          return MQTT_CLIENT_NOT_IDLE_ERROR, stuck;
        }
        rc := SetClientState(Idle, YieldInProgress);
        if rc != SUCCESS {
          return;
        }
      }
      var yieldRc;
      ghost var turns;
      yieldRc, stuck, turns := InternalYield(depth);
      if yieldRc == SUCCESS {
        YieldedSuccess(turns, Did(old(events), events, depth));
      }
      if yieldRc != NETWORK_DISCONNECTED_ERROR && yieldRc != NETWORK_ATTEMPTING_RECONNECT {
        rc := SetClientState(YieldInProgress, Idle);
        if yieldRc == SUCCESS && rc != SUCCESS {
          yieldRc := rc;
        }
      }
      rc := yieldRc;
    }
  }

  /** What an orderly episode amounts to: the waits are 1000, 2000, 4000 and 8000 milliseconds in this order, there
      are four attempts at most, the interval stays within 16000, and it is beyond the maximum once it was doubled
      four times. */
  lemma BackoffBounds(c: Client)
    requires c.Backoff()
    ensures c.waits <= [1000, 2000, 4000, 8000] && c.attempts <= 4
    ensures 1000 <= c.currentReconnectWaitInterval <= 16000
    ensures c.currentReconnectWaitInterval > MAX_RECONNECT_WAIT_INTERVAL <==> c.doublings == 4
  {
    assert Interval(1) == 2000 && Interval(2) == 4000 && Interval(3) == 8000 && Interval(4) == 16000 by {
      assert Interval(2) == 2 * Interval(1) && Interval(3) == 2 * Interval(2) && Interval(4) == 2 * Interval(3);
    }
  }

  // ----- whole runs -----

  /** The states in which the application finds the client between its calls. */
  predicate Resting(s: ClientState) {
    s in {Initialized, Idle, PendingReconnect, DisconnectedError, DisconnectedManually}
  }

  /** No read returned one of the two codes that yield takes for its own. */
  ghost predicate PlainTransport(events: seq<Event>) {
    forall i :: 0 <= i < |events| && events[i].what.Lost? ==> !KeepsState(events[i].what.code)
  }

  /** A call that does not make a reconnection pending by hand on top of an interval that is out of order:
      every call but a manual reconnect, and that too while one is pending or where the episode left behind
      backs off. */
  ghost predicate KeepsOrder(c: Client, which: int)
    reads c
  {
    which == 7 ==> c.clientState == PendingReconnect || c.Backoff()
  }

  /** Any sequence of top-level calls, manual reconnects in every state among them. As long as the transport
      reads plainly, no call leaves the client in a state of an operation in progress. The interval left behind
      by an episode stays in order throughout, and as long as every manual reconnect keeps the order, so does
      every pending reconnection, with its attempts counted. */
  method AnyRun(c: Client, depth: nat, steps: nat) returns (ghost kept: bool)
    requires Resting(c.clientState) && c.Orderly() && c.LeftInOrder() && c.nextPacketId <= MAX_PACKET_ID
    modifies c
    ensures PlainTransport(c.events) ==> Resting(c.clientState)
    ensures c.LeftInOrder() && (kept ==> c.Orderly())
  {
    kept := true;
    var left := steps;
    while left > 0
      invariant PlainTransport(c.events) ==> Resting(c.clientState)
      invariant c.LeftInOrder() && (kept ==> c.Orderly()) && c.nextPacketId <= MAX_PACKET_ID
      decreases left
    {
      left := left - 1;
      var which: int := *;
      kept := kept && KeepsOrder(c, which);
      OneCall(c, depth, which);
    }
  }

  method OneCall(c: Client, depth: nat, which: int)
    requires c.nextPacketId <= MAX_PACKET_ID
    modifies c
    ensures Grew(old(c.events), c.events, depth) && c.nextPacketId <= MAX_PACKET_ID
    ensures old(Resting(c.clientState)) && PlainTransport(c.events) ==> Resting(c.clientState)
    ensures old(c.LeftInOrder()) ==> c.LeftInOrder()
    ensures old(c.Orderly() && KeepsOrder(c, which)) ==> c.Orderly()
    ensures which == 7 && old(c.clientState) != PendingReconnect && c.clientState == PendingReconnect ==>
              (c.Orderly() <==> old(KeepsOrder(c, which)))
  {
    var rc;
    if which == 0 {
      var qos1: bool := *;
      rc := c.Publish(depth, qos1);
    } else if which == 1 {
      var topic: nat := *;
      rc := c.Subscribe(depth, topic);
    } else if which == 2 {
      var topic: nat := *;
      rc := c.Unsubscribe(depth, topic);
    } else if which == 3 {
      ghost var parts;
      rc, parts := c.Resubscribe(depth);
    } else if which == 4 {
      rc := c.Disconnect(depth);
    } else if which == 5 {
      ghost var stuck;
      rc, stuck := c.Yield(depth);
      if stuck {
        DidFrom(old(c.events), c.events, depth, Lost(rc));
      }
    } else if which == 6 {
      rc := c.Connect(depth);
    } else if which == 7 {
      rc := c.AttemptReconnect(depth);
    } else {
      c.isAutoReconnectEnabled := *;
    }
  }
}

