/** Return codes, client states and configuration constants of the MQTT client. */
module MqttCodes {

  const NETWORK_PHYSICAL_LAYER_CONNECTED: int := 6
  const NETWORK_MANUALLY_DISCONNECTED: int := 5
  const NETWORK_ATTEMPTING_RECONNECT: int := 4
  const NETWORK_RECONNECTED: int := 3
  const MQTT_NOTHING_TO_READ: int := 2
  const MQTT_CONNACK_CONNECTION_ACCEPTED: int := 1
  const SUCCESS: int := 0
  const FAILURE: int := -1
  const NETWORK_DISCONNECTED_ERROR: int := -13
  const NETWORK_RECONNECT_TIMED_OUT_ERROR: int := -14
  const NETWORK_ALREADY_CONNECTED_ERROR: int := -15
  const NETWORK_PHYSICAL_LAYER_DISCONNECTED: int := -18
  const NETWORK_SSL_NOTHING_TO_READ: int := -25
  const MQTT_CONNECTION_ERROR: int := -26
  const MQTT_REQUEST_TIMEOUT_ERROR: int := -28
  const MQTT_UNEXPECTED_CLIENT_STATE_ERROR: int := -29
  const MQTT_CLIENT_NOT_IDLE_ERROR: int := -30
  const MQTT_RX_MESSAGE_PACKET_TYPE_INVALID_ERROR: int := -31
  const MQTT_RX_BUFFER_TOO_SHORT_ERROR: int := -32
  const MQTT_TX_BUFFER_TOO_SHORT_ERROR: int := -33
  const MQTT_MAX_SUBSCRIPTIONS_REACHED_ERROR: int := -34
  const MQTT_DECODE_REMAINING_LENGTH_ERROR: int := -35

  const MIN_RECONNECT_WAIT_INTERVAL: nat := 1000
  const MAX_RECONNECT_WAIT_INTERVAL: nat := 8000
  const NUM_SUBSCRIBE_HANDLERS: nat := 5
  const MAX_PACKET_ID: nat := 65535

  // Packet types.
  const CONNECT: nat := 1
  const CONNACK: nat := 2
  const PUBLISH: nat := 3
  const PUBACK: nat := 4
  const PUBREC: nat := 5
  const PUBCOMP: nat := 7
  const SUBSCRIBE: nat := 8
  const SUBACK: nat := 9
  const UNSUBSCRIBE: nat := 10
  const UNSUBACK: nat := 11
  const PINGREQ: nat := 12
  const PINGRESP: nat := 13
  const DISCONNECT: nat := 14

  datatype ClientState =
    | Invalid
    | Initialized
    | Connecting
    | Idle
    | YieldInProgress
    | PublishInProgress
    | SubscribeInProgress
    | UnsubscribeInProgress
    | ResubscribeInProgress
    | WaitForCbReturn
    | Disconnecting
    | DisconnectedError
    | DisconnectedManually
    | PendingReconnect
  {
    /** The switch of aws_iot_mqtt_is_client_connected. */
    predicate Connected() {
      Idle? || YieldInProgress? || PublishInProgress? || SubscribeInProgress? || UnsubscribeInProgress?
      || ResubscribeInProgress? || WaitForCbReturn?
    }

    /** The switch of _aws_iot_mqtt_is_client_state_valid_for_connect. */
    predicate ValidForConnect() {
      Initialized? || DisconnectedError? || DisconnectedManually? || PendingReconnect?
    }
  }
}
