/**
 * What the decoder hands to the MQTT client and to the diagnostics file.
 * The JSON documents of src/hnet_decoder.py are records here, one field per key,
 * with an Option for a key that is present only sometimes.
 */
module Messages {

  import opened Wrappers

  /** The value types a decoder passes to `_publish_mqtt_value` (no decoder passes a float). */
  datatype Value = Text(s: string) | Number(n: int) | Flag(b: bool)

  /** One `_publish_mqtt_value(topic_suffix, value, unit)` call of a decoder. */
  datatype Reading = Reading(suffix: string, value: Value, unit: Option<string>)

  /** The two renderings of `datetime.now()`: `isoformat()` and `"%Y-%m-%d %H:%M:%S"`. */
  datatype Clock = Clock(iso: string, stamp: string)

  /** `_get_ha_device_info`. */
  datatype DeviceInfo = DeviceInfo(
    identifiers: seq<string>,
    name: string,
    manufacturer: string,
    model: string,
    swVersion: string,
    viaDevice: string)

  /** The discovery document of one entity. */
  datatype DiscoveryConfig = DiscoveryConfig(
    uniqueId: string,
    name: string,
    stateTopic: string,
    device: DeviceInfo,
    availabilityTopic: string,
    payloadAvailable: string,
    payloadNotAvailable: string,
    unitOfMeasurement: Option<string>,
    deviceClass: Option<string>,
    icon: Option<string>,
    payloadOn: Option<string>,
    payloadOff: Option<string>,
    jsonAttributesTopic: string)

  datatype Payload =
    | Plain(text: string)                                             // a bare value in Home Assistant mode
    | Attributes(timestamp: string, lastUpdated: string, unitOfMeasurement: Option<string>)
    | Legacy(value: Value, timestamp: string, unit: Option<string>)   // {"value", "timestamp", "unit"}
    | Discovery(config: DiscoveryConfig)

  /** One `client.publish(topic, payload, qos, retain)`. */
  datatype Publish = Publish(topic: string, payload: Payload, qos: int, retain: bool)

  /** One line of the unknown-frames file: the reason and the hex dump of the frame. */
  datatype Archived = Archived(reason: string, dump: string)
}
