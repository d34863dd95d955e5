/**
 * The configuration values the decoding and publication logic of
 * src/hnet_decoder.py reads, once loading and environment substitution are done.
 */
module Config {

  datatype Config = Config(
    indoorAddr: int,          // hnet.indoor_controller_addr
    invalidSensorValue: int,  // hnet.invalid_sensor_value
    publishPrefix: string,    // mqtt.publish_prefix
    qos: int,                 // mqtt.qos
    retain: bool,             // mqtt.retain
    discoveryEnabled: bool,   // homeassistant.discovery_enabled
    saveUnknownFrames: bool,  // debug.save_unknown_frames
    discoveryPrefix: string,  // homeassistant.discovery_prefix
    deviceName: string,       // homeassistant.device_name
    deviceId: string,         // homeassistant.device_id
    manufacturer: string,     // homeassistant.manufacturer
    model: string,            // homeassistant.model
    swVersion: string         // homeassistant.sw_version
  )

  /** The values `_get_default_config` supplies when no configuration file is found. */
  const DefaultConfig: Config := Config(
    indoorAddr := 0x21,
    invalidSensorValue := 129,
    publishPrefix := "PDC",
    qos := 1,
    retain := true,
    discoveryEnabled := true,
    saveUnknownFrames := true,
    discoveryPrefix := "homeassistant",
    deviceName := "Hisense Heat Pump",
    deviceId := "hisense_hnet",
    manufacturer := "Hisense",
    model := "H-NET Heat Pump",
    swVersion := "1.0.0"
  )
}
