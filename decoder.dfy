/**
 * The `HNetProtocolDecoder` object of src/hnet_decoder.py as a class whose state is
 * what it has handed on so far: the publications given to the MQTT client, the
 * lines written to the unknown-frames file, and the `ha_discovery_sent` set.
 * Every method is proved to change that state exactly as the functions of
 * `Fields`, `Formatter` and `Discovery` say.
 */
module Decoder {

  import opened Wrappers
  import opened Bytes
  import opened Text
  import opened Config
  import opened Tables
  import opened Messages
  import opened Checksum
  import opened Hex
  import opened Fields
  import opened Formatter
  import opened Discovery

  /**
   * The text `_decode_datetime` publishes: the seven bytes read as century, year, month,
   * day (stored with 32 added), hour, minute and second, or nothing when one is zero.
   */
  method DatetimeText(b: seq<byte>) returns (text: Option<string>)
    ensures text == DecodeDateTime(b)
  {
    if |b| < 7 {
      return None;
    }
    var year: Option<int> := if b[0] != 0 then Some(b[0] as int) else None;
    if b[1] != 0 && year.None? {
      DecodeDateTimeSound(b);
      return None;  // `None * 100` raises TypeError, which the handler logs
    }
    year := if b[1] != 0 then Some(year.value * 100 + b[1] as int) else None;
    var month: Option<int> := if b[2] != 0 then Some(b[2] as int) else None;
    var day: Option<int> := if b[3] != 0 then Some(b[3] as int - 32) else None;
    var hour: Option<int> := if b[4] != 0 then Some(b[4] as int) else None;
    var minute: Option<int> := if b[5] != 0 then Some(b[5] as int) else None;
    var second: Option<int> := if b[6] != 0 then Some(b[6] as int) else None;
    if year.Some? && month.Some? && day.Some? && hour.Some? && minute.Some? && second.Some? {
      text := Some(FormatDateTime(day.value, month.value, year.value, hour.value, minute.value, second.value));
      DecodeDateTimeValue(b);
    } else {
      text := None;
      DecodeDateTimeSound(b);
    }
  }

  class HNetProtocolDecoder {

    const cfg: Config
    /** Whether `self.client` was set up; without a client nothing is published. */
    const hasClient: bool

    /** Every `client.publish` call made so far, in order. */
    var published: seq<Publish>
    /** Every line appended to the unknown-frames file so far, in order. */
    var archived: seq<Archived>
    var haDiscoverySent: set<string>

    constructor (cfg: Config, hasClient: bool)
      ensures this.cfg == cfg && this.hasClient == hasClient
      ensures published == [] && archived == [] && haDiscoverySent == {}
    {
      this.cfg := cfg;
      this.hasClient := hasClient;
      published := [];
      archived := [];
      haDiscoverySent := {};
    }

    /** `_publish_mqtt_value`: `retain` None stands for the configured flag. */
    method PublishMqttValue(suffix: string, value: Value, unit: Option<string>, retain: Option<bool>,
                            haCompatible: bool, clock: Clock)
      modifies this
      ensures published == old(published) + ValuePublishes(cfg, hasClient, suffix, value, unit, retain, haCompatible, clock)
      ensures archived == old(archived) && haDiscoverySent == old(haDiscoverySent)
    {
      if !hasClient {
        return;
      }
      var keep := if retain.Some? then retain.value else cfg.retain;
      var fullTopic := cfg.publishPrefix + "/" + suffix;
      var unitKey := if unit.Some? && |unit.value| > 0 then unit else None;
      var payload: Payload;
      if haCompatible && cfg.discoveryEnabled {
        var text: string;
        match value {
          case Flag(b) => text := if b then "ON" else "OFF";
          case Number(n) => text := IntToString(n);
          case Text(s) =>
            if s == "online" {
              text := "online";
            } else if s == "offline" {
              text := "offline";
            } else {
              text := s;
            }
        }
        var attributesTopic := fullTopic + "/attributes";
        published := published + [Publish(attributesTopic, Attributes(clock.iso, clock.stamp, unitKey), cfg.qos, false)];
        payload := Plain(text);
      } else {
        payload := Legacy(value, clock.iso, unitKey);
      }
      published := published + [Publish(fullTopic, payload, cfg.qos, keep)];
    }

    /**
     * A decoder's `_publish_mqtt_value(topic_suffix, value, unit)` call, `retain` and
     * `ha_compatible` left at their defaults; `done` are the readings published since
     * the log was `base`.
     */
    method PublishReading(r: Reading, clock: Clock, ghost base: seq<Publish>, ghost done: seq<Reading>)
      returns (ghost done': seq<Reading>)
      requires published == base + Render(cfg, hasClient, done, clock)
      modifies this
      ensures done' == done + [r]
      ensures published == base + Render(cfg, hasClient, done', clock)
      ensures archived == old(archived) && haDiscoverySent == old(haDiscoverySent)
    {
      PublishMqttValue(r.suffix, r.value, r.unit, None, true, clock);
      RenderExtend(cfg, hasClient, base, done, r, clock);
      done' := done + [r];
    }

    /** `_save_unknown_frame`: one line with the reason and the spaced upper-case hex dump. */
    method SaveUnknownFrame(frame: seq<byte>, reason: string)
      modifies this
      ensures archived == old(archived) + [Archived(reason, Dump(frame))]
      ensures published == old(published) && haDiscoverySent == old(haDiscoverySent)
    {
      var hexData := Dump(frame);
      archived := archived + [Archived(reason, hexData)];
    }

    /** `_decode_datetime` on the bytes `frame[34:41]`. */
    method DecodeDatetime(b: seq<byte>, prefix: string, clock: Clock)
      modifies this
      ensures published == old(published) + Render(cfg, hasClient, DateTimeReadings(b, prefix), clock)
      ensures archived == old(archived) && haDiscoverySent == old(haDiscoverySent)
    {
      var datetimeStr := DatetimeText(b);
      if datetimeStr.Some? {
        var r := Reading(prefix + "/system_datetime", Text(datetimeStr.value), None);
        assert DateTimeReadings(b, prefix) == [] + [r];
        ghost var done := PublishReading(r, clock, old(published), []);
      } else {
        assert DateTimeReadings(b, prefix) == [];
      }
    }

    /**
     * The test the decoders repeat for a plain byte: `if len(frame) > k and frame[k] != 0`,
     * then `_publish_mqtt_value(suffix, frame[k], unit)`.
     */
    method PublishNonZero(frame: seq<byte>, k: nat, suffix: string, unit: Option<string>, clock: Clock,
                          ghost base: seq<Publish>, ghost done: seq<Reading>)
      returns (ghost done': seq<Reading>)
      requires published == base + Render(cfg, hasClient, done, clock)
      modifies this
      ensures done' == done + NonZero(frame, k, suffix, unit)
      ensures published == base + Render(cfg, hasClient, done', clock)
      ensures archived == old(archived) && haDiscoverySent == old(haDiscoverySent)
    {
      if |frame| > k && frame[k] != 0 {
        done' := PublishReading(Reading(suffix, Number(frame[k]), unit), clock, base, done);
      } else {
        done' := done + [];
        assert done' == done;
      }
    }

    /** Byte 13 of a status frame: the operating mode, when it is a listed one. */
    method PublishOperationMode(prefix: string, opMode: byte, clock: Clock, ghost base: seq<Publish>, ghost done: seq<Reading>)
      returns (ghost done': seq<Reading>)
      requires published == base + Render(cfg, hasClient, done, clock)
      modifies this
      ensures done' == done + (if opMode in OperationModes
        then [Reading(prefix + "/operation_mode", Text(OperationModes[opMode]), None)] else [])
      ensures published == base + Render(cfg, hasClient, done', clock)
      ensures archived == old(archived) && haDiscoverySent == old(haDiscoverySent)
    {
      if opMode in OperationModes {
        done' := PublishReading(Reading(prefix + "/operation_mode", Text(OperationModes[opMode]), None), clock, base, done);
      } else {
        done' := done + [];
        assert done' == done;
      }
    }

    /** The second indoor temperature: byte 26, published when byte 27 is nonzero. */
    method PublishSecondTemperature(frame: seq<byte>, prefix: string, clock: Clock, ghost base: seq<Publish>, ghost done: seq<Reading>)
      returns (ghost done': seq<Reading>)
      requires published == base + Render(cfg, hasClient, done, clock)
      modifies this
      ensures done' == done + (if |frame| > 27 && frame[27] != 0
        then [Reading(prefix + "/indoor_temperature_2", Number(frame[26]), Some(Celsius))] else [])
      ensures published == base + Render(cfg, hasClient, done', clock)
      ensures archived == old(archived) && haDiscoverySent == old(haDiscoverySent)
    {
      if |frame| > 27 && frame[27] != 0 {
        done' := PublishReading(Reading(prefix + "/indoor_temperature_2", Number(frame[26]), Some(Celsius)), clock, base, done);
      } else {
        done' := done + [];
        assert done' == done;
      }
    }

    /** Byte 10 of a status frame: a listed command, its mode and its cycle state. */
    method PublishOperationCommand(prefix: string, opCmd: byte, clock: Clock)
      modifies this
      ensures published == old(published) + Render(cfg, hasClient, CommandReadings(prefix, opCmd), clock)
      ensures archived == old(archived) && haDiscoverySent == old(haDiscoverySent)
    {
      if opCmd !in OperationCommands {
        assert old(published) + [] == old(published);
        return;
      }
      var opDescription := OperationCommands[opCmd];
      ghost var done: seq<Reading> := [];
      done := PublishReading(Reading(prefix + "/operation_command", Text(opDescription), None), clock, old(published), done);
      var mode: string;
      if Contains(opDescription, "AUTO") {
        mode := "AUTO";
      } else if Contains(opDescription, "COOLING") {
        mode := "COOLING";
      } else if Contains(opDescription, "HEATING") {
        mode := "HEATING";
      } else {
        mode := "UNKNOWN";
      }
      var cycleOn := Contains(opDescription, "ON");
      done := PublishReading(Reading(prefix + "/mode", Text(mode), None), clock, old(published), done);
      done := PublishReading(Reading(prefix + "/cycle_status", Text(if cycleOn then "ON" else "OFF"), None), clock, old(published), done);
      assert done == CommandReadings(prefix, opCmd);
    }

    /** The four flags of byte 16 (`cycle_sel & 0x01` to `cycle_sel & 0x08`). */
    method PublishCycleSelection(cycleSel: byte, prefix: string, clock: Clock)
      modifies this
      ensures published == old(published) + Render(cfg, hasClient, CycleReadings(cycleSel, prefix), clock)
      ensures archived == old(archived) && haDiscoverySent == old(haDiscoverySent)
    {
      ghost var done: seq<Reading> := [];
      done := PublishReading(Reading(prefix + "/cycle_1_active", Flag(cycleSel % 2 == 1), None), clock, old(published), done);
      done := PublishReading(Reading(prefix + "/cycle_2_active", Flag(cycleSel / 2 % 2 == 1), None), clock, old(published), done);
      done := PublishReading(Reading(prefix + "/cycle_dhw_active", Flag(cycleSel / 4 % 2 == 1), None), clock, old(published), done);
      done := PublishReading(Reading(prefix + "/cycle_pool_active", Flag(cycleSel / 8 % 2 == 1), None), clock, old(published), done);
      assert done == CycleReadings(cycleSel, prefix);
    }

    /** `_decode_additional_status_params`. */
    method DecodeAdditionalStatusParams(frame: seq<byte>, prefix: string, clock: Clock)
      modifies this
      ensures published == old(published) + Render(cfg, hasClient, AdditionalStatusReadings(frame, prefix), clock)
      ensures archived == old(archived) && haDiscoverySent == old(haDiscoverySent)
    {
      ghost var base := old(published);
      ghost var done := PublishNonZero(frame, 18, prefix + "/indoor_temperature_1", Some(Celsius), clock, base, []);

      done := PublishSecondTemperature(frame, prefix, clock, base, done);

      done := PublishNonZero(frame, 19, prefix + "/ambient_setpoint", Some(Celsius), clock, base, done);

      ghost var mid := published;
      ghost var block: seq<Reading>;
      if |frame| > 16 {
        var cycleSel := frame[16];
        PublishCycleSelection(cycleSel, prefix, clock);
      } else {
        assert mid + [] == mid;
      }
      block := if |frame| > 16 then CycleReadings(frame[16], prefix) else [];
      RenderChain(cfg, hasClient, base, mid, published, done, block, clock);
      done := done + block;

      mid := published;
      if |frame| > 37 {
        DecodeDatetime(frame[34..Min(41, |frame|)], prefix, clock);
      } else {
        assert mid + [] == mid;
      }
      block := if |frame| > 37 then DateTimeReadings(DateTimeBytes(frame), prefix) else [];
      RenderChain(cfg, hasClient, base, mid, published, done, block, clock);
      done := done + block;
      assert done == AdditionalStatusReadings(frame, prefix);
    }

    /** `_decode_status_message` (opcode 0xB1). */
    method DecodeStatusMessage(frame: seq<byte>, srcAddr: int, clock: Clock)
      modifies this
      ensures published == old(published) + Render(cfg, hasClient, StatusReadings(cfg, frame, srcAddr), clock)
      ensures archived == old(archived) && haDiscoverySent == old(haDiscoverySent)
    {
      if |frame| < 48 {
        assert old(published) + [] == old(published);
        return;
      }
      var prefix := if srcAddr == cfg.indoorAddr then "indoor" else "outdoor";
      ghost var base := old(published);
      // `len(frame) > 10` and `len(frame) > 13` always hold past the length check
      PublishOperationCommand(prefix, frame[10], clock);
      ghost var done := CommandReadings(prefix, frame[10]);

      done := PublishNonZero(frame, 12, prefix + "/water_setpoint", Some(Celsius), clock, base, done);

      var opMode := frame[13];
      done := PublishOperationMode(prefix, opMode, clock, base, done);

      done := PublishNonZero(frame, 14, prefix + "/dhw_setpoint", Some(Celsius), clock, base, done);
      done := PublishNonZero(frame, 15, prefix + "/pool_setpoint", Some(Celsius), clock, base, done);
      assert done == MainStatusReadings(frame, prefix);

      ghost var mid := published;
      DecodeAdditionalStatusParams(frame, prefix, clock);
      RenderChain(cfg, hasClient, base, mid, published, done, AdditionalStatusReadings(frame, prefix), clock);
      assert done + AdditionalStatusReadings(frame, prefix) == StatusReadings(cfg, frame, srcAddr);
    }

    /** `_decode_sensor_data` (opcode 0xB6): the mapped bytes, then flow, speed and pump. */
    method DecodeSensorData(frame: seq<byte>, clock: Clock)
      modifies this
      ensures published == old(published) + Render(cfg, hasClient, SensorReadings(cfg, frame), clock)
      ensures archived == old(archived) && haDiscoverySent == old(haDiscoverySent)
    {
      if |frame| < 76 {
        assert old(published) + [] == old(published);
        return;
      }
      PublishMappedSensors(frame, clock);
      ghost var mid := published;
      ghost var tail := PublishNonZero(frame, 65, "sensors/water_flow", Some("L/min"), clock, mid, []);
      tail := PublishNonZero(frame, 66, "sensors/water_speed", None, clock, mid, tail);
      tail := PublishNonZero(frame, 67, "sensors/exhaust_temperature", Some(Celsius), clock, mid, tail);
      tail := PublishNonZero(frame, 68, "sensors/liquid_evaporation_temperature", Some(Celsius), clock, mid, tail);
      // `len(frame) > 11` always holds past the length check
      tail := PublishReading(Reading("outdoor/pump_status", Number(frame[11]), None), clock, mid, tail);
      assert tail == SensorTailReadings(frame);
      RenderChain(cfg, hasClient, old(published), mid, published, MappedReadings(cfg, frame, SensorMappings), tail, clock);
    }

    /** The `for index, topic, unit in sensor_mappings` loop of `_decode_sensor_data`. */
    method PublishMappedSensors(frame: seq<byte>, clock: Clock)
      modifies this
      ensures published == old(published) + Render(cfg, hasClient, MappedReadings(cfg, frame, SensorMappings), clock)
      ensures archived == old(archived) && haDiscoverySent == old(haDiscoverySent)
    {
      var sensorMappings := SensorMappings;
      assert old(published) + [] == old(published);
      for i := 0 to |sensorMappings|
        invariant published == old(published) + Render(cfg, hasClient, MappedReadings(cfg, frame, sensorMappings[..i]), clock)
        invariant archived == old(archived) && haDiscoverySent == old(haDiscoverySent)
      {
        var m := sensorMappings[i];
        ghost var before := MappedReadings(cfg, frame, sensorMappings[..i]);
        MappedReadingsSnoc(cfg, frame, sensorMappings, i);
        if |frame| > m.index && frame[m.index] != cfg.invalidSensorValue && frame[m.index] != 0 {
          before := PublishReading(Reading(m.suffix, Number(frame[m.index]), Some(m.unit)), clock, old(published), before);
        } else {
          assert before + [] == before;
        }
      }
      assert sensorMappings[..|sensorMappings|] == sensorMappings;
    }

    /** `_decode_system_info` (opcode 0xB8). */
    method DecodeSystemInfo(frame: seq<byte>, clock: Clock)
      modifies this
      ensures published == old(published) + Render(cfg, hasClient, SystemInfoReadings(frame), clock)
      ensures archived == old(archived) && haDiscoverySent == old(haDiscoverySent)
    {
      if |frame| < 30 {
        assert old(published) + [] == old(published);
        return;
      }
      ghost var base := old(published);
      ghost var done := PublishNonZero(frame, 21, "outdoor/inverter_frequency", Some("Hz"), clock, base, []);
      done := PublishNonZero(frame, 23, "outdoor/evo", Some(".."), clock, base, done);
      done := PublishNonZero(frame, 24, "outdoor/current", Some("A"), clock, base, done);
      // `len(frame) > 10` and `len(frame) > 11` always hold past the length check
      done := PublishReading(Reading("outdoor/system_param_1", Number(frame[10]), None), clock, base, done);
      done := PublishReading(Reading("outdoor/system_param_2", Number(frame[11]), None), clock, base, done);
      assert done == SystemInfoReadings(frame);
    }

    /** The body of `_decode_frame`'s `if opcode:` block up to the status publication. */
    method DispatchOpcode(frame: seq<byte>, clock: Clock)
      requires |frame| >= 10
      modifies this
      ensures published == old(published) + Render(cfg, hasClient, DecoderReadings(cfg, frame), clock)
      ensures archived == old(archived) + (if cfg.saveUnknownFrames && !KnownOpcode(frame[9])
        then [Archived(UnknownOpcodeReason(frame[9]), Dump(frame))] else [])
      ensures haDiscoverySent == old(haDiscoverySent)
    {
      var opcode := frame[9];
      if opcode == OpStatus {
        DecodeStatusMessage(frame, frame[0], clock);
      } else if opcode == OpSensor {
        DecodeSensorData(frame, clock);
      } else if opcode == OpSystem {
        DecodeSystemInfo(frame, clock);
      } else {
        assert published + [] == published;
        if cfg.saveUnknownFrames {
          SaveUnknownFrame(frame, UnknownOpcodeReason(opcode));
        } else {
          assert archived + [] == archived;
        }
      }
    }

    /** `_decode_frame`: checksum and ACK handling, then the decoder the opcode selects. */
    method DecodeFrame(frame: seq<byte>, clock: Clock)
      modifies this
      ensures published == old(published) + Render(cfg, hasClient, FrameReadings(cfg, frame), clock)
      ensures archived == old(archived) + FrameArchive(cfg, frame)
      ensures haDiscoverySent == old(haDiscoverySent)
    {
      assert old(published) + [] == old(published) && old(archived) + [] == old(archived);
      if |frame| < 4 {
        return;
      }
      var srcAddr := frame[0];
      var ctrlByte := frame[1];
      var checksumValid := VerifyChecksum(frame);
      if !checksumValid {
        if cfg.saveUnknownFrames {
          SaveUnknownFrame(frame, "invalid_checksum");
        }
      }
      ghost var checked := if cfg.saveUnknownFrames && !checksumValid then [Archived("invalid_checksum", Dump(frame))] else [];
      assert archived == old(archived) + checked;
      if ctrlByte == CtrlAck {
        assert FrameArchive(cfg, frame) == checked + [];
        assert FrameReadings(cfg, frame) == [];
        return;
      }
      if |frame| < 10 {
        assert FrameArchive(cfg, frame) == checked + [];
        assert FrameReadings(cfg, frame) == [];
        return;
      }
      var opcode := frame[9];
      if opcode == 0 {
        assert FrameArchive(cfg, frame) == checked + [];
        assert FrameReadings(cfg, frame) == [];
      } else {
        ghost var unknown := if cfg.saveUnknownFrames && !KnownOpcode(frame[9])
          then [Archived(UnknownOpcodeReason(frame[9]), Dump(frame))] else [];
        DispatchOpcode(frame, clock);
        assert old(archived) + checked + unknown == old(archived) + (checked + unknown);
        assert FrameArchive(cfg, frame) == checked + unknown;
        var deviceName := if srcAddr == cfg.indoorAddr then "indoor" else "outdoor";
        ghost var done := PublishReading(Reading(deviceName + "/status", Text("online"), None), clock,
                                         old(published), DecoderReadings(cfg, frame));
        assert done == FrameReadings(cfg, frame);
      }
    }

    /** `_on_message` for a hex payload: only the last whitespace-separated token is read. */
    method OnMessage(payload: string, clock: Clock)
      modifies this
      ensures ClassifyPayload(payload).HexFrame? ==>
        var frame := ClassifyPayload(payload).frame;
        published == old(published) + Render(cfg, hasClient, FrameReadings(cfg, frame), clock) &&
        archived == old(archived) + FrameArchive(cfg, frame)
      ensures !ClassifyPayload(payload).HexFrame? ==> published == old(published) && archived == old(archived)
      ensures haDiscoverySent == old(haDiscoverySent)
    {
      var last := LastToken(payload);
      if last.None? {
        return;  // `split()[-1]` raises IndexError, which the handler logs
      }
      var token := last.value;
      if |token| > 0 && token[0] == '[' && token[|token| - 1] == ']' {
        return;  // the JSON branch is not part of this model
      }
      if !HexShaped(token) {
        return;  // an unrecognised payload is logged and dropped
      }
      var values := DecodePairs(token);
      if values.Failure? {
        return;  // the ValueError of `int(hex_pair, 16)` is logged
      }
      LastTokenNoSpace(payload);
      assert forall i :: 0 <= i < |token| ==> IsHexDigit(token[i]) || token[i] == ',' by {
        forall i | 0 <= i < |token| ensures IsHexDigit(token[i]) || token[i] == ',' {
          assert !IsSpace(token[i]);
        }
      }
      HexShapedPairs(token, 0);
      HexPairsBytes(token, 0);
      var frameData := ToBytes(values.value);
      DecodeFrame(frameData, clock);
    }

    /** `_publish_single_ha_discovery`; `failing` holds the discovery topics the client refuses. */
    method PublishSingleHaDiscovery(entity: Entity, failing: set<string>)
      modifies this
      ensures published == old(published) + DiscoveryPublishes(cfg, hasClient, [entity])
      ensures haDiscoverySent == old(haDiscoverySent) + AnnouncedIds(cfg, hasClient, [entity], failing)
      ensures archived == old(archived)
    {
      if !hasClient {
        return;  // `self.client.publish` on None raises AttributeError, which the handler logs
      }
      var entityId := cfg.deviceId + "_" + entity.id;
      var discoveryTopic := cfg.discoveryPrefix + "/" + entity.domain + "/" + entityId + "/config";
      var config := RenderEntity(cfg, entity);
      published := published + [Publish(discoveryTopic, Discovery(config), cfg.qos, true)];
      if discoveryTopic !in failing {
        haDiscoverySent := haDiscoverySent + {entityId};
      }
      assert [entity][..0] == [];
    }

    /** `_publish_ha_discovery`: one discovery record per catalogue row, in catalogue order. */
    method PublishHaDiscovery(failing: set<string>)
      modifies this
      ensures published == old(published) + DiscoveryPublishes(cfg, hasClient, Catalogue)
      ensures haDiscoverySent == old(haDiscoverySent) + AnnouncedIds(cfg, hasClient, Catalogue, failing)
      ensures archived == old(archived)
    {
      var entities := Catalogue;
      for i := 0 to |entities|
        invariant published == old(published) + DiscoveryPublishes(cfg, hasClient, entities[..i])
        invariant haDiscoverySent == old(haDiscoverySent) + AnnouncedIds(cfg, hasClient, entities[..i], failing)
        invariant archived == old(archived)
      {
        DiscoveryStep(cfg, hasClient, entities, i, failing, old(published), old(haDiscoverySent));
        PublishSingleHaDiscovery(entities[i], failing);
      }
      assert entities[..|entities|] == entities;
    }
  }
}
