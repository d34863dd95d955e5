/**
 * The decoding half of src/hnet_decoder.py as functions from a frame to the
 * readings it publishes, in publication order: the dispatcher `_decode_frame`,
 * the three opcode decoders, the additional status parameters and the date-time.
 * The methods of `Decoder.HNetProtocolDecoder` perform these publications one by
 * one and are proved to publish exactly these sequences.
 */
module Fields {

  import opened Wrappers
  import opened Bytes
  import opened Text
  import opened Config
  import opened Tables
  import opened Messages
  import opened Checksum
  import opened Hex

  const OpStatus: byte := 0xB1
  const OpSensor: byte := 0xB6
  const OpSystem: byte := 0xB8
  const CtrlAck: byte := 0x06

  /** "indoor" for frames from the configured indoor controller address, "outdoor" otherwise. */
  function DevicePrefix(cfg: Config, src: int): string
  {
    if src == cfg.indoorAddr then "indoor" else "outdoor"
  }

  function Min(a: int, b: int): int
  {
    if a <= b then a else b
  }

  /** A reading of byte `k`, published only when the frame has it and it is nonzero. */
  function NonZero(frame: seq<byte>, k: nat, suffix: string, unit: Option<string>): seq<Reading>
  {
    if |frame| > k && frame[k] != 0 then [Reading(suffix, Number(frame[k]), unit)] else []
  }

  // ------------------------------------------------------------ status (0xB1)

  /** The mode word found in a command description, first match wins. */
  function ModeOf(description: string): string
  {
    if Contains(description, "AUTO") then "AUTO"
    else if Contains(description, "COOLING") then "COOLING"
    else if Contains(description, "HEATING") then "HEATING"
    else "UNKNOWN"
  }

  function CycleStatus(description: string): string
  {
    if Contains(description, "ON") then "ON" else "OFF"
  }

  /** Byte 10: a listed command publishes its description, the mode and the cycle state. */
  function CommandReadings(prefix: string, command: byte): seq<Reading>
  {
    if command in OperationCommands then
      var description := OperationCommands[command];
      [Reading(prefix + "/operation_command", Text(description), None),
       Reading(prefix + "/mode", Text(ModeOf(description)), None),
       Reading(prefix + "/cycle_status", Text(CycleStatus(description)), None)]
    else []
  }

  /** Byte 16, bits 0 to 3 (`cycle_sel & 0x01`, `& 0x02`, `& 0x04`, `& 0x08`). */
  function CycleReadings(selection: byte, prefix: string): seq<Reading>
  {
    [Reading(prefix + "/cycle_1_active", Flag(selection % 2 == 1), None),
     Reading(prefix + "/cycle_2_active", Flag(selection / 2 % 2 == 1), None),
     Reading(prefix + "/cycle_dhw_active", Flag(selection / 4 % 2 == 1), None),
     Reading(prefix + "/cycle_pool_active", Flag(selection / 8 % 2 == 1), None)]
  }

  /** `f"{day:02d}/{month:02d}/{year} {hour:02d}:{minute:02d}:{second:02d}"`. */
  function FormatDateTime(day: int, month: int, year: int, hour: int, minute: int, second: int): string
  {
    Pad2(day) + "/" + Pad2(month) + "/" + IntToString(year) + " " + Pad2(hour) + ":" + Pad2(minute) + ":" + Pad2(second)
  }

  /**
   * `_decode_datetime` on the slice `frame[34:41]`: each component is None when its
   * byte is zero, the year is `b0 * 100 + b1` and the day `b3 - 32`.
   */
  function DecodeDateTime(b: seq<byte>): Option<string>
  {
    if |b| < 7 then None
    else
      var century: Option<int> := if b[0] != 0 then Some(b[0]) else None;
      if b[1] != 0 && century.None? then None  // `None * 100` raises TypeError, which the handler swallows
      else
        var year: Option<int> := if b[1] != 0 then Some(century.value * 100 + b[1]) else None;
        var month: Option<int> := if b[2] != 0 then Some(b[2]) else None;
        var day: Option<int> := if b[3] != 0 then Some(b[3] as int - 32) else None;
        var hour: Option<int> := if b[4] != 0 then Some(b[4]) else None;
        var minute: Option<int> := if b[5] != 0 then Some(b[5]) else None;
        var second: Option<int> := if b[6] != 0 then Some(b[6]) else None;
        if year.Some? && month.Some? && day.Some? && hour.Some? && minute.Some? && second.Some? then
          Some(FormatDateTime(day.value, month.value, year.value, hour.value, minute.value, second.value))
        else None
  }

  function DateTimeReadings(b: seq<byte>, prefix: string): seq<Reading>
  {
    match DecodeDateTime(b)
    case None => []
    case Some(text) => [Reading(prefix + "/system_datetime", Text(text), None)]
  }

  /** The date-time slice `frame[34:41]`, which Python clamps to the frame. */
  function DateTimeBytes(frame: seq<byte>): seq<byte>
    requires |frame| > 37
  {
    frame[34..Min(41, |frame|)]
  }

  /** `_decode_additional_status_params`. */
  function AdditionalStatusReadings(frame: seq<byte>, prefix: string): seq<Reading>
  {
    NonZero(frame, 18, prefix + "/indoor_temperature_1", Some(Celsius))
    + (if |frame| > 27 && frame[27] != 0 then [Reading(prefix + "/indoor_temperature_2", Number(frame[26]), Some(Celsius))] else [])
    + NonZero(frame, 19, prefix + "/ambient_setpoint", Some(Celsius))
    + (if |frame| > 16 then CycleReadings(frame[16], prefix) else [])
    + (if |frame| > 37 then DateTimeReadings(DateTimeBytes(frame), prefix) else [])
  }

  /** The part of `_decode_status_message` before the additional parameters. */
  function MainStatusReadings(frame: seq<byte>, prefix: string): seq<Reading>
  {
    (if |frame| > 10 then CommandReadings(prefix, frame[10]) else [])
    + NonZero(frame, 12, prefix + "/water_setpoint", Some(Celsius))
    + (if |frame| > 13 && frame[13] in OperationModes
       then [Reading(prefix + "/operation_mode", Text(OperationModes[frame[13]]), None)] else [])
    + NonZero(frame, 14, prefix + "/dhw_setpoint", Some(Celsius))
    + NonZero(frame, 15, prefix + "/pool_setpoint", Some(Celsius))
  }

  /** `_decode_status_message`. */
  function StatusReadings(cfg: Config, frame: seq<byte>, src: int): seq<Reading>
  {
    if |frame| < 48 then []
    else
      var prefix := DevicePrefix(cfg, src);
      MainStatusReadings(frame, prefix) + AdditionalStatusReadings(frame, prefix)
  }

  // ------------------------------------------------------------ sensors (0xB6)

  /** A mapped byte is published unless it is the sentinel or zero. */
  function MappedReading(cfg: Config, frame: seq<byte>, m: Mapping): seq<Reading>
  {
    if |frame| > m.index && frame[m.index] != cfg.invalidSensorValue && frame[m.index] != 0
    then [Reading(m.suffix, Number(frame[m.index]), Some(m.unit))]
    else []
  }

  /** The `for byte_idx, topic, unit in sensor_mappings` loop over the first rows `ms`. */
  function MappedReadings(cfg: Config, frame: seq<byte>, ms: seq<Mapping>): seq<Reading>
    decreases |ms|
  {
    if |ms| == 0 then []
    else MappedReadings(cfg, frame, ms[..|ms| - 1]) + MappedReading(cfg, frame, ms[|ms| - 1])
  }

  /** One more row of the mapping table adds exactly that row's reading. */
  lemma MappedReadingsSnoc(cfg: Config, frame: seq<byte>, ms: seq<Mapping>, i: nat)
    requires i < |ms|
    ensures MappedReadings(cfg, frame, ms[..i + 1]) == MappedReadings(cfg, frame, ms[..i]) + MappedReading(cfg, frame, ms[i])
  {
    assert ms[..i + 1][..i] == ms[..i];
  }

  /** What `_decode_sensor_data` publishes after its loop. */
  function SensorTailReadings(frame: seq<byte>): seq<Reading>
  {
    NonZero(frame, 65, "sensors/water_flow", Some("L/min"))
    + NonZero(frame, 66, "sensors/water_speed", None)
    + NonZero(frame, 67, "sensors/exhaust_temperature", Some(Celsius))
    + NonZero(frame, 68, "sensors/liquid_evaporation_temperature", Some(Celsius))
    + (if |frame| > 11 then [Reading("outdoor/pump_status", Number(frame[11]), None)] else [])
  }

  /** `_decode_sensor_data`. */
  function SensorReadings(cfg: Config, frame: seq<byte>): seq<Reading>
  {
    if |frame| < 76 then [] else MappedReadings(cfg, frame, SensorMappings) + SensorTailReadings(frame)
  }

  // ------------------------------------------------------------ system info (0xB8)

  /** `_decode_system_info`. */
  function SystemInfoReadings(frame: seq<byte>): seq<Reading>
  {
    if |frame| < 30 then []
    else
      NonZero(frame, 21, "outdoor/inverter_frequency", Some("Hz"))
      + NonZero(frame, 23, "outdoor/evo", Some(".."))
      + NonZero(frame, 24, "outdoor/current", Some("A"))
      + (if |frame| > 10 then [Reading("outdoor/system_param_1", Number(frame[10]), None)] else [])
      + (if |frame| > 11 then [Reading("outdoor/system_param_2", Number(frame[11]), None)] else [])
  }

  // ------------------------------------------------------------ the dispatcher

  predicate KnownOpcode(opcode: byte)
  {
    opcode == OpStatus || opcode == OpSensor || opcode == OpSystem
  }

  /** `_decode_frame` reaches its `if opcode:` block: long enough, not an ACK, opcode nonzero. */
  predicate Dispatched(frame: seq<byte>)
  {
    |frame| >= 10 && frame[1] != CtrlAck && frame[9] != 0
  }

  /** The readings of the decoder the opcode selects, if any. */
  function DecoderReadings(cfg: Config, frame: seq<byte>): seq<Reading>
    requires |frame| >= 10
  {
    var opcode := frame[9];
    if opcode == OpStatus then StatusReadings(cfg, frame, frame[0])
    else if opcode == OpSensor then SensorReadings(cfg, frame)
    else if opcode == OpSystem then SystemInfoReadings(frame)
    else []
  }

  function StatusOnline(cfg: Config, src: int): Reading
  {
    Reading(DevicePrefix(cfg, src) + "/status", Text("online"), None)
  }

  /** Everything `_decode_frame` publishes for one frame, in order. */
  function FrameReadings(cfg: Config, frame: seq<byte>): seq<Reading>
  {
    if Dispatched(frame) then DecoderReadings(cfg, frame) + [StatusOnline(cfg, frame[0])] else []
  }

  /** `f"unknown_opcode_0x{opcode:02X}"`. */
  function UnknownOpcodeReason(opcode: byte): string
  {
    "unknown_opcode_0x" + Hex2(opcode)
  }

  /** What `_decode_frame` writes to the unknown-frames file for one frame, in order. */
  function FrameArchive(cfg: Config, frame: seq<byte>): seq<Archived>
  {
    if |frame| < 4 || !cfg.saveUnknownFrames then []
    else
      (if !ChecksumValid(frame) then [Archived("invalid_checksum", Dump(frame))] else [])
      + (if Dispatched(frame) && !KnownOpcode(frame[9])
         then [Archived(UnknownOpcodeReason(frame[9]), Dump(frame))] else [])
  }

  // ============================================================ properties

  /** A frame publishes nothing exactly when it is short, an ACK, or carries opcode 0. */
  lemma FrameSilence(cfg: Config, frame: seq<byte>)
    ensures FrameReadings(cfg, frame) == [] <==>
      |frame| < 10 || frame[1] == CtrlAck || frame[9] == 0
  {
  }

  /**
   * A dispatched frame publishes the readings of at most one decoder, chosen by the
   * opcode, and then the device status "online", indoor exactly for the indoor address.
   */
  lemma FrameDispatch(cfg: Config, frame: seq<byte>)
    requires Dispatched(frame)
    ensures var rs := FrameReadings(cfg, frame);
      |rs| > 0 && rs[|rs| - 1] == StatusOnline(cfg, frame[0]) &&
      rs[..|rs| - 1] ==
        (if frame[9] == OpStatus then StatusReadings(cfg, frame, frame[0])
         else if frame[9] == OpSensor then SensorReadings(cfg, frame)
         else if frame[9] == OpSystem then SystemInfoReadings(frame)
         else [])
    ensures StatusOnline(cfg, frame[0]).suffix == "indoor/status" <==> frame[0] == cfg.indoorAddr
    ensures StatusOnline(cfg, frame[0]).suffix == "outdoor/status" <==> frame[0] != cfg.indoorAddr
  {
    var rs := FrameReadings(cfg, frame);
    assert rs[..|rs| - 1] == DecoderReadings(cfg, frame);
    assert "outdoor/status" != "indoor/status" && |"outdoor/status"| == 14;
  }

  /** An unknown opcode publishes only the device status and archives the opcode reason. */
  lemma UnknownOpcodeFrame(cfg: Config, frame: seq<byte>)
    requires Dispatched(frame) && !KnownOpcode(frame[9])
    ensures FrameReadings(cfg, frame) == [StatusOnline(cfg, frame[0])]
    ensures var a := FrameArchive(cfg, frame);
      cfg.saveUnknownFrames <==> |a| > 0 && a[|a| - 1] == Archived(UnknownOpcodeReason(frame[9]), Dump(frame))
  {
    if cfg.saveUnknownFrames {
      var c := if !ChecksumValid(frame) then [Archived("invalid_checksum", Dump(frame))] else [];
      assert FrameArchive(cfg, frame) == c + [Archived(UnknownOpcodeReason(frame[9]), Dump(frame))];
    }
  }

  /** The archive step runs before the ACK stop: an ACK with a bad checksum is archived and publishes nothing. */
  lemma InvalidAckArchived(cfg: Config, frame: seq<byte>)
    requires |frame| >= 4 && frame[1] == CtrlAck && !ChecksumValid(frame) && cfg.saveUnknownFrames
    ensures FrameArchive(cfg, frame) == [Archived("invalid_checksum", Dump(frame))]
    ensures FrameReadings(cfg, frame) == []
  {
    assert !Dispatched(frame);
    assert FrameArchive(cfg, frame) == [Archived("invalid_checksum", Dump(frame))] + [];
  }

  /** The archive reason embeds the opcode in two uppercase hex digits, which parse back to it. */
  lemma UnknownOpcodeReasonSound(opcode: byte)
    ensures |UnknownOpcodeReason(opcode)| == 19
    ensures UnknownOpcodeReason(opcode)[..17] == "unknown_opcode_0x"
    ensures PythonHexInt(UnknownOpcodeReason(opcode)[17..]) == Some(opcode as int)
  {
    HexPairValue(opcode, true);
    assert UnknownOpcodeReason(opcode)[17..] == Hex2(opcode);
  }

  /** Each decoder publishes nothing from a frame shorter than its length gate. */
  lemma DecoderGates(cfg: Config, frame: seq<byte>, src: int)
    ensures |frame| < 48 ==> StatusReadings(cfg, frame, src) == []
    ensures |frame| < 76 ==> SensorReadings(cfg, frame) == []
    ensures |frame| < 30 ==> SystemInfoReadings(frame) == []
  {
  }

  // ------------------------------------------------------------ the command table

  lemma AutoOffNoOn()
    ensures !Contains("AUTO MODE - CYCLE OFF", "ON")
  {
    var s := "AUTO MODE - CYCLE OFF";
    assert !ContainsFrom(s, "ON", 20);
    assert !ContainsFrom(s, "ON", 16);
    assert !ContainsFrom(s, "ON", 12);
    assert !ContainsFrom(s, "ON", 8);
    assert !ContainsFrom(s, "ON", 4);
  }

  lemma CoolingOffNoOn()
    ensures !Contains("COOLING MODE - CYCLE OFF", "ON")
  {
    var s := "COOLING MODE - CYCLE OFF";
    assert !ContainsFrom(s, "ON", 20);
    assert !ContainsFrom(s, "ON", 16);
    assert !ContainsFrom(s, "ON", 12);
    assert !ContainsFrom(s, "ON", 8);
    assert !ContainsFrom(s, "ON", 4);
  }

  lemma HeatingOffNoOn()
    ensures !Contains("HEATING MODE - CYCLE OFF", "ON")
  {
    var s := "HEATING MODE - CYCLE OFF";
    assert !ContainsFrom(s, "ON", 20);
    assert !ContainsFrom(s, "ON", 16);
    assert !ContainsFrom(s, "ON", 12);
    assert !ContainsFrom(s, "ON", 8);
    assert !ContainsFrom(s, "ON", 4);
  }

  lemma HeatingOffNotCooling()
    ensures !Contains("HEATING MODE - CYCLE OFF", "COOLING")
  {
    var s := "HEATING MODE - CYCLE OFF";
    assert !ContainsFrom(s, "COOLING", 20);
    assert !ContainsFrom(s, "COOLING", 16);
    assert !ContainsFrom(s, "COOLING", 12);
    assert !ContainsFrom(s, "COOLING", 8);
    assert !ContainsFrom(s, "COOLING", 4);
  }

  lemma HeatingOnNotCooling()
    ensures !Contains("HEATING MODE - CYCLE ON", "COOLING")
  {
    var s := "HEATING MODE - CYCLE ON";
    assert !ContainsFrom(s, "COOLING", 20);
    assert !ContainsFrom(s, "COOLING", 16);
    assert !ContainsFrom(s, "COOLING", 12);
    assert !ContainsFrom(s, "COOLING", 8);
    assert !ContainsFrom(s, "COOLING", 4);
  }

  lemma AutoOff()
    ensures ModeOf("AUTO MODE - CYCLE OFF") == "AUTO" && CycleStatus("AUTO MODE - CYCLE OFF") == "OFF"
  {
    var s := "AUTO MODE - CYCLE OFF";
    assert Contains(s, "AUTO") by { FoundBetween(s[..0], "AUTO", s[4..]); assert s == s[..0] + "AUTO" + s[4..]; }
    assert !Contains(s, "ON") by { AutoOffNoOn(); }
  }

  lemma AutoOn()
    ensures ModeOf("AUTO MODE - CYCLE ON") == "AUTO" && CycleStatus("AUTO MODE - CYCLE ON") == "ON"
  {
    var s := "AUTO MODE - CYCLE ON";
    assert Contains(s, "AUTO") by { FoundBetween(s[..0], "AUTO", s[4..]); assert s == s[..0] + "AUTO" + s[4..]; }
    assert Contains(s, "ON") by { FoundBetween(s[..18], "ON", s[20..]); assert s == s[..18] + "ON" + s[20..]; }
  }

  lemma CoolingOff()
    ensures ModeOf("COOLING MODE - CYCLE OFF") == "COOLING" && CycleStatus("COOLING MODE - CYCLE OFF") == "OFF"
  {
    var s := "COOLING MODE - CYCLE OFF";
    assert !Contains(s, "AUTO") by { MissingChar(s, "AUTO", 'U'); }
    assert Contains(s, "COOLING") by { FoundBetween(s[..0], "COOLING", s[7..]); assert s == s[..0] + "COOLING" + s[7..]; }
    assert !Contains(s, "ON") by { CoolingOffNoOn(); }
  }

  lemma CoolingOn()
    ensures ModeOf("COOLING MODE - CYCLE ON") == "COOLING" && CycleStatus("COOLING MODE - CYCLE ON") == "ON"
  {
    var s := "COOLING MODE - CYCLE ON";
    assert !Contains(s, "AUTO") by { MissingChar(s, "AUTO", 'U'); }
    assert Contains(s, "COOLING") by { FoundBetween(s[..0], "COOLING", s[7..]); assert s == s[..0] + "COOLING" + s[7..]; }
    assert Contains(s, "ON") by { FoundBetween(s[..21], "ON", s[23..]); assert s == s[..21] + "ON" + s[23..]; }
  }

  lemma HeatingOff()
    ensures ModeOf("HEATING MODE - CYCLE OFF") == "HEATING" && CycleStatus("HEATING MODE - CYCLE OFF") == "OFF"
  {
    var s := "HEATING MODE - CYCLE OFF";
    assert !Contains(s, "AUTO") by { MissingChar(s, "AUTO", 'U'); }
    assert !Contains(s, "COOLING") by { HeatingOffNotCooling(); }
    assert Contains(s, "HEATING") by { FoundBetween(s[..0], "HEATING", s[7..]); assert s == s[..0] + "HEATING" + s[7..]; }
    assert !Contains(s, "ON") by { HeatingOffNoOn(); }
  }

  lemma HeatingOn()
    ensures ModeOf("HEATING MODE - CYCLE ON") == "HEATING" && CycleStatus("HEATING MODE - CYCLE ON") == "ON"
  {
    var s := "HEATING MODE - CYCLE ON";
    assert !Contains(s, "AUTO") by { MissingChar(s, "AUTO", 'U'); }
    assert !Contains(s, "COOLING") by { HeatingOnNotCooling(); }
    assert Contains(s, "HEATING") by { FoundBetween(s[..0], "HEATING", s[7..]); assert s == s[..0] + "HEATING" + s[7..]; }
    assert Contains(s, "ON") by { FoundBetween(s[..21], "ON", s[23..]); assert s == s[..21] + "ON" + s[23..]; }
  }

  /**
   * A listed command byte publishes the command, its mode and the cycle state, the
   * cycle being "ON" exactly for 0x05, 0x09 and 0x65; an unlisted byte publishes none.
   */
  lemma CommandTableReadings(prefix: string, command: byte)
    ensures command !in OperationCommands ==> CommandReadings(prefix, command) == []
    ensures command in OperationCommands ==>
      var rs := CommandReadings(prefix, command);
      |rs| == 3 &&
      rs[0] == Reading(prefix + "/operation_command", Text(OperationCommands[command]), None) &&
      rs[1] == Reading(prefix + "/mode", Text(if command in {0x04, 0x05} then "AUTO" else if command in {0x08, 0x09} then "COOLING" else "HEATING"), None) &&
      rs[2] == Reading(prefix + "/cycle_status", Text(if command in {0x05, 0x09, 0x65} then "ON" else "OFF"), None)
  {
    assert OperationCommands.Keys == {0x04, 0x05, 0x08, 0x09, 0x64, 0x65};
    if command == 0x04 {
      AutoOff();
    } else if command == 0x05 {
      AutoOn();
    } else if command == 0x08 {
      CoolingOff();
    } else if command == 0x09 {
      CoolingOn();
    } else if command == 0x64 {
      HeatingOff();
    } else if command == 0x65 {
      HeatingOn();
    }
  }

  /** The four cycle flags are the low four bits of byte 16. */
  lemma CycleBits(selection: byte, prefix: string)
    ensures var rs := CycleReadings(selection, prefix);
      (if rs[0].value.b then 1 else 0) + 2 * (if rs[1].value.b then 1 else 0)
      + 4 * (if rs[2].value.b then 1 else 0) + 8 * (if rs[3].value.b then 1 else 0) == selection % 16
  {
    var x: nat := selection;
    var a := x % 2; var y := x / 2;
    var b := y % 2; var z := y / 2;
    var c := z % 2; var w := z / 2;
    var d := w % 2; var v := w / 2;
    assert x == 16 * v + 8 * d + 4 * c + 2 * b + a;
    assert x / 4 == z;
    assert x / 8 == w;
    assert x % 16 == 8 * d + 4 * c + 2 * b + a;
  }

  // ------------------------------------------------------------ status quirks and date-time

  /** `indoor_temperature_2` is gated on byte 27 but carries byte 26. */
  lemma IndoorTemperature2Quirk(frame: seq<byte>, prefix: string)
    requires |frame| > 27
    ensures var r := Reading(prefix + "/indoor_temperature_2", Number(frame[26]), Some(Celsius));
      (r in AdditionalStatusReadings(frame, prefix) <==> frame[27] != 0)
  {
    var r := Reading(prefix + "/indoor_temperature_2", Number(frame[26]), Some(Celsius));
    var first := NonZero(frame, 18, prefix + "/indoor_temperature_1", Some(Celsius));
    var second := if frame[27] != 0 then [r] else [];
    var setpoint := NonZero(frame, 19, prefix + "/ambient_setpoint", Some(Celsius));
    var cycles := if |frame| > 16 then CycleReadings(frame[16], prefix) else [];
    var date := if |frame| > 37 then DateTimeReadings(DateTimeBytes(frame), prefix) else [];
    assert AdditionalStatusReadings(frame, prefix) == first + second + setpoint + cycles + date;
    if frame[27] == 0 {
      SuffixesDiffer(prefix);
      assert r !in first && r !in setpoint && r !in cycles && r !in date;
    } else {
      assert r in second;
    }
  }

  lemma SuffixesDiffer(prefix: string)
    ensures prefix + "/indoor_temperature_2" !in
      {prefix + "/indoor_temperature_1", prefix + "/ambient_setpoint", prefix + "/cycle_1_active",
       prefix + "/cycle_2_active", prefix + "/cycle_dhw_active", prefix + "/cycle_pool_active", prefix + "/system_datetime"}
  {
    var t := "/indoor_temperature_2";
    assert t[20] != "/indoor_temperature_1"[20];
    PrefixCancel(prefix, t, "/indoor_temperature_1");
    PrefixCancel(prefix, t, "/ambient_setpoint");
    PrefixCancel(prefix, t, "/cycle_1_active");
    PrefixCancel(prefix, t, "/cycle_2_active");
    PrefixCancel(prefix, t, "/cycle_dhw_active");
    PrefixCancel(prefix, t, "/cycle_pool_active");
    PrefixCancel(prefix, t, "/system_datetime");
  }

  /** A date is published exactly when all seven bytes are present and nonzero. */
  lemma DecodeDateTimeSound(b: seq<byte>)
    ensures DecodeDateTime(b).Some? <==> |b| >= 7 && forall k :: 0 <= k < 7 ==> b[k] != 0
  {
    if |b| >= 7 && forall k :: 0 <= k < 7 ==> b[k] != 0 {
      assert b[0] != 0 && b[1] != 0 && b[2] != 0 && b[3] != 0 && b[4] != 0 && b[5] != 0 && b[6] != 0;
    } else if |b| >= 7 {
      var k :| 0 <= k < 7 && b[k] == 0;
      assert b[0] == 0 || b[1] == 0 || b[2] == 0 || b[3] == 0 || b[4] == 0 || b[5] == 0 || b[6] == 0;
    }
  }

  /** A published date is the rendering of the year `b0 * 100 + b1`, the day `b3 - 32` and the other bytes as they are. */
  lemma DecodeDateTimeValue(b: seq<byte>)
    requires |b| >= 7 && b[0] != 0 && b[1] != 0 && b[2] != 0 && b[3] != 0 && b[4] != 0 && b[5] != 0 && b[6] != 0
    ensures DecodeDateTime(b) == Some(FormatDateTime(b[3] as int - 32, b[2], b[0] as int * 100 + b[1] as int, b[4], b[5], b[6]))
  {
    var century: Option<int> := Some(b[0]);
    var year := century.value * 100 + b[1];
    assert year == b[0] as int * 100 + b[1] as int;
    assert DecodeDateTime(b) == Some(FormatDateTime(b[3] as int - 32, b[2], year, b[4], b[5], b[6]));
  }

  /**
   * For in-range components the date text has the fixed "DD/MM/YYYY HH:MM:SS" layout,
   * and each field parses back to its component.
   */
  lemma FormatDateTimeLayout(day: int, month: int, year: int, hour: int, minute: int, second: int)
    requires 0 <= day < 100 && 0 <= month < 100 && 1000 <= year < 10000
    requires 0 <= hour < 100 && 0 <= minute < 100 && 0 <= second < 100
    ensures var s := FormatDateTime(day, month, year, hour, minute, second);
      |s| == 19 && s[2] == '/' && s[5] == '/' && s[10] == ' ' && s[13] == ':' && s[16] == ':' &&
      AllDigits(s[0..2]) && ParseNat(s[0..2]) == day &&
      AllDigits(s[3..5]) && ParseNat(s[3..5]) == month &&
      AllDigits(s[6..10]) && ParseNat(s[6..10]) == year &&
      AllDigits(s[11..13]) && ParseNat(s[11..13]) == hour &&
      AllDigits(s[14..16]) && ParseNat(s[14..16]) == minute &&
      AllDigits(s[17..19]) && ParseNat(s[17..19]) == second
  {
    Pad2Sound(day);
    Pad2Sound(month);
    Pad2Sound(hour);
    Pad2Sound(minute);
    Pad2Sound(second);
    NatToStringLength(year);
    NatToStringSound(year);
    DateTimeFields(Pad2(day), Pad2(month), IntToString(year), Pad2(hour), Pad2(minute), Pad2(second));
  }

  lemma DateTimeFields(a: string, b: string, c: string, d: string, e: string, f: string)
    requires |a| == 2 && |b| == 2 && |c| == 4 && |d| == 2 && |e| == 2 && |f| == 2
    ensures var s := a + "/" + b + "/" + c + " " + d + ":" + e + ":" + f;
      |s| == 19 && s[2] == '/' && s[5] == '/' && s[10] == ' ' && s[13] == ':' && s[16] == ':' &&
      s[0..2] == a && s[3..5] == b && s[6..10] == c && s[11..13] == d && s[14..16] == e && s[17..19] == f
  {
    var s := a + "/" + b + "/" + c + " " + d + ":" + e + ":" + f;
    assert forall i :: 0 <= i < 2 ==> s[i] == a[i] && s[3 + i] == b[i] && s[11 + i] == d[i] && s[14 + i] == e[i] && s[17 + i] == f[i];
    assert forall i :: 0 <= i < 4 ==> s[6 + i] == c[i];
    assert s[0..2] == a && s[3..5] == b && s[6..10] == c;
    assert s[11..13] == d && s[14..16] == e && s[17..19] == f;
  }

  /** A status frame (48 bytes or more) publishes its date exactly when bytes 34 to 40 are all nonzero. */
  lemma StatusDateTime(frame: seq<byte>, prefix: string)
    requires |frame| >= 48
    ensures DateTimeBytes(frame) == frame[34..41]
    ensures DateTimeReadings(DateTimeBytes(frame), prefix) != [] <==> forall k :: 34 <= k < 41 ==> frame[k] != 0
  {
    var b := DateTimeBytes(frame);
    DecodeDateTimeSound(b);
    if forall k :: 34 <= k < 41 ==> frame[k] != 0 {
      assert forall k :: 0 <= k < 7 ==> b[k] != 0 by {
        forall k | 0 <= k < 7 ensures b[k] != 0 {
          assert b[k] == frame[34 + k];
        }
      }
    } else {
      var k :| 34 <= k < 41 && frame[k] == 0;
      assert b[k - 34] == 0;
    }
  }

  // ------------------------------------------------------------ sensor and system quirks

  /**
   * The loop publishes a mapped byte if and only if it is present and neither the sentinel
   * nor zero, and never more readings than the table has rows.
   */
  lemma {:induction false} MappedReadingsSound(cfg: Config, frame: seq<byte>, ms: seq<Mapping>)
    ensures forall r :: r in MappedReadings(cfg, frame, ms) ==>
      exists k :: 0 <= k < |ms| && |frame| > ms[k].index && frame[ms[k].index] != cfg.invalidSensorValue && frame[ms[k].index] != 0
        && r == Reading(ms[k].suffix, Number(frame[ms[k].index]), Some(ms[k].unit))
    ensures forall k :: 0 <= k < |ms| ==>
      (|frame| > ms[k].index && frame[ms[k].index] != cfg.invalidSensorValue && frame[ms[k].index] != 0 ==>
        Reading(ms[k].suffix, Number(frame[ms[k].index]), Some(ms[k].unit)) in MappedReadings(cfg, frame, ms))
    ensures |MappedReadings(cfg, frame, ms)| <= |ms|
    decreases |ms|
  {
    if |ms| > 0 {
      var init := ms[..|ms| - 1];
      MappedReadingsSound(cfg, frame, init);
      forall r | r in MappedReadings(cfg, frame, ms)
        ensures exists k :: (0 <= k < |ms| && |frame| > ms[k].index && frame[ms[k].index] != cfg.invalidSensorValue && frame[ms[k].index] != 0
                             && r == Reading(ms[k].suffix, Number(frame[ms[k].index]), Some(ms[k].unit)))
      {
        if r in MappedReadings(cfg, frame, init) {
          var k :| 0 <= k < |init| && |frame| > init[k].index && frame[init[k].index] != cfg.invalidSensorValue && frame[init[k].index] != 0
            && r == Reading(init[k].suffix, Number(frame[init[k].index]), Some(init[k].unit));
          assert init[k] == ms[k];
        } else {
          assert r in MappedReading(cfg, frame, ms[|ms| - 1]);
        }
      }
      forall k | 0 <= k < |ms| && |frame| > ms[k].index && frame[ms[k].index] != cfg.invalidSensorValue && frame[ms[k].index] != 0
        ensures Reading(ms[k].suffix, Number(frame[ms[k].index]), Some(ms[k].unit)) in MappedReadings(cfg, frame, ms)
      {
        if k < |ms| - 1 {
          assert init[k] == ms[k];
        }
      }
    }
  }

  /**
   * Byte 11 feeds both the water inlet temperature, suppressed at the sentinel and at
   * zero, and the pump status, always published as the last sensor reading.
   */
  lemma PumpStatusQuirk(cfg: Config, frame: seq<byte>)
    requires |frame| >= 76
    ensures var rs := SensorReadings(cfg, frame);
      |rs| > 0 && rs[|rs| - 1] == Reading("outdoor/pump_status", Number(frame[11]), None)
    ensures Reading("sensors/water_inlet_temperature", Number(frame[11]), Some(Celsius)) in SensorReadings(cfg, frame)
      <==> frame[11] != cfg.invalidSensorValue && frame[11] != 0
  {
    var r := Reading("sensors/water_inlet_temperature", Number(frame[11]), Some(Celsius));
    var mapped := MappedReadings(cfg, frame, SensorMappings);
    assert SensorReadings(cfg, frame) == mapped + SensorTailReadings(frame);
    InletNotInTail(frame);
    if frame[11] == cfg.invalidSensorValue || frame[11] == 0 {
      WithoutFirstRow(cfg, frame, SensorMappings, |SensorMappings|);
      assert SensorMappings[..|SensorMappings|] == SensorMappings;
    } else {
      MappedReadingsSound(cfg, frame, SensorMappings);
      assert SensorMappings[0] == Mapping(11, "sensors/water_inlet_temperature", Celsius);
      assert r in mapped;
    }
  }

  lemma InletNotInTail(frame: seq<byte>)
    requires |frame| >= 76
    ensures Reading("sensors/water_inlet_temperature", Number(frame[11]), Some(Celsius)) !in SensorTailReadings(frame)
  {
    var r := Reading("sensors/water_inlet_temperature", Number(frame[11]), Some(Celsius));
    assert |r.suffix| == 31;
    forall q | q in SensorTailReadings(frame)
      ensures |q.suffix| != 31
    {
    }
  }

  lemma {:induction false} WithoutFirstRow(cfg: Config, frame: seq<byte>, ms: seq<Mapping>, n: nat)
    requires ms == SensorMappings && 1 <= n <= |ms|
    requires |frame| > 11 && (frame[11] == cfg.invalidSensorValue || frame[11] == 0)
    ensures Reading("sensors/water_inlet_temperature", Number(frame[11]), Some(Celsius)) !in MappedReadings(cfg, frame, ms[..n])
    decreases n
  {
    SensorMappingsShape();
    var r := Reading("sensors/water_inlet_temperature", Number(frame[11]), Some(Celsius));
    assert ms[..n][..n - 1] == ms[..n - 1];
    if n == 1 {
      assert ms[..1][..0] == [];
    } else {
      WithoutFirstRow(cfg, frame, ms, n - 1);
      assert ms[..n][n - 1].suffix != "sensors/water_inlet_temperature" by {
        assert ms[..n][n - 1] == ms[n - 1];
        assert ms[0].suffix == "sensors/water_inlet_temperature";
      }
    }
  }

  /**
   * The EVO reading carries the unit "..", though its catalogue row announces "A";
   * the two system parameters close every system-info frame.
   */
  lemma SystemInfoShape(frame: seq<byte>)
    requires |frame| >= 30
    ensures var rs := SystemInfoReadings(frame);
      |rs| >= 2 &&
      rs[|rs| - 2] == Reading("outdoor/system_param_1", Number(frame[10]), None) &&
      rs[|rs| - 1] == Reading("outdoor/system_param_2", Number(frame[11]), None)
    ensures frame[23] != 0 ==> Reading("outdoor/evo", Number(frame[23]), Some("..")) in SystemInfoReadings(frame)
    ensures Catalogue[34].id == "outdoor/evo" && Catalogue[34].unit == Some("A")
  {
  }
}
