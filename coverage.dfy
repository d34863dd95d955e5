/**
 * The decoders and the discovery catalogue of src/hnet_decoder.py agree: every
 * topic suffix a frame can publish is the id of a catalogue row, so each value
 * lands on the state topic of an announced entity.
 */
module Coverage {

  import opened Wrappers
  import opened Bytes
  import opened Config
  import opened Tables
  import opened Messages
  import opened Fields

  predicate AllCatalogued(rs: seq<Reading>)
  {
    forall r :: r in rs ==> InCatalogue(r.suffix)
  }

  lemma InTemperatureRows(k: nat)
    requires k < |TemperatureRows|
    ensures InCatalogue(TemperatureRows[k].id)
  {
    assert Catalogue[k] == TemperatureRows[k];
  }

  lemma InSetpointRows(k: nat)
    requires k < |SetpointRows|
    ensures InCatalogue(SetpointRows[k].id)
  {
    var n := |TemperatureRows|;
    assert Catalogue[n + k] == SetpointRows[k];
  }

  lemma InModeRows(k: nat)
    requires k < |ModeRows|
    ensures InCatalogue(ModeRows[k].id)
  {
    var n := |TemperatureRows| + |SetpointRows|;
    assert Catalogue[n + k] == ModeRows[k];
  }

  lemma InSystemRows(k: nat)
    requires k < |SystemRows|
    ensures InCatalogue(SystemRows[k].id)
  {
    var n := |TemperatureRows| + |SetpointRows| + |ModeRows|;
    assert Catalogue[n + k] == SystemRows[k];
  }

  lemma InStatusRows(k: nat)
    requires k < |StatusRows|
    ensures InCatalogue(StatusRows[k].id)
  {
    var n := |TemperatureRows| + |SetpointRows| + |ModeRows| + |SystemRows|;
    assert Catalogue[n + k] == StatusRows[k];
  }

  /** The setpoint and internal temperature rows of the indoor unit. */
  lemma IndoorSetpointIds()
    ensures InCatalogue("indoor/water_setpoint")
    ensures InCatalogue("indoor/dhw_setpoint")
    ensures InCatalogue("indoor/pool_setpoint")
    ensures InCatalogue("indoor/ambient_setpoint")
    ensures InCatalogue("indoor/indoor_temperature_1")
    ensures InCatalogue("indoor/indoor_temperature_2")
  {
    InSetpointRows(0);
    InSetpointRows(2);
    InSetpointRows(4);
    InSetpointRows(6);
    InSetpointRows(8);
    InSetpointRows(9);
  }


  /** The command and mode rows of the indoor unit. */
  lemma IndoorModeIds()
    ensures InCatalogue("indoor/operation_command")
    ensures InCatalogue("indoor/mode")
    ensures InCatalogue("indoor/cycle_status")
    ensures InCatalogue("indoor/operation_mode")
  {
    InModeRows(0);
    InModeRows(2);
    InModeRows(4);
    InModeRows(6);
  }


  /** The status, cycle and date-time rows of the indoor unit. */
  lemma IndoorStatusIds()
    ensures InCatalogue("indoor/status")
    ensures InCatalogue("indoor/cycle_1_active")
    ensures InCatalogue("indoor/cycle_2_active")
    ensures InCatalogue("indoor/cycle_dhw_active")
    ensures InCatalogue("indoor/cycle_pool_active")
    ensures InCatalogue("indoor/system_datetime")
  {
    InStatusRows(0);
    InStatusRows(2);
    InStatusRows(3);
    InStatusRows(6);
    InStatusRows(8);
    InStatusRows(10);
  }


  // The device-prefixed suffixes, `f"{device_prefix}/..."`, spelled out.

  lemma IndoorSetpointJoins1()
    ensures "indoor" + "/water_setpoint" == "indoor/water_setpoint"
    ensures "indoor" + "/dhw_setpoint" == "indoor/dhw_setpoint"
  {
  }

  lemma IndoorSetpointJoins2()
    ensures "indoor" + "/pool_setpoint" == "indoor/pool_setpoint"
    ensures "indoor" + "/ambient_setpoint" == "indoor/ambient_setpoint"
  {
  }

  lemma IndoorSetpointJoins3()
    ensures "indoor" + "/indoor_temperature_1" == "indoor/indoor_temperature_1"
    ensures "indoor" + "/indoor_temperature_2" == "indoor/indoor_temperature_2"
  {
  }

  lemma IndoorModeJoins1()
    ensures "indoor" + "/operation_command" == "indoor/operation_command"
    ensures "indoor" + "/mode" == "indoor/mode"
  {
  }

  lemma IndoorModeJoins2()
    ensures "indoor" + "/cycle_status" == "indoor/cycle_status"
    ensures "indoor" + "/operation_mode" == "indoor/operation_mode"
  {
  }

  lemma IndoorStatusJoins1()
    ensures "indoor" + "/status" == "indoor/status"
    ensures "indoor" + "/cycle_1_active" == "indoor/cycle_1_active"
  {
  }

  lemma IndoorStatusJoins2()
    ensures "indoor" + "/cycle_2_active" == "indoor/cycle_2_active"
    ensures "indoor" + "/cycle_dhw_active" == "indoor/cycle_dhw_active"
  {
  }

  lemma IndoorStatusJoins3()
    ensures "indoor" + "/cycle_pool_active" == "indoor/cycle_pool_active"
    ensures "indoor" + "/system_datetime" == "indoor/system_datetime"
  {
  }

  lemma OutdoorSetpointJoins1()
    ensures "outdoor" + "/water_setpoint" == "outdoor/water_setpoint"
    ensures "outdoor" + "/dhw_setpoint" == "outdoor/dhw_setpoint"
  {
  }

  lemma OutdoorSetpointJoins2()
    ensures "outdoor" + "/pool_setpoint" == "outdoor/pool_setpoint"
    ensures "outdoor" + "/ambient_setpoint" == "outdoor/ambient_setpoint"
  {
  }

  lemma OutdoorSetpointJoins3()
    ensures "outdoor" + "/indoor_temperature_1" == "outdoor/indoor_temperature_1"
    ensures "outdoor" + "/indoor_temperature_2" == "outdoor/indoor_temperature_2"
  {
  }

  lemma OutdoorModeJoins1()
    ensures "outdoor" + "/operation_command" == "outdoor/operation_command"
    ensures "outdoor" + "/mode" == "outdoor/mode"
  {
  }

  lemma OutdoorModeJoins2()
    ensures "outdoor" + "/cycle_status" == "outdoor/cycle_status"
    ensures "outdoor" + "/operation_mode" == "outdoor/operation_mode"
  {
  }

  lemma OutdoorStatusJoins1()
    ensures "outdoor" + "/status" == "outdoor/status"
    ensures "outdoor" + "/cycle_1_active" == "outdoor/cycle_1_active"
  {
  }

  lemma OutdoorStatusJoins2()
    ensures "outdoor" + "/cycle_2_active" == "outdoor/cycle_2_active"
    ensures "outdoor" + "/cycle_dhw_active" == "outdoor/cycle_dhw_active"
  {
  }

  lemma OutdoorStatusJoins3()
    ensures "outdoor" + "/cycle_pool_active" == "outdoor/cycle_pool_active"
    ensures "outdoor" + "/system_datetime" == "outdoor/system_datetime"
  {
  }

  /** The setpoint and internal temperature rows of the outdoor unit. */
  lemma OutdoorSetpointIds()
    ensures InCatalogue("outdoor/water_setpoint")
    ensures InCatalogue("outdoor/dhw_setpoint")
    ensures InCatalogue("outdoor/pool_setpoint")
    ensures InCatalogue("outdoor/ambient_setpoint")
    ensures InCatalogue("outdoor/indoor_temperature_1")
    ensures InCatalogue("outdoor/indoor_temperature_2")
  {
    InSetpointRows(1);
    InSetpointRows(3);
    InSetpointRows(5);
    InSetpointRows(7);
    InSetpointRows(10);
    InSetpointRows(11);
  }


  /** The command and mode rows of the outdoor unit. */
  lemma OutdoorModeIds()
    ensures InCatalogue("outdoor/operation_command")
    ensures InCatalogue("outdoor/mode")
    ensures InCatalogue("outdoor/cycle_status")
    ensures InCatalogue("outdoor/operation_mode")
  {
    InModeRows(1);
    InModeRows(3);
    InModeRows(5);
    InModeRows(7);
  }


  /** The status, cycle and date-time rows of the outdoor unit. */
  lemma OutdoorStatusIds()
    ensures InCatalogue("outdoor/status")
    ensures InCatalogue("outdoor/cycle_1_active")
    ensures InCatalogue("outdoor/cycle_2_active")
    ensures InCatalogue("outdoor/cycle_dhw_active")
    ensures InCatalogue("outdoor/cycle_pool_active")
    ensures InCatalogue("outdoor/system_datetime")
  {
    InStatusRows(1);
    InStatusRows(4);
    InStatusRows(5);
    InStatusRows(7);
    InStatusRows(9);
    InStatusRows(11);
  }


  /** The setpoint and internal temperature suffixes of either device. */
  lemma SetpointSuffixes(prefix: string)
    requires prefix == "indoor" || prefix == "outdoor"
    ensures InCatalogue(prefix + "/water_setpoint") && InCatalogue(prefix + "/dhw_setpoint")
    ensures InCatalogue(prefix + "/pool_setpoint") && InCatalogue(prefix + "/ambient_setpoint")
    ensures InCatalogue(prefix + "/indoor_temperature_1") && InCatalogue(prefix + "/indoor_temperature_2")
  {
    if prefix == "indoor" {
      IndoorSetpointIds();
      IndoorSetpointJoins1();
      IndoorSetpointJoins2();
      IndoorSetpointJoins3();
    } else {
      OutdoorSetpointIds();
      OutdoorSetpointJoins1();
      OutdoorSetpointJoins2();
      OutdoorSetpointJoins3();
    }
  }

  /** The command and mode suffixes of either device. */
  lemma ModeSuffixes(prefix: string)
    requires prefix == "indoor" || prefix == "outdoor"
    ensures InCatalogue(prefix + "/operation_command") && InCatalogue(prefix + "/mode")
    ensures InCatalogue(prefix + "/cycle_status") && InCatalogue(prefix + "/operation_mode")
  {
    if prefix == "indoor" {
      IndoorModeIds();
      IndoorModeJoins1();
      IndoorModeJoins2();
    } else {
      OutdoorModeIds();
      OutdoorModeJoins1();
      OutdoorModeJoins2();
    }
  }

  /** The status, cycle and date-time suffixes of either device. */
  lemma StatusSuffixes(prefix: string)
    requires prefix == "indoor" || prefix == "outdoor"
    ensures InCatalogue(prefix + "/status") && InCatalogue(prefix + "/cycle_1_active")
    ensures InCatalogue(prefix + "/cycle_2_active") && InCatalogue(prefix + "/cycle_dhw_active")
    ensures InCatalogue(prefix + "/cycle_pool_active") && InCatalogue(prefix + "/system_datetime")
  {
    if prefix == "indoor" {
      IndoorStatusIds();
      IndoorStatusJoins1();
      IndoorStatusJoins2();
      IndoorStatusJoins3();
    } else {
      OutdoorStatusIds();
      OutdoorStatusJoins1();
      OutdoorStatusJoins2();
      OutdoorStatusJoins3();
    }
  }

  /** Mapped byte `k` is row `k` of the temperature group, rows 2 and 3 being listed the other way round. */
  lemma MappedId(k: nat)
    requires k < |SensorMappings|
    ensures InCatalogue(SensorMappings[k].suffix)
  {
    var j := if k == 2 then 3 else if k == 3 then 2 else k;
    assert SensorMappings[k].suffix == TemperatureRows[j].id;
    InTemperatureRows(j);
  }

  /** The rows of the eight mapped sensor bytes. */
  lemma MappedIds()
    ensures forall k :: 0 <= k < |SensorMappings| ==> InCatalogue(SensorMappings[k].suffix)
  {
    forall k | 0 <= k < |SensorMappings| ensures InCatalogue(SensorMappings[k].suffix) {
      MappedId(k);
    }
  }

  /** The rows of the readings the sensor decoder publishes after its loop. */
  lemma SensorTailIds()
    ensures InCatalogue("sensors/water_flow") && InCatalogue("sensors/water_speed")
    ensures InCatalogue("sensors/exhaust_temperature") && InCatalogue("sensors/liquid_evaporation_temperature")
    ensures InCatalogue("outdoor/pump_status")
  {
    InSystemRows(0);
    InSystemRows(1);
    InTemperatureRows(8);
    InTemperatureRows(9);
    InSystemRows(2);
  }

  /** The rows of every suffix the system-info decoder publishes. */
  lemma SystemIds()
    ensures InCatalogue("outdoor/inverter_frequency")
    ensures InCatalogue("outdoor/evo")
    ensures InCatalogue("outdoor/current")
    ensures InCatalogue("outdoor/system_param_1")
    ensures InCatalogue("outdoor/system_param_2")
  {
    InSystemRows(3);
    InSystemRows(4);
    InSystemRows(5);
    InSystemRows(6);
    InSystemRows(7);
  }

  lemma DevicePrefixIsDevice(cfg: Config, src: int)
    ensures DevicePrefix(cfg, src) == "indoor" || DevicePrefix(cfg, src) == "outdoor"
  {
  }

  lemma NoneCatalogued()
    ensures AllCatalogued([])
  {
  }

  lemma SingleCatalogued(r: Reading)
    requires InCatalogue(r.suffix)
    ensures AllCatalogued([r])
  {
  }

  lemma NonZeroCatalogued(frame: seq<byte>, k: nat, suffix: string, unit: Option<string>)
    requires InCatalogue(suffix)
    ensures AllCatalogued(NonZero(frame, k, suffix, unit))
  {
  }

  lemma AppendCatalogued(a: seq<Reading>, b: seq<Reading>)
    requires AllCatalogued(a) && AllCatalogued(b)
    ensures AllCatalogued(a + b)
  {
  }

  lemma CommandCatalogued(prefix: string, command: byte)
    requires prefix == "indoor" || prefix == "outdoor"
    ensures AllCatalogued(CommandReadings(prefix, command))
  {
    ModeSuffixes(prefix);
  }

  lemma CycleCatalogued(selection: byte, prefix: string)
    requires prefix == "indoor" || prefix == "outdoor"
    ensures AllCatalogued(CycleReadings(selection, prefix))
  {
    StatusSuffixes(prefix);
  }

  lemma DateTimeCatalogued(b: seq<byte>, prefix: string)
    requires prefix == "indoor" || prefix == "outdoor"
    ensures AllCatalogued(DateTimeReadings(b, prefix))
  {
    StatusSuffixes(prefix);
  }

  lemma MainStatusCatalogued(frame: seq<byte>, prefix: string)
    requires prefix == "indoor" || prefix == "outdoor"
    ensures AllCatalogued(MainStatusReadings(frame, prefix))
  {
    var a := if |frame| > 10 then CommandReadings(prefix, frame[10]) else [];
    var b := NonZero(frame, 12, prefix + "/water_setpoint", Some(Celsius));
    var c := if |frame| > 13 && frame[13] in OperationModes
      then [Reading(prefix + "/operation_mode", Text(OperationModes[frame[13]]), None)] else [];
    var d := NonZero(frame, 14, prefix + "/dhw_setpoint", Some(Celsius));
    var e := NonZero(frame, 15, prefix + "/pool_setpoint", Some(Celsius));
    assert AllCatalogued(a) by {
      if |frame| > 10 {
        CommandCatalogued(prefix, frame[10]);
      }
    }
    assert AllCatalogued(b) && AllCatalogued(d) && AllCatalogued(e) by {
      SetpointSuffixes(prefix);
      NonZeroCatalogued(frame, 12, prefix + "/water_setpoint", Some(Celsius));
      NonZeroCatalogued(frame, 14, prefix + "/dhw_setpoint", Some(Celsius));
      NonZeroCatalogued(frame, 15, prefix + "/pool_setpoint", Some(Celsius));
    }
    assert AllCatalogued(c) by {
      ModeSuffixes(prefix);
    }
    AppendCatalogued(a, b);
    AppendCatalogued(a + b, c);
    AppendCatalogued(a + b + c, d);
    AppendCatalogued(a + b + c + d, e);
    assert MainStatusReadings(frame, prefix) == a + b + c + d + e;
  }

  lemma AdditionalStatusCatalogued(frame: seq<byte>, prefix: string)
    requires prefix == "indoor" || prefix == "outdoor"
    ensures AllCatalogued(AdditionalStatusReadings(frame, prefix))
  {
    SetpointSuffixes(prefix);
    var a := NonZero(frame, 18, prefix + "/indoor_temperature_1", Some(Celsius));
    var b := if |frame| > 27 && frame[27] != 0
      then [Reading(prefix + "/indoor_temperature_2", Number(frame[26]), Some(Celsius))] else [];
    var c := NonZero(frame, 19, prefix + "/ambient_setpoint", Some(Celsius));
    var d := if |frame| > 16 then CycleReadings(frame[16], prefix) else [];
    var e := if |frame| > 37 then DateTimeReadings(DateTimeBytes(frame), prefix) else [];
    NonZeroCatalogued(frame, 18, prefix + "/indoor_temperature_1", Some(Celsius));
    NonZeroCatalogued(frame, 19, prefix + "/ambient_setpoint", Some(Celsius));
    if |frame| > 16 {
      CycleCatalogued(frame[16], prefix);
    }
    if |frame| > 37 {
      DateTimeCatalogued(DateTimeBytes(frame), prefix);
    }
    AppendCatalogued(a, b);
    AppendCatalogued(a + b, c);
    AppendCatalogued(a + b + c, d);
    AppendCatalogued(a + b + c + d, e);
  }

  lemma StatusCatalogued(cfg: Config, frame: seq<byte>, src: int)
    ensures AllCatalogued(StatusReadings(cfg, frame, src))
  {
    if |frame| >= 48 {
      var prefix := DevicePrefix(cfg, src);
      DevicePrefixIsDevice(cfg, src);
      MainStatusCatalogued(frame, prefix);
      AdditionalStatusCatalogued(frame, prefix);
      AppendCatalogued(MainStatusReadings(frame, prefix), AdditionalStatusReadings(frame, prefix));
    }
  }

  lemma MappedCatalogued(cfg: Config, frame: seq<byte>)
    ensures AllCatalogued(MappedReadings(cfg, frame, SensorMappings))
  {
    MappedReadingsSound(cfg, frame, SensorMappings);
    MappedIds();
    forall r | r in MappedReadings(cfg, frame, SensorMappings) ensures InCatalogue(r.suffix) {
      var k :| 0 <= k < |SensorMappings| && |frame| > SensorMappings[k].index &&
        r == Reading(SensorMappings[k].suffix, Number(frame[SensorMappings[k].index]), Some(SensorMappings[k].unit));
      assert r.suffix == SensorMappings[k].suffix;
    }
  }

  lemma SensorTailCatalogued(frame: seq<byte>)
    ensures AllCatalogued(SensorTailReadings(frame))
  {
    SensorTailIds();
    var a := NonZero(frame, 65, "sensors/water_flow", Some("L/min"));
    var b := NonZero(frame, 66, "sensors/water_speed", None);
    var c := NonZero(frame, 67, "sensors/exhaust_temperature", Some(Celsius));
    var d := NonZero(frame, 68, "sensors/liquid_evaporation_temperature", Some(Celsius));
    var e := if |frame| > 11 then [Reading("outdoor/pump_status", Number(frame[11]), None)] else [];
    NonZeroCatalogued(frame, 65, "sensors/water_flow", Some("L/min"));
    NonZeroCatalogued(frame, 66, "sensors/water_speed", None);
    NonZeroCatalogued(frame, 67, "sensors/exhaust_temperature", Some(Celsius));
    NonZeroCatalogued(frame, 68, "sensors/liquid_evaporation_temperature", Some(Celsius));
    AppendCatalogued(a, b);
    AppendCatalogued(a + b, c);
    AppendCatalogued(a + b + c, d);
    AppendCatalogued(a + b + c + d, e);
  }

  lemma SensorCatalogued(cfg: Config, frame: seq<byte>)
    ensures AllCatalogued(SensorReadings(cfg, frame))
  {
    if |frame| >= 76 {
      MappedCatalogued(cfg, frame);
      SensorTailCatalogued(frame);
      AppendCatalogued(MappedReadings(cfg, frame, SensorMappings), SensorTailReadings(frame));
    }
  }

  lemma SystemInfoCatalogued(frame: seq<byte>)
    ensures AllCatalogued(SystemInfoReadings(frame))
  {
    if |frame| >= 30 {
      SystemIds();
      var a := NonZero(frame, 21, "outdoor/inverter_frequency", Some("Hz"));
      var b := NonZero(frame, 23, "outdoor/evo", Some(".."));
      var c := NonZero(frame, 24, "outdoor/current", Some("A"));
      var d := [Reading("outdoor/system_param_1", Number(frame[10]), None)];
      var e := [Reading("outdoor/system_param_2", Number(frame[11]), None)];
      NonZeroCatalogued(frame, 21, "outdoor/inverter_frequency", Some("Hz"));
      NonZeroCatalogued(frame, 23, "outdoor/evo", Some(".."));
      NonZeroCatalogued(frame, 24, "outdoor/current", Some("A"));
      AppendCatalogued(a, b);
      AppendCatalogued(a + b, c);
      AppendCatalogued(a + b + c, d);
      AppendCatalogued(a + b + c + d, e);
    }
  }

  /**
   * Every reading a frame publishes, from any decoder or the device status, has a
   * catalogue row with its suffix as id.
   */
  lemma FrameReadingsCatalogued(cfg: Config, frame: seq<byte>)
    ensures forall r :: r in FrameReadings(cfg, frame) ==> InCatalogue(r.suffix)
  {
    if Dispatched(frame) {
      var prefix := DevicePrefix(cfg, frame[0]);
      DevicePrefixIsDevice(cfg, frame[0]);
      StatusSuffixes(prefix);
      var online := StatusOnline(cfg, frame[0]);
      SingleCatalogued(online);
      if frame[9] == OpStatus {
        StatusCatalogued(cfg, frame, frame[0]);
      } else if frame[9] == OpSensor {
        SensorCatalogued(cfg, frame);
      } else if frame[9] == OpSystem {
        SystemInfoCatalogued(frame);
      } else {
        NoneCatalogued();
      }
      AppendCatalogued(DecoderReadings(cfg, frame), [online]);
    }
  }
}
