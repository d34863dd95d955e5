/**
 * The static tables of src/hnet_decoder.py: the operation command and mode
 * lookups, the byte map of the sensor decoder, and the catalogue of entities
 * announced to Home Assistant.
 */
module Tables {

  import opened Wrappers
  import opened Bytes
  import opened Text

  /**
   * The temperature unit label. The source text spells it with the two characters
   * U+00AC U+221E before the C (a degree sign saved in one encoding and read back in
   * another); every use in the decoders and the catalogue is this same label.
   */
  const Celsius: string := "\U{00AC}\U{221E}C"

  /** `OPERATION_COMMANDS`: status byte 10. */
  const OperationCommands: map<byte, string> := map[
    0x04 := "AUTO MODE - CYCLE OFF",
    0x05 := "AUTO MODE - CYCLE ON",
    0x08 := "COOLING MODE - CYCLE OFF",
    0x09 := "COOLING MODE - CYCLE ON",
    0x64 := "HEATING MODE - CYCLE OFF",
    0x65 := "HEATING MODE - CYCLE ON"
  ]

  /** `OPERATION_MODES`: status byte 13. */
  const OperationModes: map<byte, string> := map[
    0x00 := "COOLING",
    0x14 := "HEATING",
    0x28 := "AUTO"
  ]

  /** One row of `sensor_mappings` in the sensor decoder. */
  datatype Mapping = Mapping(index: nat, suffix: string, unit: string)

  const SensorMappings: seq<Mapping> := [
    Mapping(11, "sensors/water_inlet_temperature", Celsius),
    Mapping(12, "sensors/water_outlet_temperature_1", Celsius),
    Mapping(13, "sensors/heat_exchanger_outlet_temperature", Celsius),
    Mapping(16, "sensors/water_outlet_temperature_2", Celsius),
    Mapping(39, "sensors/gas_ui_temperature", Celsius),
    Mapping(40, "sensors/liquid_ui_temperature", Celsius),
    Mapping(43, "sensors/ambient_temperature", Celsius),
    Mapping(44, "sensors/ambient_temperature_avg", Celsius)
  ]

  /** The mapped bytes are distinct and inside the 76-byte gate of the sensor decoder. */
  lemma SensorMappingsShape()
    ensures forall k :: 0 <= k < |SensorMappings| ==> SensorMappings[k].index < 76
    ensures forall k, l :: 0 <= k < l < |SensorMappings| ==>
      SensorMappings[k].index < SensorMappings[l].index && SensorMappings[k].suffix != SensorMappings[l].suffix
  {
  }

  // ------------------------------------------------------------ the catalogue

  /**
   * One entity row: the keys `unit` and `device_class` are absent from some rows,
   * and `icon` could be, which the renderer tests with `in`.
   */
  datatype Entity = Entity(
    domain: string,
    id: string,
    name: string,
    unit: Option<string>,
    deviceClass: Option<string>,
    icon: Option<string>)

  /** Rows of the temperature group. */
  const TemperatureRows: seq<Entity> := [
    Entity("sensor", "sensors/water_inlet_temperature", "Water Inlet Temperature", Some(Celsius), Some("temperature"), Some("mdi:thermometer")),
    Entity("sensor", "sensors/water_outlet_temperature_1", "Water Outlet Temperature 1", Some(Celsius), Some("temperature"), Some("mdi:thermometer")),
    Entity("sensor", "sensors/water_outlet_temperature_2", "Water Outlet Temperature 2", Some(Celsius), Some("temperature"), Some("mdi:thermometer")),
    Entity("sensor", "sensors/heat_exchanger_outlet_temperature", "Heat Exchanger Outlet Temperature", Some(Celsius), Some("temperature"), Some("mdi:thermometer")),
    Entity("sensor", "sensors/gas_ui_temperature", "Gas UI Temperature", Some(Celsius), Some("temperature"), Some("mdi:thermometer")),
    Entity("sensor", "sensors/liquid_ui_temperature", "Liquid UI Temperature", Some(Celsius), Some("temperature"), Some("mdi:thermometer")),
    Entity("sensor", "sensors/ambient_temperature", "Ambient Temperature", Some(Celsius), Some("temperature"), Some("mdi:thermometer")),
    Entity("sensor", "sensors/ambient_temperature_avg", "Ambient Temperature Average", Some(Celsius), Some("temperature"), Some("mdi:thermometer")),
    Entity("sensor", "sensors/exhaust_temperature", "Exhaust Temperature", Some(Celsius), Some("temperature"), Some("mdi:thermometer")),
    Entity("sensor", "sensors/liquid_evaporation_temperature", "Liquid Evaporation Temperature", Some(Celsius), Some("temperature"), Some("mdi:thermometer"))
  ]

  /** Rows of the setpoint and internal temperature groups. */
  const SetpointRows: seq<Entity> := [
    Entity("sensor", "indoor/water_setpoint", "Indoor Water Setpoint", Some(Celsius), Some("temperature"), Some("mdi:thermostat")),
    Entity("sensor", "outdoor/water_setpoint", "Outdoor Water Setpoint", Some(Celsius), Some("temperature"), Some("mdi:thermostat")),
    Entity("sensor", "indoor/dhw_setpoint", "Indoor DHW Setpoint", Some(Celsius), Some("temperature"), Some("mdi:water-thermometer")),
    Entity("sensor", "outdoor/dhw_setpoint", "Outdoor DHW Setpoint", Some(Celsius), Some("temperature"), Some("mdi:water-thermometer")),
    Entity("sensor", "indoor/pool_setpoint", "Indoor Pool Setpoint", Some(Celsius), Some("temperature"), Some("mdi:pool-thermometer")),
    Entity("sensor", "outdoor/pool_setpoint", "Outdoor Pool Setpoint", Some(Celsius), Some("temperature"), Some("mdi:pool-thermometer")),
    Entity("sensor", "indoor/ambient_setpoint", "Indoor Ambient Setpoint", Some(Celsius), Some("temperature"), Some("mdi:thermostat")),
    Entity("sensor", "outdoor/ambient_setpoint", "Outdoor Ambient Setpoint", Some(Celsius), Some("temperature"), Some("mdi:thermostat")),

    Entity("sensor", "indoor/indoor_temperature_1", "Indoor Temperature 1", Some(Celsius), Some("temperature"), Some("mdi:thermometer")),
    Entity("sensor", "indoor/indoor_temperature_2", "Indoor Temperature 2", Some(Celsius), Some("temperature"), Some("mdi:thermometer")),
    Entity("sensor", "outdoor/indoor_temperature_1", "Outdoor Indoor Temperature 1", Some(Celsius), Some("temperature"), Some("mdi:thermometer")),
    Entity("sensor", "outdoor/indoor_temperature_2", "Outdoor Indoor Temperature 2", Some(Celsius), Some("temperature"), Some("mdi:thermometer"))
  ]

  /** Rows of the mode and state group. */
  const ModeRows: seq<Entity> := [
    Entity("sensor", "indoor/operation_command", "Indoor Operation Command", None, None, Some("mdi:cog")),
    Entity("sensor", "outdoor/operation_command", "Outdoor Operation Command", None, None, Some("mdi:cog")),
    Entity("sensor", "indoor/mode", "Indoor Mode", None, None, Some("mdi:hvac")),
    Entity("sensor", "outdoor/mode", "Outdoor Mode", None, None, Some("mdi:hvac")),
    Entity("sensor", "indoor/cycle_status", "Indoor Cycle Status", None, None, Some("mdi:power")),
    Entity("sensor", "outdoor/cycle_status", "Outdoor Cycle Status", None, None, Some("mdi:power")),
    Entity("sensor", "indoor/operation_mode", "Indoor Operation Mode", None, None, Some("mdi:hvac")),
    Entity("sensor", "outdoor/operation_mode", "Outdoor Operation Mode", None, None, Some("mdi:hvac"))
  ]

  /** Rows of the flow and outdoor system groups. */
  const SystemRows: seq<Entity> := [
    Entity("sensor", "sensors/water_flow", "Water Flow", Some("L/min"), None, Some("mdi:water-pump")),
    Entity("sensor", "sensors/water_speed", "Water Speed", None, None, Some("mdi:speedometer")),

    Entity("sensor", "outdoor/pump_status", "Outdoor Pump Status", None, None, Some("mdi:pump")),
    Entity("sensor", "outdoor/inverter_frequency", "Inverter Frequency", Some("Hz"), None, Some("mdi:sine-wave")),
    Entity("sensor", "outdoor/evo", "EVO", Some("A"), Some("current"), Some("mdi:current-ac")),
    Entity("sensor", "outdoor/current", "Current", Some("A"), Some("current"), Some("mdi:current-ac")),
    Entity("sensor", "outdoor/system_param_1", "System Parameter 1", None, None, Some("mdi:cog")),
    Entity("sensor", "outdoor/system_param_2", "System Parameter 2", None, None, Some("mdi:cog"))
  ]

  /** Rows of the status, cycle and date-time groups. */
  const StatusRows: seq<Entity> := [
    Entity("sensor", "indoor/status", "Indoor Unit Status", None, Some("connectivity"), Some("mdi:connection")),
    Entity("sensor", "outdoor/status", "Outdoor Unit Status", None, Some("connectivity"), Some("mdi:connection")),

    Entity("sensor", "indoor/cycle_1_active", "Indoor Cycle 1 Active", None, None, Some("mdi:power")),
    Entity("sensor", "indoor/cycle_2_active", "Indoor Cycle 2 Active", None, None, Some("mdi:power")),
    Entity("sensor", "outdoor/cycle_1_active", "Outdoor Cycle 1 Active", None, None, Some("mdi:power")),
    Entity("sensor", "outdoor/cycle_2_active", "Outdoor Cycle 2 Active", None, None, Some("mdi:power")),
    Entity("sensor", "indoor/cycle_dhw_active", "Indoor Cycle DHW Active", None, None, Some("mdi:power")),
    Entity("sensor", "outdoor/cycle_dhw_active", "Outdoor Cycle DHW Active", None, None, Some("mdi:power")),
    Entity("sensor", "indoor/cycle_pool_active", "Indoor Cycle POOL Active", None, None, Some("mdi:power")),
    Entity("sensor", "outdoor/cycle_pool_active", "Outdoor Cycle POOL Active", None, None, Some("mdi:power")),

    Entity("sensor", "indoor/system_datetime", "Indoor System DateTime", None, None, Some("mdi:clock")),
    Entity("sensor", "outdoor/system_datetime", "Outdoor System DateTime", None, None, Some("mdi:clock"))
  ]

  /** The `entities` list of `_publish_ha_discovery`, in its order. */
  const Catalogue: seq<Entity> := TemperatureRows + SetpointRows + ModeRows + SystemRows + StatusRows

  predicate InCatalogue(id: string)
  {
    exists k :: 0 <= k < |Catalogue| && Catalogue[k].id == id
  }

  predicate DistinctIds(rows: seq<Entity>)
  {
    forall k, l :: 0 <= k < l < |rows| ==> rows[k].id != rows[l].id
  }

  predicate DisjointIds(a: seq<Entity>, b: seq<Entity>)
  {
    forall k, l :: 0 <= k < |a| && 0 <= l < |b| ==> a[k].id != b[l].id
  }

  lemma DistinctConcat(a: seq<Entity>, b: seq<Entity>)
    requires DistinctIds(a) && DistinctIds(b) && DisjointIds(a, b)
    ensures DistinctIds(a + b)
  {
    forall k, l | 0 <= k < l < |a + b| ensures (a + b)[k].id != (a + b)[l].id {
      if l < |a| {
        assert (a + b)[k] == a[k] && (a + b)[l] == a[l];
      } else if k >= |a| {
        assert (a + b)[k] == b[k - |a|] && (a + b)[l] == b[l - |a|];
      } else {
        assert (a + b)[k] == a[k] && (a + b)[l] == b[l - |a|];
      }
    }
  }

  lemma DisjointConcat(a: seq<Entity>, b: seq<Entity>, c: seq<Entity>)
    requires DisjointIds(a, c) && DisjointIds(b, c)
    ensures DisjointIds(a + b, c)
  {
    forall k, l | 0 <= k < |a + b| && 0 <= l < |c| ensures (a + b)[k].id != c[l].id {
      if k >= |a| {
        assert (a + b)[k] == b[k - |a|];
      }
    }
  }

  lemma TemperatureIdsDistinct() ensures DistinctIds(TemperatureRows) { }
  lemma SetpointIdsDistinct() ensures DistinctIds(SetpointRows) { }
  lemma ModeIdsDistinct() ensures DistinctIds(ModeRows) { }
  lemma SystemIdsDistinct() ensures DistinctIds(SystemRows) { }
  lemma StatusIdsDistinct() ensures DistinctIds(StatusRows) { }
  lemma TemperatureSetpointDisjoint() ensures DisjointIds(TemperatureRows, SetpointRows) { }
  lemma TemperatureModeDisjoint() ensures DisjointIds(TemperatureRows, ModeRows) { }
  lemma TemperatureSystemDisjoint() ensures DisjointIds(TemperatureRows, SystemRows) { }
  lemma TemperatureStatusDisjoint() ensures DisjointIds(TemperatureRows, StatusRows) { }
  lemma SetpointModeDisjoint() ensures DisjointIds(SetpointRows, ModeRows) { }
  lemma SetpointSystemDisjoint() ensures DisjointIds(SetpointRows, SystemRows) { }
  lemma SetpointStatusDisjoint() ensures DisjointIds(SetpointRows, StatusRows) { }
  lemma ModeSystemDisjoint() ensures DisjointIds(ModeRows, SystemRows) { }
  lemma ModeStatusDisjoint() ensures DisjointIds(ModeRows, StatusRows) { }
  lemma SystemStatusDisjoint() ensures DisjointIds(SystemRows, StatusRows) { }

  predicate AllSensors(rows: seq<Entity>)
  {
    forall k :: 0 <= k < |rows| ==> rows[k].domain == "sensor"
  }

  lemma SensorsConcat(a: seq<Entity>, b: seq<Entity>)
    requires AllSensors(a) && AllSensors(b)
    ensures AllSensors(a + b)
  {
    forall k | 0 <= k < |a + b| ensures (a + b)[k].domain == "sensor" {
      if k >= |a| {
        assert (a + b)[k] == b[k - |a|];
      }
    }
  }

  /** The catalogue has 50 rows, all of domain "sensor", with pairwise distinct ids. */
  lemma CatalogueIdsDistinct()
    ensures |Catalogue| == 50
    ensures forall k :: 0 <= k < |Catalogue| ==> Catalogue[k].domain == "sensor"
    ensures forall k, l :: 0 <= k < l < |Catalogue| ==> Catalogue[k].id != Catalogue[l].id
  {
    var ab := TemperatureRows + SetpointRows;
    var abc := ab + ModeRows;
    var abcd := abc + SystemRows;
    assert DistinctIds(ab) by {
      TemperatureIdsDistinct();
      SetpointIdsDistinct();
      TemperatureSetpointDisjoint();
      DistinctConcat(TemperatureRows, SetpointRows);
    }
    assert DistinctIds(abc) by {
      ModeIdsDistinct();
      TemperatureModeDisjoint();
      SetpointModeDisjoint();
      DisjointConcat(TemperatureRows, SetpointRows, ModeRows);
      DistinctConcat(ab, ModeRows);
    }
    assert DistinctIds(abcd) by {
      SystemIdsDistinct();
      TemperatureSystemDisjoint();
      SetpointSystemDisjoint();
      ModeSystemDisjoint();
      DisjointConcat(TemperatureRows, SetpointRows, SystemRows);
      DisjointConcat(ab, ModeRows, SystemRows);
      DistinctConcat(abc, SystemRows);
    }
    assert DistinctIds(Catalogue) by {
      StatusIdsDistinct();
      TemperatureStatusDisjoint();
      SetpointStatusDisjoint();
      ModeStatusDisjoint();
      SystemStatusDisjoint();
      DisjointConcat(TemperatureRows, SetpointRows, StatusRows);
      DisjointConcat(ab, ModeRows, StatusRows);
      DisjointConcat(abc, SystemRows, StatusRows);
      DistinctConcat(abcd, StatusRows);
    }
    assert AllSensors(Catalogue) by {
      assert AllSensors(TemperatureRows) && AllSensors(SetpointRows);
      SensorsConcat(TemperatureRows, SetpointRows);
      assert AllSensors(ModeRows);
      SensorsConcat(ab, ModeRows);
      assert AllSensors(SystemRows);
      SensorsConcat(abc, SystemRows);
      assert AllSensors(StatusRows);
      SensorsConcat(abcd, StatusRows);
    }
  }

  /** The rows carrying the temperature unit are exactly those of device class "temperature". */
  lemma CelsiusRowsAreTemperatures()
    ensures forall k :: 0 <= k < |Catalogue| ==>
      (Catalogue[k].unit == Some(Celsius) <==> Catalogue[k].deviceClass == Some("temperature"))
  {
    var n := |TemperatureRows| + |SetpointRows|;
    var m := n + |ModeRows|;
    forall k | 0 <= k < |Catalogue|
      ensures Catalogue[k].unit == Some(Celsius) <==> Catalogue[k].deviceClass == Some("temperature")
    {
      if k >= m + |SystemRows| {
        assert Catalogue[k] == StatusRows[k - m - |SystemRows|];
      } else if k >= m {
        assert Catalogue[k] == SystemRows[k - m];
      } else if k >= n {
        assert Catalogue[k] == ModeRows[k - n];
      } else if k >= |TemperatureRows| {
        assert Catalogue[k] == SetpointRows[k - |TemperatureRows|];
      }
    }
  }

}
