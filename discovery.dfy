/**
 * Home Assistant discovery in src/hnet_decoder.py: `_get_ha_device_info`, the
 * record `_publish_single_ha_discovery` builds for one catalogue row, and the ids
 * a run of `_publish_ha_discovery` adds to `ha_discovery_sent`.
 */
module Discovery {

  import opened Wrappers
  import opened Text
  import opened Config
  import opened Tables
  import opened Messages
  import opened Formatter

  /** `_get_ha_device_info`. */
  function DeviceInfoOf(cfg: Config): DeviceInfo
  {
    DeviceInfo([cfg.deviceId], cfg.deviceName, cfg.manufacturer, cfg.model, cfg.swVersion, cfg.deviceId)
  }

  /** `f"{ha_device_id}_{entity['id']}"`. */
  function UniqueId(cfg: Config, e: Entity): string
  {
    cfg.deviceId + "_" + e.id
  }

  /** `f"{ha_discovery_prefix}/{domain}/{entity_id}/config"`. */
  function DiscoveryTopic(cfg: Config, e: Entity): string
  {
    cfg.discoveryPrefix + "/" + e.domain + "/" + UniqueId(cfg, e) + "/config"
  }

  /** Both branches of the `startswith('sensors/')` test build the same state topic. */
  function StateTopic(cfg: Config, e: Entity): string
  {
    if |e.id| >= 8 && e.id[..8] == "sensors/" then cfg.publishPrefix + "/" + e.id
    else cfg.publishPrefix + "/" + e.id
  }

  /** The discovery record of one row, with the keys each domain adds. */
  function RenderEntity(cfg: Config, e: Entity): DiscoveryConfig
  {
    var state := StateTopic(cfg, e);
    var base := DiscoveryConfig(
      uniqueId := UniqueId(cfg, e),
      name := e.name,
      stateTopic := state,
      device := DeviceInfoOf(cfg),
      availabilityTopic := cfg.publishPrefix + "/availability",
      payloadAvailable := "online",
      payloadNotAvailable := "offline",
      unitOfMeasurement := None,
      deviceClass := None,
      icon := None,
      payloadOn := None,
      payloadOff := None,
      jsonAttributesTopic := state + "/attributes");
    if e.domain == "sensor" then
      base.(unitOfMeasurement := e.unit, deviceClass := e.deviceClass, icon := e.icon)
    else if e.domain == "binary_sensor" then
      base.(payloadOn := Some("ON"), payloadOff := Some("OFF"), deviceClass := e.deviceClass, icon := e.icon)
    else base
  }

  /** The `client.publish` of one row: always retained. */
  function DiscoveryPublish(cfg: Config, e: Entity): Publish
  {
    Publish(DiscoveryTopic(cfg, e), Discovery(RenderEntity(cfg, e)), cfg.qos, true)
  }

  /** The publications of a run over `rows`, given whether a client exists. */
  function DiscoveryPublishes(cfg: Config, hasClient: bool, rows: seq<Entity>): seq<Publish>
    decreases |rows|
  {
    if |rows| == 0 || !hasClient then []
    else DiscoveryPublishes(cfg, hasClient, rows[..|rows| - 1]) + [DiscoveryPublish(cfg, rows[|rows| - 1])]
  }

  /**
   * The ids a run over `rows` adds to `ha_discovery_sent`: those whose publish the
   * client accepted, `failing` being the discovery topics it reports a nonzero code for.
   */
  function AnnouncedIds(cfg: Config, hasClient: bool, rows: seq<Entity>, failing: set<string>): set<string>
    decreases |rows|
  {
    if |rows| == 0 || !hasClient then {}
    else
      var e := rows[|rows| - 1];
      AnnouncedIds(cfg, hasClient, rows[..|rows| - 1], failing)
      + (if DiscoveryTopic(cfg, e) in failing then {} else {UniqueId(cfg, e)})
  }

  // ============================================================ properties

  /** Two rows of one domain share a unique id or a discovery topic only when they share an id. */
  lemma IdentifiersInjective(cfg: Config, e: Entity, f: Entity)
    requires e.domain == f.domain
    ensures UniqueId(cfg, e) == UniqueId(cfg, f) <==> e.id == f.id
    ensures DiscoveryTopic(cfg, e) == DiscoveryTopic(cfg, f) <==> e.id == f.id
  {
    var p := cfg.deviceId + "_";
    PrefixCancel(p, e.id, f.id);
    var d := cfg.discoveryPrefix + "/" + e.domain + "/";
    assert DiscoveryTopic(cfg, e) == d + (UniqueId(cfg, e) + "/config");
    assert DiscoveryTopic(cfg, f) == d + (UniqueId(cfg, f) + "/config");
    PrefixCancel(d, UniqueId(cfg, e) + "/config", UniqueId(cfg, f) + "/config");
    SuffixCancel(UniqueId(cfg, e), UniqueId(cfg, f), "/config");
  }

  /** The 50 rows have pairwise distinct unique ids and discovery topics. */
  lemma CatalogueIdentifiersDistinct(cfg: Config)
    ensures forall k, l :: 0 <= k < l < |Catalogue| ==>
      UniqueId(cfg, Catalogue[k]) != UniqueId(cfg, Catalogue[l]) &&
      DiscoveryTopic(cfg, Catalogue[k]) != DiscoveryTopic(cfg, Catalogue[l])
  {
    CatalogueIdsDistinct();
    forall k, l | 0 <= k < l < |Catalogue|
      ensures UniqueId(cfg, Catalogue[k]) != UniqueId(cfg, Catalogue[l])
      ensures DiscoveryTopic(cfg, Catalogue[k]) != DiscoveryTopic(cfg, Catalogue[l])
    {
      IdentifiersInjective(cfg, Catalogue[k], Catalogue[l]);
    }
  }

  /**
   * The record's state topic is the topic the formatter publishes a reading of that id
   * to, and its attributes topic the topic of the formatter's side record.
   */
  lemma TopicsAgree(cfg: Config, e: Entity, value: Value, unit: Option<string>, clock: Clock)
    requires cfg.discoveryEnabled
    ensures var c := RenderEntity(cfg, e);
      var ps := ValuePublishes(cfg, true, e.id, value, unit, None, true, clock);
      c.stateTopic == FullTopic(cfg, e.id) && |ps| == 2 &&
      ps[0].topic == c.jsonAttributesTopic && ps[1].topic == c.stateTopic
  {
  }

  /**
   * A sensor row renders its optional keys exactly as the row has them and no
   * `payload_on`; fixed availability fields and the device block in every row.
   */
  lemma SensorRecord(cfg: Config, e: Entity)
    requires e.domain == "sensor"
    ensures var c := RenderEntity(cfg, e);
      && c.unitOfMeasurement == e.unit && c.deviceClass == e.deviceClass && c.icon == e.icon
      && c.payloadOn == None && c.payloadOff == None
      && c.uniqueId == cfg.deviceId + "_" + e.id && c.name == e.name
      && c.availabilityTopic == cfg.publishPrefix + "/availability"
      && c.payloadAvailable == "online" && c.payloadNotAvailable == "offline"
      && c.device.identifiers == [cfg.deviceId] && c.device.viaDevice == cfg.deviceId
  {
  }

  /** A binary sensor row would carry ON/OFF payloads and never a unit. */
  lemma BinarySensorRecord(cfg: Config, e: Entity)
    requires e.domain == "binary_sensor"
    ensures var c := RenderEntity(cfg, e);
      c.payloadOn == Some("ON") && c.payloadOff == Some("OFF") && c.unitOfMeasurement == None
      && c.deviceClass == e.deviceClass && c.icon == e.icon
  {
  }

  /** With the shipped catalogue the binary sensor branch is never taken. */
  lemma CatalogueHasNoBinarySensor(cfg: Config)
    ensures forall k :: 0 <= k < |Catalogue| ==>
      RenderEntity(cfg, Catalogue[k]).payloadOn == None &&
      RenderEntity(cfg, Catalogue[k]).unitOfMeasurement == Catalogue[k].unit
  {
    CatalogueIdsDistinct();
  }

  /** A run over one more row adds that row's record and, when it is accepted, its id. */
  lemma DiscoveryStep(cfg: Config, hasClient: bool, rows: seq<Entity>, i: nat, failing: set<string>,
                      published: seq<Publish>, sent: set<string>)
    requires i < |rows|
    ensures published + DiscoveryPublishes(cfg, hasClient, rows[..i]) + DiscoveryPublishes(cfg, hasClient, [rows[i]])
         == published + DiscoveryPublishes(cfg, hasClient, rows[..i + 1])
    ensures sent + AnnouncedIds(cfg, hasClient, rows[..i], failing) + AnnouncedIds(cfg, hasClient, [rows[i]], failing)
         == sent + AnnouncedIds(cfg, hasClient, rows[..i + 1], failing)
  {
    assert rows[..i + 1][..i] == rows[..i];
    assert [rows[i]][..0] == [];
  }

  /** A run publishes one retained record per row, in row order. */
  lemma {:induction false} DiscoveryPublishesShape(cfg: Config, rows: seq<Entity>)
    ensures var ps := DiscoveryPublishes(cfg, true, rows);
      |ps| == |rows| && forall k :: 0 <= k < |rows| ==> ps[k] == DiscoveryPublish(cfg, rows[k]) && ps[k].retain
    decreases |rows|
  {
    if |rows| > 0 {
      var init := rows[..|rows| - 1];
      DiscoveryPublishesShape(cfg, init);
      forall k | 0 <= k < |rows|
        ensures DiscoveryPublishes(cfg, true, rows)[k] == DiscoveryPublish(cfg, rows[k])
      {
        if k < |rows| - 1 {
          assert rows[k] == init[k];
        }
      }
    }
  }

  /** An id is announced exactly when one of the rows carries it and its publish was accepted. */
  lemma {:induction false} AnnouncedIdsSound(cfg: Config, rows: seq<Entity>, failing: set<string>, x: string)
    ensures x in AnnouncedIds(cfg, true, rows, failing) <==>
      exists k :: 0 <= k < |rows| && UniqueId(cfg, rows[k]) == x && DiscoveryTopic(cfg, rows[k]) !in failing
    decreases |rows|
  {
    if |rows| > 0 {
      var init := rows[..|rows| - 1];
      AnnouncedIdsSound(cfg, init, failing, x);
      if exists k :: 0 <= k < |rows| && UniqueId(cfg, rows[k]) == x && DiscoveryTopic(cfg, rows[k]) !in failing {
        var k :| 0 <= k < |rows| && UniqueId(cfg, rows[k]) == x && DiscoveryTopic(cfg, rows[k]) !in failing;
        if k < |rows| - 1 {
          assert rows[k] == init[k];
        }
      }
      if exists k :: 0 <= k < |init| && UniqueId(cfg, init[k]) == x && DiscoveryTopic(cfg, init[k]) !in failing {
        var k :| 0 <= k < |init| && UniqueId(cfg, init[k]) == x && DiscoveryTopic(cfg, init[k]) !in failing;
        assert rows[k] == init[k];
      }
    }
  }

  /** Rows with distinct ids and no failing publish announce one id each. */
  lemma {:induction false} AnnouncedCount(cfg: Config, rows: seq<Entity>)
    requires forall k, l :: 0 <= k < l < |rows| ==> rows[k].id != rows[l].id && rows[k].domain == rows[l].domain
    ensures |AnnouncedIds(cfg, true, rows, {})| == |rows|
    decreases |rows|
  {
    if |rows| > 0 {
      var init := rows[..|rows| - 1];
      var e := rows[|rows| - 1];
      AnnouncedCount(cfg, init);
      AnnouncedIdsSound(cfg, init, {}, UniqueId(cfg, e));
      if UniqueId(cfg, e) in AnnouncedIds(cfg, true, init, {}) {
        var k :| 0 <= k < |init| && UniqueId(cfg, init[k]) == UniqueId(cfg, e) && DiscoveryTopic(cfg, init[k]) !in {};
        assert init[k] == rows[k];
        IdentifiersInjective(cfg, init[k], e);
        assert false;
      }
    }
  }

  /** A run over the catalogue with every publish accepted announces all 50 rows. */
  lemma CatalogueAnnounced(cfg: Config)
    ensures |AnnouncedIds(cfg, true, Catalogue, {})| == 50
    ensures forall k :: 0 <= k < |Catalogue| ==> UniqueId(cfg, Catalogue[k]) in AnnouncedIds(cfg, true, Catalogue, {})
  {
    CatalogueIdsDistinct();
    AnnouncedCount(cfg, Catalogue);
    forall k | 0 <= k < |Catalogue| ensures UniqueId(cfg, Catalogue[k]) in AnnouncedIds(cfg, true, Catalogue, {}) {
      AnnouncedIdsSound(cfg, Catalogue, {}, UniqueId(cfg, Catalogue[k]));
    }
  }
}
