/**
 * `_publish_mqtt_value` of src/hnet_decoder.py: the topics and payload records one
 * call publishes, given the configuration, whether a client exists and the clock.
 */
module Formatter {

  import opened Wrappers
  import opened Text
  import opened Config
  import opened Messages

  /** `f"{publish_prefix}/{topic_suffix}"`. */
  function FullTopic(cfg: Config, suffix: string): string
  {
    cfg.publishPrefix + "/" + suffix
  }

  /** `f"{full_topic}/attributes"`. */
  function AttributesTopic(topic: string): string
  {
    topic + "/attributes"
  }

  /** The Home Assistant payload: "ON"/"OFF" for a bool, `str(n)` for an int, a string as it is. */
  function HaText(v: Value): string
  {
    match v
    case Flag(b) => if b then "ON" else "OFF"
    case Number(n) => IntToString(n)
    case Text(s) => s
  }

  /** `if unit:`: the unit key is written only for a given, nonempty unit. */
  function UnitIf(unit: Option<string>): Option<string>
  {
    if unit.Some? && |unit.value| > 0 then unit else None
  }

  /** Whether a call publishes in the Home Assistant format. */
  predicate HaMode(cfg: Config, haCompatible: bool)
  {
    haCompatible && cfg.discoveryEnabled
  }

  /** The publications of one `_publish_mqtt_value(suffix, value, unit, retain, ha_compatible)`. */
  function ValuePublishes(cfg: Config, hasClient: bool, suffix: string, value: Value, unit: Option<string>,
                          retain: Option<bool>, haCompatible: bool, clock: Clock): seq<Publish>
  {
    if !hasClient then []
    else
      var topic := FullTopic(cfg, suffix);
      var keep := if retain.Some? then retain.value else cfg.retain;
      if HaMode(cfg, haCompatible) then
        [Publish(AttributesTopic(topic), Attributes(clock.iso, clock.stamp, UnitIf(unit)), cfg.qos, false),
         Publish(topic, Plain(HaText(value)), cfg.qos, keep)]
      else
        [Publish(topic, Legacy(value, clock.iso, UnitIf(unit)), cfg.qos, keep)]
  }

  /** What the decoders' calls publish for a reading: `retain` and `ha_compatible` take their defaults. */
  function ReadingPublishes(cfg: Config, hasClient: bool, r: Reading, clock: Clock): seq<Publish>
  {
    ValuePublishes(cfg, hasClient, r.suffix, r.value, r.unit, None, true, clock)
  }

  /** The publications of a sequence of readings, in order. */
  function Render(cfg: Config, hasClient: bool, rs: seq<Reading>, clock: Clock): seq<Publish>
    decreases |rs|
  {
    if |rs| == 0 then []
    else Render(cfg, hasClient, rs[..|rs| - 1], clock) + ReadingPublishes(cfg, hasClient, rs[|rs| - 1], clock)
  }

  // ============================================================ properties

  /** The payload text can be read back: a flag from "ON", a number by decimal parsing, a string as is. */
  lemma HaTextRoundTrip(v: Value)
    ensures v.Flag? ==> (HaText(v) == "ON" <==> v.b) && (HaText(v) == "OFF" <==> !v.b)
    ensures v.Number? ==> var t := HaText(v);
      |t| > 0 && (t[0] == '-' ==> AllDigits(t[1..])) && (t[0] != '-' ==> AllDigits(t)) && ParseInt(t) == v.n
    ensures v.Text? ==> HaText(v) == v.s
  {
    if v.Number? {
      IntToStringRoundTrip(v.n);
    }
  }

  /**
   * Without a client nothing is published. In Home Assistant mode the attributes record
   * goes first, to `topic/attributes`, never retained, carrying the unit only when one is
   * given; the value follows on the full topic with the retain flag asked for, or the
   * configured one. Otherwise a single legacy record carries the value, the timestamp and
   * the unit when one is given, with the same retain flag.
   */
  lemma ValuePublishesShape(cfg: Config, hasClient: bool, suffix: string, value: Value, unit: Option<string>,
                            retain: Option<bool>, haCompatible: bool, clock: Clock)
    ensures var ps := ValuePublishes(cfg, hasClient, suffix, value, unit, retain, haCompatible, clock);
      && (!hasClient <==> ps == [])
      && (hasClient && HaMode(cfg, haCompatible) ==>
            |ps| == 2
            && ps[0].topic == FullTopic(cfg, suffix) + "/attributes" && !ps[0].retain
            && ps[0].payload.Attributes? && ps[0].payload.timestamp == clock.iso
            && (ps[0].payload.unitOfMeasurement.Some? <==> unit.Some? && unit.value != "")
            && (ps[0].payload.unitOfMeasurement.Some? ==> ps[0].payload.unitOfMeasurement == unit)
            && ps[1].topic == FullTopic(cfg, suffix) && ps[1].payload == Plain(HaText(value))
            && ps[1].retain == (if retain.Some? then retain.value else cfg.retain))
      && (hasClient && !HaMode(cfg, haCompatible) ==>
            |ps| == 1 && ps[0].topic == FullTopic(cfg, suffix)
            && ps[0].payload.Legacy? && ps[0].payload.value == value
            && ps[0].payload.timestamp == clock.iso
            && (ps[0].payload.unit.Some? <==> unit.Some? && unit.value != "")
            && (ps[0].payload.unit.Some? ==> ps[0].payload.unit == unit)
            && ps[0].retain == (if retain.Some? then retain.value else cfg.retain))
      && (forall p :: p in ps ==> p.qos == cfg.qos)
  {
    if hasClient && unit.Some? && unit.value != "" {
      assert |unit.value| > 0;
    }
  }

  /** Different suffixes land on different topics, and the attributes topic of a suffix is a topic of its own. */
  lemma TopicInjective(cfg: Config, a: string, b: string)
    ensures FullTopic(cfg, a) == FullTopic(cfg, b) <==> a == b
    ensures AttributesTopic(FullTopic(cfg, a)) == FullTopic(cfg, a + "/attributes")
  {
    var p := cfg.publishPrefix + "/";
    if FullTopic(cfg, a) == FullTopic(cfg, b) {
      assert a == FullTopic(cfg, a)[|p|..];
      assert b == FullTopic(cfg, b)[|p|..];
    }
  }

  /** Publishing one more reading appends exactly that reading's publications. */
  lemma RenderSnoc(cfg: Config, hasClient: bool, done: seq<Reading>, r: Reading, clock: Clock)
    ensures Render(cfg, hasClient, done + [r], clock) == Render(cfg, hasClient, done, clock) + ReadingPublishes(cfg, hasClient, r, clock)
  {
    assert (done + [r])[..|done|] == done;
  }

  /** The step a decoder takes: the log so far, extended by one more reading's publications. */
  lemma RenderExtend(cfg: Config, hasClient: bool, base: seq<Publish>, done: seq<Reading>, r: Reading, clock: Clock)
    ensures base + Render(cfg, hasClient, done, clock) + ReadingPublishes(cfg, hasClient, r, clock)
         == base + Render(cfg, hasClient, done + [r], clock)
  {
    RenderSnoc(cfg, hasClient, done, r, clock);
  }

  /** A log that rendered `done` and then `block` has rendered `done + block`. */
  lemma RenderChain(cfg: Config, hasClient: bool, base: seq<Publish>, mid: seq<Publish>, now: seq<Publish>,
                    done: seq<Reading>, block: seq<Reading>, clock: Clock)
    requires mid == base + Render(cfg, hasClient, done, clock)
    requires now == mid + Render(cfg, hasClient, block, clock)
    ensures now == base + Render(cfg, hasClient, done + block, clock)
  {
    RenderAppend(cfg, hasClient, done, block, clock);
  }

  /** Rendering distributes over concatenation of readings. */
  lemma {:induction false} RenderAppend(cfg: Config, hasClient: bool, a: seq<Reading>, b: seq<Reading>, clock: Clock)
    ensures Render(cfg, hasClient, a + b, clock) == Render(cfg, hasClient, a, clock) + Render(cfg, hasClient, b, clock)
    decreases |b|
  {
    if |b| == 0 {
      assert a + b == a;
    } else {
      var b0 := b[..|b| - 1];
      assert (a + b)[..|a + b| - 1] == a + b0;
      assert (a + b)[|a + b| - 1] == b[|b| - 1];
      RenderAppend(cfg, hasClient, a, b0, clock);
    }
  }

  /** In Home Assistant mode every reading publishes an attributes record and then its value. */
  lemma {:induction false} RenderHaShape(cfg: Config, rs: seq<Reading>, clock: Clock)
    requires cfg.discoveryEnabled
    ensures var ps := Render(cfg, true, rs, clock);
      |ps| == 2 * |rs| &&
      forall k :: 0 <= k < |rs| ==>
        ps[2 * k].topic == FullTopic(cfg, rs[k].suffix) + "/attributes" && !ps[2 * k].retain &&
        ps[2 * k + 1].topic == FullTopic(cfg, rs[k].suffix) &&
        ps[2 * k + 1].payload == Plain(HaText(rs[k].value)) && ps[2 * k + 1].retain == cfg.retain
    decreases |rs|
  {
    if |rs| > 0 {
      var init := rs[..|rs| - 1];
      RenderHaShape(cfg, init, clock);
      var ps := Render(cfg, true, rs, clock);
      var ps0 := Render(cfg, true, init, clock);
      var last := ReadingPublishes(cfg, true, rs[|rs| - 1], clock);
      assert ps == ps0 + last;
      forall k | 0 <= k < |rs|
        ensures ps[2 * k].topic == FullTopic(cfg, rs[k].suffix) + "/attributes" && !ps[2 * k].retain
        ensures ps[2 * k + 1].topic == FullTopic(cfg, rs[k].suffix)
        ensures ps[2 * k + 1].payload == Plain(HaText(rs[k].value)) && ps[2 * k + 1].retain == cfg.retain
      {
        if k < |rs| - 1 {
          assert rs[k] == init[k];
          assert ps[2 * k] == ps0[2 * k] && ps[2 * k + 1] == ps0[2 * k + 1];
        } else {
          assert ps[2 * k] == last[0] && ps[2 * k + 1] == last[1];
        }
      }
    }
  }

  /** Without a client nothing at all is published. */
  lemma {:induction false} RenderWithoutClient(cfg: Config, rs: seq<Reading>, clock: Clock)
    ensures Render(cfg, false, rs, clock) == []
    decreases |rs|
  {
    if |rs| > 0 {
      RenderWithoutClient(cfg, rs[..|rs| - 1], clock);
    }
  }
}
