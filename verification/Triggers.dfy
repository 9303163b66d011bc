/** Conditions on runtime statistics that call for a plan change. */
module Triggers {
  import opened RealFacts
  import opened Options
  import opened RuntimeStats

  datatype TriggerKind = CardinalityUnderestimate | CardinalityOverestimate | SkewDetected | MemoryPressure

  datatype TriggerEvent = TriggerEvent(nodeId: NodeId, kind: TriggerKind, deviation: real, threshold: real)

  datatype TriggerConfig = TriggerConfig(
    cardinalityOvercountRatio: real,
    cardinalityUndercountRatio: real,
    skewFraction: real,
    memoryRatio: real,
    minRowsForCardinality: U64)

  // ---------- what each check adds to the event list ----------

  function CardinalityEvents(config: TriggerConfig, node: NodeId, stats: OperatorStats): seq<TriggerEvent> {
    if stats.actualRows < config.minRowsForCardinality || stats.CardinalityRatio().None? then [] else
    var ratio := stats.CardinalityRatio().value;
    (if ratio > config.cardinalityOvercountRatio
     then [TriggerEvent(node, CardinalityUnderestimate, ratio, config.cardinalityOvercountRatio)] else [])
    + (if ratio > 0.0 && 1.0 / ratio > config.cardinalityUndercountRatio
       then [TriggerEvent(node, CardinalityOverestimate, 1.0 / ratio, config.cardinalityUndercountRatio)] else [])
  }

  /** At most one event: the first skewed column ends the search. */
  function SkewEvents(config: TriggerConfig, node: NodeId, sketches: seq<ColumnSketch>): seq<TriggerEvent> {
    if sketches == [] then []
    else if sketches[0].IsSkewed(config.skewFraction) then
      var deviation := sketches[0].mostFrequent.value.1 as real / sketches[0].totalCount as real;
      [TriggerEvent(node, SkewDetected, deviation, config.skewFraction)]
    else SkewEvents(config, node, sketches[1..])
  }

  function MemoryEvents(config: TriggerConfig, node: NodeId, stats: OperatorStats): seq<TriggerEvent> {
    if Abs(stats.estimatedRows) < F64_EPSILON then [] else
    var budgeted := CastU64(stats.estimatedRows * 8.0);
    if budgeted == 0 then [] else
    var ratio := stats.peakMemoryBytes as real / budgeted as real;
    if ratio > config.memoryRatio then [TriggerEvent(node, MemoryPressure, ratio, config.memoryRatio)] else []
  }

  function OperatorEvents(config: TriggerConfig, node: NodeId, stats: OperatorStats): seq<TriggerEvent> {
    CardinalityEvents(config, node, stats)
    + SkewEvents(config, node, stats.columnSketches)
    + MemoryEvents(config, node, stats)
  }

  // ---------- the checks themselves ----------

  /** A growable list of events that the checks push onto. */
  class EventList {
    var events: seq<TriggerEvent>

    constructor ()
      ensures events == []
    {
      events := [];
    }

    method Push(e: TriggerEvent)
      modifies this
      ensures events == old(events) + [e]
    {
      events := events + [e];
    }
  }

  class TriggerSet {
    const config: TriggerConfig

    constructor (config: TriggerConfig)
      ensures this.config == config
    {
      this.config := config;
    }

    method CheckOperator(node: NodeId, stats: OperatorStats) returns (events: seq<TriggerEvent>)
      ensures events == OperatorEvents(config, node, stats)
    {
      var list := new EventList();
      CheckCardinality(node, stats, list);
      CheckSkew(node, stats, list);
      CheckMemory(node, stats, list);
      events := list.events;
    }

    method CheckCardinality(node: NodeId, stats: OperatorStats, list: EventList)
      modifies list
      ensures list.events == old(list.events) + CardinalityEvents(config, node, stats)
    {
      if stats.actualRows < config.minRowsForCardinality {
        return;
      }
      var r := stats.CardinalityRatio();
      if r.None? {
        return;
      }
      var ratio := r.value;
      if ratio > config.cardinalityOvercountRatio {
        list.Push(TriggerEvent(node, CardinalityUnderestimate, ratio, config.cardinalityOvercountRatio));
      }
      if ratio > 0.0 && 1.0 / ratio > config.cardinalityUndercountRatio {
        list.Push(TriggerEvent(node, CardinalityOverestimate, 1.0 / ratio, config.cardinalityUndercountRatio));
      }
    }

    method CheckSkew(node: NodeId, stats: OperatorStats, list: EventList)
      modifies list
      ensures list.events == old(list.events) + SkewEvents(config, node, stats.columnSketches)
    {
      var sketches := stats.columnSketches;
      var i := 0;
      while i < |sketches|
        invariant 0 <= i <= |sketches|
        invariant list.events == old(list.events)
        invariant SkewEvents(config, node, sketches) == SkewEvents(config, node, sketches[i..])
      {
        var sketch := sketches[i];
        if sketch.IsSkewed(config.skewFraction) {
          var deviation := sketch.mostFrequent.value.1 as real / sketch.totalCount as real;
          list.Push(TriggerEvent(node, SkewDetected, deviation, config.skewFraction));
          break;
        }
        i := i + 1;
      }
    }

    method CheckMemory(node: NodeId, stats: OperatorStats, list: EventList)
      modifies list
      ensures list.events == old(list.events) + MemoryEvents(config, node, stats)
    {
      if Abs(stats.estimatedRows) < F64_EPSILON {
        return;
      }
      var budgeted := CastU64(stats.estimatedRows * 8.0);
      if budgeted == 0 {
        return;
      }
      var ratio := stats.peakMemoryBytes as real / budgeted as real;
      if ratio > config.memoryRatio {
        list.Push(TriggerEvent(node, MemoryPressure, ratio, config.memoryRatio));
      }
    }
  }

  // ---------- what the events mean ----------

  lemma {:induction false} SkewEventsSound(config: TriggerConfig, node: NodeId, sketches: seq<ColumnSketch>)
    ensures |SkewEvents(config, node, sketches)| <= 1
    ensures SkewEvents(config, node, sketches) == [] <==>
            forall i :: 0 <= i < |sketches| ==> !sketches[i].IsSkewed(config.skewFraction)
    ensures forall e :: e in SkewEvents(config, node, sketches) ==>
              e.nodeId == node && e.kind == SkewDetected && e.deviation > e.threshold
  {
    if sketches != [] {
      SkewEventsSound(config, node, sketches[1..]);
      if SkewEvents(config, node, sketches) == [] {
        forall i | 0 <= i < |sketches| ensures !sketches[i].IsSkewed(config.skewFraction) {
          if i > 0 { assert sketches[i] == sketches[1..][i - 1]; }
        }
      }
    }
  }

  /** Every event names the operator that was checked and reports a deviation above its threshold. */
  lemma EventsExceedThreshold(config: TriggerConfig, node: NodeId, stats: OperatorStats)
    ensures forall e :: e in OperatorEvents(config, node, stats) ==> e.nodeId == node && e.deviation > e.threshold
  {
    SkewEventsSound(config, node, stats.columnSketches);
  }

  lemma RatioAboveOne(a: real, e: real)
    requires a >= 0.0 && e != 0.0 && a / e > 1.0
    ensures a > e > 0.0
  {
    var q := a / e;
    assert q * e == a;
    assert e < 0.0 ==> q * e < 0.0;
  }

  lemma RatioBelowOne(a: real, e: real)
    requires a >= 0.0 && e != 0.0 && a / e > 0.0 && 1.0 / (a / e) > 1.0
    ensures a < e
  {
    var q := a / e;
    assert q * e == a;
    var p := 1.0 / q;
    assert p * q == 1.0;
    assert q >= 1.0 ==> p * q > 1.0 * q;
    assert e < 0.0 ==> q * e < 0.0;
    assert q * e < 1.0 * e;
  }

  /** With both ratios at least one, an operator is never at once underestimated and overestimated: the first
      needs more rows than estimated and the second needs fewer. */
  lemma CardinalityEventsSound(config: TriggerConfig, node: NodeId, stats: OperatorStats)
    requires config.cardinalityOvercountRatio >= 1.0 && config.cardinalityUndercountRatio >= 1.0
    ensures |CardinalityEvents(config, node, stats)| <= 1
    ensures forall e :: e in CardinalityEvents(config, node, stats) ==>
              || (e.kind == CardinalityUnderestimate && stats.actualRows as real > stats.estimatedRows > 0.0)
              || (e.kind == CardinalityOverestimate && stats.actualRows as real < stats.estimatedRows)
  {
    if stats.CardinalityRatio().Some? {
      var a, e := stats.actualRows as real, stats.estimatedRows;
      if a / e > config.cardinalityOvercountRatio {
        RatioAboveOne(a, e);
      }
      if a / e > 0.0 && 1.0 / (a / e) > config.cardinalityUndercountRatio {
        RatioBelowOne(a, e);
      }
    }
  }
}
