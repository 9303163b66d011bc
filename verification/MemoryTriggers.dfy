/** Exactly which configurations never adapt on anything but row counts. */
module MemoryTriggers {
  import opened Options
  import opened RealFacts
  import opened RuntimeStats
  import opened Triggers
  import opened PlanSwitch
  import opened Checkpoints
  import opened RelAlgebra
  import opened ExecutorSpec
  import opened ExecutorRuns

  /** Every adaptation in every run is caused by a row count. */
  ghost predicate OnlyRowCounts(config: AdaptiveConfig) {
    forall plan, calls :: OnlyCardinalityLogged(Run(config, Init(plan), calls).log)
  }

  /** Limits so low that a row count always takes the one adaptation allowed before memory is looked at. */
  predicate RowsComeFirst(config: AdaptiveConfig) {
    var t := config.triggerConfig;
    && config.maxAdaptations == 1 && t.minRowsForCardinality == 0
    && t.cardinalityOvercountRatio < 0.0 && t.cardinalityUndercountRatio * (8 * MAX_U64) as real < 1.0
  }

  // ---------- configurations that adapt on row counts only ----------

  lemma {:induction false} DisabledLogsNothing(config: AdaptiveConfig, s: State, calls: seq<Call>)
    requires !config.enabled && s.log == []
    ensures Run(config, s, calls).log == []
    decreases calls
  {
    if calls != [] {
      DisabledLogsNothing(config, Apply(config, s, calls[0]), calls[1..]);
    }
  }

  /** With one adaptation allowed, the first event that is accepted is the only one logged. */
  lemma {:induction false} FirstAcceptedLogged(config: AdaptiveConfig, s: State, node: NodeId,
                                               events: seq<TriggerEvent>, i: nat)
    requires config.maxAdaptations == 1 && s.count == 0 && s.log == []
    requires i < |events| && Accepted(s, events[i]).Some? && forall j :: 0 <= j <= i ==> OnCardinality(events[j])
    ensures OnlyCardinalityLogged(AdaptAll(config, s, node, events).log)
    decreases events
  {
    assert OnCardinality(events[0]);
    if Accepted(s, events[0]).None? {
      FirstAcceptedLogged(config, s, node, events[1..], i - 1);
    }
  }

  lemma {:induction false} NothingAccepted(config: AdaptiveConfig, s: State, node: NodeId, events: seq<TriggerEvent>)
    requires !Open(s, node) && forall e :: e in events ==> e.nodeId == node
    ensures AdaptAll(config, s, node, events) == s
    decreases events
  {
    if events != [] && s.count < config.maxAdaptations {
      RecommendationTargetsTrigger(events[0], StrategyAt(s, node));
      assert events[0] in events;
      assert Adapt(s, node, events[0]) == s;
      NothingAccepted(config, s, node, events[1..]);
    }
  }

  /** No quotient of a row count and an estimate with a budget reaches a limit that small. */
  lemma InverseAbove(a: real, e: real, u: real)
    requires 1.0 <= a <= MAX_U64 as real && e >= 0.125 && u * (8 * MAX_U64) as real < 1.0
    ensures a / e > 0.0 && 1.0 / (a / e) > u
  {
    var ratio, most := a / e, (8 * MAX_U64) as real;
    QuotientFacts(a, e);
    QuotientFacts(1.0, ratio);
    SmallerQuotient(a, MAX_U64 as real, e, 0.125);
    if u > 0.0 {
      ProductOrder(ratio, most, u);
      BelowInverse(u, ratio);
    }
  }

  /** When the memory trigger can fire, one of the cardinality events in front of it is accepted. */
  lemma RowsAccepted(config: AdaptiveConfig, s: State, node: NodeId) returns (i: nat)
    requires RowsComeFirst(config) && Open(s, node) && node in s.operators
    requires MemoryEvents(config.triggerConfig, node, s.operators[node]) != []
    ensures var events := CardinalityEvents(config.triggerConfig, node, s.operators[node]);
      i < |events| && Accepted(s, events[i]).Some?
  {
    var stats, t := s.operators[node], config.triggerConfig;
    var e, a := stats.estimatedRows, stats.actualRows as real;
    assert e >= 0.125;
    var ratio := stats.CardinalityRatio().value;
    assert ratio >= 0.0;
    i := 0;
    if StrategyAt(s, node) == HashJoin && ratio > 100.0 {
      assert a >= 1.0;
      InverseAbove(a, e, t.cardinalityUndercountRatio);
      i := 1;
    }
  }

  lemma RowEvents(config: TriggerConfig, node: NodeId, stats: OperatorStats)
    ensures forall e :: e in CardinalityEvents(config, node, stats) ==> OnCardinality(e)
  {
  }

  lemma AllowsOne(config: AdaptiveConfig)
    requires RowsComeFirst(config)
    ensures config.maxAdaptations == 1
  {
  }

  lemma EvaluateRowsFirst(config: AdaptiveConfig, s: State, node: NodeId)
    requires RowsComeFirst(config) && s.count == 0 && s.log == [] && OnlyRowsCounted(s.operators)
    ensures OnlyCardinalityLogged(Evaluate(config, s, node).log)
  {
    hide RowsComeFirst, CardinalityEvents, MemoryEvents, Open;
    if node in s.operators {
      var stats, t := s.operators[node], config.triggerConfig;
      var rows, events := CardinalityEvents(t, node, stats), OperatorEvents(t, node, stats);
      assert events == rows + MemoryEvents(t, node, stats);
      EventsExceedThreshold(t, node, stats);
      RowEvents(t, node, stats);
      AllowsOne(config);
      if !Open(s, node) {
        NothingAccepted(config, s, node, events);
      } else if MemoryEvents(t, node, stats) == [] {
        AdaptAllOnCardinality(config, s, node, events);
      } else {
        var i := RowsAccepted(config, s, node);
        forall j | 0 <= j <= i ensures OnCardinality(events[j]) {
          assert events[j] == rows[j];
        }
        FirstAcceptedLogged(config, s, node, events, i);
      }
    }
  }

  lemma {:induction false} RunRowsFirst(config: AdaptiveConfig, s: State, calls: seq<Call>)
    requires RowsComeFirst(config) && Invariant(config, s)
    requires OnlyRowsCounted(s.operators) && OnlyCardinalityLogged(s.log)
    ensures OnlyCardinalityLogged(Run(config, s, calls).log)
    decreases calls
  {
    hide OnlyCardinalityLogged, AdaptAll, OperatorEvents, RowsComeFirst, Invariant;
    if calls != [] {
      var mid := Observe(config, s, calls[0]);
      ObserveKeepsInvariant(config, s, calls[0]);
      AllowsOne(config);
      CountsLog(config, mid);
      assert OnlyRowsCounted(mid.operators);
      if Evaluates(config, s, calls[0]) && calls[0].node in mid.operators && mid.count == 0 {
        EvaluateRowsFirst(config, mid, calls[0].node);
      }
      ApplyKeepsInvariant(config, s, calls[0]);
      ApplyKeepsCounting(config, s, calls[0]);
      RunRowsFirst(config, Apply(config, s, calls[0]), calls[1..]);
    }
  }

  lemma CountsLog(config: AdaptiveConfig, s: State)
    requires Invariant(config, s)
    ensures s.count == |s.log| <= config.maxAdaptations
  {
  }

  lemma ApplyKeepsCounting(config: AdaptiveConfig, s: State, call: Call)
    requires OnlyRowsCounted(s.operators)
    ensures OnlyRowsCounted(Apply(config, s, call).operators)
  {
    hide Apply;
    ApplyKeepsOperators(config, s, call);
  }

  // ---------- and configurations that do not ----------

  /** A memory event behind at most one other, when both fit or the first is not accepted, is logged. */
  lemma MemoryLogged(config: AdaptiveConfig, s: State, node: NodeId, first: seq<TriggerEvent>, e: TriggerEvent)
    requires s.count == 0 && config.maxAdaptations >= 1 && Open(s, node)
    requires e.nodeId == node && e.kind == MemoryPressure && |first| <= 1
    requires first == [] || config.maxAdaptations >= 2 || Accepted(s, first[0]).None?
    ensures !OnlyCardinalityLogged(AdaptAll(config, s, node, first + [e]).log)
  {
    var mid := if first == [] then s else Adapt(s, node, first[0]);
    var done := Adapt(mid, node, e);
    assert mid.checkpoints == s.checkpoints && mid.count < config.maxAdaptations;
    assert Accepted(mid, e) == Some(SpillToDisk(node));
    assert done.log[|done.log| - 1].trigger == e;
    assert [e][1..] == [];
    assert AdaptAll(config, mid, node, [e]) == done;
    if first == [] {
      assert first + [e] == [e];
    } else {
      assert first + [e] == [first[0]] + [e] && (first + [e])[1..] == [e];
    }
  }

  const IDLE_CALLS := [Call.RegisterOperator(1, 500.0), Call.ForceEvaluate(1)]

  /** An operator without rows spills, because zero bytes are more than a negative share of its budget. */
  lemma IdleOperatorSpills(config: AdaptiveConfig, plan: RelExpr)
    requires config.enabled && config.maxAdaptations >= 1 && config.triggerConfig.memoryRatio < 0.0
    requires config.maxAdaptations >= 2 || config.triggerConfig.cardinalityOvercountRatio >= 0.0
             || config.triggerConfig.minRowsForCardinality > 0
    ensures !OnlyCardinalityLogged(Run(config, Init(plan), IDLE_CALLS).log)
  {
    var t, stats := config.triggerConfig, WithEstimate(500.0);
    var s := Apply(config, Init(plan), IDLE_CALLS[0]);
    assert s.operators == map[1 := stats] && LatestFor(s.checkpoints, 1) == Some(Checkpoint(1, 0, NotStarted, false));
    var e := TriggerEvent(1, MemoryPressure, 0.0, t.memoryRatio);
    assert stats.CardinalityRatio() == Some(0.0);
    assert MemoryEvents(t, 1, stats) == [e];
    var first := CardinalityEvents(t, 1, stats);
    assert OperatorEvents(t, 1, stats) == first + [e];
    MemoryLogged(config, s, 1, first, e);
    TwoCalls(config, plan, IDLE_CALLS[0], IDLE_CALLS[1]);
  }

  lemma TwoCalls(config: AdaptiveConfig, plan: RelExpr, c0: Call, c1: Call)
    ensures Run(config, Init(plan), [c0, c1]) == Apply(config, Apply(config, Init(plan), c0), c1)
  {
    RunSnoc(config, Init(plan), [], c0);
    assert [] + [c0] == [c0];
    RunSnoc(config, Init(plan), [c0], c1);
    assert [c0] + [c1] == [c0, c1];
  }

  /** All the rows there can be, for the smallest estimate that has a budget. */
  function BusyCalls(config: AdaptiveConfig): seq<Call> {
    [Call.RegisterOperator(1, 0.125), Call.ReportRows(1, MAX_U64)]
    + (if IsMultipleOf(MAX_U64, config.checkIntervalRows) then [] else [Call.ForceEvaluate(1)])
  }

  /** With limits that low, an underestimate beyond all bounds leaves a hash join alone, and memory is looked at. */
  lemma BusyOperatorSpills(config: AdaptiveConfig, plan: RelExpr)
    requires config.enabled && config.maxAdaptations == 1 && config.triggerConfig.memoryRatio < 0.0
    requires config.triggerConfig.cardinalityOvercountRatio < 0.0 && config.triggerConfig.minRowsForCardinality == 0
    requires config.triggerConfig.cardinalityUndercountRatio * (8 * MAX_U64) as real >= 1.0
    ensures !OnlyCardinalityLogged(Run(config, Init(plan), BusyCalls(config)).log)
  {
    hide AdaptAll, OnlyCardinalityLogged;
    var t, stats := config.triggerConfig, OperatorStats(MAX_U64, 0.125, 0, []);
    var c0, c1, c2 := Call.RegisterOperator(1, 0.125), Call.ReportRows(1, MAX_U64), Call.ForceEvaluate(1);
    var s0 := Apply(config, Init(plan), c0);
    var s := Observe(config, s0, c1);
    LatestAfterRecord(s0.checkpoints, s.checkpoints[|s0.checkpoints|], 1);
    assert s.operators == map[1 := stats] && s.count == 0 && s.strategies == map[];
    BusyEvents(t);
    var e := TriggerEvent(1, MemoryPressure, 0.0, t.memoryRatio);
    var first := TriggerEvent(1, CardinalityUnderestimate, (8 * MAX_U64) as real, t.cardinalityOvercountRatio);
    assert Accepted(s, first).None?;
    MemoryLogged(config, s, 1, [first], e);
    assert !OnlyCardinalityLogged(Evaluate(config, s, 1).log);
    TwoCalls(config, plan, c0, c1);
    RunSnoc(config, Init(plan), [c0, c1], c2);
    assert [c0, c1] + [c2] == [c0, c1, c2];
    if IsMultipleOf(MAX_U64, config.checkIntervalRows) {
      assert BusyCalls(config) == [c0, c1];
    } else {
      assert BusyCalls(config) == [c0, c1, c2];
    }
  }

  lemma BusyEvents(t: TriggerConfig)
    requires t.cardinalityOvercountRatio < 0.0 && t.minRowsForCardinality == 0 && t.memoryRatio < 0.0
    requires t.cardinalityUndercountRatio * (8 * MAX_U64) as real >= 1.0
    ensures OperatorEvents(t, 1, OperatorStats(MAX_U64, 0.125, 0, []))
         == [TriggerEvent(1, CardinalityUnderestimate, (8 * MAX_U64) as real, t.cardinalityOvercountRatio)]
            + [TriggerEvent(1, MemoryPressure, 0.0, t.memoryRatio)]
  {
    var stats := OperatorStats(MAX_U64, 0.125, 0, []);
    var m := (8 * MAX_U64) as real;
    assert MAX_U64 as real / 0.125 == m;
    assert stats.CardinalityRatio() == Some(m);
    var u := t.cardinalityUndercountRatio;
    assert u <= 0.0 ==> -u * m >= 0.0;
    BelowInverse(u, m);
    assert CardinalityEvents(t, 1, stats)
        == [TriggerEvent(1, CardinalityUnderestimate, m, t.cardinalityOvercountRatio)];
    assert CastU64(0.125 * 8.0) == 1;
    assert MemoryEvents(t, 1, stats) == [TriggerEvent(1, MemoryPressure, 0.0, t.memoryRatio)];
  }

  /** Only row counts make the executor adapt, whatever the calls, exactly when it may not adapt at all, the memory
      ratio is not negative, or the limits are so low that row counts always come first. */
  lemma OnlyRowCountsExactly(config: AdaptiveConfig)
    ensures OnlyRowCounts(config) <==>
      !config.enabled || config.maxAdaptations == 0 || config.triggerConfig.memoryRatio >= 0.0 || RowsComeFirst(config)
  {
    hide OnlyCardinalityLogged, Run, Invariant;
    var ratio := config.triggerConfig.memoryRatio;
    if !config.enabled || config.maxAdaptations == 0 || ratio >= 0.0 || RowsComeFirst(config) {
      forall plan, calls ensures OnlyCardinalityLogged(Run(config, Init(plan), calls).log) {
        InitialState(config, plan);
        if !config.enabled {
          DisabledLogsNothing(config, Init(plan), calls);
        } else if config.maxAdaptations == 0 {
          RunKeepsInvariant(config, Init(plan), calls);
          CountsLog(config, Run(config, Init(plan), calls));
        } else if ratio >= 0.0 {
          OnlyRowCountsAdapt(config, plan, calls);
        } else {
          RunRowsFirst(config, Init(plan), calls);
        }
      }
    } else {
      var plan := Scan("t");
      if config.triggerConfig.cardinalityOvercountRatio < 0.0 && config.triggerConfig.minRowsForCardinality == 0
         && config.maxAdaptations == 1 {
        BusyOperatorSpills(config, plan);
      } else {
        IdleOperatorSpills(config, plan);
      }
    }
  }

  lemma InitialState(config: AdaptiveConfig, plan: RelExpr)
    ensures Invariant(config, Init(plan)) && OnlyCardinalityLogged([]) && OnlyRowsCounted(Init(plan).operators)
  {
  }

  // ---------- skew ----------

  predicate NoSkew(log: seq<AdaptationRecord>) {
    forall i :: 0 <= i < |log| ==> log[i].trigger.kind != SkewDetected
  }

  lemma EventsWithoutSkew(config: TriggerConfig, node: NodeId, stats: OperatorStats)
    requires stats.columnSketches == []
    ensures forall e :: e in OperatorEvents(config, node, stats) ==> e.kind != SkewDetected
  {
  }

  lemma {:induction false} AdaptAllWithoutSkew(config: AdaptiveConfig, s: State, node: NodeId,
                                               events: seq<TriggerEvent>)
    requires NoSkew(s.log) && forall e :: e in events ==> e.kind != SkewDetected
    ensures NoSkew(AdaptAll(config, s, node, events).log)
    decreases events
  {
    if events != [] && s.count < config.maxAdaptations {
      assert events[0] in events;
      AdaptAllWithoutSkew(config, Adapt(s, node, events[0]), node, events[1..]);
    }
  }

  lemma {:induction false} RunWithoutSkew(config: AdaptiveConfig, s: State, calls: seq<Call>)
    requires OnlyRowsCounted(s.operators) && NoSkew(s.log)
    ensures NoSkew(Run(config, s, calls).log)
    decreases calls
  {
    hide NoSkew, AdaptAll, OperatorEvents;
    if calls != [] {
      var mid := Observe(config, s, calls[0]);
      assert OnlyRowsCounted(mid.operators) && mid.log == s.log;
      if Evaluates(config, s, calls[0]) && calls[0].node in mid.operators {
        var stats := mid.operators[calls[0].node];
        EventsWithoutSkew(config.triggerConfig, calls[0].node, stats);
        AdaptAllWithoutSkew(config, mid, calls[0].node, OperatorEvents(config.triggerConfig, calls[0].node, stats));
      }
      ApplyKeepsCounting(config, s, calls[0]);
      RunWithoutSkew(config, Apply(config, s, calls[0]), calls[1..]);
    }
  }

  /** No run adapts because of skew, whatever the configuration. */
  lemma SkewNeverFires(config: AdaptiveConfig, plan: RelExpr, calls: seq<Call>)
    ensures forall i :: 0 <= i < |Run(config, Init(plan), calls).log| ==>
      Run(config, Init(plan), calls).log[i].trigger.kind != SkewDetected
  {
    hide Run;
    RunWithoutSkew(config, Init(plan), calls);
  }
}
