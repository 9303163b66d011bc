/** A join strategy changes at most twice, down and then up, as long as the backend reports in order. */
module NoThrashing {
  import opened Options
  import opened RealFacts
  import opened RuntimeStats
  import opened Triggers
  import opened PlanSwitch
  import opened Checkpoints
  import opened RelAlgebra
  import opened ExecutorSpec
  import opened ExecutorRuns

  /** What triggered each strategy switch of a node, in log order. */
  function SwitchesOf(log: seq<AdaptationRecord>, node: NodeId): seq<TriggerKind> {
    if log == [] then [] else
      var r := log[|log| - 1];
      SwitchesOf(log[..|log| - 1], node)
      + (if r.adaptation.SwitchJoinStrategy? && r.adaptation.nodeId == node then [r.trigger.kind] else [])
  }

  predicate Registers(call: Call, node: NodeId) {
    (call.RegisterOperator? || call.RegisterJoin?) && call.node == node
  }

  predicate RegisteredIn(calls: seq<Call>, node: NodeId)
    decreases |calls|
  {
    calls != [] && (RegisteredIn(calls[..|calls| - 1], node) || Registers(calls[|calls| - 1], node))
  }

  /** The node's last switch was caused by an underestimate. */
  predicate SwitchedUp(s: State, node: NodeId) {
    var kinds := SwitchesOf(s.log, node);
    kinds != [] && kinds[|kinds| - 1] == CardinalityUnderestimate
  }

  /** A completion that reports fewer rows than have been counted, after an underestimate has switched the strategy. */
  predicate Lowers(s: State, call: Call, node: NodeId) {
    && call.ReportCompleted? && call.node == node && SwitchedUp(s, node)
    && node in s.operators && call.total < s.operators[node].actualRows
  }

  predicate LoweredIn(config: AdaptiveConfig, plan: RelExpr, calls: seq<Call>, node: NodeId)
    decreases |calls|
  {
    calls != [] &&
    var before := calls[..|calls| - 1];
    LoweredIn(config, plan, before, node) || Lowers(Run(config, Init(plan), before), calls[|calls| - 1], node)
  }

  /** The node is registered at most once, and no rows are reported for it after a completion that lowered its count
      once an underestimate had switched its strategy. */
  predicate InOrder(config: AdaptiveConfig, plan: RelExpr, calls: seq<Call>, node: NodeId)
    decreases |calls|
  {
    calls == [] ||
    var before, call := calls[..|calls| - 1], calls[|calls| - 1];
    && InOrder(config, plan, before, node)
    && (Registers(call, node) ==> !RegisteredIn(before, node))
    && (call.ReportRows? && call.node == node ==> !LoweredIn(config, plan, before, node))
  }

  predicate Settled(kinds: seq<TriggerKind>) {
    || kinds == []
    || kinds == [CardinalityOverestimate]
    || kinds == [CardinalityUnderestimate]
    || kinds == [CardinalityOverestimate, CardinalityUnderestimate]
  }

  // ---------- what the two ratios say ----------

  /** So many rows that an underestimate triggers. */
  predicate Above(config: TriggerConfig, stats: OperatorStats) {
    stats.CardinalityRatio().Some? && stats.CardinalityRatio().value > config.cardinalityOvercountRatio
  }

  /** So few rows, but some, that an overestimate triggers. */
  predicate Below(config: TriggerConfig, stats: OperatorStats) {
    stats.CardinalityRatio().Some? &&
    var ratio := stats.CardinalityRatio().value;
    ratio > 0.0 && 1.0 / ratio > config.cardinalityUndercountRatio
  }

  /** No row count is taken for an underestimate and for an overestimate at once. */
  ghost predicate Exclusive(config: TriggerConfig) {
    forall stats :: Above(config, stats) ==> !Below(config, stats)
  }

  predicate PositiveRatios(config: TriggerConfig) {
    config.cardinalityOvercountRatio > 0.0 && config.cardinalityUndercountRatio > 0.0
  }

  /** The largest ratio of a row count to an estimate that is not taken for zero. */
  const LARGEST_RATIO: real := MAX_U64 as real / F64_EPSILON

  /** A count above the one limit is not below the other when the product of the ratios is at least one. */
  lemma ProductExcludes(ratio: real, o: real, u: real)
    requires o > 0.0 && u > 0.0 && o * u >= 1.0 && ratio > o
    ensures 1.0 / ratio <= u
  {
    ProductOrder(o, ratio, u);
    var inverse := 1.0 / ratio;
    QuotientFacts(1.0, ratio);
    ProductOrder(u, inverse, ratio);
  }

  lemma Midpoint(a: real, b: real)
    requires a < b
    ensures a < (a + b) / 2.0 < b
  {
  }

  /** A positive ratio is the quotient of a row count and an estimate that is at least the smallest one. */
  lemma RatioBound(stats: OperatorStats)
    requires stats.CardinalityRatio().Some? && stats.CardinalityRatio().value > 0.0
    ensures stats.estimatedRows >= F64_EPSILON && stats.actualRows > 0
    ensures stats.CardinalityRatio().value <= LARGEST_RATIO
  {
    var a, e := stats.actualRows as real, stats.estimatedRows;
    NegativeQuotient(a, e);
    SmallerQuotient(a, MAX_U64 as real, e, F64_EPSILON);
  }

  /** Between two limits that overlap lies a ratio of the most rows to some estimate. */
  lemma RatioBetween(o: real, u: real) returns (stats: OperatorStats)
    requires o > 0.0 && u > 0.0 && o * u < 1.0 && o < LARGEST_RATIO
    ensures stats.actualRows == MAX_U64 && stats.columnSketches == [] && stats.peakMemoryBytes == 0
    ensures stats.CardinalityRatio().Some?
    ensures stats.CardinalityRatio().value > o && 1.0 / stats.CardinalityRatio().value > u
  {
    var top := 1.0 / u;
    BelowInverse(o, u);
    var limit := if top < LARGEST_RATIO then top else LARGEST_RATIO;
    var r := (o + limit) / 2.0;
    Midpoint(o, limit);
    var e := MAX_U64 as real / r;
    QuotientFacts(MAX_U64 as real, r);
    QuotientFacts(MAX_U64 as real, F64_EPSILON);
    EstimateLargeEnough(MAX_U64 as real, r, e, F64_EPSILON);
    stats := OperatorStats(MAX_U64, e, 0, []);
    QuotientIs(MAX_U64 as real, e, r);
    BelowInverse(r, u);
    BelowInverse(u, r);
  }

  lemma EstimateLargeEnough(a: real, r: real, e: real, d: real)
    requires d > 0.0 && r > 0.0 && a > 0.0 && e * r == a && r < a / d
    ensures e > d
  {
    QuotientFacts(a, d);
    ProductOrder(r, a / d, d);
    ProductOrder(d, e, r);
  }

  /** The two triggers exclude each other exactly when the product of the ratios is at least one, or when the first
      ratio is so large that nothing exceeds it. */
  lemma ExclusiveExactly(config: TriggerConfig)
    requires PositiveRatios(config)
    ensures var o, u := config.cardinalityOvercountRatio, config.cardinalityUndercountRatio;
      Exclusive(config) <==> o * u >= 1.0 || o >= LARGEST_RATIO
  {
    var o, u := config.cardinalityOvercountRatio, config.cardinalityUndercountRatio;
    if o * u >= 1.0 || o >= LARGEST_RATIO {
      forall stats | Above(config, stats) ensures !Below(config, stats) {
        var ratio := stats.CardinalityRatio().value;
        RatioBound(stats);
        if o * u >= 1.0 {
          ProductExcludes(ratio, o, u);
        }
      }
    } else {
      var stats := RatioBetween(o, u);
      assert Above(config, stats) && Below(config, stats);
    }
  }

  // ---------- how far a strategy moves ----------

  /** How far an operator's strategy has moved: down on an overestimate, up on an underestimate. After the latter the
      operator stays above the limit, until a completion lowers its count (`lowered`), which closes it for good. */
  ghost predicate Progress(config: TriggerConfig, s: State, node: NodeId, lowered: bool) {
    var kinds := SwitchesOf(s.log, node);
    && Settled(kinds)
    && (kinds != [] ==> node in s.operators)
    && (kinds == [CardinalityOverestimate] ==> StrategyAt(s, node) == NestedLoop)
    && (SwitchedUp(s, node) ==>
          StrategyAt(s, node) == HashJoin && (lowered || Above(config, s.operators[node])))
    && (lowered ==> Closed(s, node))
  }

  /** The operator's latest checkpoint is a completion. */
  ghost predicate Closed(s: State, node: NodeId) {
    LatestFor(s.checkpoints, node).Some? && LatestFor(s.checkpoints, node).value.IsCompleted()
  }

  /** What an event of one operator says about its rows. */
  predicate Credible(config: TriggerConfig, e: TriggerEvent, node: NodeId, stats: OperatorStats) {
    && e.nodeId == node
    && (e.kind == CardinalityUnderestimate ==> Above(config, stats))
    && (e.kind == CardinalityOverestimate ==> Below(config, stats))
  }

  lemma EventsCredible(config: TriggerConfig, node: NodeId, stats: OperatorStats)
    ensures forall e :: e in OperatorEvents(config, node, stats) ==> Credible(config, e, node, stats)
  {
    EventsExceedThreshold(config, node, stats);
    SkewEventsSound(config, node, stats.columnSketches);
  }

  lemma AdaptOther(s: State, other: NodeId, e: TriggerEvent, node: NodeId)
    requires e.nodeId == other != node
    ensures var s' := Adapt(s, other, e);
      && SwitchesOf(s'.log, node) == SwitchesOf(s.log, node)
      && StrategyAt(s', node) == StrategyAt(s, node)
      && s'.operators == s.operators && s'.checkpoints == s.checkpoints
  {
    RecommendationTargetsTrigger(e, StrategyAt(s, e.nodeId));
    var s' := Adapt(s, other, e);
    if s' != s {
      assert s'.log[..|s.log|] == s.log;
    }
  }

  /** What accepting a recommendation does to the switches of its node. */
  lemma AdaptSwitches(s: State, node: NodeId, e: TriggerEvent)
    requires e.nodeId == node
    ensures var s' := Adapt(s, node, e);
      && s'.operators == s.operators && s'.checkpoints == s.checkpoints
      && (if SwitchesOf(s'.log, node) == SwitchesOf(s.log, node) then StrategyAt(s', node) == StrategyAt(s, node)
          else
            && SwitchesOf(s'.log, node) == SwitchesOf(s.log, node) + [e.kind] && !Closed(s, node)
            && (e.kind == CardinalityUnderestimate || e.kind == CardinalityOverestimate)
            && StrategyAt(s', node) == (if e.kind == CardinalityUnderestimate then HashJoin else NestedLoop)
            && StrategyAt(s, node) != StrategyAt(s', node))
  {
    RecommendationTargetsTrigger(e, StrategyAt(s, e.nodeId));
    var s' := Adapt(s, node, e);
    if Accepted(s, e).Some? {
      assert s'.log[..|s.log|] == s.log;
    }
  }

  lemma AdaptProgress(config: TriggerConfig, s: State, node: NodeId, e: TriggerEvent, lowered: bool)
    requires Exclusive(config) && node in s.operators && Credible(config, e, node, s.operators[node])
    requires Progress(config, s, node, lowered)
    ensures var s' := Adapt(s, node, e);
      Progress(config, s', node, lowered) && s'.operators == s.operators && s'.checkpoints == s.checkpoints
  {
    hide Adapt, SwitchesOf, Above, Below, StrategyAt;
    AdaptSwitches(s, node, e);
    var kinds := SwitchesOf(s.log, node);
    if SwitchesOf(Adapt(s, node, e).log, node) != kinds {
      OneMoreSwitch(kinds, e.kind);
    }
  }

  /** An underestimate may come first or after an overestimate, an overestimate only first. */
  lemma OneMoreSwitch(kinds: seq<TriggerKind>, kind: TriggerKind)
    requires Settled(kinds)
    ensures (kinds + [kind])[|kinds|] == kind && kinds + [kind] != []
    ensures kind == CardinalityUnderestimate && (kinds != [] ==> kinds[|kinds| - 1] != CardinalityUnderestimate) ==>
      Settled(kinds + [kind]) && kinds + [kind] != [CardinalityOverestimate]
    ensures kind == CardinalityOverestimate && kinds == [] ==> Settled(kinds + [kind])
    ensures kinds != [] ==> kinds[|kinds| - 1] == CardinalityUnderestimate || kinds == [CardinalityOverestimate]
  {
  }

  lemma {:induction false} AdaptAllProgress(config: AdaptiveConfig, s: State, at: NodeId, events: seq<TriggerEvent>,
                                            node: NodeId, lowered: bool)
    requires Exclusive(config.triggerConfig)
    requires at in s.operators && forall e :: e in events ==> Credible(config.triggerConfig, e, at, s.operators[at])
    requires Progress(config.triggerConfig, s, node, lowered)
    ensures var s' := AdaptAll(config, s, at, events);
      && Progress(config.triggerConfig, s', node, lowered)
      && s'.operators == s.operators && s'.checkpoints == s.checkpoints
    decreases events
  {
    hide Adapt, SwitchesOf, Exclusive, Settled;
    if events != [] && s.count < config.maxAdaptations {
      assert events[0] in events;
      if at == node {
        AdaptProgress(config.triggerConfig, s, node, events[0], lowered);
      } else {
        AdaptOther(s, at, events[0], node);
      }
      AdaptAllProgress(config, Adapt(s, at, events[0]), at, events[1..], node, lowered);
    }
  }

  /** Counting more rows keeps a count above the limit. */
  lemma StaysAbove(config: TriggerConfig, stats: OperatorStats, more: OperatorStats)
    requires PositiveRatios(config) && Above(config, stats)
    requires more.estimatedRows == stats.estimatedRows && more.actualRows >= stats.actualRows
    ensures Above(config, more)
  {
    RatioBound(stats);
    var a, b, e := stats.actualRows as real, more.actualRows as real, stats.estimatedRows;
    QuotientFacts(b - a, e);
    assert b / e == a / e + (b - a) / e;
  }

  /** What a call makes of one operator's rows before any trigger is evaluated. */
  lemma ObservedRows(config: AdaptiveConfig, s: State, call: Call, node: NodeId)
    requires node in s.operators && !Registers(call, node) && SwitchedUp(s, node) && !Lowers(s, call, node)
    ensures var s' := Observe(config, s, call);
      && node in s'.operators && s'.operators[node].estimatedRows == s.operators[node].estimatedRows
      && s'.operators[node].actualRows >= s.operators[node].actualRows
  {
  }

  lemma ObservedElsewhere(config: AdaptiveConfig, s: State, call: Call, node: NodeId)
    ensures var s' := Observe(config, s, call);
      && s'.log == s.log && (!Registers(call, node) ==> StrategyAt(s', node) == StrategyAt(s, node))
      && (node in s'.operators <==> node in s.operators || Registers(call, node))
  {
  }

  lemma ObservedClosed(config: AdaptiveConfig, s: State, call: Call, node: NodeId)
    requires Lowers(s, call, node)
             || (Closed(s, node) && !Registers(call, node) && !(call.ReportRows? && call.node == node))
    ensures Closed(Observe(config, s, call), node)
  {
    var s' := Observe(config, s, call);
    if s'.checkpoints != s.checkpoints {
      LatestAfterRecord(s.checkpoints, s'.checkpoints[|s.checkpoints|], node);
    }
  }

  lemma ObserveProgress(config: AdaptiveConfig, s: State, call: Call, node: NodeId, lowered: bool)
    requires PositiveRatios(config.triggerConfig) && Progress(config.triggerConfig, s, node, lowered)
    requires Registers(call, node) ==> node !in s.operators && !lowered
    requires call.ReportRows? && call.node == node ==> !lowered
    ensures Progress(config.triggerConfig, Observe(config, s, call), node, lowered || Lowers(s, call, node))
  {
    hide Observe, SwitchesOf, Above, Settled, Closed, StrategyAt;
    var s' := Observe(config, s, call);
    ObservedElsewhere(config, s, call, node);
    if lowered || Lowers(s, call, node) {
      ObservedClosed(config, s, call, node);
    } else if node in s.operators && SwitchedUp(s, node) {
      ObservedRows(config, s, call, node);
      if Above(config.triggerConfig, s.operators[node]) {
        StaysAbove(config.triggerConfig, s.operators[node], s'.operators[node]);
      }
    }
  }

  lemma {:induction false} LoweredIsRegistered(config: AdaptiveConfig, plan: RelExpr, calls: seq<Call>, node: NodeId)
    requires LoweredIn(config, plan, calls, node)
    requires forall k :: 0 <= k <= |calls| ==>
      (RegisteredIn(calls[..k], node) <==> node in Run(config, Init(plan), calls[..k]).operators)
    ensures RegisteredIn(calls, node)
    decreases |calls|
  {
    hide Run;
    var n := |calls| - 1;
    var before := calls[..n];
    if LoweredIn(config, plan, before, node) {
      forall k | 0 <= k <= n ensures before[..k] == calls[..k] {
      }
      LoweredIsRegistered(config, plan, before, node);
    } else {
      assert RegisteredIn(calls[..n], node) <==> node in Run(config, Init(plan), calls[..n]).operators;
    }
  }

  lemma {:induction false} RegisteredExactly(config: AdaptiveConfig, plan: RelExpr, calls: seq<Call>, node: NodeId)
    ensures RegisteredIn(calls, node) <==> node in Run(config, Init(plan), calls).operators
    decreases |calls|
  {
    if calls == [] {
      NothingRegistered(config, plan, node);
    } else {
      hide Run, Observe, Evaluates;
      var n := |calls| - 1;
      var s := Run(config, Init(plan), calls[..n]);
      RegisteredExactly(config, plan, calls[..n], node);
      assert calls == calls[..n] + [calls[n]];
      RunSnoc(config, Init(plan), calls[..n], calls[n]);
      ObservedElsewhere(config, s, calls[n], node);
      ApplyKeepsOperators(config, s, calls[n]);
    }
  }

  lemma NothingRegistered(config: AdaptiveConfig, plan: RelExpr, node: NodeId)
    ensures node !in Run(config, Init(plan), []).operators
  {
  }

  lemma LoweredOnlyIfRegistered(config: AdaptiveConfig, plan: RelExpr, calls: seq<Call>, node: NodeId)
    ensures LoweredIn(config, plan, calls, node) ==> RegisteredIn(calls, node)
  {
    hide Run;
    if LoweredIn(config, plan, calls, node) {
      forall k | 0 <= k <= |calls|
        ensures RegisteredIn(calls[..k], node) <==> node in Run(config, Init(plan), calls[..k]).operators
      {
        RegisteredExactly(config, plan, calls[..k], node);
      }
      LoweredIsRegistered(config, plan, calls, node);
    }
  }

  lemma EvaluateProgress(config: AdaptiveConfig, s: State, call: Call, node: NodeId, lowered: bool)
    requires Exclusive(config.triggerConfig)
    requires Progress(config.triggerConfig, Observe(config, s, call), node, lowered)
    ensures Progress(config.triggerConfig, Apply(config, s, call), node, lowered)
  {
    hide Progress, Exclusive, Observe, OperatorEvents, AdaptAll, Evaluates;
    var mid := Observe(config, s, call);
    if Evaluates(config, s, call) && call.node in mid.operators {
      EventsCredible(config.triggerConfig, call.node, mid.operators[call.node]);
      AdaptAllProgress(config, mid, call.node,
                       OperatorEvents(config.triggerConfig, call.node, mid.operators[call.node]), node, lowered);
    }
  }

  lemma {:induction false} RunProgress(config: AdaptiveConfig, plan: RelExpr, calls: seq<Call>, node: NodeId)
    requires PositiveRatios(config.triggerConfig) && Exclusive(config.triggerConfig)
    requires InOrder(config, plan, calls, node)
    ensures Progress(config.triggerConfig, Run(config, Init(plan), calls), node, LoweredIn(config, plan, calls, node))
    decreases |calls|
  {
    hide Progress, Exclusive, Run, Apply, Observe, Lowers;
    if calls == [] {
      NothingMoved(config, plan, node);
    } else {
      var n := |calls| - 1;
      var before, call := calls[..n], calls[n];
      var s := Run(config, Init(plan), before);
      RunProgress(config, plan, before, node);
      RegisteredExactly(config, plan, before, node);
      LoweredOnlyIfRegistered(config, plan, before, node);
      ObserveProgress(config, s, call, node, LoweredIn(config, plan, before, node));
      EvaluateProgress(config, s, call, node, LoweredIn(config, plan, calls, node));
      assert calls == before + [call];
      RunSnoc(config, Init(plan), before, call);
    }
  }

  lemma NothingMoved(config: AdaptiveConfig, plan: RelExpr, node: NodeId)
    ensures Progress(config.triggerConfig, Run(config, Init(plan), []), node, false)
  {
  }

  /** No thrashing: with positive ratios whose product is at least one, and reports in order, a node's strategy is
      switched at most once on an overestimate and then at most once on an underestimate, and never back. */
  lemma StrategySettles(config: AdaptiveConfig, plan: RelExpr, calls: seq<Call>, node: NodeId)
    requires PositiveRatios(config.triggerConfig)
    requires config.triggerConfig.cardinalityOvercountRatio * config.triggerConfig.cardinalityUndercountRatio >= 1.0
    requires InOrder(config, plan, calls, node)
    ensures Settled(SwitchesOf(Run(config, Init(plan), calls).log, node))
  {
    hide Run, Exclusive;
    ExclusiveExactly(config.triggerConfig);
    RunProgress(config, plan, calls, node);
  }

  // ---------- exactly these configurations settle ----------

  ghost predicate Settles(config: AdaptiveConfig, plan: RelExpr, calls: seq<Call>, node: NodeId) {
    InOrder(config, plan, calls, node) ==> Settled(SwitchesOf(Run(config, Init(plan), calls).log, node))
  }

  ghost predicate AlwaysSettles(config: AdaptiveConfig) {
    forall plan, calls, node :: Settles(config, plan, calls, node)
  }

  /** Registers a nested-loop join, reports all its rows at once, and makes sure that they are evaluated. */
  function OverlapCalls(config: AdaptiveConfig, estimate: real): seq<Call> {
    [Call.RegisterJoin(1, estimate, NestedLoop), Call.ReportRows(1, MAX_U64)]
    + (if IsMultipleOf(MAX_U64, config.checkIntervalRows) then [] else [Call.ForceEvaluate(1)])
  }

  lemma OverlapInOrder(config: AdaptiveConfig, plan: RelExpr, estimate: real)
    ensures InOrder(config, plan, OverlapCalls(config, estimate), 1)
  {
    hide Run, IsMultipleOf;
    var c0, c1, c2 := Call.RegisterJoin(1, estimate, NestedLoop), Call.ReportRows(1, MAX_U64), Call.ForceEvaluate(1);
    assert InOrder(config, plan, [], 1) && !LoweredIn(config, plan, [], 1) && !RegisteredIn([], 1);
    assert [c0][..0] == [] && [c0, c1][..1] == [c0] && [c0, c1, c2][..2] == [c0, c1];
    assert InOrder(config, plan, [c0], 1) && !LoweredIn(config, plan, [c0], 1);
    assert InOrder(config, plan, [c0, c1], 1);
    assert InOrder(config, plan, [c0, c1, c2], 1);
    assert OverlapCalls(config, estimate) == [c0, c1] || OverlapCalls(config, estimate) == [c0, c1, c2];
  }

  /** One evaluation of a nested-loop join whose rows are above and below the limits at once: up and down again. */
  lemma BothSwitch(config: AdaptiveConfig, s: State, stats: OperatorStats)
    requires config.maxAdaptations >= 2 && s.count == 0 && s.log == [] && StrategyAt(s, 1) == NestedLoop
    requires 1 in s.operators && s.operators[1] == stats && stats.columnSketches == []
    requires LatestFor(s.checkpoints, 1).Some? && !LatestFor(s.checkpoints, 1).value.IsCompleted()
    requires stats.actualRows >= config.triggerConfig.minRowsForCardinality
    requires Above(config.triggerConfig, stats) && Below(config.triggerConfig, stats)
    ensures !Settled(SwitchesOf(Evaluate(config, s, 1).log, 1))
  {
    var events := OperatorEvents(config.triggerConfig, 1, stats);
    var ratio := stats.CardinalityRatio().value;
    var up := TriggerEvent(1, CardinalityUnderestimate, ratio, config.triggerConfig.cardinalityOvercountRatio);
    var down := TriggerEvent(1, CardinalityOverestimate, 1.0 / ratio, config.triggerConfig.cardinalityUndercountRatio);
    var rest := MemoryEvents(config.triggerConfig, 1, stats);
    assert events == [up] + ([down] + rest);
    var s1 := SwitchOnce(s, up, HashJoin);
    var s2 := SwitchOnce(s1, down, NestedLoop);
    AdaptAllHead(config, s, up, [down] + rest);
    AdaptAllHead(config, s1, down, rest);
    MemorySwitchesNothing(config, s2, stats);
    assert Evaluate(config, s, 1) == AdaptAll(config, s2, 1, rest);
    assert SwitchesOf(s.log, 1) == [];
    assert SwitchesOf(s2.log, 1) == [CardinalityUnderestimate, CardinalityOverestimate];
  }

  lemma SwitchOnce(s: State, e: TriggerEvent, to: JoinStrategy) returns (s': State)
    requires e.nodeId == 1 && LatestFor(s.checkpoints, 1).Some? && !LatestFor(s.checkpoints, 1).value.IsCompleted()
    requires Recommend(e, StrategyAt(s, 1)) == Some(SwitchJoinStrategy(1, StrategyAt(s, 1), to))
    ensures s' == Adapt(s, 1, e) && s'.operators == s.operators && s'.checkpoints == s.checkpoints
    ensures s'.count == s.count + 1 && StrategyAt(s', 1) == to
    ensures SwitchesOf(s'.log, 1) == SwitchesOf(s.log, 1) + [e.kind]
  {
    s' := Adapt(s, 1, e);
    assert Accepted(s, e) == Some(SwitchJoinStrategy(1, StrategyAt(s, 1), to));
    assert s'.log[..|s.log|] == s.log;
  }

  lemma AdaptAllHead(config: AdaptiveConfig, s: State, e: TriggerEvent, rest: seq<TriggerEvent>)
    requires s.count < config.maxAdaptations
    ensures AdaptAll(config, s, 1, [e] + rest) == AdaptAll(config, Adapt(s, 1, e), 1, rest)
  {
    assert ([e] + rest)[1..] == rest;
  }

  lemma MemorySwitchesNothing(config: AdaptiveConfig, s: State, stats: OperatorStats)
    ensures var events := MemoryEvents(config.triggerConfig, 1, stats);
      SwitchesOf(AdaptAll(config, s, 1, events).log, 1) == SwitchesOf(s.log, 1)
  {
    var events := MemoryEvents(config.triggerConfig, 1, stats);
    if events != [] && s.count < config.maxAdaptations {
      var s' := Adapt(s, 1, events[0]);
      assert events[1..] == [];
      if s' != s {
        assert s'.log[..|s.log|] == s.log;
      }
    }
  }

  /** With overlapping limits, two or three calls in order switch a strategy up and down again. */
  lemma OverlapThrashes(config: AdaptiveConfig, plan: RelExpr, stats: OperatorStats)
    requires config.enabled && config.maxAdaptations >= 2
    requires stats == OperatorStats(MAX_U64, stats.estimatedRows, 0, [])
    requires Above(config.triggerConfig, stats) && Below(config.triggerConfig, stats)
    ensures !Settled(SwitchesOf(Run(config, Init(plan), OverlapCalls(config, stats.estimatedRows)).log, 1))
  {
    hide Above, Below, Settled, OperatorEvents, AdaptAll;
    var c0 := Call.RegisterJoin(1, stats.estimatedRows, NestedLoop);
    var c1, c2 := Call.ReportRows(1, MAX_U64), Call.ForceEvaluate(1);
    var s0 := Apply(config, Init(plan), c0);
    var s1 := Observe(config, s0, c1);
    LatestAfterRecord(s0.checkpoints, s1.checkpoints[|s0.checkpoints|], 1);
    BothSwitch(config, s1, stats);
    RunSnoc(config, Init(plan), [], c0);
    assert [] + [c0] == [c0];
    RunSnoc(config, Init(plan), [c0], c1);
    assert [c0] + [c1] == [c0, c1];
    RunSnoc(config, Init(plan), [c0, c1], c2);
    assert [c0, c1] + [c2] == [c0, c1, c2];
    if IsMultipleOf(MAX_U64, config.checkIntervalRows) {
      assert OverlapCalls(config, stats.estimatedRows) == [c0, c1];
    } else {
      assert OverlapCalls(config, stats.estimatedRows) == [c0, c1, c2];
    }
  }

  /** With positive ratios and room for two adaptations, every strategy settles in every run in order exactly when
      the product of the ratios is at least one, or the first is beyond what any row count can reach. */
  lemma SettlesExactly(config: AdaptiveConfig)
    requires config.enabled && config.maxAdaptations >= 2 && PositiveRatios(config.triggerConfig)
    ensures var o, u := config.triggerConfig.cardinalityOvercountRatio, config.triggerConfig.cardinalityUndercountRatio;
      AlwaysSettles(config) <==> o * u >= 1.0 || o >= LARGEST_RATIO
  {
    hide Run, InOrder, Settled, SwitchesOf, Above, Below;
    var o, u := config.triggerConfig.cardinalityOvercountRatio, config.triggerConfig.cardinalityUndercountRatio;
    ExclusiveExactly(config.triggerConfig);
    if o * u >= 1.0 || o >= LARGEST_RATIO {
      forall plan, calls, node ensures Settles(config, plan, calls, node) {
        if InOrder(config, plan, calls, node) {
          ProgressSettles(config, plan, calls, node);
        }
      }
    } else {
      var most := RatioBetween(o, u);
      MostOverlaps(config.triggerConfig, most);
      var plan := Scan("t");
      OverlapInOrder(config, plan, most.estimatedRows);
      OverlapThrashes(config, plan, most);
      assert !Settles(config, plan, OverlapCalls(config, most.estimatedRows), 1);
    }
  }

  lemma MostOverlaps(config: TriggerConfig, stats: OperatorStats)
    requires stats.CardinalityRatio().Some? && PositiveRatios(config)
    requires stats.CardinalityRatio().value > config.cardinalityOvercountRatio
    requires 1.0 / stats.CardinalityRatio().value > config.cardinalityUndercountRatio
    ensures Above(config, stats) && Below(config, stats)
  {
  }

  lemma ProgressSettles(config: AdaptiveConfig, plan: RelExpr, calls: seq<Call>, node: NodeId)
    requires PositiveRatios(config.triggerConfig) && Exclusive(config.triggerConfig)
    requires InOrder(config, plan, calls, node)
    ensures Settled(SwitchesOf(Run(config, Init(plan), calls).log, node))
  {
    hide Run, Exclusive;
    RunProgress(config, plan, calls, node);
  }

  // ---------- rows reported after a completion that lowered the count ----------

  const LATE_CALLS := [
    Call.RegisterOperator(1, 200000.0),
    Call.ReportRows(1, 10_000),
    Call.ReportRows(1, 2_000_000),
    Call.ReportCompleted(1, 0),
    Call.ReportRows(1, 10_000)]

  /** One report of the run below: the rows reach `total`, and the one event switches the strategy. */
  lemma ReportSwitches(s: State, rows: U64, total: U64, e: TriggerEvent, to: JoinStrategy)
    requires s.count < 5 && 1 in s.operators
    requires SaturatingAdd(s.operators[1].actualRows, rows) == total && total % 10_000 == 0
    requires OperatorEvents(DEFAULT_TRIGGERS, 1, s.operators[1].(actualRows := total)) == [e] && e.nodeId == 1
    requires Recommend(e, StrategyAt(s, 1)) == Some(SwitchJoinStrategy(1, StrategyAt(s, 1), to))
    ensures var s' := Apply(DEFAULT_CONFIG, s, Call.ReportRows(1, rows));
      && s'.operators == s.operators[1 := s.operators[1].(actualRows := total)]
      && s'.count == s.count + 1 && StrategyAt(s', 1) == to
      && SwitchesOf(s'.log, 1) == SwitchesOf(s.log, 1) + [e.kind]
  {
    var mid := Observe(DEFAULT_CONFIG, s, Call.ReportRows(1, rows));
    LatestAfterRecord(s.checkpoints, mid.checkpoints[|s.checkpoints|], 1);
    assert Accepted(mid, e) == Some(SwitchJoinStrategy(1, StrategyAt(s, 1), to));
    assert AdaptAll(DEFAULT_CONFIG, mid, 1, [e]) == Adapt(mid, 1, e) by {
      assert [e][1..] == [];
    }
    assert Adapt(mid, 1, e).log[..|s.log|] == s.log;
  }

  lemma LateEvents()
    ensures OperatorEvents(DEFAULT_TRIGGERS, 1, OperatorStats(10_000, 200000.0, 0, []))
         == [TriggerEvent(1, CardinalityOverestimate, 20.0, 10.0)]
    ensures OperatorEvents(DEFAULT_TRIGGERS, 1, OperatorStats(2_010_000, 200000.0, 0, []))
         == [TriggerEvent(1, CardinalityUnderestimate, 10.05, 10.0)]
  {
    var few, many := OperatorStats(10_000, 200000.0, 0, []), OperatorStats(2_010_000, 200000.0, 0, []);
    assert few.CardinalityRatio() == Some(0.05) && 1.0 / 0.05 == 20.0;
    assert many.CardinalityRatio() == Some(10.05);
    assert MemoryEvents(DEFAULT_TRIGGERS, 1, few) == [] && MemoryEvents(DEFAULT_TRIGGERS, 1, many) == [];
  }

  /** The order of reports matters: rows reported after a completion that lowered the count of an operator switched up
      reopen it, and its strategy then goes down, up and down again under the default configuration. */
  lemma LateRowsThrash(plan: RelExpr)
    ensures !InOrder(DEFAULT_CONFIG, plan, LATE_CALLS, 1)
    ensures !Settled(SwitchesOf(Run(DEFAULT_CONFIG, Init(plan), LATE_CALLS).log, 1))
  {
    LateEvents();
    var over := TriggerEvent(1, CardinalityOverestimate, 20.0, 10.0);
    var under := TriggerEvent(1, CardinalityUnderestimate, 10.05, 10.0);
    var s1 := Apply(DEFAULT_CONFIG, Init(plan), LATE_CALLS[0]);
    ReportSwitches(s1, 10_000, 10_000, over, NestedLoop);
    var s2 := Apply(DEFAULT_CONFIG, s1, LATE_CALLS[1]);
    ReportSwitches(s2, 2_000_000, 2_010_000, under, HashJoin);
    var s3 := Apply(DEFAULT_CONFIG, s2, LATE_CALLS[2]);
    var s4 := Apply(DEFAULT_CONFIG, s3, LATE_CALLS[3]);
    assert s4.operators[1] == OperatorStats(0, 200000.0, 0, []) && s4.log == s3.log && s4.strategies == s3.strategies;
    ReportSwitches(s4, 10_000, 10_000, over, NestedLoop);
    var s5 := Apply(DEFAULT_CONFIG, s4, LATE_CALLS[4]);
    assert |SwitchesOf(s5.log, 1)| == 3;
    FiveCalls(plan);
    if InOrder(DEFAULT_CONFIG, plan, LATE_CALLS, 1) {
      StrategySettles(DEFAULT_CONFIG, plan, LATE_CALLS, 1);
    }
  }

  lemma FiveCalls(plan: RelExpr)
    ensures var c := LATE_CALLS;
      Run(DEFAULT_CONFIG, Init(plan), c)
      == Apply(DEFAULT_CONFIG, Apply(DEFAULT_CONFIG, Apply(DEFAULT_CONFIG, Apply(DEFAULT_CONFIG,
           Apply(DEFAULT_CONFIG, Init(plan), c[0]), c[1]), c[2]), c[3]), c[4])
  {
    var c, s := LATE_CALLS, Init(plan);
    assert c == [] + [c[0]] + [c[1]] + [c[2]] + [c[3]] + [c[4]];
    RunSnoc(DEFAULT_CONFIG, s, [] + [c[0]] + [c[1]] + [c[2]] + [c[3]], c[4]);
    RunSnoc(DEFAULT_CONFIG, s, [] + [c[0]] + [c[1]] + [c[2]], c[3]);
    RunSnoc(DEFAULT_CONFIG, s, [] + [c[0]] + [c[1]], c[2]);
    RunSnoc(DEFAULT_CONFIG, s, [] + [c[0]], c[1]);
    RunSnoc(DEFAULT_CONFIG, s, [], c[0]);
  }
}
