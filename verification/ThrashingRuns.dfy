/** Exactly which runs switch a strategy back, whatever the configuration, if the operator registers only once. */
module ThrashingRuns {
  import opened RuntimeStats
  import opened Triggers
  import opened PlanSwitch
  import opened RelAlgebra
  import opened ExecutorSpec
  import opened ExecutorRuns
  import opened NoThrashing

  predicate RegisteredOnce(calls: seq<Call>, node: NodeId)
    decreases |calls|
  {
    calls == [] ||
    var before, call := calls[..|calls| - 1], calls[|calls| - 1];
    RegisteredOnce(before, node) && (Registers(call, node) ==> !RegisteredIn(before, node))
  }

  // ---------- what one evaluation switches ----------

  /** The operator can be adapted and has rows enough for its cardinality to be looked at. */
  predicate Examined(config: AdaptiveConfig, s: State, node: NodeId)
    requires node in s.operators
  {
    Open(s, node) && s.operators[node].actualRows >= config.triggerConfig.minRowsForCardinality
  }

  /** Its underestimate leads to an adaptation: to a hash join, or for a hash join to a swap of the inputs. */
  predicate TakesUnderestimate(config: AdaptiveConfig, s: State, node: NodeId)
    requires node in s.operators
  {
    && Examined(config, s, node) && s.count < config.maxAdaptations
    && Above(config.triggerConfig, s.operators[node])
    && (StrategyAt(s, node) == HashJoin ==> s.operators[node].CardinalityRatio().value <= 100.0)
  }

  predicate SwitchesUp(config: AdaptiveConfig, s: State, node: NodeId)
    requires node in s.operators
  {
    TakesUnderestimate(config, s, node) && StrategyAt(s, node) != HashJoin
  }

  /** Below the other limit, and an adaptation is left after what the underestimate took. */
  predicate SwitchesDown(config: AdaptiveConfig, s: State, node: NodeId)
    requires node in s.operators
  {
    && Examined(config, s, node) && Below(config.triggerConfig, s.operators[node])
    && s.count + (if TakesUnderestimate(config, s, node) then 1 else 0) < config.maxAdaptations
    && (StrategyAt(s, node) == NestedLoop ==> SwitchesUp(config, s, node))
  }

  function NewSwitches(config: AdaptiveConfig, s: State, node: NodeId): seq<TriggerKind>
    requires node in s.operators
  {
    (if SwitchesUp(config, s, node) then [CardinalityUnderestimate] else [])
    + (if SwitchesDown(config, s, node) then [CardinalityOverestimate] else [])
  }

  lemma {:induction false} AdaptAllAppend(config: AdaptiveConfig, s: State, node: NodeId,
                                          a: seq<TriggerEvent>, b: seq<TriggerEvent>)
    ensures AdaptAll(config, s, node, a + b) == AdaptAll(config, AdaptAll(config, s, node, a), node, b)
    decreases a
  {
    hide Adapt;
    if a == [] {
      assert a + b == b;
    } else if s.count < config.maxAdaptations {
      assert (a + b)[1..] == a[1..] + b;
      AdaptAllAppend(config, Adapt(s, node, a[0]), node, a[1..], b);
    }
  }

  function UpEvents(config: TriggerConfig, node: NodeId, stats: OperatorStats): seq<TriggerEvent> {
    if stats.actualRows < config.minRowsForCardinality || !Above(config, stats) then [] else
    [TriggerEvent(node, CardinalityUnderestimate, stats.CardinalityRatio().value, config.cardinalityOvercountRatio)]
  }

  function DownEvents(config: TriggerConfig, node: NodeId, stats: OperatorStats): seq<TriggerEvent> {
    if stats.actualRows < config.minRowsForCardinality || !Below(config, stats) then [] else
    [TriggerEvent(node, CardinalityOverestimate, 1.0 / stats.CardinalityRatio().value,
                  config.cardinalityUndercountRatio)]
  }

  lemma EventsInParts(config: TriggerConfig, node: NodeId, stats: OperatorStats)
    ensures OperatorEvents(config, node, stats)
         == UpEvents(config, node, stats)
            + (DownEvents(config, node, stats)
               + (SkewEvents(config, node, stats.columnSketches) + MemoryEvents(config, node, stats)))
    ensures forall e :: e in SkewEvents(config, node, stats.columnSketches) + MemoryEvents(config, node, stats) ==>
      e.kind == SkewDetected || e.kind == MemoryPressure
  {
    hide MemoryEvents;
    SkewEventsSound(config, node, stats.columnSketches);
    MemoryEventKind(config, node, stats);
  }

  lemma MemoryEventKind(config: TriggerConfig, node: NodeId, stats: OperatorStats)
    ensures forall e :: e in MemoryEvents(config, node, stats) ==> e.kind == MemoryPressure
  {
  }

  lemma AdaptOnce(config: AdaptiveConfig, s: State, node: NodeId, e: TriggerEvent)
    ensures AdaptAll(config, s, node, [e]) == if s.count >= config.maxAdaptations then s else Adapt(s, node, e)
  {
    assert [e][1..] == [];
  }

  lemma AdaptedLog(s: State, node: NodeId, e: TriggerEvent)
    requires e.nodeId == node
    ensures var s', a := Adapt(s, node, e), Accepted(s, e);
      && s'.operators == s.operators && s'.checkpoints == s.checkpoints
      && s'.count == s.count + (if a.Some? then 1 else 0)
      && SwitchesOf(s'.log, node)
         == SwitchesOf(s.log, node) + (if a.Some? && a.value.SwitchJoinStrategy? then [e.kind] else [])
      && StrategyAt(s', node)
         == if a.Some? && a.value.SwitchJoinStrategy? then a.value.to else StrategyAt(s, node)
  {
    RecommendationTargetsTrigger(e, StrategyAt(s, e.nodeId));
    var s' := Adapt(s, node, e);
    if Accepted(s, e).Some? {
      assert s'.log[..|s.log|] == s.log;
    }
  }

  lemma UpStep(config: AdaptiveConfig, s: State, node: NodeId)
    requires node in s.operators
    ensures var s' := AdaptAll(config, s, node, UpEvents(config.triggerConfig, node, s.operators[node]));
      && s'.operators == s.operators && s'.checkpoints == s.checkpoints
      && s'.count == s.count + (if TakesUnderestimate(config, s, node) then 1 else 0)
      && SwitchesOf(s'.log, node)
         == SwitchesOf(s.log, node) + (if SwitchesUp(config, s, node) then [CardinalityUnderestimate] else [])
      && StrategyAt(s', node) == if SwitchesUp(config, s, node) then HashJoin else StrategyAt(s, node)
  {
    hide Adapt, AdaptAll, SwitchesOf, StrategyAt, Above;
    var events := UpEvents(config.triggerConfig, node, s.operators[node]);
    NothingToDo(config, s, node);
    if events != [] {
      AdaptOnce(config, s, node, events[0]);
      AdaptedLog(s, node, events[0]);
      assert events == [events[0]];
    }
  }

  lemma NothingToDo(config: AdaptiveConfig, s: State, node: NodeId)
    ensures AdaptAll(config, s, node, []) == s
  {
  }

  lemma DownStep(config: AdaptiveConfig, s: State, node: NodeId)
    requires node in s.operators
    ensures var s' := AdaptAll(config, s, node, DownEvents(config.triggerConfig, node, s.operators[node]));
      var down := Examined(config, s, node) && Below(config.triggerConfig, s.operators[node])
                  && s.count < config.maxAdaptations && StrategyAt(s, node) != NestedLoop;
      && SwitchesOf(s'.log, node) == SwitchesOf(s.log, node) + (if down then [CardinalityOverestimate] else [])
      && StrategyAt(s', node) == if down then NestedLoop else StrategyAt(s, node)
  {
    hide Adapt, AdaptAll, SwitchesOf, StrategyAt, Below;
    var events := DownEvents(config.triggerConfig, node, s.operators[node]);
    NothingToDo(config, s, node);
    if events != [] {
      AdaptOnce(config, s, node, events[0]);
      AdaptedLog(s, node, events[0]);
      assert events == [events[0]];
    }
  }

  /** Skew and memory events switch no strategy, and neither do the events of another operator. */
  lemma {:induction false} OthersSwitchNothing(config: AdaptiveConfig, s: State, at: NodeId, events: seq<TriggerEvent>,
                                               node: NodeId)
    requires forall e :: e in events ==>
      e.nodeId == at && (at != node || e.kind == SkewDetected || e.kind == MemoryPressure)
    ensures var s' := AdaptAll(config, s, at, events);
      SwitchesOf(s'.log, node) == SwitchesOf(s.log, node) && StrategyAt(s', node) == StrategyAt(s, node)
    decreases events
  {
    hide Adapt, SwitchesOf, StrategyAt;
    if events != [] && s.count < config.maxAdaptations {
      var e := events[0];
      assert e in events;
      if at == node {
        AdaptedLog(s, node, e);
      } else {
        AdaptOther(s, at, e, node);
      }
      OthersSwitchNothing(config, Adapt(s, at, e), at, events[1..], node);
    }
  }

  /** One evaluation switches the strategy up, down, up and down, or not at all, as the guards say. */
  lemma EvaluateSwitches(config: AdaptiveConfig, s: State, node: NodeId)
    requires node in s.operators
    ensures var s', new' := Evaluate(config, s, node), NewSwitches(config, s, node);
      && SwitchesOf(s'.log, node) == SwitchesOf(s.log, node) + new'
      && StrategyAt(s', node)
         == if new' == [] then StrategyAt(s, node)
            else if new'[|new'| - 1] == CardinalityUnderestimate then HashJoin else NestedLoop
  {
    hide AdaptAll, SwitchesOf, StrategyAt, OperatorEvents, UpEvents, DownEvents, SkewEvents, MemoryEvents, Above, Below;
    var t, stats := config.triggerConfig, s.operators[node];
    if s.count < config.maxAdaptations {
      var rest := SkewEvents(t, node, stats.columnSketches) + MemoryEvents(t, node, stats);
      EventsInParts(t, node, stats);
      EventsExceedThreshold(t, node, stats);
      AdaptAllAppend(config, s, node, UpEvents(t, node, stats), DownEvents(t, node, stats) + rest);
      UpStep(config, s, node);
      var s1 := AdaptAll(config, s, node, UpEvents(t, node, stats));
      AdaptAllAppend(config, s1, node, DownEvents(t, node, stats), rest);
      DownStep(config, s1, node);
      OthersSwitchNothing(config, AdaptAll(config, s1, node, DownEvents(t, node, stats)), node, rest, node);
    }
  }

  // ---------- what a call switches ----------

  /** The call switches the node down after an underestimate has switched it up, earlier or in the same evaluation. */
  predicate Relapses(config: AdaptiveConfig, s: State, call: Call, node: NodeId) {
    && Evaluates(config, s, call) && call.node == node
    && var mid := Observe(config, s, call);
    && node in mid.operators && SwitchesDown(config, mid, node)
    && (SwitchesUp(config, mid, node) || SwitchedUp(s, node))
  }

  /** Once switched, the strategy is what the last switch made of it. */
  ghost predicate InStep(s: State, node: NodeId) {
    SwitchesOf(s.log, node) != [] ==>
      node in s.operators && StrategyAt(s, node) == if SwitchedUp(s, node) then HashJoin else NestedLoop
  }

  lemma ObserveInStep(config: AdaptiveConfig, s: State, call: Call, node: NodeId)
    requires InStep(s, node) && (Registers(call, node) ==> node !in s.operators)
    ensures InStep(Observe(config, s, call), node) && Observe(config, s, call).log == s.log
  {
    hide Observe, SwitchesOf, StrategyAt;
    ObservedElsewhere(config, s, call, node);
  }

  /** After settled switches, new ones leave them settled unless they switch down what is or was just switched up. */
  lemma MoreSwitches(kinds: seq<TriggerKind>, strategy: JoinStrategy, up: bool, down: bool)
    requires up ==> strategy != HashJoin
    requires down && strategy == NestedLoop ==> up
    requires Settled(kinds)
    requires kinds != [] ==>
      strategy == if kinds[|kinds| - 1] == CardinalityUnderestimate then HashJoin else NestedLoop
    ensures var u, d := if up then [CardinalityUnderestimate] else [], if down then [CardinalityOverestimate] else [];
      Settled(kinds + (u + d)) <==>
      !(down && (up || (kinds != [] && kinds[|kinds| - 1] == CardinalityUnderestimate)))
  {
    var more := (if up then [CardinalityUnderestimate] else []) + (if down then [CardinalityOverestimate] else []);
    assert up && !down ==> more == [CardinalityUnderestimate];
    assert !up && down ==> more == [CardinalityOverestimate];
    assert up && down ==> more == [CardinalityUnderestimate, CardinalityOverestimate];
    if kinds == [] || more == [] {
      assert kinds + more == if kinds == [] then more else kinds;
    } else {
      assert |kinds + more| == |kinds| + |more| && (kinds + more)[|kinds|] == more[0];
      assert (kinds + more)[0] == kinds[0];
      assert |kinds| == 1 && |more| == 1 ==> kinds + more == [kinds[0], more[0]];
    }
  }

  lemma SettledBefore(kinds: seq<TriggerKind>, more: seq<TriggerKind>)
    requires Settled(kinds + more)
    ensures Settled(kinds)
  {
    assert (kinds + more)[..|kinds|] == kinds;
  }

  lemma EvaluateInStep(config: AdaptiveConfig, s: State, node: NodeId)
    requires node in s.operators && InStep(s, node)
    ensures var s' := Evaluate(config, s, node);
      && InStep(s', node)
      && (Settled(SwitchesOf(s'.log, node)) <==>
          Settled(SwitchesOf(s.log, node))
          && !(SwitchesDown(config, s, node) && (SwitchesUp(config, s, node) || SwitchedUp(s, node))))
  {
    hide Evaluate, SwitchesOf, TakesUnderestimate, Examined, StrategyAt, Settled;
    var kinds, new' := SwitchesOf(s.log, node), NewSwitches(config, s, node);
    EvaluateSwitches(config, s, node);
    EvaluateKeepsOperators(config, s, node);
    if new' != [] {
      assert (kinds + new')[|kinds + new'| - 1] == new'[|new'| - 1];
    } else {
      assert kinds + new' == kinds;
    }
    if Settled(kinds) {
      MoreSwitches(kinds, StrategyAt(s, node), SwitchesUp(config, s, node), SwitchesDown(config, s, node));
    } else if Settled(kinds + new') {
      SettledBefore(kinds, new');
    }
  }

  lemma EvaluateKeepsOperators(config: AdaptiveConfig, s: State, node: NodeId)
    ensures Evaluate(config, s, node).operators == s.operators
  {
    hide OperatorEvents, AdaptAll;
    if node in s.operators {
      AdaptAllKeepsOperators(config, s, node, OperatorEvents(config.triggerConfig, node, s.operators[node]));
    }
  }

  lemma EvaluateElsewhere(config: AdaptiveConfig, s: State, at: NodeId, node: NodeId)
    requires at != node && InStep(s, node)
    ensures var s' := Evaluate(config, s, at); InStep(s', node) && SwitchesOf(s'.log, node) == SwitchesOf(s.log, node)
  {
    hide OperatorEvents, AdaptAll, SwitchesOf, StrategyAt;
    EvaluateKeepsOperators(config, s, at);
    if at in s.operators {
      EventsExceedThreshold(config.triggerConfig, at, s.operators[at]);
      OthersSwitchNothing(config, s, at, OperatorEvents(config.triggerConfig, at, s.operators[at]), node);
    }
  }

  lemma ApplyInStep(config: AdaptiveConfig, s: State, call: Call, node: NodeId)
    requires InStep(s, node) && (Registers(call, node) ==> node !in s.operators)
    ensures var s' := Apply(config, s, call);
      && InStep(s', node)
      && (Settled(SwitchesOf(s'.log, node)) <==>
          Settled(SwitchesOf(s.log, node)) && !Relapses(config, s, call, node))
  {
    hide Observe, Evaluates, Evaluate, InStep, SwitchesOf, SwitchesDown, SwitchesUp, Settled;
    var mid := Observe(config, s, call);
    ObserveInStep(config, s, call, node);
    if Evaluates(config, s, call) {
      if call.node != node {
        EvaluateElsewhere(config, mid, call.node, node);
      } else if node in mid.operators {
        EvaluateInStep(config, mid, node);
      } else {
        UnknownOperator(config, mid, node);
      }
    }
  }

  lemma UnknownOperator(config: AdaptiveConfig, s: State, node: NodeId)
    requires node !in s.operators
    ensures Evaluate(config, s, node) == s
  {
  }

  // ---------- runs ----------

  /** No call of the run relapses. */
  ghost predicate NeverRelapses(config: AdaptiveConfig, plan: RelExpr, calls: seq<Call>, node: NodeId) {
    forall k :: 0 <= k < |calls| ==> !Relapses(config, Run(config, Init(plan), calls[..k]), calls[k], node)
  }

  lemma RelapsesSnoc(config: AdaptiveConfig, plan: RelExpr, before: seq<Call>, call: Call, node: NodeId)
    ensures NeverRelapses(config, plan, before + [call], node) <==>
      NeverRelapses(config, plan, before, node) && !Relapses(config, Run(config, Init(plan), before), call, node)
  {
    hide Run, Relapses;
    var calls := before + [call];
    assert calls[..|before|] == before;
    assert forall k :: 0 <= k < |before| ==> calls[..k] == before[..k] && calls[k] == before[k];
    if NeverRelapses(config, plan, calls, node) {
      assert calls[|before|] == call;
      forall k | 0 <= k < |before|
        ensures !Relapses(config, Run(config, Init(plan), before[..k]), before[k], node) {
        assert calls[k] == before[k];
      }
    }
  }

  lemma {:induction false} RunInStep(config: AdaptiveConfig, plan: RelExpr, calls: seq<Call>, node: NodeId)
    requires RegisteredOnce(calls, node)
    ensures var s := Run(config, Init(plan), calls);
      && InStep(s, node)
      && (Settled(SwitchesOf(s.log, node)) <==> NeverRelapses(config, plan, calls, node))
    decreases |calls|
  {
    hide Run, Apply, InStep, Relapses, Settled, NeverRelapses;
    if calls == [] {
      NothingYet(config, plan, node);
    } else {
      var before, call := calls[..|calls| - 1], calls[|calls| - 1];
      assert calls == before + [call];
      RunInStep(config, plan, before, node);
      RegisteredExactly(config, plan, before, node);
      ApplyInStep(config, Run(config, Init(plan), before), call, node);
      RunSnoc(config, Init(plan), before, call);
      RelapsesSnoc(config, plan, before, call, node);
    }
  }

  lemma NothingYet(config: AdaptiveConfig, plan: RelExpr, node: NodeId)
    ensures var s := Run(config, Init(plan), []);
      InStep(s, node) && Settled(SwitchesOf(s.log, node)) && NeverRelapses(config, plan, [], node)
  {
  }

  /** The strategy of a node that registers once settles exactly when no call evaluates it while it is open, with rows
      enough but below the limit, and with an adaptation left, after an underestimate has switched it up. */
  lemma SettlesUnlessRelapsing(config: AdaptiveConfig, plan: RelExpr, calls: seq<Call>, node: NodeId)
    requires RegisteredOnce(calls, node)
    ensures Settled(SwitchesOf(Run(config, Init(plan), calls).log, node)) <==>
      forall k :: 0 <= k < |calls| ==> !Relapses(config, Run(config, Init(plan), calls[..k]), calls[k], node)
  {
    hide Run, Relapses, Settled, SwitchesOf, InStep;
    RunInStep(config, plan, calls, node);
  }

  // ---------- registering twice ----------

  const RENEWED_CALLS := [
    Call.RegisterJoin(1, 200000.0, NestedLoop),
    Call.ReportRows(1, 2_010_000),
    Call.RegisterOperator(1, 200000.0),
    Call.ReportRows(1, 10_000)]

  /** An operator that registers again starts with no rows and is switched back, with nothing else out of order. */
  lemma RenewedThrashes(plan: RelExpr)
    ensures !RegisteredOnce(RENEWED_CALLS, 1)
    ensures forall call :: call in RENEWED_CALLS ==> !call.ReportCompleted?
    ensures !Settled(SwitchesOf(Run(DEFAULT_CONFIG, Init(plan), RENEWED_CALLS).log, 1))
  {
    LateEvents();
    var c := RENEWED_CALLS;
    var over := TriggerEvent(1, CardinalityOverestimate, 20.0, 10.0);
    var under := TriggerEvent(1, CardinalityUnderestimate, 10.05, 10.0);
    var s1 := Apply(DEFAULT_CONFIG, Init(plan), c[0]);
    ReportSwitches(s1, 2_010_000, 2_010_000, under, HashJoin);
    var s2 := Apply(DEFAULT_CONFIG, s1, c[1]);
    var s3 := Apply(DEFAULT_CONFIG, s2, c[2]);
    assert s3.log == s2.log && s3.strategies == s2.strategies && s3.operators[1] == WithEstimate(200000.0);
    ReportSwitches(s3, 10_000, 10_000, over, NestedLoop);
    assert SwitchesOf(s1.log, 1) == [];
    FourCalls(plan);
    var s4 := Apply(DEFAULT_CONFIG, s3, c[3]);
    assert SwitchesOf(s4.log, 1) == [CardinalityUnderestimate, CardinalityOverestimate];
    assert c[..3][..2] == [c[0], c[1]] && [c[0], c[1]][..1] == [c[0]];
    assert RegisteredIn([c[0]], 1) && RegisteredIn([c[0], c[1]], 1);
    assert !RegisteredOnce(c[..3], 1);
  }

  lemma FourCalls(plan: RelExpr)
    ensures var c := RENEWED_CALLS;
      Run(DEFAULT_CONFIG, Init(plan), c)
      == Apply(DEFAULT_CONFIG, Apply(DEFAULT_CONFIG, Apply(DEFAULT_CONFIG,
           Apply(DEFAULT_CONFIG, Init(plan), c[0]), c[1]), c[2]), c[3])
  {
    hide Apply;
    var c, s := RENEWED_CALLS, Init(plan);
    assert c == [] + [c[0]] + [c[1]] + [c[2]] + [c[3]];
    RunSnoc(DEFAULT_CONFIG, s, [] + [c[0]] + [c[1]] + [c[2]], c[3]);
    RunSnoc(DEFAULT_CONFIG, s, [] + [c[0]] + [c[1]], c[2]);
    RunSnoc(DEFAULT_CONFIG, s, [] + [c[0]], c[1]);
    RunSnoc(DEFAULT_CONFIG, s, [], c[0]);
  }
}
