/** The adaptive executor: it updates its statistics, checkpoints, strategies, plan and log in place. */
module Executor {
  import opened Options
  import opened RuntimeStats
  import opened Triggers
  import opened PlanSwitch
  import opened Checkpoints
  import opened RelAlgebra
  import opened ExecutorSpec

  class AdaptiveExecutor {
    const config: AdaptiveConfig
    const triggers: TriggerSet
    const checkpointMgr: CheckpointManager
    const planStats: PlanStats
    var currentPlan: RelExpr
    var adaptations: seq<AdaptationRecord>
    var adaptationCount: U32
    var joinStrategies: map<NodeId, JoinStrategy>

    ghost const original: RelExpr
    /** Every call made so far. */
    ghost var calls: seq<Call>

    /** The state is the one that the calls made so far lead to, so every theorem about runs holds of it. */
    ghost predicate Valid()
      reads this, checkpointMgr, planStats
    {
      Consistent() && Model() == Run(config, Init(original), calls)
    }

    ghost predicate Consistent()
      reads this, checkpointMgr
    {
      checkpointMgr.Valid() && triggers.config == config.triggerConfig
      && |adaptations| == adaptationCount <= config.maxAdaptations
    }

    /** The abstract state. */
    ghost function Model(): State
      reads this, checkpointMgr, planStats
    {
      State(planStats.operators, checkpointMgr.checkpoints, joinStrategies, currentPlan, adaptations, adaptationCount)
    }

    constructor WithConfig(plan: RelExpr, config: AdaptiveConfig)
      ensures Valid() && fresh(checkpointMgr) && fresh(planStats)
      ensures this.config == config && original == plan && calls == [] && Model() == Init(plan)
    {
      this.config := config;
      original, calls := plan, [];
      triggers := new TriggerSet(config.triggerConfig);
      checkpointMgr := new CheckpointManager();
      planStats := new PlanStats();
      currentPlan := plan;
      adaptations := [];
      adaptationCount := 0;
      joinStrategies := map[];
    }

    method RegisterOperator(node: NodeId, estimatedRows: real)
      requires Valid()
      modifies this`calls, planStats, checkpointMgr
      ensures Valid()
      ensures calls == old(calls) + [Call.RegisterOperator(node, estimatedRows)]
      ensures Model() == Apply(config, old(Model()), Call.RegisterOperator(node, estimatedRows))
    {
      RunSnoc(config, Init(original), calls, Call.RegisterOperator(node, estimatedRows));
      calls := calls + [Call.RegisterOperator(node, estimatedRows)];
      RegisterQuietly(node, estimatedRows);
    }

    method RegisterQuietly(node: NodeId, estimatedRows: real)
      requires Consistent()
      modifies planStats, checkpointMgr
      ensures Consistent()
      ensures Model() == Register(old(Model()), node, estimatedRows)
    {
      planStats.Register(node, estimatedRows);
      var _ := checkpointMgr.Record(node, NotStarted);
    }

    method RegisterJoin(node: NodeId, estimatedRows: real, strategy: JoinStrategy)
      requires Valid()
      modifies this`calls, this`joinStrategies, planStats, checkpointMgr
      ensures Valid()
      ensures calls == old(calls) + [Call.RegisterJoin(node, estimatedRows, strategy)]
      ensures Model() == Apply(config, old(Model()), Call.RegisterJoin(node, estimatedRows, strategy))
    {
      RunSnoc(config, Init(original), calls, Call.RegisterJoin(node, estimatedRows, strategy));
      calls := calls + [Call.RegisterJoin(node, estimatedRows, strategy)];
      RegisterQuietly(node, estimatedRows);
      joinStrategies := joinStrategies[node := strategy];
    }

    /** Counts rows, and evaluates triggers when the count reaches a multiple of the interval. */
    method ReportRows(node: NodeId, count: U64) returns (applied: seq<Adaptation>)
      requires Valid()
      modifies this, planStats, checkpointMgr
      ensures Valid()
      ensures calls == old(calls) + [Call.ReportRows(node, count)]
      ensures Model() == Apply(config, old(Model()), Call.ReportRows(node, count))
      ensures old(adaptations) <= adaptations && applied == Adaptations(adaptations[|old(adaptations)|..])
    {
      RunSnoc(config, Init(original), calls, Call.ReportRows(node, count));
      calls := calls + [Call.ReportRows(node, count)];
      if !config.enabled {
        return [];
      }
      var _ := planStats.RecordRows(node, count);
      var rowsEmitted := ActualRows(planStats.operators, node);
      var _ := checkpointMgr.Record(node, InProgress(rowsEmitted));
      if !IsMultipleOf(rowsEmitted, config.checkIntervalRows) {
        return [];
      }
      applied := EvaluateAndAdapt(node);
    }

    /** Overwrites the row count; it works whether or not adaptation is enabled. */
    method ReportCompleted(node: NodeId, totalRows: U64)
      requires Valid()
      modifies this`calls, planStats, checkpointMgr
      ensures Valid()
      ensures calls == old(calls) + [Call.ReportCompleted(node, totalRows)]
      ensures Model() == Apply(config, old(Model()), Call.ReportCompleted(node, totalRows))
    {
      RunSnoc(config, Init(original), calls, Call.ReportCompleted(node, totalRows));
      calls := calls + [Call.ReportCompleted(node, totalRows)];
      var _ := planStats.RecordRows(node, 0);
      planStats.SetRows(node, totalRows);
      var _ := checkpointMgr.Record(node, Completed(totalRows));
    }

    method ForceEvaluate(node: NodeId) returns (applied: seq<Adaptation>)
      requires Valid()
      modifies this
      ensures Valid()
      ensures calls == old(calls) + [Call.ForceEvaluate(node)]
      ensures Model() == Apply(config, old(Model()), Call.ForceEvaluate(node))
      ensures old(adaptations) <= adaptations && applied == Adaptations(adaptations[|old(adaptations)|..])
    {
      RunSnoc(config, Init(original), calls, Call.ForceEvaluate(node));
      calls := calls + [Call.ForceEvaluate(node)];
      if !config.enabled {
        return [];
      }
      applied := EvaluateAndAdapt(node);
    }

    method EvaluateAndAdapt(node: NodeId) returns (applied: seq<Adaptation>)
      requires Consistent()
      modifies this`currentPlan, this`joinStrategies, this`adaptations, this`adaptationCount
      ensures Consistent()
      ensures Model() == Evaluate(config, old(Model()), node)
      ensures old(adaptations) <= adaptations && applied == Adaptations(adaptations[|old(adaptations)|..])
    {
      applied := [];
      if adaptationCount >= config.maxAdaptations {
        return;
      }
      if node !in planStats.operators {
        return;
      }
      var events := triggers.CheckOperator(node, planStats.operators[node]);
      var i := 0;
      ghost var target := AdaptAll(config, Model(), node, events);
      assert events[0..] == events;
      while i < |events|
        invariant 0 <= i <= |events|
        invariant Consistent()
        invariant AdaptAll(config, Model(), node, events[i..]) == target
        invariant old(adaptations) <= adaptations
        invariant applied == Adaptations(adaptations[|old(adaptations)|..])
      {
        if adaptationCount >= config.maxAdaptations {
          break;
        }
        ghost var before := Model();
        ghost var added := adaptations[|old(adaptations)|..];
        var event := events[i];
        var a := TryAdapt(event);
        if a.Some? {
          var record := AdaptationRecord(adaptationCount, event, a.value, ActualRows(planStats.operators, node));
          adaptations := adaptations + [record];
          adaptationCount := adaptationCount + 1;
          applied := applied + [a.value];
          assert adaptations[|old(adaptations)|..] == added + [record];
          AdaptationsSnoc(added, record);
        }
        assert Model() == Adapt(before, node, event);
        assert events[i..][1..] == events[i + 1..];
        i := i + 1;
      }
    }

    method TryAdapt(event: TriggerEvent) returns (a: Option<Adaptation>)
      requires Consistent()
      modifies this`currentPlan, this`joinStrategies
      ensures a == Accepted(old(Model()), event)
      ensures Model() == if a.Some? then ApplyAdaptation(old(Model()), a.value) else old(Model())
    {
      var current := if event.nodeId in joinStrategies then joinStrategies[event.nodeId] else HashJoin;
      a := Recommend(event, current);
      if a.None? {
        return;
      }
      var safe := checkpointMgr.Safe(a.value);
      if !safe {
        return None;
      }
      ApplyInPlace(a.value);
    }

    method ApplyInPlace(a: Adaptation)
      modifies this`currentPlan, this`joinStrategies
      ensures Model() == ApplyAdaptation(old(Model()), a)
    {
      match a
      case SwitchJoinStrategy(node, _, to) => joinStrategies := joinStrategies[node := to];
      case SwapJoinInputs(_) =>
        var swapped := SwapInputs(currentPlan);
        if swapped.Some? {
          currentPlan := swapped.value;
        }
      case ReoptimizePlan(newPlan) => currentPlan := newPlan;
      case SpillToDisk(_) =>
    }
  }

  function Adaptations(log: seq<AdaptationRecord>): seq<Adaptation> {
    seq(|log|, i requires 0 <= i < |log| => log[i].adaptation)
  }

  lemma AdaptationsSnoc(log: seq<AdaptationRecord>, r: AdaptationRecord)
    ensures Adaptations(log + [r]) == Adaptations(log) + [r.adaptation]
  {
  }
}
