/** Which adaptation answers a trigger, and the one plan rewrite that an adaptation performs. */
module PlanSwitch {
  import opened Options
  import opened RuntimeStats
  import opened Triggers
  import opened RelAlgebra

  datatype JoinStrategy = NestedLoop | HashJoin | SortMerge

  datatype Adaptation =
    | SwitchJoinStrategy(nodeId: NodeId, from: JoinStrategy, to: JoinStrategy)
    | SwapJoinInputs(nodeId: NodeId)
    | ReoptimizePlan(newPlan: RelExpr)
    | SpillToDisk(nodeId: NodeId)

  function Recommend(event: TriggerEvent, current: JoinStrategy): Option<Adaptation> {
    match event.kind
    case CardinalityUnderestimate => HandleUnderestimate(event, current)
    case CardinalityOverestimate => HandleOverestimate(event, current)
    case SkewDetected => Some(SwapJoinInputs(event.nodeId))
    case MemoryPressure => Some(SpillToDisk(event.nodeId))
  }

  function HandleUnderestimate(event: TriggerEvent, current: JoinStrategy): Option<Adaptation> {
    match current
    case NestedLoop => Some(SwitchJoinStrategy(event.nodeId, NestedLoop, HashJoin))
    case HashJoin => if event.deviation > 100.0 then None else Some(SwapJoinInputs(event.nodeId))
    case SortMerge => Some(SwitchJoinStrategy(event.nodeId, SortMerge, HashJoin))
  }

  function HandleOverestimate(event: TriggerEvent, current: JoinStrategy): Option<Adaptation> {
    match current
    case HashJoin => Some(SwitchJoinStrategy(event.nodeId, HashJoin, NestedLoop))
    case SortMerge => Some(SwitchJoinStrategy(event.nodeId, SortMerge, NestedLoop))
    case NestedLoop => None
  }

  function SwappedType(jt: JoinType): JoinType {
    match jt
    case LeftOuter => RightOuter
    case RightOuter => LeftOuter
    case other => other
  }

  function SwapInputs(plan: RelExpr): Option<RelExpr> {
    match plan
    case Join(jt, cond, left, right) => Some(Join(SwappedType(jt), cond, right, left))
    case _ => None
  }

  /** A recommendation always targets the operator that triggered, never replaces the whole plan, starts from the
      strategy in force, and never asks for a strategy the operator already has. */
  lemma RecommendationTargetsTrigger(event: TriggerEvent, current: JoinStrategy)
    ensures Recommend(event, current).Some? ==>
              var a := Recommend(event, current).value;
              && !a.ReoptimizePlan?
              && a.nodeId == event.nodeId
              && (a.SwitchJoinStrategy? ==>
                    (a.from == current != a.to
                     && a.to == if event.kind == CardinalityUnderestimate then HashJoin else NestedLoop))
  {
  }

  /** Skew swaps and memory pressure spills whatever the strategy is. A count below the estimate switches to a nested
      loop, a count above it to a hash join or, from there, swaps; nothing is recommended exactly where a nested loop
      already runs or where the count is more than a hundred times too large for a hash join. */
  lemma RecommendationExactly(event: TriggerEvent, current: JoinStrategy, a: Adaptation)
    ensures Recommend(event, current) == None <==>
            || (event.kind == CardinalityOverestimate && current == NestedLoop)
            || (event.kind == CardinalityUnderestimate && current == HashJoin && event.deviation > 100.0)
    ensures Recommend(event, current) == Some(a) <==>
            && !a.ReoptimizePlan? && a.nodeId == event.nodeId
            && match a {
              case SpillToDisk(_) => event.kind == MemoryPressure
              case SwapJoinInputs(_) =>
                || event.kind == SkewDetected
                || (event.kind == CardinalityUnderestimate && current == HashJoin && event.deviation <= 100.0)
              case SwitchJoinStrategy(_, from, to) =>
                && from == current != to
                && ((event.kind == CardinalityUnderestimate && to == HashJoin)
                    || (event.kind == CardinalityOverestimate && to == NestedLoop))
              case ReoptimizePlan(_) => false
            }
  {
  }
}
