/** The adaptive executor as a state machine, which the class `AdaptiveExecutor` is proved to follow. */
module ExecutorSpec {
  import opened Options
  import opened RuntimeStats
  import opened Triggers
  import opened PlanSwitch
  import opened Checkpoints
  import opened RelAlgebra

  const MAX_U32: int := 0xFFFF_FFFF

  type U32 = x: int | 0 <= x <= MAX_U32

  datatype AdaptiveConfig = AdaptiveConfig(
    checkIntervalRows: U64, maxAdaptations: U32, triggerConfig: TriggerConfig, enabled: bool)

  datatype AdaptationRecord = AdaptationRecord(
    sequence: nat, trigger: TriggerEvent, adaptation: Adaptation, rowsAtSwitch: U64)

  datatype State = State(
    operators: Operators,
    checkpoints: seq<Checkpoint>,
    strategies: map<NodeId, JoinStrategy>,
    plan: RelExpr,
    log: seq<AdaptationRecord>,
    count: nat)

  datatype Call =
    | RegisterOperator(node: NodeId, estimatedRows: real)
    | RegisterJoin(node: NodeId, estimatedRows: real, strategy: JoinStrategy)
    | ReportRows(node: NodeId, rows: U64)
    | ReportCompleted(node: NodeId, total: U64)
    | ForceEvaluate(node: NodeId)

  function Init(plan: RelExpr): State {
    State(map[], [], map[], plan, [], 0)
  }

  function Record(s: State, node: NodeId, state: CheckpointState): State {
    s.(checkpoints := s.checkpoints + [Checkpoint(node, |s.checkpoints|, state, false)])
  }

  function Register(s: State, node: NodeId, estimatedRows: real): State {
    Record(s.(operators := s.operators[node := WithEstimate(estimatedRows)]), node, NotStarted)
  }

  /** Zero is a multiple of every interval, the interval zero included, and nothing else is a multiple of zero. */
  predicate IsMultipleOf(x: U64, interval: U64) {
    if interval == 0 then x == 0 else x % interval == 0
  }

  function CountRows(s: State, node: NodeId, rows: U64): State {
    var operators := RowsRecorded(s.operators, node, rows);
    Record(s.(operators := operators), node, InProgress(ActualRows(operators, node)))
  }

  function Complete(s: State, node: NodeId, total: U64): State {
    var operators := RowsRecorded(s.operators, node, 0);
    var operators' := if node in operators then operators[node := operators[node].(actualRows := total)] else operators;
    Record(s.(operators := operators'), node, Completed(total))
  }

  function StrategyAt(s: State, node: NodeId): JoinStrategy {
    if node in s.strategies then s.strategies[node] else HashJoin
  }

  function ApplyAdaptation(s: State, a: Adaptation): State {
    match a
    case SwitchJoinStrategy(node, _, to) => s.(strategies := s.strategies[node := to])
    case SwapJoinInputs(_) => if SwapInputs(s.plan).Some? then s.(plan := SwapInputs(s.plan).value) else s
    case ReoptimizePlan(newPlan) => s.(plan := newPlan)
    case SpillToDisk(_) => s
  }

  /** The operator has a checkpoint, and the latest one is no completion. */
  predicate Open(s: State, node: NodeId) {
    LatestFor(s.checkpoints, node).Some? && !LatestFor(s.checkpoints, node).value.IsCompleted()
  }

  /** The adaptation an event leads to, when there is one and it is safe. */
  function Accepted(s: State, event: TriggerEvent): Option<Adaptation> {
    var a := Recommend(event, StrategyAt(s, event.nodeId));
    if a.Some? && IsSafeTransition(s.checkpoints, a.value) then a else None
  }

  function Adapt(s: State, node: NodeId, event: TriggerEvent): State {
    var a := Accepted(s, event);
    if a.None? then s else
    var record := AdaptationRecord(s.count, event, a.value, ActualRows(s.operators, node));
    ApplyAdaptation(s, a.value).(log := s.log + [record], count := s.count + 1)
  }

  function AdaptAll(config: AdaptiveConfig, s: State, node: NodeId, events: seq<TriggerEvent>): State
    decreases events
  {
    if events == [] || s.count >= config.maxAdaptations then s
    else AdaptAll(config, Adapt(s, node, events[0]), node, events[1..])
  }

  function Evaluate(config: AdaptiveConfig, s: State, node: NodeId): State {
    if s.count >= config.maxAdaptations || node !in s.operators then s
    else AdaptAll(config, s, node, OperatorEvents(config.triggerConfig, node, s.operators[node]))
  }

  /** Whether a call reaches the evaluation of triggers. */
  predicate Evaluates(config: AdaptiveConfig, s: State, call: Call) {
    config.enabled &&
    match call
    case ReportRows(node, rows) =>
      IsMultipleOf(ActualRows(RowsRecorded(s.operators, node, rows), node), config.checkIntervalRows)
    case ForceEvaluate(_) => true
    case _ => false
  }

  /** A call up to the point where it may evaluate triggers. */
  function Observe(config: AdaptiveConfig, s: State, call: Call): State {
    match call
    case RegisterOperator(node, estimate) => Register(s, node, estimate)
    case RegisterJoin(node, estimate, strategy) =>
      var s' := Register(s, node, estimate);
      s'.(strategies := s'.strategies[node := strategy])
    case ReportRows(node, rows) => if config.enabled then CountRows(s, node, rows) else s
    case ReportCompleted(node, total) => Complete(s, node, total)
    case ForceEvaluate(_) => s
  }

  function Apply(config: AdaptiveConfig, s: State, call: Call): State {
    var s' := Observe(config, s, call);
    if Evaluates(config, s, call) then Evaluate(config, s', call.node) else s'
  }

  function Run(config: AdaptiveConfig, s: State, calls: seq<Call>): State
    decreases calls
  {
    if calls == [] then s else Run(config, Apply(config, s, calls[0]), calls[1..])
  }

  lemma {:induction false} RunAppend(config: AdaptiveConfig, s: State, calls: seq<Call>, more: seq<Call>)
    ensures Run(config, s, calls + more) == Run(config, Run(config, s, calls), more)
    decreases calls
  {
    if calls == [] {
      assert calls + more == more;
    } else {
      assert (calls + more)[1..] == calls[1..] + more;
      RunAppend(config, Apply(config, s, calls[0]), calls[1..], more);
    }
  }

  lemma RunSnoc(config: AdaptiveConfig, s: State, calls: seq<Call>, call: Call)
    ensures Run(config, s, calls + [call]) == Apply(config, Run(config, s, calls), call)
  {
    RunAppend(config, s, calls, [call]);
    assert [call][1..] == [];
  }

  // ---------- what evaluation leaves alone ----------

  lemma {:induction false} AdaptAllKeepsOperators(config: AdaptiveConfig, s: State, at: NodeId,
                                                  events: seq<TriggerEvent>)
    ensures AdaptAll(config, s, at, events).operators == s.operators
    decreases events
  {
    if events != [] && s.count < config.maxAdaptations {
      AdaptAllKeepsOperators(config, Adapt(s, at, events[0]), at, events[1..]);
    }
  }

  lemma ApplyKeepsOperators(config: AdaptiveConfig, s: State, call: Call)
    ensures Apply(config, s, call).operators == Observe(config, s, call).operators
  {
    hide OperatorEvents, Observe, AdaptAll, Evaluates;
    var mid := Observe(config, s, call);
    if call.node in mid.operators {
      AdaptAllKeepsOperators(config, mid, call.node,
                             OperatorEvents(config.triggerConfig, call.node, mid.operators[call.node]));
    }
  }
}
