/** What holds in every state that some sequence of calls can reach. */
module ExecutorRuns {
  import opened Options
  import opened RuntimeStats
  import opened Triggers
  import opened PlanSwitch
  import opened Checkpoints
  import opened RelAlgebra
  import opened JoinSwap
  import opened ExecutorSpec

  // ---------- checkpoints and the log ----------

  ghost predicate RowsAgree(operators: Operators, checkpoints: seq<Checkpoint>) {
    forall node :: node in operators ==>
      var latest := LatestFor(checkpoints, node);
      latest.Some? && latest.value.RowsEmitted() == operators[node].actualRows
  }

  ghost predicate SoundRecord(r: AdaptationRecord, index: nat) {
    && r.sequence == index
    && r.trigger.deviation > r.trigger.threshold
    && !r.adaptation.ReoptimizePlan?
    && r.adaptation.nodeId == r.trigger.nodeId
  }

  ghost predicate SoundLog(log: seq<AdaptationRecord>) {
    forall i :: 0 <= i < |log| ==> SoundRecord(log[i], i)
  }

  ghost predicate Invariant(config: AdaptiveConfig, s: State) {
    && Numbered(s.checkpoints)
    && RowsAgree(s.operators, s.checkpoints)
    && SoundLog(s.log)
    && |s.log| == s.count <= config.maxAdaptations
  }

  /** What an applied adaptation could rely on: its operator had a checkpoint, was not completed, and had emitted
      exactly the rows that the record notes. */
  ghost predicate AppliedSafely(r: AdaptationRecord, node: NodeId, checkpoints: seq<Checkpoint>) {
    && !r.adaptation.ReoptimizePlan?
    && r.adaptation.nodeId == node
    && var latest := LatestFor(checkpoints, node);
    && latest.Some? && !latest.value.IsCompleted() && latest.value.RowsEmitted() == r.rowsAtSwitch
  }

  lemma {:induction false} AdaptAllKeepsInvariant(config: AdaptiveConfig, s: State, node: NodeId,
                                                  events: seq<TriggerEvent>)
    requires Invariant(config, s) && node in s.operators
    requires forall e :: e in events ==> e.nodeId == node && e.deviation > e.threshold
    ensures var s' := AdaptAll(config, s, node, events);
      && Invariant(config, s')
      && s'.operators == s.operators && s'.checkpoints == s.checkpoints
      && s.log <= s'.log
      && forall i :: |s.log| <= i < |s'.log| ==> AppliedSafely(s'.log[i], node, s.checkpoints)
    decreases events
  {
    if events != [] && s.count < config.maxAdaptations {
      var e := events[0];
      RecommendationTargetsTrigger(e, StrategyAt(s, e.nodeId));
      var mid := Adapt(s, node, e);
      assert s.log <= mid.log && mid.operators == s.operators && mid.checkpoints == s.checkpoints;
      assert forall i :: |s.log| <= i < |mid.log| ==> AppliedSafely(mid.log[i], node, s.checkpoints);
      AdaptAllKeepsInvariant(config, mid, node, events[1..]);
      var s' := AdaptAll(config, s, node, events);
      forall i | |s.log| <= i < |s'.log| ensures AppliedSafely(s'.log[i], node, s.checkpoints) {
        if i < |mid.log| { assert s'.log[i] == mid.log[i]; }
      }
    }
  }

  lemma ObserveKeepsInvariant(config: AdaptiveConfig, s: State, call: Call)
    requires Invariant(config, s)
    ensures Invariant(config, Observe(config, s, call)) && Observe(config, s, call).log == s.log
  {
    var s' := Observe(config, s, call);
    if s'.checkpoints != s.checkpoints {
      forall node | node in s'.operators
        ensures var latest := LatestFor(s'.checkpoints, node);
                latest.Some? && latest.value.RowsEmitted() == s'.operators[node].actualRows
      {
        LatestAfterRecord(s.checkpoints, s'.checkpoints[|s.checkpoints|], node);
      }
    }
  }

  /** One call keeps the invariant, only ever appends to the log, and applies adaptations only to the operator it
      reports on, while that operator's latest checkpoint is not completed. */
  lemma ApplyKeepsInvariant(config: AdaptiveConfig, s: State, call: Call)
    requires Invariant(config, s)
    ensures var s' := Apply(config, s, call);
      && Invariant(config, s')
      && s.log <= s'.log
      && forall i :: |s.log| <= i < |s'.log| ==> AppliedSafely(s'.log[i], call.node, s'.checkpoints)
  {
    ObserveKeepsInvariant(config, s, call);
    var mid := Observe(config, s, call);
    if Evaluates(config, s, call) && call.node in mid.operators {
      EventsExceedThreshold(config.triggerConfig, call.node, mid.operators[call.node]);
      AdaptAllKeepsInvariant(config, mid, call.node,
                             OperatorEvents(config.triggerConfig, call.node, mid.operators[call.node]));
    }
  }

  lemma {:induction false} RunKeepsInvariant(config: AdaptiveConfig, s: State, calls: seq<Call>)
    requires Invariant(config, s)
    ensures Invariant(config, Run(config, s, calls)) && s.log <= Run(config, s, calls).log
    decreases calls
  {
    if calls != [] {
      ApplyKeepsInvariant(config, s, calls[0]);
      RunKeepsInvariant(config, Apply(config, s, calls[0]), calls[1..]);
    }
  }

  /** In every reachable state: the latest checkpoint of each registered operator reports its row count and has
      the greatest sequence number of the operator's checkpoints; the log has one entry per adaptation counted, in
      order, never more than the limit, each caused by a deviation above its threshold. */
  lemma ReachableStates(config: AdaptiveConfig, plan: RelExpr, calls: seq<Call>)
    ensures var s := Run(config, Init(plan), calls);
      && (forall node :: node in s.operators ==>
            var latest := LatestFor(s.checkpoints, node);
            && latest.Some? && latest.value.RowsEmitted() == s.operators[node].actualRows
            && forall i :: 0 <= i < |s.checkpoints| && s.checkpoints[i].nodeId == node ==>
                 s.checkpoints[i].sequence <= latest.value.sequence)
      && (forall i :: 0 <= i < |s.checkpoints| ==> s.checkpoints[i].sequence == i)
      && (forall i :: 0 <= i < |s.log| ==>
            s.log[i].sequence == i && s.log[i].trigger.deviation > s.log[i].trigger.threshold)
      && |s.log| == s.count <= config.maxAdaptations
  {
    var s := Run(config, Init(plan), calls);
    RunKeepsInvariant(config, Init(plan), calls);
    forall node | node in s.operators
      ensures forall i :: 0 <= i < |s.checkpoints| && s.checkpoints[i].nodeId == node ==>
                s.checkpoints[i].sequence <= LatestFor(s.checkpoints, node).value.sequence
    {
      LatestHasGreatestSequence(s.checkpoints, node);
    }
  }

  /** Whatever the calls so far, the next call adapts only its own operator, and only before that operator's
      completion. */
  lemma AdaptationsAreSafe(config: AdaptiveConfig, plan: RelExpr, calls: seq<Call>, call: Call)
    ensures var s, s' := Run(config, Init(plan), calls), Run(config, Init(plan), calls + [call]);
      && s.log <= s'.log
      && forall i :: |s.log| <= i < |s'.log| ==> AppliedSafely(s'.log[i], call.node, s'.checkpoints)
  {
    RunKeepsInvariant(config, Init(plan), calls);
    RunSnoc(config, Init(plan), calls, call);
    ApplyKeepsInvariant(config, Run(config, Init(plan), calls), call);
  }

  // ---------- which triggers can fire ----------

  /** Nothing the executor is told fills a column sketch or measures memory. */
  ghost predicate OnlyRowsCounted(operators: Operators) {
    forall node :: node in operators ==> operators[node].columnSketches == [] && operators[node].peakMemoryBytes == 0
  }

  predicate OnCardinality(e: TriggerEvent) {
    e.kind == CardinalityUnderestimate || e.kind == CardinalityOverestimate
  }

  ghost predicate OnlyCardinalityLogged(log: seq<AdaptationRecord>) {
    forall i :: 0 <= i < |log| ==> OnCardinality(log[i].trigger) && !log[i].adaptation.SpillToDisk?
  }

  lemma OnlyCardinalityEvents(config: TriggerConfig, node: NodeId, stats: OperatorStats)
    requires config.memoryRatio >= 0.0 && stats.columnSketches == [] && stats.peakMemoryBytes == 0
    ensures forall e :: e in OperatorEvents(config, node, stats) ==> OnCardinality(e)
  {
    assert MemoryEvents(config, node, stats) == [];
  }

  lemma {:induction false} AdaptAllOnCardinality(config: AdaptiveConfig, s: State, node: NodeId,
                                                 events: seq<TriggerEvent>)
    requires OnlyCardinalityLogged(s.log) && forall e :: e in events ==> OnCardinality(e)
    ensures var s' := AdaptAll(config, s, node, events); OnlyCardinalityLogged(s'.log) && s'.operators == s.operators
    decreases events
  {
    if events != [] && s.count < config.maxAdaptations {
      assert OnCardinality(events[0]);
      AdaptAllOnCardinality(config, Adapt(s, node, events[0]), node, events[1..]);
    }
  }

  lemma {:induction false} RunOnCardinality(config: AdaptiveConfig, s: State, calls: seq<Call>)
    requires config.triggerConfig.memoryRatio >= 0.0
    requires OnlyRowsCounted(s.operators) && OnlyCardinalityLogged(s.log)
    ensures OnlyCardinalityLogged(Run(config, s, calls).log)
    decreases calls
  {
    hide OnlyCardinalityLogged, AdaptAll, OperatorEvents;
    if calls != [] {
      var mid := Observe(config, s, calls[0]);
      assert OnlyRowsCounted(mid.operators) && mid.log == s.log;
      if Evaluates(config, s, calls[0]) && calls[0].node in mid.operators {
        var stats := mid.operators[calls[0].node];
        OnlyCardinalityEvents(config.triggerConfig, calls[0].node, stats);
        AdaptAllOnCardinality(config, mid, calls[0].node, OperatorEvents(config.triggerConfig, calls[0].node, stats));
      }
      RunOnCardinality(config, Apply(config, s, calls[0]), calls[1..]);
    }
  }

  /** Whatever the calls, only row counts make the executor adapt: skew and memory triggers never fire. */
  lemma OnlyRowCountsAdapt(config: AdaptiveConfig, plan: RelExpr, calls: seq<Call>)
    requires config.triggerConfig.memoryRatio >= 0.0
    ensures OnlyCardinalityLogged(Run(config, Init(plan), calls).log)
  {
    RunOnCardinality(config, Init(plan), calls);
  }

  // ---------- the plan ----------

  function Swaps(log: seq<AdaptationRecord>): nat {
    if log == [] then 0 else
      Swaps(log[..|log| - 1]) + (if log[|log| - 1].adaptation.SwapJoinInputs? then 1 else 0)
  }

  function PlanAfterSwaps(plan: RelExpr, swaps: nat): RelExpr {
    if plan.Join? && swaps % 2 == 1 then SwapInputs(plan).value else plan
  }

  lemma PlanAfterOneMore(plan: RelExpr, swaps: nat)
    ensures PlanAfterSwaps(plan, swaps + 1)
         == var p := PlanAfterSwaps(plan, swaps); if SwapInputs(p).Some? then SwapInputs(p).value else p
  {
    if plan.Join? {
      SwapTwice(plan);
    }
  }

  lemma AdaptSwaps(s: State, node: NodeId, e: TriggerEvent, original: RelExpr)
    requires s.plan == PlanAfterSwaps(original, Swaps(s.log))
    ensures var s' := Adapt(s, node, e); s'.plan == PlanAfterSwaps(original, Swaps(s'.log))
  {
    RecommendationTargetsTrigger(e, StrategyAt(s, e.nodeId));
    PlanAfterOneMore(original, Swaps(s.log));
    if Accepted(s, e).Some? {
      var s' := Adapt(s, node, e);
      assert s'.log[..|s.log|] == s.log;
    }
  }

  lemma {:induction false} AdaptAllSwaps(config: AdaptiveConfig, s: State, node: NodeId, events: seq<TriggerEvent>,
                                         original: RelExpr)
    requires s.plan == PlanAfterSwaps(original, Swaps(s.log))
    ensures var s' := AdaptAll(config, s, node, events); s'.plan == PlanAfterSwaps(original, Swaps(s'.log))
    decreases events
  {
    if events != [] && s.count < config.maxAdaptations {
      AdaptSwaps(s, node, events[0], original);
      AdaptAllSwaps(config, Adapt(s, node, events[0]), node, events[1..], original);
    }
  }

  lemma {:induction false} RunSwaps(config: AdaptiveConfig, s: State, calls: seq<Call>, original: RelExpr)
    requires s.plan == PlanAfterSwaps(original, Swaps(s.log))
    ensures var s' := Run(config, s, calls); s'.plan == PlanAfterSwaps(original, Swaps(s'.log))
    decreases calls
  {
    if calls != [] {
      var mid := Observe(config, s, calls[0]);
      if Evaluates(config, s, calls[0]) && calls[0].node in mid.operators {
        AdaptAllSwaps(config, mid, calls[0].node,
                      OperatorEvents(config.triggerConfig, calls[0].node, mid.operators[calls[0].node]), original);
      }
      RunSwaps(config, Apply(config, s, calls[0]), calls[1..], original);
    }
  }

  /** The plan in force is the original one or its swap, by the parity of the swaps logged; a plan that is not a
      join never changes, whatever is logged. */
  lemma PlanFollowsLog(config: AdaptiveConfig, plan: RelExpr, calls: seq<Call>)
    ensures var s := Run(config, Init(plan), calls); s.plan == PlanAfterSwaps(plan, Swaps(s.log))
  {
    RunSwaps(config, Init(plan), calls, plan);
  }

  /** No run changes what the query returns, when the root is not a semi or anti join. */
  lemma RunsKeepMeaning(config: AdaptiveConfig, plan: RelExpr, calls: seq<Call>, db: Database, holds: Condition)
    requires plan.Join? ==> Symmetric(plan.joinType)
    requires ValidDatabase(db) && WellFormed(plan, db)
    ensures Meaning(Run(config, Init(plan), calls).plan, db, holds) == Meaning(plan, db, holds)
  {
    PlanFollowsLog(config, plan, calls);
    if plan.Join? {
      SwapKeepsMeaning(plan, db, holds);
    }
  }

  const DEFAULT_TRIGGERS := TriggerConfig(10.0, 10.0, 0.5, 3.0, 1000)
  const DEFAULT_CONFIG := AdaptiveConfig(10_000, 5, DEFAULT_TRIGGERS, true)
  const SWAPPING_CALLS := [Call.RegisterOperator(1, 500.0), Call.ReportRows(1, 10_000)]

  lemma UnderestimateEvent()
    ensures var stats := OperatorStats(10_000, 500.0, 0, []);
      OperatorEvents(DEFAULT_TRIGGERS, 1, stats) == [TriggerEvent(1, CardinalityUnderestimate, 20.0, 10.0)]
  {
    var stats := OperatorStats(10_000, 500.0, 0, []);
    assert stats.CardinalityRatio() == Some(20.0);
    assert MemoryEvents(DEFAULT_TRIGGERS, 1, stats) == [];
  }

  /** Under the default configuration, reporting 10 000 rows where 500 were expected swaps the root join. */
  lemma RunThatSwaps(plan: RelExpr)
    requires plan.Join?
    ensures Run(DEFAULT_CONFIG, Init(plan), SWAPPING_CALLS).plan == SwapInputs(plan).value
  {
    var c0, c1 := SWAPPING_CALLS[0], SWAPPING_CALLS[1];
    var s0 := Apply(DEFAULT_CONFIG, Init(plan), c0);
    var s1 := Observe(DEFAULT_CONFIG, s0, c1);
    var e := TriggerEvent(1, CardinalityUnderestimate, 20.0, 10.0);
    assert s1.operators[1] == OperatorStats(10_000, 500.0, 0, []);
    UnderestimateEvent();
    LatestAfterRecord(s0.checkpoints, s1.checkpoints[|s0.checkpoints|], 1);
    assert Accepted(s1, e) == Some(SwapJoinInputs(1));
    assert AdaptAll(DEFAULT_CONFIG, s1, 1, [e]) == Adapt(s1, 1, e) by {
      assert [e][1..] == [];
    }
    assert Apply(DEFAULT_CONFIG, s0, c1) == Adapt(s1, 1, e);
    assert SWAPPING_CALLS[1..] == [c1] && [c1][1..] == [];
  }

  ghost predicate RunKeeps(config: AdaptiveConfig, calls: seq<Call>, plan: RelExpr, db: Database, holds: Condition) {
    ValidDatabase(db) && WellFormed(plan, db) ==>
      Meaning(Run(config, Init(plan), calls).plan, db, holds) == Meaning(plan, db, holds)
  }

  ghost predicate RunsSafe(jt: JoinType) {
    forall config, calls, cond, left, right, db, holds ::
      RunKeeps(config, calls, Join(jt, cond, left, right), db, holds)
  }

  lemma SomeRunChangesMeaning(jt: JoinType, holds: Condition)
    requires !Symmetric(jt)
    requires forall row :: holds(Expr("c"), row) == jt.Semi?
    ensures !RunKeeps(DEFAULT_CONFIG, SWAPPING_CALLS, Join(jt, Expr("c"), Scan("l"), Scan("r")), TWO_TABLES, holds)
  {
    RunThatSwaps(Join(jt, Expr("c"), Scan("l"), Scan("r")));
    SemiAntiSwapCounterexample(jt, Expr("c"), holds);
  }

  /** Adaptive execution preserves every query with a root join of type `jt`, exactly when `jt` is not semi or anti. */
  lemma RunsSafeExactly(jt: JoinType)
    ensures RunsSafe(jt) <==> jt != Semi && jt != Anti
  {
    hide RunKeeps;
    if Symmetric(jt) {
      forall config, calls, cond, left, right, db, holds
        ensures RunKeeps(config, calls, Join(jt, cond, left, right), db, holds)
      {
        SymmetricRunKeeps(config, calls, Join(jt, cond, left, right), db, holds);
      }
    } else {
      SomeRunChangesMeaning(jt, (e, row) => jt.Semi?);
    }
  }

  lemma SymmetricRunKeeps(config: AdaptiveConfig, calls: seq<Call>, plan: RelExpr, db: Database, holds: Condition)
    requires plan.Join? && Symmetric(plan.joinType)
    ensures RunKeeps(config, calls, plan, db, holds)
  {
    if ValidDatabase(db) && WellFormed(plan, db) {
      RunsKeepMeaning(config, plan, calls, db, holds);
    }
  }

  // ---------- replaying the log ----------

  /** The two ways a join strategy gets set. */
  datatype StrategyEvent = Registered(node: NodeId, strategy: JoinStrategy) | Logged(record: AdaptationRecord)

  function Replay(h: seq<StrategyEvent>): map<NodeId, JoinStrategy> {
    if h == [] then map[] else
    var before := Replay(h[..|h| - 1]);
    match h[|h| - 1]
    case Registered(node, strategy) => before[node := strategy]
    case Logged(r) =>
      if r.adaptation.SwitchJoinStrategy? then before[r.adaptation.nodeId := r.adaptation.to] else before
  }

  function Logs(h: seq<StrategyEvent>): seq<AdaptationRecord> {
    if h == [] then [] else
      Logs(h[..|h| - 1]) + (if h[|h| - 1].Logged? then [h[|h| - 1].record] else [])
  }

  function Registrations(h: seq<StrategyEvent>): seq<(NodeId, JoinStrategy)> {
    if h == [] then [] else
      var last := h[|h| - 1];
      Registrations(h[..|h| - 1]) + (if last.Registered? then [(last.node, last.strategy)] else [])
  }

  function JoinsRegistered(calls: seq<Call>): seq<(NodeId, JoinStrategy)> {
    if calls == [] then [] else
      var last := calls[|calls| - 1];
      JoinsRegistered(calls[..|calls| - 1]) + (if last.RegisterJoin? then [(last.node, last.strategy)] else [])
  }

  /** Each logged switch starts from the strategy in force at that moment, hash join where none was set. */
  ghost predicate FromInForce(h: seq<StrategyEvent>) {
    forall i :: 0 <= i < |h| && h[i].Logged? && h[i].record.adaptation.SwitchJoinStrategy? ==>
      var a, m := h[i].record.adaptation, Replay(h[..i]);
      a.from == if a.nodeId in m then m[a.nodeId] else HashJoin
  }

  lemma Extend(h: seq<StrategyEvent>, e: StrategyEvent)
    requires FromInForce(h)
    requires e.Logged? && e.record.adaptation.SwitchJoinStrategy? ==>
               var a, m := e.record.adaptation, Replay(h);
               a.from == if a.nodeId in m then m[a.nodeId] else HashJoin
    ensures (h + [e])[..|h|] == h && FromInForce(h + [e])
  {
    assert (h + [e])[..|h|] == h;
    forall i | 0 <= i < |h| ensures (h + [e])[..i] == h[..i] {}
  }

  /** Log records as events. */
  function Entries(records: seq<AdaptationRecord>): (h: seq<StrategyEvent>)
    ensures |h| == |records| && forall i :: 0 <= i < |h| ==> h[i] == Logged(records[i])
  {
    seq(|records|, i requires 0 <= i < |records| => Logged(records[i]))
  }

  /** What one call did, in the order in which it did it: a registration comes before the evaluation. */
  function EventsOf(call: Call, before: seq<AdaptationRecord>, after: seq<AdaptationRecord>): seq<StrategyEvent> {
    (if call.RegisterJoin? then [Registered(call.node, call.strategy)] else [])
    + (if |before| <= |after| then Entries(after[|before|..]) else [])
  }

  /** What has happened to the join strategies in a run, call by call. */
  function History(config: AdaptiveConfig, plan: RelExpr, calls: seq<Call>): seq<StrategyEvent>
    decreases |calls|
  {
    if calls == [] then [] else
      var n := |calls| - 1;
      History(config, plan, calls[..n])
      + EventsOf(calls[n], Run(config, Init(plan), calls[..n]).log, Run(config, Init(plan), calls).log)
  }

  /** `h` accounts for the log and the strategies of `s`. */
  ghost predicate Explains(h: seq<StrategyEvent>, s: State) {
    Logs(h) == s.log && Replay(h) == s.strategies && FromInForce(h)
  }

  lemma AdaptExplained(s: State, node: NodeId, e: TriggerEvent, h: seq<StrategyEvent>)
    requires Explains(h, s)
    ensures var s' := Adapt(s, node, e);
      && s.log <= s'.log && Explains(h + Entries(s'.log[|s.log|..]), s')
      && Registrations(h + Entries(s'.log[|s.log|..])) == Registrations(h)
  {
    RecommendationTargetsTrigger(e, StrategyAt(s, e.nodeId));
    var s' := Adapt(s, node, e);
    if Accepted(s, e).Some? {
      var r := s'.log[|s.log|];
      Extend(h, Logged(r));
      assert Entries(s'.log[|s.log|..]) == [Logged(r)];
    } else {
      assert h + Entries(s'.log[|s.log|..]) == h;
    }
  }

  lemma {:induction false} AdaptAllExplained(config: AdaptiveConfig, s: State, node: NodeId, events: seq<TriggerEvent>,
                                             h: seq<StrategyEvent>)
    requires Explains(h, s)
    ensures var s' := AdaptAll(config, s, node, events);
      && s.log <= s'.log && Explains(h + Entries(s'.log[|s.log|..]), s')
      && Registrations(h + Entries(s'.log[|s.log|..])) == Registrations(h)
    decreases events
  {
    hide Explains, Adapt, Registrations;
    var s' := AdaptAll(config, s, node, events);
    if events != [] && s.count < config.maxAdaptations {
      var mid := Adapt(s, node, events[0]);
      AdaptExplained(s, node, events[0], h);
      var h1 := h + Entries(mid.log[|s.log|..]);
      AdaptAllExplained(config, mid, node, events[1..], h1);
      assert h1 + Entries(s'.log[|mid.log|..]) == h + Entries(s'.log[|s.log|..]);
    } else {
      assert h + Entries(s'.log[|s.log|..]) == h;
    }
  }

  lemma ObserveExplained(config: AdaptiveConfig, s: State, call: Call, h: seq<StrategyEvent>)
    requires Explains(h, s)
    ensures var h' := h + EventsOf(call, s.log, s.log);
      && Explains(h', Observe(config, s, call)) && Observe(config, s, call).log == s.log
      && Registrations(h') == Registrations(h) + (if call.RegisterJoin? then [(call.node, call.strategy)] else [])
  {
    var h' := h + EventsOf(call, s.log, s.log);
    if call.RegisterJoin? {
      var e := Registered(call.node, call.strategy);
      Extend(h, e);
      assert h' == h + [e];
    } else {
      assert h' == h;
    }
  }

  lemma ApplyExplained(config: AdaptiveConfig, s: State, call: Call, h: seq<StrategyEvent>)
    requires Explains(h, s)
    ensures var s' := Apply(config, s, call);
      var h' := h + EventsOf(call, s.log, s'.log);
      && Explains(h', s')
      && Registrations(h') == Registrations(h) + (if call.RegisterJoin? then [(call.node, call.strategy)] else [])
  {
    hide Explains, Registrations, AdaptAll, Observe, Evaluates, OperatorEvents, EventsOf, Entries;
    ObserveExplained(config, s, call, h);
    var mid, s' := Observe(config, s, call), Apply(config, s, call);
    if Evaluates(config, s, call) && call.node in mid.operators {
      AdaptAllExplained(config, mid, call.node,
                        OperatorEvents(config.triggerConfig, call.node, mid.operators[call.node]),
                        h + EventsOf(call, s.log, s.log));
      EventsSplit(call, h, s.log, s'.log);
    }
  }

  lemma EventsSplit(call: Call, h: seq<StrategyEvent>, before: seq<AdaptationRecord>, after: seq<AdaptationRecord>)
    requires before <= after
    ensures (h + EventsOf(call, before, before)) + Entries(after[|before|..]) == h + EventsOf(call, before, after)
  {
  }

  lemma {:induction false} HistoryExplains(config: AdaptiveConfig, plan: RelExpr, calls: seq<Call>)
    ensures var h := History(config, plan, calls);
      Explains(h, Run(config, Init(plan), calls)) && Registrations(h) == JoinsRegistered(calls)
    decreases |calls|
  {
    hide Explains, Apply, EventsOf;
    if calls == [] {
      NothingExplained(plan);
    } else {
      var n := |calls| - 1;
      HistoryExplains(config, plan, calls[..n]);
      assert calls == calls[..n] + [calls[n]];
      RunSnoc(config, Init(plan), calls[..n], calls[n]);
      ApplyExplained(config, Run(config, Init(plan), calls[..n]), calls[n], History(config, plan, calls[..n]));
    }
  }

  lemma NothingExplained(plan: RelExpr)
    ensures Explains([], Init(plan)) && Registrations([]) == []
  {
  }

  lemma {:induction false} HistoryGrows(config: AdaptiveConfig, plan: RelExpr, calls: seq<Call>, k: nat)
    requires k <= |calls|
    ensures History(config, plan, calls[..k]) <= History(config, plan, calls)
    decreases |calls|
  {
    hide EventsOf, Run;
    if k == |calls| {
      assert calls[..k] == calls;
    } else {
      var n := |calls| - 1;
      HistoryGrows(config, plan, calls[..n], k);
      assert calls[..n][..k] == calls[..k];
    }
  }

  /** Every run's strategies are what its join registrations and its log leave when replayed as they happened: at
      every moment of the run the history so far has its registrations, its log and its strategies, and every
      switch starts from the strategy then in force. */
  lemma LogReplays(config: AdaptiveConfig, plan: RelExpr, calls: seq<Call>)
    ensures FromInForce(History(config, plan, calls))
    ensures forall k :: 0 <= k <= |calls| ==>
      var h, s := History(config, plan, calls[..k]), Run(config, Init(plan), calls[..k]);
      && h <= History(config, plan, calls)
      && Logs(h) == s.log && Registrations(h) == JoinsRegistered(calls[..k]) && Replay(h) == s.strategies
  {
    hide History, Run, Logs, Registrations, Replay, JoinsRegistered, FromInForce;
    HistoryExplains(config, plan, calls);
    forall k | 0 <= k <= |calls|
      ensures var h, s := History(config, plan, calls[..k]), Run(config, Init(plan), calls[..k]);
        && h <= History(config, plan, calls)
        && Logs(h) == s.log && Registrations(h) == JoinsRegistered(calls[..k]) && Replay(h) == s.strategies
    {
      HistoryExplains(config, plan, calls[..k]);
      HistoryGrows(config, plan, calls, k);
    }
  }
}
