/** How many rows an operator is known to have, and when a report evaluates its triggers, told from the calls. */
module RowCounts {
  import opened RuntimeStats
  import opened RelAlgebra
  import opened ExecutorSpec
  import opened EvaluationCount

  /** The call says anew how many rows the operator has: none at its registration, all at its completion. */
  predicate Restarts(call: Call, node: NodeId) {
    call.node == node && (call.RegisterOperator? || call.RegisterJoin? || call.ReportCompleted?)
  }

  function StartRows(call: Call): U64 {
    if call.ReportCompleted? then call.total else 0
  }

  /** All rows that the calls report for the operator. */
  function Reported(calls: seq<Call>, node: NodeId): nat
    decreases |calls|
  {
    if calls == [] then 0
    else
      var n := |calls| - 1;
      Reported(calls[..n], node)
      + (if calls[n].ReportRows? && calls[n].node == node then calls[n].rows else 0)
  }

  function AtMostMax(n: nat): U64 {
    if n > MAX_U64 then MAX_U64 else n
  }

  lemma OneCall(config: AdaptiveConfig, s: State, call: Call, node: NodeId)
    requires node in s.operators && !Restarts(call, node)
    ensures var s' := Apply(config, s, call);
      && node in s'.operators && s'.operators[node].estimatedRows == s.operators[node].estimatedRows
      && s'.operators[node].actualRows
         == if config.enabled && call.ReportRows? && call.node == node
            then SaturatingAdd(s.operators[node].actualRows, call.rows) else s.operators[node].actualRows
  {
    hide Apply;
    ApplyKeepsOperators(config, s, call);
  }

  lemma Restarted(config: AdaptiveConfig, s: State, call: Call, node: NodeId)
    requires Restarts(call, node) && (call.ReportCompleted? ==> node in s.operators)
    ensures var s' := Apply(config, s, call);
      && node in s'.operators && s'.operators[node].actualRows == StartRows(call)
      && s'.operators[node].estimatedRows
         == if call.ReportCompleted? then s.operators[node].estimatedRows else call.estimatedRows
  {
    hide Apply;
    ApplyKeepsOperators(config, s, call);
  }

  /** Since an operator's registration or last completion its count has grown by all reported rows, unless adaptation is
      disabled, and stops at the largest count; its estimate stays what it was registered with. */
  lemma {:induction false} RowsExactly(
    config: AdaptiveConfig, plan: RelExpr, calls: seq<Call>, call: Call, more: seq<Call>, node: NodeId)
    requires Restarts(call, node) && (call.ReportCompleted? ==> node in Run(config, Init(plan), calls).operators)
    requires forall c :: c in more ==> !Restarts(c, node)
    ensures var before, s := Run(config, Init(plan), calls), Run(config, Init(plan), calls + [call] + more);
      && node in s.operators
      && s.operators[node].actualRows
         == AtMostMax(StartRows(call) + (if config.enabled then Reported(more, node) else 0))
      && s.operators[node].estimatedRows
         == if call.ReportCompleted? then before.operators[node].estimatedRows else call.estimatedRows
    decreases |more|
  {
    hide Run, Apply, Init, Restarts;
    if more == [] {
      RunSnoc(config, Init(plan), calls, call);
      Restarted(config, Run(config, Init(plan), calls), call, node);
      assert calls + [call] + more == calls + [call];
    } else {
      var n := |more| - 1;
      var earlier := calls + [call] + more[..n];
      RowsExactly(config, plan, calls, call, more[..n], node);
      RunSnoc(config, Init(plan), earlier, more[n]);
      assert calls + [call] + more == earlier + [more[n]];
      OneCall(config, Run(config, Init(plan), earlier), more[n], node);
    }
  }

  lemma MultipleExactly(x: U64, interval: U64)
    ensures IsMultipleOf(x, interval) <==> Divides(interval, x)
  {
    if interval == 0 {
      assert Divides(0, x) ==> x == 0;
      assert x == 0 ==> x == 0 * 0;
    } else {
      if x % interval == 0 {
        assert x == interval * (x / interval);
      }
      if Divides(interval, x) {
        var q: int :| x == interval * q;
        QuotientUnique(x, interval, q, 0);
      }
    }
  }

  /** So a report evaluates the triggers exactly when the interval divides the count that it reaches. */
  lemma ReportEvaluatesExactly(config: AdaptiveConfig, plan: RelExpr, calls: seq<Call>, call: Call, more: seq<Call>,
                               node: NodeId, rows: U64)
    requires Restarts(call, node) && (call.ReportCompleted? ==> node in Run(config, Init(plan), calls).operators)
    requires forall c :: c in more ==> !Restarts(c, node)
    ensures Evaluates(config, Run(config, Init(plan), calls + [call] + more), Call.ReportRows(node, rows))
       <==> config.enabled
            && Divides(config.checkIntervalRows, AtMostMax(StartRows(call) + Reported(more, node) + rows))
  {
    hide Run, Init, Restarts, Divides;
    RowsExactly(config, plan, calls, call, more, node);
    MultipleExactly(AtMostMax(StartRows(call) + Reported(more, node) + rows), config.checkIntervalRows);
  }
}
