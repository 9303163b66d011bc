/** Batch execution over a timeline of snapshots, as functions of the executor's state. */
module BatchSpec {
  import opened RealFacts
  import opened Options
  import opened RuntimeStats
  import opened QError

  datatype FeedbackMode = ConfidenceOnly | IncrementalStats | FullReanalyze

  datatype Config = Config(
    batchSize: nat, mode: FeedbackMode, reoptimizeThreshold: real, minConfidence: real, maxReoptimizations: nat)

  datatype Feedback = Feedback(estimated: real, actual: real, qError: real, triggered: bool)

  /** A table's name and its row count in a snapshot. */
  datatype TableRows = TableRows(name: string, rows: U64)

  /**
   * What the timeline shows at the end of a batch. Tables and feedback are listed in the order in which
   * the hash maps yield them; the confidences stand for the part of the statistics that is not modelled.
   */
  datatype Observation = Observation(
    tables: seq<TableRows>, feedback: seq<Feedback>, confidenceBefore: real, confidenceAfter: real)

  datatype Record = Record(
    batchIndex: nat, start: nat, end: nat, feedback: seq<Feedback>, reoptimized: bool,
    confidenceBefore: real, confidenceAfter: real, avgQError: real, maxQError: real)

  /** `adapter` holds the row counts that the statistics adapter knows. */
  datatype State = State(adapter: map<string, U64>, names: seq<string>, history: seq<Record>, reoptimizations: nat)

  // ---------- statistics ----------

  /** Every table takes the row count it has in the snapshot. */
  function Load(adapter: map<string, U64>, tables: seq<TableRows>): map<string, U64>
    decreases |tables|
  {
    if tables == [] then adapter
    else
      var n := |tables| - 1;
      Load(adapter, tables[..n])[tables[n].name := tables[n].rows]
  }

  function AddNames(names: seq<string>, tables: seq<TableRows>): seq<string>
    decreases |tables|
  {
    if tables == [] then names
    else
      var n := |tables| - 1;
      var before := AddNames(names, tables[..n]);
      if tables[n].name in before then before else before + [tables[n].name]
  }

  /** One operator's feedback corrects every table whose row count its estimate matches. */
  function CorrectTables(adapter: map<string, U64>, tables: seq<TableRows>, fb: Feedback): (r: map<string, U64>)
    requires fb.estimated != 0.0
    ensures r.Keys == adapter.Keys
    decreases |tables|
  {
    if tables == [] then adapter
    else
      var n := |tables| - 1;
      var before := CorrectTables(adapter, tables[..n], fb);
      if Matches(tables[n].rows, fb.estimated) && tables[n].name in before then
        before[tables[n].name := Corrected(tables[n].rows, fb.estimated, fb.actual)]
      else
        before
  }

  predicate Usable(fb: Feedback) {
    Abs(fb.estimated) >= F64_EPSILON
  }

  lemma UsableIsNonZero(fb: Feedback)
    requires Usable(fb)
    ensures fb.estimated != 0.0
  {
  }

  function CorrectAll(adapter: map<string, U64>, tables: seq<TableRows>, feedback: seq<Feedback>): (r: map<string, U64>)
    ensures r.Keys == adapter.Keys
    decreases |feedback|
  {
    if feedback == [] then adapter
    else
      var n := |feedback| - 1;
      var before := CorrectAll(adapter, tables, feedback[..n]);
      if Usable(feedback[n]) then CorrectTables(before, tables, feedback[n]) else before
  }

  function ApplyFeedback(
    mode: FeedbackMode, adapter: map<string, U64>, tables: seq<TableRows>, feedback: seq<Feedback>): map<string, U64>
  {
    match mode
    case ConfidenceOnly => adapter
    case IncrementalStats => CorrectAll(adapter, tables, feedback)
    case FullReanalyze => Load(adapter, tables)
  }

  // ---------- one batch ----------

  function QErrors(feedback: seq<Feedback>): (qs: seq<real>)
    ensures |qs| == |feedback| && forall i :: 0 <= i < |qs| ==> qs[i] == feedback[i].qError
  {
    seq(|feedback|, i requires 0 <= i < |feedback| => feedback[i].qError)
  }

  predicate ShouldReoptimize(cfg: Config, reoptimizations: nat, maxQError: real, confidence: real) {
    && reoptimizations < cfg.maxReoptimizations
    && (maxQError > cfg.reoptimizeThreshold || confidence < cfg.minConfidence)
  }

  /** In a reoptimized batch the operators whose error exceeds the threshold are marked. */
  function Marked(cfg: Config, feedback: seq<Feedback>, reoptimized: bool): (r: seq<Feedback>)
    ensures |r| == |feedback|
  {
    seq(|feedback|, i requires 0 <= i < |feedback| =>
      if reoptimized && feedback[i].qError > cfg.reoptimizeThreshold then feedback[i].(triggered := true)
      else feedback[i])
  }

  function BatchRecord(cfg: Config, reoptimizations: nat, k: nat, start: nat, end: nat, o: Observation): Record {
    var (avg, max) := Summary(QErrors(o.feedback));
    var reoptimized := ShouldReoptimize(cfg, reoptimizations, max, o.confidenceAfter);
    Record(k, start, end, Marked(cfg, o.feedback, reoptimized), reoptimized,
           o.confidenceBefore, o.confidenceAfter, avg, max)
  }

  /** The state after a batch that has been observed. */
  function AfterBatch(cfg: Config, s: State, k: nat, start: nat, end: nat, o: Observation): State {
    var record := BatchRecord(cfg, s.reoptimizations, k, start, end, o);
    State(
      ApplyFeedback(cfg.mode, Load(s.adapter, o.tables), o.tables, o.feedback),
      AddNames(s.names, o.tables),
      s.history + [record],
      if record.reoptimized then s.reoptimizations + 1 else s.reoptimizations)
  }

  // ---------- a run ----------

  /** What a batch with a given index and range of snapshots observes, unless the timeline fails there. */
  type Timeline = (nat, nat, nat) -> Option<Observation>

  function BatchEnd(cfg: Config, total: nat, start: nat): nat {
    if start + cfg.batchSize < total then start + cfg.batchSize else total
  }

  /** The final state, and the index of the batch that failed, if one did. */
  function RunFrom(cfg: Config, s: State, timeline: Timeline, total: nat, start: nat, k: nat): (State, Option<nat>)
    requires cfg.batchSize > 0 && start <= total
    decreases total - start
  {
    if start == total then (s, None)
    else
      var end := BatchEnd(cfg, total, start);
      match timeline(k, start, end)
      case None => (s, Some(k))
      case Some(o) => RunFrom(cfg, AfterBatch(cfg, s, k, start, end, o), timeline, total, end, k + 1)
  }
}
