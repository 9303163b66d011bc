/** The batch executor: it works through a timeline and keeps a history of its batches. */
module BatchExecutor {
  import opened Options
  import opened RuntimeStats
  import opened QError
  import opened BatchSpec

  class Executor {
    const config: Config
    var adapter: map<string, U64>
    var tableNames: seq<string>
    var batchHistory: seq<Record>
    var reoptimizationCount: nat

    function Model(): State
      reads this
    {
      State(adapter, tableNames, batchHistory, reoptimizationCount)
    }

    constructor (cfg: Config)
      requires cfg.batchSize > 0
      ensures config == cfg && Model() == State(map[], [], [], 0)
    {
      config := cfg;
      adapter, tableNames, batchHistory, reoptimizationCount := map[], [], [], 0;
    }

    /** Forgets the history, the count and the names; the adapter keeps what it knows. */
    method Reset()
      modifies this
      ensures Model() == State(old(adapter), [], [], 0)
    {
      batchHistory, reoptimizationCount, tableNames := [], 0, [];
    }

    method LoadTables(tables: seq<TableRows>)
      modifies this`adapter, this`tableNames
      ensures adapter == Load(old(adapter), tables) && tableNames == AddNames(old(tableNames), tables)
    {
      for i := 0 to |tables|
        invariant adapter == Load(old(adapter), tables[..i]) && tableNames == AddNames(old(tableNames), tables[..i])
      {
        assert tables[..i + 1][..i] == tables[..i];
        adapter := adapter[tables[i].name := tables[i].rows];
        if tables[i].name !in tableNames {
          tableNames := tableNames + [tables[i].name];
        }
      }
      assert tables[..|tables|] == tables;
    }

    method ApplyIncrementalFeedback(tables: seq<TableRows>, feedback: seq<Feedback>)
      modifies this`adapter
      ensures adapter == CorrectAll(old(adapter), tables, feedback)
    {
      hide Matches, Corrected, Usable;
      for j := 0 to |feedback|
        invariant adapter == CorrectAll(old(adapter), tables, feedback[..j])
      {
        var fb := feedback[j];
        assert feedback[..j + 1][..j] == feedback[..j];
        if !Usable(fb) {
          continue;
        }
        UsableIsNonZero(fb);
        ghost var before := adapter;
        for i := 0 to |tables|
          invariant adapter == CorrectTables(before, tables[..i], fb)
        {
          assert tables[..i + 1][..i] == tables[..i];
          if Matches(tables[i].rows, fb.estimated) {
            if tables[i].name in adapter {
              adapter := adapter[tables[i].name := Corrected(tables[i].rows, fb.estimated, fb.actual)];
            }
          }
        }
        assert tables[..|tables|] == tables;
      }
      assert feedback[..|feedback|] == feedback;
    }

    /** A full reanalysis takes the snapshot's counts again. */
    method ApplyFullReanalyze(tables: seq<TableRows>)
      modifies this`adapter
      ensures adapter == Load(old(adapter), tables)
    {
      for i := 0 to |tables|
        invariant adapter == Load(old(adapter), tables[..i])
      {
        assert tables[..i + 1][..i] == tables[..i];
        adapter := adapter[tables[i].name := tables[i].rows];
      }
      assert tables[..|tables|] == tables;
    }

    method MarkTriggered(feedback: seq<Feedback>) returns (r: seq<Feedback>)
      ensures r == Marked(config, feedback, true)
    {
      r := [];
      for i := 0 to |feedback|
        invariant r == Marked(config, feedback[..i], true)
      {
        var fb := feedback[i];
        r := r + [if fb.qError > config.reoptimizeThreshold then fb.(triggered := true) else fb];
      }
      assert feedback[..|feedback|] == feedback;
    }

    /** One batch; when the timeline fails nothing has changed. */
    method ExecuteBatch(timeline: Timeline, k: nat, start: nat, end: nat) returns (r: Option<Record>)
      modifies this`adapter, this`tableNames, this`reoptimizationCount
      ensures match timeline(k, start, end) {
        case None => r == None && Model() == old(Model())
        case Some(o) =>
          && r == Some(BatchRecord(config, old(reoptimizationCount), k, start, end, o))
          && Model().(history := old(batchHistory) + [r.value]) == AfterBatch(config, old(Model()), k, start, end, o)
      }
    {
      hide Load, AddNames, CorrectAll, Summary;
      var seen := timeline(k, start, end);
      if seen == None {
        return None;
      }
      var o := seen.value;
      LoadTables(o.tables);
      var (avg, max) := Summary(QErrors(o.feedback));
      match config.mode {
        case ConfidenceOnly =>
        case IncrementalStats => ApplyIncrementalFeedback(o.tables, o.feedback);
        case FullReanalyze => ApplyFullReanalyze(o.tables);
      }
      var reoptimized := ShouldReoptimize(config, reoptimizationCount, max, o.confidenceAfter);
      var feedback := o.feedback;
      if reoptimized {
        reoptimizationCount := reoptimizationCount + 1;
        feedback := MarkTriggered(feedback);
      }
      assert feedback == Marked(config, o.feedback, reoptimized);
      r := Some(Record(k, start, end, feedback, reoptimized, o.confidenceBefore, o.confidenceAfter, avg, max));
    }

    /** Works through all snapshots; on failure, what came before the failing batch stays in the history. */
    method Run(timeline: Timeline, total: nat) returns (failedBatch: Option<nat>)
      requires config.batchSize > 0
      modifies this
      ensures (Model(), failedBatch) == RunFrom(config, old(Model()), timeline, total, 0, 0)
    {
      hide AfterBatch, BatchRecord;
      var snapshot, batchIndex := 0, 0;
      while snapshot < total
        invariant snapshot <= total
        invariant RunFrom(config, Model(), timeline, total, snapshot, batchIndex)
               == RunFrom(config, old(Model()), timeline, total, 0, 0)
      {
        var batchEnd := if snapshot + config.batchSize < total then snapshot + config.batchSize else total;
        var record := ExecuteBatch(timeline, batchIndex, snapshot, batchEnd);
        if record == None {
          return Some(batchIndex);
        }
        batchHistory := batchHistory + [record.value];
        snapshot, batchIndex := batchEnd, batchIndex + 1;
      }
      failedBatch := None;
    }
  }

  /** An executor cannot be made with batches of size zero. */
  method NewExecutor(config: Config) returns (r: Option<Executor>)
    ensures r == None <==> config.batchSize == 0
    ensures r.Some? ==> fresh(r.value) && r.value.config == config && r.value.Model() == State(map[], [], [], 0)
  {
    if config.batchSize == 0 {
      return None;
    }
    var e := new Executor(config);
    r := Some(e);
  }
}
