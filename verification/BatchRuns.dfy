/** What holds of every batch run. */
module BatchRuns {
  import opened Options
  import opened RuntimeStats
  import opened QError
  import opened BatchSpec

  // ---------- the batches tile the timeline ----------

  /** Where batch `k` starts. */
  function StartOf(size: nat, total: nat, k: nat): nat {
    if k * size < total then k * size else total
  }

  predicate Tiles(records: seq<Record>, size: nat, total: nat, k: nat) {
    forall i :: 0 <= i < |records| ==>
      && records[i].batchIndex == k + i
      && records[i].start == StartOf(size, total, k + i) < total
      && records[i].end == StartOf(size, total, k + i + 1)
  }

  lemma NextStart(cfg: Config, total: nat, k: nat)
    requires cfg.batchSize > 0 && StartOf(cfg.batchSize, total, k) < total
    ensures BatchEnd(cfg, total, StartOf(cfg.batchSize, total, k)) == StartOf(cfg.batchSize, total, k + 1)
  {
    NextMultiple(k, cfg.batchSize);
  }

  lemma NextMultiple(k: nat, size: nat)
    ensures (k + 1) * size == k * size + size
  {
  }

  lemma TilesCons(record: Record, records: seq<Record>, size: nat, total: nat, k: nat)
    requires Tiles(records, size, total, k + 1)
    requires record.batchIndex == k && record.start == StartOf(size, total, k) < total
    requires record.end == StartOf(size, total, k + 1)
    ensures Tiles([record] + records, size, total, k)
  {
    hide StartOf;
    var all := [record] + records;
    forall i | 0 <= i < |all|
      ensures all[i].batchIndex == k + i && all[i].start == StartOf(size, total, k + i) < total
      ensures all[i].end == StartOf(size, total, k + i + 1)
    {
      if i > 0 {
        assert all[i] == records[i - 1];
        assert k + 1 + (i - 1) == k + i && k + 1 + (i - 1) + 1 == k + i + 1;
      }
    }
  }

  lemma {:induction false} RunFromTiles(cfg: Config, s: State, timeline: Timeline, total: nat, k: nat)
    returns (added: seq<Record>)
    requires cfg.batchSize > 0
    ensures var (r, failed) := RunFrom(cfg, s, timeline, total, StartOf(cfg.batchSize, total, k), k);
      && r.history == s.history + added
      && Tiles(added, cfg.batchSize, total, k)
      && (failed == None ==> StartOf(cfg.batchSize, total, k + |added|) == total)
      && (failed != None ==> failed == Some(k + |added|) && StartOf(cfg.batchSize, total, k + |added|) < total)
    decreases total - StartOf(cfg.batchSize, total, k)
  {
    hide StartOf, BatchRecord;
    var start := StartOf(cfg.batchSize, total, k);
    StartInside(cfg.batchSize, total, k);
    added := [];
    if start < total {
      NextStart(cfg, total, k);
      var end := StartOf(cfg.batchSize, total, k + 1);
      var seen := timeline(k, start, end);
      if seen.Some? {
        var record := BatchRecord(cfg, s.reoptimizations, k, start, end, seen.value);
        RecordPlace(cfg, s.reoptimizations, k, start, end, seen.value);
        var rest := RunFromTiles(cfg, AfterBatch(cfg, s, k, start, end, seen.value), timeline, total, k + 1);
        added := [record] + rest;
        TilesCons(record, rest, cfg.batchSize, total, k);
        assert (s.history + [record]) + rest == s.history + added;
        assert k + 1 + |rest| == k + |added|;
      } else {
        assert s.history + added == s.history;
      }
    } else {
      assert s.history + added == s.history;
    }
  }

  lemma StartInside(size: nat, total: nat, k: nat)
    ensures StartOf(size, total, k) <= total && StartOf(size, total, 0) == 0
  {
  }

  lemma RecordPlace(cfg: Config, reoptimizations: nat, k: nat, start: nat, end: nat, o: Observation)
    ensures var r := BatchRecord(cfg, reoptimizations, k, start, end, o);
      r.batchIndex == k && r.start == start && r.end == end
  {
  }

  function BatchesNeeded(size: nat, total: nat): nat
    requires size > 0
  {
    (total + size - 1) / size
  }

  lemma NeededExactly(size: nat, total: nat, n: nat)
    requires size > 0
    ensures StartOf(size, total, n) == total <==> n >= BatchesNeeded(size, total)
  {
    var c := BatchesNeeded(size, total);
    RoundedUp(size, total);
    if n >= c {
      ProductOrder(c, n, size);
    } else {
      ProductOrder(n, c - 1, size);
    }
  }

  lemma RoundedUp(size: nat, total: nat)
    requires size > 0
    ensures var c := BatchesNeeded(size, total); total <= c * size && (c - 1) * size < total
  {
    var q, r := (total + size - 1) / size, (total + size - 1) % size;
    assert q * size + r == total + size - 1 && 0 <= r < size;
    assert (q - 1) * size == q * size - size;
  }

  lemma ProductOrder(m: int, n: int, size: nat)
    requires m <= n
    ensures m * size <= n * size
  {
  }

  /**
   * From an empty history a run covers the snapshots from 0 on with consecutive ranges of the batch size,
   * the last one cut off at the end: all of them, in as few batches as possible, or up to the failing batch.
   */
  lemma RunTilesTimeline(cfg: Config, s: State, timeline: Timeline, total: nat)
    requires cfg.batchSize > 0 && s.history == []
    ensures var (r, failed) := RunFrom(cfg, s, timeline, total, 0, 0);
      && Tiles(r.history, cfg.batchSize, total, 0)
      && (failed == None ==> |r.history| == BatchesNeeded(cfg.batchSize, total))
      && (failed != None ==> failed == Some(|r.history|) && |r.history| < BatchesNeeded(cfg.batchSize, total))
  {
    hide StartOf, RunFrom, BatchesNeeded;
    StartInside(cfg.batchSize, total, 0);
    var added := RunFromTiles(cfg, s, timeline, total, 0);
    assert s.history + added == added;
    NeededExactly(cfg.batchSize, total, |added|);
    if |added| > 0 {
      NeededExactly(cfg.batchSize, total, |added| - 1);
      assert added[|added| - 1].start < total;
    }
  }

  /** In a tiling every range is non-empty and begins where the one before it ended. */
  lemma TilesAreConsecutive(records: seq<Record>, size: nat, total: nat)
    requires size > 0 && Tiles(records, size, total, 0)
    ensures records != [] ==> records[0].start == 0
    ensures forall i :: 0 <= i < |records| ==> records[i].start < records[i].end <= total
    ensures forall i :: 0 <= i < |records| - 1 ==> records[i].end == records[i + 1].start == records[i].start + size
  {
    forall i | 0 <= i < |records| ensures records[i].start < records[i].end <= total {
      assert (i + 1) * size == i * size + size;
    }
    forall i | 0 <= i < |records| - 1
      ensures records[i].end == records[i + 1].start == records[i].start + size
    {
      assert (i + 1) * size == i * size + size;
      assert records[i + 1].start < total;
    }
  }

  // ---------- reoptimizations are counted and bounded ----------

  function CountReoptimized(history: seq<Record>): nat {
    if history == [] then 0
    else CountReoptimized(history[..|history| - 1]) + (if history[|history| - 1].reoptimized then 1 else 0)
  }

  /** The decision for batch `i` is the one that its error, its confidence and the batches before call for. */
  ghost predicate DecidedWell(cfg: Config, history: seq<Record>, i: nat)
    requires i < |history|
  {
    history[i].reoptimized
    <==> ShouldReoptimize(cfg, CountReoptimized(history[..i]), history[i].maxQError, history[i].confidenceAfter)
  }

  ghost predicate Accounted(cfg: Config, s: State) {
    && s.reoptimizations == CountReoptimized(s.history) <= cfg.maxReoptimizations
    && forall i :: 0 <= i < |s.history| ==>
      DecidedWell(cfg, s.history, i) && s.history[i].avgQError <= s.history[i].maxQError
  }

  lemma AfterBatchAccounted(cfg: Config, s: State, k: nat, start: nat, end: nat, o: Observation)
    requires Accounted(cfg, s)
    ensures Accounted(cfg, AfterBatch(cfg, s, k, start, end, o))
  {
    hide Summary, Marked, Load, AddNames, ApplyFeedback;
    var record := BatchRecord(cfg, s.reoptimizations, k, start, end, o);
    var history := s.history + [record];
    assert history[..|s.history|] == s.history;
    SummaryIsOrdered(QErrors(o.feedback));
    forall i | 0 <= i < |history|
      ensures DecidedWell(cfg, history, i) && history[i].avgQError <= history[i].maxQError
    {
      assert history[..i] == s.history[..i];
      if i < |s.history| {
        assert DecidedWell(cfg, s.history, i);
      } else {
        assert s.history[..i] == s.history;
      }
    }
  }

  lemma {:induction false} RunFromAccounted(
    cfg: Config, s: State, timeline: Timeline, total: nat, start: nat, k: nat)
    requires cfg.batchSize > 0 && start <= total && Accounted(cfg, s)
    ensures Accounted(cfg, RunFrom(cfg, s, timeline, total, start, k).0)
    decreases total - start
  {
    hide Accounted, AfterBatch;
    if start < total {
      var end := BatchEnd(cfg, total, start);
      var seen := timeline(k, start, end);
      if seen.Some? {
        AfterBatchAccounted(cfg, s, k, start, end, seen.value);
        RunFromAccounted(cfg, AfterBatch(cfg, s, k, start, end, seen.value), timeline, total, end, k + 1);
      }
    }
  }

  /** What a user of the executor can do with it. */
  datatype Command = RunOn(timeline: Timeline, total: nat) | ResetAll

  function Obey(cfg: Config, s: State, c: Command): State
    requires cfg.batchSize > 0
  {
    match c
    case RunOn(timeline, total) => RunFrom(cfg, s, timeline, total, 0, 0).0
    case ResetAll => State(s.adapter, [], [], 0)
  }

  function ObeyAll(cfg: Config, commands: seq<Command>): State
    requires cfg.batchSize > 0
    decreases |commands|
  {
    if commands == [] then State(map[], [], [], 0)
    else Obey(cfg, ObeyAll(cfg, commands[..|commands| - 1]), commands[|commands| - 1])
  }

  /**
   * However often an executor is run and reset, and wherever its runs fail, the reoptimizations in its
   * history are the ones it has counted, never more than allowed, each decided as its batch called for; and no
   * record has an average Q-error above its maximum.
   */
  lemma {:induction false} EveryHistoryIsAccounted(cfg: Config, commands: seq<Command>)
    requires cfg.batchSize > 0
    ensures Accounted(cfg, ObeyAll(cfg, commands))
    decreases |commands|
  {
    if commands != [] {
      hide RunFrom;
      var before := commands[..|commands| - 1];
      EveryHistoryIsAccounted(cfg, before);
      match commands[|commands| - 1] {
        case RunOn(timeline, total) => RunFromAccounted(cfg, ObeyAll(cfg, before), timeline, total, 0, 0);
        case ResetAll =>
      }
    }
  }

  /** Without a reset the history of an earlier run stays in front of the next one. */
  lemma HistoriesAccumulate(cfg: Config, s: State, timeline: Timeline, total: nat)
    requires cfg.batchSize > 0
    ensures var r := RunFrom(cfg, s, timeline, total, 0, 0).0; s.history <= r.history
    ensures var (r, failed) := RunFrom(cfg, s, timeline, total, 0, 0);
      failed == None ==> |r.history| == |s.history| + BatchesNeeded(cfg.batchSize, total)
  {
    hide StartOf, RunFrom, BatchesNeeded;
    StartInside(cfg.batchSize, total, 0);
    var added := RunFromTiles(cfg, s, timeline, total, 0);
    NeededExactly(cfg.batchSize, total, |added|);
    if |added| > 0 {
      NeededExactly(cfg.batchSize, total, |added| - 1);
      assert added[|added| - 1].start < total;
    }
  }

  // ---------- what feedback does to row counts ----------

  ghost predicate Names(tables: seq<TableRows>, name: string) {
    exists i :: 0 <= i < |tables| && tables[i].name == name
  }

  lemma NamesSnoc(tables: seq<TableRows>, name: string)
    requires tables != []
    ensures Names(tables, name) <==>
      Names(tables[..|tables| - 1], name) || tables[|tables| - 1].name == name
  {
    var n := |tables| - 1;
    if Names(tables, name) {
      var i :| 0 <= i < |tables| && tables[i].name == name;
      if i < n {
        assert tables[..n][i].name == name;
      }
    }
    if Names(tables[..n], name) {
      var i :| 0 <= i < n && tables[..n][i].name == name;
      assert tables[i].name == name;
    }
  }

  /** Two adapters that differ only in tables of the snapshot are the same once it has been loaded. */
  lemma {:induction false} LoadAgrees(a: map<string, U64>, b: map<string, U64>, tables: seq<TableRows>, name: string)
    requires Names(tables, name) || (name in a <==> name in b)
    requires Names(tables, name) || (name in a ==> a[name] == b[name])
    ensures name in Load(a, tables) <==> name in Load(b, tables)
    ensures name in Load(a, tables) ==> Load(a, tables)[name] == Load(b, tables)[name]
    decreases |tables|
  {
    hide Names;
    if tables == [] {
      NoNames(name);
    } else {
      NamesSnoc(tables, name);
      var n := |tables| - 1;
      if tables[n].name != name {
        LoadAgrees(a, b, tables[..n], name);
      }
    }
  }

  lemma NoNames(name: string)
    ensures !Names([], name)
  {
  }

  lemma {:induction false} CorrectTablesElsewhere(
    adapter: map<string, U64>, tables: seq<TableRows>, fb: Feedback, name: string)
    requires fb.estimated != 0.0
    ensures name in adapter && !Names(tables, name) ==> CorrectTables(adapter, tables, fb)[name] == adapter[name]
    decreases |tables|
  {
    hide Names, Matches, Corrected;
    if tables != [] {
      NamesSnoc(tables, name);
      CorrectTablesElsewhere(adapter, tables[..|tables| - 1], fb, name);
    }
  }

  lemma {:induction false} CorrectAllElsewhere(
    adapter: map<string, U64>, tables: seq<TableRows>, feedback: seq<Feedback>, name: string)
    ensures name in adapter && !Names(tables, name) ==> CorrectAll(adapter, tables, feedback)[name] == adapter[name]
    decreases |feedback|
  {
    hide Names, CorrectTables;
    if feedback != [] {
      var n := |feedback| - 1;
      CorrectAllElsewhere(adapter, tables, feedback[..n], name);
      if Usable(feedback[n]) {
        CorrectTablesElsewhere(CorrectAll(adapter, tables, feedback[..n]), tables, feedback[n], name);
      }
    }
  }

  /**
   * Corrections do not outlive a batch: once the next snapshot lists the same tables, the adapter is what
   * it would have been without any feedback.
   */
  lemma NextSnapshotForgetsCorrections(
    adapter: map<string, U64>, tables: seq<TableRows>, feedback: seq<Feedback>, next: seq<TableRows>)
    requires forall i :: 0 <= i < |tables| ==> Names(next, tables[i].name)
    ensures Load(ApplyFeedback(IncrementalStats, adapter, tables, feedback), next) == Load(adapter, next)
  {
    hide CorrectAll, Load;
    var corrected := CorrectAll(adapter, tables, feedback);
    forall name: string
      ensures name in Load(corrected, next) <==> name in Load(adapter, next)
      ensures name in Load(adapter, next) ==> Load(corrected, next)[name] == Load(adapter, next)[name]
    {
      CorrectAllElsewhere(adapter, tables, feedback, name);
      LoadAgrees(corrected, adapter, next, name);
    }
    assert Load(corrected, next) == Load(adapter, next);
  }

  /** A hash map lists no table twice. */
  ghost predicate Distinct(tables: seq<TableRows>) {
    forall i, j :: 0 <= i < j < |tables| ==> tables[i].name != tables[j].name
  }

  lemma {:induction false} CorrectTablesAt(adapter: map<string, U64>, tables: seq<TableRows>, fb: Feedback, i: nat)
    requires Distinct(tables) && i < |tables| && tables[i].name in adapter && fb.estimated != 0.0
    ensures CorrectTables(adapter, tables, fb)[tables[i].name]
         == if Matches(tables[i].rows, fb.estimated) then Corrected(tables[i].rows, fb.estimated, fb.actual)
            else adapter[tables[i].name]
    decreases |tables|
  {
    hide Matches, Corrected;
    var n := |tables| - 1;
    if i < n {
      CorrectTablesAt(adapter, tables[..n], fb, i);
      assert tables[i].name != tables[n].name;
    } else {
      forall k | 0 <= k < n ensures tables[..n][k].name != tables[n].name {
      }
      CorrectTablesElsewhere(adapter, tables[..n], fb, tables[n].name);
    }
  }

  /** Corrections start from the snapshot's count, so the last operator that matches a table decides alone. */
  lemma LastMatchDecides(
    adapter: map<string, U64>, tables: seq<TableRows>, i: nat, feedback: seq<Feedback>, last: Feedback)
    requires Distinct(tables) && i < |tables| && tables[i].name in adapter && Usable(last) && last.estimated != 0.0
    ensures var r := CorrectAll(adapter, tables, feedback + [last]);
      && tables[i].name in r
      && r[tables[i].name]
      == if Matches(tables[i].rows, last.estimated) then Corrected(tables[i].rows, last.estimated, last.actual)
         else CorrectAll(adapter, tables, feedback)[tables[i].name]
  {
    hide Matches, Corrected, Usable, CorrectTables, Distinct;
    var all := feedback + [last];
    assert all[..|feedback|] == feedback;
    CorrectTablesAt(CorrectAll(adapter, tables, feedback), tables, last, i);
  }

  /** Two tables of the same size, each with feedback of its own: both entries match both tables, so that the counts
      of both depend on the order in which the hash map lists the feedback. */
  lemma FeedbackOrderMatters()
    ensures var tables := [TableRows("s", 100), TableRows("t", 100)];
      var low := Feedback(100.0, 10.0, 10.0, false);
      var high := Feedback(100.0, 1000.0, 10.0, false);
      var adapter := map["s" := 100, "t" := 100];
      && CorrectAll(adapter, tables, [low, high]) == map["s" := 370, "t" := 370]
      && CorrectAll(adapter, tables, [high, low]) == map["s" := 73, "t" := 73]
  {
    hide CorrectAll, Corrected, Matches;
    var low := Feedback(100.0, 10.0, 10.0, false);
    var high := Feedback(100.0, 1000.0, 10.0, false);
    assert Usable(low) && Usable(high);
    CorrectedEstimate(100, 10);
    CorrectedEstimate(100, 1000);
    LastOfTwo(low, high);
    LastOfTwo(high, low);
  }

  lemma LastOfTwo(first: Feedback, last: Feedback)
    requires Usable(last) && last.estimated != 0.0 && Matches(100, last.estimated)
    ensures var tables := [TableRows("s", 100), TableRows("t", 100)];
      var c := Corrected(100, last.estimated, last.actual);
      CorrectAll(map["s" := 100, "t" := 100], tables, [first, last]) == map["s" := c, "t" := c]
  {
    hide Corrected, Matches, Usable;
    var tables := [TableRows("s", 100), TableRows("t", 100)];
    var adapter := map["s" := 100, "t" := 100];
    var r := CorrectAll(adapter, tables, [first] + [last]);
    assert [first] + [last] == [first, last];
    LastMatchDecides(adapter, tables, 0, [first], last);
    LastMatchDecides(adapter, tables, 1, [first], last);
    assert r.Keys == {"s", "t"};
  }

  // ---------- when the order of feedback does not matter ----------

  /** The operator's feedback corrects the table. */
  predicate Prescribes(fb: Feedback, table: TableRows) {
    Usable(fb) && Matches(table.rows, fb.estimated)
  }

  function Prescribed(fb: Feedback, table: TableRows): U64
    requires Prescribes(fb, table)
  {
    UsableIsNonZero(fb);
    Corrected(table.rows, fb.estimated, fb.actual)
  }

  /** All feedback that corrects the table prescribes the same count. */
  ghost predicate Agree(feedback: seq<Feedback>, table: TableRows) {
    forall a, b :: a in feedback && b in feedback && Prescribes(a, table) && Prescribes(b, table) ==>
      Prescribed(a, table) == Prescribed(b, table)
  }

  /** The table's count is the same for every order of the feedback. */
  ghost predicate OrderFree(adapter: map<string, U64>, tables: seq<TableRows>, feedback: seq<Feedback>, name: string)
    requires name in adapter
  {
    forall order: seq<Feedback> :: multiset(order) == multiset(feedback) ==>
      CorrectAll(adapter, tables, order)[name] == CorrectAll(adapter, tables, feedback)[name]
  }

  lemma CountAfterLast(
    adapter: map<string, U64>, tables: seq<TableRows>, i: nat, feedback: seq<Feedback>, last: Feedback)
    requires Distinct(tables) && i < |tables| && tables[i].name in adapter
    ensures CorrectAll(adapter, tables, feedback + [last])[tables[i].name]
         == if Prescribes(last, tables[i]) then Prescribed(last, tables[i])
            else CorrectAll(adapter, tables, feedback)[tables[i].name]
  {
    hide Matches, Corrected, Usable, CorrectTables, Distinct;
    if Usable(last) {
      UsableIsNonZero(last);
      LastMatchDecides(adapter, tables, i, feedback, last);
    } else {
      assert (feedback + [last])[..|feedback|] == feedback;
    }
  }

  lemma {:induction false} AgreedCount(
    adapter: map<string, U64>, tables: seq<TableRows>, i: nat, feedback: seq<Feedback>)
    requires Distinct(tables) && i < |tables| && tables[i].name in adapter && Agree(feedback, tables[i])
    ensures forall fb :: fb in feedback && Prescribes(fb, tables[i]) ==>
      CorrectAll(adapter, tables, feedback)[tables[i].name] == Prescribed(fb, tables[i])
    ensures (forall fb :: fb in feedback ==> !Prescribes(fb, tables[i])) ==>
      CorrectAll(adapter, tables, feedback)[tables[i].name] == adapter[tables[i].name]
    decreases |feedback|
  {
    hide Prescribes, Distinct, CorrectTables, Usable;
    if feedback != [] {
      var n := |feedback| - 1;
      var before, last := feedback[..n], feedback[n];
      assert feedback == before + [last];
      assert forall fb :: fb in before ==> fb in feedback;
      AgreedCount(adapter, tables, i, before);
      CountAfterLast(adapter, tables, i, before, last);
    }
  }

  /** Some order of the feedback ends in any of its members. */
  lemma MovedLast(feedback: seq<Feedback>, a: Feedback) returns (before: seq<Feedback>)
    requires a in feedback
    ensures multiset(before + [a]) == multiset(feedback)
  {
    var k :| 0 <= k < |feedback| && feedback[k] == a;
    before := feedback[..k] + feedback[k + 1..];
    assert feedback == feedback[..k] + [a] + feedback[k + 1..];
  }

  /** The order of feedback leaves a table's count alone exactly when all feedback that corrects the table
      prescribes the same count. */
  lemma OrderFreeExactly(adapter: map<string, U64>, tables: seq<TableRows>, i: nat, feedback: seq<Feedback>)
    requires Distinct(tables) && i < |tables| && tables[i].name in adapter
    ensures OrderFree(adapter, tables, feedback, tables[i].name) <==> Agree(feedback, tables[i])
  {
    hide Prescribes, Distinct, CorrectAll;
    var table := tables[i];
    if Agree(feedback, table) {
      AgreedCount(adapter, tables, i, feedback);
      forall order: seq<Feedback> | multiset(order) == multiset(feedback)
        ensures CorrectAll(adapter, tables, order)[table.name] == CorrectAll(adapter, tables, feedback)[table.name]
      {
        SameMembers(order, feedback);
        AgreedCount(adapter, tables, i, order);
      }
    }
    if OrderFree(adapter, tables, feedback, table.name) {
      forall a, b | a in feedback && b in feedback && Prescribes(a, table) && Prescribes(b, table)
        ensures Prescribed(a, table) == Prescribed(b, table)
      {
        var x := MovedLast(feedback, a);
        var y := MovedLast(feedback, b);
        CountAfterLast(adapter, tables, i, x, a);
        CountAfterLast(adapter, tables, i, y, b);
      }
    }
  }

  lemma SameMembers(a: seq<Feedback>, b: seq<Feedback>)
    requires multiset(a) == multiset(b)
    ensures forall fb :: fb in a <==> fb in b
  {
    forall fb ensures fb in a <==> fb in b {
      assert fb in a <==> fb in multiset(a);
      assert fb in b <==> fb in multiset(b);
    }
  }
}
