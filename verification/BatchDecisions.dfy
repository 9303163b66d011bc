/** What each batch decides, marks and leaves in the statistics, told from what its timeline showed. */
module BatchDecisions {
  import opened Options
  import opened RuntimeStats
  import opened QError
  import opened BatchSpec
  import opened BatchRuns

  // ---------- decisions ----------

  function ReoptimizedBefore(history: seq<Record>, i: nat): set<nat>
    requires i <= |history|
  {
    set j: nat | j < i && history[j].reoptimized
  }

  ghost predicate FarOff(feedback: seq<Feedback>, threshold: real) {
    if feedback == [] then 1.0 > threshold else exists f :: f in feedback && f.qError > threshold
  }

  /** Record `i` is the one that its batch calls for, given what the batch observed. */
  ghost predicate Tells(cfg: Config, history: seq<Record>, i: nat, o: Observation)
    requires i < |history|
  {
    var r, threshold := history[i], cfg.reoptimizeThreshold;
    && r.confidenceBefore == o.confidenceBefore && r.confidenceAfter == o.confidenceAfter
    && (r.reoptimized <==>
        && |ReoptimizedBefore(history, i)| < cfg.maxReoptimizations
        && (FarOff(o.feedback, threshold) || o.confidenceAfter < cfg.minConfidence))
    && |r.feedback| == |o.feedback|
    && (forall f :: 0 <= f < |o.feedback| ==>
          r.feedback[f]
          == o.feedback[f].(
               triggered := o.feedback[f].triggered || (r.reoptimized && o.feedback[f].qError > threshold)))
    && (if o.feedback == [] then r.avgQError == 1.0
        else r.avgQError * |o.feedback| as real == Sum(QErrors(o.feedback)))
  }

  lemma {:induction false} CountIsSize(history: seq<Record>, i: nat)
    requires i <= |history|
    ensures CountReoptimized(history[..i]) == |ReoptimizedBefore(history, i)|
  {
    if i == 0 {
      assert ReoptimizedBefore(history, 0) == {};
    } else {
      CountIsSize(history, i - 1);
      assert history[..i][..i - 1] == history[..i - 1];
      var n := i - 1;
      var before := ReoptimizedBefore(history, n);
      assert ReoptimizedBefore(history, i) == if history[n].reoptimized then before + {n} else before;
    }
  }

  lemma LargestDecides(feedback: seq<Feedback>, threshold: real)
    ensures Summary(QErrors(feedback)).1 > threshold <==> FarOff(feedback, threshold)
  {
    var qs := QErrors(feedback);
    if feedback != [] {
      var m := Largest(qs);
      var k :| 0 <= k < |qs| && qs[k] == m;
      assert feedback[k] in feedback && feedback[k].qError == m;
      if f :| f in feedback && f.qError > threshold {
        var j :| 0 <= j < |feedback| && feedback[j] == f;
        assert qs[j] == f.qError;
      }
    }
  }

  lemma AverageIs(feedback: seq<Feedback>)
    ensures var average := Summary(QErrors(feedback)).0;
      if feedback == [] then average == 1.0 else average * |feedback| as real == Sum(QErrors(feedback))
  {
    if feedback != [] {
      RatioTimes(Sum(QErrors(feedback)), |feedback| as real);
    }
  }

  lemma RatioTimes(x: real, n: real)
    requires n > 0.0
    ensures (x / n) * n == x
  {
  }

  lemma Marks(cfg: Config, feedback: seq<Feedback>, reoptimized: bool, f: nat)
    requires f < |feedback|
    ensures Marked(cfg, feedback, reoptimized)[f]
         == feedback[f].(
              triggered := feedback[f].triggered || (reoptimized && feedback[f].qError > cfg.reoptimizeThreshold))
  {
  }

  lemma NewRecordTells(cfg: Config, s: State, k: nat, start: nat, end: nat, o: Observation)
    requires s.reoptimizations == CountReoptimized(s.history)
    ensures Tells(cfg, AfterBatch(cfg, s, k, start, end, o).history, |s.history|, o)
  {
    hide Summary, Load, AddNames, ApplyFeedback, Marked, FarOff, ReoptimizedBefore, QErrors, Sum;
    var history := AfterBatch(cfg, s, k, start, end, o).history;
    assert history[..|s.history|] == s.history;
    CountIsSize(history, |s.history|);
    LargestDecides(o.feedback, cfg.reoptimizeThreshold);
    AverageIs(o.feedback);
    var r := history[|s.history|];
    forall f | 0 <= f < |o.feedback|
      ensures r.feedback[f]
           == o.feedback[f].(
                triggered := o.feedback[f].triggered
                             || (r.reoptimized && o.feedback[f].qError > cfg.reoptimizeThreshold))
    {
      Marks(cfg, o.feedback, r.reoptimized, f);
    }
  }

  lemma TellsInLonger(cfg: Config, history: seq<Record>, longer: seq<Record>, i: nat, o: Observation)
    requires history <= longer && i < |history| && Tells(cfg, history, i, o)
    ensures Tells(cfg, longer, i, o)
  {
    hide FarOff, Sum, QErrors;
    assert ReoptimizedBefore(longer, i) == ReoptimizedBefore(history, i);
  }

  /** What each batch of a history observed. */
  ghost predicate AllTold(cfg: Config, history: seq<Record>, seen: seq<Observation>) {
    |seen| == |history| && forall i :: 0 <= i < |history| ==> Tells(cfg, history, i, seen[i])
  }

  lemma AllToldSnoc(cfg: Config, s: State, seen: seq<Observation>, k: nat, start: nat, end: nat, o: Observation)
    requires s.reoptimizations == CountReoptimized(s.history) && AllTold(cfg, s.history, seen)
    ensures AllTold(cfg, AfterBatch(cfg, s, k, start, end, o).history, seen + [o])
  {
    hide Tells, BatchRecord, ApplyFeedback;
    var longer := AfterBatch(cfg, s, k, start, end, o).history;
    NewRecordTells(cfg, s, k, start, end, o);
    forall i | 0 <= i < |longer| ensures Tells(cfg, longer, i, (seen + [o])[i]) {
      if i < |s.history| {
        TellsInLonger(cfg, s.history, longer, i, seen[i]);
      }
    }
  }

  /** The batches that a run has added observed what its timeline shows for their ranges. */
  ghost predicate FromTimeline(timeline: Timeline, history: seq<Record>, seen: seq<Observation>, from: nat)
    requires |seen| == |history|
  {
    forall i :: from <= i < |history| ==>
      timeline(history[i].batchIndex, history[i].start, history[i].end) == Some(seen[i])
  }

  lemma {:induction false} RunTells(
    cfg: Config, s: State, timeline: Timeline, total: nat, start: nat, k: nat, seen: seq<Observation>)
    returns (all: seq<Observation>)
    requires cfg.batchSize > 0 && start <= total && Accounted(cfg, s) && AllTold(cfg, s.history, seen)
    ensures var r := RunFrom(cfg, s, timeline, total, start, k).0;
      AllTold(cfg, r.history, all) && seen <= all && s.history <= r.history
      && FromTimeline(timeline, r.history, all, |seen|)
    decreases total - start
  {
    hide AfterBatch, AllTold, Accounted;
    ToldLength(cfg, s.history, seen);
    all := seen;
    if start < total {
      var end := BatchEnd(cfg, total, start);
      var shown := timeline(k, start, end);
      if shown.Some? {
        var o := shown.value;
        var next := AfterBatch(cfg, s, k, start, end, o);
        IsCounted(cfg, s);
        AfterBatchAccounted(cfg, s, k, start, end, o);
        AllToldSnoc(cfg, s, seen, k, start, end, o);
        AddsRecord(cfg, s, k, start, end, o);
        all := RunTells(cfg, next, timeline, total, end, k + 1, seen + [o]);
        var r := RunFrom(cfg, next, timeline, total, end, k + 1).0;
        ToldLength(cfg, r.history, all);
        assert r.history[|seen|] == next.history[|seen|] && all[|seen|] == (seen + [o])[|seen|];
      }
    }
  }

  lemma ToldLength(cfg: Config, history: seq<Record>, seen: seq<Observation>)
    requires AllTold(cfg, history, seen)
    ensures |seen| == |history|
  {
  }

  lemma IsCounted(cfg: Config, s: State)
    requires Accounted(cfg, s)
    ensures s.reoptimizations == CountReoptimized(s.history)
  {
  }

  lemma AddsRecord(cfg: Config, s: State, k: nat, start: nat, end: nat, o: Observation)
    ensures var next := AfterBatch(cfg, s, k, start, end, o);
      && |next.history| == |s.history| + 1 && s.history <= next.history
      && var r := next.history[|s.history|]; r.batchIndex == k && r.start == start && r.end == end
  {
  }

  /**
   * Every record of every history tells what its batch observed: it is reoptimized exactly if fewer than the
   * allowed number of records before it are, and an operator's error is above the threshold or the confidence below
   * the minimum; and then it marks exactly the operators above the threshold.
   */
  lemma {:induction false} EveryRecordTells(cfg: Config, commands: seq<Command>) returns (seen: seq<Observation>)
    requires cfg.batchSize > 0
    ensures AllTold(cfg, ObeyAll(cfg, commands).history, seen)
    decreases |commands|
  {
    seen := [];
    if commands != [] {
      hide RunFrom, Tells, Accounted;
      var before := commands[..|commands| - 1];
      var told := EveryRecordTells(cfg, before);
      EveryHistoryIsAccounted(cfg, before);
      match commands[|commands| - 1] {
        case RunOn(timeline, total) => seen := RunTells(cfg, ObeyAll(cfg, before), timeline, total, 0, 0, told);
        case ResetAll =>
      }
    }
  }

  /** The observations are the timeline's. */
  lemma NewRecordsTell(cfg: Config, commands: seq<Command>, timeline: Timeline, total: nat)
    requires cfg.batchSize > 0
    ensures var s := ObeyAll(cfg, commands);
      var r := RunFrom(cfg, s, timeline, total, 0, 0).0;
      && s.history <= r.history
      && forall i :: |s.history| <= i < |r.history| ==>
           var shown := timeline(r.history[i].batchIndex, r.history[i].start, r.history[i].end);
           shown.Some? && Tells(cfg, r.history, i, shown.value)
  {
    hide RunFrom, Tells, Accounted, ObeyAll;
    var told := EveryRecordTells(cfg, commands);
    EveryHistoryIsAccounted(cfg, commands);
    var all := RunTells(cfg, ObeyAll(cfg, commands), timeline, total, 0, 0, told);
  }

  // ---------- what a batch leaves in the statistics ----------

  lemma {:induction false} LoadElsewhere(adapter: map<string, U64>, tables: seq<TableRows>, name: string)
    requires !Names(tables, name)
    ensures name in Load(adapter, tables) <==> name in adapter
    ensures name in adapter ==> Load(adapter, tables)[name] == adapter[name]
    decreases |tables|
  {
    hide Names;
    if tables != [] {
      NamesSnoc(tables, name);
      LoadElsewhere(adapter, tables[..|tables| - 1], name);
    }
  }

  lemma {:induction false} LoadAt(adapter: map<string, U64>, tables: seq<TableRows>, i: nat)
    requires Distinct(tables) && i < |tables|
    ensures tables[i].name in Load(adapter, tables) && Load(adapter, tables)[tables[i].name] == tables[i].rows
    decreases |tables|
  {
    var n := |tables| - 1;
    if i < n {
      LoadAt(adapter, tables[..n], i);
      assert tables[i].name != tables[n].name;
    }
  }

  /** The names are those of all tables seen, each listed once. */
  lemma {:induction false} NamesAfter(names: seq<string>, tables: seq<TableRows>)
    requires multiset(names) == multiset(set name | name in names)
    ensures var r := AddNames(names, tables);
      && multiset(r) == multiset(set name | name in r) && names <= r
      && forall name :: name in r <==> name in names || Names(tables, name)
    decreases |tables|
  {
    hide Names;
    if tables == [] {
      forall name: string ensures !Names([], name) {
        NoNames(name);
      }
    } else {
      var n := |tables| - 1;
      var before := AddNames(names, tables[..n]);
      NamesAfter(names, tables[..n]);
      forall name ensures Names(tables, name) <==> Names(tables[..n], name) || tables[n].name == name {
        NamesSnoc(tables, name);
      }
      if tables[n].name !in before {
        var r := before + [tables[n].name];
        assert (set name | name in r) == (set name | name in before) + {tables[n].name};
      }
    }
  }

  /**
   * After a batch every table of the snapshot has the count it has there, unless statistics are updated
   * incrementally and some operator's feedback corrects it: then it has the count that the last one prescribes. All
   * other tables keep theirs.
   */
  lemma CountsAfterBatch(cfg: Config, s: State, k: nat, start: nat, end: nat, o: Observation, name: string)
    requires Distinct(o.tables)
    ensures var r := AfterBatch(cfg, s, k, start, end, o).adapter;
      && (name in r <==> name in s.adapter || Names(o.tables, name))
      && (name in r && !Names(o.tables, name) ==> r[name] == s.adapter[name])
      && forall i :: 0 <= i < |o.tables| && o.tables[i].name == name ==>
           r[name] == (if cfg.mode.IncrementalStats? then LastPrescribed(o.feedback, o.tables[i]) else o.tables[i].rows)
  {
    hide Load, CorrectAll, BatchRecord, LastPrescribed, Distinct;
    var loaded := Load(s.adapter, o.tables);
    if !Names(o.tables, name) {
      LoadElsewhere(s.adapter, o.tables, name);
      LoadElsewhere(loaded, o.tables, name);
      CorrectAllElsewhere(loaded, o.tables, o.feedback, name);
    } else {
      forall i | 0 <= i < |o.tables| && o.tables[i].name == name
        ensures var r := AfterBatch(cfg, s, k, start, end, o).adapter;
          name in r && r[name]
          == if cfg.mode.IncrementalStats? then LastPrescribed(o.feedback, o.tables[i]) else o.tables[i].rows
      {
        LoadAt(s.adapter, o.tables, i);
        LoadAt(loaded, o.tables, i);
        LastPrescribes(loaded, o.tables, i, o.feedback);
      }
    }
  }

  /** The count that the last matching operator prescribes; the snapshot's if there is none. */
  function LastPrescribed(feedback: seq<Feedback>, table: TableRows): U64 {
    if feedback == [] then table.rows
    else
      var n := |feedback| - 1;
      if Prescribes(feedback[n], table) then Prescribed(feedback[n], table)
      else LastPrescribed(feedback[..n], table)
  }

  lemma {:induction false} LastPrescribes(
    adapter: map<string, U64>, tables: seq<TableRows>, i: nat, feedback: seq<Feedback>)
    requires Distinct(tables) && i < |tables| && tables[i].name in adapter
    requires adapter[tables[i].name] == tables[i].rows
    ensures CorrectAll(adapter, tables, feedback)[tables[i].name] == LastPrescribed(feedback, tables[i])
    decreases |feedback|
  {
    hide Prescribes, Prescribed, Distinct, CorrectTables, Usable;
    if feedback != [] {
      var n := |feedback| - 1;
      LastPrescribes(adapter, tables, i, feedback[..n]);
      CountAfterLast(adapter, tables, i, feedback[..n], feedback[n]);
      assert feedback == feedback[..n] + [feedback[n]];
    }
  }
}
