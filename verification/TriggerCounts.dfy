/** When the triggers fire and what they report, told from the counts that were observed. */
module TriggerCounts {
  import opened RealFacts
  import opened RuntimeStats
  import opened Triggers

  // ---------- rows ----------

  /** A quotient against a limit, without the division. */
  lemma QuotientAbove(x: real, y: real, limit: real)
    requires y != 0.0
    ensures x / y > limit <==> if y > 0.0 then x > limit * y else x < limit * y
    ensures (x / y) * y == x
  {
    var q := x / y;
    assert q * y == x;
    if y > 0.0 {
      ProductOrder(limit, q, y);
    } else {
      ProductOrder(limit, q, -y);
      assert limit * -y == -(limit * y) && q * -y == -(q * y);
    }
  }

  lemma Regroup(p: real, x: real, q: real, y: real, pq: real)
    requires x == q * y && pq == p * q
    ensures p * x == pq * y
  {
    assert p * (q * y) == (p * q) * y;
  }

  lemma Inverse(p: real, q: real, x: real, y: real)
    requires y > 0.0 && q * y == x && p * x == y
    ensures p * q == 1.0
  {
    Regroup(p, x, q, y, p * q);
    QuotientIs(y, y, p * q);
  }

  lemma PositiveQuotient(x: real, y: real)
    requires x >= 0.0 && y != 0.0
    ensures x / y > 0.0 <==> x > 0.0 && y > 0.0
    ensures x > 0.0 && y > 0.0 ==> 1.0 / (x / y) == y / x
  {
    var q := x / y;
    assert q * y == x;
    QuotientAbove(x, y, 0.0);
    if x > 0.0 && y > 0.0 {
      QuotientFacts(x, y);
      Inverse(y / x, q, x, y);
      QuotientIs(1.0, q, y / x);
    }
  }

  /** With enough rows and an estimate that is not zero, an underestimate is reported exactly for more rows than the
      ratio times the estimate, and an overestimate exactly for some rows and an estimate of more than the ratio times
      them; what is reported is the one count over the other. */
  lemma CardinalityFromCounts(config: TriggerConfig, node: NodeId, stats: OperatorStats, e: TriggerEvent)
    requires e in CardinalityEvents(config, node, stats)
    ensures e.nodeId == node && stats.actualRows >= config.minRowsForCardinality
    ensures match e.kind {
      case CardinalityUnderestimate =>
        && e.threshold == config.cardinalityOvercountRatio
        && e.deviation * stats.estimatedRows == stats.actualRows as real
      case CardinalityOverestimate =>
        && e.threshold == config.cardinalityUndercountRatio
        && e.deviation * stats.actualRows as real == stats.estimatedRows
      case _ => false
    }
  {
    PositiveQuotient(stats.actualRows as real, stats.estimatedRows);
  }

  ghost predicate Reports(events: seq<TriggerEvent>, kind: TriggerKind) {
    exists e :: e in events && e.kind == kind
  }

  lemma CardinalityExactly(config: TriggerConfig, node: NodeId, stats: OperatorStats)
    ensures var rows, estimate := stats.actualRows as real, stats.estimatedRows;
      var events := CardinalityEvents(config, node, stats);
      var judged := stats.actualRows >= config.minRowsForCardinality && Abs(estimate) >= F64_EPSILON;
      && (Reports(events, CardinalityUnderestimate) <==>
          && judged
          && if estimate > 0.0 then rows > config.cardinalityOvercountRatio * estimate
             else rows < config.cardinalityOvercountRatio * estimate)
      && (Reports(events, CardinalityOverestimate) <==>
          judged && estimate > 0.0 && rows > 0.0 && estimate > config.cardinalityUndercountRatio * rows)
  {
    var rows, estimate := stats.actualRows as real, stats.estimatedRows;
    if stats.actualRows >= config.minRowsForCardinality && Abs(estimate) >= F64_EPSILON {
      var ratio := rows / estimate;
      QuotientAbove(rows, estimate, config.cardinalityOvercountRatio);
      PositiveQuotient(rows, estimate);
      if rows > 0.0 {
        QuotientAbove(estimate, rows, config.cardinalityUndercountRatio);
      }
      var under := TriggerEvent(node, CardinalityUnderestimate, ratio, config.cardinalityOvercountRatio);
      assert ratio > config.cardinalityOvercountRatio ==> under in CardinalityEvents(config, node, stats);
      if ratio > 0.0 {
        var over := TriggerEvent(node, CardinalityOverestimate, 1.0 / ratio, config.cardinalityUndercountRatio);
        assert 1.0 / ratio > config.cardinalityUndercountRatio ==> over in CardinalityEvents(config, node, stats);
      }
    }
  }

  // ---------- memory ----------

  /** Eight bytes for each estimated row, in whole bytes, at most the largest count. */
  predicate IsBudget(estimate: real, budget: U64) {
    var bytes := 8.0 * estimate;
    if bytes < 1.0 then budget == 0
    else if bytes >= MAX_U64 as real then budget == MAX_U64
    else budget as real <= bytes < budget as real + 1.0
  }

  /** Memory pressure is reported exactly when the peak exceeds the ratio times a budget that is not zero, and what is
      reported is the peak over the budget. */
  lemma MemoryFromCounts(config: TriggerConfig, node: NodeId, stats: OperatorStats, budget: U64)
    requires IsBudget(stats.estimatedRows, budget)
    ensures var events := MemoryEvents(config, node, stats);
      && (events != [] <==> budget > 0 && stats.peakMemoryBytes as real > config.memoryRatio * budget as real)
      && |events| <= 1
      && forall e :: e in events ==>
           && e.nodeId == node && e.kind == MemoryPressure && e.threshold == config.memoryRatio
           && e.deviation * budget as real == stats.peakMemoryBytes as real
  {
    if budget > 0 {
      assert budget == CastU64(stats.estimatedRows * 8.0);
      QuotientAbove(stats.peakMemoryBytes as real, budget as real, config.memoryRatio);
    }
  }

  // ---------- skew ----------

  /** One value makes up more than the fraction of a column that is not empty. */
  predicate Skewed(s: ColumnSketch, fraction: real) {
    s.mostFrequent.Some? && s.totalCount > 0 && s.mostFrequent.value.1 as real > fraction * s.totalCount as real
  }

  lemma SkewOfOne(s: ColumnSketch, fraction: real)
    ensures s.IsSkewed(fraction) <==> Skewed(s, fraction)
  {
    if s.mostFrequent.Some? && s.totalCount > 0 {
      QuotientAbove(s.mostFrequent.value.1 as real, s.totalCount as real, fraction);
    }
  }

  lemma ShareIs(s: ColumnSketch, fraction: real)
    requires Skewed(s, fraction)
    ensures var (total, most) := (s.totalCount as real, s.mostFrequent.value.1 as real); (most / total) * total == most
  {
    QuotientAbove(s.mostFrequent.value.1 as real, s.totalCount as real, fraction);
  }

  /** Skew is reported exactly when some column is skewed. */
  lemma SkewExactly(config: TriggerConfig, node: NodeId, sketches: seq<ColumnSketch>)
    ensures |SkewEvents(config, node, sketches)| <= 1
    ensures SkewEvents(config, node, sketches) != [] <==> exists s :: s in sketches && Skewed(s, config.skewFraction)
  {
    hide Skewed, SkewEvents;
    SkewEventsSound(config, node, sketches);
    forall s: ColumnSketch ensures s.IsSkewed(config.skewFraction) <==> Skewed(s, config.skewFraction) {
      SkewOfOne(s, config.skewFraction);
    }
  }

  /** What is reported is the share of the most frequent value of the first skewed column. */
  lemma {:induction false} SkewFromCounts(config: TriggerConfig, node: NodeId, sketches: seq<ColumnSketch>, i: nat)
    requires i < |sketches| && Skewed(sketches[i], config.skewFraction)
    requires forall j :: 0 <= j < i ==> !Skewed(sketches[j], config.skewFraction)
    ensures var events := SkewEvents(config, node, sketches);
      && |events| == 1 && events[0].nodeId == node && events[0].kind == SkewDetected
      && events[0].threshold == config.skewFraction
      && events[0].deviation * sketches[i].totalCount as real == sketches[i].mostFrequent.value.1 as real
    decreases i
  {
    SkewOfOne(sketches[0], config.skewFraction);
    if i == 0 {
      ShareIs(sketches[0], config.skewFraction);
    } else {
      SkewFromCounts(config, node, sketches[1..], i - 1);
    }
  }
}
