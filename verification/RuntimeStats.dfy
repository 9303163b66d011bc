/** Statistics observed while a query runs: the optimizer's estimate and the rows counted so far. */
module RuntimeStats {
  import opened Options
  import opened RealFacts

  const MAX_U64: int := 0xFFFF_FFFF_FFFF_FFFF

  type U64 = x: int | 0 <= x <= MAX_U64
  type NodeId = U64

  /** The gap between 1.0 and the next 64-bit float. */
  const F64_EPSILON: real := 1.0 / 4503599627370496.0

  function SaturatingAdd(a: U64, b: U64): U64 {
    if a + b > MAX_U64 then MAX_U64 else a + b
  }

  /** A cast from a float to an unsigned integer: it truncates and clamps. */
  function CastU64(x: real): U64 {
    if x <= 0.0 then 0
    else if x.Floor > MAX_U64 then MAX_U64
    else x.Floor
  }

  datatype ColumnSketch = ColumnSketch(nullCount: U64, totalCount: U64, mostFrequent: Option<(string, U64)>) {
    predicate IsSkewed(threshold: real) {
      mostFrequent.Some? && totalCount != 0 && mostFrequent.value.1 as real / totalCount as real > threshold
    }
  }

  /** `columnSketches` lists the sketches in the order in which the hash map yields them. */
  datatype OperatorStats = OperatorStats(
    actualRows: U64, estimatedRows: real, peakMemoryBytes: U64, columnSketches: seq<ColumnSketch>)
  {
    function CardinalityRatio(): Option<real> {
      if Abs(estimatedRows) < F64_EPSILON then None else Some(actualRows as real / estimatedRows)
    }

    function RecordRows(count: U64): OperatorStats {
      this.(actualRows := SaturatingAdd(actualRows, count))
    }
  }

  function WithEstimate(estimatedRows: real): OperatorStats {
    OperatorStats(0, estimatedRows, 0, [])
  }

  type Operators = map<NodeId, OperatorStats>

  /** The rows counted for an operator, and zero for one that is not registered. */
  function ActualRows(operators: Operators, node: NodeId): U64 {
    if node in operators then operators[node].actualRows else 0
  }

  function RowsRecorded(operators: Operators, node: NodeId, count: U64): Operators {
    if node in operators then operators[node := operators[node].RecordRows(count)] else operators
  }

  class PlanStats {
    var operators: Operators

    constructor ()
      ensures operators == map[]
    {
      operators := map[];
    }

    method Register(node: NodeId, estimatedRows: real)
      modifies this
      ensures operators == old(operators)[node := WithEstimate(estimatedRows)]
    {
      operators := operators[node := WithEstimate(estimatedRows)];
    }

    method RecordRows(node: NodeId, count: U64) returns (known: bool)
      modifies this
      ensures known == (node in old(operators))
      ensures operators == RowsRecorded(old(operators), node, count)
    {
      known := node in operators;
      if known {
        operators := operators[node := operators[node].RecordRows(count)];
      }
    }

    method SetRows(node: NodeId, total: U64)
      modifies this
      ensures operators == if node in old(operators)
                           then old(operators)[node := old(operators)[node].(actualRows := total)]
                           else old(operators)
    {
      if node in operators {
        operators := operators[node := operators[node].(actualRows := total)];
      }
    }
  }

  /** Rows only ever accumulate: counting more rows never lowers the ratio of a positive estimate. */
  lemma RatioGrowsWithRows(s: OperatorStats, count: U64)
    requires s.estimatedRows > 0.0 && s.CardinalityRatio().Some?
    ensures s.RecordRows(count).CardinalityRatio().Some?
    ensures s.RecordRows(count).CardinalityRatio().value >= s.CardinalityRatio().value
  {
    var a, b, e := s.actualRows as real, s.RecordRows(count).actualRows as real, s.estimatedRows;
    assert b / e - a / e == (b - a) / e;
    assert (b - a) / e >= 0.0;
  }
}
