/** Relational plans and their bag semantics. */
module RelAlgebra {

  // Only the shapes that plan switching looks at are told apart. A `Scan` stands for any input whose rows the
  // database supplies, so it also stands for subplans built from operators that are not listed here. Expressions
  // are opaque: a plan is evaluated under an arbitrary `holds`, which says when a condition is true of a row.

  datatype JoinType = Inner | LeftOuter | RightOuter | FullOuter | Cross | Semi | Anti

  datatype Expr = Expr(text: string)

  datatype RelExpr =
    | Scan(table: string)
    | Filter(pred: Expr, input: RelExpr)
    | Join(joinType: JoinType, condition: Expr, left: RelExpr, right: RelExpr)

  datatype Value = Null | Known(v: int)

  /** Rows name their columns, so the order of columns carries no meaning. */
  type Row = map<string, Value>
  type Condition = (Expr, Row) -> bool

  datatype Table = Table(columns: set<string>, rows: seq<Row>)
  type Database = map<string, Table>

  ghost predicate RowsOver(rows: seq<Row>, columns: set<string>) {
    forall i :: 0 <= i < |rows| ==> rows[i].Keys == columns
  }

  ghost predicate ValidDatabase(db: Database) {
    forall t :: t in db ==> RowsOver(db[t].rows, db[t].columns)
  }

  function Columns(plan: RelExpr, db: Database): set<string> {
    match plan
    case Scan(t) => if t in db then db[t].columns else {}
    case Filter(_, input) => Columns(input, db)
    case Join(jt, _, left, right) =>
      if jt.Semi? || jt.Anti? then Columns(left, db) else Columns(left, db) + Columns(right, db)
  }

  /** Every scan names a table, and the two inputs of every join have different column names. */
  predicate WellFormed(plan: RelExpr, db: Database) {
    match plan
    case Scan(t) => t in db
    case Filter(_, input) => WellFormed(input, db)
    case Join(_, _, left, right) =>
      WellFormed(left, db) && WellFormed(right, db) && Columns(left, db) !! Columns(right, db)
  }

  function NullRow(columns: set<string>): Row {
    map c | c in columns :: Null
  }

  /** A join condition, which a cross join ignores. */
  predicate Joins(jt: JoinType, cond: Expr, holds: Condition, l: Row, r: Row) {
    jt.Cross? || holds(cond, l + r)
  }

  predicate HasRightMatch(jt: JoinType, cond: Expr, holds: Condition, l: Row, right: seq<Row>) {
    exists j :: 0 <= j < |right| && Joins(jt, cond, holds, l, right[j])
  }

  predicate HasLeftMatch(jt: JoinType, cond: Expr, holds: Condition, left: seq<Row>, r: Row) {
    exists i :: 0 <= i < |left| && Joins(jt, cond, holds, left[i], r)
  }

  /** The joined rows of one left row. */
  function MatchesOf(jt: JoinType, cond: Expr, holds: Condition, l: Row, right: seq<Row>): seq<Row> {
    if right == [] then [] else
      (if Joins(jt, cond, holds, l, right[0]) then [l + right[0]] else [])
      + MatchesOf(jt, cond, holds, l, right[1..])
  }

  function Pairs(jt: JoinType, cond: Expr, holds: Condition, left: seq<Row>, right: seq<Row>): seq<Row> {
    if left == [] then [] else
      MatchesOf(jt, cond, holds, left[0], right) + Pairs(jt, cond, holds, left[1..], right)
  }

  /** The left rows that match some right row (`matched`) or none (`!matched`), each extended with `pad`. */
  function LeftRows(jt: JoinType, cond: Expr, holds: Condition,
                    left: seq<Row>, right: seq<Row>, matched: bool, pad: Row): seq<Row> {
    if left == [] then [] else
      (if HasRightMatch(jt, cond, holds, left[0], right) == matched then [left[0] + pad] else [])
      + LeftRows(jt, cond, holds, left[1..], right, matched, pad)
  }

  /** The right rows that match no left row, each extended on the left with `pad`. */
  function RightUnmatched(jt: JoinType, cond: Expr, holds: Condition,
                          left: seq<Row>, right: seq<Row>, pad: Row): seq<Row> {
    if right == [] then [] else
      (if HasLeftMatch(jt, cond, holds, left, right[0]) then [] else [pad + right[0]])
      + RightUnmatched(jt, cond, holds, left, right[1..], pad)
  }

  function JoinRows(jt: JoinType, cond: Expr, holds: Condition,
                    left: seq<Row>, leftCols: set<string>, right: seq<Row>, rightCols: set<string>): seq<Row> {
    match jt
    case Inner | Cross => Pairs(jt, cond, holds, left, right)
    case LeftOuter =>
      Pairs(jt, cond, holds, left, right) + LeftRows(jt, cond, holds, left, right, false, NullRow(rightCols))
    case RightOuter =>
      Pairs(jt, cond, holds, left, right) + RightUnmatched(jt, cond, holds, left, right, NullRow(leftCols))
    case FullOuter =>
      Pairs(jt, cond, holds, left, right)
      + LeftRows(jt, cond, holds, left, right, false, NullRow(rightCols))
      + RightUnmatched(jt, cond, holds, left, right, NullRow(leftCols))
    case Semi => LeftRows(jt, cond, holds, left, right, true, map[])
    case Anti => LeftRows(jt, cond, holds, left, right, false, map[])
  }

  function FilterRows(cond: Expr, holds: Condition, rows: seq<Row>): seq<Row> {
    if rows == [] then [] else
      (if holds(cond, rows[0]) then [rows[0]] else []) + FilterRows(cond, holds, rows[1..])
  }

  function Eval(plan: RelExpr, db: Database, holds: Condition): seq<Row> {
    match plan
    case Scan(t) => if t in db then db[t].rows else []
    case Filter(p, input) => FilterRows(p, holds, Eval(input, db, holds))
    case Join(jt, c, left, right) =>
      JoinRows(jt, c, holds, Eval(left, db, holds), Columns(left, db), Eval(right, db, holds), Columns(right, db))
  }

  /** The bag of rows a plan returns: what the query means, since SQL results carry no order. */
  ghost function Meaning(plan: RelExpr, db: Database, holds: Condition): multiset<Row> {
    multiset(Eval(plan, db, holds))
  }

  // ---------- every row of a plan has exactly the plan's columns ----------

  lemma {:induction false} MatchesOfColumns(jt: JoinType, cond: Expr, holds: Condition, l: Row, right: seq<Row>,
                                            lc: set<string>, rc: set<string>)
    requires l.Keys == lc && RowsOver(right, rc)
    ensures RowsOver(MatchesOf(jt, cond, holds, l, right), lc + rc)
  {
    if right != [] {
      MatchesOfColumns(jt, cond, holds, l, right[1..], lc, rc);
    }
  }

  lemma {:induction false} PairsColumns(jt: JoinType, cond: Expr, holds: Condition, left: seq<Row>, right: seq<Row>,
                                        lc: set<string>, rc: set<string>)
    requires RowsOver(left, lc) && RowsOver(right, rc)
    ensures RowsOver(Pairs(jt, cond, holds, left, right), lc + rc)
  {
    if left != [] {
      MatchesOfColumns(jt, cond, holds, left[0], right, lc, rc);
      PairsColumns(jt, cond, holds, left[1..], right, lc, rc);
    }
  }

  lemma {:induction false} LeftRowsColumns(jt: JoinType, cond: Expr, holds: Condition, left: seq<Row>, right: seq<Row>,
                                           matched: bool, pad: Row, lc: set<string>)
    requires RowsOver(left, lc)
    ensures RowsOver(LeftRows(jt, cond, holds, left, right, matched, pad), lc + pad.Keys)
  {
    if left != [] {
      LeftRowsColumns(jt, cond, holds, left[1..], right, matched, pad, lc);
    }
  }

  lemma {:induction false} RightUnmatchedColumns(jt: JoinType, cond: Expr, holds: Condition,
                                                 left: seq<Row>, right: seq<Row>, pad: Row, rc: set<string>)
    requires RowsOver(right, rc)
    ensures RowsOver(RightUnmatched(jt, cond, holds, left, right, pad), pad.Keys + rc)
  {
    if right != [] {
      RightUnmatchedColumns(jt, cond, holds, left, right[1..], pad, rc);
    }
  }

  lemma {:induction false} FilterRowsColumns(cond: Expr, holds: Condition, rows: seq<Row>, columns: set<string>)
    requires RowsOver(rows, columns)
    ensures RowsOver(FilterRows(cond, holds, rows), columns)
  {
    if rows != [] {
      FilterRowsColumns(cond, holds, rows[1..], columns);
    }
  }

  lemma OverBoth(a: seq<Row>, b: seq<Row>, columns: set<string>)
    requires RowsOver(a, columns) && RowsOver(b, columns)
    ensures RowsOver(a + b, columns)
  {
  }

  lemma JoinColumns(jt: JoinType, cond: Expr, holds: Condition,
                    left: seq<Row>, lc: set<string>, right: seq<Row>, rc: set<string>)
    requires RowsOver(left, lc) && RowsOver(right, rc)
    ensures RowsOver(JoinRows(jt, cond, holds, left, lc, right, rc), if jt.Semi? || jt.Anti? then lc else lc + rc)
  {
    hide RowsOver, Pairs, LeftRows, RightUnmatched;
    var pairs := Pairs(jt, cond, holds, left, right);
    var lefts := LeftRows(jt, cond, holds, left, right, false, NullRow(rc));
    var rights := RightUnmatched(jt, cond, holds, left, right, NullRow(lc));
    PairsColumns(jt, cond, holds, left, right, lc, rc);
    LeftRowsColumns(jt, cond, holds, left, right, false, NullRow(rc), lc);
    RightUnmatchedColumns(jt, cond, holds, left, right, NullRow(lc), rc);
    assert NullRow(lc).Keys == lc && NullRow(rc).Keys == rc;
    OverBoth(pairs, lefts, lc + rc);
    OverBoth(pairs, rights, lc + rc);
    OverBoth(pairs + lefts, rights, lc + rc);
    LeftRowsColumns(jt, cond, holds, left, right, false, map[], lc);
    LeftRowsColumns(jt, cond, holds, left, right, true, map[], lc);
    NoPad(lc, map[]);
  }

  lemma NoPad(columns: set<string>, pad: Row)
    requires pad == map[]
    ensures columns + pad.Keys == columns
  {
  }

  lemma {:induction false} EvalColumns(plan: RelExpr, db: Database, holds: Condition)
    requires ValidDatabase(db) && WellFormed(plan, db)
    ensures RowsOver(Eval(plan, db, holds), Columns(plan, db))
  {
    hide RowsOver, JoinRows, FilterRows;
    match plan
    case Scan(t) =>
    case Filter(p, input) =>
      EvalColumns(input, db, holds);
      FilterRowsColumns(p, holds, Eval(input, db, holds), Columns(input, db));
    case Join(jt, c, left, right) =>
      EvalColumns(left, db, holds);
      EvalColumns(right, db, holds);
      JoinColumns(jt, c, holds, Eval(left, db, holds), Columns(left, db), Eval(right, db, holds), Columns(right, db));
  }
}
