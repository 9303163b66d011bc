/** Swapping the inputs of a join keeps the meaning of the query, except for semi and anti joins. */
module JoinSwap {
  import opened RelAlgebra
  import opened PlanSwitch
  import opened Options

  ghost predicate Symmetric(jt: JoinType) {
    !jt.Semi? && !jt.Anti?
  }

  // ---------- the joined pairs, counted row by row from either side ----------

  /** The pairs that one right row forms with the rows on the left. */
  function PairsOfRight(jt: JoinType, cond: Expr, holds: Condition, left: seq<Row>, r: Row): seq<Row> {
    if left == [] then [] else
      (if Joins(jt, cond, holds, left[0], r) then [left[0] + r] else [])
      + PairsOfRight(jt, cond, holds, left[1..], r)
  }

  /** Peeling one right row off the double loop: the sum over the left rows splits in two. */
  lemma {:induction false} PairsPeelRight(jt: JoinType, cond: Expr, holds: Condition, left: seq<Row>, right: seq<Row>)
    requires right != []
    ensures multiset(Pairs(jt, cond, holds, left, right))
         == multiset(PairsOfRight(jt, cond, holds, left, right[0]))
          + multiset(Pairs(jt, cond, holds, left, right[1..]))
  {
    if left != [] {
      PairsPeelRight(jt, cond, holds, left[1..], right);
    }
  }

  lemma {:induction false} PairsOfRightIsMatches(jt: JoinType, cond: Expr, holds: Condition, left: seq<Row>, r: Row,
                                                 lc: set<string>, rc: set<string>)
    requires RowsOver(left, lc) && r.Keys == rc && lc !! rc
    ensures PairsOfRight(jt, cond, holds, left, r) == MatchesOf(SwappedType(jt), cond, holds, r, left)
  {
    if left != [] {
      assert left[0] + r == r + left[0];
      PairsOfRightIsMatches(jt, cond, holds, left[1..], r, lc, rc);
    }
  }

  lemma {:induction false} PairsExchange(jt: JoinType, cond: Expr, holds: Condition, left: seq<Row>, right: seq<Row>,
                                         lc: set<string>, rc: set<string>)
    requires RowsOver(left, lc) && RowsOver(right, rc) && lc !! rc
    ensures multiset(Pairs(jt, cond, holds, left, right))
         == multiset(Pairs(SwappedType(jt), cond, holds, right, left))
    decreases |right|
  {
    if right == [] {
      PairsOfNothing(jt, cond, holds, left);
    } else {
      PairsPeelRight(jt, cond, holds, left, right);
      PairsOfRightIsMatches(jt, cond, holds, left, right[0], lc, rc);
      PairsExchange(jt, cond, holds, left, right[1..], lc, rc);
    }
  }

  lemma {:induction false} PairsOfNothing(jt: JoinType, cond: Expr, holds: Condition, left: seq<Row>)
    ensures Pairs(jt, cond, holds, left, []) == []
  {
    if left != [] {
      PairsOfNothing(jt, cond, holds, left[1..]);
    }
  }

  // ---------- the padded rows of outer joins ----------

  lemma MatchesFromEitherSide(jt: JoinType, cond: Expr, holds: Condition, left: seq<Row>, r: Row,
                              lc: set<string>, rc: set<string>)
    requires RowsOver(left, lc) && r.Keys == rc && lc !! rc
    ensures HasLeftMatch(jt, cond, holds, left, r) == HasRightMatch(SwappedType(jt), cond, holds, r, left)
  {
    forall i | 0 <= i < |left|
      ensures Joins(jt, cond, holds, left[i], r) == Joins(SwappedType(jt), cond, holds, r, left[i])
    {
      assert left[i] + r == r + left[i];
    }
  }

  lemma {:induction false} UnmatchedExchange(jt: JoinType, cond: Expr, holds: Condition,
                                             left: seq<Row>, right: seq<Row>, lc: set<string>, rc: set<string>)
    requires RowsOver(left, lc) && RowsOver(right, rc) && lc !! rc
    ensures RightUnmatched(jt, cond, holds, left, right, NullRow(lc))
         == LeftRows(SwappedType(jt), cond, holds, right, left, false, NullRow(lc))
    decreases |right|
  {
    if right != [] {
      MatchesFromEitherSide(jt, cond, holds, left, right[0], lc, rc);
      assert NullRow(lc) + right[0] == right[0] + NullRow(lc);
      UnmatchedExchange(jt, cond, holds, left, right[1..], lc, rc);
    }
  }

  lemma JoinRowsExchange(jt: JoinType, cond: Expr, holds: Condition,
                         left: seq<Row>, lc: set<string>, right: seq<Row>, rc: set<string>)
    requires Symmetric(jt)
    requires RowsOver(left, lc) && RowsOver(right, rc) && lc !! rc
    ensures multiset(JoinRows(jt, cond, holds, left, lc, right, rc))
         == multiset(JoinRows(SwappedType(jt), cond, holds, right, rc, left, lc))
  {
    PairsExchange(jt, cond, holds, left, right, lc, rc);
    UnmatchedExchange(jt, cond, holds, left, right, lc, rc);
    UnmatchedExchange(SwappedType(jt), cond, holds, right, left, rc, lc);
    assert SwappedType(SwappedType(jt)) == jt;
  }

  // ---------- plans ----------

  /** Swapping is its own inverse. */
  lemma SwapTwice(plan: RelExpr)
    requires plan.Join?
    ensures SwapInputs(SwapInputs(plan).value) == Some(plan)
  {
  }

  /** For every join type but semi and anti, the swapped join returns the same bag of rows over every database and
      under every condition; it also stays well formed with the same columns. */
  lemma SwapKeepsMeaning(plan: RelExpr, db: Database, holds: Condition)
    requires plan.Join? && Symmetric(plan.joinType)
    requires ValidDatabase(db) && WellFormed(plan, db)
    ensures var swapped := SwapInputs(plan).value;
      && WellFormed(swapped, db)
      && Columns(swapped, db) == Columns(plan, db)
      && Meaning(swapped, db, holds) == Meaning(plan, db, holds)
  {
    EvalColumns(plan.left, db, holds);
    EvalColumns(plan.right, db, holds);
    JoinRowsExchange(plan.joinType, plan.condition, holds,
                     Eval(plan.left, db, holds), Columns(plan.left, db),
                     Eval(plan.right, db, holds), Columns(plan.right, db));
  }

  // ---------- semi and anti joins ----------

  lemma FirstInBoth(a: seq<Row>, b: seq<Row>)
    requires a != [] && multiset(a) == multiset(b)
    ensures a[0] in b
  {
    assert a[0] in multiset(a);
  }

  lemma SameBagSameColumns(a: seq<Row>, b: seq<Row>, ac: set<string>, bc: set<string>)
    requires RowsOver(a, ac) && RowsOver(b, bc) && multiset(a) == multiset(b) && ac != bc
    ensures a == [] && b == []
  {
    if a != [] {
      FirstInBoth(a, b);
      assert false;
    }
    assert |multiset(b)| == 0;
  }

  /** A semi or anti join keeps one side only, so its swap returns the same rows just when both return none. */
  lemma SemiAntiSwapKeepsOnlyEmptyResults(plan: RelExpr, db: Database, holds: Condition)
    requires plan.Join? && !Symmetric(plan.joinType)
    requires ValidDatabase(db) && WellFormed(plan, db) && Columns(plan, db) != {}
    ensures Meaning(SwapInputs(plan).value, db, holds) == Meaning(plan, db, holds) <==>
            Eval(plan, db, holds) == [] && Eval(SwapInputs(plan).value, db, holds) == []
  {
    var swapped := SwapInputs(plan).value;
    EvalColumns(plan, db, holds);
    EvalColumns(swapped, db, holds);
    var c :| c in Columns(plan, db);
    if Meaning(swapped, db, holds) == Meaning(plan, db, holds) {
      SameBagSameColumns(Eval(plan, db, holds), Eval(swapped, db, holds), Columns(plan, db), Columns(swapped, db));
    }
  }

  ghost predicate SwapKeeps(plan: RelExpr, db: Database, holds: Condition)
    requires plan.Join?
  {
    ValidDatabase(db) && WellFormed(plan, db) ==>
      Meaning(SwapInputs(plan).value, db, holds) == Meaning(plan, db, holds)
  }

  /** Swapping joins of type `jt` is safe for all inputs, databases and conditions. */
  ghost predicate SwapSafe(jt: JoinType) {
    forall cond, left, right, db, holds :: SwapKeeps(Join(jt, cond, left, right), db, holds)
  }

  const LEFT_TABLE := Table({"x"}, [map["x" := Known(1)]])
  const RIGHT_TABLE := Table({"y"}, [map["y" := Known(2)]])
  const TWO_TABLES: Database := map["l" := LEFT_TABLE, "r" := RIGHT_TABLE]

  /** Two one-row tables: a semi join under a condition that always holds, or an anti join under one that never
      does, returns the row of the left table before the swap and the row of the right table after it. */
  lemma SemiAntiSwapCounterexample(jt: JoinType, cond: Expr, holds: Condition)
    requires !Symmetric(jt)
    requires forall row :: holds(cond, row) == jt.Semi?
    ensures ValidDatabase(TWO_TABLES) && WellFormed(Join(jt, cond, Scan("l"), Scan("r")), TWO_TABLES)
    ensures Eval(Join(jt, cond, Scan("l"), Scan("r")), TWO_TABLES, holds) == [map["x" := Known(1)]]
    ensures Meaning(SwapInputs(Join(jt, cond, Scan("l"), Scan("r"))).value, TWO_TABLES, holds)
         != Meaning(Join(jt, cond, Scan("l"), Scan("r")), TWO_TABLES, holds)
  {
    var plan := Join(jt, cond, Scan("l"), Scan("r"));
    TwoTablesValid();
    assert Eval(Scan("l"), TWO_TABLES, holds) == LEFT_TABLE.rows;
    assert Eval(Scan("r"), TWO_TABLES, holds) == RIGHT_TABLE.rows;
    OneRowEach(jt, cond, holds, LEFT_TABLE.rows[0], RIGHT_TABLE.rows[0]);
    assert Eval(plan, TWO_TABLES, holds) == LEFT_TABLE.rows;
    SemiAntiSwapKeepsOnlyEmptyResults(plan, TWO_TABLES, holds);
  }

  lemma TwoTablesValid()
    ensures ValidDatabase(TWO_TABLES)
    ensures "l" in TWO_TABLES && TWO_TABLES["l"] == LEFT_TABLE
    ensures "r" in TWO_TABLES && TWO_TABLES["r"] == RIGHT_TABLE
  {
    assert "l"[0] != "r"[0];
    assert RowsOver(LEFT_TABLE.rows, LEFT_TABLE.columns);
    assert RowsOver(RIGHT_TABLE.rows, RIGHT_TABLE.columns);
  }

  lemma OneRowEach(jt: JoinType, cond: Expr, holds: Condition, l: Row, r: Row)
    requires !Symmetric(jt)
    requires forall row :: holds(cond, row) == jt.Semi?
    ensures LeftRows(jt, cond, holds, [l], [r], jt.Semi?, map[]) == [l]
  {
    assert Joins(jt, cond, holds, [l][0], [r][0]) == jt.Semi?;
    assert HasRightMatch(jt, cond, holds, l, [r]) == jt.Semi?;
    assert [l][1..] == [];
    assert LeftRows(jt, cond, holds, [], [r], jt.Semi?, map[]) == [];
    assert l + map[] == l;
  }

  lemma SymmetricSwapSafe(jt: JoinType)
    requires Symmetric(jt)
    ensures SwapSafe(jt)
  {
    forall cond, left, right, db, holds ensures SwapKeeps(Join(jt, cond, left, right), db, holds) {
      if ValidDatabase(db) && WellFormed(Join(jt, cond, left, right), db) {
        SwapKeepsMeaning(Join(jt, cond, left, right), db, holds);
      }
    }
  }

  lemma SemiAntiSwapUnsafe(jt: JoinType, cond: Expr, holds: Condition)
    requires !Symmetric(jt)
    requires forall row :: holds(cond, row) == jt.Semi?
    ensures !SwapKeeps(Join(jt, cond, Scan("l"), Scan("r")), TWO_TABLES, holds)
  {
    SemiAntiSwapCounterexample(jt, cond, holds);
  }

  /** The exact guard: swapping inputs of a join type is safe for all inputs just when it is not semi or anti. */
  lemma SwapSafeExactly(jt: JoinType)
    ensures SwapSafe(jt) <==> jt != Semi && jt != Anti
  {
    if Symmetric(jt) {
      SymmetricSwapSafe(jt);
    } else {
      SemiAntiSwapUnsafe(jt, Expr(""), (e, row) => jt.Semi?);
    }
  }
}
