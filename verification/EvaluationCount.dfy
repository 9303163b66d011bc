/** How often equal reports reach the evaluation of triggers. */
module EvaluationCount {
  import opened RuntimeStats
  import opened Triggers
  import opened ExecutorSpec

  // ---------- greatest common divisors ----------

  ghost predicate Divides(d: nat, n: int) {
    exists q: int :: n == d * q
  }

  function Gcd(a: nat, b: nat): nat
    decreases b
  {
    if b == 0 then a else Gcd(b, a % b)
  }

  lemma BezoutStep(a: int, b: int, d: int, r: int, x: int, y: int, g: int)
    requires a == d * b + r && x * b + y * r == g
    ensures y * a + (x - y * d) * b == g
  {
    calc {
      y * a + (x - y * d) * b;
      y * (d * b + r) + (x - y * d) * b;
      { assert y * (d * b + r) == y * (d * b) + y * r; }
      y * (d * b) + y * r + (x - y * d) * b;
      { assert (x - y * d) * b == x * b - (y * d) * b; assert y * (d * b) == (y * d) * b; }
      x * b + y * r;
    }
  }

  lemma DivisorStep(a: int, b: int, d: int, r: int, p: int, q: int, g: int)
    requires a == d * b + r && b == p * g && r == q * g
    ensures a == (d * p + q) * g
  {
    assert d * (p * g) == (d * p) * g;
    assert (d * p + q) * g == (d * p) * g + q * g;
  }

  /** Bezout: the gcd is an integer combination of the two numbers, and it divides both. */
  lemma {:induction false} Bezout(a: nat, b: nat) returns (x: int, y: int, p: int, q: int)
    ensures x * a + y * b == Gcd(a, b)
    ensures a == p * Gcd(a, b) && b == q * Gcd(a, b)
    decreases b
  {
    if b == 0 {
      x, y, p, q := 1, 0, 1, 0;
    } else {
      var d, r := a / b, a % b;
      assert a == d * b + r;
      var x', y', p', q' := Bezout(b, r);
      BezoutStep(a, b, d, r, x', y', Gcd(a, b));
      DivisorStep(a, b, d, r, p', q', Gcd(a, b));
      x, y, p, q := y', x' - y' * d, d * p' + q', p';
    }
  }

  lemma GcdPositive(a: nat, b: nat)
    requires a > 0
    ensures Gcd(a, b) > 0
  {
    var x, y, p, q := Bezout(a, b);
    assert p * 0 == 0;
  }

  lemma CancelFactor(a: int, b: int, g: nat)
    requires g > 0 && a * g == b * g
    ensures a == b
  {
    assert (a - b) * g == 0;
  }

  lemma QuotientUnique(n: int, p: int, d: int, r: int)
    requires p > 0 && n == d * p + r && 0 <= r < p
    ensures n / p == d && n % p == r
  {
    var d', r' := n / p, n % p;
    assert (d - d') * p == r' - r;
    assert d - d' >= 1 ==> (d - d') * p >= p;
    assert d - d' <= -1 ==> (d - d') * p <= -p;
  }

  /** k = j period implies k c = (j p) n, where c = p g and n = period g. */
  lemma MultipleForth(j: int, p: int, g: int, period: int)
    ensures (j * period) * (p * g) == (j * p) * (period * g)
  {
    assert (j * period) * (p * g) == j * (period * (p * g));
    assert period * (p * g) == p * (period * g);
    assert j * (p * (period * g)) == (j * p) * (period * g);
  }

  /** k c = m n gives k = z period: multiply the Bezout equation by k and cancel g. */
  lemma MultipleBack(x: int, y: int, c: int, n: int, k: int, m: int, g: int, period: int)
    requires x * c + y * n == g && k * c == m * n && n == period * g
    ensures k * g == ((x * m + k * y) * period) * g
  {
    calc {
      k * g;
      k * (x * c + y * n);
      { assert k * (x * c + y * n) == k * (x * c) + k * (y * n); }
      k * (x * c) + k * (y * n);
      { assert k * (x * c) == x * (k * c); assert k * (y * n) == (k * y) * n; }
      x * (m * n) + (k * y) * n;
      { assert x * (m * n) == (x * m) * n; }
      (x * m) * n + (k * y) * n;
      (x * m + k * y) * n;
    }
    var z := x * m + k * y;
    assert z * (period * g) == (z * period) * g;
  }

  /** `n` divides `k * c` just when `n` without its common part with `c` divides `k`. */
  lemma MultipleOfPeriod(c: nat, n: nat, k: nat, period: nat)
    requires c > 0 && n > 0 && period > 0 && period * Gcd(c, n) == n
    ensures (k * c) % n == 0 <==> k % period == 0
  {
    var x, y, p, q := Bezout(c, n);
    var g := Gcd(c, n);
    GcdPositive(c, n);
    if k % period == 0 {
      var j := k / period;
      MultipleForth(j, p, g, period);
      QuotientUnique(k * c, n, j * p, 0);
    }
    if (k * c) % n == 0 {
      var m := (k * c) / n;
      MultipleBack(x, y, c, n, k, m, g, period);
      CancelFactor(k, (x * m + k * y) * period, g);
      QuotientUnique(k, period, x * m + k * y, 0);
    }
  }

  lemma NextQuotient(k: nat, p: nat)
    requires p > 0
    ensures (k + 1) / p == k / p + (if (k + 1) % p == 0 then 1 else 0)
  {
    var d, r := k / p, k % p;
    if r + 1 == p {
      assert k + 1 == (d + 1) * p;
      QuotientUnique(k + 1, p, d + 1, 0);
    } else {
      QuotientUnique(k + 1, p, d, r + 1);
    }
  }

  // ---------- counting evaluations ----------

  function Evaluations(config: AdaptiveConfig, s: State, calls: seq<Call>): nat
    decreases calls
  {
    if calls == [] then 0 else
      (if Evaluates(config, s, calls[0]) then 1 else 0)
      + Evaluations(config, Apply(config, s, calls[0]), calls[1..])
  }

  function Reports(node: NodeId, rows: U64, k: nat): seq<Call> {
    seq(k, _ => Call.ReportRows(node, rows))
  }

  lemma NoEvaluations(config: AdaptiveConfig, s: State)
    ensures Evaluations(config, s, []) == 0
  {
  }

  lemma FirstEvaluation(config: AdaptiveConfig, s: State, calls: seq<Call>)
    requires calls != []
    ensures Evaluations(config, s, calls)
         == (if Evaluates(config, s, calls[0]) then 1 else 0)
            + Evaluations(config, Apply(config, s, calls[0]), calls[1..])
  {
  }

  lemma MulMonotone(a: nat, b: nat, r: nat)
    requires a <= b
    ensures a * r <= b * r
  {
  }

  lemma {:induction false} EvaluationsFrom(config: AdaptiveConfig, s: State, node: NodeId, rows: U64,
                                           done: nat, k: nat, period: nat)
    requires config.enabled && rows > 0 && config.checkIntervalRows > 0
    requires period > 0 && period * Gcd(rows, config.checkIntervalRows) == config.checkIntervalRows
    requires node in s.operators && s.operators[node].actualRows == done * rows
    requires (done + k) * rows <= MAX_U64
    ensures Evaluations(config, s, Reports(node, rows, k)) == (done + k) / period - done / period
    decreases k
  {
    hide Apply, Evaluates, Evaluations, Gcd;
    if k == 0 {
      NoEvaluations(config, s);
    } else {
      var calls := Reports(node, rows, k);
      var call := calls[0];
      assert calls[1..] == Reports(node, rows, k - 1);
      FirstEvaluation(config, s, calls);
      MulMonotone(done + 1, done + k, rows);
      assert (done + 1) + (k - 1) == done + k;
      OneReport(config, s, node, rows, done, period);
      NextQuotient(done, period);
      EvaluationsFrom(config, Apply(config, s, call), node, rows, done + 1, k - 1, period);
    }
  }

  lemma OneReport(config: AdaptiveConfig, s: State, node: NodeId, rows: U64, done: nat, period: nat)
    requires config.enabled && rows > 0 && config.checkIntervalRows > 0
    requires period > 0 && period * Gcd(rows, config.checkIntervalRows) == config.checkIntervalRows
    requires node in s.operators && s.operators[node].actualRows == done * rows
    requires (done + 1) * rows <= MAX_U64
    ensures var call := Call.ReportRows(node, rows);
      && (Evaluates(config, s, call) <==> (done + 1) % period == 0)
      && node in Apply(config, s, call).operators
      && Apply(config, s, call).operators[node].actualRows == (done + 1) * rows
  {
    var call := Call.ReportRows(node, rows);
    assert (done + 1) * rows == done * rows + rows;
    MultipleOfPeriod(rows, config.checkIntervalRows, done + 1, period);
    var mid := Observe(config, s, call);
    AdaptAllKeepsOperators(config, mid, node, OperatorEvents(config.triggerConfig, node, mid.operators[node]));
  }

  lemma PositiveFactor(q: int, g: int)
    requires g > 0 && q * g > 0
    ensures q > 0
  {
    assert q <= 0 ==> q * g <= 0;
  }

  /** `k` equal reports for a freshly registered operator evaluate the triggers exactly once in every
      `interval / gcd(rows, interval)` reports, as long as the row counter does not saturate. */
  lemma EvaluationsOfEqualReports(config: AdaptiveConfig, s: State, node: NodeId, estimate: real, rows: U64, k: nat)
    requires config.enabled && rows > 0 && config.checkIntervalRows > 0 && k * rows <= MAX_U64
    ensures Gcd(rows, config.checkIntervalRows) > 0
    ensures config.checkIntervalRows / Gcd(rows, config.checkIntervalRows) > 0
    ensures Evaluations(config, Apply(config, s, Call.RegisterOperator(node, estimate)), Reports(node, rows, k))
         == k / (config.checkIntervalRows / Gcd(rows, config.checkIntervalRows))
  {
    var n := config.checkIntervalRows;
    var x, y, p, q := Bezout(rows, n);
    var g := Gcd(rows, n);
    GcdPositive(rows, n);
    PositiveFactor(q, g);
    QuotientUnique(n, g, q, 0);
    EvaluationsFrom(config, Apply(config, s, Call.RegisterOperator(node, estimate)), node, rows, 0, k, q);
    assert 0 / q == 0;
  }

  /** What `Gcd` computes: a common divisor that every common divisor divides. */
  lemma GcdIsGreatest(a: nat, b: nat, d: nat)
    ensures Divides(Gcd(a, b), a) && Divides(Gcd(a, b), b)
    ensures Divides(d, a) && Divides(d, b) ==> Divides(d, Gcd(a, b))
  {
    var x, y, p, q := Bezout(a, b);
    var g := Gcd(a, b);
    assert a == g * p && b == g * q;
    if Divides(d, a) && Divides(d, b) {
      var i :| a == d * i;
      var j :| b == d * j;
      CommonDivisor(x, y, d, i, j);
      assert g == d * (x * i + y * j);
    }
  }

  lemma CommonDivisor(x: int, y: int, d: int, i: int, j: int)
    ensures x * (d * i) + y * (d * j) == d * (x * i + y * j)
  {
    assert x * (d * i) == d * (x * i);
    assert y * (d * j) == d * (y * j);
  }
}
