/** The arithmetic that the model and its trainer compute with. */
module FloatArithmetic {
  import opened RealFacts

  /** Values are reals; the operations are parameters, so that what is proved does not depend on how they round. */
  datatype Arithmetic = Arithmetic(
    add: (real, real) -> real, sub: (real, real) -> real, mul: (real, real) -> real, div: (real, real) -> real,
    sqrt: real -> real, pow: (real, nat) -> real, softplus: real -> real, sigmoid: real -> real)
  {
    function Add(x: real, y: real): real {
      add(x, y)
    }

    function Sub(x: real, y: real): real {
      sub(x, y)
    }

    function Mul(x: real, y: real): real {
      mul(x, y)
    }

    function Div(x: real, y: real): real {
      div(x, y)
    }

    function Sqrt(x: real): real {
      sqrt(x)
    }

    function Pow(x: real, n: nat): real {
      pow(x, n)
    }
  }

  /** What zero does in every arithmetic, rounded or exact, as long as the values are finite. */
  ghost predicate ZeroLaws(a: Arithmetic) {
    && (forall x, y :: x == 0.0 || y == 0.0 ==> a.Mul(x, y) == 0.0)
    && (forall x, y :: x == 0.0 && y != 0.0 ==> a.Div(x, y) == 0.0)
    && (forall x, y :: y == 0.0 ==> a.Sub(x, y) == x)
    && (forall x, y :: x == 0.0 && y == 0.0 ==> a.Add(x, y) == 0.0)
  }

  function Times(x: real, y: real): real {
    x * y
  }

  function Power(b: real, n: nat): real {
    if n == 0 then 1.0 else Times(b, Power(b, n - 1))
  }

  /** Arithmetic without rounding; the transcendental functions stay parameters. */
  function Exact(sqrt: real -> real, softplus: real -> real, sigmoid: real -> real): Arithmetic {
    Arithmetic(
      (x, y) => x + y, (x, y) => x - y, (x, y) => x * y, (x, y) => if y == 0.0 then 0.0 else x / y,
      sqrt, Power, softplus, sigmoid)
  }

  lemma {:induction false} PowerBelowOne(b: real, n: nat)
    requires 0.0 <= b < 1.0 && n > 0
    ensures 0.0 <= Power(b, n) < 1.0
  {
    hide Times;
    if n == 1 {
      TimesOne(b);
      assert Power(b, 0) == 1.0;
    } else {
      PowerBelowOne(b, n - 1);
      ProductBelowOne(b, Power(b, n - 1));
    }
  }

  lemma TimesOne(x: real)
    ensures Times(x, 1.0) == x
  {
  }

  lemma ProductBelowOne(x: real, y: real)
    requires 0.0 <= x < 1.0 && 0.0 <= y < 1.0
    ensures 0.0 <= Times(x, y) < 1.0
  {
    ProductNonNegative(x, y);
    ProductNonNegative(1.0 - x, y);
    var p := x * y;
    assert (1.0 - x) * y == y - p;
  }

  lemma ExactObeysZeroLaws(sqrt: real -> real, softplus: real -> real, sigmoid: real -> real)
    ensures ZeroLaws(Exact(sqrt, softplus, sigmoid))
  {
  }
}
