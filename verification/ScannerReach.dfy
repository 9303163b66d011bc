/** Exactly which layouts the pattern scanner decides correctly, whatever the table of operators. */
module ScannerReach {
  import opened Options
  import opened SexpScanner
  import opened SexpTheorems

  /** A node's head, the children it is written with, those the scanner sees, and whether the head is read right. */
  datatype Shape = Shape(head: string, written: nat, seen: nat, ends: bool)

  /** The shapes of all nodes. */
  function Shapes(t: Term): seq<Shape> {
    match t
    case Atom(_) => []
    case Node(_, head, kids, _) => [Shape(head, KidCount(kids), SeenKids(kids, false), HeadEnds(t))] + KidShapes(kids)
  }

  function KidShapes(kids: Kids): seq<Shape> {
    match kids
    case NoKids => []
    case Kid(_, term, rest) => Shapes(term) + KidShapes(rest)
  }

  predicate IsVariable(head: string) {
    head != "" && head[0] == '?'
  }

  /** A head with `n` children does not fit the table. */
  predicate Misfit(config: Config, head: string, n: nat) {
    !config.isNumber(head) &&
    var op := LookupOperator(config.table, head);
    op.None? || (op.value.arity.Some? && op.value.arity.value != n)
  }

  ghost predicate SomeIllFormed(config: Config, shapes: seq<Shape>) {
    exists s :: s in shapes && (IsVariable(s.head) || Misfit(config, s.head, s.written))
  }

  ghost predicate SomeFaulted(config: Config, shapes: seq<Shape>) {
    exists s :: s in shapes && (!s.ends || IsVariable(s.head) || Misfit(config, s.head, s.seen))
  }

  // ---------- both readings are about the shapes alone ----------

  lemma {:induction false} IllFormedShapes(config: Config, t: Term)
    ensures IllFormed(config, t) <==> SomeIllFormed(config, Shapes(t))
    decreases t, 1
  {
    hide LookupOperator, HeadEnds;
    if t.Node? {
      IllFormedKidShapes(config, t.kids);
      var s := Shapes(t)[0];
      assert forall r :: r in Shapes(t) <==> r == s || r in KidShapes(t.kids);
    }
  }

  lemma {:induction false} IllFormedKidShapes(config: Config, kids: Kids)
    ensures KidsIllFormed(config, kids) <==> SomeIllFormed(config, KidShapes(kids))
    decreases kids, 0
  {
    hide Misfit;
    if kids.Kid? {
      IllFormedShapes(config, kids.term);
      IllFormedKidShapes(config, kids.rest);
    }
  }

  lemma {:induction false} FaultedShapes(config: Config, t: Term)
    requires WellFormed(t)
    ensures Faulted(config, t) <==> SomeFaulted(config, Shapes(t))
    decreases t, 1
  {
    hide LookupOperator, HeadEnds;
    if t.Node? {
      FaultedKidShapes(config, t.kids, true);
      var s := Shapes(t)[0];
      assert forall r :: r in Shapes(t) <==> r == s || r in KidShapes(t.kids);
    }
  }

  lemma {:induction false} FaultedKidShapes(config: Config, kids: Kids, afterToken: bool)
    requires WellFormedKids(kids, afterToken)
    ensures KidsFaulted(config, kids, afterToken) <==> SomeFaulted(config, KidShapes(kids))
    decreases kids, 0
  {
    hide Misfit;
    if kids.Kid? {
      FaultedShapes(config, kids.term);
      FaultedKidShapes(config, kids.rest, kids.term.Atom?);
    }
  }

  // ---------- the condition ----------

  ghost predicate AllWritten(shapes: seq<Shape>, head: string, n: nat) {
    forall s :: s in shapes && s.head == head ==> s.written == n
  }

  ghost predicate AllSeen(shapes: seq<Shape>, head: string, n: nat) {
    forall s :: s in shapes && s.head == head ==> s.seen == n
  }

  /** No head is misread, and an operator is written with `n` children everywhere exactly when it is seen with `n`
      children everywhere. */
  ghost predicate Faithful(shapes: seq<Shape>) {
    && (forall s :: s in shapes ==> s.ends)
    && (forall s, n: nat :: s in shapes ==> (AllWritten(shapes, s.head, n) <==> AllSeen(shapes, s.head, n)))
  }

  ghost predicate HasVariable(shapes: seq<Shape>) {
    exists s :: s in shapes && IsVariable(s.head)
  }

  lemma FaithfulDecides(config: Config, shapes: seq<Shape>)
    requires Faithful(shapes)
    ensures SomeIllFormed(config, shapes) <==> SomeFaulted(config, shapes)
  {
    hide LookupOperator;
    if s :| s in shapes && Misfit(config, s.head, s.written) {
      var op := LookupOperator(config.table, s.head);
      if op.None? {
        assert Misfit(config, s.head, s.seen);
      } else {
        var n := op.value.arity.value;
        assert !AllWritten(shapes, s.head, n);
        assert !AllSeen(shapes, s.head, n);
      }
    }
    if s :| s in shapes && Misfit(config, s.head, s.seen) {
      var op := LookupOperator(config.table, s.head);
      if op.None? {
        assert Misfit(config, s.head, s.written);
      } else {
        var n := op.value.arity.value;
        assert !AllSeen(shapes, s.head, n);
        assert !AllWritten(shapes, s.head, n);
      }
    }
  }

  // ---------- and it is needed ----------

  /** Every head of the shapes, with any number of children. */
  function Variadic(shapes: seq<Shape>): seq<Operator> {
    if shapes == [] then [] else [Operator(shapes[0].head, None)] + Variadic(shapes[1..])
  }

  lemma {:induction false} VariadicFound(shapes: seq<Shape>, head: string)
    ensures var op := LookupOperator(Variadic(shapes), head); op.Some? ==> op.value.arity.None?
    ensures (exists s :: s in shapes && s.head == head) ==> LookupOperator(Variadic(shapes), head).Some?
  {
    if shapes != [] {
      VariadicFound(shapes[1..], head);
    }
  }

  lemma {:induction false} VariadicTokens(shapes: seq<Shape>)
    requires forall s :: s in shapes ==> IsToken(s.head)
    ensures forall i :: 0 <= i < |Variadic(shapes)| ==> IsToken(Variadic(shapes)[i].name)
  {
    hide IsToken;
    if shapes != [] {
      VariadicTokens(shapes[1..]);
    }
  }

  /** The table in which `head` takes `n` children and every other head any number. */
  function OneArity(head: string, n: nat, shapes: seq<Shape>): Config {
    Config([Operator(head, Some(n))] + Variadic(shapes), _ => false)
  }

  function NoArity(shapes: seq<Shape>): Config {
    Config(Variadic(shapes), _ => false)
  }

  lemma OneArityFits(head: string, n: nat, shapes: seq<Shape>, s: Shape, m: nat)
    requires s in shapes
    ensures Misfit(OneArity(head, n, shapes), s.head, m) <==> s.head == head && m != n
  {
    VariadicFound(shapes, s.head);
    var table := OneArity(head, n, shapes).table;
    assert table[1..] == Variadic(shapes);
  }

  lemma NoArityFits(shapes: seq<Shape>, s: Shape, m: nat)
    requires s in shapes
    ensures !Misfit(NoArity(shapes), s.head, m)
  {
    VariadicFound(shapes, s.head);
  }

  lemma TablesValid(shapes: seq<Shape>, head: string, n: nat)
    requires IsToken(head) && forall s :: s in shapes ==> IsToken(s.head)
    ensures OneArity(head, n, shapes).Valid() && NoArity(shapes).Valid()
  {
    hide IsToken;
    VariadicTokens(shapes);
  }

  /** A table for which the two readings differ. */
  lemma UnfaithfulTable(shapes: seq<Shape>) returns (config: Config)
    requires !Faithful(shapes) && !HasVariable(shapes) && forall s :: s in shapes ==> IsToken(s.head)
    ensures config.Valid() && SomeIllFormed(config, shapes) != SomeFaulted(config, shapes)
  {
    hide Misfit, Variadic, OneArity, NoArity, IsToken, IsVariable;
    if s :| s in shapes && !s.ends {
      config := NoArity(shapes);
      TablesValid(shapes, s.head, 0);
      forall r | r in shapes ensures !Misfit(config, r.head, r.written) {
        NoArityFits(shapes, r, r.written);
      }
    } else {
      var s, n: nat :| s in shapes && (AllWritten(shapes, s.head, n) != AllSeen(shapes, s.head, n));
      config := OneArity(s.head, n, shapes);
      TablesValid(shapes, s.head, n);
      forall r | r in shapes
        ensures Misfit(config, r.head, r.written) <==> r.head == s.head && r.written != n
        ensures Misfit(config, r.head, r.seen) <==> r.head == s.head && r.seen != n
      {
        OneArityFits(s.head, n, shapes, r, r.written);
        OneArityFits(s.head, n, shapes, r, r.seen);
      }
    }
  }

  lemma {:induction false} HeadsAreTokens(t: Term)
    requires WellFormed(t)
    ensures forall s :: s in Shapes(t) ==> IsToken(s.head)
    decreases t, 1
  {
    hide IsToken, HeadEnds;
    if t.Node? {
      KidHeadsAreTokens(t.kids, true);
    }
  }

  lemma {:induction false} KidHeadsAreTokens(kids: Kids, afterToken: bool)
    requires WellFormedKids(kids, afterToken)
    ensures forall s :: s in KidShapes(kids) ==> IsToken(s.head)
    decreases kids, 0
  {
    hide IsToken;
    if kids.Kid? {
      HeadsAreTokens(kids.term);
      KidHeadsAreTokens(kids.rest, kids.term.Atom?);
    }
  }

  /** The scanner tells well-formed terms from ill-formed ones under every table. */
  ghost predicate AlwaysDecides(t: Term) {
    forall config: Config :: config.Valid() ==> (Invalid(config, Print(t)) <==> IllFormed(config, t))
  }

  /** The scanner decides a layout correctly under every table exactly when the layout is faithful or one of its heads
      is a variable. */
  lemma DecidesExactly(t: Term)
    requires WellFormed(t)
    ensures AlwaysDecides(t) <==> Faithful(Shapes(t)) || HasVariable(Shapes(t))
  {
    hide Invalid, Print, IllFormed, Faulted, Shapes, Faithful, Misfit, IsVariable;
    var shapes := Shapes(t);
    forall config: Config | config.Valid()
      ensures Invalid(config, Print(t)) <==> SomeFaulted(config, shapes)
      ensures IllFormed(config, t) <==> SomeIllFormed(config, shapes)
    {
      ScannerExactly(config, t);
      FaultedShapes(config, t);
      IllFormedShapes(config, t);
    }
    if Faithful(shapes) {
      forall config: Config | config.Valid() ensures Invalid(config, Print(t)) <==> IllFormed(config, t) {
        FaithfulDecides(config, shapes);
      }
    } else if !HasVariable(shapes) {
      HeadsAreTokens(t);
      var config := UnfaithfulTable(shapes);
    }
  }
}
