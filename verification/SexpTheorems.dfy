/** What the scanner of `SexpScanner` decides about the terms that its input spells. */
module SexpTheorems {
  import opened Options
  import opened SexpScanner

  // ---------- counting children ----------

  lemma CountStep(c: char, t: string, depth: nat, inToken: bool)
    ensures CountFrom([c] + t, depth, inToken) ==
      if c == ')' && depth == 0 then 0
      else if c == '(' then (if depth == 0 && !inToken then 1 else 0) + CountFrom(t, depth + 1, false)
      else if c == ')' then CountFrom(t, depth - 1, false)
      else if IsBlank(c) then CountFrom(t, depth, false)
      else if depth == 0 then (if inToken then 0 else 1) + CountFrom(t, 0, true)
      else CountFrom(t, depth, false)
  {
    assert ([c] + t)[1..] == t;
  }

  lemma {:induction false} CountBlanks(s: string, rest: string, depth: nat, inToken: bool)
    requires AllBlank(s)
    ensures CountFrom(s + rest, depth, inToken) == CountFrom(rest, depth, if s == "" then inToken else false)
    decreases |s|
  {
    hide CountFrom;
    if s == "" {
      assert s + rest == rest;
    } else {
      assert s + rest == [s[0]] + (s[1..] + rest);
      CountStep(s[0], s[1..] + rest, depth, inToken);
      CountBlanks(s[1..], rest, depth, false);
    }
  }

  /** A token adds one at the top unless a token is already open, and nothing deeper down. */
  lemma {:induction false} CountToken(s: string, rest: string, depth: nat, inToken: bool)
    requires s != "" && forall i :: 0 <= i < |s| ==> TokenChar(s[i])
    ensures CountFrom(s + rest, depth, inToken)
         == (if depth == 0 && !inToken then 1 else 0) + CountFrom(rest, depth, depth == 0)
    decreases |s|
  {
    hide CountFrom;
    assert s + rest == [s[0]] + (s[1..] + rest);
    CountStep(s[0], s[1..] + rest, depth, inToken);
    if |s| == 1 {
      assert s[1..] + rest == rest;
    } else {
      CountToken(s[1..], rest, depth, depth == 0);
    }
  }

  lemma NodeText(t: Term, rest: string)
    requires t.Node?
    ensures Print(t) + rest == [ '(' ] + (t.lead + (t.head + (PrintKids(t.kids) + (t.trail + ([')'] + rest)))))
  {
    hide PrintKids;
  }

  /** Inside a node a term adds nothing, and the depth is the same after it. */
  lemma {:induction false} CountInside(t: Term, rest: string, depth: nat, inToken: bool)
    requires WellFormed(t) && depth >= 1
    ensures CountFrom(Print(t) + rest, depth, inToken) == CountFrom(rest, depth, false)
    decreases t, 1
  {
    hide CountFrom, Print;
    match t
    case Atom(token) =>
      AtomText(t);
      CountToken(token, rest, depth, inToken);
    case Node(lead, head, kids, trail) =>
      NodeText(t, rest);
      CountStep('(', lead + (head + (PrintKids(kids) + (trail + ([')'] + rest)))), depth, inToken);
      CountNodeTail(t, rest, depth);
  }

  lemma AtomText(t: Term)
    requires t.Atom?
    ensures Print(t) == t.token
  {
  }

  /** From behind the opening parenthesis to behind the closing one. */
  lemma {:induction false} CountNodeTail(t: Term, rest: string, depth: nat)
    requires t.Node? && WellFormed(t)
    ensures CountFrom(t.lead + (t.head + (PrintKids(t.kids) + (t.trail + ([')'] + rest)))), depth + 1, false)
         == CountFrom(rest, depth, false)
    decreases t, 0
  {
    hide CountFrom, Print, PrintKids;
    CountBlanks(t.lead, t.head + (PrintKids(t.kids) + (t.trail + ([')'] + rest))), depth + 1, false);
    CountToken(t.head, PrintKids(t.kids) + (t.trail + ([')'] + rest)), depth + 1, false);
    CountKidsInside(t.kids, t.trail + ([')'] + rest), depth + 1, true);
    CountBlanks(t.trail, [')'] + rest, depth + 1, false);
    CountStep(')', rest, depth + 1, false);
  }

  lemma KidText(kids: Kids, rest: string)
    requires kids.Kid?
    ensures PrintKids(kids) + rest == kids.sep + (Print(kids.term) + (PrintKids(kids.rest) + rest))
  {
    hide Print;
  }

  lemma {:induction false} CountKidsInside(kids: Kids, rest: string, depth: nat, afterToken: bool)
    requires WellFormedKids(kids, afterToken) && depth >= 1
    ensures CountFrom(PrintKids(kids) + rest, depth, false) == CountFrom(rest, depth, false)
    decreases kids, 0
  {
    hide CountFrom, Print, PrintKids;
    if kids.NoKids? {
      NoKidsText(kids, rest);
    } else {
      KidText(kids, rest);
      var more := PrintKids(kids.rest) + rest;
      CountBlanks(kids.sep, Print(kids.term) + more, depth, false);
      CountInside(kids.term, more, depth, false);
      CountKidsInside(kids.rest, rest, depth, kids.term.Atom?);
    }
  }

  lemma NoKidsText(kids: Kids, rest: string)
    requires kids.NoKids?
    ensures PrintKids(kids) + rest == rest
  {
  }

  lemma CountClosed(trail: string, rest: string, inToken: bool)
    requires AllBlank(trail)
    ensures CountFrom(trail + ([')'] + rest), 0, inToken) == 0
  {
    hide CountFrom;
    CountBlanks(trail, [')'] + rest, 0, inToken);
    CountStep(')', rest, 0, if trail == "" then inToken else false);
  }

  /** At every nesting depth and whatever follows, the count from behind a head up to the closing parenthesis is
      the number of children that the layout shows. */
  lemma {:induction false} CountIsSeenKids(kids: Kids, trail: string, rest: string, afterToken: bool)
    requires AllBlank(trail)
    requires WellFormedKids(kids, afterToken) || WellFormedKids(kids, true)
    ensures CountFrom(PrintKids(kids) + (trail + ([')'] + rest)), 0, afterToken) == SeenKids(kids, afterToken)
    decreases kids
  {
    hide CountFrom, Print, PrintKids;
    var tail := trail + ([')'] + rest);
    if kids.NoKids? {
      NoKidsText(kids, tail);
      CountClosed(trail, rest, afterToken);
    } else {
      KidText(kids, tail);
      var more := PrintKids(kids.rest) + tail;
      var open := if kids.sep == "" then afterToken else false;
      CountBlanks(kids.sep, Print(kids.term) + more, 0, afterToken);
      CountIsSeenKids(kids.rest, trail, rest, kids.term.Atom?);
      match kids.term
      case Atom(token) =>
        AtomText(kids.term);
        CountToken(token, more, 0, open);
      case Node(lead, head, inner, t) =>
        NodeText(kids.term, more);
        CountStep('(', lead + (head + (PrintKids(inner) + (t + ([')'] + more)))), 0, open);
        CountNodeTail(kids.term, more, 0);
    }
  }

  // ---------- scanning ----------

  lemma InvalidChar(config: Config, c: char, t: string)
    requires c != '('
    ensures Invalid(config, [c] + t) == Invalid(config, t)
  {
    assert ([c] + t)[1..] == t;
  }

  lemma {:induction false} InvalidPlain(config: Config, s: string, t: string)
    requires '(' !in s
    ensures Invalid(config, s + t) == Invalid(config, t)
    decreases |s|
  {
    hide Invalid;
    if s == "" {
      assert s + t == t;
    } else {
      assert s + t == [s[0]] + (s[1..] + t);
      InvalidChar(config, s[0], s[1..] + t);
      InvalidPlain(config, s[1..], t);
    }
  }

  lemma {:induction false} SpacesThen(s: string, t: string)
    requires AllSpaces(s) && t != "" && t[0] != ' '
    ensures LeadingSpaces(s + t) == |s|
    decreases |s|
  {
    if s == "" {
      assert s + t == t;
    } else {
      assert (s + t)[1..] == s[1..] + t;
      SpacesThen(s[1..], t);
    }
  }

  lemma {:induction false} NameThen(s: string, t: string)
    requires forall i :: 0 <= i < |s| ==> s[i] != ' ' && s[i] != ')'
    ensures NameLength(s + t) == |s| + NameLength(t)
    decreases |s|
  {
    if s == "" {
      assert s + t == t;
    } else {
      assert (s + t)[1..] == s[1..] + t;
      NameThen(s[1..], t);
    }
  }

  lemma InvalidOpen(config: Config, lead: string, u: string)
    requires AllSpaces(lead) && u != "" && u[0] != ' '
    ensures var n := NameLength(u);
      Invalid(config, ['('] + (lead + u)) == (Rejects(config, u[..n], u[n..]) || Invalid(config, u[n..]))
  {
    hide Rejects;
    var t := ['('] + (lead + u);
    assert t[1..] == lead + u;
    SpacesThen(lead, u);
    assert (lead + u)[|lead|..] == u;
  }

  lemma {:induction false} UnknownName(table: seq<Operator>, name: string)
    requires !IsToken(name) && forall i :: 0 <= i < |table| ==> IsToken(table[i].name)
    ensures LookupOperator(table, name).None?
  {
    if table != [] {
      UnknownName(table[1..], name);
    }
  }

  /** A head that a space or parenthesis ends is read as it is. */
  lemma HeadRead(config: Config, t: Term, rest: string)
    requires t.Node? && WellFormed(t) && HeadEnds(t)
    ensures var after := PrintKids(t.kids) + (t.trail + ([')'] + rest));
      && NameLength(t.head + after) == |t.head|
      && (Rejects(config, t.head, after) <==> NodeFaulted(config, t))
  {
    hide PrintKids, CountFrom, SeenKids, LookupOperator;
    var after := PrintKids(t.kids) + (t.trail + ([')'] + rest));
    NameThen(t.head, after);
    assert after == (PrintKids(t.kids) + (t.trail + ")")) + rest;
    assert after[0] == (PrintKids(t.kids) + (t.trail + ")"))[0];
    CountIsSeenKids(t.kids, t.trail, rest, false);
  }

  /** A head followed by anything else is read together with what follows, and is then rejected. */
  lemma HeadMisread(config: Config, t: Term, rest: string)
    requires config.Valid() && t.Node? && WellFormed(t) && !HeadEnds(t)
    ensures var u := t.head + (PrintKids(t.kids) + (t.trail + ([')'] + rest)));
      var n := NameLength(u);
      Rejects(config, u[..n], u[n..])
  {
    hide PrintKids, CountFrom, LookupOperator, WellFormedKids;
    var after := PrintKids(t.kids) + (t.trail + ([')'] + rest));
    var u := t.head + after;
    NameThen(t.head, after);
    assert after == (PrintKids(t.kids) + (t.trail + ")")) + rest;
    assert after[0] == (PrintKids(t.kids) + (t.trail + ")"))[0];
    var n := NameLength(u);
    assert n > |t.head|;
    var name := u[..n];
    assert name[|t.head|] == after[0];
    AfterHead(t);
    assert !TokenChar(name[|t.head|]);
    assert !IsToken(name);
    UnknownName(config.table, name);
  }

  /** Tokens never follow a head directly. */
  lemma AfterHead(t: Term)
    requires t.Node? && WellFormed(t)
    ensures var after := PrintKids(t.kids) + (t.trail + ")"); after != "" && !TokenChar(after[0])
  {
    if t.kids.Kid? {
      KidText(t.kids, t.trail + ")");
      if t.kids.sep == "" {
        var k := t.kids.term;
        assert Print(k)[0] == '(';
        assert (t.kids.sep + (Print(k) + (PrintKids(t.kids.rest) + (t.trail + ")"))))[0] == '(';
      } else {
        assert (t.kids.sep + (Print(t.kids.term) + (PrintKids(t.kids.rest) + (t.trail + ")"))))[0] == t.kids.sep[0];
      }
    } else {
      NoKidsText(t.kids, t.trail + ")");
    }
  }

  lemma BlankPlain(s: string)
    requires AllBlank(s)
    ensures '(' !in s
  {
  }

  /** Whatever follows, scanning a printed term finds the faults of the term and those of what follows. */
  lemma {:induction false} InvalidTerm(config: Config, t: Term, rest: string)
    requires config.Valid() && WellFormed(t)
    ensures Invalid(config, Print(t) + rest) == (Faulted(config, t) || Invalid(config, rest))
    decreases t, 1
  {
    hide Invalid, Print, PrintKids, Rejects, NodeFaulted, HeadEnds;
    match t
    case Atom(token) =>
      AtomText(t);
      InvalidPlain(config, token, rest);
    case Node(lead, head, kids, trail) =>
      NodeText(t, rest);
      var after := PrintKids(kids) + (trail + ([')'] + rest));
      assert (head + after)[0] == head[0];
      InvalidOpen(config, lead, head + after);
      FaultOfHead(t, config);
      if HeadEnds(t) {
        HeadRead(config, t, rest);
        assert (head + after)[..|head|] == head && (head + after)[|head|..] == after;
        InvalidKids(config, kids, trail + ([')'] + rest), true);
        BlankPlain(trail);
        InvalidPlain(config, trail, [')'] + rest);
        InvalidChar(config, ')', rest);
      } else {
        HeadMisread(config, t, rest);
      }
  }

  lemma FaultOfHead(t: Term, config: Config)
    requires t.Node? && WellFormed(t)
    ensures !HeadEnds(t) ==> NodeFaulted(config, t)
  {
    hide HeadEnds;
  }

  lemma {:induction false} InvalidKids(config: Config, kids: Kids, rest: string, afterToken: bool)
    requires config.Valid() && WellFormedKids(kids, afterToken)
    ensures Invalid(config, PrintKids(kids) + rest) == (KidsFaulted(config, kids, afterToken) || Invalid(config, rest))
    decreases kids, 0
  {
    hide Invalid, Print, PrintKids, Faulted;
    if kids.NoKids? {
      NoKidsText(kids, rest);
    } else {
      KidText(kids, rest);
      var more := PrintKids(kids.rest) + rest;
      BlankPlain(kids.sep);
      InvalidPlain(config, kids.sep, Print(kids.term) + more);
      InvalidTerm(config, kids.term, more);
      InvalidKids(config, kids.rest, rest, kids.term.Atom?);
    }
  }

  /** For every term in every layout, the scanner reports the text invalid exactly when it faults some node. */
  lemma ScannerExactly(config: Config, t: Term)
    requires config.Valid() && WellFormed(t)
    ensures Invalid(config, Print(t)) <==> Faulted(config, t)
  {
    hide Invalid, Print, Faulted;
    InvalidTerm(config, t, "");
    assert Print(t) + "" == Print(t);
    NothingInvalid(config, "");
  }

  // ---------- layouts in which the scanner decides well-formedness ----------

  /** A space follows every head that has children, and blanks come before every parenthesis that follows a token. */
  predicate Spaced(t: Term) {
    t.Atom? || (HeadEnds(t) && SpacedKids(t.kids, true))
  }

  predicate SpacedKids(kids: Kids, afterToken: bool) {
    kids.NoKids? || ((afterToken ==> kids.sep != "") && Spaced(kids.term) && SpacedKids(kids.rest, kids.term.Atom?))
  }

  /** What the check is for: some operator is a variable, is unknown, or has the wrong number of children. */
  predicate IllFormed(config: Config, t: Term) {
    t.Node?
    && ((t.head != "" && t.head[0] == '?')
        || (!config.isNumber(t.head) &&
            var op := LookupOperator(config.table, t.head);
            op.None? || (op.value.arity.Some? && op.value.arity.value != KidCount(t.kids)))
        || KidsIllFormed(config, t.kids))
  }

  predicate KidsIllFormed(config: Config, kids: Kids) {
    kids.Kid? && (IllFormed(config, kids.term) || KidsIllFormed(config, kids.rest))
  }

  lemma {:induction false} AllKidsSeen(kids: Kids, afterToken: bool)
    requires SpacedKids(kids, afterToken)
    ensures SeenKids(kids, afterToken) == KidCount(kids)
  {
    if kids.Kid? {
      AllKidsSeen(kids.rest, kids.term.Atom?);
    }
  }

  lemma SeenFromHead(kids: Kids)
    requires SpacedKids(kids, true)
    ensures SeenKids(kids, false) == KidCount(kids)
  {
    AllKidsSeen(kids, true);
  }

  lemma {:induction false} FaultedIsIllFormed(config: Config, t: Term)
    requires WellFormed(t) && Spaced(t)
    ensures Faulted(config, t) == IllFormed(config, t)
    decreases t, 1
  {
    hide HeadEnds, LookupOperator;
    if t.Node? {
      SeenFromHead(t.kids);
      KidsFaultedIsIllFormed(config, t.kids, true);
    }
  }

  lemma {:induction false} KidsFaultedIsIllFormed(config: Config, kids: Kids, afterToken: bool)
    requires WellFormedKids(kids, afterToken) && SpacedKids(kids, afterToken)
    ensures KidsFaulted(config, kids, afterToken) == KidsIllFormed(config, kids)
    decreases kids, 0
  {
    if kids.Kid? {
      FaultedIsIllFormed(config, kids.term);
      KidsFaultedIsIllFormed(config, kids.rest, kids.term.Atom?);
    }
  }

  /** For every spaced layout of every term, the scanner decides exactly whether the term is ill formed. */
  lemma ScannerDecidesWellFormedness(config: Config, t: Term)
    requires config.Valid() && WellFormed(t) && Spaced(t)
    ensures Invalid(config, Print(t)) <==> IllFormed(config, t)
  {
    hide Invalid, Print, Faulted, IllFormed;
    ScannerExactly(config, t);
    FaultedIsIllFormed(config, t);
  }

  // ---------- and layouts in which it does not ----------

  /** A head that is followed by a tab or a line break is always rejected, however correct the term. */
  lemma HeadBeforeLineBreakRejected(config: Config, t: Term)
    requires config.Valid() && WellFormed(t) && t.Node?
    requires t.kids.Kid? && t.kids.sep != "" && t.kids.sep[0] != ' '
    ensures Invalid(config, Print(t))
  {
    hide Invalid, Print, PrintKids;
    KidText(t.kids, t.trail + ")");
    var after := PrintKids(t.kids) + (t.trail + ")");
    assert after[0] == t.kids.sep[0];
    assert !HeadEnds(t);
    ScannerExactly(config, t);
  }

  /** A parenthesis that touches the token before it is not counted: a node with a fixed arity that has the right
      number of children is rejected when exactly one of them is written that way. */
  lemma GluedChildMiscounted(config: Config, head: string, a: string, b: Term)
    requires config.Valid() && IsToken(head) && IsToken(a) && b.Node? && WellFormed(b)
    requires !config.isNumber(head) && LookupOperator(config.table, head) == Some(Operator(head, Some(2)))
    ensures var glued := Node("", head, Kid(" ", Atom(a), Kid("", b, NoKids)), "");
      && WellFormed(glued) && KidCount(glued.kids) == 2 && Invalid(config, Print(glued))
  {
    hide Invalid, Print, LookupOperator;
    var last := Kid("", b, NoKids);
    var kids := Kid(" ", Atom(a), last);
    var glued := Node("", head, kids, "");
    assert WellFormedKids(last, true) && WellFormed(Atom(a));
    assert KidCount(last) == 1;
    assert SeenKids(NoKids, false) == 0;
    assert SeenKids(last, true) == 0;
    assert SeenKids(kids, false) == 1;
    ScannerExactly(config, glued);
  }
}
