/** Rewriting the aliases of a union in a pattern, by text replacement and on terms. */
module PatternDesugar {
  import opened Options
  import opened Text
  import opened SexpScanner
  import opened SexpTheorems

  const SUGARED := "(union_all "
  const DASHED := "(union-all "
  const PLAIN := "(union true "

  function NormalizePattern(pattern: string): string {
    ReplaceAll(ReplaceAll(pattern, SUGARED, PLAIN), DASHED, PLAIN)
  }

  /** Whether a space follows the head. */
  predicate SpaceAfterHead(t: Term)
    requires t.Node?
  {
    (PrintKids(t.kids) + (t.trail + ")"))[0] == ' '
  }

  /** The node `(name ...)` as the replacement recognises it: nothing before the name and a space after it. */
  predicate Sugared(t: Term, name: string) {
    t.Node? && t.lead == "" && t.head == name && SpaceAfterHead(t)
  }

  /** Every `(name ...)` node turned into `(union true ...)`. */
  function Desugar(t: Term, name: string): Term {
    match t
    case Atom(_) => t
    case Node(lead, head, kids, trail) =>
      if Sugared(t, name) then Node("", "union", Kid(" ", Atom("true"), DesugarKids(kids, name)), trail)
      else Node(lead, head, DesugarKids(kids, name), trail)
  }

  function DesugarKids(kids: Kids, name: string): Kids {
    match kids
    case NoKids => NoKids
    case Kid(sep, term, rest) => Kid(sep, Desugar(term, name), DesugarKids(rest, name))
  }

  /** Both aliases at once. */
  function DesugarUnions(t: Term): Term {
    match t
    case Atom(_) => t
    case Node(lead, head, kids, trail) =>
      if Sugared(t, "union_all") || Sugared(t, "union-all") then
        Node("", "union", Kid(" ", Atom("true"), DesugarUnionsKids(kids)), trail)
      else Node(lead, head, DesugarUnionsKids(kids), trail)
  }

  function DesugarUnionsKids(kids: Kids): Kids {
    match kids
    case NoKids => NoKids
    case Kid(sep, term, rest) => Kid(sep, DesugarUnions(term), DesugarUnionsKids(rest))
  }

  function Marker(name: string): string {
    ['('] + (name + " ")
  }

  /** The marker occurs at an opening parenthesis just when the node there is sugared. */
  lemma MarkerAt(t: Term, name: string, rest: string)
    requires t.Node? && WellFormed(t) && IsToken(name)
    ensures StartsWith(Print(t) + rest, Marker(name)) <==> Sugared(t, name)
  {
    hide PrintKids, WellFormedKids;
    NodeText(t, rest);
    var after := PrintKids(t.kids) + (t.trail + ([')'] + rest));
    assert after == (PrintKids(t.kids) + (t.trail + ")")) + rest;
    AfterHead(t);
    var end := (PrintKids(t.kids) + (t.trail + ")"))[0];
    assert after[0] == end;
    var u := t.lead + (t.head + after);
    MarkerTail(name, u, Print(t) + rest);
    if t.lead == "" {
      assert u == t.head + after;
      TokenThenSpace(t.head, after, name);
    } else {
      assert u[0] == ' ';
      NotAtSpace(u, name);
    }
  }

  lemma MarkerTail(name: string, u: string, w: string)
    requires w == ['('] + u
    ensures StartsWith(w, Marker(name)) <==> StartsWith(u, name + " ")
  {
    if StartsWith(w, Marker(name)) {
      assert w[..|name| + 2][1..] == u[..|name| + 1];
      assert Marker(name)[1..] == name + " ";
    }
    if StartsWith(u, name + " ") {
      assert w[..|name| + 2] == ['('] + u[..|name| + 1];
    }
  }

  lemma NotAtSpace(u: string, name: string)
    requires u != "" && u[0] == ' ' && IsToken(name)
    ensures !StartsWith(u, name + " ")
  {
    if StartsWith(u, name + " ") {
      StartsAt(u, name + " ", 0);
    }
  }

  /** A text that starts with a token and then something else starts with `name` and a space just when the token is
      that name and the space comes next. */
  lemma TokenThenSpace(head: string, after: string, name: string)
    requires IsToken(head) && IsToken(name) && after != "" && !TokenChar(after[0])
    ensures StartsWith(head + after, name + " ") <==> head == name && after[0] == ' '
  {
    var u, p := head + after, name + " ";
    assert forall i :: 0 <= i < |head| ==> u[i] == head[i];
    assert u[|head|] == after[0];
    if StartsWith(u, p) {
      assert forall i :: 0 <= i < |p| ==> u[i] == p[i] by {
        assert forall i :: 0 <= i < |p| ==> u[..|p|][i] == u[i];
      }
      assert forall i :: 0 <= i < |name| ==> p[i] == name[i];
      assert p[|name|] == ' ';
      assert |head| >= |name|;
      assert |head| <= |name|;
      assert head == name;
    }
    if head == name && after[0] == ' ' {
      assert u[..|p|] == p;
    }
  }

  // ---------- one alias ----------

  /** Replacing the marker in the text of a term replaces it in the term. */
  lemma {:induction false} ReplaceInTerm(t: Term, name: string, rest: string)
    requires WellFormed(t) && IsToken(name)
    ensures ReplaceAll(Print(t) + rest, Marker(name), PLAIN)
         == Print(Desugar(t, name)) + ReplaceAll(rest, Marker(name), PLAIN)
    decreases t, 1
  {
    hide ReplaceAll, StartsWith, Print, PrintKids, Sugared;
    var m := Marker(name);
    match t
    case Atom(token) =>
      AtomText(t);
      ReplaceCopies(token, rest, m, PLAIN);
    case Node(lead, head, kids, trail) =>
      NodeText(t, rest);
      var after := PrintKids(kids) + (trail + ([')'] + rest));
      var kids', rest' := DesugarKids(kids, name), ReplaceAll(rest, m, PLAIN);
      var after' := PrintKids(kids') + (trail + ([')'] + rest'));
      ReplaceAfterHead(kids, trail, name, rest);
      NodeText(Desugar(t, name), rest');
      MarkerAt(t, name, rest);
      if Sugared(t, name) {
        SugaredText(t, name, rest);
        ReplaceMatch(after[1..], m, PLAIN);
        ReplaceCopies(" ", after[1..], m, PLAIN);
        UnionText(kids', after', ReplaceAll(after[1..], m, PLAIN), trail, [')'] + rest');
      } else {
        ReplaceOther('(', lead + (head + after), m, PLAIN);
        ReplaceCopies(lead, head + after, m, PLAIN);
        ReplaceCopies(head, after, m, PLAIN);
      }
  }

  /** From behind the head of a node on. */
  lemma {:induction false} ReplaceAfterHead(kids: Kids, trail: string, name: string, rest: string)
    requires WellFormedKids(kids, true) && AllBlank(trail) && IsToken(name)
    ensures ReplaceAll(PrintKids(kids) + (trail + ([')'] + rest)), Marker(name), PLAIN)
         == PrintKids(DesugarKids(kids, name)) + (trail + ([')'] + ReplaceAll(rest, Marker(name), PLAIN)))
    decreases kids, 1
  {
    hide ReplaceAll, StartsWith, Print, PrintKids, DesugarKids;
    var m := Marker(name);
    ReplaceInKids(kids, name, trail + ([')'] + rest), true);
    BlankPlain(trail);
    ReplaceCopies(trail, [')'] + rest, m, PLAIN);
    ReplaceCopies([')'], rest, m, PLAIN);
  }

  lemma {:induction false} ReplaceInKids(kids: Kids, name: string, rest: string, afterToken: bool)
    requires WellFormedKids(kids, afterToken) && IsToken(name)
    ensures ReplaceAll(PrintKids(kids) + rest, Marker(name), PLAIN)
         == PrintKids(DesugarKids(kids, name)) + ReplaceAll(rest, Marker(name), PLAIN)
    decreases kids, 0
  {
    hide ReplaceAll, StartsWith, Print, PrintKids;
    var m, rest' := Marker(name), ReplaceAll(rest, Marker(name), PLAIN);
    if kids.NoKids? {
      NoKidsText(kids, rest);
      NoKidsText(kids, rest');
    } else {
      var more := PrintKids(kids.rest) + rest;
      KidText(kids, rest);
      KidText(DesugarKids(kids, name), rest');
      BlankPlain(kids.sep);
      ReplaceCopies(kids.sep, Print(kids.term) + more, m, PLAIN);
      ReplaceInTerm(kids.term, name, more);
      ReplaceInKids(kids.rest, name, rest, kids.term.Atom?);
    }
  }

  lemma SugaredText(t: Term, name: string, rest: string)
    requires Sugared(t, name)
    ensures var after := PrintKids(t.kids) + (t.trail + ([')'] + rest));
      after != "" && after == " " + after[1..]
      && ['('] + (t.lead + (t.head + after)) == Marker(name) + after[1..]
  {
    hide PrintKids;
    var after := PrintKids(t.kids) + (t.trail + ([')'] + rest));
    assert after == (PrintKids(t.kids) + (t.trail + ")")) + rest;
    assert after == " " + after[1..];
    assert Marker(name) + after[1..] == ['('] + (name + (" " + after[1..]));
  }

  lemma UnionText(kids: Kids, after: string, tail: string, trail: string, closing: string)
    requires after == PrintKids(kids) + (trail + closing) && after == " " + tail
    ensures PLAIN + tail == ['('] + ("" + ("union" + (PrintKids(Kid(" ", Atom("true"), kids)) + (trail + closing))))
  {
    var u := Kid(" ", Atom("true"), kids);
    assert PrintKids(u) == " " + ("true" + PrintKids(kids)) by {
      AtomText(u.term);
    }
    UnionJoin(PrintKids(kids), trail + closing, after, tail);
  }

  lemma UnionJoin(k: string, c: string, after: string, tail: string)
    requires after == k + c && after == " " + tail
    ensures PLAIN + tail == ['('] + ("" + ("union" + ((" " + ("true" + k)) + c)))
  {
    assert (" " + ("true" + k)) + c == " true" + after;
    assert PLAIN + tail == "(union true" + (" " + tail);
  }

  // ---------- both aliases ----------

  lemma DesugarKeepsShape(t: Term, name: string)
    requires WellFormed(t)
    ensures t.Node? == Desugar(t, name).Node?
    ensures t.Node? ==> Print(Desugar(t, name))[0] == '('
  {
  }

  /** What comes first behind a head stays the same kind of character when the children are desugared. */
  lemma SpaceStays(t: Term, kids: Kids)
    requires t.Node? && WellFormed(t) && kids == DesugarKids(t.kids, "union_all")
    ensures SpaceAfterHead(t.(kids := kids)) == SpaceAfterHead(t)
  {
    hide Desugar;
    if t.kids.Kid? {
      var k := t.kids;
      KidText(k, t.trail + ")");
      KidText(kids, t.trail + ")");
      if k.sep == "" {
        DesugarKeepsShape(k.term, "union_all");
        assert (k.sep + (Print(k.term) + (PrintKids(k.rest) + (t.trail + ")"))))[0] == Print(k.term)[0] == '(';
        assert (k.sep + (Print(kids.term) + (PrintKids(kids.rest) + (t.trail + ")"))))[0] == Print(kids.term)[0];
      } else {
        assert (k.sep + (Print(k.term) + (PrintKids(k.rest) + (t.trail + ")"))))[0] == k.sep[0];
        assert (k.sep + (Print(kids.term) + (PrintKids(kids.rest) + (t.trail + ")"))))[0] == k.sep[0];
      }
    }
  }

  lemma {:induction false} DesugarKeepsWellFormed(t: Term)
    requires WellFormed(t)
    ensures WellFormed(Desugar(t, "union_all")) && Desugar(t, "union_all").Atom? == t.Atom?
    decreases t, 1
  {
    hide Sugared;
    if t.Node? {
      var kids := DesugarKids(t.kids, "union_all");
      DesugarKidsKeepsWellFormed(t.kids, true);
      DesugarKidsKeepsWellFormed(t.kids, true);
      assert WellFormed(Atom("true"));
      assert WellFormedKids(Kid(" ", Atom("true"), kids), true);
    }
  }

  lemma {:induction false} DesugarKidsKeepsWellFormed(kids: Kids, afterToken: bool)
    requires WellFormedKids(kids, afterToken)
    ensures WellFormedKids(DesugarKids(kids, "union_all"), afterToken)
    decreases kids, 0
  {
    if kids.Kid? {
      DesugarKeepsWellFormed(kids.term);
      DesugarKidsKeepsWellFormed(kids.rest, kids.term.Atom?);
    }
  }

  lemma {:induction false} DesugarTwice(t: Term)
    requires WellFormed(t)
    ensures Desugar(Desugar(t, "union_all"), "union-all") == DesugarUnions(t)
    decreases t, 1
  {
    hide SpaceAfterHead;
    if t.Node? {
      var kids := DesugarKids(t.kids, "union_all");
      DesugarKidsTwice(t.kids, true);
      SpaceStays(t, kids);
      AliasesDiffer();
      if Sugared(t, "union_all") {
        var flagged := Kid(" ", Atom("true"), kids);
        assert DesugarKids(flagged, "union-all") == Kid(" ", Atom("true"), DesugarKids(kids, "union-all"));
        assert Desugar(t, "union_all") == Node("", "union", flagged, t.trail);
      } else {
        assert Desugar(t, "union_all") == t.(kids := kids);
      }
    }
  }

  lemma AliasesDiffer()
    ensures "union_all" != "union-all" && "union" != "union-all"
  {
    assert "union_all"[5] != "union-all"[5];
  }

  lemma {:induction false} DesugarKidsTwice(kids: Kids, afterToken: bool)
    requires WellFormedKids(kids, afterToken)
    ensures DesugarKids(DesugarKids(kids, "union_all"), "union-all") == DesugarUnionsKids(kids)
    decreases kids, 0
  {
    if kids.Kid? {
      DesugarTwice(kids.term);
      DesugarKidsTwice(kids.rest, kids.term.Atom?);
    }
  }

  /** For every term in every layout, normalising its text gives the text of the term with every `union_all` and
      `union-all` node turned into a `union true` node. */
  lemma NormalizeIsDesugar(t: Term)
    requires WellFormed(t)
    ensures NormalizePattern(Print(t)) == Print(DesugarUnions(t))
  {
    hide ReplaceAll, Print, Desugar, DesugarUnions;
    var once := Desugar(t, "union_all");
    assert Marker("union_all") == SUGARED && Marker("union-all") == DASHED;
    ReplaceWhole(t, "union_all");
    DesugarKeepsWellFormed(t);
    ReplaceWhole(once, "union-all");
    DesugarTwice(t);
  }

  lemma ReplaceWhole(t: Term, name: string)
    requires WellFormed(t) && IsToken(name)
    ensures ReplaceAll(Print(t), Marker(name), PLAIN) == Print(Desugar(t, name))
  {
    hide Print, Desugar;
    ReplaceInTerm(t, name, "");
    assert Print(t) + "" == Print(t);
    assert Print(Desugar(t, name)) + "" == Print(Desugar(t, name));
  }

  // ---------- what the check makes of a normalised pattern ----------

  /** Desugaring keeps layouts readable and spaced. */
  lemma {:induction false} DesugarUnionsKeeps(t: Term)
    requires WellFormed(t) && Spaced(t)
    ensures WellFormed(DesugarUnions(t)) && Spaced(DesugarUnions(t)) && DesugarUnions(t).Atom? == t.Atom?
    decreases t, 1
  {
    hide Print, PrintKids, HeadEnds, SpaceAfterHead;
    if t.Node? {
      var kids := DesugarUnionsKids(t.kids);
      DesugarUnionsKidsKeeps(t.kids, true);
      if Sugared(t, "union_all") || Sugared(t, "union-all") {
        var flagged := Kid(" ", Atom("true"), kids);
        FirstIsSpace(Node("", "union", flagged, t.trail));
        DesugarUnionsKidsKeeps(t.kids, true);
        assert WellFormed(Atom("true")) && Spaced(Atom("true"));
        assert WellFormedKids(flagged, true) && SpacedKids(flagged, true);
        assert IsToken("union");
      } else {
        SameFirst(t, kids);
      }
    }
  }

  lemma {:induction false} DesugarUnionsKidsKeeps(kids: Kids, afterToken: bool)
    requires WellFormedKids(kids, afterToken) && SpacedKids(kids, afterToken)
    ensures WellFormedKids(DesugarUnionsKids(kids), afterToken) && SpacedKids(DesugarUnionsKids(kids), afterToken)
    decreases kids, 0
  {
    hide DesugarUnions;
    if kids.Kid? {
      DesugarUnionsKeeps(kids.term);
      DesugarUnionsKidsKeeps(kids.rest, kids.term.Atom?);
    }
  }

  lemma FirstIsSpace(t: Term)
    requires t.Node? && t.kids.Kid? && t.kids.sep == " "
    ensures HeadEnds(t)
  {
    hide PrintKids;
    KidText(t.kids, t.trail + ")");
  }

  lemma SameFirst(t: Term, kids: Kids)
    requires t.Node? && HeadEnds(t) && SpacedKids(t.kids, true) && kids == DesugarUnionsKids(t.kids)
    ensures HeadEnds(t.(kids := kids))
  {
    hide PrintKids;
    if t.kids.Kid? {
      KidText(t.kids, t.trail + ")");
      KidText(kids, t.trail + ")");
    } else {
      NoKidsText(t.kids, t.trail + ")");
      NoKidsText(kids, t.trail + ")");
    }
  }

  /** A `union_all` of two inputs passes the check exactly when its inputs do, once it is normalised: the flag that
      normalising adds is the third child that `union` asks for. */
  lemma NormalizedUnionChecked(config: Config, a: Term, b: Term)
    requires config.Valid() && WellFormed(a) && WellFormed(b) && Spaced(a) && Spaced(b)
    requires !config.isNumber("union") && LookupOperator(config.table, "union") == Some(Operator("union", Some(3)))
    ensures var pattern := Print(Node("", "union_all", Kid(" ", a, Kid(" ", b, NoKids)), ""));
      Invalid(config, NormalizePattern(pattern)) <==>
      IllFormed(config, DesugarUnions(a)) || IllFormed(config, DesugarUnions(b))
  {
    hide Print, PrintKids, Invalid, IllFormed, Spaced, WellFormed, DesugarUnions, LookupOperator;
    var a', b' := DesugarUnions(a), DesugarUnions(b);
    var t := Node("", "union_all", Kid(" ", a, Kid(" ", b, NoKids)), "");
    var u := Node("", "union", Kid(" ", Atom("true"), Kid(" ", a', Kid(" ", b', NoKids))), "");
    UnionOfTwo(a, b, t, u);
    DesugarUnionsKeeps(t);
    NormalizeIsDesugar(t);
    ScannerDecidesWellFormedness(config, u);
    UnionArity(config, a', b', u);
  }

  lemma KidAfterSpace(t: Term, rest: Kids, afterToken: bool)
    requires WellFormed(t) && Spaced(t)
    requires rest.NoKids? || (WellFormedKids(rest, t.Atom?) && SpacedKids(rest, t.Atom?))
    ensures WellFormedKids(Kid(" ", t, rest), afterToken) && SpacedKids(Kid(" ", t, rest), afterToken)
  {
    assert AllBlank(" ");
  }

  lemma UnionOfTwo(a: Term, b: Term, t: Term, u: Term)
    requires t == Node("", "union_all", Kid(" ", a, Kid(" ", b, NoKids)), "")
    requires var kids := Kid(" ", DesugarUnions(a), Kid(" ", DesugarUnions(b), NoKids));
      u == Node("", "union", Kid(" ", Atom("true"), kids), "")
    requires WellFormed(a) && WellFormed(b) && Spaced(a) && Spaced(b)
    ensures WellFormed(t) && Spaced(t) && DesugarUnions(t) == u
  {
    hide Print, PrintKids;
    var kb := Kid(" ", b, NoKids);
    var ka := Kid(" ", a, kb);
    KidAfterSpace(b, NoKids, a.Atom?);
    KidAfterSpace(a, kb, true);
    KidText(ka, "" + ")");
    FirstIsSpace(t);
    assert DesugarUnionsKids(kb) == Kid(" ", DesugarUnions(b), NoKids);
    assert DesugarUnionsKids(ka) == Kid(" ", DesugarUnions(a), Kid(" ", DesugarUnions(b), NoKids));
    assert Sugared(t, "union_all");
  }

  lemma UnionArity(config: Config, a: Term, b: Term, u: Term)
    requires u == Node("", "union", Kid(" ", Atom("true"), Kid(" ", a, Kid(" ", b, NoKids))), "")
    requires !config.isNumber("union") && LookupOperator(config.table, "union") == Some(Operator("union", Some(3)))
    ensures IllFormed(config, u) <==> IllFormed(config, a) || IllFormed(config, b)
  {
    hide LookupOperator;
    var kb := Kid(" ", b, NoKids);
    var ka := Kid(" ", a, kb);
    assert KidCount(kb) == 1 && KidCount(ka) == 2 && KidCount(u.kids) == 3;
    assert KidsIllFormed(config, kb) == IllFormed(config, b);
    assert KidsIllFormed(config, ka) == (IllFormed(config, a) || IllFormed(config, b));
    assert !IllFormed(config, Atom("true"));
    assert u.head[0] == 'u';
  }
}
