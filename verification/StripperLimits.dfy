/** Inputs on which the stripper does not keep a promise: two it is not re-runnable on, and three with comments. */
module StripperLimits {
  import opened Options
  import opened Text
  import opened BodyLexer
  import opened BodyStripper
  import opened GrammarStrip
  import opened BraceKinds

  // ---------- a discard that spans a line comment's end ----------

  /** The statement starts in a line comment and ends on the next line. */
  const SPLIT_DISCARD := "//(void)\nx;"
  const SPLIT_GRAMMAR := Block("a.", SPLIT_DISCARD, End(""))

  lemma {:induction false} RenameNothing(t: string, afterWord: bool)
    requires 'p' !in t
    ensures RenameState(t, afterWord) == t
    decreases |t|
  {
    if t != "" {
      StartsAt(t, "pstate", 0);
      RenameNothing(t[1..], IsWord(t[0]));
    }
  }

  lemma SplitDiscardFound(u: string)
    requires u == "(void)\nx;"
    ensures DiscardAt(u) == Some(Discard("x", 9))
  {
    assert u[..6] == "(void)" && u[6..] == "\nx;" && u[7..] == "x;" && u[8..] == ";";
    assert SpaceRun("\nx;") == 1 by {
      assert "\nx;"[1..] == "x;" && SpaceRun("x;") == 0;
    }
    assert WordRun("x;") == 1 by {
      assert "x;"[1..] == ";" && WordRun(";") == 0;
    }
    assert u[7..8] == "x";
  }

  lemma SplitDiscardParts()
    ensures SPLIT_DISCARD == "/" + ("/" + "(void)\nx;") && 'p' !in SPLIT_DISCARD
  {
  }

  lemma SplitDiscardPromotes(t: string, u: string)
    requires t == "/" + ("/" + u) && 'p' !in t && DiscardAt(u) == Some(Discard("x", |u|))
    ensures Promote(t) == "/" + ("/" + ("let _ = " + "x" + ";"))
  {
    hide BindDiscards, RenameState, DiscardAt;
    RenameNothing(t, false);
    BindComment(u, "x");
  }

  lemma BindComment(u: string, word: string)
    requires DiscardAt(u) == Some(Discard(word, |u|))
    ensures BindDiscards("/" + ("/" + u)) == "/" + ("/" + ("let _ = " + word + ";"))
  {
    hide BindDiscards, DiscardAt;
    BindAll(u, word);
    BindOther('/', u);
    BindOther('/', "/" + u);
  }

  lemma BindAll(t: string, word: string)
    requires DiscardAt(t) == Some(Discard(word, |t|))
    ensures BindDiscards(t) == "let _ = " + word + ";"
  {
    hide DiscardAt;
    assert t[|t|..] == "" && BindDiscards("") == "";
  }

  lemma BindOther(c: char, t: string)
    requires c != '('
    ensures BindDiscards([c] + t) == [c] + BindDiscards(t)
  {
    StartsAt([c] + t, "(void)", 0);
    assert ([c] + t)[1..] == t;
  }

  /** The translated statement lands in the comment, which then swallows the closing brace: the second run stops
      with an unbalanced brace. */
  lemma SplitDiscardBreaksRerun()
    ensures Blocks(SPLIT_GRAMMAR) && LocalBrackets(SPLIT_GRAMMAR)
    ensures Stripped("", Print(SPLIT_GRAMMAR)) == Some(Print(Strip(SPLIT_GRAMMAR)))
    ensures Stripped("", Print(Strip(SPLIT_GRAMMAR))).None?
  {
    hide Stripped, KindOf, Balanced, Promote, DiscardAt, MatchIn, NextIsTwin;
    SplitDiscardIsBody();
    DotKind();
    TextFollowsGrammar("", SPLIT_GRAMMAR);
    SplitDiscardParts();
    SplitDiscardFound("(void)\nx;");
    SplitDiscardPromotes(SPLIT_DISCARD, "(void)\nx;");
    SplitStrip(SPLIT_DISCARD);
    SwallowedBrace();
    UnmatchedBody("a." + TWIN + " ", "/" + ("/" + ("let _ = " + "x" + ";")));
  }

  lemma DotKind()
    ensures KindOf("a.") == Rule && LocalBracket("a.") && '{' !in "a." && '{' !in "a." + TWIN + " "
  {
    assert TrimEnd("a.") == "a." && Head("a.") == "a.";
    assert EndsWith("a.", ".");
  }

  lemma SplitStrip(body: string)
    requires KindOf("a.") == Rule
    ensures Strip(Block("a.", body, End(""))) == Block("a." + TWIN + " ", Promote(body), End(""))
  {
    hide KindOf, Promote;
    assert !NextIsTwin("");
  }

  lemma UnmatchedBody(gap: string, body: string)
    requires '{' !in gap && MatchIn("{" + body + "}" + "", 0).None?
    ensures Stripped("", Print(Block(gap, body, End("")))).None?
  {
    StrippedGap("", gap, "{" + body + "}" + "");
    assert "" + gap == gap;
    StrippedUnmatched(gap, "{" + body + "}" + "");
  }

  lemma StrippedUnmatched(before: string, t: string)
    requires StartsWith(t, "{") && MatchIn(t, 0).None?
    ensures Stripped(before, t).None?
  {
  }

  lemma SplitDiscardIsBody()
    ensures Balanced(SPLIT_DISCARD)
  {
    var b := LineComment("(void)", Other('x', Other(';', Done)));
    assert WellFormed(b);
    assert Render(Other(';', Done)) == ";";
    assert Render(Other('x', Other(';', Done))) == "x;";
    assert Render(b) == "//" + "(void)" + "\n" + "x;" == SPLIT_DISCARD;
    WellFormedIsBalanced(b);
  }

  lemma SwallowedBrace()
    ensures MatchIn("{" + ("/" + ("/" + ("let _ = " + "x" + ";"))) + "}" + "", 0).None?
  {
    var t := "{" + ("/" + ("/" + ("let _ = " + "x" + ";"))) + "}" + "";
    var u := t[1..];
    assert u == "//let _ = x;}";
    assert u[2..] == "let _ = x;}";
    FindNothing(u[2..], '\n');
    LineNeverEnds(t, u);
  }

  lemma LineNeverEnds(t: string, u: string)
    requires t == "{" + u && OpensLine(u) && Find(u[2..], "\n").None?
    ensures MatchIn(t, 0).None?
  {
    assert t[1..] == u;
    assert CommentLength(u, "\n") == |u|;
    assert u[|u|..] == "";
    assert MatchIn(u, 1) == Shift(MatchIn("", 1), |u|);
  }

  // ---------- a bracket that closes one of another gap ----------

  /** `a.[b.{[}%action_rust]{}`: the second body's marker reaches back past its own gap. */
  const GAP1 := "a.[b."
  const GAP2 := "%action_rust]"
  const STRAY_GRAMMAR := Block(GAP1, "[", Block(GAP2, "", End("")))

  lemma StrayKinds()
    ensures KindOf(GAP1) == Rule
    ensures KindOf(GAP1 + ("{" + "[" + "}") + GAP2) == Directive
    ensures KindOf(GAP1 + GAP2) == Rule
  {
    assert EndsWith(GAP1, ".") && TrimEnd(GAP1) == GAP1;
    var p := GAP1 + ("{" + "[" + "}") + GAP2;
    var q := p[..|p| - 1];
    assert TrimEnd(p) == p;
    LastCharIs(q, '[', 6);
    assert p[..6] == GAP1 + "{" && TrimEnd(GAP1 + "{") == GAP1 + "{";
    assert DropMarker(p) == GAP1 + "{";
    assert !EndsWith(GAP1 + "{", ".") && RegexTrimEnd(GAP1 + "{") == GAP1 + "{";
    StrayRule();
  }

  lemma StrayRule()
    ensures KindOf(GAP1 + GAP2) == Rule
  {
    var p := GAP1 + GAP2;
    var q := p[..|p| - 1];
    assert TrimEnd(p) == p;
    LastCharIs(q, '[', 2);
    assert p[..2] == "a." && TrimEnd("a.") == "a.";
    assert DropMarker(p) == "a.";
    assert EndsWith("a.", ".");
  }

  lemma StrayBodies()
    ensures Balanced("[") && Balanced("")
  {
    var b := Other('[', Done);
    assert WellFormed(b) && Render(b) == "[";
    WellFormedIsBalanced(b);
    assert Render(Done) == "";
    WellFormedIsBalanced(Done);
  }

  lemma StrippedEmpty(before: string)
    ensures Stripped(before, "") == Some("")
  {
  }

  /** One body with nothing behind it. */
  lemma LastBody(before: string, gap: string, body: string)
    requires '{' !in gap && Balanced(body)
    ensures Stripped(before, gap + ("{" + body + "}" + ""))
         == Some(gap + Replacement(KindOf(before + gap), body, ""))
  {
    hide Stripped, KindOf, Balanced, Replacement;
    StrippedGap(before, gap, "{" + body + "}" + "");
    StrippedBody(before + gap, body, "");
    StrippedEmpty(before + gap + ("{" + body + "}"));
    var r := Replacement(KindOf(before + gap), body, "");
    assert r + "" == r;
  }

  lemma FirstOfTwo(gap: string, body: string, gap': string, body': string)
    requires '{' !in gap && '{' !in gap' && Balanced(body) && Balanced(body')
    ensures var after := gap' + ("{" + body' + "}" + "");
      Stripped("", gap + ("{" + body + "}" + after))
      == Some(gap + (Replacement(KindOf(gap), body, after)
                     + (gap' + Replacement(KindOf(gap + ("{" + body + "}") + gap'), body', ""))))
  {
    hide Stripped, KindOf, Balanced, Replacement;
    var after := gap' + ("{" + body' + "}" + "");
    StrippedGap("", gap, "{" + body + "}" + after);
    assert "" + gap == gap;
    StrippedBody(gap, body, after);
    LastBody(gap + ("{" + body + "}"), gap', body');
  }

  /** Deleting the first body uncovers the bracket before it, and the second run takes the second body for a rule's. */
  lemma StrayBracketBreaksRerun()
    ensures Blocks(STRAY_GRAMMAR) && !LocalBracket(GAP2)
    ensures Stripped("", Print(STRAY_GRAMMAR)) == Some(GAP1 + GAP2 + "{}")
    ensures Stripped("", GAP1 + GAP2 + "{}") == Some(GAP1 + GAP2 + "%action_rust {}")
  {
    hide Stripped, KindOf, Balanced, Replacement, LocalBracket;
    StrayBodies();
    StrayKinds();
    StrayReplacements();
    StrayGaps();
    StrayFirstRun(GAP1, GAP2);
    StraySecondRun(GAP1 + GAP2);
  }

  lemma StrayGaps()
    ensures '{' !in GAP1 && '{' !in GAP2 && !LocalBracket(GAP2)
  {
    assert TrimEnd(GAP2) == GAP2;
    assert GAP2[|GAP2| - 1..] == "]";
  }

  lemma StrayFirstRun(g1: string, g2: string)
    requires '{' !in g1 && '{' !in g2 && Balanced("[") && Balanced("")
    requires KindOf(g1) == Rule && KindOf(g1 + ("{" + "[" + "}") + g2) == Directive
    requires Replacement(Rule, "[", g2 + ("{" + "" + "}" + "")) == "" && Replacement(Directive, "", "") == "{}"
    ensures Stripped("", Print(Block(g1, "[", Block(g2, "", End(""))))) == Some(g1 + g2 + "{}")
  {
    hide Stripped, KindOf, Balanced, Replacement;
    FirstOfTwo(g1, "[", g2, "");
    assert Print(Block(g2, "", End(""))) == g2 + ("{" + "" + "}" + "");
    assert g1 + ("" + (g2 + "{}")) == g1 + g2 + "{}";
  }

  lemma StraySecondRun(gap: string)
    requires '{' !in gap && Balanced("") && KindOf(gap) == Rule && Replacement(Rule, "", "") == "%action_rust {}"
    ensures Stripped("", gap + "{}") == Some(gap + "%action_rust {}")
  {
    hide Stripped, KindOf, Balanced, Replacement;
    LastBody("", gap, "");
    assert "" + gap == gap;
    assert gap + ("{" + "" + "}" + "") == gap + "{}";
  }

  lemma StrayReplacements()
    ensures Replacement(Rule, "[", GAP2 + ("{" + "" + "}" + "")) == ""
    ensures Replacement(Directive, "", "") == "{}"
    ensures Replacement(Rule, "", "") == "%action_rust {}"
  {
    var after := GAP2 + ("{" + "" + "}" + "");
    assert after[..|TWIN|] == TWIN;
    assert after[0] == '%' && NextIsTwin(after);
    assert Promote("") == "" && !NextIsTwin("");
  }

  // ---------- comments in front of a brace ----------

  lemma LetterIsBalanced()
    ensures Balanced("x")
  {
    var b := Other('x', Done);
    assert WellFormed(b) && Render(b) == "x";
    WellFormedIsBalanced(b);
  }

  lemma LetterPromotes()
    ensures Promote("x") == "x" && !NextIsTwin("")
  {
    RenameNothing("x", false);
    BindOther('x', "");
    assert ['x'] + "" == "x" && BindDiscards("") == "";
  }

  lemma OneBody(gap: string, body: string)
    requires '{' !in gap && Balanced(body)
    ensures Stripped("", gap + ("{" + body + "}")) == Some(gap + Replacement(KindOf(gap), body, ""))
  {
    hide Stripped, KindOf, Balanced, Replacement;
    LastBody("", gap, body);
    assert "" + gap == gap;
    assert "{" + body + "}" + "" == "{" + body + "}";
  }

  /** Behind a comment that reads like the end of a rule, every body is taken for a rule's. */
  lemma DotCommentMisleads(text: string, note: string, body: string)
    requires '{' !in text && '{' !in note && LocalBracket(note) && EndsRule(note) && Balanced(body)
    ensures var gap := text + ("//" + note + "\n");
      Stripped("", gap + ("{" + body + "}")) == Some(gap + Replacement(Rule, body, ""))
  {
    hide Stripped, KindOf, Balanced, LocalBracket, Replacement, EndsRule;
    KindExactly(note);
    BehindLineNote(text, End(note));
    OneBody(text + ("//" + note + "\n"), body);
  }

  /** And behind a block comment none is. */
  lemma BlockCommentMisleads(text: string, note: string, c: char, body: string)
    requires '{' !in text && '{' !in note && IsSpace(c) && Balanced(body)
    ensures var src := (text + ("/*" + note + "*/") + [c]) + ("{" + body + "}");
      Stripped("", src) == Some(src)
  {
    hide Stripped, KindOf, Balanced, TrimEnd;
    var gap := text + ("/*" + note + "*/");
    BehindBlockNote(text, End(note));
    TrimSpace(gap, c);
    KindOfTrimmed(gap, gap + [c]);
    OneBody(gap + [c], body);
  }

  lemma EndsWithDot(note: string, n: nat)
    requires |note| == n + 1 && note[n] == '.'
    ensures EndsRule(note) && LocalBracket(note)
  {
    assert Blank(note[n + 1..]);
    assert EndsInDot(note);
    assert TrimEnd(note) == note;
  }

  lemma MisleadingDirective()
    ensures Stripped("", "%include // see docs.\n{x}") == Some("%include // see docs.\n%action_rust {x}")
  {
    hide Stripped, Balanced, Promote, NextIsTwin, EndsRule, LocalBracket, Replacement;
    LetterIsBalanced();
    EndsWithDot(" see docs.", 9);
    DotCommentMisleads("%include ", " see docs.", "x");
    LetterReplaced();
    DirectiveTexts("%include " + ("//" + " see docs." + "\n"));
  }

  lemma DirectiveTexts(gap: string)
    requires gap == "%include " + ("//" + " see docs." + "\n")
    ensures '{' !in "%include " && '{' !in " see docs."
    ensures gap + ("{" + "x" + "}") == "%include // see docs.\n{x}"
    ensures gap + "%action_rust {x}" == "%include // see docs.\n%action_rust {x}"
  {
    assert gap == "%include // see docs.\n" && "{" + "x" + "}" == "{x}";
  }

  lemma LetterReplaced()
    ensures Replacement(Rule, "x", "") == "%action_rust {x}"
  {
    hide Promote, NextIsTwin;
    LetterPromotes();
  }

  lemma MisleadingRule()
    ensures Stripped("", "a. /* note */ {x}") == Some("a. /* note */ {x}")
  {
    hide Stripped, Balanced;
    LetterIsBalanced();
    BlockCommentMisleads("a. ", " note ", ' ', "x");
    assert ("a. " + ("/*" + " note " + "*/") + [' ']) + ("{" + "x" + "}") == "a. /* note */ {x}";
  }

  /** A comment that ends in a dot makes a rule's action of a directive's body, and any other comment hides a rule's
      action, although the script promises to look at the last token that is no comment. */
  lemma CommentsMislead()
    ensures Stripped("", "%include // see docs.\n{x}") == Some("%include // see docs.\n%action_rust {x}")
    ensures Stripped("", "a. /* note */ {x}") == Some("a. /* note */ {x}")
  {
    hide Stripped;
    MisleadingDirective();
    MisleadingRule();
  }

  /** Text in braces is rewritten in a comment, too, when it stands behind a dot. */
  lemma RewrittenComment()
    ensures Stripped("", "// see. {x}") == Some("// see. %action_rust {x}")
  {
    hide Stripped, KindOf, Balanced, Replacement;
    LetterIsBalanced();
    LetterReplaced();
    DotBeforeSpace("// see");
    OneBody("// see. ", "x");
    assert "// see" + "." + " " == "// see. ";
    assert "// see. " + ("{" + "x" + "}") == "// see. {x}";
    assert "// see. " + "%action_rust {x}" == "// see. %action_rust {x}";
  }

  lemma DotBeforeSpace(text: string)
    ensures KindOf(text + "." + " ") == Rule
  {
    var t := text + ".";
    assert TrimEnd(t) == t && t[|t| - 1..] == ".";
    DottedKind(t);
    TrimSpace(t, ' ');
    KindOfTrimmed(t, t + [' ']);
  }

  /** A brace in a comment between bodies opens a body all the same: left open it stops the script, and closed it is
      stripped like any other. */
  lemma BraceInComment()
    ensures Stripped("", "// {").None?
    ensures Stripped("", "// see. {x}") == Some("// see. %action_rust {x}")
  {
    hide Stripped;
    StrippedGap("", "// ", "{");
    assert "{"[1..] == "" && MatchIn("{", 0) == Shift(MatchIn("", 1), 1);
    StrippedUnmatched("" + "// ", "{");
    assert "// " + "{" == "// {";
    RewrittenComment();
  }
}
