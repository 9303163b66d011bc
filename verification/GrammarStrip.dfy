/** Stripping seen on the grammar's structure: a grammar is a list of brace bodies with gaps of text between. */
module GrammarStrip {
  import opened Options
  import opened Text
  import opened BodyLexer
  import opened BodyStripper

  datatype Grammar = End(text: string) | Block(gap: string, body: string, rest: Grammar)

  function Print(g: Grammar): string {
    match g
    case End(text) => text
    case Block(gap, body, rest) => gap + ("{" + body + "}" + Print(rest))
  }

  /** Bodies are balanced and no brace opens outside of them. */
  ghost predicate Blocks(g: Grammar) {
    match g
    case End(text) => '{' !in text
    case Block(gap, body, rest) => '{' !in gap && Balanced(body) && Blocks(rest)
  }

  /** A `]` in front of a body closes a bracket of the same gap. */
  predicate LocalBracket(gap: string) {
    var p := TrimEnd(gap);
    EndsWith(p, "]") ==> '[' in p[..|p| - 1]
  }

  predicate LocalBrackets(g: Grammar) {
    g.End? || (LocalBracket(g.gap) && LocalBrackets(g.rest))
  }

  /** The text `text` put in front of a grammar. */
  function Prepend(text: string, g: Grammar): Grammar {
    match g
    case End(t) => End(text + t)
    case Block(gap, body, rest) => Block(text + gap, body, rest)
  }

  /** What stripping means: a body behind a rule terminator goes away if its Rust twin comes next, and otherwise
      becomes a Rust action with the translated text; everything else stays. */
  function Strip(g: Grammar): Grammar {
    match g
    case End(_) => g
    case Block(gap, body, rest) =>
      if KindOf(gap) != Rule then Block(gap, body, Strip(rest))
      else if NextIsTwin(Print(rest)) then Prepend(gap, Strip(rest))
      else Block(gap + TWIN + " ", Promote(body), Strip(rest))
  }

  ghost predicate NoRules(g: Grammar) {
    g.End? || (KindOf(g.gap) != Rule && NoRules(g.rest))
  }

  /** The translation of every body that gets one is balanced again. */
  ghost predicate PromotionsBalanced(g: Grammar) {
    g.End?
    || ((KindOf(g.gap) == Rule && !NextIsTwin(Print(g.rest)) ==> Balanced(Promote(g.body)))
        && PromotionsBalanced(g.rest))
  }

  // ---------- the kind of a body depends on its own gap only ----------

  lemma {:induction false} TrimEndAppend(a: string, b: string)
    requires TrimEnd(b) != ""
    ensures TrimEnd(a + b) == a + TrimEnd(b)
    decreases |b|
  {
    if IsSpace(b[|b| - 1]) {
      assert (a + b)[..|a + b| - 1] == a + b[..|b| - 1];
      TrimEndAppend(a, b[..|b| - 1]);
    }
  }

  lemma {:induction false} TrimEndAll(a: string, b: string)
    requires TrimEnd(b) == "" && (a == "" || !IsSpace(a[|a| - 1]))
    ensures TrimEnd(a + b) == a
    decreases |b|
  {
    if b == "" {
      assert a + b == a;
    } else {
      assert (a + b)[..|a + b| - 1] == a + b[..|b| - 1];
      TrimEndAll(a, b[..|b| - 1]);
    }
  }

  lemma {:induction false} LastCharIs(p: string, c: char, k: nat)
    requires k < |p| && p[k] == c && forall i :: k < i < |p| ==> p[i] != c
    ensures FindLastChar(p, c) == Some(k)
    decreases |p|
  {
    if k < |p| - 1 {
      LastCharIs(p[..|p| - 1], c, k);
    }
  }

  lemma {:induction false} FindLastAppend(a: string, b: string, c: char)
    requires c in b
    ensures FindLastChar(a + b, c) == Shift(FindLastChar(b, c), |a|)
    decreases |b|
  {
    assert (a + b)[..|a + b| - 1] == a + b[..|b| - 1];
    if b[|b| - 1] != c {
      FindLastAppend(a, b[..|b| - 1], c);
    }
  }

  lemma {:induction false} RegexTrimAppend(a: string, b: string)
    requires RegexTrimEnd(b) != ""
    ensures RegexTrimEnd(a + b) == a + RegexTrimEnd(b)
    decreases |b|
  {
    if IsRegexSpace(b[|b| - 1]) {
      assert (a + b)[..|a + b| - 1] == a + b[..|b| - 1];
      RegexTrimAppend(a, b[..|b| - 1]);
    }
  }

  /** A first visible character that no spaces, markers or terminators hide. */
  ghost predicate Anchored(b: string) {
    exists i :: 0 <= i < |b| && (b[i] == '%' || b[i] == '/') && forall k :: 0 <= k < i ==> IsSpace(b[k])
  }

  lemma {:induction false} TrimKeepsPrefix(b: string, i: nat)
    requires i < |b| && !IsSpace(b[i])
    ensures i < |TrimEnd(b)|
    decreases |b|
  {
    if IsSpace(b[|b| - 1]) {
      TrimKeepsPrefix(b[..|b| - 1], i);
    }
  }

  lemma {:induction false} RegexTrimKeepsPrefix(b: string, i: nat)
    requires i < |b| && !IsRegexSpace(b[i])
    ensures i < |RegexTrimEnd(b)|
    decreases |b|
  {
    if IsRegexSpace(b[|b| - 1]) {
      RegexTrimKeepsPrefix(b[..|b| - 1], i);
    }
  }

  function Head(b: string): string {
    DropMarker(TrimEnd(b))
  }

  /** The bracket that the marker at the end of `p` closes stays where it is when text comes in front. */
  lemma MarkerAppend(a: string, p: string) returns (lb: nat)
    requires p != "" && p[|p| - 1] == ']' && '[' in p[..|p| - 1]
    ensures lb < |p| && p[lb] == '[' && DropMarker(p) == TrimEnd(p[..lb]) && DropMarker(a + p) == TrimEnd(a + p[..lb])
  {
    hide TrimEnd, FindLastChar;
    var q := p[..|p| - 1];
    TakeAppend(a, p, |p| - 1);
    FindLastAppend(a, q, '[');
    lb := FindLastChar(q, '[').value;
    TakeAppend(a, p, lb);
  }

  lemma LocalMarker(b: string)
    requires LocalBracket(b) && TrimEnd(b) != "" && TrimEnd(b)[|TrimEnd(b)| - 1] == ']'
    ensures '[' in TrimEnd(b)[..|TrimEnd(b)| - 1]
  {
    var p := TrimEnd(b);
    assert p[|p| - 1..] == "]";
  }

  /** The visible text before a brace, when some of it lies in the brace's own gap. */
  lemma HeadAppend(a: string, b: string)
    requires LocalBracket(b) && Head(b) != ""
    ensures Head(a + b) == a + Head(b)
  {
    var p := TrimEnd(b);
    TrimEndAppend(a, b);
    if p[|p| - 1] == ']' {
      LocalMarker(b);
      var lb := MarkerAppend(a, p);
      TrimEndAppend(a, p[..lb]);
    }
  }

  /** And when none of it does: then it ends with the text before the gap. */
  lemma HeadAll(a: string, b: string)
    requires LocalBracket(b) && Head(b) == ""
    requires a == "" || (!IsSpace(a[|a| - 1]) && a[|a| - 1] != ']')
    ensures Head(a + b) == a
  {
    var p := TrimEnd(b);
    if p == "" {
      TrimEndAll(a, b);
    } else {
      TrimEndAppend(a, b);
      LocalMarker(b);
      var lb := MarkerAppend(a, p);
      TrimEndAll(a, p[..lb]);
    }
  }

  predicate EndsInTwin(p: string) {
    EndsWith(RegexTrimEnd(Window(p)), TWIN)
  }

  lemma WindowAppend(a: string, p: string)
    ensures exists n: nat :: n <= |a| && Window(a + p) == a[n..] + Window(p) && (|p| >= 41 || |a| == 0 ==> n == |a|)
                             && (|p| < 41 && |a| > 0 ==> n < |a|)
  {
    var w := a + p;
    if |p| >= 41 {
      assert Window(w) == a[|a|..] + Window(p);
    } else if |w| <= 41 {
      assert Window(w) == a[0..] + Window(p);
    } else {
      assert Window(w) == a[|w| - 41..] + Window(p);
    }
  }

  lemma EndsWithAt(w: string, pat: string, k: nat)
    requires k < |pat| <= |w|
    ensures EndsWith(w, pat) ==> w[|w| - |pat| + k] == pat[k]
  {
    if EndsWith(w, pat) {
      assert w[|w| - |pat|..][k] == w[|w| - |pat| + k];
    }
  }

  /** A keyword that ends the joined text ends in its second part alone, if a character of the second part that
      the keyword could only start with, or the last one of the first part, is in the way. */
  lemma TwinInSecondPart(a: string, q: string)
    requires q != "" && (a == "" || a[|a| - 1] == '}' || '%' in q || '/' in q)
    ensures EndsWith(a + q, TWIN) == EndsWith(q, TWIN)
  {
    var w := a + q;
    if |q| >= |TWIN| {
      assert w[|w| - |TWIN|..] == q[|q| - |TWIN|..];
    } else if |w| >= |TWIN| {
      assert forall k :: 1 <= k < |TWIN| ==> TWIN[k] != '%' && TWIN[k] != '/' && TWIN[k] != '}';
      EndsWithAt(w, TWIN, |TWIN| - |q| - 1);
      assert TWIN[0] != '}' && w[|w| - |q| - 1] == a[|a| - 1];
      forall k | 0 <= k < |q| ensures EndsWith(w, TWIN) ==> q[k] == TWIN[|TWIN| - |q| + k] {
        EndsWithAt(w, TWIN, |TWIN| - |q| + k);
      }
    }
  }

  /** The anchor's character survives the trimming. */
  lemma AnchorStays(p: string)
    requires Anchored(p)
    ensures RegexTrimEnd(p) != "" && ('%' in RegexTrimEnd(p) || '/' in RegexTrimEnd(p))
  {
    hide RegexTrimEnd;
    var i :| 0 <= i < |p| && (p[i] == '%' || p[i] == '/') && forall k :: 0 <= k < i ==> IsSpace(p[k]);
    RegexTrimKeepsPrefix(p, i);
    assert RegexTrimEnd(p)[i] == p[i];
  }

  lemma TrimmedTwin(x: string, p: string)
    requires x != "" && (x[|x| - 1] == '}' || Anchored(p))
    ensures EndsWith(RegexTrimEnd(x + p), TWIN) == EndsWith(RegexTrimEnd(p), TWIN)
  {
    hide RegexTrimEnd, Anchored, EndsWith;
    if Anchored(p) {
      AnchorStays(p);
    }
    if RegexTrimEnd(p) == "" {
      RegexTrimAll(x, p);
      NotTwinEnd(x);
      NothingEnds(TWIN);
    } else {
      RegexTrimAppend(x, p);
      TwinInSecondPart(x, RegexTrimEnd(p));
    }
  }

  lemma NothingEnds(pat: string)
    requires pat != ""
    ensures !EndsWith("", pat)
  {
  }

  lemma EndsInTwinAppend(a: string, p: string)
    requires p != "" && (a == "" || a[|a| - 1] == '}' || Anchored(p))
    ensures EndsInTwin(a + p) == EndsInTwin(p)
  {
    hide RegexTrimEnd, Window, Anchored, EndsWith;
    WindowAppend(a, p);
    var n: nat :| n <= |a| && Window(a + p) == a[n..] + Window(p) && (|p| >= 41 || |a| == 0 ==> n == |a|)
                  && (|p| < 41 && |a| > 0 ==> n < |a|);
    var x := a[n..];
    if x == "" {
      assert x + Window(p) == Window(p);
    } else {
      ShortWindow(p);
      TrimmedTwin(x, p);
    }
  }

  lemma ShortWindow(p: string)
    requires |p| < 41
    ensures Window(p) == p
  {
  }

  lemma {:induction false} RegexTrimAll(a: string, b: string)
    requires RegexTrimEnd(b) == "" && a != "" && !IsRegexSpace(a[|a| - 1])
    ensures RegexTrimEnd(a + b) == a
    decreases |b|
  {
    if b == "" {
      assert a + b == a;
    } else {
      assert (a + b)[..|a + b| - 1] == a + b[..|b| - 1];
      RegexTrimAll(a, b[..|b| - 1]);
    }
  }

  lemma DotAppend(a: string, p: string)
    requires p != ""
    ensures EndsWith(a + p, ".") == EndsWith(p, ".")
  {
    var w := a + p;
    assert w[|w| - 1..] == [p[|p| - 1]] == p[|p| - 1..];
  }

  /** After another body, or at the start, the kind of a body depends on its own gap only. */
  lemma KindLocal(a: string, gap: string)
    requires a == "" || a[|a| - 1] == '}'
    requires LocalBracket(gap)
    ensures KindOf(a + gap) == KindOf(gap)
  {
    var p := Head(gap);
    if p != "" {
      HeadAppend(a, gap);
      DotAppend(a, p);
      EndsInTwinAppend(a, p);
    } else {
      HeadAll(a, gap);
      if a != "" {
        assert a[|a| - 1..] == ['}'];
        NotTwin(a);
      }
    }
  }

  lemma NotTwin(a: string)
    requires a != "" && a[|a| - 1] == '}'
    ensures !EndsInTwin(a)
  {
    var w := Window(a);
    assert w[|w| - 1] == '}';
    assert RegexTrimEnd(w) == w;
    NotTwinEnd(w);
  }

  lemma NotTwinEnd(w: string)
    requires w != "" && w[|w| - 1] == '}'
    ensures !EndsWith(w, TWIN)
  {
    if |w| >= |TWIN| {
      EndsWithAt(w, TWIN, |TWIN| - 1);
    }
  }

  /** Text put in front of an anchored gap does not change the kind of the body behind it. */
  lemma KindAnchored(a: string, gap: string)
    requires Anchored(gap) && LocalBracket(gap)
    ensures KindOf(a + gap) == KindOf(gap) && LocalBracket(a + gap)
  {
    var p := AnchoredHead(gap);
    HeadAppend(a, gap);
    DotAppend(a, p);
    EndsInTwinAppend(a, p);
    LocalBracketAppend(a, gap);
  }

  lemma LocalBracketAppend(a: string, gap: string)
    requires TrimEnd(gap) != "" && LocalBracket(gap)
    ensures LocalBracket(a + gap)
  {
    hide TrimEnd;
    var p := TrimEnd(gap);
    TrimEndAppend(a, gap);
    var w := a + p;
    assert w[|w| - 1..] == [p[|p| - 1]] == p[|p| - 1..];
    assert w[..|w| - 1] == a + p[..|p| - 1];
  }

  lemma AnchoredHead(gap: string) returns (p: string)
    requires Anchored(gap) && LocalBracket(gap)
    ensures p == Head(gap) && p != "" && Anchored(p) && TrimEnd(gap) != ""
  {
    hide TrimEnd, LocalBracket, DropMarker;
    p := Head(gap);
    var i :| 0 <= i < |gap| && (gap[i] == '%' || gap[i] == '/') && forall k :: 0 <= k < i ==> IsSpace(gap[k]);
    TrimKeepsPrefix(gap, i);
    var t := TrimEnd(gap);
    assert t[i] == gap[i];
    if t[|t| - 1] == ']' {
      LocalMarker(gap);
      var lb := MarkerAppend("", t);
      AnchorBeforeMarker(t, i, lb);
    } else {
      NoMarker(t);
    }
    AnchoredTaken(gap, p, i);
  }

  lemma NoMarker(t: string)
    requires t != "" && t[|t| - 1] != ']'
    ensures DropMarker(t) == t
  {
  }

  lemma AnchorBeforeMarker(t: string, i: nat, lb: nat)
    requires i < |t| && (t[i] == '%' || t[i] == '/') && forall k :: 0 <= k < i ==> IsSpace(t[k])
    requires lb < |t| && t[lb] == '['
    ensures i < |TrimEnd(t[..lb])|
  {
    hide TrimEnd;
    assert i < lb;
    TrimKeepsPrefix(t[..lb], i);
  }

  lemma AnchoredTaken(gap: string, p: string, i: nat)
    requires p <= gap && i < |p| && (gap[i] == '%' || gap[i] == '/') && forall k :: 0 <= k < i ==> IsSpace(gap[k])
    ensures Anchored(p)
  {
    assert p[i] == gap[i];
    assert forall k :: 0 <= k < i ==> p[k] == gap[k];
  }

  // ---------- stripping the text is stripping the grammar ----------

  lemma StrippedChar(before: string, c: char, t: string)
    requires c != '{'
    ensures Stripped(before, [c] + t)
         == var more := Stripped(before + [c], t); if more.None? then None else Some([c] + more.value)
  {
    assert ([c] + t)[1..] == t;
  }

  lemma {:induction false} StrippedGap(before: string, gap: string, t: string)
    requires '{' !in gap
    ensures Stripped(before, gap + t)
         == var more := Stripped(before + gap, t); if more.None? then None else Some(gap + more.value)
    decreases |gap|
  {
    hide Stripped;
    var more := Stripped(before + gap, t);
    if gap == "" {
      assert gap + t == t && before + gap == before;
      assert more.Some? ==> gap + more.value == more.value;
    } else {
      StrippedChar(before, gap[0], gap[1..] + t);
      assert [gap[0]] + (gap[1..] + t) == gap + t;
      assert (before + [gap[0]]) + gap[1..] == before + gap;
      StrippedGap(before + [gap[0]], gap[1..], t);
      assert more.Some? ==> [gap[0]] + (gap[1..] + more.value) == gap + more.value;
    }
  }

  lemma StrippedBody(before: string, body: string, after: string)
    requires Balanced(body)
    ensures Stripped(before, "{" + body + "}" + after)
         == var more := Stripped(before + ("{" + body + "}"), after);
            if more.None? then None else Some(Replacement(KindOf(before), body, after) + more.value)
  {
    var t, j := "{" + body + "}" + after, |body| + 1;
    assert MatchIn(t, 0) == Some(j);
    assert t[..j + 1] == "{" + body + "}" && t[1..j] == body && t[j + 1..] == after;
  }

  lemma PrintPrepend(text: string, g: Grammar)
    ensures Print(Prepend(text, g)) == text + Print(g)
  {
    if g.Block? {
      assert (text + g.gap) + ("{" + g.body + "}" + Print(g.rest)) == text + Print(g);
    }
  }

  lemma StripPrints(gap: string, body: string, rest: Grammar)
    ensures Print(Strip(Block(gap, body, rest)))
         == gap + (Replacement(KindOf(gap), body, Print(rest)) + Print(Strip(rest)))
  {
    hide KindOf, NextIsTwin, Promote;
    var more := Print(Strip(rest));
    if KindOf(gap) == Rule {
      if NextIsTwin(Print(rest)) {
        PrintPrepend(gap, Strip(rest));
        assert "" + more == more;
      } else {
        PromotedText(gap, Promote(body), more);
      }
    }
  }

  lemma PromotedText(gap: string, rust: string, more: string)
    ensures (gap + TWIN + " ") + ("{" + rust + "}" + more) == gap + ((TWIN + " {" + rust + "}") + more)
  {
  }

  /** The script's output for a printed grammar is the stripped grammar, printed. */
  lemma {:induction false} TextFollowsGrammar(before: string, g: Grammar)
    requires before == "" || before[|before| - 1] == '}'
    requires Blocks(g) && LocalBrackets(g)
    ensures Stripped(before, Print(g)) == Some(Print(Strip(g)))
    decreases g
  {
    match g
    case End(text) =>
      StrippedGap(before, text, "");
      assert text + "" == text;
    case Block(gap, body, rest) =>
      var b := "{" + body + "}";
      StrippedGap(before, gap, b + Print(rest));
      StrippedBody(before + gap, body, Print(rest));
      KindLocal(before, gap);
      TextFollowsGrammar(before + gap + b, rest);
      StripPrints(gap, body, rest);
  }

  // ---------- a second run changes nothing ----------

  lemma {:induction false} TwinAnchors(t: string)
    requires NextIsTwin(t)
    ensures Anchored(t)
    decreases |t|
  {
    if IsSpace(t[0]) {
      TwinAnchors(t[1..]);
      var u := t[1..];
      var i :| 0 <= i < |u| && (u[i] == '%' || u[i] == '/') && forall k :: 0 <= k < i ==> IsSpace(u[k]);
      assert t[i + 1] == u[i];
      forall k | 0 <= k < i + 1 ensures IsSpace(t[k]) {
        if k > 0 { assert t[k] == u[k - 1]; }
      }
    } else if OpensComment(t) {
      assert t[0] == '/';
    } else {
      assert t[..|TWIN|][0] == TWIN[0];
      assert t[0] == '%';
    }
  }

  ghost predicate FirstGapAnchored(g: Grammar) {
    g.Block? ==> Anchored(g.gap)
  }

  lemma AnchoredPrefix(a: string, b: string)
    requires Anchored(a)
    ensures Anchored(a + b)
  {
    var i :| 0 <= i < |a| && (a[i] == '%' || a[i] == '/') && forall k :: 0 <= k < i ==> IsSpace(a[k]);
    assert (a + b)[i] == a[i];
  }

  lemma AnchorInGap(g: Grammar)
    requires Anchored(Print(g))
    ensures FirstGapAnchored(g)
  {
    if g.Block? {
      var t := Print(g);
      var i :| 0 <= i < |t| && (t[i] == '%' || t[i] == '/') && forall k :: 0 <= k < i ==> IsSpace(t[k]);
      assert t[|g.gap|] == '{';
      assert i < |g.gap|;
      assert forall k :: 0 <= k <= i ==> g.gap[k] == t[k];
    }
  }

  lemma {:induction false} StripAnchored(g: Grammar)
    requires FirstGapAnchored(g)
    ensures FirstGapAnchored(Strip(g))
    decreases g
  {
    if g.Block? && KindOf(g.gap) == Rule {
      if NextIsTwin(Print(g.rest)) {
        if Strip(g.rest).Block? {
          AnchoredPrefix(g.gap, Strip(g.rest).gap);
        }
      } else {
        AnchoredPrefix(g.gap, TWIN + " ");
        assert g.gap + TWIN + " " == g.gap + (TWIN + " ");
      }
    }
  }

  lemma PromotedGap(gap: string)
    ensures KindOf(gap + TWIN + " ") == Rust && LocalBracket(gap + TWIN + " ")
  {
    var w := gap + TWIN;
    assert (w + " ")[..|w + " "| - 1] == w;
    assert w[|w| - 1] == 't';
    assert TrimEnd(w + " ") == w;
    assert w[|w| - 1..] == ['t'];
    assert DropMarker(w) == w;
    var v := Window(w);
    assert v[|v| - |TWIN|..] == TWIN;
    assert v[|v| - 1] == 't';
    assert RegexTrimEnd(v) == v;
  }

  /** What a stripped grammar is: no body behind a rule terminator is left. */
  ghost predicate Clean(g: Grammar) {
    Blocks(g) && LocalBrackets(g) && NoRules(g)
  }

  lemma PrependKeepsClean(text: string, g: Grammar)
    requires Clean(g) && FirstGapAnchored(g) && '{' !in text
    ensures Clean(Prepend(text, g))
  {
    if g.Block? {
      KindAnchored(text, g.gap);
    }
  }

  lemma {:induction false} StripIsClean(g: Grammar)
    requires Blocks(g) && LocalBrackets(g) && PromotionsBalanced(g)
    ensures Clean(Strip(g))
    decreases g
  {
    hide KindOf, NextIsTwin, Promote, LocalBracket, Anchored, Balanced;
    if g.Block? {
      StripIsClean(g.rest);
      if KindOf(g.gap) == Rule {
        if NextIsTwin(Print(g.rest)) {
          TwinAnchors(Print(g.rest));
          AnchorInGap(g.rest);
          StripAnchored(g.rest);
          PrependKeepsClean(g.gap, Strip(g.rest));
        } else {
          PromotedGap(g.gap);
          assert '{' !in TWIN;
        }
      }
    }
  }

  lemma {:induction false} StripOfClean(g: Grammar)
    requires NoRules(g)
    ensures Strip(g) == g
    decreases g
  {
    if g.Block? {
      StripOfClean(g.rest);
    }
  }

  /** Stripping is re-runnable: with brackets closed in their own gaps and translations that stay balanced, a
      second run of the script returns its input. */
  lemma SecondRunChangesNothing(g: Grammar)
    requires Blocks(g) && LocalBrackets(g) && PromotionsBalanced(g)
    ensures var once := Print(Strip(g));
      Stripped("", Print(g)) == Some(once) && Stripped("", once) == Some(once)
  {
    TextFollowsGrammar("", g);
    StripIsClean(g);
    TextFollowsGrammar("", Strip(g));
    StripOfClean(Strip(g));
  }

  // ---------- every source the script accepts is such a grammar ----------

  lemma FirstBodyAccepted(before: string, t: string)
    requires t != "" && t[0] == '{' && Stripped(before, t).Some?
    ensures MatchIn(t, 0).Some?
    ensures var j := MatchIn(t, 0).value; j < |t| && Stripped(before + t[..j + 1], t[j + 1..]).Some?
  {
    hide MatchIn, KindOf, Replacement;
    OpeningMatched(before, t);
    StrippedOpening(before, t);
  }

  lemma OpeningMatched(before: string, t: string)
    requires t != "" && t[0] == '{' && Stripped(before, t).Some?
    ensures MatchIn(t, 0).Some?
  {
    hide MatchIn, KindOf, Replacement;
  }

  lemma StrippedNext(before: string, t: string)
    requires t != "" && t[0] != '{' && Stripped(before, t).Some?
    ensures Stripped(before + [t[0]], t[1..]).Some?
  {
  }

  lemma PrependChar(c: char, g: Grammar)
    requires c != '{' && Blocks(g)
    ensures Blocks(Prepend([c], g)) && Print(Prepend([c], g)) == [c] + Print(g)
  {
    hide Balanced;
    PrintPrepend([c], g);
  }

  lemma {:induction false} ReadGrammar(before: string, t: string) returns (g: Grammar)
    requires Stripped(before, t).Some?
    ensures Blocks(g) && Print(g) == t
    decreases |t|
  {
    hide Stripped, Balanced, MatchIn, Prepend;
    if t == "" {
      g := End("");
    } else if t[0] == '{' {
      FirstBodyAccepted(before, t);
      g := ReadBlock(before, t, MatchIn(t, 0).value);
    } else {
      StrippedNext(before, t);
      var rest := ReadGrammar(before + [t[0]], t[1..]);
      g := Prepend([t[0]], rest);
      PrependChar(t[0], rest);
      assert t == [t[0]] + t[1..];
    }
  }

  lemma {:induction false} ReadBlock(before: string, t: string, j: nat) returns (g: Grammar)
    requires StartsWith(t, "{") && MatchIn(t, 0) == Some(j)
    requires j < |t| && Stripped(before + t[..j + 1], t[j + 1..]).Some?
    ensures Blocks(g) && Print(g) == t
    decreases |t|, 0
  {
    hide Stripped, Balanced, MatchIn;
    var b := MatchedBody(t);
    var rest := ReadGrammar(before + t[..j + 1], t[j + 1..]);
    g := Block("", t[1..j], rest);
    assert t == "" + ("{" + t[1..j] + "}" + t[j + 1..]);
  }

  lemma {:induction false} GrammarAccepted(before: string, g: Grammar)
    requires Blocks(g)
    ensures Stripped(before, Print(g)).Some?
    decreases g
  {
    match g
    case End(text) =>
      StrippedGap(before, text, "");
      assert text + "" == text;
    case Block(gap, body, rest) =>
      var b := "{" + body + "}";
      StrippedGap(before, gap, b + Print(rest));
      StrippedBody(before + gap, body, Print(rest));
      GrammarAccepted(before + gap + b, rest);
  }

  /** The script raises no error on exactly the printed grammars, whatever their gaps say. */
  lemma AcceptedExactly(src: string)
    ensures Stripped("", src).Some? <==> exists g :: Blocks(g) && Print(g) == src
  {
    if Stripped("", src).Some? {
      var g := ReadGrammar("", src);
    }
    if g :| Blocks(g) && Print(g) == src {
      GrammarAccepted("", g);
    }
  }
}
