/** What the text around a body says: which texts end a rule or announce a twin, and what comments change. */
module BraceKinds {
  import opened Options
  import opened Text
  import opened BodyLexer
  import opened BodyStripper
  import opened GrammarStrip

  // ---------- which texts end a rule, and which announce a twin ----------

  predicate Blank(t: string) {
    forall i :: 0 <= i < |t| ==> IsSpace(t[i])
  }

  /** A `.`, and then spaces only. */
  ghost predicate EndsInDot(t: string) {
    exists n :: 0 <= n < |t| && t[n] == '.' && Blank(t[n + 1..])
  }

  /** The end of a rule: a terminator, possibly followed by a marker in brackets. */
  ghost predicate EndsRule(t: string) {
    EndsInDot(t)
    || exists i, j :: 0 <= i < j < |t| && t[i] == '[' && t[j] == ']'
                      && '[' !in t[i + 1..j] && Blank(t[j + 1..]) && EndsInDot(t[..i])
  }

  predicate Dotted(t: string) {
    EndsWith(TrimEnd(t), ".")
  }

  lemma {:induction false} TrimmedEnd(t: string)
    ensures Blank(t[|TrimEnd(t)|..])
    ensures TrimEnd(t) != "" ==> !IsSpace(TrimEnd(t)[|TrimEnd(t)| - 1])
    decreases |t|
  {
    if t != "" && IsSpace(t[|t| - 1]) {
      TrimmedEnd(t[..|t| - 1]);
    }
  }

  lemma {:induction false} TrimTo(t: string, n: nat)
    requires n < |t| && !IsSpace(t[n]) && Blank(t[n + 1..])
    ensures TrimEnd(t) == t[..n + 1]
    decreases |t|
  {
    if n < |t| - 1 {
      assert t[n + 1..][|t| - n - 2] == t[|t| - 1];
      var u := t[..|t| - 1];
      assert u[n + 1..] == t[n + 1..][..|t| - n - 2];
      TrimTo(u, n);
      assert u[..n + 1] == t[..n + 1];
    } else {
      assert t[..n + 1] == t;
    }
  }

  lemma DottedExactly(t: string)
    ensures Dotted(t) <==> EndsInDot(t)
  {
    hide TrimEnd;
    TrimmedEnd(t);
    var p := TrimEnd(t);
    if Dotted(t) {
      assert p[|p| - 1..] == ".";
      assert t[|p| - 1] == '.';
    }
    if n :| 0 <= n < |t| && t[n] == '.' && Blank(t[n + 1..]) {
      TrimTo(t, n);
      assert p[|p| - 1..] == ".";
    }
  }

  lemma MarkerKind(t: string, i: nat, j: nat)
    requires i < j < |t| && t[i] == '[' && t[j] == ']' && '[' !in t[i + 1..j] && Blank(t[j + 1..])
    ensures KindOf(t) == Rule <==> Dotted(t[..i])
  {
    hide TrimEnd, FindLastChar, EndsWith;
    TrimTo(t, j);
    LastOpening(t, i, j);
    TakeTake(t, i, j + 1);
    TakeTake(t, j, j + 1);
  }

  lemma LastOpening(t: string, i: nat, j: nat)
    requires i < j < |t| && t[i] == '[' && '[' !in t[i + 1..j]
    ensures FindLastChar(t[..j], '[') == Some(i)
  {
    var q := t[..j];
    forall k | i < k < |q| ensures q[k] != '[' {
      assert q[k] == t[i + 1..j][k - i - 1];
    }
    LastCharIs(q, '[', i);
  }

  lemma TakeTake(t: string, i: nat, k: nat)
    requires i <= k <= |t|
    ensures t[..k][..i] == t[..i]
  {
  }

  lemma UnmarkedKind(t: string)
    requires DropMarker(TrimEnd(t)) == TrimEnd(t)
    ensures KindOf(t) == Rule <==> Dotted(t)
  {
  }

  /** The script takes the text before a brace for a rule's exactly when it ends a rule. */
  lemma KindExactly(t: string)
    ensures KindOf(t) == Rule <==> EndsRule(t)
  {
    hide TrimEnd, FindLastChar, KindOf, Dotted, EndsInDot;
    var p := TrimEnd(t);
    TrimmedEnd(t);
    if KindOf(t) == Rule {
      if DropMarker(p) == p {
        UnmarkedKind(t);
        DottedExactly(t);
      } else {
        var i, j := FindLastChar(p[..|p| - 1], '[').value, |p| - 1;
        assert t[i + 1..j] == p[..|p| - 1][i + 1..] && t[j + 1..] == t[|p|..] && p[i] == t[i];
        MarkerKind(t, i, j);
        DottedExactly(t[..i]);
      }
    }
    if EndsInDot(t) {
      DottedExactly(t);
      DottedKind(t);
    } else if i, j :| 0 <= i < j < |t| && t[i] == '[' && t[j] == ']'
                      && '[' !in t[i + 1..j] && Blank(t[j + 1..]) && EndsInDot(t[..i]) {
      MarkerKind(t, i, j);
      DottedExactly(t[..i]);
    }
  }

  lemma DottedKind(t: string)
    requires Dotted(t)
    ensures KindOf(t) == Rule
  {
    var p := TrimEnd(t);
    assert p[|p| - 1..][0] == p[|p| - 1];
  }

  // ---------- spaces and comments ----------

  /** A comment is read as a grammar, since the script takes a brace in it for the start of a body. */
  datatype Trivia = Space(c: char) | BlockNote(words: Grammar) | LineNote(words: Grammar)

  function Written(t: Trivia): string {
    match t
    case Space(c) => [c]
    case BlockNote(words) => "/*" + Print(words) + "*/"
    case LineNote(words) => "//" + Print(words) + "\n"
  }

  function Show(ts: seq<Trivia>): string {
    if ts == [] then "" else Written(ts[0]) + Show(ts[1..])
  }

  /** A space, or a comment that ends only at its end. */
  ghost predicate Skipped(t: Trivia) {
    match t
    case Space(c) => IsSpace(c)
    case BlockNote(words) => forall k :: 0 <= k < |Print(words)| ==> !StartsWith(Print(words)[k..] + "*/", "*/")
    case LineNote(words) => '\n' !in Print(words)
  }

  ghost predicate AllSkipped(ts: seq<Trivia>) {
    forall t :: t in ts ==> Skipped(t)
  }

  lemma TwinAfterSpace(c: char, more: string)
    requires IsSpace(c)
    ensures NextIsTwin([c] + more) == NextIsTwin(more)
  {
    assert ([c] + more)[1..] == more;
  }

  lemma TwinAfterComment(head: string, more: string)
    requires OpensComment(head + more) && TokenLength(head + more) == |head|
    ensures NextIsTwin(head + more) == NextIsTwin(more)
  {
    assert (head + more)[|head|..] == more;
  }

  lemma TwinAfterOne(t: Trivia, more: string)
    requires Skipped(t)
    ensures NextIsTwin(Written(t) + more) == NextIsTwin(more)
  {
    hide NextIsTwin, CommentLength;
    match t
    case Space(c) => TwinAfterSpace(c, more);
    case BlockNote(words) =>
      CommentToken("/*", Print(words), "*/", more);
      TwinAfterComment("/*" + Print(words) + "*/", more);
    case LineNote(words) =>
      var text := Print(words);
      forall k | 0 <= k < |text| ensures !StartsWith(text[k..] + "\n", "\n") {
        assert (text[k..] + "\n")[..1] == [text[k]];
      }
      CommentToken("//", text, "\n", more);
      TwinAfterComment("//" + text + "\n", more);
  }

  lemma {:induction false} TwinAfter(ts: seq<Trivia>, more: string)
    requires AllSkipped(ts)
    ensures NextIsTwin(Show(ts) + more) == NextIsTwin(more)
    decreases |ts|
  {
    hide NextIsTwin, Written, Skipped;
    if ts == [] {
      assert Show(ts) + more == more;
    } else {
      TwinAfterOne(ts[0], Show(ts[1..]) + more);
      TwinAfter(ts[1..], more);
      ConcatAssoc(Written(ts[0]), Show(ts[1..]), more);
    }
  }

  lemma TwinAhead(more: string)
    ensures NextIsTwin(TWIN + more)
  {
    assert (TWIN + more)[..|TWIN|] == TWIN;
  }

  lemma ReadNote(t: string, closing: string) returns (text: string)
    requires OpensComment(t) && closing == (if OpensBlock(t) then "*/" else "\n") && CommentLength(t, closing) < |t|
    ensures var n := if OpensBlock(t) then BlockNote(End(text)) else LineNote(End(text));
      Skipped(n) && Written(n) == t[..CommentLength(t, closing)]
  {
    hide Find, StartsWith;
    FindIsFirst(t[2..], closing);
    FindBounds(t[2..], closing);
    var e := Find(t[2..], closing).value;
    text := t[2..][..e];
    NoteParts(t, e, |closing|);
    assert t[..2] == if OpensBlock(t) then "/*" else "//";
    if !OpensBlock(t) {
      OneLine(text);
    }
  }

  lemma NoteParts(t: string, e: nat, n: nat)
    requires 2 + e + n <= |t|
    ensures t[..2 + e + n] == t[..2] + t[2..][..e] + t[2..][e..e + n]
  {
  }

  lemma OneLine(text: string)
    requires forall k :: 0 <= k < |text| ==> !StartsWith(text[k..] + "\n", "\n")
    ensures '\n' !in text
  {
    forall k | 0 <= k < |text| ensures text[k] != '\n' {
      assert (text[k..] + "\n")[..1] == [text[k]];
    }
  }

  /** The comment that a text with a twin ahead starts with. */
  lemma ReadFirstNote(t: string) returns (note: Trivia, n: nat)
    requires t != "" && !IsSpace(t[0]) && OpensComment(t) && NextIsTwin(t)
    ensures n < |t| && NextIsTwin(t[n..]) && Skipped(note) && Written(note) == t[..n] && n > 0
  {
    hide CommentLength, Skipped, Written;
    n := TokenLength(t);
    assert NextIsTwin(t[n..]);
    NoTwinAtEnd("");
    var text := ReadNote(t, if OpensBlock(t) then "*/" else "\n");
    note := if OpensBlock(t) then BlockNote(End(text)) else LineNote(End(text));
  }

  lemma TwinAfterFirst(t: string)
    requires t != "" && NextIsTwin(t)
    ensures IsSpace(t[0]) ==> NextIsTwin(t[1..])
    ensures !IsSpace(t[0]) && !OpensComment(t) ==> StartsWith(t, TWIN)
  {
  }

  lemma {:induction false} ReadTwin(t: string) returns (ts: seq<Trivia>)
    requires NextIsTwin(t)
    ensures AllSkipped(ts) && |Show(ts)| <= |t| && t == Show(ts) + t[|Show(ts)|..] && StartsWith(t[|Show(ts)|..], TWIN)
    decreases |t|
  {
    hide NextIsTwin, Show, Skipped, Written, StartsWith;
    if t == "" {
      NoTwinAtEnd(t);
    } else {
      TwinAfterFirst(t);
      if IsSpace(t[0]) {
        var more := ReadTwin(t[1..]);
        ts := [Space(t[0])] + more;
        SpaceRead(t);
        ShowCons(Space(t[0]), more, t, 1);
      } else if OpensComment(t) {
        var note, n := ReadFirstNote(t);
        var more := ReadTwin(t[n..]);
        ts := [note] + more;
        ShowCons(note, more, t, n);
      } else {
        ts := [];
        NothingShown();
        assert t[0..] == t;
      }
    }
  }

  lemma SpaceRead(t: string)
    requires t != "" && IsSpace(t[0])
    ensures Skipped(Space(t[0])) && Written(Space(t[0])) == t[..1]
  {
  }

  lemma ShowCons(head: Trivia, more: seq<Trivia>, t: string, n: nat)
    requires n <= |t| && Written(head) == t[..n] && |Show(more)| <= |t[n..]|
    requires t[n..] == Show(more) + t[n..][|Show(more)|..]
    ensures var ts := [head] + more;
      && |Show(ts)| == n + |Show(more)|
      && t == Show(ts) + t[|Show(ts)|..] && t[|Show(ts)|..] == t[n..][|Show(more)|..]
  {
    var ts := [head] + more;
    assert ts[1..] == more;
    assert t == t[..n] + t[n..];
  }

  /** A twin is announced exactly when spaces and closed comments lead up to the keyword. */
  lemma TwinExactly(t: string)
    ensures NextIsTwin(t) <==> exists ts :: AllSkipped(ts) && StartsWith(t, Show(ts) + TWIN)
  {
    hide NextIsTwin, Show;
    if NextIsTwin(t) {
      var ts := ReadTwin(t);
      var n := |Show(ts)|;
      assert t[..n + |TWIN|] == Show(ts) + t[n..][..|TWIN|];
    }
    if ts :| AllSkipped(ts) && StartsWith(t, Show(ts) + TWIN) {
      var n := |Show(ts) + TWIN|;
      assert t == Show(ts) + (TWIN + t[n..]);
      TwinAhead(t[n..]);
      TwinAfter(ts, TWIN + t[n..]);
    }
  }

  // ---------- what a comment before a brace does to its kind ----------

  /** The text behind the last body. */
  function Tail(g: Grammar): string {
    if g.End? then g.text else Tail(g.rest)
  }

  /** A space, or a comment that closes the braces it opens, as the script reads them, and whose brackets are its
      own. */
  ghost predicate Quiet(t: Trivia) {
    && Skipped(t)
    && (!t.Space? ==> Blocks(t.words) && LocalBrackets(t.words))
    && (t.LineNote? ==> LocalBracket(Tail(t.words)))
  }

  ghost predicate AllQuiet(ts: seq<Trivia>) {
    forall t :: t in ts ==> Quiet(t)
  }

  function LastNote(ts: seq<Trivia>): Option<Trivia> {
    if ts == [] then None
    else if ts[|ts| - 1].Space? then LastNote(ts[..|ts| - 1])
    else Some(ts[|ts| - 1])
  }

  lemma {:induction false} ShowSnoc(ts: seq<Trivia>)
    requires ts != []
    ensures Show(ts) == Show(ts[..|ts| - 1]) + Written(ts[|ts| - 1])
    decreases |ts|
  {
    hide Written;
    if |ts| > 1 {
      var u := ts[1..];
      ShowSnoc(u);
      assert ts[..|ts| - 1][1..] == u[..|u| - 1];
    }
  }

  lemma KindOfTrimmed(t: string, u: string)
    requires TrimEnd(t) == TrimEnd(u)
    ensures KindOf(t) == KindOf(u) && Dotted(t) == Dotted(u)
  {
  }

  lemma TrimSpace(t: string, c: char)
    requires IsSpace(c)
    ensures TrimEnd(t + [c]) == TrimEnd(t)
  {
    assert (t + [c])[..|t|] == t;
  }

  lemma RuleByHead(t: string)
    ensures KindOf(t) == Rule <==> EndsWith(Head(t), ".")
  {
  }

  /** A character that ends no rule, no marker and no gap. */
  predicate IsMark(c: char) {
    !IsSpace(c) && c != ']' && c != '.'
  }

  /** Behind such a character the kind depends on the text after it. */
  lemma BehindMark(a: string, t: string)
    requires a != "" && IsMark(a[|a| - 1]) && LocalBracket(t)
    ensures KindOf(a + t) == Rule <==> KindOf(t) == Rule
    ensures Dotted(a + t) <==> Dotted(t)
  {
    hide KindOf, Head, TrimEnd, LocalBracket;
    RuleByHead(t);
    RuleByHead(a + t);
    assert a[|a| - 1..] == [a[|a| - 1]] && !EndsWith(a, ".");
    if Head(t) != "" {
      HeadAppend(a, t);
      DotAppend(a, Head(t));
    } else {
      HeadAll(a, t);
    }
    if TrimEnd(t) != "" {
      TrimEndAppend(a, t);
      DotAppend(a, TrimEnd(t));
    } else {
      TrimEndAll(a, t);
    }
  }

  lemma BehindBlockNote(a: string, words: Grammar)
    ensures KindOf(a + Written(BlockNote(words))) != Rule && !Dotted(a + Written(BlockNote(words)))
  {
    var t := a + Written(BlockNote(words));
    assert t[|t| - 1] == '/';
    assert TrimEnd(t) == t && DropMarker(t) == t;
  }

  lemma BehindLineNote(a: string, words: Grammar)
    requires LocalBracket(Tail(words))
    ensures KindOf(a + Written(LineNote(words))) == Rule <==> KindOf(Print(words)) == Rule
    ensures Dotted(a + Written(LineNote(words))) <==> Dotted(Print(words))
  {
    hide KindOf, Dotted, TrimEnd, LocalBracket;
    var b, text := a + "//", Print(words);
    assert a + Written(LineNote(words)) == (b + text) + ['\n'];
    TrimSpace(b + text, '\n');
    KindOfTrimmed(b + text, a + Written(LineNote(words)));
    TailIsLocal(words);
    BehindMark(b, text);
  }

  lemma LocalAppend(a: string, b: string)
    requires LocalBracket(b) && (TrimEnd(b) == "" ==> LocalBracket(a))
    ensures LocalBracket(a + b)
  {
    hide TrimEnd, LocalBracket;
    if TrimEnd(b) == "" {
      BlankBehind(a, b);
      SameBracket(a, a + b);
    } else {
      LocalBracketAppend(a, b);
    }
  }

  lemma SameBracket(a: string, b: string)
    requires TrimEnd(a) == TrimEnd(b)
    ensures LocalBracket(a) == LocalBracket(b)
  {
  }

  lemma {:induction false} BlankBehind(a: string, b: string)
    requires TrimEnd(b) == ""
    ensures TrimEnd(a + b) == TrimEnd(a)
    decreases |b|
  {
    if b == "" {
      assert a + b == a;
    } else {
      assert (a + b)[..|a + b| - 1] == a + b[..|b| - 1];
      BlankBehind(a, b[..|b| - 1]);
    }
  }

  lemma {:induction false} TailIsLocal(g: Grammar)
    requires LocalBracket(Tail(g))
    ensures LocalBracket(Print(g))
    decreases g
  {
    hide LocalBracket, TrimEnd;
    if g.Block? {
      TailIsLocal(g.rest);
      var a := g.gap + ("{" + g.body + "}");
      BraceIsLocal(a);
      LocalAppend(a, Print(g.rest));
      assert Print(g) == a + Print(g.rest);
    }
  }

  lemma BraceIsLocal(a: string)
    requires a != "" && a[|a| - 1] == '}'
    ensures LocalBracket(a)
  {
    assert TrimEnd(a) == a;
    assert a[|a| - 1..] == "}";
  }

  /** A comment that reads like the end of a rule: only a line comment can. */
  ghost predicate RuleNote(n: Option<Trivia>) {
    n.Some? && n.value.LineNote? && EndsRule(Print(n.value.words))
  }

  ghost predicate DotNote(n: Option<Trivia>) {
    n.Some? && n.value.LineNote? && EndsInDot(Print(n.value.words))
  }

  /** The last comment before a brace decides its kind, whatever stands before the comment. */
  lemma {:induction false} NoteDecides(a: string, ts: seq<Trivia>)
    requires AllQuiet(ts)
    ensures LastNote(ts).None? ==> TrimEnd(a + Show(ts)) == TrimEnd(a)
    ensures LastNote(ts).Some? ==> (KindOf(a + Show(ts)) == Rule <==> RuleNote(LastNote(ts)))
    ensures LastNote(ts).Some? ==> (Dotted(a + Show(ts)) <==> DotNote(LastNote(ts)))
    decreases |ts|
  {
    hide Show, KindOf, Dotted, TrimEnd, Written, LocalBracket;
    if ts == [] {
      assert Show(ts) == "" by {
        NothingShown();
      }
      assert a + "" == a;
    } else {
      var init, t := ts[..|ts| - 1], ts[|ts| - 1];
      assert Quiet(t);
      ShowSnoc(ts);
      ConcatAssoc(a, Show(init), Written(t));
      match t
      case Space(c) =>
        NoteDecides(a, init);
        SpaceWritten(c);
        TrimSpace(a + Show(init), c);
        KindOfTrimmed(a + Show(init), a + Show(ts));
      case BlockNote(words) =>
        BehindBlockNote(a + Show(init), words);
      case LineNote(words) =>
        BehindLineNote(a + Show(init), words);
        KindExactly(Print(words));
        DottedExactly(Print(words));
    }
  }

  lemma NothingShown()
    ensures Show([]) == ""
  {
  }

  lemma SpaceWritten(c: char)
    ensures Written(Space(c)) == [c]
  {
  }
}
