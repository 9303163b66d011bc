/** Translating a body keeps it balanced, as long as no translated statement takes the end of a line comment with it. */
module Promotion {
  import opened Options
  import opened Text
  import opened BodyLexer
  import opened BodyStripper
  import opened GrammarStrip

  /** A character that means nothing to the scanner, whatever it is in. */
  predicate InertChar(c: char) {
    c != '{' && c != '}' && c != '"' && c != '\'' && c != '/' && c != '*' && c != '\\' && c != '\n'
  }

  predicate Inert(m: string) {
    m != "" && forall i :: 0 <= i < |m| ==> InertChar(m[i])
  }

  // ---------- replacing inert text by inert text ----------

  /** Inert text that starts inside a delimited piece lies between its delimiters. */
  lemma Inside(opening: string, text: string, closing: string, r: string, x: string, m: string, y: string)
    returns (x': string, y': string)
    requires opening + text + closing + r == x + m + y && |x| < |opening + text + closing| && m != ""
    requires forall i, j :: 0 <= i < |m| && 0 <= j < |opening| ==> m[i] != opening[j]
    requires forall i, j :: 0 <= i < |m| && 0 <= j < |closing| ==> m[i] != closing[j]
    requires closing != ""
    ensures text == x' + m + y' && x == opening + x' && y == y' + closing + r
  {
    var w := opening + text + closing + r;
    var a, b, p, q := |opening|, |opening| + |text|, |x|, |x| + |m|;
    DelimitedParts(opening, text, closing, r);
    MiddleParts(x, m, y);
    LiesBetween(w, opening, m, closing, b, p);
    x', y' := w[a..p], w[q..b];
    FourCuts(w, a, p, q, b);
    assert y' + closing + r == y' + (closing + r);
  }

  lemma LiesBetween(w: string, opening: string, m: string, closing: string, b: nat, p: nat)
    requires |opening| <= b && b + |closing| <= |w| && p + |m| <= |w| && p < b + |closing|
    requires w[0..|opening|] == opening && w[p..p + |m|] == m && w[b..b + |closing|] == closing
    requires m != "" && closing != ""
    requires forall i, j :: 0 <= i < |m| && 0 <= j < |opening| ==> m[i] != opening[j]
    requires forall i, j :: 0 <= i < |m| && 0 <= j < |closing| ==> m[i] != closing[j]
    ensures |opening| <= p && p + |m| <= b
  {
    CharAt(w, 0, opening, p);
    CharAt(w, p, m, p);
    CharAt(w, b, closing, p);
    CharAt(w, p, m, b);
    CharAt(w, b, closing, b);
  }

  lemma FourCuts(w: string, a: nat, p: nat, q: nat, b: nat)
    requires a <= p <= q <= b <= |w|
    ensures w[a..b] == w[a..p] + w[p..q] + w[q..b]
    ensures w[..p] == w[..a] + w[a..p] && w[q..] == w[q..b] + w[b..]
  {
    Cut(w, a, p, b);
    Cut(w, p, q, b);
    Cut(w, 0, a, p);
    Cut(w, q, b, |w|);
    ConcatAssoc(w[a..p], w[p..q], w[q..b]);
  }

  lemma Cut(w: string, a: nat, p: nat, b: nat)
    requires a <= p <= b <= |w|
    ensures w[a..b] == w[a..p] + w[p..b]
  {
  }

  lemma CharAt(w: string, i: nat, s: string, k: nat)
    requires i + |s| <= |w| && w[i..i + |s|] == s
    ensures 0 <= k - i < |s| ==> w[k] == s[k - i]
  {
    if 0 <= k - i < |s| {
      assert w[k] == w[i..i + |s|][k - i] == s[k - i];
    }
  }

  lemma DelimitedParts(opening: string, text: string, closing: string, r: string)
    ensures var w, a, b := opening + text + closing + r, |opening|, |opening| + |text|;
      && w[..a] == opening && w[0..a] == opening && w[a..b] == text
      && w[b..] == closing + r && w[b..b + |closing|] == closing
  {
  }

  lemma MiddleParts(x: string, m: string, y: string)
    ensures var w := x + m + y;
      w[..|x|] == x && w[|x|..|x| + |m|] == m && w[|x| + |m|..] == y
  {
  }

  lemma {:induction false} DropFromLiteral(chars: seq<LiteralChar>, m: string, y: string)
    returns (rest: seq<LiteralChar>)
    requires RenderLiteral(chars) == m + y && forall i :: 0 <= i < |m| ==> m[i] != '\\'
    ensures RenderLiteral(rest) == y && forall c :: c in rest ==> c in chars
    decreases |m|
  {
    rest := chars;
    if m == "" {
      assert m + y == y;
    } else {
      assert chars != [];
      assert (m + y)[0] == m[0];
      assert chars[0] == Plain(m[0]);
      assert RenderLiteral(chars)[1..] == RenderLiteral(chars[1..]);
      assert (m + y)[1..] == m[1..] + y;
      rest := DropFromLiteral(chars[1..], m[1..], y);
    }
  }

  function Plains(m: string): (r: seq<LiteralChar>)
    ensures forall c :: c in r ==> c.Plain? && c.c in m
  {
    if m == "" then [] else [Plain(m[0])] + Plains(m[1..])
  }

  lemma RenderCons(c: LiteralChar, rest: seq<LiteralChar>)
    ensures RenderLiteral([c] + rest) == RenderChar(c) + RenderLiteral(rest)
  {
    assert ([c] + rest)[1..] == rest;
  }

  lemma {:induction false} RenderPlains(m: string, rest: seq<LiteralChar>)
    ensures RenderLiteral(Plains(m) + rest) == m + RenderLiteral(rest)
  {
    hide RenderLiteral;
    if m == "" {
      assert Plains(m) + rest == rest;
      assert m + RenderLiteral(rest) == RenderLiteral(rest);
    } else {
      RenderPlains(m[1..], rest);
      RenderCons(Plain(m[0]), Plains(m[1..]) + rest);
      assert [Plain(m[0])] + (Plains(m[1..]) + rest) == Plains(m) + rest;
      assert [m[0]] + (m[1..] + RenderLiteral(rest)) == m + RenderLiteral(rest);
    }
  }

  /** Characters that may stand in a literal with this quote. */
  ghost predicate Allowed(chars: seq<LiteralChar>, quote: char) {
    forall c :: c in chars && c.Plain? ==> c.c != quote && c.c != '\\'
  }

  lemma {:induction false} ReplaceInLiteral(chars: seq<LiteralChar>, quote: char, x: string, m: string, y: string,
                                            m': string)
    returns (r: seq<LiteralChar>)
    requires IsQuote(quote) && Inert(m) && Inert(m')
    requires RenderLiteral(chars) == x + m + y && Allowed(chars, quote)
    ensures RenderLiteral(r) == x + m' + y && Allowed(r, quote)
    decreases |chars|
  {
    hide RenderLiteral, RenderChar;
    assert x + m + y != "";
    RenderFirst(chars, x + m + y);
    var h := RenderChar(chars[0]);
    if |x| >= |h| {
      AfterPiece(h, RenderLiteral(chars[1..]), x, m, y);
      var rest := ReplaceInLiteral(chars[1..], quote, x[|h|..], m, y, m');
      r := [chars[0]] + rest;
      RenderCons(chars[0], rest);
      assert h + (x[|h|..] + m' + y) == x + m' + y;
    } else {
      r := ReplaceFirstChars(chars, quote, x, m, y, m');
    }
  }

  lemma RenderFirst(chars: seq<LiteralChar>, text: string)
    requires RenderLiteral(chars) == text && text != ""
    ensures chars != [] && RenderChar(chars[0]) + RenderLiteral(chars[1..]) == text
  {
  }

  lemma RenderSplit(chars: seq<LiteralChar>)
    requires chars != []
    ensures RenderLiteral(chars) == RenderChar(chars[0]) + RenderLiteral(chars[1..])
  {
  }

  lemma ReplaceFirstChars(chars: seq<LiteralChar>, quote: char, x: string, m: string, y: string, m': string)
    returns (r: seq<LiteralChar>)
    requires IsQuote(quote) && Inert(m) && Inert(m') && chars != []
    requires RenderLiteral(chars) == x + m + y && Allowed(chars, quote) && |x| < |RenderChar(chars[0])|
    ensures RenderLiteral(r) == x + m' + y && Allowed(r, quote)
  {
    hide RenderLiteral;
    var h, w := RenderChar(chars[0]), x + m + y;
    var tail := RenderLiteral(chars[1..]);
    RenderSplit(chars);
    assert w[|x|] == m[0];
    assert |h| == |x| + 1;
    assert x == h[..|x|] by {
      assert x == w[..|x|] == h[..|x|];
    }
    assert tail == m[1..] + y by {
      assert tail == w[|h|..];
    }
    var rest := DropFromLiteral(chars[1..], m[1..], y);
    r := ReplacedChars(chars[0], x, m', rest);
    assert x + m' + RenderLiteral(rest) == x + m' + y;
  }

  lemma ReplacedChars(c: LiteralChar, x: string, m: string, rest: seq<LiteralChar>) returns (r: seq<LiteralChar>)
    requires m != "" && |RenderChar(c)| == |x| + 1 && x == RenderChar(c)[..|x|]
    ensures RenderLiteral(r) == x + m + RenderLiteral(rest)
    ensures forall c' :: c' in r && c'.Plain? ==> c'.c in m || c' in rest
  {
    hide RenderLiteral;
    var first := if c.Plain? then Plain(m[0]) else Escaped(m[0]);
    RenderPlains(m[1..], rest);
    RenderCons(first, Plains(m[1..]) + rest);
    r := [first] + (Plains(m[1..]) + rest);
    assert RenderChar(first) == x + [m[0]];
    assert (x + [m[0]]) + (m[1..] + RenderLiteral(rest)) == x + m + RenderLiteral(rest);
  }

  function Others(m: string, rest: Body): Body {
    if m == "" then rest else Other(m[0], Others(m[1..], rest))
  }

  lemma {:induction false} OthersWellFormed(m: string, rest: Body)
    requires WellFormed(rest) && forall i :: 0 <= i < |m| ==> InertChar(m[i])
    ensures WellFormed(Others(m, rest)) && Render(Others(m, rest)) == m + Render(rest)
  {
    if m == "" {
      assert m + Render(rest) == Render(rest);
    } else {
      OthersWellFormed(m[1..], rest);
      assert m == [m[0]] + m[1..];
      assert ([m[0]] + (m[1..] + Render(rest))) == m + Render(rest);
    }
  }

  lemma {:induction false} DropFromBody(b: Body, m: string, y: string) returns (rest: Body)
    requires WellFormed(b) && Render(b) == m + y && forall i :: 0 <= i < |m| ==> InertChar(m[i])
    ensures WellFormed(rest) && Render(rest) == y
    decreases |m|
  {
    rest := b;
    if m == "" {
      assert m + y == y;
    } else {
      assert (m + y)[0] == m[0];
      assert Piece(b)[0] == m[0];
      assert b.Other?;
      assert Render(b.rest) == Render(b)[1..] == m[1..] + y;
      rest := DropFromBody(b.rest, m[1..], y);
    }
  }

  lemma ReplaceFirst(b: Body, x: string, m: string, y: string, m': string) returns (r: Body)
    requires WellFormed(b) && b.Other? && Inert(m) && Inert(m')
    requires Render(b) == x + m + y && x == ""
    ensures WellFormed(r) && Render(r) == x + m' + y
  {
    assert Render(b) == m + y;
    assert (m + y)[0] == m[0];
    assert Render(b.rest) == Render(b)[1..] == m[1..] + y;
    var after := DropFromBody(b.rest, m[1..], y);
    OthersWellFormed(m', after);
    r := Others(m', after);
    assert x + m' + y == m' + y;
  }

  lemma ReplaceInLiteralPiece(b: Body, x: string, m: string, y: string, m': string) returns (r: Body)
    requires WellFormed(b) && b.Literal? && Inert(m) && Inert(m')
    requires Render(b) == x + m + y && |x| < |Piece(b)|
    ensures WellFormed(r) && Render(r) == x + m' + y
  {
    var quote, tail := b.quote, Render(b.rest);
    var x', y' := Inside([quote], RenderLiteral(b.chars), [quote], tail, x, m, y);
    var chars' := ReplaceInLiteral(b.chars, quote, x', m, y', m');
    r := Literal(quote, chars', b.rest);
    assert [quote] + (x' + m' + y') + [quote] + tail == x + m' + y;
  }

  lemma ReplaceInComment(b: Body, x: string, m: string, y: string, m': string) returns (r: Body)
    requires WellFormed(b) && (b.BlockComment? || b.LineComment?) && Inert(m) && Inert(m')
    requires Render(b) == x + m + y && |x| < |Piece(b)|
    ensures WellFormed(r) && Render(r) == x + m' + y
  {
    var opening, closing := if b.BlockComment? then "/*" else "//", if b.BlockComment? then "*/" else "\n";
    var tail := Render(b.rest);
    var x', y' := Inside(opening, b.text, closing, tail, x, m, y);
    r := b.(text := x' + m' + y');
    if b.BlockComment? {
      ReplaceInBlock(x', m, y', m');
    }
    assert opening + (x' + m' + y') + closing + tail == x + m' + y;
  }

  lemma ReplaceInPiece(b: Body, x: string, m: string, y: string, m': string) returns (r: Body)
    requires WellFormed(b) && !b.Done? && Inert(m) && Inert(m')
    requires Render(b) == x + m + y && |x| < |Piece(b)|
    ensures WellFormed(r) && Render(r) == x + m' + y
    decreases b, 0
  {
    match b
    case Other(_, _) => r := ReplaceFirst(b, x, m, y, m');
    case Literal(_, _, _) => r := ReplaceInLiteralPiece(b, x, m, y, m');
    case BlockComment(_, _) => r := ReplaceInComment(b, x, m, y, m');
    case LineComment(_, _) => r := ReplaceInComment(b, x, m, y, m');
    case Braces(inner, rest) =>
      var x', y' := Inside("{", Render(inner), "}", Render(rest), x, m, y);
      var inner' := ReplaceInBody(inner, x', m, y', m');
      r := Braces(inner', rest);
      assert "{" + (x' + m' + y') + "}" + Render(rest) == x + m' + y;
  }

  /** No comment ends earlier when inert text in it is replaced. */
  lemma ReplaceInBlock(x: string, m: string, y: string, m': string)
    requires Inert(m) && Inert(m')
    requires forall k :: 0 <= k < |x + m + y| ==> !StartsWith((x + m + y)[k..] + "*/", "*/")
    ensures forall k :: 0 <= k < |x + m' + y| ==> !StartsWith((x + m' + y)[k..] + "*/", "*/")
  {
    var v, w := x + m + y, x + m' + y;
    forall k | 0 <= k < |w| ensures !StartsWith(w[k..] + "*/", "*/") {
      var u := w[k..] + "*/";
      assert u[0] == w[k];
      if k < |x| {
        assert v[k] == w[k];
        assert k + 1 < |w|;
        assert u[1] == w[k + 1];
        var z := v[k..] + "*/";
        assert z[1] == v[k + 1];
        assert k + 1 < |x| ==> v[k + 1] == w[k + 1];
        assert k + 1 == |x| ==> w[k + 1] == m'[0];
        assert !StartsWith(z, "*/");
      } else if k >= |x| + |m'| {
        var k' := k - |m'| + |m|;
        assert v[k'..] == y[k - |x| - |m'|..] == w[k..];
      } else {
        assert w[k] == m'[k - |x|];
      }
    }
  }

  lemma AfterPiece(p: string, tail: string, x: string, m: string, y: string)
    requires p + tail == x + m + y && |x| >= |p|
    ensures x == p + x[|p|..] && tail == x[|p|..] + m + y
  {
    assert (p + tail)[..|p|] == p && (p + tail)[|p|..] == tail;
    assert (x + m + y)[..|p|] == x[..|p|];
  }

  lemma StillNoComment(c: char, x: string, m: string, y: string, m': string)
    requires Inert(m) && Inert(m') && !OpensComment([c] + (x + m + y))
    ensures !OpensComment([c] + (x + m' + y))
  {
    assert ([c] + (x + m' + y))[1] == if x == "" then m'[0] else x[0];
    assert ([c] + (x + m + y))[1] == if x == "" then m[0] else x[0];
  }

  /** Replacing inert text behind a piece leaves the piece what it is. */
  lemma KeepFirstPiece(b: Body, rest: Body, x: string, m: string, y: string, m': string)
    requires WellFormed(b) && !b.Done? && WellFormed(rest) && Inert(m) && Inert(m')
    requires Render(b.rest) == x + m + y && Render(rest) == x + m' + y
    ensures WellFormed(b.(rest := rest)) && Render(b.(rest := rest)) == Piece(b) + (x + m' + y)
  {
    hide Inert, OpensComment;
    if b.Other? {
      StillNoComment(b.c, x, m, y, m');
    }
  }

  /** Inert text in a body, replaced by other inert text, leaves a body. */
  lemma {:induction false} ReplaceInBody(b: Body, x: string, m: string, y: string, m': string) returns (r: Body)
    requires WellFormed(b) && Inert(m) && Inert(m') && Render(b) == x + m + y
    ensures WellFormed(r) && Render(r) == x + m' + y
    decreases b, 1
  {
    var p := Piece(b);
    if |x| < |p| {
      r := ReplaceInPiece(b, x, m, y, m');
    } else {
      var x' := x[|p|..];
      AfterPiece(p, Render(b.rest), x, m, y);
      var rest := ReplaceInBody(b.rest, x', m, y, m');
      r := b.(rest := rest);
      assert p + (x' + m' + y) == x + m' + y;
      KeepFirstPiece(b, rest, x', m, y, m');
    }
  }

  lemma ReplaceInBalanced(x: string, m: string, y: string, m': string)
    requires Balanced(x + m + y) && Inert(m) && Inert(m')
    ensures Balanced(x + m' + y)
  {
    BalancedExactly(x + m + y);
    var b :| WellFormed(b) && Render(b) == x + m + y;
    var r := ReplaceInBody(b, x, m, y, m');
    WellFormedIsBalanced(r);
  }

  /** Neither direction loses anything: inert text is as good as any other. */
  lemma ReplaceEitherWay(x: string, m: string, y: string, m': string)
    requires Inert(m) && Inert(m')
    ensures Balanced(x + m + y) <==> Balanced(x + m' + y)
  {
    hide Balanced, Inert;
    if Balanced(x + m + y) {
      ReplaceInBalanced(x, m, y, m');
    } else if Balanced(x + m' + y) {
      ReplaceInBalanced(x, m', y, m);
    }
  }

  // ---------- the two translations ----------

  lemma {:induction false} RenameBalance(x: string, t: string, afterWord: bool)
    ensures Balanced(x + t) <==> Balanced(x + RenameState(t, afterWord))
    decreases |t|
  {
    hide Balanced;
    if t == "" {
    } else if !afterWord && StartsWith(t, "pstate") && (|t| == 6 || !IsWord(t[6])) {
      assert t == "pstate" + t[6..];
      assert x + t == x + "pstate" + t[6..];
      assert Inert("pstate") && Inert("ctx.user");
      ReplaceEitherWay(x, "pstate", t[6..], "ctx.user");
      RenameBalance(x + "ctx.user", t[6..], true);
      assert x + ("ctx.user" + RenameState(t[6..], true)) == (x + "ctx.user") + RenameState(t[6..], true);
    } else {
      assert x + t == (x + [t[0]]) + t[1..];
      RenameBalance(x + [t[0]], t[1..], IsWord(t[0]));
      var more := RenameState(t[1..], IsWord(t[0]));
      assert x + ([t[0]] + more) == (x + [t[0]]) + more;
    }
  }

  /** No `(void) x ;` statement of the text spans two lines. */
  predicate DiscardsOnOneLine(t: string) {
    forall k :: 0 <= k < |t| && DiscardAt(t[k..]).Some? ==> '\n' !in t[k..][..DiscardAt(t[k..]).value.length]
  }

  lemma RunAt(t: string, from: nat, i: nat)
    requires from <= i < |t|
    ensures t[from..][i - from] == t[i]
  {
  }

  lemma OpeningInert(t: string)
    requires StartsWith(t, "(void)")
    ensures forall i :: 0 <= i < 6 ==> InertChar(t[i])
  {
    forall i | 0 <= i < 6 ensures InertChar(t[i]) {
      StartsAt(t, "(void)", i);
    }
  }

  lemma SpacesInert(t: string, from: nat, n: nat)
    requires from <= |t| && from + SpaceRun(t[from..]) <= n <= |t| && '\n' !in t[..n]
    ensures forall i :: from <= i < from + SpaceRun(t[from..]) ==> InertChar(t[i])
  {
    forall i | from <= i < from + SpaceRun(t[from..]) ensures InertChar(t[i]) {
      RunAt(t, from, i);
      assert t[..n][i] == t[i];
    }
  }

  lemma WordInert(t: string, from: nat)
    requires from <= |t|
    ensures forall i :: from <= i < from + WordRun(t[from..]) ==> InertChar(t[i])
  {
    forall i | from <= i < from + WordRun(t[from..]) ensures InertChar(t[i]) {
      RunAt(t, from, i);
    }
  }

  lemma SemicolonInert(c: char)
    requires c == ';'
    ensures InertChar(c)
  {
  }

  lemma WordBound(t: string, a: nat, b: nat)
    requires a <= b <= |t| && forall i :: a <= i < b ==> InertChar(t[i])
    ensures Inert("let _ = " + t[a..b] + ";")
  {
    var m := "let _ = " + t[a..b] + ";";
    forall i | 0 <= i < |m| ensures InertChar(m[i]) {
      if i < 8 {
        assert m[i] == "let _ = "[i];
      } else if i < |m| - 1 {
        assert m[i] == t[a + i - 8];
      }
    }
  }

  lemma DiscardInert(t: string)
    requires DiscardAt(t).Some? && '\n' !in t[..DiscardAt(t).value.length]
    ensures Inert(t[..DiscardAt(t).value.length]) && Inert("let _ = " + DiscardAt(t).value.word + ";")
  {
    hide SpaceRun, WordRun, StartsWith, InertChar;
    var a := 6 + SpaceRun(t[6..]);
    var b := a + WordRun(t[a..]);
    var c := b + SpaceRun(t[b..]);
    var n := c + 1;
    assert n == DiscardAt(t).value.length;
    OpeningInert(t);
    SpacesInert(t, 6, n);
    WordInert(t, a);
    SpacesInert(t, b, n);
    SemicolonInert(t[c]);
    WordBound(t, a, b);
  }

  lemma OneLineTail(t: string, n: nat)
    requires DiscardsOnOneLine(t) && n <= |t|
    ensures DiscardsOnOneLine(t[n..])
  {
    var u := t[n..];
    forall k | 0 <= k < |u| && DiscardAt(u[k..]).Some?
      ensures '\n' !in u[k..][..DiscardAt(u[k..]).value.length]
    {
      assert u[k..] == t[n + k..];
    }
  }

  lemma OneLineHead(t: string)
    requires DiscardsOnOneLine(t) && t != ""
    ensures DiscardAt(t).Some? ==> '\n' !in t[..DiscardAt(t).value.length]
  {
    assert t[0..] == t;
  }

  lemma {:induction false} BindBalance(x: string, t: string)
    requires DiscardsOnOneLine(t)
    ensures Balanced(x + t) <==> Balanced(x + BindDiscards(t))
    decreases |t|
  {
    hide Balanced, DiscardAt, DiscardsOnOneLine, Inert;
    if t != "" {
      OneLineHead(t);
      if DiscardAt(t).Some? {
        var n := DiscardAt(t).value.length;
        var m' := "let _ = " + DiscardAt(t).value.word + ";";
        DiscardInert(t);
        assert x + t == x + t[..n] + t[n..];
        ReplaceEitherWay(x, t[..n], t[n..], m');
        OneLineTail(t, n);
        BindBalance(x + m', t[n..]);
        assert x + (m' + BindDiscards(t[n..])) == (x + m') + BindDiscards(t[n..]);
      } else {
        assert x + t == (x + [t[0]]) + t[1..];
        OneLineTail(t, 1);
        BindBalance(x + [t[0]], t[1..]);
        assert x + ([t[0]] + BindDiscards(t[1..])) == (x + [t[0]]) + BindDiscards(t[1..]);
      }
    }
  }

  /** A text whose discards stay on one line is balanced exactly when its translation is. */
  lemma BindOneLine(t: string)
    requires DiscardsOnOneLine(t)
    ensures Balanced(t) <==> Balanced(BindDiscards(t))
  {
    hide Balanced;
    assert "" + t == t && "" + BindDiscards(t) == BindDiscards(t);
    BindBalance("", t);
  }

  // ---------- line breaks in discards ----------

  /** The character at `q` is the line break that closes a line comment, to a scanner that starts at the head of `t`. */
  predicate ClosesLine(t: string, q: int)
    decreases |t|
  {
    t != "" &&
    var n := TokenLength(t);
    ((OpensLine(t) && q == n - 1 && t[n - 1] == '\n') || (q >= n && ClosesLine(t[n..], q - n)))
  }

  ghost predicate InDiscard(t: string, q: int) {
    exists k :: 0 <= k <= q < |t| && DiscardAt(t[k..]).Some? && q < k + DiscardAt(t[k..]).value.length
  }

  /** No `(void) x ;` statement of a body contains the line break that closes a line comment. */
  ghost predicate DiscardsKeepComments(body: string) {
    forall q :: 0 <= q < |body| && body[q] == '\n' && InDiscard(body, q) ==> !ClosesLine(body + "}", q)
  }

  /** `u` is `t` with some line breaks turned into spaces. */
  ghost predicate Joined(t: string, u: string) {
    |u| == |t| && forall q :: 0 <= q < |t| ==> u[q] == t[q] || (t[q] == '\n' && u[q] == ' ')
  }

  /** None of them closes a line comment. */
  ghost predicate KeepsComments(t: string, u: string) {
    Joined(t, u) && forall q :: 0 <= q < |t| && u[q] != t[q] ==> !ClosesLine(t, q)
  }

  lemma JoinedTail(t: string, u: string, n: nat)
    requires Joined(t, u) && n <= |t|
    ensures Joined(t[n..], u[n..])
  {
  }

  lemma {:induction false} FindBlockEnd(t: string, u: string)
    requires Joined(t, u)
    ensures Find(t, "*/") == Find(u, "*/")
    decreases |t|
  {
    assert StartsWith(t, "*/") <==> StartsWith(u, "*/") by {
      if |t| >= 2 {
        assert t[..2] == [t[0], t[1]] && u[..2] == [u[0], u[1]];
      }
    }
    if t != "" {
      FindBlockEnd(t[1..], u[1..]);
    }
  }

  lemma {:induction false} SameLiteral(t: string, u: string, quote: char)
    requires Joined(t, u) && IsQuote(quote)
    ensures LiteralLength(t, quote) == LiteralLength(u, quote)
    decreases |t|
  {
    if t != "" {
      if t[0] == '\\' {
        if |t| >= 2 { SameLiteral(t[2..], u[2..], quote); }
      } else if t[0] != quote {
        SameLiteral(t[1..], u[1..], quote);
      }
    }
  }

  /** The first line break of `t`, if it has one, stays. */
  lemma {:induction false} SameLineEnd(t: string, u: string)
    requires Joined(t, u)
    requires Find(t, "\n").Some? && Find(t, "\n").value < |t| ==> u[Find(t, "\n").value] == '\n'
    ensures Find(t, "\n") == Find(u, "\n")
    decreases |t|
  {
    if t != "" {
      assert t[..1] == [t[0]] && u[..1] == [u[0]];
      if t[0] != '\n' {
        SameLineEnd(t[1..], u[1..]);
      }
    }
  }

  lemma SameToken(t: string, u: string)
    requires t != "" && KeepsComments(t, u)
    ensures TokenLength(u) == TokenLength(t) && DepthChange(u) == DepthChange(t)
  {
    hide LiteralLength, Find;
    if OpensBlock(t) {
      FindBlockEnd(t[2..], u[2..]);
    } else if OpensLine(t) {
      LineClosed(t);
      SameLineEnd(t[2..], u[2..]);
    } else if IsQuote(t[0]) {
      SameLiteral(t[1..], u[1..], t[0]);
    }
  }

  lemma LineClosed(t: string)
    requires OpensLine(t)
    ensures Find(t[2..], "\n").Some? ==>
      var e := Find(t[2..], "\n").value; e + 2 < |t| && t[e + 2] == '\n' && ClosesLine(t, e + 2)
  {
    FindBounds(t[2..], "\n");
    if Find(t[2..], "\n").Some? {
      var e := Find(t[2..], "\n").value;
      assert t[2..][e..e + 1][0] == t[e + 2];
    }
  }

  /** The scanner sees no difference. */
  lemma KeepsTail(t: string, u: string)
    requires t != "" && KeepsComments(t, u)
    ensures KeepsComments(t[TokenLength(t)..], u[TokenLength(t)..])
  {
    hide TokenLength;
    var n := TokenLength(t);
    JoinedTail(t, u, n);
    forall q | 0 <= q < |t[n..]| && u[n..][q] != t[n..][q] ensures !ClosesLine(t[n..], q) {
      assert u[q + n] != t[q + n];
    }
  }

  lemma {:induction false} SameMatch(t: string, u: string, depth: int)
    requires KeepsComments(t, u)
    ensures MatchIn(t, depth) == MatchIn(u, depth)
    decreases |t|
  {
    hide TokenLength, DepthChange, ClosesLine;
    if t != "" {
      SameToken(t, u);
      var n := TokenLength(t);
      KeepsTail(t, u);
      SameMatch(t[n..], u[n..], depth + DepthChange(t));
    }
  }

  lemma JoinKeepsBalance(t: string, u: string)
    requires Balanced(t) && KeepsComments(t + "}", u + "}")
    ensures Balanced(u)
  {
    hide MatchIn, ClosesLine;
    var a, b := "{" + t + "}" + "", "{" + u + "}" + "";
    assert MatchIn(a, 0) == Some(|t| + 1);
    assert a == "{" + (t + "}") && b == "{" + (u + "}");
    forall q | 0 <= q < |a| && b[q] != a[q] ensures !ClosesLine(a, q) {
      assert (u + "}")[q - 1] != (t + "}")[q - 1];
      AfterBrace(t + "}", q);
    }
    assert forall q :: 0 < q < |a| ==> a[q] == (t + "}")[q - 1] && b[q] == (u + "}")[q - 1];
    SameMatch(a, b, 0);
    var body := MatchedBody(b);
    assert b[1..|u| + 1] == u;
  }

  lemma AfterBrace(t: string, q: int)
    ensures ClosesLine("{" + t, q) <==> q >= 1 && ClosesLine(t, q - 1)
  {
    assert ("{" + t)[1..] == t;
  }

  // ---------- discards read the same when line breaks become spaces ----------

  lemma {:induction false} SameSpaces(t: string, u: string)
    requires Joined(t, u)
    ensures SpaceRun(t) == SpaceRun(u)
  {
    if t != "" {
      SameSpaces(t[1..], u[1..]);
    }
  }

  lemma {:induction false} SameWord(t: string, u: string)
    requires Joined(t, u)
    ensures WordRun(t) == WordRun(u) && t[..WordRun(t)] == u[..WordRun(u)]
  {
    if t != "" && IsWord(t[0]) {
      SameWord(t[1..], u[1..]);
      assert t[..WordRun(t)] == [t[0]] + t[1..][..WordRun(t[1..])];
      assert u[..WordRun(u)] == [u[0]] + u[1..][..WordRun(u[1..])];
    }
  }

  lemma OpeningFits(t: string, u: string)
    requires Joined(t, u)
    ensures |u| == |t| && (StartsWith(t, "(void)") ==> 6 <= |t|)
  {
  }

  lemma SliceFrom(t: string, a: nat, b: nat)
    requires a <= b <= |t|
    ensures t[a..b] == t[a..][..b - a]
  {
  }

  lemma SameSemicolon(t: string, u: string, i: nat)
    requires Joined(t, u)
    ensures |t| == |u| && (i < |t| ==> (t[i] == ';' <==> u[i] == ';'))
  {
  }

  lemma SameDiscard(t: string, u: string)
    requires Joined(t, u)
    ensures DiscardAt(t) == DiscardAt(u)
  {
    hide SpaceRun, WordRun, StartsWith, Joined;
    SameOpening(t, u);
    OpeningFits(t, u);
    if StartsWith(t, "(void)") {
      SameSpacesFrom(t, u, 6);
      var a := 6 + SpaceRun(t[6..]);
      SameWordFrom(t, u, a);
      var b := a + WordRun(t[a..]);
      SameSpacesFrom(t, u, b);
      SameSemicolon(t, u, b + SpaceRun(t[b..]));
    }
  }

  lemma SameSpacesFrom(t: string, u: string, i: nat)
    requires Joined(t, u) && i <= |t| == |u|
    ensures SpaceRun(t[i..]) == SpaceRun(u[i..])
  {
    JoinedTail(t, u, i);
    SameSpaces(t[i..], u[i..]);
  }

  lemma SameWordFrom(t: string, u: string, i: nat)
    requires Joined(t, u) && i <= |t| == |u|
    ensures WordRun(t[i..]) == WordRun(u[i..])
    ensures t[i..i + WordRun(t[i..])] == u[i..i + WordRun(u[i..])]
  {
    hide WordRun;
    JoinedTail(t, u, i);
    SameWord(t[i..], u[i..]);
    SliceFrom(t, i, i + WordRun(t[i..]));
    SliceFrom(u, i, i + WordRun(u[i..]));
  }

  lemma SameOpening(t: string, u: string)
    requires Joined(t, u)
    ensures StartsWith(t, "(void)") <==> StartsWith(u, "(void)")
  {
    if |t| >= 6 {
      var p := "(void)";
      assert t[..6] == p ==> forall i :: 0 <= i < 6 ==> t[i] == p[i];
      assert u[..6] == p ==> forall i :: 0 <= i < 6 ==> u[i] == p[i];
      assert (forall i :: 0 <= i < 6 ==> t[i] == p[i]) ==> t[..6] == p;
      assert (forall i :: 0 <= i < 6 ==> u[i] == p[i]) ==> u[..6] == p;
      assert forall i :: 0 <= i < 6 ==> (t[i] == p[i] <==> u[i] == p[i]);
    }
  }

  /** No discard starts inside another one. */
  lemma NoOverlap(t: string, k: nat)
    requires DiscardAt(t).Some? && 0 < k < DiscardAt(t).value.length
    ensures DiscardAt(t[k..]).None?
  {
    var a := 6 + SpaceRun(t[6..]);
    var b := a + WordRun(t[a..]);
    var c := b + SpaceRun(t[b..]);
    assert t[k] != '(' by {
      if k < 6 {
        assert t[k] == t[..6][k] == "(void)"[k];
      } else if k < a {
        RunAt(t, 6, k);
      } else if k < b {
        RunAt(t, a, k);
      } else if k < c {
        RunAt(t, b, k);
      }
    }
    StartsAt(t[k..], "(void)", 0);
  }

  /** All changes are made inside discards. */
  ghost predicate OnlyInDiscards(t: string, u: string) {
    Joined(t, u) && forall q :: 0 <= q < |t| && u[q] != t[q] ==> InDiscard(t, q)
  }

  lemma OnlyInTail(t: string, u: string, n: nat)
    requires OnlyInDiscards(t, u) && 0 < n <= |t|
    requires forall k :: 0 <= k < n && DiscardAt(t[k..]).Some? ==> k + DiscardAt(t[k..]).value.length <= n
    ensures OnlyInDiscards(t[n..], u[n..])
  {
    hide DiscardAt;
    var v := t[n..];
    forall q | 0 <= q < |v| && u[n..][q] != v[q] ensures InDiscard(v, q) {
      assert u[q + n] != t[q + n];
      var k :| 0 <= k <= q + n < |t| && DiscardAt(t[k..]).Some? && q + n < k + DiscardAt(t[k..]).value.length;
      assert v[k - n..] == t[k..];
    }
  }

  lemma {:induction false} SameBinding(t: string, u: string)
    requires OnlyInDiscards(t, u)
    ensures BindDiscards(t) == BindDiscards(u)
    decreases |t|
  {
    hide DiscardAt, InDiscard;
    if t != "" {
      SameDiscard(t, u);
      assert t[0..] == t;
      var d := DiscardAt(t);
      if d.Some? {
        var n := d.value.length;
        forall k | 0 <= k < n && DiscardAt(t[k..]).Some? ensures k + DiscardAt(t[k..]).value.length <= n {
          if k > 0 {
            NoOverlap(t, k);
          }
        }
        OnlyInTail(t, u, n);
        SameBinding(t[n..], u[n..]);
      } else {
        FirstStays(t, u);
        OnlyInTail(t, u, 1);
        SameBinding(t[1..], u[1..]);
      }
    }
  }

  lemma FirstStays(t: string, u: string)
    requires OnlyInDiscards(t, u) && t != "" && DiscardAt(t).None?
    ensures u[0] == t[0]
  {
    hide DiscardAt;
    assert t[0..] == t;
    assert !InDiscard(t, 0);
  }

  /** The text with every line break in a discard turned into a space. */
  ghost function Flatten(t: string): (u: string)
    ensures OnlyInDiscards(t, u)
    ensures forall q :: 0 <= q < |t| && InDiscard(t, q) ==> u[q] != '\n'
  {
    seq(|t|, q requires 0 <= q < |t| => if t[q] == '\n' && InDiscard(t, q) then ' ' else t[q])
  }

  lemma FlatIsOneLine(t: string)
    ensures DiscardsOnOneLine(Flatten(t))
  {
    hide DiscardAt, Flatten;
    var u := Flatten(t);
    forall k | 0 <= k < |u| && DiscardAt(u[k..]).Some?
      ensures '\n' !in u[k..][..DiscardAt(u[k..]).value.length]
    {
      JoinedTail(t, u, k);
      SameDiscard(t[k..], u[k..]);
      var n := DiscardAt(u[k..]).value.length;
      forall i | 0 <= i < n ensures u[k..][..n][i] != '\n' {
        assert InDiscard(t, k + i);
      }
    }
  }

  /** The body is balanced when each line break in a discard is read as a space. */
  ghost predicate Joinable(body: string) {
    Balanced(Flatten(RenameState(body, false)))
  }

  /** The translation of a body is balanced exactly when the body is with its discards on one line. */
  lemma PromoteBalancedExactly(body: string)
    ensures Balanced(Promote(body)) <==> Joinable(body)
  {
    hide Balanced, Flatten;
    var renamed := RenameState(body, false);
    var u := Flatten(renamed);
    FlatIsOneLine(renamed);
    BindOneLine(u);
    SameBinding(renamed, u);
  }

  /** So is every balanced body in which no discard takes the end of a line comment with it. */
  lemma KeptCommentsJoin(body: string)
    requires Balanced(body) && DiscardsKeepComments(RenameState(body, false))
    ensures Joinable(body)
  {
    hide Balanced, Flatten, InDiscard, ClosesLine;
    var t := RenameState(body, false);
    var u := Flatten(t);
    assert "" + body == body && "" + t == t;
    RenameBalance("", body, false);
    var a, b := t + "}", u + "}";
    forall q | 0 <= q < |a| && b[q] != a[q] ensures !ClosesLine(a, q) {
      assert q < |t| && u[q] != t[q];
    }
    JoinKeepsBalance(t, u);
  }

  predicate NoLineComments(b: Body) {
    match b
    case Done => true
    case LineComment(_, _) => false
    case Braces(inner, rest) => NoLineComments(inner) && NoLineComments(rest)
    case _ => NoLineComments(b.rest)
  }

  lemma {:induction false} ClosesInside(t: string, q: int)
    ensures ClosesLine(t, q) ==> 0 <= q < |t|
    decreases |t|
  {
    hide TokenLength;
    if t != "" {
      ClosesInside(t[TokenLength(t)..], q - TokenLength(t));
    }
  }

  lemma ClosesPast(head: string, more: string, q: int)
    requires head != "" && TokenLength(head + more) == |head| && !OpensLine(head + more)
    ensures ClosesLine(head + more, q) <==> q >= |head| && ClosesLine(more, q - |head|)
  {
    assert (head + more)[|head|..] == more;
  }

  lemma PieceToken(b: Body, rest: string)
    requires WellFormed(b) && !b.Done? && !b.LineComment? && !b.Braces? && StartsWith(rest, "}")
    ensures var t := Piece(b) + (Render(b.rest) + rest);
      Piece(b) != "" && TokenLength(t) == |Piece(b)| && !OpensLine(t)
  {
    var more := Render(b.rest) + rest;
    StartsAt(rest, "}", 0);
    match b
    case Other(c, tail) =>
      assert ([c] + more)[1] == if Render(tail) == "" then '}' else Render(tail)[0];
      assert Render(tail) != "" ==> ([c] + Render(tail))[1] == Render(tail)[0];
    case Literal(quote, chars, _) =>
      assert (Piece(b) + more)[1..] == RenderLiteral(chars) + [quote] + more;
      LiteralLengthOf(chars, quote, more);
    case BlockComment(text, _) =>
      CommentToken("/*", text, "*/", more);
  }

  lemma BraceToken(c: char, more: string, q: int)
    requires c == '{' || c == '}'
    ensures ClosesLine([c] + more, q) <==> q >= 1 && ClosesLine(more, q - 1)
  {
    ClosesPast([c], more, q);
  }

  /** In code without line comments no line break closes one. */
  lemma {:induction false} ClosesNothing(b: Body, rest: string, q: int)
    requires WellFormed(b) && NoLineComments(b) && StartsWith(rest, "}")
    ensures ClosesLine(Render(b) + rest, q) ==> q >= |Render(b)| && ClosesLine(rest, q - |Render(b)|)
    decreases b
  {
    hide ClosesLine, TokenLength;
    if b.Done? {
      ClosesInside(rest, q);
      assert Render(b) + rest == rest;
    } else {
      var more := Render(b.rest) + rest;
      ConcatAssoc(Piece(b), Render(b.rest), rest);
      ClosesNothing(b.rest, rest, q - |Piece(b)|);
      if b.Braces? {
        var inner := Render(b.inner);
        assert Piece(b) + more == "{" + (inner + ("}" + more));
        BraceToken('{', inner + ("}" + more), q);
        ClosesNothing(b.inner, "}" + more, q - 1);
        BraceToken('}', more, q - 1 - |inner|);
      } else {
        PieceToken(b, rest);
        ClosesPast(Piece(b), more, q);
      }
    }
  }

  /** In a body without line comments discards may span as many lines as they like. */
  lemma PlainCodeKeepsComments(b: Body)
    requires WellFormed(b) && NoLineComments(b)
    ensures DiscardsKeepComments(Render(b))
  {
    hide InDiscard, Render, WellFormed, NoLineComments;
    forall q ensures !ClosesLine(Render(b) + "}", q) {
      ClosesNothing(b, "}", q);
      BraceToken('}', "", q - |Render(b)|);
      assert ['}'] + "" == "}";
    }
  }

  // ---------- re-running the script ----------

  /** Every body that gets translated is balanced with its discards on one line. */
  ghost predicate AllJoinable(g: Grammar) {
    g.End?
    || ((KindOf(g.gap) == Rule && !NextIsTwin(Print(g.rest)) ==> Joinable(g.body)) && AllJoinable(g.rest))
  }

  lemma {:induction false} PromotionsBalancedExactly(g: Grammar)
    ensures PromotionsBalanced(g) <==> AllJoinable(g)
    decreases g
  {
    hide Balanced, KindOf, NextIsTwin, Joinable, Promote;
    if g.Block? {
      PromoteBalancedExactly(g.body);
      PromotionsBalancedExactly(g.rest);
    }
  }

  /** The script is idempotent on every grammar whose brackets are closed in their own gaps and whose translated
      bodies are balanced with their discards on one line. */
  lemma Idempotent(g: Grammar)
    requires Blocks(g) && LocalBrackets(g) && AllJoinable(g)
    ensures Stripped("", Print(g)) == Some(Print(Strip(g)))
    ensures Stripped("", Print(Strip(g))) == Some(Print(Strip(g)))
  {
    PromotionsBalancedExactly(g);
    SecondRunChangesNothing(g);
  }

  // ---------- exactly what a run leaves alone ----------

  /** No body of the source stands behind a rule terminator. */
  ghost predicate NoRuleBody(src: string, i: nat)
    requires i <= |src|
  {
    BodiesFrom(src, i).Some? && forall b :: b in BodiesFrom(src, i).value ==> b.kind != Rule
  }

  lemma FixedUnmatched(src: string, i: nat)
    requires i < |src| && src[i] == '{' && MatchAt(src, i, 0).None?
    ensures Stripped(src[..i], src[i..]).None?
  {
  }

  lemma FixedStep(src: string, i: nat)
    requires i < |src| && src[i] != '{'
    ensures Stripped(src[..i], src[i..])
         == var more := Stripped(src[..i + 1], src[i + 1..]); if more.None? then None else Some([src[i]] + more.value)
  {
    assert src[..i] + [src[i]] == src[..i + 1] && src[i..][1..] == src[i + 1..];
  }

  lemma TwinStarts(t: string)
    requires NextIsTwin(t)
    ensures t != "" && t[0] != '{'
  {
    StartsAt(t, TWIN, 0);
  }

  lemma StartsUnchanged(before: string, t: string)
    requires t != "" && t[0] != '{' && Stripped(before, t).Some?
    ensures Stripped(before, t).value != "" && Stripped(before, t).value[0] == t[0]
  {
  }

  /** Replacing a rule's body changes the text right where the body opens. */
  lemma RuleBodyChanges(before: string, body: string, after: string)
    requires Stripped(before, after).Some?
    ensures var out := Replacement(Rule, body, after) + Stripped(before, after).value; out != "" && out[0] != '{'
  {
    hide Stripped, Promote;
    var out := Replacement(Rule, body, after) + Stripped(before, after).value;
    if NextIsTwin(after) {
      TwinStarts(after);
      StartsUnchanged(before, after);
      assert out == Stripped(before, after).value;
    } else {
      assert out[0] == TWIN[0];
    }
  }

  lemma {:induction false} FixedFrom(src: string, i: nat)
    requires i <= |src| && Stripped(src[..i], src[i..]).Some?
    ensures Stripped(src[..i], src[i..]) == Some(src[i..]) <==> NoRuleBody(src, i)
    decreases |src| - i
  {
    hide Stripped, BodiesFrom, MatchAt, KindOf, Promote;
    if i == |src| {
      NoMore(src);
      FixedAtEnd(src[..i], src[i..]);
    } else if src[i] != '{' {
      NoBrace(src, i);
      FixedStep(src, i);
      FixedFrom(src, i + 1);
      assert src[i..] == [src[i]] + src[i + 1..];
      SameHead([src[i]], Stripped(src[..i + 1], src[i + 1..]).value, src[i + 1..]);
    } else if MatchAt(src, i, 0).None? {
      FixedUnmatched(src, i);
    } else {
      var j := MatchAt(src, i, 0).value;
      MatchFits(src, i);
      assert src[i..] == src[i..j + 1] + src[j + 1..];
      FirstBody(src, i, j);
      BodyReadings(src, i, j);
      FixedFrom(src, j + 1);
      FixedBody(src, i, j);
    }
  }

  lemma FixedAtEnd(before: string, t: string)
    requires t == ""
    ensures Stripped(before, t) == Some(t)
  {
  }

  lemma SameHead(head: string, a: string, b: string)
    ensures head + a == head + b <==> a == b
  {
    assert (head + a)[|head|..] == a && (head + b)[|head|..] == b;
  }

  lemma FixedBody(src: string, i: nat, j: nat)
    requires i < j < |src|
    requires src[i..] == ("{" + src[i + 1..j] + "}") + src[j + 1..]
    requires Stripped(src[..j + 1], src[j + 1..]).Some? && BodiesFrom(src, i).Some? == BodiesFrom(src, j + 1).Some?
    requires BodiesFrom(src, j + 1).Some? ==>
      BodiesFrom(src, i).value == [FoundBody(i, j, KindOf(src[..i]))] + BodiesFrom(src, j + 1).value
    requires Stripped(src[..j + 1], src[j + 1..]) == Some(src[j + 1..]) <==> NoRuleBody(src, j + 1)
    ensures var after := src[j + 1..];
      Replacement(KindOf(src[..i]), src[i + 1..j], after) + Stripped(src[..j + 1], after).value == src[i..]
      <==> NoRuleBody(src, i)
  {
    hide Stripped, BodiesFrom, KindOf, Promote;
    var body, after := src[i + 1..j], src[j + 1..];
    if BodiesFrom(src, j + 1).Some? {
      var b := FoundBody(i, j, KindOf(src[..i]));
      assert b in BodiesFrom(src, i).value;
      assert forall c :: c in BodiesFrom(src, j + 1).value ==> c in BodiesFrom(src, i).value;
    }
    if KindOf(src[..i]) == Rule {
      RuleBodyChanges(src[..j + 1], body, after);
      assert ("{" + body + "}" + after)[0] == '{';
    } else {
      SameHead("{" + body + "}", Stripped(src[..j + 1], after).value, after);
    }
  }

  lemma ReadIsAccepted(src: string)
    requires BodiesFrom(src, 0).Some?
    ensures Stripped("", src).Some?
  {
    hide Stripped;
    SplicesToStripped(src, 0);
    assert src[..0] == "" && src[0..] == src;
  }

  /** A run of the script leaves a source unchanged exactly when all its braces are matched and no body is a rule's; so
      a second run changes nothing exactly when that is true of the first one's output. */
  lemma FixedPointExactly(src: string)
    ensures Stripped("", src) == Some(src) <==> NoRuleBody(src, 0)
  {
    hide Stripped, BodiesFrom;
    assert src[..0] == "" && src[0..] == src;
    if NoRuleBody(src, 0) {
      ReadIsAccepted(src);
    }
    if Stripped("", src).Some? {
      FixedFrom(src, 0);
    }
  }
}
