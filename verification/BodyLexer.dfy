/** Matching the braces of an action body, with strings, character literals and comments skipped. */
module BodyLexer {
  import opened Options
  import opened Text

  // ---------- the scanner ----------

  /** The length of a literal after its opening quote; an unterminated one runs to the end. */
  function LiteralLength(t: string, quote: char): nat {
    if t == "" then 0
    else if t[0] == '\\' then (if |t| < 2 then |t| else 2 + LiteralLength(t[2..], quote))
    else if t[0] == quote then 1
    else 1 + LiteralLength(t[1..], quote)
  }

  lemma {:induction false} LiteralFits(t: string, quote: char)
    ensures LiteralLength(t, quote) <= |t|
  {
    if t != "" {
      if t[0] == '\\' {
        if |t| >= 2 { LiteralFits(t[2..], quote); }
      } else if t[0] != quote {
        LiteralFits(t[1..], quote);
      }
    }
  }

  /** The length of the comment that `t` starts with, `close` included; an unclosed one runs to the end. */
  function CommentLength(t: string, close: string): (n: nat)
    requires |t| >= 2
    ensures 2 <= n <= |t|
  {
    FindBounds(t[2..], close);
    var end := Find(t[2..], close);
    if end.Some? then 2 + end.value + |close| else |t|
  }

  predicate IsQuote(c: char) {
    c == '"' || c == '\''
  }

  predicate OpensBlock(t: string) {
    |t| >= 2 && t[0] == '/' && t[1] == '*'
  }

  predicate OpensLine(t: string) {
    |t| >= 2 && t[0] == '/' && t[1] == '/'
  }

  predicate OpensComment(t: string) {
    OpensBlock(t) || OpensLine(t)
  }

  /** The length of the comment, literal or single character at the head of `t`. */
  function TokenLength(t: string): (n: nat)
    requires t != ""
    ensures 1 <= n <= |t|
  {
    if OpensBlock(t) then CommentLength(t, "*/")
    else if OpensLine(t) then CommentLength(t, "\n")
    else if IsQuote(t[0]) then LiteralFits(t[1..], t[0]); 1 + LiteralLength(t[1..], t[0])
    else 1
  }

  /** How the token at the head of `t` changes the brace depth. */
  function DepthChange(t: string): int
    requires t != ""
  {
    if OpensComment(t) then 0 else if t[0] == '{' then 1 else if t[0] == '}' then -1 else 0
  }

  /** Where the brace is that brings `depth` back to zero. */
  function MatchIn(t: string, depth: int): Option<nat>
    decreases |t|
  {
    if t == "" then None
    else if DepthChange(t) == -1 && depth == 1 then Some(0)
    else Shift(MatchIn(t[TokenLength(t)..], depth + DepthChange(t)), TokenLength(t))
  }

  function MatchAt(src: string, i: nat, depth: int): Option<nat>
    requires i <= |src|
  {
    Shift(MatchIn(src[i..], depth), i)
  }

  lemma MatchAtStep(src: string, i: nat, depth: int)
    requires i < |src|
    ensures i + TokenLength(src[i..]) <= |src|
    ensures MatchAt(src, i, depth)
         == if DepthChange(src[i..]) == -1 && depth == 1 then Some(i)
            else MatchAt(src, i + TokenLength(src[i..]), depth + DepthChange(src[i..]))
  {
    var n := TokenLength(src[i..]);
    assert src[i..][n..] == src[i + n..];
  }

  method SkipString(src: string, start: nat) returns (end: nat)
    requires start < |src|
    ensures end == start + 1 + LiteralLength(src[start + 1..], src[start])
    ensures end <= |src|
  {
    LiteralFits(src[start + 1..], src[start]);
    var quote := src[start];
    var i := start + 1;
    var n := |src|;
    while i < n
      invariant start < i <= n + 1
      invariant i <= n ==>
        i + LiteralLength(src[i..], quote) == start + 1 + LiteralLength(src[start + 1..], quote)
      invariant i == n + 1 ==> n == start + 1 + LiteralLength(src[start + 1..], quote)
    {
      if src[i] == '\\' {
        assert i + 2 <= n ==> src[i..][2..] == src[i + 2..];
        i := i + 2;
      } else if src[i] == quote {
        return i + 1;
      } else {
        assert src[i..][1..] == src[i + 1..];
        i := i + 1;
      }
    }
    end := n;
  }

  lemma NoMatchAtEnd(src: string)
    ensures forall depth :: MatchAt(src, |src|, depth).None?
  {
  }

  /** `None` stands for the exception about an unbalanced brace. */
  method MatchBrace(src: string, open: nat) returns (close: Option<nat>)
    requires open <= |src|
    ensures close == MatchAt(src, open, 0)
  {
    hide MatchIn, LiteralLength;
    var depth, i, n := 0, open, |src|;
    NoMatchAtEnd(src);
    while i < n
      invariant open <= i <= n
      invariant MatchAt(src, i, depth) == MatchAt(src, open, 0)
      decreases n - i
    {
      MatchAtStep(src, i, depth);
      var c := src[i];
      var two := src[i..];
      if OpensBlock(two) {
        i := SkipComment(src, i, "*/");
      } else if OpensLine(two) {
        i := SkipComment(src, i, "\n");
      } else if IsQuote(c) {
        assert two[1..] == src[i + 1..];
        i := SkipString(src, i);
      } else {
        if c == '{' {
          depth := depth + 1;
        } else if c == '}' {
          depth := depth - 1;
          if depth == 0 {
            return Some(i);
          }
        }
        i := i + 1;
      }
    }
    close := None;
  }

  method SkipComment(src: string, start: nat, closing: string) returns (end: nat)
    requires start + 2 <= |src|
    ensures end == start + CommentLength(src[start..], closing)
  {
    assert src[start..][2..] == src[start + 2..];
    var found := FindFrom(src, closing, start + 2);
    end := if found.Some? then found.value + |closing| else |src|;
  }

  // ---------- what a balanced body is ----------

  datatype LiteralChar = Plain(c: char) | Escaped(c: char)

  /** The text between two matching braces, piece by piece. */
  datatype Body =
    | Done
    | Other(c: char, rest: Body)
    | Literal(quote: char, chars: seq<LiteralChar>, rest: Body)
    | BlockComment(text: string, rest: Body)
    | LineComment(text: string, rest: Body)
    | Braces(inner: Body, rest: Body)

  function RenderChar(c: LiteralChar): string {
    if c.Plain? then [c.c] else ['\\', c.c]
  }

  function RenderLiteral(text: seq<LiteralChar>): string {
    if text == [] then "" else RenderChar(text[0]) + RenderLiteral(text[1..])
  }

  /** The text of the first piece. */
  function Piece(b: Body): string
    requires !b.Done?
    decreases b, 0
  {
    match b
    case Other(c, _) => [c]
    case Literal(quote, chars, _) => [quote] + RenderLiteral(chars) + [quote]
    case BlockComment(text, _) => "/*" + text + "*/"
    case LineComment(text, _) => "//" + text + "\n"
    case Braces(inner, _) => "{" + Render(inner) + "}"
  }

  function Render(b: Body): string
    decreases b, 1
  {
    if b.Done? then "" else Piece(b) + Render(b.rest)
  }

  /** Pieces are what they claim to be: plain characters are not delimiters, and comments and literals end only
      at their end. */
  ghost predicate WellFormed(b: Body) {
    match b
    case Done => true
    case Other(c, rest) =>
      && c != '{' && c != '}' && !IsQuote(c)
      && !OpensComment([c] + Render(rest))
      && WellFormed(rest)
    case Literal(quote, text, rest) =>
      && IsQuote(quote)
      && (forall i :: 0 <= i < |text| && text[i].Plain? ==> text[i].c != quote && text[i].c != '\\')
      && WellFormed(rest)
    case BlockComment(text, rest) =>
      (forall k :: 0 <= k < |text| ==> !StartsWith(text[k..] + "*/", "*/")) && WellFormed(rest)
    case LineComment(text, rest) => '\n' !in text && WellFormed(rest)
    case Braces(inner, rest) => WellFormed(inner) && WellFormed(rest)
  }

  /** The scanner, started on the brace before `text`, stops at the brace after it, whatever follows. */
  ghost predicate Balanced(text: string) {
    forall rest :: MatchIn("{" + text + "}" + rest, 0) == Some(|text| + 1)
  }

  // ---------- every well-formed body is balanced ----------

  lemma {:induction false} LiteralLengthOf(text: seq<LiteralChar>, quote: char, rest: string)
    requires quote != '\\'
    requires forall i :: 0 <= i < |text| && text[i].Plain? ==> text[i].c != quote && text[i].c != '\\'
    ensures LiteralLength(RenderLiteral(text) + [quote] + rest, quote) == |RenderLiteral(text)| + 1
  {
    var t := RenderLiteral(text) + [quote] + rest;
    if text == [] {
      assert t[0] == quote;
    } else {
      var head := RenderChar(text[0]);
      assert t == head + (RenderLiteral(text[1..]) + [quote] + rest);
      assert t[|head|..] == RenderLiteral(text[1..]) + [quote] + rest;
      LiteralLengthOf(text[1..], quote, rest);
    }
  }

  /** The head token of a rendered body is its first piece. */
  lemma CommentToken(open: string, text: string, close: string, rest: string)
    requires |open| == 2 && close != ""
    requires forall k :: 0 <= k < |text| ==> !StartsWith(text[k..] + close, close)
    ensures CommentLength(open + text + close + rest, close) == 2 + |text| + |close|
  {
    var t := open + text + close + rest;
    assert t[2..] == text + close + rest;
    FindAfter(text, close, rest);
  }

  /** The scanner passes over a token and goes on after it. */
  lemma PassToken(head: string, more: string, depth: int)
    requires head != "" && TokenLength(head + more) == |head|
    requires DepthChange(head + more) != -1 || depth != 1
    ensures MatchIn(head + more, depth) == Shift(MatchIn(more, depth + DepthChange(head + more)), |head|)
  {
    assert (head + more)[|head|..] == more;
  }

  lemma PassLiteral(quote: char, text: seq<LiteralChar>, more: string, depth: int)
    requires IsQuote(quote)
    requires forall i :: 0 <= i < |text| && text[i].Plain? ==> text[i].c != quote && text[i].c != '\\'
    ensures MatchIn([quote] + RenderLiteral(text) + [quote] + more, depth)
         == Shift(MatchIn(more, depth), |RenderLiteral(text)| + 2)
  {
    var head := [quote] + RenderLiteral(text) + [quote];
    assert (head + more)[1..] == RenderLiteral(text) + [quote] + more;
    LiteralLengthOf(text, quote, more);
    PassToken(head, more, depth);
  }

  lemma PassBlockComment(text: string, more: string, depth: int)
    requires forall k :: 0 <= k < |text| ==> !StartsWith(text[k..] + "*/", "*/")
    ensures MatchIn("/*" + text + "*/" + more, depth) == Shift(MatchIn(more, depth), |text| + 4)
  {
    CommentToken("/*", text, "*/", more);
    var head := "/*" + text + "*/";
    PassToken(head, more, depth);
  }

  lemma PassLineComment(text: string, more: string, depth: int)
    requires '\n' !in text
    ensures MatchIn("//" + text + "\n" + more, depth) == Shift(MatchIn(more, depth), |text| + 3)
  {
    forall k | 0 <= k < |text| ensures !StartsWith(text[k..] + "\n", "\n") {
      assert (text[k..] + "\n")[0] == text[k];
    }
    CommentToken("//", text, "\n", more);
    var head := "//" + text + "\n";
    PassToken(head, more, depth);
  }

  lemma PassOther(c: char, tail: string, rest: string, depth: int)
    requires c != '{' && c != '}' && !IsQuote(c) && !OpensComment([c] + tail) && StartsWith(rest, "}")
    ensures MatchIn([c] + (tail + rest), depth) == Shift(MatchIn(tail + rest, depth), 1)
  {
    var t := [c] + (tail + rest);
    assert !OpensComment(t) by {
      if tail == "" {
        assert t[1] == '}';
      } else {
        assert t[1] == tail[0];
      }
    }
    PassToken([c], tail + rest, depth);
  }

  lemma PassOpen(more: string, depth: int)
    ensures MatchIn("{" + more, depth) == Shift(MatchIn(more, depth + 1), 1)
  {
    PassToken("{", more, depth);
  }

  lemma PassClose(more: string, depth: int)
    ensures MatchIn("}" + more, depth) == if depth == 1 then Some(0) else Shift(MatchIn(more, depth - 1), 1)
  {
    if depth != 1 {
      PassToken("}", more, depth);
    }
  }

  lemma PassBraces(inner: string, more: string, depth: int)
    requires depth >= 1
    requires MatchIn(inner + ("}" + more), depth + 1) == Shift(MatchIn("}" + more, depth + 1), |inner|)
    ensures MatchIn("{" + inner + "}" + more, depth) == Shift(MatchIn(more, depth), |inner| + 2)
  {
    hide MatchIn;
    PassOpen(inner + ("}" + more), depth);
    PassClose(more, depth + 1);
    assert "{" + inner + "}" + more == "{" + (inner + ("}" + more));
  }

  lemma PassJoin(head: string, tail: string, rest: string, depth: int)
    requires MatchIn(head + (tail + rest), depth) == Shift(MatchIn(tail + rest, depth), |head|)
    requires MatchIn(tail + rest, depth) == Shift(MatchIn(rest, depth), |tail|)
    ensures MatchIn((head + tail) + rest, depth) == Shift(MatchIn(rest, depth), |head + tail|)
  {
    hide MatchIn;
    ConcatAssoc(head, tail, rest);
  }

  /** Whatever the depth, the scanner passes over a well-formed body. */
  lemma {:induction false} PassesOver(b: Body, rest: string, depth: int)
    requires WellFormed(b) && depth >= 1 && StartsWith(rest, "}")
    ensures MatchIn(Render(b) + rest, depth) == Shift(MatchIn(rest, depth), |Render(b)|)
    decreases b, 1
  {
    if b.Done? {
      assert Render(b) + rest == rest;
    } else {
      PassPiece(b, rest, depth);
      PassesOver(b.rest, rest, depth);
      PassJoin(Piece(b), Render(b.rest), rest, depth);
    }
  }

  lemma {:induction false} PassPiece(b: Body, rest: string, depth: int)
    requires WellFormed(b) && !b.Done? && depth >= 1 && StartsWith(rest, "}")
    ensures MatchIn(Piece(b) + (Render(b.rest) + rest), depth)
         == Shift(MatchIn(Render(b.rest) + rest, depth), |Piece(b)|)
    decreases b, 0
  {
    var more := Render(b.rest) + rest;
    match b
    case Other(c, tail) => PassOther(c, Render(tail), rest, depth);
    case Literal(quote, chars, _) => PassLiteral(quote, chars, more, depth);
    case BlockComment(text, _) => PassBlockComment(text, more, depth);
    case LineComment(text, _) => PassLineComment(text, more, depth);
    case Braces(inner, _) =>
      PassesOver(inner, "}" + more, depth + 1);
      PassBraces(Render(inner), more, depth);
  }

  lemma CloseAfter(text: string, rest: string)
    requires MatchIn(text + ("}" + rest), 1) == Shift(MatchIn("}" + rest, 1), |text|)
    ensures MatchIn("{" + text + "}" + rest, 0) == Some(|text| + 1)
  {
    hide MatchIn;
    PassOpen(text + ("}" + rest), 0);
    PassClose(rest, 1);
    assert "{" + text + "}" + rest == "{" + (text + ("}" + rest));
  }

  lemma WellFormedIsBalanced(b: Body)
    requires WellFormed(b)
    ensures Balanced(Render(b))
  {
    forall rest ensures MatchIn("{" + Render(b) + "}" + rest, 0) == Some(|Render(b)| + 1) {
      PassesOver(b, "}" + rest, 1);
      CloseAfter(Render(b), rest);
    }
  }

  // ---------- and every balanced text is a well-formed body ----------

  lemma ConsLiteral(c: LiteralChar, more: seq<LiteralChar>, t: string, quote: char)
    requires StartsWith(t, RenderChar(c))
    ensures RenderLiteral([c] + more) + [quote] == t[..|RenderChar(c)|] + (RenderLiteral(more) + [quote])
  {
    assert ([c] + more)[1..] == more;
  }

  lemma NoLiteral(t: string, quote: char)
    requires t != "" && t[0] == quote
    ensures t[..1] == RenderLiteral([]) + [quote]
  {
  }

  lemma {:induction false} ParseLiteral(t: string, quote: char) returns (chars: seq<LiteralChar>)
    requires LiteralLength(t, quote) < |t|
    ensures t[..LiteralLength(t, quote)] == RenderLiteral(chars) + [quote]
    ensures forall i :: 0 <= i < |chars| && chars[i].Plain? ==> chars[i].c != quote && chars[i].c != '\\'
  {
    hide RenderLiteral;
    if t[0] == '\\' {
      assert |t| >= 2;
      var more := ParseLiteral(t[2..], quote);
      chars := [Escaped(t[1])] + more;
      ConsLiteral(Escaped(t[1]), more, t, quote);
      assert t[..LiteralLength(t, quote)] == t[..2] + t[2..][..LiteralLength(t[2..], quote)];
    } else if t[0] == quote {
      chars := [];
      NoLiteral(t, quote);
    } else {
      var more := ParseLiteral(t[1..], quote);
      chars := [Plain(t[0])] + more;
      ConsLiteral(Plain(t[0]), more, t, quote);
      assert t[..LiteralLength(t, quote)] == t[..1] + t[1..][..LiteralLength(t[1..], quote)];
    }
  }

  /** A token that a match goes past is complete: its comment is closed, its literal is terminated. */
  lemma TokenBeforeMatch(t: string, depth: int)
    requires t != "" && MatchIn(t, depth).Some? && DepthChange(t) == 0
    ensures TokenLength(t) < |t|
  {
    assert MatchIn("", depth).None?;
  }

  lemma ParseBlockComment(t: string, rest: Body) returns (b: Body)
    requires OpensBlock(t) && CommentLength(t, "*/") < |t| && WellFormed(rest)
    ensures WellFormed(b) && !b.Done? && b.rest == rest && Piece(b) == t[..CommentLength(t, "*/")]
  {
    FindIsFirst(t[2..], "*/");
    FindBounds(t[2..], "*/");
    var e := Find(t[2..], "*/").value;
    b := BlockComment(t[2..][..e], rest);
    assert t[..e + 4] == t[..2] + t[2..][..e] + t[2..][e..e + 2];
  }

  lemma ParseLineComment(t: string, rest: Body) returns (b: Body)
    requires OpensLine(t) && CommentLength(t, "\n") < |t| && WellFormed(rest)
    ensures WellFormed(b) && !b.Done? && b.rest == rest && Piece(b) == t[..CommentLength(t, "\n")]
  {
    FindIsFirst(t[2..], "\n");
    FindBounds(t[2..], "\n");
    var e := Find(t[2..], "\n").value;
    var text := t[2..][..e];
    forall k | 0 <= k < |text| ensures text[k] != '\n' {
      assert (text[k..] + "\n")[..1] == [text[k]];
    }
    b := LineComment(text, rest);
    assert t[..e + 3] == t[..2] + text + t[2..][e..e + 1];
  }

  /** The piece that a token of a matched text is, in front of the pieces that follow. */
  lemma ParseToken(t: string, depth: int, rest: Body) returns (b: Body)
    requires t != "" && MatchIn(t, depth).Some? && DepthChange(t) == 0
    requires WellFormed(rest) && StartsWith(t[TokenLength(t)..], Render(rest))
    ensures WellFormed(b) && !b.Done? && b.rest == rest && Piece(b) == t[..TokenLength(t)]
  {
    TokenBeforeMatch(t, depth);
    if OpensBlock(t) {
      b := ParseBlockComment(t, rest);
    } else if OpensLine(t) {
      b := ParseLineComment(t, rest);
    } else if IsQuote(t[0]) {
      var chars := ParseLiteral(t[1..], t[0]);
      b := Literal(t[0], chars, rest);
      assert t[..TokenLength(t)] == t[..1] + t[1..][..TokenLength(t) - 1];
    } else {
      b := Other(t[0], rest);
      var more := Render(rest);
      assert more != "" ==> t[1] == more[0] && ([t[0]] + more)[1] == more[0];
    }
  }

  /** The body `b` runs up to a closing brace. */
  ghost predicate Reads(t: string, b: Body) {
    WellFormed(b) && StartsWith(t, Render(b)) && |Render(b)| < |t| && t[|Render(b)|] == '}'
  }

  /** The brace at `k` closes the innermost open one, and the match goes on from there. */
  ghost predicate Closes(t: string, depth: int, k: nat) {
    k < |t| && MatchIn(t, depth) == if depth == 1 then Some(k) else Shift(MatchIn(t[k + 1..], depth - 1), k + 1)
  }

  lemma ReadsBraces(t: string, inner: Body, rest: Body)
    requires StartsWith(t, "{") && Reads(t[1..], inner) && Reads(t[|Render(inner)| + 2..], rest)
    ensures Reads(t, Braces(inner, rest)) && |Render(Braces(inner, rest))| == |Render(inner)| + 2 + |Render(rest)|
  {
    hide Render, Piece, WellFormed;
    var b, k, m := Braces(inner, rest), |Render(inner)|, |Render(rest)|;
    BracesStep(inner, rest);
    BracesSlice(t, k, m);
  }

  lemma BracesStep(inner: Body, rest: Body)
    ensures Render(Braces(inner, rest)) == "{" + Render(inner) + "}" + Render(rest)
    ensures WellFormed(Braces(inner, rest)) == (WellFormed(inner) && WellFormed(rest))
  {
  }

  lemma BracesSlice(t: string, k: nat, m: nat)
    requires k + 2 + m <= |t| && t[0] == '{' && t[1..][k] == '}'
    ensures t[..k + 2 + m] == "{" + t[1..][..k] + "}" + t[k + 2..][..m]
  {
  }

  lemma InsideBraces(t: string, depth: int)
    requires t != "" && DepthChange(t) == 1
    ensures t[0] == '{' && MatchIn(t, depth) == Shift(MatchIn(t[1..], depth + 1), 1)
  {
    assert TokenLength(t) == 1;
  }

  lemma ClosesBraces(t: string, depth: int, i: nat, m: nat, k: nat)
    requires depth >= 1 && t != "" && DepthChange(t) == 1 && k == i + 2 + m
    requires Closes(t[1..], depth + 1, i) && i + 2 <= |t| && Closes(t[i + 2..], depth, m)
    ensures Closes(t, depth, k)
  {
    hide MatchIn, DepthChange;
    InsideBraces(t, depth);
    DropDrop(t, 1, i + 1);
    DropDrop(t, i + 2, m + 1);
  }

  lemma RenderStep(b: Body)
    requires !b.Done?
    ensures Render(b) == Piece(b) + Render(b.rest)
  {
  }

  lemma ReadsToken(t: string, b: Body)
    requires t != "" && WellFormed(b) && !b.Done? && Piece(b) == t[..TokenLength(t)]
    requires Reads(t[TokenLength(t)..], b.rest)
    ensures Reads(t, b) && |Render(b)| == TokenLength(t) + |Render(b.rest)|
  {
    hide Render, Piece, WellFormed, TokenLength;
    var n, m := TokenLength(t), |Render(b.rest)|;
    RenderStep(b);
    assert t[..n + m] == t[..n] + t[n..][..m];
  }

  lemma PastToken(t: string, depth: int)
    requires t != "" && DepthChange(t) == 0
    ensures MatchIn(t, depth) == Shift(MatchIn(t[TokenLength(t)..], depth), TokenLength(t))
  {
  }

  lemma ClosesToken(t: string, depth: int, m: nat)
    requires depth >= 1 && t != "" && DepthChange(t) == 0
    requires Closes(t[TokenLength(t)..], depth, m)
    ensures Closes(t, depth, TokenLength(t) + m)
  {
    hide MatchIn, DepthChange, TokenLength;
    var n := TokenLength(t);
    PastToken(t, depth);
    DropDrop(t, n, m + 1);
  }

  lemma AfterInner(t: string, depth: int, k: nat)
    requires depth >= 1 && t != "" && MatchIn(t[1..], depth + 1).Some? && Closes(t[1..], depth + 1, k)
    ensures k + 2 <= |t| && MatchIn(t[k + 2..], depth).Some?
  {
    assert t[1..][k + 1..] == t[k + 2..];
  }

  lemma AfterToken(t: string, depth: int)
    requires depth >= 1 && t != "" && DepthChange(t) == 0 && MatchIn(t, depth).Some?
    ensures MatchIn(t[TokenLength(t)..], depth).Some?
  {
    hide MatchIn, DepthChange, TokenLength;
    PastToken(t, depth);
  }

  lemma ReadsNothing(t: string, depth: int)
    requires depth >= 1 && t != "" && DepthChange(t) == -1
    ensures Reads(t, Done) && Render(Done) == "" && Closes(t, depth, 0)
  {
  }

  lemma MatchNonempty(t: string, depth: int)
    requires MatchIn(t, depth).Some?
    ensures t != "" && -1 <= DepthChange(t) <= 1
  {
  }

  /** Reads one body off a text in which the scanner finds a match. */
  lemma {:induction false} ParseBody(t: string, depth: int) returns (b: Body, k: nat)
    requires depth >= 1 && MatchIn(t, depth).Some?
    ensures Reads(t, b) && k == |Render(b)|
    ensures Closes(t, depth, k)
    decreases |t|
  {
    hide MatchIn, Render, WellFormed, Closes;
    MatchNonempty(t, depth);
    if DepthChange(t) == -1 {
      ReadsNothing(t, depth);
      b, k := Done, 0;
    } else if DepthChange(t) == 1 {
      b, k := ParseBraces(t, depth);
    } else {
      AfterToken(t, depth);
      var rest, m := ParseBody(t[TokenLength(t)..], depth);
      b := ParseToken(t, depth, rest);
      k := TokenLength(t) + m;
      ReadsToken(t, b);
      ClosesToken(t, depth, m);
    }
  }

  lemma {:induction false} ParseBraces(t: string, depth: int) returns (b: Body, k: nat)
    requires depth >= 1 && t != "" && MatchIn(t, depth).Some? && DepthChange(t) == 1
    ensures Reads(t, b) && k == |Render(b)|
    ensures Closes(t, depth, k)
    decreases |t|, 0
  {
    hide MatchIn, Render, WellFormed, DepthChange;
    InsideBraces(t, depth);
    var inner, i := ParseBody(t[1..], depth + 1);
    AfterInner(t, depth, i);
    var rest, m := ParseBody(t[i + 2..], depth);
    b, k := Braces(inner, rest), i + 2 + m;
    ReadsBraces(t, inner, rest);
    ClosesBraces(t, depth, i, m, k);
  }

  /** The scanner accepts exactly the well-formed bodies. */
  lemma BalancedExactly(text: string)
    ensures Balanced(text) <==> exists b :: WellFormed(b) && Render(b) == text
  {
    hide MatchIn, WellFormed, Render;
    if Balanced(text) {
      var t := "{" + text + "}" + "";
      assert MatchIn(t, 0) == Some(|text| + 1);
      var b := MatchedBody(t);
      assert t[1..|text| + 1] == text;
    }
    if b :| WellFormed(b) && Render(b) == text {
      WellFormedIsBalanced(b);
    }
  }

  /** A match found in one source is found in every source with the same text in the braces. */
  lemma MatchedBody(t: string) returns (b: Body)
    requires StartsWith(t, "{") && MatchIn(t, 0).Some?
    ensures var j := MatchIn(t, 0).value;
      1 <= j < |t| && t[j] == '}' && WellFormed(b) && Render(b) == t[1..j] && Balanced(t[1..j])
  {
    var k;
    b, k := ParseBody(t[1..], 1);
    WellFormedIsBalanced(b);
  }
}
