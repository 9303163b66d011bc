/** Stripping inline action bodies: each is deleted when a Rust twin follows, and else becomes the Rust action. */
module BodyStripper {
  import opened Options
  import opened Text
  import opened BodyLexer

  const TWIN := "%action_rust"

  predicate IsSpace(c: char) {
    c == ' ' || c == '\t' || c == '\r' || c == '\n'
  }

  // ---------- what precedes a brace ----------

  datatype Kind = Rule | Rust | Directive

  function TrimEnd(p: string): (r: string)
    ensures r <= p
  {
    if p != "" && IsSpace(p[|p| - 1]) then TrimEnd(p[..|p| - 1]) else p
  }

  /** The last position of `c`. */
  function FindLastChar(p: string, c: char): (r: Option<nat>)
    ensures r.None? <==> c !in p
    ensures r.Some? ==> r.value < |p| && p[r.value] == c && c !in p[r.value + 1..]
  {
    if p == "" then None
    else if p[|p| - 1] == c then Some(|p| - 1)
    else
      var r := FindLastChar(p[..|p| - 1], c);
      assert r.Some? ==> p[r.value + 1..] == p[..|p| - 1][r.value + 1..] + [p[|p| - 1]];
      r
  }

  /** Drops a trailing `[TOKEN]` marker, and the spaces before it. */
  function DropMarker(p: string): (r: string)
    ensures r <= p
  {
    if p == "" || p[|p| - 1] != ']' then p else
    var lb := FindLastChar(p[..|p| - 1], '[');
    if lb.None? then p else TrimEnd(p[..lb.value])
  }

  /** The last 41 characters. */
  function Window(p: string): string {
    if |p| <= 41 then p else p[|p| - 41..]
  }

  /** A character that the pattern `\s` stands for. */
  predicate IsRegexSpace(c: char) {
    var n := c as int;
    9 <= n <= 13 || 28 <= n <= 32 || n == 0x85 || n == 0xa0 || n == 0x1680 || 0x2000 <= n <= 0x200a
    || n == 0x2028 || n == 0x2029 || n == 0x202f || n == 0x205f || n == 0x3000
  }

  function RegexTrimEnd(p: string): (r: string)
    ensures r <= p
  {
    if p != "" && IsRegexSpace(p[|p| - 1]) then RegexTrimEnd(p[..|p| - 1]) else p
  }

  /** What the brace after the text `before` opens. */
  function KindOf(before: string): Kind {
    var p := DropMarker(TrimEnd(before));
    if EndsWith(p, ".") then Rule
    else if EndsWith(RegexTrimEnd(Window(p)), TWIN) then Rust
    else Directive
  }

  method ClassifyOpen(src: string, open: nat) returns (kind: Kind)
    requires open <= |src|
    ensures kind == KindOf(src[..open])
  {
    var k := SkipSpacesBack(src, open);
    k := SkipMarkerBack(src, k);
    if k > 0 && src[k - 1] == '.' {
      assert src[..k][k - 1..] == [src[k - 1]];
      return Rule;
    }
    assert !EndsWith(src[..k], ".") by {
      assert k > 0 ==> src[..k][k - 1..] == [src[k - 1]];
    }
    var start := if k <= 41 then 0 else k - 41;
    assert src[start..k] == Window(src[..k]);
    kind := if EndsWith(RegexTrimEnd(src[start..k]), TWIN) then Rust else Directive;
  }

  method SkipMarkerBack(src: string, from: nat) returns (k: nat)
    requires from <= |src|
    ensures k <= from && src[..k] == DropMarker(src[..from])
  {
    k := from;
    if k > 0 && src[k - 1] == ']' {
      assert src[..k][..k - 1] == src[..k - 1];
      var lb := FindLastChar(src[..k - 1], '[');
      if lb.Some? {
        assert src[..k][..lb.value] == src[..lb.value];
        k := SkipSpacesBack(src, lb.value);
      }
    }
  }

  method SkipSpacesBack(src: string, from: nat) returns (k: nat)
    requires from <= |src|
    ensures k <= from && src[..k] == TrimEnd(src[..from])
  {
    k := from;
    while k > 0 && IsSpace(src[k - 1])
      invariant k <= from
      invariant TrimEnd(src[..k]) == TrimEnd(src[..from])
    {
      assert src[..k][..k - 1] == src[..k - 1];
      k := k - 1;
    }
  }

  // ---------- what follows a body ----------

  function NextIsTwin(t: string): bool
    decreases |t|
  {
    if t == "" then false
    else if IsSpace(t[0]) then NextIsTwin(t[1..])
    else if OpensComment(t) then NextIsTwin(t[TokenLength(t)..])
    else StartsWith(t, TWIN)
  }

  lemma TwinStep(src: string, i: nat)
    requires i < |src|
    ensures var t := src[i..];
      && (IsSpace(t[0]) ==> NextIsTwin(t) == NextIsTwin(src[i + 1..]))
      && (OpensBlock(t) ==> NextIsTwin(t) == NextIsTwin(src[i + CommentLength(t, "*/")..]))
      && (OpensLine(t) ==> NextIsTwin(t) == NextIsTwin(src[i + CommentLength(t, "\n")..]))
      && (!IsSpace(t[0]) && !OpensComment(t) ==> NextIsTwin(t) == StartsWith(t, TWIN))
  {
    var t := src[i..];
    DropDrop(src, i, 1);
    DropDrop(src, i, TokenLength(t));
  }

  lemma NoTwinAtEnd(t: string)
    requires t == ""
    ensures !NextIsTwin(t)
  {
  }

  method NextNonspaceIsActionRust(src: string, after: nat) returns (twin: bool)
    requires after <= |src|
    ensures twin == NextIsTwin(src[after..])
  {
    hide NextIsTwin, CommentLength;
    var i, n := after, |src|;
    NoTwinAtEnd(src[n..]);
    while i < n
      invariant after <= i <= n
      invariant NextIsTwin(src[i..]) == NextIsTwin(src[after..])
      decreases n - i
    {
      var t := src[i..];
      TwinStep(src, i);
      if IsSpace(src[i]) {
        i := i + 1;
      } else if OpensBlock(t) {
        i := SkipComment(src, i, "*/");
      } else if OpensLine(t) {
        i := SkipComment(src, i, "\n");
      } else {
        return StartsWith(t, TWIN);
      }
    }
    twin := false;
  }

  // ---------- promoting a body ----------

  /** The characters of `\w`, ASCII only. */
  predicate IsWord(c: char) {
    'a' <= c <= 'z' || 'A' <= c <= 'Z' || '0' <= c <= '9' || c == '_'
  }

  /** Every whole word `pstate` becomes `ctx.user`. */
  function RenameState(t: string, afterWord: bool): string {
    if t == "" then ""
    else if !afterWord && StartsWith(t, "pstate") && (|t| == 6 || !IsWord(t[6])) then
      "ctx.user" + RenameState(t[6..], true)
    else [t[0]] + RenameState(t[1..], IsWord(t[0]))
  }

  function SpaceRun(t: string): (n: nat)
    ensures n <= |t|
    ensures forall i :: 0 <= i < n ==> IsRegexSpace(t[i])
  {
    if t == "" || !IsRegexSpace(t[0]) then 0 else 1 + SpaceRun(t[1..])
  }

  function WordRun(t: string): (n: nat)
    ensures n <= |t|
    ensures forall i :: 0 <= i < n ==> IsWord(t[i])
  {
    if t == "" || !IsWord(t[0]) then 0 else 1 + WordRun(t[1..])
  }

  datatype Discard = Discard(word: string, length: nat)

  /** A `(void) word ;` at the head of `t`. */
  function DiscardAt(t: string): (d: Option<Discard>)
    ensures d.Some? ==> 8 <= d.value.length <= |t| && d.value.word != ""
  {
    if !StartsWith(t, "(void)") then None else
    var a := 6 + SpaceRun(t[6..]);
    var b := a + WordRun(t[a..]);
    var c := b + SpaceRun(t[b..]);
    if a < b && c < |t| && t[c] == ';' then Some(Discard(t[a..b], c + 1)) else None
  }

  function BindDiscards(t: string): string
    decreases |t|
  {
    if t == "" then ""
    else
      var d := DiscardAt(t);
      if d.Some? then "let _ = " + d.value.word + ";" + BindDiscards(t[d.value.length..])
      else [t[0]] + BindDiscards(t[1..])
  }

  function Promote(body: string): string {
    BindDiscards(RenameState(body, false))
  }

  // ---------- the transformation, read from left to right ----------

  /** What replaces a body with text `body`, of kind `kind`, followed by `after`. */
  function Replacement(kind: Kind, body: string, after: string): string {
    if kind != Rule then "{" + body + "}"
    else if NextIsTwin(after) then ""
    else TWIN + " {" + Promote(body) + "}"
  }

  /** The output for the text `t` after the text `before`; `None` when a brace is not matched. */
  function Stripped(before: string, t: string): Option<string>
    decreases |t|
  {
    if t == "" then Some("")
    else if t[0] == '{' then
      var j := MatchIn(t, 0);
      if j.None? then None else
      MatchAfterOpening(t);
      var after := t[j.value + 1..];
      var more := Stripped(before + t[..j.value + 1], after);
      if more.None? then None
      else Some(Replacement(KindOf(before), t[1..j.value], after) + more.value)
    else
      var more := Stripped(before + [t[0]], t[1..]);
      if more.None? then None else Some([t[0]] + more.value)
  }

  lemma MatchAfterOpening(t: string)
    requires StartsWith(t, "{") && MatchIn(t, 0).Some?
    ensures 1 <= MatchIn(t, 0).value < |t|
  {
    var b := MatchedBody(t);
  }

  // ---------- the transformation as the script performs it ----------

  datatype FoundBody = FoundBody(open: nat, close: nat, kind: Kind)

  function BodiesFrom(src: string, i: nat): Option<seq<FoundBody>>
    requires i <= |src|
    decreases |src| - i
  {
    if i == |src| then Some([])
    else if src[i] == '{' then
      var j := MatchAt(src, i, 0);
      if j.None? then None else
      MatchAfterOpening(src[i..]);
      var more := BodiesFrom(src, j.value + 1);
      if more.None? then None else Some([FoundBody(i, j.value, KindOf(src[..i]))] + more.value)
    else BodiesFrom(src, i + 1)
  }

  ghost predicate InOrder(src: string, bodies: seq<FoundBody>, from: nat) {
    if bodies == [] then from <= |src|
    else from <= bodies[0].open < bodies[0].close < |src| && InOrder(src, bodies[1..], bodies[0].close + 1)
  }

  lemma MatchFits(src: string, i: nat)
    requires i < |src| && src[i] == '{'
    ensures MatchAt(src, i, 0).Some? ==> i < MatchAt(src, i, 0).value < |src|
  {
    if MatchAt(src, i, 0).Some? {
      MatchAfterOpening(src[i..]);
    }
  }

  lemma FirstBody(src: string, i: nat, j: nat)
    requires i < |src| && src[i] == '{' && MatchAt(src, i, 0) == Some(j) && j < |src|
    ensures BodiesFrom(src, i)
         == if BodiesFrom(src, j + 1).None? then None
            else Some([FoundBody(i, j, KindOf(src[..i]))] + BodiesFrom(src, j + 1).value)
  {
  }

  lemma NoBody(src: string, i: nat)
    requires i < |src| && src[i] == '{' && MatchAt(src, i, 0).None?
    ensures BodiesFrom(src, i).None?
  {
  }

  lemma NoBrace(src: string, i: nat)
    requires i < |src| && src[i] != '{'
    ensures BodiesFrom(src, i) == BodiesFrom(src, i + 1)
  {
  }

  lemma NoMore(src: string)
    ensures BodiesFrom(src, |src|) == Some([])
  {
  }

  lemma {:induction false} BodiesInOrder(src: string, i: nat)
    requires i <= |src|
    ensures BodiesFrom(src, i).Some? ==> InOrder(src, BodiesFrom(src, i).value, i)
    decreases |src| - i
  {
    hide BodiesFrom, MatchAt, KindOf;
    if i == |src| {
      NoMore(src);
    } else if src[i] != '{' {
      NoBrace(src, i);
      BodiesInOrder(src, i + 1);
      if BodiesFrom(src, i).Some? {
        OrderFromEarlier(src, BodiesFrom(src, i + 1).value, i + 1, i);
      }
    } else if MatchAt(src, i, 0).None? {
      NoBody(src, i);
    } else {
      var j := MatchAt(src, i, 0).value;
      MatchFits(src, i);
      FirstBody(src, i, j);
      BodiesInOrder(src, j + 1);
    }
  }

  lemma OrderFromEarlier(src: string, bodies: seq<FoundBody>, from: nat, earlier: nat)
    requires InOrder(src, bodies, from) && earlier <= from
    ensures InOrder(src, bodies, earlier)
  {
  }

  datatype Edit = Edit(start: nat, end: nat, replacement: string)

  ghost predicate Ordered(edits: seq<Edit>, from: nat, n: nat) {
    if edits == [] then from <= n
    else from <= edits[0].start <= edits[0].end && Ordered(edits[1..], edits[0].end, n)
  }

  /** The source with every edit applied. */
  function Splice(src: string, edits: seq<Edit>, from: nat): string
    requires Ordered(edits, from, |src|)
    decreases |edits|
  {
    if edits == [] then src[from..]
    else OrderedFits(edits, from, |src|);
         src[from..edits[0].start] + (edits[0].replacement + Splice(src, edits[1..], edits[0].end))
  }

  lemma {:induction false} OrderedFits(edits: seq<Edit>, from: nat, n: nat)
    requires Ordered(edits, from, n)
    ensures from <= n
    ensures edits != [] ==> edits[0].end <= n
  {
    if edits != [] {
      OrderedFits(edits[1..], edits[0].end, n);
    }
  }

  function EditFor(src: string, b: FoundBody): Edit
    requires b.open < b.close < |src|
  {
    Edit(b.open, b.close + 1,
         if NextIsTwin(src[b.close + 1..]) then "" else TWIN + " {" + Promote(src[b.open + 1..b.close]) + "}")
  }

  function EditsFor(src: string, bodies: seq<FoundBody>, from: nat): (edits: seq<Edit>)
    requires InOrder(src, bodies, from)
    ensures Ordered(edits, from, |src|)
    decreases |bodies|
  {
    if bodies == [] then [] else
      var more := EditsFor(src, bodies[1..], bodies[0].close + 1);
      if bodies[0].kind == Rule then [EditFor(src, bodies[0])] + more
      else OrderedFromEarlier(more, bodies[0].close + 1, from, |src|); more
  }

  lemma OrderedFromEarlier(edits: seq<Edit>, from: nat, earlier: nat, n: nat)
    requires Ordered(edits, from, n) && earlier <= from
    ensures Ordered(edits, earlier, n)
  {
  }

  lemma AppendOne<T>(a: seq<T>, x: T, b: seq<T>)
    ensures a + ([x] + b) == (a + [x]) + b
  {
  }

  method FindBodies(src: string) returns (bodies: Option<seq<FoundBody>>)
    ensures bodies == BodiesFrom(src, 0)
  {
    hide BodiesFrom, KindOf, MatchAt;
    var i, n := 0, |src|;
    var found: seq<FoundBody> := [];
    NoMore(src);
    while i < n
      invariant i <= n
      invariant BodiesFrom(src, 0).Some? <==> BodiesFrom(src, i).Some?
      invariant BodiesFrom(src, i).Some? ==> BodiesFrom(src, 0).value == found + BodiesFrom(src, i).value
      decreases n - i
    {
      if src[i] == '{' {
        var kind := ClassifyOpen(src, i);
        var j := MatchBrace(src, i);
        if j.None? {
          NoBody(src, i);
          return None;
        }
        MatchFits(src, i);
        FirstBody(src, i, j.value);
        ghost var more := BodiesFrom(src, j.value + 1);
        if more.Some? {
          AppendOne(found, FoundBody(i, j.value, kind), more.value);
        }
        found := found + [FoundBody(i, j.value, kind)];
        i := j.value + 1;
      } else {
        NoBrace(src, i);
        i := i + 1;
      }
    }
    assert found + [] == found;
    bodies := Some(found);
  }

  lemma EditsNext(src: string, bodies: seq<FoundBody>, from: nat)
    requires InOrder(src, bodies, from)
    ensures bodies == [] ==> EditsFor(src, bodies, from) == []
    ensures bodies != [] ==>
      bodies[0].open < bodies[0].close < |src| && InOrder(src, bodies[1..], bodies[0].close + 1)
    ensures bodies != [] ==>
      EditsFor(src, bodies, from)
      == (if bodies[0].kind == Rule then [EditFor(src, bodies[0])] else [])
         + EditsFor(src, bodies[1..], bodies[0].close + 1)
  {
    hide EditFor;
    if bodies != [] {
      var more := EditsFor(src, bodies[1..], bodies[0].close + 1);
      assert [] + more == more;
    }
  }

  /** The edits that `Transform` makes. */
  method CollectEdits(src: string, bodies: seq<FoundBody>) returns (edits: seq<Edit>)
    requires InOrder(src, bodies, 0)
    ensures edits == EditsFor(src, bodies, 0)
  {
    hide EditsFor, Promote, NextIsTwin, InOrder;
    edits := [];
    var i: nat, from: nat := 0, 0;
    assert bodies[0..] == bodies;
    while i < |bodies|
      invariant 0 <= i <= |bodies| && InOrder(src, bodies[i..], from)
      invariant EditsFor(src, bodies, 0) == edits + EditsFor(src, bodies[i..], from)
    {
      var b := bodies[i];
      assert bodies[i..][1..] == bodies[i + 1..];
      EditsNext(src, bodies[i..], from);
      ghost var more := EditsFor(src, bodies[i + 1..], b.close + 1);
      if b.kind == Rule {
        AppendOne(edits, EditFor(src, b), more);
        var twin := NextNonspaceIsActionRust(src, b.close + 1);
        var inner := src[b.open + 1..b.close];
        var replacement := if twin then "" else TWIN + " {" + Promote(inner) + "}";
        edits := edits + [Edit(b.open, b.close + 1, replacement)];
      }
      i, from := i + 1, b.close + 1;
    }
    EditsNext(src, bodies[i..], from);
    assert edits + [] == edits;
  }

  lemma {:induction false} OrderedSuffix(edits: seq<Edit>, from: nat, n: nat, i: nat)
    requires Ordered(edits, from, n) && i < |edits|
    ensures Ordered(edits[i + 1..], edits[i].end, n) && edits[i].start <= edits[i].end <= n
    decreases i
  {
    OrderedFits(edits, from, n);
    if i > 0 {
      OrderedSuffix(edits[1..], edits[0].end, n, i - 1);
      assert edits[1..][i..] == edits[i + 1..];
    }
  }

  lemma SpliceFromEarlier(src: string, edits: seq<Edit>, a: nat, b: nat)
    requires Ordered(edits, b, |src|) && a <= b
    ensures Ordered(edits, a, |src|) && b <= |src|
    ensures Splice(src, edits, a) == src[a..b] + Splice(src, edits, b)
  {
    OrderedFromEarlier(edits, b, a, |src|);
    OrderedFits(edits, b, |src|);
    if edits == [] {
      assert src[a..] == src[a..b] + src[b..];
    } else {
      var s := edits[0].start;
      SplitSlice(src, a, b, s, edits[0].replacement + Splice(src, edits[1..], edits[0].end));
    }
  }

  lemma SplitSlice(src: string, a: nat, b: nat, c: nat, tail: string)
    requires a <= b <= c <= |src|
    ensures src[a..c] + tail == src[a..b] + (src[b..c] + tail)
  {
  }

  /** Applying one more edit in front of those applied already. */
  lemma SpliceOneMore(src: string, edits: seq<Edit>, i: nat, text: string)
    requires Ordered(edits, 0, |src|) && i < |edits|
    requires Ordered(edits[i + 1..], 0, |src|) && text == Splice(src, edits[i + 1..], 0)
    ensures Ordered(edits[i..], 0, |src|) && edits[i].start <= edits[i].end <= |text|
    ensures Splice(src, edits[i..], 0) == text[..edits[i].start] + (edits[i].replacement + text[edits[i].end..])
  {
    var e, rest := edits[i], edits[i + 1..];
    OrderedSuffix(edits, 0, |src|, i);
    SpliceFromEarlier(src, rest, 0, e.end);
    assert edits[i..][1..] == rest;
    assert text == src[0..e.end] + Splice(src, rest, e.end);
    assert text[..e.start] == src[0..e.start];
  }

  /** Edits are collected front to back and applied back to front, so that positions stay valid. A report leaves
      the source as it is. */
  method Transform(src: string, report: bool) returns (out: Option<string>)
    ensures out == if report && Stripped("", src).Some? then Some(src) else Stripped("", src)
  {
    var bodies := FindBodies(src);
    SplicesToStripped(src, 0);
    assert src[..0] == "" && src[0..] == src;
    if bodies.None? {
      return None;
    }
    BodiesInOrder(src, 0);
    var edits := CollectEdits(src, bodies.value);
    if report {
      return Some(src);
    }
    var text := src;
    var i := |edits|;
    assert edits[i..] == [];
    while i > 0
      invariant 0 <= i <= |edits|
      invariant Ordered(edits[i..], 0, |src|)
      invariant text == Splice(src, edits[i..], 0)
    {
      i := i - 1;
      SpliceOneMore(src, edits, i, text);
      text := text[..edits[i].start] + (edits[i].replacement + text[edits[i].end..]);
    }
    assert edits[0..] == edits;
    out := Some(text);
  }

  lemma SpliceChar(src: string, i: nat)
    requires i < |src| && src[i] != '{' && SplicesAt(src, i + 1)
    ensures SplicesAt(src, i)
  {
    var t := src[i..];
    assert t[1..] == src[i + 1..];
    assert src[..i] + [t[0]] == src[..i + 1];
    var bodies := BodiesFrom(src, i);
    if bodies.Some? {
      OrderFromEarlier(src, bodies.value, i + 1, i);
      EditsFromEarlier(src, bodies.value, i, i + 1);
      SpliceFromEarlier(src, EditsFor(src, bodies.value, i + 1), i, i + 1);
      assert src[i..i + 1] == [t[0]];
    }
  }

  /** The edits spliced into the source give the text read from left to right. */
  lemma {:induction false} SplicesToStripped(src: string, i: nat)
    requires i <= |src|
    ensures SplicesAt(src, i)
    decreases |src| - i
  {
    if i < |src| {
      if src[i] != '{' {
        SplicesToStripped(src, i + 1);
        SpliceChar(src, i);
      } else if MatchAt(src, i, 0).Some? {
        MatchAfterOpening(src[i..]);
        SplicesToStripped(src, MatchAt(src, i, 0).value + 1);
        SpliceBody(src, i, MatchAt(src, i, 0).value);
      }
    }
  }

  lemma EditsFromEarlier(src: string, bodies: seq<FoundBody>, a: nat, b: nat)
    requires a <= b && InOrder(src, bodies, a) && InOrder(src, bodies, b)
    ensures EditsFor(src, bodies, a) == EditsFor(src, bodies, b)
  {
  }

  /** One body and what follows it, in both readings. */
  lemma BodyReadings(src: string, i: nat, j: nat)
    requires i < |src| && src[i] == '{' && MatchAt(src, i, 0) == Some(j)
    ensures i < j < |src|
    ensures var more := Stripped(src[..j + 1], src[j + 1..]);
      Stripped(src[..i], src[i..])
      == if more.None? then None
         else Some(Replacement(KindOf(src[..i]), src[i + 1..j], src[j + 1..]) + more.value)
    ensures src[i..j + 1] == "{" + src[i + 1..j] + "}"
  {
    hide Stripped, MatchIn, KindOf, Replacement;
    var t := src[i..];
    StrippedOpening(src[..i], t);
    assert t[..j + 1 - i] == src[i..j + 1] && src[..i] + src[i..j + 1] == src[..j + 1];
    assert t[j + 1 - i..] == src[j + 1..];
    assert t[1..j - i] == src[i + 1..j];
    Bracketed(t[..j + 1 - i]);
  }

  lemma StrippedOpening(before: string, t: string)
    requires t != "" && t[0] == '{' && MatchIn(t, 0).Some?
    ensures var j := MatchIn(t, 0).value;
      && 1 <= j < |t| && t[j] == '}'
      && var more := Stripped(before + t[..j + 1], t[j + 1..]);
         Stripped(before, t)
         == if more.None? then None else Some(Replacement(KindOf(before), t[1..j], t[j + 1..]) + more.value)
  {
    hide MatchIn, KindOf, Replacement;
    MatchEndsInBrace(t);
  }

  lemma Bracketed(u: string)
    requires |u| >= 2 && u[0] == '{' && u[|u| - 1] == '}'
    ensures u == "{" + u[1..|u| - 1] + "}"
  {
  }

  lemma SpliceFirst(src: string, e: Edit, more: seq<Edit>)
    requires e.start <= e.end && Ordered(more, e.end, |src|)
    ensures Ordered([e] + more, e.start, |src|)
    ensures Splice(src, [e] + more, e.start) == e.replacement + Splice(src, more, e.end)
  {
    var edits := [e] + more;
    assert edits[0] == e && edits[1..] == more;
    OrderedFits(edits, e.start, |src|);
    var text := e.replacement + Splice(src, more, e.end);
    assert src[e.start..e.start] + text == text;
  }

  lemma EditsFirst(src: string, b: FoundBody, bodies: seq<FoundBody>)
    requires b.open < b.close < |src| && InOrder(src, bodies, b.close + 1)
    ensures InOrder(src, [b] + bodies, b.open)
    ensures EditsFor(src, [b] + bodies, b.open)
         == (if b.kind == Rule then [EditFor(src, b)] else []) + EditsFor(src, bodies, b.close + 1)
  {
    hide NextIsTwin, Promote;
    var all := [b] + bodies;
    assert all[0] == b && all[1..] == bodies;
  }

  /** The edits of a list of bodies, spliced from the opening of the first one. */
  lemma SpliceReplacement(src: string, b: FoundBody, bodies: seq<FoundBody>)
    requires b.open < b.close < |src| && InOrder(src, bodies, b.close + 1)
    requires src[b.open..b.close + 1] == "{" + src[b.open + 1..b.close] + "}"
    ensures InOrder(src, [b] + bodies, b.open)
    ensures Splice(src, EditsFor(src, [b] + bodies, b.open), b.open)
         == Replacement(b.kind, src[b.open + 1..b.close], src[b.close + 1..])
            + Splice(src, EditsFor(src, bodies, b.close + 1), b.close + 1)
  {
    hide InOrder, EditsFor, Splice, Ordered, NextIsTwin, Promote;
    EditsFirst(src, b, bodies);
    var more := EditsFor(src, bodies, b.close + 1);
    if b.kind == Rule {
      SpliceFirst(src, EditFor(src, b), more);
    } else {
      SpliceFromEarlier(src, more, b.open, b.close + 1);
      assert [] + more == more;
    }
  }

  ghost predicate SplicesAt(src: string, i: nat)
    requires i <= |src|
  {
    && (BodiesFrom(src, i).None? ==> Stripped(src[..i], src[i..]).None?)
    && (BodiesFrom(src, i).Some? ==>
          && InOrder(src, BodiesFrom(src, i).value, i)
          && Stripped(src[..i], src[i..]) == Some(Splice(src, EditsFor(src, BodiesFrom(src, i).value, i), i)))
  }

  lemma SpliceBody(src: string, i: nat, j: nat)
    requires i < |src| && src[i] == '{' && MatchAt(src, i, 0) == Some(j) && j < |src| && SplicesAt(src, j + 1)
    ensures SplicesAt(src, i)
  {
    hide BodiesFrom, Stripped, MatchAt, InOrder, EditsFor, Splice, Ordered, Replacement, KindOf;
    BodyReadings(src, i, j);
    FirstBody(src, i, j);
    if BodiesFrom(src, i).Some? {
      SpliceReplacement(src, FoundBody(i, j, KindOf(src[..i])), BodiesFrom(src, j + 1).value);
    }
  }

  lemma MatchEndsInBrace(t: string)
    requires StartsWith(t, "{") && MatchIn(t, 0).Some?
    ensures 1 <= MatchIn(t, 0).value < |t| && t[MatchIn(t, 0).value] == '}'
  {
    var b := MatchedBody(t);
  }
}
