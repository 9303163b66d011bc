/** Finding the rewrite macros in a block of text. */
module RewriteExtraction {
  import opened Options
  import opened Text

  const SHORT := "rw!("
  const MARKER := "rewrite!("

  // ---------- the search ----------

  /** The length up to and including the parenthesis that brings `depth` to zero. */
  function ClosingLength(t: string, depth: nat): (n: Option<nat>)
    requires depth >= 1
    ensures n.Some? ==> 1 <= n.value <= |t| && t[n.value - 1] == ')'
  {
    if t == "" then None
    else if t[0] == ')' && depth == 1 then Some(1)
    else
      var more := ClosingLength(t[1..], if t[0] == '(' then depth + 1 else if t[0] == ')' then depth - 1 else depth);
      Shift(more, 1)
  }

  /** The next marker of a text, and where the call behind it ends; `closed` says whether it ends at all. */
  datatype Next = Next(start: nat, end: nat, closed: bool)

  function NextCall(t: string): (c: Option<Next>)
    ensures c.Some? ==> c.value.start < c.value.end <= |t|
  {
    FindBounds(t, MARKER);
    var start := Find(t, MARKER);
    if start.None? then None else
    var after := start.value + |MARKER|;
    var n := ClosingLength(t[after..], 1);
    Some(Next(start.value, if n.Some? then after + n.value else after, n.Some?))
  }

  /** The macro calls of a normalised text in order. An unclosed marker is skipped, and a marker inside a call is
      part of that call. */
  function CallsIn(t: string): seq<string>
    decreases |t|
  {
    var c := NextCall(t);
    if c.None? then [] else
      (if c.value.closed then [t[c.value.start..c.value.end]] else []) + CallsIn(t[c.value.end..])
  }

  /** What becomes of a block: its calls in order, each one turned into a rule. `classify` is how the source treats
      a single call. */
  function NormalizeRewriteCode<Rule>(block: string, classify: string -> Rule): seq<Rule> {
    var calls := CallsIn(ReplaceAll(block, SHORT, MARKER));
    seq(|calls|, i requires 0 <= i < |calls| => classify(calls[i]))
  }

  method ScanClosing(t: string, from: nat) returns (n: Option<nat>)
    requires from <= |t|
    ensures n == ClosingLength(t[from..], 1)
  {
    hide ClosingLength;
    var i, depth: nat := from, 1;
    while i < |t|
      invariant from <= i <= |t| && depth >= 1
      invariant Shift(ClosingLength(t[i..], depth), i - from) == ClosingLength(t[from..], 1)
    {
      ClosingAt(t, i, depth);
      if t[i] == '(' {
        depth := depth + 1;
      } else if t[i] == ')' {
        depth := depth - 1;
        if depth == 0 {
          return Some(i + 1 - from);
        }
      }
      i := i + 1;
    }
    NothingCloses(t[i..], depth);
    n := None;
  }

  lemma NothingCloses(t: string, depth: nat)
    requires depth >= 1 && t == ""
    ensures ClosingLength(t, depth).None?
  {
  }

  lemma ClosingAt(t: string, i: nat, depth: nat)
    requires i < |t| && depth >= 1
    ensures ClosingLength(t[i..], depth) ==
      if t[i] == ')' && depth == 1 then Some(1)
      else Shift(ClosingLength(
        t[i + 1..], if t[i] == '(' then depth + 1 else if t[i] == ')' then depth - 1 else depth), 1)
  {
    assert t[i..][1..] == t[i + 1..];
  }

  /** The loop of the source. Every call starts with the marker and ends with a parenthesis, so trimming it and
      dropping a trailing comma would change nothing. */
  method NormalizeCode<Rule>(block: string, classify: string -> Rule) returns (rules: seq<Rule>)
    ensures rules == NormalizeRewriteCode(block, classify)
  {
    hide CallsIn, NextCall;
    var normalized := ReplaceAll(block, SHORT, MARKER);
    rules := [];
    var from := 0;
    ghost var done: seq<string> := [];
    assert normalized[0..] == normalized;
    while true
      invariant from <= |normalized|
      invariant done + CallsIn(normalized[from..]) == CallsIn(normalized)
      invariant |rules| == |done| && forall i :: 0 <= i < |done| ==> rules[i] == classify(done[i])
      decreases |normalized| - from
    {
      CallsStep(normalized, from);
      var start, end, closed := FindCall(normalized, from);
      if start.None? {
        break;
      }
      if closed {
        var call := normalized[start.value..end];
        ghost var rest := CallsIn(normalized[end..]);
        assert done + ([call] + rest) == (done + [call]) + rest;
        rules := rules + [classify(call)];
        done := done + [call];
      }
      from := end;
    }
    assert done + [] == done;
  }

  /** The marker behind `from`, and the end of its call or, when that is not closed, of the marker itself. */
  method FindCall(t: string, from: nat) returns (start: Option<nat>, end: nat, closed: bool)
    requires from <= |t|
    ensures start.None? <==> NextCall(t[from..]).None?
    ensures start.Some? ==>
      var c := NextCall(t[from..]).value;
      start.value == from + c.start && end == from + c.end && closed == c.closed
  {
    hide ClosingLength, Find, StartsWith;
    end, closed := from, false;
    FindBounds(t[from..], MARKER);
    start := FindFrom(t, MARKER, from);
    if start.Some? {
      var after := start.value + |MARKER|;
      DropDrop(t, from, after - from);
      var n := ScanClosing(t, after);
      closed := n.Some?;
      end := if closed then after + n.value else after;
    }
  }

  lemma CallsStep(t: string, from: nat)
    requires from <= |t|
    ensures var c := NextCall(t[from..]);
      if c.None? then CallsIn(t[from..]) == []
      else CallsIn(t[from..])
           == (if c.value.closed then [t[from + c.value.start..from + c.value.end]] else [])
              + CallsIn(t[from + c.value.end..])
  {
    hide NextCall;
    var c := NextCall(t[from..]);
    if c.Some? {
      DropDrop(t, from, c.value.end);
      SliceDrop(t, from, c.value.start, c.value.end);
    }
  }

  lemma SliceDrop(t: string, from: nat, a: nat, b: nat)
    requires from + a <= from + b <= |t|
    ensures t[from..][a..b] == t[from + a..from + b]
  {
  }

  /** Each call is delimited by the marker and the parenthesis that closes it. */
  lemma {:induction false} CallsDelimited(t: string)
    ensures forall c :: c in CallsIn(t) ==> StartsWith(c, MARKER) && EndsWith(c, ")")
    decreases |t|
  {
    hide NextCall, StartsWith, EndsWith;
    var c := NextCall(t);
    if c.Some? {
      if c.value.closed {
        CallDelimited(t);
      }
      CallsDelimited(t[c.value.end..]);
    }
  }

  lemma CallDelimited(t: string)
    requires NextCall(t).Some? && NextCall(t).value.closed
    ensures var c := NextCall(t).value; StartsWith(t[c.start..c.end], MARKER) && EndsWith(t[c.start..c.end], ")")
  {
    hide ClosingLength, Find;
    FindBounds(t, MARKER);
    var k := Find(t, MARKER).value;
    var after := k + |MARKER|;
    var n := ClosingLength(t[after..], 1).value;
    var c := t[k..after + n];
    assert c[..|MARKER|] == t[k..after];
    assert c[|c| - 1] == t[after..][n - 1];
    assert c[|c| - 1..] == [c[|c| - 1]];
  }

  // ---------- texts made of calls and gaps ----------

  /** The depth after `s`, when it never closes the parenthesis that it starts in. */
  function DepthAfter(s: string, depth: nat): Option<nat>
    requires depth >= 1
  {
    if s == "" then Some(depth)
    else if s[0] == '(' then DepthAfter(s[1..], depth + 1)
    else if s[0] == ')' then (if depth == 1 then None else DepthAfter(s[1..], depth - 1))
    else DepthAfter(s[1..], depth)
  }

  /** Every parenthesis of the text is matched within it. */
  predicate Nested(s: string) {
    DepthAfter(s, 1) == Some(1)
  }

  /** `pat` occurs nowhere in `s`. */
  predicate Free(s: string, pat: string) {
    forall k :: 0 <= k <= |s| ==> !StartsWith(s[k..], pat)
  }

  datatype Source = Last(text: string) | Call(gap: string, short: bool, body: string, rest: Source)

  function Print(s: Source): string {
    match s
    case Last(text) => text
    case Call(gap, short, body, rest) => gap + ((if short then SHORT else MARKER) + (body + ([')'] + Print(rest))))
  }

  /** Gaps hold no marker of either kind, and the calls are balanced; their bodies may hold markers. */
  predicate WellFormed(s: Source) {
    match s
    case Last(text) => Free(text, SHORT) && Free(text, MARKER)
    case Call(gap, _, body, rest) => Free(gap, SHORT) && Free(gap, MARKER) && Nested(body) && WellFormed(rest)
  }

  function Expand(body: string): string {
    ReplaceAll(body, SHORT, MARKER)
  }

  /** The macro text of every call, in order. */
  function CallTexts(s: Source): seq<string> {
    match s
    case Last(_) => []
    case Call(_, _, body, rest) => [MARKER + (Expand(body) + ")")] + CallTexts(rest)
  }

  /** No occurrence of the pattern begins in `a` and ends behind it. */
  ghost predicate NoStraddle(a: string, b: string, pat: string) {
    forall k :: 0 <= k < |a| && StartsWith((a + b)[k..], pat) ==> k + |pat| <= |a|
  }

  lemma {:induction false} ReplaceJoin(a: string, b: string, pat: string, sub: string)
    requires pat != "" && NoStraddle(a, b, pat)
    ensures ReplaceAll(a + b, pat, sub) == ReplaceAll(a, pat, sub) + ReplaceAll(b, pat, sub)
    decreases |a|
  {
    hide ReplaceAll, StartsWith, NoStraddle;
    var rb := ReplaceAll(b, pat, sub);
    if a == "" {
      assert a + b == b;
      ReplaceNothing(pat, sub);
      assert "" + rb == rb;
    } else if StartsWith(a + b, pat) {
      JoinMatch(a, b, pat);
      var a' := a[|pat|..];
      ReplaceMatch(a', pat, sub);
      ReplaceMatch(a' + b, pat, sub);
      StraddleTail(a, b, pat, |pat|);
      ReplaceJoin(a', b, pat, sub);
      ConcatAssoc(sub, ReplaceAll(a', pat, sub), rb);
    } else {
      JoinNoMatch(a, b, pat);
      var a' := a[1..];
      ReplaceOther(a[0], a', pat, sub);
      ReplaceOther(a[0], a' + b, pat, sub);
      StraddleTail(a, b, pat, 1);
      ReplaceJoin(a', b, pat, sub);
      ConcatAssoc([a[0]], ReplaceAll(a', pat, sub), rb);
    }
  }

  lemma ReplaceNothing(pat: string, sub: string)
    requires pat != ""
    ensures ReplaceAll("", pat, sub) == ""
  {
  }

  lemma JoinMatch(a: string, b: string, pat: string)
    requires a != "" && NoStraddle(a, b, pat) && StartsWith(a + b, pat)
    ensures |pat| <= |a| && a == pat + a[|pat|..] && a + b == pat + (a[|pat|..] + b)
  {
    assert (a + b)[0..] == a + b;
    assert a[..|pat|] == (a + b)[..|pat|];
  }

  lemma JoinNoMatch(a: string, b: string, pat: string)
    requires a != "" && !StartsWith(a + b, pat)
    ensures a == [a[0]] + a[1..] && a + b == [a[0]] + (a[1..] + b) && !StartsWith(a, pat)
  {
    assert |pat| <= |a| ==> (a + b)[..|pat|] == a[..|pat|];
  }

  lemma StraddleTail(a: string, b: string, pat: string, n: nat)
    requires NoStraddle(a, b, pat) && n <= |a|
    ensures NoStraddle(a[n..], b, pat)
  {
    var a' := a[n..];
    forall k | 0 <= k < |a'| && StartsWith((a' + b)[k..], pat) ensures k + |pat| <= |a'| {
      assert (a' + b)[k..] == (a + b)[n + k..];
    }
  }

  /** A pattern that ends in its only parenthesis does not straddle a boundary behind which none comes at once. */
  lemma OpenAfterBoundary(a: string, b: string, pat: string)
    requires pat != "" && pat[|pat| - 1] == '('
    requires |b| >= |pat| - 1 && forall i :: 0 <= i < |pat| - 1 ==> b[i] != '('
    ensures NoStraddle(a, b, pat)
  {
    forall k | 0 <= k < |a| && StartsWith((a + b)[k..], pat) ensures k + |pat| <= |a| {
      var u := (a + b)[k..];
      assert u[..|pat|][|pat| - 1] == u[|pat| - 1] == (a + b)[k + |pat| - 1];
    }
  }

  /** Nor one behind which a character comes that the pattern does not have. */
  lemma ForeignAfterBoundary(a: string, c: char, b: string, pat: string)
    requires c !in pat
    ensures NoStraddle(a, [c] + b, pat)
  {
    var t := a + ([c] + b);
    forall k | 0 <= k < |a| && StartsWith(t[k..], pat) ensures k + |pat| <= |a| {
      if k + |pat| > |a| {
        StartsAt(t[k..], pat, |a| - k);
        assert false;
      }
    }
  }

  lemma {:induction false} ReplaceFree(s: string, pat: string, sub: string)
    requires pat != "" && Free(s, pat)
    ensures ReplaceAll(s, pat, sub) == s
  {
    if s != "" {
      assert s[0..] == s;
      assert !StartsWith(s, pat);
      forall k | 0 <= k <= |s[1..]| ensures !StartsWith(s[1..][k..], pat) {
        assert s[1..][k..] == s[k + 1..];
      }
      ReplaceFree(s[1..], pat, sub);
    }
  }

  lemma {:induction false} FindNoneIfFree(s: string, pat: string)
    requires Free(s, pat)
    ensures Find(s, pat).None?
    decreases |s|
  {
    assert s[0..] == s;
    if s != "" {
      forall k | 0 <= k <= |s[1..]| ensures !StartsWith(s[1..][k..], pat) {
        assert s[1..][k..] == s[k + 1..];
      }
      FindNoneIfFree(s[1..], pat);
    }
  }

  // ---------- expanding short markers ----------

  lemma ShortExpanded(rest: string)
    ensures Expand(SHORT + rest) == MARKER + Expand(rest)
  {
    ReplaceMatch(rest, SHORT, MARKER);
  }

  lemma MarkerKept(rest: string)
    ensures Expand(MARKER + rest) == MARKER + Expand(rest)
  {
    hide ReplaceAll;
    KeepChars(MARKER, rest);
  }

  /** The long marker holds no short one, not even together with what follows. */
  lemma KeepChars(m: string, rest: string)
    requires m == "rewrite!("
    ensures ReplaceAll(m + rest, SHORT, MARKER) == m + ReplaceAll(rest, SHORT, MARKER)
  {
    hide ReplaceAll;
    var tail := "ite!(" + rest;
    NotShort('r', "ew" + ("r" + tail));
    ReplaceOther('r', "ew" + ("r" + tail), SHORT, MARKER);
    ReplaceCopies("ew", "r" + tail, SHORT, MARKER);
    NotShort('r', tail);
    ReplaceOther('r', tail, SHORT, MARKER);
    ReplaceCopies("ite!(", rest, SHORT, MARKER);
    assert m + rest == ['r'] + ("ew" + (['r'] + tail));
    var out := ReplaceAll(rest, SHORT, MARKER);
    assert m + out == ['r'] + ("ew" + (['r'] + ("ite!(" + out)));
  }

  lemma NotShort(c: char, t: string)
    requires t != "" && t[0] != 'w'
    ensures !StartsWith([c] + t, SHORT)
  {
    StartsAt([c] + t, SHORT, 1);
  }

  lemma {:induction false} ExpandedText(s: Source)
    requires WellFormed(s)
    ensures Expand(Print(s)) ==
      match s
      case Last(text) => text
      case Call(gap, _, body, rest) => gap + (MARKER + (Expand(body) + ([')'] + Expand(Print(rest)))))
  {
    hide ReplaceAll, Free, Nested;
    match s
    case Last(text) => ReplaceFree(text, SHORT, MARKER);
    case Call(gap, short, body, rest) =>
      var tail := body + ([')'] + Print(rest));
      var m := if short then SHORT else MARKER;
      OpenAfterBoundary(gap, m + tail, SHORT);
      ReplaceJoin(gap, m + tail, SHORT, MARKER);
      ReplaceFree(gap, SHORT, MARKER);
      if short {
        ShortExpanded(tail);
      } else {
        MarkerKept(tail);
      }
      ForeignAfterBoundary(body, ')', Print(rest), SHORT);
      ReplaceJoin(body, [')'] + Print(rest), SHORT, MARKER);
      ReplaceCopies([')'], Print(rest), SHORT, MARKER);
  }

  // ---------- balance ----------

  lemma {:induction false} ClosingAfter(s: string, rest: string, depth: nat)
    requires depth >= 1 && DepthAfter(s, depth).Some?
    ensures DepthAfter(s, depth).value >= 1
    ensures ClosingLength(s + rest, depth) == Shift(ClosingLength(rest, DepthAfter(s, depth).value), |s|)
    decreases |s|
  {
    hide ClosingLength, DepthAfter;
    if s == "" {
      assert s + rest == rest;
      DepthOfNothing(depth);
    } else {
      var next: int := if s[0] == '(' then depth + 1 else if s[0] == ')' then depth - 1 else depth;
      assert s + rest == [s[0]] + (s[1..] + rest);
      assert s == [s[0]] + s[1..];
      DepthStep(s[0], s[1..], depth);
      ClosingStep(s[0], s[1..] + rest, depth);
      ClosingAfter(s[1..], rest, next);
    }
  }

  lemma DepthOfNothing(depth: nat)
    requires depth >= 1
    ensures DepthAfter("", depth) == Some(depth)
  {
  }

  lemma ClosingStep(c: char, t: string, depth: nat)
    requires depth >= 1 && !(c == ')' && depth == 1)
    ensures ClosingLength([c] + t, depth)
         == Shift(ClosingLength(t, if c == '(' then depth + 1 else if c == ')' then depth - 1 else depth), 1)
  {
    assert ([c] + t)[1..] == t;
  }

  lemma DepthStep(c: char, t: string, depth: nat)
    requires depth >= 1
    ensures DepthAfter([c] + t, depth)
         == if c == '(' then DepthAfter(t, depth + 1)
            else if c == ')' then (if depth == 1 then None else DepthAfter(t, depth - 1))
            else DepthAfter(t, depth)
  {
    assert ([c] + t)[1..] == t;
  }

  lemma {:induction false} DepthSkips(s: string, t: string, depth: nat)
    requires depth >= 1 && '(' !in s && ')' !in s
    ensures DepthAfter(s + t, depth) == DepthAfter(t, depth)
    decreases |s|
  {
    hide DepthAfter;
    if s == "" {
      assert s + t == t;
    } else {
      assert s + t == [s[0]] + (s[1..] + t);
      DepthStep(s[0], s[1..] + t, depth);
      DepthSkips(s[1..], t, depth);
    }
  }

  /** Both markers open one parenthesis, so expanding them keeps the balance. */
  lemma {:induction false} ExpandKeepsDepth(t: string, depth: nat)
    requires depth >= 1
    ensures DepthAfter(Expand(t), depth) == DepthAfter(t, depth)
    decreases |t|
  {
    hide DepthAfter;
    if t != "" {
      if StartsWith(t, SHORT) {
        var rest := t[4..];
        assert t == "rw!" + (['('] + rest);
        DepthSkips("rw!", ['('] + rest, depth);
        DepthSkips("rewrite!", ['('] + Expand(rest), depth);
        assert Expand(t) == "rewrite!" + (['('] + Expand(rest));
        DepthStep('(', rest, depth);
        DepthStep('(', Expand(rest), depth);
        ExpandKeepsDepth(rest, depth + 1);
      } else {
        assert t == [t[0]] + t[1..];
        DepthStep(t[0], t[1..], depth);
        DepthStep(t[0], Expand(t[1..]), depth);
        if t[0] == '(' {
          ExpandKeepsDepth(t[1..], depth + 1);
        } else if t[0] != ')' {
          ExpandKeepsDepth(t[1..], depth);
        } else if depth > 1 {
          ExpandKeepsDepth(t[1..], depth - 1);
        }
      }
    }
  }

  // ---------- the calls of such a text ----------

  lemma FirstCall(gap: string, body: string, rest: string)
    requires Free(gap, MARKER) && Nested(body)
    ensures CallsIn(gap + (MARKER + (body + ([')'] + rest)))) == [MARKER + (body + ")")] + CallsIn(rest)
  {
    hide Find, DepthAfter, ClosingLength, NextCall;
    var t := gap + (MARKER + (body + ([')'] + rest)));
    NextIsFirst(gap, body, rest);
    var end := |gap| + |MARKER| + |body| + 1;
    assert t[|gap|..end] == MARKER + (body + ")");
    assert t[end..] == rest;
  }

  lemma NextIsFirst(gap: string, body: string, rest: string)
    requires Free(gap, MARKER) && Nested(body)
    ensures NextCall(gap + (MARKER + (body + ([')'] + rest))))
         == Some(Next(|gap|, |gap| + |MARKER| + |body| + 1, true))
  {
    hide Find, DepthAfter, ClosingLength;
    var t := gap + (MARKER + (body + ([')'] + rest)));
    MarkerFound(gap, body + ([')'] + rest));
    assert t[|gap| + |MARKER|..] == body + ([')'] + rest);
    NestedCloses(body, rest);
  }

  lemma NestedCloses(body: string, rest: string)
    requires Nested(body)
    ensures ClosingLength(body + ([')'] + rest), 1) == Some(|body| + 1)
  {
    ClosingAfter(body, [')'] + rest, 1);
  }

  lemma MarkerFound(gap: string, rest: string)
    requires Free(gap, MARKER)
    ensures Find(gap + (MARKER + rest), MARKER) == Some(|gap|)
  {
    hide Find;
    var m := MARKER;
    OpenAfterBoundary(gap, m, m);
    forall k | 0 <= k < |gap| ensures !StartsWith(gap[k..] + m, m) {
      NotEarlier(gap, k, m);
    }
    FindAfter(gap, m, rest);
    ConcatAssoc(gap, m, rest);
  }

  lemma NotEarlier(gap: string, k: nat, m: string)
    requires k < |gap| && Free(gap, m) && NoStraddle(gap, m, m)
    ensures !StartsWith(gap[k..] + m, m)
  {
    var u := gap[k..] + m;
    assert (gap + m)[k..] == u;
    assert k + |m| <= |gap| ==> u[..|m|] == gap[k..][..|m|];
    assert !StartsWith(gap[k..], m);
  }

  /** For every text made of marker-free gaps and balanced calls, the search yields exactly the calls, in order. */
  lemma {:induction false} CallsFound(s: Source)
    requires WellFormed(s)
    ensures CallsIn(Expand(Print(s))) == CallTexts(s)
    decreases s
  {
    hide ReplaceAll, Free, DepthAfter, Find, ClosingLength;
    ExpandedText(s);
    match s
    case Last(text) => NoCalls(text);
    case Call(gap, _, body, rest) =>
      ExpandKeepsDepth(body, 1);
      FirstCall(gap, Expand(body), Expand(Print(rest)));
      CallsFound(rest);
  }

  lemma NoCalls(text: string)
    requires Free(text, MARKER)
    ensures CallsIn(text) == []
  {
    FindNoneIfFree(text, MARKER);
  }

  /** One rule per call, in the order of the calls. */
  lemma OneRulePerCall<Rule>(s: Source, classify: string -> Rule)
    requires WellFormed(s)
    ensures var rules := NormalizeRewriteCode(Print(s), classify);
      |rules| == |CallTexts(s)| && forall i :: 0 <= i < |rules| ==> rules[i] == classify(CallTexts(s)[i])
  {
    hide ReplaceAll, CallsIn, CallTexts, Print, WellFormed;
    CallsFound(s);
  }
}
