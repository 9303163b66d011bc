/** A reader of `rewrite!` macros, and what it gets back from the macro made of a block. */
module MacroReader {
  import opened Options
  import opened Text
  import opened StructuredRewrite
  import Whitespace

  datatype Right = Pattern(text: string) | Applier(text: string)

  datatype Rewrite = Rewrite(id: string, left: string, right: Right, conditions: seq<string>)

  // ---------- the reader ----------

  function SplitLines(s: string): (lines: seq<string>)
    ensures lines != []
  {
    if s == "" then [""]
    else
      var rest := SplitLines(s[1..]);
      if s[0] == '\n' then [""] + rest else [[s[0]] + rest[0]] + rest[1..]
  }

  function TakeUntil(s: string, c: char): (r: string)
    ensures r <= s
  {
    if s == "" || s[0] == c then "" else [s[0]] + TakeUntil(s[1..], c)
  }

  /** What stands between two texts that a text begins and ends with. */
  function Inside(s: string, open: string, close: string): Option<string> {
    if StartsWith(s, open) && EndsWith(s[|open|..], close) then Some(s[|open|..|s| - |close|]) else None
  }

  function After(s: string, pat: string): Option<string> {
    if StartsWith(s, pat) then Some(s[|pat|..]) else None
  }

  /** A text in quotes at the start, and what follows it. */
  function Quoted(s: string): Option<(string, string)> {
    if s == "" || s[0] != '"' then None
    else
      var text := TakeUntil(s[1..], '"');
      if 1 + |text| < |s| then Some((text, s[2 + |text|..])) else None
  }

  /** A quoted pattern or, in braces, the call of an applier. */
  function ReadRight(line: string): Option<Right> {
    if Inside(line, "\"", "\"").Some? then Some(Pattern(Inside(line, "\"", "\"").value))
    else if Inside(line, "{ ", " }").Some? then Some(Applier(Inside(line, "{ ", " }").value))
    else None
  }

  /** One condition on each line. */
  function ReadConditions(lines: seq<string>): Option<seq<string>>
    decreases |lines|
  {
    if lines == [] then Some([])
    else
      var n := |lines| - 1;
      var before, last := ReadConditions(lines[..n]), After(Whitespace.TrimStart(lines[n]), "if ");
      if before.Some? && last.Some? then Some(before.value + [last.value]) else None
  }

  /** What follows the arrow: the right side, the conditions line by line, and the closing parenthesis. */
  function ReadTail(id: string, left: string, s: string): Option<Rewrite> {
    var lines := SplitLines(s);
    var n := |lines| - 1;
    if n == 0 || lines[n] != ")" then None
    else
      var right, conditions := ReadRight(lines[0]), ReadConditions(lines[1..n]);
      if right.Some? && conditions.Some? then Some(Rewrite(id, left, right.value, conditions.value)) else None
  }

  function ReadBody(id: string, s: string): Option<Rewrite> {
    var left := Quoted(Whitespace.TrimStart(s));
    if left.None? then None
    else
      var rest := After(Whitespace.TrimStart(left.value.1), "=>");
      if rest.None? then None else ReadTail(id, left.value.0, Whitespace.TrimStart(rest.value))
  }

  function ReadMacro(t: string): Option<Rewrite> {
    var s := After(t, "rewrite!(");
    if s.None? then None
    else
      var id := Quoted(s.value);
      if id.None? then None
      else
        var rest := After(id.value.1, ";");
        if rest.None? then None else ReadBody(id.value.0, rest.value)
  }

  // ---------- reading pieces ----------

  lemma SplitStep(c: char, s: string)
    ensures SplitLines("") == [""]
    ensures var rest := SplitLines(s);
      SplitLines([c] + s) == if c == '\n' then [""] + rest else [[c] + rest[0]] + rest[1..]
  {
    assert ([c] + s)[1..] == s;
  }

  lemma {:induction false} SplitJoin(a: string, b: string)
    ensures SplitLines(a + ("\n" + b)) == SplitLines(a) + SplitLines(b)
  {
    hide SplitLines;
    if a == "" {
      SplitStep('\n', b);
      assert a + ("\n" + b) == ['\n'] + b;
    } else {
      var s := a[1..] + ("\n" + b);
      SplitJoin(a[1..], b);
      SplitStep(a[0], a[1..]);
      SplitStep(a[0], s);
      assert a == [a[0]] + a[1..] && a + ("\n" + b) == [a[0]] + s;
    }
  }

  lemma {:induction false} SplitOne(a: string)
    requires '\n' !in a
    ensures SplitLines(a) == [a]
  {
    hide SplitLines;
    if a == "" {
      SplitStep(' ', "");
    } else {
      SplitOne(a[1..]);
      SplitStep(a[0], a[1..]);
      assert a == [a[0]] + a[1..];
    }
  }

  lemma {:induction false} TakesUntil(a: string, c: char, b: string)
    requires c !in a
    ensures TakeUntil(a + ([c] + b), c) == a
  {
    var t := a + ([c] + b);
    if a != "" {
      TakesUntil(a[1..], c, b);
      assert t[1..] == a[1..] + ([c] + b);
    }
  }

  lemma QuotedIs(a: string, b: string)
    requires '"' !in a
    ensures Quoted("\"" + (a + ("\"" + b))) == Some((a, b))
  {
    hide TakeUntil;
    var s := "\"" + (a + ("\"" + b));
    TakesUntil(a, '"', b);
    assert s[1..] == a + (['"'] + b);
    assert s[2 + |a|..] == b;
  }

  lemma AfterIs(pat: string, rest: string)
    ensures After(pat + rest, pat) == Some(rest)
  {
    assert (pat + rest)[..|pat|] == pat && (pat + rest)[|pat|..] == rest;
  }

  lemma InsideIs(open: string, text: string, close: string)
    ensures Inside(open + (text + close), open, close) == Some(text)
  {
    var s := open + (text + close);
    AfterIs(open, text + close);
    assert (text + close)[|text|..] == close;
    assert s[|open|..|s| - |close|] == text;
  }

  lemma RightIs(text: string)
    ensures ReadRight("\"" + (text + "\"")) == Some(Pattern(text))
    ensures ReadRight("{ " + (text + " }")) == Some(Applier(text))
  {
    hide EndsWith;
    InsideIs("\"", text, "\"");
    InsideIs("{ ", text, " }");
    var t := "{ " + (text + " }");
    StartsAt(t, "\"", 0);
    assert t[0] == '{';
  }

  lemma {:induction false} SkipWhite(lead: string, s: string)
    requires AllWhite(lead) && s != "" && !Whitespace.IsWhitespace(s[0])
    ensures Whitespace.TrimStart(lead + s) == s
  {
    var t := lead + s;
    if lead == "" {
      assert t == s;
    } else {
      assert t[1..] == lead[1..] + s;
      SkipWhite(lead[1..], s);
    }
  }

  function ConditionLines(whens: seq<string>): (lines: seq<string>)
    ensures |lines| == |whens| && forall i :: 0 <= i < |whens| ==> lines[i] == "    if " + whens[i]
  {
    seq(|whens|, i requires 0 <= i < |whens| => "    if " + whens[i])
  }

  lemma {:induction false} GuardLines(x: string, whens: seq<string>)
    requires '\n' !in x && forall w :: w in whens ==> '\n' !in w
    ensures SplitLines(x + Guards(whens)) == [x] + ConditionLines(whens)
    decreases |whens|
  {
    hide SplitLines;
    if whens == [] {
      SplitOne(x);
      assert x + "" == x;
    } else {
      var n := |whens| - 1;
      var last := "    if " + whens[n];
      GuardLines(x, whens[..n]);
      SplitJoin(x + Guards(whens[..n]), last);
      assert '\n' !in "    if ";
      SplitOne(last);
      assert "\n    if " + whens[n] == "\n" + last;
      assert x + Guards(whens) == (x + Guards(whens[..n])) + ("\n" + last);
      assert ConditionLines(whens) == ConditionLines(whens[..n]) + [last];
    }
  }

  lemma {:induction false} ConditionsAre(whens: seq<string>)
    ensures ReadConditions(ConditionLines(whens)) == Some(whens)
    decreases |whens|
  {
    hide Whitespace.TrimStart, After, ConditionLines;
    if whens != [] {
      var n := |whens| - 1;
      ConditionsAre(whens[..n]);
      assert ConditionLines(whens)[..n] == ConditionLines(whens[..n]);
      OneCondition(whens[n]);
      assert whens == whens[..n] + [whens[n]];
    } else {
      assert ConditionLines(whens) == [];
    }
  }

  lemma OneCondition(w: string)
    ensures After(Whitespace.TrimStart("    if " + w), "if ") == Some(w)
  {
    hide Whitespace.TrimStart;
    assert "    if " + w == "    " + ("if " + w);
    SkipWhite("    ", "if " + w);
    AfterIs("if ", w);
  }

  /** A right side that is one line, then the guards. */
  lemma TailIs(id: string, left: string, line: string, right: Right, whens: seq<string>)
    requires '\n' !in line && ReadRight(line) == Some(right) && forall w :: w in whens ==> '\n' !in w
    ensures ReadTail(id, left, line + (Guards(whens) + "\n)")) == Some(Rewrite(id, left, right, whens))
  {
    hide SplitLines, ReadRight, ReadConditions, Guards, ConditionLines;
    var body := line + Guards(whens);
    GuardLines(line, whens);
    SplitJoin(body, ")");
    SplitOne(")");
    assert line + (Guards(whens) + "\n)") == body + ("\n" + ")");
    var lines := SplitLines(body + ("\n" + ")"));
    assert lines == [line] + ConditionLines(whens) + [")"];
    assert lines[1..|lines| - 1] == ConditionLines(whens);
    ConditionsAre(whens);
  }

  /** Both kinds of macros start alike. */
  lemma HeadIs(id: string, left: string, gap: string, s: string)
    requires '"' !in id && '"' !in left && AllWhite(gap) && s != "" && !Whitespace.IsWhitespace(s[0])
    ensures ReadMacro("rewrite!(" + ("\"" + (id + ("\"" + (";" + ("\n    " + ("\"" + (left + ("\"" + (" " + ("=>" + (
      gap + s)))))))))))) == ReadTail(id, left, s)
  {
    hide Quoted, After, Whitespace.TrimStart, ReadTail;
    var t4 := "=>" + (gap + s);
    var t3 := " " + t4;
    var t2 := "\"" + (left + ("\"" + t3));
    var t1 := ";" + ("\n    " + t2);
    AfterIs("rewrite!(", "\"" + (id + ("\"" + t1)));
    QuotedIs(id, t1);
    AfterIs(";", "\n    " + t2);
    SkipWhite("\n    ", t2);
    QuotedIs(left, t3);
    SkipWhite(" ", t4);
    AfterIs("=>", gap + s);
    SkipWhite(gap, s);
  }

  // ---------- reading the macros back ----------

  lemma PatternReads(id: string, left: string, rhs: string, whens: seq<string>)
    requires '"' !in id && '"' !in left && '\n' !in rhs && forall w :: w in whens ==> '\n' !in w
    ensures ReadMacro(Macro(PatternBody(id, left, rhs, Guards(whens)))) == Some(Rewrite(id, left, Pattern(rhs), whens))
  {
    hide ReadMacro, ReadTail, ReadRight, Guards;
    var line := "\"" + (rhs + "\"");
    var s := line + (Guards(whens) + "\n)");
    HeadIs(id, left, "\n    ", s);
    RightIs(rhs);
    TailIs(id, left, line, Pattern(rhs), whens);
    assert Macro(PatternBody(id, left, rhs, Guards(whens)))
        == "rewrite!(" + ("\"" + (id + ("\"" + (";" + ("\n    " + ("\"" + (left + ("\"" + (" " + ("=>" + (
             "\n    " + s)))))))))));
  }

  lemma ApplierReads(id: string, left: string, apply: string, whens: seq<string>)
    requires '"' !in id && '"' !in left && '\n' !in apply && forall w :: w in whens ==> '\n' !in w
    ensures ReadMacro(Macro(ApplierBody(id, left, apply, Guards(whens))))
         == Some(Rewrite(id, left, Applier(apply), whens))
  {
    hide ReadMacro, ReadTail, ReadRight, Guards;
    var line := "{ " + (apply + " }");
    var s := line + (Guards(whens) + "\n)");
    HeadIs(id, left, " ", s);
    RightIs(apply);
    TailIs(id, left, line, Applier(apply), whens);
    assert Macro(ApplierBody(id, left, apply, Guards(whens)))
        == "rewrite!(" + ("\"" + (id + ("\"" + (";" + ("\n    " + ("\"" + (left + ("\"" + (" " + ("=>" + (
             " " + s)))))))))));
  }

  // ---------- what the items of a block say ----------

  /** A field with a value; an empty `apply:` has none. */
  predicate Says(item: Item, name: Name) {
    item.Field? && item.name == name && (name == Apply ==> Trim(item.rest) != "")
  }

  ghost predicate SaysLast(items: seq<Item>, i: nat, name: Name)
    requires i < |items|
  {
    Says(items[i], name) && forall j :: i < j < |items| ==> !Says(items[j], name)
  }

  /** The value of a field is that of its last item. */
  lemma {:induction false} LastValueExactly(items: seq<Item>, name: Name, value: string)
    ensures LastValue(items, name) == Some(value) <==>
      exists i :: 0 <= i < |items| && SaysLast(items, i, name) && Trim(items[i].rest) == value
    decreases |items|
  {
    hide Trim;
    if items != [] {
      var n := |items| - 1;
      var before := items[..n];
      LastValueExactly(before, name, value);
      if Says(items[n], name) {
        assert SaysLast(items, n, name);
        assert forall i :: 0 <= i < n && SaysLast(items, i, name) ==> !Says(items[n], name);
      } else {
        assert forall i :: 0 <= i < n ==> (SaysLast(items, i, name) <==> SaysLast(before, i, name));
      }
    }
  }

  /** Conditions come item by item in order. */
  lemma {:induction false} ConditionsInOrder(a: seq<Item>, b: seq<Item>, item: Item)
    ensures AllConditions(a + b) == AllConditions(a) + AllConditions(b)
    ensures AllConditions([item]) == if item.When? then NonEmpty(item.parts) else []
    decreases |b|
  {
    hide NonEmpty;
    if b == [] {
      assert a + b == a;
    } else {
      var n := |b| - 1;
      ConditionsInOrder(a, b[..n], item);
      assert (a + b)[..|a + b| - 1] == a + b[..n];
    }
    assert [item][..0] == [];
  }

  /** And those of an item part by part, trimmed and without empty ones. */
  lemma {:induction false} PartsInOrder(p: seq<string>, q: seq<string>, part: string)
    ensures NonEmpty(p + q) == NonEmpty(p) + NonEmpty(q)
    ensures NonEmpty([part]) == if Trim(part) == "" then [] else [Trim(part)]
  {
    hide Trim, NonEmpty;
    FirstPart(part, []);
    assert [part] + [] == [part];
    if p == [] {
      assert p + q == q;
    } else {
      PartsInOrder(p[1..], q, part);
      FirstPart(p[0], p[1..]);
      FirstPart(p[0], p[1..] + q);
      assert p == [p[0]] + p[1..] && p + q == [p[0]] + (p[1..] + q);
    }
  }

  lemma FirstPart(part: string, rest: seq<string>)
    ensures NonEmpty([]) == []
    ensures NonEmpty([part] + rest) == (if Trim(part) == "" then [] else [Trim(part)]) + NonEmpty(rest)
  {
    hide Trim;
    assert ([part] + rest)[1..] == rest;
  }

  /** What a block says: its left side, and its applier or else its right side. */
  function Complete(items: seq<Item>): Option<(string, Right)> {
    var left, right, apply := LastValue(items, Lhs), LastValue(items, Rhs), LastValue(items, Apply);
    if left.None? || left.value == "" then None
    else if apply.Some? then Some((left.value, Applier(apply.value)))
    else if right.Some? && right.value != "" then Some((left.value, Pattern(right.value)))
    else None
  }

  /** A block is read back from its macro: the identifier, the left side, the applier or else the right side, and all
      conditions in their order; and there is a macro exactly if the block is complete. */
  lemma BlockReadsBack(before: seq<string>, id: string, heading: string, items: seq<Item>, after: seq<string>)
    requires ValidFile(before, heading, items, after)
    ensures var read := ReadLines(FileLines(before, heading, items, after), false, NO_RULE);
      var macros, said := MacroOf(id, read, Guards(read.whens)), Complete(items);
      && |macros| == (if said.Some? then 1 else 0)
      && (said.Some? && '"' !in id && '"' !in said.value.0 && '\n' !in said.value.1.text
          && (forall w :: w in AllConditions(items) ==> '\n' !in w) ==>
            ReadMacro(macros[0]) == Some(Rewrite(id, said.value.0, said.value.1, AllConditions(items))))
  {
    hide ReadLines, FileLines, LastValue, AllConditions, PatternBody, ApplierBody, Guards, ReadMacro, Macro;
    BlockRead(before, heading, items, after);
    ApplyIsNonEmpty(items);
    var said := Complete(items);
    if said.Some? && '"' !in id && '"' !in said.value.0 && '\n' !in said.value.1.text
       && (forall w :: w in AllConditions(items) ==> '\n' !in w) {
      match said.value.1
      case Pattern(rhs) => PatternReads(id, said.value.0, rhs, AllConditions(items));
      case Applier(apply) => ApplierReads(id, said.value.0, apply, AllConditions(items));
    }
  }
}
