/** Rules written as data: the `## Rewrite` block of a rule file and the macro made from it. */
module StructuredRewrite {
  import opened Options
  import opened Text
  import opened RewriteExtraction
  import Whitespace

  datatype Rule = Rule(lhs: Option<string>, rhs: Option<string>, apply: Option<string>, whens: seq<string>)

  const NO_RULE := Rule(None, None, None, [])

  function Trim(s: string): string {
    Whitespace.Trim(s)
  }

  /** What is left of a trimmed line without its comment. */
  function WithoutComment(line: string): string {
    var k := Find(line, "#");
    FindBounds(line, "#");
    if k.None? then line else Whitespace.TrimEnd(line[..k.value])
  }

  /** The conditions of one `when:` line. */
  function Conditions(w: string): seq<string>
    decreases |w|
  {
    FindBounds(w, ";");
    var k := Find(w, ";");
    var part := Trim(if k.None? then w else w[..k.value]);
    (if part == "" then [] else [part]) + (if k.None? then [] else Conditions(w[k.value + 1..]))
  }

  /** A line of the block. */
  function ReadField(rule: Rule, trimmed: string): Rule {
    var line := WithoutComment(trimmed);
    if StartsWith(line, "lhs:") then rule.(lhs := Some(Trim(line[4..])))
    else if StartsWith(line, "rhs:") then rule.(rhs := Some(Trim(line[4..])))
    else if StartsWith(line, "apply:") then
      (if Trim(line[6..]) == "" then rule else rule.(apply := Some(Trim(line[6..]))))
    else if StartsWith(line, "when:") then rule.(whens := rule.whens + Conditions(line[5..]))
    else rule
  }

  function ReadLines(lines: seq<string>, inSection: bool, rule: Rule): Rule {
    if lines == [] then rule else
    var trimmed := Trim(lines[0]);
    if StartsWith(trimmed, "## ") && trimmed == "## Rewrite" then ReadLines(lines[1..], true, rule)
    else if StartsWith(trimmed, "## ") && inSection then rule
    else ReadLines(lines[1..], inSection, if inSection then ReadField(rule, trimmed) else rule)
  }

  function Guards(whens: seq<string>): string {
    if whens == [] then "" else Guards(whens[..|whens| - 1]) + ("\n    if " + whens[|whens| - 1])
  }

  function PatternBody(id: string, lhs: string, rhs: string, guards: string): string {
    "\"" + id + "\";\n    \"" + lhs + "\" =>\n    \"" + rhs + "\"" + guards + "\n"
  }

  function ApplierBody(id: string, lhs: string, apply: string, guards: string): string {
    "\"" + id + "\";\n    \"" + lhs + "\" => { " + apply + " }" + guards + "\n"
  }

  function Macro(body: string): string {
    MARKER + (body + ")")
  }

  /** The macro of a rule: a named applier takes precedence over a pattern, and an incomplete rule has none. */
  function MacroOf(id: string, rule: Rule, guards: string): seq<string> {
    if rule.lhs.None? || rule.lhs.value == "" then []
    else if rule.apply.Some? then
      (if rule.apply.value == "" then [] else [Macro(ApplierBody(id, rule.lhs.value, rule.apply.value, guards))])
    else if rule.rhs.None? || rule.rhs.value == "" then []
    else [Macro(PatternBody(id, rule.lhs.value, rule.rhs.value, guards))]
  }

  method ExtractStructuredRewrites(lines: seq<string>, id: string) returns (macros: seq<string>)
    ensures var rule := ReadLines(lines, false, NO_RULE); macros == MacroOf(id, rule, Guards(rule.whens))
  {
    hide MacroOf, PatternBody, ApplierBody, Trim, ReadField;
    var rule, inSection := NO_RULE, false;
    var i := 0;
    assert lines[0..] == lines;
    while i < |lines|
      invariant 0 <= i <= |lines|
      invariant ReadLines(lines[i..], inSection, rule) == ReadLines(lines, false, NO_RULE)
    {
      assert lines[i..][1..] == lines[i + 1..];
      var trimmed := Trim(lines[i]);
      if StartsWith(trimmed, "## ") {
        if trimmed == "## Rewrite" {
          inSection := true;
          i := i + 1;
          continue;
        } else if inSection {
          break;
        }
      }
      if inSection {
        rule := ReadField(rule, trimmed);
      }
      i := i + 1;
    }
    assert ReadLines(lines, false, NO_RULE) == rule;
    var guards := "";
    var k := 0;
    while k < |rule.whens|
      invariant 0 <= k <= |rule.whens|
      invariant guards == Guards(rule.whens[..k])
    {
      assert rule.whens[..k + 1][..k] == rule.whens[..k];
      guards := guards + ("\n    if " + rule.whens[k]);
      k := k + 1;
    }
    assert rule.whens[..k] == rule.whens;
    macros := MacroOf(id, rule, guards);
  }

  // ---------- blocks as people write them ----------

  predicate AllWhite(s: string) {
    forall i :: 0 <= i < |s| ==> Whitespace.IsWhitespace(s[i])
  }

  datatype Name = Lhs | Rhs | Apply

  function NameText(name: Name): string {
    match name
    case Lhs => "lhs:"
    case Rhs => "rhs:"
    case Apply => "apply:"
  }

  /**
   * A line of a block. Every line may be indented; a field may be followed by a comment. `rest` is all that
   * stands behind the name of a field, and `parts` are the texts between the semicolons of a `when:` line.
   */
  datatype Item =
    | Ignored(lead: string, text: string)
    | Field(lead: string, name: Name, rest: string, comment: Option<string>)
    | When(lead: string, parts: seq<string>, comment: Option<string>)

  /** Blank lines, comments, code fences and whatever else is no field and no other heading. */
  predicate NoField(text: string) {
    || text == ""
    || (&& !Whitespace.IsWhitespace(text[0])
        && (StartsWith(text, "## ") ==> Whitespace.TrimEnd(text) == "##" || Whitespace.TrimEnd(text) == "## Rewrite")
        && !StartsWith(text, "lhs:") && !StartsWith(text, "rhs:")
        && !StartsWith(text, "apply:") && !StartsWith(text, "when:"))
  }

  ghost predicate ValidItem(item: Item) {
    AllWhite(item.lead) &&
    match item
    case Ignored(_, text) => NoField(text)
    case Field(_, _, rest, _) => '#' !in rest
    case When(_, parts, _) => parts != [] && forall p :: p in parts ==> '#' !in p && ';' !in p
  }

  function CommentText(comment: Option<string>): string {
    if comment.None? then "" else "#" + comment.value
  }

  function JoinParts(parts: seq<string>): string {
    if parts == [] then "" else if |parts| == 1 then parts[0] else parts[0] + (";" + JoinParts(parts[1..]))
  }

  function Line(item: Item): string {
    match item
    case Ignored(lead, text) => lead + text
    case Field(lead, name, rest, comment) => lead + (NameText(name) + rest + CommentText(comment))
    case When(lead, parts, comment) => lead + ("when:" + JoinParts(parts) + CommentText(comment))
  }

  function Lines(items: seq<Item>): seq<string> {
    if items == [] then [] else Lines(items[..|items| - 1]) + [Line(items[|items| - 1])]
  }

  /** Every line that is no other heading can be written as an item, so blocks of items are all blocks. */
  lemma AnyLine(line: string) returns (item: Item)
    requires StartsWith(Trim(line), "## ") ==> Trim(line) == "## Rewrite"
    ensures ValidItem(item) && Line(item) == line
  {
    hide Whitespace.TrimEnd, Find;
    var lead, text := Indented(line);
    if StartsWith(text, "lhs:") {
      var rest, comment := Commented(text, "lhs:");
      item := Field(lead, Lhs, rest, comment);
    } else if StartsWith(text, "rhs:") {
      var rest, comment := Commented(text, "rhs:");
      item := Field(lead, Rhs, rest, comment);
    } else if StartsWith(text, "apply:") {
      var rest, comment := Commented(text, "apply:");
      item := Field(lead, Apply, rest, comment);
    } else if StartsWith(text, "when:") {
      var rest, comment := Commented(text, "when:");
      var parts := Parted(rest);
      item := When(lead, parts, comment);
    } else {
      OtherHeading(text);
      item := Ignored(lead, text);
    }
  }

  lemma {:induction false} Indented(line: string) returns (lead: string, text: string)
    ensures AllWhite(lead) && line == lead + text && (text == "" || !Whitespace.IsWhitespace(text[0]))
    ensures Trim(line) == Whitespace.TrimEnd(text)
  {
    if line != "" && Whitespace.IsWhitespace(line[0]) {
      lead, text := Indented(line[1..]);
      assert line == [line[0]] + line[1..];
      lead := [line[0]] + lead;
    } else {
      lead, text := "", line;
    }
  }

  lemma AfterName(text: string, name: string) returns (more: string)
    requires StartsWith(text, name)
    ensures text == name + more
  {
    more := text[|name|..];
  }

  lemma Commented(text: string, name: string) returns (rest: string, comment: Option<string>)
    requires StartsWith(text, name)
    ensures text == name + rest + CommentText(comment) && '#' !in rest
  {
    hide Find, StartsWith;
    var more := AfterName(text, name);
    FindBounds(more, "#");
    var k := Find(more, "#");
    if k.None? {
      rest, comment := more, None;
      NotFound(more, '#');
    } else {
      rest, comment := more[..k.value], Some(more[k.value + 1..]);
      assert more[k.value..k.value + 1] == "#";
      assert more == rest + ("#" + comment.value);
      FoundFirst(more, '#');
    }
  }

  lemma StartsWithOne(t: string, c: char)
    requires t != ""
    ensures StartsWith(t, [c]) <==> t[0] == c
  {
    assert t[..1] == [t[0]];
  }

  lemma {:induction false} NotFound(t: string, c: char)
    requires Find(t, [c]).None?
    ensures c !in t
    decreases |t|
  {
    if t != "" {
      StartsWithOne(t, c);
      NotFound(t[1..], c);
    }
  }

  lemma {:induction false} FoundFirst(t: string, c: char)
    requires Find(t, [c]).Some? && Find(t, [c]).value <= |t|
    ensures c !in t[..Find(t, [c]).value]
    decreases |t|
  {
    if !StartsWith(t, [c]) && t != "" {
      StartsWithOne(t, c);
      FoundFirst(t[1..], c);
      assert t[..Find(t, [c]).value] == [t[0]] + t[1..][..Find(t[1..], [c]).value];
    }
  }

  lemma {:induction false} Parted(rest: string) returns (parts: seq<string>)
    requires '#' !in rest
    ensures parts != [] && JoinParts(parts) == rest && forall p :: p in parts ==> '#' !in p && ';' !in p
    decreases |rest|
  {
    hide Find;
    FindBounds(rest, ";");
    var k := Find(rest, ";");
    if k.None? {
      parts := [rest];
      NotFound(rest, ';');
    } else {
      var more := Parted(rest[k.value + 1..]);
      parts := [rest[..k.value]] + more;
      FoundFirst(rest, ';');
      assert parts[1..] == more;
      assert rest[k.value..k.value + 1] == ";";
      assert rest == rest[..k.value] + (";" + rest[k.value + 1..]);
    }
  }

  lemma OtherHeading(text: string)
    requires StartsWith(Whitespace.TrimEnd(text), "## ") ==> Whitespace.TrimEnd(text) == "## Rewrite"
    ensures StartsWith(text, "## ") ==> Whitespace.TrimEnd(text) == "##" || Whitespace.TrimEnd(text) == "## Rewrite"
  {
    if StartsWith(text, "## ") {
      var tail := text[2..];
      assert text[..3][..2] == "##" && text == "##" + tail && !Whitespace.IsWhitespace('#');
      TrimEndBehind("##", tail);
      TrimEndShape(tail);
      var trimmed := Whitespace.TrimEnd(text);
      if |trimmed| >= 3 {
        assert trimmed[..3] == text[..3];
      } else {
        assert trimmed == "##" + Whitespace.TrimEnd(tail);
      }
    }
  }

  // ---------- what a block says ----------

  /** The value that counts for a name: the last one, but an empty `apply:` says nothing. */
  function LastValue(items: seq<Item>, name: Name): Option<string> {
    if items == [] then None else
    var item := items[|items| - 1];
    if item.Field? && item.name == name && (name == Apply ==> Trim(item.rest) != "") then Some(Trim(item.rest))
    else LastValue(items[..|items| - 1], name)
  }

  function NonEmpty(parts: seq<string>): seq<string> {
    if parts == [] then [] else (if Trim(parts[0]) == "" then [] else [Trim(parts[0])]) + NonEmpty(parts[1..])
  }

  /** All conditions, in order. */
  function AllConditions(items: seq<Item>): seq<string> {
    if items == [] then [] else
    var item := items[|items| - 1];
    AllConditions(items[..|items| - 1]) + (if item.When? then NonEmpty(item.parts) else [])
  }

  function RuleOf(items: seq<Item>): Rule {
    Rule(LastValue(items, Lhs), LastValue(items, Rhs), LastValue(items, Apply), AllConditions(items))
  }

  // ---------- white space ----------

  lemma {:induction false} TrimStartOf(lead: string, t: string)
    requires AllWhite(lead) && (t == "" || !Whitespace.IsWhitespace(t[0]))
    ensures Whitespace.TrimStart(lead + t) == t
    decreases |lead|
  {
    if lead == "" {
      assert lead + t == t;
    } else {
      assert (lead + t)[1..] == lead[1..] + t;
      TrimStartOf(lead[1..], t);
    }
  }

  /** Trimming at the end does not go past a character that is no white space. */
  lemma {:induction false} TrimEndBehind(a: string, b: string)
    requires a != "" && !Whitespace.IsWhitespace(a[|a| - 1])
    ensures Whitespace.TrimEnd(a + b) == a + Whitespace.TrimEnd(b)
    decreases |b|
  {
    if b == "" {
      assert a + b == a;
    } else {
      assert (a + b)[..|a + b| - 1] == a + b[..|b| - 1];
      if Whitespace.IsWhitespace(b[|b| - 1]) {
        TrimEndBehind(a, b[..|b| - 1]);
      }
    }
  }

  lemma {:induction false} TrimEndShape(s: string)
    ensures Whitespace.TrimEnd(s) <= s
    ensures Whitespace.TrimEnd(s) != "" ==> !Whitespace.IsWhitespace(Whitespace.TrimEnd(s)[|Whitespace.TrimEnd(s)| - 1])
    ensures Whitespace.TrimEnd(Whitespace.TrimEnd(s)) == Whitespace.TrimEnd(s)
  {
    if s != "" && Whitespace.IsWhitespace(s[|s| - 1]) {
      TrimEndShape(s[..|s| - 1]);
    }
  }

  /** Trimming the end first makes no difference. */
  lemma {:induction false} TrimAfterTrimEnd(s: string)
    ensures Trim(Whitespace.TrimEnd(s)) == Trim(s)
    decreases |s|
  {
    TrimEndShape(s);
    if s != "" && Whitespace.IsWhitespace(s[0]) {
      TrimAfterTrimEnd(s[1..]);
      TrimEndOfTail(s);
    } else if s != "" {
      TrimEndBehind(s[..1], s[1..]);
      assert s == s[..1] + s[1..];
    }
  }

  lemma {:induction false} TrimEndOfTail(s: string)
    requires s != "" && Whitespace.IsWhitespace(s[0])
    ensures if Whitespace.TrimEnd(s[1..]) == "" then Whitespace.TrimEnd(s) == ""
            else Whitespace.TrimEnd(s) == [s[0]] + Whitespace.TrimEnd(s[1..])
    decreases |s|
  {
    if Whitespace.IsWhitespace(s[|s| - 1]) && |s| > 1 {
      assert s[..|s| - 1][1..] == s[1..][..|s| - 2];
      TrimEndOfTail(s[..|s| - 1]);
    } else if |s| > 1 {
      assert s == [s[0]] + s[1..];
    }
  }

  // ---------- one line ----------

  /** The text of a named line, without indentation and comment and trimmed at the end. */
  lemma NamedLine(lead: string, name: string, rest: string, comment: Option<string>)
    requires AllWhite(lead) && '#' !in name && '#' !in rest
    requires name != "" && !Whitespace.IsWhitespace(name[0]) && !Whitespace.IsWhitespace(name[|name| - 1])
    ensures var trimmed := Trim(lead + (name + rest + CommentText(comment)));
      && trimmed != "" && trimmed[0] == name[0] && !StartsWith(trimmed, "## ")
      && WithoutComment(trimmed) == name + Whitespace.TrimEnd(rest)
  {
    hide Whitespace.TrimEnd, Whitespace.TrimStart, Find;
    var text := name + rest + CommentText(comment);
    TrimStartOf(lead, text);
    var trimmed := Trim(lead + text);
    if comment.None? {
      assert text == name + rest;
      TrimEndBehind(name, rest);
      TrimEndShape(rest);
      FindNothing(trimmed, '#');
    } else {
      CutComment(name + rest, comment.value);
      TrimEndBehind(name, rest);
    }
    StartsAt(trimmed, "## ", 0);
  }

  /** Cutting a comment off a line that has been trimmed. */
  lemma CutComment(text: string, comment: string)
    requires '#' !in text && text != ""
    ensures var trimmed := Whitespace.TrimEnd(text + ("#" + comment));
      trimmed != "" && trimmed[0] == text[0] && WithoutComment(trimmed) == Whitespace.TrimEnd(text)
  {
    hide Whitespace.TrimEnd;
    var head := text + "#";
    assert text + ("#" + comment) == head + comment;
    assert !Whitespace.IsWhitespace('#');
    TrimEndBehind(head, comment);
    var tail := Whitespace.TrimEnd(comment);
    var trimmed := head + tail;
    forall k | 0 <= k < |text| ensures !StartsWith(text[k..] + "#", "#") {
      StartsAt(text[k..] + "#", "#", 0);
    }
    FindAfter(text, "#", tail);
    assert trimmed == text + "#" + tail;
    assert trimmed[..|text|] == text;
  }

  lemma ReadNamed(name: Name, rest: string, rule: Rule, trimmed: string)
    requires WithoutComment(trimmed) == NameText(name) + Whitespace.TrimEnd(rest)
    ensures ReadField(rule, trimmed) ==
      match name
      case Lhs => rule.(lhs := Some(Trim(rest)))
      case Rhs => rule.(rhs := Some(Trim(rest)))
      case Apply => if Trim(rest) == "" then rule else rule.(apply := Some(Trim(rest)))
  {
    hide WithoutComment, Trim, Conditions;
    var line := NameText(name) + Whitespace.TrimEnd(rest);
    TrimAfterTrimEnd(rest);
    assert line[..|NameText(name)|] == NameText(name) && line[|NameText(name)|..] == Whitespace.TrimEnd(rest);
    StartsAt(line, "lhs:", 0);
    StartsAt(line, "rhs:", 0);
  }

  lemma ReadWhen(parts: seq<string>, rule: Rule, trimmed: string)
    requires parts != [] && forall p :: p in parts ==> ';' !in p
    requires WithoutComment(trimmed) == "when:" + Whitespace.TrimEnd(JoinParts(parts))
    ensures ReadField(rule, trimmed) == rule.(whens := rule.whens + NonEmpty(parts))
  {
    hide WithoutComment, Trim, Conditions, NonEmpty;
    var line := "when:" + Whitespace.TrimEnd(JoinParts(parts));
    ReadParts(parts);
    assert line[..5] == "when:" && line[5..] == Whitespace.TrimEnd(JoinParts(parts));
    StartsAt(line, "lhs:", 0);
    StartsAt(line, "rhs:", 0);
    StartsAt(line, "apply:", 0);
  }

  lemma {:induction false} ReadParts(parts: seq<string>)
    requires parts != [] && forall p :: p in parts ==> ';' !in p
    ensures Conditions(Whitespace.TrimEnd(JoinParts(parts))) == NonEmpty(parts)
  {
    hide Conditions, Whitespace.TrimEnd, Trim;
    var p := parts[0];
    TrimAfterTrimEnd(p);
    if |parts| == 1 {
      TrimEndShape(p);
      assert p in parts && Whitespace.TrimEnd(p) <= p;
      PrefixWithout(Whitespace.TrimEnd(p), p, ';');
      LastCondition(Whitespace.TrimEnd(p));
      assert NonEmpty(parts[1..]) == [];
    } else {
      var more := JoinParts(parts[1..]);
      var head := p + ";";
      assert p + (";" + more) == head + more;
      assert !Whitespace.IsWhitespace(';');
      TrimEndBehind(head, more);
      FirstCondition(p, Whitespace.TrimEnd(more));
      ReadParts(parts[1..]);
    }
  }

  lemma PrefixWithout(q: string, p: string, c: char)
    requires q <= p && c !in p
    ensures c !in q
  {
    assert forall i :: 0 <= i < |q| ==> q[i] == p[i];
  }

  lemma LastCondition(w: string)
    requires ';' !in w
    ensures Conditions(w) == if Trim(w) == "" then [] else [Trim(w)]
  {
    hide Trim;
    FindNothing(w, ';');
  }

  lemma FirstCondition(p: string, more: string)
    requires ';' !in p
    ensures Conditions((p + ";") + more) == (if Trim(p) == "" then [] else [Trim(p)]) + Conditions(more)
  {
    hide Trim;
    var w := p + ";" + more;
    forall k | 0 <= k < |p| ensures !StartsWith(p[k..] + ";", ";") {
      StartsAt(p[k..] + ";", ";", 0);
    }
    FindAfter(p, ";", more);
    assert w[..|p|] == p && w[|p| + 1..] == more;
  }

  /** A line that is no field adds nothing, and does not end the block. */
  lemma ReadIgnored(lead: string, text: string, rule: Rule)
    requires AllWhite(lead) && NoField(text)
    ensures var trimmed := Trim(lead + text);
      && (StartsWith(trimmed, "## ") ==> trimmed == "## Rewrite")
      && (trimmed != "## Rewrite" ==> ReadField(rule, trimmed) == rule)
  {
    hide Whitespace.TrimEnd, Whitespace.TrimStart, Conditions;
    TrimStartOf(lead, text);
    TrimEndShape(text);
    var trimmed := Trim(lead + text);
    assert trimmed == Whitespace.TrimEnd(text) <= text;
    PrefixStarts(text, trimmed, "## ");
    var line := WithoutComment(trimmed);
    CutIsPrefix(trimmed);
    PrefixStarts(text, line, "lhs:");
    PrefixStarts(text, line, "rhs:");
    PrefixStarts(text, line, "apply:");
    PrefixStarts(text, line, "when:");
  }

  lemma PrefixStarts(text: string, p: string, pat: string)
    requires p <= text
    ensures StartsWith(p, pat) ==> StartsWith(text, pat)
  {
    if StartsWith(p, pat) {
      assert text[..|pat|] == p[..|pat|];
    }
  }

  lemma CutIsPrefix(trimmed: string)
    ensures WithoutComment(trimmed) <= trimmed
  {
    var k := Find(trimmed, "#");
    FindBounds(trimmed, "#");
    if k.Some? {
      TrimEndShape(trimmed[..k.value]);
    }
  }

  // ---------- all lines of a block ----------

  /** What one item changes. */
  function ReadItem(rule: Rule, item: Item): Rule {
    match item
    case Ignored(_, _) => rule
    case Field(_, Lhs, rest, _) => rule.(lhs := Some(Trim(rest)))
    case Field(_, Rhs, rest, _) => rule.(rhs := Some(Trim(rest)))
    case Field(_, Apply, rest, _) => if Trim(rest) == "" then rule else rule.(apply := Some(Trim(rest)))
    case When(_, parts, _) => rule.(whens := rule.whens + NonEmpty(parts))
  }

  lemma NamesAreText(name: Name)
    ensures var t := NameText(name);
      && '#' !in t && t != "" && !Whitespace.IsWhitespace(t[0]) && !Whitespace.IsWhitespace(t[|t| - 1])
    ensures !Whitespace.IsWhitespace('w') && !Whitespace.IsWhitespace(':')
  {
  }

  lemma {:induction false} NoHashInParts(parts: seq<string>)
    requires parts != [] && forall p :: p in parts ==> '#' !in p
    ensures '#' !in JoinParts(parts)
  {
    if |parts| > 1 {
      NoHashInParts(parts[1..]);
    }
  }

  lemma ReadLine(item: Item, rule: Rule)
    requires ValidItem(item)
    ensures var trimmed := Trim(Line(item));
      && (StartsWith(trimmed, "## ") ==> trimmed == "## Rewrite")
      && (trimmed == "## Rewrite" ==> ReadItem(rule, item) == rule)
      && (trimmed != "## Rewrite" ==> ReadField(rule, trimmed) == ReadItem(rule, item))
  {
    hide ReadField, Trim, WithoutComment, NoField, JoinParts, NonEmpty, CommentText, AllWhite;
    match item
    case Ignored(lead, text) => ReadIgnored(lead, text, rule);
    case Field(lead, name, rest, comment) =>
      NamesAreText(name);
      NamedLine(lead, NameText(name), rest, comment);
      ReadNamed(name, rest, rule, Trim(Line(item)));
      HeadingStarts();
    case When(lead, parts, comment) =>
      NamesAreText(Lhs);
      NoHashInParts(parts);
      NamedLine(lead, "when:", JoinParts(parts), comment);
      ReadWhen(parts, rule, Trim(Line(item)));
      HeadingStarts();
  }

  lemma HeadingStarts()
    ensures StartsWith("## Rewrite", "## ")
  {
    var h: string := "## Rewrite";
    assert h[..3] == "## ";
  }

  lemma ReadOne(line: string, lines: seq<string>, rule: Rule)
    requires StartsWith(Trim(line), "## ") ==> Trim(line) == "## Rewrite"
    ensures ReadLines([line] + lines, true, rule)
         == ReadLines(lines, true, if Trim(line) == "## Rewrite" then rule else ReadField(rule, Trim(line)))
  {
    hide Trim, ReadField;
    HeadingStarts();
    assert ([line] + lines)[1..] == lines;
  }

  function ReadItems(rule: Rule, items: seq<Item>): Rule {
    if items == [] then rule else ReadItem(ReadItems(rule, items[..|items| - 1]), items[|items| - 1])
  }

  lemma {:induction false} ReadBlock(items: seq<Item>, after: seq<string>, rule: Rule)
    requires forall item :: item in items ==> ValidItem(item)
    ensures ReadLines(Lines(items) + after, true, rule) == ReadLines(after, true, ReadItems(rule, items))
    decreases |items|
  {
    hide ReadLines, ReadItem, ReadField, Trim, Line;
    if items == [] {
      assert Lines(items) + after == after;
    } else {
      var n := |items| - 1;
      var before := items[..n];
      assert forall item :: item in before ==> item in items;
      ReadBlock(before, [Line(items[n])] + after, rule);
      assert Lines(items) + after == Lines(before) + ([Line(items[n])] + after);
      ReadLine(items[n], ReadItems(rule, before));
      ReadOne(Line(items[n]), after, ReadItems(rule, before));
    }
  }

  lemma {:induction false} ItemsSay(items: seq<Item>)
    ensures ReadItems(NO_RULE, items) == RuleOf(items)
  {
    hide Trim, NonEmpty;
    if items != [] {
      ItemsSay(items[..|items| - 1]);
    }
  }

  lemma {:induction false} ReadBefore(before: seq<string>, lines: seq<string>)
    requires forall l :: l in before ==> Trim(l) != "## Rewrite"
    ensures ReadLines(before + lines, false, NO_RULE) == ReadLines(lines, false, NO_RULE)
  {
    hide Trim, ReadField;
    if before == [] {
      assert before + lines == lines;
    } else {
      assert (before + lines)[0] == before[0] && (before + lines)[1..] == before[1..] + lines;
      ReadBefore(before[1..], lines);
    }
  }

  /** The lines after the block: nothing, or the heading of another section. */
  ghost predicate EndsBlock(after: seq<string>) {
    after == [] || (StartsWith(Trim(after[0]), "## ") && Trim(after[0]) != "## Rewrite")
  }

  lemma ReadAfter(after: seq<string>, rule: Rule)
    requires EndsBlock(after)
    ensures ReadLines(after, true, rule) == rule
  {
    hide Trim, ReadField;
  }

  lemma ReadHeading(heading: string, lines: seq<string>)
    requires Trim(heading) == "## Rewrite"
    ensures ReadLines([heading] + lines, false, NO_RULE) == ReadLines(lines, true, NO_RULE)
  {
    hide ReadField, Trim;
    HeadingStarts();
    assert ([heading] + lines)[1..] == lines;
  }

  /** A rule file with one block: any lines, the heading, the items of the block, and what ends it. */
  function FileLines(before: seq<string>, heading: string, items: seq<Item>, after: seq<string>): seq<string> {
    before + ([heading] + (Lines(items) + after))
  }

  ghost predicate ValidFile(before: seq<string>, heading: string, items: seq<Item>, after: seq<string>) {
    && (forall l :: l in before ==> Trim(l) != "## Rewrite") && Trim(heading) == "## Rewrite" && EndsBlock(after)
    && forall item :: item in items ==> ValidItem(item)
  }

  /** Whatever blank lines, comments and fences surround them, and in whatever order they come, the fields of a block
      are read as the last value of each name and all conditions in order. */
  lemma BlockRead(before: seq<string>, heading: string, items: seq<Item>, after: seq<string>)
    requires ValidFile(before, heading, items, after)
    ensures ReadLines(FileLines(before, heading, items, after), false, NO_RULE) == RuleOf(items)
  {
    hide ReadLines, Trim, Lines, ReadItems, RuleOf, EndsBlock;
    ReadBefore(before, [heading] + (Lines(items) + after));
    ReadHeading(heading, Lines(items) + after);
    ReadBlock(items, after, NO_RULE);
    ReadAfter(after, ReadItems(NO_RULE, items));
    ItemsSay(items);
  }

  // ---------- and finding the macro again ----------

  lemma {:induction false} DepthJoin(a: string, b: string, depth: nat)
    requires depth >= 1 && DepthAfter(a, depth).Some? && DepthAfter(a, depth).value >= 1
    ensures DepthAfter(a + b, depth) == DepthAfter(b, DepthAfter(a, depth).value)
    decreases |a|
  {
    hide DepthAfter;
    if a == "" {
      assert a + b == b;
      DepthOfNothing(depth);
    } else {
      assert a == [a[0]] + a[1..] && a + b == [a[0]] + (a[1..] + b);
      DepthStep(a[0], a[1..], depth);
      DepthStep(a[0], a[1..] + b, depth);
      DepthJoin(a[1..], b, if a[0] == '(' then depth + 1 else if a[0] == ')' then depth - 1 else depth);
    }
  }

  lemma NestedJoin(a: string, b: string)
    requires Nested(a) && Nested(b)
    ensures Nested(a + b)
  {
    hide DepthAfter;
    DepthJoin(a, b, 1);
  }

  lemma NestedText(s: string)
    requires '(' !in s && ')' !in s
    ensures Nested(s)
  {
    hide DepthAfter;
    DepthSkips(s, "", 1);
    assert s + "" == s;
    DepthOfNothing(1);
  }

  lemma {:induction false} NestedGuards(whens: seq<string>)
    requires forall w :: w in whens ==> Nested(w)
    ensures Nested(Guards(whens))
  {
    hide Nested;
    if whens == [] {
      NestedText("");
    } else {
      var n := |whens| - 1;
      NestedGuards(whens[..n]);
      NestedText("\n    if ");
      NestedJoin("\n    if ", whens[n]);
      NestedJoin(Guards(whens[..n]), "\n    if " + whens[n]);
    }
  }

  lemma NestedPattern(id: string, lhs: string, rhs: string, guards: string)
    requires Nested(id) && Nested(lhs) && Nested(rhs) && Nested(guards)
    ensures Nested(PatternBody(id, lhs, rhs, guards))
  {
    hide Nested;
    NestedHead(id, lhs);
    NestedText("\" =>\n    \"");
    NestedText("\"");
    NestedText("\n");
    var s := "\"" + id + "\";\n    \"" + lhs;
    NestedJoin(s, "\" =>\n    \"");
    s := s + "\" =>\n    \"";
    NestedJoin(s, rhs);
    s := s + rhs;
    NestedJoin(s, "\"");
    s := s + "\"";
    NestedJoin(s, guards);
    s := s + guards;
    NestedJoin(s, "\n");
  }

  lemma NestedApplier(id: string, lhs: string, apply: string, guards: string)
    requires Nested(id) && Nested(lhs) && Nested(apply) && Nested(guards)
    ensures Nested(ApplierBody(id, lhs, apply, guards))
  {
    hide Nested;
    NestedHead(id, lhs);
    NestedText("\" => { ");
    NestedText(" }");
    NestedText("\n");
    var s := "\"" + id + "\";\n    \"" + lhs;
    NestedJoin(s, "\" => { ");
    s := s + "\" => { ";
    NestedJoin(s, apply);
    s := s + apply;
    NestedJoin(s, " }");
    s := s + " }";
    NestedJoin(s, guards);
    s := s + guards;
    NestedJoin(s, "\n");
  }

  lemma NestedHead(id: string, lhs: string)
    requires Nested(id) && Nested(lhs)
    ensures Nested("\"" + id + "\";\n    \"" + lhs)
  {
    hide Nested;
    NestedText("\"");
    NestedText("\";\n    \"");
    NestedJoin("\"", id);
    NestedJoin("\"" + id, "\";\n    \"");
    NestedJoin("\"" + id + "\";\n    \"", lhs);
  }

  /** A macro with a balanced body that holds no short marker is found as it is. */
  lemma MacroFound(body: string)
    requires Nested(body) && Free(body, SHORT)
    ensures CallsIn(ReplaceAll(Macro(body), SHORT, MARKER)) == [Macro(body)]
  {
    hide Nested, Free, CallsIn, ReplaceAll;
    var s := Call("", false, body, Last(""));
    NoMarkerInNothing();
    CallsFound(s);
    assert body + ([')'] + "") == body + ")";
    assert Print(s) == "" + (MARKER + (body + ([')'] + "")));
    assert Print(s) == Macro(body);
    ReplaceFree(body, SHORT, MARKER);
    assert CallTexts(Last("")) == [];
    assert CallTexts(s) == [Macro(body)];
  }

  lemma NoMarkerInNothing()
    ensures Free("", SHORT) && Free("", MARKER)
  {
  }

  /** All texts of a rule are balanced in their parentheses. */
  ghost predicate NestedRule(id: string, rule: Rule) {
    && Nested(id) && (rule.lhs.Some? ==> Nested(rule.lhs.value)) && (rule.rhs.Some? ==> Nested(rule.rhs.value))
    && (rule.apply.Some? ==> Nested(rule.apply.value)) && forall w :: w in rule.whens ==> Nested(w)
  }

  /** The body of the macro that a rule stands for: its applier, if it has one, or else its pattern. */
  function BodyOf(id: string, rule: Rule): Option<string> {
    if rule.lhs.None? || rule.lhs.value == "" then None
    else if rule.apply.Some? then Some(ApplierBody(id, rule.lhs.value, rule.apply.value, Guards(rule.whens)))
    else if rule.rhs.None? || rule.rhs.value == "" then None
    else Some(PatternBody(id, rule.lhs.value, rule.rhs.value, Guards(rule.whens)))
  }

  lemma {:induction false} ApplyIsNonEmpty(items: seq<Item>)
    ensures LastValue(items, Apply).Some? ==> LastValue(items, Apply).value != ""
  {
    hide Trim;
    if items != [] {
      ApplyIsNonEmpty(items[..|items| - 1]);
    }
  }

  /** A rule written as a block, with its fields in any order among blank lines and comments, comes out of the
      extraction as exactly the macro made from its fields, be it a pattern or an applier; and the search for macros
      finds that macro again as it is. */
  lemma BlockRecovered<T>(before: seq<string>, id: string, heading: string, items: seq<Item>, after: seq<string>,
                          classify: string -> T)
    requires ValidFile(before, heading, items, after)
    ensures var read := ReadLines(FileLines(before, heading, items, after), false, NO_RULE);
      var body := BodyOf(id, RuleOf(items));
      && MacroOf(id, read, Guards(read.whens)) == (if body.None? then [] else [Macro(body.value)])
      && (body.Some? && NestedRule(id, RuleOf(items)) && Free(body.value, SHORT) ==>
            NormalizeRewriteCode(Macro(body.value), classify) == [classify(Macro(body.value))])
  {
    hide Nested, Free, CallsIn, ReplaceAll, ReadLines, FileLines;
    hide LastValue, AllConditions, PatternBody, ApplierBody, Guards;
    BlockRead(before, heading, items, after);
    ApplyIsNonEmpty(items);
    var rule := RuleOf(items);
    var body := BodyOf(id, rule);
    if body.Some? && NestedRule(id, rule) && Free(body.value, SHORT) {
      NestedGuards(rule.whens);
      if rule.apply.Some? {
        NestedApplier(id, rule.lhs.value, rule.apply.value, Guards(rule.whens));
      } else {
        NestedPattern(id, rule.lhs.value, rule.rhs.value, Guards(rule.whens));
      }
      MacroFound(body.value);
    }
  }
}
