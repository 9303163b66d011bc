/** Stripping in the grammar's own terms: directives, and productions with a marker, a C action and a Rust twin. */
module GrammarItems {
  import opened Options
  import opened Text
  import opened BodyLexer
  import opened BodyStripper
  import opened GrammarStrip
  import opened Promotion
  import opened BraceKinds
  import Translation

  // ---------- the items of a grammar ----------

  datatype Marker = Marker(token: string, trail: seq<Trivia>)

  /** `gap %action_rust lead { body }` */
  datatype Twin = Twin(gap: seq<Trivia>, lead: seq<Trivia>, body: string)

  datatype Item =
    | Spacing(ts: seq<Trivia>)
    | Bare(text: string)
    | Declaration(text: string, lead: seq<Trivia>, body: string)
    | Production(text: string, lead: seq<Trivia>, marker: Option<Marker>, action: Option<string>, twin: Option<Twin>)

  function Braced(body: string, rest: string): string {
    ("{" + body + "}") + rest
  }

  /** The text between a production's symbols and its first brace. */
  function Opening(text: string, lead: seq<Trivia>, marker: Option<Marker>): string {
    text + "." + Show(lead) + if marker.None? then "" else "[" + marker.value.token + "]" + Show(marker.value.trail)
  }

  function TwinText(twin: Option<Twin>, rest: string): string {
    match twin
    case None => rest
    case Some(t) => Show(t.gap) + ((TWIN + Show(t.lead)) + Braced(t.body, rest))
  }

  function ItemText(item: Item, rest: string): string {
    match item
    case Spacing(ts) => Show(ts) + rest
    case Bare(text) => text + rest
    case Declaration(text, lead, body) => (text + Show(lead)) + Braced(body, rest)
    case Production(text, lead, marker, action, twin) =>
      var more := TwinText(twin, rest);
      Opening(text, lead, marker) + if action.None? then more else Braced(action.value, more)
  }

  function SourceOf(items: seq<Item>): string {
    if items == [] then "" else ItemText(items[0], SourceOf(items[1..]))
  }

  /** Text that starts with neither a space nor a comment nor the twin's keyword. */
  predicate Visible(text: string) {
    text != "" && !IsSpace(text[0]) && text[0] != '/' && !StartsWith(text, TWIN) && '{' !in text
  }

  ghost predicate ValidMarker(m: Marker) {
    '[' !in m.token && '{' !in m.token && AllQuiet(m.trail)
  }

  ghost predicate ValidTwin(t: Twin) {
    AllQuiet(t.gap) && AllQuiet(t.lead) && Balanced(t.body)
  }

  /** A directive starts with `%`, closes its own brackets and does not end like a rule. */
  ghost predicate ValidItem(item: Item) {
    match item
    case Spacing(ts) => AllQuiet(ts)
    case Bare(text) => Visible(text) && !StartsWith(TWIN, text)
    case Declaration(text, lead, body) =>
      Visible(text) && text[0] == '%' && LocalBracket(text) && !EndsRule(text) && AllQuiet(lead) && Balanced(body)
    case Production(text, lead, marker, action, twin) =>
      && (text == "" || Visible(text)) && AllQuiet(lead)
      && (marker.Some? ==> ValidMarker(marker.value))
      && (action.Some? ==> Balanced(action.value))
      && (twin.Some? ==> ValidTwin(twin.value))
  }

  ghost predicate Valid(items: seq<Item>) {
    forall item :: item in items ==> ValidItem(item)
  }

  /** What the script is for: no production keeps its C action, and one without a twin gets the translation. */
  function StripItem(item: Item): Item {
    if !item.Production? || item.action.None? then item
    else if item.twin.Some? then item.(action := None)
    else item.(action := None, twin := Some(Twin([], [Space(' ')], Promote(item.action.value))))
  }

  function StripItems(items: seq<Item>): (r: seq<Item>)
    ensures |r| == |items|
    ensures forall i :: 0 <= i < |r| ==> r[i] == StripItem(items[i])
  {
    seq(|items|, i requires 0 <= i < |items| => StripItem(items[i]))
  }

  /** No body that the script finds in a comment is behind the end of a rule. */
  ghost predicate ClearNotes(ts: seq<Trivia>) {
    forall t :: t in ts && !t.Space? ==> NoRules(t.words)
  }

  /** The comments before a brace leave a directive's or a twin's kind alone. */
  ghost predicate ClearLead(lead: seq<Trivia>) {
    !RuleNote(LastNote(lead))
  }

  /** And a production's: there is none, or the last one reads like the end of a rule. */
  ghost predicate ClearOpening(lead: seq<Trivia>, marker: Option<Marker>) {
    var early := LastNote(lead);
    match marker
    case None => early.None? || RuleNote(early)
    case Some(m) =>
      var late := LastNote(m.trail);
      if late.Some? then RuleNote(late) else early.None? || DotNote(early)
  }

  ghost predicate ClearBefore(lead: seq<Trivia>, marker: Option<Marker>) {
    ClearNotes(lead) && (marker.Some? ==> ClearNotes(marker.value.trail))
  }

  ghost predicate ClearItem(item: Item) {
    match item
    case Spacing(ts) => ClearNotes(ts)
    case Bare(_) => true
    case Declaration(_, lead, _) => ClearNotes(lead) && ClearLead(lead)
    case Production(_, lead, marker, action, twin) =>
      && ClearBefore(lead, marker)
      && (action.Some? ==> ClearOpening(lead, marker))
      && (twin.Some? ==> ClearTwin(twin.value))
  }

  ghost predicate ClearTwin(t: Twin) {
    ClearNotes(t.gap) && ClearNotes(t.lead) && ClearLead(t.lead)
  }

  ghost predicate Clear(items: seq<Item>) {
    forall item :: item in items ==> ClearItem(item)
  }

  // ---------- the kinds of the items' braces ----------

  lemma AfterDot(a: string, lead: seq<Trivia>)
    requires AllQuiet(lead)
    ensures KindOf(a + "." + Show(lead)) == Rule <==> ClearOpening(lead, None)
    ensures Dotted(a + "." + Show(lead)) <==> LastNote(lead).None? || DotNote(LastNote(lead))
  {
    hide KindOf, Dotted, TrimEnd, Show, AllQuiet;
    NoteDecides(a + ".", lead);
    DotEnd(a);
    if LastNote(lead).None? {
      KindOfTrimmed(a + ".", a + "." + Show(lead));
    }
  }

  lemma DotEnd(a: string)
    ensures KindOf(a + ".") == Rule && Dotted(a + ".")
  {
    var t := a + ".";
    assert TrimEnd(t) == t && t[|t| - 1..] == ".";
    DottedKind(t);
  }

  lemma AfterMarker(a: string, m: Marker)
    requires ValidMarker(m)
    ensures KindOf((a + "[" + m.token + "]") + Show(m.trail)) == Rule
       <==> (if LastNote(m.trail).Some? then RuleNote(LastNote(m.trail)) else Dotted(a))
  {
    hide KindOf, Dotted, TrimEnd, Show, AllQuiet;
    var t := a + "[" + m.token + "]";
    NoteDecides(t, m.trail);
    if LastNote(m.trail).None? {
      KindOfTrimmed(t, t + Show(m.trail));
      assert t[..|a|] == a && t[|a| + 1..|t| - 1] == m.token;
      MarkerKind(t, |a|, |t| - 1);
    }
  }

  /** The brace after a production's opening is a rule's exactly when no comment is in the way. */
  lemma OpeningKind(before: string, text: string, lead: seq<Trivia>, marker: Option<Marker>)
    requires AllQuiet(lead) && (marker.Some? ==> ValidMarker(marker.value))
    ensures KindOf(before + Opening(text, lead, marker)) == Rule <==> ClearOpening(lead, marker)
  {
    hide KindOf, Dotted, Show, AllQuiet, RuleNote, DotNote;
    var a := before + text;
    var b := a + "." + Show(lead);
    AfterDot(a, lead);
    if marker.None? {
      assert before + Opening(text, lead, marker) == b;
    } else {
      var m := marker.value;
      AfterMarker(b, m);
      assert before + Opening(text, lead, marker) == (b + "[" + m.token + "]") + Show(m.trail);
    }
  }

  /** The brace after a directive is a rule's exactly when the last comment before it reads like one. */
  lemma DeclarationKind(before: string, text: string, lead: seq<Trivia>)
    requires text != "" && text[0] == '%' && LocalBracket(text) && KindOf(text) != Rule && AllQuiet(lead)
    ensures KindOf(before + (text + Show(lead))) == Rule <==> !ClearLead(lead)
  {
    hide KindOf, Show, AllQuiet, LocalBracket, RuleNote, TrimEnd;
    var a := before + text;
    ConcatAssoc(before, text, Show(lead));
    NoteDecides(a, lead);
    assert Anchored(text);
    KindAnchored(before, text);
    if LastNote(lead).None? {
      KindOfTrimmed(a, a + Show(lead));
      assert !RuleNote(LastNote(lead)) by {
        NoNote(lead);
      }
    }
  }

  lemma NoNote(lead: seq<Trivia>)
    requires LastNote(lead).None?
    ensures ClearLead(lead)
  {
  }

  lemma TwinKind(before: string, lead: seq<Trivia>)
    requires AllQuiet(lead)
    ensures KindOf(before + (TWIN + Show(lead))) == Rule <==> !ClearLead(lead)
  {
    hide ClearLead;
    assert TrimEnd(TWIN) == TWIN && DropMarker(TWIN) == TWIN;
    assert TWIN[|TWIN| - 1..] == "t";
    DeclarationKind(before, TWIN, lead);
  }

  // ---------- the script on items ----------

  /** The script accepts `t` after the text `before`, and gives `out` exactly when `ok`. */
  ghost predicate Meets(before: string, t: string, out: string, ok: bool) {
    Stripped(before, t).Some? && (Stripped(before, t).value == out <==> ok)
  }

  lemma GapMeets(before: string, gap: string, t: string, out: string, ok: bool)
    requires '{' !in gap && Meets(before + gap, t, out, ok)
    ensures Meets(before, gap + t, gap + out, ok)
  {
    hide Stripped;
    StrippedGap(before, gap, t);
    SameHead(gap, Stripped(before + gap, t).value, out);
  }

  lemma BodyStep(before: string, body: string, after: string)
    requires Balanced(body) && Stripped(before + ("{" + body + "}"), after).Some?
    ensures Stripped(before, Braced(body, after))
         == Some(Replacement(KindOf(before), body, after) + Stripped(before + ("{" + body + "}"), after).value)
  {
    hide Stripped, Replacement, KindOf, Balanced;
    StrippedBody(before, body, after);
  }

  /** A body that is to stay does so exactly when it is not taken for a rule's. */
  lemma BodyKept(before: string, body: string, after: string, out: string, ok: bool)
    requires Balanced(body) && Meets(before + ("{" + body + "}"), after, out, ok)
    ensures Meets(before, Braced(body, after), Braced(body, out), ok && KindOf(before) != Rule)
  {
    hide Stripped, KindOf, Balanced, NextIsTwin, Promote;
    BodyStep(before, body, after);
    var more := Stripped(before + ("{" + body + "}"), after).value;
    if KindOf(before) == Rule {
      RuleBodyChanges(before + ("{" + body + "}"), body, after);
      assert Braced(body, out)[0] == '{';
    } else {
      SameHead("{" + body + "}", more, out);
    }
  }

  /** A C action whose twin follows goes away exactly when it is taken for a rule's. */
  lemma ActionDeleted(before: string, body: string, after: string, out: string, ok: bool)
    requires Balanced(body) && Meets(before + ("{" + body + "}"), after, out, ok)
    requires NextIsTwin(after) && out != "" && out[0] != '{'
    ensures Meets(before, Braced(body, after), out, ok && KindOf(before) == Rule)
  {
    hide Stripped, KindOf, Balanced, NextIsTwin, Promote;
    BodyStep(before, body, after);
    var more := Stripped(before + ("{" + body + "}"), after).value;
    assert "" + more == more;
    assert Braced(body, more)[0] == '{';
  }

  /** And one without a twin becomes the Rust action exactly then. */
  lemma ActionPromoted(before: string, body: string, after: string, out: string, ok: bool)
    requires Balanced(body) && Meets(before + ("{" + body + "}"), after, out, ok)
    requires !NextIsTwin(after)
    ensures Meets(before, Braced(body, after), (TWIN + " ") + Braced(Promote(body), out), ok && KindOf(before) == Rule)
  {
    hide Stripped, KindOf, Balanced, NextIsTwin, Promote;
    BodyStep(before, body, after);
    var more := Stripped(before + ("{" + body + "}"), after).value;
    var head := TWIN + " {" + Promote(body) + "}";
    assert (TWIN + " ") + Braced(Promote(body), out) == head + out;
    SameHead(head, more, out);
    assert Braced(body, more)[0] == '{' && (head + out)[0] == TWIN[0];
  }

  /** The words of a comment stay as they are exactly when no body in them is taken for a rule's. */
  lemma {:induction false} WordsMeet(before: string, words: Grammar, t: string, out: string, ok: bool)
    requires before != "" && IsMark(before[|before| - 1]) && Blocks(words) && LocalBrackets(words)
    requires Meets(before + Print(words), t, out, ok)
    ensures Meets(before, Print(words) + t, Print(words) + out, ok && NoRules(words))
    decreases words
  {
    hide Meets, Balanced, KindOf, LocalBracket;
    match words
    case End(text) => GapMeets(before, text, t, out, ok);
    case Block(gap, body, rest) =>
      var b, more := "{" + body + "}", Print(rest);
      assert before + Print(words) == (before + gap + b) + more;
      WordsMeet(before + gap + b, rest, t, out, ok);
      BodyKept(before + gap, body, more + t, more + out, ok && NoRules(rest));
      BehindMark(before, gap);
      GapMeets(before, gap, Braced(body, more + t), Braced(body, more + out), ok && NoRules(words));
      assert Print(words) + t == gap + Braced(body, more + t);
      assert Print(words) + out == gap + Braced(body, more + out);
  }

  lemma OneMeets(before: string, one: Trivia, t: string, out: string, ok: bool)
    requires Quiet(one) && Meets(before + Written(one), t, out, ok)
    ensures Meets(before, Written(one) + t, Written(one) + out, ok && (!one.Space? ==> NoRules(one.words)))
  {
    hide Meets, Blocks, LocalBracket, LocalBrackets, NoRules;
    match one
    case Space(c) => GapMeets(before, [c], t, out, ok);
    case BlockNote(words) => NoteMeets(before, "/*", words, "*/", t, out, ok);
    case LineNote(words) => NoteMeets(before, "//", words, "\n", t, out, ok);
  }

  lemma NoteMeets(before: string, opening: string, words: Grammar, closing: string, t: string, out: string, ok: bool)
    requires (opening == "//" || opening == "/*") && (closing == "*/" || closing == "\n")
    requires Blocks(words) && LocalBrackets(words)
    requires Meets(before + (opening + Print(words) + closing), t, out, ok)
    ensures Meets(before, (opening + Print(words) + closing) + t, (opening + Print(words) + closing) + out,
                  ok && NoRules(words))
  {
    hide Meets, Blocks, LocalBracket, LocalBrackets, NoRules;
    var a, text := before + opening, Print(words);
    assert before + (opening + text + closing) == (a + text) + closing;
    GapMeets(a + text, closing, t, out, ok);
    WordsMeet(a, words, closing + t, closing + out, ok);
    GapMeets(before, opening, text + (closing + t), text + (closing + out), ok && NoRules(words));
    assert (opening + text + closing) + t == opening + (text + (closing + t));
    assert (opening + text + closing) + out == opening + (text + (closing + out));
  }

  /** Spaces and comments stay as they are exactly when no body in the comments is taken for a rule's. */
  lemma {:induction false} TriviaMeets(before: string, ts: seq<Trivia>, t: string, out: string, ok: bool)
    requires AllQuiet(ts) && Meets(before + Show(ts), t, out, ok)
    ensures Meets(before, Show(ts) + t, Show(ts) + out, ok && ClearNotes(ts))
    decreases |ts|
  {
    hide Meets, Quiet, Written, NoRules;
    if ts == [] {
      assert before + Show(ts) == before && Show(ts) + t == t && Show(ts) + out == out;
    } else {
      var head, more := Written(ts[0]), Show(ts[1..]);
      assert Quiet(ts[0]);
      assert before + Show(ts) == (before + head) + more;
      TriviaMeets(before + head, ts[1..], t, out, ok);
      OneMeets(before, ts[0], more + t, more + out, ok && ClearNotes(ts[1..]));
      ConcatAssoc(head, more, t);
      ConcatAssoc(head, more, out);
      assert ClearNotes(ts) <==> ClearNotes(ts[1..]) && (!ts[0].Space? ==> NoRules(ts[0].words));
    }
  }

  lemma QuietIsSkipped(ts: seq<Trivia>)
    requires AllQuiet(ts)
    ensures AllSkipped(ts)
  {
    hide Skipped;
    forall t | t in ts ensures Skipped(t) {
      assert Quiet(t);
    }
  }

  /** Trivia start with a space or a slash. */
  lemma ShownStart(ts: seq<Trivia>)
    requires AllSkipped(ts)
    ensures Show(ts) != "" ==> IsSpace(Show(ts)[0]) || Show(ts)[0] == '/'
  {
    if ts != [] {
      assert Skipped(ts[0]);
      assert Written(ts[0]) != "";
    }
  }

  lemma StartsInParts(text: string, more: string, pat: string)
    requires StartsWith(text + more, pat)
    ensures StartsWith(text, pat) || (StartsWith(pat, text) && more != "" && more[0] in pat)
  {
    var t := text + more;
    if |text| >= |pat| {
      assert t[..|pat|] == text[..|pat|];
    } else {
      StartsAt(t, pat, |text|);
      assert t[|text|] == more[0];
      assert pat[..|text|] == t[..|pat|][..|text|] == text;
    }
  }

  /** A visible text is no twin's announcement, as long as it does not stop inside the keyword. */
  lemma VisibleIsNoTwin(text: string, more: string)
    requires Visible(text)
    requires more != "" && more[0] in TWIN ==> !StartsWith(TWIN, text)
    ensures !NextIsTwin(text + more)
  {
    assert (text + more)[0] == text[0];
    if StartsWith(text + more, TWIN) {
      StartsInParts(text, more, TWIN);
    }
  }

  lemma DotIsNoTwin(more: string)
    ensures !NextIsTwin("." + more)
  {
    StartsAt("." + more, TWIN, 0);
  }

  lemma DeclarationIsNoTwin(text: string, lead: seq<Trivia>, rest: string)
    requires Visible(text) && AllQuiet(lead) && StartsWith(rest, "{")
    ensures !NextIsTwin((text + Show(lead)) + rest)
  {
    hide NextIsTwin, Visible, Quiet, Show;
    var more := Show(lead) + rest;
    QuietIsSkipped(lead);
    ShownStart(lead);
    StartsAt(rest, "{", 0);
    assert Show(lead) == "" ==> more == rest;
    NotInTwin(more);
    ConcatAssoc(text, Show(lead), rest);
    VisibleIsNoTwin(text, more);
  }

  lemma ProductionIsNoTwin(text: string, more: string)
    requires text == "" || Visible(text)
    ensures !NextIsTwin(text + ("." + more))
  {
    hide NextIsTwin, Visible;
    NotInTwin("." + more);
    if text == "" {
      assert text + ("." + more) == "." + more;
      DotIsNoTwin(more);
    } else {
      VisibleIsNoTwin(text, "." + more);
    }
  }

  lemma OpeningSplit(text: string, lead: seq<Trivia>, marker: Option<Marker>, more: string)
    ensures exists u :: Opening(text, lead, marker) + more == text + ("." + u)
  {
    hide Show;
    var t := Opening(text, lead, marker) + more;
    assert t == text + ("." + t[|text| + 1..]);
  }

  lemma ItemIsNoTwin(item: Item, rest: string)
    requires ValidItem(item) && !item.Spacing?
    ensures !NextIsTwin(ItemText(item, rest))
  {
    hide NextIsTwin, Visible, LocalBracket, EndsRule, Balanced, Quiet, Show, Opening, TwinText, ValidMarker, ValidTwin;
    match item
    case Bare(text) =>
      VisibleIsNoTwin(text, rest);
    case Declaration(text, lead, body) =>
      DeclarationIsNoTwin(text, lead, Braced(body, rest));
    case Production(text, lead, marker, action, twin) =>
      var more := TwinText(twin, rest);
      var after := if action.None? then more else Braced(action.value, more);
      OpeningSplit(text, lead, marker, after);
      var u :| Opening(text, lead, marker) + after == text + ("." + u);
      ProductionIsNoTwin(text, u);
  }

  lemma NotInTwin(more: string)
    requires more != "" && (IsSpace(more[0]) || more[0] == '/' || more[0] == '{' || more[0] == '.')
    ensures more[0] !in TWIN
  {
  }

  lemma {:induction false} NoTwinAhead(items: seq<Item>)
    requires Valid(items)
    ensures !NextIsTwin(SourceOf(items))
    decreases |items|
  {
    hide NextIsTwin, ValidItem;
    if items == [] {
      NoTwinAtEnd("");
    } else {
      assert ValidItem(items[0]);
      if items[0].Spacing? {
        assert AllQuiet(items[0].ts) by {
          SpacingQuiet(items[0]);
        }
        QuietIsSkipped(items[0].ts);
        NoTwinAhead(items[1..]);
        TwinAfter(items[0].ts, SourceOf(items[1..]));
      } else {
        ItemIsNoTwin(items[0], SourceOf(items[1..]));
      }
    }
  }

  lemma SpacingQuiet(item: Item)
    requires ValidItem(item) && item.Spacing?
    ensures AllQuiet(item.ts)
  {
  }

  /** The rest of the source is stripped as `ok` says, whatever stands before it. */
  ghost predicate MeetsAnywhere(t: string, out: string, ok: bool) {
    forall before :: Meets(before, t, out, ok)
  }

  lemma DeclarationMeets(item: Item, t: string, out: string, ok: bool)
    requires ValidItem(item) && item.Declaration? && MeetsAnywhere(t, out, ok)
    ensures MeetsAnywhere(ItemText(item, t), ItemText(item, out), ok && ClearItem(item))
  {
    hide KindOf, Balanced, Meets, LocalBracket, EndsRule, Show, ClearLead, ClearNotes;
    var text, lead, body := item.text, item.lead, item.body;
    var ok' := ok && ClearItem(item);
    KindExactly(text);
    forall before ensures Meets(before, ItemText(item, t), ItemText(item, out), ok') {
      DeclarationKind(before, text, lead);
      KeyMeets(before, text, lead, body, t, out, ok);
    }
  }

  /** A keyword with trivia and a body behind it. */
  lemma KeyMeets(before: string, key: string, lead: seq<Trivia>, body: string, t: string, out: string, ok: bool)
    requires '{' !in key && AllQuiet(lead) && Balanced(body) && MeetsAnywhere(t, out, ok)
    ensures Meets(before, (key + Show(lead)) + Braced(body, t), (key + Show(lead)) + Braced(body, out),
                  ok && ClearNotes(lead) && KindOf(before + (key + Show(lead))) != Rule)
  {
    hide KindOf, Balanced, Meets, Show, ClearNotes, Quiet;
    var gap := before + (key + Show(lead));
    assert gap == (before + key) + Show(lead);
    BodyKept(gap, body, t, out, ok);
    TriviaMeets(before + key, lead, Braced(body, t), Braced(body, out), ok && KindOf(gap) != Rule);
    GapMeets(before, key, Show(lead) + Braced(body, t), Show(lead) + Braced(body, out),
             ok && KindOf(gap) != Rule && ClearNotes(lead));
    ConcatAssoc(key, Show(lead), Braced(body, t));
    ConcatAssoc(key, Show(lead), Braced(body, out));
  }

  lemma TwinMeets(twin: Option<Twin>, t: string, out: string, ok: bool)
    requires (twin.Some? ==> ValidTwin(twin.value)) && MeetsAnywhere(t, out, ok)
    ensures MeetsAnywhere(TwinText(twin, t), TwinText(twin, out), ok && (twin.Some? ==> ClearTwin(twin.value)))
  {
    hide KindOf, Balanced, Meets, Show, ClearLead, ClearNotes, Quiet;
    if twin.Some? {
      var w := twin.value;
      var key := TWIN + Show(w.lead);
      var ok' := ok && ClearTwin(w);
      forall before ensures Meets(before, TwinText(twin, t), TwinText(twin, out), ok') {
        var b := before + Show(w.gap);
        TwinKind(b, w.lead);
        KeyMeets(b, TWIN, w.lead, w.body, t, out, ok);
        TriviaMeets(before, w.gap, key + Braced(w.body, t), key + Braced(w.body, out),
                    ok && ClearNotes(w.lead) && ClearLead(w.lead));
      }
    }
  }

  lemma OpeningMeets(before: string, text: string, lead: seq<Trivia>, marker: Option<Marker>,
                     t: string, out: string, ok: bool)
    requires '{' !in text && AllQuiet(lead) && (marker.Some? ==> ValidMarker(marker.value))
    requires Meets(before + Opening(text, lead, marker), t, out, ok)
    ensures Meets(before, Opening(text, lead, marker) + t, Opening(text, lead, marker) + out,
                  ok && ClearBefore(lead, marker))
  {
    hide Meets, Show, ClearNotes, Quiet;
    var a := before + (text + ".");
    var b, notes := a + Show(lead), Show(lead);
    if marker.None? {
      assert before + Opening(text, lead, marker) == b;
      TriviaMeets(a, lead, t, out, ok);
      GapMeets(before, text + ".", notes + t, notes + out, ok && ClearNotes(lead));
      assert Opening(text, lead, marker) == (text + ".") + notes;
      ConcatAssoc(text + ".", notes, t);
      ConcatAssoc(text + ".", notes, out);
    } else {
      var m := "[" + marker.value.token + "]";
      var trail := Show(marker.value.trail);
      var ok' := ok && ClearNotes(marker.value.trail);
      assert before + Opening(text, lead, marker) == (b + m) + trail;
      TriviaMeets(b + m, marker.value.trail, t, out, ok);
      GapMeets(b, m, trail + t, trail + out, ok');
      TriviaMeets(a, lead, m + (trail + t), m + (trail + out), ok');
      GapMeets(before, text + ".", notes + (m + (trail + t)), notes + (m + (trail + out)), ok' && ClearNotes(lead));
      assert Opening(text, lead, marker) + t == (text + ".") + (notes + (m + (trail + t)));
      assert Opening(text, lead, marker) + out == (text + ".") + (notes + (m + (trail + out)));
    }
  }

  lemma TwinAnnounced(twin: Twin, rest: string)
    requires ValidTwin(twin)
    ensures NextIsTwin(TwinText(Some(twin), rest))
    ensures TwinText(Some(twin), rest) != "" && TwinText(Some(twin), rest)[0] != '{'
  {
    hide NextIsTwin, Balanced, Quiet;
    var more := Show(twin.lead) + Braced(twin.body, rest);
    assert (TWIN + Show(twin.lead)) + Braced(twin.body, rest) == TWIN + more;
    QuietIsSkipped(twin.gap);
    TwinAhead(more);
    TwinAfter(twin.gap, TWIN + more);
    TwinStarts(Show(twin.gap) + (TWIN + more));
  }

  /** What is written for the twin when the action is stripped. */
  function StrippedTwin(action: string, twin: Option<Twin>): Option<Twin> {
    if twin.Some? then twin else Some(Twin([], [Space(' ')], Promote(action)))
  }

  lemma ActionMeets(before: string, action: string, twin: Option<Twin>, t: string, out: string, ok: bool)
    requires Balanced(action) && (twin.Some? ==> ValidTwin(twin.value))
    requires !NextIsTwin(t) && MeetsAnywhere(TwinText(twin, t), TwinText(twin, out), ok)
    ensures Meets(before, Braced(action, TwinText(twin, t)), TwinText(StrippedTwin(action, twin), out),
                  ok && KindOf(before) == Rule)
  {
    hide KindOf, Balanced, Meets, NextIsTwin, Promote, Quiet, Show;
    var after := TwinText(twin, t);
    assert Meets(before + ("{" + action + "}"), after, TwinText(twin, out), ok);
    if twin.Some? {
      TwinAnnounced(twin.value, t);
      TwinAnnounced(twin.value, out);
      ActionDeleted(before, action, after, TwinText(twin, out), ok);
    } else {
      ActionPromoted(before, action, after, out, ok);
      PromotedTwin(Promote(action), out);
    }
  }

  lemma PromotedTwin(rust: string, out: string)
    ensures TwinText(Some(Twin([], [Space(' ')], rust)), out) == (TWIN + " ") + Braced(rust, out)
  {
    assert Show([Space(' ')]) == " ";
    var u := (TWIN + " ") + Braced(rust, out);
    assert "" + u == u;
  }

  lemma ProductionMeets(item: Item, t: string, out: string, ok: bool)
    requires ValidItem(item) && item.Production? && MeetsAnywhere(t, out, ok) && !NextIsTwin(t)
    ensures MeetsAnywhere(ItemText(item, t), ItemText(StripItem(item), out), ok && ClearItem(item))
  {
    hide KindOf, Balanced, Meets, NextIsTwin, Promote, Quiet, Show, ClearTwin, ClearNotes, ClearOpening;
    hide Visible, Opening, ValidMarker, TwinText, ValidTwin;
    var text, lead, marker, twin := item.text, item.lead, item.marker, item.twin;
    var gap := Opening(text, lead, marker);
    NoBraceVisible(text);
    TwinMeets(twin, t, out, ok);
    var ok1 := ok && (twin.Some? ==> ClearTwin(twin.value));
    var ok2 := ok && ClearItem(item);
    forall before ensures Meets(before, ItemText(item, t), ItemText(StripItem(item), out), ok2) {
      if item.action.None? {
        OpeningMeets(before, text, lead, marker, TwinText(twin, t), TwinText(twin, out), ok1);
      } else {
        var action := item.action.value;
        OpeningKind(before, text, lead, marker);
        ActionMeets(before + gap, action, twin, t, out, ok1);
        OpeningMeets(before, text, lead, marker, Braced(action, TwinText(twin, t)),
                     TwinText(StrippedTwin(action, twin), out), ok1 && KindOf(before + gap) == Rule);
      }
    }
  }

  lemma NoBraceVisible(text: string)
    ensures text == "" || Visible(text) ==> '{' !in text
  {
  }

  lemma ItemMeets(item: Item, t: string, out: string, ok: bool)
    requires ValidItem(item) && MeetsAnywhere(t, out, ok) && !NextIsTwin(t)
    ensures MeetsAnywhere(ItemText(item, t), ItemText(StripItem(item), out), ok && ClearItem(item))
  {
    hide Meets, NextIsTwin, Quiet, Show;
    match item
    case Spacing(ts) =>
      var ok' := ok && ClearNotes(ts);
      forall before ensures Meets(before, ItemText(item, t), ItemText(item, out), ok') {
        TriviaMeets(before, ts, t, out, ok);
      }
    case Bare(text) =>
      forall before ensures Meets(before, ItemText(item, t), ItemText(item, out), ok) {
        GapMeets(before, text, t, out, ok);
      }
    case Declaration(_, _, _) => DeclarationMeets(item, t, out, ok);
    case Production(_, _, _, _, _) => ProductionMeets(item, t, out, ok);
  }

  lemma {:induction false} ItemsMeet(items: seq<Item>)
    requires Valid(items)
    ensures MeetsAnywhere(SourceOf(items), SourceOf(StripItems(items)), Clear(items))
    decreases |items|
  {
    hide Meets, ValidItem, ClearItem, NextIsTwin, StripItem, ItemText;
    if items == [] {
      NothingLeft();
    } else {
      var rest := items[1..];
      assert ValidItem(items[0]);
      ItemsMeet(rest);
      NoTwinAhead(rest);
      ItemMeets(items[0], SourceOf(rest), SourceOf(StripItems(rest)), Clear(rest));
      assert StripItems(items)[1..] == StripItems(rest);
      assert Clear(items) <==> Clear(rest) && ClearItem(items[0]);
    }
  }

  lemma NothingLeft()
    ensures MeetsAnywhere("", "", true)
  {
  }

  /** What stripping makes of an item: a C action goes away, in favour of its twin or of a translation as the Rust
      action; nothing else changes. */
  ghost predicate StrippedAs(item: Item, stripped: Item) {
    if !item.Production? || item.action.None? then stripped == item
    else
      && stripped.Production? && stripped == item.(action := None, twin := stripped.twin)
      && if item.twin.Some? then stripped.twin == item.twin
         else
           && stripped.twin.Some? && stripped.twin.value.gap == [] && stripped.twin.value.lead == [Space(' ')]
           && Translation.IsTranslation(item.action.value, stripped.twin.value.body)
  }

  lemma StripItemExactly(item: Item, stripped: Item)
    ensures StrippedAs(item, stripped) <==> stripped == StripItem(item)
  {
    hide Promote, Translation.IsTranslation;
    if item.Production? && item.action.Some? && item.twin.None? {
      Translation.PromoteExactly(item.action.value, Promote(item.action.value));
      if stripped.Production? && stripped.twin.Some? {
        Translation.PromoteExactly(item.action.value, stripped.twin.value.body);
      }
    }
  }

  /** The script reads every grammar of directives and productions, and its output is that grammar with the C actions
      stripped exactly when no comment before a brace changes what the brace opens. */
  lemma StripsExactly(items: seq<Item>)
    requires Valid(items)
    ensures Stripped("", SourceOf(items)).Some?
    ensures Stripped("", SourceOf(items)) == Some(SourceOf(StripItems(items))) <==> Clear(items)
    ensures forall i :: 0 <= i < |items| ==> StrippedAs(items[i], StripItems(items)[i])
  {
    hide Stripped, Valid, Clear, StrippedAs, StripItem;
    forall i | 0 <= i < |items| ensures StrippedAs(items[i], StripItems(items)[i]) {
      StripItemExactly(items[i], StripItems(items)[i]);
    }
    ItemsMeet(items);
    assert Meets("", SourceOf(items), SourceOf(StripItems(items)), Clear(items));
  }

  // ---------- a second run ----------

  /** An action that becomes a Rust action is balanced with its discards on one line. */
  ghost predicate JoinableItem(item: Item) {
    item.Production? && item.action.Some? && item.twin.None? ==> Joinable(item.action.value)
  }

  lemma StrippedItem(item: Item)
    requires ValidItem(item) && ClearItem(item) && JoinableItem(item)
    ensures ValidItem(StripItem(item)) && ClearItem(StripItem(item)) && StripItem(StripItem(item)) == StripItem(item)
  {
    hide Balanced, Joinable, Promote;
    if item.Production? && item.action.Some? && item.twin.None? {
      PromoteBalancedExactly(item.action.value);
      assert LastNote([Space(' ')]).None?;
    }
  }

  /** The script is idempotent on grammars of directives and productions. */
  lemma SecondRunOnItems(items: seq<Item>)
    requires Valid(items) && Clear(items) && forall item :: item in items ==> JoinableItem(item)
    ensures var once := SourceOf(StripItems(items));
      Stripped("", SourceOf(items)) == Some(once) && Stripped("", once) == Some(once)
  {
    hide Stripped, ValidItem, ClearItem, JoinableItem, StripItem, SourceOf;
    var done := StripItems(items);
    forall i | 0 <= i < |items|
      ensures ValidItem(done[i]) && ClearItem(done[i]) && StripItem(done[i]) == done[i] {
      StrippedItem(items[i]);
    }
    assert StripItems(done) == done;
    StripsExactly(items);
    StripsExactly(done);
  }
}
