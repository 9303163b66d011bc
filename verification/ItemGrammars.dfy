/** The gaps and bodies that a list of items comes to, and what re-running the script does to them. */
module ItemGrammars {
  import opened Options
  import opened Text
  import opened BodyLexer
  import opened BodyStripper
  import opened GrammarStrip
  import opened Promotion
  import opened BraceKinds
  import opened GrammarItems

  function Append(a: Grammar, b: Grammar): Grammar {
    match a
    case End(text) => Prepend(text, b)
    case Block(gap, body, rest) => Block(gap, body, Append(rest, b))
  }

  function NoteGrammar(opening: string, words: Grammar, closing: string, g: Grammar): Grammar {
    Prepend(opening, Append(words, Prepend(closing, g)))
  }

  function TriviaGrammar(ts: seq<Trivia>, g: Grammar): Grammar {
    if ts == [] then g else
    var more := TriviaGrammar(ts[1..], g);
    match ts[0]
    case Space(c) => Prepend([c], more)
    case BlockNote(words) => NoteGrammar("/*", words, "*/", more)
    case LineNote(words) => NoteGrammar("//", words, "\n", more)
  }

  function TwinGrammar(twin: Option<Twin>, g: Grammar): Grammar {
    match twin
    case None => g
    case Some(t) => TriviaGrammar(t.gap, Prepend(TWIN, TriviaGrammar(t.lead, Block("", t.body, g))))
  }

  function MarkerGrammar(marker: Option<Marker>, g: Grammar): Grammar {
    match marker
    case None => g
    case Some(m) => Prepend("[" + m.token + "]", TriviaGrammar(m.trail, g))
  }

  function ItemGrammar(item: Item, g: Grammar): Grammar {
    match item
    case Spacing(ts) => TriviaGrammar(ts, g)
    case Bare(text) => Prepend(text, g)
    case Declaration(text, lead, body) => Prepend(text, TriviaGrammar(lead, Block("", body, g)))
    case Production(text, lead, marker, action, twin) =>
      var more := TwinGrammar(twin, g);
      var after := if action.None? then more else Block("", action.value, more);
      Prepend(text + ".", TriviaGrammar(lead, MarkerGrammar(marker, after)))
  }

  function GrammarOf(items: seq<Item>): Grammar {
    if items == [] then End("") else ItemGrammar(items[0], GrammarOf(items[1..]))
  }

  // ---------- it prints the source ----------

  lemma {:induction false} PrintAppend(a: Grammar, b: Grammar)
    ensures Print(Append(a, b)) == Print(a) + Print(b)
    decreases a
  {
    match a
    case End(text) => PrintPrepend(text, b);
    case Block(gap, body, rest) =>
      PrintAppend(rest, b);
      assert gap + ("{" + body + "}" + (Print(rest) + Print(b))) == Print(a) + Print(b);
  }

  lemma PrintNote(opening: string, words: Grammar, closing: string, g: Grammar)
    ensures Print(NoteGrammar(opening, words, closing, g)) == (opening + Print(words) + closing) + Print(g)
  {
    hide Append, Prepend;
    PrintPrepend(closing, g);
    PrintAppend(words, Prepend(closing, g));
    PrintPrepend(opening, Append(words, Prepend(closing, g)));
    assert opening + (Print(words) + (closing + Print(g))) == (opening + Print(words) + closing) + Print(g);
  }

  lemma {:induction false} PrintTrivia(ts: seq<Trivia>, g: Grammar)
    ensures Print(TriviaGrammar(ts, g)) == Show(ts) + Print(g)
    decreases |ts|
  {
    hide Print, Prepend, NoteGrammar;
    if ts == [] {
      assert Show(ts) + Print(g) == Print(g);
    } else {
      var more := TriviaGrammar(ts[1..], g);
      PrintTrivia(ts[1..], g);
      match ts[0] {
        case Space(c) => PrintPrepend([c], more);
        case BlockNote(words) => PrintNote("/*", words, "*/", more);
        case LineNote(words) => PrintNote("//", words, "\n", more);
      }
      ConcatAssoc(Written(ts[0]), Show(ts[1..]), Print(g));
    }
  }

  lemma PrintBraced(body: string, g: Grammar)
    ensures Print(Block("", body, g)) == Braced(body, Print(g))
  {
    assert "" + Braced(body, Print(g)) == Braced(body, Print(g));
  }

  lemma PrintTwin(twin: Option<Twin>, g: Grammar)
    ensures Print(TwinGrammar(twin, g)) == TwinText(twin, Print(g))
  {
    hide Print, Prepend, TriviaGrammar, Show;
    if twin.Some? {
      var t := twin.value;
      var braced := Block("", t.body, g);
      PrintBraced(t.body, g);
      PrintTrivia(t.lead, braced);
      PrintPrepend(TWIN, TriviaGrammar(t.lead, braced));
      PrintTrivia(t.gap, Prepend(TWIN, TriviaGrammar(t.lead, braced)));
      ConcatAssoc(TWIN, Show(t.lead), Braced(t.body, Print(g)));
    }
  }

  lemma PrintOpening(text: string, lead: seq<Trivia>, marker: Option<Marker>, g: Grammar)
    ensures Print(Prepend(text + ".", TriviaGrammar(lead, MarkerGrammar(marker, g))))
         == Opening(text, lead, marker) + Print(g)
  {
    hide Print, Prepend, TriviaGrammar, Show;
    var more := MarkerGrammar(marker, g);
    if marker.Some? {
      var m := marker.value;
      PrintTrivia(m.trail, g);
      PrintPrepend("[" + m.token + "]", TriviaGrammar(m.trail, g));
    }
    PrintTrivia(lead, more);
    PrintPrepend(text + ".", TriviaGrammar(lead, more));
    assert marker.None? ==> (text + ".") + (Show(lead) + Print(g)) == (text + "." + Show(lead) + "") + Print(g);
  }

  lemma PrintItem(item: Item, g: Grammar)
    ensures Print(ItemGrammar(item, g)) == ItemText(item, Print(g))
  {
    hide Print, Prepend, TriviaGrammar, TwinGrammar, MarkerGrammar, Opening, Show;
    match item
    case Spacing(ts) => PrintTrivia(ts, g);
    case Bare(text) => PrintPrepend(text, g);
    case Declaration(text, lead, body) =>
      var braced := Block("", body, g);
      PrintBraced(body, g);
      PrintTrivia(lead, braced);
      PrintPrepend(text, TriviaGrammar(lead, braced));
      ConcatAssoc(text, Show(lead), Braced(body, Print(g)));
    case Production(text, lead, marker, action, twin) =>
      var more := TwinGrammar(twin, g);
      PrintTwin(twin, g);
      if action.Some? {
        PrintBraced(action.value, more);
      }
      PrintOpening(text, lead, marker, if action.None? then more else Block("", action.value, more));
  }

  lemma {:induction false} PrintItems(items: seq<Item>)
    ensures Print(GrammarOf(items)) == SourceOf(items)
    decreases |items|
  {
    if items != [] {
      PrintItems(items[1..]);
      PrintItem(items[0], GrammarOf(items[1..]));
    }
  }

  // ---------- its bodies are balanced and its brackets closed in their own gaps ----------

  ghost predicate Local(g: Grammar) {
    Blocks(g) && LocalBrackets(g)
  }

  /** And text in front changes nothing about that. */
  ghost predicate Firm(g: Grammar) {
    Local(g) && (g.Block? ==> TrimEnd(g.gap) != "")
  }

  lemma PrependLocal(text: string, g: Grammar)
    requires '{' !in text && LocalBracket(text) && Local(g)
    ensures Local(Prepend(text, g))
  {
    hide Balanced, LocalBracket;
    if g.Block? {
      LocalAppend(text, g.gap);
    }
  }

  lemma PrependFirm(text: string, g: Grammar)
    requires '{' !in text && Firm(g)
    ensures Firm(Prepend(text, g))
  {
    hide Balanced, LocalBracket, TrimEnd;
    if g.Block? {
      LocalAppend(text, g.gap);
      TrimEndAppend(text, g.gap);
    }
  }

  lemma PrependVisible(text: string, g: Grammar)
    requires '{' !in text && LocalBracket(text) && TrimEnd(text) != "" && Local(g)
    ensures Firm(Prepend(text, g))
  {
    hide Balanced, LocalBracket, TrimEnd;
    PrependLocal(text, g);
    if g.Block? {
      if TrimEnd(g.gap) == "" {
        BlankBehind(text, g.gap);
      } else {
        TrimEndAppend(text, g.gap);
      }
    }
  }

  lemma {:induction false} AppendLocal(words: Grammar, g: Grammar)
    requires Local(words) && (Firm(g) || (Local(g) && LocalBracket(Tail(words))))
    ensures Local(Append(words, g))
    decreases words
  {
    hide Balanced, LocalBracket, TrimEnd;
    match words
    case End(text) =>
      if Firm(g) {
        PrependFirm(text, g);
      } else {
        PrependLocal(text, g);
      }
    case Block(_, _, rest) => AppendLocal(rest, g);
  }

  lemma EndsVisibly(t: string)
    requires t != "" && !IsSpace(t[|t| - 1]) && t[|t| - 1] != ']'
    ensures LocalBracket(t) && TrimEnd(t) == t
  {
    assert t[|t| - 1..] == [t[|t| - 1]];
  }

  lemma BlankIsLocal(t: string)
    requires TrimEnd(t) == ""
    ensures LocalBracket(t)
  {
  }

  lemma MarksAreLocal()
    ensures LocalBracket("") && LocalBracket("\n")
    ensures LocalBracket("//") && TrimEnd("//") == "//" && LocalBracket("/*") && TrimEnd("/*") == "/*"
    ensures LocalBracket("*/") && TrimEnd("*/") == "*/" && LocalBracket(TWIN) && TrimEnd(TWIN) == TWIN
  {
    hide LocalBracket, TrimEnd;
    NothingToTrim();
    BlankIsLocal("");
    SpaceIsLocal('\n');
    assert ['\n'] == "\n";
    EndsVisibly("//");
    EndsVisibly("/*");
    EndsVisibly("*/");
    EndsVisibly(TWIN);
  }

  lemma NothingToTrim()
    ensures TrimEnd("") == ""
  {
  }

  lemma NoteIsFirm(t: Trivia, g: Grammar)
    requires Quiet(t) && !t.Space? && Local(g)
    ensures t.BlockNote? ==> Firm(NoteGrammar("/*", t.words, "*/", g))
    ensures t.LineNote? ==> Firm(NoteGrammar("//", t.words, "\n", g))
  {
    hide Blocks, LocalBrackets, LocalBracket, Prepend, Append, TrimEnd;
    MarksAreLocal();
    if t.BlockNote? {
      PrependVisible("*/", g);
      AppendLocal(t.words, Prepend("*/", g));
      PrependVisible("/*", Append(t.words, Prepend("*/", g)));
    } else {
      PrependLocal("\n", g);
      AppendLocal(t.words, Prepend("\n", g));
      PrependVisible("//", Append(t.words, Prepend("\n", g)));
    }
  }

  lemma SpaceIsLocal(c: char)
    requires IsSpace(c)
    ensures LocalBracket([c])
  {
    assert [c][..0] == "";
    BlankIsLocal([c]);
  }

  lemma {:induction false} TriviaLocal(ts: seq<Trivia>, g: Grammar)
    requires AllQuiet(ts) && Local(g)
    ensures Local(TriviaGrammar(ts, g)) && (Firm(g) ==> Firm(TriviaGrammar(ts, g)))
    decreases |ts|
  {
    hide Blocks, LocalBrackets, LocalBracket, Prepend, NoteGrammar, TrimEnd;
    if ts != [] {
      var more := TriviaGrammar(ts[1..], g);
      assert Quiet(ts[0]);
      TriviaLocal(ts[1..], g);
      if ts[0].Space? {
        SpaceIsLocal(ts[0].c);
        PrependLocal([ts[0].c], more);
        if Firm(more) {
          PrependFirm([ts[0].c], more);
        }
      } else {
        NoteIsFirm(ts[0], more);
      }
    }
  }

  lemma BracedLocal(body: string, g: Grammar)
    requires Balanced(body) && Local(g)
    ensures Local(Block("", body, g))
  {
    hide Balanced;
    MarksAreLocal();
  }

  lemma MarkerLocal(marker: Option<Marker>, g: Grammar)
    requires Local(g) && (marker.Some? ==> ValidMarker(marker.value))
    ensures Local(MarkerGrammar(marker, g))
  {
    hide Blocks, LocalBrackets, LocalBracket, Prepend, TriviaGrammar, Quiet;
    if marker.Some? {
      var m := marker.value;
      TriviaLocal(m.trail, g);
      BracketIsLocal(m.token);
      PrependLocal("[" + m.token + "]", TriviaGrammar(m.trail, g));
    }
  }

  lemma BracketIsLocal(token: string)
    ensures LocalBracket("[" + token + "]")
  {
    var t := "[" + token + "]";
    assert TrimEnd(t) == t && t[..|t| - 1][0] == '[';
  }

  lemma TwinLocal(twin: Option<Twin>, g: Grammar)
    requires Local(g) && (twin.Some? ==> ValidTwin(twin.value))
    ensures Local(TwinGrammar(twin, g))
  {
    hide Blocks, LocalBrackets, LocalBracket, Prepend, TriviaGrammar, Quiet, Balanced, TrimEnd;
    if twin.Some? {
      var t := twin.value;
      BracedLocal(t.body, g);
      TriviaLocal(t.lead, Block("", t.body, g));
      MarksAreLocal();
      PrependLocal(TWIN, TriviaGrammar(t.lead, Block("", t.body, g)));
      TriviaLocal(t.gap, Prepend(TWIN, TriviaGrammar(t.lead, Block("", t.body, g))));
    }
  }

  lemma DotIsVisible(text: string)
    ensures LocalBracket(text + ".") && TrimEnd(text + ".") != ""
  {
    var t := text + ".";
    assert TrimEnd(t) == t && t[|t| - 1..] == ".";
  }

  lemma VisibleIsNotBlank(text: string)
    requires Visible(text)
    ensures TrimEnd(text) != "" && '{' !in text
  {
    TrimKeepsPrefix(text, 0);
  }

  lemma ItemFirm(item: Item, g: Grammar)
    requires ValidItem(item) && Firm(g)
    ensures Firm(ItemGrammar(item, g))
  {
    hide Blocks, LocalBrackets, LocalBracket, Prepend, TriviaGrammar, TwinGrammar, MarkerGrammar;
    hide Quiet, Balanced, TrimEnd, Visible, ValidMarker, ValidTwin, EndsRule;
    match item
    case Spacing(ts) => TriviaLocal(ts, g);
    case Bare(text) =>
      VisibleIsNotBlank(text);
      PrependFirm(text, g);
    case Declaration(text, lead, body) =>
      VisibleIsNotBlank(text);
      BracedLocal(body, g);
      TriviaLocal(lead, Block("", body, g));
      PrependVisible(text, TriviaGrammar(lead, Block("", body, g)));
    case Production(text, lead, marker, action, twin) =>
      var more := TwinGrammar(twin, g);
      var after := if action.None? then more else Block("", action.value, more);
      TwinLocal(twin, g);
      if action.Some? {
        BracedLocal(action.value, more);
      }
      MarkerLocal(marker, after);
      TriviaLocal(lead, MarkerGrammar(marker, after));
      DotIsVisible(text);
      NoBraceVisible(text);
      PrependVisible(text + ".", TriviaGrammar(lead, MarkerGrammar(marker, after)));
  }

  lemma {:induction false} ItemsFirm(items: seq<Item>)
    requires Valid(items)
    ensures Firm(GrammarOf(items))
    decreases |items|
  {
    hide ValidItem, ItemGrammar;
    if items != [] {
      assert ValidItem(items[0]);
      ItemsFirm(items[1..]);
      ItemFirm(items[0], GrammarOf(items[1..]));
    }
  }

  /** Whatever its comments make of the braces, the script is idempotent on every source of items whose translated
      bodies are balanced with their discards on one line. */
  lemma RerunOnItems(items: seq<Item>)
    requires Valid(items) && AllJoinable(GrammarOf(items))
    ensures var once := Stripped("", SourceOf(items)); once.Some? && Stripped("", once.value) == once
  {
    hide Stripped, Valid, AllJoinable;
    ItemsFirm(items);
    PrintItems(items);
    Idempotent(GrammarOf(items));
  }
}
