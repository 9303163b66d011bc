/** What the translation of a C action is, read off the words and the statements of its text. */
module Translation {
  import opened Options
  import opened Text
  import opened BodyStripper

  /** First and last characters of what a word is made of. */
  const WORD_RANGES := [('a', 'z'), ('A', 'Z'), ('0', '9'), ('_', '_')]

  predicate InWord(c: char) {
    exists i :: 0 <= i < |WORD_RANGES| && WORD_RANGES[i].0 <= c <= WORD_RANGES[i].1
  }

  predicate AllWord(w: string) {
    forall i :: 0 <= i < |w| ==> InWord(w[i])
  }

  lemma WordCharacters(c: char)
    ensures IsWord(c) <==> InWord(c)
    ensures IsWord(c) ==> !IsRegexSpace(c) && c != ';' && c != '('
    ensures IsRegexSpace(c) ==> c != ';'
  {
    assert WORD_RANGES[0] == ('a', 'z') && WORD_RANGES[1] == ('A', 'Z');
    assert WORD_RANGES[2] == ('0', '9') && WORD_RANGES[3] == ('_', '_');
  }

  // ---------- words ----------

  /** A word is a longest run of word characters; every other character stands alone. */
  datatype Token = Run(word: string) | Sign(c: char)

  function Spelled(t: Token): string {
    if t.Run? then t.word else [t.c]
  }

  function Spell(ts: seq<Token>): string {
    if ts == [] then "" else Spelled(ts[0]) + Spell(ts[1..])
  }

  ghost predicate Tokens(ts: seq<Token>) {
    && (forall t :: t in ts ==> if t.Run? then t.word != "" && AllWord(t.word) else !InWord(t.c))
    && (forall i :: 0 <= i < |ts| - 1 && ts[i].Run? ==> ts[i + 1].Sign?)
  }

  /** The state has another name in Rust. */
  function Renamed(t: Token): string {
    if t == Run("pstate") then "ctx.user" else Spelled(t)
  }

  function SpellRenamed(ts: seq<Token>): string {
    if ts == [] then "" else Renamed(ts[0]) + SpellRenamed(ts[1..])
  }

  lemma TokensCons(t: Token, more: seq<Token>)
    requires Tokens(more) && (if t.Run? then t.word != "" && AllWord(t.word) else !InWord(t.c))
    requires t.Run? && more != [] ==> more[0].Sign?
    ensures Tokens([t] + more) && Spell([t] + more) == Spelled(t) + Spell(more)
  {
    hide InWord;
    var ts := [t] + more;
    assert ts[1..] == more;
    forall i | 0 <= i < |ts| - 1 && ts[i].Run? ensures ts[i + 1].Sign? {
      if i > 0 {
        assert ts[i] == more[i - 1] && ts[i + 1] == more[i];
      }
    }
  }

  lemma TokensTail(ts: seq<Token>)
    requires Tokens(ts) && ts != []
    ensures Tokens(ts[1..]) && Spell(ts) == Spelled(ts[0]) + Spell(ts[1..])
    ensures if ts[0].Run? then ts[0].word != "" && AllWord(ts[0].word) else !InWord(ts[0].c)
    ensures ts[0].Run? && ts[1..] != [] ==> ts[1..][0].Sign?
  {
    hide InWord;
    assert ts[0] in ts;
  }

  lemma {:induction false} ReadTokens(t: string) returns (ts: seq<Token>)
    ensures Tokens(ts) && Spell(ts) == t
    decreases |t|
  {
    hide Tokens, Spell, InWord;
    if t == "" {
      ts := [];
      NoTokens();
    } else {
      WordCharacters(t[0]);
      var more := ReadTokens(t[1..]);
      if !IsWord(t[0]) {
        ts := [Sign(t[0])] + more;
        TokensCons(Sign(t[0]), more);
      } else if more == [] || more[0].Sign? {
        ts := [Run([t[0]])] + more;
        TokensCons(Run([t[0]]), more);
      } else {
        TokensTail(more);
        ts := [Run([t[0]] + more[0].word)] + more[1..];
        TokensCons(ts[0], more[1..]);
        ConcatAssoc([t[0]], more[0].word, Spell(more[1..]));
      }
      assert t == [t[0]] + t[1..];
    }
  }

  lemma NoTokens()
    ensures Tokens([]) && Spell([]) == ""
  {
  }

  lemma StateNext(t: string, afterWord: bool)
    requires t == "" || !IsWord(t[0])
    ensures RenameState(t, afterWord) == if t == "" then "" else [t[0]] + RenameState(t[1..], false)
  {
    StartsAt(t, "pstate", 0);
  }

  lemma {:induction false} InsideWord(w: string, rest: string)
    requires AllWord(w) && (rest == "" || !IsWord(rest[0]))
    ensures RenameState(w + rest, true) == w + RenameState(rest, false)
    decreases |w|
  {
    hide RenameState, InWord;
    if w == "" {
      assert w + rest == rest;
      StateNext(rest, true);
      StateNext(rest, false);
    } else {
      WordCharacters(w[0]);
      assert (w + rest)[1..] == w[1..] + rest;
      InsideWord(w[1..], rest);
      NextInWord(w + rest);
      assert [w[0]] + (w[1..] + RenameState(rest, false)) == w + RenameState(rest, false);
    }
  }

  lemma NextInWord(t: string)
    requires t != "" && IsWord(t[0])
    ensures RenameState(t, true) == [t[0]] + RenameState(t[1..], true)
  {
  }

  lemma FirstOfWord(t: string)
    requires t != "" && IsWord(t[0]) && !(StartsWith(t, "pstate") && (|t| == 6 || !IsWord(t[6])))
    ensures RenameState(t, false) == [t[0]] + RenameState(t[1..], true)
  {
  }

  lemma StateFound(t: string)
    requires StartsWith(t, "pstate") && (|t| == 6 || !IsWord(t[6]))
    ensures RenameState(t, false) == "ctx.user" + RenameState(t[6..], true)
  {
  }

  lemma OtherWord(w: string, rest: string)
    requires AllWord(w) && (rest == "" || !IsWord(rest[0])) && w != "pstate"
    ensures !(StartsWith(w + rest, "pstate") && (|w + rest| == 6 || !IsWord((w + rest)[6])))
  {
    hide InWord;
    var t := w + rest;
    if |w| < 6 {
      StartsAt(t, "pstate", |w|);
      StateIsWord(|w|);
    } else {
      PrefixOfFirst(w, rest, "pstate");
      assert |w| == 6 ==> w[..6] == w;
      if |w| > 6 {
        WordCharacters(w[6]);
      }
    }
  }

  lemma PrefixOfFirst(a: string, b: string, pat: string)
    requires |pat| <= |a|
    ensures StartsWith(a + b, pat) ==> a[..|pat|] == pat
  {
    assert (a + b)[..|pat|] == a[..|pat|];
  }

  lemma StateIsWord(i: nat)
    requires i < 6
    ensures IsWord("pstate"[i])
  {
  }

  lemma RenameWord(w: string, rest: string)
    requires w != "" && AllWord(w) && (rest == "" || !IsWord(rest[0]))
    ensures RenameState(w + rest, false) == Renamed(Run(w)) + RenameState(rest, false)
  {
    hide RenameState, InWord;
    var t := w + rest;
    if w == "pstate" {
      assert t[..6] == "pstate" && t[6..] == rest;
      StateFound(t);
      StateNext(rest, true);
      StateNext(rest, false);
    } else {
      OtherWord(w, rest);
      WordCharacters(w[0]);
      FirstOfWord(t);
      assert t[1..] == w[1..] + rest;
      InsideWord(w[1..], rest);
      assert [w[0]] + (w[1..] + RenameState(rest, false)) == w + RenameState(rest, false);
    }
  }

  lemma SpellStart(ts: seq<Token>)
    requires Tokens(ts) && ts != []
    ensures Spell(ts) != "" && Spell(ts)[0] == if ts[0].Run? then ts[0].word[0] else ts[0].c
  {
    assert ts[0] in ts;
  }

  lemma {:induction false} RenameTokens(ts: seq<Token>)
    requires Tokens(ts)
    ensures RenameState(Spell(ts), false) == SpellRenamed(ts)
    decreases |ts|
  {
    hide RenameState;
    if ts == [] {
      StateNext("", false);
    } else {
      var rest := ts[1..];
      assert ts[0] in ts;
      RenameTokens(rest);
      if rest != [] {
        SpellStart(rest);
        WordCharacters(Spell(rest)[0]);
        assert rest[0] in ts && rest[0] == ts[1];
      }
      if ts[0].Run? {
        RenameWord(ts[0].word, Spell(rest));
      } else {
        WordCharacters(ts[0].c);
        StateNext(Spell(ts), false);
        assert Spell(ts)[1..] == Spell(rest);
      }
    }
  }

  // ---------- discards ----------

  /** `(void) word ;` with any white space in it, or a character that starts no such statement. */
  datatype Segment = Copied(c: char) | Discarded(before: string, word: string, after: string)

  function Written(s: Segment): string {
    match s
    case Copied(c) => [c]
    case Discarded(before, word, after) => "(void)" + (before + (word + (after + ";")))
  }

  function Write(ss: seq<Segment>): string {
    if ss == [] then "" else Written(ss[0]) + Write(ss[1..])
  }

  predicate AllSpace(t: string) {
    forall i :: 0 <= i < |t| ==> IsRegexSpace(t[i])
  }

  predicate IsDiscard(s: Segment) {
    s.Discarded? && AllSpace(s.before) && s.word != "" && AllWord(s.word) && AllSpace(s.after)
  }

  ghost predicate StartsDiscard(t: string) {
    exists s :: IsDiscard(s) && StartsWith(t, Written(s))
  }

  /** Discards are taken from left to right, and nothing else is. */
  ghost predicate Segments(ss: seq<Segment>) {
    ss == []
    || ((if ss[0].Copied? then !StartsDiscard(Write(ss)) else IsDiscard(ss[0])) && Segments(ss[1..]))
  }

  /** A discarded value is bound to nothing in Rust. */
  function Bound(s: Segment): string {
    if s.Copied? then [s.c] else "let _ = " + s.word + ";"
  }

  function WriteBound(ss: seq<Segment>): string {
    if ss == [] then "" else Bound(ss[0]) + WriteBound(ss[1..])
  }

  lemma {:induction false} SpacesThen(a: string, rest: string)
    requires AllSpace(a) && (rest == "" || !IsRegexSpace(rest[0]))
    ensures SpaceRun(a + rest) == |a|
    decreases |a|
  {
    if a == "" {
      assert a + rest == rest;
    } else {
      assert (a + rest)[1..] == a[1..] + rest;
      SpacesThen(a[1..], rest);
    }
  }

  lemma {:induction false} WordThen(w: string, rest: string)
    requires AllWord(w) && (rest == "" || !IsWord(rest[0]))
    ensures WordRun(w + rest) == |w|
    decreases |w|
  {
    if w == "" {
      assert w + rest == rest;
    } else {
      WordCharacters(w[0]);
      assert (w + rest)[1..] == w[1..] + rest;
      WordThen(w[1..], rest);
    }
  }

  lemma DiscardParts(s: Segment, rest: string)
    requires s.Discarded?
    ensures var t, a, b := Written(s) + rest, 6 + |s.before|, 6 + |s.before| + |s.word|;
      var tail := s.after + (";" + rest);
      && t[..6] == "(void)" && t[6..] == s.before + (s.word + tail) && t[a..] == s.word + tail && t[b..] == tail
      && t[a..b] == s.word && |Written(s)| == b + |s.after| + 1 && t[b + |s.after|] == ';'
  {
  }

  lemma DiscardFound(s: Segment, rest: string)
    requires IsDiscard(s)
    ensures DiscardAt(Written(s) + rest) == Some(Discard(s.word, |Written(s)|))
  {
    hide SpaceRun, WordRun, Written;
    var tail := s.after + (";" + rest);
    DiscardParts(s, rest);
    WordCharacters(s.word[0]);
    WordCharacters(tail[0]);
    WordCharacters(';');
    assert (s.word + tail)[0] == s.word[0] && (";" + rest)[0] == ';';
    assert tail[0] == if s.after == "" then ';' else s.after[0];
    SpacesThen(s.before, s.word + tail);
    WordThen(s.word, tail);
    SpacesThen(s.after, ";" + rest);
  }

  lemma ReadDiscard(t: string) returns (s: Segment)
    requires DiscardAt(t).Some?
    ensures IsDiscard(s) && Written(s) == t[..DiscardAt(t).value.length] && s.word == DiscardAt(t).value.word
  {
    hide SpaceRun, WordRun, InWord;
    var a := 6 + SpaceRun(t[6..]);
    var b := a + WordRun(t[a..]);
    var c := b + SpaceRun(t[b..]);
    s := Discarded(t[6..a], t[a..b], t[b..c]);
    SpacesRead(t, 6);
    WordRead(t, a);
    SpacesRead(t, b);
    SliceParts(t, a, b, c);
  }

  lemma SpacesRead(t: string, from: nat)
    requires from <= |t|
    ensures AllSpace(t[from..from + SpaceRun(t[from..])])
  {
    var n := SpaceRun(t[from..]);
    var spaces := t[from..from + n];
    forall i | 0 <= i < n ensures IsRegexSpace(spaces[i]) {
      assert spaces[i] == t[from..][i];
    }
  }

  lemma WordRead(t: string, from: nat)
    requires from <= |t|
    ensures AllWord(t[from..from + WordRun(t[from..])])
  {
    var n := WordRun(t[from..]);
    var word := t[from..from + n];
    forall i | 0 <= i < n ensures InWord(word[i]) {
      assert word[i] == t[from..][i];
      WordCharacters(word[i]);
    }
  }

  lemma SliceParts(t: string, a: nat, b: nat, c: nat)
    requires 6 <= a <= b <= c < |t| && t[..6] == "(void)" && t[c] == ';'
    ensures t[..c + 1] == "(void)" + (t[6..a] + (t[a..b] + (t[b..c] + ";")))
  {
    assert t[c..c + 1] == ";";
    assert t[..c + 1] == t[..6] + (t[6..a] + (t[a..b] + (t[b..c] + t[c..c + 1])));
  }

  lemma DiscardExactly(t: string)
    ensures DiscardAt(t).Some? <==> StartsDiscard(t)
  {
    hide DiscardAt, Written;
    if DiscardAt(t).Some? {
      var s := ReadDiscard(t);
      assert StartsWith(t, Written(s));
    }
    if s :| IsDiscard(s) && StartsWith(t, Written(s)) {
      DiscardFound(s, t[|Written(s)|..]);
      assert t == Written(s) + t[|Written(s)|..];
    }
  }

  lemma BindStep(t: string)
    requires t != ""
    ensures BindDiscards(t)
         == var d := DiscardAt(t);
            if d.Some? then "let _ = " + d.value.word + ";" + BindDiscards(t[d.value.length..])
            else [t[0]] + BindDiscards(t[1..])
  {
  }

  lemma NothingBound()
    ensures BindDiscards("") == ""
  {
  }

  lemma {:induction false} BindSegments(ss: seq<Segment>)
    requires Segments(ss)
    ensures BindDiscards(Write(ss)) == WriteBound(ss)
    decreases |ss|
  {
    hide BindDiscards, DiscardAt;
    if ss == [] {
      NothingBound();
    } else {
      var t, rest := Write(ss), Write(ss[1..]);
      BindSegments(ss[1..]);
      DiscardExactly(t);
      BindStep(t);
      assert t[|Written(ss[0])|..] == rest;
      if ss[0].Discarded? {
        DiscardFound(ss[0], rest);
      }
    }
  }

  lemma SegmentsCons(s: Segment, more: seq<Segment>)
    requires Segments(more) && (if s.Copied? then !StartsDiscard(Written(s) + Write(more)) else IsDiscard(s))
    ensures Segments([s] + more) && Write([s] + more) == Written(s) + Write(more)
  {
    hide StartsDiscard, IsDiscard;
    assert ([s] + more)[1..] == more;
  }

  lemma {:induction false} ReadSegments(t: string) returns (ss: seq<Segment>)
    ensures Segments(ss) && Write(ss) == t
    decreases |t|
  {
    hide DiscardAt, StartsDiscard, IsDiscard, Segments, Write;
    if t == "" {
      ss := [];
      NoSegments();
    } else {
      DiscardExactly(t);
      if DiscardAt(t).Some? {
        var s := ReadDiscard(t);
        var n := DiscardAt(t).value.length;
        var more := ReadSegments(t[n..]);
        ss := [s] + more;
        assert t == t[..n] + t[n..];
        SegmentsCons(s, more);
      } else {
        var more := ReadSegments(t[1..]);
        ss := [Copied(t[0])] + more;
        assert t == [t[0]] + t[1..];
        SegmentsCons(Copied(t[0]), more);
      }
    }
  }

  lemma NoSegments()
    ensures Segments([]) && Write([]) == ""
  {
  }

  // ---------- the translation ----------

  /** Every word `pstate` renamed, and then every discard bound. */
  ghost predicate IsTranslation(body: string, rust: string) {
    exists ts, ss :: Tokens(ts) && Segments(ss) && IsReading(body, ts, ss) && rust == WriteBound(ss)
  }

  ghost predicate IsReading(body: string, ts: seq<Token>, ss: seq<Segment>) {
    Spell(ts) == body && Write(ss) == SpellRenamed(ts)
  }

  /** Every body has exactly one translation, and the script finds it. */
  lemma PromoteExactly(body: string, rust: string)
    ensures IsTranslation(body, rust) <==> rust == Promote(body)
  {
    hide RenameState, BindDiscards, Tokens, Segments;
    if ts, ss :| Tokens(ts) && Segments(ss) && IsReading(body, ts, ss) && rust == WriteBound(ss) {
      RenameTokens(ts);
      BindSegments(ss);
    }
    if rust == Promote(body) {
      var ts := ReadTokens(body);
      RenameTokens(ts);
      var ss := ReadSegments(SpellRenamed(ts));
      BindSegments(ss);
      assert IsReading(body, ts, ss);
    }
  }
}
