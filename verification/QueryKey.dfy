/** The key under which a query's plan is cached: its text with white space collapsed. */
module QueryKey {
  import opened Whitespace

  datatype Key = Key(sql: string, hardwareProfile: string, parameterTypes: seq<string>)

  // ---------- the loop ----------

  function Collapse(t: string, afterSpace: bool): string {
    if t == "" then ""
    else if IsWhitespace(t[0]) then (if afterSpace then "" else " ") + Collapse(t[1..], true)
    else [t[0]] + Collapse(t[1..], false)
  }

  function NormalizeSql(sql: string): string {
    Collapse(Trim(sql), false)
  }

  method Normalize(sql: string) returns (result: string)
    ensures result == NormalizeSql(sql)
  {
    hide Trim;
    var t := Trim(sql);
    result := "";
    var afterSpace := false;
    assert t[0..] == t;
    for i := 0 to |t|
      invariant result + Collapse(t[i..], afterSpace) == Collapse(t, false)
    {
      assert t[i..][1..] == t[i + 1..];
      var more := Collapse(t[i + 1..], IsWhitespace(t[i]));
      if IsWhitespace(t[i]) {
        if !afterSpace {
          assert result + (" " + more) == (result + " ") + more;
          result := result + " ";
        } else {
          assert "" + more == more;
        }
        afterSpace := true;
      } else {
        assert result + ([t[i]] + more) == (result + [t[i]]) + more;
        result := result + [t[i]];
        afterSpace := false;
      }
    }
    assert result + "" == result;
  }

  // ---------- words ----------

  function WordLength(s: string): (n: nat)
    ensures n <= |s|
    ensures s != "" && !IsWhitespace(s[0]) ==> n > 0
  {
    if s == "" || IsWhitespace(s[0]) then 0 else 1 + WordLength(s[1..])
  }

  /** The maximal runs of characters that are not white space. */
  function Words(s: string): seq<string>
    decreases |s|
  {
    if s == "" then []
    else if IsWhitespace(s[0]) then Words(s[1..])
    else [s[..WordLength(s)]] + Words(s[WordLength(s)..])
  }

  function Join(words: seq<string>): string {
    if words == [] then ""
    else if |words| == 1 then words[0]
    else words[0] + (" " + Join(words[1..]))
  }

  predicate IsWord(w: string) {
    w != "" && forall i :: 0 <= i < |w| ==> !IsWhitespace(w[i])
  }

  lemma {:induction false} WordRun(s: string)
    ensures forall i :: 0 <= i < WordLength(s) ==> !IsWhitespace(s[i])
    ensures WordLength(s) < |s| ==> IsWhitespace(s[WordLength(s)])
  {
    if s != "" && !IsWhitespace(s[0]) {
      WordRun(s[1..]);
    }
  }

  /** Words are what the name says: non-empty, and free of white space. */
  lemma {:induction false} WordsAreWords(s: string)
    ensures forall w :: w in Words(s) ==> IsWord(w)
    decreases |s|
  {
    if s != "" {
      if IsWhitespace(s[0]) {
        WordsAreWords(s[1..]);
      } else {
        WordRun(s);
        WordsAreWords(s[WordLength(s)..]);
      }
    }
  }

  lemma {:induction false} WordLengthThen(w: string, rest: string)
    requires forall i :: 0 <= i < |w| ==> !IsWhitespace(w[i])
    requires rest == "" || IsWhitespace(rest[0])
    ensures WordLength(w + rest) == |w|
    decreases |w|
  {
    if w == "" {
      assert w + rest == rest;
    } else {
      assert (w + rest)[1..] == w[1..] + rest;
      WordLengthThen(w[1..], rest);
    }
  }

  lemma WordsThen(w: string, rest: string)
    requires IsWord(w) && (rest == "" || IsWhitespace(rest[0]))
    ensures Words(w + rest) == [w] + Words(rest)
  {
    WordLengthThen(w, rest);
    assert (w + rest)[..|w|] == w && (w + rest)[|w|..] == rest;
  }

  /** Joining words with spaces and splitting the text again gives the words back. */
  lemma {:induction false} SplitOfJoin(words: seq<string>)
    requires forall w :: w in words ==> IsWord(w)
    ensures Words(Join(words)) == words
    decreases |words|
  {
    hide IsWord;
    if words == [] {
      WordsOfNothing("");
    } else if |words| == 1 {
      WordsThen(words[0], "");
      assert words[0] + "" == words[0];
      WordsOfNothing("");
      assert words == [words[0]] + [];
    } else {
      var more := Join(words[1..]);
      WordsThen(words[0], " " + more);
      WordsAfterSpace(' ', more);
      SplitOfJoin(words[1..]);
    }
  }

  lemma WordsOfNothing(s: string)
    requires s == ""
    ensures Words(s) == []
  {
  }

  lemma WordsAfterSpace(c: char, s: string)
    requires IsWhitespace(c)
    ensures Words([c] + s) == Words(s)
  {
    assert ([c] + s)[1..] == s;
  }

  // ---------- collapsing is joining the words ----------

  predicate Trimmed(t: string) {
    t != "" ==> !IsWhitespace(t[0]) && !IsWhitespace(t[|t| - 1])
  }

  lemma CollapseStep(c: char, t: string, afterSpace: bool)
    ensures Collapse([c] + t, afterSpace)
         == if IsWhitespace(c) then (if afterSpace then "" else " ") + Collapse(t, true) else [c] + Collapse(t, false)
  {
    assert ([c] + t)[1..] == t;
  }

  lemma {:induction false} CollapseWord(w: string, rest: string)
    requires forall i :: 0 <= i < |w| ==> !IsWhitespace(w[i])
    ensures Collapse(w + rest, false) == w + Collapse(rest, false)
    decreases |w|
  {
    hide Collapse;
    if w == "" {
      assert w + rest == rest && w + Collapse(rest, false) == Collapse(rest, false);
    } else {
      assert w + rest == [w[0]] + (w[1..] + rest);
      CollapseStep(w[0], w[1..] + rest, false);
      CollapseWord(w[1..], rest);
      assert [w[0]] + (w[1..] + Collapse(rest, false)) == w + Collapse(rest, false);
    }
  }

  /** After white space: what follows is collapsed behind the one space already written. */
  lemma {:induction false} CollapseTail(t: string)
    requires t != "" && !IsWhitespace(t[|t| - 1])
    ensures Words(t) != [] && Collapse(t, true) == Join(Words(t))
    decreases |t|, 1
  {
    hide Collapse, Words, Join;
    assert t == [t[0]] + t[1..];
    CollapseStep(t[0], t[1..], true);
    if IsWhitespace(t[0]) {
      assert t[1..] != "" && t[1..][|t[1..]| - 1] == t[|t| - 1];
      CollapseTail(t[1..]);
      WordsAfterSpace(t[0], t[1..]);
      assert "" + Collapse(t[1..], true) == Collapse(t[1..], true);
    } else {
      CollapseStep(t[0], t[1..], false);
      CollapseFromWord(t);
    }
  }

  lemma {:induction false} CollapseFromWord(t: string)
    requires t != "" && !IsWhitespace(t[0]) && !IsWhitespace(t[|t| - 1])
    ensures Words(t) != [] && Collapse(t, false) == Join(Words(t))
    decreases |t|, 0
  {
    hide Collapse, Words;
    var n := WordLength(t);
    WordRun(t);
    var w, rest := t[..n], t[n..];
    assert t == w + rest && IsWord(w);
    CollapseWord(w, rest);
    WordsThen(w, rest);
    if rest == "" {
      WordsOfNothing(rest);
      CollapseOfNothing(rest);
      assert w + "" == w;
      assert [w] + [] == [w];
    } else {
      var more := rest[1..];
      assert rest == [rest[0]] + more;
      assert more != "" && more[|more| - 1] == t[|t| - 1];
      CollapseStep(rest[0], more, false);
      CollapseTail(more);
      WordsAfterSpace(rest[0], more);
      assert ([w] + Words(more))[1..] == Words(more);
    }
  }

  lemma CollapseOfNothing(t: string)
    requires t == ""
    ensures Collapse(t, false) == ""
  {
  }

  lemma {:induction false} TrimmedStart(s: string)
    ensures var t := TrimStart(s); (t != "" ==> !IsWhitespace(t[0])) && Words(t) == Words(s)
  {
    if s != "" && IsWhitespace(s[0]) {
      TrimmedStart(s[1..]);
    }
  }

  lemma {:induction false} WordsBeforeSpace(s: string, c: char)
    requires IsWhitespace(c)
    ensures Words(s + [c]) == Words(s)
    decreases |s|
  {
    hide IsWhitespace;
    if s == "" {
      assert s + [c] == [c] + "";
      WordsAfterSpace(c, "");
    } else if IsWhitespace(s[0]) {
      assert s + [c] == [s[0]] + (s[1..] + [c]) && s == [s[0]] + s[1..];
      WordsAfterSpace(s[0], s[1..] + [c]);
      WordsAfterSpace(s[0], s[1..]);
      WordsBeforeSpace(s[1..], c);
    } else {
      var n := WordLength(s);
      WordRun(s);
      var w, rest := s[..n], s[n..];
      assert s == w + rest && s + [c] == w + (rest + [c]);
      WordsThen(w, rest);
      WordsThen(w, rest + [c]);
      WordsBeforeSpace(rest, c);
    }
  }

  lemma {:induction false} TrimmedEnd(s: string)
    ensures var t := TrimEnd(s);
      && t <= s && (t != "" ==> !IsWhitespace(t[|t| - 1])) && Words(t) == Words(s)
  {
    hide Words, IsWhitespace;
    if s != "" && IsWhitespace(s[|s| - 1]) {
      var n := |s| - 1;
      assert s == s[..n] + [s[n]];
      WordsBeforeSpace(s[..n], s[n]);
      TrimmedEnd(s[..n]);
    }
  }

  lemma TrimKeepsWords(s: string)
    ensures Trimmed(Trim(s)) && Words(Trim(s)) == Words(s)
  {
    hide Words, TrimStart, TrimEnd;
    TrimmedStart(s);
    TrimmedEnd(TrimStart(s));
  }

  /** The normalised text is the words of the query, joined by single spaces. */
  lemma NormalizedIsJoinedWords(sql: string)
    ensures NormalizeSql(sql) == Join(Words(sql))
  {
    hide Words, Trim, Collapse;
    TrimKeepsWords(sql);
    var t := Trim(sql);
    if t == "" {
      WordsOfNothing(t);
      CollapseOfNothing(t);
    } else {
      CollapseFromWord(t);
    }
  }

  lemma NormalizedWords(sql: string)
    ensures Words(NormalizeSql(sql)) == Words(sql)
  {
    hide Words, NormalizeSql;
    NormalizedIsJoinedWords(sql);
    WordsAreWords(sql);
    SplitOfJoin(Words(sql));
  }

  lemma NormalizeTwice(sql: string)
    ensures NormalizeSql(NormalizeSql(sql)) == NormalizeSql(sql)
  {
    hide Words, NormalizeSql;
    NormalizedWords(sql);
    NormalizedIsJoinedWords(sql);
    NormalizedIsJoinedWords(NormalizeSql(sql));
  }

  // ---------- keys ----------

  /** A key holds the words of its query, joined by single spaces, and what else the plan depends on. */
  method NewKey(sql: string, hardwareProfile: string, parameterTypes: seq<string>) returns (key: Key)
    ensures key == KeyOf(sql, hardwareProfile, parameterTypes)
    ensures key.sql == Join(Words(sql)) && Words(key.sql) == Words(sql)
  {
    hide Words, NormalizeSql, Join;
    var normalized := Normalize(sql);
    key := Key(normalized, hardwareProfile, parameterTypes);
    NormalizedIsJoinedWords(sql);
    NormalizedWords(sql);
  }

  function KeyOf(sql: string, hardwareProfile: string, parameterTypes: seq<string>): Key {
    Key(NormalizeSql(sql), hardwareProfile, parameterTypes)
  }

  /** Two queries share a key exactly when they consist of the same words and agree on profile and types. */
  lemma SameKeyExactly(a: string, b: string, profile: string, profile': string, types: seq<string>, types': seq<string>)
    ensures KeyOf(a, profile, types) == KeyOf(b, profile', types')
       <==> Words(a) == Words(b) && profile == profile' && types == types'
  {
    hide Words, NormalizeSql;
    NormalizedWords(a);
    NormalizedWords(b);
    NormalizedIsJoinedWords(a);
    NormalizedIsJoinedWords(b);
  }

  // ---------- letter case ----------

  function UpperChar(c: char): char {
    if 'a' <= c <= 'z' then (c as int - 'a' as int + 'A' as int) as char else c
  }

  function Upper(s: string): (r: string)
    ensures |r| == |s| && forall i :: 0 <= i < |s| ==> r[i] == UpperChar(s[i])
  {
    seq(|s|, i requires 0 <= i < |s| => UpperChar(s[i]))
  }

  /** The same white space at the same places. */
  ghost predicate SameSpaces(a: string, b: string) {
    |a| == |b| && forall i :: 0 <= i < |a| && (IsWhitespace(a[i]) || IsWhitespace(b[i])) ==> a[i] == b[i]
  }

  lemma SameSpacesFrom(a: string, b: string, n: nat)
    requires SameSpaces(a, b) && n <= |a|
    ensures SameSpaces(a[n..], b[n..])
  {
  }

  lemma {:induction false} SameWordLength(a: string, b: string)
    requires SameSpaces(a, b)
    ensures WordLength(a) == WordLength(b)
  {
    if a != "" && !IsWhitespace(a[0]) {
      SameSpacesFrom(a, b, 1);
      SameWordLength(a[1..], b[1..]);
    }
  }

  /** Texts with the same white space and the same words are the same. */
  lemma {:induction false} SpacesAndWords(a: string, b: string)
    requires SameSpaces(a, b) && Words(a) == Words(b)
    ensures a == b
    decreases |a|
  {
    hide IsWhitespace;
    if a != "" {
      var n := if IsWhitespace(a[0]) then 1 else WordLength(a);
      SameWordLength(a, b);
      FirstWord(a);
      FirstWord(b);
      SameSpacesFrom(a, b, n);
      SpacesAndWords(a[n..], b[n..]);
      assert a == a[..n] + a[n..] && b == b[..n] + b[n..];
    }
  }

  lemma FirstWord(s: string)
    requires s != ""
    ensures IsWhitespace(s[0]) ==> Words(s) == Words(s[1..])
    ensures !IsWhitespace(s[0]) ==>
      Words(s) != [] && Words(s)[0] == s[..WordLength(s)] && Words(s)[1..] == Words(s[WordLength(s)..])
  {
  }

  /** Queries that agree up to letter case share a key only when they are the same text. */
  lemma CaseIsKept(a: string, b: string, profile: string, types: seq<string>)
    requires Upper(a) == Upper(b)
    ensures KeyOf(a, profile, types) == KeyOf(b, profile, types) <==> a == b
  {
    hide Words, Upper;
    forall i | 0 <= i < |a| && (IsWhitespace(a[i]) || IsWhitespace(b[i])) ensures a[i] == b[i] {
      assert Upper(a)[i] == Upper(b)[i];
    }
    SameKeyExactly(a, b, profile, profile, types, types);
    if Words(a) == Words(b) {
      SpacesAndWords(a, b);
    }
  }

  lemma UpperTwice(s: string)
    ensures Upper(Upper(s)) == Upper(s)
  {
  }

  /** A query and its upper-cased form share a key exactly when the query has no lower-case letter. */
  lemma UpperCaseKey(s: string, profile: string, types: seq<string>)
    ensures KeyOf(s, profile, types) == KeyOf(Upper(s), profile, types)
       <==> forall i :: 0 <= i < |s| ==> !('a' <= s[i] <= 'z')
  {
    UpperTwice(s);
    CaseIsKept(s, Upper(s), profile, types);
    if s == Upper(s) {
      forall i | 0 <= i < |s| ensures !('a' <= s[i] <= 'z') {
        assert s[i] == Upper(s)[i] == UpperChar(s[i]);
      }
    }
  }
}
