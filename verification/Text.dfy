/** Searching in strings. */
module Text {
  import opened Options

  predicate StartsWith(t: string, pat: string) {
    |pat| <= |t| && t[..|pat|] == pat
  }

  predicate EndsWith(t: string, pat: string) {
    |pat| <= |t| && t[|t| - |pat|..] == pat
  }

  /** The first position at which `pat` occurs. */
  function Find(t: string, pat: string): Option<nat>
    decreases |t|
  {
    if StartsWith(t, pat) then Some(0)
    else if t == "" then None
    else Shift(Find(t[1..], pat), 1)
  }

  function Shift(o: Option<nat>, n: nat): Option<nat> {
    match o
    case None => None
    case Some(k) => Some(k + n)
  }

  lemma {:induction false} FindBounds(t: string, pat: string)
    ensures Find(t, pat).Some? ==>
      var k := Find(t, pat).value; k + |pat| <= |t| && t[k..k + |pat|] == pat
    decreases |t|
  {
    if StartsWith(t, pat) || t == "" {
    } else {
      FindBounds(t[1..], pat);
      if Find(t[1..], pat).Some? {
        var k := Find(t[1..], pat).value;
        assert t[1..][k..k + |pat|] == t[k + 1..k + 1 + |pat|];
      }
    }
  }

  /** A search finds `pat` at the end of `text`, when it does not occur earlier. */
  lemma {:induction false} FindAfter(text: string, pat: string, rest: string)
    requires pat != ""
    requires forall k :: 0 <= k < |text| ==> !StartsWith(text[k..] + pat, pat)
    ensures Find(text + pat + rest, pat) == Some(|text|)
    decreases |text|
  {
    var t := text + pat + rest;
    if text == "" {
      assert t[..|pat|] == pat;
    } else {
      assert !StartsWith(text[0..] + pat, pat);
      assert text[0..] == text;
      assert (text + pat)[..|pat|] == t[..|pat|];
      assert t[1..] == text[1..] + pat + rest;
      forall k | 0 <= k < |text[1..]| ensures !StartsWith(text[1..][k..] + pat, pat) {
        assert text[1..][k..] == text[k + 1..];
      }
      FindAfter(text[1..], pat, rest);
    }
  }

  lemma {:induction false} FindIsFirst(t: string, pat: string)
    ensures Find(t, pat).Some? ==>
      var e := Find(t, pat).value;
      e + |pat| <= |t| && forall k :: 0 <= k < e ==> !StartsWith(t[..e][k..] + pat, pat)
    decreases |t|
  {
    FindBounds(t, pat);
    if Find(t, pat).Some? && Find(t, pat).value > 0 {
      var e := Find(t, pat).value;
      FindIsFirst(t[1..], pat);
      forall k | 0 <= k < e ensures !StartsWith(t[..e][k..] + pat, pat) {
        if k == 0 {
          assert t[..e][0..] + pat == t[..e + |pat|];
          assert t[..e + |pat|][..|pat|] == t[..|pat|];
        } else {
          assert t[1..][..e - 1][k - 1..] == t[..e][k..];
        }
      }
    }
  }

  lemma ConcatAssoc(a: string, b: string, c: string)
    ensures (a + b) + c == a + (b + c)
  {
  }

  lemma TakeAppend(a: string, b: string, k: nat)
    requires k <= |b|
    ensures (a + b)[..|a| + k] == a + b[..k]
  {
  }

  lemma DropDrop(t: string, i: nat, k: nat)
    requires i + k <= |t|
    ensures t[i..][k..] == t[i + k..]
  {
  }

  method FindFrom(t: string, pat: string, start: nat) returns (r: Option<nat>)
    requires start <= |t|
    ensures r == Shift(Find(t[start..], pat), start)
  {
    var i := start;
    while i < |t| && !StartsWith(t[i..], pat)
      invariant start <= i <= |t|
      invariant Shift(Find(t[i..], pat), i) == Shift(Find(t[start..], pat), start)
      decreases |t| - i
    {
      assert t[i..][1..] == t[i + 1..];
      i := i + 1;
    }
    r := if StartsWith(t[i..], pat) then Some(i) else None;
  }

  /** Every occurrence of `pat`, from left to right and without overlaps, replaced by `sub`. */
  function ReplaceAll(t: string, pat: string, sub: string): string
    requires pat != ""
    decreases |t|
  {
    if t == "" then ""
    else if StartsWith(t, pat) then sub + ReplaceAll(t[|pat|..], pat, sub)
    else [t[0]] + ReplaceAll(t[1..], pat, sub)
  }

  lemma ReplaceMatch(rest: string, pat: string, sub: string)
    requires pat != ""
    ensures ReplaceAll(pat + rest, pat, sub) == sub + ReplaceAll(rest, pat, sub)
  {
    assert (pat + rest)[..|pat|] == pat;
    assert (pat + rest)[|pat|..] == rest;
  }

  lemma ReplaceOther(c: char, rest: string, pat: string, sub: string)
    requires pat != "" && !StartsWith([c] + rest, pat)
    ensures ReplaceAll([c] + rest, pat, sub) == [c] + ReplaceAll(rest, pat, sub)
  {
    assert ([c] + rest)[1..] == rest;
  }

  lemma StartsAt(t: string, pat: string, i: nat)
    requires i < |pat|
    ensures StartsWith(t, pat) ==> i < |t| && t[i] == pat[i]
  {
    if StartsWith(t, pat) {
      assert t[..|pat|][i] == t[i];
    }
  }

  /** A character that does not occur is not found. */
  lemma {:induction false} FindNothing(t: string, c: char)
    requires c !in t
    ensures Find(t, [c]).None?
    decreases |t|
  {
    if t != "" {
      StartsAt(t, [c], 0);
      FindNothing(t[1..], c);
    }
  }

  /** Text without the first character of the pattern is copied. */
  lemma {:induction false} ReplaceCopies(s: string, rest: string, pat: string, sub: string)
    requires pat != "" && pat[0] !in s
    ensures ReplaceAll(s + rest, pat, sub) == s + ReplaceAll(rest, pat, sub)
    decreases |s|
  {
    hide ReplaceAll, StartsWith;
    if s == "" {
      assert s + rest == rest;
      assert s + ReplaceAll(rest, pat, sub) == ReplaceAll(rest, pat, sub);
    } else {
      assert s + rest == [s[0]] + (s[1..] + rest);
      StartsAt([s[0]] + (s[1..] + rest), pat, 0);
      ReplaceOther(s[0], s[1..] + rest, pat, sub);
      ReplaceCopies(s[1..], rest, pat, sub);
      assert [s[0]] + (s[1..] + ReplaceAll(rest, pat, sub)) == s + ReplaceAll(rest, pat, sub);
    }
  }
}
