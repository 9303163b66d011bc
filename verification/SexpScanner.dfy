/** The build-time check of rewrite patterns, which reads the characters of an S-expression from left to right. */
module SexpScanner {
  import opened Options

  // ---------- the whitelist ----------

  /** `None` as arity stands for any number of children. */
  datatype Operator = Operator(name: string, arity: Option<nat>)

  predicate IsBlank(c: char) {
    c == ' ' || c == '\t' || c == '\n' || c == '\r'
  }

  /** A character that can be part of a name or a token of a pattern. */
  predicate TokenChar(c: char) {
    !IsBlank(c) && c != '(' && c != ')'
  }

  predicate IsToken(s: string) {
    s != "" && forall i :: 0 <= i < |s| ==> TokenChar(s[i])
  }

  /** The first entry of that name. */
  function LookupOperator(table: seq<Operator>, name: string): Option<Operator> {
    if table == [] then None
    else if table[0].name == name then Some(table[0])
    else LookupOperator(table[1..], name)
  }

  /** The operator found is the first of its name. */
  lemma {:induction false} LookupExactly(table: seq<Operator>, name: string, op: Operator)
    ensures LookupOperator(table, name) == Some(op) <==>
      exists i :: 0 <= i < |table| && table[i] == op && op.name == name
        && forall j :: 0 <= j < i ==> table[j].name != name
  {
    if table != [] {
      var rest := table[1..];
      LookupExactly(rest, name, op);
      assert forall i :: 0 < i < |table| ==> table[i] == rest[i - 1];
      assert forall i :: 0 <= i < |rest| ==> rest[i] == table[i + 1];
    }
  }

  /** What the check is configured with; the theorems hold for every whitelist and every test for numbers. Operator
      names and numbers are tokens, as in the source's table and in the syntax of floating-point literals. */
  datatype Config = Config(table: seq<Operator>, isNumber: string -> bool) {
    ghost predicate Valid() {
      (forall i :: 0 <= i < |table| ==> IsToken(table[i].name)) && (forall s :: isNumber(s) ==> IsToken(s))
    }
  }

  // ---------- the scanner ----------

  /** The number of children up to the parenthesis that closes the current node. */
  function CountFrom(t: string, depth: nat, inToken: bool): nat {
    if t == "" || (t[0] == ')' && depth == 0) then 0
    else if t[0] == '(' then (if depth == 0 && !inToken then 1 else 0) + CountFrom(t[1..], depth + 1, false)
    else if t[0] == ')' then CountFrom(t[1..], depth - 1, false)
    else if IsBlank(t[0]) then CountFrom(t[1..], depth, false)
    else if depth == 0 then (if inToken then 0 else 1) + CountFrom(t[1..], 0, true)
    else CountFrom(t[1..], depth, false)
  }

  method CountChildrenAt(chars: string, start: nat) returns (count: nat)
    requires start <= |chars|
    ensures count == CountFrom(chars[start..], 0, false)
  {
    count := 0;
    var i, depth: nat, inToken := start, 0, false;
    while i < |chars|
      invariant start <= i <= |chars|
      invariant count + CountFrom(chars[i..], depth, inToken) == CountFrom(chars[start..], 0, false)
    {
      assert chars[i..][1..] == chars[i + 1..];
      var c := chars[i];
      if c == ')' && depth == 0 {
        break;
      } else if c == '(' {
        if depth == 0 && !inToken {
          count := count + 1;
        }
        depth := depth + 1;
        inToken := false;
      } else if c == ')' {
        depth := depth - 1;
        inToken := false;
      } else if IsBlank(c) {
        inToken := false;
      } else if depth == 0 && !inToken {
        count := count + 1;
        inToken := true;
      } else if depth != 0 {
        inToken := false;
      }
      i := i + 1;
    }
  }

  function LeadingSpaces(t: string): (n: nat)
    ensures n <= |t|
  {
    if t == "" || t[0] != ' ' then 0 else 1 + LeadingSpaces(t[1..])
  }

  /** A name ends at a space or a closing parenthesis, and at nothing else. */
  function NameLength(t: string): (n: nat)
    ensures n <= |t|
  {
    if t == "" || t[0] == ' ' || t[0] == ')' then 0 else 1 + NameLength(t[1..])
  }

  /** Whether a name followed by `rest` is rejected. */
  predicate Rejects(config: Config, name: string, rest: string) {
    name != "" &&
    (name[0] == '?' ||
     (!config.isNumber(name) &&
      var op := LookupOperator(config.table, name);
      op.None? || (op.value.arity.Some? && op.value.arity.value != CountFrom(rest, 0, false))))
  }

  predicate Invalid(config: Config, t: string)
    decreases |t|
  {
    if t == "" then false
    else if t[0] != '(' then Invalid(config, t[1..])
    else
      var u := t[1..][LeadingSpaces(t[1..])..];
      var rest := u[NameLength(u)..];
      Rejects(config, u[..NameLength(u)], rest) || Invalid(config, rest)
  }

  method CheckSexpInvalid(config: Config, sexp: string) returns (invalid: bool)
    ensures invalid == Invalid(config, sexp)
  {
    hide Invalid, CountFrom, LookupOperator;
    var i, n := 0, |sexp|;
    assert sexp[0..] == sexp;
    while i < n
      invariant 0 <= i <= n
      invariant Invalid(config, sexp[i..]) == Invalid(config, sexp)
      decreases n - i
    {
      InvalidStep(config, sexp, i);
      if sexp[i] == '(' {
        var start := SkipSpaces(sexp, i + 1);
        i := SkipName(sexp, start);
        if start < i {
          var name := sexp[start..i];
          if name[0] == '?' {
            return true;
          }
          if config.isNumber(name) || name == "" {
            continue;
          }
          var op := LookupOperator(config.table, name);
          if op.None? {
            return true;
          }
          if op.value.arity.Some? {
            var count := CountChildrenAt(sexp, i);
            if count != op.value.arity.value {
              return true;
            }
          }
        }
      } else {
        i := i + 1;
      }
    }
    NothingInvalid(config, sexp[i..]);
    invalid := false;
  }

  method SkipSpaces(t: string, from: nat) returns (i: nat)
    requires from <= |t|
    ensures i == from + LeadingSpaces(t[from..])
  {
    i := from;
    while i < |t| && t[i] == ' '
      invariant from <= i <= |t|
      invariant i + LeadingSpaces(t[i..]) == from + LeadingSpaces(t[from..])
    {
      assert t[i..][1..] == t[i + 1..];
      i := i + 1;
    }
  }

  method SkipName(t: string, from: nat) returns (i: nat)
    requires from <= |t|
    ensures i == from + NameLength(t[from..])
  {
    i := from;
    while i < |t| && t[i] != ' ' && t[i] != ')'
      invariant from <= i <= |t|
      invariant i + NameLength(t[i..]) == from + NameLength(t[from..])
    {
      assert t[i..][1..] == t[i + 1..];
      i := i + 1;
    }
  }

  lemma NothingInvalid(config: Config, t: string)
    requires t == ""
    ensures !Invalid(config, t)
  {
  }

  /** One step of the scanner, with positions for suffixes. */
  lemma InvalidStep(config: Config, t: string, i: nat)
    requires i < |t|
    ensures t[i] != '(' ==> Invalid(config, t[i..]) == Invalid(config, t[i + 1..])
    ensures t[i] == '(' ==>
      var a := i + 1 + LeadingSpaces(t[i + 1..]);
      a <= |t| &&
      var b := a + NameLength(t[a..]);
      b <= |t| && Invalid(config, t[i..]) == (Rejects(config, t[a..b], t[b..]) || Invalid(config, t[b..]))
  {
    hide Rejects, LeadingSpaces, NameLength;
    assert t[i..][1..] == t[i + 1..];
    if t[i] == '(' {
      var a := i + 1 + LeadingSpaces(t[i + 1..]);
      assert t[i + 1..][LeadingSpaces(t[i + 1..])..] == t[a..];
      var n := NameLength(t[a..]);
      assert t[a..][..n] == t[a..a + n] && t[a..][n..] == t[a + n..];
    }
  }

  // ---------- terms and their layouts ----------

  /** A term with the layout it is written in: `lead` before a head, `sep` before a child, `trail` before `)`. */
  datatype Term = Atom(token: string) | Node(lead: string, head: string, kids: Kids, trail: string)
  datatype Kids = NoKids | Kid(sep: string, term: Term, rest: Kids)

  function Print(t: Term): string {
    match t
    case Atom(token) => token
    case Node(lead, head, kids, trail) => "(" + (lead + (head + (PrintKids(kids) + (trail + ")"))))
  }

  function PrintKids(kids: Kids): string {
    match kids
    case NoKids => ""
    case Kid(sep, term, rest) => sep + (Print(term) + PrintKids(rest))
  }

  predicate AllBlank(s: string) {
    forall i :: 0 <= i < |s| ==> IsBlank(s[i])
  }

  predicate AllSpaces(s: string) {
    forall i :: 0 <= i < |s| ==> s[i] == ' '
  }

  /** The layout can be read back: blanks where blanks belong, and blanks wherever two tokens would run together. */
  predicate WellFormed(t: Term) {
    match t
    case Atom(token) => IsToken(token)
    case Node(lead, head, kids, trail) =>
      AllSpaces(lead) && IsToken(head) && AllBlank(trail) && WellFormedKids(kids, true)
  }

  predicate WellFormedKids(kids: Kids, afterToken: bool) {
    kids.NoKids?
    || (AllBlank(kids.sep) && (kids.sep == "" && afterToken ==> kids.term.Node?) && WellFormed(kids.term)
        && WellFormedKids(kids.rest, kids.term.Atom?))
  }

  function KidCount(kids: Kids): nat {
    if kids.NoKids? then 0 else 1 + KidCount(kids.rest)
  }

  /** The children that the scanner sees: it misses a parenthesis that directly follows a token. */
  function SeenKids(kids: Kids, afterToken: bool): nat {
    if kids.NoKids? then 0
    else (if kids.sep == "" && afterToken then 0 else 1) + SeenKids(kids.rest, kids.term.Atom?)
  }

  /** What comes right after a head: a space or a parenthesis, unless the term is laid out otherwise. */
  predicate HeadEnds(t: Term)
    requires t.Node?
  {
    var after := PrintKids(t.kids) + (t.trail + ")");
    after[0] == ' ' || after[0] == ')'
  }

  /** Whether the scanner faults the node itself. */
  predicate NodeFaulted(config: Config, t: Term)
    requires t.Node? && t.head != ""
  {
    || !HeadEnds(t)
    || t.head[0] == '?'
    || (!config.isNumber(t.head) &&
        var op := LookupOperator(config.table, t.head);
        op.None? || (op.value.arity.Some? && op.value.arity.value != SeenKids(t.kids, false)))
  }

  predicate Faulted(config: Config, t: Term)
    requires WellFormed(t)
  {
    t.Node? && (NodeFaulted(config, t) || KidsFaulted(config, t.kids, true))
  }

  predicate KidsFaulted(config: Config, kids: Kids, afterToken: bool)
    requires WellFormedKids(kids, afterToken)
  {
    kids.Kid? && (Faulted(config, kids.term) || KidsFaulted(config, kids.rest, kids.term.Atom?))
  }
}
