/** entry.py: the regular-expression parser that turns `Rel(a,b)` strings
    into `Term` records, the structural equality of two records, and the
    table naming the rewrite rules of axioms.py.

    The pattern is `(\w+)\(([A-Za-z0-9]+)\,([A-Za-z0-9]+)\)`, found by an
    unanchored search. None of `(`, `,` and `)` is matched by the character
    classes next to it, so a match at a position consumes a maximal run of
    word characters, `(`, a maximal run of letters and digits, `,`, another
    maximal run and `)`; backtracking never finds a shorter alternative.
    The search returns the match at the leftmost position that has one. */
module Entry {
  import opened Wrappers
  import opened Text
  import opened Shared

  // ---------- the pattern ----------

  /** The length of the run of word characters `u` starts with. */
  function WordLen(u: string): (n: nat)
    ensures n <= |u|
  {
    if u != [] && IsWordChar(u[0]) then 1 + WordLen(u[1..]) else 0
  }

  /** The length of the run of letters and digits `u` starts with. */
  function AlnumLen(u: string): (n: nat)
    ensures n <= |u|
  {
    if u != [] && IsAlnum(u[0]) then 1 + AlnumLen(u[1..]) else 0
  }

  /** The run found is maximal: it holds only word characters and stops
      at the end or before another character. */
  lemma {:induction false} WordLenRun(u: string)
    ensures forall k :: 0 <= k < WordLen(u) ==> IsWordChar(u[k])
    ensures WordLen(u) == |u| || !IsWordChar(u[WordLen(u)])
  {
    if u != [] && IsWordChar(u[0]) {
      WordLenRun(u[1..]);
    }
  }

  lemma {:induction false} AlnumLenRun(u: string)
    ensures forall k :: 0 <= k < AlnumLen(u) ==> IsAlnum(u[k])
    ensures AlnumLen(u) == |u| || !IsAlnum(u[AlnumLen(u)])
  {
    if u != [] && IsAlnum(u[0]) {
      AlnumLenRun(u[1..]);
    }
  }

  /** A run of word characters followed by something else is found whole. */
  lemma {:induction false} WordLenOf(x: string, y: string)
    requires forall k :: 0 <= k < |x| ==> IsWordChar(x[k])
    requires y == [] || !IsWordChar(y[0])
    ensures WordLen(x + y) == |x|
  {
    if x == [] {
      assert x + y == y;
    } else {
      assert (x + y)[1..] == x[1..] + y;
      WordLenOf(x[1..], y);
    }
  }

  lemma {:induction false} AlnumLenOf(x: string, y: string)
    requires forall k :: 0 <= k < |x| ==> IsAlnum(x[k])
    requires y == [] || !IsAlnum(y[0])
    ensures AlnumLen(x + y) == |x|
  {
    if x == [] {
      assert x + y == y;
    } else {
      assert (x + y)[1..] == x[1..] + y;
      AlnumLenOf(x[1..], y);
    }
  }

  /** The match of the pattern at the start of `u`, if there is one: a word,
      `(`, then the operands. */
  function MatchStart(u: string): Option<Term>
  {
    var j := WordLen(u);
    if j == 0 || j == |u| || u[j] != '(' then None
    else MatchOperands(u[..j], u[j + 1..])
  }

  /** The rest of a match after `rel(`: an operand, `,`, then the second. */
  function MatchOperands(rel: string, v: string): Option<Term>
  {
    var a := AlnumLen(v);
    if a == 0 || a == |v| || v[a] != ',' then None
    else MatchSecond(rel, v[..a], v[a + 1..])
  }

  /** The rest of a match after `rel(lhs,`: an operand and `)`. */
  function MatchSecond(rel: string, lhs: string, w: string): Option<Term>
  {
    var b := AlnumLen(w);
    if b == 0 || b == |w| || w[b] != ')' then None
    else Some(Term(rel, lhs, w[..b]))
  }

  /** The match of the pattern starting exactly at position `i` of `s`. */
  function MatchAt(s: string, i: nat): Option<Term>
    requires i <= |s|
  {
    MatchStart(s[i..])
  }

  /** `re.search` from position `i` on. */
  function SearchFrom(s: string, i: nat): Option<Term>
    requires i <= |s|
    decreases |s| - i
  {
    if MatchAt(s, i).Some? then MatchAt(s, i)
    else if i == |s| then None
    else SearchFrom(s, i + 1)
  }

  function Search(s: string): Option<Term>
  {
    SearchFrom(s, 0)
  }

  /** A record the pattern can produce: a non-empty word as relation and
      two non-empty letter-and-digit operands. */
  predicate WellFormed(t: Term)
  {
    |t.rel| > 0 && |t.lhs| > 0 && |t.rhs| > 0
    && (forall k :: 0 <= k < |t.rel| ==> IsWordChar(t.rel[k]))
    && (forall k :: 0 <= k < |t.lhs| ==> IsAlnum(t.lhs[k]))
    && (forall k :: 0 <= k < |t.rhs| ==> IsAlnum(t.rhs[k]))
  }

  /** The text `rel(lhs,rhs)`. */
  function Format(t: Term): string
  {
    t.rel + "(" + t.lhs + "," + t.rhs + ")"
  }

  // ---------- _parse_goal, _parse_given, _eq ----------

  /** `_parse_goal(goal)`: when nothing matches, `a.group` is looked up on
      `None` and raises. */
  function ParseGoal(goal: string): Result<Term>
  {
    match Search(goal)
    case Some(t) => Ok(t)
    case None => Err(AttributeError("group"))
  }

  /** What `_parse_given(given)` returns: the parsed strings in order, or the
      failure of the first one that does not parse. */
  function GivenTerms(given: seq<string>): (r: Result<seq<Term>>)
    ensures r.Ok? ==> |r.value| == |given|
    ensures r.Ok? ==> forall k :: 0 <= k < |given| ==> ParseGoal(given[k]) == Ok(r.value[k])
    ensures r.Err? <==> exists k :: 0 <= k < |given| && ParseGoal(given[k]).Err?
  {
    if given == [] then Ok([])
    else
      var pre, last := given[..|given| - 1], given[|given| - 1];
      assert forall k :: 0 <= k < |pre| ==> pre[k] == given[k];
      match GivenTerms(pre)
      case Err(e) =>
        assert exists k :: 0 <= k < |pre| && ParseGoal(pre[k]).Err?;
        Err(e)
      case Ok(done) =>
        match ParseGoal(last)
        case Err(e) =>
          assert ParseGoal(given[|given| - 1]).Err?;
          Err(e)
        case Ok(t) => Ok(done + [t])
  }

  /** `_parse_given(given)`: the loop appending one record per string. */
  method ParseGiven(given: seq<string>) returns (r: Result<seq<Term>>)
    ensures r == GivenTerms(given)
  {
    var arr: seq<Term> := [];
    var i := 0;
    while i < |given|
      invariant 0 <= i <= |given|
      invariant GivenTerms(given[..i]) == Ok(arr)
    {
      assert given[..i + 1][..i] == given[..i];
      var a := ParseGoal(given[i]);
      if a.Err? {
        GivenPrefixFails(given, i + 1);
        return Err(a.error);
      }
      arr := arr + [a.value];
      i := i + 1;
    }
    assert given[..i] == given;
    r := Ok(arr);
  }

  /** Once a prefix fails, so does the whole list, with the same error. */
  lemma {:induction false} GivenPrefixFails(given: seq<string>, i: nat)
    requires i <= |given| && GivenTerms(given[..i]).Err?
    ensures GivenTerms(given) == Err(GivenTerms(given[..i]).error)
    decreases |given| - i
  {
    if i < |given| {
      var pre := given[..i + 1];
      assert pre[..i] == given[..i];
      GivenPrefixFails(given, i + 1);
    } else {
      assert given[..i] == given;
    }
  }

  /** `_eq(a, b)`. */
  function Eq(a: Term, b: Term): (r: bool)
    ensures r <==> a == b
  {
    if a.rel == b.rel then
      if a.lhs == b.lhs then
        a.rhs == b.rhs
      else false
    else false
  }

  // ---------- the axioms table ----------

  /** The rules of axioms.py, by function. */
  datatype Rule = TransitivityRule | LeToBigORule | GeToBigORule | GtToBigORule | LtToBigORule

  const AxiomTable: map<string, Rule> := map[
    "Transitivity" := TransitivityRule,
    "le_to_bigo" := LeToBigORule,
    "ge_to_bigo" := GeToBigORule,
    "gt_to_bigo" := GtToBigORule,
    "lt_to_bigo" := LtToBigORule
  ]

  /** The table names five rules, each under its own name. */
  lemma AxiomTableContents()
    ensures AxiomTable.Keys == {"Transitivity", "le_to_bigo", "ge_to_bigo", "gt_to_bigo", "lt_to_bigo"}
    ensures forall r: Rule :: r in AxiomTable.Values
    ensures |AxiomTable| == 5
  {
    var keys := {"Transitivity", "le_to_bigo", "ge_to_bigo", "gt_to_bigo", "lt_to_bigo"};
    assert AxiomTable.Keys == keys;
    assert "Transitivity" != "le_to_bigo";
    assert |keys| == 5;
    forall r: Rule ensures r in AxiomTable.Values {
      match r
      case TransitivityRule => assert AxiomTable["Transitivity"] == r;
      case LeToBigORule => assert AxiomTable["le_to_bigo"] == r;
      case GeToBigORule => assert AxiomTable["ge_to_bigo"] == r;
      case GtToBigORule => assert AxiomTable["gt_to_bigo"] == r;
      case LtToBigORule => assert AxiomTable["lt_to_bigo"] == r;
    }
  }

  // ---------- properties of the search ----------

  /** A match at the start of `u` is a well-formed record whose text `u`
      begins with. */
  lemma MatchStartSound(u: string)
    requires MatchStart(u).Some?
    ensures WellFormed(MatchStart(u).value)
    ensures u == Format(MatchStart(u).value) + u[|Format(MatchStart(u).value)|..]
  {
    var j := WordLen(u);
    WordLenRun(u);
    var rest := MatchOperandsSound(u[..j], u[j + 1..]);
    var t := MatchStart(u).value;
    assert u == u[..j] + ("(" + u[j + 1..]);
    FormatRight(t, rest);
    assert u == Format(t) + rest;
  }

  /** The operands: what follows them, and their text. */
  lemma MatchOperandsSound(rel: string, v: string) returns (rest: string)
    requires MatchOperands(rel, v).Some?
    ensures var t := MatchOperands(rel, v).value;
      t.rel == rel && |t.lhs| > 0 && |t.rhs| > 0
      && (forall k :: 0 <= k < |t.lhs| ==> IsAlnum(t.lhs[k]))
      && (forall k :: 0 <= k < |t.rhs| ==> IsAlnum(t.rhs[k]))
      && v == t.lhs + ("," + (t.rhs + (")" + rest)))
  {
    var a := AlnumLen(v);
    AlnumLenRun(v);
    var w := v[a + 1..];
    rest := MatchSecondSound(rel, v[..a], w);
    assert v == v[..a] + ("," + w);
  }

  lemma MatchSecondSound(rel: string, lhs: string, w: string) returns (rest: string)
    requires MatchSecond(rel, lhs, w).Some?
    ensures var t := MatchSecond(rel, lhs, w).value;
      t.rel == rel && t.lhs == lhs && |t.rhs| > 0
      && (forall k :: 0 <= k < |t.rhs| ==> IsAlnum(t.rhs[k]))
      && w == t.rhs + (")" + rest)
  {
    var b := AlnumLen(w);
    AlnumLenRun(w);
    rest := w[b + 1..];
    assert w == w[..b] + (")" + rest);
  }

  lemma FormatRight(t: Term, rest: string)
    ensures Format(t) + rest == t.rel + ("(" + (t.lhs + ("," + (t.rhs + (")" + rest)))))
  {
  }

  /** The search finds the leftmost match: `Search(s)` is the match at some
      position before which no position matches, and `None` exactly when no
      position matches. */
  lemma {:induction false} SearchFromLeftmost(s: string, i: nat)
    requires i <= |s|
    ensures SearchFrom(s, i).Some? ==>
      exists p :: i <= p <= |s| && MatchAt(s, p) == SearchFrom(s, i)
                  && forall q :: i <= q < p ==> MatchAt(s, q).None?
    ensures SearchFrom(s, i).None? <==> forall q :: i <= q <= |s| ==> MatchAt(s, q).None?
    decreases |s| - i
  {
    if SearchFrom(s, i).Some? {
      var p := SearchFromAt(s, i);
    }
    SearchFromNone(s, i);
  }

  /** The position where the search from `i` succeeds. */
  lemma {:induction false} SearchFromAt(s: string, i: nat) returns (p: nat)
    requires i <= |s| && SearchFrom(s, i).Some?
    ensures i <= p <= |s| && MatchAt(s, p) == SearchFrom(s, i)
    ensures forall q :: i <= q < p ==> MatchAt(s, q).None?
    decreases |s| - i
  {
    if MatchAt(s, i).Some? {
      p := i;
    } else {
      p := SearchFromAt(s, i + 1);
      assert forall q :: i + 1 <= q < p ==> MatchAt(s, q).None?;
    }
  }

  lemma {:induction false} SearchFromNone(s: string, i: nat)
    requires i <= |s|
    ensures SearchFrom(s, i).None? <==> forall q :: i <= q <= |s| ==> MatchAt(s, q).None?
    decreases |s| - i
  {
    if MatchAt(s, i).None? && i < |s| {
      SearchFromNone(s, i + 1);
    }
  }

  /** The goal parser finds the leftmost occurrence of the pattern. */
  lemma ParseGoalLeftmost(goal: string)
    ensures ParseGoal(goal).Ok? ==>
      exists p :: 0 <= p <= |goal| && MatchAt(goal, p) == Some(ParseGoal(goal).value)
                  && forall q :: 0 <= q < p ==> MatchAt(goal, q).None?
    ensures ParseGoal(goal).Err? <==> forall q :: 0 <= q <= |goal| ==> MatchAt(goal, q).None?
  {
    SearchFromLeftmost(goal, 0);
  }

  /** A match never starts in the middle of a word: a word character just
      before it would start a match too. So the relation of the leftmost
      match is the whole word before `(`. */
  lemma LeftmostAtWordStart(s: string, p: nat)
    requires 0 < p <= |s| && MatchAt(s, p).Some? && IsWordChar(s[p - 1])
    ensures MatchAt(s, p - 1).Some?
  {
    var u, x := s[p - 1..], s[p..];
    assert u[1..] == x;
    var j := WordLen(x);
    assert WordLen(u) == j + 1;
    assert u[j + 1] == x[j];
    assert u[j + 2..] == x[j + 1..];
    OperandsIgnoreRel(x[..j], u[..j + 1], x[j + 1..]);
  }

  /** Whether the operands match does not depend on the relation before. */
  lemma OperandsIgnoreRel(rel: string, rel': string, v: string)
    ensures MatchOperands(rel, v).Some? == MatchOperands(rel', v).Some?
  {
  }

  /** The text of a well-formed record matches at its start. */
  lemma MatchStartFormat(t: Term, rest: string)
    requires WellFormed(t)
    ensures MatchStart(Format(t) + rest) == Some(t)
  {
    var w := t.rhs + (")" + rest);
    var v := t.lhs + ("," + w);
    FormatRight(t, rest);
    WordLenOf(t.rel, "(" + v);
    var u := t.rel + ("(" + v);
    assert u[..|t.rel|] == t.rel && u[|t.rel| + 1..] == v;
    MatchOperandsFormat(t, rest);
  }

  lemma MatchOperandsFormat(t: Term, rest: string)
    requires WellFormed(t)
    ensures MatchOperands(t.rel, t.lhs + ("," + (t.rhs + (")" + rest)))) == Some(t)
  {
    var w := t.rhs + (")" + rest);
    var v := t.lhs + ("," + w);
    AlnumLenOf(t.lhs, "," + w);
    assert v[..|t.lhs|] == t.lhs && v[|t.lhs| + 1..] == w;
    AlnumLenOf(t.rhs, ")" + rest);
    assert w[..|t.rhs|] == t.rhs;
  }

  /** No match starts at a character outside the word class. */
  lemma NoMatchAtNonWord(s: string, i: nat)
    requires i < |s| && !IsWordChar(s[i])
    ensures MatchAt(s, i).None?
  {
    assert s[i..][0] == s[i];
    assert WordLen(s[i..]) == 0;
  }

  /** Printing a well-formed record after any text without word characters
      (such as the `?` of a goal) and parsing it back gives the record. */
  lemma {:induction false} ParseGoalFormat(pre: string, t: Term, rest: string)
    requires WellFormed(t)
    requires forall k :: 0 <= k < |pre| ==> !IsWordChar(pre[k])
    ensures ParseGoal(pre + Format(t) + rest) == Ok(t)
  {
    var s := pre + Format(t) + rest;
    assert s[|pre|..] == Format(t) + rest;
    MatchStartFormat(t, rest);
    forall q | 0 <= q < |pre| ensures MatchAt(s, q).None? {
      assert s[q] == pre[q];
      NoMatchAtNonWord(s, q);
    }
    SkipTo(s, 0, |pre|);
  }

  lemma {:induction false} SkipTo(s: string, i: nat, p: nat)
    requires i <= p <= |s| && MatchAt(s, p).Some?
    requires forall q :: i <= q < p ==> MatchAt(s, q).None?
    ensures SearchFrom(s, i) == MatchAt(s, p)
    decreases p - i
  {
    if i < p { SkipTo(s, i + 1, p); }
  }

  /** The goal of entry.py: `?BigO(m,p)` parses to `BigO(m, p)`. */
  lemma QuestionGoal()
    ensures ParseGoal("?BigO(m,p)") == Ok(Term("BigO", "m", "p"))
  {
    var t := Term("BigO", "m", "p");
    assert WellFormed(t);
    assert "?BigO(m,p)" == "?" + Format(t) + "";
    ParseGoalFormat("?", t, "");
  }

  /** Text whose relation or operands leave their classes, such as a space
      after the comma, does not parse. */
  lemma SpaceAfterComma()
    ensures ParseGoal("BigO(m, p)").Err?
  {
    var s := "BigO(m, p)";
    forall q | 0 <= q <= |s| ensures MatchAt(s, q).None? {
      NoMatchInSpaced(q);
    }
    SearchFromLeftmost(s, 0);
  }

  lemma NoMatchInSpaced(q: nat)
    requires q <= |"BigO(m, p)"|
    ensures MatchAt("BigO(m, p)", q).None?
  {
    var s := "BigO(m, p)";
    if q < 4 {
      NoMatchInWord(q);
    } else if q == 5 || q == 8 {
      var u := s[q..];
      assert u == s[q..q + 1] + s[q + 1..];
      WordLenOf(s[q..q + 1], s[q + 1..]);
    } else if q < |s| {
      NoMatchAtNonWord(s, q);
    }
  }

  lemma NoMatchInWord(q: nat)
    requires q < 4
    ensures MatchAt("BigO(m, p)", q).None?
  {
    var s := "BigO(m, p)";
    var u := s[q..];
    assert u == s[q..4] + s[4..];
    WordLenOf(s[q..4], s[4..]);
    assert u[..4 - q] == s[q..4] && u[4 - q + 1..] == "m, p)";
    SecondOperandMissing(s[q..4]);
  }

  lemma SecondOperandMissing(rel: string)
    ensures MatchOperands(rel, "m, p)").None?
  {
    AlnumLenOf("m", ", p)");
    assert "m, p)" == "m" + ", p)";
    assert "m, p)"[..1] == "m" && "m, p)"[2..] == " p)";
    assert AlnumLen(" p)") == 0;
  }
}
