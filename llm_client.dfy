/** The parts of llm_client.py that do not talk to the network: the parser
    that reads a bracketed list out of a model's answer, and the two loops
    that keep asking until an answer repeats. The stream of answers is a
    parameter: `draw(k)` is the text the `k`-th call to `stream_text`
    yields, its chunks already joined. */
module LlmClient {
  import opened Wrappers
  import opened Text

  // ---------- the bracketed list ----------

  /** The text between the first `[` and the first `]` after it, as the
      search for `\[([^\]]*)\]` finds it. */
  function Bracketed(text: string): Option<string>
  {
    if '[' !in text then None
    else
      var rest := text[IndexOf(text, '[') + 1..];
      if ']' !in rest then None
      else Some(rest[..IndexOf(rest, ']')])
  }

  /** `[p.strip() for p in parts if p.strip()]`. */
  function Kept(parts: seq<string>): seq<string>
  {
    if parts == [] then []
    else (if Strip(parts[0]) != "" then [Strip(parts[0])] else []) + Kept(parts[1..])
  }

  /** The items of the list: the inner text split on commas, stripped, the
      empty ones dropped. */
  function Items(inner: string): seq<string>
  {
    Kept(Split(inner, ','))
  }

  /** An item as `_coerce` returns it. A float keeps its text: its value is
      not modelled. */
  datatype Item = Str(text: string) | Int(value: int) | Float(literal: string)

  predicate AllDigits(s: string)
  {
    forall k :: 0 <= k < |s| ==> IsDigit(s[k])
  }

  /** `p` without its sign, if it has one. */
  function Unsigned(p: string): string
  {
    if |p| > 0 && (p[0] == '+' || p[0] == '-') then p[1..] else p
  }

  /** `re.fullmatch(r"[+-]?\d+", p)`. */
  predicate IsIntLiteral(p: string)
  {
    |Unsigned(p)| > 0 && AllDigits(Unsigned(p))
  }

  /** `int(p)` of an integer literal. */
  function IntValue(p: string): int
    requires IsIntLiteral(p)
  {
    if p[0] == '-' then -(DigitsValue(Unsigned(p)) as int) else DigitsValue(Unsigned(p))
  }

  /** Python's default limit on the digits `int` reads from a string; a
      longer literal makes `int(p)` raise, and `_coerce` then keeps the
      text. */
  const MaxStrDigits: nat := 4300

  /** The mantissa pattern `\d+\.\d*|\d*\.\d+`. */
  predicate IsMantissa(m: string)
  {
    '.' in m
    && var d := IndexOf(m, '.');
    AllDigits(m[..d]) && AllDigits(m[d + 1..]) && (d > 0 || d + 1 < |m|)
  }

  /** The position of the first `e` or `E`, or the length. */
  function ExpStart(u: string): (k: nat)
    ensures k <= |u|
    ensures forall i :: 0 <= i < k ==> u[i] != 'e' && u[i] != 'E'
    ensures k < |u| ==> u[k] == 'e' || u[k] == 'E'
  {
    if u == [] || u[0] == 'e' || u[0] == 'E' then 0 else 1 + ExpStart(u[1..])
  }

  /** The two float patterns of `_coerce`: a signed mantissa with an
      optional exponent, or signed digits with a required exponent. The
      mantissa holds no `e`, so the exponent starts at the first `e`. */
  predicate IsFloatLiteral(p: string)
  {
    var u := Unsigned(p);
    var k := ExpStart(u);
    var m, e := u[..k], u[k..];
    var exponent := e != [] && IsIntLiteral(e[1..]);
    (IsMantissa(m) && (e == [] || exponent)) || (|m| > 0 && AllDigits(m) && exponent)
  }

  /** `_coerce(p)`. */
  function Coerce(p: string): Item
  {
    if IsIntLiteral(p) && |Unsigned(p)| <= MaxStrDigits then Int(IntValue(p))
    else if IsIntLiteral(p) then Str(p)
    else if IsFloatLiteral(p) then Float(p)
    else Str(p)
  }

  /** `_parse_bracketed_list(text, coerce_numbers=coerce)`. */
  function ParseBracketedList(text: string, coerce: bool): seq<Item>
  {
    match Bracketed(text)
    case None => []
    case Some(inner) =>
      var parts := Items(inner);
      if coerce then seq(|parts|, k requires 0 <= k < |parts| => Coerce(parts[k]))
      else seq(|parts|, k requires 0 <= k < |parts| => Str(parts[k]))
  }

  // ---------- properties of the list parser ----------

  /** The search finds the leftmost `[` that some `]` follows, and the
      first `]` after it: no `]` lies inside the text it returns and no `[`
      before it. It finds nothing exactly when no `]` follows any `[`. */
  lemma BracketedSpec(text: string)
    ensures Bracketed(text).Some? ==>
      var inner := Bracketed(text).value;
      exists i :: 0 <= i && i + |inner| + 1 < |text| && text[i] == '[' && '[' !in text[..i]
        && text[i + 1..i + 1 + |inner|] == inner && ']' !in inner && text[i + 1 + |inner|] == ']'
    ensures Bracketed(text).None? <==>
      forall i, j :: 0 <= i < j < |text| && text[i] == '[' ==> text[j] != ']'
  {
    if Bracketed(text).Some? {
      BracketedFound(text);
    } else {
      BracketedMissing(text);
    }
  }

  lemma BracketedFound(text: string)
    requires Bracketed(text).Some?
    ensures var inner := Bracketed(text).value;
      var i := IndexOf(text, '[');
      i + |inner| + 1 < |text| && text[i] == '[' && '[' !in text[..i]
      && text[i + 1..i + 1 + |inner|] == inner && ']' !in inner && text[i + 1 + |inner|] == ']'
  {
    var i := IndexOf(text, '[');
    var rest := text[i + 1..];
    var j := IndexOf(rest, ']');
    assert text[i + 1..i + 1 + j] == rest[..j];
    assert text[i + 1 + j] == rest[j];
  }

  lemma BracketedMissing(text: string)
    requires Bracketed(text).None?
    ensures forall i, j :: 0 <= i < j < |text| && text[i] == '[' ==> text[j] != ']'
  {
    if '[' in text {
      var i := IndexOf(text, '[');
      var rest := text[i + 1..];
      forall i', j' | 0 <= i' < j' < |text| && text[i'] == '[' ensures text[j'] != ']' {
        assert text[j'] == rest[j' - i - 1];
      }
    }
  }

  /** An item the parser can return: non-empty, stripped, without a comma. */
  predicate CleanItem(x: string)
  {
    x != "" && Strip(x) == x && ',' !in x
  }

  lemma {:induction false} KeptShape(parts: seq<string>)
    requires forall k :: 0 <= k < |parts| ==> ',' !in parts[k]
    ensures forall k :: 0 <= k < |Kept(parts)| ==> CleanItem(Kept(parts)[k])
  {
    if parts != [] {
      KeptShape(parts[1..]);
      StripIdempotent(parts[0]);
      StripIsTrimmedSlice(parts[0]);
      assert ',' !in parts[0];
      assert ',' !in Strip(parts[0]);
    }
  }

  /** Every item of the list is clean. */
  lemma ItemsShape(inner: string)
    ensures forall k :: 0 <= k < |Items(inner)| ==> CleanItem(Items(inner)[k])
  {
    KeptShape(Split(inner, ','));
  }

  lemma {:induction false} KeptClean(xs: seq<string>)
    requires forall k :: 0 <= k < |xs| ==> CleanItem(xs[k])
    ensures Kept(xs) == xs
  {
    if xs != [] {
      KeptClean(xs[1..]);
    }
  }

  lemma {:induction false} SplitJoin(xs: seq<string>, sep: char)
    requires |xs| >= 1 && forall k :: 0 <= k < |xs| ==> sep !in xs[k]
    ensures Split(Join(xs, sep), sep) == xs
  {
    if |xs| > 1 {
      SplitCons(xs[0], Join(xs[1..], sep), sep);
      SplitJoin(xs[1..], sep);
      assert xs == [xs[0]] + xs[1..];
    }
  }

  /** A first piece without the separator splits off as the first part. */
  lemma SplitCons(x: string, rest: string, sep: char)
    requires sep !in x
    ensures Split(x + [sep] + rest, sep) == [x] + Split(rest, sep)
  {
    var s := x + [sep] + rest;
    assert s[..|x|] == x && s[|x|] == sep;
    IndexOfUnique(s, sep, |x|);
    assert s[|x| + 1..] == rest;
  }

  /** Joining adds only the separator. */
  lemma {:induction false} JoinLacks(xs: seq<string>, sep: char, c: char)
    requires forall k :: 0 <= k < |xs| ==> c !in xs[k]
    ensures c in Join(xs, sep) ==> c == sep && |xs| > 1
  {
    if |xs| > 1 {
      JoinLacks(xs[1..], sep, c);
    }
  }

  /** Writing clean items out as `[a,b,c]` and parsing the text back gives
      the items, as strings. */
  lemma ParseFormatted(xs: seq<string>)
    requires forall k :: 0 <= k < |xs| ==> CleanItem(xs[k]) && ']' !in xs[k]
    ensures ParseBracketedList("[" + Join(xs, ',') + "]", false)
         == seq(|xs|, k requires 0 <= k < |xs| => Str(xs[k]))
  {
    var body := Join(xs, ',');
    JoinLacks(xs, ',', ']');
    BracketedFormatted(body);
    ItemsOfJoin(xs);
  }

  lemma ItemsOfJoin(xs: seq<string>)
    requires forall k :: 0 <= k < |xs| ==> CleanItem(xs[k])
    ensures Items(Join(xs, ',')) == xs
  {
    if xs == [] {
      assert Split("", ',') == [""];
      assert Strip("") == "";
    } else {
      SplitJoin(xs, ',');
      KeptClean(xs);
    }
  }

  lemma BracketedFormatted(body: string)
    requires ']' !in body
    ensures Bracketed("[" + body + "]") == Some(body)
  {
    var text := "[" + body + "]";
    IndexOfUnique(text, '[', 0);
    var rest := text[1..];
    assert rest == body + "]";
    assert rest[..|body|] == body;
    IndexOfUnique(rest, ']', |body|);
  }

  /** `str(n)` of an integer. */
  function IntText(n: int): string
  {
    if n < 0 then "-" + NatToString(-n) else NatToString(n)
  }

  /** Coercion reads a rendered integer back, sign included, while it has
      no more digits than `int` accepts. */
  lemma CoerceIntText(n: int)
    requires |NatToString(if n < 0 then -n else n)| <= MaxStrDigits
    ensures Coerce(IntText(n)) == Int(n)
  {
    var m: nat := if n < 0 then -n else n;
    NatToStringValue(m);
    var p := IntText(n);
    if n < 0 {
      assert p[1..] == NatToString(m);
    } else {
      assert IsDigit(p[0]);
    }
    assert Unsigned(p) == NatToString(m);
  }

  /** An explicit `+` is read too. */
  lemma CoercePlus(n: nat)
    requires |NatToString(n)| <= MaxStrDigits
    ensures Coerce("+" + NatToString(n)) == Int(n)
  {
    NatToStringValue(n);
    assert ("+" + NatToString(n))[1..] == NatToString(n);
  }

  /** The characters a number literal is made of. */
  predicate NumberChar(c: char)
  {
    IsDigit(c) || c == '+' || c == '-' || c == '.' || c == 'e' || c == 'E'
  }

  /** An integer literal is made of number characters. */
  lemma IntLiteralChars(p: string)
    requires IsIntLiteral(p)
    ensures forall k :: 0 <= k < |p| ==> NumberChar(p[k])
  {
    var u := Unsigned(p);
    forall k | 0 <= k < |p| ensures NumberChar(p[k]) {
      if |p| > 0 && (p[0] == '+' || p[0] == '-') {
        if k > 0 { assert p[k] == u[k - 1]; }
      } else {
        assert p[k] == u[k];
      }
    }
  }

  /** So is a float literal. */
  lemma FloatLiteralChars(p: string)
    requires IsFloatLiteral(p)
    ensures forall k :: 0 <= k < |p| ==> NumberChar(p[k])
  {
    var u := Unsigned(p);
    var x := ExpStart(u);
    var m, e := u[..x], u[x..];
    MantissaChars(m);
    if e != [] {
      IntLiteralChars(e[1..]);
      ExponentChars(e);
    }
    assert u == m + e;
    ConcatChars(m, e);
    SignedChars(p);
  }

  predicate AllNumberChars(s: string)
  {
    forall k :: 0 <= k < |s| ==> NumberChar(s[k])
  }

  lemma MantissaChars(m: string)
    requires IsMantissa(m) || AllDigits(m)
    ensures AllNumberChars(m)
  {
    if !AllDigits(m) {
      var d := IndexOf(m, '.');
      forall k | 0 <= k < |m| ensures NumberChar(m[k]) {
        if k < d { assert m[k] == m[..d][k]; }
        else if k > d { assert m[k] == m[d + 1..][k - d - 1]; }
      }
    }
  }

  lemma ExponentChars(e: string)
    requires e != [] && (e[0] == 'e' || e[0] == 'E')
    requires forall k :: 0 <= k < |e[1..]| ==> NumberChar(e[1..][k])
    ensures AllNumberChars(e)
  {
    forall k | 0 <= k < |e| ensures NumberChar(e[k]) {
      if k > 0 { assert e[k] == e[1..][k - 1]; }
    }
  }

  lemma ConcatChars(a: string, b: string)
    requires AllNumberChars(a) && AllNumberChars(b)
    ensures AllNumberChars(a + b)
  {
    forall k | 0 <= k < |a + b| ensures NumberChar((a + b)[k]) {
      if k < |a| { assert (a + b)[k] == a[k]; } else { assert (a + b)[k] == b[k - |a|]; }
    }
  }

  lemma SignedChars(p: string)
    requires AllNumberChars(Unsigned(p))
    ensures AllNumberChars(p)
  {
    var u := Unsigned(p);
    forall k | 0 <= k < |p| ensures NumberChar(p[k]) {
      if |p| > 0 && (p[0] == '+' || p[0] == '-') {
        if k > 0 { assert p[k] == u[k - 1]; }
      } else {
        assert p[k] == u[k];
      }
    }
  }

  /** An item holding any other character stays a string. */
  lemma CoerceNonNumeric(p: string, k: nat)
    requires k < |p| && !NumberChar(p[k])
    ensures Coerce(p) == Str(p)
  {
    if IsIntLiteral(p) { IntLiteralChars(p); }
    if IsFloatLiteral(p) { FloatLiteralChars(p); }
  }

  /** Without coercion every item is returned as its string. */
  lemma UncoercedAreStrings(text: string)
    ensures forall k :: 0 <= k < |ParseBracketedList(text, false)| ==>
      ParseBracketedList(text, false)[k].Str? && CleanItem(ParseBracketedList(text, false)[k].text)
  {
    if Bracketed(text).Some? {
      ItemsShape(Bracketed(text).value);
    }
  }

  // ---------- the repeat loops ----------

  predicate Distinct(xs: seq<string>)
  {
    forall i, j :: 0 <= i < j < |xs| ==> xs[i] != xs[j]
  }

  /** The index of the first answer equal to an earlier one. */
  function FirstRepeat(xs: seq<string>): (r: Option<nat>)
    ensures r.Some? ==> r.value < |xs| && xs[r.value] in xs[..r.value] && Distinct(xs[..r.value])
    ensures r.None? <==> Distinct(xs)
  {
    if xs == [] then None
    else
      var pre := xs[..|xs| - 1];
      match FirstRepeat(pre)
      case Some(j) =>
        assert xs[..j] == pre[..j];
        Some(j)
      case None =>
        if xs[|xs| - 1] in pre then
          assert xs[..|xs| - 1] == pre;
          Some(|xs| - 1)
        else
          assert forall i :: 0 <= i < |pre| ==> xs[i] == pre[i];
          None
  }

  /** The most answers either loop asks for. */
  const MaxDraws: nat := 15

  /** The first `n` answers, stripped. */
  function Draws(draw: nat -> string, n: nat): (r: seq<string>)
    ensures |r| == n
  {
    seq(n, k requires 0 <= k < n => Strip(draw(k)))
  }

  /** The answer both loops settle on: the first stripped answer among the
      first fifteen that equals an earlier one. */
  function Consensus(draw: nat -> string): Option<string>
  {
    match FirstRepeat(Draws(draw, MaxDraws))
    case Some(j) => Some(Draws(draw, MaxDraws)[j])
    case None => None
  }

  /** How many answers the loops ask for. */
  function DrawCount(draw: nat -> string): nat
  {
    match FirstRepeat(Draws(draw, MaxDraws))
    case Some(j) => j + 1
    case None => MaxDraws
  }

  /** What `api_call` returns: the text, or the list parsed out of it. */
  datatype Reply = Raw(text: string) | Parsed(items: seq<Item>)

  function ApiCallReply(draw: nat -> string, parse: bool, coerce: bool): Reply
  {
    var finalValue := match Consensus(draw) case Some(b) => b case None => "";
    if parse then Parsed(ParseBracketedList(finalValue, coerce)) else Raw(finalValue)
  }

  /** `api_call(prompt=..., parse=parse, coerce_numbers=coerce)`; `drawn` is
      the number of answers requested. */
  method ApiCall(draw: nat -> string, parse: bool, coerce: bool) returns (r: Reply, drawn: nat)
    ensures r == ApiCallReply(draw, parse, coerce)
    ensures drawn == DrawCount(draw)
  {
    var arr: seq<string> := [];
    var i := 0;
    var finalValue := "";
    while true
      invariant 0 <= i < MaxDraws
      invariant arr == Draws(draw, i) && Distinct(arr)
      decreases MaxDraws - i
    {
      i := i + 1;
      finalValue := "";
      var b := Strip(draw(i - 1));
      if b in arr {
        finalValue := b;
        RepeatFound(draw, i - 1);
        break;
      }
      arr := arr + [b];
      assert arr == Draws(draw, i);
      DistinctSnoc(Draws(draw, i - 1), b);
      if i == MaxDraws {
        NoRepeat(draw);
        break;
      }
    }
    drawn := i;
    if !parse {
      return Raw(finalValue), drawn;
    }
    r := Parsed(ParseBracketedList(finalValue, coerce));
  }

  /** `api_call_series(prompt=...)`: `None` when nothing repeats. */
  method ApiCallSeries(draw: nat -> string) returns (r: Option<string>, drawn: nat)
    ensures r == Consensus(draw)
    ensures drawn == DrawCount(draw)
  {
    var arr: seq<string> := [];
    for i := 0 to MaxDraws
      invariant arr == Draws(draw, i) && Distinct(arr)
    {
      var b := Strip(draw(i));
      if b in arr {
        RepeatFound(draw, i);
        return Some(b), i + 1;
      }
      DistinctSnoc(arr, b);
      arr := arr + [b];
      assert arr == Draws(draw, i + 1);
    }
    NoRepeat(draw);
    return None, MaxDraws;
  }

  /** The consensus is an answer among the first fifteen that repeats an
      earlier one, all earlier ones being distinct; there is none exactly
      when the fifteen answers are distinct. */
  lemma ConsensusSpec(draw: nat -> string)
    ensures Consensus(draw).Some? ==>
      exists j :: 0 <= j < MaxDraws && Consensus(draw).value == Strip(draw(j))
        && Strip(draw(j)) in Draws(draw, j) && Distinct(Draws(draw, j))
    ensures Consensus(draw).None? <==> Distinct(Draws(draw, MaxDraws))
    ensures DrawCount(draw) <= MaxDraws
  {
    if Consensus(draw).Some? {
      var j := RepeatIndex(draw, MaxDraws);
    }
  }

  lemma RepeatIndex(draw: nat -> string, n: nat) returns (j: nat)
    requires FirstRepeat(Draws(draw, n)).Some?
    ensures j == FirstRepeat(Draws(draw, n)).value && j < n
    ensures Strip(draw(j)) in Draws(draw, j) && Distinct(Draws(draw, j))
  {
    var all := Draws(draw, n);
    j := FirstRepeat(all).value;
    assert all[..j] == Draws(draw, j);
  }

  /** Only the first fifteen answers matter. */
  lemma OnlyFirstFifteen(d1: nat -> string, d2: nat -> string, parse: bool, coerce: bool)
    requires forall k :: 0 <= k < MaxDraws ==> d1(k) == d2(k)
    ensures ApiCallReply(d1, parse, coerce) == ApiCallReply(d2, parse, coerce)
    ensures Consensus(d1) == Consensus(d2) && DrawCount(d1) == DrawCount(d2)
  {
    assert Draws(d1, MaxDraws) == Draws(d2, MaxDraws);
  }

  lemma DistinctSnoc(xs: seq<string>, b: string)
    requires Distinct(xs) && b !in xs
    ensures Distinct(xs + [b])
  {
  }

  /** The `j`-th answer repeating one of the distinct answers before it is
      the consensus. */
  lemma RepeatFound(draw: nat -> string, j: nat)
    requires j < MaxDraws && Distinct(Draws(draw, j)) && Strip(draw(j)) in Draws(draw, j)
    ensures Consensus(draw) == Some(Strip(draw(j)))
    ensures DrawCount(draw) == j + 1
  {
    RepeatAt(draw, j, MaxDraws);
  }

  /** Fifteen distinct answers: no consensus, and all fifteen were asked for. */
  lemma NoRepeat(draw: nat -> string)
    requires Distinct(Draws(draw, MaxDraws))
    ensures Consensus(draw) == None && DrawCount(draw) == MaxDraws
  {
  }

  lemma RepeatAt(draw: nat -> string, j: nat, n: nat)
    requires j < n && Distinct(Draws(draw, j)) && Strip(draw(j)) in Draws(draw, j)
    ensures FirstRepeat(Draws(draw, n)) == Some(j)
  {
    var all := Draws(draw, n);
    assert all[..j] == Draws(draw, j);
    assert all[j] == Strip(draw(j));
    FirstRepeatUnique(all, j);
  }

  /** The first repeat is the only index with a repeat and distinct answers
      before it. */
  lemma {:induction false} FirstRepeatUnique(xs: seq<string>, j: nat)
    requires j < |xs| && xs[j] in xs[..j] && Distinct(xs[..j])
    ensures FirstRepeat(xs) == Some(j)
  {
    var pre := xs[..|xs| - 1];
    if j < |xs| - 1 {
      assert pre[..j] == xs[..j] && pre[j] == xs[j];
      FirstRepeatUnique(pre, j);
    } else {
      assert pre == xs[..j];
    }
  }
}
