/** What `Lowering.Lower` promises: the product split, `_prod`, the sum of
    one child, the negative power outside a product, what lowering does to
    the session, and that the lowered term means what the SymPy tree
    means. */
module LoweringProps {
  import opened Wrappers
  import opened SymExpr
  import opened SolverTerm
  import opened Lowering
  import opened Semantics

  // ---------- counting ----------

  /** How many factors of a product go to the denominator. */
  function CountNegative(args: seq<Expr>): (n: nat)
    ensures n <= |args|
  {
    if args == [] then 0
    else CountNegative(args[..|args| - 1]) + (if NegativePower(args[|args| - 1]) then 1 else 0)
  }

  /** How many `log` calls occur in `e`. */
  function LogCount(e: Expr): nat
    decreases e, 1
  {
    match e
    case Sym(_) => 0
    case Num(_) => 0
    case Rel(_, l, r) => LogCount(l) + LogCount(r)
    case Add(args) => LogCountAll(args)
    case Mul(args) => LogCountAll(args)
    case Pow(b, x) => LogCount(b) + LogCount(x)
    case Call(f, a) => LogCount(a) + (if f == Log then 1 else 0)
    case Other(_, args) => LogCountAll(args)
  }

  function LogCountAll(args: seq<Expr>): nat
    decreases args, 0
  {
    if args == [] then 0 else LogCountAll(args[..|args| - 1]) + LogCount(args[|args| - 1])
  }

  // ---------- products ----------

  /** `_prod` computes the product of its factors: 1 for none, the factor for
      one. Only the legacy code fails, and only on no factors. */
  lemma ProdValue(ts: seq<Term>, legacy: bool, val: string -> real)
    ensures Prod(ts, legacy).Err? <==> legacy && ts == []
    ensures Prod(ts, legacy).Ok? && EvalTerms(ts, val).Some? ==>
      EvalTerm(Prod(ts, legacy).value, val) == Some(Product(EvalTerms(ts, val).value))
  {
    if |ts| == 1 {
      assert ts[..0] == [];
      var x := EvalTerm(ts[0], val);
      if EvalTerms(ts, val).Some? {
        assert EvalTerms(ts, val).value == [x.value];
      }
    }
  }

  /** The split of a product: one denominator entry per power with a negative
      literal exponent, raised to the (positive) negated exponent, one
      numerator entry per other factor. */
  lemma {:induction false} SplitFactorsCounts(args: seq<Expr>, o: Options, st: Session)
    requires SplitFactors(args, o, st).Ok?
    ensures |SplitFactors(args, o, st).value.denom| == CountNegative(args)
    ensures |SplitFactors(args, o, st).value.numer| == |args| - CountNegative(args)
    ensures forall d :: d in SplitFactors(args, o, st).value.denom ==>
      d.App? && d.kind == POW && |d.args| == 2 && d.args[1].Real? && d.args[1].value > 0.0
  {
    if args != [] {
      SplitFactorsCounts(args[..|args| - 1], o, st);
    }
  }

  /** Factor `i` is lowered in the session the factors before it left behind;
      a negative power lands at the next free place of the denominator as
      `POW(base, -exp)`, any other factor at the next free place of the
      numerator: both lists keep the order of the product. */
  lemma {:induction false} SplitFactorsPositions(args: seq<Expr>, o: Options, st: Session, i: nat)
    requires SplitFactors(args, o, st).Ok? && i < |args|
    ensures SplitFactors(args[..i], o, st).Ok?
    ensures var before := SplitFactors(args[..i], o, st).value;
            var fs := SplitFactors(args, o, st).value;
            if NegativePower(args[i]) then
              && Lower(args[i].base, o, before.st).Ok?
              && |before.denom| < |fs.denom|
              && fs.denom[|before.denom|]
                 == App(POW, [Lower(args[i].base, o, before.st).value.term, Real(-args[i].exponent.value)])
            else
              && Lower(args[i], o, before.st).Ok?
              && |before.numer| < |fs.numer|
              && fs.numer[|before.numer|] == Lower(args[i], o, before.st).value.term
    decreases |args|
  {
    var pre := args[..|args| - 1];
    if i == |args| - 1 {
      assert args[..i] == pre;
    } else {
      assert pre[..i] == args[..i];
      SplitFactorsPositions(pre, o, st, i);
      SplitFactorsPrefix(args, o, st);
    }
  }

  /** The lists built so far only grow. */
  lemma SplitFactorsPrefix(args: seq<Expr>, o: Options, st: Session)
    requires args != [] && SplitFactors(args, o, st).Ok?
    ensures var pre := SplitFactors(args[..|args| - 1], o, st).value;
            var fs := SplitFactors(args, o, st).value;
            && pre.numer <= fs.numer && pre.denom <= fs.denom
  {
  }

  /** A product lowers to DIVISION exactly when some factor is a negative
      power: to `DIVISION(_prod(numer), _prod(denom))` then, to
      `_prod(numer)` otherwise. */
  lemma ProductShape(args: seq<Expr>, o: Options, st: Session)
    requires Lower(Mul(args), o, st).Ok?
    ensures SplitFactors(args, o, st).Ok?
    ensures var fs := SplitFactors(args, o, st).value;
            var t := Lower(Mul(args), o, st).value.term;
            && Prod(fs.numer, o.legacy).Ok?
            && (CountNegative(args) == 0 ==> t == Prod(fs.numer, o.legacy).value)
            && (CountNegative(args) > 0 ==>
                  Prod(fs.denom, o.legacy).Ok?
                  && t == App(DIVISION, [Prod(fs.numer, o.legacy).value, Prod(fs.denom, o.legacy).value]))
  {
    SplitFactorsCounts(args, o, st);
  }

  /** A product whose factors are all negative powers has the literal 1 as
      its numerator (test2.py); the legacy lowering of test1.py fails on it
      instead. */
  lemma AllNegativeProduct(args: seq<Expr>, o: Options, st: Session)
    requires SplitFactors(args, o, st).Ok? && args != [] && CountNegative(args) == |args|
    ensures o.legacy ==> Lower(Mul(args), o, st) == Err(IndexError("numer_args[0]"))
    ensures !o.legacy ==>
      (&& Lower(Mul(args), o, st).Ok?
       && Lower(Mul(args), o, st).value.term.App?
       && Lower(Mul(args), o, st).value.term.kind == DIVISION
       && Lower(Mul(args), o, st).value.term.args[0] == Real(1.0))
  {
    SplitFactorsCounts(args, o, st);
  }

  // ---------- sums and powers ----------

  /** The sum of one child lowers to the child itself (test2.py); the legacy
      code hands the one child to cvc5's ADD, which refuses a sum of fewer
      than two terms. SymPy's `Add` always has two arguments or more, so
      neither case arises from a `sympify`d formula. */
  lemma SumOfOne(a: Expr, o: Options, st: Session)
    ensures !o.legacy ==> Lower(Add([a]), o, st) == Lower(a, o, st)
    ensures o.legacy ==>
      Lower(Add([a]), o, st) == if Lower(a, o, st).Ok? then Err(SolverError("ADD")) else Lower(a, o, st)
  {
    LowerAllSnoc([], a, o, st);
    assert [] + [a] == [a];
    assert LowerAll([], o, st) == Ok(BuiltAll([], st));
    match Lower(a, o, st)
    case Err(x) =>
      assert LowerAll([a], o, st) == Err(x);
    case Ok(b) =>
      assert [] + [b.term] == [b.term];
      assert LowerAll([a], o, st) == Ok(BuiltAll([b.term], b.st));
  }

  /** Lowering a list with one more argument at the end. */
  lemma LowerAllSnoc(pre: seq<Expr>, a: Expr, o: Options, st: Session)
    ensures LowerAll(pre + [a], o, st) ==
      match LowerAll(pre, o, st)
      case Err(x) => Err(x)
      case Ok(done) =>
        match Lower(a, o, done.st)
        case Err(x) => Err(x)
        case Ok(b) => Ok(BuiltAll(done.terms + [b.term], b.st))
  {
    var args := pre + [a];
    assert args[..|args| - 1] == pre;
    assert args[|args| - 1] == a;
  }

  /** A negative power outside a product is not rewritten: the exponent is
      lowered as it is, negative, unless `as_base_exp` turns the base `1/q`
      into `q` and the exponent into its (positive) negation. */
  lemma NegativePowerAlone(b: Expr, k: real, o: Options, st: Session)
    requires k < 0.0 && Lower(b, o, st).Ok?
    ensures !UnitFraction(b) ==>
      Lower(Pow(b, Num(k)), o, st) == Ok(Built(App(POW, [Lower(b, o, st).value.term, Real(k)]), Lower(b, o, st).value.st))
    ensures UnitFraction(b) ==>
      Lower(Pow(b, Num(k)), o, st) == Ok(Built(App(POW, [Real(1.0 / b.value), Real(-k)]), st))
  {
  }

  /** The power branch as the source writes it: lower the base, then the
      exponent, of the pair `as_base_exp` hands back. */
  function PowOf(c: Expr, y: Expr, o: Options, st: Session): Result<Built>
  {
    var cb :- Lower(c, o, st);
    var yb :- Lower(y, o, cb.st);
    Ok(Built(App(POW, [cb.term, yb.term]), yb.st))
  }

  /** `Lower` takes a power apart with `as_base_exp`: `(1/q)**x` is lowered
      as `POW(q, -x)`, every other power as its own base and exponent. */
  lemma LowerPowAsBaseExp(b: Expr, x: Expr, o: Options, st: Session)
    ensures Lower(Pow(b, x), o, st) == PowOf(AsBaseExp(b, x).0, AsBaseExp(b, x).1, o, st)
  {
    if UnitFraction(b) {
      LowerNegIsNegate(x, o, st);
    }
  }

  /** `LowerNeg` lowers the SymPy tree of `-x`. */
  lemma LowerNegIsNegate(x: Expr, o: Options, st: Session)
    ensures LowerNeg(x, o, st) == Lower(Negate(x), o, st)
  {
    if !x.Num? {
      var m := Num(-1.0);
      var one, two := [m], [m, x];
      assert one[..|one| - 1] == [] && one[|one| - 1] == m;
      assert !NegativePower(m);
      assert [] + [Real(-1.0)] == [Real(-1.0)];
      assert SplitFactors(one, o, st) == Ok(Factors([Real(-1.0)], [], st));
      assert two[..|two| - 1] == one && two[|two| - 1] == x;
      if NegativePower(x) {
        match Lower(x.base, o, st)
        case Err(_) =>
        case Ok(bb) =>
          var d := App(POW, [bb.term, Real(-x.exponent.value)]);
          assert [] + [d] == [d];
          assert SplitFactors(two, o, st) == Ok(Factors([Real(-1.0)], [d], bb.st));
      } else {
        match Lower(x, o, st)
        case Err(_) =>
        case Ok(xb) =>
          assert [Real(-1.0)] + [xb.term] == [Real(-1.0), xb.term];
          assert SplitFactors(two, o, st) == Ok(Factors([Real(-1.0), xb.term], [], xb.st));
      }
    }
  }

  // ---------- the session ----------

  /** What one `_parse` call does to the session: fresh ids only go up, the
      formulas asserted before stay in place, two side conditions are added
      per `log` and only when `sideEffects` is set, and an existing `LOG`
      handle is reused (a missing one is declared at the first `log`). */
  lemma {:induction false} LowerSession(e: Expr, o: Options, st: Session)
    requires Lower(e, o, st).Ok?
    ensures var st' := Lower(e, o, st).value.st;
            && st.next <= st'.next
            && st.asserted <= st'.asserted
            && |st'.asserted| == |st.asserted| + (if o.sideEffects then 2 * LogCount(e) else 0)
            && (st.log.Some? ==> st'.log == st.log)
            && (LogCount(e) > 0 ==> st'.log.Some?)
            && (LogCount(e) == 0 ==> st'.log == st.log)
    decreases e, 1
  {
    match e
    case Sym(_) =>
    case Num(_) =>
    case Rel(_, l, r) =>
      LowerSession(l, o, st);
      LowerSession(r, o, Lower(l, o, st).value.st);
    case Add(args) => LowerAllSession(args, o, st);
    case Mul(args) => SplitFactorsSession(args, o, st);
    case Pow(b, x) =>
      if UnitFraction(b) {
        LowerNegSession(x, o, st);
      } else {
        LowerSession(b, o, st);
        LowerSession(x, o, Lower(b, o, st).value.st);
      }
    case Call(f, a) => LowerSession(a, o, st);
    case Other(_, _) =>
  }

  lemma {:induction false} LowerNegSession(x: Expr, o: Options, st: Session)
    requires LowerNeg(x, o, st).Ok?
    ensures var st' := LowerNeg(x, o, st).value.st;
            && st.next <= st'.next
            && st.asserted <= st'.asserted
            && |st'.asserted| == |st.asserted| + (if o.sideEffects then 2 * LogCount(x) else 0)
            && (st.log.Some? ==> st'.log == st.log)
            && (LogCount(x) > 0 ==> st'.log.Some?)
            && (LogCount(x) == 0 ==> st'.log == st.log)
    decreases x, 2
  {
    if NegativePower(x) {
      assert x.base < x;
      LowerSession(x.base, o, st);
      assert LogCount(x) == LogCount(x.base) + LogCount(x.exponent);
    } else if !x.Num? {
      LowerSession(x, o, st);
    }
  }

  lemma {:induction false} LowerAllSession(args: seq<Expr>, o: Options, st: Session)
    requires LowerAll(args, o, st).Ok?
    ensures var st' := LowerAll(args, o, st).value.st;
            && st.next <= st'.next
            && st.asserted <= st'.asserted
            && |st'.asserted| == |st.asserted| + (if o.sideEffects then 2 * LogCountAll(args) else 0)
            && (st.log.Some? ==> st'.log == st.log)
            && (LogCountAll(args) > 0 ==> st'.log.Some?)
            && (LogCountAll(args) == 0 ==> st'.log == st.log)
    decreases args, 0
  {
    if args != [] {
      var pre := args[..|args| - 1];
      LowerAllSession(pre, o, st);
      LowerSession(args[|args| - 1], o, LowerAll(pre, o, st).value.st);
    }
  }

  lemma {:induction false} SplitFactorsSession(args: seq<Expr>, o: Options, st: Session)
    requires SplitFactors(args, o, st).Ok?
    ensures var st' := SplitFactors(args, o, st).value.st;
            && st.next <= st'.next
            && st.asserted <= st'.asserted
            && |st'.asserted| == |st.asserted| + (if o.sideEffects then 2 * LogCountAll(args) else 0)
            && (st.log.Some? ==> st'.log == st.log)
            && (LogCountAll(args) > 0 ==> st'.log.Some?)
            && (LogCountAll(args) == 0 ==> st'.log == st.log)
    decreases args, 0
  {
    if args != [] {
      var pre := args[..|args| - 1];
      var a := args[|args| - 1];
      SplitFactorsSession(pre, o, st);
      var mid := SplitFactors(pre, o, st).value.st;
      if NegativePower(a) {
        assert a.base < a;
        LowerSession(a.base, o, mid);
        assert LogCount(a) == LogCount(a.base) + LogCount(a.exponent);
      } else {
        LowerSession(a, o, mid);
      }
    }
  }

  // ---------- the side conditions of `log` ----------

  /** `log(a)` lowers to `LOG` applied to `a`'s term, with `LOG` the
      session's handle or, when there is none yet, a new one; with side
      effects on it asserts `x > 0` and then `exp(LOG x) = x` for that term
      `x`, and nothing otherwise. */
  lemma LowerLog(a: Expr, o: Options, st: Session)
    requires Lower(Call(Log, a), o, st).Ok?
    ensures Lower(a, o, st).Ok?
    ensures var x := Lower(a, o, st).value;
            var lg := GetLog(x.st).0;
            var r := Lower(Call(Log, a), o, st).value;
            && (x.st.log.Some? ==> lg == x.st.log.value)
            && (x.st.log.None? ==> lg == Fun(x.st.next, "LOG"))
            && r.term == ApplyUF(lg, x.term)
            && r.st.log == Some(lg)
            && r.st.asserted == x.st.asserted +
                 (if o.sideEffects
                  then [App(GT, [x.term, Real(0.0)]), App(EQUAL, [App(EXPONENTIAL, [ApplyUF(lg, x.term)]), x.term])]
                  else [])
  {
  }

  /** Back-to-back pairs `x > 0`, `exp(LOG x) = x`, all over the handle
      `lg`: the formulas the `log` branch asserts. */
  predicate LogPairs(xs: seq<Term>, lg: Fun)
    decreases |xs|
  {
    xs == [] ||
    (|xs| >= 2 && xs[0].App? && |xs[0].args| == 2
     && xs[..2] == LogSideConditions(xs[0].args[0], ApplyUF(lg, xs[0].args[0]))
     && LogPairs(xs[2..], lg))
  }

  lemma {:induction false} LogPairsAppend(a: seq<Term>, b: seq<Term>, lg: Fun)
    requires LogPairs(a, lg) && LogPairs(b, lg)
    ensures LogPairs(a + b, lg)
    decreases |a|
  {
    if a == [] {
      assert a + b == b;
    } else {
      LogPairsAppend(a[2..], b, lg);
      assert (a + b)[..2] == a[..2];
      assert (a + b)[2..] == a[2..] + b;
    }
  }

  /** From session `s0` to `s1` formulas were only appended, an existing
      `LOG` handle was kept, and what was appended is `LogPairs` over the
      handle of `s1` (nothing at all while there is no handle). */
  predicate SidePairs(s0: Session, s1: Session)
  {
    && s0.asserted <= s1.asserted
    && (s0.log.Some? ==> s1.log == s0.log)
    && (s1.log.None? ==> s1.asserted == s0.asserted)
    && (s1.log.Some? ==> LogPairs(s1.asserted[|s0.asserted|..], s1.log.value))
  }

  lemma SidePairsTrans(s0: Session, s1: Session, s2: Session)
    requires SidePairs(s0, s1) && SidePairs(s1, s2)
    ensures SidePairs(s0, s2)
  {
    if s2.log.Some? && s1.log.Some? {
      assert s2.asserted[|s0.asserted|..] == s1.asserted[|s0.asserted|..] + s2.asserted[|s1.asserted|..];
      LogPairsAppend(s1.asserted[|s0.asserted|..], s2.asserted[|s1.asserted|..], s2.log.value);
    }
  }

  /** Every formula one `_parse` call asserts is part of a pair `x > 0`,
      `exp(LOG x) = x` over the session's one `LOG` handle, pairs back to
      back and nothing in between. */
  lemma {:induction false} LowerPairs(e: Expr, o: Options, st: Session)
    requires Lower(e, o, st).Ok?
    ensures SidePairs(st, Lower(e, o, st).value.st)
    decreases e, 1
  {
    match e
    case Sym(_) =>
    case Num(_) =>
    case Rel(_, l, r) =>
      LowerPairs(l, o, st);
      var mid := Lower(l, o, st).value.st;
      LowerPairs(r, o, mid);
      SidePairsTrans(st, mid, Lower(r, o, mid).value.st);
    case Add(args) => LowerAllPairs(args, o, st);
    case Mul(args) => SplitFactorsPairs(args, o, st);
    case Pow(b, x) =>
      if UnitFraction(b) {
        LowerNegPairs(x, o, st);
      } else {
        LowerPairs(b, o, st);
        var mid := Lower(b, o, st).value.st;
        LowerPairs(x, o, mid);
        SidePairsTrans(st, mid, Lower(x, o, mid).value.st);
      }
    case Call(f, a) =>
      LowerPairs(a, o, st);
      if f == Log {
        var ab := Lower(a, o, st).value;
        var lg := GetLog(ab.st).0;
        var fin := Lower(e, o, st).value.st;
        if o.sideEffects {
          var pair := LogSideConditions(ab.term, ApplyUF(lg, ab.term));
          assert fin.asserted == ab.st.asserted + pair;
          assert fin.asserted[|ab.st.asserted|..] == pair;
          assert pair[2..] == [];
        }
        assert SidePairs(ab.st, fin);
        SidePairsTrans(st, ab.st, fin);
      }
    case Other(_, _) =>
  }

  lemma {:induction false} LowerNegPairs(x: Expr, o: Options, st: Session)
    requires LowerNeg(x, o, st).Ok?
    ensures SidePairs(st, LowerNeg(x, o, st).value.st)
    decreases x, 2
  {
    if NegativePower(x) {
      assert x.base < x;
      LowerPairs(x.base, o, st);
    } else if !x.Num? {
      LowerPairs(x, o, st);
    }
  }

  lemma {:induction false} LowerAllPairs(args: seq<Expr>, o: Options, st: Session)
    requires LowerAll(args, o, st).Ok?
    ensures SidePairs(st, LowerAll(args, o, st).value.st)
    decreases args, 0
  {
    if args != [] {
      var pre := args[..|args| - 1];
      LowerAllPairs(pre, o, st);
      var mid := LowerAll(pre, o, st).value.st;
      LowerPairs(args[|args| - 1], o, mid);
      SidePairsTrans(st, mid, Lower(args[|args| - 1], o, mid).value.st);
    }
  }

  lemma {:induction false} SplitFactorsPairs(args: seq<Expr>, o: Options, st: Session)
    requires SplitFactors(args, o, st).Ok?
    ensures SidePairs(st, SplitFactors(args, o, st).value.st)
    decreases args, 0
  {
    if args != [] {
      var pre := args[..|args| - 1];
      var a := args[|args| - 1];
      SplitFactorsPairs(pre, o, st);
      var mid := SplitFactors(pre, o, st).value.st;
      if NegativePower(a) {
        assert a.base < a;
        LowerPairs(a.base, o, mid);
        SidePairsTrans(st, mid, Lower(a.base, o, mid).value.st);
      } else {
        LowerPairs(a, o, mid);
        SidePairsTrans(st, mid, Lower(a, o, mid).value.st);
      }
    }
  }

  /** Without side effects, parsing asserts nothing. */
  lemma QuietParse(e: Expr, o: Options, st: Session)
    requires !o.sideEffects && Lower(e, o, st).Ok?
    ensures Lower(e, o, st).value.st.asserted == st.asserted
  {
    LowerSession(e, o, st);
  }

  // ---------- meaning ----------

  /** Every name in the environment is bound to a variable or constant of
      that name, as `dict(zip(names, [s.mkVar(R, n) for n in names]))` is. */
  predicate NamedEnv(env: map<string, Term>)
  {
    forall n :: n in env ==> (env[n].Var? || env[n].Const?) && env[n].name == n
  }

  /** The lowered term has the value of the SymPy tree wherever the tree has
      one: in particular the numerator over the denominator has the value of
      the product, whose negative powers were moved below the line. */
  lemma {:induction false} LowerPreservesValue(e: Expr, o: Options, st: Session, val: string -> real)
    requires NamedEnv(o.env) && Lower(e, o, st).Ok? && EvalExpr(e, val).Some?
    ensures EvalTerm(Lower(e, o, st).value.term, val) == EvalExpr(e, val)
    decreases e, 2
  {
    match e
    case Sym(n) =>
    case Num(_) =>
    case Add(args) => SumPreservesValue(args, o, st, val);
    case Pow(b, x) => PowPreservesValue(b, x, o, st, val);
    case Mul(args) => ProductPreservesValue(args, o, st, val);
  }

  lemma {:induction false} PowPreservesValue(b: Expr, x: Expr, o: Options, st: Session, val: string -> real)
    requires NamedEnv(o.env) && Lower(Pow(b, x), o, st).Ok? && EvalExpr(Pow(b, x), val).Some?
    ensures EvalTerm(Lower(Pow(b, x), o, st).value.term, val) == EvalExpr(Pow(b, x), val)
    decreases Pow(b, x), 1
  {
    if UnitFraction(b) {
      var nt := LowerNeg(x, o, st).value.term;
      assert Lower(Pow(b, x), o, st).value.term == App(POW, [Real(1.0 / b.value), nt]);
      LowerNegValue(x, o, st, val);
      var xv := EvalExpr(x, val).value;
      assert EvalExpr(Pow(b, x), val) == PowValue(b.value, xv);
      UnitPowTermValue(b.value, nt, xv, val);
    } else {
      var bb := Lower(b, o, st).value;
      var xt := Lower(x, o, bb.st).value.term;
      assert Lower(Pow(b, x), o, st).value.term == App(POW, [bb.term, xt]);
      LowerPreservesValue(b, o, st, val);
      LowerPreservesValue(x, o, bb.st, val);
      PowTermValue(bb.term, xt, val);
    }
  }

  /** `POW(1/v, t)` where `t` has the value `-x` has the value of `v ** x`. */
  lemma UnitPowTermValue(v: real, nt: Term, xv: real, val: string -> real)
    requires v != 0.0 && EvalTerm(nt, val) == Some(-xv)
    ensures EvalTerm(App(POW, [Real(1.0 / v), nt]), val) == PowValue(v, xv)
  {
    PowTermValue(Real(1.0 / v), nt, val);
    PowOfReciprocal(v, xv);
  }

  lemma SumTermValue(ts: seq<Term>, val: string -> real)
    requires EvalTerms(ts, val).Some?
    ensures EvalTerm(App(ADD, ts), val) == Some(Sum(EvalTerms(ts, val).value))
  {
  }

  lemma PowTermValue(bt: Term, xt: Term, val: string -> real)
    requires EvalTerm(bt, val).Some? && EvalTerm(xt, val).Some?
    ensures EvalTerm(App(POW, [bt, xt]), val) == PowValue(EvalTerm(bt, val).value, EvalTerm(xt, val).value)
  {
    assert [bt, xt][0] == bt && [bt, xt][1] == xt;
  }

  /** The lowered exponent `-x` has the negated value of `x`. */
  lemma {:induction false} LowerNegValue(x: Expr, o: Options, st: Session, val: string -> real)
    requires NamedEnv(o.env) && LowerNeg(x, o, st).Ok? && EvalExpr(x, val).Some?
    ensures EvalTerm(LowerNeg(x, o, st).value.term, val) == Some(-EvalExpr(x, val).value)
    decreases x, 4
  {
    if NegativePower(x) {
      NegPowerNegValue(x, o, st, val);
    } else if !x.Num? {
      PlainNegValue(x, o, st, val);
    }
  }

  lemma {:induction false} NegPowerNegValue(x: Expr, o: Options, st: Session, val: string -> real)
    requires NamedEnv(o.env) && NegativePower(x) && LowerNeg(x, o, st).Ok? && EvalExpr(x, val).Some?
    ensures EvalTerm(LowerNeg(x, o, st).value.term, val) == Some(-EvalExpr(x, val).value)
    decreases x, 3
  {
    assert x.base < x;
    var bt := Lower(x.base, o, st).value.term;
    assert LowerNeg(x, o, st).value.term == App(DIVISION, [Real(-1.0), App(POW, [bt, Real(-x.exponent.value)])]);
    LowerPreservesValue(x.base, o, st, val);
    NegatedReciprocal(x, bt, val);
  }

  lemma {:induction false} PlainNegValue(x: Expr, o: Options, st: Session, val: string -> real)
    requires NamedEnv(o.env) && !NegativePower(x) && !x.Num? && LowerNeg(x, o, st).Ok? && EvalExpr(x, val).Some?
    ensures EvalTerm(LowerNeg(x, o, st).value.term, val) == Some(-EvalExpr(x, val).value)
    decreases x, 3
  {
    var xt := Lower(x, o, st).value.term;
    assert LowerNeg(x, o, st).value.term == App(MULT, [Real(-1.0), xt]);
    LowerPreservesValue(x, o, st, val);
    NegatedProduct(xt, val);
  }

  /** `DIVISION(-1, POW(base, -exp))` has the negated value of a negative
      power. */
  lemma NegatedReciprocal(a: Expr, bt: Term, val: string -> real)
    requires NegativePower(a) && EvalExpr(a, val).Some?
    requires EvalTerm(bt, val) == EvalExpr(a.base, val)
    ensures EvalTerm(App(DIVISION, [Real(-1.0), App(POW, [bt, Real(-a.exponent.value)])]), val)
      == Some(-EvalExpr(a, val).value)
  {
    var d := App(POW, [bt, Real(-a.exponent.value)]);
    DenominatorEntryValue(a, bt, val);
    DivisionValue(Real(-1.0), d, val);
    NegatedRecip(EvalTerm(d, val).value);
  }

  lemma NegatedRecip(p: real)
    requires p != 0.0
    ensures -1.0 / p == -Recip(p)
  {
  }

  /** `MULT(-1, t)` has the negated value of `t`. */
  lemma NegatedProduct(t: Term, val: string -> real)
    requires EvalTerm(t, val).Some?
    ensures EvalTerm(App(MULT, [Real(-1.0), t]), val) == Some(-EvalTerm(t, val).value)
  {
    var v := EvalTerm(t, val).value;
    EvalTermsPair(Real(-1.0), t, val);
    NegatedPair(v);
    assert EvalTerm(App(MULT, [Real(-1.0), t]), val) == Some(Product([-1.0, v]));
  }

  lemma NegatedPair(v: real)
    ensures Product([-1.0, v]) == -v
  {
    ProductSumSnoc([], -1.0);
    ProductSumSnoc([-1.0], v);
    assert [] + [-1.0] == [-1.0] && [-1.0] + [v] == [-1.0, v];
  }

  lemma {:induction false} SumPreservesValue(args: seq<Expr>, o: Options, st: Session, val: string -> real)
    requires NamedEnv(o.env) && Lower(Add(args), o, st).Ok? && EvalExpr(Add(args), val).Some?
    ensures EvalTerm(Lower(Add(args), o, st).value.term, val) == EvalExpr(Add(args), val)
    decreases args, 1
  {
    LowerAllPreservesValue(args, o, st, val);
    var kids := LowerAll(args, o, st).value.terms;
    var vs := EvalExprs(args, val).value;
    assert EvalExpr(Add(args), val) == Some(Sum(vs));
    if |kids| > 1 {
      assert Lower(Add(args), o, st).value.term == App(ADD, kids);
      SumTermValue(kids, val);
    } else {
      assert Lower(Add(args), o, st).value.term == kids[0];
      SingleSum(kids, vs, val);
    }
  }

  /** The sum of one term has the term's value. */
  lemma SingleSum(kids: seq<Term>, vs: seq<real>, val: string -> real)
    requires |kids| == 1 && EvalTerms(kids, val) == Some(vs)
    ensures EvalTerm(kids[0], val) == Some(Sum(vs))
  {
    EvalTermsSnoc([], kids[0], val);
    assert [] + [kids[0]] == kids;
    ProductSumSnoc([], vs[0]);
    assert [] + [vs[0]] == vs;
  }

  lemma {:induction false} ProductPreservesValue(args: seq<Expr>, o: Options, st: Session, val: string -> real)
    requires NamedEnv(o.env) && Lower(Mul(args), o, st).Ok? && EvalExpr(Mul(args), val).Some?
    ensures EvalTerm(Lower(Mul(args), o, st).value.term, val) == EvalExpr(Mul(args), val)
    decreases args, 1
  {
    SplitFactorsValue(args, o, st, val);
    var fs := SplitFactors(args, o, st).value;
    SplitQuotient(args, fs.numer, fs.denom, o.legacy, val);
  }

  /** A split whose values interleave lowers to a term with the product's
      value. */
  lemma SplitQuotient(args: seq<Expr>, numer: seq<Term>, denom: seq<Term>, legacy: bool, val: string -> real)
    requires SplitValue(args, numer, denom, val) && Prod(numer, legacy).Ok?
    requires denom != [] ==> Prod(denom, legacy).Ok?
    ensures EvalExpr(Mul(args), val).Some?
    ensures denom == [] ==> EvalTerm(Prod(numer, legacy).value, val) == EvalExpr(Mul(args), val)
    ensures denom != [] ==>
      EvalTerm(App(DIVISION, [Prod(numer, legacy).value, Prod(denom, legacy).value]), val) == EvalExpr(Mul(args), val)
  {
    var vs, ns, ds := EvalExprs(args, val).value, EvalTerms(numer, val).value, EvalTerms(denom, val).value;
    assert EvalExpr(Mul(args), val) == Some(Product(vs));
    InterleaveProduct(vs, ns, ds);
    QuotientOf(Product(vs), Product(ds), Product(ns));
    ProdValue(numer, legacy, val);
    if denom == [] {
      QuotientOne(Product(ns), Product(vs));
    } else {
      ProdValue(denom, legacy, val);
      DivisionValue(Prod(numer, legacy).value, Prod(denom, legacy).value, val);
    }
  }

  lemma DivisionValue(n: Term, d: Term, val: string -> real)
    requires EvalTerm(n, val).Some? && EvalTerm(d, val).Some? && EvalTerm(d, val).value != 0.0
    ensures EvalTerm(App(DIVISION, [n, d]), val) == Some(EvalTerm(n, val).value / EvalTerm(d, val).value)
  {
    assert [n, d][0] == n && [n, d][1] == d;
  }

  lemma QuotientOne(pn: real, pv: real)
    requires pn / 1.0 == pv
    ensures pn == pv
  {
  }

  lemma {:induction false} LowerAllPreservesValue(args: seq<Expr>, o: Options, st: Session, val: string -> real)
    requires NamedEnv(o.env) && LowerAll(args, o, st).Ok? && EvalExprs(args, val).Some?
    ensures EvalTerms(LowerAll(args, o, st).value.terms, val) == EvalExprs(args, val)
    decreases args, 0
  {
    if args != [] {
      var pre := args[..|args| - 1];
      var a := args[|args| - 1];
      assert args == pre + [a];
      LowerAllPreservesValue(pre, o, st, val);
      var done := LowerAll(pre, o, st).value;
      LowerPreservesValue(a, o, done.st, val);
      var t := Lower(a, o, done.st).value.term;
      assert LowerAll(args, o, st).value.terms == done.terms + [t];
      EvalTermsSnoc(done.terms, t, val);
      EvalExprsSnoc(pre, a, val);
    }
  }

  lemma EvalTermsPair(a: Term, b: Term, val: string -> real)
    requires EvalTerm(a, val).Some? && EvalTerm(b, val).Some?
    ensures EvalTerms([a, b], val) == Some([EvalTerm(a, val).value, EvalTerm(b, val).value])
  {
    EvalTermsSnoc([], a, val);
    EvalTermsSnoc([a], b, val);
    assert [] + [a] == [a] && [a] + [b] == [a, b];
    var u, v := EvalTerm(a, val).value, EvalTerm(b, val).value;
    assert [] + [u] == [u] && [u] + [v] == [u, v];
  }

  lemma EvalTermsSnoc(ts: seq<Term>, t: Term, val: string -> real)
    ensures EvalTerms(ts + [t], val) ==
      if EvalTerms(ts, val).Some? && EvalTerm(t, val).Some?
      then Some(EvalTerms(ts, val).value + [EvalTerm(t, val).value])
      else None
  {
    var us := ts + [t];
    assert us[..|us| - 1] == ts;
    assert us[|us| - 1] == t;
  }

  lemma EvalExprsSnoc(es: seq<Expr>, e: Expr, val: string -> real)
    ensures EvalExprs(es + [e], val) ==
      if EvalExprs(es, val).Some? && EvalExpr(e, val).Some?
      then Some(EvalExprs(es, val).value + [EvalExpr(e, val).value])
      else None
  {
    var us := es + [e];
    assert us[..|us| - 1] == es;
    assert us[|us| - 1] == e;
  }

  lemma ProductSumSnoc(xs: seq<real>, x: real)
    ensures Product(xs + [x]) == Product(xs) * x
    ensures Sum(xs + [x]) == Sum(xs) + x
  {
    var us := xs + [x];
    assert us[..|us| - 1] == xs;
  }

  /** `b ** k` for a negative integer `k` is the reciprocal of `b ** -k`. */
  lemma NegativePowValue(b: real, k: real)
    requires k < 0.0 && PowValue(b, k).Some?
    ensures PowValue(b, -k).Some? && PowValue(b, -k).value != 0.0
    ensures PowValue(b, k).value == 1.0 / PowValue(b, -k).value
  {
    assert (-k).Floor == -(k.Floor);
    RPowNonZero(b, (-k).Floor as nat);
  }

  /** One step of the split, as `Lowering.SplitFactors` takes it. */
  lemma SplitFactorsSnoc(pre: seq<Expr>, a: Expr, o: Options, st: Session)
    requires SplitFactors(pre + [a], o, st).Ok?
    ensures SplitFactors(pre, o, st).Ok?
    ensures var before := SplitFactors(pre, o, st).value;
            var fs := SplitFactors(pre + [a], o, st).value;
            if NegativePower(a) then
              && Lower(a.base, o, before.st).Ok?
              && fs == Factors(before.numer,
                   before.denom + [App(POW, [Lower(a.base, o, before.st).value.term, Real(-a.exponent.value)])],
                   Lower(a.base, o, before.st).value.st)
            else
              && Lower(a, o, before.st).Ok?
              && fs == Factors(before.numer + [Lower(a, o, before.st).value.term], before.denom,
                                Lower(a, o, before.st).value.st)
  {
    var args := pre + [a];
    assert args[..|args| - 1] == pre;
    assert args[|args| - 1] == a;
  }

  /** The factors' values are the numerator's merged with the reciprocals of
      the denominator's. */
  predicate SplitValue(es: seq<Expr>, numer: seq<Term>, denom: seq<Term>, val: string -> real)
  {
    && EvalExprs(es, val).Some? && EvalTerms(numer, val).Some? && EvalTerms(denom, val).Some?
    && Interleaves(EvalExprs(es, val).value, EvalTerms(numer, val).value, EvalTerms(denom, val).value)
  }

  lemma {:induction false} SplitFactorsValue(args: seq<Expr>, o: Options, st: Session, val: string -> real)
    requires NamedEnv(o.env) && SplitFactors(args, o, st).Ok? && EvalExprs(args, val).Some?
    ensures SplitValue(args, SplitFactors(args, o, st).value.numer, SplitFactors(args, o, st).value.denom, val)
    decreases args, 0
  {
    if args == [] {
      return;
    }
    var pre := args[..|args| - 1];
    var a := args[|args| - 1];
    assert args == pre + [a];
    EvalExprsSnoc(pre, a, val);
    SplitFactorsSnoc(pre, a, o, st);
    SplitFactorsValue(pre, o, st, val);
    var before := SplitFactors(pre, o, st).value;
    if NegativePower(a) {
      NegativeFactorValue(pre, a, o, before, val);
    } else {
      PlainFactorValue(pre, a, o, before, val);
    }
  }

  lemma {:induction false} NegativeFactorValue(pre: seq<Expr>, a: Expr, o: Options, before: Factors, val: string -> real)
    requires NamedEnv(o.env) && NegativePower(a) && EvalExpr(a, val).Some?
    requires SplitValue(pre, before.numer, before.denom, val) && Lower(a.base, o, before.st).Ok?
    ensures SplitValue(pre + [a], before.numer,
                       before.denom + [App(POW, [Lower(a.base, o, before.st).value.term, Real(-a.exponent.value)])], val)
    decreases a, 0
  {
    assert a.base < a;
    LowerPreservesValue(a.base, o, before.st, val);
    NegativeFactorStep(pre, a, before.numer, before.denom, Lower(a.base, o, before.st).value.term, val);
  }

  lemma {:induction false} PlainFactorValue(pre: seq<Expr>, a: Expr, o: Options, before: Factors, val: string -> real)
    requires NamedEnv(o.env) && EvalExpr(a, val).Some?
    requires SplitValue(pre, before.numer, before.denom, val) && Lower(a, o, before.st).Ok?
    ensures SplitValue(pre + [a], before.numer + [Lower(a, o, before.st).value.term], before.denom, val)
    decreases a, 3
  {
    LowerPreservesValue(a, o, before.st, val);
    PlainFactorStep(pre, a, before.numer, before.denom, Lower(a, o, before.st).value.term, val);
  }

  lemma NegativeFactorStep(pre: seq<Expr>, a: Expr, numer: seq<Term>, denom: seq<Term>, bt: Term, val: string -> real)
    requires NegativePower(a) && EvalExpr(a, val).Some?
    requires SplitValue(pre, numer, denom, val)
    requires EvalTerm(bt, val) == EvalExpr(a.base, val)
    ensures SplitValue(pre + [a], numer, denom + [App(POW, [bt, Real(-a.exponent.value)])], val)
  {
    DenominatorEntryValue(a, bt, val);
    DenominatorStep(pre, a, numer, denom, App(POW, [bt, Real(-a.exponent.value)]), val);
  }

  /** Appending a factor to the product and a term of reciprocal value to
      the denominator keeps the interleaving. */
  lemma DenominatorStep(pre: seq<Expr>, a: Expr, numer: seq<Term>, denom: seq<Term>, d: Term, val: string -> real)
    requires SplitValue(pre, numer, denom, val)
    requires EvalExpr(a, val).Some? && EvalTerm(d, val).Some?
    requires EvalTerm(d, val).value != 0.0 && EvalExpr(a, val).value == Recip(EvalTerm(d, val).value)
    ensures SplitValue(pre + [a], numer, denom + [d], val)
  {
    var vs, ns, ds := EvalExprs(pre, val).value, EvalTerms(numer, val).value, EvalTerms(denom, val).value;
    var v, p := EvalExpr(a, val).value, EvalTerm(d, val).value;
    assert EvalExprs(pre + [a], val) == Some(vs + [v]) by {
      EvalExprsSnoc(pre, a, val);
    }
    assert EvalTerms(denom + [d], val) == Some(ds + [p]) by {
      EvalTermsSnoc(denom, d, val);
    }
    assert Interleaves(vs + [v], ns, ds + [p]) by {
      InterleaveDenominator(vs, ns, ds, v, p);
    }
  }

  /** The denominator entry `POW(base, -exp)` of a negative power has the
      reciprocal of the power's value. */
  lemma DenominatorEntryValue(a: Expr, bt: Term, val: string -> real)
    requires NegativePower(a) && EvalExpr(a, val).Some?
    requires EvalTerm(bt, val) == EvalExpr(a.base, val)
    ensures EvalTerm(App(POW, [bt, Real(-a.exponent.value)]), val).Some?
    ensures EvalTerm(App(POW, [bt, Real(-a.exponent.value)]), val).value != 0.0
    ensures EvalExpr(a, val).value == Recip(EvalTerm(App(POW, [bt, Real(-a.exponent.value)]), val).value)
  {
    var k := a.exponent.value;
    var bv := EvalExpr(a.base, val).value;
    assert EvalExpr(a, val) == PowValue(bv, k);
    NegativePowValue(bv, k);
    var p := PowValue(bv, -k).value;
    assert EvalTerm(App(POW, [bt, Real(-k)]), val) == Some(p);
  }

  lemma PlainFactorStep(pre: seq<Expr>, a: Expr, numer: seq<Term>, denom: seq<Term>, t: Term, val: string -> real)
    requires EvalExpr(a, val).Some?
    requires SplitValue(pre, numer, denom, val)
    requires EvalTerm(t, val) == EvalExpr(a, val)
    ensures SplitValue(pre + [a], numer + [t], denom, val)
  {
    EvalExprsSnoc(pre, a, val);
    EvalTermsSnoc(numer, t, val);
    InterleaveNumerator(EvalExprs(pre, val).value, EvalTerms(numer, val).value, EvalTerms(denom, val).value,
                        EvalExpr(a, val).value);
  }
}
