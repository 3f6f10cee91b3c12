/** `_parse` as the source runs it: a recursive method that builds the term
    while it changes the solver (fresh constants, the `LOG` declaration, the
    side conditions of `log`), with the loops of the sum and product
    branches. Its contract ties the result and the new solver state to
    `Lowering.Lower`. */
module Parser {
  import opened Wrappers
  import opened SymExpr
  import opened SolverTerm
  import opened Lowering
  import opened Cvc5

  /** The term part of a lowering outcome. */
  function TermOf(r: Result<Built>): Result<Term>
  {
    match r
    case Ok(b) => Ok(b.term)
    case Err(x) => Err(x)
  }

  /** Once a prefix of the arguments fails, the whole list fails the same way. */
  lemma {:induction false} LowerAllPrefixFails(args: seq<Expr>, i: nat, o: Options, st: Session)
    requires i <= |args| && LowerAll(args[..i], o, st).Err?
    ensures LowerAll(args, o, st) == LowerAll(args[..i], o, st)
    decreases |args| - i
  {
    if i < |args| {
      assert args[..i + 1][..i] == args[..i];
      LowerAllPrefixFails(args, i + 1, o, st);
    } else {
      assert args[..i] == args;
    }
  }

  lemma {:induction false} SplitFactorsPrefixFails(args: seq<Expr>, i: nat, o: Options, st: Session)
    requires i <= |args| && SplitFactors(args[..i], o, st).Err?
    ensures SplitFactors(args, o, st) == SplitFactors(args[..i], o, st)
    decreases |args| - i
  {
    if i < |args| {
      assert args[..i + 1][..i] == args[..i];
      SplitFactorsPrefixFails(args, i + 1, o, st);
    } else {
      assert args[..i] == args;
    }
  }

  /** `_parse(e, s, env, side_effects)`. */
  method Parse(s: Solver, e: Expr, o: Options) returns (r: Result<Term>)
    modifies s
    ensures r == TermOf(Lower(e, o, old(s.State())))
    ensures r.Ok? ==> s.State() == Lower(e, o, old(s.State())).value.st
    decreases e, 1
  {
    match e
    case Sym(n) =>
      if n in o.env {
        r := Ok(o.env[n]);
      } else {
        var c := s.MkConst(n);
        r := Ok(c);
      }
    case Num(v) =>
      r := Ok(Real(v));
    case Rel(op, lhs, rhs) =>
      if op == Eq || op == Ne {
        r := Err(Unsupported("relation"));
        return;
      }
      var lt := Parse(s, lhs, o);
      if lt.Err? { r := Err(lt.error); return; }
      var rt := Parse(s, rhs, o);
      if rt.Err? { r := Err(rt.error); return; }
      r := Ok(App(RelKind(op), [lt.value, rt.value]));
    case Add(args) =>
      var kids := ParseAll(s, args, o);
      if kids.Err? { r := Err(kids.error); return; }
      if |kids.value| > 1 {
        r := Ok(App(ADD, kids.value));
      } else if o.legacy {
        r := Err(SolverError("ADD"));
      } else if |kids.value| == 1 {
        r := Ok(kids.value[0]);
      } else {
        r := Err(IndexError("kids[0]"));
      }
    case Pow(b, x) =>
      if UnitFraction(b) {
        var nt := ParseNeg(s, x, o);
        if nt.Err? { r := Err(nt.error); return; }
        r := Ok(App(POW, [Real(1.0 / b.value), nt.value]));
        return;
      }
      var bt := Parse(s, b, o);
      if bt.Err? { r := Err(bt.error); return; }
      var xt := Parse(s, x, o);
      if xt.Err? { r := Err(xt.error); return; }
      r := Ok(App(POW, [bt.value, xt.value]));
    case Mul(args) =>
      r := ParseProduct(s, args, o);
    case Call(f, a) =>
      var at := Parse(s, a, o);
      if at.Err? { r := Err(at.error); return; }
      if f != Log {
        r := Ok(App(FnKind(f), [at.value]));
      } else {
        var lg := s.GetLog();
        var app := ApplyUF(lg, at.value);
        if o.sideEffects {
          s.AssertFormula(App(GT, [at.value, Real(0.0)]));
          s.AssertFormula(App(EQUAL, [App(EXPONENTIAL, [app]), at.value]));
        }
        r := Ok(app);
      }
    case Other(h, _) =>
      r := Err(Unsupported(h));
  }

  /** `_parse` of the exponent `-x` that `as_base_exp` hands back: the
      negated literal, or the product branch on the factors `-1` and `x`. */
  method ParseNeg(s: Solver, x: Expr, o: Options) returns (r: Result<Term>)
    modifies s
    ensures r == TermOf(LowerNeg(x, o, old(s.State())))
    ensures r.Ok? ==> s.State() == LowerNeg(x, o, old(s.State())).value.st
    decreases x, 2
  {
    if x.Num? {
      r := Ok(Real(-x.value));
    } else if NegativePower(x) {
      assert x.base < x;
      var bt := Parse(s, x.base, o);
      if bt.Err? { r := Err(bt.error); return; }
      r := Ok(App(DIVISION, [Real(-1.0), App(POW, [bt.value, Real(-x.exponent.value)])]));
    } else {
      var xt := Parse(s, x, o);
      if xt.Err? { r := Err(xt.error); return; }
      r := Ok(App(MULT, [Real(-1.0), xt.value]));
    }
  }

  /** `[_parse(arg, s, env, side_effects) for arg in args]`. */
  method ParseAll(s: Solver, args: seq<Expr>, o: Options) returns (r: Result<seq<Term>>)
    modifies s
    ensures LowerAll(args, o, old(s.State())).Ok? ==>
      r == Ok(LowerAll(args, o, old(s.State())).value.terms) && s.State() == LowerAll(args, o, old(s.State())).value.st
    ensures LowerAll(args, o, old(s.State())).Err? ==> r == Err(LowerAll(args, o, old(s.State())).error)
    decreases args, 0
  {
    var kids: seq<Term> := [];
    var i := 0;
    while i < |args|
      invariant 0 <= i <= |args|
      invariant LowerAll(args[..i], o, old(s.State())) == Ok(BuiltAll(kids, s.State()))
    {
      var t := Parse(s, args[i], o);
      assert args[..i + 1][..i] == args[..i];
      if t.Err? {
        LowerAllPrefixFails(args, i + 1, o, old(s.State()));
        r := Err(t.error);
        return;
      }
      kids := kids + [t.value];
      i := i + 1;
    }
    assert args[..i] == args;
    r := Ok(kids);
  }

  /** The product branch: fill `numer_args` and `den_args` in one pass, then
      combine them with `_prod` and, when there is a denominator, DIVISION. */
  method ParseProduct(s: Solver, args: seq<Expr>, o: Options) returns (r: Result<Term>)
    modifies s
    ensures r == TermOf(Lower(Mul(args), o, old(s.State())))
    ensures r.Ok? ==> s.State() == Lower(Mul(args), o, old(s.State())).value.st
    decreases args, 0
  {
    var numer: seq<Term> := [];
    var den: seq<Term> := [];
    var i := 0;
    while i < |args|
      invariant 0 <= i <= |args|
      invariant SplitFactors(args[..i], o, old(s.State())) == Ok(Factors(numer, den, s.State()))
    {
      var a := args[i];
      assert args[..i + 1][..i] == args[..i];
      if NegativePower(a) {
        assert a.base < a;
        var bt := Parse(s, a.base, o);
        if bt.Err? {
          SplitFactorsPrefixFails(args, i + 1, o, old(s.State()));
          r := Err(bt.error);
          return;
        }
        den := den + [App(POW, [bt.value, Real(-a.exponent.value)])];
      } else {
        var at := Parse(s, a, o);
        if at.Err? {
          SplitFactorsPrefixFails(args, i + 1, o, old(s.State()));
          r := Err(at.error);
          return;
        }
        numer := numer + [at.value];
      }
      i := i + 1;
    }
    assert args[..i] == args;
    var nt := Prod(numer, o.legacy);
    if nt.Err? { r := Err(nt.error); return; }
    if den == [] {
      r := Ok(nt.value);
    } else {
      var dt := Prod(den, o.legacy);
      if dt.Err? { r := Err(dt.error); return; }
      r := Ok(App(DIVISION, [nt.value, dt.value]));
    }
  }
}
