/** `_parse` of test2.py (and the identical one of test.py), with the
    older ground variant of test1.py as an option: the lowering of a SymPy
    tree to a cvc5 term, as a function of the session it runs in. The
    imperative version, which changes a `Solver` object step by step, is
    `Parser.Parse`; it is proved to compute exactly this. */
module Lowering {
  import opened Wrappers
  import opened SymExpr
  import opened SolverTerm

  /** How `_parse` is called. `env` maps names to bound variables; with
      `sideEffects` a `log` asserts its two local side conditions; `legacy`
      selects test1.py's product and sum code (no `_prod` helper). test1.py's
      `_parse(b, s)` is `Options(map[], true, true)`. */
  datatype Options = Options(env: map<string, Term>, sideEffects: bool, legacy: bool)

  const Test1Options := Options(map[], true, true)

  /** The factors of a product after the numerator/denominator split. */
  datatype Factors = Factors(numer: seq<Term>, denom: seq<Term>, st: Session)

  /** The terms of a list of sub-expressions, lowered left to right. */
  datatype BuiltAll = BuiltAll(terms: seq<Term>, st: Session)

  function RelKind(op: RelOp): Kind
    requires op != Eq && op != Ne
  {
    match op
    case Le => LEQ
    case Lt => LT
    case Ge => GEQ
    case Gt => GT
  }

  /** The native cvc5 operator of an elementary function other than `log`. */
  function FnKind(f: Fn): Kind
    requires f != Log
  {
    match f
    case Exp => EXPONENTIAL
    case Sin => SINE
    case Cos => COSINE
    case Tan => TANGENT
    case Asin => ARCSINE
    case Acos => ARCCOSINE
    case Atan => ARCTANGENT
  }

  /** `_prod`: literal 1 for no factors, the factor itself for one, one n-ary
      MULT otherwise. In the legacy code the case of no factors indexes an
      empty list. */
  function Prod(ts: seq<Term>, legacy: bool): Result<Term>
  {
    if |ts| > 1 then Ok(App(MULT, ts))
    else if |ts| == 1 then Ok(ts[0])
    else if legacy then Err(IndexError("numer_args[0]"))
    else Ok(Real(1.0))
  }

  /** The two local side conditions of a `log` occurrence: `x > 0` and
      `exp(LOG(x)) = x`. */
  function LogSideConditions(x: Term, app: Term): seq<Term>
  {
    [App(GT, [x, Real(0.0)]), App(EQUAL, [App(EXPONENTIAL, [app]), x])]
  }

  /** `_parse(e, s, env, side_effects)` run on a session in state `st`. */
  function Lower(e: Expr, o: Options, st: Session): Result<Built>
    decreases e, 1
  {
    match e
    case Sym(n) =>
      if n in o.env then Ok(Built(o.env[n], st)) else Ok(MkConst(st, n))
    case Num(v) => Ok(Built(Real(v), st))
    case Rel(op, l, r) =>
      if op == Eq || op == Ne then Err(Unsupported("relation"))
      else
        var lb :- Lower(l, o, st);
        var rb :- Lower(r, o, lb.st);
        Ok(Built(App(RelKind(op), [lb.term, rb.term]), rb.st))
    case Add(args) =>
      var kids :- LowerAll(args, o, st);
      if |kids.terms| > 1 then Ok(Built(App(ADD, kids.terms), kids.st))
      else if o.legacy then Err(SolverError("ADD"))
      else if |kids.terms| == 1 then Ok(Built(kids.terms[0], kids.st))
      else Err(IndexError("kids[0]"))
    case Pow(b, x) =>
      if UnitFraction(b) then
        var xb :- LowerNeg(x, o, st);
        Ok(Built(App(POW, [Real(1.0 / b.value), xb.term]), xb.st))
      else
        var bb :- Lower(b, o, st);
        var xb :- Lower(x, o, bb.st);
        Ok(Built(App(POW, [bb.term, xb.term]), xb.st))
    case Mul(args) =>
      var fs :- SplitFactors(args, o, st);
      var numer :- Prod(fs.numer, o.legacy);
      if fs.denom == [] then Ok(Built(numer, fs.st))
      else
        var denom :- Prod(fs.denom, o.legacy);
        Ok(Built(App(DIVISION, [numer, denom]), fs.st))
    case Call(f, a) =>
      var ab :- Lower(a, o, st);
      if f != Log then Ok(Built(App(FnKind(f), [ab.term]), ab.st))
      else
        var (lg, st1) := GetLog(ab.st);
        var app := ApplyUF(lg, ab.term);
        if o.sideEffects then
          Ok(Built(app, st1.(asserted := st1.asserted + LogSideConditions(ab.term, app))))
        else Ok(Built(app, st1))
    case Other(h, _) => Err(Unsupported(h))
  }

  /** The exponent `-x` of `as_base_exp`, lowered: the negated literal for a
      number, else the product branch run on the factors `-1` and `x` (with
      `x` a negative power moved below the line). */
  function LowerNeg(x: Expr, o: Options, st: Session): Result<Built>
    decreases x, 2
  {
    if x.Num? then Ok(Built(Real(-x.value), st))
    else if NegativePower(x) then
      var bb :- Lower(x.base, o, st);
      Ok(Built(App(DIVISION, [Real(-1.0), App(POW, [bb.term, Real(-x.exponent.value)])]), bb.st))
    else
      var xb :- Lower(x, o, st);
      Ok(Built(App(MULT, [Real(-1.0), xb.term]), xb.st))
  }

  /** The list comprehension `[_parse(arg, ...) for arg in args]`, one
      argument after the other; defined on the last argument so that it
      follows the loop of `Parser.Parse` step by step. */
  function LowerAll(args: seq<Expr>, o: Options, st: Session): Result<BuiltAll>
    decreases args, 0
  {
    if args == [] then Ok(BuiltAll([], st))
    else
      var done :- LowerAll(args[..|args| - 1], o, st);
      var b :- Lower(args[|args| - 1], o, done.st);
      Ok(BuiltAll(done.terms + [b.term], b.st))
  }

  /** The loop of the product branch over `args`: a factor that is a power
      with a negative literal exponent contributes `POW(base, -exp)` to the
      denominator, every other factor its own term to the numerator. */
  function SplitFactors(args: seq<Expr>, o: Options, st: Session): Result<Factors>
    decreases args, 0
  {
    if args == [] then Ok(Factors([], [], st))
    else
      var fs :- SplitFactors(args[..|args| - 1], o, st);
      var a := args[|args| - 1];
      if NegativePower(a) then
        assert a.base < a;
        var bb :- Lower(a.base, o, fs.st);
        Ok(Factors(fs.numer, fs.denom + [App(POW, [bb.term, Real(-a.exponent.value)])], bb.st))
      else
        var ab :- Lower(a, o, fs.st);
        Ok(Factors(fs.numer + [ab.term], fs.denom, ab.st))
  }
}
