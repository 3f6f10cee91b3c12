/** `CVC5Encoder` of z3_experiments.py: a SymPy-to-cvc5 encoder that keeps
    one constant per name in its `vars` cache, collects the side constraints
    of `log` in `side_constraints` instead of asserting them, and names the
    constant standing for each `log` by a counter `_gensym`. The functions
    give the encoding as a function of the encoder's state; the class does it
    by changing its fields, and its methods are proved to compute exactly
    the functions. Of the solver `slv` only its counter of fresh ids is
    kept, as `next`. */
module Encoder {
  import opened Wrappers
  import opened Text
  import opened SymExpr
  import opened SolverTerm

  /** The fields of the encoder. */
  datatype EncState = EncState(next: nat, vars: map<string, Term>, side: seq<Term>, gensym: nat)

  /** A term together with the encoder state after building it. */
  datatype Encoded = Encoded(term: Term, es: EncState)

  datatype EncodedAll = EncodedAll(terms: seq<Term>, es: EncState)

  /** A new encoder: no constant cached, no side constraint, counter 0. */
  const Start: EncState := EncState(0, map[], [], 0)

  /** `_const(name)`: the cached constant of `name`, made on first use. */
  function Cached(es: EncState, name: string): (r: Encoded)
    ensures name in r.es.vars && r.term == r.es.vars[name]
    ensures r.es.side == es.side && r.es.gensym == es.gensym
  {
    if name in es.vars then Encoded(es.vars[name], es)
    else
      var c := Const(es.next, name);
      Encoded(c, es.(next := es.next + 1, vars := es.vars[name := c]))
  }

  /** The name of the constant of the `n`-th `log`: `f"_log_{n}"`. */
  function LogName(n: nat): string
  {
    "_log_" + NatToString(n)
  }

  /** The relational operators of the table in `encode`; `!=` is not in it. */
  function RelTable(op: RelOp): Option<Kind>
  {
    match op
    case Eq => Some(EQUAL)
    case Ge => Some(GEQ)
    case Le => Some(LEQ)
    case Gt => Some(GT)
    case Lt => Some(LT)
    case Ne => None
  }

  /** `encode(expr)`. */
  function Encoding(e: Expr, es: EncState): Result<Encoded>
    decreases e, 1
  {
    match e
    case Sym(n) => Ok(Cached(es, n))
    case Num(v) => Ok(Encoded(Real(v), es))
    case Add(args) =>
      var kids :- EncodingAll(args, es);
      if |kids.terms| < 2 then Err(SolverError("ADD"))
      else Ok(Encoded(App(ADD, kids.terms), kids.es))
    case Mul(args) =>
      var kids :- EncodingAll(args, es);
      if |kids.terms| < 2 then Err(SolverError("MULT"))
      else Ok(Encoded(App(MULT, kids.terms), kids.es))
    case Pow(b, x) =>
      if UnitFraction(b) then
        var xb :- EncodingNeg(x, es);
        Ok(Encoded(App(POW, [Real(1.0 / b.value), xb.term]), xb.es))
      else
        var bb :- Encoding(b, es);
        var xb :- Encoding(x, bb.es);
        Ok(Encoded(App(POW, [bb.term, xb.term]), xb.es))
    case Call(f, a) =>
      if f == Exp then
        var ab :- Encoding(a, es);
        Ok(Encoded(App(EXPONENTIAL, [ab.term]), ab.es))
      else if f == Log then
        var ab :- Encoding(a, es);
        var y := Cached(ab.es, LogName(ab.es.gensym));
        var side := [App(EQUAL, [App(EXPONENTIAL, [y.term]), ab.term]), App(GT, [ab.term, Real(0.0)])];
        Ok(Encoded(y.term, y.es.(side := y.es.side + side, gensym := y.es.gensym + 1)))
      else Err(Unsupported("function"))
    case Rel(op, l, r) =>
      var lb :- Encoding(l, es);
      var rb :- Encoding(r, lb.es);
      var k := RelTable(op);
      if k.None? then Err(KeyError("!="))
      else Ok(Encoded(App(k.value, [lb.term, rb.term]), rb.es))
    case Other(h, _) => Err(Unsupported(h))
  }

  /** The exponent `-x` that `as_base_exp` hands back, encoded: the negated
      literal, or the product `MULT(-1, x)`. */
  function EncodingNeg(x: Expr, es: EncState): Result<Encoded>
    decreases x, 2
  {
    if x.Num? then Ok(Encoded(Real(-x.value), es))
    else
      var xb :- Encoding(x, es);
      Ok(Encoded(App(MULT, [Real(-1.0), xb.term]), xb.es))
  }

  /** `[self.encode(a) for a in expr.args]`, one argument after the other. */
  function EncodingAll(args: seq<Expr>, es: EncState): Result<EncodedAll>
    decreases args, 0
  {
    if args == [] then Ok(EncodedAll([], es))
    else
      var done :- EncodingAll(args[..|args| - 1], es);
      var b :- Encoding(args[|args| - 1], done.es);
      Ok(EncodedAll(done.terms + [b.term], b.es))
  }

  class CVC5Encoder {
    var next: nat
    var vars: map<string, Term>
    var sideConstraints: seq<Term>
    var gensym: nat

    function State(): EncState
      reads this
    {
      EncState(next, vars, sideConstraints, gensym)
    }

    /** `__init__`. */
    constructor ()
      ensures State() == Start
    {
      next, vars, sideConstraints, gensym := 0, map[], [], 0;
    }

    /** `_const(name)`. */
    method CachedConst(name: string) returns (t: Term)
      modifies this
      ensures Encoded(t, State()) == Cached(old(State()), name)
    {
      if name !in vars {
        vars := vars[name := Const(next, name)];
        next := next + 1;
      }
      t := vars[name];
    }

    /** `encode(expr)`. */
    method Encode(e: Expr) returns (r: Result<Term>)
      modifies this
      ensures Encoding(e, old(State())).Ok? ==>
        r == Ok(Encoding(e, old(State())).value.term) && State() == Encoding(e, old(State())).value.es
      ensures Encoding(e, old(State())).Err? ==> r == Err(Encoding(e, old(State())).error)
      decreases e, 1
    {
      match e
      case Sym(n) =>
        var c := CachedConst(n);
        r := Ok(c);
      case Num(v) =>
        r := Ok(Real(v));
      case Add(args) =>
        var kids := EncodeAll(args);
        if kids.Err? { return Err(kids.error); }
        if |kids.value| < 2 { return Err(SolverError("ADD")); }
        r := Ok(App(ADD, kids.value));
      case Mul(args) =>
        var kids := EncodeAll(args);
        if kids.Err? { return Err(kids.error); }
        if |kids.value| < 2 { return Err(SolverError("MULT")); }
        r := Ok(App(MULT, kids.value));
      case Pow(b, x) =>
        if UnitFraction(b) {
          var nt := EncodeNeg(x);
          if nt.Err? { return Err(nt.error); }
          return Ok(App(POW, [Real(1.0 / b.value), nt.value]));
        }
        var bt := Encode(b);
        if bt.Err? { return Err(bt.error); }
        var xt := Encode(x);
        if xt.Err? { return Err(xt.error); }
        r := Ok(App(POW, [bt.value, xt.value]));
      case Call(f, a) =>
        if f == Exp {
          var at := Encode(a);
          if at.Err? { return Err(at.error); }
          r := Ok(App(EXPONENTIAL, [at.value]));
        } else if f == Log {
          var xt := Encode(a);
          if xt.Err? { return Err(xt.error); }
          var y := CachedConst(LogName(gensym));
          gensym := gensym + 1;
          sideConstraints := sideConstraints + [App(EQUAL, [App(EXPONENTIAL, [y]), xt.value])];
          sideConstraints := sideConstraints + [App(GT, [xt.value, Real(0.0)])];
          r := Ok(y);
        } else {
          r := Err(Unsupported("function"));
        }
      case Rel(op, lhs, rhs) =>
        var lt := Encode(lhs);
        if lt.Err? { return Err(lt.error); }
        var rt := Encode(rhs);
        if rt.Err? { return Err(rt.error); }
        var k := RelTable(op);
        if k.None? {
          r := Err(KeyError("!="));
        } else {
          r := Ok(App(k.value, [lt.value, rt.value]));
        }
      case Other(h, _) =>
        r := Err(Unsupported(h));
    }

    /** `self.encode(-x)` for the exponent `-x` of `as_base_exp`. */
    method EncodeNeg(x: Expr) returns (r: Result<Term>)
      modifies this
      ensures EncodingNeg(x, old(State())).Ok? ==>
        r == Ok(EncodingNeg(x, old(State())).value.term) && State() == EncodingNeg(x, old(State())).value.es
      ensures EncodingNeg(x, old(State())).Err? ==> r == Err(EncodingNeg(x, old(State())).error)
      decreases x, 2
    {
      if x.Num? {
        r := Ok(Real(-x.value));
      } else {
        var xt := Encode(x);
        if xt.Err? { return Err(xt.error); }
        r := Ok(App(MULT, [Real(-1.0), xt.value]));
      }
    }

    /** `[self.encode(a) for a in args]`. */
    method EncodeAll(args: seq<Expr>) returns (r: Result<seq<Term>>)
      modifies this
      ensures EncodingAll(args, old(State())).Ok? ==>
        r == Ok(EncodingAll(args, old(State())).value.terms)
        && State() == EncodingAll(args, old(State())).value.es
      ensures EncodingAll(args, old(State())).Err? ==> r == Err(EncodingAll(args, old(State())).error)
      decreases args, 0
    {
      ghost var es0 := State();
      var kids: seq<Term> := [];
      var i := 0;
      while i < |args|
        invariant 0 <= i <= |args|
        invariant EncodingAll(args[..i], es0) == Ok(EncodedAll(kids, State()))
      {
        assert args[..i + 1][..i] == args[..i];
        var t := Encode(args[i]);
        if t.Err? {
          EncodeAllPrefixFails(args, i + 1, es0);
          return Err(t.error);
        }
        kids := kids + [t.value];
        i := i + 1;
      }
      assert args[..i] == args;
      r := Ok(kids);
    }
  }

  /** Once a prefix of the arguments fails, the whole list fails the same way. */
  lemma {:induction false} EncodeAllPrefixFails(args: seq<Expr>, i: nat, es: EncState)
    requires i <= |args| && EncodingAll(args[..i], es).Err?
    ensures EncodingAll(args, es) == EncodingAll(args[..i], es)
    decreases |args| - i
  {
    if i < |args| {
      assert args[..i + 1][..i] == args[..i];
      EncodeAllPrefixFails(args, i + 1, es);
    } else {
      assert args[..i] == args;
    }
  }
}
