/** What `Encoder.Encoding` promises: `_const` is idempotent and the cache
    only grows, each `log` adds exactly one counter step and two side
    constraints, sums and products stay n-ary, the relation table, and the
    encoded term means what the SymPy tree means. */
module EncoderProps {
  import opened Wrappers
  import opened Text
  import opened SymExpr
  import opened SolverTerm
  import opened Semantics
  import opened LoweringProps
  import opened Encoder
  import LoweringScope

  /** A second `_const` of the same name returns the same handle and changes
      nothing; the first one adds exactly that name to the cache, with a new
      constant when the name was not cached. */
  lemma CachedIdempotent(es: EncState, name: string)
    ensures var a := Cached(es, name);
            && Cached(a.es, name) == a
            && a.es.vars.Keys == es.vars.Keys + {name}
            && (name in es.vars ==> a == Encoded(es.vars[name], es))
            && (name !in es.vars ==> a.term == Const(es.next, name) && a.es.next == es.next + 1)
  {
  }

  /** `new` extends `old`: the cache keeps every entry, the side constraints
      and the fresh ids only grow. */
  predicate Extends(old_: EncState, new_: EncState)
  {
    && (forall n :: n in old_.vars ==> n in new_.vars && new_.vars[n] == old_.vars[n])
    && old_.side <= new_.side
    && old_.next <= new_.next
  }

  lemma ExtendsTrans(a: EncState, b: EncState, c: EncState)
    requires Extends(a, b) && Extends(b, c)
    ensures Extends(a, c)
  {
  }

  /** One encoding call: the cache is extended, every name of the tree is
      cached, and each `log` adds one counter step and two side
      constraints. */
  lemma {:induction false} EncodingState(e: Expr, es: EncState)
    requires Encoding(e, es).Ok?
    ensures var es' := Encoding(e, es).value.es;
            && Extends(es, es')
            && (forall n :: n in Names(e) ==> n in es'.vars)
            && es'.gensym == es.gensym + LogCount(e)
            && |es'.side| == |es.side| + 2 * LogCount(e)
    decreases e, 1
  {
    match e
    case Sym(_) =>
    case Num(_) =>
    case Add(args) => EncodingAllState(args, es);
    case Mul(args) => EncodingAllState(args, es);
    case Pow(b, x) =>
      if UnitFraction(b) {
        if !x.Num? {
          EncodingState(x, es);
        }
      } else {
        var bb := Encoding(b, es).value;
        EncodingState(b, es);
        EncodingState(x, bb.es);
      }
    case Call(f, a) =>
      var ab := Encoding(a, es).value;
      EncodingState(a, es);
      if f == Log {
        var y := Cached(ab.es, LogName(ab.es.gensym));
        assert Extends(ab.es, y.es);
      }
    case Rel(_, l, r) =>
      var lb := Encoding(l, es).value;
      EncodingState(l, es);
      EncodingState(r, lb.es);
  }

  lemma {:induction false} EncodingAllState(args: seq<Expr>, es: EncState)
    requires EncodingAll(args, es).Ok?
    ensures var es' := EncodingAll(args, es).value.es;
            && Extends(es, es')
            && (forall n :: n in NamesAll(args) ==> n in es'.vars)
            && es'.gensym == es.gensym + LogCountAll(args)
            && |es'.side| == |es.side| + 2 * LogCountAll(args)
            && |EncodingAll(args, es).value.terms| == |args|
    decreases args, 0
  {
    if args != [] {
      var pre, a := args[..|args| - 1], args[|args| - 1];
      assert args == pre + [a];
      LoweringScope.NamesAllSnoc(pre, a);
      EncodingAllState(pre, es);
      var done := EncodingAll(pre, es).value;
      EncodingState(a, done.es);
    }
  }

  /** `log(x)`: the result is the cached constant `_log_<n>` for the counter
      `n` at that point, the counter goes up by exactly one, and exactly
      `exp(y) = x` and then `x > 0` are appended to the side constraints. */
  lemma LogEncoding(a: Expr, es: EncState)
    requires Encoding(Call(Log, a), es).Ok?
    ensures var x := Encoding(a, es).value;
            var r := Encoding(Call(Log, a), es).value;
            var n := x.es.gensym;
            && LogName(n) in r.es.vars && r.term == r.es.vars[LogName(n)]
            && r.es.gensym == n + 1
            && r.es.side == x.es.side + [App(EQUAL, [App(EXPONENTIAL, [r.term]), x.term]), App(GT, [x.term, Real(0.0)])]
  {
  }

  /** Two `log`s with different counters get constants of different names. */
  lemma LogNamesDistinct(m: nat, n: nat)
    requires m != n
    ensures LogName(m) != LogName(n)
  {
    if LogName(m) == LogName(n) {
      assert NatToString(m) == LogName(m)[5..];
      assert NatToString(n) == LogName(n)[5..];
      NatToStringInjective(m, n);
    }
  }

  /** Sums and products stay one n-ary term over all encoded arguments:
      nothing is moved into a DIVISION. */
  lemma NaryEncoding(args: seq<Expr>, es: EncState)
    requires Encoding(Add(args), es).Ok? || Encoding(Mul(args), es).Ok?
    ensures EncodingAll(args, es).Ok? && |args| >= 2
    ensures var ts := EncodingAll(args, es).value.terms;
            && |ts| == |args|
            && (Encoding(Add(args), es).Ok? ==> Encoding(Add(args), es).value.term == App(ADD, ts))
            && (Encoding(Mul(args), es).Ok? ==> Encoding(Mul(args), es).value.term == App(MULT, ts))
  {
    EncodingAllState(args, es);
  }

  /** cvc5 refuses a sum or a product of fewer than two terms: once the
      arguments are encoded, such a sum or product fails. SymPy's `Add` and
      `Mul` always have two arguments or more. */
  lemma ShortNaryFails(args: seq<Expr>, es: EncState)
    requires |args| < 2 && EncodingAll(args, es).Ok?
    ensures Encoding(Add(args), es) == Err(SolverError("ADD"))
    ensures Encoding(Mul(args), es) == Err(SolverError("MULT"))
  {
    EncodingAllState(args, es);
  }

  /** The encoder takes a power apart with `as_base_exp`: `(1/q)**x` is
      encoded as `POW(q, -x)`, every other power as its own base and
      exponent. */
  lemma EncodingPowAsBaseExp(b: Expr, x: Expr, es: EncState)
    ensures Encoding(Pow(b, x), es) == PowEncoding(AsBaseExp(b, x).0, AsBaseExp(b, x).1, es)
  {
    if UnitFraction(b) {
      EncodingNegIsNegate(x, es);
    }
  }

  /** The power branch as the source writes it, on the pair `as_base_exp`
      hands back. */
  function PowEncoding(c: Expr, y: Expr, es: EncState): Result<Encoded>
  {
    var cb :- Encoding(c, es);
    var yb :- Encoding(y, cb.es);
    Ok(Encoded(App(POW, [cb.term, yb.term]), yb.es))
  }

  /** `EncodingNeg` encodes the SymPy tree of `-x`. */
  lemma EncodingNegIsNegate(x: Expr, es: EncState)
    ensures EncodingNeg(x, es) == Encoding(Negate(x), es)
  {
    if !x.Num? {
      var m := Num(-1.0);
      var one, two := [m], [m, x];
      assert one[..|one| - 1] == [] && one[|one| - 1] == m;
      assert [] + [Real(-1.0)] == [Real(-1.0)];
      assert EncodingAll(one, es) == Ok(EncodedAll([Real(-1.0)], es));
      assert two[..|two| - 1] == one && two[|two| - 1] == x;
      match Encoding(x, es)
      case Err(_) =>
      case Ok(xb) =>
        assert [Real(-1.0)] + [xb.term] == [Real(-1.0), xb.term];
        assert EncodingAll(two, es) == Ok(EncodedAll([Real(-1.0), xb.term], xb.es));
    }
  }

  /** The relation table: `==`, `>=`, `<=`, `>`, `<` give EQUAL, GEQ, LEQ, GT,
      LT; `!=` fails the lookup once both sides are encoded. */
  lemma RelationEncoding(op: RelOp, l: Expr, r: Expr, es: EncState)
    requires Encoding(l, es).Ok? && Encoding(r, Encoding(l, es).value.es).Ok?
    ensures op == Ne <==> Encoding(Rel(op, l, r), es) == Err(KeyError("!="))
    ensures op != Ne ==> Encoding(Rel(op, l, r), es).Ok?
    ensures op == Eq ==> Encoding(Rel(op, l, r), es).value.term.kind == EQUAL
    ensures op == Ge ==> Encoding(Rel(op, l, r), es).value.term.kind == GEQ
    ensures op == Le ==> Encoding(Rel(op, l, r), es).value.term.kind == LEQ
    ensures op == Gt ==> Encoding(Rel(op, l, r), es).value.term.kind == GT
    ensures op == Lt ==> Encoding(Rel(op, l, r), es).value.term.kind == LT
  {
  }

  /** Everything but symbols, numbers, sums, products, powers, `exp`, `log`
      and relations raises NotImplementedError: the trigonometric functions
      among them. */
  lemma Unsupported(e: Expr, es: EncState)
    requires e.Other? || (e.Call? && e.fn != Exp && e.fn != Log)
    ensures Encoding(e, es).Err? && Encoding(e, es).error.Unsupported?
  {
  }

  // ---------- meaning ----------

  /** Every cached constant is named after its key. */
  predicate NamedCache(vars: map<string, Term>)
  {
    forall n :: n in vars ==> vars[n].Const? && vars[n].name == n
  }

  /** The encoded term has the value of the tree wherever the tree has one,
      and the cache stays named. */
  lemma {:induction false} EncodingPreservesValue(e: Expr, es: EncState, val: string -> real)
    requires NamedCache(es.vars) && Encoding(e, es).Ok?
    ensures NamedCache(Encoding(e, es).value.es.vars)
    ensures EvalExpr(e, val).Some? ==> EvalTerm(Encoding(e, es).value.term, val) == EvalExpr(e, val)
    decreases e, 1
  {
    match e
    case Sym(_) =>
    case Num(_) =>
    case Add(args) => EncodingAllPreservesValue(args, es, val);
    case Mul(args) => EncodingAllPreservesValue(args, es, val);
    case Pow(b, x) =>
      if UnitFraction(b) {
        UnitPowPreservesValue(b, x, es, val);
      } else {
        PowPreservesValue(b, x, es, val);
      }
    case Call(f, a) => CallKeepsCache(f, a, es, val);
    case Rel(_, l, r) =>
      EncodingPreservesValue(l, es, val);
      EncodingPreservesValue(r, Encoding(l, es).value.es, val);
  }

  lemma {:induction false} UnitPowPreservesValue(b: Expr, x: Expr, es: EncState, val: string -> real)
    requires NamedCache(es.vars) && UnitFraction(b) && Encoding(Pow(b, x), es).Ok?
    ensures NamedCache(Encoding(Pow(b, x), es).value.es.vars)
    ensures EvalExpr(Pow(b, x), val).Some? ==>
              EvalTerm(Encoding(Pow(b, x), es).value.term, val) == EvalExpr(Pow(b, x), val)
    decreases Pow(b, x), 0
  {
    var nb := EncodingNeg(x, es).value;
    assert Encoding(Pow(b, x), es).value == Encoded(App(POW, [Real(1.0 / b.value), nb.term]), nb.es);
    NegEncodingValue(x, es, val);
    if EvalExpr(Pow(b, x), val).Some? {
      var xv := EvalExpr(x, val).value;
      assert EvalExpr(Pow(b, x), val) == PowValue(b.value, xv);
      UnitPowTermValue(b.value, nb.term, xv, val);
    }
  }

  lemma {:induction false} PowPreservesValue(b: Expr, x: Expr, es: EncState, val: string -> real)
    requires NamedCache(es.vars) && !UnitFraction(b) && Encoding(Pow(b, x), es).Ok?
    ensures NamedCache(Encoding(Pow(b, x), es).value.es.vars)
    ensures EvalExpr(Pow(b, x), val).Some? ==>
              EvalTerm(Encoding(Pow(b, x), es).value.term, val) == EvalExpr(Pow(b, x), val)
    decreases Pow(b, x), 0
  {
    EncodingPreservesValue(b, es, val);
    var bb := Encoding(b, es).value;
    EncodingPreservesValue(x, bb.es, val);
    var xb := Encoding(x, bb.es).value;
    assert Encoding(Pow(b, x), es).value == Encoded(App(POW, [bb.term, xb.term]), xb.es);
    if EvalExpr(Pow(b, x), val).Some? {
      PowTermValue(bb.term, xb.term, val);
    }
  }

  /** The encoded exponent `-x` has the negated value of `x`. */
  lemma {:induction false} NegEncodingValue(x: Expr, es: EncState, val: string -> real)
    requires NamedCache(es.vars) && EncodingNeg(x, es).Ok?
    ensures NamedCache(EncodingNeg(x, es).value.es.vars)
    ensures EvalExpr(x, val).Some? ==>
              EvalTerm(EncodingNeg(x, es).value.term, val) == Some(-EvalExpr(x, val).value)
    decreases x, 2
  {
    if !x.Num? {
      var xb := Encoding(x, es).value;
      assert EncodingNeg(x, es).value == Encoded(App(MULT, [Real(-1.0), xb.term]), xb.es);
      EncodingPreservesValue(x, es, val);
      if EvalExpr(x, val).Some? {
        NegatedProduct(xb.term, val);
      }
    }
  }

  /** `exp` and `log` keep the cache named. */
  lemma {:induction false} CallKeepsCache(f: Fn, a: Expr, es: EncState, val: string -> real)
    requires NamedCache(es.vars) && Encoding(Call(f, a), es).Ok?
    ensures NamedCache(Encoding(Call(f, a), es).value.es.vars)
    decreases Call(f, a), 0
  {
    EncodingPreservesValue(a, es, val);
  }

  lemma {:induction false} EncodingAllPreservesValue(args: seq<Expr>, es: EncState, val: string -> real)
    requires NamedCache(es.vars) && EncodingAll(args, es).Ok?
    ensures NamedCache(EncodingAll(args, es).value.es.vars)
    ensures EvalExprs(args, val).Some? ==> EvalTerms(EncodingAll(args, es).value.terms, val) == EvalExprs(args, val)
    decreases args, 0
  {
    if args != [] {
      var pre, a := args[..|args| - 1], args[|args| - 1];
      assert args == pre + [a];
      EncodingAllPreservesValue(pre, es, val);
      var done := EncodingAll(pre, es).value;
      EncodingPreservesValue(a, done.es, val);
      var t := Encoding(a, done.es).value.term;
      assert EncodingAll(args, es).value.terms == done.terms + [t];
      EvalTermsSnoc(done.terms, t, val);
      EvalExprsSnoc(pre, a, val);
    }
  }
}
