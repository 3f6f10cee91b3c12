/** What the environment of `_parse` decides about the lowered term: a name
    bound in the environment becomes its bound variable, any other name a
    free constant. So a tree whose names are all bound lowers to a term with
    no free constant, and one with an unbound name keeps that name as a
    free constant of the term. */
module LoweringScope {
  import opened Wrappers
  import opened SymExpr
  import opened SolverTerm
  import opened Lowering

  /** Every term of the environment is closed once `scope` is bound around
      it (for `_prove`: the environment's variables are all in `scope`). */
  predicate BoundIn(env: map<string, Term>, scope: set<Term>)
  {
    forall n :: n in env ==> Closed(env[n], scope)
  }

  /** Every name of `names` is a key of `env`. */
  predicate Covers(env: map<string, Term>, names: seq<string>)
  {
    forall n :: n in names ==> n in env
  }

  lemma {:induction false} NamesAllSnoc(pre: seq<Expr>, a: Expr)
    ensures NamesAll(pre + [a]) == NamesAll(pre) + Names(a)
  {
    if pre == [] {
      assert [a][1..] == [];
    } else {
      assert (pre + [a])[1..] == pre[1..] + [a];
      NamesAllSnoc(pre[1..], a);
    }
  }

  lemma ClosedAllSnoc(ts: seq<Term>, t: Term, scope: set<Term>)
    ensures ClosedAll(ts + [t], scope) <==> ClosedAll(ts, scope) && Closed(t, scope)
  {
    ClosedAllIff(ts + [t], scope);
    ClosedAllIff(ts, scope);
    assert forall k :: 0 <= k < |ts| ==> (ts + [t])[k] == ts[k];
    assert (ts + [t])[|ts|] == t;
  }

  lemma HasConstAllSnoc(ts: seq<Term>, t: Term, n: string)
    ensures HasConstAll(ts + [t], n) <==> HasConstAll(ts, n) || HasConst(t, n)
  {
    HasConstAllIff(ts + [t], n);
    HasConstAllIff(ts, n);
    assert forall k :: 0 <= k < |ts| ==> (ts + [t])[k] == ts[k];
    assert (ts + [t])[|ts|] == t;
  }

  lemma ClosedPair(a: Term, b: Term, scope: set<Term>)
    ensures ClosedAll([a, b], scope) <==> Closed(a, scope) && Closed(b, scope)
  {
    ClosedAllIff([a, b], scope);
  }

  lemma HasConstPair(a: Term, b: Term, n: string)
    ensures HasConstAll([a, b], n) <==> HasConst(a, n) || HasConst(b, n)
  {
    HasConstAllIff([a, b], n);
  }

  lemma ClosedOne(a: Term, scope: set<Term>)
    ensures ClosedAll([a], scope) <==> Closed(a, scope)
  {
    assert [a][1..] == [];
  }

  lemma HasConstOne(a: Term, n: string)
    ensures HasConstAll([a], n) <==> HasConst(a, n)
  {
    assert [a][1..] == [];
  }

  /** `_prod` of closed terms is closed. */
  lemma ProdClosed(ts: seq<Term>, legacy: bool, scope: set<Term>)
    requires ClosedAll(ts, scope) && Prod(ts, legacy).Ok?
    ensures Closed(Prod(ts, legacy).value, scope)
  {
    if |ts| == 1 {
      ClosedOne(ts[0], scope);
      assert ts == [ts[0]];
    }
  }

  /** `_prod` keeps every free constant of its factors. */
  lemma ProdHasConst(ts: seq<Term>, legacy: bool, n: string)
    requires HasConstAll(ts, n) && Prod(ts, legacy).Ok?
    ensures HasConst(Prod(ts, legacy).value, n)
  {
    if |ts| == 1 {
      HasConstOne(ts[0], n);
      assert ts == [ts[0]];
    }
  }

  /** A tree whose names are all bound lowers to a closed term. */
  lemma {:induction false} LowerClosed(e: Expr, o: Options, st: Session, scope: set<Term>)
    requires Covers(o.env, Names(e)) && BoundIn(o.env, scope)
    requires Lower(e, o, st).Ok?
    ensures Closed(Lower(e, o, st).value.term, scope)
    decreases e, 1
  {
    match e
    case Sym(n) =>
    case Num(_) =>
    case Rel(_, l, r) =>
      var lb := Lower(l, o, st).value;
      LowerClosed(l, o, st, scope);
      LowerClosed(r, o, lb.st, scope);
      ClosedPair(lb.term, Lower(r, o, lb.st).value.term, scope);
    case Add(args) =>
      LowerAllClosed(args, o, st, scope);
      var kids := LowerAll(args, o, st).value;
      if !o.legacy && |kids.terms| == 1 {
        ClosedOne(kids.terms[0], scope);
        assert kids.terms == [kids.terms[0]];
      }
    case Pow(b, x) =>
      if UnitFraction(b) {
        LowerNegClosed(x, o, st, scope);
        ClosedPair(Real(1.0 / b.value), LowerNeg(x, o, st).value.term, scope);
      } else {
        var bb := Lower(b, o, st).value;
        LowerClosed(b, o, st, scope);
        LowerClosed(x, o, bb.st, scope);
        ClosedPair(bb.term, Lower(x, o, bb.st).value.term, scope);
      }
    case Mul(args) =>
      SplitFactorsClosed(args, o, st, scope);
      var fs := SplitFactors(args, o, st).value;
      ProdClosed(fs.numer, o.legacy, scope);
      if fs.denom != [] {
        ProdClosed(fs.denom, o.legacy, scope);
        ClosedPair(Prod(fs.numer, o.legacy).value, Prod(fs.denom, o.legacy).value, scope);
      }
    case Call(f, a) =>
      LowerClosed(a, o, st, scope);
      ClosedOne(Lower(a, o, st).value.term, scope);
    case Other(_, _) =>
  }

  lemma {:induction false} LowerNegClosed(x: Expr, o: Options, st: Session, scope: set<Term>)
    requires Covers(o.env, Names(x)) && BoundIn(o.env, scope)
    requires LowerNeg(x, o, st).Ok?
    ensures Closed(LowerNeg(x, o, st).value.term, scope)
    decreases x, 2
  {
    if NegativePower(x) {
      assert x.base < x;
      LowerClosed(x.base, o, st, scope);
      var bt := Lower(x.base, o, st).value.term;
      ClosedPair(bt, Real(-x.exponent.value), scope);
      ClosedPair(Real(-1.0), App(POW, [bt, Real(-x.exponent.value)]), scope);
    } else if !x.Num? {
      LowerClosed(x, o, st, scope);
      ClosedPair(Real(-1.0), Lower(x, o, st).value.term, scope);
    }
  }

  lemma {:induction false} LowerAllClosed(args: seq<Expr>, o: Options, st: Session, scope: set<Term>)
    requires Covers(o.env, NamesAll(args)) && BoundIn(o.env, scope)
    requires LowerAll(args, o, st).Ok?
    ensures ClosedAll(LowerAll(args, o, st).value.terms, scope)
    decreases args, 0
  {
    if args != [] {
      var pre, a := args[..|args| - 1], args[|args| - 1];
      assert args == pre + [a];
      NamesAllSnoc(pre, a);
      LowerAllClosed(pre, o, st, scope);
      var done := LowerAll(pre, o, st).value;
      LowerClosed(a, o, done.st, scope);
      ClosedAllSnoc(done.terms, Lower(a, o, done.st).value.term, scope);
    }
  }

  lemma {:induction false} SplitFactorsClosed(args: seq<Expr>, o: Options, st: Session, scope: set<Term>)
    requires Covers(o.env, NamesAll(args)) && BoundIn(o.env, scope)
    requires SplitFactors(args, o, st).Ok?
    ensures ClosedAll(SplitFactors(args, o, st).value.numer, scope)
    ensures ClosedAll(SplitFactors(args, o, st).value.denom, scope)
    decreases args, 0
  {
    if args != [] {
      var pre, a := args[..|args| - 1], args[|args| - 1];
      assert args == pre + [a];
      NamesAllSnoc(pre, a);
      SplitFactorsClosed(pre, o, st, scope);
      var fs := SplitFactors(pre, o, st).value;
      if NegativePower(a) {
        DenominatorClosed(fs, a, o, scope);
      } else {
        NumeratorClosed(fs, a, o, scope);
      }
    }
  }

  lemma {:induction false} DenominatorClosed(fs: Factors, a: Expr, o: Options, scope: set<Term>)
    requires NegativePower(a) && Covers(o.env, Names(a)) && BoundIn(o.env, scope)
    requires ClosedAll(fs.denom, scope) && Lower(a.base, o, fs.st).Ok?
    ensures ClosedAll(fs.denom + [App(POW, [Lower(a.base, o, fs.st).value.term, Real(-a.exponent.value)])], scope)
    decreases a, 0
  {
    assert a.base < a;
    LowerClosed(a.base, o, fs.st, scope);
    var bt := Lower(a.base, o, fs.st).value.term;
    ClosedPair(bt, Real(-a.exponent.value), scope);
    ClosedAllSnoc(fs.denom, App(POW, [bt, Real(-a.exponent.value)]), scope);
  }

  lemma {:induction false} NumeratorClosed(fs: Factors, a: Expr, o: Options, scope: set<Term>)
    requires Covers(o.env, Names(a)) && BoundIn(o.env, scope)
    requires ClosedAll(fs.numer, scope) && Lower(a, o, fs.st).Ok?
    ensures ClosedAll(fs.numer + [Lower(a, o, fs.st).value.term], scope)
    decreases a, 2
  {
    LowerClosed(a, o, fs.st, scope);
    ClosedAllSnoc(fs.numer, Lower(a, o, fs.st).value.term, scope);
  }

  /** A name of the tree that the environment does not bind stays in the
      lowered term as a free constant of that name. */
  lemma {:induction false} LowerFreeConstant(e: Expr, o: Options, st: Session, n: string)
    requires n in Names(e) && n !in o.env
    requires Lower(e, o, st).Ok?
    ensures HasConst(Lower(e, o, st).value.term, n)
    decreases e, 1
  {
    match e
    case Sym(_) =>
    case Num(_) =>
    case Rel(_, l, r) =>
      var lb := Lower(l, o, st).value;
      if n in Names(l) { LowerFreeConstant(l, o, st, n); }
      else { LowerFreeConstant(r, o, lb.st, n); }
      HasConstPair(lb.term, Lower(r, o, lb.st).value.term, n);
    case Add(args) =>
      LowerAllFreeConstant(args, o, st, n);
      var kids := LowerAll(args, o, st).value;
      if !o.legacy && |kids.terms| == 1 {
        HasConstOne(kids.terms[0], n);
        assert kids.terms == [kids.terms[0]];
      }
    case Pow(b, x) =>
      if UnitFraction(b) {
        LowerNegFreeConstant(x, o, st, n);
        HasConstPair(Real(1.0 / b.value), LowerNeg(x, o, st).value.term, n);
      } else {
        var bb := Lower(b, o, st).value;
        if n in Names(b) { LowerFreeConstant(b, o, st, n); }
        else { LowerFreeConstant(x, o, bb.st, n); }
        HasConstPair(bb.term, Lower(x, o, bb.st).value.term, n);
      }
    case Mul(args) =>
      SplitFactorsFreeConstant(args, o, st, n);
      var fs := SplitFactors(args, o, st).value;
      var nt := Prod(fs.numer, o.legacy).value;
      if HasConstAll(fs.numer, n) {
        ProdHasConst(fs.numer, o.legacy, n);
      }
      if fs.denom != [] {
        if HasConstAll(fs.denom, n) {
          ProdHasConst(fs.denom, o.legacy, n);
        }
        HasConstPair(nt, Prod(fs.denom, o.legacy).value, n);
      } else {
        assert !HasConstAll(fs.denom, n);
      }
    case Call(f, a) =>
      LowerFreeConstant(a, o, st, n);
      HasConstOne(Lower(a, o, st).value.term, n);
    case Other(_, _) =>
  }

  lemma {:induction false} LowerNegFreeConstant(x: Expr, o: Options, st: Session, n: string)
    requires n in Names(x) && n !in o.env
    requires LowerNeg(x, o, st).Ok?
    ensures HasConst(LowerNeg(x, o, st).value.term, n)
    decreases x, 2
  {
    if NegativePower(x) {
      assert x.base < x;
      LowerFreeConstant(x.base, o, st, n);
      var bt := Lower(x.base, o, st).value.term;
      HasConstPair(bt, Real(-x.exponent.value), n);
      HasConstPair(Real(-1.0), App(POW, [bt, Real(-x.exponent.value)]), n);
    } else {
      LowerFreeConstant(x, o, st, n);
      HasConstPair(Real(-1.0), Lower(x, o, st).value.term, n);
    }
  }

  lemma {:induction false} LowerAllFreeConstant(args: seq<Expr>, o: Options, st: Session, n: string)
    requires n in NamesAll(args) && n !in o.env
    requires LowerAll(args, o, st).Ok?
    ensures HasConstAll(LowerAll(args, o, st).value.terms, n)
    decreases args, 0
  {
    var pre, a := args[..|args| - 1], args[|args| - 1];
    assert args == pre + [a];
    NamesAllSnoc(pre, a);
    var done := LowerAll(pre, o, st).value;
    if n in NamesAll(pre) {
      LowerAllFreeConstant(pre, o, st, n);
    } else {
      LowerFreeConstant(a, o, done.st, n);
    }
    HasConstAllSnoc(done.terms, Lower(a, o, done.st).value.term, n);
  }

  lemma {:induction false} SplitFactorsFreeConstant(args: seq<Expr>, o: Options, st: Session, n: string)
    requires n in NamesAll(args) && n !in o.env
    requires SplitFactors(args, o, st).Ok?
    ensures HasConstAll(SplitFactors(args, o, st).value.numer, n)
         || HasConstAll(SplitFactors(args, o, st).value.denom, n)
    decreases args, 0
  {
    var pre, a := args[..|args| - 1], args[|args| - 1];
    assert args == pre + [a];
    NamesAllSnoc(pre, a);
    var fs := SplitFactors(pre, o, st).value;
    if n in NamesAll(pre) {
      SplitFactorsFreeConstant(pre, o, st, n);
    }
    if NegativePower(a) {
      assert a.base < a;
      var bt := Lower(a.base, o, fs.st).value.term;
      if n !in NamesAll(pre) {
        assert Names(a) == Names(a.base) + [];
        LowerFreeConstant(a.base, o, fs.st, n);
        HasConstPair(bt, Real(-a.exponent.value), n);
      }
      HasConstAllSnoc(fs.denom, App(POW, [bt, Real(-a.exponent.value)]), n);
    } else {
      if n !in NamesAll(pre) {
        LowerFreeConstant(a, o, fs.st, n);
      }
      HasConstAllSnoc(fs.numer, Lower(a, o, fs.st).value.term, n);
    }
  }
}
