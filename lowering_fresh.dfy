/** Which free constants the lowering uses. Without an environment of
    constants every constant of the lowered term, and of the side conditions
    it asserts, is minted by this very call: its id lies between the
    session's counter before and after. With an environment, a name bound
    to a constant puts that constant into the term. */
module LoweringFresh {
  import opened Wrappers
  import opened SymExpr
  import opened SolverTerm
  import opened Lowering
  import opened LoweringScope

  /** Every free constant of `t` has an id in `lo..hi - 1`. */
  predicate IdsIn(t: Term, lo: nat, hi: nat)
  {
    forall i :: i in ConstIds(t) ==> lo <= i < hi
  }

  predicate AllIdsIn(ts: seq<Term>, lo: nat, hi: nat)
  {
    forall k :: 0 <= k < |ts| ==> IdsIn(ts[k], lo, hi)
  }

  /** From `st` to `st'` the counter only goes up, the earlier formulas stay
      and every formula asserted in between uses constants minted in between. */
  predicate NewIn(st: Session, st': Session)
  {
    && st.next <= st'.next
    && st.asserted <= st'.asserted
    && forall k :: |st.asserted| <= k < |st'.asserted| ==> IdsIn(st'.asserted[k], st.next, st'.next)
  }

  /** No name of the environment stands for a free constant. */
  predicate ConstFree(env: map<string, Term>)
  {
    forall n :: n in env ==> ConstIds(env[n]) == {}
  }

  lemma NewInTrans(a: Session, b: Session, c: Session)
    requires NewIn(a, b) && NewIn(b, c)
    ensures NewIn(a, c)
  {
    forall k | |a.asserted| <= k < |c.asserted|
      ensures IdsIn(c.asserted[k], a.next, c.next)
    {
      if k < |b.asserted| {
        assert c.asserted[k] == b.asserted[k];
      }
    }
  }

  /** Asserting a formula made of constants minted since `st`. */
  lemma AssertFresh(st: Session, mid: Session, t: Term)
    requires NewIn(st, mid) && IdsIn(t, st.next, mid.next)
    ensures NewIn(st, Assert(mid, t))
  {
    var st' := Assert(mid, t);
    forall k | |st.asserted| <= k < |st'.asserted|
      ensures IdsIn(st'.asserted[k], st.next, st'.next)
    {
      if k < |mid.asserted| {
        assert st'.asserted[k] == mid.asserted[k];
      }
    }
  }

  lemma {:induction false} ConstIdsAllIff(ts: seq<Term>, i: nat)
    ensures i in ConstIdsAll(ts) <==> exists k :: 0 <= k < |ts| && i in ConstIds(ts[k])
  {
    if ts != [] {
      ConstIdsAllIff(ts[1..], i);
      assert forall k :: 1 <= k < |ts| ==> ts[k] == ts[1..][k - 1];
    }
  }

  lemma {:induction false} ConstIdsAllIn(ts: seq<Term>, lo: nat, hi: nat)
    requires AllIdsIn(ts, lo, hi)
    ensures forall i :: i in ConstIdsAll(ts) ==> lo <= i < hi
  {
    if ts != [] {
      assert IdsIn(ts[0], lo, hi);
      assert forall k :: 0 <= k < |ts| - 1 ==> ts[1..][k] == ts[k + 1];
      ConstIdsAllIn(ts[1..], lo, hi);
    }
  }

  lemma ConstIdsPair(a: Term, b: Term)
    ensures ConstIdsAll([a, b]) == ConstIds(a) + ConstIds(b)
  {
    assert [a, b][1..] == [b];
    ConstIdsOne(b);
  }

  lemma ConstIdsOne(a: Term)
    ensures ConstIdsAll([a]) == ConstIds(a)
  {
    assert [a][1..] == [];
  }

  /** `_prod` of factors minted in `lo..hi - 1` is too. */
  lemma ProdIdsIn(ts: seq<Term>, legacy: bool, lo: nat, hi: nat)
    requires AllIdsIn(ts, lo, hi) && Prod(ts, legacy).Ok?
    ensures IdsIn(Prod(ts, legacy).value, lo, hi)
  {
    if |ts| > 1 {
      ConstIdsAllIn(ts, lo, hi);
    }
  }

  /** Lowering a tree with no constant in the environment uses only constants
      it mints itself, in the term and in the side conditions. */
  lemma {:induction false} LowerFresh(e: Expr, o: Options, st: Session)
    requires ConstFree(o.env) && Lower(e, o, st).Ok?
    ensures var b := Lower(e, o, st).value;
            IdsIn(b.term, st.next, b.st.next) && NewIn(st, b.st)
    decreases e, 1
  {
    var b := Lower(e, o, st).value;
    match e
    case Sym(n) =>
    case Num(_) =>
    case Rel(_, l, r) =>
      var lb := Lower(l, o, st).value;
      var rb := Lower(r, o, lb.st).value;
      LowerFresh(l, o, st);
      LowerFresh(r, o, lb.st);
      NewInTrans(st, lb.st, rb.st);
      ConstIdsPair(lb.term, rb.term);
    case Add(args) =>
      LowerAllFresh(args, o, st);
      var kids := LowerAll(args, o, st).value;
      ConstIdsAllIn(kids.terms, st.next, kids.st.next);
    case Pow(x, y) =>
      if UnitFraction(x) {
        LowerNegFresh(y, o, st);
        ConstIdsPair(Real(1.0 / x.value), LowerNeg(y, o, st).value.term);
      } else {
        var xb := Lower(x, o, st).value;
        var yb := Lower(y, o, xb.st).value;
        LowerFresh(x, o, st);
        LowerFresh(y, o, xb.st);
        NewInTrans(st, xb.st, yb.st);
        ConstIdsPair(xb.term, yb.term);
      }
    case Mul(args) =>
      SplitFactorsFresh(args, o, st);
      var fs := SplitFactors(args, o, st).value;
      ProdIdsIn(fs.numer, o.legacy, st.next, fs.st.next);
      if fs.denom != [] {
        ProdIdsIn(fs.denom, o.legacy, st.next, fs.st.next);
        ConstIdsPair(Prod(fs.numer, o.legacy).value, Prod(fs.denom, o.legacy).value);
      }
    case Call(f, a) =>
      var ab := Lower(a, o, st).value;
      LowerFresh(a, o, st);
      ConstIdsOne(ab.term);
      if f == Log {
        LogFresh(ab.term, o, st, ab.st);
      }
    case Other(_, _) =>
  }

  lemma {:induction false} LowerNegFresh(x: Expr, o: Options, st: Session)
    requires ConstFree(o.env) && LowerNeg(x, o, st).Ok?
    ensures var b := LowerNeg(x, o, st).value;
            IdsIn(b.term, st.next, b.st.next) && NewIn(st, b.st)
    decreases x, 2
  {
    if NegativePower(x) {
      assert x.base < x;
      LowerFresh(x.base, o, st);
      var bt := Lower(x.base, o, st).value.term;
      ConstIdsPair(bt, Real(-x.exponent.value));
      ConstIdsPair(Real(-1.0), App(POW, [bt, Real(-x.exponent.value)]));
    } else if !x.Num? {
      LowerFresh(x, o, st);
      ConstIdsPair(Real(-1.0), Lower(x, o, st).value.term);
    }
  }

  /** The `log` step: the `LOG` application and its side conditions use the
      constants of the argument only. */
  lemma LogFresh(x: Term, o: Options, st: Session, mid: Session)
    requires IdsIn(x, st.next, mid.next) && NewIn(st, mid)
    ensures var (lg, st1) := GetLog(mid);
            var app := ApplyUF(lg, x);
            var st2 := if o.sideEffects then st1.(asserted := st1.asserted + LogSideConditions(x, app)) else st1;
            IdsIn(app, st.next, st2.next) && NewIn(st, st2)
  {
    var (lg, st1) := GetLog(mid);
    var app := ApplyUF(lg, x);
    assert NewIn(mid, st1);
    NewInTrans(st, mid, st1);
    if o.sideEffects {
      var sides := LogSideConditions(x, app);
      var st2 := st1.(asserted := st1.asserted + sides);
      ConstIdsPair(x, Real(0.0));
      ConstIdsOne(app);
      ConstIdsPair(App(EXPONENTIAL, [app]), x);
      forall k | |st.asserted| <= k < |st2.asserted|
        ensures IdsIn(st2.asserted[k], st.next, st2.next)
      {
        if k >= |st1.asserted| {
          assert st2.asserted[k] == sides[k - |st1.asserted|];
        } else {
          assert st2.asserted[k] == st1.asserted[k];
        }
      }
    }
  }

  lemma {:induction false} LowerAllFresh(args: seq<Expr>, o: Options, st: Session)
    requires ConstFree(o.env) && LowerAll(args, o, st).Ok?
    ensures var r := LowerAll(args, o, st).value;
            AllIdsIn(r.terms, st.next, r.st.next) && NewIn(st, r.st)
    decreases args, 0
  {
    if args != [] {
      var pre := args[..|args| - 1];
      LowerAllFresh(pre, o, st);
      var done := LowerAll(pre, o, st).value;
      var b := Lower(args[|args| - 1], o, done.st).value;
      LowerFresh(args[|args| - 1], o, done.st);
      NewInTrans(st, done.st, b.st);
      var ts := done.terms + [b.term];
      assert forall k :: 0 <= k < |done.terms| ==> ts[k] == done.terms[k];
    }
  }

  lemma {:induction false} SplitFactorsFresh(args: seq<Expr>, o: Options, st: Session)
    requires ConstFree(o.env) && SplitFactors(args, o, st).Ok?
    ensures var fs := SplitFactors(args, o, st).value;
            AllIdsIn(fs.numer, st.next, fs.st.next) && AllIdsIn(fs.denom, st.next, fs.st.next)
            && NewIn(st, fs.st)
    decreases args, 0
  {
    if args != [] {
      var pre := args[..|args| - 1];
      var a := args[|args| - 1];
      SplitFactorsFresh(pre, o, st);
      var fs := SplitFactors(pre, o, st).value;
      if NegativePower(a) {
        assert a.base < a;
        var bb := Lower(a.base, o, fs.st).value;
        LowerFresh(a.base, o, fs.st);
        NewInTrans(st, fs.st, bb.st);
        ConstIdsPair(bb.term, Real(-a.exponent.value));
        var ds := fs.denom + [App(POW, [bb.term, Real(-a.exponent.value)])];
        assert forall k :: 0 <= k < |fs.denom| ==> ds[k] == fs.denom[k];
      } else {
        var ab := Lower(a, o, fs.st).value;
        LowerFresh(a, o, fs.st);
        NewInTrans(st, fs.st, ab.st);
        var ns := fs.numer + [ab.term];
        assert forall k :: 0 <= k < |fs.numer| ==> ns[k] == fs.numer[k];
      }
    }
  }

  lemma {:induction false} ConstIdsAllSnoc(ts: seq<Term>, t: Term)
    ensures ConstIdsAll(ts + [t]) == ConstIdsAll(ts) + ConstIds(t)
  {
    if ts == [] {
      ConstIdsOne(t);
      assert [] + [t] == [t];
    } else {
      assert (ts + [t])[1..] == ts[1..] + [t];
      ConstIdsAllSnoc(ts[1..], t);
    }
  }

  /** `_prod` keeps exactly the constants of its factors. */
  lemma ProdConstIds(ts: seq<Term>, legacy: bool)
    requires Prod(ts, legacy).Ok?
    ensures ConstIds(Prod(ts, legacy).value) == ConstIdsAll(ts)
  {
    if |ts| == 1 {
      ConstIdsOne(ts[0]);
      assert ts == [ts[0]];
    }
  }

  /** A name the environment binds puts its term's constants into the
      lowered term. */
  lemma {:induction false} LowerUsesEnv(e: Expr, o: Options, st: Session, n: string)
    requires n in Names(e) && n in o.env && Lower(e, o, st).Ok?
    ensures ConstIds(o.env[n]) <= ConstIds(Lower(e, o, st).value.term)
    decreases e, 1
  {
    match e
    case Sym(_) =>
    case Num(_) =>
    case Rel(_, l, r) =>
      var lb := Lower(l, o, st).value;
      if n in Names(l) { LowerUsesEnv(l, o, st, n); }
      else { LowerUsesEnv(r, o, lb.st, n); }
      ConstIdsPair(lb.term, Lower(r, o, lb.st).value.term);
    case Add(args) =>
      LowerAllUsesEnv(args, o, st, n);
      var kids := LowerAll(args, o, st).value;
      if !o.legacy && |kids.terms| == 1 {
        ConstIdsOne(kids.terms[0]);
        assert kids.terms == [kids.terms[0]];
      }
    case Pow(x, y) =>
      if UnitFraction(x) {
        LowerNegUsesEnv(y, o, st, n);
        ConstIdsPair(Real(1.0 / x.value), LowerNeg(y, o, st).value.term);
      } else {
        var xb := Lower(x, o, st).value;
        if n in Names(x) { LowerUsesEnv(x, o, st, n); }
        else { LowerUsesEnv(y, o, xb.st, n); }
        ConstIdsPair(xb.term, Lower(y, o, xb.st).value.term);
      }
    case Mul(args) =>
      SplitFactorsUsesEnv(args, o, st, n);
      var fs := SplitFactors(args, o, st).value;
      ProdConstIds(fs.numer, o.legacy);
      if fs.denom != [] {
        ProdConstIds(fs.denom, o.legacy);
        ConstIdsPair(Prod(fs.numer, o.legacy).value, Prod(fs.denom, o.legacy).value);
      }
    case Call(f, a) =>
      LowerUsesEnv(a, o, st, n);
      ConstIdsOne(Lower(a, o, st).value.term);
    case Other(_, _) =>
  }

  lemma {:induction false} LowerNegUsesEnv(x: Expr, o: Options, st: Session, n: string)
    requires n in Names(x) && n in o.env && LowerNeg(x, o, st).Ok?
    ensures ConstIds(o.env[n]) <= ConstIds(LowerNeg(x, o, st).value.term)
    decreases x, 2
  {
    if NegativePower(x) {
      assert x.base < x;
      LowerUsesEnv(x.base, o, st, n);
      var bt := Lower(x.base, o, st).value.term;
      ConstIdsPair(bt, Real(-x.exponent.value));
      ConstIdsPair(Real(-1.0), App(POW, [bt, Real(-x.exponent.value)]));
    } else {
      LowerUsesEnv(x, o, st, n);
      ConstIdsPair(Real(-1.0), Lower(x, o, st).value.term);
    }
  }

  lemma {:induction false} LowerAllUsesEnv(args: seq<Expr>, o: Options, st: Session, n: string)
    requires n in NamesAll(args) && n in o.env && LowerAll(args, o, st).Ok?
    ensures ConstIds(o.env[n]) <= ConstIdsAll(LowerAll(args, o, st).value.terms)
    decreases args, 0
  {
    var pre, a := args[..|args| - 1], args[|args| - 1];
    assert args == pre + [a];
    NamesAllSnoc(pre, a);
    var done := LowerAll(pre, o, st).value;
    if n in NamesAll(pre) {
      LowerAllUsesEnv(pre, o, st, n);
    } else {
      LowerUsesEnv(a, o, done.st, n);
    }
    ConstIdsAllSnoc(done.terms, Lower(a, o, done.st).value.term);
  }

  lemma {:induction false} SplitFactorsUsesEnv(args: seq<Expr>, o: Options, st: Session, n: string)
    requires n in NamesAll(args) && n in o.env && SplitFactors(args, o, st).Ok?
    ensures var fs := SplitFactors(args, o, st).value;
            ConstIds(o.env[n]) <= ConstIdsAll(fs.numer) + ConstIdsAll(fs.denom)
    decreases args, 0
  {
    var pre, a := args[..|args| - 1], args[|args| - 1];
    assert args == pre + [a];
    NamesAllSnoc(pre, a);
    var fs := SplitFactors(pre, o, st).value;
    if n in NamesAll(pre) {
      SplitFactorsUsesEnv(pre, o, st, n);
    }
    if NegativePower(a) {
      assert a.base < a;
      var bt := Lower(a.base, o, fs.st).value.term;
      if n !in NamesAll(pre) {
        assert Names(a) == Names(a.base) + [];
        LowerUsesEnv(a.base, o, fs.st, n);
      }
      ConstIdsPair(bt, Real(-a.exponent.value));
      ConstIdsAllSnoc(fs.denom, App(POW, [bt, Real(-a.exponent.value)]));
    } else {
      if n !in NamesAll(pre) {
        LowerUsesEnv(a, o, fs.st, n);
      }
      ConstIdsAllSnoc(fs.numer, Lower(a, o, fs.st).value.term);
    }
  }
}
