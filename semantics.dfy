/** A reference meaning for the rational fragment of both languages: sums,
    products, quotients and integer powers of named reals. A SymPy tree and
    a cvc5 term are read against the same valuation of names; transcendental
    functions, relations and non-integer powers have no value here. */
module Semantics {
  import opened Wrappers
  import opened SymExpr
  import opened SolverTerm

  function RPow(x: real, n: nat): real
  {
    if n == 0 then 1.0 else x * RPow(x, n - 1)
  }

  lemma {:induction false} RPowNonZero(x: real, n: nat)
    requires x != 0.0
    ensures RPow(x, n) != 0.0
  {
    if n > 0 { RPowNonZero(x, n - 1); }
  }

  /** `b ** k` for an integer `k`; undefined at `0 ** k` for negative `k`. */
  function PowValue(b: real, k: real): Option<real>
  {
    if !IsInteger(k) then None
    else if k >= 0.0 then Some(RPow(b, k.Floor as nat))
    else if b == 0.0 then None
    else
      RPowNonZero(b, (-k).Floor as nat);
      Some(1.0 / RPow(b, (-k).Floor as nat))
  }

  /** `(1/q) ** -k` is `q ** k`: the two are defined for the same `k` and
      agree there. */
  lemma PowOfReciprocal(q: real, k: real)
    requires q != 0.0
    ensures PowValue(1.0 / q, -k) == PowValue(q, k)
  {
    var r := 1.0 / q;
    assert r != 0.0;
    IntegerNegation(k);
    if IsInteger(k) {
      assert (-k).Floor == -(k.Floor);
      if k >= 0.0 {
        var n: nat := k.Floor;
        RPowReciprocal(q, n);
        RPowNonZero(q, n);
        if k == 0.0 {
          assert PowValue(r, -k) == Some(RPow(r, 0));
        } else {
          assert (-(-k)).Floor == n;
          assert PowValue(r, -k) == Some(1.0 / RPow(r, n));
          assert PowValue(q, k) == Some(RPow(q, n));
          assert 1.0 / RPow(r, n) == RPow(q, n);
        }
      } else {
        var n: nat := (-k).Floor;
        RPowReciprocal(q, n);
        RPowNonZero(q, n);
        assert PowValue(r, -k) == Some(RPow(r, n));
        assert PowValue(q, k) == Some(1.0 / RPow(q, n));
        assert RPow(r, n) == 1.0 / RPow(q, n);
      }
    } else {
      IntegerNegation(k);
    }
  }

  lemma IntegerNegation(k: real)
    ensures IsInteger(-k) <==> IsInteger(k)
  {
    if IsInteger(k) {
      assert (-k).Floor == -(k.Floor);
    }
    if IsInteger(-k) {
      assert k.Floor == -((-k).Floor);
    }
  }

  lemma {:induction false} RPowReciprocal(q: real, n: nat)
    requires q != 0.0
    ensures RPow(1.0 / q, n) * RPow(q, n) == 1.0
  {
    if n > 0 {
      RPowReciprocal(q, n - 1);
      var a, b := RPow(1.0 / q, n - 1), RPow(q, n - 1);
      calc {
        RPow(1.0 / q, n) * RPow(q, n);
        (1.0 / q * a) * (q * b);
        (1.0 / q * q) * (a * b);
        1.0;
      }
    }
  }

  function Sum(xs: seq<real>): real
  {
    if xs == [] then 0.0 else Sum(xs[..|xs| - 1]) + xs[|xs| - 1]
  }

  function Product(xs: seq<real>): real
  {
    if xs == [] then 1.0 else Product(xs[..|xs| - 1]) * xs[|xs| - 1]
  }

  /** `vs` is `ns` merged, in order, with the reciprocals of `ds`: the values
      of a product's factors against those of the numerator and the
      denominator it is split into. */
  function Recip(x: real): real
  {
    if x == 0.0 then 0.0 else 1.0 / x
  }

  predicate Interleaves(vs: seq<real>, ns: seq<real>, ds: seq<real>)
    decreases |vs|
  {
    if vs == [] then ns == [] && ds == []
    else
      || (ns != [] && vs[|vs| - 1] == ns[|ns| - 1] && Interleaves(vs[..|vs| - 1], ns[..|ns| - 1], ds))
      || (ds != [] && ds[|ds| - 1] != 0.0 && vs[|vs| - 1] == Recip(ds[|ds| - 1])
          && Interleaves(vs[..|vs| - 1], ns, ds[..|ds| - 1]))
  }

  lemma InterleaveNumerator(vs: seq<real>, ns: seq<real>, ds: seq<real>, v: real)
    requires Interleaves(vs, ns, ds)
    ensures Interleaves(vs + [v], ns + [v], ds)
  {
    var vs', ns' := vs + [v], ns + [v];
    assert vs'[..|vs'| - 1] == vs && ns'[..|ns'| - 1] == ns;
  }

  lemma InterleaveDenominator(vs: seq<real>, ns: seq<real>, ds: seq<real>, v: real, p: real)
    requires Interleaves(vs, ns, ds) && p != 0.0 && v == Recip(p)
    ensures Interleaves(vs + [v], ns, ds + [p])
  {
    var vs', ds' := vs + [v], ds + [p];
    assert vs'[..|vs'| - 1] == vs && ds'[..|ds'| - 1] == ds;
  }

  lemma TimesStep(a: real, b: real, c: real, x: real)
    requires a * b == c
    ensures (a * x) * b == c * x
  {
  }

  lemma ReciprocalStep(a: real, b: real, c: real, x: real, d: real)
    requires a * b == c && d != 0.0 && x == 1.0 / d
    ensures (a * x) * (b * d) == c
  {
    assert x * d == 1.0;
    calc {
      (a * x) * (b * d);
      (a * b) * (x * d);
    }
  }

  lemma NonZeroStep(b: real, d: real)
    requires b != 0.0 && d != 0.0
    ensures b * d != 0.0
  {
  }

  lemma QuotientOf(a: real, b: real, c: real)
    requires a * b == c && b != 0.0
    ensures c / b == a
  {
  }

  /** Splitting a product into a numerator and a denominator keeps its
      value: the factors' product times the denominator's is the
      numerator's, and the denominator's product is not zero. */
  lemma {:induction false} InterleaveProduct(vs: seq<real>, ns: seq<real>, ds: seq<real>)
    requires Interleaves(vs, ns, ds)
    ensures Product(vs) * Product(ds) == Product(ns)
    ensures Product(ds) != 0.0
    decreases |vs|
  {
    if vs == [] { return; }
    var vs', x := vs[..|vs| - 1], vs[|vs| - 1];
    if ns != [] && x == ns[|ns| - 1] && Interleaves(vs', ns[..|ns| - 1], ds) {
      InterleaveProduct(vs', ns[..|ns| - 1], ds);
      TimesStep(Product(vs'), Product(ds), Product(ns[..|ns| - 1]), x);
    } else {
      var ds', d := ds[..|ds| - 1], ds[|ds| - 1];
      InterleaveProduct(vs', ns, ds');
      ReciprocalStep(Product(vs'), Product(ds'), Product(ns), x, d);
      NonZeroStep(Product(ds'), d);
    }
  }

  /** The value of a SymPy tree under `val`. */
  function EvalExpr(e: Expr, val: string -> real): Option<real>
    decreases e, 1
  {
    match e
    case Sym(n) => Some(val(n))
    case Num(v) => Some(v)
    case Add(args) =>
      var vs :- EvalExprs(args, val);
      Some(Sum(vs))
    case Mul(args) =>
      var vs :- EvalExprs(args, val);
      Some(Product(vs))
    case Pow(b, x) =>
      var bv :- EvalExpr(b, val);
      var xv :- EvalExpr(x, val);
      PowValue(bv, xv)
    case _ => None
  }

  function EvalExprs(args: seq<Expr>, val: string -> real): (r: Option<seq<real>>)
    ensures r.Some? ==> |r.value| == |args|
    decreases args, 0
  {
    if args == [] then Some([])
    else
      var vs :- EvalExprs(args[..|args| - 1], val);
      var v :- EvalExpr(args[|args| - 1], val);
      Some(vs + [v])
  }

  /** The value of a cvc5 term under `val`, constants and variables read by
      their names. */
  function EvalTerm(t: Term, val: string -> real): Option<real>
    decreases t, 1
  {
    match t
    case Const(_, n) => Some(val(n))
    case Var(_, n) => Some(val(n))
    case Real(v) => Some(v)
    case App(k, args) =>
      if k == ADD then
        var vs :- EvalTerms(args, val);
        Some(Sum(vs))
      else if k == MULT then
        var vs :- EvalTerms(args, val);
        Some(Product(vs))
      else if k == DIVISION && |args| == 2 then
        var n :- EvalTerm(args[0], val);
        var d :- EvalTerm(args[1], val);
        if d == 0.0 then None else Some(n / d)
      else if k == POW && |args| == 2 then
        var b :- EvalTerm(args[0], val);
        var x :- EvalTerm(args[1], val);
        PowValue(b, x)
      else None
    case _ => None
  }

  function EvalTerms(ts: seq<Term>, val: string -> real): (r: Option<seq<real>>)
    ensures r.Some? ==> |r.value| == |ts|
    decreases ts, 0
  {
    if ts == [] then Some([])
    else
      var vs :- EvalTerms(ts[..|ts| - 1], val);
      var v :- EvalTerm(ts[|ts| - 1], val);
      Some(vs + [v])
  }
}
