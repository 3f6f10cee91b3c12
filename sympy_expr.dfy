/** The SymPy syntax trees the compilers consume, as SymPy hands them over
    after `sympify`: a node per class the compilers branch on, numbers as
    exact rationals. Free-symbol collection and substitution are tree
    traversals over this type. */
module SymExpr {

  /** SymPy's relational classes; `rel_op` gives "<=", "<", ">=", ">", "==", "!=". */
  datatype RelOp = Le | Lt | Ge | Gt | Eq | Ne

  /** SymPy's one-argument elementary functions the compilers recognise. */
  datatype Fn = Exp | Sin | Cos | Tan | Asin | Acos | Atan | Log

  datatype Expr =
    | Sym(name: string)                   // Symbol
    | Num(value: real)                    // Integer or Rational
    | Rel(op: RelOp, lhs: Expr, rhs: Expr)
    | Add(args: seq<Expr>)
    | Mul(args: seq<Expr>)
    | Pow(base: Expr, exponent: Expr)
    | Call(fn: Fn, arg: Expr)
    | Other(head: string, args: seq<Expr>) // any other SymPy node: pi, Abs(x), f(x), ...

  /** The test the product branch applies to each factor:
      `arg.func is Pow and arg.exp.is_number and arg.exp < 0`. */
  predicate NegativePower(f: Expr) {
    f.Pow? && f.exponent.Num? && f.exponent.value < 0.0
  }

  predicate IsInteger(k: real) { k == k.Floor as real }

  /** A `Rational` whose numerator `p` is 1 and whose denominator `q` is not:
      the number `1/q` for an integer `q >= 2`. */
  predicate UnitFraction(b: Expr) {
    b.Num? && 0.0 < b.value < 1.0 && IsInteger(1.0 / b.value)
  }

  /** `-x` as SymPy builds it: the negated number for a literal, the product
      `Mul(-1, x)` otherwise. */
  function Negate(x: Expr): Expr
  {
    if x.Num? then Num(-x.value) else Mul([Num(-1.0), x])
  }

  /** `Pow.as_base_exp`: `(1/q)**x` is handed over as the base `q` and the
      exponent `-x`; every other power as its own base and exponent. */
  function AsBaseExp(b: Expr, x: Expr): (r: (Expr, Expr))
    ensures UnitFraction(b) ==> r.0.Num? && r.0.value * b.value == 1.0 && IsInteger(r.0.value) && r.0.value >= 2.0
    ensures UnitFraction(b) ==> r.1 == Negate(x)
    ensures !UnitFraction(b) ==> r == (b, x)
  {
    if UnitFraction(b) then (Num(1.0 / b.value), Negate(x)) else (b, x)
  }

  /** The names of the symbols in `e`, in order of occurrence, with repeats;
      `free_symbols` is the set of these. */
  function Names(e: Expr): seq<string>
    decreases e, 1
  {
    match e
    case Sym(n) => [n]
    case Num(_) => []
    case Rel(_, l, r) => Names(l) + Names(r)
    case Add(args) => NamesAll(args)
    case Mul(args) => NamesAll(args)
    case Pow(b, x) => Names(b) + Names(x)
    case Call(_, a) => Names(a)
    case Other(_, args) => NamesAll(args)
  }

  function NamesAll(args: seq<Expr>): seq<string>
    decreases args, 0
  {
    if args == [] then [] else Names(args[0]) + NamesAll(args[1..])
  }

  /** `e.subs(Symbol(x), v)`, without SymPy's re-evaluation of the result. */
  function Subst(e: Expr, x: string, v: Expr): Expr
    decreases e, 1
  {
    match e
    case Sym(n) => if n == x then v else e
    case Num(_) => e
    case Rel(op, l, r) => Rel(op, Subst(l, x, v), Subst(r, x, v))
    case Add(args) => Add(SubstAll(args, x, v))
    case Mul(args) => Mul(SubstAll(args, x, v))
    case Pow(b, y) => Pow(Subst(b, x, v), Subst(y, x, v))
    case Call(f, a) => Call(f, Subst(a, x, v))
    case Other(h, args) => Other(h, SubstAll(args, x, v))
  }

  function SubstAll(args: seq<Expr>, x: string, v: Expr): (r: seq<Expr>)
    ensures |r| == |args|
    decreases args, 0
  {
    if args == [] then [] else [Subst(args[0], x, v)] + SubstAll(args[1..], x, v)
  }

  /** Substituting a number for `x` removes `x` from the free symbols and
      keeps every other one. */
  lemma {:induction false} SubstNumberNames(e: Expr, x: string, w: real)
    ensures forall n :: n in Names(Subst(e, x, Num(w))) <==> n in Names(e) && n != x
    decreases e, 1
  {
    match e
    case Sym(_) =>
    case Num(_) =>
    case Rel(_, l, r) => SubstNumberNames(l, x, w); SubstNumberNames(r, x, w);
    case Add(args) => SubstNumberNamesAll(args, x, w);
    case Mul(args) => SubstNumberNamesAll(args, x, w);
    case Pow(b, y) => SubstNumberNames(b, x, w); SubstNumberNames(y, x, w);
    case Call(_, a) => SubstNumberNames(a, x, w);
    case Other(_, args) => SubstNumberNamesAll(args, x, w);
  }

  lemma {:induction false} SubstNumberNamesAll(args: seq<Expr>, x: string, w: real)
    ensures forall n :: n in NamesAll(SubstAll(args, x, Num(w))) <==> n in NamesAll(args) && n != x
    decreases args, 0
  {
    if args != [] {
      SubstNumberNames(args[0], x, w);
      SubstNumberNamesAll(args[1..], x, w);
    }
  }

  /** A name occurs in a list exactly when it occurs in one of its members. */
  lemma {:induction false} NamesAllIff(args: seq<Expr>, n: string)
    ensures n in NamesAll(args) <==> exists k :: 0 <= k < |args| && n in Names(args[k])
  {
    if args != [] {
      NamesAllIff(args[1..], n);
      assert forall k :: 1 <= k < |args| ==> args[k] == args[1..][k - 1];
    }
  }
}
