/** The proof obligation `_prove` of test2.py and test.py builds for
    conditions `conds` and a goal over some names: the axioms about `exp` and
    `LOG` it asserts first, the split of the names into existential and
    universal ones, the formula
      ∀U. conds ⇒ ∃E. (C > 0 ∧ goal)
    with its degenerate cases collapsed, and the verdict it reads off the
    solver's answer to the negated formula. The answer itself comes from an
    oracle `check` consulted on the asserted formulas. */
module Obligation {
  import opened Wrappers
  import opened Text
  import opened SymExpr
  import opened SolverTerm
  import opened Lowering

  /** test2.py's `_prove` takes an optional witness for `C`; test.py's has
      no witness and asserts a sixth, trigger-less copy of the left-inverse
      axiom. */
  datatype Variant = WithWitness(choice: Option<Expr>) | WithSixthAxiom

  /** The arguments of `_prove`, parsed: conditions, goal, and the names
      declared existential (`("C",)` by default). */
  datatype Problem = Problem(conditions: seq<Expr>, goal: Expr, existentials: seq<string>)

  /** What the witness step leaves: a verdict given without a solver, or the
      problem to prove. */
  datatype Prepared = Refused(verdict: string) | Ready(problem: Problem)

  const Zero: Term := Real(0.0)

  // ---------- the axioms ----------

  function ExpTerm(t: Term): Term { App(EXPONENTIAL, [t]) }

  /** `_forall_with_pattern(vars, body, *terms)`: one multi-trigger. */
  function ForallWithPattern(vars: seq<Term>, body: Term, terms: seq<Term>): Term
  {
    Forall(vars, body, [Pattern(terms)])
  }

  /** 1a) u <= v ⇒ exp(u) <= exp(v), triggered on exp(u), exp(v). */
  function MonotoneForward(u: Term, v: Term): Term
  {
    ForallWithPattern([u, v],
      App(IMPLIES, [App(LEQ, [u, v]), App(LEQ, [ExpTerm(u), ExpTerm(v)])]),
      [ExpTerm(u), ExpTerm(v)])
  }

  /** 1b) exp(u) <= exp(v) ⇒ u <= v, triggered on the antecedent. */
  function MonotoneReverse(u: Term, v: Term): Term
  {
    ForallWithPattern([u, v],
      App(IMPLIES, [App(LEQ, [ExpTerm(u), ExpTerm(v)]), App(LEQ, [u, v])]),
      [App(LEQ, [ExpTerm(u), ExpTerm(v)])])
  }

  /** 2) LOG(exp(y)) = y, triggered on LOG(exp(y)). */
  function RightInverse(lg: Fun, y: Term): Term
  {
    ForallWithPattern([y], App(EQUAL, [ApplyUF(lg, ExpTerm(y)), y]), [ApplyUF(lg, ExpTerm(y))])
  }

  /** x > 0 ⇒ exp(LOG(x)) = x. */
  function LeftInverseBody(lg: Fun, x: Term): Term
  {
    App(IMPLIES, [App(GT, [x, Zero]), App(EQUAL, [ExpTerm(ApplyUF(lg, x)), x])])
  }

  /** 3) the left inverse, triggered on exp(LOG(x)). */
  function LeftInverse(lg: Fun, x: Term): Term
  {
    ForallWithPattern([x], LeftInverseBody(lg, x), [ExpTerm(ApplyUF(lg, x))])
  }

  /** 4) p > 0 ∧ q > 0 ∧ p <= q ⇒ LOG(p) <= LOG(q), triggered on LOG(p), LOG(q). */
  function LogMonotone(lg: Fun, p: Term, q: Term): Term
  {
    ForallWithPattern([p, q],
      App(IMPLIES, [App(AND, [App(GT, [p, Zero]), App(GT, [q, Zero]), App(LEQ, [p, q])]),
                    App(LEQ, [ApplyUF(lg, p), ApplyUF(lg, q)])]),
      [ApplyUF(lg, p), ApplyUF(lg, q)])
  }

  /** The names of the axioms' bound variables, made in this order. */
  const AxiomNames: seq<string> := ["u", "v", "y", "p", "q", "x"]

  /** The five patterned axioms over the variables u, v, y, p, q, x. */
  function PatternedAxioms(lg: Fun, vs: seq<Term>): seq<Term>
    requires |vs| == 6
  {
    [MonotoneForward(vs[0], vs[1]), MonotoneReverse(vs[0], vs[1]), RightInverse(lg, vs[2]),
     LeftInverse(lg, vs[5]), LogMonotone(lg, vs[3], vs[4])]
  }

  /** The session once the axioms are in, starting from a new solver whose
      `LOG` handle was just reset: `LOG` is declared, six variables are made,
      the five patterned axioms asserted and, in test.py, one more variable
      `x` made for the sixth axiom. */
  function Preamble(variant: Variant): Session
  {
    var (lg, s0) := GetLog(Fresh.(log := None));
    var (vs, s1) := MkVars(s0, AxiomNames);
    var s2 := s1.(asserted := s1.asserted + PatternedAxioms(lg, vs));
    if variant.WithSixthAxiom? then
      var x := MkVar(s2, "x");
      Assert(x.st, Forall([x.term], LeftInverseBody(lg, x.term), []))
    else s2
  }

  // ---------- the names ----------

  /** Every name occurring in the conditions or the goal, with repeats. */
  function AllNames(p: Problem): seq<string>
  {
    NamesAll(p.conditions) + Names(p.goal)
  }

  /** `[n for n in xs if n in occ]`. */
  function Keep(xs: seq<string>, occ: seq<string>): (r: seq<string>)
    ensures forall n :: n in r <==> n in xs && n in occ
  {
    if xs == [] then []
    else (if xs[0] in occ then [xs[0]] else []) + Keep(xs[1..], occ)
  }

  /** `[n for n in xs if n not in ex]`. */
  function Drop(xs: seq<string>, ex: seq<string>): (r: seq<string>)
    ensures forall n :: n in r <==> n in xs && n !in ex
  {
    if xs == [] then []
    else (if xs[0] in ex then [] else [xs[0]]) + Drop(xs[1..], ex)
  }

  /** `a` is `b` with some elements left out. */
  predicate Subsequence(a: seq<string>, b: seq<string>)
  {
    if a == [] then true
    else if b == [] then false
    else if a[0] == b[0] then Subsequence(a[1..], b[1..])
    else Subsequence(a, b[1..])
  }

  /** `exi_names`: the declared existentials that occur. */
  function ExiNames(p: Problem): seq<string>
  {
    Keep(p.existentials, AllNames(p))
  }

  /** `uni_names`: every other name that occurs, sorted. */
  function UniNames(p: Problem): seq<string>
  {
    SortedUnique(Drop(AllNames(p), ExiNames(p)))
  }

  // ---------- binders ----------

  /** `{**env, **dict(zip(names, vars))}`: a later binding of a name wins. */
  function Bind(env: map<string, Term>, names: seq<string>, vars: seq<Term>): (r: map<string, Term>)
    requires |names| == |vars|
    ensures forall n :: n in r <==> n in env || n in names
    ensures forall n :: n in r && n !in names ==> r[n] == env[n]
    ensures forall k :: 0 <= k < |names| && names[k] !in names[k + 1..] ==> r[names[k]] == vars[k]
    decreases |names|
  {
    if names == [] then env
    else
      var r := Bind(env[names[0] := vars[0]], names[1..], vars[1..]);
      assert forall k :: 1 <= k < |names| ==> names[k + 1..] == names[1..][k..];
      r
  }

  /** The bound variables and environments of the obligation. */
  datatype Binders = Binders(uniVars: seq<Term>, exiVars: seq<Term>,
                             envUni: map<string, Term>, envAll: map<string, Term>, st: Session)

  /** `uni_vars`, `exi_vars`, `env_uni` and `env_all`. */
  function MakeBinders(uni: seq<string>, exi: seq<string>, st: Session): Binders
  {
    var (uniVars, s1) := MkVars(st, uni);
    var (exiVars, s2) := MkVars(s1, exi);
    var envUni := Bind(map[], uni, uniVars);
    Binders(uniVars, exiVars, envUni, Bind(envUni, exi, exiVars), s2)
  }

  // ---------- the formula ----------

  /** `cond`: the conditions' conjunction, `true` for none. */
  function Conjunction(ts: seq<Term>): Term
  {
    if ts == [] then True else if |ts| == 1 then ts[0] else App(AND, ts)
  }

  /** `pos`: `C > 0` whenever `C` is bound. */
  function Positivity(envAll: map<string, Term>): seq<Term>
  {
    if "C" in envAll then [App(GT, [envAll["C"], Zero])] else []
  }

  /** The ∃-part: the goal alone when nothing is existential. */
  function ExistsPart(exiVars: seq<Term>, pos: seq<Term>, goal: Term): Term
  {
    if exiVars == [] then goal
    else Exists(exiVars, if pos == [] then goal else App(AND, pos + [goal]))
  }

  /** The ∀-part: the implication alone when nothing is universal. */
  function ForallPart(uniVars: seq<Term>, cond: Term, ex: Term): Term
  {
    if uniVars == [] then App(IMPLIES, [cond, ex])
    else Forall(uniVars, App(IMPLIES, [cond, ex]), [])
  }

  /** The formula to prove, built in session `st`: conditions parsed in the
      universal environment, the goal in the full one, neither with side
      effects. */
  function BuildObligation(p: Problem, st: Session): Result<Built>
  {
    var b := MakeBinders(UniNames(p), ExiNames(p), st);
    var conds :- LowerAll(p.conditions, Options(b.envUni, false, false), b.st);
    var goal :- Lower(p.goal, Options(b.envAll, false, false), conds.st);
    var ex := ExistsPart(b.exiVars, Positivity(b.envAll), goal.term);
    Ok(Built(ForallPart(b.uniVars, Conjunction(conds.terms), ex), goal.st))
  }

  /** `s.assertFormula(s.mkTerm(Kind.NOT, formula))`. */
  function Refutation(ob: Built): Session
  {
    Assert(ob.st, App(NOT, [ob.term]))
  }

  // ---------- witness and verdict ----------

  /** The witness step of test2.py. A witness counts as numeric when it is
      a number literal. */
  function ApplyWitness(p: Problem, choice: Option<Expr>): Prepared
  {
    match choice
    case None => Ready(p)
    case Some(w) =>
      if !w.Num? then Refused("not proved: witness_C must be numeric")
      else if w.value <= 0.0 then Refused("not proved: witness_C must be > 0")
      else Ready(Problem(SubstAll(p.conditions, "C", w), Subst(p.goal, "C", w), Drop(p.existentials, ["C"])))
  }

  function Verdict(r: SatResult): string
  {
    match r
    case Unknown(why) => "unknown " + why
    case Unsat => "proved"
    case Sat => "not proved"
  }

  function Prepare(variant: Variant, p: Problem): Prepared
  {
    if variant.WithWitness? then ApplyWitness(p, variant.choice) else Ready(p)
  }

  /** `_prove(conditions, goal, existentials[, witness_C])`. An `Err` is an
      exception raised by `_parse`. */
  function Prove(variant: Variant, p: Problem, check: seq<Term> -> SatResult): Result<string>
  {
    match Prepare(variant, p)
    case Refused(msg) => Ok(msg)
    case Ready(q) =>
      var ob :- BuildObligation(q, Preamble(variant));
      Ok(Verdict(check(Refutation(ob).asserted)))
  }
}
