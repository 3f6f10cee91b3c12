/** `_prove` of test2.py and test.py as the source runs it: a new solver,
    the axioms asserted one call at a time, the bound variables made by a
    loop, the conditions and the goal parsed into the solver, the negated
    obligation asserted and the solver consulted. Its contract ties the
    answer to `Obligation.Prove`. */
module Prover {
  import opened Wrappers
  import opened SymExpr
  import opened SolverTerm
  import opened Lowering
  import opened Cvc5
  import opened Parser
  import opened Obligation
  import opened ObligationProps

  /** `[s.mkVar(R, n) for n in names]`. */
  method MakeVars(s: Solver, names: seq<string>) returns (vars: seq<Term>)
    modifies s
    ensures (vars, s.State()) == SolverTerm.MkVars(old(s.State()), names)
  {
    ghost var st0 := s.State();
    vars := [];
    var i := 0;
    while i < |names|
      invariant 0 <= i <= |names|
      invariant |vars| == i
      invariant forall k :: 0 <= k < i ==> vars[k] == Var(st0.next + k, names[k])
      invariant s.State() == st0.(next := st0.next + i)
    {
      var v := s.MkVar(names[i]);
      vars := vars + [v];
      i := i + 1;
    }
    ghost var m := SolverTerm.MkVars(st0, names);
    assert vars == m.0;
  }

  /** The axioms, asserted into the new solver `s`. */
  method AssertAxioms(s: Solver, variant: Variant)
    modifies s
    requires s.State() == Fresh
    ensures s.State() == Preamble(variant)
  {
    s.ResetLog();
    var lg := s.GetLog();
    var u := s.MkVar("u");
    var v := s.MkVar("v");
    var y := s.MkVar("y");
    var p := s.MkVar("p");
    var q := s.MkVar("q");
    var x := s.MkVar("x");
    assert [u, v, y, p, q, x] == AxiomVars;
    assert s.State() == Session(7, Some(Fun(0, "LOG")), []);
    s.AssertFormula(MonotoneForward(u, v));
    s.AssertFormula(MonotoneReverse(u, v));
    s.AssertFormula(RightInverse(lg, y));
    s.AssertFormula(LeftInverse(lg, x));
    s.AssertFormula(LogMonotone(lg, p, q));
    assert s.State() == Session(7, Some(Fun(0, "LOG")), PatternedAxioms(lg, AxiomVars));
    if variant.WithSixthAxiom? {
      var x' := s.MkVar("x");
      s.AssertFormula(Forall([x'], LeftInverseBody(lg, x'), []));
    }
    PreambleShape(variant);
  }

  /** The bound variables and the two environments. */
  method MakeBinders(s: Solver, uni: seq<string>, exi: seq<string>) returns (b: Binders)
    modifies s
    ensures b == Obligation.MakeBinders(uni, exi, old(s.State())) && s.State() == b.st
  {
    var uniVars := MakeVars(s, uni);
    var exiVars := MakeVars(s, exi);
    var envUni := Bind(map[], uni, uniVars);
    b := Binders(uniVars, exiVars, envUni, Bind(envUni, exi, exiVars), s.State());
  }

  /** The obligation, parsed into `s`. */
  method BuildObligation(s: Solver, q: Problem) returns (r: Result<Term>)
    modifies s
    ensures r == TermOf(Obligation.BuildObligation(q, old(s.State())))
    ensures r.Ok? ==> s.State() == Obligation.BuildObligation(q, old(s.State())).value.st
  {
    var b := MakeBinders(s, UniNames(q), ExiNames(q));
    ghost var st1 := s.State();
    var condTerms: seq<Term> := [];
    if |q.conditions| > 0 {
      var parsed := ParseAll(s, q.conditions, Options(b.envUni, false, false));
      if parsed.Err? {
        return Err(parsed.error);
      }
      condTerms := parsed.value;
    }
    assert LowerAll(q.conditions, Options(b.envUni, false, false), st1) == Ok(BuiltAll(condTerms, s.State()));
    var goal := Parse(s, q.goal, Options(b.envAll, false, false));
    if goal.Err? {
      return Err(goal.error);
    }
    r := Ok(ForallPart(b.uniVars, Conjunction(condTerms), ExistsPart(b.exiVars, Positivity(b.envAll), goal.value)));
  }

  /** `_prove(conditions, goal, existentials[, witness_C])`. */
  method Prove(variant: Variant, p: Problem, check: seq<Term> -> SatResult) returns (r: Result<string>)
    ensures r == Obligation.Prove(variant, p, check)
  {
    var q := p;
    if variant.WithWitness? && variant.choice.Some? {
      var w := variant.choice.value;
      if !w.Num? {
        return Ok("not proved: witness_C must be numeric");
      }
      if w.value <= 0.0 {
        return Ok("not proved: witness_C must be > 0");
      }
      q := Problem(SubstAll(p.conditions, "C", w), Subst(p.goal, "C", w), Drop(p.existentials, ["C"]));
    }
    assert Prepare(variant, p) == Ready(q);
    var s := new Solver();
    AssertAxioms(s, variant);
    var formula := BuildObligation(s, q);
    if formula.Err? {
      return Err(formula.error);
    }
    s.AssertFormula(App(NOT, [formula.value]));
    var res := s.CheckSat(check);
    r := Ok(Verdict(res));
  }
}
