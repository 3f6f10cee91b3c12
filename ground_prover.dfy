/** `_prove(conditions, goal)` of test1.py as the source runs it: one solver
    changed by a loop over the premises, the optional `C > 0`, the goal and
    the model query. Its contract ties the answer to
    `Ground.GroundProve`. */
module GroundProver {
  import opened Wrappers
  import opened SymExpr
  import opened SolverTerm
  import opened Lowering
  import opened Cvc5
  import opened Parser
  import opened Obligation
  import opened Ground

  /** `for c in conditions: s.assertFormula(_parse(c, s))`. */
  method AssertPremisesM(s: Solver, conds: seq<Expr>) returns (r: Result<()>)
    modifies s
    ensures AssertPremises(conds, Test1Options, old(s.State())).Ok? ==>
      r.Ok? && s.State() == AssertPremises(conds, Test1Options, old(s.State())).value
    ensures AssertPremises(conds, Test1Options, old(s.State())).Err? ==>
      r == Err(AssertPremises(conds, Test1Options, old(s.State())).error)
  {
    ghost var st0 := s.State();
    var i := 0;
    while i < |conds|
      invariant 0 <= i <= |conds|
      invariant AssertPremises(conds[..i], Test1Options, st0) == Ok(s.State())
    {
      assert conds[..i + 1][..i] == conds[..i];
      var t := Parse(s, conds[i], Test1Options);
      if t.Err? {
        PremisesPrefixFails(conds, i + 1, st0);
        return Err(t.error);
      }
      s.AssertFormula(t.value);
      i := i + 1;
    }
    assert conds[..i] == conds;
    r := Ok(());
  }

  /** Once a premise fails to parse, the whole loop fails the same way. */
  lemma {:induction false} PremisesPrefixFails(conds: seq<Expr>, i: nat, st: Session)
    requires i <= |conds| && AssertPremises(conds[..i], Test1Options, st).Err?
    ensures AssertPremises(conds, Test1Options, st) == AssertPremises(conds[..i], Test1Options, st)
    decreases |conds| - i
  {
    if i < |conds| {
      assert conds[..i + 1][..i] == conds[..i];
      PremisesPrefixFails(conds, i + 1, st);
    } else {
      assert conds[..i] == conds;
    }
  }

  /** The dictionary comprehension of the model query. */
  method Query(s: Solver, names: seq<string>, model: (seq<Term>, Term) -> Term)
    returns (values: seq<(string, Term)>)
    modifies s
    ensures values == Report(names, MkConsts(old(s.State()), names).0, old(s.asserted), model)
  {
    ghost var st0 := s.State();
    values := [];
    var i := 0;
    while i < |names|
      invariant 0 <= i <= |names|
      invariant |values| == i
      invariant forall k :: 0 <= k < i ==> values[k] == (names[k], model(st0.asserted, Const(st0.next + k, names[k])))
      invariant s.State() == st0.(next := st0.next + i)
    {
      var c := Parse(s, Sym(names[i]), Test1Options);
      values := values + [(names[i], model(s.asserted, c.value))];
      i := i + 1;
    }
  }

  /** `_prove(conditions, goal)`. */
  method Prove(conds: seq<Expr>, goal: Expr, check: seq<Term> -> SatResult,
               model: (seq<Term>, Term) -> Term) returns (r: Result<Answer>)
    ensures r == GroundProve(conds, goal, check, model)
  {
    var s := new Solver();
    s.ResetLog();
    var premised := AssertPremisesM(s, conds);
    if premised.Err? {
      return Err(premised.error);
    }
    ghost var s1 := s.State();
    var exist := ExistNames(conds, goal);
    if "C" in exist {
      var c := Parse(s, Sym("C"), Test1Options);
      s.AssertFormula(App(GT, [c.value, Zero]));
    }
    assert s.State() == AssertPositivity(exist, s1);
    var g := Parse(s, goal, Test1Options);
    if g.Err? {
      return Err(g.error);
    }
    s.AssertFormula(g.value);
    var res := s.CheckSat(check);
    if res.Sat? {
      var values := Query(s, exist, model);
      r := Ok(Witnesses(values));
    } else {
      r := Ok(DoesNotExist);
    }
  }
}
