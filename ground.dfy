/** `_prove(conditions, goal)` of test1.py, the older ground variant: no
    environment and no quantifiers. Every premise is parsed with side
    effects on and asserted as it is, `C > 0` is asserted when `C` is one of
    the existential names (the goal's names that no premise has), the goal
    is asserted last, and on `sat` each existential name is read back from
    the model. */
module Ground {
  import opened Wrappers
  import opened Text
  import opened SymExpr
  import opened SolverTerm
  import opened Lowering
  import opened Obligation

  /** `("exists", {name: value, ...})` with the names in sorted order, or
      `"does not exist"`. */
  datatype Answer = Witnesses(values: seq<(string, Term)>) | DoesNotExist

  /** The premises, parsed and asserted one after the other; parsing a premise
      asserts the side conditions of its `log`s before the premise itself. */
  function AssertPremises(conds: seq<Expr>, o: Options, st: Session): Result<Session>
  {
    if conds == [] then Ok(st)
    else
      var s1 :- AssertPremises(conds[..|conds| - 1], o, st);
      var b :- Lower(conds[|conds| - 1], o, s1);
      Ok(Assert(b.st, b.term))
  }

  /** `exist_syms`, sorted: the goal's names that occur in no premise. */
  function ExistNames(conds: seq<Expr>, goal: Expr): (r: seq<string>)
    ensures StrictlySorted(r)
    ensures forall n :: n in r <==> n in Names(goal) && n !in NamesAll(conds)
  {
    SortedUnique(Drop(Names(goal), NamesAll(conds)))
  }

  /** `s.assertFormula(GT(_parse("C", s), 0))` when `C` is existential. */
  function AssertPositivity(exist: seq<string>, st: Session): Session
  {
    if "C" in exist then
      var c := MkConst(st, "C");
      Assert(c.st, App(GT, [c.term, Zero]))
    else st
  }

  /** The three stages of the session: after the premises, after the
      positivity constraint, and the goal parsed on top. */
  datatype Run = Run(premises: Session, positive: Session, goal: Built)

  function GroundRun(conds: seq<Expr>, goal: Expr): Result<Run>
  {
    var s1 :- AssertPremises(conds, Test1Options, Fresh.(log := None));
    var s2 := AssertPositivity(ExistNames(conds, goal), s1);
    var g :- Lower(goal, Test1Options, s2);
    Ok(Run(s1, s2, g))
  }

  /** The session once the goal is asserted. */
  function Final(run: Run): Session
  {
    Assert(run.goal.st, run.goal.term)
  }

  /** `{v: s.getValue(_parse(v, s)) for v in names}`: a new constant per
      name, each handed to the model oracle `model`. */
  function Report(names: seq<string>, query: seq<Term>, asserted: seq<Term>,
                  model: (seq<Term>, Term) -> Term): (r: seq<(string, Term)>)
    requires |query| == |names|
    ensures |r| == |names|
    ensures forall k :: 0 <= k < |names| ==> r[k] == (names[k], model(asserted, query[k]))
  {
    seq(|names|, k requires 0 <= k < |names| => (names[k], model(asserted, query[k])))
  }

  /** `_prove(conditions, goal)`. `check` is `checkSat` and `model` is
      `getValue`, both consulted on the asserted formulas. An `Err` is an
      exception raised by `_parse`. */
  function GroundProve(conds: seq<Expr>, goal: Expr, check: seq<Term> -> SatResult,
                       model: (seq<Term>, Term) -> Term): Result<Answer>
  {
    var run :- GroundRun(conds, goal);
    var st := Final(run);
    if check(st.asserted) == Sat then
      var names := ExistNames(conds, goal);
      var (query, _) := MkConsts(st, names);
      Ok(Witnesses(Report(names, query, st.asserted, model)))
    else Ok(DoesNotExist)
  }

  // ---------- one constant per name ----------

  /** Every name of the problem, sorted, each with one constant made up front
      and kept in a cache, as `CVC5Encoder._const` keeps them. */
  function SharedConstants(conds: seq<Expr>, goal: Expr, st: Session): (map<string, Term>, Session)
  {
    var names := SortedUnique(NamesAll(conds) + Names(goal));
    var (cs, st1) := MkConsts(st, names);
    (Bind(map[], names, cs), st1)
  }

  /** `_prove` with every occurrence of a name parsed to the cached constant
      of that name: the premises, `C > 0`, the goal and the model query then
      all speak about the same constants. */
  function SharedRun(conds: seq<Expr>, goal: Expr): Result<(map<string, Term>, Run)>
  {
    var (env, s0) := SharedConstants(conds, goal, Fresh.(log := None));
    var o := Options(env, true, true);
    var s1 :- AssertPremises(conds, o, s0);
    var exist := ExistNames(conds, goal);
    var s2 := if "C" in exist && "C" in env then Assert(s1, App(GT, [env["C"], Zero])) else s1;
    var g :- Lower(goal, o, s2);
    Ok((env, Run(s1, s2, g)))
  }

  /** The cached constants of `names`, unknown names skipped. */
  function Lookup(env: map<string, Term>, names: seq<string>): (r: seq<Term>)
    ensures (forall k :: 0 <= k < |names| ==> names[k] in env) ==>
      |r| == |names| && forall k :: 0 <= k < |names| ==> r[k] == env[names[k]]
  {
    if names == [] then []
    else (if names[0] in env then [env[names[0]]] else []) + Lookup(env, names[1..])
  }

  function SharedProve(conds: seq<Expr>, goal: Expr, check: seq<Term> -> SatResult,
                       model: (seq<Term>, Term) -> Term): Result<Answer>
  {
    var (env, run) :- SharedRun(conds, goal);
    var st := Final(run);
    var names := ExistNames(conds, goal);
    var query := Lookup(env, names);
    if check(st.asserted) == Sat && |query| == |names| then
      Ok(Witnesses(Report(names, query, st.asserted, model)))
    else Ok(DoesNotExist)
  }
}
