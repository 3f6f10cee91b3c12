/** What `Ground.GroundProve` promises: the order and number of the asserted
    formulas, the answer it reads off the solver, and which constants its
    formulas share; and the same question for the variant with one cached
    constant per name. */
module GroundProps {
  import opened Wrappers
  import opened Text
  import opened SymExpr
  import opened SolverTerm
  import opened Lowering
  import opened LoweringProps
  import opened LoweringScope
  import opened LoweringFresh
  import opened Obligation
  import opened ObligationProps
  import opened Ground

  // ---------- the assertions ----------

  /** The premise loop asserts each premise after the side conditions its
      parsing adds (the pair `x > 0`, `exp(LOG x) = x` per `log` when side
      effects are on) and keeps what was asserted before. */
  lemma {:induction false} PremisesSession(conds: seq<Expr>, o: Options, st: Session)
    requires AssertPremises(conds, o, st).Ok?
    ensures var st' := AssertPremises(conds, o, st).value;
            && st.next <= st'.next
            && st.asserted <= st'.asserted
            && |st'.asserted| == |st.asserted| + |conds| + (if o.sideEffects then 2 * LogCountAll(conds) else 0)
            && (conds != [] ==>
                  st'.asserted[|st'.asserted| - 1]
                  == Lower(conds[|conds| - 1], o, AssertPremises(conds[..|conds| - 1], o, st).value).value.term)
            && (conds != [] && st'.log.Some? ==>
                  var s1 := AssertPremises(conds[..|conds| - 1], o, st).value;
                  && s1.asserted <= st'.asserted[..|st'.asserted| - 1]
                  && LogPairs(st'.asserted[|s1.asserted|..|st'.asserted| - 1], st'.log.value))
  {
    if conds != [] {
      var pre := conds[..|conds| - 1];
      PremisesSession(pre, o, st);
      var s1 := AssertPremises(pre, o, st).value;
      LowerSession(conds[|conds| - 1], o, s1);
      LowerPairs(conds[|conds| - 1], o, s1);
      var b := Lower(conds[|conds| - 1], o, s1).value;
      var st' := AssertPremises(conds, o, st).value;
      assert st' == Assert(b.st, b.term);
      assert st'.asserted[|s1.asserted|..|st'.asserted| - 1] == b.st.asserted[|s1.asserted|..];
    }
  }

  /** Without constants in the environment, the premises use only constants
      minted while they are parsed. */
  lemma {:induction false} PremisesFresh(conds: seq<Expr>, o: Options, st: Session)
    requires ConstFree(o.env) && AssertPremises(conds, o, st).Ok?
    ensures NewIn(st, AssertPremises(conds, o, st).value)
  {
    if conds != [] {
      var pre := conds[..|conds| - 1];
      PremisesFresh(pre, o, st);
      var s1 := AssertPremises(pre, o, st).value;
      var b := Lower(conds[|conds| - 1], o, s1).value;
      LowerFresh(conds[|conds| - 1], o, s1);
      AssertFresh(s1, b.st, b.term);
      NewInTrans(st, s1, Assert(b.st, b.term));
    }
  }

  /** The layout of test1.py's assertions: the premises with their side
      conditions, then `C > 0` on a newly made constant `C` exactly when `C`
      is existential, then the goal's side conditions (pairs `x > 0`,
      `exp(LOG x) = x` over the one `LOG` handle), then the goal. */
  lemma GroundLayout(conds: seq<Expr>, goal: Expr)
    requires GroundRun(conds, goal).Ok?
    ensures var run := GroundRun(conds, goal).value;
            var fin := Final(run).asserted;
            var exist := ExistNames(conds, goal);
            && |run.premises.asserted| == |conds| + 2 * LogCountAll(conds)
            && run.premises.asserted <= run.positive.asserted <= fin
            && |run.positive.asserted| == |run.premises.asserted| + (if "C" in exist then 1 else 0)
            && ("C" in exist ==>
                  run.positive.asserted[|run.premises.asserted|] == App(GT, [Const(run.premises.next, "C"), Zero]))
            && |fin| == |run.positive.asserted| + 2 * LogCount(goal) + 1
            && (LogCount(goal) > 0 ==> Final(run).log.Some?)
            && (Final(run).log.Some? ==>
                  LogPairs(fin[|run.positive.asserted|..|fin| - 1], Final(run).log.value))
            && fin[|fin| - 1] == run.goal.term
  {
    var run := GroundRun(conds, goal).value;
    PremisesSession(conds, Test1Options, Fresh.(log := None));
    LowerSession(goal, Test1Options, run.positive);
    LowerPairs(goal, Test1Options, run.positive);
    var fin := Final(run).asserted;
    assert fin[|run.positive.asserted|..|fin| - 1] == run.goal.st.asserted[|run.positive.asserted|..];
  }

  // ---------- the answer ----------

  /** On `sat` the answer lists the existential names in sorted order, each
      with the model's value of a constant made for the query; on `unsat` and
      on `unknown` it is "does not exist". */
  lemma GroundAnswer(conds: seq<Expr>, goal: Expr, check: seq<Term> -> SatResult,
                     model: (seq<Term>, Term) -> Term)
    ensures GroundProve(conds, goal, check, model).Ok? <==> GroundRun(conds, goal).Ok?
    ensures GroundRun(conds, goal).Ok? ==>
      var fin := Final(GroundRun(conds, goal).value);
      var answer := GroundProve(conds, goal, check, model).value;
      var names := ExistNames(conds, goal);
      && (check(fin.asserted) == Sat <==> answer.Witnesses?)
      && (answer.Witnesses? ==>
            && |answer.values| == |names|
            && forall k :: 0 <= k < |names| ==>
                 answer.values[k] == (names[k], model(fin.asserted, Const(fin.next + k, names[k]))))
  {
    if GroundRun(conds, goal).Ok? {
      var fin := Final(GroundRun(conds, goal).value);
      var names := ExistNames(conds, goal);
      var query := MkConsts(fin, names).0;
      var answer := GroundProve(conds, goal, check, model).value;
      if check(fin.asserted) == Sat {
        assert answer == Witnesses(Report(names, query, fin.asserted, model));
      } else {
        assert answer == DoesNotExist;
      }
    }
  }

  // ---------- which constants are shared ----------

  /** Every occurrence of a name is parsed to a new constant, so the goal
      shares no constant with the premises or with `C > 0`, and the constants
      whose values are reported occur in no asserted formula at all. */
  lemma GroundDisconnected(conds: seq<Expr>, goal: Expr)
    requires GroundRun(conds, goal).Ok?
    ensures var run := GroundRun(conds, goal).value;
            var fin := Final(run);
            var names := ExistNames(conds, goal);
            var query := MkConsts(fin, names).0;
            && AllIdsIn(run.premises.asserted, 0, run.premises.next)
            && IdsIn(run.goal.term, run.positive.next, run.goal.st.next)
            && ("C" in names ==> run.premises.next !in ConstIds(run.goal.term))
            && forall k, j :: 0 <= k < |query| && 0 <= j < |fin.asserted| ==>
                 query[k].id !in ConstIds(fin.asserted[j])
  {
    var run := GroundRun(conds, goal).value;
    var s0 := Fresh.(log := None);
    PremisesFresh(conds, Test1Options, s0);
    if "C" in ExistNames(conds, goal) {
      var c := MkConst(run.premises, "C");
      ConstIdsPair(c.term, Zero);
      AssertFresh(run.premises, c.st, App(GT, [c.term, Zero]));
    }
    LowerFresh(goal, Test1Options, run.positive);
    var fin := Final(run);
    AssertFresh(run.positive, run.goal.st, run.goal.term);
    NewInTrans(run.premises, run.positive, fin);
    NewInTrans(s0, run.premises, fin);
  }

  /** test1.py's own example, `_prove(["a <= b"], "a <= C*b")`: the premise
      speaks about constants 0 and 1, `C > 0` about constant 2, and the goal
      about the new constants 3, 4 and 5. */
  lemma GroundExample()
    ensures GroundRun([ExamplePremise], ExampleGoal)
            == Ok(Run(Session(2, None, [PremiseTerm]),
                      Session(3, None, [PremiseTerm, App(GT, [Const(2, "C"), Zero])]),
                      Built(GoalTerm, Session(6, None, [PremiseTerm, App(GT, [Const(2, "C"), Zero])]))))
  {
    var conds := [ExamplePremise];
    assert conds[..0] == [];
    ExamplePremiseLowered();
    var s1 := Session(2, None, [PremiseTerm]);
    assert [] + [PremiseTerm] == [PremiseTerm];
    assert AssertPremises(conds, Test1Options, Fresh.(log := None)) == Ok(s1);
    ExampleNames();
    var positive := App(GT, [Const(2, "C"), Zero]);
    var s2 := Session(3, None, [PremiseTerm, positive]);
    assert [PremiseTerm] + [positive] == [PremiseTerm, positive];
    assert AssertPositivity(["C"], s1) == s2;
    ExampleGoalLowered(s2);
  }

  const ExamplePremise: Expr := Rel(Le, Sym("a"), Sym("b"))
  const ExampleGoal: Expr := Rel(Le, Sym("a"), Mul([Sym("C"), Sym("b")]))
  const PremiseTerm: Term := App(LEQ, [Const(0, "a"), Const(1, "b")])
  const GoalTerm: Term := App(LEQ, [Const(3, "a"), App(MULT, [Const(4, "C"), Const(5, "b")])])

  lemma ExamplePremiseLowered()
    ensures Lower(ExamplePremise, Test1Options, Fresh.(log := None)) == Ok(Built(PremiseTerm, Session(2, None, [])))
  {
  }

  lemma ExampleNames()
    ensures ExistNames([ExamplePremise], ExampleGoal) == ["C"]
  {
    ExampleNameLists();
    ExampleDrop();
    assert ["C"][..0] == [];
  }

  lemma ExampleNameLists()
    ensures NamesAll([ExamplePremise]) == ["a", "b"]
    ensures Names(ExampleGoal) == ["a", "C", "b"]
  {
    var c, b := Sym("C"), Sym("b");
    assert NamesAll([ExamplePremise]) == ["a", "b"];
    assert [c, b][1..] == [b] && [b][1..] == [];
    assert NamesAll([b]) == ["b"];
    assert NamesAll([c, b]) == ["C", "b"];
  }

  lemma ExampleDrop()
    ensures Drop(["a", "C", "b"], ["a", "b"]) == ["C"]
  {
    assert ["a", "C", "b"][1..] == ["C", "b"] && ["C", "b"][1..] == ["b"];
    assert Drop(["b"], ["a", "b"]) == [];
  }

  lemma ExampleGoalLowered(st: Session)
    requires st.next == 3 && st.log == None
    ensures Lower(ExampleGoal, Test1Options, st) == Ok(Built(GoalTerm, st.(next := 6)))
  {
    var c, b := Sym("C"), Sym("b");
    var prod := [c, b];
    var s1 := st.(next := 4);
    assert Lower(Sym("a"), Test1Options, st) == Ok(Built(Const(3, "a"), s1));
    assert prod[..1] == [c] && [c][..0] == [];
    assert SplitFactors([], Test1Options, s1) == Ok(Factors([], [], s1));
    assert [] + [Const(4, "C")] == [Const(4, "C")];
    assert [Const(4, "C")] + [Const(5, "b")] == [Const(4, "C"), Const(5, "b")];
    assert SplitFactors([c], Test1Options, s1) == Ok(Factors([Const(4, "C")], [], st.(next := 5)));
    assert SplitFactors(prod, Test1Options, s1) == Ok(Factors([Const(4, "C"), Const(5, "b")], [], st.(next := 6)));
  }

  // ---------- one constant per name ----------

  /** The cache holds one constant for each name of the problem, named after
      it. */
  lemma SharedEnv(conds: seq<Expr>, goal: Expr, st: Session)
    ensures var env := SharedConstants(conds, goal, st).0;
            forall n :: n in NamesAll(conds) || n in Names(goal) ==>
              n in env && env[n].Const? && env[n].name == n && ConstIds(env[n]) == {env[n].id}
  {
    var names := SortedUnique(NamesAll(conds) + Names(goal));
    var cs := MkConsts(st, names).0;
    var env := Bind(map[], names, cs);
    assert env == SharedConstants(conds, goal, st).0;
    BindDistinct(names, cs);
    forall n | n in NamesAll(conds) || n in Names(goal)
      ensures n in env && env[n].Const? && env[n].name == n && ConstIds(env[n]) == {env[n].id}
    {
      assert n in NamesAll(conds) + Names(goal);
      var k :| 0 <= k < |names| && names[k] == n;
      assert env[n] == Const(st.next + k, n);
    }
  }

  /** A name of a premise puts its cached constant into one of the asserted
      premises. */
  lemma {:induction false} PremisesUseEnv(conds: seq<Expr>, o: Options, st: Session, n: string)
    requires n in NamesAll(conds) && n in o.env && AssertPremises(conds, o, st).Ok?
    ensures var st' := AssertPremises(conds, o, st).value;
            exists j :: |st.asserted| <= j < |st'.asserted| && ConstIds(o.env[n]) <= ConstIds(st'.asserted[j])
  {
    var pre, c := conds[..|conds| - 1], conds[|conds| - 1];
    assert conds == pre + [c];
    NamesAllSnoc(pre, c);
    var s1 := AssertPremises(pre, o, st).value;
    var b := Lower(c, o, s1).value;
    var st' := Assert(b.st, b.term);
    PremisesSession(pre, o, st);
    LowerSession(c, o, s1);
    if n in NamesAll(pre) {
      PremisesUseEnv(pre, o, st, n);
      var j :| |st.asserted| <= j < |s1.asserted| && ConstIds(o.env[n]) <= ConstIds(s1.asserted[j]);
      assert st'.asserted[j] == s1.asserted[j];
    } else {
      LowerUsesEnv(c, o, s1, n);
      assert st'.asserted[|st'.asserted| - 1] == b.term;
    }
  }

  /** With one constant per name, a name the goal shares with a premise is
      the same constant in both. */
  lemma SharedPremiseAndGoal(conds: seq<Expr>, goal: Expr, n: string)
    requires SharedRun(conds, goal).Ok? && n in Names(goal) && n in NamesAll(conds)
    ensures var r := SharedRun(conds, goal).value;
            && n in r.0 && r.0[n].Const? && r.0[n].name == n
            && r.0[n].id in ConstIds(r.1.goal.term)
            && exists j :: 0 <= j < |r.1.premises.asserted| && r.0[n].id in ConstIds(r.1.premises.asserted[j])
  {
    var s0 := Fresh.(log := None);
    var st0 := SharedConstants(conds, goal, s0).1;
    var r := SharedRun(conds, goal).value;
    var o := Options(r.0, true, true);
    SharedEnv(conds, goal, s0);
    LowerUsesEnv(goal, o, r.1.positive, n);
    PremisesUseEnv(conds, o, st0, n);
  }

  /** `C > 0` is asserted about the goal's own `C`. */
  lemma SharedPositivity(conds: seq<Expr>, goal: Expr)
    requires SharedRun(conds, goal).Ok? && "C" in ExistNames(conds, goal)
    ensures var r := SharedRun(conds, goal).value;
            && "C" in r.0 && r.0["C"].Const? && r.0["C"].name == "C"
            && r.1.positive.asserted == r.1.premises.asserted + [App(GT, [r.0["C"], Zero])]
            && r.0["C"].id in ConstIds(r.1.goal.term)
  {
    var s0 := Fresh.(log := None);
    var r := SharedRun(conds, goal).value;
    SharedEnv(conds, goal, s0);
    LowerUsesEnv(goal, Options(r.0, true, true), r.1.positive, "C");
  }

  /** The values reported are those of the goal's own constants. */
  lemma SharedQuery(conds: seq<Expr>, goal: Expr)
    requires SharedRun(conds, goal).Ok?
    ensures var r := SharedRun(conds, goal).value;
            var names := ExistNames(conds, goal);
            var query := Lookup(r.0, names);
            && |query| == |names|
            && forall k :: 0 <= k < |names| ==>
                 && names[k] in r.0 && query[k] == r.0[names[k]]
                 && query[k].Const? && query[k].name == names[k] && query[k].id in ConstIds(r.1.goal.term)
  {
    var s0 := Fresh.(log := None);
    var r := SharedRun(conds, goal).value;
    SharedEnv(conds, goal, s0);
    var names := ExistNames(conds, goal);
    forall k | 0 <= k < |names|
      ensures names[k] in r.0 && r.0[names[k]].Const? && r.0[names[k]].id in ConstIds(r.1.goal.term)
    {
      assert names[k] in names;
      LowerUsesEnv(goal, Options(r.0, true, true), r.1.positive, names[k]);
    }
  }
}
