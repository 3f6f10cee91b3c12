/** What `Obligation.Prove` promises: the names split into existential and
    universal ones, the witness removes `C`, the binders name their
    variables, the axioms and (when no condition mentions an existential) the
    obligation are closed formulas, the solver sees the axioms and then the
    negated obligation and nothing else, and the verdict string tells the
    solver's answer. */
module ObligationProps {
  import opened Wrappers
  import opened Text
  import opened SymExpr
  import opened SolverTerm
  import opened Lowering
  import opened LoweringProps
  import opened LoweringScope
  import opened Obligation

  /** The set of the variables of a binder list. */
  function Scope(vs: seq<Term>): set<Term>
  {
    set k | 0 <= k < |vs| :: vs[k]
  }

  // ---------- names ----------

  lemma {:induction false} KeepSubsequence(xs: seq<string>, occ: seq<string>)
    ensures Subsequence(Keep(xs, occ), xs)
  {
    if xs != [] {
      KeepSubsequence(xs[1..], occ);
      var rest := Keep(xs[1..], occ);
      if xs[0] in occ {
        assert Keep(xs, occ) == [xs[0]] + rest;
        assert ([xs[0]] + rest)[1..] == rest;
      } else {
        assert Keep(xs, occ) == rest;
        // a kept name is in `occ`, and `xs[0]` is not
        assert rest != [] ==> rest[0] in rest;
      }
    }
  }

  /** The names split into the existential ones, in declared order, and the
      universal ones, sorted without repeats: disjoint, and together exactly
      the names that occur. */
  lemma NamePartition(p: Problem)
    ensures forall n :: n in ExiNames(p) <==> n in p.existentials && n in AllNames(p)
    ensures forall n :: n in UniNames(p) <==> n in AllNames(p) && n !in p.existentials
    ensures forall n :: n in AllNames(p) <==> n in ExiNames(p) || n in UniNames(p)
    ensures forall n :: !(n in ExiNames(p) && n in UniNames(p))
    ensures StrictlySorted(UniNames(p))
    ensures Subsequence(ExiNames(p), p.existentials)
  {
    KeepSubsequence(p.existentials, AllNames(p));
  }

  // ---------- the witness ----------

  /** A positive number substituted for `C` removes `C` from the names that
      occur and from the existentials, keeps every other name, and so leaves
      no `C > 0` in the formula. */
  lemma WitnessRemovesC(p: Problem, x: real, st: Session)
    requires x > 0.0
    ensures ApplyWitness(p, Some(Num(x))).Ready?
    ensures var q := ApplyWitness(p, Some(Num(x))).problem;
            && |q.conditions| == |p.conditions|
            && (forall n :: n in AllNames(q) <==> n in AllNames(p) && n != "C")
            && (forall n :: n in q.existentials <==> n in p.existentials && n != "C")
            && (forall n :: n in ExiNames(q) <==> n in ExiNames(p) && n != "C")
            && (forall n :: n in UniNames(q) <==> n in UniNames(p) && n != "C")
            && Positivity(MakeBinders(UniNames(q), ExiNames(q), st).envAll) == []
  {
    var q := ApplyWitness(p, Some(Num(x))).problem;
    SubstNumberNamesAll(p.conditions, "C", x);
    SubstNumberNames(p.goal, "C", x);
    NamePartition(p);
    NamePartition(q);
    BinderEnvs(UniNames(q), ExiNames(q), st);
  }

  lemma WitnessRefusals(p: Problem, w: Expr)
    ensures ApplyWitness(p, Some(w)) == Refused("not proved: witness_C must be numeric") <==> !w.Num?
    ensures ApplyWitness(p, Some(w)) == Refused("not proved: witness_C must be > 0") <==> w.Num? && w.value <= 0.0
    ensures ApplyWitness(p, Some(w)).Ready? <==> w.Num? && w.value > 0.0
  {
  }

  // ---------- binders ----------

  /** The last place a name occurs in a list. */
  lemma {:induction false} LastIndex(xs: seq<string>, n: string) returns (k: nat)
    requires n in xs
    ensures k < |xs| && xs[k] == n && n !in xs[k + 1..]
  {
    if xs[|xs| - 1] == n {
      k := |xs| - 1;
    } else {
      var pre := xs[..|xs| - 1];
      assert n in pre by { var i :| 0 <= i < |xs| && xs[i] == n; assert pre[i] == n; }
      k := LastIndex(pre, n);
      assert xs[k + 1..] == pre[k + 1..] + [xs[|xs| - 1]];
    }
  }

  lemma SortedNoRepeat(xs: seq<string>, k: nat)
    requires StrictlySorted(xs) && k < |xs|
    ensures xs[k] !in xs[k + 1..]
  {
    forall j | k < j < |xs| ensures xs[j] != xs[k] {
      BelowIrreflexive(xs[k]);
    }
    var tail := xs[k + 1..];
    forall i | 0 <= i < |tail| ensures tail[i] != xs[k] {
      assert tail[i] == xs[k + 1 + i];
    }
  }

  /** Names without repeats are bound each to the variable at its place. */
  lemma BindDistinct(names: seq<string>, vars: seq<Term>)
    requires StrictlySorted(names) && |names| == |vars|
    ensures forall k :: 0 <= k < |names| ==> Bind(map[], names, vars)[names[k]] == vars[k]
  {
    forall k | 0 <= k < |names| ensures Bind(map[], names, vars)[names[k]] == vars[k] {
      SortedNoRepeat(names, k);
    }
  }

  /** A bound name is bound to one of the variables given for it. */
  lemma BindChoice(env: map<string, Term>, names: seq<string>, vars: seq<Term>, n: string)
    requires |names| == |vars| && n in names
    ensures exists k :: 0 <= k < |names| && names[k] == n && Bind(env, names, vars)[n] == vars[k]
  {
    var k := LastIndex(names, n);
  }

  lemma InScope(vs: seq<Term>, x: Term)
    requires x in vs
    ensures x in Scope(vs)
  {
    var k :| 0 <= k < |vs| && vs[k] == x;
  }

  /** `MkVars` makes variables named in order, so a name is bound to a
      variable of that name. */
  lemma BindVars(env: map<string, Term>, names: seq<string>, st: Session)
    ensures var vs := MkVars(st, names).0;
            forall n :: n in names ==>
              Bind(env, names, vs)[n] in vs && Bind(env, names, vs)[n].Var? && Bind(env, names, vs)[n].name == n
  {
    var vs := MkVars(st, names).0;
    forall n | n in names
      ensures Bind(env, names, vs)[n] in vs && Bind(env, names, vs)[n] == Var(Bind(env, names, vs)[n].id, n)
    {
      BindChoice(env, names, vs, n);
    }
  }

  /** `uni_vars` and `env_uni`. */
  lemma UniBinders(uni: seq<string>, st: Session)
    requires StrictlySorted(uni)
    ensures var vs := MkVars(st, uni).0;
            var env := Bind(map[], uni, vs);
            && (forall n :: n in env <==> n in uni)
            && (forall k :: 0 <= k < |uni| ==> env[uni[k]] == vs[k])
            && NamedEnv(env)
            && BoundIn(env, Scope(vs))
  {
    var vs := MkVars(st, uni).0;
    var env := Bind(map[], uni, vs);
    BindDistinct(uni, vs);
    BindVars(map[], uni, st);
    forall n | n in env ensures Closed(env[n], Scope(vs)) {
      InScope(vs, env[n]);
    }
  }

  /** `exi_vars` and `env_all`. */
  lemma ExiBinders(envUni: map<string, Term>, exi: seq<string>, st: Session, scope: set<Term>)
    requires NamedEnv(envUni) && BoundIn(envUni, scope)
    ensures var vs := MkVars(st, exi).0;
            var env := Bind(envUni, exi, vs);
            && (forall n :: n in env <==> n in envUni || n in exi)
            && (forall n :: n in env && n !in exi ==> env[n] == envUni[n])
            && (forall n :: n in exi ==> env[n] in vs)
            && NamedEnv(env)
            && BoundIn(env, scope + Scope(vs))
  {
    var vs := MkVars(st, exi).0;
    var env := Bind(envUni, exi, vs);
    BindVars(envUni, exi, st);
    forall n | n in env ensures Closed(env[n], scope + Scope(vs)) {
      if n in exi {
        InScope(vs, env[n]);
      } else {
        assert Closed(envUni[n], scope);
      }
    }
  }

  /** `uni_vars` and `exi_vars` are fresh variables named in order. */
  lemma BinderVars(uni: seq<string>, exi: seq<string>, st: Session)
    ensures var b := MakeBinders(uni, exi, st);
            && |b.uniVars| == |uni| && |b.exiVars| == |exi|
            && (forall k :: 0 <= k < |uni| ==> b.uniVars[k] == Var(st.next + k, uni[k]))
            && (forall k :: 0 <= k < |exi| ==> b.exiVars[k] == Var(st.next + |uni| + k, exi[k]))
            && b.st == st.(next := st.next + |uni| + |exi|)
  {
    BinderSizes(uni, exi, st);
    UniVarsNamed(uni, exi, st);
    ExiVarsNamed(uni, exi, st);
  }

  /** The binders' variables are the two runs `MkVars` makes. */
  lemma BinderRuns(uni: seq<string>, exi: seq<string>, st: Session)
    ensures MakeBinders(uni, exi, st).uniVars == MkVars(st, uni).0
    ensures MakeBinders(uni, exi, st).exiVars == MkVars(MkVars(st, uni).1, exi).0
    ensures MakeBinders(uni, exi, st).st == MkVars(MkVars(st, uni).1, exi).1
  {
  }

  lemma BinderSizes(uni: seq<string>, exi: seq<string>, st: Session)
    ensures var b := MakeBinders(uni, exi, st);
            && |b.uniVars| == |uni| && |b.exiVars| == |exi|
            && b.st == st.(next := st.next + |uni| + |exi|)
  {
    BinderRuns(uni, exi, st);
  }

  lemma UniVarsNamed(uni: seq<string>, exi: seq<string>, st: Session)
    ensures var b := MakeBinders(uni, exi, st);
            forall k :: 0 <= k < |uni| ==> b.uniVars[k] == Var(st.next + k, uni[k])
  {
    BinderRuns(uni, exi, st);
  }

  lemma ExiVarsNamed(uni: seq<string>, exi: seq<string>, st: Session)
    ensures var b := MakeBinders(uni, exi, st);
            forall k :: 0 <= k < |exi| ==> b.exiVars[k] == Var(st.next + |uni| + k, exi[k])
  {
    BinderRuns(uni, exi, st);
  }

  /** `env_uni` binds each universal name to its variable; `env_all` adds
      the existential ones, each to a variable of its name, and keeps the
      rest. */
  lemma BinderEnvs(uni: seq<string>, exi: seq<string>, st: Session)
    requires StrictlySorted(uni)
    ensures var b := MakeBinders(uni, exi, st);
            && (forall n :: n in b.envUni <==> n in uni)
            && (forall k :: 0 <= k < |uni| ==> b.envUni[uni[k]] == b.uniVars[k])
            && (forall n :: n in b.envAll <==> n in uni || n in exi)
            && (forall n :: n in b.envAll && n !in exi ==> b.envAll[n] == b.envUni[n])
            && (forall n :: n in exi ==> b.envAll[n] in b.exiVars)
            && NamedEnv(b.envUni) && NamedEnv(b.envAll)
            && BoundIn(b.envUni, Scope(b.uniVars))
            && BoundIn(b.envAll, Scope(b.uniVars) + Scope(b.exiVars))
  {
    var m1 := MkVars(st, uni);
    UniBinders(uni, st);
    ExiBinders(Bind(map[], uni, m1.0), exi, m1.1, Scope(m1.0));
  }

  /** The positivity list `pos` holds `C > 0` exactly when `C` occurs. The
      `C` it constrains is the existential variable when `C` is declared
      existential, and otherwise the universal variable `C`. Whether `pos`
      reaches the formula is `PositivityPlacement`. */
  lemma PositivityOfC(p: Problem, st: Session)
    ensures var b := MakeBinders(UniNames(p), ExiNames(p), st);
            && (Positivity(b.envAll) != [] <==> "C" in AllNames(p))
            && ("C" in AllNames(p) && "C" in p.existentials ==> b.envAll["C"] in b.exiVars)
            && ("C" in AllNames(p) && "C" !in p.existentials ==> b.envAll["C"] in b.uniVars)
  {
    NamePartition(p);
    BinderVars(UniNames(p), ExiNames(p), st);
    BinderEnvs(UniNames(p), ExiNames(p), st);
    var b := MakeBinders(UniNames(p), ExiNames(p), st);
    if "C" in AllNames(p) && "C" !in p.existentials {
      var k :| 0 <= k < |UniNames(p)| && UniNames(p)[k] == "C";
      assert b.envAll["C"] == b.uniVars[k];
    }
  }

  /** Where `pos` ends up in the formula: under the existential binder,
      conjoined before the goal, when `C` occurs and something is
      existential. With no existential at all the binder is dropped and
      `pos` with it, even when the goal mentions `C`. */
  lemma PositivityPlacement(p: Problem, st: Session) returns (b: Binders, conds: BuiltAll, goal: Built)
    requires BuildObligation(p, st).Ok?
    ensures b == MakeBinders(UniNames(p), ExiNames(p), st)
    ensures LowerAll(p.conditions, Options(b.envUni, false, false), b.st) == Ok(conds)
    ensures Lower(p.goal, Options(b.envAll, false, false), conds.st) == Ok(goal)
    ensures var ob := BuildObligation(p, st).value.term;
            var cond := Conjunction(conds.terms);
            && (ExiNames(p) == [] ==> ob == ForallPart(b.uniVars, cond, goal.term))
            && (ExiNames(p) != [] && "C" !in AllNames(p) ==>
                  ob == ForallPart(b.uniVars, cond, Exists(b.exiVars, goal.term)))
            && (ExiNames(p) != [] && "C" in AllNames(p) ==>
                  "C" in b.envAll
                  && ob == ForallPart(b.uniVars, cond, Exists(b.exiVars, App(AND, [App(GT, [b.envAll["C"], Zero]), goal.term]))))
  {
    b, conds, goal := ObligationParts(p, st);
    PositivityOfC(p, st);
    BinderSizes(UniNames(p), ExiNames(p), st);
    ExistsPartCases(b.exiVars, b.envAll, goal.term);
  }

  lemma ExistsPartCases(exiVars: seq<Term>, envAll: map<string, Term>, goal: Term)
    ensures exiVars == [] ==> ExistsPart(exiVars, Positivity(envAll), goal) == goal
    ensures exiVars != [] && "C" !in envAll ==> ExistsPart(exiVars, Positivity(envAll), goal) == Exists(exiVars, goal)
    ensures exiVars != [] && "C" in envAll ==>
      ExistsPart(exiVars, Positivity(envAll), goal) == Exists(exiVars, App(AND, [App(GT, [envAll["C"], Zero]), goal]))
  {
    if "C" in envAll {
      assert [App(GT, [envAll["C"], Zero])] + [goal] == [App(GT, [envAll["C"], Zero]), goal];
    }
  }

  // ---------- the axioms ----------

  lemma ClosedExp(t: Term, scope: set<Term>)
    requires Closed(t, scope)
    ensures Closed(ExpTerm(t), scope)
  {
    ClosedOne(t, scope);
  }

  lemma ClosedBinary(k: Kind, a: Term, b: Term, scope: set<Term>)
    requires Closed(a, scope) && Closed(b, scope)
    ensures Closed(App(k, [a, b]), scope)
  {
    ClosedPair(a, b, scope);
  }

  lemma ClosedOnePattern(terms: seq<Term>, scope: set<Term>)
    requires ClosedAll(terms, scope)
    ensures ClosedPatterns([Pattern(terms)], scope)
  {
    assert [Pattern(terms)][1..] == [];
  }

  /** The variables a quantifier binds are in scope in its body. */
  lemma BoundHere(vs: seq<Term>, k: nat, scope: set<Term>)
    requires k < |vs| && vs[k].Var?
    ensures Closed(vs[k], scope + (set j | 0 <= j < |vs| :: vs[j]))
  {
  }

  /** Each axiom is a closed formula: every variable in it is bound by its
      own quantifier. */
  lemma MonotoneClosed(u: Term, v: Term)
    requires u.Var? && v.Var?
    ensures Closed(MonotoneForward(u, v), {}) && Closed(MonotoneReverse(u, v), {})
  {
    var suv := {} + (set j | 0 <= j < 2 :: [u, v][j]);
    BoundHere([u, v], 0, {});
    BoundHere([u, v], 1, {});
    ClosedExp(u, suv);
    ClosedExp(v, suv);
    ClosedBinary(LEQ, u, v, suv);
    ClosedBinary(LEQ, ExpTerm(u), ExpTerm(v), suv);
    ClosedBinary(IMPLIES, App(LEQ, [u, v]), App(LEQ, [ExpTerm(u), ExpTerm(v)]), suv);
    ClosedBinary(IMPLIES, App(LEQ, [ExpTerm(u), ExpTerm(v)]), App(LEQ, [u, v]), suv);
    ClosedPair(ExpTerm(u), ExpTerm(v), suv);
    ClosedOnePattern([ExpTerm(u), ExpTerm(v)], suv);
    ClosedOne(App(LEQ, [ExpTerm(u), ExpTerm(v)]), suv);
    ClosedOnePattern([App(LEQ, [ExpTerm(u), ExpTerm(v)])], suv);
  }

  lemma RightInverseClosed(lg: Fun, y: Term)
    requires y.Var?
    ensures Closed(RightInverse(lg, y), {})
  {
    var sy := {} + (set j | 0 <= j < 1 :: [y][j]);
    BoundHere([y], 0, {});
    ClosedExp(y, sy);
    ClosedBinary(EQUAL, ApplyUF(lg, ExpTerm(y)), y, sy);
    ClosedOnePattern([ApplyUF(lg, ExpTerm(y))], sy);
  }

  lemma LeftInverseClosed(lg: Fun, x: Term)
    requires x.Var?
    ensures Closed(LeftInverse(lg, x), {})
    ensures Closed(Forall([x], LeftInverseBody(lg, x), []), {})
  {
    var sx := {} + (set j | 0 <= j < 1 :: [x][j]);
    BoundHere([x], 0, {});
    ClosedBinary(GT, x, Zero, sx);
    ClosedExp(ApplyUF(lg, x), sx);
    ClosedBinary(EQUAL, ExpTerm(ApplyUF(lg, x)), x, sx);
    ClosedBinary(IMPLIES, App(GT, [x, Zero]), App(EQUAL, [ExpTerm(ApplyUF(lg, x)), x]), sx);
    ClosedOnePattern([ExpTerm(ApplyUF(lg, x))], sx);
  }

  lemma LogMonotoneClosed(lg: Fun, p: Term, q: Term)
    requires p.Var? && q.Var?
    ensures Closed(LogMonotone(lg, p, q), {})
  {
    var spq := {} + (set j | 0 <= j < 2 :: [p, q][j]);
    BoundHere([p, q], 0, {});
    BoundHere([p, q], 1, {});
    ClosedBinary(GT, p, Zero, spq);
    ClosedBinary(GT, q, Zero, spq);
    ClosedBinary(LEQ, p, q, spq);
    ClosedAllIff([App(GT, [p, Zero]), App(GT, [q, Zero]), App(LEQ, [p, q])], spq);
    ClosedBinary(LEQ, ApplyUF(lg, p), ApplyUF(lg, q), spq);
    ClosedBinary(IMPLIES, App(AND, [App(GT, [p, Zero]), App(GT, [q, Zero]), App(LEQ, [p, q])]),
                 App(LEQ, [ApplyUF(lg, p), ApplyUF(lg, q)]), spq);
    ClosedPair(ApplyUF(lg, p), ApplyUF(lg, q), spq);
    ClosedOnePattern([ApplyUF(lg, p), ApplyUF(lg, q)], spq);
  }

  lemma AxiomsClosed(lg: Fun, vs: seq<Term>)
    requires |vs| == 6 && forall k :: 0 <= k < 6 ==> vs[k].Var?
    ensures forall k :: 0 <= k < 5 ==> Closed(PatternedAxioms(lg, vs)[k], {})
  {
    MonotoneClosed(vs[0], vs[1]);
    RightInverseClosed(lg, vs[2]);
    LeftInverseClosed(lg, vs[5]);
    LogMonotoneClosed(lg, vs[3], vs[4]);
  }

  /** The axioms in force before the obligation: `LOG` is the first handle
      of the session, declared once; the six variables follow. test.py adds
      the left-inverse axiom a second time over a new variable `x` and with
      no pattern. */
  lemma PreambleShape(variant: Variant)
    ensures var lg := Fun(0, "LOG");
            var st := Preamble(variant);
            && st.log == Some(lg)
            && st.next == (if variant.WithSixthAxiom? then 8 else 7)
            && st.asserted == PatternedAxioms(lg, AxiomVars)
                 + (if variant.WithSixthAxiom? then [Forall([Var(7, "x")], LeftInverseBody(lg, Var(7, "x")), [])] else [])
  {
    var m := MkVars(Fresh.(next := 1, log := Some(Fun(0, "LOG"))), AxiomNames);
    assert m.0 == AxiomVars;
  }

  const AxiomVars: seq<Term> := [Var(1, "u"), Var(2, "v"), Var(3, "y"), Var(4, "p"), Var(5, "q"), Var(6, "x")]

  /** Each formula asserted before the obligation is closed, whatever the
      `LOG` handle and the bound variables; `PreambleShape` says which ones
      the preamble uses. */
  lemma PreambleClosed(lg: Fun, vs: seq<Term>, x: Term, sixth: bool)
    requires |vs| == 6 && (forall k :: 0 <= k < 6 ==> vs[k].Var?) && x.Var?
    ensures var asserted := PatternedAxioms(lg, vs) + (if sixth then [Forall([x], LeftInverseBody(lg, x), [])] else []);
            forall k :: 0 <= k < |asserted| ==> Closed(asserted[k], {})
  {
    AxiomsClosed(lg, vs);
    LeftInverseClosed(lg, x);
    ClosedConcat(PatternedAxioms(lg, vs), if sixth then [Forall([x], LeftInverseBody(lg, x), [])] else []);
  }

  lemma ClosedConcat(xs: seq<Term>, ys: seq<Term>)
    requires forall k :: 0 <= k < |xs| ==> Closed(xs[k], {})
    requires forall k :: 0 <= k < |ys| ==> Closed(ys[k], {})
    ensures forall k :: 0 <= k < |xs + ys| ==> Closed((xs + ys)[k], {})
  {
    forall k | 0 <= k < |xs + ys| ensures Closed((xs + ys)[k], {}) {
      if k < |xs| { assert (xs + ys)[k] == xs[k]; } else { assert (xs + ys)[k] == ys[k - |xs|]; }
    }
  }

  // ---------- the formula ----------

  lemma ConjunctionClosed(ts: seq<Term>, scope: set<Term>)
    requires ClosedAll(ts, scope)
    ensures Closed(Conjunction(ts), scope)
  {
    if |ts| == 1 {
      ClosedOne(ts[0], scope);
      assert ts == [ts[0]];
    }
  }

  lemma ConjunctionHasConst(ts: seq<Term>, n: string)
    requires HasConstAll(ts, n)
    ensures HasConst(Conjunction(ts), n)
  {
    if |ts| == 1 {
      HasConstOne(ts[0], n);
      assert ts == [ts[0]];
    }
  }

  /** The ∃-part is closed under the universal variables once the goal is
      closed under both kinds, and `C` is bound. */
  lemma ExistsPartClosed(exiVars: seq<Term>, pos: seq<Term>, goal: Term, uniScope: set<Term>)
    requires Closed(goal, uniScope + Scope(exiVars))
    requires forall k :: 0 <= k < |pos| ==> Closed(pos[k], uniScope + Scope(exiVars))
    requires |pos| <= 1
    ensures Closed(ExistsPart(exiVars, pos, goal), uniScope)
  {
    if exiVars == [] {
      assert Scope(exiVars) == {};
      assert uniScope + Scope(exiVars) == uniScope;
    } else if pos != [] {
      assert pos + [goal] == [pos[0], goal];
      ClosedPair(pos[0], goal, uniScope + Scope(exiVars));
    }
  }

  lemma ForallPartClosed(uniVars: seq<Term>, cond: Term, ex: Term)
    requires Closed(cond, Scope(uniVars)) && Closed(ex, Scope(uniVars))
    ensures Closed(ForallPart(uniVars, cond, ex), {})
  {
    ClosedPair(cond, ex, Scope(uniVars));
    if uniVars == [] {
      assert Scope(uniVars) == {};
    } else {
      assert {} + Scope(uniVars) == Scope(uniVars);
    }
  }

  lemma ForallPartHasConst(uniVars: seq<Term>, cond: Term, ex: Term, n: string)
    requires HasConst(cond, n)
    ensures HasConst(ForallPart(uniVars, cond, ex), n)
  {
    HasConstPair(cond, ex, n);
  }

  /** The pieces `BuildObligation` assembles. */
  lemma ObligationParts(p: Problem, st: Session) returns (b: Binders, conds: BuiltAll, goal: Built)
    requires BuildObligation(p, st).Ok?
    ensures b == MakeBinders(UniNames(p), ExiNames(p), st)
    ensures LowerAll(p.conditions, Options(b.envUni, false, false), b.st) == Ok(conds)
    ensures Lower(p.goal, Options(b.envAll, false, false), conds.st) == Ok(goal)
    ensures BuildObligation(p, st).value
         == Built(ForallPart(b.uniVars, Conjunction(conds.terms), ExistsPart(b.exiVars, Positivity(b.envAll), goal.term)),
                  goal.st)
  {
    b := MakeBinders(UniNames(p), ExiNames(p), st);
    conds := LowerAll(p.conditions, Options(b.envUni, false, false), b.st).value;
    goal := Lower(p.goal, Options(b.envAll, false, false), conds.st).value;
  }

  /** Conditions are parsed under the universal binders only, so a declared
      existential they mention, `C` say, is a free constant of the
      obligation. */
  lemma ConditionConstant(p: Problem, st: Session, n: string)
    requires BuildObligation(p, st).Ok?
    requires n in NamesAll(p.conditions) && n in p.existentials
    ensures HasConst(BuildObligation(p, st).value.term, n)
    ensures !Closed(BuildObligation(p, st).value.term, {})
  {
    NamePartition(p);
    BinderEnvs(UniNames(p), ExiNames(p), st);
    var b, conds, goal := ObligationParts(p, st);
    var cond := Conjunction(conds.terms);
    var ex := ExistsPart(b.exiVars, Positivity(b.envAll), goal.term);
    LowerAllFreeConstant(p.conditions, Options(b.envUni, false, false), b.st, n);
    ConjunctionHasConst(conds.terms, n);
    ForallPartHasConst(b.uniVars, cond, ex, n);
    ConstNotClosed(BuildObligation(p, st).value.term, n, {});
  }

  lemma CondClosed(p: Problem, st: Session, b: Binders, conds: BuiltAll)
    requires b == MakeBinders(UniNames(p), ExiNames(p), st)
    requires LowerAll(p.conditions, Options(b.envUni, false, false), b.st) == Ok(conds)
    requires forall n :: n in NamesAll(p.conditions) ==> n !in p.existentials
    ensures Closed(Conjunction(conds.terms), Scope(b.uniVars))
  {
    NamePartition(p);
    BinderEnvs(UniNames(p), ExiNames(p), st);
    assert Covers(b.envUni, NamesAll(p.conditions));
    LowerAllClosed(p.conditions, Options(b.envUni, false, false), b.st, Scope(b.uniVars));
    ConjunctionClosed(conds.terms, Scope(b.uniVars));
  }

  lemma ExClosed(p: Problem, st: Session, b: Binders, s: Session, goal: Built)
    requires b == MakeBinders(UniNames(p), ExiNames(p), st)
    requires Lower(p.goal, Options(b.envAll, false, false), s) == Ok(goal)
    ensures Closed(ExistsPart(b.exiVars, Positivity(b.envAll), goal.term), Scope(b.uniVars))
  {
    var U, E := Scope(b.uniVars), Scope(b.exiVars);
    GoalScope(p, st, b);
    LowerClosed(p.goal, Options(b.envAll, false, false), s, U + E);
    PositivityClosed(b.envAll, U + E);
    ExistsPartClosed(b.exiVars, Positivity(b.envAll), goal.term, U);
  }

  /** `C > 0` is closed wherever `C`'s variable is. */
  lemma PositivityClosed(env: map<string, Term>, scope: set<Term>)
    requires BoundIn(env, scope)
    ensures |Positivity(env)| <= 1
    ensures forall k :: 0 <= k < |Positivity(env)| ==> Closed(Positivity(env)[k], scope)
  {
    if "C" in env {
      ClosedPair(env["C"], Zero, scope);
    }
  }

  /** Every name of the goal is bound in `env_all`, to a variable of the
      quantifiers. */
  lemma GoalScope(p: Problem, st: Session, b: Binders)
    requires b == MakeBinders(UniNames(p), ExiNames(p), st)
    ensures Covers(b.envAll, Names(p.goal))
    ensures BoundIn(b.envAll, Scope(b.uniVars) + Scope(b.exiVars))
  {
    NamePartition(p);
    BinderEnvs(UniNames(p), ExiNames(p), st);
    forall n | n in Names(p.goal) ensures n in b.envAll {
      assert n in AllNames(p);
    }
  }

  /** When no condition mentions a declared existential, the obligation is
      a closed formula. */
  lemma ObligationClosed(p: Problem, st: Session)
    requires BuildObligation(p, st).Ok?
    requires forall n :: n in NamesAll(p.conditions) ==> n !in p.existentials
    ensures Closed(BuildObligation(p, st).value.term, {})
  {
    var b, conds, goal := ObligationParts(p, st);
    CondClosed(p, st, b, conds);
    ExClosed(p, st, b, conds.st, goal);
    ForallPartClosed(b.uniVars, Conjunction(conds.terms), ExistsPart(b.exiVars, Positivity(b.envAll), goal.term));
  }

  /** The obligation is a closed formula exactly when no condition mentions
      a declared existential. */
  lemma ClosedObligation(p: Problem, st: Session)
    requires BuildObligation(p, st).Ok?
    ensures Closed(BuildObligation(p, st).value.term, {})
        <==> forall n :: n in NamesAll(p.conditions) ==> n !in p.existentials
  {
    if forall n :: n in NamesAll(p.conditions) ==> n !in p.existentials {
      ObligationClosed(p, st);
    } else {
      var n :| n in NamesAll(p.conditions) && n in p.existentials;
      ConditionConstant(p, st, n);
    }
  }

  // ---------- the session ----------

  /** Building the obligation asserts nothing and keeps the `LOG` handle. */
  lemma ObligationQuiet(p: Problem, st: Session)
    requires st.log.Some? && BuildObligation(p, st).Ok?
    ensures BuildObligation(p, st).value.st.asserted == st.asserted
    ensures BuildObligation(p, st).value.st.log == st.log
    ensures BuildObligation(p, st).value.st.next >= st.next
  {
    BinderVars(UniNames(p), ExiNames(p), st);
    var b := MakeBinders(UniNames(p), ExiNames(p), st);
    var oU, oA := Options(b.envUni, false, false), Options(b.envAll, false, false);
    LowerAllSession(p.conditions, oU, b.st);
    var conds := LowerAll(p.conditions, oU, b.st).value;
    LowerSession(p.goal, oA, conds.st);
  }

  /** `_prove` hands the solver the axioms and then the negated obligation,
      nothing else; the one `LOG` of the session is the one the axioms use. */
  lemma ObligationSession(variant: Variant, p: Problem)
    requires BuildObligation(p, Preamble(variant)).Ok?
    ensures var ob := BuildObligation(p, Preamble(variant)).value;
            && Refutation(ob).asserted == Preamble(variant).asserted + [App(NOT, [ob.term])]
            && Refutation(ob).log == Some(Fun(0, "LOG"))
  {
    PreambleShape(variant);
    ObligationQuiet(p, Preamble(variant));
  }

  // ---------- the verdict ----------

  /** The verdict string tells the solver's answer, the reason included. */
  lemma VerdictTells(r1: SatResult, r2: SatResult)
    ensures Verdict(r1) == Verdict(r2) <==> r1 == r2
    ensures Verdict(r1) == "proved" <==> r1.Unsat?
    ensures Verdict(r1) == "not proved" <==> r1.Sat?
  {
    var prefix := "unknown ";
    if r1.Unknown? {
      assert Verdict(r1)[0] == 'u';
      assert Verdict(r1)[|prefix|..] == r1.reason;
    }
    if r2.Unknown? {
      assert Verdict(r2)[0] == 'u';
      assert Verdict(r2)[|prefix|..] == r2.reason;
    }
  }

  /** A verdict is never one of the refusals of the witness step. */
  lemma VerdictNotRefusal(r: SatResult)
    ensures Verdict(r) != "not proved: witness_C must be numeric"
    ensures Verdict(r) != "not proved: witness_C must be > 0"
  {
    if r.Unknown? {
      assert Verdict(r)[0] == 'u';
    }
  }

  /** `_prove` answers "proved" exactly when the witness is accepted, the
      obligation is built and the solver finds its negation, together with
      the axioms, unsatisfiable; "not proved" exactly when the solver finds
      a model; and it raises exactly when `_parse` does. */
  lemma ProveOutcome(variant: Variant, p: Problem, check: seq<Term> -> SatResult)
    ensures var prep := Prepare(variant, p);
            var built := if prep.Ready? then BuildObligation(prep.problem, Preamble(variant)) else Err(KeyError(""));
            && (variant.WithSixthAxiom? ==> prep == Ready(p))
            && (Prove(variant, p, check) == Ok("proved") <==>
                  prep.Ready? && built.Ok? && check(Refutation(built.value).asserted) == Unsat)
            && (Prove(variant, p, check) == Ok("not proved") <==>
                  prep.Ready? && built.Ok? && check(Refutation(built.value).asserted) == Sat)
            && (Prove(variant, p, check).Err? <==> prep.Ready? && built.Err?)
  {
    var prep := Prepare(variant, p);
    if prep.Ready? {
      var built := BuildObligation(prep.problem, Preamble(variant));
      assert Prove(variant, p, check) ==
        if built.Ok? then Ok(Verdict(check(Refutation(built.value).asserted))) else Err(built.error);
      if built.Ok? {
        VerdictTells(check(Refutation(built.value).asserted), Unsat);
        VerdictTells(check(Refutation(built.value).asserted), Sat);
      }
    } else {
      assert Prove(variant, p, check) == Ok(prep.verdict);
      assert prep.verdict == "not proved: witness_C must be numeric"
          || prep.verdict == "not proved: witness_C must be > 0";
    }
  }
}
