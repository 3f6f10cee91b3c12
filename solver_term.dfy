/** The cvc5 terms the compilers build, and the part of a cvc5 session they
    touch: the counter behind fresh constants, variables and functions, the
    `LOG` handle and the list of asserted formulas. */
module SolverTerm {
  import opened Wrappers

  /** The `cvc5.Kind`s the source uses. */
  datatype Kind =
    | LEQ | LT | GEQ | GT | EQUAL
    | ADD | MULT | POW | DIVISION | SQRT
    | EXPONENTIAL | SINE | COSINE | TANGENT | ARCSINE | ARCCOSINE | ARCTANGENT
    | AND | IMPLIES | NOT

  /** A function symbol from `declareFun`; its id is the session's fresh id. */
  datatype Fun = Fun(id: nat, name: string)

  datatype Term =
    | Const(id: nat, name: string)      // mkConst: free constant, a new one per call
    | Var(id: nat, name: string)        // mkVar: bound variable, a new one per call
    | Real(value: real)                 // mkReal
    | True                              // mkTrue
    | App(kind: Kind, args: seq<Term>)  // mkTerm(kind, *args)
    | ApplyUF(fn: Fun, arg: Term)       // mkTerm(APPLY_UF, fn, arg)
    | Forall(vars: seq<Term>, body: Term, patterns: seq<Pattern>)
    | Exists(vars: seq<Term>, body: Term)

  /** An `INST_PATTERN`: the terms of one multi-trigger. */
  datatype Pattern = Pattern(terms: seq<Term>)

  /** The answer of `checkSat`. */
  datatype SatResult = Sat | Unsat | Unknown(reason: string)

  /** The state of one solver session: the next fresh id, the `LOG` handle
      (`None` before `_get_LOG` declares it) and the asserted formulas. */
  datatype Session = Session(next: nat, log: Option<Fun>, asserted: seq<Term>)

  const Fresh: Session := Session(0, None, [])

  // ---------- session steps, one per solver call ----------

  /** A term together with the session after building it. */
  datatype Built = Built(term: Term, st: Session)

  function MkConst(st: Session, name: string): (b: Built)
    ensures b.term.Const? && b.term.name == name && b.term.id == st.next
    ensures b.st == st.(next := st.next + 1)
  {
    Built(Const(st.next, name), st.(next := st.next + 1))
  }

  function MkVar(st: Session, name: string): (b: Built)
    ensures b.term.Var? && b.term.name == name && b.term.id == st.next
    ensures b.st == st.(next := st.next + 1)
  {
    Built(Var(st.next, name), st.(next := st.next + 1))
  }

  function Assert(st: Session, f: Term): (st': Session)
    ensures st'.asserted == st.asserted + [f] && st'.next == st.next && st'.log == st.log
  {
    st.(asserted := st.asserted + [f])
  }

  /** `_get_LOG`: the session's `LOG` function, declared on first use. */
  function GetLog(st: Session): (r: (Fun, Session))
    ensures r.1.log == Some(r.0) && r.1.asserted == st.asserted
    ensures st.log.Some? ==> r.0 == st.log.value && r.1 == st
    ensures st.log.None? ==> r.0 == Fun(st.next, "LOG") && r.1.next == st.next + 1
  {
    if st.log.Some? then (st.log.value, st)
    else
      var f := Fun(st.next, "LOG");
      (f, st.(next := st.next + 1, log := Some(f)))
  }

  /** A run of fresh bound variables, one per name, in order. */
  function MkVars(st: Session, names: seq<string>): (r: (seq<Term>, Session))
    ensures |r.0| == |names| && r.1 == st.(next := st.next + |names|)
    ensures forall k :: 0 <= k < |names| ==> r.0[k] == Var(st.next + k, names[k])
    decreases names
  {
    if names == [] then ([], st)
    else
      var b := MkVar(st, names[0]);
      var rest := MkVars(b.st, names[1..]);
      ([b.term] + rest.0, rest.1)
  }

  /** A run of fresh free constants, one per name, in order. */
  function MkConsts(st: Session, names: seq<string>): (r: (seq<Term>, Session))
    ensures |r.0| == |names| && r.1 == st.(next := st.next + |names|)
    ensures forall k :: 0 <= k < |names| ==> r.0[k] == Const(st.next + k, names[k])
    decreases names
  {
    if names == [] then ([], st)
    else
      var b := MkConst(st, names[0]);
      var rest := MkConsts(b.st, names[1..]);
      ([b.term] + rest.0, rest.1)
  }

  /** Every bound variable in `t` is bound by an enclosing quantifier of `t`
      (given the variables `scope` bound around it) and no free constant
      occurs: `t` is a closed formula. */
  predicate Closed(t: Term, scope: set<Term>)
    decreases t, 1
  {
    match t
    case Const(_, _) => false
    case Var(_, _) => t in scope
    case Real(_) => true
    case True => true
    case App(_, args) => ClosedAll(args, scope)
    case ApplyUF(_, a) => Closed(a, scope)
    case Forall(vs, b, ps) =>
      var inner := scope + (set k | 0 <= k < |vs| :: vs[k]);
      Closed(b, inner) && ClosedPatterns(ps, inner)
    case Exists(vs, b) => Closed(b, scope + (set k | 0 <= k < |vs| :: vs[k]))
  }

  predicate ClosedAll(ts: seq<Term>, scope: set<Term>)
    decreases ts, 0
  {
    ts == [] || (Closed(ts[0], scope) && ClosedAll(ts[1..], scope))
  }

  predicate ClosedPatterns(ps: seq<Pattern>, scope: set<Term>)
    decreases ps, 0
  {
    ps == [] || (ClosedAll(ps[0].terms, scope) && ClosedPatterns(ps[1..], scope))
  }

  /** A free constant named `n` occurs in `t` (a quantifier's variable list
      holds bound variables only and is not searched). */
  predicate HasConst(t: Term, n: string)
    decreases t, 1
  {
    match t
    case Const(_, m) => m == n
    case Var(_, _) => false
    case Real(_) => false
    case True => false
    case App(_, args) => HasConstAll(args, n)
    case ApplyUF(_, a) => HasConst(a, n)
    case Forall(_, b, ps) => HasConst(b, n) || HasConstPatterns(ps, n)
    case Exists(_, b) => HasConst(b, n)
  }

  predicate HasConstAll(ts: seq<Term>, n: string)
    decreases ts, 0
  {
    ts != [] && (HasConst(ts[0], n) || HasConstAll(ts[1..], n))
  }

  predicate HasConstPatterns(ps: seq<Pattern>, n: string)
    decreases ps, 0
  {
    ps != [] && (HasConstAll(ps[0].terms, n) || HasConstPatterns(ps[1..], n))
  }

  /** The ids of the free constants occurring in `t`. */
  function ConstIds(t: Term): set<nat>
    decreases t, 1
  {
    match t
    case Const(id, _) => {id}
    case Var(_, _) => {}
    case Real(_) => {}
    case True => {}
    case App(_, args) => ConstIdsAll(args)
    case ApplyUF(_, a) => ConstIds(a)
    case Forall(_, b, ps) => ConstIds(b) + ConstIdsPatterns(ps)
    case Exists(_, b) => ConstIds(b)
  }

  function ConstIdsAll(ts: seq<Term>): set<nat>
    decreases ts, 0
  {
    if ts == [] then {} else ConstIds(ts[0]) + ConstIdsAll(ts[1..])
  }

  function ConstIdsPatterns(ps: seq<Pattern>): set<nat>
    decreases ps, 0
  {
    if ps == [] then {} else ConstIdsAll(ps[0].terms) + ConstIdsPatterns(ps[1..])
  }

  lemma {:induction false} ClosedAllIff(ts: seq<Term>, scope: set<Term>)
    ensures ClosedAll(ts, scope) <==> forall k :: 0 <= k < |ts| ==> Closed(ts[k], scope)
  {
    if ts != [] {
      ClosedAllIff(ts[1..], scope);
      assert forall k :: 1 <= k < |ts| ==> ts[k] == ts[1..][k - 1];
    }
  }

  lemma {:induction false} HasConstAllIff(ts: seq<Term>, n: string)
    ensures HasConstAll(ts, n) <==> exists k :: 0 <= k < |ts| && HasConst(ts[k], n)
  {
    if ts != [] {
      HasConstAllIff(ts[1..], n);
      assert forall k :: 1 <= k < |ts| ==> ts[k] == ts[1..][k - 1];
    }
  }

  /** A formula with a free constant in it is not closed, whatever is bound
      around it. */
  lemma {:induction false} ConstNotClosed(t: Term, n: string, scope: set<Term>)
    requires HasConst(t, n)
    ensures !Closed(t, scope)
    decreases t, 1
  {
    match t
    case Const(_, _) =>
    case App(_, args) => ConstNotClosedAll(args, n, scope);
    case ApplyUF(_, a) => ConstNotClosed(a, n, scope);
    case Forall(vs, b, ps) =>
      var inner := scope + (set k | 0 <= k < |vs| :: vs[k]);
      if HasConst(b, n) {
        ConstNotClosed(b, n, inner);
      } else {
        ConstNotClosedPatterns(ps, n, inner);
      }
    case Exists(vs, b) =>
      ConstNotClosed(b, n, scope + (set k | 0 <= k < |vs| :: vs[k]));
  }

  lemma {:induction false} ConstNotClosedAll(ts: seq<Term>, n: string, scope: set<Term>)
    requires HasConstAll(ts, n)
    ensures !ClosedAll(ts, scope)
    decreases ts, 0
  {
    if HasConst(ts[0], n) {
      ConstNotClosed(ts[0], n, scope);
    } else {
      ConstNotClosedAll(ts[1..], n, scope);
    }
  }

  lemma {:induction false} ConstNotClosedPatterns(ps: seq<Pattern>, n: string, scope: set<Term>)
    requires HasConstPatterns(ps, n)
    ensures !ClosedPatterns(ps, scope)
    decreases ps, 0
  {
    if HasConstAll(ps[0].terms, n) {
      ConstNotClosedAll(ps[0].terms, n, scope);
    } else {
      ConstNotClosedPatterns(ps[1..], n, scope);
    }
  }
}
