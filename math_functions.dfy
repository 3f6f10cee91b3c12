/** math_functions.py: the summation ranges `_series_split_calculate` cuts
    at a list of breakpoints, and the fixed AM-GM obligation `prove` hands
    to cvc5. The sums themselves are left to the computer algebra system;
    only the index range of each is modelled. */
module MathFunctions {
  import opened Wrappers
  import opened SolverTerm
  import opened Cvc5
  import opened LoweringScope

  // ---------- index ranges ----------

  datatype Bound = NegInf | PosInf | Fin(n: int)

  /** The index range `(n, lo, hi)` of one `summation`, both ends included. */
  datatype Range = Range(lo: Bound, hi: Bound)

  predicate InRange(n: int, r: Range)
  {
    (r.lo.NegInf? || (r.lo.Fin? && r.lo.n <= n)) && (r.hi.PosInf? || (r.hi.Fin? && n <= r.hi.n))
  }

  /** The range the loop builds at index `i`: the `i == 0` test comes first,
      then the last index, then the middle ones. */
  function SplitRange(ks: seq<int>, i: nat): Range
    requires i < |ks|
  {
    if i == 0 then Range(NegInf, Fin(ks[0]))
    else if i == |ks| - 1 then Range(Fin(ks[i] + 1), PosInf)
    else Range(Fin(ks[i] + 1), Fin(ks[i + 1]))
  }

  /** `_series_split_calculate(kwargs)`, one range per breakpoint. */
  method SeriesSplitCalculate(ks: seq<int>) returns (arr: seq<Range>)
    ensures |arr| == |ks|
    ensures forall i :: 0 <= i < |ks| ==> arr[i] == SplitRange(ks, i)
  {
    arr := [];
    for i := 0 to |ks|
      invariant |arr| == i
      invariant forall j :: 0 <= j < i ==> arr[j] == SplitRange(ks, j)
    {
      if i == 0 {
        arr := arr + [Range(NegInf, Fin(ks[i]))];
      } else if i == |ks| - 1 {
        arr := arr + [Range(Fin(ks[i] + 1), PosInf)];
      } else {
        arr := arr + [Range(Fin(ks[i] + 1), Fin(ks[i + 1]))];
      }
    }
  }

  predicate Increasing(ks: seq<int>)
  {
    forall i, j :: 0 <= i < j < |ks| ==> ks[i] < ks[j]
  }

  /** Some range of the split holds `n`. */
  predicate Covered(ks: seq<int>, n: int)
  {
    exists i :: 0 <= i < |ks| && InRange(n, SplitRange(ks, i))
  }

  /** A single breakpoint gives only the range up to it. */
  lemma SingleBreakpoint(k: int, n: int)
    ensures SplitRange([k], 0) == Range(NegInf, Fin(k))
    ensures Covered([k], n) <==> n <= k
  {
    if n <= k {
      assert InRange(n, SplitRange([k], 0));
    }
  }

  /** With increasing breakpoints, the split covers exactly the integers up
      to the first breakpoint and those above the second: the integers
      `k0 + 1 .. k1` fall in no range. */
  lemma SplitCoverage(ks: seq<int>, n: int)
    requires |ks| >= 2 && Increasing(ks)
    ensures Covered(ks, n) <==> n <= ks[0] || n > ks[1]
  {
    if n <= ks[0] {
      assert InRange(n, SplitRange(ks, 0));
    } else if n > ks[1] {
      var i := Slot(ks, n, 1);
      assert InRange(n, SplitRange(ks, i));
    } else {
      forall i | 0 <= i < |ks| ensures !InRange(n, SplitRange(ks, i)) {
        if i > 0 { assert ks[1] <= ks[i]; }
      }
    }
  }

  /** The range of index `i` or a later one that holds `n > ks[i]`. */
  lemma {:induction false} Slot(ks: seq<int>, n: int, i: nat) returns (j: nat)
    requires 1 <= i < |ks| && Increasing(ks) && n > ks[i]
    ensures i <= j < |ks| && InRange(n, SplitRange(ks, j))
    decreases |ks| - i
  {
    if i == |ks| - 1 || n <= ks[i + 1] {
      j := i;
    } else {
      j := Slot(ks, n, i + 1);
    }
  }

  /** `kwargs = [0, 2]`: the ranges are `(-oo, 0]` and `[3, oo)`, and the
      indices 1 and 2 are summed nowhere. */
  lemma SplitGapExample()
    ensures SplitRange([0, 2], 0) == Range(NegInf, Fin(0))
    ensures SplitRange([0, 2], 1) == Range(Fin(3), PosInf)
    ensures !Covered([0, 2], 1) && !Covered([0, 2], 2)
  {
    SplitCoverage([0, 2], 1);
    SplitCoverage([0, 2], 2);
  }

  /** The split the breakpoints evidently call for: one range below the
      first breakpoint, one between each two neighbours and one above the
      last. */
  function PartitionRange(ks: seq<int>, i: nat): Range
    requires i <= |ks|
  {
    if |ks| == 0 then Range(NegInf, PosInf)
    else if i == 0 then Range(NegInf, Fin(ks[0]))
    else if i == |ks| then Range(Fin(ks[i - 1] + 1), PosInf)
    else Range(Fin(ks[i - 1] + 1), Fin(ks[i]))
  }

  /** With increasing breakpoints, every integer lies in exactly one range of
      the partition. */
  lemma PartitionExact(ks: seq<int>, n: int)
    requires Increasing(ks)
    ensures exists i :: 0 <= i <= |ks| && InRange(n, PartitionRange(ks, i))
    ensures forall i, j ::
      (0 <= i <= |ks| && 0 <= j <= |ks| && InRange(n, PartitionRange(ks, i)) && InRange(n, PartitionRange(ks, j)))
      ==> i == j
  {
    if |ks| > 0 {
      var i := PartitionSlot(ks, n, 0);
      forall i, j | 0 <= i < j <= |ks| && InRange(n, PartitionRange(ks, i))
        ensures !InRange(n, PartitionRange(ks, j))
      {
        PartitionDisjoint(ks, n, i, j);
      }
    } else {
      assert InRange(n, PartitionRange(ks, 0));
    }
  }

  lemma PartitionDisjoint(ks: seq<int>, n: int, i: nat, j: nat)
    requires Increasing(ks) && |ks| > 0 && i < j <= |ks| && InRange(n, PartitionRange(ks, i))
    ensures !InRange(n, PartitionRange(ks, j))
  {
    assert PartitionRange(ks, i).hi == Fin(ks[i]);
    assert PartitionRange(ks, j).lo == Fin(ks[j - 1] + 1);
    if i < j - 1 { assert ks[i] < ks[j - 1]; }
  }

  /** The range of the partition, at index `i` or later, holding an `n`
      above every breakpoint before `i`. */
  lemma {:induction false} PartitionSlot(ks: seq<int>, n: int, i: nat) returns (j: nat)
    requires |ks| > 0 && i <= |ks| && Increasing(ks) && (i == 0 || n > ks[i - 1])
    ensures i <= j <= |ks| && InRange(n, PartitionRange(ks, j))
    decreases |ks| - i
  {
    if i == |ks| || n <= ks[i] {
      j := i;
    } else {
      j := PartitionSlot(ks, n, i + 1);
    }
  }

  // ---------- the AM-GM obligation ----------

  const Zero: Term := Real(0.0)

  /** a ≥ 0 ∧ b ≥ 0 ∧ a ≤ b. */
  function Premise(a: Term, b: Term): Term
  {
    App(AND, [App(GEQ, [a, Zero]), App(GEQ, [b, Zero]), App(LEQ, [a, b])])
  }

  /** C > 0 ∧ (a + b)/2 ≥ C·sqrt(a·b). */
  function Estimate(a: Term, b: Term, c: Term): Term
  {
    var avg := App(DIVISION, [App(ADD, [a, b]), Real(2.0)]);
    App(AND, [App(GT, [c, Zero]), App(GEQ, [avg, App(MULT, [c, App(SQRT, [App(MULT, [a, b])])])])])
  }

  /** ∀a,b. (a ≥ 0 ∧ b ≥ 0 ∧ a ≤ b) ⇒ ∃C. C > 0 ∧ (a + b)/2 ≥ C·sqrt(a·b). */
  function AmGm(a: Term, b: Term, c: Term): Term
  {
    Forall([a, b], App(IMPLIES, [Premise(a, b), Exists([c], Estimate(a, b, c))]), [])
  }

  /** The variables `prove` makes, in a new solver. */
  const A: Term := Var(0, "a")
  const B: Term := Var(1, "b")
  const C: Term := Var(2, "C")

  /** `prove()`: the negated obligation is the only formula asserted. */
  method Prove(check: seq<Term> -> SatResult) returns (r: SatResult)
    ensures r == check([App(NOT, [AmGm(A, B, C)])])
  {
    var slv := new Solver();
    var a := slv.MkVar("a");
    var b := slv.MkVar("b");
    var c := slv.MkVar("C");
    assert a == A && b == B && c == C;
    slv.AssertFormula(App(NOT, [AmGm(a, b, c)]));
    assert slv.asserted == [App(NOT, [AmGm(A, B, C)])];
    r := slv.CheckSat(check);
  }

  /** The obligation has no free constant: `a` and `b` are bound by the ∀
      and `C` by the ∃, so the solver decides one closed sentence. */
  lemma AmGmClosed(a: Term, b: Term, c: Term)
    requires a.Var? && b.Var? && c.Var?
    ensures Closed(AmGm(a, b, c), {})
  {
    var inner := ScopeOf({}, [a, b]);
    var all := ScopeOf(inner, [c]);
    assert [a, b][0] == a && [a, b][1] == b && [c][0] == c;
    assert a in inner && b in inner && c in all;
    EstimateClosed(a, b, c, all);
    PremiseClosed(a, b, inner);
    ClosedPair(Premise(a, b), Exists([c], Estimate(a, b, c)), inner);
  }

  /** The scope inside a quantifier over `vs`. */
  function ScopeOf(scope: set<Term>, vs: seq<Term>): (r: set<Term>)
    ensures r == scope + (set k | 0 <= k < |vs| :: vs[k])
    ensures forall k :: 0 <= k < |vs| ==> vs[k] in r
  {
    scope + (set k | 0 <= k < |vs| :: vs[k])
  }

  /** `C` must be bound: under the ∀ alone it would be free. */
  lemma EstimateNeedsExists(a: Term, b: Term, c: Term)
    requires c.Var? && c != a && c != b
    ensures !Closed(Forall([a, b], Estimate(a, b, c), []), {})
  {
    var inner := ScopeOf({}, [a, b]);
    assert c !in inner;
    var gt := App(GT, [c, Zero]);
    ClosedPair(c, Zero, inner);
    ClosedPair(gt, App(GEQ, [App(DIVISION, [App(ADD, [a, b]), Real(2.0)]),
                             App(MULT, [c, App(SQRT, [App(MULT, [a, b])])])]), inner);
  }

  lemma PremiseClosed(a: Term, b: Term, scope: set<Term>)
    requires a.Var? && b.Var? && a in scope && b in scope
    ensures Closed(Premise(a, b), scope)
  {
    ClosedPair(a, Zero, scope);
    ClosedPair(b, Zero, scope);
    ClosedPair(a, b, scope);
    var ts := [App(GEQ, [a, Zero]), App(GEQ, [b, Zero]), App(LEQ, [a, b])];
    ClosedAllIff(ts, scope);
  }

  lemma EstimateClosed(a: Term, b: Term, c: Term, scope: set<Term>)
    requires a.Var? && b.Var? && c.Var? && a in scope && b in scope && c in scope
    ensures Closed(Estimate(a, b, c), scope)
  {
    ClosedPair(a, b, scope);
    var sq := App(SQRT, [App(MULT, [a, b])]);
    ClosedOne(App(MULT, [a, b]), scope);
    ClosedPair(c, sq, scope);
    var avg := App(DIVISION, [App(ADD, [a, b]), Real(2.0)]);
    ClosedPair(App(ADD, [a, b]), Real(2.0), scope);
    ClosedPair(avg, App(MULT, [c, sq]), scope);
    ClosedPair(c, Zero, scope);
    ClosedPair(App(GT, [c, Zero]), App(GEQ, [avg, App(MULT, [c, sq])]), scope);
  }
}
