/** The rewrite rules of axioms.py over `Term` records: chaining two
    relations of the same name, and turning `le`/`lt` (case-insensitive) into
    `BigO` and `ge`/`gt` into `BigO` with the operands swapped. A rule that
    does not apply returns `None`. */
module BigO {
  import opened Wrappers
  import opened Text
  import opened Shared

  /** `transitivity(arr)`. */
  function Transitivity(arr: seq<Term>): (r: Option<Term>)
    ensures r.Some? <==> |arr| == 2 && arr[0].rel == arr[1].rel && arr[0].rhs == arr[1].lhs
    ensures r.Some? ==> r.value.rel == arr[0].rel && r.value.lhs == arr[0].lhs && r.value.rhs == arr[1].rhs
  {
    if |arr| == 2 && arr[0].rel == arr[1].rel && arr[0].rhs == arr[1].lhs
    then Some(Term(arr[0].rel, arr[0].lhs, arr[1].rhs))
    else None
  }

  /** The relation name matches `name` ignoring case, as `a.rel.lower() == name`
      does for a lower-case `name`. */
  predicate RelIs(a: Term, name: string)
  {
    ToLower(a.rel) == name
  }

  function LeToBigO(a: Term): Option<Term>
  {
    if RelIs(a, "le") then Some(Term("BigO", a.lhs, a.rhs)) else None
  }

  function LtToBigO(a: Term): Option<Term>
  {
    if RelIs(a, "lt") then Some(Term("BigO", a.lhs, a.rhs)) else None
  }

  function GeToBigO(a: Term): Option<Term>
  {
    if RelIs(a, "ge") then Some(Term("BigO", a.rhs, a.lhs)) else None
  }

  function GtToBigO(a: Term): Option<Term>
  {
    if RelIs(a, "gt") then Some(Term("BigO", a.rhs, a.lhs)) else None
  }

  /** Each conversion applies exactly to its own relation, ignoring case, and
      yields a `BigO` over the same operands: in order for `le` and `lt`,
      swapped for `ge` and `gt`. */
  lemma Conversions(a: Term)
    ensures LeToBigO(a).Some? <==> ToLower(a.rel) == "le"
    ensures LtToBigO(a).Some? <==> ToLower(a.rel) == "lt"
    ensures GeToBigO(a).Some? <==> ToLower(a.rel) == "ge"
    ensures GtToBigO(a).Some? <==> ToLower(a.rel) == "gt"
    ensures LeToBigO(a).Some? ==> LeToBigO(a).value == Term("BigO", a.lhs, a.rhs)
    ensures LtToBigO(a).Some? ==> LtToBigO(a).value == Term("BigO", a.lhs, a.rhs)
    ensures GeToBigO(a).Some? ==> GeToBigO(a).value == Term("BigO", a.rhs, a.lhs)
    ensures GtToBigO(a).Some? ==> GtToBigO(a).value == Term("BigO", a.rhs, a.lhs)
  {
  }

  /** At most one conversion applies to a term. */
  lemma ConversionsExclusive(a: Term)
    ensures (if LeToBigO(a).Some? then 1 else 0) + (if LtToBigO(a).Some? then 1 else 0)
          + (if GeToBigO(a).Some? then 1 else 0) + (if GtToBigO(a).Some? then 1 else 0) <= 1
  {
    if |a.rel| == 2 {
      var l := ToLower(a.rel);
      assert l[1] == LowerChar(a.rel[1]);
    }
  }

  /** `ge` is `le` read the other way round. */
  lemma GeIsSwappedLe(a: Term, b: Term)
    requires RelIs(a, "ge") && RelIs(b, "le") && a.lhs == b.rhs && a.rhs == b.lhs
    ensures GeToBigO(a) == LeToBigO(b)
  {
  }

  /** Two `le` facts that chain give, converted, two `BigO` facts that chain
      to the `BigO` of the outer operands. */
  lemma ChainOfLe(a: Term, b: Term)
    requires RelIs(a, "le") && RelIs(b, "le") && a.rhs == b.lhs
    ensures Transitivity([LeToBigO(a).value, LeToBigO(b).value]) == Some(Term("BigO", a.lhs, b.rhs))
  {
  }
}
