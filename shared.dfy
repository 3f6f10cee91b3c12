/** The `Term` record of shared.py: a relation name and its two operands,
    which the BigO rules and the goal parser of entry.py fill with strings. */
module Shared {
  datatype Term = Term(rel: string, lhs: string, rhs: string)
}
