/** A cvc5 session as an object: the calls the source makes on
    `cvc5.Solver`, each updating the fields in place. Every call is one of the
    session steps of `SolverTerm`, applied to the object's state. The module
    global `_log_fun` is held here as the field `log`: each prover resets it
    right after it makes its solver, so it lives exactly as long as the
    session. */
module Cvc5 {
  import opened Wrappers
  import opened SolverTerm

  class Solver {
    var next: nat
    var log: Option<Fun>
    var asserted: seq<Term>

    function State(): Session
      reads this
    {
      Session(next, log, asserted)
    }

    /** `cvc5.Solver()`: nothing asserted, no handle made yet. */
    constructor ()
      ensures State() == Fresh
    {
      next, log, asserted := 0, None, [];
    }

    method MkConst(name: string) returns (t: Term)
      modifies this
      ensures Built(t, State()) == SolverTerm.MkConst(old(State()), name)
    {
      t := Const(next, name);
      next := next + 1;
    }

    method MkVar(name: string) returns (t: Term)
      modifies this
      ensures Built(t, State()) == SolverTerm.MkVar(old(State()), name)
    {
      t := Var(next, name);
      next := next + 1;
    }

    /** `_get_LOG(s, R)`. */
    method GetLog() returns (f: Fun)
      modifies this
      ensures (f, State()) == SolverTerm.GetLog(old(State()))
    {
      if log.None? {
        log := Some(Fun(next, "LOG"));
        next := next + 1;
      }
      f := log.value;
    }

    /** `global _log_fun; _log_fun = None`. */
    method ResetLog()
      modifies this
      ensures State() == old(State()).(log := None)
    {
      log := None;
    }

    method AssertFormula(f: Term)
      modifies this
      ensures State() == Assert(old(State()), f)
    {
      asserted := asserted + [f];
    }

    /** `checkSat()`: the decision procedure is the oracle `check`, consulted
        on the formulas asserted so far. */
    method CheckSat(check: seq<Term> -> SatResult) returns (r: SatResult)
      ensures r == check(asserted)
    {
      r := check(asserted);
    }
  }
}
