# A verified model of the SymPy-to-cvc5 prover and its helpers

The repository proves asymptotic inequalities. Its main script, test2.py, does two things:

- `_parse` lowers a SymPy expression to a cvc5 term.
- `_prove` builds the obligation `∀U. conds ⇒ ∃E. (C > 0 ∧ goal)` over the free names, asserts its negation and reads a verdict off `checkSat`.

The same algorithm appears in two other versions:

- test.py has no witness parameter and asserts a sixth, trigger-less axiom.
- test1.py is an older ground version. It has no environment, its `log` always asserts side conditions, and it reads existential values from the model.

Several smaller parts surround it:

- `CVC5Encoder` in z3_experiments.py: a stateful encoder that caches one constant per name.
- The BigO rewrite rules of axioms.py over `Term(rel, lhs, rhs)` records, from shared.py.
- The regex parser and the rule table of entry.py.
- The bracketed-list parser and the repeat-until-consensus loops of llm_client.py.
- The range splitting and the fixed AM-GM obligation of math_functions.py.

The model is organised as follows:

- **The inputs.** A SymPy tree is a Dafny datatype, `SymExpr.Expr`. A cvc5 term is `SolverTerm.Term`: constants and variables carry a fresh id, because cvc5 makes a distinct term on every `mkConst`/`mkVar` call. The solver's observable state is a `Session`: the asserted formulas, the next fresh id, and the `LOG` handle. The handle is the script's global `_log_fun`.
- **Pure specification functions.** These say what the code computes: `Lowering.Lower`, `Obligation.Prove`, `Ground.GroundProve`, `Encoder.Encoding` and others.
- **Imperative methods.** These do the same work step by step on a `Cvc5.Solver` or `Encoder.CVC5Encoder` object. They carry the source's loops and list appends. Each method is proved to end in exactly the state, and return exactly the value, that the specification function gives.
- **Lemmas.** These state what the source promises about those functions: the product split, the name partition, the shape and closedness of the formula, the verdict, the encoder's cache and counter, the parsers' round trips, the consensus rule and the range coverage.

`checkSat` and `getValue` are oracles passed in as function parameters, `check` and `model`. The verdicts are stated relative to what the oracle answers on the asserted formulas.

## Model

| member | source | states |
|---|---|---|
| SolverTerm.GetLog | test2.py:14-18 | the first call declares `LOG` with a fresh id and records it; later calls return the recorded handle and change nothing |
| Cvc5.Solver.GetLog | test2.py:14-18 | the solver-object version of `_get_LOG`, equal to `SolverTerm.GetLog` on the solver's state |
| Cvc5.Solver.ResetLog | test2.py:157 | `global _log_fun; _log_fun = None`: only the handle is cleared |
| Cvc5.Solver.constructor | test2.py:145 | a new solver has no assertions, no `LOG` and fresh ids from 0 |
| Cvc5.Solver.MkConst | test2.py:45 | `mkConst` returns a new constant of that name with the next id and advances the counter |
| Cvc5.Solver.MkVar | test2.py:164-169 | `mkVar` returns a new bound variable of that name with the next id |
| Cvc5.Solver.AssertFormula | test2.py:273 | `assertFormula` appends exactly that formula to the assertions |
| Cvc5.Solver.CheckSat | test2.py:274 | `checkSat` is the oracle's answer on the formulas asserted so far |
| SolverTerm.MkConst | test2.py:45 | the new constant has the given name and the session's next id; only the counter changes |
| SolverTerm.MkVar | test2.py:164-169 | the new variable has the given name and the next id; only the counter changes |
| SolverTerm.Assert | test2.py:273 | asserting appends one formula and keeps the counter and `LOG` |
| SolverTerm.MkVars | test2.py:240-241 | `[s.mkVar(R, n) for n in names]` gives one variable per name, in order, with consecutive ids |
| SolverTerm.MkConsts | test1.py:132 | `_parse(v, s)` over the sorted names gives one new constant per name, in order |
| SolverTerm.ConstNotClosed | test2.py:41-45 | a term containing a free constant is not closed in any scope of bound variables |
| SymExpr.AsBaseExp | test2.py:74 | `as_base_exp` hands `(1/q)**x` over as base `q`, an integer ≥ 2 with `q · (1/q) = 1`, and exponent `-x` as SymPy builds it; any other power as its own base and exponent |
| Lowering.Prod | test2.py:21-26 | `_prod`: literal 1 for no factors (an `IndexError` in test1's code), the factor itself for one, one MULT otherwise; its value is `LoweringProps.ProdValue`, its closedness `LoweringScope.ProdClosed` |
| Lowering.Lower | test2.py:29-121 | `_parse(e, s, env, side_effects)` on a session, with test1's variant as an option; what it computes is stated by `LowerPreservesValue`, `LowerSession`, `LowerPowAsBaseExp`, `ProductShape`, `LowerClosed`, `LowerFreeConstant` and `LowerFresh` |
| Lowering.LowerNeg | test2.py:74-93 | the exponent `-x` of `as_base_exp`, lowered as the product `Mul(-1, x)` would be; `LowerNegIsNegate` and `LowerNegValue` state it |
| Lowering.LowerAll | test2.py:69 | the comprehension over a sum's children; `LowerAllPreservesValue`, `LowerAllClosed` and `Parser.LowerAllPrefixFails` state it |
| Lowering.SplitFactors | test2.py:81-88 | the loop filling `numer_args` and `den_args`; `SplitFactorsCounts`, `SplitFactorsPositions`, `SplitFactorsPrefix` and `SplitFactorsValue` state it |
| LoweringProps.ProdValue | test2.py:21-26 | `_prod` fails only in test1's legacy code on no factors; otherwise its value is the product of its factors' values (1 for none) |
| LoweringProps.ProductShape | test2.py:80-93 | a product lowers to `_prod(numer)` when no factor is a negative power, and otherwise to `DIVISION(_prod(numer), _prod(denom))` |
| LoweringProps.SplitFactorsCounts | test2.py:81-88 | the denominator gets one entry per factor with a negative numeric exponent, the numerator one per other factor; every denominator entry is `POW(b, k)` with `k > 0` |
| LoweringProps.SplitFactorsPositions | test2.py:82-88 | factor `i` lands at the next position of its side: `POW(base, -exp)` in the denominator for a negative power, its own lowering in the numerator otherwise, so order is kept |
| LoweringProps.SplitFactorsPrefix | test2.py:82-88 | the numerator and denominator only grow as the loop proceeds |
| LoweringProps.AllNegativeProduct | test1.py:61 | with every factor a negative power, test1's code fails on `numer_args[0]`, while test2's gives `DIVISION(1, …)` |
| LoweringProps.SumOfOne | test2.py:67-70 | a sum of one child lowers to the child in test2; test1's code hands the child to cvc5's ADD, which refuses fewer than two children, so the result is that error (or the child's own); SymPy's `Add` always has two arguments or more, so neither case comes from a parsed formula |
| LoweringProps.NegativePowerAlone | test2.py:72-77 | a power with a negative literal exponent outside a product is not moved below a line: it lowers to `POW(base, k)`, or to `POW(q, -k)` when `as_base_exp` turns a base `1/q` into `q` |
| LoweringProps.LowerPowAsBaseExp | test2.py:72-77 | a power lowers to `POW` of its base and exponent lowered in turn, after `as_base_exp`: `(1/q)**x` as `POW(q, -x)` |
| LoweringProps.LowerNegIsNegate | test2.py:74-93 | lowering `-x` directly gives exactly the term and session of lowering SymPy's tree of `-x` |
| LoweringProps.LowerSession | test2.py:112-119 | lowering only adds ids and assertions; it asserts exactly two formulas per `log` when side effects are on and none otherwise; `LOG` is declared once and then kept |
| LoweringProps.LowerLog | test2.py:112-119 | `log(a)` lowers to `LOG` applied to `a`'s term `x`, `LOG` being the session's handle or a new one when there is none; with side effects on it asserts `x > 0` and then `exp(LOG x) = x`, and otherwise nothing |
| LoweringProps.LowerPairs | test2.py:29-121 | everything one `_parse` call asserts is back-to-back pairs `x > 0`, `exp(LOG x) = x` over the session's one `LOG` handle; earlier assertions and an existing handle are kept |
| LoweringProps.LowerNegSession | test2.py:74-77 | the same session facts for the exponent `-x` as for `x` |
| LoweringProps.QuietParse | test2.py:116 | with `side_effects=False` parsing asserts nothing |
| LoweringProps.LowerPreservesValue | test2.py:29-121 | wherever the SymPy tree has a real value, with names bound to variables of their own name, the lowered term has the same value |
| LoweringProps.SumPreservesValue | test2.py:68-70 | the lowered sum has the value of the sum |
| LoweringProps.ProductPreservesValue | test2.py:80-93 | the numerator/denominator split keeps the value of the product |
| LoweringProps.SplitFactorsValue | test2.py:82-88 | numerator values times reciprocals of denominator values interleave to the factors' values |
| LoweringProps.LowerAllPreservesValue | test2.py:69 | lowering a list of children keeps each child's value |
| LoweringProps.PowPreservesValue | test2.py:72-77 | a lowered power has the power's value, also when `as_base_exp` rewrites `(1/q)**x` as `q**-x` |
| LoweringProps.LowerNegValue | test2.py:74-77 | the lowered exponent `-x` has the negated value of `x` |
| Semantics.PowOfReciprocal | test2.py:74 | `(1/q)**-k` and `q**k` are defined for the same `k` and agree: `as_base_exp` keeps the value |
| LoweringScope.LowerClosed | test2.py:41-45 | a tree whose names are all bound in `env` lowers to a term with no free constant |
| LoweringScope.LowerAllClosed | test2.py:69 | the same for every child of a sum |
| LoweringScope.SplitFactorsClosed | test2.py:82-88 | the same for both sides of a product split |
| LoweringScope.LowerFreeConstant | test2.py:41-45 | a name not bound in `env` stays in the lowered term as a free constant of that name |
| LoweringScope.LowerAllFreeConstant | test2.py:69 | the same for a list of children |
| LoweringScope.SplitFactorsFreeConstant | test2.py:82-88 | the same for a product split |
| LoweringScope.LowerNegClosed | test2.py:74-77 | the negated exponent is closed when the exponent's names are bound |
| LoweringScope.LowerNegFreeConstant | test2.py:74-77 | a name not bound in `env` stays in the negated exponent as a free constant |
| LoweringScope.ProdClosed | test2.py:21-26 | `_prod` of closed terms is closed |
| LoweringFresh.LowerFresh | test1.py:18-103 | with no constants in `env`, every constant of the result and every constant of a new assertion was made during this call |
| LoweringFresh.LogFresh | test1.py:93-99 | the `log` branch adds only new constants, also in its side conditions |
| LoweringFresh.LowerUsesEnv | test2.py:43-44 | a bound name's term appears in the result |
| LoweringFresh.LowerNegFresh | test1.py:46-48 | the negated exponent and its side conditions hold only constants made during the call |
| LoweringFresh.LowerNegUsesEnv | test2.py:43-44 | a bound name's term appears in the negated exponent |
| Parser.Parse | test2.py:29-121 | the imperative `_parse` on a solver returns exactly `Lower`'s term, powers taken apart by `as_base_exp` and test1's short sums refused as cvc5 refuses them, and leaves the solver in `Lower`'s session, or fails with `Lower`'s error |
| Parser.ParseNeg | test2.py:74-77 | parsing the exponent `-x` on a solver returns `LowerNeg`'s term and leaves `LowerNeg`'s session, or fails with its error |
| Parser.ParseAll | test2.py:69 | the comprehension over children returns `LowerAll`'s terms and session |
| Parser.ParseProduct | test2.py:80-93 | the loop filling `numer_args`/`den_args` and the final `_prod`s compute `Lower(Mul(args))` |
| Parser.LowerAllPrefixFails | test2.py:69 | once a child fails, the whole comprehension fails with that error |
| Parser.SplitFactorsPrefixFails | test2.py:82-88 | once a factor fails, the whole product fails with that error |
| Obligation.ApplyWitness | test2.py:134-143 | the witness step: two refusal strings, else `C` substituted and dropped from the existentials; `WitnessRefusals` and `WitnessRemovesC` state it |
| Obligation.Prepare | test2.py:133-143 | test2.py applies the witness step; test.py, which has no witness, takes the problem as it is |
| ObligationProps.WitnessRefusals | test2.py:134-139 | a non-numeric witness gives "not proved: witness_C must be numeric", a witness ≤ 0 gives "…must be > 0", and only a positive number proceeds |
| ObligationProps.WitnessRemovesC | test2.py:140-143 | a positive witness keeps the number of conditions, removes exactly `C` from the occurring names and from the existentials, and leaves no `C > 0` |
| SymExpr.SubstNumberNames | test2.py:141-142 | substituting a number for `C` removes exactly the name `C` |
| SymExpr.SubstAll | test2.py:141 | one substituted condition per condition |
| Obligation.Keep | test2.py:236 | `exi_names` holds exactly the declared existentials that occur |
| ObligationProps.KeepSubsequence | test2.py:236 | `exi_names` keeps the declared order |
| Obligation.Drop | test2.py:143 | the comprehension drops exactly the excluded names |
| Obligation.ExiNames | test2.py:236 | `exi_names`; `NamePartition` and `KeepSubsequence` state it |
| Obligation.UniNames | test2.py:237 | `uni_names`; `NamePartition` and `Text.SortedUnique` state it |
| Text.SortedUnique | test2.py:237 | `sorted(set(...))` is strictly sorted and has exactly the given names |
| Text.InsertSorted | test2.py:237 | inserting into a strictly sorted list keeps it strictly sorted and adds exactly that name |
| Text.BelowTotal | test2.py:237 | string order is total |
| ObligationProps.NamePartition | test2.py:231-237 | existential and universal names are disjoint and together are exactly the occurring names; universals are sorted, existentials in declared order |
| Obligation.Bind | test2.py:244-245 | `{**env, **dict(zip(names, vars))}` has the old keys plus the names; the last binding of a name wins; other keys are kept |
| ObligationProps.BindDistinct | test2.py:244 | with sorted, distinct names each name is bound to its own variable |
| ObligationProps.BinderVars | test2.py:240-241 | universal then existential variables are made in name order with consecutive ids |
| ObligationProps.BinderEnvs | test2.py:244-245 | `env_uni` binds exactly the universals to their variables; `env_all` adds the existentials and keeps the rest; all bound terms are variables of the quantifiers |
| ObligationProps.PositivityOfC | test2.py:257-260 | the list `pos` holds `C > 0` exactly when `C` occurs; its `C` is the existential variable when `C` is declared existential, else the universal one |
| ObligationProps.PositivityPlacement | test2.py:255-270 | `pos` reaches the formula only under the ∃ binder: when nothing is existential the formula is `∀U. cond ⇒ goal` with no `C > 0`, even if `C` occurs; when something is, the ∃ body is `C > 0 ∧ goal` iff `C` occurs and the bare goal otherwise |
| ObligationProps.ExistsPartCases | test2.py:261-265 | the ∃-part is the bare goal with no existentials, `∃E. goal` with no `C`, and `∃E. (C > 0 ∧ goal)` otherwise |
| Obligation.Preamble | test2.py:156-227 | the session after the reset, the `LOG` declaration and the axioms; `PreambleShape` and `PreambleClosed` state it |
| ObligationProps.PreambleShape | test2.py:157-227 | after the axioms: `LOG` is declared once, with id 0; six variables are made; exactly the five patterned axioms are asserted, in order; test.py then makes a seventh variable and asserts the trigger-less left inverse over it |
| ObligationProps.PreambleClosed | test2.py:178-227 | for any `LOG` handle and any bound variables, the five patterned axioms and test.py's sixth are closed formulas |
| ObligationProps.MonotoneClosed | test2.py:178-196 | both monotonicity axioms of `exp` are closed |
| ObligationProps.RightInverseClosed | test2.py:199-203 | the right-inverse axiom is closed |
| ObligationProps.LeftInverseClosed | test2.py:206-213 | the left-inverse axiom is closed, both with its pattern and without (test.py's sixth axiom) |
| ObligationProps.LogMonotoneClosed | test2.py:216-227 | the log-monotonicity axiom is closed |
| ObligationProps.AxiomsClosed | test2.py:178-227 | all five patterned axioms are closed |
| Obligation.BuildObligation | test2.py:229-270 | the formula `∀U. cond ⇒ ∃E. …`; `ObligationParts`, `PositivityPlacement`, `ClosedObligation` and `ObligationQuiet` state it |
| ObligationProps.ObligationParts | test2.py:248-270 | the obligation is `ForallPart(uni, Conjunction(conds), ExistsPart(exi, pos, goal))`, with conditions lowered in `env_uni` and the goal in `env_all` |
| ObligationProps.ConjunctionClosed | test2.py:248-253 | the conjunction (`true`, the single condition, or an AND) of closed conditions is closed |
| ObligationProps.ConjunctionHasConst | test2.py:248-253 | a free constant of a condition stays in the conjunction |
| ObligationProps.ExistsPartClosed | test2.py:261-265 | ∃ binds the existential variables, or the goal stands alone when there are none |
| ObligationProps.ForallPartClosed | test2.py:268-270 | ∀ binds the universal variables, or the implication stands alone when there are none |
| ObligationProps.CondClosed | test2.py:248-250 | conditions that mention no declared existential are closed under the universal variables |
| ObligationProps.ExClosed | test2.py:255-265 | the ∃-part is closed under the universal variables |
| ObligationProps.GoalScope | test2.py:245 | every name of the goal is bound in `env_all` to a variable of the quantifiers |
| ObligationProps.ConditionConstant | test2.py:249 | a declared existential occurring in a condition is a free constant of the obligation, which is then not closed |
| ObligationProps.ClosedObligation | test2.py:229-270 | the obligation is closed iff no condition mentions a declared existential |
| ObligationProps.ObligationClosed | test2.py:229-270 | with no existential in the conditions, the obligation is closed |
| ObligationProps.ObligationQuiet | test2.py:249-255 | building the obligation asserts nothing and keeps `LOG` |
| ObligationProps.ObligationSession | test2.py:273 | the negated obligation is the last assertion, after exactly the axioms |
| Obligation.Verdict | test2.py:275-278 | `unknown <why>`, `proved` on unsat, `not proved` on sat; `VerdictTells` states it |
| Obligation.Prove | test2.py:124-278 | `_prove` as a function of the problem and the `checkSat` oracle; `ProveOutcome` states it and `Prover.Prove` computes it |
| ObligationProps.VerdictTells | test2.py:275-278 | the verdict string determines the solver's answer: "proved" iff unsat, "not proved" iff sat |
| ObligationProps.VerdictNotRefusal | test2.py:137-139 | a solver verdict is never one of the two refusal strings |
| ObligationProps.ProveOutcome | test2.py:124-278 | `_prove` answers "proved" iff the witness step passes, parsing succeeds and the oracle answers unsat on the axioms plus the negated obligation; "not proved" iff it answers sat; it raises iff parsing fails; test.py's variant has no witness step |
| Prover.MakeVars | test2.py:240-241 | the loop of `mkVar` calls returns `MkVars`'s variables and advances the solver likewise |
| Prover.AssertAxioms | test2.py:156-227 | on a new solver, the reset, declaration and axiom assertions leave exactly `Preamble(variant)`, including test.py's sixth axiom |
| Prover.MakeBinders | test2.py:240-245 | variables and environments as `Obligation.MakeBinders` gives them |
| Prover.BuildObligation | test2.py:229-270 | the imperative construction returns `Obligation.BuildObligation`'s term or error |
| Prover.Prove | test2.py:124-278 | the imperative `_prove` returns exactly `Obligation.Prove` |
| Ground.AssertPremises | test1.py:115-116 | the premise loop; `PremisesSession` and `PremisesFresh` state it |
| Ground.AssertPositivity | test1.py:124-125 | `C > 0` over a new constant when `C` is existential; `GroundLayout` and `GroundDisconnected` state it |
| Ground.GroundRun | test1.py:112-128 | the premises, the positivity constraint and the goal in turn; `GroundLayout` states it |
| Ground.GroundProve | test1.py:107-133 | test1's `_prove` as a function of the `checkSat` and `getValue` oracles; `GroundAnswer` states it and `GroundProver.Prove` computes it |
| Ground.ExistNames | test1.py:119-121 | `exist_syms` holds exactly the goal's names found in no premise, sorted |
| Ground.Report | test1.py:132 | one `(name, value)` pair per existential name, in sorted order, each value the model oracle's value of the queried term |
| GroundProps.PremisesSession | test1.py:115-116 | each premise is asserted right after its own side conditions, which are pairs `x > 0`, `exp(LOG x) = x` over the one `LOG` handle, two per `log`; the last assertion is the last premise |
| GroundProps.PremisesFresh | test1.py:115-116 | every constant in the premises was made while parsing them |
| GroundProps.GroundLayout | test1.py:112-128 | the assertions are the premises with their side conditions, then `C > 0` on a new constant when `C` is existential, then the goal's side conditions, then the goal; the goal's side conditions are `2 · LogCount(goal)` formulas, pairs `x > 0`, `exp(LOG x) = x` over the one `LOG` handle |
| GroundProps.GroundAnswer | test1.py:130-133 | on sat the answer is "exists" with each sorted existential paired with the model's value of a new constant; on any other answer it is "does not exist" |
| GroundProps.GroundDisconnected | test1.py:22-23 | every occurrence is a new constant: the `C` of `C > 0` is not the goal's `C`, and no queried constant occurs in any assertion |
| GroundProps.GroundExample | test1.py:135 | the script's own call `_prove(["a <= b"], "a <= C*b")` asserts the premise, `C > 0` on constant 2, and a goal whose `C` is constant 4 |
| GroundProps.ExampleNames | test1.py:119-121 | for the script's own example the only existential name is `C` |
| GroundProps.SharedPremiseAndGoal | test1.py:115-128 | with one cached constant per name, a name shared by a premise and the goal is the same constant in both |
| GroundProps.SharedPositivity | test1.py:124-125 | with cached constants, `C > 0` constrains the goal's own `C` |
| GroundProps.SharedQuery | test1.py:132 | with cached constants, the model is queried on the constants that occur in the goal |
| GroundProps.SharedEnv | test1.py:22-23 | with cached constants, every name of the premises and the goal is bound to one constant of its own name |
| GroundProver.AssertPremisesM | test1.py:115-116 | the premise loop leaves the solver in `AssertPremises`'s session, or fails with its error |
| GroundProver.PremisesPrefixFails | test1.py:115-116 | once a premise fails to parse, the whole loop fails with that error |
| GroundProver.Query | test1.py:132 | the comprehension over sorted names returns `Report` over a new constant per name |
| GroundProver.Prove | test1.py:107-133 | the imperative test1 `_prove` returns exactly `Ground.GroundProve` |
| Encoder.Encoding | z3_experiments.py:23-66 | `encode` on the encoder's fields; `EncodingState`, `NaryEncoding`, `ShortNaryFails`, `EncodingPowAsBaseExp`, `LogEncoding` and `EncodingPreservesValue` state it |
| Encoder.EncodingNeg | z3_experiments.py:38-40 | the exponent `-x` of `as_base_exp`, encoded; `EncodingNegIsNegate` and `NegEncodingValue` state it |
| Encoder.EncodingAll | z3_experiments.py:33-36 | the comprehension over arguments; `EncodingAllState` and `EncodeAllPrefixFails` state it |
| Encoder.CVC5Encoder.constructor | z3_experiments.py:9-16 | a new encoder has an empty cache, no side constraints and `_gensym = 0` |
| Encoder.Cached | z3_experiments.py:18-21 | `_const` returns the cached constant of the name, which is then in the cache; side constraints and counter are untouched |
| EncoderProps.CachedIdempotent | z3_experiments.py:18-21 | a second `_const` of the same name returns the same term and changes nothing; the cache grows only by a new name, with a new constant |
| Encoder.CVC5Encoder.CachedConst | z3_experiments.py:18-21 | the method updates the fields exactly as `Cached` says |
| Encoder.CVC5Encoder.Encode | z3_experiments.py:23-66 | `encode` returns `Encoding`'s term, powers taken apart by `as_base_exp` and sums or products of fewer than two terms refused as cvc5 refuses them, and leaves the fields in `Encoding`'s state, or raises its error |
| Encoder.CVC5Encoder.EncodeNeg | z3_experiments.py:38-40 | encoding the exponent `-x` returns `EncodingNeg`'s term and leaves its state, or raises its error |
| Encoder.CVC5Encoder.EncodeAll | z3_experiments.py:33-36 | the comprehension over arguments returns `EncodingAll`'s terms and state |
| Encoder.EncodeAllPrefixFails | z3_experiments.py:33-36 | once an argument fails, the comprehension fails with that error |
| EncoderProps.EncodingState | z3_experiments.py:23-66 | encoding only extends the cache, caches every name of the tree, advances `_gensym` by the number of `log`s and adds two side constraints per `log` |
| EncoderProps.EncodingAllState | z3_experiments.py:33-36 | the same for a list of arguments, with one term per argument |
| EncoderProps.NaryEncoding | z3_experiments.py:32-36 | a sum or product that encodes has at least two arguments and is one n-ary ADD or MULT over all of them, encoded; no DIVISION is made |
| EncoderProps.ShortNaryFails | z3_experiments.py:32-36 | a sum or product of fewer than two encoded arguments fails as cvc5's ADD or MULT does |
| EncoderProps.EncodingPowAsBaseExp | z3_experiments.py:38-40 | a power encodes as `POW` of its base and exponent after `as_base_exp`: `(1/q)**x` as `POW(q, -x)` |
| EncoderProps.EncodingNegIsNegate | z3_experiments.py:38-40 | encoding `-x` directly gives exactly the term and state of encoding SymPy's tree of `-x` |
| EncoderProps.LogEncoding | z3_experiments.py:47-55 | `log` caches `_log_{n}` in the same map as user names, returns it, adds one to `_gensym`, and appends `exp(y) = x` and then `x > 0` |
| EncoderProps.LogNamesDistinct | z3_experiments.py:49 | two different counters give two different `_log_` names |
| EncoderProps.RelationEncoding | z3_experiments.py:59-64 | `==`, `>=`, `<=`, `>`, `<` map to EQUAL, GEQ, LEQ, GT, LT; `!=` fails the table lookup with a KeyError |
| EncoderProps.Unsupported | z3_experiments.py:66 | any other node, sin and cos included, raises NotImplementedError |
| EncoderProps.EncodingPreservesValue | z3_experiments.py:23-66 | wherever the tree has a value, the encoded term has the same value, and the cache stays named after its keys |
| EncoderProps.UnitPowPreservesValue | z3_experiments.py:38-40 | `(1/q)**x`, encoded as `POW(q, -x)`, keeps its value and a named cache |
| EncoderProps.PowPreservesValue | z3_experiments.py:38-40 | every other power keeps its value and a named cache |
| EncoderProps.NegEncodingValue | z3_experiments.py:38-40 | the encoded exponent `-x` has the negated value of `x` and keeps the cache named |
| BigO.Transitivity | axioms.py:5-10 | a result exists iff there are exactly two terms with the same `rel` and `a.rhs == b.lhs`; it is `Term(a.rel, a.lhs, b.rhs)` |
| BigO.LeToBigO | axioms.py:12-14 | `le_to_bigo`; `Conversions`, `ConversionsExclusive` and `ChainOfLe` state it |
| BigO.LtToBigO | axioms.py:16-18 | `lt_to_bigo`; `Conversions` and `ConversionsExclusive` state it |
| BigO.GeToBigO | axioms.py:20-22 | `ge_to_bigo`; `Conversions` and `GeIsSwappedLe` state it |
| BigO.GtToBigO | axioms.py:24-26 | `gt_to_bigo`; `Conversions` and `ConversionsExclusive` state it |
| BigO.Conversions | axioms.py:12-26 | each conversion applies iff the lower-cased `rel` is its name; le/lt keep the operands, ge/gt swap them, and the result is always `BigO` |
| BigO.ConversionsExclusive | axioms.py:12-26 | at most one of the four conversions applies to a term |
| BigO.GeIsSwappedLe | axioms.py:12-22 | `ge(a, b)` and `le(b, a)` convert to the same BigO term |
| BigO.ChainOfLe | axioms.py:5-14 | two chained `le` facts convert and compose into `BigO(a.lhs, b.rhs)` |
| Entry.MatchStart | entry.py:39 | the pattern matched at the start of a text; `MatchStartSound` and `MatchStartFormat` state it |
| Entry.Search | entry.py:45 | `re.search`, the first position where the pattern matches; `SearchFromLeftmost` and `LeftmostAtWordStart` state it |
| Entry.ParseGoal | entry.py:44-46 | `_parse_goal`, failing on `a.group` when nothing matches; `ParseGoalLeftmost`, `ParseGoalFormat`, `QuestionGoal` and `SpaceAfterComma` state it |
| Entry.ParseGoalLeftmost | entry.py:44-46 | `_parse_goal` returns the match at the leftmost position; it fails on `a.group` iff no position matches |
| Entry.MatchStartSound | entry.py:39 | a match is a well-formed `rel(lhs,rhs)` (rel of `\w`, operands of `[A-Za-z0-9]`, all non-empty) that the text starts with |
| Entry.MatchStartFormat | entry.py:39 | a well-formed term written out is matched back to itself |
| Entry.ParseGoalFormat | entry.py:44-46 | a well-formed term written after a prefix without word characters parses back to itself |
| Entry.QuestionGoal | entry.py:33 | `"?BigO(m,p)"` parses to `Term("BigO", "m", "p")` |
| Entry.SpaceAfterComma | entry.py:45-46 | `"BigO(m, p)"` does not match, because of the space, and `_parse_goal` fails |
| Entry.SearchFromLeftmost | entry.py:45 | the unanchored search finds the first matching position, and finds none iff no position matches |
| Entry.LeftmostAtWordStart | entry.py:45 | the leftmost match never starts in the middle of a run of word characters |
| Entry.GivenTerms | entry.py:36-41 | one term per string, in order, each as `_parse_goal` gives it; failure iff some string does not match |
| Entry.ParseGiven | entry.py:36-41 | the loop appending to `arr` computes `GivenTerms` |
| Entry.GivenPrefixFails | entry.py:38-40 | the first string that fails to match makes the whole call fail |
| Entry.Eq | entry.py:54-59 | `_eq` holds iff `rel`, `lhs` and `rhs` are all equal |
| Entry.AxiomTableContents | entry.py:23-30 | the table maps exactly the five names, and every rule is reachable |
| Entry.WordLenRun | entry.py:39 | `\w+` takes the maximal run of word characters |
| Entry.AlnumLenRun | entry.py:39 | `[A-Za-z0-9]+` takes the maximal run of ASCII letters and digits |
| LlmClient.Bracketed | llm_client.py:147-150 | the group of `\[([^\]]*)\]`; `BracketedSpec` and `BracketedFormatted` state it |
| LlmClient.Items | llm_client.py:151 | the stripped, non-empty comma pieces; `ItemsShape` and `ItemsOfJoin` state it |
| LlmClient.Coerce | llm_client.py:155-166 | `_coerce`; `CoerceIntText`, `CoercePlus` and `CoerceNonNumeric` state it |
| LlmClient.ParseBracketedList | llm_client.py:141-168 | `_parse_bracketed_list`; `ParseFormatted` and `UncoercedAreStrings` state it |
| LlmClient.BracketedSpec | llm_client.py:147-149 | the inner text lies between the first `[` and the next `]`; there is none iff no `]` follows any `[` |
| LlmClient.BracketedFormatted | llm_client.py:147-150 | `"[" + body + "]"` with no `]` in the body gives the body back |
| LlmClient.ItemsShape | llm_client.py:151 | every item is non-empty, stripped and free of commas |
| LlmClient.ItemsOfJoin | llm_client.py:150-151 | splitting clean items joined by commas gives them back |
| LlmClient.ParseFormatted | llm_client.py:147-153 | a bracketed list of clean items parses back to those items, as strings |
| LlmClient.UncoercedAreStrings | llm_client.py:152-153 | without coercion every item is a clean string |
| LlmClient.CoerceIntText | llm_client.py:155-158 | `[+-]?\d+` text of at most 4300 digits becomes that integer |
| LlmClient.CoercePlus | llm_client.py:155-158 | a leading `+` is accepted |
| LlmClient.CoerceNonNumeric | llm_client.py:166 | an item with a character that no number literal has stays a string |
| LlmClient.IntLiteralChars | llm_client.py:156 | integer literals contain only signs and digits |
| LlmClient.FloatLiteralChars | llm_client.py:161 | the float patterns contain only signs, digits, `.` and `e`/`E` |
| LlmClient.SplitJoin | llm_client.py:151 | splitting on a separator undoes joining items that lack it |
| Text.JoinSplit | llm_client.py:151 | joining the pieces of a split gives the text back |
| Text.StripIsTrimmedSlice | llm_client.py:179 | `strip` removes exactly the leading and trailing whitespace |
| Text.StripIdempotent | llm_client.py:151 | stripping twice is stripping once |
| LlmClient.FirstRepeat | llm_client.py:180 | the first index whose value occurred before; none iff the list has no repeat |
| LlmClient.FirstRepeatUnique | llm_client.py:180-184 | the first repeat is unique |
| LlmClient.ApiCall | llm_client.py:171-192 | the loop returns the first stripped response equal to an earlier one (or '' if none), parsed when asked, after `DrawCount` draws |
| LlmClient.ApiCallSeries | llm_client.py:194-207 | the for loop returns the same consensus, or None when nothing repeats |
| LlmClient.Consensus | llm_client.py:173-187 | the answer both loops settle on; `ConsensusSpec`, `RepeatFound`, `NoRepeat` and `OnlyFirstFifteen` state it |
| LlmClient.ConsensusSpec | llm_client.py:173-187 | a consensus is a stripped response equal to an earlier one with no repeat before it; none iff the first 15 responses are distinct; at most 15 are drawn |
| LlmClient.RepeatFound | llm_client.py:180-182 | the first repeat at draw `j` is returned after `j + 1` draws |
| LlmClient.NoRepeat | llm_client.py:185-187 | 15 distinct responses give no consensus after 15 draws |
| LlmClient.OnlyFirstFifteen | llm_client.py:185 | responses after the 15th never matter |
| MathFunctions.SplitRange | math_functions.py:69-74 | the range built at index `i`; `SingleBreakpoint`, `SplitCoverage` and `SplitGapExample` state it |
| MathFunctions.SeriesSplitCalculate | math_functions.py:66-75 | one range per breakpoint, and range `i` is `SplitRange(ks, i)` |
| MathFunctions.SingleBreakpoint | math_functions.py:69-70 | one breakpoint gives only (-∞, k0], because the `i == 0` test comes first |
| MathFunctions.SplitCoverage | math_functions.py:69-74 | with at least two increasing breakpoints, an integer is covered iff it is ≤ k0 or > k1 |
| MathFunctions.SplitGapExample | math_functions.py:69-74 | for breakpoints [0, 2] the ranges are (-∞, 0] and [3, ∞), so 1 and 2 fall in no range |
| MathFunctions.PartitionExact | math_functions.py:66-75 | the corrected ranges (-∞, k0], [k0+1, k1], …, [k_last+1, ∞) hold every integer in exactly one range |
| MathFunctions.PartitionDisjoint | math_functions.py:66-75 | an integer in corrected range `i` is in no later range |
| MathFunctions.AmGm | math_functions.py:34-56 | the obligation `∀a,b. prem ⇒ ∃C. C > 0 ∧ avg ≥ C·sqrt(ab)`; `AmGmClosed` and `MathFunctions.Prove` state it |
| MathFunctions.Prove | math_functions.py:16-60 | `prove` asserts exactly `NOT(∀a,b. (a≥0 ∧ b≥0 ∧ a≤b) ⇒ ∃C. C>0 ∧ (a+b)/2 ≥ C·sqrt(a·b))` and returns the oracle's answer |
| MathFunctions.AmGmClosed | math_functions.py:23-56 | with a, b and C bound variables, the obligation is closed |
| MathFunctions.EstimateNeedsExists | math_functions.py:25 | without the ∃ over `C`, the estimate would not be closed |
| Text.ToLower | axioms.py:13 | `lower()` maps each ASCII character to lower case and keeps the length |
| Text.NatToStringInjective | z3_experiments.py:49 | distinct counters print differently |

## Left out

- `checkSat`, `getValue` and `getInfo("reason-unknown")` are oracles, passed as the parameters `check` and `model`. Their semantics, including trigger and instantiation behaviour, is not modelled.
- `setLogic` and every `setOption` call are left out (test2.py:146-154, test.py:130-134, test1.py:109-110, math_functions.py:18). So are the `getRealSort` sort objects.
- SymPy's canonical form of `-x` beyond `Num(-v)` and `Mul(-1, x)` is left out: SymPy distributes `-1` over a sum and folds it into a product's coefficient, which the model does not. SymPy's own `Pow` evaluation, such as `2**-1` becoming `1/2`, is left out too.
- cvc5's arity checks are modelled for ADD and MULT only. The one-child and empty sums and products they refuse never come from SymPy, whose `Add` and `Mul` have two arguments or more; the model keeps those cases only as errors.
- `sympify`, SymPy's argument ordering and its re-evaluation after `subs` are left out. The model takes the parsed tree as input. Substitution replaces `C` structurally and does not simplify.
- The witness is numeric exactly when it is a number literal. `w.evalf() <= 0` is compared on that rational. A closed non-literal expression such as `sqrt(2)` counts as non-numeric in the model.
- Floating point is not modelled. Numbers are exact rationals. A negative exponent counts as numeric only when it is a literal.
- The value semantics (`EvalExpr`, `EvalTerm`) covers sums, products, quotients and powers with integer exponents. Relations, `exp`, `log` and the trig functions have no value there.
- Coerce: a float item is kept as its text (`Float(literal)`) and is not converted. The 4300-digit limit on `int()` is the one current Python versions enforce.
- Regex classes are ASCII only. `\w` is `[A-Za-z0-9_]` and `\d` is `[0-9]`. `strip` removes ASCII whitespace, and `lower` is ASCII case folding.
- `stream_text`, `configure`, `generate_text` and the network become a function from draw index to response text. The prints are left out.
- The symbolic `summation` in `_series_split_calculate` is left out: only the index ranges are modelled.
- The module-level script code and the `__main__` blocks are left out, except the one example that GroundProps.GroundExample restates.
- test1.py's module-level `itertools.count()` is unused there, and is not modelled.
- The cvc5 `Term` objects' identity is modelled by fresh ids. The sharing of one Python `LOG` object across solvers, which the reset prevents, is not modelled.

## Findings

| source | as written | input that shows it | evidently intended | confidence | as-written member | corrected member |
|---|---|---|---|---|---|---|
| test1.py:61 | the numerator is `numer_args[0]` when there are fewer than two numerator factors | `b**-1 * c**-2`: every factor is a negative power, so `numer_args` is empty and indexing it fails | an empty numerator is the literal 1, as test2.py's `_prod` makes it | high, not executed | LoweringProps.AllNegativeProduct | LoweringProps.ProdValue |
| math_functions.py:69-74 | range `i` is `[k_i+1, k_{i+1}]` after the first, and `(-∞, k0]` at `i == 0` | breakpoints `[0, 2]` give `(-∞, 0]` and `[3, ∞)`; 1 and 2 are in no range | the ranges split the integers: `(-∞, k0]`, `[k0+1, k1]`, …, `[k_last+1, ∞)` | medium, not executed | MathFunctions.SplitGapExample | MathFunctions.PartitionExact |
| test1.py:22-23 | every occurrence of a name is a new `mkConst` | `_prove(["a <= b"], "a <= C*b")`: the `C` of `C > 0` (line 125), the goal's `C` and the queried `C` (line 132) are three different constants | one constant per name, as `CVC5Encoder._const` caches them | high, not executed | GroundProps.GroundDisconnected | GroundProps.SharedPositivity |
