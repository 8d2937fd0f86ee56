# WLang symbolic and concolic executors

WLang is a small while-language. It has integer variables, `havoc`,
`assume`, `assert`, `if`, `while` and statement lists. This project models
two of its execution engines.

- The symbolic executor of `wlang/sym.py`.
  - A `SymState` holds a symbolic environment, a path-condition log and an
    error flag. The module models it as the class `Sym.SymState`.
  - `SymExec` visits a statement on a state. It returns every state that
    leaves it, in the source's order: the failed fork of an `assert`
    before the passed one, the then-branch before the else-branch, the loop
    exit before the states that went round the body. A loop is unrolled at most 10 times.
- The concolic executor of `wlang/exe.py`.
  - An `ExeState` pairs a concrete environment with a `SymState`, and has
    an infeasible flag and an error flag. The module models it as the class
    `Exe.ExeState`.
  - `ExeExec` runs the symbolic visitor and the concrete interpreter side by
    side. The concrete value of a condition decides the order of the
    branches. Where a new path is explored, a model of its path condition
    becomes the concrete state.

## How it is built

- Expressions and terms:
  - `Ast` holds the syntax.
  - `Interp` is the concrete evaluator.
  - `Smt` holds the solver's terms, their values under a model, and `Sat`.
  - `SymExpr` turns expressions into terms: the expression visitors of
    `sym.py`.
- The solver is a parameter:
  - `Solver(check, model)` stands for the z3 context.
  - `Sound(sv)` says that `check` answers exactly satisfiability and that
    `model` satisfies a satisfiable path.
  - Lemmas that need an exact solver assume `Sound`. The visitors
    themselves do not.
- The concrete interpreter of `int.py` is a parameter too:
  - `Concrete(run)` stands for it.
  - `Conforms(c)` says that it assigns and havocs as the language does.
- Python exceptions become `Result.Fatal`.
- Specification functions describe the result lists of the visitors:
  - `SymSpec.SymRun` for `SymExec`.
  - `ExeSpec.ExeRun` for `ExeExec`.
  - They work on views, the contents of the objects.
- Classes with in-place methods:
  - `Sym.SymState`, `Sym.SymExec`, `Exe.ExeState` and `Exe.ExeExec` keep
    the source's objects, aliasing included.
  - Each visitor is proved to return objects whose contents are the spec
    function's result. The returned objects are pairwise distinct, and each
    is either the received state or new.
- The lemmas of `SymProps` and `ExeProps` state what the spec functions
  promise. `SymScenarios` and `ExeScenarios` prove the outcomes the test
  files expect, except for the tests listed under "Left out".

The model follows the code as written, also where the code departs from
what its own comments (`wlang/exe.py:117`, `wlang/exe.py:192-193`) and the
counts in `test_exe.py` suggest:

- With a false concrete condition, the `if` of `exe.py` runs the
  else-branch symbolically on the passed fork, whose path ends in `cond`
  (`wlang/exe.py:141-142`). Each else-state pairs the concrete else-run
  with that path, so its concrete environment need not satisfy its own
  path, and with branches that leave the condition alone it never does
  (`ExeProps.IfFalseUnwitnessed`). The then-states get `Not cond` late,
  on top of `cond` (`ExeProps.IfFalseBothSides`). With a true concrete
  condition the forks are used as expected.
- Both forks of a doubly satisfiable `assert` get a fresh model, although
  the comment says the state that agrees with the concrete value could
  keep its own.
- The `while` visitor of `exe.py` returns `None`. A `while` statement that
  `ExeExec` itself visits, at top level or in a statement list on a valid
  state, makes its caller fail (`wlang/exe.py:62`, `wlang/exe.py:251`). A
  loop inside an `if` branch goes to the symbolic visitor and the concrete
  interpreter instead (`wlang/exe.py:102-103`, `124-125`, `141-142`,
  `159-160`), and a loop that only invalid states reach is never visited.
- `assert` with a single satisfiable fork, and a false concrete value,
  flags the received state and returns the unflagged failed fork
  (`wlang/exe.py:209-210`).

## Model

| member | source | states |
|---|---|---|
| Sym.SymState.constructor | wlang/sym.py:33-43 | a new state has an empty environment, an empty path and no error |
| Sym.SymState.AddPc | wlang/sym.py:45-49 | the constraints are appended to the path; environment and error flag unchanged |
| Sym.SymState.PopPc | wlang/sym.py:51-54 | the last constraint is removed; the source's `list.pop` needs a non-empty path |
| Sym.SymState.MkError | wlang/sym.py:59-60 | the error flag is set, nothing else changes |
| Sym.SymState.IsEmpty | wlang/sym.py:62-65 | true exactly when the solver reports the path unsatisfiable |
| Sym.SymState.PickConcrete | wlang/sym.py:67-77 | `None` exactly when the path is unsatisfiable; otherwise every variable of the environment, at its value under the solver's model, and no other |
| Sym.SymState.Fork | wlang/sym.py:79-85 | the first result is the very object; the second is new, with the same environment and path and no error |
| Sym.SymExec.constructor | wlang/sym.py:109-110 | the executor holds the given solver, and the fresh-constant counter starts where asked |
| Sym.SymExec.FreshInt | wlang/sym.py:290 | each call hands out a constant never handed out before, and moves the counter by one |
| Sym.SymExec.Run | wlang/sym.py:112-117 | the returned states hold exactly the states `SymRun` lists, in order; they are pairwise distinct, and each is the received state or new |
| Sym.SymExec.Visit | wlang/sym.py:182-305 | dispatch: each statement kind gives what `SymRun` says |
| Sym.SymExec.VisitAsgn | wlang/sym.py:188-192 | the received state, with the target bound to the symbolic value, is the only result; an unbound variable raises |
| Sym.SymExec.VisitHavoc | wlang/sym.py:287-291 | the received state, each variable bound to a fresh constant, is the only result |
| Sym.SymExec.VisitAssume | wlang/sym.py:274-285 | the received state gets the condition on its path, and is returned only when the path stays satisfiable |
| Sym.SymExec.VisitAssert | wlang/sym.py:250-272 | the failed fork, if satisfiable and flagged as an error, comes before the passed state, if satisfiable |
| Sym.SymExec.FailedAssert | wlang/sym.py:259-265 | the child gets `Not cond`, and is flagged as an error exactly when the solver reports it satisfiable |
| Sym.SymExec.VisitIf | wlang/sym.py:194-215 | the then-branch's results on the received state with `cond` come before the else-branch's results on the fork with `Not cond`; a branch whose fork is unsatisfiable gives nothing, and a missing else gives the `Not cond` fork itself |
| Sym.SymExec.VisitBranch | wlang/sym.py:205-213 | one branch on its prepared state gives what `IfBranch` says |
| Sym.SymExec.VisitWhile | wlang/sym.py:217-248 | the exit state with `Not cond`, if satisfiable, comes first, then the states that went round the body |
| Sym.SymExec.VisitWhileTrue | wlang/sym.py:241-246 | below depth 10, a satisfiable `cond` state goes through the body, and each result re-enters the loop one level deeper |
| Sym.SymExec.VisitWhileEach | wlang/sym.py:242-246 | every state the body left goes round the loop one level deeper, in order, and the results are concatenated as `WhileEach` says; a raise makes the whole loop raise |
| Sym.SymExec.VisitWhileStep | wlang/sym.py:243-246 | one re-entry of the loop appends its results to those collected so far, and a raise makes the whole loop raise |
| Sym.SymExec.VisitList | wlang/sym.py:293-305 | each statement in turn is applied to every state of the current list; the results are concatenated in order |
| Sym.SymExec.VisitEach | wlang/sym.py:299-304 | the statement is visited on every state of the list in order, and the results are concatenated as `ListStep` says; each result is an input state or new |
| Sym.SymExec.VisitEachStep | wlang/sym.py:298-303 | one state of the inner loop appends its results, and a raise makes the whole list raise |
| SymSpec.ListStepFatal | wlang/sym.py:298-303 | a statement that raises on one state makes the whole round raise |
| SymSpec.WhileEachFatal | wlang/sym.py:243-246 | a loop re-entry that raises makes the whole loop raise |
| SymSpec.SymListFatal | wlang/sym.py:293-305 | a list that raises after `k` statements raises after any later number of statements too |
| SymExpr.AgreeA | wlang/sym.py:162-180 | under a model, the symbolic value of an arithmetic expression is its concrete value in the model's environment |
| SymExpr.AgreeB | wlang/sym.py:128-160 | the same holds for Boolean expressions, relations included |
| SymProps.HavocFresh | wlang/sym.py:287-291 | after `havoc`, each havocked variable holds one of the constants just handed out; path and flag are kept; other bindings are kept |
| SymProps.HavocDistinct | wlang/sym.py:287-291 | two variables of one `havoc` get two different constants |
| SymProps.RunGrows | wlang/sym.py:182-305 | every output's path extends the input's path; with a new constraint, the solver reported it satisfiable; no output mentions a constant not yet handed out |
| SymProps.OutputsSat | wlang/sym.py:182-305 | with an exact solver, from a satisfiable state, every output state has a satisfiable path |
| SymProps.AssumePrunes | wlang/sym.py:274-285 | `assume` extends the state's own path, and drops the state exactly when that path is unsatisfiable |
| SymProps.AssertSplits | wlang/sym.py:250-272 | the error flag of the first output is set exactly when `Not cond` is satisfiable, in which case it carries that path; the passed state is returned exactly when `cond` is satisfiable |
| SymProps.AssertAlwaysFails | wlang/sym.py:250-272 | when `cond` cannot hold, no output is without error, and there is one output exactly when `Not cond` is satisfiable |
| SymProps.IfOrder | wlang/sym.py:194-215 | the outputs split at some `k`: those before extend `path + [cond]`, those after extend `path + [Not cond]`, and each side is non-empty only if the solver accepted its condition; a missing else gives exactly the satisfiable fork |
| SymProps.WhileAtBound | wlang/sym.py:232-241 | at the unrolling bound the body is not visited: the only possible output is the exit state |
| SymProps.WhileExitFirst | wlang/sym.py:229-238 | when `Not cond` is satisfiable, the exit state is the first output of the loop |
| SymScenarios.TestOne | wlang/test_sym.py:30-61 | `havoc x; assume x > 10; assert x > 15` gives two states: the failed fork first, flagged as an error, then the passed one, not flagged, with path `x > 10, x > 15` (test_one and test_SymState_methods) |
| SymScenarios.TestAssumeFalse | wlang/test_sym.py:38-46 | `havoc x; assume false` leaves no state |
| SymScenarios.TestIf | wlang/test_sym.py:71-91 | the nested `if` program gives four states, one per path |
| SymScenarios.TestRelExp | wlang/test_sym.py:117-127 | `havoc x; if x = 0 then x := 1` gives two states |
| SymScenarios.TestBExpNot | wlang/test_sym.py:129-139 | `havoc x; if not (x = 0) then x := 1` gives two states |
| SymScenarios.TestBExpAndOr | wlang/test_sym.py:141-150 | `havoc x; if x > 0 and x < 5 or x > 10 then x := 1`, with `and` binding tighter, gives two states |
| SymScenarios.TestBExpOrAnd | wlang/test_sym.py:141-150 | the same program with `or` binding tighter gives two states as well, so the count does not depend on the parser's grouping |
| SymScenarios.TestWhile | wlang/test_sym.py:93-115 | `havoc x; while x < 3 do x := x + 1` gives eleven states: the loop exits after 0 to 10 rounds |
| Exe.ExeState.constructor | wlang/exe.py:11-15 | a new state has an empty concrete environment, a new symbolic state and no flags |
| Exe.ExeState.Of | wlang/exe.py:113-115 | a new state holds the given concrete environment and symbolic state, with no flags |
| Exe.ExeState.Fork | wlang/exe.py:17-28 | the first result is the very object; the second is new, with copies of the concrete environment and symbolic state, error flag included |
| Exe.ExeState.MkInfeasible | wlang/exe.py:45-46 | the infeasible flag is set, nothing else changes |
| Exe.ExeState.MkError | wlang/exe.py:48-49 | the error flag is set, nothing else changes |
| Exe.ExeState.IsValid | wlang/exe.py:51-52 | valid exactly when neither flag is set and the symbolic state is not an error |
| Exe.PickConcreteEnv | wlang/exe.py:260-269 | raises exactly when the path is unsatisfiable; otherwise the model's value of every variable of the symbolic environment |
| Exe.SetModel | wlang/exe.py:218-220 | the concrete environment becomes a model of the path; nothing else changes |
| Exe.CopyFirst | wlang/exe.py:111-119 | at most one new state, holding the concrete environment and a copy of the first symbolic state |
| Exe.PairFirst | wlang/exe.py:134-138 | at most one new state, holding the concrete environment and the first symbolic state itself |
| Exe.ExeExec.constructor | wlang/exe.py:55-58 | the executor holds a new symbolic visitor over the given solver, and the concrete interpreter |
| Exe.ExeExec.Run | wlang/exe.py:60-65 | the returned states hold exactly the states `ExeRun` lists, in order; no two share a symbolic state |
| Exe.ExeExec.Visit | wlang/exe.py:67-253 | dispatch: each statement kind gives what `ExeRun` says; `while` gives `Fatal`, because its visitor returns `None` and the caller fails on it |
| Exe.ExeExec.VisitUpdate | wlang/exe.py:73-78 | assignment and `havoc` update the symbolic state, and the concrete interpreter gives the new concrete environment of the only result |
| Exe.ExeExec.VisitAssume | wlang/exe.py:212-226 | the path gets the condition; if it stays satisfiable, a model of it becomes the concrete environment, otherwise the state is marked infeasible |
| Exe.ExeExec.VisitAssert | wlang/exe.py:177-210 | forks on the condition, then gives what `AssertForks` says |
| Exe.ExeExec.AssertOutcome | wlang/exe.py:191-210 | both forks satisfiable: both returned, each with a model of its path, the failed one flagged; otherwise the concrete value picks one fork |
| Exe.ExeExec.VisitIf | wlang/exe.py:80-172 | evaluates the condition concretely and symbolically, forks, and lets the concrete value choose the order of the branches |
| Exe.ExeExec.IfTrue | wlang/exe.py:101-138 | the then-branch's results on the concrete state come first, copied; then the else-branch runs on a model of the failed fork |
| Exe.ExeExec.IfFalse | wlang/exe.py:140-171 | the else-branch's results come first, copied; then the then-branch runs on a model of the passed fork, whose symbolic state finally gets `Not cond` |
| Exe.ExeExec.RunOnModel | wlang/exe.py:120-125 | the state gets a model of its path as concrete state, and the branch runs on it concretely and on its symbolic state |
| Exe.ExeExec.VisitList | wlang/exe.py:236-253 | each statement in turn is applied to every valid state; invalid states are passed on untouched |
| Exe.ExeExec.VisitEach | wlang/exe.py:241-252 | the statement applied to each state of the list in turn, results concatenated in order |
| Exe.ExeExec.VisitEachStep | wlang/exe.py:243-250 | one state of the inner loop: visited if valid, passed on otherwise |
| ExeSpec.ExeEachFatal | wlang/exe.py:241-252 | a statement that raises on one state makes the whole round raise |
| ExeSpec.ExeListFatal | wlang/exe.py:236-253 | a list that raises after `k` statements raises after any later number too |
| ExeProps.AssumeOne | wlang/exe.py:212-226 | one result with `cond` on its path: if satisfiable, its concrete environment witnesses the path and binds the same variables; otherwise it is marked infeasible and keeps its concrete environment |
| ExeProps.AssertForksShape | wlang/exe.py:177-210 | two results exactly when both forks are satisfiable, each witnessed, only the failed one flagged; otherwise one result with the concrete value's fork, whose flags are cleared when that value is false |
| ExeProps.AssertWitnessed | wlang/exe.py:177-210 | when the concrete state witnesses the path, the concrete value's fork is satisfiable and every result's concrete state witnesses its path |
| ExeProps.AsgnWitnessed | wlang/exe.py:73-78 | an assignment keeps the concrete state a witness of the symbolic state |
| ExeProps.HavocOne | wlang/exe.py:228-234 | `havoc` binds fresh constants symbolically, binds the variables concretely, and keeps the other concrete values and the flags |
| ExeProps.EachPassesInvalid | wlang/exe.py:243-250 | a round over states that are all invalid returns them unchanged |
| ExeProps.EachKeepsInvalid | wlang/exe.py:243-250 | an invalid state appended to a round's input is appended to its output |
| ExeProps.EachKeepsInvalidAt | wlang/exe.py:243-250 | an invalid state at any position comes out unchanged, right after the outcome of the states before it, whatever follows |
| ExeProps.ListPassesInvalid | wlang/exe.py:236-253 | a list run from an invalid state returns that state alone, unchanged |
| ExeProps.IfShape | wlang/exe.py:80-172 | at most two results, none flagged; with a true concrete condition and two results, the first extends `path + [cond]` and the second `path + [Not cond]`; with a false one, every result extends `path + [cond]` |
| ExeProps.IfTrueOutcome | wlang/exe.py:101-138 | concrete condition true: at most one then-state, first, pairing the concrete then-run with the first symbolic then-result; at most one else-state after it, present exactly when there is an else clause, `Not cond` was found satisfiable and the symbolic else-run returned a state; any result on the `Not cond` side passed that gate |
| ExeProps.IfFalseOutcome | wlang/exe.py:140-171 | concrete condition false: the else clause must exist; at most one else-state, first, pairing the concrete else-run on the received environment with the first symbolic else-result of the passed fork; at most one then-state after it, present exactly when the else-run's own symbolic state was found satisfiable and the symbolic then-run returned a state |
| ExeProps.IfFalseBothSides | wlang/exe.py:140-171 | with a false concrete condition and empty branches, the second result carries both `cond` and `Not cond`, an unsatisfiable path |
| ExeProps.IfFalseUnwitnessed | wlang/exe.py:140-154 | with a false concrete condition and empty branches, the first result's concrete environment falsifies `cond`, which its path holds, so it is not a witness of its path |
| ExeScenarios.TestTwo | wlang/test_exe.py:7-13 | `havoc x; assume x > 10; assert x > 15` gives two states: the passed fork, then the failed fork flagged as an error, each with a witnessing concrete state |

## Left out

- Output and command-line handling: the prints of `sym.py` (lines
  261-263) and `exe.py` (lines 124 and 153), `__repr__`, `__str__`,
  `to_smt2`, `_log_error`, `_parse_args` and `main`. `visit_PrintStateStmt`
  prints nothing and returns its state, and is modelled as such.
  `test_main` and `test_main2` call `main` and are left out with it.
- The parser: the scenario programs are written as syntax trees. The inner
  statements of the nested `if` program are written without their braces.
- Division and its integer semantics: the expression language is modelled
  with `+`, `-` and `*` only. `test_leftovers` uses division and is left
  out with it.
- The z3 context: it is the `Solver` parameter. An answer of `unknown` is
  not modelled, and the lemmas assume an exact solver.
- `wlang/int.py` is not part of this model. The concrete interpreter is the
  `Concrete` parameter, and `Conforms` states what the lemmas need of it.
- Sym.SymState.IsEmpty: answers for the current path. In the source, the
  solver still holds constraints that `pop_pc` removed from the log. No
  visitor pops, so no visitor result depends on this.
- Sym.SymState.PopPc: does not revert the solver, for the same reason.
- Exe.ExeExec.Visit: the `while` visitor of `exe.py` (lines 174-175) has
  the body `pass` and returns `None`. Its caller then fails: `run` on
  `len(None)` (line 62), a statement list on `extend(None)` (line 251).
  The model gives `Fatal` for the loop itself, and no fallback to concrete
  execution is modelled.
- Exe.ExeExec.AssertOutcome: when both forks are satisfiable, the source
  replaces `con_state` of both returned states by the plain dictionary of
  `_pick_concrete` (`wlang/exe.py:195` and `197`), where every other visitor
  assigns to `con_state.env`. Any later assignment, `havoc`, `assume`, `if`
  or `assert` on either state then raises in the source: `fork` reads
  `con_state.env` (line 21), `assume` sets `.env` on the dictionary
  (line 220), and the concrete interpreter of `wlang/int.py`, which is not
  part of this model, is handed the dictionary in place of its state. The
  model keeps a concrete environment in both cases, and its states carry
  on. The failed state is flagged, so a statement list passes it through;
  the passed state goes on to the next statement. The same holds of
  `ExeSpec.AssertForks` and `ExeSpec.ExeAssert`.
- Exe.ExeState.constructor: the symbolic state that `ExeState()` creates
  and the `if` visitor then replaces is not kept.
- The final contents of a received state that a visitor drops from its
  results (for example after a failed `assume`) are not stated.
- The second program of `test_while` and `test_bug` are not proved as
  scenarios.
- The counts in `test_exe.py` other than `test_two` are not proved. They
  do not follow from the code as written.
