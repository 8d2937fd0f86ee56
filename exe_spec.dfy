/** What the visitors of `ExeExec` compute (wlang/exe.py:60-253), stated on
    values. The methods of module Exe are proved to produce exactly these
    results; the lemmas of module ExeProps are about them. */
module ExeSpec {
  import opened Wrappers
  import opened Ast
  import opened Smt
  import opened Interp
  import opened SymExpr
  import opened SymSpec

  /** The contents of an `ExeState`: the concrete environment, the contents
      of its `SymState`, and the infeasible and error flags. */
  datatype ExeView = ExeView(con: CEnv, sym: SymView, infeasible: bool, error: bool)

  /** `is_valid()`: neither flag is set and the symbolic state is not an
      error state. */
  predicate Valid(v: ExeView) {
    !v.infeasible && !v.error && !v.sym.err
  }

  /** The states a visitor returns, in order, and the next fresh-constant id
      of the symbolic visitor. */
  datatype ExeRes = ExeRes(outs: seq<ExeView>, next: nat)

  /** `_pick_concrete(state)`: the value of every variable of the symbolic
      environment under the solver's model; it raises (`None.env`) when the
      path condition is unsatisfiable. */
  function PickCon(sv: Solver, s: SymView): Result<CEnv> {
    if sv.check(s.path) then Ok(EnvModel(s.env, sv.model(s.path))) else Fatal
  }

  /** The child made by `ExeState.fork()`: a copy of the concrete environment
      and of the whole symbolic state, error flag included, with its own
      flags clear. */
  function ExeForkChild(v: ExeView): ExeView {
    ExeView(v.con, v.sym, false, false)
  }

  /** `zip([con], syms)` turned into new states: at most one, pairing the
      concrete state with the first symbolic result. */
  function Zip1(con: CEnv, syms: seq<SymView>): seq<ExeView> {
    if |syms| == 0 then [] else [ExeView(con, syms[0], false, false)]
  }

  /** `ExeExec.visit(s, state=v)` with the fresh-constant counter at `n`.
      The loop visitor is a stub that returns `None`, which every caller
      then fails on. */
  function ExeRun(sv: Solver, c: Concrete, s: Stmt, v: ExeView, n: nat): Result<ExeRes>
    decreases s, 1, 0
  {
    match s
    case SkipStmt => Ok(ExeRes([v], n))
    case PrintStateStmt => Ok(ExeRes([v], n))
    case AsgnStmt(_, _) => ExeUpdate(sv, c, s, v, n)
    case HavocStmt(_) => ExeUpdate(sv, c, s, v, n)
    case AssumeStmt(cond) => ExeAssume(sv, cond, v, n)
    case AssertStmt(cond) => ExeAssert(sv, cond, v, n)
    case IfStmt(_, _, _) => ExeIf(sv, c, s, v, n)
    case WhileStmt(_, _, _) => Fatal
    case StmtList(_) => ExeList(sv, c, s, |s.stmts|, [v], n)
  }

  /** `visit_AsgnStmt` and `visit_HavocStmt`: the symbolic visitor updates
      the symbolic state (its first result, `[0]`, is kept) and the concrete
      interpreter the concrete one. */
  function ExeUpdate(sv: Solver, c: Concrete, s: Stmt, v: ExeView, n: nat): Result<ExeRes>
    requires s.AsgnStmt? || s.HavocStmt?
  {
    match SymRun(sv, s, v.sym, n)
    case Fatal => Fatal
    case Ok(r) =>
      if |r.outs| == 0 then Fatal
      else
        match c.run(s, v.con)
        case None => Fatal
        case Some(con) => Ok(ExeRes([v.(sym := r.outs[0], con := con)], r.next))
  }

  /** `visit_AssumeStmt`: the condition joins the path; a satisfiable path
      gets a new concrete environment from the model, an unsatisfiable one
      marks the state infeasible. */
  function ExeAssume(sv: Solver, cond: BExp, v: ExeView, n: nat): Result<ExeRes> {
    match SymB(cond, v.sym.env)
    case None => Fatal
    case Some(t) =>
      var p := WithPc(v.sym, t);
      if sv.check(p.path) then Ok(ExeRes([v.(sym := p, con := EnvModel(p.env, sv.model(p.path)))], n))
      else Ok(ExeRes([v.(sym := p, infeasible := true)], n))
  }

  /** `visit_AssertStmt`: both sides evaluate the condition, then the state
      is forked as `AssertForks` says. */
  function ExeAssert(sv: Solver, cond: BExp, v: ExeView, n: nat): Result<ExeRes> {
    match CEvalB(cond, v.con)
    case None => Fatal
    case Some(b) =>
      match SymB(cond, v.sym.env)
      case None => Fatal
      case Some(t) => Ok(ExeRes(AssertForks(sv, b, v, t), n))
  }

  /** The states `visit_AssertStmt` returns for concrete value `b` and
      symbolic condition `t`. With both forks satisfiable, the passed fork
      and then the failed one, each with a model of its own path, the failed
      one flagged as an error. Otherwise the concrete condition decides: the
      passed fork, or the failed fork, whose flags stay clear because
      `mk_error` is called on the passed one. In the first case the source
      stores the model as the whole concrete state rather than as its
      environment, and later statements on either fork fail on that; the
      model keeps it as the environment. */
  function AssertForks(sv: Solver, b: bool, v: ExeView, t: BTerm): seq<ExeView> {
    var passed := v.(sym := WithPc(v.sym, t));
    var failed := ExeForkChild(v).(sym := WithPc(v.sym, Neg(t)));
    if sv.check(passed.sym.path) && sv.check(failed.sym.path) then
      [passed.(con := EnvModel(passed.sym.env, sv.model(passed.sym.path))),
       failed.(con := EnvModel(failed.sym.env, sv.model(failed.sym.path)), error := true)]
    else if b then [passed]
    else [failed]
  }

  /** `visit_IfStmt`: both sides evaluate the condition, the state is forked
      and the concrete value picks which branch is run first. */
  function ExeIf(sv: Solver, c: Concrete, s: Stmt, v: ExeView, n: nat): Result<ExeRes>
    requires s.IfStmt?
  {
    match CEvalB(s.cond, v.con)
    case None => Fatal
    case Some(b) =>
      match SymB(s.cond, v.sym.env)
      case None => Fatal
      case Some(t) => if b then IfConTrue(sv, c, s, v, t, n) else IfConFalse(sv, c, s, v, t, n)
  }

  /** Concrete condition true: the then-branch runs on the passed fork and on
      the concrete state; then, if there is an else-branch and the failed
      fork is satisfiable, the else-branch runs on the failed fork and on a
      model of its path. */
  function IfConTrue(sv: Solver, c: Concrete, s: Stmt, v: ExeView, t: BTerm, n: nat): Result<ExeRes>
    requires s.IfStmt?
  {
    match c.run(s.thenStmt, v.con)
    case None => Fatal
    case Some(ct) =>
      match SymRun(sv, s.thenStmt, WithPc(v.sym, t), n)
      case Fatal => Fatal
      case Ok(th) =>
        var fs := WithPc(v.sym, Neg(t));
        if sv.check(fs.path) && s.elseStmt.Some? then
          match OnModel(sv, c, s.elseStmt.value, fs, th.next)
          case Fatal => Fatal
          case Ok((ce, el)) => Ok(ExeRes(Zip1(ct, th.outs) + Zip1(ce, el.outs), el.next))
        else Ok(ExeRes(Zip1(ct, th.outs), th.next))
  }

  /** Concrete condition false: the else-branch (visiting a missing one
      raises) runs on the concrete state and, symbolically, on the passed
      fork, whose path ends in `cond`; then, if that same symbolic state,
      as the else-branch left it, is still satisfiable, the then-branch runs
      on it and on a model of its path, and finally `Not cond` is added to
      it (see `NegLate`). */
  function IfConFalse(sv: Solver, c: Concrete, s: Stmt, v: ExeView, t: BTerm, n: nat): Result<ExeRes>
    requires s.IfStmt?
  {
    if s.elseStmt.None? then Fatal
    else
      match c.run(s.elseStmt.value, v.con)
      case None => Fatal
      case Some(ce) =>
        match SymRun(sv, s.elseStmt.value, WithPc(v.sym, t), n)
        case Fatal => Fatal
        case Ok(el) =>
          var ps := el.self;
          if sv.check(ps.path) then
            match OnModel(sv, c, s.thenStmt, ps, el.next)
            case Fatal => Fatal
            case Ok((ct, th)) => Ok(ExeRes(Zip1(ce, el.outs) + Zip1(ct, NegLate(th, t)), th.next))
          else Ok(ExeRes(Zip1(ce, el.outs), el.next))
  }

  /** The branch taken second by `visit_IfStmt`: run concretely on a model
      of the fork's path and symbolically on the fork itself. */
  function OnModel(sv: Solver, c: Concrete, b: Stmt, ps: SymView, n: nat): Result<(CEnv, SymRes)> {
    match c.run(b, EnvModel(ps.env, sv.model(ps.path)))
    case None => Fatal
    case Some(cb) =>
      match SymRun(sv, b, ps, n)
      case Fatal => Fatal
      case Ok(r) => Ok((cb, r))
  }

  /** The then-results after `st.sym_state.add_pc(Not(cond))`: the states
      are not copied first, so if the visited symbolic state is among them
      it carries `Not cond` as well. */
  function NegLate(th: SymRes, t: BTerm): seq<SymView> {
    if th.at.Some? && th.at.value < |th.outs| then th.outs[th.at.value := WithPc(th.self, Neg(t))]
    else th.outs
  }

  /** `visit_StmtList` after the first `k` statements, starting from the
      states `vs`. */
  function ExeList(sv: Solver, c: Concrete, s: Stmt, k: nat, vs: seq<ExeView>, n: nat): Result<ExeRes>
    requires s.StmtList? && k <= |s.stmts|
    decreases s, 0, k
  {
    if k == 0 then Ok(ExeRes(vs, n))
    else
      match ExeList(sv, c, s, k - 1, vs, n)
      case Fatal => Fatal
      case Ok(p) => ExeEach(sv, c, s.stmts[k - 1], p.outs, |p.outs|, p.next)
  }

  /** One statement of a list applied to the first `j` states of `vs` in
      turn: a valid state is visited, an invalid one is passed on as it is,
      and the results are concatenated. */
  function ExeEach(sv: Solver, c: Concrete, t: Stmt, vs: seq<ExeView>, j: nat, n: nat): Result<ExeRes>
    requires j <= |vs|
    decreases t, 2, j
  {
    if j == 0 then Ok(ExeRes([], n))
    else
      match ExeEach(sv, c, t, vs, j - 1, n)
      case Fatal => Fatal
      case Ok(p) =>
        if Valid(vs[j - 1]) then
          match ExeRun(sv, c, t, vs[j - 1], p.next)
          case Fatal => Fatal
          case Ok(r) => Ok(ExeRes(p.outs + r.outs, r.next))
        else Ok(ExeRes(p.outs + [vs[j - 1]], p.next))
  }

  /** A statement that raises on some state makes the whole list raise. */
  lemma {:induction false} ExeEachFatal(sv: Solver, c: Concrete, t: Stmt, vs: seq<ExeView>, j: nat, j': nat, n: nat)
    requires j <= j' <= |vs| && ExeEach(sv, c, t, vs, j, n).Fatal?
    ensures ExeEach(sv, c, t, vs, j', n).Fatal?
    decreases j' - j
  {
    if j < j' {
      ExeEachFatal(sv, c, t, vs, j + 1, j', n);
    }
  }

  lemma {:induction false} ExeListFatal(sv: Solver, c: Concrete, s: Stmt, k: nat, k': nat, vs: seq<ExeView>, n: nat)
    requires s.StmtList? && k <= k' <= |s.stmts| && ExeList(sv, c, s, k, vs, n).Fatal?
    ensures ExeList(sv, c, s, k', vs, n).Fatal?
    decreases k' - k
  {
    if k < k' {
      ExeListFatal(sv, c, s, k + 1, k', vs, n);
    }
  }
}
