/** What the statement visitors of `SymExec` compute (wlang/sym.py:182-305),
    stated on values. The methods of module Sym are proved to produce
    exactly these results; the lemmas of module SymProps are about them. */
module SymSpec {
  import opened Wrappers
  import opened Ast
  import opened Smt
  import opened SymExpr

  /** The loop unrolling bound of `visit_WhileStmt`. */
  const MaxDepth: nat := 10

  /** The contents of a `SymState`: symbolic environment, path condition and
      error flag. */
  datatype SymView = SymView(env: map<string, ITerm>, path: seq<BTerm>, err: bool)

  /** The outcome of visiting a statement on one state object: the resulting
      states in order (`outs`); the final contents of the visited object,
      which the visitors mutate (`self`); the position of that object among
      `outs` when it is one of them (`at`); and the next fresh-constant id. */
  datatype SymRes = SymRes(outs: seq<SymView>, self: SymView, at: Option<nat>, next: nat)

  function Shift(at: Option<nat>, k: nat): Option<nat> {
    if at.Some? then Some(at.value + k) else None
  }

  /** `add_pc(c)` on a state. */
  function WithPc(v: SymView, c: BTerm): SymView {
    v.(path := v.path + [c])
  }

  /** The child made by `fork`: a new `SymState` with a copy of the
      environment and the path replayed; its error flag starts false. */
  function ForkChild(v: SymView): SymView {
    SymView(v.env, v.path, false)
  }

  /** The environment after `havoc x1, ..., xk`: each variable in turn is
      bound to the next fresh constant. */
  function HavocEnv(env: map<string, ITerm>, xs: seq<string>, n: nat): map<string, ITerm> {
    if |xs| == 0 then env
    else HavocEnv(env, xs[..|xs| - 1], n)[xs[|xs| - 1] := Const(n + |xs| - 1)]
  }

  /** Appends the outcome `r` of visiting one more state to the outcome `p`
      of the states before it; `mine` says the visited state is the object
      being tracked. */
  function Merge(p: SymRes, r: SymRes, mine: bool): SymRes {
    if mine then SymRes(p.outs + r.outs, r.self, Shift(r.at, |p.outs|), r.next)
    else SymRes(p.outs + r.outs, p.self, p.at, r.next)
  }

  /** `SymExec.visit(s, state=v)` with the fresh-constant counter at `n`. */
  function SymRun(sv: Solver, s: Stmt, v: SymView, n: nat): Result<SymRes>
    decreases s, 4, 0, 0, 0
  {
    match s
    case SkipStmt => Ok(SymRes([v], v, Some(0), n))
    case PrintStateStmt => Ok(SymRes([v], v, Some(0), n))
    case AsgnStmt(x, e) =>
      (match SymA(e, v.env)
       case None => Fatal
       case Some(t) =>
         var v' := v.(env := v.env[x := t]);
         Ok(SymRes([v'], v', Some(0), n)))
    case HavocStmt(xs) =>
      var v' := v.(env := HavocEnv(v.env, xs, n));
      Ok(SymRes([v'], v', Some(0), n + |xs|))
    case AssumeStmt(c) => SymAssume(sv, c, v, n)
    case AssertStmt(c) => SymAssert(sv, c, v, n)
    case IfStmt(_, _, _) => SymIf(sv, s, v, n)
    case WhileStmt(_, _, _) => SymWhile(sv, s, v, 0, n)
    case StmtList(ss) => SymList(sv, s, |ss|, v, n)
  }

  /** `visit_AssumeStmt`: the state's own path is extended; it is the one
      result if still satisfiable, and there is none otherwise. */
  function SymAssume(sv: Solver, c: BExp, v: SymView, n: nat): Result<SymRes> {
    match SymB(c, v.env)
    case None => Fatal
    case Some(t) =>
      var v' := WithPc(v, t);
      if sv.check(v'.path) then Ok(SymRes([v'], v', Some(0), n)) else Ok(SymRes([], v', None, n))
  }

  /** `visit_AssertStmt`: the error-flagged `Not cond` child first (if
      satisfiable), then the parent with `cond` (if satisfiable). */
  function SymAssert(sv: Solver, c: BExp, v: SymView, n: nat): Result<SymRes> {
    match SymB(c, v.env)
    case None => Fatal
    case Some(t) =>
      var f := WithPc(ForkChild(v), Neg(t)).(err := true);
      var tv := WithPc(v, t);
      var fails := if sv.check(f.path) then [f] else [];
      if sv.check(tv.path) then Ok(SymRes(fails + [tv], tv, Some(|fails|), n))
      else Ok(SymRes(fails, tv, None, n))
  }

  /** `visit_IfStmt`: the results of the then-branch on the parent with
      `cond`, followed by those of the else-branch on the child with
      `Not cond`; a branch whose path is unsatisfiable is not visited, and a
      satisfiable child with no else-branch is itself a result. */
  function SymIf(sv: Solver, s: Stmt, v: SymView, n: nat): Result<SymRes>
    requires s.IfStmt?
    decreases s, 3, 0, 0, 0
  {
    match SymB(s.cond, v.env)
    case None => Fatal
    case Some(t) =>
      match IfBranch(sv, s, true, WithPc(v, t), n)
      case Fatal => Fatal
      case Ok(th) =>
        match IfBranch(sv, s, false, WithPc(ForkChild(v), Neg(t)), th.next)
        case Fatal => Fatal
        case Ok(el) => Ok(SymRes(th.outs + el.outs, th.self, th.at, el.next))
  }

  /** One branch of `visit_IfStmt` on the state prepared for it: nothing when
      its path is unsatisfiable, the state itself when the branch is a
      missing else-branch, and the results of visiting the branch otherwise. */
  function IfBranch(sv: Solver, s: Stmt, isThen: bool, v: SymView, n: nat): Result<SymRes>
    requires s.IfStmt?
    decreases s, 2, 0, 0, 0
  {
    var b := if isThen then Some(s.thenStmt) else s.elseStmt;
    if !sv.check(v.path) then Ok(SymRes([], v, None, n))
    else if b.Some? then SymRun(sv, b.value, v, n)
    else Ok(SymRes([v], v, Some(0), n))
  }

  /** `visit_WhileStmt` at unrolling depth `d`: the exit child with
      `Not cond` (if satisfiable), then, when the parent with `cond` is
      satisfiable and `d < 10`, the body is visited on the parent and the
      loop is visited again at depth `d + 1` on every satisfiable result. */
  function SymWhile(sv: Solver, w: Stmt, v: SymView, d: nat, n: nat): Result<SymRes>
    requires w.WhileStmt? && d <= MaxDepth
    decreases w, 2, MaxDepth - d, 2, 0
  {
    match SymB(w.cond, v.env)
    case None => Fatal
    case Some(t) =>
      var tv := WithPc(v, t);
      var fv := WithPc(ForkChild(v), Neg(t));
      var exits := if sv.check(fv.path) then [fv] else [];
      match WhileTrue(sv, w, tv, d, n)
      case Fatal => Fatal
      case Ok(l) => Ok(Merge(SymRes(exits, tv, None, n), l, true))
  }

  /** The part of `visit_WhileStmt` on the state with `cond`: when its path
      is satisfiable and the depth is below the bound, the body is visited
      on it, then every result goes round the loop again. */
  function WhileTrue(sv: Solver, w: Stmt, tv: SymView, d: nat, n: nat): Result<SymRes>
    requires w.WhileStmt? && d <= MaxDepth
    decreases w, 2, MaxDepth - d, 1, 0
  {
    if !sv.check(tv.path) || d >= MaxDepth then Ok(SymRes([], tv, None, n))
    else
      match SymRun(sv, w.body, tv, n)
      case Fatal => Fatal
      case Ok(b) => WhileEach(sv, w, b.outs, |b.outs|, b.at, d, b.self, b.next)
  }

  /** The inner `for` loop of `visit_WhileStmt` over the first `j` of the
      body's results `us`: each one with a satisfiable path goes round the
      loop again. */
  function WhileEach(sv: Solver, w: Stmt, us: seq<SymView>, j: nat, uAt: Option<nat>, d: nat,
                     self0: SymView, n0: nat): Result<SymRes>
    requires w.WhileStmt? && d < MaxDepth && j <= |us|
    decreases w, 2, MaxDepth - d, 0, j
  {
    if j == 0 then Ok(SymRes([], self0, None, n0))
    else
      match WhileEach(sv, w, us, j - 1, uAt, d, self0, n0)
      case Fatal => Fatal
      case Ok(p) =>
        var u := us[j - 1];
        if !sv.check(u.path) then Ok(p)
        else
          match SymWhile(sv, w, u, d + 1, p.next)
          case Fatal => Fatal
          case Ok(l) => Ok(Merge(p, l, uAt == Some(j - 1)))
  }

  /** `visit_StmtList` after its first `k` statements, started on `v0`. */
  function SymList(sv: Solver, s: Stmt, k: nat, v0: SymView, n0: nat): Result<SymRes>
    requires s.StmtList? && k <= |s.stmts|
    decreases s, 3, 0, 0, k
  {
    if k == 0 then Ok(SymRes([v0], v0, Some(0), n0))
    else
      match SymList(sv, s, k - 1, v0, n0)
      case Fatal => Fatal
      case Ok(p) => ListStep(sv, s.stmts[k - 1], p.outs, |p.outs|, p.at, p.self, p.next)
  }

  /** One statement of a list applied to every state in order, the
      results concatenated. */
  function ListStep(sv: Solver, t: Stmt, views: seq<SymView>, j: nat, vAt: Option<nat>, self0: SymView, n0: nat): Result<SymRes>
    requires j <= |views|
    decreases t, 5, 0, 0, j
  {
    if j == 0 then Ok(SymRes([], self0, None, n0))
    else
      match ListStep(sv, t, views, j - 1, vAt, self0, n0)
      case Fatal => Fatal
      case Ok(p) =>
        match SymRun(sv, t, views[j - 1], p.next)
        case Fatal => Fatal
        case Ok(r) => Ok(Merge(p, r, vAt == Some(j - 1)))
  }

  /** A statement that raises on some state makes the whole list raise. */
  lemma {:induction false} ListStepFatal(sv: Solver, t: Stmt, views: seq<SymView>, k: nat, vAt: Option<nat>, self0: SymView, n0: nat)
    requires k <= |views| && ListStep(sv, t, views, k, vAt, self0, n0).Fatal?
    ensures ListStep(sv, t, views, |views|, vAt, self0, n0).Fatal?
    decreases |views| - k
  {
    if k < |views| {
      ListStepFatal(sv, t, views, k + 1, vAt, self0, n0);
    }
  }

  lemma {:induction false} WhileEachFatal(sv: Solver, w: Stmt, us: seq<SymView>, k: nat, uAt: Option<nat>, d: nat,
                                          self0: SymView, n0: nat)
    requires w.WhileStmt? && d < MaxDepth
    requires k <= |us| && WhileEach(sv, w, us, k, uAt, d, self0, n0).Fatal?
    ensures WhileEach(sv, w, us, |us|, uAt, d, self0, n0).Fatal?
    decreases |us| - k
  {
    if k < |us| {
      WhileEachFatal(sv, w, us, k + 1, uAt, d, self0, n0);
    }
  }

  lemma {:induction false} SymListFatal(sv: Solver, s: Stmt, k: nat, k': nat, v0: SymView, n0: nat)
    requires s.StmtList? && k <= k' <= |s.stmts| && SymList(sv, s, k, v0, n0).Fatal?
    ensures SymList(sv, s, k', v0, n0).Fatal?
    decreases k' - k
  {
    if k < k' {
      SymListFatal(sv, s, k + 1, k', v0, n0);
    }
  }
}
