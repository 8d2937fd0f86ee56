/** The symbolic state and the symbolic executor of wlang/sym.py, as
    classes whose methods update their objects in place, as the source's
    do. Each statement visitor is proved to produce the results that
    `SymSpec.SymRun` describes. */
module Sym {
  import opened Wrappers
  import opened Ast
  import opened Smt
  import opened Interp
  import opened SymExpr
  import opened SymSpec

  /** `SymState`: the symbolic environment, the path-condition log and the
      error flag. The solver context that mirrors the path is the oracle
      passed to `IsEmpty` and `PickConcrete`. */
  class SymState {
    var env: map<string, ITerm>
    var path: seq<BTerm>
    var isError: bool

    constructor ()
      ensures env == map[] && path == [] && !isError
    {
      env := map[];
      path := [];
      isError := false;
    }

    ghost function View(): SymView
      reads this
    {
      SymView(env, path, isError)
    }

    /** `add_pc(*exp)`: appends the constraints to the path condition. */
    method AddPc(cs: seq<BTerm>)
      modifies this
      ensures path == old(path) + cs
      ensures env == old(env) && isError == old(isError)
    {
      path := path + cs;
    }

    /** `pop_pc()`: removes the last constraint (`list.pop()` raises on an
        empty path, so callers must not pop an empty one). */
    method PopPc()
      requires path != []
      modifies this
      ensures path == old(path)[..|old(path)| - 1]
      ensures env == old(env) && isError == old(isError)
    {
      path := path[..|path| - 1];
    }

    /** `mk_error()`. */
    method MkError()
      modifies this
      ensures isError
      ensures env == old(env) && path == old(path)
    {
      isError := true;
    }

    /** `is_empty()`: true exactly when the solver reports the path
        condition unsatisfiable. */
    method IsEmpty(solver: Solver) returns (empty: bool)
      ensures empty <==> !solver.check(path)
    {
      empty := !solver.check(path);
    }

    /** `pick_concerete()`: `None` exactly when the solver reports the path
        condition unsatisfiable; otherwise the value of every variable of the
        environment under the model the solver returns. */
    method PickConcrete(solver: Solver) returns (r: Option<CEnv>)
      ensures r.None? <==> !solver.check(path)
      ensures r.Some? ==> r.value == EnvModel(env, solver.model(path))
    {
      if !solver.check(path) {
        return None;
      }
      var model := solver.model(path);
      var st: CEnv := map[];
      var todo := env.Keys;
      while todo != {}
        invariant todo <= env.Keys
        invariant st.Keys == env.Keys - todo
        invariant forall k :: k in st ==> st[k] == IVal(env[k], model)
        decreases todo
      {
        var k :| k in todo;
        st := st[k := IVal(env[k], model)];
        todo := todo - {k};
      }
      r := Some(st);
    }

    /** `fork()`: returns this very object as the first component and a new
        state with the same environment and path, not flagged as an error. */
    method Fork() returns (parent: SymState, child: SymState)
      ensures parent == this && fresh(child)
      ensures child.View() == ForkChild(View())
    {
      child := new SymState();
      child.env := env;
      child.AddPc(path);
      parent := this;
    }
  }

  /** The states of a result list hold the given contents, in order. */
  ghost predicate Mirrors(ss: seq<SymState>, vs: seq<SymView>)
    reads set x | x in ss
  {
    |ss| == |vs| && forall i :: 0 <= i < |ss| ==> ss[i].View() == vs[i]
  }

  ghost predicate Distinct(ss: seq<SymState>) {
    forall i, j :: 0 <= i < j < |ss| ==> ss[i] != ss[j]
  }

  /** `at` is the position of `st` in `ss`, if it is there. */
  ghost predicate AtIs(ss: seq<SymState>, st: SymState, at: Option<nat>) {
    (at.Some? ==> at.value < |ss|) && forall i :: 0 <= i < |ss| ==> (ss[i] == st <==> at == Some(i))
  }

  /** The result list and the visited object `st` are as `r` describes. */
  ghost predicate Realizes(ss: seq<SymState>, st: SymState, r: SymRes)
    reads st, set x | x in ss
  {
    Mirrors(ss, r.outs) && st.View() == r.self && AtIs(ss, st, r.at)
  }

  lemma MergeRealizes(a: seq<SymState>, b: seq<SymState>, st: SymState, p: SymRes, q: SymRes, mine: bool)
    requires Mirrors(a, p.outs) && Mirrors(b, q.outs)
    requires mine ==> AtIs(b, st, q.at) && st.View() == q.self && forall i :: 0 <= i < |a| ==> a[i] != st
    requires !mine ==> AtIs(a, st, p.at) && st.View() == p.self && forall i :: 0 <= i < |b| ==> b[i] != st
    ensures Realizes(a + b, st, Merge(p, q, mine))
  {
    var m := Merge(p, q, mine);
    assert |a + b| == |m.outs|;
    forall i | 0 <= i < |a + b| ensures (a + b)[i].View() == m.outs[i] {
      if i < |a| { assert (a + b)[i] == a[i]; } else { assert (a + b)[i] == b[i - |a|]; }
    }
    forall i | 0 <= i < |a + b| ensures ((a + b)[i] == st <==> m.at == Some(i)) {
      if i < |a| { assert (a + b)[i] == a[i]; } else { assert (a + b)[i] == b[i - |a|]; }
    }
  }

  /** The states of `ss` from position `j` on hold the contents `vs` has at
      the same positions. */
  ghost predicate MirrorsFrom(ss: seq<SymState>, vs: seq<SymView>, j: nat)
    reads set k | j <= k < |ss| :: ss[k]
  {
    |ss| == |vs| && forall k :: j <= k < |ss| ==> ss[k].View() == vs[k]
  }

  /** No state of `a` occurs in `ss` from position `j` on. */
  ghost predicate DisjointFrom(a: seq<SymState>, ss: seq<SymState>, j: nat) {
    forall i, k :: 0 <= i < |a| && j <= k < |ss| ==> a[i] != ss[k]
  }

  /** Concatenating two lists of states that are each `st` or new keeps
      that property. */
  twostate lemma FreshAppend(new a: seq<SymState>, new b: seq<SymState>, st: SymState)
    requires forall i :: 0 <= i < |a| ==> a[i] == st || fresh(a[i])
    requires forall i :: 0 <= i < |b| ==> b[i] == st || fresh(b[i])
    ensures forall i :: 0 <= i < |a + b| ==> (a + b)[i] == st || fresh((a + b)[i])
  {
    forall i | 0 <= i < |a + b| ensures (a + b)[i] == st || fresh((a + b)[i]) {
      if i < |a| { assert (a + b)[i] == a[i]; } else { assert (a + b)[i] == b[i - |a|]; }
    }
  }

  /** No state object occurs in both lists. */
  ghost predicate Disjoint(a: seq<SymState>, b: seq<SymState>) {
    forall i, j :: 0 <= i < |a| && 0 <= j < |b| ==> a[i] != b[j]
  }

  lemma DistinctAppend(a: seq<SymState>, b: seq<SymState>)
    requires Distinct(a) && Distinct(b) && Disjoint(a, b)
    ensures Distinct(a + b)
  {
    forall i, j | 0 <= i < j < |a + b| ensures (a + b)[i] != (a + b)[j] {
      if j < |a| {
        assert (a + b)[i] == a[i] && (a + b)[j] == a[j];
      } else if i < |a| {
        assert (a + b)[i] == a[i] && (a + b)[j] == b[j - |a|];
      } else {
        assert (a + b)[i] == b[i - |a|] && (a + b)[j] == b[j - |a|];
      }
    }
  }

  /** `SymExec`: the statement visitors. `nextId` is the counter behind
      `z3.FreshInt`. */
  class SymExec {
    const solver: Solver
    var nextId: nat

    constructor (solver: Solver, firstId: nat)
      ensures this.solver == solver && nextId == firstId
    {
      this.solver := solver;
      nextId := firstId;
    }

    /** `z3.FreshInt`: a constant never handed out before. */
    method FreshInt() returns (t: ITerm)
      modifies this
      ensures t == Const(old(nextId)) && nextId == old(nextId) + 1
    {
      t := Const(nextId);
      nextId := nextId + 1;
    }

    /** `run(ast, state)`. */
    method Run(s: Stmt, st: SymState) returns (r: Result<seq<SymState>>)
      modifies this, st
      ensures var spec := SymRun(solver, s, old(st.View()), old(nextId));
              r.Ok? == spec.Ok? && (r.Ok? ==> Realizes(r.value, st, spec.value) && nextId == spec.value.next)
      ensures r.Ok? ==> Distinct(r.value) && forall i :: 0 <= i < |r.value| ==> r.value[i] == st || fresh(r.value[i])
    {
      r := Visit(s, st);
      if r.Ok? && |r.value| == 0 {
        r := Ok([]);
      }
    }

    /** `visit(s, state=st)`: dispatch on the statement kind. */
    method Visit(s: Stmt, st: SymState) returns (r: Result<seq<SymState>>)
      modifies this, st
      decreases s, 2, 0, 0
      ensures var spec := SymRun(solver, s, old(st.View()), old(nextId));
              r.Ok? == spec.Ok? && (r.Ok? ==> Realizes(r.value, st, spec.value) && nextId == spec.value.next)
      ensures r.Ok? ==> Distinct(r.value) && forall i :: 0 <= i < |r.value| ==> r.value[i] == st || fresh(r.value[i])
    {
      match s
      case SkipStmt => r := Ok([st]);
      case PrintStateStmt => r := Ok([st]);
      case AsgnStmt(_, _) => r := VisitAsgn(s, st);
      case HavocStmt(_) => r := VisitHavoc(s, st);
      case AssumeStmt(_) => r := VisitAssume(s, st);
      case AssertStmt(_) => r := VisitAssert(s, st);
      case IfStmt(_, _, _) => r := VisitIf(s, st);
      case WhileStmt(_, _, _) => r := VisitWhile(s, st, 0);
      case StmtList(_) => r := VisitList(s, st);
    }

    /** `visit_AsgnStmt`: rebinds the target in the received state. */
    method VisitAsgn(s: Stmt, st: SymState) returns (r: Result<seq<SymState>>)
      requires s.AsgnStmt?
      modifies st
      ensures var spec := SymRun(solver, s, old(st.View()), nextId);
              r.Ok? == spec.Ok? && (r.Ok? ==> Realizes(r.value, st, spec.value) && nextId == spec.value.next)
      ensures r.Ok? ==> r.value == [st]
    {
      var rhs := SymA(s.rhs, st.env);
      if rhs.None? {
        return Fatal;
      }
      st.env := st.env[s.lhs := rhs.value];
      r := Ok([st]);
    }

    /** `visit_HavocStmt`: binds each variable in turn to a fresh constant. */
    method VisitHavoc(s: Stmt, st: SymState) returns (r: Result<seq<SymState>>)
      requires s.HavocStmt?
      modifies this, st
      ensures var spec := SymRun(solver, s, old(st.View()), old(nextId));
              r.Ok? && spec.Ok? && Realizes(r.value, st, spec.value) && nextId == spec.value.next
      ensures r.Ok? ==> r.value == [st]
    {
      var i := 0;
      while i < |s.vars|
        invariant 0 <= i <= |s.vars|
        invariant st.env == HavocEnv(old(st.env), s.vars[..i], old(nextId))
        invariant nextId == old(nextId) + i
        invariant st.path == old(st.path) && st.isError == old(st.isError)
      {
        var c := FreshInt();
        assert s.vars[..i + 1][..i] == s.vars[..i];
        st.env := st.env[s.vars[i] := c];
        i := i + 1;
      }
      assert s.vars[..i] == s.vars;
      r := Ok([st]);
    }

    /** `visit_AssumeStmt`: extends the received state's own path; it is the
        result only if the path is still satisfiable. */
    method VisitAssume(s: Stmt, st: SymState) returns (r: Result<seq<SymState>>)
      requires s.AssumeStmt?
      modifies st
      ensures var spec := SymRun(solver, s, old(st.View()), nextId);
              r.Ok? == spec.Ok? && (r.Ok? ==> Realizes(r.value, st, spec.value) && nextId == spec.value.next)
      ensures r.Ok? ==> r.value == [st] || r.value == []
    {
      var cond := SymB(s.cond, st.env);
      if cond.None? {
        return Fatal;
      }
      st.AddPc([cond.value]);
      var empty := st.IsEmpty(solver);
      if !empty {
        r := Ok([st]);
      } else {
        r := Ok([]);
      }
    }

    /** `visit_AssertStmt`: the forked child with `Not cond`, flagged as an
        error, if satisfiable; then the received state with `cond`, if
        satisfiable. */
    method VisitAssert(s: Stmt, st: SymState) returns (r: Result<seq<SymState>>)
      requires s.AssertStmt?
      modifies st
      ensures var spec := SymAssert(solver, s.cond, old(st.View()), nextId);
              r.Ok? == spec.Ok? && (r.Ok? ==> Realizes(r.value, st, spec.value) && nextId == spec.value.next)
      ensures r.Ok? ==> Distinct(r.value) && forall i :: 0 <= i < |r.value| ==> r.value[i] == st || fresh(r.value[i])
    {
      var cond := SymB(s.cond, st.env);
      if cond.None? {
        return Fatal;
      }
      var trueSt, falseSt := st.Fork();
      var failed := FailedAssert(falseSt, cond.value);
      trueSt.AddPc([cond.value]);
      var trueEmpty := trueSt.IsEmpty(solver);
      if failed && !trueEmpty {
        r := Ok([falseSt, trueSt]);
      } else if failed {
        r := Ok([falseSt]);
      } else if !trueEmpty {
        r := Ok([trueSt]);
      } else {
        r := Ok([]);
      }
    }

    /** The failing side of `visit_AssertStmt` on the forked child: `Not cond`
        is added, and when that is satisfiable the child is flagged as an
        error and is a result. */
    method FailedAssert(child: SymState, t: BTerm) returns (failed: bool)
      modifies child
      ensures failed == solver.check(child.path)
      ensures child.View() == WithPc(old(child.View()), Neg(t)).(err := failed || old(child.isError))
    {
      child.AddPc([Neg(t)]);
      var empty := child.IsEmpty(solver);
      failed := !empty;
      if failed {
        child.MkError();
      }
    }

    /** `visit_IfStmt`: the then-branch on the received state with `cond`,
        then the else-branch on a forked child with `Not cond`. */
    method VisitIf(s: Stmt, st: SymState) returns (r: Result<seq<SymState>>)
      requires s.IfStmt?
      modifies this, st
      decreases s, 1, 0, 0
      ensures var spec := SymIf(solver, s, old(st.View()), old(nextId));
              r.Ok? == spec.Ok? && (r.Ok? ==> Realizes(r.value, st, spec.value) && nextId == spec.value.next)
      ensures r.Ok? ==> Distinct(r.value) && forall i :: 0 <= i < |r.value| ==> r.value[i] == st || fresh(r.value[i])
    {
      var cond := SymB(s.cond, st.env);
      if cond.None? {
        return Fatal;
      }
      var thenSt, elseSt := st.Fork();
      thenSt.AddPc([cond.value]);
      elseSt.AddPc([Neg(cond.value)]);
      ghost var tv, ev := thenSt.View(), elseSt.View();
      var thenStates := VisitBranch(s, true, thenSt);
      if thenStates.Fatal? {
        return Fatal;
      }
      ghost var th := IfBranch(solver, s, true, tv, old(nextId)).value;
      assert elseSt.View() == ev;
      var elseStates := VisitBranch(s, false, elseSt);
      if elseStates.Fatal? {
        return Fatal;
      }
      ghost var el := IfBranch(solver, s, false, ev, th.next).value;
      assert forall i :: 0 <= i < |elseStates.value| ==> elseStates.value[i] != st;
      MergeRealizes(thenStates.value, elseStates.value, st, th, el, false);
      DistinctAppend(thenStates.value, elseStates.value);
      FreshAppend(thenStates.value, elseStates.value, st);
      r := Ok(thenStates.value + elseStates.value);
    }

    /** One branch of `visit_IfStmt` on the state prepared for it. */
    method VisitBranch(s: Stmt, isThen: bool, st: SymState) returns (r: Result<seq<SymState>>)
      requires s.IfStmt?
      modifies this, st
      decreases s, 0, 0, 0
      ensures var spec := IfBranch(solver, s, isThen, old(st.View()), old(nextId));
              r.Ok? == spec.Ok? && (r.Ok? ==> Realizes(r.value, st, spec.value) && nextId == spec.value.next)
      ensures r.Ok? ==> Distinct(r.value) && forall i :: 0 <= i < |r.value| ==> r.value[i] == st || fresh(r.value[i])
    {
      var empty := st.IsEmpty(solver);
      if empty {
        return Ok([]);
      }
      if isThen {
        r := Visit(s.thenStmt, st);
      } else if s.elseStmt.Some? {
        r := Visit(s.elseStmt.value, st);
      } else {
        r := Ok([st]);
      }
    }

    /** `visit_WhileStmt` at unrolling depth `depth`: the exit state first,
        then, below the depth bound, every live state the body produces goes
        round the loop again. */
    method VisitWhile(w: Stmt, st: SymState, depth: nat) returns (r: Result<seq<SymState>>)
      requires w.WhileStmt? && depth <= MaxDepth
      modifies this, st
      decreases w, 1, MaxDepth - depth, 3
      ensures var spec := SymWhile(solver, w, old(st.View()), depth, old(nextId));
              r.Ok? == spec.Ok? && (r.Ok? ==> Realizes(r.value, st, spec.value) && nextId == spec.value.next)
      ensures r.Ok? ==> Distinct(r.value) && forall i :: 0 <= i < |r.value| ==> r.value[i] == st || fresh(r.value[i])
    {
      var cond := SymB(w.cond, st.env);
      if cond.None? {
        return Fatal;
      }
      var trueSt, falseSt := st.Fork();
      trueSt.AddPc([cond.value]);
      falseSt.AddPc([Neg(cond.value)]);
      var states: seq<SymState> := [];
      var falseEmpty := falseSt.IsEmpty(solver);
      if !falseEmpty {
        states := states + [falseSt];
      }
      ghost var exitViews := if falseEmpty then [] else [falseSt.View()];
      ghost var tv := st.View();
      var loopStates := VisitWhileTrue(w, trueSt, depth);
      if loopStates.Fatal? {
        return Fatal;
      }
      ghost var l := WhileTrue(solver, w, tv, depth, old(nextId)).value;
      assert forall x :: 0 <= x < |states| ==> states[x] != st;
      assert forall x, y :: 0 <= x < |states| && 0 <= y < |loopStates.value| ==> states[x] != loopStates.value[y];
      MergeRealizes(states, loopStates.value, st, SymRes(exitViews, tv, None, old(nextId)), l, true);
      DistinctAppend(states, loopStates.value);
      FreshAppend(states, loopStates.value, st);
      r := Ok(states + loopStates.value);
    }

    /** The part of `visit_WhileStmt` on the state with `cond`. */
    method VisitWhileTrue(w: Stmt, st: SymState, depth: nat) returns (r: Result<seq<SymState>>)
      requires w.WhileStmt? && depth <= MaxDepth
      modifies this, st
      decreases w, 1, MaxDepth - depth, 2
      ensures var spec := WhileTrue(solver, w, old(st.View()), depth, old(nextId));
              r.Ok? == spec.Ok? && (r.Ok? ==> Realizes(r.value, st, spec.value) && nextId == spec.value.next)
      ensures r.Ok? ==> Distinct(r.value) && forall i :: 0 <= i < |r.value| ==> r.value[i] == st || fresh(r.value[i])
    {
      var empty := st.IsEmpty(solver);
      if empty || depth >= MaxDepth {
        return Ok([]);
      }
      var body := Visit(w.body, st);
      if body.Fatal? {
        return Fatal;
      }
      ghost var b := SymRun(solver, w.body, old(st.View()), old(nextId)).value;
      ghost var q;
      r, q := VisitWhileEach(w, st, depth, body.value, b);
    }

    /** The inner `for` loop of `visit_WhileStmt`: every state the body left
        goes round the loop one level deeper, in order, and the results are
        concatenated. */
    method VisitWhileEach(w: Stmt, st: SymState, depth: nat, us: seq<SymState>, ghost b: SymRes)
      returns (r: Result<seq<SymState>>, ghost q: SymRes)
      requires w.WhileStmt? && depth < MaxDepth
      requires Realizes(us, st, b) && nextId == b.next && Distinct(us)
      modifies this, set i | 0 <= i < |us| :: us[i]
      decreases w, 1, MaxDepth - depth, 1
      ensures var spec := WhileEach(solver, w, b.outs, |b.outs|, b.at, depth, b.self, b.next);
              r.Ok? == spec.Ok? && (r.Ok? ==> spec.value == q && Realizes(r.value, st, q) && nextId == q.next)
      ensures r.Ok? ==> Distinct(r.value) && forall i :: 0 <= i < |r.value| ==> r.value[i] in us || fresh(r.value[i])
    {
      var states: seq<SymState> := [];
      q := SymRes([], b.self, None, b.next);
      var j := 0;
      while j < |us|
        invariant 0 <= j <= |us|
        invariant WhileEach(solver, w, b.outs, j, b.at, depth, b.self, b.next) == Ok(q)
        invariant Realizes(states, st, q) && nextId == q.next
        invariant MirrorsFrom(us, b.outs, j)
        invariant Distinct(states) && DisjointFrom(states, us, j)
        invariant forall i :: 0 <= i < |states| ==> states[i] in us[..j] || fresh(states[i])
      {
        var res;
        res, q := VisitWhileStep(w, st, depth, us, j, states, b, q);
        if res.Fatal? {
          return Fatal, q;
        }
        states := res.value;
        j := j + 1;
      }
      r := Ok(states);
    }

    /** One round of the inner loop of `visit_WhileStmt`: `us[j]`, if its
        path is satisfiable, goes round the loop one level deeper and the
        results are appended to `states`. */
    method VisitWhileStep(w: Stmt, st: SymState, depth: nat, us: seq<SymState>, j: nat, states: seq<SymState>,
                          ghost b: SymRes, ghost cur: SymRes) returns (r: Result<seq<SymState>>, ghost cur': SymRes)
      requires w.WhileStmt? && depth < MaxDepth
      requires j < |us| == |b.outs| && AtIs(us, st, b.at) && Distinct(us)
      requires WhileEach(solver, w, b.outs, j, b.at, depth, b.self, b.next) == Ok(cur)
      requires Realizes(states, st, cur) && nextId == cur.next && Distinct(states)
      requires MirrorsFrom(us, b.outs, j) && DisjointFrom(states, us, j)
      modifies this, us[j]
      decreases w, 1, MaxDepth - depth, 0
      ensures r.Fatal? ==> WhileEach(solver, w, b.outs, |b.outs|, b.at, depth, b.self, b.next).Fatal?
      ensures r.Ok? ==> WhileEach(solver, w, b.outs, j + 1, b.at, depth, b.self, b.next) == Ok(cur')
      ensures r.Ok? ==> Realizes(r.value, st, cur') && nextId == cur'.next && Distinct(r.value)
      ensures r.Ok? ==> MirrorsFrom(us, b.outs, j + 1) && DisjointFrom(r.value, us, j + 1)
      ensures r.Ok? ==> |states| <= |r.value| && r.value[..|states|] == states
      ensures r.Ok? ==> forall i :: |states| <= i < |r.value| ==> r.value[i] == us[j] || fresh(r.value[i])
    {
      var u := us[j];
      var uEmpty := u.IsEmpty(solver);
      if uEmpty {
        return Ok(states), cur;
      }
      var loopStates := VisitWhile(w, u, depth + 1);
      if loopStates.Fatal? {
        WhileEachFatal(solver, w, b.outs, j + 1, b.at, depth, b.self, b.next);
        return Fatal, cur;
      }
      ghost var l := SymWhile(solver, w, b.outs[j], depth + 1, cur.next).value;
      ghost var mine := b.at == Some(j);
      assert mine <==> u == st;
      MergeRealizes(states, loopStates.value, st, cur, l, mine);
      DistinctAppend(states, loopStates.value);
      cur' := Merge(cur, l, mine);
      r := Ok(states + loopStates.value);
    }

    /** `visit_StmtList`: each statement in turn is applied to every state,
        in order, and the results are concatenated. */
    method VisitList(s: Stmt, st: SymState) returns (r: Result<seq<SymState>>)
      requires s.StmtList?
      modifies this, st
      decreases s, 1, 0, 0
      ensures var spec := SymList(solver, s, |s.stmts|, old(st.View()), old(nextId));
              r.Ok? == spec.Ok? && (r.Ok? ==> Realizes(r.value, st, spec.value) && nextId == spec.value.next)
      ensures r.Ok? ==> Distinct(r.value) && forall i :: 0 <= i < |r.value| ==> r.value[i] == st || fresh(r.value[i])
    {
      var states := [st];
      ghost var cur := SymRes([st.View()], st.View(), Some(0), nextId);
      var k := 0;
      while k < |s.stmts|
        invariant 0 <= k <= |s.stmts|
        invariant SymList(solver, s, k, old(st.View()), old(nextId)) == Ok(cur)
        invariant Realizes(states, st, cur) && nextId == cur.next
        invariant Distinct(states)
        invariant forall i :: 0 <= i < |states| ==> states[i] == st || fresh(states[i])
      {
        var res;
        ghost var q;
        res, q := VisitEach(s.stmts[k], st, states, cur);
        if res.Fatal? {
          SymListFatal(solver, s, k + 1, |s.stmts|, old(st.View()), old(nextId));
          return Fatal;
        }
        states := res.value;
        cur := q;
        k := k + 1;
      }
      r := Ok(states);
    }

    /** The inner `for` loop of `visit_StmtList`: the statement is visited
        on every state in order, and the results are concatenated. */
    method VisitEach(t: Stmt, st: SymState, states: seq<SymState>, ghost p: SymRes)
      returns (r: Result<seq<SymState>>, ghost q: SymRes)
      requires Realizes(states, st, p) && nextId == p.next && Distinct(states)
      modifies this, set i | 0 <= i < |states| :: states[i]
      decreases t, 4, 0, 0
      ensures var spec := ListStep(solver, t, p.outs, |p.outs|, p.at, p.self, p.next);
              r.Ok? == spec.Ok? && (r.Ok? ==> spec.value == q && Realizes(r.value, st, q) && nextId == q.next)
      ensures r.Ok? ==> Distinct(r.value) && forall i :: 0 <= i < |r.value| ==> r.value[i] in states || fresh(r.value[i])
    {
      var newStates: seq<SymState> := [];
      q := SymRes([], p.self, None, p.next);
      var j := 0;
      while j < |states|
        invariant 0 <= j <= |states|
        invariant ListStep(solver, t, p.outs, j, p.at, p.self, p.next) == Ok(q)
        invariant Realizes(newStates, st, q) && nextId == q.next
        invariant MirrorsFrom(states, p.outs, j)
        invariant Distinct(newStates) && DisjointFrom(newStates, states, j)
        invariant forall i :: 0 <= i < |newStates| ==> newStates[i] in states[..j] || fresh(newStates[i])
      {
        var res;
        res, q := VisitEachStep(t, st, states, j, newStates, p, q);
        if res.Fatal? {
          return Fatal, q;
        }
        newStates := res.value;
        j := j + 1;
      }
      r := Ok(newStates);
    }

    /** One round of the inner loop of `visit_StmtList`: the statement is
        visited on `states[j]` and its results are appended to `newStates`. */
    method VisitEachStep(t: Stmt, st: SymState, states: seq<SymState>, j: nat, newStates: seq<SymState>,
                         ghost p: SymRes, ghost cur: SymRes) returns (r: Result<seq<SymState>>, ghost cur': SymRes)
      requires j < |states| == |p.outs| && AtIs(states, st, p.at) && Distinct(states)
      requires ListStep(solver, t, p.outs, j, p.at, p.self, p.next) == Ok(cur)
      requires Realizes(newStates, st, cur) && nextId == cur.next && Distinct(newStates)
      requires MirrorsFrom(states, p.outs, j) && DisjointFrom(newStates, states, j)
      modifies this, states[j]
      decreases t, 3, 0, 0
      ensures r.Fatal? ==> ListStep(solver, t, p.outs, |p.outs|, p.at, p.self, p.next).Fatal?
      ensures r.Ok? ==> ListStep(solver, t, p.outs, j + 1, p.at, p.self, p.next) == Ok(cur')
      ensures r.Ok? ==> Realizes(r.value, st, cur') && nextId == cur'.next && Distinct(r.value)
      ensures r.Ok? ==> MirrorsFrom(states, p.outs, j + 1) && DisjointFrom(r.value, states, j + 1)
      ensures r.Ok? ==> |newStates| <= |r.value| && r.value[..|newStates|] == newStates
      ensures r.Ok? ==> forall i :: |newStates| <= i < |r.value| ==> r.value[i] == states[j] || fresh(r.value[i])
    {
      var x := states[j];
      var res := Visit(t, x);
      if res.Fatal? {
        ListStepFatal(solver, t, p.outs, j + 1, p.at, p.self, p.next);
        return Fatal, cur;
      }
      ghost var rr := SymRun(solver, t, p.outs[j], cur.next).value;
      ghost var mine := p.at == Some(j);
      assert mine <==> x == st;
      MergeRealizes(newStates, res.value, st, cur, rr, mine);
      DistinctAppend(newStates, res.value);
      cur' := Merge(cur, rr, mine);
      r := Ok(newStates + res.value);
    }
  }
}
