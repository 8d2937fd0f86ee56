/** The concolic state and executor (wlang/exe.py): an `ExeState` pairs a
    concrete environment with a `SymState`, and `ExeExec` drives the
    symbolic visitor of module Sym and the concrete interpreter side by
    side. Every visitor is proved to produce what module ExeSpec says. */
module Exe {
  import opened Wrappers
  import opened Ast
  import opened Smt
  import opened Interp
  import opened SymExpr
  import opened SymSpec
  import opened Sym
  import opened ExeSpec

  /** `ExeState`. */
  class ExeState {
    var con: CEnv
    /** The symbolic state. The visitors only ever assign it the object it
        already holds (`visit(...)[0]` of an assignment or a havoc is the
        received state), so it is fixed when the state is made. */
    const sym: SymState
    var infeasible: bool
    var error: bool

    constructor ()
      ensures fresh(sym) && View() == ExeView(map[], SymView(map[], [], false), false, false)
    {
      con := map[];
      sym := new SymState();
      infeasible := false;
      error := false;
    }

    /** `ExeState()` followed by assignments to both components, as the
        visitor of `if` builds its results. */
    constructor Of(con: CEnv, sym: SymState)
      ensures this.con == con && this.sym == sym && !infeasible && !error
    {
      this.con := con;
      this.sym := sym;
      infeasible := false;
      error := false;
    }

    ghost function View(): ExeView
      reads this, sym
    {
      ExeView(con, sym.View(), infeasible, error)
    }

    /** `fork()`: returns this very object as the first component and a new
        state that copies the concrete environment and the symbolic state,
        error flag included. */
    method Fork() returns (parent: ExeState, child: ExeState)
      ensures parent == this && fresh(child) && fresh(child.sym)
      ensures child.View() == ExeForkChild(View())
    {
      child := new ExeState();
      child.con := con;
      child.sym.env := sym.env;
      child.sym.AddPc(sym.path);
      if sym.isError {
        child.sym.MkError();
      }
      parent := this;
    }

    /** `mk_infeasable()`. */
    method MkInfeasible()
      modifies this
      ensures View() == old(View()).(infeasible := true)
    {
      infeasible := true;
    }

    /** `mk_error()`. */
    method MkError()
      modifies this
      ensures View() == old(View()).(error := true)
    {
      error := true;
    }

    /** `is_valid()`. */
    function IsValid(): (valid: bool)
      reads this, sym
      ensures valid <==> Valid(View())
    {
      !(infeasible || error || sym.isError)
    }
  }

  /** A copy of a symbolic state (the symbolic half of `copy.deepcopy`). */
  method CopySym(s: SymState) returns (c: SymState)
    ensures fresh(c) && c.View() == s.View()
  {
    c := new SymState();
    c.env := s.env;
    c.path := s.path;
    c.isError := s.isError;
  }

  /** `_pick_concrete(state)`: copies the values of the state the symbolic
      state picks into a new dictionary; `pick_concerete()` returning `None`
      makes `.env` raise. */
  method PickConcreteEnv(solver: Solver, s: SymState) returns (r: Result<CEnv>)
    ensures r == PickCon(solver, s.View())
  {
    var picked := s.PickConcrete(solver);
    if picked.None? {
      return Fatal;
    }
    var env := picked.value;
    var conEnv: CEnv := map[];
    var todo := env.Keys;
    while todo != {}
      invariant todo <= env.Keys
      invariant conEnv.Keys == env.Keys - todo
      invariant forall k :: k in conEnv ==> conEnv[k] == env[k]
      decreases todo
    {
      var k :| k in todo;
      conEnv := conEnv[k := env[k]];
      todo := todo - {k};
    }
    assert conEnv == env;
    r := Ok(conEnv);
  }

  /** `state.env = _pick_concrete(state.sym_state)` on a state whose path
      is known to be satisfiable. */
  method SetModel(solver: Solver, x: ExeState)
    requires solver.check(x.sym.path)
    modifies x
    ensures x.View() == old(x.View()).(con := EnvModel(x.sym.env, solver.model(x.sym.path)))
  {
    var picked := PickConcreteEnv(solver, x.sym);
    x.con := picked.value;
  }

  /** The states of a result list hold the given contents, in order. */
  ghost predicate ExeMirrors(ss: seq<ExeState>, vs: seq<ExeView>)
    reads set x | x in ss, set x | x in ss :: x.sym
  {
    |ss| == |vs| && forall i :: 0 <= i < |ss| ==> ss[i].View() == vs[i]
  }

  /** The states of `ss` from position `j` on hold the contents `vs` has at
      the same positions. */
  ghost predicate ExeMirrorsFrom(ss: seq<ExeState>, vs: seq<ExeView>, j: nat)
    reads set k | j <= k < |ss| :: ss[k], set k | j <= k < |ss| :: ss[k].sym
  {
    |ss| == |vs| && forall k :: j <= k < |ss| ==> ss[k].View() == vs[k]
  }

  /** No two states of the list share a symbolic state (and so no two are
      the same object). */
  ghost predicate DistinctSyms(ss: seq<ExeState>) {
    forall i, j :: 0 <= i < j < |ss| ==> ss[i].sym != ss[j].sym
  }

  /** No state of `a` shares its symbolic state with a state of `ss` from
      position `j` on. */
  ghost predicate DisjointSymsFrom(a: seq<ExeState>, ss: seq<ExeState>, j: nat) {
    forall i, k :: 0 <= i < |a| && j <= k < |ss| ==> a[i].sym != ss[k].sym
  }

  /** Each state of `ss`, and its symbolic state, is either the one of
      `states[src[i]]` or new. */
  twostate predicate Sourced(new ss: seq<ExeState>, states: seq<ExeState>, src: seq<nat>) {
    && |src| == |ss|
    && forall i :: 0 <= i < |ss| ==>
         && src[i] < |states|
         && (ss[i] == states[src[i]] || fresh(ss[i]))
         && (ss[i].sym == states[src[i]].sym || fresh(ss[i].sym))
  }

  lemma ConcatMirrors(a: seq<ExeState>, b: seq<ExeState>, va: seq<ExeView>, vb: seq<ExeView>)
    requires ExeMirrors(a, va) && ExeMirrors(b, vb)
    ensures ExeMirrors(a + b, va + vb)
  {
    forall i | 0 <= i < |a + b| ensures (a + b)[i].View() == (va + vb)[i] {
      if i < |a| { assert (a + b)[i] == a[i]; } else { assert (a + b)[i] == b[i - |a|]; }
    }
  }

  lemma DistinctSymsAppend(a: seq<ExeState>, b: seq<ExeState>)
    requires DistinctSyms(a) && DistinctSyms(b)
    requires forall i, j :: 0 <= i < |a| && 0 <= j < |b| ==> a[i].sym != b[j].sym
    ensures DistinctSyms(a + b)
  {
    forall i, j | 0 <= i < j < |a + b| ensures (a + b)[i].sym != (a + b)[j].sym {
      if j < |a| {
        assert (a + b)[i] == a[i] && (a + b)[j] == a[j];
      } else if i < |a| {
        assert (a + b)[i] == a[i] && (a + b)[j] == b[j - |a|];
      } else {
        assert (a + b)[i] == b[i - |a|] && (a + b)[j] == b[j - |a|];
      }
    }
  }

  /** `zip([con], syms)` made into new states and then deep-copied: at most
      one state, with a copy of the first symbolic state. */
  method CopyFirst(con: CEnv, syms: seq<SymState>, ghost vs: seq<SymView>) returns (outs: seq<ExeState>)
    requires Mirrors(syms, vs)
    ensures ExeMirrors(outs, Zip1(con, vs))
    ensures forall i :: 0 <= i < |outs| ==> fresh(outs[i]) && fresh(outs[i].sym)
  {
    if |syms| == 0 {
      return [];
    }
    var copy := CopySym(syms[0]);
    var e := new ExeState.Of(con, copy);
    outs := [e];
  }

  /** `zip([con], syms)` made into new states without copying: at most one
      state, holding the first symbolic state itself. */
  method PairFirst(con: CEnv, syms: seq<SymState>, ghost vs: seq<SymView>) returns (outs: seq<ExeState>)
    requires Mirrors(syms, vs)
    ensures ExeMirrors(outs, Zip1(con, vs))
    ensures |outs| <= 1 && forall i :: 0 <= i < |outs| ==> fresh(outs[i]) && outs[i].sym == syms[0]
  {
    if |syms| == 0 {
      return [];
    }
    var e := new ExeState.Of(con, syms[0]);
    outs := [e];
  }

  /** `ExeExec`: the symbolic visitor, whose counter stands for
      `z3.FreshInt`, and the concrete interpreter. */
  class ExeExec {
    const symv: SymExec
    const con: Concrete

    constructor (solver: Solver, con: Concrete, firstId: nat)
      ensures fresh(symv) && symv.solver == solver && symv.nextId == firstId && this.con == con
    {
      symv := new SymExec(solver, firstId);
      this.con := con;
    }

    /** `run(ast, state)`. */
    method Run(s: Stmt, st: ExeState) returns (r: Result<seq<ExeState>>)
      modifies symv, st, st.sym
      ensures var spec := ExeRun(symv.solver, con, s, old(st.View()), old(symv.nextId));
              r.Ok? == spec.Ok? && (r.Ok? ==> ExeMirrors(r.value, spec.value.outs) && symv.nextId == spec.value.next)
      ensures r.Ok? ==> DistinctSyms(r.value)
      ensures r.Ok? ==> forall i :: 0 <= i < |r.value| ==>
                (r.value[i] == st || fresh(r.value[i])) && (r.value[i].sym == st.sym || fresh(r.value[i].sym))
    {
      r := Visit(s, st);
      if r.Ok? && |r.value| == 0 {
        r := Ok([]);
      }
    }

    /** `visit(s, state=st)`: dispatch on the statement kind. The loop
        visitor is a stub returning `None`, on which every caller raises. */
    method Visit(s: Stmt, st: ExeState) returns (r: Result<seq<ExeState>>)
      modifies symv, st, st.sym
      decreases s, 1
      ensures var spec := ExeRun(symv.solver, con, s, old(st.View()), old(symv.nextId));
              r.Ok? == spec.Ok? && (r.Ok? ==> ExeMirrors(r.value, spec.value.outs) && symv.nextId == spec.value.next)
      ensures r.Ok? ==> DistinctSyms(r.value)
      ensures r.Ok? ==> forall i :: 0 <= i < |r.value| ==>
                (r.value[i] == st || fresh(r.value[i])) && (r.value[i].sym == st.sym || fresh(r.value[i].sym))
    {
      match s
      case SkipStmt => r := Ok([st]);
      case PrintStateStmt => r := Ok([st]);
      case AsgnStmt(_, _) => r := VisitUpdate(s, st);
      case HavocStmt(_) => r := VisitUpdate(s, st);
      case AssumeStmt(_) => r := VisitAssume(s, st);
      case AssertStmt(_) => r := VisitAssert(s, st);
      case IfStmt(_, _, _) => r := VisitIf(s, st);
      case WhileStmt(_, _, _) => r := Fatal;
      case StmtList(_) => r := VisitList(s, st);
    }

    /** `visit_AsgnStmt` and `visit_HavocStmt`: the symbolic visitor updates
        the received symbolic state, the concrete interpreter gives the new
        concrete state. */
    method VisitUpdate(s: Stmt, st: ExeState) returns (r: Result<seq<ExeState>>)
      requires s.AsgnStmt? || s.HavocStmt?
      modifies symv, st, st.sym
      ensures var spec := ExeUpdate(symv.solver, con, s, old(st.View()), old(symv.nextId));
              r.Ok? == spec.Ok? && (r.Ok? ==> ExeMirrors(r.value, spec.value.outs) && symv.nextId == spec.value.next)
      ensures r.Ok? ==> r.value == [st]
    {
      if s.AsgnStmt? {
        var res := symv.VisitAsgn(s, st.sym);
        if res.Fatal? {
          return Fatal;
        }
      } else {
        var res := symv.VisitHavoc(s, st.sym);
      }
      var c := con.run(s, st.con);
      if c.None? {
        return Fatal;
      }
      st.con := c.value;
      r := Ok([st]);
    }

    /** `visit_AssumeStmt`. */
    method VisitAssume(s: Stmt, st: ExeState) returns (r: Result<seq<ExeState>>)
      requires s.AssumeStmt?
      modifies st, st.sym
      ensures var spec := ExeAssume(symv.solver, s.cond, old(st.View()), symv.nextId);
              r.Ok? == spec.Ok? && (r.Ok? ==> ExeMirrors(r.value, spec.value.outs) && symv.nextId == spec.value.next)
      ensures r.Ok? ==> r.value == [st]
    {
      var cond := SymB(s.cond, st.sym.env);
      if cond.None? {
        return Fatal;
      }
      st.sym.AddPc([cond.value]);
      var empty := st.sym.IsEmpty(symv.solver);
      if !empty {
        SetModel(symv.solver, st);
      } else {
        st.MkInfeasible();
      }
      r := Ok([st]);
    }

    /** `visit_AssertStmt`. */
    method VisitAssert(s: Stmt, st: ExeState) returns (r: Result<seq<ExeState>>)
      requires s.AssertStmt?
      modifies st, st.sym
      ensures var spec := ExeAssert(symv.solver, s.cond, old(st.View()), symv.nextId);
              r.Ok? == spec.Ok? && (r.Ok? ==> ExeMirrors(r.value, spec.value.outs) && symv.nextId == spec.value.next)
      ensures r.Ok? ==> DistinctSyms(r.value)
      ensures r.Ok? ==> forall i :: 0 <= i < |r.value| ==>
                (r.value[i] == st || fresh(r.value[i])) && (r.value[i].sym == st.sym || fresh(r.value[i].sym))
    {
      ghost var v := st.View();
      var b := CEvalB(s.cond, st.con);
      if b.None? {
        return Fatal;
      }
      var cond := SymB(s.cond, st.sym.env);
      if cond.None? {
        return Fatal;
      }
      var passed, failed := st.Fork();
      passed.sym.AddPc([cond.value]);
      failed.sym.AddPc([Neg(cond.value)]);
      var outs := AssertOutcome(passed, failed, b.value, cond.value, v);
      r := Ok(outs);
    }

    /** The part of `visit_AssertStmt` after the fork: the solver decides
        whether both forks are returned, each with a model of its path, or
        the concrete value picks one. */
    method AssertOutcome(passed: ExeState, failed: ExeState, b: bool, t: BTerm, ghost v: ExeView)
      returns (outs: seq<ExeState>)
      requires failed != passed && failed.sym != passed.sym
      requires passed.View() == v.(sym := WithPc(v.sym, t))
      requires failed.View() == ExeForkChild(v).(sym := WithPc(v.sym, Neg(t)))
      modifies passed, failed
      ensures ExeMirrors(outs, AssertForks(symv.solver, b, v, t)) && DistinctSyms(outs)
      ensures forall i :: 0 <= i < |outs| ==> outs[i] == passed || outs[i] == failed
    {
      var passedEmpty := passed.sym.IsEmpty(symv.solver);
      var failedEmpty := failed.sym.IsEmpty(symv.solver);
      if !(passedEmpty || failedEmpty) {
        SetModel(symv.solver, passed);
        SetModel(symv.solver, failed);
        failed.MkError();
        return [passed, failed];
      }
      if b {
        outs := [passed];
      } else {
        passed.MkError();
        outs := [failed];
      }
    }

    /** `visit_IfStmt`: evaluates the condition on both sides, forks, and
        lets the concrete value choose the order of the branches. */
    method VisitIf(s: Stmt, st: ExeState) returns (r: Result<seq<ExeState>>)
      requires s.IfStmt?
      modifies symv, st, st.sym
      ensures var spec := ExeIf(symv.solver, con, s, old(st.View()), old(symv.nextId));
              r.Ok? == spec.Ok? && (r.Ok? ==> ExeMirrors(r.value, spec.value.outs) && symv.nextId == spec.value.next)
      ensures r.Ok? ==> DistinctSyms(r.value)
      ensures r.Ok? ==> forall i :: 0 <= i < |r.value| ==>
                fresh(r.value[i]) && (r.value[i].sym == st.sym || fresh(r.value[i].sym))
    {
      ghost var v := st.View();
      var b := CEvalB(s.cond, st.con);
      if b.None? {
        return Fatal;
      }
      var cond := SymB(s.cond, st.sym.env);
      if cond.None? {
        return Fatal;
      }
      var passed, failed := st.Fork();
      passed.sym.AddPc([cond.value]);
      failed.sym.AddPc([Neg(cond.value)]);
      if b.value {
        r := IfTrue(s, st, failed, cond.value, v);
      } else {
        r := IfFalse(s, st, cond.value, v);
      }
    }

    /** The concrete condition holds: then-branch first, its results copied,
        then the else-branch on the failed fork. */
    method IfTrue(s: Stmt, st: ExeState, failed: ExeState, t: BTerm, ghost v: ExeView) returns (r: Result<seq<ExeState>>)
      requires s.IfStmt? && failed != st && failed.sym != st.sym
      requires st.View() == v.(sym := WithPc(v.sym, t))
      requires failed.View() == ExeView(v.con, WithPc(v.sym, Neg(t)), false, false)
      modifies symv, st.sym, failed, failed.sym
      ensures var spec := IfConTrue(symv.solver, con, s, v, t, old(symv.nextId));
              r.Ok? == spec.Ok? && (r.Ok? ==> ExeMirrors(r.value, spec.value.outs) && symv.nextId == spec.value.next)
      ensures r.Ok? ==> DistinctSyms(r.value)
      ensures r.Ok? ==> forall i :: 0 <= i < |r.value| ==>
                fresh(r.value[i]) && (r.value[i].sym == failed.sym || fresh(r.value[i].sym))
    {
      var ct := con.run(s.thenStmt, st.con);
      if ct.None? {
        return Fatal;
      }
      var th := symv.Visit(s.thenStmt, st.sym);
      if th.Fatal? {
        return Fatal;
      }
      ghost var thr := SymRun(symv.solver, s.thenStmt, WithPc(v.sym, t), old(symv.nextId)).value;
      var outs := CopyFirst(ct.value, th.value, thr.outs);
      var failedEmpty := failed.sym.IsEmpty(symv.solver);
      if !failedEmpty && s.elseStmt.Some? {
        ghost var n1 := symv.nextId;
        var el := RunOnModel(s.elseStmt.value, failed);
        if el.Fatal? {
          return Fatal;
        }
        ghost var elr := OnModel(symv.solver, con, s.elseStmt.value, WithPc(v.sym, Neg(t)), n1).value;
        st.sym.AddPc([Neg(t)]);
        var more := PairFirst(el.value.0, el.value.1, elr.1.outs);
        ConcatMirrors(outs, more, Zip1(ct.value, thr.outs), Zip1(elr.0, elr.1.outs));
        DistinctSymsAppend(outs, more);
        outs := outs + more;
      }
      r := Ok(outs);
    }

    /** The concrete condition fails: else-branch first, its results copied,
        then the then-branch on the received state as the else-branch left
        it, which finally gets `Not cond` appended. */
    method IfFalse(s: Stmt, st: ExeState, t: BTerm, ghost v: ExeView) returns (r: Result<seq<ExeState>>)
      requires s.IfStmt?
      requires st.View() == v.(sym := WithPc(v.sym, t))
      modifies symv, st, st.sym
      ensures var spec := IfConFalse(symv.solver, con, s, v, t, old(symv.nextId));
              r.Ok? == spec.Ok? && (r.Ok? ==> ExeMirrors(r.value, spec.value.outs) && symv.nextId == spec.value.next)
      ensures r.Ok? ==> DistinctSyms(r.value)
      ensures r.Ok? ==> forall i :: 0 <= i < |r.value| ==>
                fresh(r.value[i]) && (r.value[i].sym == st.sym || fresh(r.value[i].sym))
    {
      if s.elseStmt.None? {
        return Fatal;
      }
      var ce := con.run(s.elseStmt.value, st.con);
      if ce.None? {
        return Fatal;
      }
      var el := symv.Visit(s.elseStmt.value, st.sym);
      if el.Fatal? {
        return Fatal;
      }
      ghost var elr := SymRun(symv.solver, s.elseStmt.value, WithPc(v.sym, t), old(symv.nextId)).value;
      var outs := CopyFirst(ce.value, el.value, elr.outs);
      var passedEmpty := st.sym.IsEmpty(symv.solver);
      if !passedEmpty {
        ghost var n1 := symv.nextId;
        var th := RunOnModel(s.thenStmt, st);
        if th.Fatal? {
          return Fatal;
        }
        ghost var thr := OnModel(symv.solver, con, s.thenStmt, elr.self, n1).value;
        st.sym.AddPc([Neg(t)]);
        LateNegMirrors(th.value.1, st.sym, thr.1, t);
        var more := PairFirst(th.value.0, th.value.1, NegLate(thr.1, t));
        ConcatMirrors(outs, more, Zip1(ce.value, elr.outs), Zip1(thr.0, NegLate(thr.1, t)));
        DistinctSymsAppend(outs, more);
        outs := outs + more;
      }
      r := Ok(outs);
    }

    /** The second branch of `visit_IfStmt`: the state gets a model of its
        path as concrete state, the branch runs on that and, symbolically, on
        the state's own symbolic state. */
    method RunOnModel(b: Stmt, x: ExeState) returns (r: Result<(CEnv, seq<SymState>)>)
      requires symv.solver.check(x.sym.path)
      modifies symv, x, x.sym
      ensures var spec := OnModel(symv.solver, con, b, old(x.sym.View()), old(symv.nextId));
              r.Ok? == spec.Ok? &&
              (r.Ok? ==> r.value.0 == spec.value.0 && Realizes(r.value.1, x.sym, spec.value.1) && symv.nextId == spec.value.1.next)
      ensures r.Ok? ==> Distinct(r.value.1) && forall i :: 0 <= i < |r.value.1| ==> r.value.1[i] == x.sym || fresh(r.value.1[i])
    {
      SetModel(symv.solver, x);
      var cb := con.run(b, x.con);
      if cb.None? {
        return Fatal;
      }
      var res := symv.Visit(b, x.sym);
      if res.Fatal? {
        return Fatal;
      }
      r := Ok((cb.value, res.value));
    }

    /** `visit_StmtList`: each statement in turn is applied to every state,
        in order; invalid states are passed on untouched. */
    method VisitList(s: Stmt, st: ExeState) returns (r: Result<seq<ExeState>>)
      requires s.StmtList?
      modifies symv, st, st.sym
      decreases s, 0
      ensures var spec := ExeList(symv.solver, con, s, |s.stmts|, [old(st.View())], old(symv.nextId));
              r.Ok? == spec.Ok? && (r.Ok? ==> ExeMirrors(r.value, spec.value.outs) && symv.nextId == spec.value.next)
      ensures r.Ok? ==> DistinctSyms(r.value)
      ensures r.Ok? ==> forall i :: 0 <= i < |r.value| ==>
                (r.value[i] == st || fresh(r.value[i])) && (r.value[i].sym == st.sym || fresh(r.value[i].sym))
    {
      var states := [st];
      ghost var cur := ExeRes([st.View()], symv.nextId);
      var k := 0;
      while k < |s.stmts|
        invariant 0 <= k <= |s.stmts|
        invariant ExeList(symv.solver, con, s, k, [old(st.View())], old(symv.nextId)) == Ok(cur)
        invariant ExeMirrors(states, cur.outs) && symv.nextId == cur.next
        invariant DistinctSyms(states)
        invariant forall i :: 0 <= i < |states| ==>
                    (states[i] == st || fresh(states[i])) && (states[i].sym == st.sym || fresh(states[i].sym))
      {
        var res;
        ghost var src;
        res, src := VisitEach(s.stmts[k], states, cur.outs);
        if res.Fatal? {
          ExeListFatal(symv.solver, con, s, k + 1, |s.stmts|, [old(st.View())], old(symv.nextId));
          return Fatal;
        }
        cur := ExeEach(symv.solver, con, s.stmts[k], cur.outs, |cur.outs|, cur.next).value;
        states := res.value;
        k := k + 1;
      }
      r := Ok(states);
    }

    /** One statement of a list applied to each state of `states` in turn,
        the results concatenated. */
    method VisitEach(t: Stmt, states: seq<ExeState>, ghost vs: seq<ExeView>)
      returns (r: Result<seq<ExeState>>, ghost src: seq<nat>)
      requires ExeMirrors(states, vs) && DistinctSyms(states)
      modifies symv, set i | 0 <= i < |states| :: states[i], set i | 0 <= i < |states| :: states[i].sym
      decreases t, 3
      ensures var spec := ExeEach(symv.solver, con, t, vs, |vs|, old(symv.nextId));
              r.Ok? == spec.Ok? && (r.Ok? ==> ExeMirrors(r.value, spec.value.outs) && symv.nextId == spec.value.next)
      ensures r.Ok? ==> DistinctSyms(r.value)
      ensures r.Ok? ==> Sourced(r.value, states, src)
    {
      var newStates: seq<ExeState> := [];
      src := [];
      ghost var cur := ExeRes([], symv.nextId);
      var j := 0;
      while j < |states|
        invariant 0 <= j <= |states|
        invariant ExeEach(symv.solver, con, t, vs, j, old(symv.nextId)) == Ok(cur)
        invariant ExeMirrors(newStates, cur.outs) && symv.nextId == cur.next
        invariant ExeMirrorsFrom(states, vs, j)
        invariant DistinctSyms(newStates) && DisjointSymsFrom(newStates, states, j)
        invariant Sourced(newStates, states, src)
      {
        var res;
        res, cur := VisitEachStep(t, states, j, newStates, vs, old(symv.nextId), cur);
        if res.Fatal? {
          ExeEachFatal(symv.solver, con, t, vs, j + 1, |vs|, old(symv.nextId));
          return Fatal, src;
        }
        src := src + seq(|res.value| - |newStates|, _ => j);
        newStates := res.value;
        j := j + 1;
      }
      r := Ok(newStates);
    }

    /** One round of the inner loop of `visit_StmtList`: `states[j]` is
        visited if it is valid and passed on otherwise. */
    method VisitEachStep(t: Stmt, states: seq<ExeState>, j: nat, newStates: seq<ExeState>,
                         ghost vs: seq<ExeView>, ghost n0: nat, ghost cur: ExeRes)
      returns (r: Result<seq<ExeState>>, ghost cur': ExeRes)
      requires j < |states| == |vs| && DistinctSyms(states)
      requires ExeEach(symv.solver, con, t, vs, j, n0) == Ok(cur)
      requires ExeMirrors(newStates, cur.outs) && symv.nextId == cur.next && DistinctSyms(newStates)
      requires ExeMirrorsFrom(states, vs, j) && DisjointSymsFrom(newStates, states, j)
      modifies symv, states[j], states[j].sym
      decreases t, 2
      ensures r.Fatal? ==> ExeEach(symv.solver, con, t, vs, j + 1, n0).Fatal?
      ensures r.Ok? ==> ExeEach(symv.solver, con, t, vs, j + 1, n0) == Ok(cur')
      ensures r.Ok? ==> ExeMirrors(r.value, cur'.outs) && symv.nextId == cur'.next && DistinctSyms(r.value)
      ensures r.Ok? ==> ExeMirrorsFrom(states, vs, j + 1) && DisjointSymsFrom(r.value, states, j + 1)
      ensures r.Ok? ==> |newStates| <= |r.value| && r.value[..|newStates|] == newStates
      ensures r.Ok? ==> forall i :: |newStates| <= i < |r.value| ==>
                (r.value[i] == states[j] || fresh(r.value[i])) && (r.value[i].sym == states[j].sym || fresh(r.value[i].sym))
    {
      var x := states[j];
      var valid := x.IsValid();
      if !valid {
        cur' := ExeRes(cur.outs + [vs[j]], cur.next);
        ConcatMirrors(newStates, [x], cur.outs, [vs[j]]);
        DistinctSymsAppend(newStates, [x]);
        return Ok(newStates + [x]), cur';
      }
      var res := Visit(t, x);
      if res.Fatal? {
        return Fatal, cur;
      }
      ghost var rr := ExeRun(symv.solver, con, t, vs[j], cur.next).value;
      cur' := ExeRes(cur.outs + rr.outs, rr.next);
      ConcatMirrors(newStates, res.value, cur.outs, rr.outs);
      DistinctSymsAppend(newStates, res.value);
      r := Ok(newStates + res.value);
    }
  }

  /** After `add_pc(Not(cond))` on the visited symbolic state, the
      then-results hold what `NegLate` says. */
  lemma LateNegMirrors(ss: seq<SymState>, st: SymState, th: SymRes, t: BTerm)
    requires AtIs(ss, st, th.at) && |ss| == |th.outs|
    requires st.View() == WithPc(th.self, Neg(t))
    requires forall i :: 0 <= i < |ss| && ss[i] != st ==> ss[i].View() == th.outs[i]
    ensures Mirrors(ss, NegLate(th, t))
  {
  }
}
