/** Properties of the concolic executor, proved about the functions of
    module ExeSpec that the visitors of module Exe are proved to follow. */
module ExeProps {
  import opened Wrappers
  import opened Ast
  import opened Smt
  import opened Interp
  import opened SymExpr
  import opened SymSpec
  import opened SymProps
  import opened ExeSpec

  /** The concrete environment of the state is a witness of its symbolic
      state: the evaluation of the symbolic environment under some model of
      the path condition. This is what keeps the two halves of a concolic
      state in step. */
  ghost predicate Witnessed(v: ExeView) {
    exists m: Model :: Holds(v.sym.path, m) && v.con == EnvModel(v.sym.env, m)
  }

  /** `assume` returns exactly one state, whose path is the received one with
      the condition appended and whose environment is unchanged. If that path
      is satisfiable the concrete environment becomes a model of it;
      otherwise the state is marked infeasible (not an error) and keeps its
      concrete environment. */
  lemma AssumeOne(sv: Solver, cond: BExp, v: ExeView, n: nat)
    requires Sound(sv) && SymB(cond, v.sym.env).Some?
    ensures var t := SymB(cond, v.sym.env).value;
            var r := ExeAssume(sv, cond, v, n);
            && r.Ok? && r.value.next == n && |r.value.outs| == 1
            && r.value.outs[0].sym == WithPc(v.sym, t)
            && r.value.outs[0].error == v.error
            && (Sat(v.sym.path + [t]) ==>
                  Witnessed(r.value.outs[0]) && r.value.outs[0].con.Keys == v.sym.env.Keys
                  && r.value.outs[0].infeasible == v.infeasible)
            && (!Sat(v.sym.path + [t]) ==> r.value.outs[0].infeasible && r.value.outs[0].con == v.con)
  {
    var t := SymB(cond, v.sym.env).value;
    var p := v.sym.path + [t];
    if Sat(p) {
      assert Holds(p, sv.model(p));
    }
  }

  /** `assert` returns one or two states. Two exactly when both forks are
      satisfiable: the passed fork, then the failed fork, each with a model
      of its own path as concrete environment, and only the failed one
      flagged as an error. With one satisfiable fork the concrete value
      decides: the passed fork with its flags, or the failed fork with
      both flags clear, because `mk_error` is applied to the passed one. */
  lemma AssertForksShape(sv: Solver, cond: BExp, v: ExeView, n: nat)
    requires Sound(sv) && CEvalB(cond, v.con).Some? && SymB(cond, v.sym.env).Some?
    ensures var b := CEvalB(cond, v.con).value;
            var t := SymB(cond, v.sym.env).value;
            var r := ExeAssert(sv, cond, v, n);
            && r.Ok? && r.value.next == n && 1 <= |r.value.outs| <= 2
            && (|r.value.outs| == 2 <==> Sat(v.sym.path + [t]) && Sat(v.sym.path + [Neg(t)]))
            && (|r.value.outs| == 2 ==>
                  && r.value.outs[0].sym == WithPc(v.sym, t)
                  && r.value.outs[1].sym == WithPc(v.sym, Neg(t))
                  && r.value.outs[0].error == v.error && r.value.outs[0].infeasible == v.infeasible
                  && r.value.outs[1].error && !r.value.outs[1].infeasible
                  && Witnessed(r.value.outs[0]) && Witnessed(r.value.outs[1]))
            && (|r.value.outs| == 1 ==>
                  && r.value.outs[0].sym == WithPc(v.sym, if b then t else Neg(t))
                  && r.value.outs[0].con == v.con
                  && (b ==> r.value.outs[0].error == v.error && r.value.outs[0].infeasible == v.infeasible)
                  && (!b ==> !r.value.outs[0].error && !r.value.outs[0].infeasible))
  {
    var t := SymB(cond, v.sym.env).value;
    var pp := v.sym.path + [t];
    var fp := v.sym.path + [Neg(t)];
    if Sat(pp) && Sat(fp) {
      assert Holds(pp, sv.model(pp));
      assert Holds(fp, sv.model(fp));
    }
  }

  /** Concolic agreement of `assert`: when the concrete environment witnesses
      the symbolic state, the fork the concrete value selects is satisfiable,
      and every returned state is witnessed by its concrete environment. */
  lemma AssertWitnessed(sv: Solver, cond: BExp, v: ExeView, n: nat)
    requires Sound(sv) && Witnessed(v) && SymB(cond, v.sym.env).Some?
    ensures CEvalB(cond, v.con).Some?
    ensures var b := CEvalB(cond, v.con).value;
            var t := SymB(cond, v.sym.env).value;
            var r := ExeAssert(sv, cond, v, n);
            && r.Ok?
            && Sat(v.sym.path + [if b then t else Neg(t)])
            && forall i :: 0 <= i < |r.value.outs| ==> Witnessed(r.value.outs[i])
  {
    var m: Model :| Holds(v.sym.path, m) && v.con == EnvModel(v.sym.env, m);
    AgreeB(cond, v.sym.env, m);
    var b := CEvalB(cond, v.con).value;
    var t := SymB(cond, v.sym.env).value;
    var c := if b then t else Neg(t);
    HoldsAppend(v.sym.path, c, m);
    AssertForksShape(sv, cond, v, n);
    var outs := ExeAssert(sv, cond, v, n).value.outs;
    if |outs| == 1 {
      assert Holds(outs[0].sym.path, m) && outs[0].con == EnvModel(outs[0].sym.env, m);
    }
  }

  /** Concolic agreement of an assignment: with an interpreter that stores
      the value of the right-hand side, `x := e` on a witnessed state
      returns exactly one state, with the same path, `x` rebound on the
      symbolic side, the flags unchanged, and still witnessed. */
  lemma AsgnWitnessed(sv: Solver, c: Concrete, x: string, e: AExp, v: ExeView, n: nat)
    requires Conforms(c) && Witnessed(v) && SymA(e, v.sym.env).Some?
    ensures var r := ExeUpdate(sv, c, AsgnStmt(x, e), v, n);
            && r.Ok? && r.value.next == n && |r.value.outs| == 1
            && r.value.outs[0].sym == v.sym.(env := v.sym.env[x := SymA(e, v.sym.env).value])
            && r.value.outs[0].infeasible == v.infeasible && r.value.outs[0].error == v.error
            && Witnessed(r.value.outs[0])
  {
    var m: Model :| Holds(v.sym.path, m) && v.con == EnvModel(v.sym.env, m);
    AgreeA(e, v.sym.env, m);
    var te := SymA(e, v.sym.env).value;
    var con' := v.con[x := CEvalA(e, v.con).value];
    assert c.run(AsgnStmt(x, e), v.con) == Some(con');
    assert EnvModel(v.sym.env[x := te], m) == con';
  }

  /** `havoc` returns exactly one state: on the symbolic side each variable
      is bound to a fresh constant and the path is unchanged; on the concrete
      side exactly the listed variables are added or rebound; the flags are
      unchanged. */
  lemma HavocOne(sv: Solver, c: Concrete, xs: seq<string>, v: ExeView, n: nat)
    requires Conforms(c)
    ensures var r := ExeUpdate(sv, c, HavocStmt(xs), v, n);
            && r.Ok? && r.value.next == n + |xs| && |r.value.outs| == 1
            && r.value.outs[0].sym == v.sym.(env := HavocEnv(v.sym.env, xs, n))
            && r.value.outs[0].con.Keys == v.con.Keys + (set i | 0 <= i < |xs| :: xs[i])
            && (forall k :: k in v.con && k !in xs ==> r.value.outs[0].con[k] == v.con[k])
            && r.value.outs[0].infeasible == v.infeasible && r.value.outs[0].error == v.error
  {
    assert HavocConforms(c.run(HavocStmt(xs), v.con), xs, v.con);
  }

  /** A statement of a list passes states that are not valid through
      unchanged: on invalid states only, its outcome is those states. */
  lemma {:induction false} EachPassesInvalid(sv: Solver, c: Concrete, t: Stmt, vs: seq<ExeView>, j: nat, n: nat)
    requires j <= |vs| && forall i :: 0 <= i < j ==> !Valid(vs[i])
    ensures ExeEach(sv, c, t, vs, j, n) == Ok(ExeRes(vs[..j], n))
  {
    if j > 0 {
      EachPassesInvalid(sv, c, t, vs, j - 1, n);
      assert vs[..j] == vs[..j - 1] + [vs[j - 1]];
    }
  }

  /** An invalid state after a valid prefix keeps its position: appending
      it to the states a statement is applied to appends it to the
      outcome, unchanged. */
  lemma {:induction false} EachKeepsInvalid(sv: Solver, c: Concrete, t: Stmt, vs: seq<ExeView>, u: ExeView, n: nat)
    requires !Valid(u)
    ensures var r := ExeEach(sv, c, t, vs + [u], |vs| + 1, n);
            var p := ExeEach(sv, c, t, vs, |vs|, n);
            && (r.Ok? <==> p.Ok?)
            && (p.Ok? ==> r.value == ExeRes(p.value.outs + [u], p.value.next))
  {
    EachPrefix(sv, c, t, vs, [u], |vs|, n);
  }

  /** An invalid state anywhere among the states a statement is applied to
      keeps its position: it comes out unchanged, right after the outcome of
      the states before it, whatever follows it. */
  lemma {:induction false} EachKeepsInvalidAt(sv: Solver, c: Concrete, t: Stmt, vs: seq<ExeView>, i: nat, j: nat, n: nat)
    requires i < j <= |vs| && !Valid(vs[i]) && ExeEach(sv, c, t, vs, j, n).Ok?
    ensures var p := ExeEach(sv, c, t, vs, i, n);
            && p.Ok?
            && |p.value.outs| < |ExeEach(sv, c, t, vs, j, n).value.outs|
            && ExeEach(sv, c, t, vs, j, n).value.outs[|p.value.outs|] == vs[i]
    decreases j
  {
    if j > i + 1 {
      EachKeepsInvalidAt(sv, c, t, vs, i, j - 1, n);
    }
  }

  /** The outcome on the first `j` states does not depend on the states
      after them. */
  lemma {:induction false} EachPrefix(sv: Solver, c: Concrete, t: Stmt, vs: seq<ExeView>, ws: seq<ExeView>, j: nat, n: nat)
    requires j <= |vs|
    ensures ExeEach(sv, c, t, vs + ws, j, n) == ExeEach(sv, c, t, vs, j, n)
  {
    if j > 0 {
      EachPrefix(sv, c, t, vs, ws, j - 1, n);
      assert (vs + ws)[j - 1] == vs[j - 1];
    }
  }

  /** A statement list leaves states that are all invalid as they are. */
  lemma {:induction false} ListPassesInvalid(sv: Solver, c: Concrete, s: Stmt, k: nat, vs: seq<ExeView>, n: nat)
    requires s.StmtList? && k <= |s.stmts| && forall i :: 0 <= i < |vs| ==> !Valid(vs[i])
    ensures ExeList(sv, c, s, k, vs, n) == Ok(ExeRes(vs, n))
  {
    if k > 0 {
      ListPassesInvalid(sv, c, s, k - 1, vs, n);
      EachPassesInvalid(sv, c, s.stmts[k - 1], vs, |vs|, n);
      assert vs[..|vs|] == vs;
    }
  }

  /** `if` returns at most two states, new ones with both flags clear. With
      the concrete condition true and two results, the first comes from the
      then-branch (its path extends the path with `cond`) and the second
      from the else-branch, which exists and whose `Not cond` path was found
      satisfiable. With the concrete condition false every result's path
      extends the path with `cond`: the else-branch is run symbolically on
      the passed fork. */
  lemma {:induction false} IfShape(sv: Solver, c: Concrete, s: Stmt, v: ExeView, n: nat)
    requires s.IfStmt? && ExeIf(sv, c, s, v, n).Ok?
    ensures var b := CEvalB(s.cond, v.con).value;
            var t := SymB(s.cond, v.sym.env).value;
            var outs := ExeIf(sv, c, s, v, n).value.outs;
            && |outs| <= 2
            && (forall i :: 0 <= i < |outs| ==> !outs[i].infeasible && !outs[i].error)
            && (b && |outs| == 2 ==>
                  && Extends(v.sym.path + [t], outs[0].sym.path)
                  && Extends(v.sym.path + [Neg(t)], outs[1].sym.path)
                  && s.elseStmt.Some? && sv.check(v.sym.path + [Neg(t)]))
            && (!b ==> forall i :: 0 <= i < |outs| ==> Extends(v.sym.path + [t], outs[i].sym.path))
  {
    var b := CEvalB(s.cond, v.con).value;
    var t := SymB(s.cond, v.sym.env).value;
    var outs := ExeIf(sv, c, s, v, n).value.outs;
    if b {
      var th := SymRun(sv, s.thenStmt, WithPc(v.sym, t), n).value;
      RunGrows(sv, s.thenStmt, WithPc(v.sym, t), n);
      var fs := WithPc(v.sym, Neg(t));
      if sv.check(fs.path) && s.elseStmt.Some? {
        RunGrows(sv, s.elseStmt.value, fs, th.next);
      }
    } else {
      var pv := WithPc(v.sym, t);
      var el := SymRun(sv, s.elseStmt.value, pv, n).value;
      RunGrows(sv, s.elseStmt.value, pv, n);
      if sv.check(el.self.path) {
        var th := SymRun(sv, s.thenStmt, el.self, el.next).value;
        RunGrows(sv, s.thenStmt, el.self, el.next);
        var late := NegLate(th, t);
        forall i | 0 <= i < |late| ensures Extends(pv.path, late[i].path) {
          if th.at.Some? && th.at.value < |th.outs| && i == th.at.value {
            ExtendsTrans(el.self.path, th.self.path, th.self.path + [Neg(t)]);
            ExtendsTrans(pv.path, el.self.path, th.self.path + [Neg(t)]);
          } else {
            ExtendsTrans(pv.path, el.self.path, th.outs[i].path);
          }
        }
      }
    }
  }

  /** `if` with the concrete condition true. The then-branch gives at most
      one state, first: the concrete then-run paired with the first symbolic
      then-result. The else-branch gives at most one more, and only when there
      is an else clause and the solver found `Not cond` satisfiable. It pairs
      a concrete run on a model of that path with the first symbolic
      else-result. Any result on the `Not cond` side has passed that gate,
      however many results there are. */
  lemma {:induction false} IfTrueOutcome(sv: Solver, c: Concrete, s: Stmt, v: ExeView, n: nat)
    requires s.IfStmt? && CEvalB(s.cond, v.con) == Some(true) && ExeIf(sv, c, s, v, n).Ok?
    ensures var t := SymB(s.cond, v.sym.env).value;
            var fs := WithPc(v.sym, Neg(t));
            var th := SymRun(sv, s.thenStmt, WithPc(v.sym, t), n).value;
            var outs := ExeIf(sv, c, s, v, n).value.outs;
            var k := if |th.outs| == 0 then 0 else 1;
            && k <= |outs| <= k + 1
            && (k == 1 ==> outs[0] == ExeView(c.run(s.thenStmt, v.con).value, th.outs[0], false, false))
            && (forall i :: 0 <= i < |outs| && Extends(fs.path, outs[i].sym.path) ==>
                  s.elseStmt.Some? && sv.check(fs.path))
            && (|outs| == k + 1 ==>
                  && s.elseStmt.Some? && sv.check(fs.path)
                  && var el := SymRun(sv, s.elseStmt.value, fs, th.next).value;
                  && |el.outs| > 0
                  && outs[k] == ExeView(c.run(s.elseStmt.value, EnvModel(fs.env, sv.model(fs.path))).value,
                                        el.outs[0], false, false)
                  && Extends(fs.path, outs[k].sym.path))
            && ((s.elseStmt.Some? && sv.check(fs.path) && |SymRun(sv, s.elseStmt.value, fs, th.next).value.outs| > 0)
                ==> |outs| == k + 1)
  {
    var t := SymB(s.cond, v.sym.env).value;
    var fs := WithPc(v.sym, Neg(t));
    var th := SymRun(sv, s.thenStmt, WithPc(v.sym, t), n).value;
    var outs := ExeIf(sv, c, s, v, n).value.outs;
    var k := if |th.outs| == 0 then 0 else 1;
    RunGrows(sv, s.thenStmt, WithPc(v.sym, t), n);
    if sv.check(fs.path) && s.elseStmt.Some? {
      RunGrows(sv, s.elseStmt.value, fs, th.next);
    }
    forall i | 0 <= i < k ensures !Extends(fs.path, outs[i].sym.path) {
      assert outs[i].sym == th.outs[0];
      assert outs[i].sym.path[|v.sym.path|] == t != Neg(t);
    }
  }

  /** `if` with the concrete condition false. There must be an else clause.
      The else-branch gives at most one state, first: the concrete else-run
      paired with the first symbolic else-result, although that result was
      run from the passed fork, whose path ends in `cond`. The then-branch
      gives at most one more, and only when the else-branch's own symbolic
      state was found satisfiable. It pairs a concrete run on a model of that
      state's path with the first symbolic then-result. */
  lemma {:induction false} IfFalseOutcome(sv: Solver, c: Concrete, s: Stmt, v: ExeView, n: nat)
    requires s.IfStmt? && CEvalB(s.cond, v.con) == Some(false) && ExeIf(sv, c, s, v, n).Ok?
    ensures s.elseStmt.Some?
    ensures var t := SymB(s.cond, v.sym.env).value;
            var pv := WithPc(v.sym, t);
            var el := SymRun(sv, s.elseStmt.value, pv, n).value;
            var outs := ExeIf(sv, c, s, v, n).value.outs;
            var k := if |el.outs| == 0 then 0 else 1;
            && k <= |outs| <= k + 1
            && (k == 1 ==> outs[0] == ExeView(c.run(s.elseStmt.value, v.con).value, el.outs[0], false, false))
            && (k == 1 ==> Extends(pv.path, outs[0].sym.path))
            && (|outs| == k + 1 ==>
                  && sv.check(el.self.path)
                  && var th := SymRun(sv, s.thenStmt, el.self, el.next).value;
                  && |th.outs| > 0
                  && outs[k].con == c.run(s.thenStmt, EnvModel(el.self.env, sv.model(el.self.path))).value
                  && outs[k].sym == NegLate(th, t)[0]
                  && Extends(el.self.path, outs[k].sym.path))
            && (sv.check(el.self.path) && |SymRun(sv, s.thenStmt, el.self, el.next).value.outs| > 0 ==>
                  |outs| == k + 1)
  {
    var t := SymB(s.cond, v.sym.env).value;
    var pv := WithPc(v.sym, t);
    var el := SymRun(sv, s.elseStmt.value, pv, n).value;
    RunGrows(sv, s.elseStmt.value, pv, n);
    if sv.check(el.self.path) {
      var th := SymRun(sv, s.thenStmt, el.self, el.next).value;
      RunGrows(sv, s.thenStmt, el.self, el.next);
      if |th.outs| > 0 && th.at == Some(0) {
        ExtendsTrans(el.self.path, th.self.path, th.self.path + [Neg(t)]);
      }
    }
  }

  /** `if x > 0 then skip else skip` on a state where the concrete condition
      is false and the passed fork is satisfiable: the concrete else-run is
      paired with the passed fork, and the then-run with that same fork after
      `Not cond` has been added to it late, so the second state's path holds
      both `cond` and `Not cond` and is unsatisfiable. */
  lemma IfFalseBothSides(sv: Solver, c: Concrete, cond: BExp, v: ExeView, n: nat)
    requires Sound(sv) && CEvalB(cond, v.con) == Some(false) && SymB(cond, v.sym.env).Some?
    requires forall con :: c.run(SkipStmt, con) == Some(con)
    requires Sat(v.sym.path + [SymB(cond, v.sym.env).value])
    ensures var t := SymB(cond, v.sym.env).value;
            var pv := WithPc(v.sym, t);
            var r := ExeIf(sv, c, IfStmt(cond, SkipStmt, Some(SkipStmt)), v, n);
            && r.Ok? && |r.value.outs| == 2
            && r.value.outs[0] == ExeView(v.con, pv, false, false)
            && r.value.outs[1].sym == WithPc(pv, Neg(t))
            && !Sat(r.value.outs[1].sym.path)
  {
    var t := SymB(cond, v.sym.env).value;
    var q := v.sym.path + [t] + [Neg(t)];
    forall m: Model ensures !Holds(q, m) {
      assert q[|v.sym.path|] == t && q[|v.sym.path| + 1] == Neg(t);
    }
  }

  /** With the concrete condition false, the first state of
      `if cond then skip else skip` pairs the received concrete environment,
      which makes `cond` false, with a path that ends in `cond`. So that state
      is not witnessed by its concrete environment, whatever the received
      state was. */
  lemma IfFalseUnwitnessed(sv: Solver, c: Concrete, cond: BExp, v: ExeView, n: nat)
    requires CEvalB(cond, v.con) == Some(false) && SymB(cond, v.sym.env).Some?
    requires forall con :: c.run(SkipStmt, con) == Some(con)
    ensures var r := ExeIf(sv, c, IfStmt(cond, SkipStmt, Some(SkipStmt)), v, n);
            && r.Ok? && |r.value.outs| >= 1
            && r.value.outs[0].sym.path == v.sym.path + [SymB(cond, v.sym.env).value]
            && !Witnessed(r.value.outs[0])
  {
    var t := SymB(cond, v.sym.env).value;
    var u := ExeIf(sv, c, IfStmt(cond, SkipStmt, Some(SkipStmt)), v, n).value.outs[0];
    forall m: Model | Holds(u.sym.path, m) ensures u.con != EnvModel(u.sym.env, m) {
      AgreeB(cond, v.sym.env, m);
      assert u.sym.path[|v.sym.path|] == t;
    }
  }
}
