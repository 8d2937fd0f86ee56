/** Properties of the symbolic executor, proved about the functions of
    module SymSpec that the visitors of module Sym are proved to follow. */
module SymProps {
  import opened Wrappers
  import opened Ast
  import opened Smt
  import opened SymExpr
  import opened SymSpec

  /** `q` is `p` with constraints appended: the visitors only ever add to a
      path condition. */
  predicate Extends(p: seq<BTerm>, q: seq<BTerm>) {
    |p| <= |q| && q[..|p|] == p
  }

  /** `u` can be an outcome of a visit that started on `v`: its path extends
      that of `v`, and it is either that very path or one the solver reported
      satisfiable. */
  predicate Live(sv: Solver, v: SymView, u: SymView) {
    Extends(v.path, u.path) && (u.path == v.path || sv.check(u.path))
  }

  /** Every fresh constant in the term was made before the counter reached
      `n`. */
  predicate TermBelow(t: ITerm, n: nat) {
    match t
    case Num(_) => true
    case Const(id) => id < n
    case Bin(_, l, r) => TermBelow(l, n) && TermBelow(r, n)
  }

  predicate CondBelow(c: BTerm, n: nat) {
    match c
    case BoolVal(_) => true
    case Cmp(_, x, y) => TermBelow(x, n) && TermBelow(y, n)
    case Neg(a) => CondBelow(a, n)
    case Conj(a, b) => CondBelow(a, n) && CondBelow(b, n)
    case Disj(a, b) => CondBelow(a, n) && CondBelow(b, n)
  }

  predicate EnvBelow(env: map<string, ITerm>, n: nat) {
    forall x :: x in env ==> TermBelow(env[x], n)
  }

  /** Every fresh constant in the state's environment and path was made
      before the counter reached `n`. */
  predicate Below(v: SymView, n: nat) {
    EnvBelow(v.env, n) && forall i :: 0 <= i < |v.path| ==> CondBelow(v.path[i], n)
  }

  /** What every visitor guarantees of its outcome `r` on the state `v` with
      the counter at `n`: the counter never goes back; the visited object's
      path and every result's path extend the input path; every result other
      than one with the input path was checked satisfiable; when the visited
      object is among the results, the recorded position holds its contents;
      and if `v` only mentions constants made so far, so do all the results. */
  predicate Grows(sv: Solver, v: SymView, n: nat, r: SymRes) {
    && n <= r.next
    && Extends(v.path, r.self.path)
    && (r.at.Some? ==> r.at.value < |r.outs| && r.outs[r.at.value] == r.self)
    && (forall i :: 0 <= i < |r.outs| ==> Live(sv, v, r.outs[i]))
    && (Below(v, n) ==> Below(r.self, r.next) && forall i :: 0 <= i < |r.outs| ==> Below(r.outs[i], r.next))
  }

  lemma {:induction false} TermBelowMono(t: ITerm, n: nat, m: nat)
    requires TermBelow(t, n) && n <= m
    ensures TermBelow(t, m)
  {
    match t
    case Num(_) =>
    case Const(_) =>
    case Bin(_, l, r) =>
      TermBelowMono(l, n, m);
      TermBelowMono(r, n, m);
  }

  lemma {:induction false} CondBelowMono(c: BTerm, n: nat, m: nat)
    requires CondBelow(c, n) && n <= m
    ensures CondBelow(c, m)
  {
    match c
    case BoolVal(_) =>
    case Cmp(_, x, y) =>
      TermBelowMono(x, n, m);
      TermBelowMono(y, n, m);
    case Neg(a) => CondBelowMono(a, n, m);
    case Conj(a, b) =>
      CondBelowMono(a, n, m);
      CondBelowMono(b, n, m);
    case Disj(a, b) =>
      CondBelowMono(a, n, m);
      CondBelowMono(b, n, m);
  }

  lemma BelowMono(v: SymView, n: nat, m: nat)
    requires Below(v, n) && n <= m
    ensures Below(v, m)
  {
    forall x | x in v.env ensures TermBelow(v.env[x], m) {
      TermBelowMono(v.env[x], n, m);
    }
    forall i | 0 <= i < |v.path| ensures CondBelow(v.path[i], m) {
      CondBelowMono(v.path[i], n, m);
    }
  }

  lemma {:induction false} FoldTermBelow(op: AOp, ts: seq<ITerm>, n: nat)
    requires |ts| > 0 && forall i :: 0 <= i < |ts| ==> TermBelow(ts[i], n)
    ensures TermBelow(FoldTerm(op, ts), n)
  {
    if |ts| > 1 {
      FoldTermBelow(op, ts[..|ts| - 1], n);
    }
  }

  lemma {:induction false} FoldLogicBelow(op: BOp, base: BTerm, ts: seq<BTerm>, n: nat)
    requires CondBelow(base, n) && forall i :: 0 <= i < |ts| ==> CondBelow(ts[i], n)
    ensures CondBelow(FoldLogic(op, base, ts), n)
  {
    if |ts| > 0 {
      FoldLogicBelow(op, base, ts[..|ts| - 1], n);
    }
  }

  /** The term built for an expression only mentions constants of the
      environment. */
  lemma {:induction false} SymABelow(e: AExp, env: map<string, ITerm>, n: nat)
    requires EnvBelow(env, n)
    ensures SymA(e, env).Some? ==> TermBelow(SymA(e, env).value, n)
    decreases e, 1
  {
    match e
    case IntConst(_) =>
    case IntVar(_) =>
    case Arith(op, args) =>
      SymAsBelow(args, env, n);
      if SymAs(args, env).Some? && |args| > 0 {
        FoldTermBelow(op, SymAs(args, env).value, n);
      }
  }

  lemma {:induction false} SymAsBelow(args: seq<AExp>, env: map<string, ITerm>, n: nat)
    requires EnvBelow(env, n)
    ensures SymAs(args, env).Some? ==> forall i :: 0 <= i < |args| ==> TermBelow(SymAs(args, env).value[i], n)
    decreases args, 0
  {
    if |args| > 0 {
      SymAsBelow(args[..|args| - 1], env, n);
      SymABelow(args[|args| - 1], env, n);
    }
  }

  lemma {:induction false} SymBBelow(e: BExp, env: map<string, ITerm>, n: nat)
    requires EnvBelow(env, n)
    ensures SymB(e, env).Some? ==> CondBelow(SymB(e, env).value, n)
    decreases e, 1
  {
    match e
    case BoolConst(_) =>
    case RelExp(l, _, r) =>
      SymABelow(l, env, n);
      SymABelow(r, env, n);
    case Logic(op, args) =>
      SymBsBelow(args, env, n);
      if SymBs(args, env).Some? && op != Not {
        FoldLogicBelow(op, BoolVal(op == And), SymBs(args, env).value, n);
      }
  }

  lemma {:induction false} SymBsBelow(args: seq<BExp>, env: map<string, ITerm>, n: nat)
    requires EnvBelow(env, n)
    ensures SymBs(args, env).Some? ==> forall i :: 0 <= i < |args| ==> CondBelow(SymBs(args, env).value[i], n)
    decreases args, 0
  {
    if |args| > 0 {
      SymBsBelow(args[..|args| - 1], env, n);
      SymBBelow(args[|args| - 1], env, n);
    }
  }

  /** The position of the last occurrence of `x` in `xs`, or -1. */
  function LastPos(xs: seq<string>, x: string): (r: int)
    ensures -1 <= r < |xs|
    ensures r == -1 <==> x !in xs
    ensures r >= 0 ==> xs[r] == x
  {
    if |xs| == 0 then -1
    else if xs[|xs| - 1] == x then |xs| - 1
    else LastPos(xs[..|xs| - 1], x)
  }

  /** `havoc x1, ..., xk` binds each listed variable to the constant made
      for its last occurrence in the list and leaves every other variable as
      it was. */
  lemma {:induction false} HavocAt(env: map<string, ITerm>, xs: seq<string>, n: nat, x: string)
    ensures x in HavocEnv(env, xs, n) <==> x in env || x in xs
    ensures x in xs ==> HavocEnv(env, xs, n)[x] == Const(n + LastPos(xs, x))
    ensures x !in xs && x in env ==> HavocEnv(env, xs, n)[x] == env[x]
  {
    if |xs| > 0 {
      HavocAt(env, xs[..|xs| - 1], n, x);
      assert xs == xs[..|xs| - 1] + [xs[|xs| - 1]];
    }
  }

  /** Every constant `havoc` hands out is new: its id is at least the
      counter before the statement, so it occurs nowhere in a state built
      from earlier constants, and it is below the counter after it. */
  lemma HavocFresh(sv: Solver, xs: seq<string>, v: SymView, n: nat, x: string)
    ensures var r := SymRun(sv, HavocStmt(xs), v, n);
            && r.Ok? && r.value.next == n + |xs| && r.value.outs == [r.value.self]
            && r.value.self.path == v.path && r.value.self.err == v.err
            && (x in r.value.self.env <==> x in v.env || x in xs)
            && (x in xs ==> exists k :: n <= k < n + |xs| && r.value.self.env[x] == Const(k))
            && (x !in xs && x in v.env ==> r.value.self.env[x] == v.env[x])
  {
    HavocAt(v.env, xs, n, x);
    if x in xs {
      assert HavocEnv(v.env, xs, n)[x] == Const(n + LastPos(xs, x));
    }
  }

  lemma HavocEnvBelow(env: map<string, ITerm>, xs: seq<string>, n: nat)
    requires EnvBelow(env, n)
    ensures EnvBelow(HavocEnv(env, xs, n), n + |xs|)
  {
    var h := HavocEnv(env, xs, n);
    forall x | x in h ensures TermBelow(h[x], n + |xs|) {
      HavocAt(env, xs, n, x);
      if x !in xs {
        TermBelowMono(env[x], n, n + |xs|);
      }
    }
  }

  /** Two variables of one `havoc` get two different constants. */
  lemma HavocDistinct(env: map<string, ITerm>, xs: seq<string>, n: nat, x: string, y: string)
    requires x in xs && y in xs && x != y
    ensures x in HavocEnv(env, xs, n) && y in HavocEnv(env, xs, n) && HavocEnv(env, xs, n)[x] != HavocEnv(env, xs, n)[y]
  {
    HavocAt(env, xs, n, x);
    HavocAt(env, xs, n, y);
  }

  lemma ExtendsTrans(p: seq<BTerm>, q: seq<BTerm>, r: seq<BTerm>)
    requires Extends(p, q) && Extends(q, r)
    ensures Extends(p, r)
  {
    assert r[..|p|] == r[..|q|][..|p|];
  }

  /** Outcomes of the two halves of a `for` loop, both taken from `v`, make
      an outcome of the whole loop. */
  lemma MergeGrows(sv: Solver, v: SymView, n: nat, p: SymRes, q: SymRes, mine: bool)
    requires Grows(sv, v, n, p) && Grows(sv, v, n, q) && p.next <= q.next
    ensures Grows(sv, v, n, Merge(p, q, mine))
  {
    var m := Merge(p, q, mine);
    forall i | 0 <= i < |m.outs| ensures Live(sv, v, m.outs[i]) {
      if i < |p.outs| { assert m.outs[i] == p.outs[i]; } else { assert m.outs[i] == q.outs[i - |p.outs|]; }
    }
    if Below(v, n) {
      BelowMono(p.self, p.next, q.next);
      forall i | 0 <= i < |m.outs| ensures Below(m.outs[i], m.next) {
        if i < |p.outs| {
          assert m.outs[i] == p.outs[i];
          BelowMono(p.outs[i], p.next, q.next);
        } else {
          assert m.outs[i] == q.outs[i - |p.outs|];
        }
      }
    }
  }

  /** An outcome of a visit on `u`, a state derived from `v`, is an outcome
      from `v` as well, provided `u` was checked satisfiable whenever it has
      results with its own path. */
  lemma LiftGrows(sv: Solver, v: SymView, n: nat, u: SymView, m: nat, r: SymRes)
    requires Grows(sv, u, m, r) && n <= m && Extends(v.path, u.path)
    requires |r.outs| > 0 ==> u.path == v.path || sv.check(u.path)
    requires Below(v, n) ==> Below(u, m)
    ensures Grows(sv, v, n, r)
  {
    ExtendsTrans(v.path, u.path, r.self.path);
    forall i | 0 <= i < |r.outs| ensures Live(sv, v, r.outs[i]) {
      ExtendsTrans(v.path, u.path, r.outs[i].path);
    }
  }

  /** Adding a constraint built from the state's own environment keeps the
      state within the constants made so far. */
  lemma WithPcBelow(v: SymView, c: BTerm, n: nat)
    requires Below(v, n) && CondBelow(c, n)
    ensures Below(WithPc(v, c), n) && Below(ForkChild(v), n)
  {
    var w := WithPc(v, c);
    forall i | 0 <= i < |w.path| ensures CondBelow(w.path[i], n) {
      if i < |v.path| { assert w.path[i] == v.path[i]; }
    }
  }

  /** Every visitor's outcome grows from its input, in the sense of
      `Grows`. */
  lemma {:induction false} RunGrows(sv: Solver, s: Stmt, v: SymView, n: nat)
    ensures SymRun(sv, s, v, n).Ok? ==> Grows(sv, v, n, SymRun(sv, s, v, n).value)
    decreases s, 4, 0, 0, 0
  {
    match s
    case SkipStmt =>
    case PrintStateStmt =>
    case AsgnStmt(_, e) =>
      if Below(v, n) {
        SymABelow(e, v.env, n);
      }
    case HavocStmt(xs) =>
      if Below(v, n) {
        BelowMono(v, n, n + |xs|);
        HavocEnvBelow(v.env, xs, n);
      }
    case AssumeStmt(c) => AssumeGrows(sv, c, v, n);
    case AssertStmt(c) => AssertGrows(sv, c, v, n);
    case IfStmt(_, _, _) => IfGrows(sv, s, v, n);
    case WhileStmt(_, _, _) => WhileGrows(sv, s, v, 0, n);
    case StmtList(ss) => ListGrows(sv, s, |ss|, v, n);
  }

  lemma AssumeGrows(sv: Solver, c: BExp, v: SymView, n: nat)
    ensures SymAssume(sv, c, v, n).Ok? ==> Grows(sv, v, n, SymAssume(sv, c, v, n).value)
  {
    if SymB(c, v.env).Some? {
      var t := SymB(c, v.env).value;
      assert Extends(v.path, v.path + [t]);
      if Below(v, n) {
        SymBBelow(c, v.env, n);
        WithPcBelow(v, t, n);
      }
    }
  }

  lemma AssertGrows(sv: Solver, c: BExp, v: SymView, n: nat)
    ensures SymAssert(sv, c, v, n).Ok? ==> Grows(sv, v, n, SymAssert(sv, c, v, n).value)
  {
    if SymB(c, v.env).Some? {
      var t := SymB(c, v.env).value;
      var f := WithPc(ForkChild(v), Neg(t)).(err := true);
      var tv := WithPc(v, t);
      assert Extends(v.path, f.path) && Extends(v.path, tv.path);
      if Below(v, n) {
        SymBBelow(c, v.env, n);
        WithPcBelow(v, t, n);
        WithPcBelow(ForkChild(v), Neg(t), n);
        assert Below(f, n) && Below(tv, n);
      }
      var fails := if sv.check(f.path) then [f] else [];
      assert Grows(sv, v, n, SymRes(fails, tv, None, n));
    }
  }

  lemma {:induction false} IfGrows(sv: Solver, s: Stmt, v: SymView, n: nat)
    requires s.IfStmt?
    ensures SymIf(sv, s, v, n).Ok? ==> Grows(sv, v, n, SymIf(sv, s, v, n).value)
    decreases s, 3, 0, 0, 0
  {
    match SymB(s.cond, v.env)
    case None =>
    case Some(t) =>
      var tv := WithPc(v, t);
      var ev := WithPc(ForkChild(v), Neg(t));
      BranchGrows(sv, s, true, tv, n);
      if IfBranch(sv, s, true, tv, n).Ok? {
        var th := IfBranch(sv, s, true, tv, n).value;
        BranchGrows(sv, s, false, ev, th.next);
        if IfBranch(sv, s, false, ev, th.next).Ok? {
          var el := IfBranch(sv, s, false, ev, th.next).value;
          assert Extends(v.path, tv.path) && Extends(v.path, ev.path);
          if Below(v, n) {
            SymBBelow(s.cond, v.env, n);
            WithPcBelow(v, t, n);
            WithPcBelow(ForkChild(v), Neg(t), n);
            BelowMono(ev, n, th.next);
          }
          LiftGrows(sv, v, n, tv, n, th);
          LiftGrows(sv, v, n, ev, th.next, el);
          MergeGrows(sv, v, n, th, el, false);
        }
      }
  }

  lemma {:induction false} BranchGrows(sv: Solver, s: Stmt, isThen: bool, v: SymView, n: nat)
    requires s.IfStmt?
    ensures var r := IfBranch(sv, s, isThen, v, n);
            r.Ok? ==> Grows(sv, v, n, r.value) && (|r.value.outs| > 0 ==> sv.check(v.path))
    decreases s, 2, 0, 0, 0
  {
    var b := if isThen then Some(s.thenStmt) else s.elseStmt;
    if sv.check(v.path) && b.Some? {
      RunGrows(sv, b.value, v, n);
    }
  }

  lemma {:induction false} WhileGrows(sv: Solver, w: Stmt, v: SymView, d: nat, n: nat)
    requires w.WhileStmt? && d <= MaxDepth
    ensures SymWhile(sv, w, v, d, n).Ok? ==> Grows(sv, v, n, SymWhile(sv, w, v, d, n).value)
    decreases w, 2, MaxDepth - d, 2, 0
  {
    match SymB(w.cond, v.env)
    case None =>
    case Some(t) =>
      var tv := WithPc(v, t);
      var fv := WithPc(ForkChild(v), Neg(t));
      var exits := if sv.check(fv.path) then [fv] else [];
      WhileTrueGrows(sv, w, tv, d, n);
      if WhileTrue(sv, w, tv, d, n).Ok? {
        var l := WhileTrue(sv, w, tv, d, n).value;
        assert Extends(v.path, tv.path) && Extends(v.path, fv.path);
        if Below(v, n) {
          SymBBelow(w.cond, v.env, n);
          WithPcBelow(v, t, n);
          WithPcBelow(ForkChild(v), Neg(t), n);
        }
        assert Grows(sv, v, n, SymRes(exits, tv, None, n));
        LiftGrows(sv, v, n, tv, n, l);
        MergeGrows(sv, v, n, SymRes(exits, tv, None, n), l, true);
      }
  }

  lemma {:induction false} WhileTrueGrows(sv: Solver, w: Stmt, tv: SymView, d: nat, n: nat)
    requires w.WhileStmt? && d <= MaxDepth
    ensures var r := WhileTrue(sv, w, tv, d, n);
            r.Ok? ==> Grows(sv, tv, n, r.value) && (|r.value.outs| > 0 ==> sv.check(tv.path))
    decreases w, 2, MaxDepth - d, 1, 0
  {
    if sv.check(tv.path) && d < MaxDepth {
      RunGrows(sv, w.body, tv, n);
      if SymRun(sv, w.body, tv, n).Ok? {
        var b := SymRun(sv, w.body, tv, n).value;
        WhileEachGrows(sv, w, b.outs, |b.outs|, b.at, d, b.self, b.next, tv, n);
      }
    }
  }

  lemma {:induction false} WhileEachGrows(sv: Solver, w: Stmt, us: seq<SymView>, j: nat, uAt: Option<nat>, d: nat,
                                          self0: SymView, n0: nat, v: SymView, n: nat)
    requires w.WhileStmt? && d < MaxDepth && j <= |us|
    requires Grows(sv, v, n, SymRes(us, self0, None, n0))
    ensures var r := WhileEach(sv, w, us, j, uAt, d, self0, n0);
            r.Ok? ==> Grows(sv, v, n, r.value) && n0 <= r.value.next
    decreases w, 2, MaxDepth - d, 0, j
  {
    if j > 0 {
      var k := j - 1;
      WhileEachGrows(sv, w, us, k, uAt, d, self0, n0, v, n);
      if WhileEach(sv, w, us, k, uAt, d, self0, n0).Ok? {
        var p := WhileEach(sv, w, us, k, uAt, d, self0, n0).value;
        var u := us[k];
        assert Live(sv, v, u);
        if sv.check(u.path) {
          WhileGrows(sv, w, u, d + 1, p.next);
          if SymWhile(sv, w, u, d + 1, p.next).Ok? {
            var l := SymWhile(sv, w, u, d + 1, p.next).value;
            if Below(v, n) {
              BelowMono(u, n0, p.next);
            }
            LiftGrows(sv, v, n, u, p.next, l);
            MergeGrows(sv, v, n, p, l, uAt == Some(k));
          }
        }
      }
    }
  }

  lemma {:induction false} ListGrows(sv: Solver, s: Stmt, k: nat, v0: SymView, n0: nat)
    requires s.StmtList? && k <= |s.stmts|
    ensures SymList(sv, s, k, v0, n0).Ok? ==> Grows(sv, v0, n0, SymList(sv, s, k, v0, n0).value)
    decreases s, 3, 0, 0, k
  {
    if k > 0 {
      ListGrows(sv, s, k - 1, v0, n0);
      if SymList(sv, s, k - 1, v0, n0).Ok? {
        var p := SymList(sv, s, k - 1, v0, n0).value;
        ListStepGrows(sv, s.stmts[k - 1], p.outs, |p.outs|, p.at, p.self, p.next, v0, n0);
      }
    }
  }

  lemma {:induction false} ListStepGrows(sv: Solver, t: Stmt, views: seq<SymView>, j: nat, vAt: Option<nat>,
                                         self0: SymView, n0: nat, v: SymView, n: nat)
    requires j <= |views| && Grows(sv, v, n, SymRes(views, self0, None, n0))
    ensures var r := ListStep(sv, t, views, j, vAt, self0, n0);
            r.Ok? ==> Grows(sv, v, n, r.value) && n0 <= r.value.next
    decreases t, 5, 0, 0, j
  {
    if j > 0 {
      var k := j - 1;
      ListStepGrows(sv, t, views, k, vAt, self0, n0, v, n);
      if ListStep(sv, t, views, k, vAt, self0, n0).Ok? {
        var p := ListStep(sv, t, views, k, vAt, self0, n0).value;
        var u := views[k];
        assert Live(sv, v, u);
        RunGrows(sv, t, u, p.next);
        if SymRun(sv, t, u, p.next).Ok? {
          var r := SymRun(sv, t, u, p.next).value;
          if Below(v, n) {
            BelowMono(u, n0, p.next);
          }
          LiftGrows(sv, v, n, u, p.next, r);
          MergeGrows(sv, v, n, p, r, vAt == Some(k));
        }
      }
    }
  }

  /** With an exact solver, a visit from a satisfiable state only ever
      yields satisfiable states, each extending the input path. */
  lemma OutputsSat(sv: Solver, s: Stmt, v: SymView, n: nat)
    requires Sound(sv) && Sat(v.path)
    ensures var r := SymRun(sv, s, v, n);
            r.Ok? ==> forall i :: 0 <= i < |r.value.outs| ==>
                        Sat(r.value.outs[i].path) && Extends(v.path, r.value.outs[i].path)
  {
    RunGrows(sv, s, v, n);
  }

  /** `assume` extends the received state's own path; with an exact solver
      that state is the one result exactly when the extended path is
      satisfiable, and there is none otherwise. */
  lemma AssumePrunes(sv: Solver, c: BExp, v: SymView, n: nat)
    requires Sound(sv) && SymB(c, v.env).Some?
    ensures var r := SymRun(sv, AssumeStmt(c), v, n);
            && r.Ok? && r.value.self == WithPc(v, SymB(c, v.env).value) && r.value.next == n
            && (r.value.outs == [] <==> !Sat(r.value.self.path))
            && (r.value.outs != [] ==> r.value.outs == [r.value.self])
  {
  }

  /** An `assert` never loses a satisfiable state: with an exact solver at
      least one fork survives. The error-flagged fork, when satisfiable, comes
      first; every later result keeps the received state's flag. */
  lemma AssertSplits(sv: Solver, c: BExp, v: SymView, n: nat)
    requires Sound(sv) && Sat(v.path) && SymB(c, v.env).Some?
    ensures var t := SymB(c, v.env).value;
            var r := SymRun(sv, AssertStmt(c), v, n);
            && r.Ok? && 1 <= |r.value.outs| <= 2
            && r.value.outs[0].err == (v.err || Sat(v.path + [Neg(t)]))
            && (Sat(v.path + [Neg(t)]) ==> r.value.outs[0].path == v.path + [Neg(t)])
            && (forall i :: 1 <= i < |r.value.outs| ==> r.value.outs[i].err == v.err)
            && (Sat(v.path + [t]) <==> r.value.at.Some?)
  {
    var t := SymB(c, v.env).value;
    SatSplit(v.path, t);
  }

  /** `if` lists the results of the then-branch first and those of the
      else-branch after them: the first `k` results extend the path with
      `cond`, the rest extend it with `Not cond`, and each part is present
      only when the solver found its branch satisfiable. With no
      else-branch, the else part is exactly the forked child with
      `Not cond`, when that is satisfiable. */
  lemma IfOrder(sv: Solver, s: Stmt, v: SymView, n: nat) returns (k: nat)
    requires s.IfStmt? && SymIf(sv, s, v, n).Ok?
    ensures var t := SymB(s.cond, v.env).value;
            var outs := SymIf(sv, s, v, n).value.outs;
            && k <= |outs|
            && (k > 0 ==> sv.check(v.path + [t]))
            && (k < |outs| ==> sv.check(v.path + [Neg(t)]))
            && (forall i :: 0 <= i < k ==> Extends(v.path + [t], outs[i].path))
            && (forall i :: k <= i < |outs| ==> Extends(v.path + [Neg(t)], outs[i].path))
            && (s.elseStmt.None? ==>
                  outs[k..] == if sv.check(v.path + [Neg(t)]) then [SymView(v.env, v.path + [Neg(t)], false)] else [])
  {
    var t := SymB(s.cond, v.env).value;
    var tv := WithPc(v, t);
    var ev := WithPc(ForkChild(v), Neg(t));
    var th := IfBranch(sv, s, true, tv, n).value;
    var el := IfBranch(sv, s, false, ev, th.next).value;
    BranchGrows(sv, s, true, tv, n);
    BranchGrows(sv, s, false, ev, th.next);
    var outs := th.outs + el.outs;
    assert SymIf(sv, s, v, n).value.outs == outs;
    k := |th.outs|;
    forall i | 0 <= i < k ensures Extends(v.path + [t], outs[i].path) {
      assert outs[i] == th.outs[i] && Live(sv, tv, th.outs[i]);
    }
    forall i | k <= i < |outs| ensures Extends(v.path + [Neg(t)], outs[i].path) {
      assert outs[i] == el.outs[i - k] && Live(sv, ev, el.outs[i - k]);
    }
    assert outs[k..] == el.outs;
  }

  /** An `assert` whose condition cannot hold leaves no state that is not
      an error: the one possible result is the error-flagged fork. */
  lemma AssertAlwaysFails(sv: Solver, c: BExp, v: SymView, n: nat)
    requires Sound(sv) && SymB(c, v.env).Some? && !Sat(v.path + [SymB(c, v.env).value])
    ensures var t := SymB(c, v.env).value;
            var r := SymRun(sv, AssertStmt(c), v, n);
            && r.Ok? && |r.value.outs| == (if Sat(v.path + [Neg(t)]) then 1 else 0)
            && forall i :: 0 <= i < |r.value.outs| ==> r.value.outs[i].err
  {
  }

  /** At the unrolling bound the loop body is not visited: the only possible
      result is the exit fork, and no fresh constant is made. */
  lemma WhileAtBound(sv: Solver, w: Stmt, v: SymView, n: nat)
    requires w.WhileStmt? && SymB(w.cond, v.env).Some?
    ensures var t := SymB(w.cond, v.env).value;
            var r := SymWhile(sv, w, v, MaxDepth, n);
            && r.Ok? && r.value.next == n && r.value.at.None?
            && r.value.outs == (if sv.check(v.path + [Neg(t)]) then [SymView(v.env, v.path + [Neg(t)], false)] else [])
  {
  }

  /** The exit fork of a loop comes before every state that went round the
      loop: with an exact solver, when the exit path is satisfiable the first
      result is the fork with `Not cond`. */
  lemma WhileExitFirst(sv: Solver, w: Stmt, v: SymView, d: nat, n: nat)
    requires w.WhileStmt? && d <= MaxDepth && Sound(sv) && SymB(w.cond, v.env).Some?
    requires Sat(v.path + [Neg(SymB(w.cond, v.env).value)])
    ensures var r := SymWhile(sv, w, v, d, n);
            r.Ok? ==> |r.value.outs| > 0 && r.value.outs[0] == SymView(v.env, v.path + [Neg(SymB(w.cond, v.env).value)], false)
  {
  }
}
