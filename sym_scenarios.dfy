/** The programs of wlang/test_sym.py, run through the symbolic executor
    with an exact solver: the number and order of the resulting states the
    tests expect follow from the model. */
module SymScenarios {
  import opened Wrappers
  import opened Ast
  import opened Smt
  import opened SymExpr
  import opened SymSpec
  import opened Sym

  /** A fresh `SymState`. */
  const Start := SymView(map[], [], false)

  const X := IntVar("x")

  function Rel(l: AExp, op: ROp, k: int): BExp {
    RelExp(l, op, IntConst(k))
  }

  /** The state right after `havoc x` from a fresh state. */
  const Havocked := SymView(map["x" := Const(0)], [], false)

  /** The model that gives the first fresh constant the value `k`. */
  function XIs(k: int): Model {
    (id: nat) => k
  }

  lemma HavocFirst(sv: Solver)
    ensures SymRun(sv, HavocStmt(["x"]), Start, 0) == Ok(SymRes([Havocked], Havocked, Some(0), 1))
  {
    assert HavocEnv(map[], ["x"], 0) == HavocEnv(map[], [], 0)["x" := Const(0)];
  }

  /** A statement list is visited statement by statement. */
  lemma RunList(sv: Solver, s: Stmt, v: SymView, n: nat)
    requires s.StmtList?
    ensures SymRun(sv, s, v, n) == SymList(sv, s, |s.stmts|, v, n)
  {
  }

  /** A statement applied to a single live state. */
  lemma ListOne(sv: Solver, t: Stmt, v: SymView, vAt: Option<nat>, self0: SymView, n0: nat)
    ensures ListStep(sv, t, [v], 1, vAt, self0, n0) ==
            match SymRun(sv, t, v, n0)
            case Fatal => Fatal
            case Ok(r) => Ok(Merge(SymRes([], self0, None, n0), r, vAt == Some(0)))
  {
    assert ListStep(sv, t, [v], 0, vAt, self0, n0) == Ok(SymRes([], self0, None, n0));
  }

  /** A list whose first statement is `havoc x` hands every later statement
      the state `Havocked`. */
  lemma AfterHavoc(sv: Solver, s: Stmt)
    requires s.StmtList? && |s.stmts| >= 1 && s.stmts[0] == HavocStmt(["x"])
    ensures SymList(sv, s, 1, Start, 0) == Ok(SymRes([Havocked], Havocked, Some(0), 1))
  {
    HavocFirst(sv);
    ListOne(sv, s.stmts[0], Start, Some(0), Start, 0);
    assert SymList(sv, s, 0, Start, 0) == Ok(SymRes([Start], Start, Some(0), 0));
    assert ListStep(sv, s.stmts[0], [Start], 1, Some(0), Start, 0) == Ok(Merge(SymRes([], Start, None, 0), SymRes([Havocked], Havocked, Some(0), 1), true));
    assert Merge(SymRes([], Start, None, 0), SymRes([Havocked], Havocked, Some(0), 1), true) == SymRes([Havocked], Havocked, Some(0), 1);
    assert SymList(sv, s, 1, Start, 0) == ListStep(sv, s.stmts[0], [Start], 1, Some(0), Start, 0);
  }

  /** `havoc x; assume x > 10; assert x > 15` (test_one, test_SymState_methods). */
  const ProgOne := StmtList([HavocStmt(["x"]), AssumeStmt(Rel(X, Gt, 10)), AssertStmt(Rel(X, Gt, 15))])

  const C1 := Cmp(Gt, Const(0), Num(10))
  const C2 := Cmp(Gt, Const(0), Num(15))
  const V2 := SymView(Havocked.env, [C1], false)

  lemma OneAssume(sv: Solver)
    requires Sound(sv)
    ensures SymList(sv, ProgOne, 2, Start, 0) == Ok(SymRes([V2], V2, Some(0), 1))
  {
    AfterHavoc(sv, ProgOne);
    assert SymA(X, Havocked.env) == Some(Const(0));
    assert SymB(ProgOne.stmts[1].cond, Havocked.env) == Some(C1);
    assert Holds([C1], XIs(11));
    assert Havocked.path + [C1] == [C1];
    assert sv.check([C1]);
    assert SymAssume(sv, ProgOne.stmts[1].cond, Havocked, 1) == Ok(SymRes([V2], V2, Some(0), 1));
    ListOne(sv, ProgOne.stmts[1], Havocked, Some(0), Havocked, 1);
    assert Merge(SymRes([], Havocked, None, 1), SymRes([V2], V2, Some(0), 1), true) == SymRes([V2], V2, Some(0), 1);
    assert SymList(sv, ProgOne, 2, Start, 0) == ListStep(sv, ProgOne.stmts[1], [Havocked], 1, Some(0), Havocked, 1);
  }

  lemma OneAssert(sv: Solver)
    requires Sound(sv)
    ensures SymAssert(sv, ProgOne.stmts[2].cond, V2, 1) ==
            Ok(SymRes([SymView(V2.env, [C1, Neg(C2)], true), SymView(V2.env, [C1, C2], false)],
                      SymView(V2.env, [C1, C2], false), Some(1), 1))
  {
    assert SymA(X, V2.env) == Some(Const(0));
    assert SymB(ProgOne.stmts[2].cond, V2.env) == Some(C2);
    assert Holds([C1, Neg(C2)], XIs(12));
    assert Holds([C1, C2], XIs(16));
    var f := WithPc(ForkChild(V2), Neg(C2)).(err := true);
    var tv := WithPc(V2, C2);
    assert f.path == [C1, Neg(C2)] && tv.path == [C1, C2];
    assert sv.check(f.path) && sv.check(tv.path);
    assert f == SymView(V2.env, [C1, Neg(C2)], true);
    assert [f] + [tv] == [f, tv];
    assert SymAssert(sv, ProgOne.stmts[2].cond, V2, 1) == Ok(SymRes([f] + [tv], tv, Some(|[f]|), 1));
  }

  /** Two states: the failing fork `x > 10, not x > 15`, flagged as an error,
      then the passing one `x > 10, x > 15`, not flagged. */
  lemma TestOne(sv: Solver)
    requires Sound(sv)
    ensures var r := SymRun(sv, ProgOne, Start, 0);
            && r.Ok? && |r.value.outs| == 2
            && r.value.outs[0].err && !r.value.outs[1].err
            && r.value.outs[1].path == [C1, C2]
  {
    var f := SymView(V2.env, [C1, Neg(C2)], true);
    var tv := SymView(V2.env, [C1, C2], false);
    OneAssume(sv);
    OneAssert(sv);
    ListOne(sv, ProgOne.stmts[2], V2, Some(0), V2, 1);
    assert Merge(SymRes([], V2, None, 1), SymRes([f, tv], tv, Some(1), 1), true) == SymRes([f, tv], tv, Some(1), 1);
    assert SymList(sv, ProgOne, 3, Start, 0) == ListStep(sv, ProgOne.stmts[2], [V2], 1, Some(0), V2, 1);
  }

  /** `havoc x; assume false` (test_assume_assume). */
  const ProgAssumeFalse := StmtList([HavocStmt(["x"]), AssumeStmt(BoolConst(false))])

  /** No state survives, and the caller's own state, which the visitors
      extended with `false`, has an unsatisfiable path. */
  lemma TestAssumeFalse(sv: Solver)
    requires Sound(sv)
    ensures var r := SymRun(sv, ProgAssumeFalse, Start, 0);
            r.Ok? && r.value.outs == [] && !sv.check(r.value.self.path)
  {
    AfterHavoc(sv, ProgAssumeFalse);
    var v2 := SymView(Havocked.env, [BoolVal(false)], false);
    assert !Sat([BoolVal(false)]) by {
      forall m: Model ensures !Holds([BoolVal(false)], m) {
        assert !BVal([BoolVal(false)][0], m);
      }
    }
    assert Havocked.path + [BoolVal(false)] == [BoolVal(false)];
    assert !sv.check([BoolVal(false)]);
    assert SymAssume(sv, ProgAssumeFalse.stmts[1].cond, Havocked, 1) == Ok(SymRes([], v2, None, 1));
    ListOne(sv, ProgAssumeFalse.stmts[1], Havocked, Some(0), Havocked, 1);
    assert Merge(SymRes([], Havocked, None, 1), SymRes([], v2, None, 1), true) == SymRes([], v2, None, 1);
    assert SymList(sv, ProgAssumeFalse, 2, Start, 0) == ListStep(sv, ProgAssumeFalse.stmts[1], [Havocked], 1, Some(0), Havocked, 1);
  }

  /** An `if` whose branches assign constants to `x`, on a state where both
      `cond` and `Not cond` are satisfiable, gives two states. */
  lemma IfTwoAsgn(sv: Solver, v: SymView, cond: BExp, x: string, a: int, b: int, n: nat)
    requires Sound(sv) && SymB(cond, v.env).Some?
    requires Sat(v.path + [SymB(cond, v.env).value]) && Sat(v.path + [Neg(SymB(cond, v.env).value)])
    ensures var r := SymRun(sv, IfStmt(cond, AsgnStmt(x, IntConst(a)), Some(AsgnStmt(x, IntConst(b)))), v, n);
            r.Ok? && |r.value.outs| == 2
  {
    var t := SymB(cond, v.env).value;
    var tv := WithPc(v, t);
    var ev := WithPc(ForkChild(v), Neg(t));
    assert sv.check(tv.path) && sv.check(ev.path);
    var ta := v.(path := tv.path, env := v.env[x := Num(a)]);
    var eb := ForkChild(v).(path := ev.path, env := v.env[x := Num(b)]);
    assert IfBranch(sv, IfStmt(cond, AsgnStmt(x, IntConst(a)), Some(AsgnStmt(x, IntConst(b)))), true, tv, n)
        == Ok(SymRes([ta], ta, Some(0), n));
    assert IfBranch(sv, IfStmt(cond, AsgnStmt(x, IntConst(a)), Some(AsgnStmt(x, IntConst(b)))), false, ev, n)
        == Ok(SymRes([eb], eb, Some(0), n));
  }

  /** `havoc x; if x < 3 then (if x >= 1 then y := 1 else y := 2) else
      (if x <= 10 then z := 1 else z := 2)` (test_if; each block holds a
      single statement). */
  const ProgIf := StmtList([HavocStmt(["x"]),
    IfStmt(Rel(X, Lt, 3),
           IfStmt(Rel(X, Ge, 1), AsgnStmt("y", IntConst(1)), Some(AsgnStmt("y", IntConst(2)))),
           Some(IfStmt(Rel(X, Le, 10), AsgnStmt("z", IntConst(1)), Some(AsgnStmt("z", IntConst(2))))))])

  const IfC := Cmp(Lt, Const(0), Num(3))
  const IfC1 := Cmp(Ge, Const(0), Num(1))
  const IfC2 := Cmp(Le, Const(0), Num(10))

  /** The paths of `ProgIf` are all satisfiable. */
  lemma IfPathsSat()
    ensures Sat([IfC]) && Sat([Neg(IfC)])
    ensures Sat([IfC] + [IfC1]) && Sat([IfC] + [Neg(IfC1)])
    ensures Sat([Neg(IfC)] + [IfC2]) && Sat([Neg(IfC)] + [Neg(IfC2)])
  {
    assert Holds([IfC], XIs(1)) && Holds([Neg(IfC)], XIs(5));
    assert [IfC] + [IfC1] == [IfC, IfC1] && Holds([IfC, IfC1], XIs(1));
    assert [IfC] + [Neg(IfC1)] == [IfC, Neg(IfC1)] && Holds([IfC, Neg(IfC1)], XIs(0));
    assert [Neg(IfC)] + [IfC2] == [Neg(IfC), IfC2] && Holds([Neg(IfC), IfC2], XIs(5));
    assert [Neg(IfC)] + [Neg(IfC2)] == [Neg(IfC), Neg(IfC2)] && Holds([Neg(IfC), Neg(IfC2)], XIs(11));
  }

  /** The `if` of `ProgIf` after `havoc x`: each inner `if` gives two
      states. */
  lemma IfFour(sv: Solver)
    requires Sound(sv)
    ensures var r := SymRun(sv, ProgIf.stmts[1], Havocked, 1);
            r.Ok? && |r.value.outs| == 4
  {
    var s := ProgIf.stmts[1];
    IfPathsSat();
    assert SymA(X, Havocked.env) == Some(Const(0));
    assert SymB(s.cond, Havocked.env) == Some(IfC);
    var tv := WithPc(Havocked, IfC);
    var ev := WithPc(ForkChild(Havocked), Neg(IfC));
    assert tv.path == [IfC] && ev.path == [Neg(IfC)];
    assert SymB(s.thenStmt.cond, tv.env) == Some(IfC1);
    assert SymB(s.elseStmt.value.cond, ev.env) == Some(IfC2);
    IfTwoAsgn(sv, tv, Rel(X, Ge, 1), "y", 1, 2, 1);
    var th := SymRun(sv, s.thenStmt, tv, 1).value;
    assert IfBranch(sv, s, true, tv, 1) == Ok(th);
    IfTwoAsgn(sv, ev, Rel(X, Le, 10), "z", 1, 2, th.next);
    var el := SymRun(sv, s.elseStmt.value, ev, th.next).value;
    assert IfBranch(sv, s, false, ev, th.next) == Ok(el);
    assert SymIf(sv, s, Havocked, 1) == Ok(SymRes(th.outs + el.outs, th.self, th.at, el.next));
  }

  /** Four states: every one of the four paths is satisfiable. */
  lemma TestIf(sv: Solver)
    requires Sound(sv)
    ensures var r := SymRun(sv, ProgIf, Start, 0);
            r.Ok? && |r.value.outs| == 4
  {
    var s := ProgIf;
    AfterHavoc(sv, s);
    IfFour(sv);
    var r := SymRun(sv, s.stmts[1], Havocked, 1).value;
    ListOne(sv, s.stmts[1], Havocked, Some(0), Havocked, 1);
    assert SymList(sv, s, 2, Start, 0) == ListStep(sv, s.stmts[1], [Havocked], 1, Some(0), Havocked, 1);
    assert SymList(sv, s, 2, Start, 0) == Ok(Merge(SymRes([], Havocked, None, 1), r, true));
    RunList(sv, s, Start, 0);
  }

  /** `havoc x; if cond then x := 1`, with no else-branch, on a fresh state:
      two states when both `cond` and `Not cond` can hold after the havoc,
      the assigned then-state and the fork that skipped the branch. */
  lemma HavocIfTwo(sv: Solver, cond: BExp)
    requires Sound(sv) && SymB(cond, Havocked.env).Some?
    requires Sat([SymB(cond, Havocked.env).value]) && Sat([Neg(SymB(cond, Havocked.env).value)])
    ensures var r := SymRun(sv, StmtList([HavocStmt(["x"]), IfStmt(cond, AsgnStmt("x", IntConst(1)), None)]), Start, 0);
            r.Ok? && |r.value.outs| == 2
  {
    var s := StmtList([HavocStmt(["x"]), IfStmt(cond, AsgnStmt("x", IntConst(1)), None)]);
    var t := SymB(cond, Havocked.env).value;
    var tv := WithPc(Havocked, t);
    var ev := WithPc(ForkChild(Havocked), Neg(t));
    assert tv.path == [t] && ev.path == [Neg(t)];
    assert sv.check(tv.path) && sv.check(ev.path);
    var ta := tv.(env := tv.env["x" := Num(1)]);
    assert IfBranch(sv, s.stmts[1], true, tv, 1) == Ok(SymRes([ta], ta, Some(0), 1));
    assert IfBranch(sv, s.stmts[1], false, ev, 1) == Ok(SymRes([ev], ev, Some(0), 1));
    var r := SymRes([ta, ev], ta, Some(0), 1);
    assert [ta] + [ev] == [ta, ev];
    assert SymIf(sv, s.stmts[1], Havocked, 1) == Ok(r);
    assert SymRun(sv, s.stmts[1], Havocked, 1) == Ok(r);
    AfterHavoc(sv, s);
    ListOne(sv, s.stmts[1], Havocked, Some(0), Havocked, 1);
    assert SymList(sv, s, 2, Start, 0) == ListStep(sv, s.stmts[1], [Havocked], 1, Some(0), Havocked, 1);
    assert SymList(sv, s, 2, Start, 0) == Ok(Merge(SymRes([], Havocked, None, 1), r, true));
    RunList(sv, s, Start, 0);
  }

  /** The terms of a two-argument `and` or `or`. */
  lemma SymBTwo(op: BOp, a: BExp, b: BExp, env: map<string, ITerm>)
    requires op != Not && SymB(a, env).Some? && SymB(b, env).Some?
    ensures var x, y := SymB(a, env).value, SymB(b, env).value;
            SymB(Logic(op, [a, b]), env) ==
              Some(if op == Or then Disj(Disj(BoolVal(false), x), y) else Conj(Conj(BoolVal(true), x), y))
  {
    var x, y := SymB(a, env).value, SymB(b, env).value;
    assert [a][..0] == [] && [] + [x] == [x];
    assert SymBs([a], env) == Some([x]);
    assert [a, b][..1] == [a] && [x] + [y] == [x, y];
    assert SymBs([a, b], env) == Some([x, y]);
    var base := BoolVal(op == And);
    assert [x, y][..1] == [x] && [x][..0] == [];
    assert FoldLogic(op, base, [x]) == if op == Or then Disj(base, x) else Conj(base, x);
  }

  const IsZero := Rel(X, Eq, 0)
  const ZeroC := Cmp(Eq, Const(0), Num(0))

  /** `havoc x; if x = 0 then x := 1` (test_relExp): two states. */
  lemma TestRelExp(sv: Solver)
    requires Sound(sv)
    ensures var r := SymRun(sv, StmtList([HavocStmt(["x"]), IfStmt(IsZero, AsgnStmt("x", IntConst(1)), None)]), Start, 0);
            r.Ok? && |r.value.outs| == 2
  {
    assert SymB(IsZero, Havocked.env) == Some(ZeroC);
    assert Holds([ZeroC], XIs(0)) && Holds([Neg(ZeroC)], XIs(1));
    HavocIfTwo(sv, IsZero);
  }

  /** `x > 0 and x < 5 or x > 10`, grouped both ways. */
  const Band := Logic(Or, [Logic(And, [Rel(X, Gt, 0), Rel(X, Lt, 5)]), Rel(X, Gt, 10)])
  const BandRight := Logic(And, [Rel(X, Gt, 0), Logic(Or, [Rel(X, Lt, 5), Rel(X, Gt, 10)])])

  /** `havoc x; if not (x = 0) then x := 1` (the first program of
      test_BExp): two states. */
  lemma TestBExpNot(sv: Solver)
    requires Sound(sv)
    ensures var r := SymRun(sv, StmtList([HavocStmt(["x"]), IfStmt(Logic(Not, [IsZero]), AsgnStmt("x", IntConst(1)), None)]), Start, 0);
            r.Ok? && |r.value.outs| == 2
  {
    var nz := Logic(Not, [IsZero]);
    assert SymB(IsZero, Havocked.env) == Some(ZeroC);
    assert [IsZero][..0] == [] && [] + [ZeroC] == [ZeroC];
    assert SymBs([IsZero], Havocked.env) == Some([ZeroC]);
    assert SymB(nz, Havocked.env) == Some(Neg(ZeroC));
    assert Holds([Neg(ZeroC)], XIs(1)) && Holds([Neg(Neg(ZeroC))], XIs(0));
    HavocIfTwo(sv, nz);
  }

  const G0 := Cmp(Gt, Const(0), Num(0))
  const L5 := Cmp(Lt, Const(0), Num(5))
  const G10 := Cmp(Gt, Const(0), Num(10))

  /** `havoc x; if x > 0 and x < 5 or x > 10 then x := 1` (the second
      program of test_BExp), read with `and` binding tighter: two states. */
  lemma TestBExpAndOr(sv: Solver)
    requires Sound(sv)
    ensures var r := SymRun(sv, StmtList([HavocStmt(["x"]), IfStmt(Band, AsgnStmt("x", IntConst(1)), None)]), Start, 0);
            r.Ok? && |r.value.outs| == 2
  {
    var env := Havocked.env;
    assert SymB(Rel(X, Gt, 0), env) == Some(G0) && SymB(Rel(X, Lt, 5), env) == Some(L5);
    assert SymB(Rel(X, Gt, 10), env) == Some(G10);
    SymBTwo(And, Rel(X, Gt, 0), Rel(X, Lt, 5), env);
    SymBTwo(Or, Band.bargs[0], Rel(X, Gt, 10), env);
    var tb := Disj(Disj(BoolVal(false), Conj(Conj(BoolVal(true), G0), L5)), G10);
    assert Holds([tb], XIs(1)) && Holds([Neg(tb)], XIs(7));
    HavocIfTwo(sv, Band);
  }

  /** The same program read with `or` binding tighter: two states as well. */
  lemma TestBExpOrAnd(sv: Solver)
    requires Sound(sv)
    ensures var r := SymRun(sv, StmtList([HavocStmt(["x"]), IfStmt(BandRight, AsgnStmt("x", IntConst(1)), None)]), Start, 0);
            r.Ok? && |r.value.outs| == 2
  {
    var env := Havocked.env;
    assert SymB(Rel(X, Gt, 0), env) == Some(G0) && SymB(Rel(X, Lt, 5), env) == Some(L5);
    assert SymB(Rel(X, Gt, 10), env) == Some(G10);
    SymBTwo(Or, Rel(X, Lt, 5), Rel(X, Gt, 10), env);
    SymBTwo(And, Rel(X, Gt, 0), BandRight.bargs[1], env);
    var tr := Conj(Conj(BoolVal(true), G0), Disj(Disj(BoolVal(false), L5), G10));
    assert Holds([tr], XIs(1)) && Holds([Neg(tr)], XIs(7));
    HavocIfTwo(sv, BandRight);
  }

  /** `havoc x; while x < 3 do x := x + 1` (test_while). */
  const Loop := WhileStmt(Rel(X, Lt, 3), AsgnStmt("x", Arith(Plus, [X, IntConst(1)])), None)
  const ProgWhile := StmtList([HavocStmt(["x"]), Loop])

  /** The term bound to `x` after `d` rounds: the havocked constant plus
      `d`, built one `+ 1` at a time. */
  function Tm(d: nat): ITerm {
    if d == 0 then Const(0) else Bin(Plus, Tm(d - 1), Num(1))
  }

  /** The loop condition at round `d`. */
  function Cd(d: nat): BTerm {
    Cmp(Lt, Tm(d), Num(3))
  }

  /** The path after `d` rounds: the condition held at every earlier
      round. */
  function PathAt(d: nat): seq<BTerm> {
    if d == 0 then [] else PathAt(d - 1) + [Cd(d - 1)]
  }

  /** The state that reaches the loop head after `d` rounds. */
  function Round(d: nat): SymView {
    SymView(map["x" := Tm(d)], PathAt(d), false)
  }

  lemma {:induction false} TmValue(d: nat, c: int)
    ensures IVal(Tm(d), XIs(c)) == c + d
  {
    if d > 0 {
      TmValue(d - 1, c);
    }
  }

  /** Starting `x` at `c`, the first `d` rounds all see `x < 3` as long as
      `c + d <= 3`. */
  lemma {:induction false} PathHolds(d: nat, c: int)
    requires c + d <= 3
    ensures Holds(PathAt(d), XIs(c))
  {
    if d > 0 {
      PathHolds(d - 1, c);
      TmValue(d - 1, c);
      HoldsAppend(PathAt(d - 1), Cd(d - 1), XIs(c));
    }
  }

  /** At round `d` the loop condition is `Cd(d)`; the exit path is
      satisfiable (start `x` at `3 - d`), and below the bound so is the path
      that goes round once more (start `x` at `2 - d`). */
  lemma LoopPaths(d: nat)
    ensures SymB(Loop.cond, Round(d).env) == Some(Cd(d))
    ensures Sat(PathAt(d) + [Neg(Cd(d))]) && Sat(PathAt(d + 1))
  {
    assert SymA(X, Round(d).env) == Some(Tm(d));
    PathHolds(d, 3 - d);
    TmValue(d, 3 - d);
    HoldsAppend(PathAt(d), Neg(Cd(d)), XIs(3 - d));
    PathHolds(d + 1, 2 - d);
  }

  /** The body `x := x + 1` takes the state that passed the condition at
      round `d` to the state of round `d + 1`. */
  lemma LoopBody(sv: Solver, d: nat, n: nat)
    ensures var u := Round(d + 1);
            SymRun(sv, Loop.body, WithPc(Round(d), Cd(d)), n) == Ok(SymRes([u], u, Some(0), n))
  {
    var env := Round(d).env;
    var args := [X, IntConst(1)];
    assert args[..1] == [X] && [X][..0] == [];
    assert "x" in env && SymA(X, env) == Some(Tm(d));
    assert SymAs([], env) == Some([]);
    assert [] + [Tm(d)] == [Tm(d)];
    assert SymAs([X], env) == Some([Tm(d)]);
    assert [Tm(d)] + [Num(1)] == [Tm(d), Num(1)];
    assert SymAs(args, env) == Some([Tm(d), Num(1)]);
    assert [Tm(d), Num(1)][..1] == [Tm(d)];
    assert FoldTerm(Plus, [Tm(d), Num(1)]) == Tm(d + 1);
    assert env["x" := Tm(d + 1)] == Round(d + 1).env;
  }

  /** From round `d` on, the loop yields one exit state per remaining round
      up to the unrolling bound: `11 - d` states in all. */
  lemma {:induction false} LoopCount(sv: Solver, d: nat, n: nat)
    requires Sound(sv) && d <= MaxDepth
    ensures var r := SymWhile(sv, Loop, Round(d), d, n);
            r.Ok? && |r.value.outs| == MaxDepth + 1 - d
    decreases MaxDepth - d
  {
    var v := Round(d);
    LoopPaths(d);
    var tv := WithPc(v, Cd(d));
    var fv := WithPc(ForkChild(v), Neg(Cd(d)));
    assert sv.check(fv.path);
    if d < MaxDepth {
      assert tv.path == PathAt(d + 1);
      assert sv.check(tv.path);
      var u := Round(d + 1);
      LoopBody(sv, d, n);
      LoopCount(sv, d + 1, n);
      var l := SymWhile(sv, Loop, u, d + 1, n).value;
      assert WhileEach(sv, Loop, [u], 0, Some(0), d, u, n) == Ok(SymRes([], u, None, n));
      assert WhileEach(sv, Loop, [u], 1, Some(0), d, u, n) == Ok(Merge(SymRes([], u, None, n), l, true));
      assert WhileTrue(sv, Loop, tv, d, n) == Ok(Merge(SymRes([], u, None, n), l, true));
    }
  }

  /** Eleven states: the loop exits after 0, 1, ..., 10 rounds, and the
      paths that go round an eleventh time are dropped at the bound. */
  lemma TestWhile(sv: Solver)
    requires Sound(sv)
    ensures var r := SymRun(sv, ProgWhile, Start, 0);
            r.Ok? && |r.value.outs| == 11
  {
    var s := ProgWhile;
    AfterHavoc(sv, s);
    assert Round(0) == Havocked;
    LoopCount(sv, 0, 1);
    var r := SymRun(sv, s.stmts[1], Havocked, 1).value;
    ListOne(sv, s.stmts[1], Havocked, Some(0), Havocked, 1);
    assert SymList(sv, s, 2, Start, 0) == ListStep(sv, s.stmts[1], [Havocked], 1, Some(0), Havocked, 1);
    assert SymList(sv, s, 2, Start, 0) == Ok(Merge(SymRes([], Havocked, None, 1), r, true));
    RunList(sv, s, Start, 0);
  }
}
