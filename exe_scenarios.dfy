/** The program of `test_two` in wlang/test_exe.py, run through the concolic
    executor with an exact solver and a concrete interpreter that follows
    the language: the two states the test expects follow from the model. */
module ExeScenarios {
  import opened Wrappers
  import opened Ast
  import opened Smt
  import opened Interp
  import opened SymExpr
  import opened SymSpec
  import opened ExeSpec
  import opened ExeProps
  import opened SymScenarios

  /** A fresh `ExeState`: empty concrete environment, fresh symbolic state,
      no flags. */
  const ExeStart := ExeView(map[], Start, false, false)

  /** A statement of a list applied to a single state. */
  lemma EachOne(sv: Solver, c: Concrete, t: Stmt, v: ExeView, n: nat)
    ensures !Valid(v) ==> ExeEach(sv, c, t, [v], 1, n) == Ok(ExeRes([v], n))
    ensures Valid(v) ==> ExeEach(sv, c, t, [v], 1, n) == ExeRun(sv, c, t, v, n)
  {
    assert [v][0] == v;
    assert ExeEach(sv, c, t, [v], 0, n) == Ok(ExeRes([], n));
    if Valid(v) && ExeRun(sv, c, t, v, n).Ok? {
      var r := ExeRun(sv, c, t, v, n).value;
      assert [] + r.outs == r.outs;
    } else if !Valid(v) {
      assert [] + [v] == [v];
    }
  }

  /** After `havoc x` the one state has the symbolic state `Havocked` and a
      concrete value for `x`. */
  lemma TwoHavoc(sv: Solver, c: Concrete)
    requires Conforms(c)
    ensures var r := ExeList(sv, c, ProgOne, 1, [ExeStart], 0);
            && r.Ok? && r.value.next == 1 && |r.value.outs| == 1
            && r.value.outs[0].sym == Havocked && "x" in r.value.outs[0].con && Valid(r.value.outs[0])
  {
    var s := ProgOne;
    HavocOne(sv, c, ["x"], ExeStart, 0);
    HavocFirst(sv);
    assert "x" in (set i | 0 <= i < |["x"]| :: ["x"][i]);
    EachOne(sv, c, s.stmts[0], ExeStart, 0);
    assert ExeList(sv, c, s, 0, [ExeStart], 0) == Ok(ExeRes([ExeStart], 0));
  }

  /** After `assume x > 10` the one state has path `x > 10` and a model of
      it as concrete environment. */
  lemma TwoAssume(sv: Solver, c: Concrete)
    requires Sound(sv) && Conforms(c)
    ensures var r := ExeList(sv, c, ProgOne, 2, [ExeStart], 0);
            && r.Ok? && r.value.next == 1 && |r.value.outs| == 1
            && r.value.outs[0].sym == V2 && "x" in r.value.outs[0].con && Valid(r.value.outs[0])
  {
    var s := ProgOne;
    TwoHavoc(sv, c);
    var v1 := ExeList(sv, c, s, 1, [ExeStart], 0).value.outs[0];
    assert SymA(X, Havocked.env) == Some(Const(0));
    assert SymB(s.stmts[1].cond, Havocked.env) == Some(C1);
    assert Holds([C1], XIs(11));
    assert Havocked.path + [C1] == [C1];
    AssumeOne(sv, s.stmts[1].cond, v1, 1);
    EachOne(sv, c, s.stmts[1], v1, 1);
  }

  /** `havoc x; assume x > 10; assert x > 15` gives two states: the passed
      fork with path `x > 10, x > 15`, then the failed fork with path
      `x > 10, not x > 15`, the only one flagged as an error; each concrete
      environment is a witness of its path. */
  lemma TestTwo(sv: Solver, c: Concrete)
    requires Sound(sv) && Conforms(c)
    ensures var r := ExeRun(sv, c, ProgOne, ExeStart, 0);
            && r.Ok? && |r.value.outs| == 2
            && r.value.outs[0].sym.path == [C1, C2] && !r.value.outs[0].error
            && r.value.outs[1].sym.path == [C1, Neg(C2)] && r.value.outs[1].error
            && Witnessed(r.value.outs[0]) && Witnessed(r.value.outs[1])
  {
    var s := ProgOne;
    TwoAssume(sv, c);
    var v2 := ExeList(sv, c, s, 2, [ExeStart], 0).value.outs[0];
    assert SymA(X, V2.env) == Some(Const(0));
    assert SymB(s.stmts[2].cond, V2.env) == Some(C2);
    assert Holds([C1, Neg(C2)], XIs(12));
    assert Holds([C1, C2], XIs(16));
    assert V2.path + [C2] == [C1, C2] && V2.path + [Neg(C2)] == [C1, Neg(C2)];
    assert CEvalA(X, v2.con).Some?;
    AssertForksShape(sv, s.stmts[2].cond, v2, 1);
    EachOne(sv, c, s.stmts[2], v2, 1);
    assert ExeList(sv, c, s, 3, [ExeStart], 0) == ExeEach(sv, c, s.stmts[2], [v2], 1, 1);
    assert ExeRun(sv, c, s, ExeStart, 0) == ExeList(sv, c, s, 3, [ExeStart], 0);
  }
}
