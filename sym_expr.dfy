/** The expression visitors of `SymExec` (wlang/sym.py:119-180): an
    expression becomes a solver term over the symbolic environment. */
module SymExpr {
  import opened Wrappers
  import opened Ast
  import opened Smt
  import opened Interp

  /** `reduce(fn, kids)`: left fold of an arithmetic operator over terms. */
  function FoldTerm(op: AOp, ts: seq<ITerm>): ITerm
    requires |ts| > 0
  {
    if |ts| == 1 then ts[0] else Bin(op, FoldTerm(op, ts[..|ts| - 1]), ts[|ts| - 1])
  }

  /** `reduce(fn, kids, base)` with `z3.And`/`z3.Or` and a `BoolVal` base. */
  function FoldLogic(op: BOp, base: BTerm, ts: seq<BTerm>): BTerm {
    if |ts| == 0 then base
    else
      var acc := FoldLogic(op, base, ts[..|ts| - 1]);
      if op == Or then Disj(acc, ts[|ts| - 1]) else Conj(acc, ts[|ts| - 1])
  }

  /** `visit_IntConst`, `visit_IntVar` and `visit_AExp`: `None` when the
      visitor raises (an unbound variable, or `reduce` over no arguments). */
  function SymA(e: AExp, env: map<string, ITerm>): Option<ITerm>
    decreases e
  {
    match e
    case IntConst(v) => Some(Num(v))
    case IntVar(x) => if x in env then Some(env[x]) else None
    case Arith(op, args) =>
      match SymAs(args, env)
      case None => None
      case Some(ts) => if |ts| == 0 then None else Some(FoldTerm(op, ts))
  }

  /** `[self.visit(a) for a in node.args]`: the terms of the arguments, in
      order; `None` as soon as one visit raises. */
  function SymAs(args: seq<AExp>, env: map<string, ITerm>): (r: Option<seq<ITerm>>)
    decreases args
    ensures r.Some? ==> |r.value| == |args|
  {
    if |args| == 0 then Some([])
    else
      match (SymAs(args[..|args| - 1], env), SymA(args[|args| - 1], env))
      case (Some(ts), Some(t)) => Some(ts + [t])
      case _ => None
  }

  /** `visit_BoolConst`, `visit_RelExp` and `visit_BExp`: `None` when the
      visitor raises (an unbound variable, or `not` applied to other than one
      argument). */
  function SymB(e: BExp, env: map<string, ITerm>): Option<BTerm>
    decreases e
  {
    match e
    case BoolConst(b) => Some(BoolVal(b))
    case RelExp(l, op, r) =>
      (match (SymA(l, env), SymA(r, env))
       case (Some(x), Some(y)) => Some(Cmp(op, x, y))
       case _ => None)
    case Logic(op, args) =>
      match SymBs(args, env)
      case None => None
      case Some(ts) =>
        if op == Not then (if |ts| == 1 then Some(Neg(ts[0])) else None)
        else Some(FoldLogic(op, BoolVal(op == And), ts))
  }

  function SymBs(args: seq<BExp>, env: map<string, ITerm>): (r: Option<seq<BTerm>>)
    decreases args
    ensures r.Some? ==> |r.value| == |args|
  {
    if |args| == 0 then Some([])
    else
      match (SymBs(args[..|args| - 1], env), SymB(args[|args| - 1], env))
      case (Some(ts), Some(t)) => Some(ts + [t])
      case _ => None
  }

  lemma {:induction false} FoldTermValue(op: AOp, ts: seq<ITerm>, vs: seq<int>, m: Model)
    requires |ts| == |vs| > 0
    requires forall i :: 0 <= i < |ts| ==> IVal(ts[i], m) == vs[i]
    ensures IVal(FoldTerm(op, ts), m) == FoldInt(op, vs)
  {
    if |ts| > 1 {
      FoldTermValue(op, ts[..|ts| - 1], vs[..|vs| - 1], m);
    }
  }

  lemma {:induction false} FoldLogicValue(op: BOp, base: bool, ts: seq<BTerm>, vs: seq<bool>, m: Model)
    requires |ts| == |vs|
    requires forall i :: 0 <= i < |ts| ==> BVal(ts[i], m) == vs[i]
    ensures BVal(FoldLogic(op, BoolVal(base), ts), m) == FoldBool(op, base, vs)
  {
    if |ts| > 0 {
      FoldLogicValue(op, base, ts[..|ts| - 1], vs[..|vs| - 1], m);
    }
  }

  /** Concolic agreement for arithmetic: over a concrete environment that is
      the model's evaluation of the symbolic one, the symbolic visitor raises
      exactly when the concrete evaluator does, and the term it builds has the
      concrete value under the model. */
  lemma {:induction false} AgreeA(e: AExp, env: map<string, ITerm>, m: Model)
    ensures SymA(e, env).Some? <==> CEvalA(e, EnvModel(env, m)).Some?
    ensures SymA(e, env).Some? ==> IVal(SymA(e, env).value, m) == CEvalA(e, EnvModel(env, m)).value
    decreases e, 1
  {
    match e
    case IntConst(_) =>
    case IntVar(_) =>
    case Arith(op, args) =>
      AgreeAs(args, env, m);
      if SymAs(args, env).Some? && |args| > 0 {
        FoldTermValue(op, SymAs(args, env).value, CEvalAs(args, EnvModel(env, m)).value, m);
      }
  }

  lemma {:induction false} AgreeAs(args: seq<AExp>, env: map<string, ITerm>, m: Model)
    ensures SymAs(args, env).Some? <==> CEvalAs(args, EnvModel(env, m)).Some?
    ensures SymAs(args, env).Some? ==> forall i :: 0 <= i < |args| ==>
              IVal(SymAs(args, env).value[i], m) == CEvalAs(args, EnvModel(env, m)).value[i]
    decreases args, 0
  {
    if |args| > 0 {
      AgreeAs(args[..|args| - 1], env, m);
      AgreeA(args[|args| - 1], env, m);
    }
  }

  /** Concolic agreement for conditions: the term the symbolic visitor builds
      is true under the model exactly when the concrete condition holds. */
  lemma {:induction false} AgreeB(e: BExp, env: map<string, ITerm>, m: Model)
    ensures SymB(e, env).Some? <==> CEvalB(e, EnvModel(env, m)).Some?
    ensures SymB(e, env).Some? ==> BVal(SymB(e, env).value, m) == CEvalB(e, EnvModel(env, m)).value
    decreases e, 1
  {
    match e
    case BoolConst(_) =>
    case RelExp(l, op, r) =>
      AgreeA(l, env, m);
      AgreeA(r, env, m);
    case Logic(op, args) =>
      AgreeBs(args, env, m);
      if SymBs(args, env).Some? && op != Not {
        FoldLogicValue(op, op == And, SymBs(args, env).value, CEvalBs(args, EnvModel(env, m)).value, m);
      }
  }

  lemma {:induction false} AgreeBs(args: seq<BExp>, env: map<string, ITerm>, m: Model)
    ensures SymBs(args, env).Some? <==> CEvalBs(args, EnvModel(env, m)).Some?
    ensures SymBs(args, env).Some? ==> forall i :: 0 <= i < |args| ==>
              BVal(SymBs(args, env).value[i], m) == CEvalBs(args, EnvModel(env, m)).value[i]
    decreases args, 0
  {
    if |args| > 0 {
      AgreeBs(args[..|args| - 1], env, m);
      AgreeB(args[|args| - 1], env, m);
    }
  }
}
