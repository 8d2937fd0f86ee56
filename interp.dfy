/** The concrete side of the concolic executor (`int.Interpreter` and
    `int.State`). wlang/int.py is not part of this model: expressions are
    evaluated by the small evaluator below, which folds operator arguments
    the same way the symbolic visitors do, and statement execution is a
    parameter of the executors. */
module Interp {
  import opened Wrappers
  import opened Ast

  /** A concrete environment: variable name to integer value. */
  type CEnv = map<string, int>

  /** Left fold of an operator over a non-empty argument list, as
      `reduce(fn, kids)` computes it. */
  function FoldInt(op: AOp, vs: seq<int>): int
    requires |vs| > 0
  {
    if |vs| == 1 then vs[0] else ArithOp(op, FoldInt(op, vs[..|vs| - 1]), vs[|vs| - 1])
  }

  /** Left fold of a boolean connective with a base value, as
      `reduce(fn, kids, base)` computes it. */
  function FoldBool(op: BOp, base: bool, vs: seq<bool>): bool {
    if |vs| == 0 then base
    else
      var acc := FoldBool(op, base, vs[..|vs| - 1]);
      if op == Or then acc || vs[|vs| - 1] else acc && vs[|vs| - 1]
  }

  /** Concrete value of an arithmetic expression; `None` when it would raise
      (an unbound variable, or an operator applied to no arguments). */
  function CEvalA(e: AExp, con: CEnv): Option<int>
    decreases e
  {
    match e
    case IntConst(v) => Some(v)
    case IntVar(x) => if x in con then Some(con[x]) else None
    case Arith(op, args) =>
      match CEvalAs(args, con)
      case None => None
      case Some(vs) => if |vs| == 0 then None else Some(FoldInt(op, vs))
  }

  /** The values of the arguments, in order; `None` as soon as one raises. */
  function CEvalAs(args: seq<AExp>, con: CEnv): (r: Option<seq<int>>)
    decreases args
    ensures r.Some? ==> |r.value| == |args|
  {
    if |args| == 0 then Some([])
    else
      match (CEvalAs(args[..|args| - 1], con), CEvalA(args[|args| - 1], con))
      case (Some(vs), Some(v)) => Some(vs + [v])
      case _ => None
  }

  /** Concrete value of a boolean expression; `None` when it would raise
      (an unbound variable, or `not` with other than one argument). */
  function CEvalB(e: BExp, con: CEnv): Option<bool>
    decreases e
  {
    match e
    case BoolConst(b) => Some(b)
    case RelExp(l, op, r) =>
      (match (CEvalA(l, con), CEvalA(r, con))
       case (Some(x), Some(y)) => Some(RelOp(op, x, y))
       case _ => None)
    case Logic(op, args) =>
      match CEvalBs(args, con)
      case None => None
      case Some(vs) =>
        if op == Not then (if |vs| == 1 then Some(!vs[0]) else None)
        else Some(FoldBool(op, op == And, vs))
  }

  function CEvalBs(args: seq<BExp>, con: CEnv): (r: Option<seq<bool>>)
    decreases args
    ensures r.Some? ==> |r.value| == |args|
  {
    if |args| == 0 then Some([])
    else
      match (CEvalBs(args[..|args| - 1], con), CEvalB(args[|args| - 1], con))
      case (Some(vs), Some(v)) => Some(vs + [v])
      case _ => None
  }

  /** The concrete statement interpreter, `int.Interpreter().visit(stmt,
      state)`: the state after the statement, or `None` when it raises. */
  datatype Concrete = Concrete(run: (Stmt, CEnv) -> Option<CEnv>)

  /** What the executors rely on of the concrete interpreter: an assignment
      stores the value of its right-hand side, and havoc binds exactly the
      listed variables to some values (the values themselves are arbitrary). */
  ghost predicate Conforms(c: Concrete) {
    && (forall x, e, con :: c.run(AsgnStmt(x, e), con) ==
          (match CEvalA(e, con) case Some(v) => Some(con[x := v]) case None => None))
    && (forall vs, con :: HavocConforms(c.run(HavocStmt(vs), con), vs, con))
  }

  ghost predicate HavocConforms(r: Option<CEnv>, vs: seq<string>, con: CEnv) {
    && r.Some?
    && r.value.Keys == con.Keys + (set i | 0 <= i < |vs| :: vs[i])
    && forall k :: k in con && k !in vs ==> r.value[k] == con[k]
  }
}
