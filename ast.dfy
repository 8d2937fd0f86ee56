/** The WLang abstract syntax consumed by both executors (the parser and
    wlang/ast.py are not part of this model; only the node vocabulary is). */
module Ast {
  import opened Wrappers

  datatype AOp = Plus | Minus | Times
  datatype ROp = Le | Lt | Eq | Ge | Gt
  datatype BOp = And | Or | Not

  /** Arithmetic expressions: `IntConst`, `IntVar`, and `AExp` nodes with an
      operator over a list of arguments. */
  datatype AExp =
    | IntConst(val: int)
    | IntVar(name: string)
    | Arith(aop: AOp, aargs: seq<AExp>)

  /** Boolean expressions: `BoolConst`, `RelExp` and `BExp` nodes. */
  datatype BExp =
    | BoolConst(bval: bool)
    | RelExp(lhs: AExp, rop: ROp, rhs: AExp)
    | Logic(bop: BOp, bargs: seq<BExp>)

  /** Statements. A while loop carries an optional invariant that both
      executors ignore. */
  datatype Stmt =
    | SkipStmt
    | PrintStateStmt
    | AsgnStmt(lhs: string, rhs: AExp)
    | IfStmt(cond: BExp, thenStmt: Stmt, elseStmt: Option<Stmt>)
    | WhileStmt(cond: BExp, body: Stmt, inv: Option<BExp>)
    | AssertStmt(cond: BExp)
    | AssumeStmt(cond: BExp)
    | HavocStmt(vars: seq<string>)
    | StmtList(stmts: seq<Stmt>)

  /** Integer meaning of an arithmetic operator, shared by the solver terms
      and the concrete interpreter (both use unbounded integers). */
  function ArithOp(op: AOp, x: int, y: int): int {
    match op
    case Plus => x + y
    case Minus => x - y
    case Times => x * y
  }

  /** Meaning of a relational operator. */
  function RelOp(op: ROp, x: int, y: int): bool {
    match op
    case Le => x <= y
    case Lt => x < y
    case Eq => x == y
    case Ge => x >= y
    case Gt => x > y
  }
}
