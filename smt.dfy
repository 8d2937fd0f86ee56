/** The solver seen as a satisfiability oracle: solver terms, their meaning
    under a model, semantic satisfiability of a path condition, and the
    oracle interface (`check` and `model`) that the executors consult. */
module Smt {
  import opened Ast

  /** Integer-sorted solver terms. `Const(id)` is a fresh constant made by
      `z3.FreshInt`; distinct ids are distinct constants. */
  datatype ITerm =
    | Num(n: int)
    | Const(id: nat)
    | Bin(op: AOp, l: ITerm, r: ITerm)

  /** Boolean-sorted solver terms. */
  datatype BTerm =
    | BoolVal(b: bool)
    | Cmp(op: ROp, x: ITerm, y: ITerm)
    | Neg(arg: BTerm)
    | Conj(a: BTerm, b2: BTerm)
    | Disj(a: BTerm, b2: BTerm)

  /** A model with model completion: a value for every fresh constant. */
  type Model = nat -> int

  function IVal(t: ITerm, m: Model): int {
    match t
    case Num(n) => n
    case Const(id) => m(id)
    case Bin(op, l, r) => ArithOp(op, IVal(l, m), IVal(r, m))
  }

  function BVal(t: BTerm, m: Model): bool {
    match t
    case BoolVal(b) => b
    case Cmp(op, x, y) => RelOp(op, IVal(x, m), IVal(y, m))
    case Neg(a) => !BVal(a, m)
    case Conj(a, b) => BVal(a, m) && BVal(b, m)
    case Disj(a, b) => BVal(a, m) || BVal(b, m)
  }

  /** The model makes every constraint of the path condition true. */
  ghost predicate Holds(path: seq<BTerm>, m: Model) {
    forall i :: 0 <= i < |path| ==> BVal(path[i], m)
  }

  /** The path condition has a model. `is_empty` is the negation of this. */
  ghost predicate Sat(path: seq<BTerm>) {
    exists m: Model :: Holds(path, m)
  }

  /** Satisfiability is monotone: dropping constraints from the end keeps a
      satisfiable path satisfiable. */
  lemma SatPrefix(p: seq<BTerm>, q: seq<BTerm>)
    requires Sat(p + q)
    ensures Sat(p)
  {
    var m :| Holds(p + q, m);
    forall i | 0 <= i < |p| ensures BVal(p[i], m) {
      assert (p + q)[i] == p[i];
    }
    assert Holds(p, m);
  }

  /** A model of a path is a model of the path with one more constraint the
      model makes true. */
  lemma HoldsAppend(p: seq<BTerm>, c: BTerm, m: Model)
    requires Holds(p, m) && BVal(c, m)
    ensures Holds(p + [c], m)
  {
    forall i | 0 <= i < |p + [c]| ensures BVal((p + [c])[i], m) {
      if i < |p| { assert (p + [c])[i] == p[i]; }
    }
  }

  /** A satisfiable path stays satisfiable under `c` or under `Not c`. */
  lemma SatSplit(p: seq<BTerm>, c: BTerm)
    requires Sat(p)
    ensures Sat(p + [c]) || Sat(p + [Neg(c)])
  {
    var m :| Holds(p, m);
    var extra := if BVal(c, m) then c else Neg(c);
    forall i | 0 <= i < |p + [extra]| ensures BVal((p + [extra])[i], m) {
      if i < |p| { assert (p + [extra])[i] == p[i]; }
    }
    assert Holds(p + [extra], m);
  }

  /** The solver oracle: `check` answers sat/unsat for a path condition and
      `model` returns a model of a satisfiable one. */
  datatype Solver = Solver(check: seq<BTerm> -> bool, model: seq<BTerm> -> Model)

  /** The oracle is exact (no `unknown`) and its models are witnesses. */
  ghost predicate Sound(s: Solver) {
    forall p :: (s.check(p) <==> Sat(p)) && (Sat(p) ==> Holds(p, s.model(p)))
  }

  /** Evaluation of a symbolic environment under a model: the concrete state
      that `pick_concerete` builds. */
  function EnvModel(env: map<string, ITerm>, m: Model): (con: map<string, int>)
    ensures con.Keys == env.Keys
    ensures forall k :: k in env ==> con[k] == IVal(env[k], m)
  {
    map k | k in env :: IVal(env[k], m)
  }
}
