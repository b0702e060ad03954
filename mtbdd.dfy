/**
 * Multi-terminal BDDs (freddy mtbdd_manager) over integer leaves. The
 * manager starts with the constants 0 and 1 and adds 2 and -1, so its
 * constant table is 0, 1, 2, -1. Its add and mul are the same algorithms
 * as the ADD's plus and mul (0 neutral for add; 0 absorbing and 1 neutral
 * for mul; two constants combined; otherwise Shannon recursion), so they
 * are Add.Plus and Add.Mul here; what differs are merge and the derived
 * operators, which have no shortcut for the constant 0.
 */
module Mtbdd {
  import opened Dd
  import opened Mtdd
  import A = Add

  /** The constant table after construction. */
  const Consts: seq<TEdge> := [Const(0), Const(1), Const(2), Const(-1)]

  /** agg returns the value and ignores the weight. */
  function Agg(w: bool, c: int): int { c }

  /** merge is XOR on values, never reached as only Shannon is used. */
  function Merge(a: int, b: int): int { if a == b then 0 else 1 }

  function Sem(o: Order, f: TEdge, asg: seq<bool>): int
    requires Wf(o, f) && |asg| == o.Count()
  {
    Eval(o, f, asg, Agg, Merge)
  }

  /** eval of an MTBDD is the constant of the leaf the assignment reaches. */
  lemma SemValue(o: Order, f: TEdge, asg: seq<bool>)
    requires Ctx(o) && Wf(o, f) && |asg| == o.Count()
    ensures Sem(o, f, asg) == Value(o, f, asg)
  {
    EvalValue(o, f, asg, Agg, Merge);
  }

  /** neg: consts[3] (that is -1) times f. */
  function Neg(o: Order, f: TEdge): (r: TEdge)
    requires Wf(o, f)
    ensures Wf(o, r)
  {
    A.Mul(o, Consts[3], f)
  }

  function Sub(o: Order, f: TEdge, g: TEdge): (r: TEdge)
    requires Wf(o, f) && Wf(o, g)
    ensures Wf(o, r)
  {
    A.Plus(o, f, Neg(o, g))
  }

  /** f + g - consts[2] fg. */
  function Antiv(o: Order, f: TEdge, g: TEdge): (r: TEdge)
    requires Wf(o, f) && Wf(o, g)
    ensures Wf(o, r)
  {
    Sub(o, A.Plus(o, f, g), A.Mul(o, Consts[2], A.Mul(o, f, g)))
  }

  /** consts[1] - f. */
  function Complement(o: Order, f: TEdge): (r: TEdge)
    requires Wf(o, f)
    ensures Wf(o, r)
  {
    Sub(o, Consts[1], f)
  }

  /** f + g - fg, without a shortcut for 0. */
  function Disj(o: Order, f: TEdge, g: TEdge): (r: TEdge)
    requires Wf(o, f) && Wf(o, g)
    ensures Wf(o, r)
  {
    Sub(o, A.Plus(o, f, g), A.Mul(o, f, g))
  }

  lemma NegValue(o: Order, f: TEdge, asg: seq<bool>)
    requires Wf(o, f) && |asg| == o.Count()
    ensures Value(o, Neg(o, f), asg) == -Value(o, f, asg)
  {
    A.MulValue(o, Consts[3], f, asg);
  }

  lemma SubValue(o: Order, f: TEdge, g: TEdge, asg: seq<bool>)
    requires Wf(o, f) && Wf(o, g) && |asg| == o.Count()
    ensures Value(o, Sub(o, f, g), asg) == Value(o, f, asg) - Value(o, g, asg)
  {
    NegValue(o, g, asg);
    A.PlusValue(o, f, Neg(o, g), asg);
  }

  /** The derived operators compute XOR, NOT and OR in arithmetic form. */
  lemma DerivedValue(o: Order, f: TEdge, g: TEdge, asg: seq<bool>)
    requires Wf(o, f) && Wf(o, g) && |asg| == o.Count()
    ensures var a, b := Value(o, f, asg), Value(o, g, asg);
      && Value(o, Antiv(o, f, g), asg) == a + b - 2 * (a * b)
      && Value(o, Complement(o, f), asg) == 1 - a
      && Value(o, Disj(o, f, g), asg) == a + b - a * b
  {
    var p, fg := A.Plus(o, f, g), A.Mul(o, f, g);
    A.PlusValue(o, f, g, asg);
    A.MulValue(o, f, g, asg);
    A.MulValue(o, Consts[2], fg, asg);
    SubValue(o, p, A.Mul(o, Consts[2], fg), asg);
    SubValue(o, Consts[1], f, asg);
    SubValue(o, p, fg, asg);
  }

  /**
   * On 0/1-valued operands the derived operators stay 0/1-valued and are
   * the Boolean XOR, NOT and OR.
   */
  lemma BooleanOps(o: Order, f: TEdge, g: TEdge, asg: seq<bool>)
    requires Wf(o, f) && Wf(o, g) && |asg| == o.Count()
    requires 0 <= Value(o, f, asg) <= 1 && 0 <= Value(o, g, asg) <= 1
    ensures var a, b := Value(o, f, asg) == 1, Value(o, g, asg) == 1;
      && Value(o, Antiv(o, f, g), asg) == (if a != b then 1 else 0)
      && Value(o, Complement(o, f), asg) == (if a then 0 else 1)
      && Value(o, Disj(o, f, g), asg) == (if a || b then 1 else 0)
      && Value(o, A.Mul(o, f, g), asg) == (if a && b then 1 else 0)
  {
    DerivedValue(o, f, g, asg);
    A.MulValue(o, f, g, asg);
    BitArithmetic(Value(o, f, asg), Value(o, g, asg));
  }

  /** The arithmetic forms of the Boolean operators on the values 0 and 1. */
  lemma BitArithmetic(a: int, b: int)
    requires 0 <= a <= 1 && 0 <= b <= 1
    ensures a + b - 2 * (a * b) == (if (a == 1) != (b == 1) then 1 else 0)
    ensures 1 - a == (if a == 1 then 0 else 1)
    ensures a + b - a * b == (if a == 1 || b == 1 then 1 else 0)
    ensures a * b == (if a == 1 && b == 1 then 1 else 0)
  {
    if a == 0 {
      assert a * b == 0;
    } else {
      assert a * b == b;
    }
  }
}
