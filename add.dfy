/**
 * Algebraic decision diagrams (freddy add_manager) over integer values:
 * Shannon nodes, regular edges, and arithmetic on the leaves. The constant
 * table holds 0, 1, 2 and -1 at indices 0 to 3.
 */
module Add {
  import opened Dd
  import opened Mtdd

  /** agg ignores the edge weight. */
  function Agg(w: bool, c: int): int { c }

  /** comb: no weight is ever combined. */
  function Comb(w1: bool, w2: bool): bool { false }

  /** merge is never used, as no Davio expansion occurs. */
  function Merge(a: int, b: int): int { 0 }

  const Zero: TEdge := Const(0)
  const One: TEdge := Const(1)

  /** What eval returns for f under asg. */
  function Sem(o: Order, f: TEdge, asg: seq<bool>): int
    requires Wf(o, f) && |asg| == o.Count()
  {
    Eval(o, f, asg, Agg, Merge)
  }

  /** eval of an ADD is the constant of the leaf the assignment reaches. */
  lemma SemValue(o: Order, f: TEdge, asg: seq<bool>)
    requires Ctx(o) && Wf(o, f) && |asg| == o.Count()
    ensures Sem(o, f, asg) == Value(o, f, asg)
  {
    EvalValue(o, f, asg, Agg, Merge);
  }

  /** Semantics on the cofactors at the top variable of two operands. */
  lemma SplitValue(o: Order, f: TEdge, g: TEdge, x: nat, asg: seq<bool>)
    requires x < o.Count() && Wf(o, f) && Wf(o, g) && |asg| == o.Count()
    ensures Value(o, Cofactor(o, f, x, asg[x]), asg) == Value(o, f, asg)
    ensures Value(o, Cofactor(o, g, x, asg[x]), asg) == Value(o, g, asg)
  {
    CofValue(o, f, x, asg);
    CofValue(o, g, x, asg);
  }

  /**
   * mul: the constant 0 absorbs, 1 is neutral, two constants multiply,
   * otherwise the products of the cofactors at the top variable are joined
   * by branch.
   */
  function Mul(o: Order, f: TEdge, g: TEdge): (r: TEdge)
    requires Wf(o, f) && Wf(o, g)
    ensures Wf(o, r)
    decreases Size(f) + Size(g)
  {
    if f == Zero || g == Zero then Zero
    else if f == One then g
    else if g == One then f
    else if f.v.Leaf? && g.v.Leaf? then Const(f.v.c * g.v.c)
    else
      var x := TopVar(o, f, g);
      Branch(o, x, Mul(o, Cofactor(o, f, x, true), Cofactor(o, g, x, true)),
                   Mul(o, Cofactor(o, f, x, false), Cofactor(o, g, x, false)))
  }

  /** mul multiplies the denoted values pointwise. */
  lemma {:induction false} MulValue(o: Order, f: TEdge, g: TEdge, asg: seq<bool>)
    requires Wf(o, f) && Wf(o, g) && |asg| == o.Count()
    ensures Value(o, Mul(o, f, g), asg) == Value(o, f, asg) * Value(o, g, asg)
    decreases Size(f) + Size(g)
  {
    if f == Zero || g == Zero || f == One || g == One || (f.v.Leaf? && g.v.Leaf?) {
    } else {
      var x := TopVar(o, f, g);
      var a := asg[x];
      MulValue(o, Cofactor(o, f, x, a), Cofactor(o, g, x, a), asg);
      SplitValue(o, f, g, x, asg);
      BranchValue(o, x, Mul(o, Cofactor(o, f, x, true), Cofactor(o, g, x, true)),
                        Mul(o, Cofactor(o, f, x, false), Cofactor(o, g, x, false)), asg);
    }
  }

  /**
   * plus: the constant 0 is neutral, two constants add, otherwise the sums
   * of the cofactors at the top variable are joined by branch.
   */
  function Plus(o: Order, f: TEdge, g: TEdge): (r: TEdge)
    requires Wf(o, f) && Wf(o, g)
    ensures Wf(o, r)
    decreases Size(f) + Size(g)
  {
    if f == Zero then g
    else if g == Zero then f
    else if f.v.Leaf? && g.v.Leaf? then Const(f.v.c + g.v.c)
    else
      var x := TopVar(o, f, g);
      Branch(o, x, Plus(o, Cofactor(o, f, x, true), Cofactor(o, g, x, true)),
                   Plus(o, Cofactor(o, f, x, false), Cofactor(o, g, x, false)))
  }

  /** plus adds the denoted values pointwise. */
  lemma {:induction false} PlusValue(o: Order, f: TEdge, g: TEdge, asg: seq<bool>)
    requires Wf(o, f) && Wf(o, g) && |asg| == o.Count()
    ensures Value(o, Plus(o, f, g), asg) == Value(o, f, asg) + Value(o, g, asg)
    decreases Size(f) + Size(g)
  {
    if f == Zero || g == Zero || (f.v.Leaf? && g.v.Leaf?) {
    } else {
      var x := TopVar(o, f, g);
      var a := asg[x];
      PlusValue(o, Cofactor(o, f, x, a), Cofactor(o, g, x, a), asg);
      SplitValue(o, f, g, x, asg);
      BranchValue(o, x, Plus(o, Cofactor(o, f, x, true), Cofactor(o, g, x, true)),
                        Plus(o, Cofactor(o, f, x, false), Cofactor(o, g, x, false)), asg);
    }
  }

  // -------------------------------------------------------------------------
  // Derived operators

  /** neg: f itself for the constant 0, otherwise -1 times f. */
  function Neg(o: Order, f: TEdge): (r: TEdge)
    requires Wf(o, f)
    ensures Wf(o, r)
  {
    if f == Zero then f else Mul(o, Const(-1), f)
  }

  function Sub(o: Order, f: TEdge, g: TEdge): (r: TEdge)
    requires Wf(o, f) && Wf(o, g)
    ensures Wf(o, r)
  {
    Plus(o, f, Neg(o, g))
  }

  /** f + g - 2fg. */
  function Antiv(o: Order, f: TEdge, g: TEdge): (r: TEdge)
    requires Wf(o, f) && Wf(o, g)
    ensures Wf(o, r)
  {
    Sub(o, Plus(o, f, g), Mul(o, Const(2), Mul(o, f, g)))
  }

  /** 1 - f. */
  function Complement(o: Order, f: TEdge): (r: TEdge)
    requires Wf(o, f)
    ensures Wf(o, r)
  {
    Sub(o, One, f)
  }

  /** f + g - fg, with the constant 0 neutral. */
  function Disj(o: Order, f: TEdge, g: TEdge): (r: TEdge)
    requires Wf(o, f) && Wf(o, g)
    ensures Wf(o, r)
  {
    if f == Zero then g
    else if g == Zero then f
    else Sub(o, Plus(o, f, g), Mul(o, f, g))
  }

  lemma NegValue(o: Order, f: TEdge, asg: seq<bool>)
    requires Wf(o, f) && |asg| == o.Count()
    ensures Value(o, Neg(o, f), asg) == -Value(o, f, asg)
  {
    if f != Zero {
      MulValue(o, Const(-1), f, asg);
    }
  }

  lemma SubValue(o: Order, f: TEdge, g: TEdge, asg: seq<bool>)
    requires Wf(o, f) && Wf(o, g) && |asg| == o.Count()
    ensures Value(o, Sub(o, f, g), asg) == Value(o, f, asg) - Value(o, g, asg)
  {
    NegValue(o, g, asg);
    PlusValue(o, f, Neg(o, g), asg);
  }

  /**
   * The derived operators are the arithmetic forms of the Boolean ones;
   * on 0/1-valued operands they are XOR, NOT and OR.
   */
  lemma DerivedValue(o: Order, f: TEdge, g: TEdge, asg: seq<bool>)
    requires Wf(o, f) && Wf(o, g) && |asg| == o.Count()
    ensures var a, b := Value(o, f, asg), Value(o, g, asg);
      && Value(o, Antiv(o, f, g), asg) == a + b - 2 * (a * b)
      && Value(o, Complement(o, f), asg) == 1 - a
      && Value(o, Disj(o, f, g), asg) == a + b - a * b
  {
    var a, b := Value(o, f, asg), Value(o, g, asg);
    var p, fg := Plus(o, f, g), Mul(o, f, g);
    PlusValue(o, f, g, asg);
    MulValue(o, f, g, asg);
    MulValue(o, Const(2), fg, asg);
    SubValue(o, p, Mul(o, Const(2), fg), asg);
    SubValue(o, One, f, asg);
    if f != Zero && g != Zero {
      SubValue(o, p, fg, asg);
    }
  }

  /** x0 + x1 over two Shannon variables takes the values 0, 1, 1 and 2. */
  lemma PlusOfVariables()
    ensures var o := Order([S, S], [0, 1]);
      var x0, x1 := Edge(false, Inner(0, One, Zero)), Edge(false, Inner(1, One, Zero));
      && Wf(o, x0) && Wf(o, x1)
      && Value(o, Plus(o, x0, x1), [false, false]) == 0
      && Value(o, Plus(o, x0, x1), [true, false]) == 1
      && Value(o, Plus(o, x0, x1), [false, true]) == 1
      && Value(o, Plus(o, x0, x1), [true, true]) == 2
  {
    var o := Order([S, S], [0, 1]);
    var x0, x1 := Edge(false, Inner(0, One, Zero)), Edge(false, Inner(1, One, Zero));
    assert Plus(o, x0, x1) == Edge(false, Inner(0, Edge(false, Inner(1, Const(2), One)), x1));
  }
}
