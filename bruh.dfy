/**
 * BRUH diagrams (freddy bruh_manager): Shannon nodes over integer leaves,
 * read as Boolean functions. agg is XOR of the edge weight with the value
 * taken as a bit, so on the regular edges every stored diagram uses, a leaf
 * c reads as 1 exactly when c is non-zero. conj multiplies leaves and disj
 * adds them, with the same shortcuts and Shannon recursion as the ADD's mul
 * and plus, so they are Add.Mul and Add.Plus here (bruh's mul is conj and
 * its add is disj). complement maps a leaf c to 1 - c.
 */
module Bruh {
  import opened Dd
  import opened Mtdd
  import A = Add

  const Zero: TEdge := Const(0)
  const One: TEdge := Const(1)

  /** agg: the weight XOR the value, comparing the value with the weight as 0 or 1. */
  function Agg(w: bool, c: int): int { if c == (if w then 1 else 0) then 0 else 1 }

  function Comb(w1: bool, w2: bool): bool { w1 != w2 }

  function Merge(a: int, b: int): int { if a == b then 0 else 1 }

  function Sem(o: Order, f: TEdge, asg: seq<bool>): int
    requires Wf(o, f) && |asg| == o.Count()
  {
    Eval(o, f, asg, Agg, Merge)
  }

  /** A BRUH reads 1 exactly where the leaf the assignment reaches is non-zero. */
  lemma SemValue(o: Order, f: TEdge, asg: seq<bool>)
    requires Ctx(o) && Wf(o, f) && |asg| == o.Count()
    ensures Sem(o, f, asg) == if Value(o, f, asg) != 0 then 1 else 0
  {
    EvalValue(o, f, asg, Agg, Merge);
  }

  predicate NonNeg(c: int) { c >= 0 }

  predicate IsBit(c: int) { c == 0 || c == 1 }

  /** conj is the Boolean AND of the operands, whatever their leaves. */
  lemma ConjSem(o: Order, f: TEdge, g: TEdge, asg: seq<bool>)
    requires Ctx(o) && Wf(o, f) && Wf(o, g) && |asg| == o.Count()
    ensures Sem(o, A.Mul(o, f, g), asg) == Sem(o, f, asg) * Sem(o, g, asg)
  {
    A.MulValue(o, f, g, asg);
    SemValue(o, f, asg);
    SemValue(o, g, asg);
    SemValue(o, A.Mul(o, f, g), asg);
    NonZeroProduct(Value(o, f, asg), Value(o, g, asg));
  }

  lemma NonZeroProduct(a: int, b: int)
    ensures a * b != 0 <==> a != 0 && b != 0
  {
    if a != 0 && b != 0 {
      if a > 0 && b > 0 {
        assert a * b >= b;
      } else if a > 0 {
        assert a * b <= b;
      } else if b > 0 {
        assert a * b <= a;
      } else {
        assert a * b >= -a;
      }
    }
  }

  /** disj is the Boolean OR of operands whose leaves are non-negative. */
  lemma DisjSem(o: Order, f: TEdge, g: TEdge, asg: seq<bool>)
    requires Ctx(o) && Wf(o, f) && Wf(o, g) && |asg| == o.Count()
    requires AllLeaves(f, NonNeg) && AllLeaves(g, NonNeg)
    ensures Sem(o, A.Plus(o, f, g), asg) == if Sem(o, f, asg) == 1 || Sem(o, g, asg) == 1 then 1 else 0
  {
    A.PlusValue(o, f, g, asg);
    SemValue(o, f, asg);
    SemValue(o, g, asg);
    SemValue(o, A.Plus(o, f, g), asg);
    ValueLeaf(o, f, asg, NonNeg);
    ValueLeaf(o, g, asg, NonNeg);
  }

  /** conj keeps the leaves non-negative. */
  lemma {:induction false} ConjNonNeg(o: Order, f: TEdge, g: TEdge)
    requires Wf(o, f) && Wf(o, g) && AllLeaves(f, NonNeg) && AllLeaves(g, NonNeg)
    ensures AllLeaves(A.Mul(o, f, g), NonNeg)
    decreases Size(f) + Size(g)
  {
    if f == A.Zero || g == A.Zero || f == A.One || g == A.One {
    } else if f.v.Leaf? && g.v.Leaf? {
      assert f.v.c * g.v.c >= 0;
    } else {
      var x := TopVar(o, f, g);
      CofLeaves(o, f, x, true, NonNeg);
      CofLeaves(o, f, x, false, NonNeg);
      CofLeaves(o, g, x, true, NonNeg);
      CofLeaves(o, g, x, false, NonNeg);
      var hi := A.Mul(o, Cofactor(o, f, x, true), Cofactor(o, g, x, true));
      var lo := A.Mul(o, Cofactor(o, f, x, false), Cofactor(o, g, x, false));
      ConjNonNeg(o, Cofactor(o, f, x, true), Cofactor(o, g, x, true));
      ConjNonNeg(o, Cofactor(o, f, x, false), Cofactor(o, g, x, false));
      BranchLeaves(o, x, hi, lo, NonNeg);
    }
  }

  /** disj keeps the leaves non-negative. */
  lemma {:induction false} DisjNonNeg(o: Order, f: TEdge, g: TEdge)
    requires Wf(o, f) && Wf(o, g) && AllLeaves(f, NonNeg) && AllLeaves(g, NonNeg)
    ensures AllLeaves(A.Plus(o, f, g), NonNeg)
    decreases Size(f) + Size(g)
  {
    if f == A.Zero || g == A.Zero || (f.v.Leaf? && g.v.Leaf?) {
    } else {
      var x := TopVar(o, f, g);
      CofLeaves(o, f, x, true, NonNeg);
      CofLeaves(o, f, x, false, NonNeg);
      CofLeaves(o, g, x, true, NonNeg);
      CofLeaves(o, g, x, false, NonNeg);
      var hi := A.Plus(o, Cofactor(o, f, x, true), Cofactor(o, g, x, true));
      var lo := A.Plus(o, Cofactor(o, f, x, false), Cofactor(o, g, x, false));
      DisjNonNeg(o, Cofactor(o, f, x, true), Cofactor(o, g, x, true));
      DisjNonNeg(o, Cofactor(o, f, x, false), Cofactor(o, g, x, false));
      BranchLeaves(o, x, hi, lo, NonNeg);
    }
  }

  // -------------------------------------------------------------------------
  // Complement

  /** complement as written: a leaf c becomes 1 - c; inner nodes are rebuilt over the complemented children. */
  function Complement(o: Order, f: TEdge): (r: TEdge)
    requires Wf(o, f)
    ensures Wf(o, r)
    decreases Size(f)
  {
    if f.v.Leaf? then Const(1 - f.v.c)
    else
      var x := f.v.x;
      Branch(o, x, Complement(o, Cofactor(o, f, x, true)), Complement(o, Cofactor(o, f, x, false)))
  }

  /** complement maps the reached constant c to 1 - c. */
  lemma {:induction false} ComplementValue(o: Order, f: TEdge, asg: seq<bool>)
    requires Wf(o, f) && |asg| == o.Count()
    ensures Value(o, Complement(o, f), asg) == 1 - Value(o, f, asg)
    decreases Size(f)
  {
    if f.v.Inner? {
      var x := f.v.x;
      ComplementValue(o, Cofactor(o, f, x, true), asg);
      ComplementValue(o, Cofactor(o, f, x, false), asg);
      BranchValue(o, x, Complement(o, Cofactor(o, f, x, true)), Complement(o, Cofactor(o, f, x, false)), asg);
    }
  }

  /** On diagrams whose leaves are 0 and 1, complement is the Boolean NOT. */
  lemma ComplementSem(o: Order, f: TEdge, asg: seq<bool>)
    requires Ctx(o) && Wf(o, f) && |asg| == o.Count() && AllLeaves(f, IsBit)
    ensures Sem(o, Complement(o, f), asg) == 1 - Sem(o, f, asg)
  {
    ComplementValue(o, f, asg);
    ValueLeaf(o, f, asg, IsBit);
    SemValue(o, f, asg);
    SemValue(o, Complement(o, f), asg);
  }

  /**
   * The complement of x0 OR x0 as written: disj leaves the constant 2 on the
   * true branch, complement turns it into -1, which again reads as 1, so
   * the complement of a function that is 1 at x0 = 1 is 1 there too.
   */
  lemma ComplementCounterexample()
    ensures var o := Order([S], [0]);
      var x0 := Edge(false, Inner(0, One, Zero));
      var d := A.Plus(o, x0, x0);
      && Ctx(o) && Wf(o, x0)
      && Sem(o, d, [true]) == 1
      && Sem(o, Complement(o, d), [true]) == 1
  {
    var o := Order([S], [0]);
    var x0 := Edge(false, Inner(0, One, Zero));
    var d := A.Plus(o, x0, x0);
    assert d == Edge(false, Inner(0, Const(2), Zero));
    assert Complement(o, d) == Edge(false, Inner(0, Const(-1), One));
    SemValue(o, d, [true]);
    SemValue(o, Complement(o, d), [true]);
  }

  /** complement of the Boolean reading: a leaf becomes 1 when it reads 0, else 0. */
  function ComplementFixed(o: Order, f: TEdge): (r: TEdge)
    requires Wf(o, f)
    ensures Wf(o, r)
    ensures AllLeaves(r, IsBit)
    decreases Size(f)
  {
    if f.v.Leaf? then Const(if f.v.c == 0 then 1 else 0)
    else
      var x := f.v.x;
      var hi, lo := ComplementFixed(o, Cofactor(o, f, x, true)), ComplementFixed(o, Cofactor(o, f, x, false));
      BranchLeaves(o, x, hi, lo, IsBit);
      Branch(o, x, hi, lo)
  }

  /** The corrected complement is the Boolean NOT on every diagram. */
  lemma {:induction false} ComplementFixedSem(o: Order, f: TEdge, asg: seq<bool>)
    requires Ctx(o) && Wf(o, f) && |asg| == o.Count()
    ensures Sem(o, ComplementFixed(o, f), asg) == 1 - Sem(o, f, asg)
    decreases Size(f)
  {
    SemValue(o, f, asg);
    SemValue(o, ComplementFixed(o, f), asg);
    if f.v.Inner? {
      var x := f.v.x;
      var ft, ff := Cofactor(o, f, x, true), Cofactor(o, f, x, false);
      ComplementFixedSem(o, ft, asg);
      ComplementFixedSem(o, ff, asg);
      SemValue(o, ft, asg);
      SemValue(o, ff, asg);
      SemValue(o, ComplementFixed(o, ft), asg);
      SemValue(o, ComplementFixed(o, ff), asg);
      BranchValue(o, x, ComplementFixed(o, ft), ComplementFixed(o, ff), asg);
    }
  }

  /** Leaves in {0, 1} are non-negative, so disj on corrected complements is OR again. */
  lemma BitsNonNeg(f: TEdge)
    requires AllLeaves(f, IsBit)
    ensures AllLeaves(f, NonNeg)
  {
  }
}
