/**
 * Binary moment diagrams (freddy bmd_manager): every variable uses the
 * positive Davio decomposition read arithmetically, so a node denotes
 * lo + x * hi over the integers. There is one leaf holding 1; a constant c
 * is an edge of weight c into it. Weights multiply along a path, and a node
 * stores its children with their gcd factored out onto the incoming edge.
 */
module Bmd {
  import opened Dd
  import opened Counting

  type MEdge = Edge<int, int>

  function Agg(w: int, c: int): int { w * c }
  function Comb(w1: int, w2: int): int { w1 * w2 }
  function Merge(a: int, b: int): int { a + b }

  function Const(c: int): MEdge { Edge(c, Leaf(1)) }

  const Zero: MEdge := Const(0)

  /** The manager state the operators rely on: every variable is positive Davio. */
  ghost predicate Ctx(o: Order) { forall x :: 0 <= x < o.Count() ==> o.t[x] == PD }

  /**
   * Stored diagrams: every leaf is the 1-leaf, every label is a variable,
   * and an edge into a node never has weight 0 (that is the constant 0).
   */
  ghost predicate Wf(o: Order, f: MEdge)
  {
    match f.v
    case Leaf(c) => c == 1
    case Inner(x, hi, lo) => x < o.Count() && f.w != 0 && Wf(o, hi) && Wf(o, lo)
  }

  lemma {:induction false} WfBounded(o: Order, f: MEdge)
    requires Wf(o, f)
    ensures Bounded(f, o.Count())
  {
    match f.v
    case Leaf(_) =>
    case Inner(_, hi, lo) => WfBounded(o, hi); WfBounded(o, lo);
  }

  /** The integer an edge denotes under an assignment. */
  function Sem(o: Order, f: MEdge, asg: seq<bool>): int
    requires Wf(o, f) && |asg| == o.Count()
  {
    WfBounded(o, f);
    Eval(o, f, asg, Agg, Merge)
  }

  /** The value of the node an edge points to, before its weight is applied. */
  function NodeSem(o: Order, f: MEdge, asg: seq<bool>): int
    requires Wf(o, f) && |asg| == o.Count()
  {
    WfBounded(o, f);
    EvalNode(o, f.v, asg, Agg, Merge)
  }

  /** A constant denotes its weight. */
  lemma ConstSem(o: Order, f: MEdge, asg: seq<bool>)
    requires Wf(o, f) && f.v.Leaf? && |asg| == o.Count()
    ensures Sem(o, f, asg) == f.w
  {
    assert NodeSem(o, f, asg) == 1;
    SemWeight(o, f, asg);
  }

  lemma SemWeight(o: Order, f: MEdge, asg: seq<bool>)
    requires Wf(o, f) && |asg| == o.Count()
    ensures Sem(o, f, asg) == f.w * NodeSem(o, f, asg)
  {
  }

  /** A node labelled x denotes lo + x hi. */
  lemma NodeSemPD(o: Order, f: MEdge, asg: seq<bool>)
    requires Ctx(o) && Wf(o, f) && f.v.Inner? && |asg| == o.Count()
    ensures NodeSem(o, f, asg) == Sem(o, f.v.lo, asg) + if asg[f.v.x] then Sem(o, f.v.hi, asg) else 0
  {
    assert o.t[f.v.x] == PD;
  }

  /** Only the constant 0 has weight 0, so a non-zero edge has a non-zero weight. */
  lemma WeightNonZero(o: Order, f: MEdge)
    requires Wf(o, f)
    ensures f.w == 0 <==> f == Zero
  {
  }

  // -------------------------------------------------------------------------
  // Exact division and the gcd

  /** d divides a: a is d times its quotient. */
  predicate Divides(d: int, a: int)
  {
    d != 0 && a == (a / d) * d
  }

  /** A multiple of d is divided by d exactly, with quotient the multiplier. */
  lemma MultipleDivides(q: int, d: int)
    requires d != 0
    ensures Divides(d, q * d) && (q * d) / d == q
  {
    var t, r := (q * d) / d, (q * d) % d;
    assert q * d == t * d + r && 0 <= r < Abs(d);
    assert (q - t) * d == r;
    if q - t >= 1 {
    } else if q - t <= -1 {
    }
  }

  function Abs(a: int): nat { if a < 0 then -a else a }

  /** Euclid's algorithm on magnitudes, as std::gcd computes it. */
  function Gcd(a: nat, b: nat): (g: nat)
    ensures g == 0 <==> a == 0 && b == 0
    decreases b
  {
    if b == 0 then a else Gcd(b, a % b)
  }

  lemma {:induction false} GcdDivides(a: nat, b: nat)
    requires a != 0 || b != 0
    ensures Divides(Gcd(a, b), a) && Divides(Gcd(a, b), b)
    decreases b
  {
    var g := Gcd(a, b);
    if b == 0 {
      MultipleDivides(1, a);
      MultipleDivides(0, a);
    } else {
      GcdDivides(b, a % b);
      var qb, qr := b / g, (a % b) / g;
      assert a == (a / b) * b + a % b;
      assert a == (a / b) * (qb * g) + qr * g;
      assert a == ((a / b) * qb + qr) * g;
      MultipleDivides((a / b) * qb + qr, g);
    }
  }

  /** Divisibility carries over to negation, of the divisor and of the dividend. */
  lemma DividesSigns(d: int, a: int)
    requires Divides(d, a)
    ensures Divides(-d, a) && Divides(d, -a) && Divides(d, Abs(a)) && Divides(-d, Abs(a))
    ensures a / d > 0 <==> (a > 0) == (d > 0) && a != 0
  {
    var q := a / d;
    assert a == (-q) * (-d);
    MultipleDivides(-q, -d);
    assert -a == (-q) * d;
    MultipleDivides(-q, d);
    MultipleDivides(q, -d);
    if q > 0 {
      if d > 0 { assert q * d > 0; } else { assert q * d < 0; }
    } else if q < 0 {
      if d > 0 { assert q * d < 0; } else { assert q * d > 0; }
    }
  }

  lemma DividesAbs(d: int, a: int)
    requires Divides(d, Abs(a))
    ensures Divides(d, a)
  {
    if a < 0 {
      DividesSigns(d, Abs(a));
    }
  }

  /**
   * normw: the gcd of the two weights, negated when the low weight is
   * negative, or when it is 0 and the high weight negative.
   */
  function Normw(fw: int, gw: int): (w: int)
    ensures w == 0 <==> fw == 0 && gw == 0
    ensures w != 0 ==> Divides(w, fw) && Divides(w, gw)
    ensures w != 0 ==> gw / w > 0 || (gw == 0 && fw / w > 0)
  {
    var g := Gcd(Abs(fw), Abs(gw));
    var w: int := if gw < 0 || (fw < 0 && gw == 0) then -(g as int) else g;
    NormwFacts(fw, gw, g, w);
    w
  }

  lemma NormwFacts(fw: int, gw: int, g: nat, w: int)
    requires g == Gcd(Abs(fw), Abs(gw)) && w == if gw < 0 || (fw < 0 && gw == 0) then -(g as int) else g
    ensures w == 0 <==> fw == 0 && gw == 0
    ensures w != 0 ==> Divides(w, fw) && Divides(w, gw)
    ensures w != 0 ==> gw / w > 0 || (gw == 0 && fw / w > 0)
  {
    if g != 0 {
      GcdDivides(Abs(fw), Abs(gw));
      DividesAbs(g, fw);
      DividesAbs(g, gw);
      DividesSigns(g, fw);
      DividesSigns(g, gw);
      DividesSigns(w, fw);
      DividesSigns(w, gw);
    }
  }

  // -------------------------------------------------------------------------
  // Weights and node construction

  /**
   * apply: the identity for weight 1, the constant 0 for weight 0 or a
   * zero-weighted f, otherwise the weights multiply.
   */
  function Apply(w: int, f: MEdge): (r: MEdge)
    ensures r.v == f.v || r == Zero
  {
    if w == 1 then f
    else if w == 0 || f.w == 0 then Zero
    else Edge(Comb(w, f.w), f.v)
  }

  lemma ApplySem(o: Order, w: int, f: MEdge, asg: seq<bool>)
    requires Wf(o, f) && |asg| == o.Count()
    ensures Wf(o, Apply(w, f))
    ensures Sem(o, Apply(w, f), asg) == w * Sem(o, f, asg)
  {
    var n := NodeSem(o, f, asg);
    SemWeight(o, f, asg);
    if w != 1 && w != 0 && f.w != 0 {
      assert Sem(o, Apply(w, f), asg) == (w * f.w) * n;
      assert (w * f.w) * n == w * (f.w * n);
    }
  }

  /** The variable x: the moment node with high constant 1 and low constant 0. */
  function Var(x: nat): MEdge
  {
    Edge(1, Inner(x, Const(1), Zero))
  }

  lemma VarSem(o: Order, x: nat, asg: seq<bool>)
    requires Ctx(o) && x < o.Count() && |asg| == o.Count()
    ensures Wf(o, Var(x)) && Sem(o, Var(x), asg) == if asg[x] then 1 else 0
  {
    NodeSemPD(o, Var(x), asg);
    SemWeight(o, Var(x), asg);
    SemWeight(o, Const(1), asg);
    SemWeight(o, Zero, asg);
  }

  /**
   * branch: lo when hi is the constant 0 (the redundancy rule of moment
   * diagrams); otherwise the normalising weight is factored out of both
   * children, so the low weight, or else the high weight, becomes positive.
   */
  function Branch(o: Order, x: nat, hi: MEdge, lo: MEdge): (r: MEdge)
    requires x < o.Count() && Wf(o, hi) && Wf(o, lo)
    ensures Wf(o, r)
    ensures hi == Zero ==> r == lo
    ensures hi != Zero ==> r.v.Inner? && r.v.x == x && (r.v.lo.w > 0 || (r.v.lo.w == 0 && r.v.hi.w > 0))
  {
    if hi == Zero then lo
    else
      WeightNonZero(o, hi);
      var w := Normw(hi.w, lo.w);
      assert w != 0;
      DividesSigns(w, hi.w);
      WeightNonZero(o, lo);
      if w != 1 then Edge(w, Inner(x, Edge(hi.w / w, hi.v), Edge(lo.w / w, lo.v)))
      else Edge(w, Inner(x, hi, lo))
  }

  /** An edge whose weight is w times q denotes w times the edge with weight q. */
  lemma ScaleSem(o: Order, w: int, q: int, f: MEdge, asg: seq<bool>)
    requires Wf(o, f) && Wf(o, Edge(q, f.v)) && f.w == q * w && |asg| == o.Count()
    ensures Sem(o, f, asg) == w * Sem(o, Edge(q, f.v), asg)
  {
    var n := NodeSem(o, f, asg);
    SemWeight(o, f, asg);
    SemWeight(o, Edge(q, f.v), asg);
    assert NodeSem(o, Edge(q, f.v), asg) == n;
    assert (q * w) * n == w * (q * n);
  }

  lemma BranchSem(o: Order, x: nat, hi: MEdge, lo: MEdge, asg: seq<bool>)
    requires Ctx(o) && x < o.Count() && Wf(o, hi) && Wf(o, lo) && |asg| == o.Count()
    ensures Sem(o, Branch(o, x, hi, lo), asg) == Sem(o, lo, asg) + if asg[x] then Sem(o, hi, asg) else 0
  {
    if hi != Zero {
      BranchNodeSem(o, x, hi, lo, asg);
    } else {
      ConstSem(o, hi, asg);
    }
  }

  lemma BranchNodeSem(o: Order, x: nat, hi: MEdge, lo: MEdge, asg: seq<bool>)
    requires Ctx(o) && x < o.Count() && Wf(o, hi) && Wf(o, lo) && |asg| == o.Count() && hi != Zero
    ensures Sem(o, Branch(o, x, hi, lo), asg) == Sem(o, lo, asg) + if asg[x] then Sem(o, hi, asg) else 0
  {
    var b := Branch(o, x, hi, lo);
    BranchShape(o, x, hi, lo);
    NodeSemPD(o, b, asg);
    SemWeight(o, b, asg);
    assert b.v.hi == Edge(b.v.hi.w, hi.v);
    assert b.v.lo == Edge(b.v.lo.w, lo.v);
    ScaleSem(o, b.w, b.v.hi.w, hi, asg);
    ScaleSem(o, b.w, b.v.lo.w, lo, asg);
    var sh, sl := Sem(o, b.v.hi, asg), Sem(o, b.v.lo, asg);
    assert Sem(o, hi, asg) == b.w * sh;
    assert Sem(o, lo, asg) == b.w * sl;
    assert Sem(o, b, asg) == b.w * (sl + if asg[x] then sh else 0);
    Scale2(b.w, sh, sl, asg[x]);
  }

  /** w (l + [a] h) == w l + [a] w h. */
  lemma Scale2(w: int, h: int, l: int, a: bool)
    ensures w * (l + if a then h else 0) == w * l + if a then w * h else 0
  {
  }

  /** The children of a new node times its weight give back the operands. */
  lemma BranchShape(o: Order, x: nat, hi: MEdge, lo: MEdge)
    requires x < o.Count() && Wf(o, hi) && Wf(o, lo) && hi != Zero
    ensures var b := Branch(o, x, hi, lo);
      && b.v.Inner? && b.v.hi.v == hi.v && b.v.lo.v == lo.v
      && hi.w == b.v.hi.w * b.w && lo.w == b.v.lo.w * b.w
  {
    WeightNonZero(o, hi);
    var w := Normw(hi.w, lo.w);
    DividesSigns(w, hi.w);
  }

  // -------------------------------------------------------------------------
  // Cofactors

  /**
   * The moment cofactors at a Davio variable: the weighted high and low
   * child at x; constant 0 and f itself when f does not test x.
   */
  function Cof(o: Order, f: MEdge, x: nat, a: bool): (r: MEdge)
    requires x < o.Count()
    ensures Size(r) <= Size(f)
    ensures f.v.Inner? && (a || f.v.x == x) ==> Size(r) < Size(f)
  {
    if f.v.Leaf? || f.v.x != x then (if a then Zero else f)
    else if a then Apply(f.w, f.v.hi)
    else Apply(f.w, f.v.lo)
  }

  /** f is its false cofactor plus, where x holds, its true cofactor. */
  lemma CofSem(o: Order, f: MEdge, x: nat, asg: seq<bool>)
    requires Ctx(o) && x < o.Count() && Wf(o, f) && |asg| == o.Count()
    ensures Wf(o, Cof(o, f, x, true)) && Wf(o, Cof(o, f, x, false))
    ensures Sem(o, f, asg) == Sem(o, Cof(o, f, x, false), asg) + if asg[x] then Sem(o, Cof(o, f, x, true), asg) else 0
  {
    if f.v.Inner? && f.v.x == x {
      var hi, lo := f.v.hi, f.v.lo;
      ApplySem(o, f.w, hi, asg);
      ApplySem(o, f.w, lo, asg);
      var sh, sl := Sem(o, hi, asg), Sem(o, lo, asg);
      NodeSemPD(o, f, asg);
      SemWeight(o, f, asg);
      assert f.w * (sl + sh) == f.w * sl + f.w * sh;
    }
  }

  // -------------------------------------------------------------------------
  // Addition

  /**
   * plus: 0 is neutral; on the same node the weights add, cancelling to the
   * constant 0; otherwise the operand of larger magnitude leads, both are
   * divided by the normalising weight, and the sums of the cofactors are
   * combined by branch and scaled back.
   */
  function Plus(o: Order, f: MEdge, g: MEdge): (r: MEdge)
    requires Wf(o, f) && Wf(o, g)
    ensures Wf(o, r)
    decreases Size(f) + Size(g), 1
  {
    if f == Zero then g
    else if g == Zero then f
    else if f.v == g.v then
      var sum := f.w + g.w;
      if sum == 0 then Zero else Edge(sum, f.v)
    else
      var (f2, g2, w) := PlusOperands(o, f, g);
      ApplyWf(o, w, PlusSplit(o, f2, g2));
      Apply(w, PlusSplit(o, f2, g2))
  }

  /**
   * The rearranged operands of plus: the one of larger magnitude first
   * (the second on a tie), both divided by the normalising weight, and that
   * weight.
   */
  function PlusOperands(o: Order, f: MEdge, g: MEdge): (r: (MEdge, MEdge, int))
    requires Wf(o, f) && Wf(o, g) && f != Zero && g != Zero && f.v != g.v
    ensures r.2 != 0 && Wf(o, r.0) && Wf(o, r.1) && r.0.v != r.1.v
    ensures Size(r.0) + Size(r.1) == Size(f) + Size(g)
    ensures || (Edge(r.0.w * r.2, r.0.v) == f && Edge(r.1.w * r.2, r.1.v) == g)
            || (Edge(r.0.w * r.2, r.0.v) == g && Edge(r.1.w * r.2, r.1.v) == f)
  {
    var swap := Abs(f.w) <= Abs(g.w);
    var f1, g1 := if swap then g else f, if swap then f else g;
    var w := if swap then Normw(f1.w, g1.w) else Normw(g1.w, f1.w);
    WeightNonZero(o, f1);
    WeightNonZero(o, g1);
    DividesSigns(w, f1.w);
    DividesSigns(w, g1.w);
    (Edge(f1.w / w, f1.v), Edge(g1.w / w, g1.v), w)
  }

  /** The sums of the cofactors at the top variable, joined by branch. */
  function PlusSplit(o: Order, f: MEdge, g: MEdge): (r: MEdge)
    requires Wf(o, f) && Wf(o, g) && f.v != g.v
    ensures Wf(o, r)
    decreases Size(f) + Size(g), 0
  {
    assert f.v.Inner? || g.v.Inner?;
    var x := TopVar(o, f, g);
    CofWf(o, f, x);
    CofWf(o, g, x);
    Branch(o, x, Plus(o, Cof(o, f, x, true), Cof(o, g, x, true)),
                 Plus(o, Cof(o, f, x, false), Cof(o, g, x, false)))
  }

  /** plus is addition of the denoted integers. */
  lemma {:induction false} PlusSem(o: Order, f: MEdge, g: MEdge, asg: seq<bool>)
    requires Ctx(o) && Wf(o, f) && Wf(o, g) && |asg| == o.Count()
    ensures Sem(o, Plus(o, f, g), asg) == Sem(o, f, asg) + Sem(o, g, asg)
    decreases Size(f) + Size(g), 1
  {
    if f == Zero {
      ConstSem(o, f, asg);
    } else if g == Zero {
      ConstSem(o, g, asg);
    } else if f.v == g.v {
      SameNodeSem(o, f, g, asg);
    } else {
      var (f2, g2, w) := PlusOperands(o, f, g);
      PlusSplitSem(o, f2, g2, asg);
      ApplySem(o, w, PlusSplit(o, f2, g2), asg);
      ScaleSem(o, w, f2.w, Edge(f2.w * w, f2.v), asg);
      ScaleSem(o, w, g2.w, Edge(g2.w * w, g2.v), asg);
      Distrib(w, Sem(o, f2, asg), Sem(o, g2, asg));
    }
  }

  lemma Commute(a: int, b: int)
    ensures a * b == b * a
  {
  }

  lemma AddScaled(a: int, b: int, n: int)
    ensures (a + b) * n == a * n + b * n
    ensures a + b == 0 ==> a * n + b * n == 0
  {
  }

  lemma Distrib(w: int, a: int, b: int)
    ensures w * (a + b) == w * a + w * b
  {
  }

  /** Two edges into the same node add their weights, the constant 0 when they cancel. */
  lemma SameNodeSem(o: Order, f: MEdge, g: MEdge, asg: seq<bool>)
    requires Wf(o, f) && Wf(o, g) && f != Zero && g != Zero && f.v == g.v && |asg| == o.Count()
    ensures Sem(o, Plus(o, f, g), asg) == Sem(o, f, asg) + Sem(o, g, asg)
  {
    var n := NodeSem(o, f, asg);
    SemWeight(o, f, asg);
    SemWeight(o, g, asg);
    assert NodeSem(o, g, asg) == n;
    AddScaled(f.w, g.w, n);
    var sum := f.w + g.w;
    if sum != 0 {
      var e := Edge(sum, f.v);
      assert Plus(o, f, g) == e;
      SemWeight(o, e, asg);
      assert NodeSem(o, e, asg) == n;
    } else {
      assert Plus(o, f, g) == Zero;
      ConstSem(o, Zero, asg);
    }
  }

  lemma {:induction false} PlusSplitSem(o: Order, f: MEdge, g: MEdge, asg: seq<bool>)
    requires Ctx(o) && Wf(o, f) && Wf(o, g) && f.v != g.v && |asg| == o.Count()
    ensures Sem(o, PlusSplit(o, f, g), asg) == Sem(o, f, asg) + Sem(o, g, asg)
    decreases Size(f) + Size(g), 0
  {
    assert f.v.Inner? || g.v.Inner?;
    var x := TopVar(o, f, g);
    CofWf(o, f, x);
    CofWf(o, g, x);
    var hi := Plus(o, Cof(o, f, x, true), Cof(o, g, x, true));
    var lo := Plus(o, Cof(o, f, x, false), Cof(o, g, x, false));
    CofSem(o, f, x, asg);
    CofSem(o, g, x, asg);
    PlusSem(o, Cof(o, f, x, true), Cof(o, g, x, true), asg);
    PlusSem(o, Cof(o, f, x, false), Cof(o, g, x, false), asg);
    BranchSem(o, x, hi, lo, asg);
  }

  // -------------------------------------------------------------------------
  // Multiplication

  /**
   * mul: 0 absorbs, a constant scales the other operand through apply;
   * otherwise the weights are taken out, the operands are ordered by the
   * hash of their nodes, and at x the product of f = fl + x fh and
   * g = gl + x gh is (fl gl) + x (fh gh + fh gl + fl gh).
   */
  function Mul(o: Order, hash: Node<int, int> -> nat, f: MEdge, g: MEdge): (r: MEdge)
    requires Wf(o, f) && Wf(o, g)
    ensures Wf(o, r)
    decreases Size(f) + Size(g), 1
  {
    if f == Zero || g == Zero then Zero
    else if f.v.Leaf? then (ApplyWf(o, f.w, g); Apply(f.w, g))
    else if g.v.Leaf? then (ApplyWf(o, g.w, f); Apply(g.w, f))
    else
      var swap := hash(f.v) <= hash(g.v);
      var f1, g1 := Edge(1, if swap then g.v else f.v), Edge(1, if swap then f.v else g.v);
      ApplyWf(o, f.w * g.w, MulSplit(o, hash, f1, g1));
      Apply(f.w * g.w, MulSplit(o, hash, f1, g1))
  }

  /** The product of two unit-weight nodes, split at their top variable. */
  function MulSplit(o: Order, hash: Node<int, int> -> nat, f: MEdge, g: MEdge): (r: MEdge)
    requires Wf(o, f) && Wf(o, g) && f.v.Inner? && g.v.Inner?
    ensures Wf(o, r)
    decreases Size(f) + Size(g), 0
  {
    var x := TopVar(o, f, g);
    var fT, fF, gT, gF := Cof(o, f, x, true), Cof(o, f, x, false), Cof(o, g, x, true), Cof(o, g, x, false);
    CofWf(o, f, x);
    CofWf(o, g, x);
    var hi := Plus(o, Mul(o, hash, fT, gT), Plus(o, Mul(o, hash, fT, gF), Mul(o, hash, fF, gT)));
    Branch(o, x, hi, Mul(o, hash, fF, gF))
  }

  lemma ApplyWf(o: Order, w: int, f: MEdge)
    requires Wf(o, f)
    ensures Wf(o, Apply(w, f))
  {
  }

  lemma CofWf(o: Order, f: MEdge, x: nat)
    requires x < o.Count() && Wf(o, f)
    ensures Wf(o, Cof(o, f, x, true)) && Wf(o, Cof(o, f, x, false))
  {
  }

  /** The product of two cofactor expansions, expanded by the value t of the variable. */
  lemma Expand4(t: bool, a: int, b: int, c: int, d: int)
    ensures (b + if t then a else 0) * (d + if t then c else 0)
         == b * d + if t then a * c + (a * d + b * c) else 0
  {
    if t {
      calc {
        (b + a) * (d + c);
        b * d + b * c + a * d + a * c;
      }
    }
  }

  /** The semantics of the node mul builds from the four partial products. */
  lemma MulCombineSem(o: Order, x: nat, tt: MEdge, tf: MEdge, ft: MEdge, ff: MEdge, asg: seq<bool>)
    requires Ctx(o) && x < o.Count() && |asg| == o.Count()
    requires Wf(o, tt) && Wf(o, tf) && Wf(o, ft) && Wf(o, ff)
    ensures Sem(o, Branch(o, x, Plus(o, tt, Plus(o, tf, ft)), ff), asg)
         == Sem(o, ff, asg) + if asg[x] then Sem(o, tt, asg) + (Sem(o, tf, asg) + Sem(o, ft, asg)) else 0
  {
    var inner := Plus(o, tf, ft);
    PlusSem(o, tf, ft, asg);
    PlusSem(o, tt, inner, asg);
    BranchSem(o, x, Plus(o, tt, inner), ff, asg);
  }

  /** (a b)(n m) regrouped, in either order of the last two factors. */
  lemma Regroup4(a: int, b: int, n: int, m: int)
    ensures (a * b) * (n * m) == (a * n) * (b * m)
    ensures (a * b) * (m * n) == (a * n) * (b * m)
  {
  }

  /** mul is multiplication of the denoted integers. */
  lemma {:induction false} MulSem(o: Order, hash: Node<int, int> -> nat, f: MEdge, g: MEdge, asg: seq<bool>)
    requires Ctx(o) && Wf(o, f) && Wf(o, g) && |asg| == o.Count()
    ensures Sem(o, Mul(o, hash, f, g), asg) == Sem(o, f, asg) * Sem(o, g, asg)
    decreases Size(f) + Size(g), 1
  {
    if f == Zero {
      ConstSem(o, f, asg);
      ConstSem(o, Zero, asg);
    } else if g == Zero {
      ConstSem(o, g, asg);
      ConstSem(o, Zero, asg);
    } else if f.v.Leaf? {
      ApplySem(o, f.w, g, asg);
      ConstSem(o, f, asg);
    } else if g.v.Leaf? {
      ApplySem(o, g.w, f, asg);
      ConstSem(o, g, asg);
    } else {
      var swap := hash(f.v) <= hash(g.v);
      var f1, g1 := Edge(1, if swap then g.v else f.v), Edge(1, if swap then f.v else g.v);
      MulSplitSem(o, hash, f1, g1, asg);
      ApplySem(o, f.w * g.w, MulSplit(o, hash, f1, g1), asg);
      SemWeight(o, f, asg);
      SemWeight(o, g, asg);
      SemWeight(o, f1, asg);
      SemWeight(o, g1, asg);
      var nf, ng := NodeSem(o, f, asg), NodeSem(o, g, asg);
      assert NodeSem(o, Edge(1, f.v), asg) == nf && NodeSem(o, Edge(1, g.v), asg) == ng;
      Regroup4(f.w, g.w, nf, ng);
    }
  }

  lemma {:induction false} MulSplitSem(o: Order, hash: Node<int, int> -> nat, f: MEdge, g: MEdge, asg: seq<bool>)
    requires Ctx(o) && Wf(o, f) && Wf(o, g) && f.v.Inner? && g.v.Inner? && |asg| == o.Count()
    ensures Sem(o, MulSplit(o, hash, f, g), asg) == Sem(o, f, asg) * Sem(o, g, asg)
    decreases Size(f) + Size(g), 0
  {
    var x := TopVar(o, f, g);
    var fT, fF, gT, gF := Cof(o, f, x, true), Cof(o, f, x, false), Cof(o, g, x, true), Cof(o, g, x, false);
    CofSem(o, f, x, asg);
    CofSem(o, g, x, asg);
    MulSem(o, hash, fT, gT, asg);
    MulSem(o, hash, fT, gF, asg);
    MulSem(o, hash, fF, gT, asg);
    MulSem(o, hash, fF, gF, asg);
    var tt, tf, ft, ff := Mul(o, hash, fT, gT), Mul(o, hash, fT, gF), Mul(o, hash, fF, gT), Mul(o, hash, fF, gF);
    MulCombineSem(o, x, tt, tf, ft, ff, asg);
    assert MulSplit(o, hash, f, g) == Branch(o, x, Plus(o, tt, Plus(o, tf, ft)), ff);
    MulAssemble(asg[x], Sem(o, MulSplit(o, hash, f, g), asg),
                Sem(o, tt, asg), Sem(o, tf, asg), Sem(o, ft, asg), Sem(o, ff, asg),
                Sem(o, fT, asg), Sem(o, fF, asg), Sem(o, gT, asg), Sem(o, gF, asg), Sem(o, f, asg), Sem(o, g, asg));
  }

  /** The node built from the four partial products denotes the product of the two Davio expansions. */
  lemma MulAssemble(t: bool, s: int, tt: int, tf: int, ft: int, ff: int, fT: int, fF: int, gT: int, gF: int, sf: int, sg: int)
    requires s == ff + if t then tt + (tf + ft) else 0
    requires tt == fT * gT && tf == fT * gF && ft == fF * gT && ff == fF * gF
    requires sf == fF + (if t then fT else 0) && sg == gF + (if t then gT else 0)
    ensures s == sf * sg
  {
    Expand4(t, fT, fF, gT, gF);
  }

  // -------------------------------------------------------------------------
  // Derived operators

  /** The negation: -1 times f, f itself for the constant 0. */
  function Neg(o: Order, hash: Node<int, int> -> nat, f: MEdge): (r: MEdge)
    requires Wf(o, f)
    ensures Wf(o, r)
  {
    if f == Zero then f else Mul(o, hash, Const(-1), f)
  }

  function Sub(o: Order, hash: Node<int, int> -> nat, f: MEdge, g: MEdge): (r: MEdge)
    requires Wf(o, f) && Wf(o, g)
    ensures Wf(o, r)
  {
    Plus(o, f, Neg(o, hash, g))
  }

  /** f + g - 2fg. */
  function Antiv(o: Order, hash: Node<int, int> -> nat, f: MEdge, g: MEdge): (r: MEdge)
    requires Wf(o, f) && Wf(o, g)
    ensures Wf(o, r)
  {
    Sub(o, hash, Plus(o, f, g), Mul(o, hash, Const(2), Mul(o, hash, f, g)))
  }

  /** 1 - f. */
  function Complement(o: Order, hash: Node<int, int> -> nat, f: MEdge): (r: MEdge)
    requires Wf(o, f)
    ensures Wf(o, r)
  {
    Sub(o, hash, Const(1), f)
  }

  /** fg. */
  function Conj(o: Order, hash: Node<int, int> -> nat, f: MEdge, g: MEdge): (r: MEdge)
    requires Wf(o, f) && Wf(o, g)
    ensures Wf(o, r)
  {
    Mul(o, hash, f, g)
  }

  /** f + g - fg, with the constant 0 neutral. */
  function Disj(o: Order, hash: Node<int, int> -> nat, f: MEdge, g: MEdge): (r: MEdge)
    requires Wf(o, f) && Wf(o, g)
    ensures Wf(o, r)
  {
    if f == Zero then g
    else if g == Zero then f
    else Sub(o, hash, Plus(o, f, g), Mul(o, hash, f, g))
  }

  lemma AntivSem(o: Order, hash: Node<int, int> -> nat, f: MEdge, g: MEdge, asg: seq<bool>)
    requires Ctx(o) && Wf(o, f) && Wf(o, g) && |asg| == o.Count()
    ensures Sem(o, Antiv(o, hash, f, g), asg) == Sem(o, f, asg) + Sem(o, g, asg) - 2 * (Sem(o, f, asg) * Sem(o, g, asg))
  {
    var a, b := Sem(o, f, asg), Sem(o, g, asg);
    var p, fg := Plus(o, f, g), Mul(o, hash, f, g);
    var twice := Mul(o, hash, Const(2), fg);
    PlusSem(o, f, g, asg);
    MulSem(o, hash, f, g, asg);
    MulSem(o, hash, Const(2), fg, asg);
    ConstSem(o, Const(2), asg);
    assert Sem(o, twice, asg) == 2 * (a * b);
    SubSem(o, hash, p, twice, asg);
    assert Sem(o, Sub(o, hash, p, twice), asg) == a + b - 2 * (a * b);
  }

  lemma ComplementSem(o: Order, hash: Node<int, int> -> nat, f: MEdge, asg: seq<bool>)
    requires Ctx(o) && Wf(o, f) && |asg| == o.Count()
    ensures Sem(o, Complement(o, hash, f), asg) == 1 - Sem(o, f, asg)
  {
    SubSem(o, hash, Const(1), f, asg);
    ConstSem(o, Const(1), asg);
  }

  lemma ConjSem(o: Order, hash: Node<int, int> -> nat, f: MEdge, g: MEdge, asg: seq<bool>)
    requires Ctx(o) && Wf(o, f) && Wf(o, g) && |asg| == o.Count()
    ensures Sem(o, Conj(o, hash, f, g), asg) == Sem(o, f, asg) * Sem(o, g, asg)
  {
    MulSem(o, hash, f, g, asg);
  }

  lemma DisjSem(o: Order, hash: Node<int, int> -> nat, f: MEdge, g: MEdge, asg: seq<bool>)
    requires Ctx(o) && Wf(o, f) && Wf(o, g) && |asg| == o.Count()
    ensures Sem(o, Disj(o, hash, f, g), asg) == Sem(o, f, asg) + Sem(o, g, asg) - Sem(o, f, asg) * Sem(o, g, asg)
  {
    if f == Zero {
      ConstSem(o, f, asg);
    } else if g == Zero {
      ConstSem(o, g, asg);
    } else {
      PlusSem(o, f, g, asg);
      MulSem(o, hash, f, g, asg);
      SubSem(o, hash, Plus(o, f, g), Mul(o, hash, f, g), asg);
    }
  }

  lemma NegSem(o: Order, hash: Node<int, int> -> nat, f: MEdge, asg: seq<bool>)
    requires Ctx(o) && Wf(o, f) && |asg| == o.Count()
    ensures Sem(o, Neg(o, hash, f), asg) == -Sem(o, f, asg)
  {
    if f != Zero {
      MulSem(o, hash, Const(-1), f, asg);
    }
  }

  lemma SubSem(o: Order, hash: Node<int, int> -> nat, f: MEdge, g: MEdge, asg: seq<bool>)
    requires Ctx(o) && Wf(o, f) && Wf(o, g) && |asg| == o.Count()
    ensures Sem(o, Sub(o, hash, f, g), asg) == Sem(o, f, asg) - Sem(o, g, asg)
  {
    NegSem(o, hash, g, asg);
    PlusSem(o, f, Neg(o, hash, g), asg);
  }

  /** On 0/1-valued operands the arithmetic operators are the Boolean ones. */
  lemma BooleanOps(o: Order, hash: Node<int, int> -> nat, f: MEdge, g: MEdge, asg: seq<bool>)
    requires Ctx(o) && Wf(o, f) && Wf(o, g) && |asg| == o.Count()
    requires 0 <= Sem(o, f, asg) <= 1 && 0 <= Sem(o, g, asg) <= 1
    ensures Sem(o, Antiv(o, hash, f, g), asg) == if Sem(o, f, asg) != Sem(o, g, asg) then 1 else 0
    ensures Sem(o, Conj(o, hash, f, g), asg) == if Sem(o, f, asg) == 1 && Sem(o, g, asg) == 1 then 1 else 0
    ensures Sem(o, Disj(o, hash, f, g), asg) == if Sem(o, f, asg) == 1 || Sem(o, g, asg) == 1 then 1 else 0
    ensures Sem(o, Complement(o, hash, f), asg) == 1 - Sem(o, f, asg)
  {
    AntivSem(o, hash, f, g, asg);
    ConjSem(o, hash, f, g, asg);
    DisjSem(o, hash, f, g, asg);
    ComplementSem(o, hash, f, asg);
    BoolArith(Sem(o, f, asg), Sem(o, g, asg));
  }

  /** The arithmetic forms of XOR, AND and OR on 0 and 1. */
  lemma BoolArith(a: int, b: int)
    requires 0 <= a <= 1 && 0 <= b <= 1
    ensures a + b - 2 * (a * b) == if a != b then 1 else 0
    ensures a * b == if a == 1 && b == 1 then 1 else 0
    ensures a + b - a * b == if a == 1 || b == 1 then 1 else 0
  {
  }

  // -------------------------------------------------------------------------
  // Word-level encodings

  /** The value of the bits fs, least significant first: the sum of 2^i fs[i]. */
  function BinVal(o: Order, fs: seq<MEdge>, asg: seq<bool>): int
    requires forall i :: 0 <= i < |fs| ==> Wf(o, fs[i])
    requires |asg| == o.Count()
  {
    if |fs| == 0 then 0
    else BinVal(o, fs[..|fs| - 1], asg) + Pow2(|fs| - 1) * Sem(o, fs[|fs| - 1], asg)
  }

  /** With 0/1-valued bits the encoded value is an unsigned number of |fs| bits. */
  lemma {:induction false} BinValRange(o: Order, fs: seq<MEdge>, asg: seq<bool>)
    requires forall i :: 0 <= i < |fs| ==> Wf(o, fs[i])
    requires |asg| == o.Count()
    requires forall i :: 0 <= i < |fs| ==> 0 <= Sem(o, fs[i], asg) <= 1
    ensures 0 <= BinVal(o, fs, asg) < Pow2(|fs|)
  {
    if |fs| > 0 {
      var n := |fs| - 1;
      BinValRange(o, fs[..n], asg);
      assert Pow2(n + 1) == 2 * Pow2(n);
    }
  }

  /**
   * unsigned_bin: the sum of the inputs scaled by 2^i; the weights are 64-bit
   * signed integers, so there must be fewer inputs than their 63 value bits.
   */
  method UnsignedBin(o: Order, hash: Node<int, int> -> nat, fs: seq<MEdge>) returns (r: MEdge)
    requires Ctx(o) && |fs| < 63
    requires forall i :: 0 <= i < |fs| ==> Wf(o, fs[i])
    ensures Wf(o, r)
    ensures forall asg | |asg| == o.Count() :: Sem(o, r, asg) == BinVal(o, fs, asg)
  {
    r := Zero;
    for i := 0 to |fs|
      invariant Wf(o, r)
      invariant forall asg | |asg| == o.Count() :: Sem(o, r, asg) == BinVal(o, fs[..i], asg)
    {
      var next := Plus(o, r, Mul(o, hash, fs[i], Const(Pow2(i))));
      forall asg | |asg| == o.Count()
        ensures Sem(o, next, asg) == BinVal(o, fs[..i + 1], asg)
      {
        UnsignedBinStep(o, hash, fs, i, r, asg);
      }
      r := next;
    }
    assert fs[..|fs|] == fs;
  }

  lemma UnsignedBinStep(o: Order, hash: Node<int, int> -> nat, fs: seq<MEdge>, i: nat, r: MEdge, asg: seq<bool>)
    requires Ctx(o) && i < |fs| && |asg| == o.Count() && Wf(o, r)
    requires forall j :: 0 <= j < |fs| ==> Wf(o, fs[j])
    requires Sem(o, r, asg) == BinVal(o, fs[..i], asg)
    ensures Sem(o, Plus(o, r, Mul(o, hash, fs[i], Const(Pow2(i)))), asg) == BinVal(o, fs[..i + 1], asg)
  {
    var bit, scaled := fs[i], Mul(o, hash, fs[i], Const(Pow2(i)));
    var v := Sem(o, bit, asg);
    var c := Const(Pow2(i));
    MulSem(o, hash, bit, c, asg);
    ConstSem(o, c, asg);
    Commute(v, Sem(o, c, asg));
    PlusSem(o, r, scaled, asg);
    var prefix := fs[..i + 1];
    assert prefix[..i] == fs[..i];
    assert prefix[i] == bit;
    assert BinVal(o, prefix, asg) == BinVal(o, fs[..i], asg) + Pow2(i) * v;
  }

  /**
   * twos_complement: the last input weighs -2^(n-1), the others form an
   * unsigned number.
   */
  method TwosComplement(o: Order, hash: Node<int, int> -> nat, fs: seq<MEdge>) returns (r: MEdge)
    requires Ctx(o) && 0 < |fs| <= 63
    requires forall i :: 0 <= i < |fs| ==> Wf(o, fs[i])
    ensures Wf(o, r)
    ensures forall asg | |asg| == o.Count() ::
      Sem(o, r, asg) == BinVal(o, fs[..|fs| - 1], asg) - Pow2(|fs| - 1) * Sem(o, fs[|fs| - 1], asg)
  {
    var n := |fs|;
    var w: int := -(Pow2(n - 1) as int);
    var rest := UnsignedBin(o, hash, fs[..n - 1]);
    ApplyWf(o, w, fs[n - 1]);
    r := Plus(o, Apply(w, fs[n - 1]), rest);
    forall asg | |asg| == o.Count()
      ensures Sem(o, r, asg) == BinVal(o, fs[..n - 1], asg) - Pow2(n - 1) * Sem(o, fs[n - 1], asg)
    {
      var top := Sem(o, fs[n - 1], asg);
      ApplySem(o, w, fs[n - 1], asg);
      NegMul(Pow2(n - 1), top);
      PlusSem(o, Apply(w, fs[n - 1]), rest, asg);
    }
  }

  /** With 0/1-valued bits the two's complement value lies in [-2^(n-1), 2^(n-1)). */
  lemma TwosComplementRange(o: Order, fs: seq<MEdge>, asg: seq<bool>)
    requires 0 < |fs| && |asg| == o.Count()
    requires forall i :: 0 <= i < |fs| ==> Wf(o, fs[i])
    requires forall i :: 0 <= i < |fs| ==> 0 <= Sem(o, fs[i], asg) <= 1
    ensures var v := BinVal(o, fs[..|fs| - 1], asg) - Pow2(|fs| - 1) * Sem(o, fs[|fs| - 1], asg);
      -(Pow2(|fs| - 1) as int) <= v < Pow2(|fs| - 1)
  {
    var n := |fs| - 1;
    var low := fs[..n];
    assert forall i :: 0 <= i < |low| ==> low[i] == fs[i];
    BinValRange(o, low, asg);
    SignedRange(BinVal(o, low, asg), Pow2(n), Sem(o, fs[n], asg));
  }

  /** b - p t lies in [-p, p) for b in [0, p) and a bit t. */
  lemma SignedRange(b: int, p: int, t: int)
    requires 0 <= b < p && 0 <= t <= 1
    ensures -p <= b - p * t < p
  {
    if t == 0 {
      assert p * t == 0;
    } else {
      assert p * t == p;
    }
  }

  lemma NegMul(p: int, t: int)
    ensures (-p) * t == -(p * t)
  {
  }
}
