/**
 * The BDD of the eddy prototype. Its edges, complement, make_branch and
 * antivalence coincide with those of the Bdd module; conjunction checks
 * fewer terminal cases, and the standard triples of ite are written with
 * a sequencing slip in two of the four cases.
 */
module EddyBdd {
  import opened Dd
  import opened Counting
  import B = Bdd

  type BEdge = B.BEdge

  // -------------------------------------------------------------------------
  // Conjunction

  /**
   * 1 is neutral, the same node gives f under equal weights and 0 under
   * opposite ones; there is no shortcut for 0, which is reached by recursion.
   */
  function Conj(o: Order, f: BEdge, g: BEdge): (r: BEdge)
    requires B.Ctx(o) && B.Canon(o, f) && B.Canon(o, g)
    ensures B.Canon(o, r) && Lvl(o, r) >= B.MinLvl(o, f, g)
    decreases Size(f) + Size(g), 1
  {
    if f == B.One then g
    else if g == B.One then f
    else if f.v == g.v then (if f.w == g.w then f else B.Zero)
    else
      var x := TopVar(o, f, g);
      B.TopCofs(o, f, g, x);
      ConjSplit(o, f, g, x)
  }

  /** The recursive case: the branch of the conjunctions of the cofactors at x. */
  function ConjSplit(o: Order, f: BEdge, g: BEdge, x: nat): (r: BEdge)
    requires B.Canon(o, f) && B.Canon(o, g) && B.CofsBelow(o, f, g, x)
    ensures B.Canon(o, r) && Lvl(o, r) >= o.var2lvl[x]
    decreases Size(f) + Size(g), 0
  {
    B.Branch(o, x, Conj(o, B.Cof(o, f, x, true), B.Cof(o, g, x, true)),
                   Conj(o, B.Cof(o, f, x, false), B.Cof(o, g, x, false)))
  }

  lemma {:induction false} ConjSem(o: Order, f: BEdge, g: BEdge, asg: seq<bool>)
    requires B.Ctx(o) && B.Canon(o, f) && B.Canon(o, g) && B.Input(o, asg)
    ensures Bounded(f, |asg|) && Bounded(g, |asg|) && Bounded(Conj(o, f, g), |asg|)
    ensures B.Sem(o, Conj(o, f, g), asg) == (B.Sem(o, f, asg) && B.Sem(o, g, asg))
    decreases Size(f) + Size(g)
  {
    B.OrderedBounded(o, f);
    B.OrderedBounded(o, g);
    B.OrderedBounded(o, Conj(o, f, g));
    if f == B.One || g == B.One || f.v == g.v {
    } else {
      var x := TopVar(o, f, g);
      var a := asg[x];
      B.TopCofs(o, f, g, x);
      var h := Conj(o, B.Cof(o, f, x, true), B.Cof(o, g, x, true));
      var l := Conj(o, B.Cof(o, f, x, false), B.Cof(o, g, x, false));
      B.BranchSem(o, x, h, l, asg);
      ConjSem(o, B.Cof(o, f, x, a), B.Cof(o, g, x, a), asg);
      B.CofSem(o, f, x, asg);
      B.CofSem(o, g, x, asg);
    }
  }

  /** With fewer shortcuts, eddy's conjunction still builds the very diagram the freddy BDD builds. */
  lemma ConjAgrees(o: Order, f: BEdge, g: BEdge)
    requires B.Ctx(o) && B.Canon(o, f) && B.Canon(o, g)
    ensures Conj(o, f, g) == B.Conj(o, f, g)
  {
    forall asg: seq<bool> | |asg| == o.Count()
      ensures B.Val(o, Conj(o, f, g), asg) == B.Val(o, B.Conj(o, f, g), asg)
    {
      ConjSem(o, f, g, asg);
      B.ConjSem(o, f, g, asg);
    }
    B.Canonicity(o, Conj(o, f, g), B.Conj(o, f, g));
  }

  /** De Morgan over eddy's conjunction. */
  function Disj(o: Order, f: BEdge, g: BEdge): (r: BEdge)
    requires B.Ctx(o) && B.Canon(o, f) && B.Canon(o, g)
    ensures B.Canon(o, r)
  {
    B.Complement(Conj(o, B.Complement(f), B.Complement(g)))
  }

  lemma DisjSem(o: Order, f: BEdge, g: BEdge, asg: seq<bool>)
    requires B.Ctx(o) && B.Canon(o, f) && B.Canon(o, g) && B.Input(o, asg)
    ensures Bounded(f, |asg|) && Bounded(g, |asg|) && Bounded(Disj(o, f, g), |asg|)
    ensures B.Sem(o, Disj(o, f, g), asg) == (B.Sem(o, f, asg) || B.Sem(o, g, asg))
  {
    ConjSem(o, B.Complement(f), B.Complement(g), asg);
  }

  /** apply XORs the weight into the edge and keeps the node. */
  function Apply(w: bool, f: BEdge): (r: BEdge)
    ensures r.v == f.v
    ensures r == (if w then B.Complement(f) else f)
  {
    Edge(w != f.w, f.v)
  }

  // -------------------------------------------------------------------------
  // If-then-else as written

  /**
   * Standard triples as written. Cases 1 and 2 swap operands. In cases 3
   * and 4 the second assignment reads the condition already overwritten,
   * so case 3 yields (~g, g, 1) rather than (~g, ~f, 1), and case 4 yields
   * (~h, 0, h) rather than (~h, 0, ~f).
   */
  function StdTriple(o: Order, ret: int, f: BEdge, g: BEdge, h: BEdge): (r: B.Triple)
    requires B.Ctx(o) && B.Canon(o, f) && B.Canon(o, g) && B.Canon(o, h)
    requires 1 <= ret <= 4 && f.v.Inner?
    requires ret == 1 ==> g == B.One && h.v.Inner?
    requires ret == 2 ==> h == B.Zero && g.v.Inner?
    requires ret == 3 ==> h == B.One && g.v.Inner?
    requires ret == 4 ==> g == B.Zero && h.v.Inner?
    ensures NoHigher(o, f, g, h, r)
    ensures ret <= 2 ==> r == B.StdTriple(o, ret, f, g, h)
    ensures ret == 3 && B.LvlGe(o, f.v.x, g.v.x) ==> r == B.Triple(B.Complement(g), g, h)
    ensures ret == 4 && B.LvlGe(o, f.v.x, h.v.x) ==> r == B.Triple(B.Complement(h), g, h)
  {
    if ret <= 2 then B.StdTriple(o, ret, f, g, h) else StdComplement(o, ret, f, g, h)
  }

  /** r's operands are canonical, its condition is an inner node, and its top level is no higher. */
  ghost predicate NoHigher(o: Order, f: BEdge, g: BEdge, h: BEdge, r: B.Triple)
  {
    && B.Canon(o, r.f) && B.Canon(o, r.g) && B.Canon(o, r.h) && r.f.v.Inner?
    && B.MinLvl3(o, r.f, r.g, r.h) >= B.MinLvl3(o, f, g, h)
  }

  /** Cases 3 and 4 as written: the second operand is computed from the new condition. */
  function StdComplement(o: Order, ret: int, f: BEdge, g: BEdge, h: BEdge): (r: B.Triple)
    requires B.Ctx(o) && B.Canon(o, f) && B.Canon(o, g) && B.Canon(o, h)
    requires (ret == 3 || ret == 4) && f.v.Inner?
    requires ret == 3 ==> h == B.One && g.v.Inner?
    requires ret == 4 ==> g == B.Zero && h.v.Inner?
    ensures NoHigher(o, f, g, h, r)
    ensures ret == 3 && B.LvlGe(o, f.v.x, g.v.x) ==> r == B.Triple(B.Complement(g), g, h)
    ensures ret == 4 && B.LvlGe(o, f.v.x, h.v.x) ==> r == B.Triple(B.Complement(h), g, h)
  {
    if ret == 3 then
      (if B.LvlGe(o, f.v.x, g.v.x) then
         var f' := B.Complement(g);
         B.Triple(f', B.Complement(f'), h)
       else B.Triple(f, g, h))
    else
      (if B.LvlGe(o, f.v.x, h.v.x) then
         var f' := B.Complement(h);
         B.Triple(f', g, B.Complement(f'))
       else B.Triple(f, g, h))
  }

  /** The ite as written never climbs above its operands' top level. */
  function Ite(o: Order, f0: BEdge, g0: BEdge, h0: BEdge): (r: BEdge)
    requires B.Ctx(o) && B.Canon(o, f0) && B.Canon(o, g0) && B.Canon(o, h0)
    ensures B.Canon(o, r) && Lvl(o, r) >= B.MinLvl3(o, f0, g0, h0)
    decreases o.Count() - B.MinLvl3(o, f0, g0, h0), 1
  {
    var s := B.Simplify(f0, g0, h0);
    var f, g, h := f0, s.g, s.h;
    B.SimplifyCanon(o, f0, g0, h0);
    if f == B.One then g
    else if f == B.Zero then h
    else if g == h then g
    else if g == B.One && h == B.Zero then f
    else if g == B.Zero && h == B.One then B.Complement(f)
    else
      B.PastTerminal(o, f, g0, h0);
      var t := if s.ret != 0 then StdTriple(o, s.ret, f, g, h) else B.Triple(f, g, h);
      IteSplit(o, t.f, t.g, t.h)
  }

  function IteSplit(o: Order, f: BEdge, g: BEdge, h: BEdge): (r: BEdge)
    requires B.Ctx(o) && B.Canon(o, f) && B.Canon(o, g) && B.Canon(o, h) && f.v.Inner?
    ensures B.Canon(o, r) && Lvl(o, r) >= B.MinLvl3(o, f, g, h)
    decreases o.Count() - B.MinLvl3(o, f, g, h), 0
  {
    var x := B.IteVar(o, f, g, h);
    B.CofTripleCanon(o, f, g, h, x, true);
    B.CofTripleCanon(o, f, g, h, x, false);
    var hi := Ite(o, B.Cof(o, f, x, true), B.Cof(o, g, x, true), B.Cof(o, h, x, true));
    var lo := Ite(o, B.Cof(o, f, x, false), B.Cof(o, g, x, false), B.Cof(o, h, x, false));
    B.Branch(o, x, hi, lo)
  }

  /** Two variables, x0 above x1, both Shannon. */
  const Ss: Order := Order([S, S], [0, 1])

  function Var(x: nat): BEdge
  {
    Edge(false, Inner(x, B.One, B.Zero))
  }

  /**
   * ite(x1, x0, ~x1) means ~x1 or x0, which holds when both variables are
   * false; the ite as written rewrites it to ite(~x0, x0, 1) and returns x0.
   */
  lemma IteStdTripleCounterexample()
    ensures B.Ctx(Ss) && B.Canon(Ss, Var(0)) && B.Canon(Ss, Var(1))
    ensures Ite(Ss, Var(1), Var(0), B.Complement(Var(1))) == Var(0)
    ensures !B.Sem(Ss, Var(0), [false, false])
    ensures B.IteVal(B.Sem(Ss, Var(1), [false, false]), B.Sem(Ss, Var(0), [false, false]),
                     B.Sem(Ss, B.Complement(Var(1)), [false, false]))
  {
    var o := Ss;
    var x0, x1 := Var(0), Var(1);
    var nx0 := B.Complement(x0);
    assert B.Simplify(x1, x0, B.Complement(x1)) == B.Simplified(3, x0, B.One);
    assert StdTriple(o, 3, x1, x0, B.One) == B.Triple(nx0, x0, B.One);
    assert B.IteVar(o, nx0, x0, B.One) == 0;
    assert B.Cof(o, nx0, 0, true) == B.Zero && B.Cof(o, x0, 0, true) == B.One && B.Cof(o, B.One, 0, true) == B.One;
    assert B.Cof(o, nx0, 0, false) == B.One && B.Cof(o, x0, 0, false) == B.Zero && B.Cof(o, B.One, 0, false) == B.One;
    assert Ite(o, B.Zero, B.One, B.One) == B.One;
    assert Ite(o, B.One, B.Zero, B.One) == B.Zero;
    assert IteSplit(o, nx0, x0, B.One) == x0;
  }

  /**
   * Case 4 fails the same way: ite(x1, ~x1, x0) means ~x1 and x0, false when
   * both variables are true; the ite as written returns x0.
   */
  lemma IteStdTripleCase4Counterexample()
    ensures Ite(Ss, Var(1), B.Complement(Var(1)), Var(0)) == Var(0)
    ensures B.Sem(Ss, Var(0), [true, true])
    ensures !B.IteVal(B.Sem(Ss, Var(1), [true, true]), B.Sem(Ss, B.Complement(Var(1)), [true, true]),
                      B.Sem(Ss, Var(0), [true, true]))
  {
    var o := Ss;
    var x0, x1 := Var(0), Var(1);
    var nx0 := B.Complement(x0);
    assert B.Canon(o, x0) && B.Canon(o, x1);
    assert B.Simplify(x1, B.Complement(x1), x0) == B.Simplified(4, B.Zero, x0);
    assert StdTriple(o, 4, x1, B.Zero, x0) == B.Triple(nx0, B.Zero, x0);
    assert B.IteVar(o, nx0, B.Zero, x0) == 0;
    assert B.Cof(o, nx0, 0, true) == B.Zero && B.Cof(o, x0, 0, true) == B.One;
    assert B.Cof(o, nx0, 0, false) == B.One && B.Cof(o, x0, 0, false) == B.Zero;
    assert Ite(o, B.Zero, B.Zero, B.One) == B.One;
    assert Ite(o, B.One, B.Zero, B.Zero) == B.Zero;
    assert IteSplit(o, nx0, B.Zero, x0) == x0;
  }

  // -------------------------------------------------------------------------
  // Counting models

  /** satcount: the two constants first, then the recursive average. */
  function SatCount(o: Order, f: BEdge): (r: real)
    requires B.Ctx(o) && B.Canon(o, f)
    ensures r == B.Models(o, f) as real
  {
    B.SharpSatCounts(o, f);
    if f == B.Zero then 0.0
    else if f == B.One then Pow2(o.Count()) as real
    else B.SharpSat(o, f)
  }
}
