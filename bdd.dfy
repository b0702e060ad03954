/**
 * Binary decision diagrams with complemented edges (freddy bdd_manager).
 * There is a single leaf holding false; an edge weight true complements the
 * function below it. Weights and values combine by XOR.
 */
module Bdd {
  import opened Dd
  import opened Counting

  type BEdge = Edge<bool, bool>

  function Agg(w: bool, c: bool): bool { w != c }
  function Comb(w1: bool, w2: bool): bool { w1 != w2 }
  function Merge(a: bool, b: bool): bool { a != b }

  /** constant(0) and constant(1): the 0-leaf under a regular and a complemented edge. */
  const Zero: BEdge := Edge(false, Leaf(false))
  const One: BEdge := Edge(true, Leaf(false))

  /** The manager state every operator relies on: a valid order of Shannon variables. */
  ghost predicate Ctx(o: Order) { o.Valid() && o.AllShannon() }

  /**
   * Canonical form of stored diagrams: the only leaf is the 0-leaf, the low
   * edge of every node is regular, no node has equal children.
   */
  ghost predicate Normal(v: Node<bool, bool>)
  {
    match v
    case Leaf(c) => !c
    case Inner(_, hi, lo) => !lo.w && hi != lo && Normal(hi.v) && Normal(lo.v)
  }

  ghost predicate Canon(o: Order, f: BEdge) { Ordered(o, f) && Normal(f.v) }

  /** The Boolean function an edge denotes. */
  function Sem(o: Order, f: BEdge, asg: seq<bool>): bool
    requires |asg| == o.Count() && Bounded(f, |asg|)
  {
    Eval(o, f, asg, Agg, Merge)
  }

  ghost predicate Input(o: Order, asg: seq<bool>) { |asg| == o.Count() }

  lemma OrderedBounded(o: Order, f: BEdge)
    requires Ordered(o, f)
    ensures Bounded(f, o.Count())
  {
    match f.v
    case Leaf(_) =>
    case Inner(_, hi, lo) => OrderedBounded(o, hi); OrderedBounded(o, lo);
  }

  lemma WeightsAgree()
    ensures AggHom(Agg, Comb)
  {
  }

  // -------------------------------------------------------------------------
  // Complement and cofactors

  /** Complement flips only the weight of the incoming edge. */
  function Complement(f: BEdge): (r: BEdge)
    ensures r.v == f.v && r.w == !f.w
    ensures r != f
  {
    Edge(!f.w, f.v)
  }

  lemma ComplementSem(o: Order, f: BEdge, asg: seq<bool>)
    requires Input(o, asg) && Bounded(f, |asg|)
    ensures Bounded(Complement(f), |asg|)
    ensures Sem(o, Complement(f), asg) == !Sem(o, f, asg)
    ensures Complement(Complement(f)) == f
  {
  }

  function Cof(o: Order, f: BEdge, x: nat, a: bool): BEdge
    requires x < o.Count()
  {
    Dd.Cof(o, f, x, a, Comb, Zero)
  }

  lemma CofSem(o: Order, f: BEdge, x: nat, asg: seq<bool>)
    requires Ctx(o) && Input(o, asg) && x < |asg| && Bounded(f, |asg|)
    ensures Bounded(Cof(o, f, x, asg[x]), |asg|)
    ensures Sem(o, Cof(o, f, x, asg[x]), asg) == Sem(o, f, asg)
  {
    WeightsAgree();
    CofShannon(o, f, x, asg[x], Comb, Zero, asg, Agg, Merge);
  }

  /**
   * Cofactoring a canonical diagram at a variable on or above its top level
   * gives a canonical diagram strictly below that variable.
   */
  lemma CofCanon(o: Order, f: BEdge, x: nat, a: bool)
    requires Ctx(o) && x < o.Count() && Canon(o, f) && o.var2lvl[x] <= Lvl(o, f)
    ensures Canon(o, Cof(o, f, x, a))
    ensures Lvl(o, Cof(o, f, x, a)) > o.var2lvl[x]
    ensures Lvl(o, Cof(o, f, x, a)) >= Lvl(o, f)
  {
    assert o.t[x] == S;
    if f.v.Inner? && f.v.x == x {
      var c := if a then f.v.hi else f.v.lo;
      assert Cof(o, f, x, a) == Edge(Comb(f.w, c.w), c.v);
      assert Canon(o, c);
    } else {
      assert Cof(o, f, x, a) == f;
      if f.v.Inner? {
        assert o.var2lvl[f.v.x] != o.var2lvl[x];
      }
    }
  }

  // -------------------------------------------------------------------------
  // Node construction

  /**
   * Redundancy rule, then normalisation: if lo is complemented both children
   * are complemented and the complement moves onto the incoming edge.
   */
  function Branch(o: Order, x: nat, hi: BEdge, lo: BEdge): (r: BEdge)
    requires Ctx(o) && x < o.Count()
    requires Canon(o, hi) && Canon(o, lo) && o.var2lvl[x] < Lvl(o, hi) && o.var2lvl[x] < Lvl(o, lo)
    ensures Canon(o, r) && Lvl(o, r) >= o.var2lvl[x]
    ensures hi == lo ==> r == hi
    ensures hi != lo ==> r.v.Inner? && r.v.x == x && !r.v.lo.w && r.w == lo.w
  {
    if hi == lo then hi
    else
      var w := lo.w;
      Edge(w, Inner(x, if w then Complement(hi) else hi, if w then Complement(lo) else lo))
  }

  lemma BranchSem(o: Order, x: nat, hi: BEdge, lo: BEdge, asg: seq<bool>)
    requires Ctx(o) && x < o.Count() && Input(o, asg)
    requires Canon(o, hi) && Canon(o, lo) && o.var2lvl[x] < Lvl(o, hi) && o.var2lvl[x] < Lvl(o, lo)
    ensures Bounded(Branch(o, x, hi, lo), |asg|)
    ensures Sem(o, Branch(o, x, hi, lo), asg) == if asg[x] then Sem(o, hi, asg) else Sem(o, lo, asg)
  {
    OrderedBounded(o, hi);
    OrderedBounded(o, lo);
    OrderedBounded(o, Branch(o, x, hi, lo));
    if hi != lo {
      assert o.t[x] == S;
      var w := lo.w;
      var h := if w then Complement(hi) else hi;
      var l := if w then Complement(lo) else lo;
      ComplementSem(o, hi, asg);
      ComplementSem(o, lo, asg);
      var b := Branch(o, x, hi, lo);
      assert b == Edge(w, Inner(x, h, l));
      assert EvalNode(o, b.v, asg, Agg, Merge) == if asg[x] then Sem(o, h, asg) else Sem(o, l, asg);
    }
  }

  // -------------------------------------------------------------------------
  // Conjunction and disjunction

  function MinLvl(o: Order, f: BEdge, g: BEdge): nat
  {
    if Lvl(o, f) <= Lvl(o, g) then Lvl(o, f) else Lvl(o, g)
  }

  /**
   * 0 absorbs, 1 is neutral, the same node under equal weights gives f and
   * under opposite weights 0; otherwise the branch of the conjunctions of
   * the cofactors at the top variable.
   */
  function Conj(o: Order, f: BEdge, g: BEdge): (r: BEdge)
    requires Ctx(o) && Canon(o, f) && Canon(o, g)
    ensures Canon(o, r) && Lvl(o, r) >= MinLvl(o, f, g)
    decreases Size(f) + Size(g), 1
  {
    if f == Zero || g == Zero then Zero
    else if f == One then g
    else if g == One then f
    else if f.v == g.v then (if f.w == g.w then f else Zero)
    else
      var x := TopVar(o, f, g);
      TopCofs(o, f, g, x);
      ConjSplit(o, f, g, x)
  }

  /** The recursive case of conj: the branch of the conjunctions of the cofactors at x. */
  function ConjSplit(o: Order, f: BEdge, g: BEdge, x: nat): (r: BEdge)
    requires Canon(o, f) && Canon(o, g) && CofsBelow(o, f, g, x)
    ensures Canon(o, r) && Lvl(o, r) >= o.var2lvl[x]
    decreases Size(f) + Size(g), 0
  {
    Branch(o, x, Conj(o, Cof(o, f, x, true), Cof(o, g, x, true)),
                 Conj(o, Cof(o, f, x, false), Cof(o, g, x, false)))
  }

  lemma {:induction false} ConjSem(o: Order, f: BEdge, g: BEdge, asg: seq<bool>)
    requires Ctx(o) && Canon(o, f) && Canon(o, g) && Input(o, asg)
    ensures Bounded(f, |asg|) && Bounded(g, |asg|) && Bounded(Conj(o, f, g), |asg|)
    ensures Sem(o, Conj(o, f, g), asg) == (Sem(o, f, asg) && Sem(o, g, asg))
    decreases Size(f) + Size(g)
  {
    OrderedBounded(o, f);
    OrderedBounded(o, g);
    OrderedBounded(o, Conj(o, f, g));
    if f == Zero || g == Zero || f == One || g == One || f.v == g.v {
    } else {
      var x := TopVar(o, f, g);
      var a := asg[x];
      TopCofs(o, f, g, x);
      var h := Conj(o, Cof(o, f, x, true), Cof(o, g, x, true));
      var l := Conj(o, Cof(o, f, x, false), Cof(o, g, x, false));
      BranchSem(o, x, h, l, asg);
      ConjSem(o, Cof(o, f, x, a), Cof(o, g, x, a), asg);
      CofSem(o, f, x, asg);
      CofSem(o, g, x, asg);
    }
  }

  /** De Morgan: the complement of the conjunction of the complements. */
  function Disj(o: Order, f: BEdge, g: BEdge): (r: BEdge)
    requires Ctx(o) && Canon(o, f) && Canon(o, g)
    ensures Canon(o, r)
  {
    Complement(Conj(o, Complement(f), Complement(g)))
  }

  lemma DisjSem(o: Order, f: BEdge, g: BEdge, asg: seq<bool>)
    requires Ctx(o) && Canon(o, f) && Canon(o, g) && Input(o, asg)
    ensures Bounded(f, |asg|) && Bounded(g, |asg|) && Bounded(Disj(o, f, g), |asg|)
    ensures Sem(o, Disj(o, f, g), asg) == (Sem(o, f, asg) || Sem(o, g, asg))
  {
    ConjSem(o, Complement(f), Complement(g), asg);
  }

  // -------------------------------------------------------------------------
  // Exclusive or

  /** 0 and 1 are handled by identity and complement, equal and complementary operands directly. */
  function Antiv(o: Order, f: BEdge, g: BEdge): (r: BEdge)
    requires Ctx(o) && Canon(o, f) && Canon(o, g)
    ensures Canon(o, r) && Lvl(o, r) >= MinLvl(o, f, g)
    decreases Size(f) + Size(g), 1
  {
    if f == Zero then g
    else if g == Zero then f
    else if f == One then Complement(g)
    else if g == One then Complement(f)
    else if f == g then Zero
    else if f == Complement(g) then One
    else
      var x := TopVar(o, f, g);
      TopCofs(o, f, g, x);
      AntivSplit(o, f, g, x)
  }

  /** The recursive case of antiv: the branch of the XORs of the cofactors at x. */
  function AntivSplit(o: Order, f: BEdge, g: BEdge, x: nat): (r: BEdge)
    requires Canon(o, f) && Canon(o, g) && CofsBelow(o, f, g, x)
    ensures Canon(o, r) && Lvl(o, r) >= o.var2lvl[x]
    decreases Size(f) + Size(g), 0
  {
    Branch(o, x, Antiv(o, Cof(o, f, x, true), Cof(o, g, x, true)),
                 Antiv(o, Cof(o, f, x, false), Cof(o, g, x, false)))
  }

  lemma {:induction false} AntivSem(o: Order, f: BEdge, g: BEdge, asg: seq<bool>)
    requires Ctx(o) && Canon(o, f) && Canon(o, g) && Input(o, asg)
    ensures Bounded(f, |asg|) && Bounded(g, |asg|) && Bounded(Antiv(o, f, g), |asg|)
    ensures Sem(o, Antiv(o, f, g), asg) == (Sem(o, f, asg) != Sem(o, g, asg))
    decreases Size(f) + Size(g)
  {
    OrderedBounded(o, f);
    OrderedBounded(o, g);
    OrderedBounded(o, Antiv(o, f, g));
    if f == Zero || g == Zero || f == One || g == One || f == g || f == Complement(g) {
      ComplementSem(o, f, asg);
      ComplementSem(o, g, asg);
    } else {
      var x := TopVar(o, f, g);
      var a := asg[x];
      TopCofs(o, f, g, x);
      var h := Antiv(o, Cof(o, f, x, true), Cof(o, g, x, true));
      var l := Antiv(o, Cof(o, f, x, false), Cof(o, g, x, false));
      BranchSem(o, x, h, l, asg);
      AntivSem(o, Cof(o, f, x, a), Cof(o, g, x, a), asg);
      CofSem(o, f, x, asg);
      CofSem(o, g, x, asg);
    }
  }

  // -------------------------------------------------------------------------
  // If-then-else

  function MinLvl3(o: Order, f: BEdge, g: BEdge, h: BEdge): nat
  {
    var m := MinLvl(o, f, g);
    if m <= Lvl(o, h) then m else Lvl(o, h)
  }

  /** Result of simplify: the rule that fired (0 for none) and the rewritten g and h. */
  datatype Simplified = Simplified(ret: int, g: BEdge, h: BEdge)

  /**
   * ite(f,f,h) -> ite(f,1,h); ite(f,g,f) -> ite(f,g,0);
   * ite(f,g,~f) -> ite(f,g,1); ite(f,~f,h) -> ite(f,0,h).
   */
  function Simplify(f: BEdge, g: BEdge, h: BEdge): (r: Simplified)
    ensures 0 <= r.ret <= 4
    ensures r.ret == 0 ==> r.g == g && r.h == h
    ensures r.ret == 1 ==> r.g == One && r.h == h
    ensures r.ret == 2 ==> r.g == g && r.h == Zero
    ensures r.ret == 3 ==> r.g == g && r.h == One
    ensures r.ret == 4 ==> r.g == Zero && r.h == h
  {
    if f == g then Simplified(1, One, h)
    else if f == h then Simplified(2, g, Zero)
    else if f.v == h.v && f.w != h.w then Simplified(3, g, One)
    else if f.v == g.v && f.w != g.w then Simplified(4, Zero, h)
    else Simplified(0, g, h)
  }

  function IteVal(a: bool, b: bool, c: bool): bool { if a then b else c }

  /** Each simplify rewrite keeps ite(f, g, h) the same function. */
  lemma SimplifySem(o: Order, f: BEdge, g: BEdge, h: BEdge, asg: seq<bool>)
    requires Input(o, asg) && Bounded(f, |asg|) && Bounded(g, |asg|) && Bounded(h, |asg|)
    ensures Bounded(Simplify(f, g, h).g, |asg|) && Bounded(Simplify(f, g, h).h, |asg|)
    ensures IteVal(Sem(o, f, asg), Sem(o, Simplify(f, g, h).g, asg), Sem(o, Simplify(f, g, h).h, asg))
         == IteVal(Sem(o, f, asg), Sem(o, g, asg), Sem(o, h, asg))
  {
  }

  /** lvl_ge(a, b): a sits on the same level as b or below it. */
  predicate LvlGe(o: Order, a: nat, b: nat)
    requires a < |o.var2lvl| && b < |o.var2lvl|
  {
    o.var2lvl[a] >= o.var2lvl[b]
  }

  datatype Triple = Triple(f: BEdge, g: BEdge, h: BEdge)

  /**
   * r is ite(f, g, h) with its operands rearranged: all canonical, the same
   * total size, the same highest level, and a condition on f's level or
   * above it.
   */
  ghost predicate TripleKeeps(o: Order, f: BEdge, g: BEdge, h: BEdge, r: Triple)
  {
    && Canon(o, r.f) && Canon(o, r.g) && Canon(o, r.h) && r.f.v.Inner?
    && Size(r.f) + Size(r.g) + Size(r.h) == Size(f) + Size(g) + Size(h)
    && MinLvl3(o, r.f, r.g, r.h) == MinLvl3(o, f, g, h)
    && (r.f.v != f.v ==> f.v.Inner? && f.v.x < |o.var2lvl| && r.f.v.x < |o.var2lvl| && LvlGe(o, f.v.x, r.f.v.x))
  }

  /** The rearranged triple denotes the same ite on every assignment. */
  ghost predicate TripleSame(o: Order, f: BEdge, g: BEdge, h: BEdge, r: Triple, asg: seq<bool>)
  {
    && Input(o, asg)
    && Bounded(r.f, |asg|) && Bounded(r.g, |asg|) && Bounded(r.h, |asg|)
    && Bounded(f, |asg|) && Bounded(g, |asg|) && Bounded(h, |asg|)
    && IteVal(Sem(o, r.f, asg), Sem(o, r.g, asg), Sem(o, r.h, asg))
       == IteVal(Sem(o, f, asg), Sem(o, g, asg), Sem(o, h, asg))
  }

  /**
   * Standard triples: after a simplify rule fired, move the operand with the
   * higher top variable into the condition, using ite(f,1,h) == ite(h,1,f),
   * ite(f,g,0) == ite(g,f,0), ite(f,g,1) == ite(~g,~f,1) and
   * ite(f,0,h) == ite(~h,0,~f).
   */
  function StdTriple(o: Order, ret: int, f: BEdge, g: BEdge, h: BEdge): (r: Triple)
    requires Ctx(o) && Canon(o, f) && Canon(o, g) && Canon(o, h)
    requires 1 <= ret <= 4 && f.v.Inner?
    requires ret == 1 ==> g == One && h.v.Inner?
    requires ret == 2 ==> h == Zero && g.v.Inner?
    requires ret == 3 ==> h == One && g.v.Inner?
    requires ret == 4 ==> g == Zero && h.v.Inner?
    ensures TripleKeeps(o, f, g, h, r)
  {
    if ret == 1 then StdOr(o, f, g, h)
    else if ret == 2 then StdAnd(o, f, g, h)
    else if ret == 3 then StdImp(o, f, g, h)
    else StdNimp(o, f, g, h)
  }

  /** ite(f, 1, h), f or h: the higher of f and h becomes the condition. */
  function StdOr(o: Order, f: BEdge, g: BEdge, h: BEdge): (r: Triple)
    requires Ctx(o) && Canon(o, f) && Canon(o, g) && Canon(o, h) && f.v.Inner? && g == One && h.v.Inner?
    ensures TripleKeeps(o, f, g, h, r)
  {
    if LvlGe(o, f.v.x, h.v.x) then Triple(h, g, f) else Triple(f, g, h)
  }

  /** ite(f, g, 0), f and g: the higher of f and g becomes the condition. */
  function StdAnd(o: Order, f: BEdge, g: BEdge, h: BEdge): (r: Triple)
    requires Ctx(o) && Canon(o, f) && Canon(o, g) && Canon(o, h) && f.v.Inner? && h == Zero && g.v.Inner?
    ensures TripleKeeps(o, f, g, h, r)
  {
    if LvlGe(o, f.v.x, g.v.x) then Triple(g, f, h) else Triple(f, g, h)
  }

  /** ite(f, g, 1), f implies g, equals ite(~g, ~f, 1). */
  function StdImp(o: Order, f: BEdge, g: BEdge, h: BEdge): (r: Triple)
    requires Ctx(o) && Canon(o, f) && Canon(o, g) && Canon(o, h) && f.v.Inner? && h == One && g.v.Inner?
    ensures TripleKeeps(o, f, g, h, r)
  {
    if LvlGe(o, f.v.x, g.v.x) then Triple(Complement(g), Complement(f), h) else Triple(f, g, h)
  }

  /** ite(f, 0, h), not f and h, equals ite(~h, 0, ~f). */
  function StdNimp(o: Order, f: BEdge, g: BEdge, h: BEdge): (r: Triple)
    requires Ctx(o) && Canon(o, f) && Canon(o, g) && Canon(o, h) && f.v.Inner? && g == Zero && h.v.Inner?
    ensures TripleKeeps(o, f, g, h, r)
  {
    if LvlGe(o, f.v.x, h.v.x) then Triple(Complement(h), g, Complement(f)) else Triple(f, g, h)
  }

  lemma StdTripleSem(o: Order, ret: int, f: BEdge, g: BEdge, h: BEdge, asg: seq<bool>)
    requires Ctx(o) && Canon(o, f) && Canon(o, g) && Canon(o, h) && Input(o, asg)
    requires 1 <= ret <= 4 && f.v.Inner?
    requires ret == 1 ==> g == One && h.v.Inner?
    requires ret == 2 ==> h == Zero && g.v.Inner?
    requires ret == 3 ==> h == One && g.v.Inner?
    requires ret == 4 ==> g == Zero && h.v.Inner?
    ensures TripleSame(o, f, g, h, StdTriple(o, ret, f, g, h), asg)
  {
    var t := StdTriple(o, ret, f, g, h);
    OrderedBounded(o, f); OrderedBounded(o, g); OrderedBounded(o, h);
    OrderedBounded(o, t.f); OrderedBounded(o, t.g); OrderedBounded(o, t.h);
    if ret == 3 {
      ComplementSem(o, f, asg);
      ComplementSem(o, g, asg);
    } else if ret == 4 {
      ComplementSem(o, f, asg);
      ComplementSem(o, h, asg);
    }
  }

  /**
   * The splitting variable of ite: the top variable of f and h when f is not
   * below g, else the top variable of g and h. It is the label of one
   * operand and lies on the highest level among the three.
   */
  function IteVar(o: Order, f: BEdge, g: BEdge, h: BEdge): (x: nat)
    requires Ctx(o) && Canon(o, f) && Canon(o, g) && Canon(o, h) && f.v.Inner?
    ensures (f.v.Inner? && x == f.v.x) || (g.v.Inner? && x == g.v.x) || (h.v.Inner? && x == h.v.x)
    ensures x < o.Count() && o.var2lvl[x] == MinLvl3(o, f, g, h)
  {
    if f.v.x == TopVar(o, f, g) then TopVar(o, f, h) else TopVar(o, g, h)
  }

  lemma CofSmaller(o: Order, f: BEdge, x: nat, a: bool)
    requires x < o.Count()
    ensures Size(Cof(o, f, x, a)) <= Size(f)
    ensures f.v.Inner? && f.v.x == x ==> Size(Cof(o, f, x, a)) < Size(f)
  {
  }

  /**
   * The cofactors of f and g at x are canonical and lie strictly below x,
   * and each pair of like cofactors is smaller than f and g together.
   */
  ghost predicate CofsBelow(o: Order, f: BEdge, g: BEdge, x: nat)
  {
    && Ctx(o) && x < o.Count()
    && Canon(o, Cof(o, f, x, true)) && Canon(o, Cof(o, f, x, false))
    && Canon(o, Cof(o, g, x, true)) && Canon(o, Cof(o, g, x, false))
    && o.var2lvl[x] < Lvl(o, Cof(o, f, x, true)) && o.var2lvl[x] < Lvl(o, Cof(o, f, x, false))
    && o.var2lvl[x] < Lvl(o, Cof(o, g, x, true)) && o.var2lvl[x] < Lvl(o, Cof(o, g, x, false))
    && Size(Cof(o, f, x, true)) + Size(Cof(o, g, x, true)) < Size(f) + Size(g)
    && Size(Cof(o, f, x, false)) + Size(Cof(o, g, x, false)) < Size(f) + Size(g)
  }

  /** Two canonical diagrams, not both constant, split at their top variable. */
  lemma TopCofs(o: Order, f: BEdge, g: BEdge, x: nat)
    requires Ctx(o) && Canon(o, f) && Canon(o, g)
    requires (f.v.Inner? || g.v.Inner?) && x == TopVar(o, f, g)
    ensures CofsBelow(o, f, g, x) && o.var2lvl[x] == MinLvl(o, f, g)
  {
    CofCanon(o, f, x, true); CofCanon(o, f, x, false);
    CofCanon(o, g, x, true); CofCanon(o, g, x, false);
    CofSmaller(o, f, x, true); CofSmaller(o, f, x, false);
    CofSmaller(o, g, x, true); CofSmaller(o, g, x, false);
  }

  /** A canonical constant is 0 or 1. */
  lemma CanonConst(o: Order, f: BEdge)
    requires Canon(o, f) && f.v.Leaf?
    ensures f == Zero || f == One
  {
    assert f.v == Leaf(false);
    if f.w { assert f == One; } else { assert f == Zero; }
  }

  /** The rewritten operands stay canonical, no larger and no higher. */
  lemma SimplifyCanon(o: Order, f: BEdge, g: BEdge, h: BEdge)
    requires Ctx(o) && Canon(o, f) && Canon(o, g) && Canon(o, h)
    ensures var s := Simplify(f, g, h);
      && Canon(o, s.g) && Canon(o, s.h)
      && Size(s.g) <= Size(g) && Size(s.h) <= Size(h)
      && MinLvl3(o, f, s.g, s.h) >= MinLvl3(o, f, g, h)
  {
  }

  /** Cofactoring all three operands at the splitting variable. */
  lemma CofTriple(o: Order, f: BEdge, g: BEdge, h: BEdge, x: nat, a: bool)
    requires Ctx(o) && Canon(o, f) && Canon(o, g) && Canon(o, h)
    requires x < o.Count() && o.var2lvl[x] == MinLvl3(o, f, g, h)
    requires (f.v.Inner? && x == f.v.x) || (g.v.Inner? && x == g.v.x) || (h.v.Inner? && x == h.v.x)
    ensures var f', g', h' := Cof(o, f, x, a), Cof(o, g, x, a), Cof(o, h, x, a);
      && Canon(o, f') && Canon(o, g') && Canon(o, h')
      && MinLvl3(o, f', g', h') > o.var2lvl[x]
      && Size(f') + Size(g') + Size(h') < Size(f) + Size(g) + Size(h)
  {
    CofTripleCanon(o, f, g, h, x, a);
    CofTripleSize(o, f, g, h, x, a);
  }

  lemma CofTripleCanon(o: Order, f: BEdge, g: BEdge, h: BEdge, x: nat, a: bool)
    requires Ctx(o) && Canon(o, f) && Canon(o, g) && Canon(o, h)
    requires x < o.Count() && o.var2lvl[x] == MinLvl3(o, f, g, h)
    ensures var f', g', h' := Cof(o, f, x, a), Cof(o, g, x, a), Cof(o, h, x, a);
      && Canon(o, f') && Canon(o, g') && Canon(o, h')
      && MinLvl3(o, f', g', h') > o.var2lvl[x]
  {
    CofCanon(o, f, x, a);
    CofCanon(o, g, x, a);
    CofCanon(o, h, x, a);
  }

  lemma CofTripleSize(o: Order, f: BEdge, g: BEdge, h: BEdge, x: nat, a: bool)
    requires x < o.Count()
    requires (f.v.Inner? && x == f.v.x) || (g.v.Inner? && x == g.v.x) || (h.v.Inner? && x == h.v.x)
    ensures Size(Cof(o, f, x, a)) + Size(Cof(o, g, x, a)) + Size(Cof(o, h, x, a)) < Size(f) + Size(g) + Size(h)
  {
    CofSmaller(o, f, x, a);
    CofSmaller(o, g, x, a);
    CofSmaller(o, h, x, a);
  }

  /** Past the terminal cases f is a node and every rule's operand is as std_triple asserts. */
  lemma PastTerminal(o: Order, f: BEdge, g0: BEdge, h0: BEdge)
    requires Canon(o, f) && Canon(o, g0) && Canon(o, h0)
    requires var s := Simplify(f, g0, h0);
      !(f == Zero || f == One || s.g == s.h || (s.h == Zero && s.g == One) || (s.g == Zero && s.h == One))
    ensures var s := Simplify(f, g0, h0);
      && f.v.Inner?
      && (s.ret == 1 ==> s.g == One && s.h.v.Inner?)
      && (s.ret == 2 ==> s.h == Zero && s.g.v.Inner?)
      && (s.ret == 3 ==> s.h == One && s.g.v.Inner?)
      && (s.ret == 4 ==> s.g == Zero && s.h.v.Inner?)
  {
    if f.v.Leaf? { CanonConst(o, f); }
    if g0.v.Leaf? { CanonConst(o, g0); }
    if h0.v.Leaf? { CanonConst(o, h0); }
  }

  /**
   * simplify, then the terminal cases, then standard triples, then the
   * branch of the ites of the cofactors at the top variable.
   */
  function Ite(o: Order, f0: BEdge, g0: BEdge, h0: BEdge): (r: BEdge)
    requires Ctx(o) && Canon(o, f0) && Canon(o, g0) && Canon(o, h0)
    ensures Canon(o, r) && Lvl(o, r) >= MinLvl3(o, f0, g0, h0)
    decreases Size(f0) + Size(g0) + Size(h0), 1
  {
    var s := Simplify(f0, g0, h0);
    var f, g, h := f0, s.g, s.h;
    SimplifyCanon(o, f0, g0, h0);
    if f == Zero then h
    else if f == One || g == h then g
    else if h == Zero && g == One then f
    else if g == Zero && h == One then Complement(f)
    else
      PastTerminal(o, f, g0, h0);
      var t := if s.ret != 0 then StdTriple(o, s.ret, f, g, h) else Triple(f, g, h);
      IteSplit(o, t.f, t.g, t.h)
  }

  function IteSplit(o: Order, f: BEdge, g: BEdge, h: BEdge): (r: BEdge)
    requires Ctx(o) && Canon(o, f) && Canon(o, g) && Canon(o, h) && f.v.Inner?
    ensures Canon(o, r) && Lvl(o, r) >= MinLvl3(o, f, g, h)
    decreases Size(f) + Size(g) + Size(h), 0
  {
    var x := IteVar(o, f, g, h);
    CofTriple(o, f, g, h, x, true);
    CofTriple(o, f, g, h, x, false);
    var hi := Ite(o, Cof(o, f, x, true), Cof(o, g, x, true), Cof(o, h, x, true));
    var lo := Ite(o, Cof(o, f, x, false), Cof(o, g, x, false), Cof(o, h, x, false));
    Branch(o, x, hi, lo)
  }

  /** ite denotes "if f then g else h". */
  lemma {:induction false} IteSem(o: Order, f0: BEdge, g0: BEdge, h0: BEdge, asg: seq<bool>)
    requires Ctx(o) && Canon(o, f0) && Canon(o, g0) && Canon(o, h0) && Input(o, asg)
    ensures Bounded(f0, |asg|) && Bounded(g0, |asg|) && Bounded(h0, |asg|) && Bounded(Ite(o, f0, g0, h0), |asg|)
    ensures Sem(o, Ite(o, f0, g0, h0), asg) == IteVal(Sem(o, f0, asg), Sem(o, g0, asg), Sem(o, h0, asg))
    decreases Size(f0) + Size(g0) + Size(h0), 1
  {
    OrderedBounded(o, f0); OrderedBounded(o, g0); OrderedBounded(o, h0);
    OrderedBounded(o, Ite(o, f0, g0, h0));
    var s := Simplify(f0, g0, h0);
    var f, g, h := f0, s.g, s.h;
    SimplifyCanon(o, f0, g0, h0);
    OrderedBounded(o, g); OrderedBounded(o, h);
    SimplifySem(o, f0, g0, h0, asg);
    if f == Zero || f == One || g == h || (h == Zero && g == One) || (g == Zero && h == One) {
      ComplementSem(o, f, asg);
    } else {
      PastTerminal(o, f, g0, h0);
      var t := if s.ret != 0 then StdTriple(o, s.ret, f, g, h) else Triple(f, g, h);
      if s.ret != 0 {
        StdTripleSem(o, s.ret, f, g, h, asg);
      }
      IteSplitSem(o, t.f, t.g, t.h, asg);
    }
  }

  lemma {:induction false} IteSplitSem(o: Order, f: BEdge, g: BEdge, h: BEdge, asg: seq<bool>)
    requires Ctx(o) && Canon(o, f) && Canon(o, g) && Canon(o, h) && f.v.Inner? && Input(o, asg)
    ensures Bounded(f, |asg|) && Bounded(g, |asg|) && Bounded(h, |asg|) && Bounded(IteSplit(o, f, g, h), |asg|)
    ensures Sem(o, IteSplit(o, f, g, h), asg) == IteVal(Sem(o, f, asg), Sem(o, g, asg), Sem(o, h, asg))
    decreases Size(f) + Size(g) + Size(h), 0
  {
    OrderedBounded(o, f); OrderedBounded(o, g); OrderedBounded(o, h);
    OrderedBounded(o, IteSplit(o, f, g, h));
    var x := IteVar(o, f, g, h);
    CofTriple(o, f, g, h, x, true);
    CofTriple(o, f, g, h, x, false);
    var hi := Ite(o, Cof(o, f, x, true), Cof(o, g, x, true), Cof(o, h, x, true));
    var lo := Ite(o, Cof(o, f, x, false), Cof(o, g, x, false), Cof(o, h, x, false));
    BranchSem(o, x, hi, lo, asg);
    var a := asg[x];
    IteSem(o, Cof(o, f, x, a), Cof(o, g, x, a), Cof(o, h, x, a), asg);
    CofSem(o, f, x, asg);
    CofSem(o, g, x, asg);
    CofSem(o, h, x, asg);
  }

  /** x0 & x1 == ite(x0, x1, 0) and x0 | x1 == ite(x0, 1, x1), as functions. */
  lemma IteConjDisj(o: Order, f: BEdge, g: BEdge, asg: seq<bool>)
    requires Ctx(o) && Canon(o, f) && Canon(o, g) && Input(o, asg)
    ensures Bounded(Ite(o, f, g, Zero), |asg|) && Bounded(Conj(o, f, g), |asg|)
    ensures Bounded(Ite(o, f, One, g), |asg|) && Bounded(Disj(o, f, g), |asg|)
    ensures Sem(o, Ite(o, f, g, Zero), asg) == Sem(o, Conj(o, f, g), asg)
    ensures Sem(o, Ite(o, f, One, g), asg) == Sem(o, Disj(o, f, g), asg)
  {
    IteSem(o, f, g, Zero, asg);
    IteSem(o, f, One, g, asg);
    ConjSem(o, f, g, asg);
    DisjSem(o, f, g, asg);
  }

  // -------------------------------------------------------------------------
  // Model counting

  /** Sem made total: false outside the assignments of the right length. */
  function Val(o: Order, f: BEdge, asg: seq<bool>): bool
  {
    if |asg| == o.Count() && Bounded(f, |asg|) then Sem(o, f, asg) else false
  }

  /** Number of satisfying assignments of f over all n variables. */
  function Models(o: Order, f: BEdge): nat
  {
    CountModels(a => Val(o, f, a), o.Count())
  }

  /**
   * sharpsat: 0 at constant 0, 2^n at the other constant, otherwise the
   * average of the children's counts, taken from 2^n on a complemented edge.
   */
  function SharpSat(o: Order, f: BEdge): (r: real)
    ensures 0.0 <= r <= Pow2(o.Count()) as real
  {
    var all := Pow2(o.Count()) as real;
    match f.v
    case Leaf(_) => if f == Zero then 0.0 else all
    case Inner(_, hi, lo) =>
      var count := (SharpSat(o, hi) + SharpSat(o, lo)) / 2.0;
      if f.w then all - count else count
  }

  /** On canonical diagrams sharpsat is the exact number of models. */
  lemma {:induction false} SharpSatCounts(o: Order, f: BEdge)
    requires Ctx(o) && Canon(o, f)
    ensures SharpSat(o, f) == Models(o, f) as real
  {
    var n := o.Count();
    var P := a => Val(o, f, a);
    OrderedBounded(o, f);
    match f.v
    case Leaf(_) =>
      CanonConst(o, f);
      CountConst(P, f == One, [], n);
    case Inner(x, hi, lo) =>
      SharpSatCounts(o, hi);
      SharpSatCounts(o, lo);
      OrderedBounded(o, hi);
      OrderedBounded(o, lo);
      var H := a => Val(o, hi, a);
      var L := a => Val(o, lo, a);
      var R := a => Val(o, Edge(false, f.v), a);
      OccursBelow(o, hi, x);
      OccursBelow(o, lo, x);
      forall a: seq<bool> | |a| == n && x < n
        ensures H(a[x := true]) == H(a) && H(a[x := false]) == H(a)
        ensures L(a[x := true]) == L(a) && L(a[x := false]) == L(a)
      {
        EvalIndependent(o, hi, a, x, true, Agg, Merge);
        EvalIndependent(o, hi, a, x, false, Agg, Merge);
        EvalIndependent(o, lo, a, x, true, Agg, Merge);
        EvalIndependent(o, lo, a, x, false, Agg, Merge);
      }
      assert o.t[x] == S;
      forall a: seq<bool> | |a| == n
        ensures R(a) == if a[x] then H(a) else L(a)
      {
        assert Bounded(Edge(false, f.v), n);
        assert EvalNode(o, f.v, a, Agg, Merge) == if a[x] then Sem(o, hi, a) else Sem(o, lo, a);
      }
      CountSplit(R, H, L, x, n);
      if f.w {
        forall a: seq<bool> | |a| == n
          ensures P(a) == !R(a)
        {
        }
        CountNot(R, P, [], n);
      } else {
        assert f == Edge(false, f.v);
      }
  }

  /** Complementing turns the count c into 2^n - c. */
  lemma SharpSatComplement(o: Order, f: BEdge)
    requires Ctx(o) && Canon(o, f)
    ensures SharpSat(o, Complement(f)) == Pow2(o.Count()) as real - SharpSat(o, f)
  {
    SharpSatCounts(o, f);
    SharpSatCounts(o, Complement(f));
    OrderedBounded(o, f);
    forall a: seq<bool> | |a| == o.Count()
      ensures Val(o, Complement(f), a) == !Val(o, f, a)
    {
      ComplementSem(o, f, a);
    }
    CountNot(a => Val(o, f, a), a => Val(o, Complement(f), a), [], o.Count());
  }

  // -------------------------------------------------------------------------
  // Canonicity: equal functions have equal canonical diagrams

  function AllFalse(n: nat): (r: seq<bool>)
    ensures |r| == n && forall i :: 0 <= i < n ==> !r[i]
  {
    seq(n, _ => false)
  }

  /** A regular canonical edge denotes a function that is false on the all-false assignment. */
  lemma {:induction false} RegularFalse(o: Order, f: BEdge)
    requires Ctx(o) && Canon(o, f) && !f.w
    ensures !Val(o, f, AllFalse(o.Count()))
  {
    OrderedBounded(o, f);
    match f.v
    case Leaf(_) =>
    case Inner(x, hi, lo) =>
      var z := AllFalse(o.Count());
      assert o.t[x] == S;
      RegularFalse(o, lo);
      OrderedBounded(o, lo);
      OrderedBounded(o, hi);
      assert EvalNode(o, f.v, z, Agg, Merge) == Sem(o, lo, z);
  }

  /** Shannon expansion of a canonical node in terms of Val. */
  lemma ValShannon(o: Order, f: BEdge, asg: seq<bool>)
    requires Ctx(o) && Canon(o, f) && f.v.Inner? && |asg| == o.Count()
    ensures Val(o, f, asg) == (f.w != if asg[f.v.x] then Val(o, f.v.hi, asg) else Val(o, f.v.lo, asg))
  {
    OrderedBounded(o, f);
    OrderedBounded(o, f.v.hi);
    OrderedBounded(o, f.v.lo);
    assert o.t[f.v.x] == S;
    assert EvalNode(o, f.v, asg, Agg, Merge)
        == if asg[f.v.x] then Sem(o, f.v.hi, asg) else Sem(o, f.v.lo, asg);
  }

  /** A canonical diagram strictly below x does not depend on x. */
  lemma ValIndependent(o: Order, e: BEdge, x: nat, asg: seq<bool>, b: bool)
    requires Ctx(o) && Canon(o, e) && x < o.Count() && Lvl(o, e) > o.var2lvl[x] && |asg| == o.Count()
    ensures Val(o, e, asg[x := b]) == Val(o, e, asg)
  {
    OrderedBounded(o, e);
    OccursBelow(o, e, x);
    EvalIndependent(o, e, asg, x, b, Agg, Merge);
  }

  ghost predicate SameFunction(o: Order, f: BEdge, g: BEdge)
  {
    forall asg: seq<bool> :: |asg| == o.Count() ==> Val(o, f, asg) == Val(o, g, asg)
  }

  /**
   * Canonicity: two canonical diagrams denoting the same function are the
   * same diagram, so comparing (hash-consed) edges decides equivalence.
   */
  lemma {:induction false} Canonicity(o: Order, f: BEdge, g: BEdge)
    requires Ctx(o) && Canon(o, f) && Canon(o, g) && SameFunction(o, f, g)
    ensures f == g
    decreases Size(f) + Size(g), 1
  {
    if Lvl(o, f) <= Lvl(o, g) {
      CanonicityTop(o, f, g);
    } else {
      CanonicityTop(o, g, f);
    }
  }

  lemma {:induction false} CanonicityTop(o: Order, f: BEdge, g: BEdge)
    requires Ctx(o) && Canon(o, f) && Canon(o, g) && SameFunction(o, f, g) && Lvl(o, f) <= Lvl(o, g)
    ensures f == g
    decreases Size(f) + Size(g), 0
  {
    var n := o.Count();
    var z := AllFalse(n);
    if f.v.Leaf? {
      assert g.v.Leaf?;
      CanonConst(o, f);
      CanonConst(o, g);
      assert Val(o, f, z) == Val(o, g, z);
      return;
    }
    var x := f.v.x;
    var hi, lo := f.v.hi, f.v.lo;
    if !(g.v.Inner? && g.v.x == x) {
      if g.v.Inner? {
        assert o.var2lvl[g.v.x] != o.var2lvl[x];
      }
      forall asg: seq<bool> | |asg| == n
        ensures Val(o, hi, asg) == Val(o, lo, asg)
      {
        ValShannon(o, f, asg[x := true]);
        ValShannon(o, f, asg[x := false]);
        ValIndependent(o, hi, x, asg, true);
        ValIndependent(o, lo, x, asg, false);
        ValIndependent(o, g, x, asg, true);
        ValIndependent(o, g, x, asg, false);
      }
      Canonicity(o, hi, lo);
      assert false;
    } else {
      var hi', lo' := g.v.hi, g.v.lo;
      forall asg: seq<bool> | |asg| == n
        ensures (f.w != Val(o, lo, asg)) == (g.w != Val(o, lo', asg))
        ensures (f.w != Val(o, hi, asg)) == (g.w != Val(o, hi', asg))
      {
        ValShannon(o, f, asg[x := false]);
        ValShannon(o, g, asg[x := false]);
        ValShannon(o, f, asg[x := true]);
        ValShannon(o, g, asg[x := true]);
        ValIndependent(o, lo, x, asg, false);
        ValIndependent(o, lo', x, asg, false);
        ValIndependent(o, hi, x, asg, true);
        ValIndependent(o, hi', x, asg, true);
      }
      RegularFalse(o, lo);
      RegularFalse(o, lo');
      assert f.w == g.w;
      Canonicity(o, lo, lo');
      Canonicity(o, hi, hi');
    }
  }

  // -------------------------------------------------------------------------
  // Exchanging two adjacent levels (the node rewrite inside exchange)

  /** x sits directly above y. */
  ghost predicate Adjacent(o: Order, x: nat, y: nat)
  {
    x < o.Count() && y < o.Count() && |o.var2lvl| == o.Count() && o.var2lvl[y] == o.var2lvl[x] + 1
  }

  /** The order after exchanging the levels of x and y. */
  function Swapped(o: Order, x: nat, y: nat): (o': Order)
    requires x < |o.var2lvl| && y < |o.var2lvl|
  {
    Dd.Order(o.t, o.var2lvl[x := o.var2lvl[y]][y := o.var2lvl[x]])
  }

  lemma SwappedValid(o: Order, x: nat, y: nat)
    requires Ctx(o) && Adjacent(o, x, y)
    ensures Ctx(Swapped(o, x, y))
  {
    var o' := Swapped(o, x, y);
    forall a, b | 0 <= a < |o.t| && 0 <= b < |o.t| && a != b
      ensures o'.var2lvl[a] != o'.var2lvl[b]
    {
    }
  }

  /** Evaluation does not read the level permutation. */
  lemma {:induction false} SemOrderFree(o: Order, o': Order, f: BEdge, asg: seq<bool>)
    requires o'.t == o.t && Input(o, asg) && Bounded(f, |asg|)
    ensures Sem(o', f, asg) == Sem(o, f, asg)
  {
    match f.v {
    case Leaf(_) =>
    case Inner(_, hi, lo) =>
      SemOrderFree(o, o', hi, asg);
      SemOrderFree(o, o', lo, asg);
    }
    assert EvalNode(o', f.v, asg, Agg, Merge) == EvalNode(o, f.v, asg, Agg, Merge);
  }

  /** Diagrams entirely below both exchanged levels are unaffected. */
  lemma {:induction false} CanonBelow(o: Order, x: nat, y: nat, f: BEdge)
    requires Ctx(o) && Adjacent(o, x, y) && Canon(o, f) && Lvl(o, f) > o.var2lvl[y]
    ensures Canon(Swapped(o, x, y), f) && Lvl(Swapped(o, x, y), f) == Lvl(o, f)
  {
    match f.v
    case Leaf(_) =>
    case Inner(z, hi, lo) =>
      CanonBelow(o, x, y, hi);
      CanonBelow(o, x, y, lo);
  }

  /** swap_is_needed: some child is labelled y. */
  predicate SwapNeeded(hi: BEdge, lo: BEdge, y: nat)
  {
    (hi.v.Inner? && hi.v.x == y) || (lo.v.Inner? && lo.v.x == y)
  }

  /**
   * The rewrite of a node labelled x whose child is labelled y: the node is
   * relabelled y, with children the x-branches of the y-cofactors of its
   * children. Other nodes labelled x stay as they are.
   */
  function ExchangeNode(o: Order, x: nat, y: nat, v: Node<bool, bool>): (r: Node<bool, bool>)
    requires Ctx(o) && Adjacent(o, x, y) && Canon(o, Edge(false, v)) && v.Inner? && v.x == x
    ensures Canon(Swapped(o, x, y), Edge(false, r)) && Lvl(Swapped(o, x, y), Edge(false, r)) >= o.var2lvl[x]
  {
    var o' := Swapped(o, x, y);
    SwappedValid(o, x, y);
    var hi, lo := v.hi, v.lo;
    if SwapNeeded(hi, lo, y) then
      CofCanon(o, hi, y, true); CofCanon(o, hi, y, false);
      CofCanon(o, lo, y, true); CofCanon(o, lo, y, false);
      CanonBelow(o, x, y, Cof(o, hi, y, true)); CanonBelow(o, x, y, Cof(o, hi, y, false));
      CanonBelow(o, x, y, Cof(o, lo, y, true)); CanonBelow(o, x, y, Cof(o, lo, y, false));
      var h := Branch(o', x, Cof(o, hi, y, true), Cof(o, lo, y, true));
      var l := Branch(o', x, Cof(o, hi, y, false), Cof(o, lo, y, false));
      assert !Cof(o, lo, y, false).w;
      ExchangeNodeDistinct(o, x, y, v);
      Inner(y, h, l)
    else
      assert Canon(o, hi) && Canon(o, lo);
      assert hi.v.Inner? ==> o.var2lvl[hi.v.x] != o.var2lvl[y];
      assert lo.v.Inner? ==> o.var2lvl[lo.v.x] != o.var2lvl[y];
      CanonBelow(o, x, y, hi);
      CanonBelow(o, x, y, lo);
      v
  }

  /** The two rebuilt children differ: equal ones would force equal children somewhere below. */
  lemma ExchangeNodeDistinct(o: Order, x: nat, y: nat, v: Node<bool, bool>)
    requires Ctx(o) && Adjacent(o, x, y) && Canon(o, Edge(false, v)) && v.Inner? && v.x == x
    requires SwapNeeded(v.hi, v.lo, y)
    ensures Ctx(Swapped(o, x, y))
    ensures
      var o' := Swapped(o, x, y);
      && Canon(o, Cof(o, v.hi, y, true)) && Canon(o, Cof(o, v.lo, y, true))
      && Canon(o', Cof(o, v.hi, y, true)) && Canon(o', Cof(o, v.lo, y, true))
      && Canon(o', Cof(o, v.hi, y, false)) && Canon(o', Cof(o, v.lo, y, false))
      && o'.var2lvl[x] < Lvl(o', Cof(o, v.hi, y, true)) && o'.var2lvl[x] < Lvl(o', Cof(o, v.lo, y, true))
      && o'.var2lvl[x] < Lvl(o', Cof(o, v.hi, y, false)) && o'.var2lvl[x] < Lvl(o', Cof(o, v.lo, y, false))
      && Branch(o', x, Cof(o, v.hi, y, true), Cof(o, v.lo, y, true))
         != Branch(o', x, Cof(o, v.hi, y, false), Cof(o, v.lo, y, false))
  {
    var o' := Swapped(o, x, y);
    SwappedValid(o, x, y);
    var hi, lo := v.hi, v.lo;
    CofCanon(o, hi, y, true); CofCanon(o, hi, y, false);
    CofCanon(o, lo, y, true); CofCanon(o, lo, y, false);
    CanonBelow(o, x, y, Cof(o, hi, y, true)); CanonBelow(o, x, y, Cof(o, hi, y, false));
    CanonBelow(o, x, y, Cof(o, lo, y, true)); CanonBelow(o, x, y, Cof(o, lo, y, false));
    var h := Branch(o', x, Cof(o, hi, y, true), Cof(o, lo, y, true));
    var l := Branch(o', x, Cof(o, hi, y, false), Cof(o, lo, y, false));
  }

  /** The node rewrite keeps the function of every edge pointing at the node. */
  lemma ExchangeNodeSem(o: Order, x: nat, y: nat, w: bool, v: Node<bool, bool>, asg: seq<bool>)
    requires Ctx(o) && Adjacent(o, x, y) && Canon(o, Edge(false, v)) && v.Inner? && v.x == x
    requires Input(o, asg)
    ensures Val(Swapped(o, x, y), Edge(w, ExchangeNode(o, x, y, v)), asg) == Val(o, Edge(w, v), asg)
  {
    var o' := Swapped(o, x, y);
    var r := ExchangeNode(o, x, y, v);
    OrderedBounded(o', Edge(w, r));
    OrderedBounded(o, Edge(false, v));
    var hi, lo := v.hi, v.lo;
    if SwapNeeded(hi, lo, y) {
      ExchangeNodeDistinct(o, x, y, v);
      var t := asg[y];
      OrderedBounded(o, hi);
      OrderedBounded(o, lo);
      CofSem(o, hi, y, asg);
      CofSem(o, lo, y, asg);
      BranchSem(o', x, Cof(o, hi, y, t), Cof(o, lo, y, t), asg);
      SemOrderFree(o, o', Cof(o, hi, y, t), asg);
      SemOrderFree(o, o', Cof(o, lo, y, t), asg);
      assert o.t[x] == S && o.t[y] == S;
      assert EvalNode(o', r, asg, Agg, Merge) == Sem(o', Branch(o', x, Cof(o, hi, y, t), Cof(o, lo, y, t)), asg);
      assert EvalNode(o, v, asg, Agg, Merge) == if asg[x] then Sem(o, hi, asg) else Sem(o, lo, asg);
    } else {
      SemOrderFree(o, o', Edge(w, v), asg);
    }
  }

  /**
   * Exchange seen from one root: every node labelled x is rewritten in
   * place, so the nodes above level x keep their labels and get the
   * rewritten children; nothing at or below y changes.
   */
  function ExchangeDD(o: Order, x: nat, y: nat, f: BEdge): (r: BEdge)
    requires Ctx(o) && Adjacent(o, x, y) && Canon(o, f)
    ensures r.w == f.w && Bounded(r, o.Count())
    ensures f.v.Inner? && f.v.x != x ==> r.v.Inner? && r.v.x == f.v.x
    ensures f.v.Leaf? ==> r == f
  {
    match f.v
    case Leaf(_) => f
    case Inner(z, hi, lo) =>
      if z == x then
        var v := ExchangeNode(o, x, y, f.v);
        assert Canon(Swapped(o, x, y), Edge(false, v));
        OrderedBounded(Swapped(o, x, y), Edge(false, v));
        Edge(f.w, v)
      else if Lvl(o, f) < o.var2lvl[x] then
        Edge(f.w, Inner(z, ExchangeDD(o, x, y, hi), ExchangeDD(o, x, y, lo)))
      else
        OrderedBounded(o, f);
        f
  }

  /** Exchanging two levels does not change the function any edge denotes. */
  lemma {:induction false} ExchangeDDSem(o: Order, x: nat, y: nat, f: BEdge, asg: seq<bool>)
    requires Ctx(o) && Adjacent(o, x, y) && Canon(o, f) && Input(o, asg)
    ensures Val(Swapped(o, x, y), ExchangeDD(o, x, y, f), asg) == Val(o, f, asg)
  {
    var o' := Swapped(o, x, y);
    OrderedBounded(o, f);
    match f.v
    case Leaf(_) =>
    case Inner(z, hi, lo) =>
      if z == x {
        ExchangeNodeSem(o, x, y, f.w, f.v, asg);
      } else if Lvl(o, f) < o.var2lvl[x] {
        ExchangeDDSem(o, x, y, hi, asg);
        ExchangeDDSem(o, x, y, lo, asg);
        OrderedBounded(o, hi);
        OrderedBounded(o, lo);
        var r := ExchangeDD(o, x, y, f);
        assert o.t[z] == S;
        assert EvalNode(o', r.v, asg, Agg, Merge)
            == if asg[z] then Sem(o', r.v.hi, asg) else Sem(o', r.v.lo, asg);
        assert EvalNode(o, f.v, asg, Agg, Merge)
            == if asg[z] then Sem(o, hi, asg) else Sem(o, lo, asg);
      } else {
        SemOrderFree(o, o', f, asg);
      }
  }

  /** Distinct canonical diagrams stay distinct across an exchange. */
  lemma ExchangeDDInjective(o: Order, x: nat, y: nat, f: BEdge, g: BEdge)
    requires Ctx(o) && Adjacent(o, x, y) && Canon(o, f) && Canon(o, g)
    requires ExchangeDD(o, x, y, f) == ExchangeDD(o, x, y, g)
    ensures f == g
  {
    forall asg: seq<bool> | |asg| == o.Count()
      ensures Val(o, f, asg) == Val(o, g, asg)
    {
      ExchangeDDSem(o, x, y, f, asg);
      ExchangeDDSem(o, x, y, g, asg);
    }
    Canonicity(o, f, g);
  }

  /**
   * The rewritten diagram is canonical under the exchanged order; roots
   * above level x keep their level and the others stay at or below it.
   */
  lemma {:induction false} ExchangeDDCanon(o: Order, x: nat, y: nat, f: BEdge)
    requires Ctx(o) && Adjacent(o, x, y) && Canon(o, f)
    ensures Canon(Swapped(o, x, y), ExchangeDD(o, x, y, f))
    ensures Lvl(o, f) < o.var2lvl[x] ==> Lvl(Swapped(o, x, y), ExchangeDD(o, x, y, f)) == Lvl(o, f)
    ensures Lvl(o, f) >= o.var2lvl[x] ==> Lvl(Swapped(o, x, y), ExchangeDD(o, x, y, f)) >= o.var2lvl[x]
  {
    var o' := Swapped(o, x, y);
    var r := ExchangeDD(o, x, y, f);
    match f.v
    case Leaf(_) =>
    case Inner(z, hi, lo) =>
      if z == x {
      } else if Lvl(o, f) < o.var2lvl[x] {
        assert z != y;
        ExchangeDDCanon(o, x, y, hi);
        ExchangeDDCanon(o, x, y, lo);
        if ExchangeDD(o, x, y, hi) == ExchangeDD(o, x, y, lo) {
          ExchangeDDInjective(o, x, y, hi, lo);
        }
      } else {
        assert z == y || o.var2lvl[z] > o.var2lvl[y] by {
          assert o.var2lvl[z] != o.var2lvl[x];
        }
        CanonBelow(o, x, y, hi);
        CanonBelow(o, x, y, lo);
        if z != y {
          CanonBelow(o, x, y, f);
        }
      }
  }
}
