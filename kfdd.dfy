/**
 * Kronecker functional decision diagrams (freddy kfdd_manager): every
 * variable carries its own decomposition, Shannon (S), positive Davio (PD)
 * or negative Davio (ND). Weights are complement bits and values combine
 * by XOR, as for BDDs; a Davio node denotes lo XOR (x and hi) (PD) or
 * lo XOR (not x and hi) (ND).
 */
module Kfdd {
  import opened Dd
  import opened Counting
  import B = Bdd

  type KEdge = Edge<bool, bool>

  /** The value of a node of decomposition t under x = a, given the values h and l of its children. */
  function Expand(t: Expansion, a: bool, h: bool, l: bool): bool
  {
    match t
    case S => if a then h else l
    case PD => if a then h != l else l
    case ND => if !a then h != l else l
  }

  /**
   * Canonical form: the only leaf is the 0-leaf and every low edge is
   * regular; a Shannon node has distinct children, a Davio node a high
   * child other than constant 0.
   */
  ghost predicate Normal(o: Order, v: Node<bool, bool>)
  {
    match v
    case Leaf(c) => !c
    case Inner(x, hi, lo) =>
      && x < o.Count() && !lo.w
      && (if o.t[x] == S then hi != lo else hi != B.Zero)
      && Normal(o, hi.v) && Normal(o, lo.v)
  }

  ghost predicate Canon(o: Order, f: KEdge) { Ordered(o, f) && Normal(o, f.v) }

  lemma CanonConst(o: Order, f: KEdge)
    requires Canon(o, f) && f.v.Leaf?
    ensures f == B.Zero || f == B.One
  {
    assert f.v == Leaf(false);
    if f.w { assert f == B.One; } else { assert f == B.Zero; }
  }

  /** A canonical edge other than the two constants ends in an inner node. */
  lemma CanonInner(o: Order, f: KEdge)
    requires Canon(o, f) && f != B.Zero && f != B.One
    ensures f.v.Inner?
  {
    if f.v.Leaf? { CanonConst(o, f); }
  }

  // -------------------------------------------------------------------------
  // Cofactors (the manager's cof, shared with the other flavours)

  lemma CofBounded(o: Order, f: KEdge, x: nat, a: bool, n: nat)
    requires x < o.Count() && Bounded(f, n)
    ensures Bounded(B.Cof(o, f, x, a), n)
  {
  }

  /**
   * f is the expansion of its two cofactors at x: the selected child for a
   * Shannon variable, low XOR (condition and high) for a Davio one.
   */
  lemma CofSem(o: Order, f: KEdge, x: nat, asg: seq<bool>)
    requires x < o.Count() && B.Input(o, asg) && Bounded(f, |asg|)
    ensures Bounded(B.Cof(o, f, x, true), |asg|) && Bounded(B.Cof(o, f, x, false), |asg|)
    ensures B.Sem(o, f, asg) == Expand(o.t[x], asg[x], B.Sem(o, B.Cof(o, f, x, true), asg), B.Sem(o, B.Cof(o, f, x, false), asg))
  {
    CofBounded(o, f, x, true, |asg|);
    CofBounded(o, f, x, false, |asg|);
    if o.t[x] == S {
      CofSemShannon(o, f, x, asg);
    } else {
      CofSemDavio(o, f, x, asg);
    }
  }

  lemma CofSemShannon(o: Order, f: KEdge, x: nat, asg: seq<bool>)
    requires x < o.Count() && o.t[x] == S && B.Input(o, asg) && Bounded(f, |asg|)
    requires Bounded(B.Cof(o, f, x, true), |asg|) && Bounded(B.Cof(o, f, x, false), |asg|)
    ensures B.Sem(o, f, asg) == Expand(S, asg[x], B.Sem(o, B.Cof(o, f, x, true), asg), B.Sem(o, B.Cof(o, f, x, false), asg))
  {
    B.WeightsAgree();
    CofShannon(o, f, x, asg[x], B.Comb, B.Zero, asg, B.Agg, B.Merge);
  }

  lemma CofSemDavio(o: Order, f: KEdge, x: nat, asg: seq<bool>)
    requires x < o.Count() && o.t[x] != S && B.Input(o, asg) && Bounded(f, |asg|)
    requires Bounded(B.Cof(o, f, x, true), |asg|) && Bounded(B.Cof(o, f, x, false), |asg|)
    ensures B.Sem(o, f, asg) == Expand(o.t[x], asg[x], B.Sem(o, B.Cof(o, f, x, true), asg), B.Sem(o, B.Cof(o, f, x, false), asg))
  {
    assert Eval(o, B.Zero, asg, B.Agg, B.Merge) == false;
    CofDavio(o, f, x, B.Comb, B.Zero, asg, B.Agg, B.Merge);
    var c1 := B.Sem(o, B.Cof(o, f, x, true), asg);
    var c0 := B.Sem(o, B.Cof(o, f, x, false), asg);
    assert B.Sem(o, f, asg) == if asg[x] == (o.t[x] == PD) then B.Merge(c1, c0) else c0;
  }

  /** Cofactors of a canonical diagram at a variable on or above its top level are canonical and lie below it. */
  lemma CofCanon(o: Order, f: KEdge, x: nat, a: bool)
    requires o.Valid() && x < o.Count() && Canon(o, f) && o.var2lvl[x] <= Lvl(o, f)
    ensures Canon(o, B.Cof(o, f, x, a))
    ensures Lvl(o, B.Cof(o, f, x, a)) > o.var2lvl[x]
    ensures Lvl(o, B.Cof(o, f, x, a)) >= Lvl(o, f)
  {
    if f.v.Inner? && f.v.x == x {
      var c := if o.t[x] != S && a then f.v.hi else Apply(B.Comb, f.w, if a then f.v.hi else f.v.lo);
      assert B.Cof(o, f, x, a) == c;
      assert Canon(o, f.v.hi) && Canon(o, f.v.lo);
    } else {
      if f.v.Inner? {
        assert o.var2lvl[f.v.x] != o.var2lvl[x];
      }
    }
  }

  /**
   * The cofactors of f and g at x are canonical, lie strictly below x, and
   * any pairing of one cofactor of f with one of g is smaller than f and g.
   */
  ghost predicate CofsBelow(o: Order, f: KEdge, g: KEdge, x: nat)
  {
    && o.Valid() && x < o.Count()
    && Canon(o, B.Cof(o, f, x, true)) && Canon(o, B.Cof(o, f, x, false))
    && Canon(o, B.Cof(o, g, x, true)) && Canon(o, B.Cof(o, g, x, false))
    && o.var2lvl[x] < Lvl(o, B.Cof(o, f, x, true)) && o.var2lvl[x] < Lvl(o, B.Cof(o, f, x, false))
    && o.var2lvl[x] < Lvl(o, B.Cof(o, g, x, true)) && o.var2lvl[x] < Lvl(o, B.Cof(o, g, x, false))
    && Size(B.Cof(o, f, x, true)) + Size(B.Cof(o, g, x, true)) < Size(f) + Size(g)
    && Size(B.Cof(o, f, x, false)) + Size(B.Cof(o, g, x, false)) < Size(f) + Size(g)
    && Size(B.Cof(o, f, x, false)) + Size(B.Cof(o, g, x, true)) < Size(f) + Size(g)
    && Size(B.Cof(o, g, x, false)) + Size(B.Cof(o, f, x, true)) < Size(f) + Size(g)
  }

  /** Two canonical non-constant diagrams split at their top variable. */
  lemma TopCofs(o: Order, f: KEdge, g: KEdge, x: nat)
    requires o.Valid() && Canon(o, f) && Canon(o, g)
    requires f != B.Zero && f != B.One && g != B.Zero && g != B.One
    requires (f.v.Inner? || g.v.Inner?) && x == TopVar(o, f, g)
    ensures CofsBelow(o, f, g, x)
  {
    CanonInner(o, f);
    CanonInner(o, g);
    CofCanon(o, f, x, true); CofCanon(o, f, x, false);
    CofCanon(o, g, x, true); CofCanon(o, g, x, false);
    B.CofSmaller(o, f, x, true); B.CofSmaller(o, f, x, false);
    B.CofSmaller(o, g, x, true); B.CofSmaller(o, g, x, false);
  }

  // -------------------------------------------------------------------------
  // Node construction

  /**
   * Shannon: the BDD redundancy rule and a regular low child. Davio: the
   * node is redundant when its high child is constant 0; a complemented low
   * child is complemented alone and the complement moves to the incoming edge.
   */
  function Branch(o: Order, x: nat, hi: KEdge, lo: KEdge): (r: KEdge)
    requires o.Valid() && x < o.Count()
    requires Canon(o, hi) && Canon(o, lo) && o.var2lvl[x] < Lvl(o, hi) && o.var2lvl[x] < Lvl(o, lo)
    ensures Canon(o, r) && Lvl(o, r) >= o.var2lvl[x]
    ensures o.t[x] == S && hi == lo ==> r == lo
    ensures o.t[x] != S && hi == B.Zero ==> r == lo
    ensures (if o.t[x] == S then hi != lo else hi != B.Zero) ==>
              r.v.Inner? && r.v.x == x && !r.v.lo.w && r.w == lo.w
  {
    if o.t[x] == S then
      if hi == lo then hi
      else
        var w := lo.w;
        Edge(w, Inner(x, if w then B.Complement(hi) else hi, if w then B.Complement(lo) else lo))
    else if hi == B.Zero then lo
    else if lo.w then Edge(true, Inner(x, hi, B.Complement(lo)))
    else Edge(false, Inner(x, hi, lo))
  }

  lemma BranchSem(o: Order, x: nat, hi: KEdge, lo: KEdge, asg: seq<bool>)
    requires o.Valid() && x < o.Count() && B.Input(o, asg)
    requires Canon(o, hi) && Canon(o, lo) && o.var2lvl[x] < Lvl(o, hi) && o.var2lvl[x] < Lvl(o, lo)
    ensures Bounded(hi, |asg|) && Bounded(lo, |asg|) && Bounded(Branch(o, x, hi, lo), |asg|)
    ensures B.Sem(o, Branch(o, x, hi, lo), asg) == Expand(o.t[x], asg[x], B.Sem(o, hi, asg), B.Sem(o, lo, asg))
  {
    B.OrderedBounded(o, hi);
    B.OrderedBounded(o, lo);
    B.OrderedBounded(o, Branch(o, x, hi, lo));
    B.ComplementSem(o, hi, asg);
    B.ComplementSem(o, lo, asg);
    var r := Branch(o, x, hi, lo);
    if r.v.Inner? && r.v.x == x {
      assert EvalNode(o, r.v, asg, B.Agg, B.Merge)
          == Expand(o.t[x], asg[x], B.Sem(o, r.v.hi, asg), B.Sem(o, r.v.lo, asg));
    } else {
      assert B.Sem(o, B.Zero, asg) == false;
    }
  }

  // -------------------------------------------------------------------------
  // Exclusive or

  /** The BDD terminal cases, else the branch of the XORs of the cofactors at the top variable. */
  function Antiv(o: Order, f: KEdge, g: KEdge): (r: KEdge)
    requires o.Valid() && Canon(o, f) && Canon(o, g)
    ensures Canon(o, r) && Lvl(o, r) >= B.MinLvl(o, f, g)
    decreases Size(f) + Size(g), 1
  {
    if f == B.Zero then g
    else if g == B.Zero then f
    else if f == B.One then B.Complement(g)
    else if g == B.One then B.Complement(f)
    else if f == g then B.Zero
    else if f == B.Complement(g) then B.One
    else
      CanonInner(o, f);
      CanonInner(o, g);
      var x := TopVar(o, f, g);
      TopCofs(o, f, g, x);
      AntivSplit(o, f, g, x)
  }

  /** The recursive case of antiv: the branch of the XORs of the cofactors at x. */
  function AntivSplit(o: Order, f: KEdge, g: KEdge, x: nat): (r: KEdge)
    requires Canon(o, f) && Canon(o, g) && CofsBelow(o, f, g, x)
    ensures Canon(o, r) && Lvl(o, r) >= o.var2lvl[x]
    decreases Size(f) + Size(g), 0
  {
    Branch(o, x, Antiv(o, B.Cof(o, f, x, true), B.Cof(o, g, x, true)),
                 Antiv(o, B.Cof(o, f, x, false), B.Cof(o, g, x, false)))
  }

  lemma {:induction false} AntivSem(o: Order, f: KEdge, g: KEdge, asg: seq<bool>)
    requires o.Valid() && Canon(o, f) && Canon(o, g) && B.Input(o, asg)
    ensures Bounded(f, |asg|) && Bounded(g, |asg|) && Bounded(Antiv(o, f, g), |asg|)
    ensures B.Sem(o, Antiv(o, f, g), asg) == (B.Sem(o, f, asg) != B.Sem(o, g, asg))
    decreases Size(f) + Size(g), 1
  {
    B.OrderedBounded(o, f);
    B.OrderedBounded(o, g);
    B.OrderedBounded(o, Antiv(o, f, g));
    if f == B.Zero || g == B.Zero || f == B.One || g == B.One || f == g || f == B.Complement(g) {
      B.ComplementSem(o, f, asg);
      B.ComplementSem(o, g, asg);
    } else {
      CanonInner(o, f);
      CanonInner(o, g);
      var x := TopVar(o, f, g);
      TopCofs(o, f, g, x);
      AntivSplitSem(o, f, g, x, asg);
    }
  }

  /** The recursive case: XOR commutes with the expansion at x. */
  lemma {:induction false} AntivSplitSem(o: Order, f: KEdge, g: KEdge, x: nat, asg: seq<bool>)
    requires Canon(o, f) && Canon(o, g) && CofsBelow(o, f, g, x) && B.Input(o, asg)
    ensures Bounded(f, |asg|) && Bounded(g, |asg|) && Bounded(AntivSplit(o, f, g, x), |asg|)
    ensures B.Sem(o, AntivSplit(o, f, g, x), asg) == (B.Sem(o, f, asg) != B.Sem(o, g, asg))
    decreases Size(f) + Size(g), 0
  {
    B.OrderedBounded(o, f);
    B.OrderedBounded(o, g);
    var fh, fl := B.Cof(o, f, x, true), B.Cof(o, f, x, false);
    var gh, gl := B.Cof(o, g, x, true), B.Cof(o, g, x, false);
    AntivSem(o, fh, gh, asg);
    AntivSem(o, fl, gl, asg);
    BranchSem(o, x, Antiv(o, fh, gh), Antiv(o, fl, gl), asg);
    CofSem(o, f, x, asg);
    CofSem(o, g, x, asg);
    ExpandXor(o.t[x], asg[x], B.Sem(o, fh, asg), B.Sem(o, fl, asg), B.Sem(o, gh, asg), B.Sem(o, gl, asg));
  }

  /** Every expansion is linear over XOR. */
  lemma ExpandXor(t: Expansion, a: bool, fh: bool, fl: bool, gh: bool, gl: bool)
    ensures Expand(t, a, fh != gh, fl != gl) == (Expand(t, a, fh, fl) != Expand(t, a, gh, gl))
  {
  }

  // -------------------------------------------------------------------------
  // Conjunction and disjunction

  /** The Davio expansion of a conjunction, by the ring laws of AND and XOR. */
  lemma ExpandConj(t: Expansion, a: bool, fh: bool, fl: bool, gh: bool, gl: bool)
    ensures t == S ==> Expand(t, a, fh && gh, fl && gl) == (Expand(t, a, fh, fl) && Expand(t, a, gh, gl))
    ensures t != S ==> Expand(t, a, (fh && gh) != ((fl && gh) != (gl && fh)), fl && gl)
                       == (Expand(t, a, fh, fl) && Expand(t, a, gh, gl))
  {
  }

  /**
   * 0 absorbs and 1 is neutral; at a Shannon top variable the conjunctions
   * of the cofactors, at a Davio one high = fh.gh XOR fl.gh XOR gl.fh and
   * low = fl.gl.
   */
  function Conj(o: Order, f: KEdge, g: KEdge): (r: KEdge)
    requires o.Valid() && Canon(o, f) && Canon(o, g)
    ensures Canon(o, r) && Lvl(o, r) >= B.MinLvl(o, f, g)
    decreases Size(f) + Size(g), 1
  {
    if f == B.Zero || g == B.Zero then B.Zero
    else if f == B.One then g
    else if g == B.One then f
    else
      CanonInner(o, f);
      CanonInner(o, g);
      var x := TopVar(o, f, g);
      TopCofs(o, f, g, x);
      if o.t[x] == S then
        Branch(o, x, Conj(o, B.Cof(o, f, x, true), B.Cof(o, g, x, true)),
                     Conj(o, B.Cof(o, f, x, false), B.Cof(o, g, x, false)))
      else
        ConjDavio(o, f, g, x)
  }

  /** The Davio case of conj at the top variable x. */
  function ConjDavio(o: Order, f: KEdge, g: KEdge, x: nat): (r: KEdge)
    requires Canon(o, f) && Canon(o, g) && CofsBelow(o, f, g, x)
    ensures Canon(o, r) && Lvl(o, r) >= o.var2lvl[x]
    decreases Size(f) + Size(g), 0
  {
    var fh, fl := B.Cof(o, f, x, true), B.Cof(o, f, x, false);
    var gh, gl := B.Cof(o, g, x, true), B.Cof(o, g, x, false);
    Branch(o, x, Antiv(o, Conj(o, fh, gh), Antiv(o, Conj(o, fl, gh), Conj(o, gl, fh))), Conj(o, fl, gl))
  }

  lemma {:induction false} ConjSem(o: Order, f: KEdge, g: KEdge, asg: seq<bool>)
    requires o.Valid() && Canon(o, f) && Canon(o, g) && B.Input(o, asg)
    ensures Bounded(f, |asg|) && Bounded(g, |asg|) && Bounded(Conj(o, f, g), |asg|)
    ensures B.Sem(o, Conj(o, f, g), asg) == (B.Sem(o, f, asg) && B.Sem(o, g, asg))
    decreases Size(f) + Size(g), 1
  {
    B.OrderedBounded(o, f);
    B.OrderedBounded(o, g);
    B.OrderedBounded(o, Conj(o, f, g));
    if f == B.Zero || g == B.Zero || f == B.One || g == B.One {
    } else {
      CanonInner(o, f);
      CanonInner(o, g);
      var x := TopVar(o, f, g);
      TopCofs(o, f, g, x);
      CofSem(o, f, x, asg);
      CofSem(o, g, x, asg);
      var fh, fl := B.Cof(o, f, x, true), B.Cof(o, f, x, false);
      var gh, gl := B.Cof(o, g, x, true), B.Cof(o, g, x, false);
      ExpandConj(o.t[x], asg[x], B.Sem(o, fh, asg), B.Sem(o, fl, asg), B.Sem(o, gh, asg), B.Sem(o, gl, asg));
      if o.t[x] == S {
        ConjSem(o, fh, gh, asg);
        ConjSem(o, fl, gl, asg);
        BranchSem(o, x, Conj(o, fh, gh), Conj(o, fl, gl), asg);
      } else {
        ConjDavioSem(o, f, g, x, asg);
      }
    }
  }

  /** The Davio case: the branch of fh.gh XOR fl.gh XOR gl.fh over fl.gl, on the cofactors' values. */
  lemma {:induction false} ConjDavioSem(o: Order, f: KEdge, g: KEdge, x: nat, asg: seq<bool>)
    requires Canon(o, f) && Canon(o, g) && CofsBelow(o, f, g, x) && B.Input(o, asg)
    ensures Bounded(B.Cof(o, f, x, true), |asg|) && Bounded(B.Cof(o, f, x, false), |asg|)
    ensures Bounded(B.Cof(o, g, x, true), |asg|) && Bounded(B.Cof(o, g, x, false), |asg|)
    ensures Bounded(ConjDavio(o, f, g, x), |asg|)
    ensures B.Sem(o, ConjDavio(o, f, g, x), asg)
         == Expand(o.t[x], asg[x],
                   (B.Sem(o, B.Cof(o, f, x, true), asg) && B.Sem(o, B.Cof(o, g, x, true), asg))
                   != ((B.Sem(o, B.Cof(o, f, x, false), asg) && B.Sem(o, B.Cof(o, g, x, true), asg))
                       != (B.Sem(o, B.Cof(o, g, x, false), asg) && B.Sem(o, B.Cof(o, f, x, true), asg))),
                   B.Sem(o, B.Cof(o, f, x, false), asg) && B.Sem(o, B.Cof(o, g, x, false), asg))
    decreases Size(f) + Size(g), 0
  {
    var fh, fl := B.Cof(o, f, x, true), B.Cof(o, f, x, false);
    var gh, gl := B.Cof(o, g, x, true), B.Cof(o, g, x, false);
    ConjSem(o, fh, gh, asg);
    ConjSem(o, fl, gl, asg);
    ConjSem(o, fl, gh, asg);
    ConjSem(o, gl, fh, asg);
    var m := Antiv(o, Conj(o, fl, gh), Conj(o, gl, fh));
    AntivSem(o, Conj(o, fl, gh), Conj(o, gl, fh), asg);
    AntivSem(o, Conj(o, fh, gh), m, asg);
    BranchSem(o, x, Antiv(o, Conj(o, fh, gh), m), Conj(o, fl, gl), asg);
  }

  /** De Morgan over conj. */
  function Disj(o: Order, f: KEdge, g: KEdge): (r: KEdge)
    requires o.Valid() && Canon(o, f) && Canon(o, g)
    ensures Canon(o, r)
  {
    B.Complement(Conj(o, B.Complement(f), B.Complement(g)))
  }

  lemma DisjSem(o: Order, f: KEdge, g: KEdge, asg: seq<bool>)
    requires o.Valid() && Canon(o, f) && Canon(o, g) && B.Input(o, asg)
    ensures Bounded(f, |asg|) && Bounded(g, |asg|) && Bounded(Disj(o, f, g), |asg|)
    ensures B.Sem(o, Disj(o, f, g), asg) == (B.Sem(o, f, asg) || B.Sem(o, g, asg))
  {
    ConjSem(o, B.Complement(f), B.Complement(g), asg);
    B.ComplementSem(o, f, asg);
    B.ComplementSem(o, g, asg);
    B.ComplementSem(o, Conj(o, B.Complement(f), B.Complement(g)), asg);
  }

  // -------------------------------------------------------------------------
  // Variables

  /**
   * The edge make_var creates for variable x: a node with children 1 and 0,
   * reached by a complemented edge when x is negative Davio.
   */
  function Var(o: Order, x: nat): (r: KEdge)
    requires o.Valid() && x < o.Count()
    ensures Canon(o, r) && Lvl(o, r) == o.var2lvl[x] && r.v.Inner? && r.v.x == x
  {
    Edge(o.t[x] == ND, Inner(x, B.One, B.Zero))
  }

  lemma VarSem(o: Order, x: nat, asg: seq<bool>)
    requires o.Valid() && x < o.Count() && B.Input(o, asg)
    ensures Bounded(Var(o, x), |asg|) && B.Sem(o, Var(o, x), asg) == asg[x]
  {
    var v := Var(o, x).v;
    assert B.Sem(o, B.One, asg) && !B.Sem(o, B.Zero, asg);
    assert EvalNode(o, v, asg, B.Agg, B.Merge) == Expand(o.t[x], asg[x], true, false);
  }

  // -------------------------------------------------------------------------
  // Independence and value cofactors

  /** A canonical diagram strictly below x does not depend on x. */
  lemma SemIndependent(o: Order, e: KEdge, x: nat, asg: seq<bool>, b: bool)
    requires o.Valid() && Canon(o, e) && x < o.Count() && Lvl(o, e) > o.var2lvl[x] && B.Input(o, asg)
    ensures Bounded(e, |asg|) && B.Sem(o, e, asg[x := b]) == B.Sem(o, e, asg)
  {
    B.OrderedBounded(o, e);
    OccursBelow(o, e, x);
    EvalIndependent(o, e, asg, x, b, B.Agg, B.Merge);
  }

  /**
   * f with x fixed to a, for an f whose top variable is x or lies below it:
   * for a Davio variable the condition-side value is the XOR of the two
   * manager cofactors, the other side the low cofactor.
   */
  function CofValue(o: Order, f: KEdge, x: nat, a: bool): (r: KEdge)
    requires o.Valid() && x < o.Count() && Canon(o, f) && o.var2lvl[x] <= Lvl(o, f)
    ensures Canon(o, r) && Lvl(o, r) > o.var2lvl[x] && Lvl(o, r) >= Lvl(o, f)
  {
    CofCanon(o, f, x, true);
    CofCanon(o, f, x, false);
    if o.t[x] == S then B.Cof(o, f, x, a)
    else if a == (o.t[x] == PD) then Antiv(o, B.Cof(o, f, x, true), B.Cof(o, f, x, false))
    else B.Cof(o, f, x, false)
  }

  lemma CofValueSem(o: Order, f: KEdge, x: nat, a: bool, asg: seq<bool>)
    requires o.Valid() && x < o.Count() && Canon(o, f) && o.var2lvl[x] <= Lvl(o, f) && B.Input(o, asg)
    ensures Bounded(f, |asg|) && Bounded(CofValue(o, f, x, a), |asg|)
    ensures B.Sem(o, CofValue(o, f, x, a), asg) == B.Sem(o, f, asg[x := a])
  {
    B.OrderedBounded(o, f);
    CofCanon(o, f, x, true);
    CofCanon(o, f, x, false);
    var c1, c0 := B.Cof(o, f, x, true), B.Cof(o, f, x, false);
    var r := CofValue(o, f, x, a);
    B.OrderedBounded(o, r);
    CofSem(o, f, x, asg[x := a]);
    SemIndependent(o, c1, x, asg, a);
    SemIndependent(o, c0, x, asg, a);
    if o.t[x] != S && a == (o.t[x] == PD) {
      AntivSem(o, c1, c0, asg);
    }
  }

  // -------------------------------------------------------------------------
  // Restriction, composition, quantification (the manager's versions over KFDDs)

  /**
   * restr as written: f when x is not essential, the manager cofactor when x
   * is the top variable, else the rebuilt node over the restricted children.
   * At a Davio top variable the manager cofactor for a = true is the high
   * child, not f with x fixed to true.
   */
  function Restr(o: Order, f: KEdge, x: nat, a: bool): (r: KEdge)
    requires o.Valid() && x < o.Count() && Canon(o, f)
    ensures Canon(o, r) && Lvl(o, r) >= Lvl(o, f)
    ensures !IsEssential(o, f, x) ==> r == f
  {
    if !IsEssential(o, f, x) then f
    else if f.v.x == x then
      CofCanon(o, f, x, a);
      B.Cof(o, f, x, a)
    else
      var y := f.v.x;
      assert Canon(o, f.v.hi) && Canon(o, f.v.lo);
      Apply(B.Comb, f.w, Branch(o, y, Restr(o, f.v.hi, x, a), Restr(o, f.v.lo, x, a)))
  }

  /** restr with the value cofactor at the top variable; it fixes x to a. */
  function RestrFixed(o: Order, f: KEdge, x: nat, a: bool): (r: KEdge)
    requires o.Valid() && x < o.Count() && Canon(o, f)
    ensures Canon(o, r) && Lvl(o, r) >= Lvl(o, f)
    ensures !IsEssential(o, f, x) ==> r == f
  {
    if !IsEssential(o, f, x) then f
    else if f.v.x == x then CofValue(o, f, x, a)
    else
      var y := f.v.x;
      assert Canon(o, f.v.hi) && Canon(o, f.v.lo);
      Apply(B.Comb, f.w, Branch(o, y, RestrFixed(o, f.v.hi, x, a), RestrFixed(o, f.v.lo, x, a)))
  }

  /** A rebuilt node under a weight denotes the weighted expansion of its children. */
  lemma ApplyBranchSem(o: Order, w: bool, y: nat, hi: KEdge, lo: KEdge, asg: seq<bool>)
    requires o.Valid() && y < o.Count() && B.Input(o, asg)
    requires Canon(o, hi) && Canon(o, lo) && o.var2lvl[y] < Lvl(o, hi) && o.var2lvl[y] < Lvl(o, lo)
    ensures Bounded(hi, |asg|) && Bounded(lo, |asg|) && Bounded(Apply(B.Comb, w, Branch(o, y, hi, lo)), |asg|)
    ensures B.Sem(o, Apply(B.Comb, w, Branch(o, y, hi, lo)), asg)
         == (w != Expand(o.t[y], asg[y], B.Sem(o, hi, asg), B.Sem(o, lo, asg)))
  {
    BranchSem(o, y, hi, lo, asg);
  }

  /** The children of a node, with the node's expansion, give its value. */
  lemma NodeSem(o: Order, f: KEdge, asg: seq<bool>)
    requires o.Valid() && Canon(o, f) && f.v.Inner? && B.Input(o, asg)
    ensures Bounded(f, |asg|) && Bounded(f.v.hi, |asg|) && Bounded(f.v.lo, |asg|)
    ensures B.Sem(o, f, asg) == (f.w != Expand(o.t[f.v.x], asg[f.v.x], B.Sem(o, f.v.hi, asg), B.Sem(o, f.v.lo, asg)))
  {
    B.OrderedBounded(o, f);
    assert EvalNode(o, f.v, asg, B.Agg, B.Merge)
        == Expand(o.t[f.v.x], asg[f.v.x], B.Sem(o, f.v.hi, asg), B.Sem(o, f.v.lo, asg));
  }

  /** restr fixes x to a. */
  lemma {:induction false} RestrFixedSem(o: Order, f: KEdge, x: nat, a: bool, asg: seq<bool>)
    requires o.Valid() && x < o.Count() && Canon(o, f) && B.Input(o, asg)
    ensures Bounded(f, |asg|) && Bounded(RestrFixed(o, f, x, a), |asg|)
    ensures B.Sem(o, RestrFixed(o, f, x, a), asg) == B.Sem(o, f, asg[x := a])
  {
    B.OrderedBounded(o, f);
    B.OrderedBounded(o, RestrFixed(o, f, x, a));
    if !IsEssential(o, f, x) {
      EvalIndependent(o, f, asg, x, a, B.Agg, B.Merge);
    } else if f.v.x == x {
      CofValueSem(o, f, x, a, asg);
    } else {
      var y := f.v.x;
      assert Canon(o, f.v.hi) && Canon(o, f.v.lo);
      RestrFixedSem(o, f.v.hi, x, a, asg);
      RestrFixedSem(o, f.v.lo, x, a, asg);
      ApplyBranchSem(o, f.w, y, RestrFixed(o, f.v.hi, x, a), RestrFixed(o, f.v.lo, x, a), asg);
      NodeSem(o, f, asg[x := a]);
    }
  }

  /** Restricting a variable that is not essential returns f itself. */
  lemma RestrNonEssential(o: Order, f: KEdge, x: nat, a: bool)
    requires o.Valid() && x < o.Count() && Canon(o, f) && !Occurs(f, x)
    ensures Restr(o, f, x, a) == f && RestrFixed(o, f, x, a) == f
  {
  }

  /** exist and forall: the disjunction and the conjunction of the two restrictions. */
  function Exist(o: Order, f: KEdge, x: nat): (r: KEdge)
    requires o.Valid() && x < o.Count() && Canon(o, f)
    ensures Canon(o, r)
  {
    Disj(o, RestrFixed(o, f, x, true), RestrFixed(o, f, x, false))
  }

  function Forall(o: Order, f: KEdge, x: nat): (r: KEdge)
    requires o.Valid() && x < o.Count() && Canon(o, f)
    ensures Canon(o, r)
  {
    Conj(o, RestrFixed(o, f, x, true), RestrFixed(o, f, x, false))
  }

  lemma QuantSem(o: Order, f: KEdge, x: nat, asg: seq<bool>)
    requires o.Valid() && x < o.Count() && Canon(o, f) && B.Input(o, asg)
    ensures Bounded(f, |asg|) && Bounded(Exist(o, f, x), |asg|) && Bounded(Forall(o, f, x), |asg|)
    ensures B.Sem(o, Exist(o, f, x), asg) == (B.Sem(o, f, asg[x := true]) || B.Sem(o, f, asg[x := false]))
    ensures B.Sem(o, Forall(o, f, x), asg) == (B.Sem(o, f, asg[x := true]) && B.Sem(o, f, asg[x := false]))
  {
    RestrFixedSem(o, f, x, true, asg);
    RestrFixedSem(o, f, x, false, asg);
    DisjSem(o, RestrFixed(o, f, x, true), RestrFixed(o, f, x, false), asg);
    ConjSem(o, RestrFixed(o, f, x, true), RestrFixed(o, f, x, false), asg);
  }

  /** Three positive Davio variables, levels in index order. */
  const PD3: Order := Dd.Order([PD, PD, PD], [0, 1, 2])

  /** x0 ^ x1 ^ x2 over an order of at least three variables. */
  function Xor3(o: Order): (r: KEdge)
    requires o.Valid() && 3 <= o.Count()
    ensures Canon(o, r) && Bounded(r, o.Count())
  {
    var f := Antiv(o, Antiv(o, Var(o, 0), Var(o, 1)), Var(o, 2));
    B.OrderedBounded(o, f);
    f
  }

  /**
   * restr as written at a Davio top variable: for f = x0 ^ x1 ^ x2 over
   * positive Davio variables, restricting x0 to true gives the constant 1,
   * though f with x0 = 1, x1 = 0, x2 = 1 is false.
   */
  lemma RestrDavioCounterexample(o: Order, asg: seq<bool>)
    requires o == PD3 && asg == [true, false, true]
    ensures o.Valid() && 3 == o.Count() == |asg|
    ensures Restr(o, Xor3(o), 0, true) == B.One
    ensures B.Sem(o, B.One, asg)
    ensures !B.Sem(o, Xor3(o), asg)
  {
    Xor3Restr(o);
    Xor3Value(o, asg);
  }

  lemma Xor3Restr(o: Order)
    requires o == PD3
    ensures o.Valid() && 3 == o.Count()
    ensures Restr(o, Xor3(o), 0, true) == B.One
  {
    var f := Xor3(o);
    Xor3Shape(o);
    assert IsEssential(o, f, 0);
    assert B.Cof(o, f, 0, true) == B.One;
  }

  lemma Xor3Value(o: Order, asg: seq<bool>)
    requires o == PD3 && asg == [true, false, true]
    ensures o.Valid() && 3 == o.Count() == |asg|
    ensures B.Sem(o, B.One, asg)
    ensures !B.Sem(o, Xor3(o), asg)
  {
    var x0, x1, x2 := Var(o, 0), Var(o, 1), Var(o, 2);
    VarSem(o, 0, asg);
    VarSem(o, 1, asg);
    VarSem(o, 2, asg);
    AntivSem(o, x0, x1, asg);
    AntivSem(o, Antiv(o, x0, x1), x2, asg);
  }

  /** The diagram of x0 ^ x1 ^ x2 over PD3: a chain of nodes whose high children are all 1. */
  lemma Xor3Shape(o: Order)
    requires o == PD3
    ensures o.Valid() && 3 == o.Count()
    ensures Xor3(o) == Edge(false, Inner(0, B.One, Edge(false, Inner(1, B.One, Var(o, 2)))))
  {
    Xor2Shape(o, 0, 1);
    Xor2Shape(o, 1, 2);
    var a := Antiv(o, Var(o, 0), Var(o, 1));
    var x2 := Var(o, 2);
    assert B.Cof(o, a, 0, true) == B.One && B.Cof(o, x2, 0, true) == B.Zero;
    assert B.Cof(o, a, 0, false) == Var(o, 1) && B.Cof(o, x2, 0, false) == x2;
  }

  lemma Xor2Shape(o: Order, i: nat, j: nat)
    requires o == PD3 && i < j < 3
    ensures o.Valid() && 3 == o.Count()
    ensures Antiv(o, Var(o, i), Var(o, j)) == Edge(false, Inner(i, B.One, Var(o, j)))
  {
    var xi, xj := Var(o, i), Var(o, j);
    assert xi == Edge(false, Inner(i, B.One, B.Zero)) && xj == Edge(false, Inner(j, B.One, B.Zero));
    assert TopVar(o, xi, xj) == i;
    assert B.Cof(o, xi, i, true) == B.One && B.Cof(o, xj, i, true) == B.Zero;
    assert B.Cof(o, xi, i, false) == B.Zero && B.Cof(o, xj, i, false) == xj;
  }

  // -------------------------------------------------------------------------
  // Composition

  /** compose handles Shannon and positive Davio variables; it asserts false on a negative Davio one. */
  ghost predicate NoNDAbove(o: Order, x: nat)
    requires o.Valid() && x < o.Count()
  {
    forall y :: 0 <= y < o.Count() && o.var2lvl[y] <= o.var2lvl[x] ==> o.t[y] != ND
  }

  /**
   * compose(f, x, g): f when x is not essential; at x the sum (XOR) of
   * hi.g and lo.~g (Shannon) or lo (Davio); above x the sum of y.compose(hi)
   * and ~y.compose(lo) (Shannon) or compose(lo) (Davio); the root weight is
   * applied last.
   */
  function Compose(o: Order, f: KEdge, x: nat, g: KEdge): (r: KEdge)
    requires o.Valid() && x < o.Count() && Canon(o, f) && Canon(o, g) && NoNDAbove(o, x)
    ensures Canon(o, r)
    ensures !IsEssential(o, f, x) ==> r == f
    decreases f, 1
  {
    if f.v.Leaf? || !IsEssential(o, f, x) then f
    else if f.v.x == x then ComposeAt(o, f, x, g)
    else ComposeAbove(o, f, x, g)
  }

  /** compose at a node labelled x: hi.g + lo.~g (Shannon) or lo + hi.g (Davio), under the root weight. */
  function ComposeAt(o: Order, f: KEdge, x: nat, g: KEdge): (r: KEdge)
    requires o.Valid() && x < o.Count() && Canon(o, f) && Canon(o, g) && f.v.Inner? && f.v.x == x
    ensures Canon(o, r)
  {
    assert Canon(o, f.v.hi) && Canon(o, f.v.lo);
    var hi := Conj(o, f.v.hi, g);
    var lo := if o.t[x] == PD then f.v.lo else Conj(o, f.v.lo, B.Complement(g));
    Apply(B.Comb, f.w, Antiv(o, hi, lo))
  }

  /** compose above x: y.compose(hi) + ~y.compose(lo) (Shannon) or compose(lo) + y.compose(hi) (Davio). */
  function ComposeAbove(o: Order, f: KEdge, x: nat, g: KEdge): (r: KEdge)
    requires o.Valid() && x < o.Count() && Canon(o, f) && Canon(o, g) && NoNDAbove(o, x) && f.v.Inner?
    ensures Canon(o, r)
    decreases f, 0
  {
    var y := f.v.x;
    assert Canon(o, f.v.hi) && Canon(o, f.v.lo);
    var ch, cl := Compose(o, f.v.hi, x, g), Compose(o, f.v.lo, x, g);
    var hi := Conj(o, Var(o, y), ch);
    var lo := if o.t[y] == PD then cl else Conj(o, B.Complement(Var(o, y)), cl);
    Apply(B.Comb, f.w, Antiv(o, hi, lo))
  }

  /** compose substitutes the function of g for x. */
  lemma {:induction false} ComposeSem(o: Order, f: KEdge, x: nat, g: KEdge, asg: seq<bool>)
    requires o.Valid() && x < o.Count() && Canon(o, f) && Canon(o, g) && NoNDAbove(o, x) && B.Input(o, asg)
    ensures Bounded(f, |asg|) && Bounded(g, |asg|) && Bounded(Compose(o, f, x, g), |asg|)
    ensures B.Sem(o, Compose(o, f, x, g), asg) == B.Sem(o, f, asg[x := B.Sem(o, g, asg)])
  {
    B.OrderedBounded(o, f);
    B.OrderedBounded(o, g);
    B.OrderedBounded(o, Compose(o, f, x, g));
    var v := B.Sem(o, g, asg);
    if f.v.Leaf? || !IsEssential(o, f, x) {
      EvalIndependent(o, f, asg, x, v, B.Agg, B.Merge);
    } else if f.v.x == x {
      ComposeTopSem(o, f, x, g, asg);
    } else {
      assert Canon(o, f.v.hi) && Canon(o, f.v.lo);
      ComposeSem(o, f.v.hi, x, g, asg);
      ComposeSem(o, f.v.lo, x, g, asg);
      ComposeAboveSem(o, f, x, g, asg);
    }
  }

  /** At x: hi.g + lo.~g for Shannon, lo + hi.g for positive Davio, under the root weight. */
  lemma ComposeTopSem(o: Order, f: KEdge, x: nat, g: KEdge, asg: seq<bool>)
    requires o.Valid() && x < o.Count() && Canon(o, f) && Canon(o, g) && NoNDAbove(o, x) && B.Input(o, asg)
    requires f.v.Inner? && f.v.x == x && IsEssential(o, f, x)
    ensures Bounded(f, |asg|) && Bounded(g, |asg|) && Bounded(Compose(o, f, x, g), |asg|)
    ensures B.Sem(o, Compose(o, f, x, g), asg) == B.Sem(o, f, asg[x := B.Sem(o, g, asg)])
  {
    B.OrderedBounded(o, f);
    B.OrderedBounded(o, g);
    B.OrderedBounded(o, Compose(o, f, x, g));
    var v := B.Sem(o, g, asg);
    var fh, fl := f.v.hi, f.v.lo;
    assert Canon(o, fh) && Canon(o, fl);
    NodeSem(o, f, asg[x := v]);
    B.ComplementSem(o, g, asg);
    SemIndependent(o, fh, x, asg, v);
    SemIndependent(o, fl, x, asg, v);
    ConjSem(o, fh, g, asg);
    var hi := Conj(o, fh, g);
    var lo := if o.t[x] == PD then fl else Conj(o, fl, B.Complement(g));
    if o.t[x] != PD {
      ConjSem(o, fl, B.Complement(g), asg);
    }
    AntivSem(o, hi, lo, asg);
    assert Compose(o, f, x, g) == Apply(B.Comb, f.w, Antiv(o, hi, lo));
  }

  /** Above x: y.compose(hi) + ~y.compose(lo) for Shannon, compose(lo) + y.compose(hi) for positive Davio. */
  /** Above x, compose is the node's expansion over the composed children. */
  lemma ComposeAboveParts(o: Order, f: KEdge, x: nat, g: KEdge, asg: seq<bool>)
    requires o.Valid() && x < o.Count() && Canon(o, f) && Canon(o, g) && NoNDAbove(o, x) && B.Input(o, asg)
    requires f.v.Inner? && o.t[f.v.x] != ND
    requires Canon(o, f.v.hi) && Canon(o, f.v.lo)
    ensures Bounded(ComposeAbove(o, f, x, g), |asg|)
    ensures Bounded(Compose(o, f.v.hi, x, g), |asg|) && Bounded(Compose(o, f.v.lo, x, g), |asg|)
    ensures B.Sem(o, ComposeAbove(o, f, x, g), asg)
      == (f.w != Expand(o.t[f.v.x], asg[f.v.x], B.Sem(o, Compose(o, f.v.hi, x, g), asg), B.Sem(o, Compose(o, f.v.lo, x, g), asg)))
  {
    B.OrderedBounded(o, ComposeAbove(o, f, x, g));
    var y := f.v.x;
    VarSem(o, y, asg);
    B.ComplementSem(o, Var(o, y), asg);
    var ch, cl := Compose(o, f.v.hi, x, g), Compose(o, f.v.lo, x, g);
    B.OrderedBounded(o, ch);
    B.OrderedBounded(o, cl);
    ConjSem(o, Var(o, y), ch, asg);
    var hi := Conj(o, Var(o, y), ch);
    var lo := if o.t[y] == PD then cl else Conj(o, B.Complement(Var(o, y)), cl);
    if o.t[y] != PD {
      ConjSem(o, B.Complement(Var(o, y)), cl, asg);
    }
    AntivSem(o, hi, lo, asg);
  }

  lemma ComposeAboveSem(o: Order, f: KEdge, x: nat, g: KEdge, asg: seq<bool>)
    requires o.Valid() && x < o.Count() && Canon(o, f) && Canon(o, g) && NoNDAbove(o, x) && B.Input(o, asg)
    requires f.v.Inner? && f.v.x != x && IsEssential(o, f, x)
    requires Canon(o, f.v.hi) && Canon(o, f.v.lo)
    requires Bounded(Compose(o, f.v.hi, x, g), |asg|) && Bounded(Compose(o, f.v.lo, x, g), |asg|)
    requires Bounded(f.v.hi, |asg|) && Bounded(f.v.lo, |asg|) && Bounded(g, |asg|)
    requires B.Sem(o, Compose(o, f.v.hi, x, g), asg) == B.Sem(o, f.v.hi, asg[x := B.Sem(o, g, asg)])
    requires B.Sem(o, Compose(o, f.v.lo, x, g), asg) == B.Sem(o, f.v.lo, asg[x := B.Sem(o, g, asg)])
    ensures Bounded(f, |asg|) && Bounded(Compose(o, f, x, g), |asg|)
    ensures B.Sem(o, Compose(o, f, x, g), asg) == B.Sem(o, f, asg[x := B.Sem(o, g, asg)])
  {
    B.OrderedBounded(o, f);
    var v := B.Sem(o, g, asg);
    NodeSem(o, f, asg[x := v]);
    assert o.var2lvl[f.v.x] <= o.var2lvl[x] by {
      OccursLevel(o, f, x);
    }
    ComposeAboveParts(o, f, x, g, asg);
    assert Compose(o, f, x, g) == ComposeAbove(o, f, x, g);
  }

  /** Composing with x itself is the identity; composing with a constant is restriction. */
  lemma ComposeVarConst(o: Order, f: KEdge, x: nat, a: bool, asg: seq<bool>)
    requires o.Valid() && x < o.Count() && Canon(o, f) && NoNDAbove(o, x) && B.Input(o, asg)
    ensures Bounded(f, |asg|) && Bounded(Compose(o, f, x, Var(o, x)), |asg|)
    ensures B.Sem(o, Compose(o, f, x, Var(o, x)), asg) == B.Sem(o, f, asg)
    ensures var c := if a then B.One else B.Zero;
      Bounded(Compose(o, f, x, c), |asg|) && Bounded(RestrFixed(o, f, x, a), |asg|) &&
      B.Sem(o, Compose(o, f, x, c), asg) == B.Sem(o, RestrFixed(o, f, x, a), asg)
  {
    var c := if a then B.One else B.Zero;
    VarSem(o, x, asg);
    ComposeSem(o, f, x, Var(o, x), asg);
    assert asg[x := asg[x]] == asg;
    assert B.Sem(o, c, asg) == a;
    ComposeSem(o, f, x, c, asg);
    RestrFixedSem(o, f, x, a, asg);
  }

  // -------------------------------------------------------------------------
  // If-then-else

  lemma SimplifyCanon(o: Order, f: KEdge, g: KEdge, h: KEdge)
    requires o.Valid() && Canon(o, f) && Canon(o, g) && Canon(o, h)
    ensures var s := B.Simplify(f, g, h);
      && Canon(o, s.g) && Canon(o, s.h)
      && Size(s.g) <= Size(g) && Size(s.h) <= Size(h)
      && B.MinLvl3(o, f, s.g, s.h) >= B.MinLvl3(o, f, g, h)
  {
  }

  /** Past the terminal cases f is a node and every rule's operand is as std_triple asserts. */
  lemma PastTerminal(o: Order, f: KEdge, g0: KEdge, h0: KEdge)
    requires Canon(o, f) && Canon(o, g0) && Canon(o, h0)
    requires var s := B.Simplify(f, g0, h0);
      !(f == B.Zero || f == B.One || s.g == s.h || (s.h == B.Zero && s.g == B.One) || (s.g == B.Zero && s.h == B.One))
    ensures var s := B.Simplify(f, g0, h0);
      && f.v.Inner?
      && (s.ret == 1 ==> s.g == B.One && s.h.v.Inner?)
      && (s.ret == 2 ==> s.h == B.Zero && s.g.v.Inner?)
      && (s.ret == 3 ==> s.h == B.One && s.g.v.Inner?)
      && (s.ret == 4 ==> s.g == B.Zero && s.h.v.Inner?)
  {
    if f.v.Leaf? { CanonConst(o, f); }
    if g0.v.Leaf? { CanonConst(o, g0); }
    if h0.v.Leaf? { CanonConst(o, h0); }
  }

  /**
   * r is ite(f, g, h) with its operands rearranged: all canonical, the same
   * total size and the same highest level.
   */
  ghost predicate TripleKeeps(o: Order, f: KEdge, g: KEdge, h: KEdge, r: B.Triple)
  {
    && Canon(o, r.f) && Canon(o, r.g) && Canon(o, r.h) && r.f.v.Inner?
    && Size(r.f) + Size(r.g) + Size(r.h) == Size(f) + Size(g) + Size(h)
    && B.MinLvl3(o, r.f, r.g, r.h) == B.MinLvl3(o, f, g, h)
  }

  /** The standard-triple rewrites, as for BDDs. */
  function StdTriple(o: Order, ret: int, f: KEdge, g: KEdge, h: KEdge): (r: B.Triple)
    requires o.Valid() && Canon(o, f) && Canon(o, g) && Canon(o, h)
    requires 1 <= ret <= 4 && f.v.Inner?
    requires ret == 1 ==> g == B.One && h.v.Inner?
    requires ret == 2 ==> h == B.Zero && g.v.Inner?
    requires ret == 3 ==> h == B.One && g.v.Inner?
    requires ret == 4 ==> g == B.Zero && h.v.Inner?
    ensures TripleKeeps(o, f, g, h, r)
  {
    if ret == 1 || ret == 2 then StdSwap(o, ret, f, g, h) else StdComplement(o, ret, f, g, h)
  }

  /** Cases 1 and 2: ite(f, 1, h) == ite(h, 1, f) and ite(f, g, 0) == ite(g, f, 0). */
  function StdSwap(o: Order, ret: int, f: KEdge, g: KEdge, h: KEdge): (r: B.Triple)
    requires o.Valid() && Canon(o, f) && Canon(o, g) && Canon(o, h)
    requires (ret == 1 || ret == 2) && f.v.Inner?
    requires ret == 1 ==> g == B.One && h.v.Inner?
    requires ret == 2 ==> h == B.Zero && g.v.Inner?
    ensures TripleKeeps(o, f, g, h, r)
  {
    if ret == 1 then
      (if B.LvlGe(o, f.v.x, h.v.x) then B.Triple(h, g, f) else B.Triple(f, g, h))
    else
      (if B.LvlGe(o, f.v.x, g.v.x) then B.Triple(g, f, h) else B.Triple(f, g, h))
  }

  /** Cases 3 and 4: ite(f, g, 1) == ite(~g, ~f, 1) and ite(f, 0, h) == ite(~h, 0, ~f). */
  function StdComplement(o: Order, ret: int, f: KEdge, g: KEdge, h: KEdge): (r: B.Triple)
    requires o.Valid() && Canon(o, f) && Canon(o, g) && Canon(o, h)
    requires (ret == 3 || ret == 4) && f.v.Inner?
    requires ret == 3 ==> h == B.One && g.v.Inner?
    requires ret == 4 ==> g == B.Zero && h.v.Inner?
    ensures TripleKeeps(o, f, g, h, r)
  {
    ComplementCanon(o, f);
    if ret == 3 then
      ComplementCanon(o, g);
      (if B.LvlGe(o, f.v.x, g.v.x) then B.Triple(B.Complement(g), B.Complement(f), h) else B.Triple(f, g, h))
    else
      ComplementCanon(o, h);
      (if B.LvlGe(o, f.v.x, h.v.x) then B.Triple(B.Complement(h), g, B.Complement(f)) else B.Triple(f, g, h))
  }

  /** Complementing an edge keeps it canonical, on the same level and of the same size. */
  lemma ComplementCanon(o: Order, f: KEdge)
    requires Canon(o, f)
    ensures Canon(o, B.Complement(f)) && Lvl(o, B.Complement(f)) == Lvl(o, f) && Size(B.Complement(f)) == Size(f)
  {
  }

  /** The splitting variable: the top variable of f and h when f is on top of g, else that of g and h. */
  function IteVar(o: Order, f: KEdge, g: KEdge, h: KEdge): (x: nat)
    requires o.Valid() && Canon(o, f) && Canon(o, g) && Canon(o, h) && f.v.Inner?
    ensures (f.v.Inner? && x == f.v.x) || (g.v.Inner? && x == g.v.x) || (h.v.Inner? && x == h.v.x)
    ensures x < o.Count() && o.var2lvl[x] == B.MinLvl3(o, f, g, h)
  {
    if f.v.x == TopVar(o, f, g) then TopVar(o, f, h) else TopVar(o, g, h)
  }

  lemma CofTriple(o: Order, f: KEdge, g: KEdge, h: KEdge, x: nat, a: bool)
    requires o.Valid() && Canon(o, f) && Canon(o, g) && Canon(o, h)
    requires x < o.Count() && o.var2lvl[x] == B.MinLvl3(o, f, g, h)
    requires (f.v.Inner? && x == f.v.x) || (g.v.Inner? && x == g.v.x) || (h.v.Inner? && x == h.v.x)
    ensures var f', g', h' := B.Cof(o, f, x, a), B.Cof(o, g, x, a), B.Cof(o, h, x, a);
      && Canon(o, f') && Canon(o, g') && Canon(o, h')
      && B.MinLvl3(o, f', g', h') > o.var2lvl[x]
      && Size(f') + Size(g') + Size(h') < Size(f) + Size(g) + Size(h)
  {
    CofTripleCanon(o, f, g, h, x, a);
    B.CofTripleSize(o, f, g, h, x, a);
  }

  lemma CofTripleCanon(o: Order, f: KEdge, g: KEdge, h: KEdge, x: nat, a: bool)
    requires o.Valid() && Canon(o, f) && Canon(o, g) && Canon(o, h)
    requires x < o.Count() && o.var2lvl[x] == B.MinLvl3(o, f, g, h)
    ensures var f', g', h' := B.Cof(o, f, x, a), B.Cof(o, g, x, a), B.Cof(o, h, x, a);
      && Canon(o, f') && Canon(o, g') && Canon(o, h')
      && B.MinLvl3(o, f', g', h') > o.var2lvl[x]
  {
    CofCanon(o, f, x, a);
    CofCanon(o, g, x, a);
    CofCanon(o, h, x, a);
  }

  /**
   * ite as written: simplify, the terminal cases, standard triples, then the
   * branch of the ites of the manager cofactors at the splitting variable,
   * whatever its decomposition.
   */
  function Ite(o: Order, f0: KEdge, g0: KEdge, h0: KEdge): (r: KEdge)
    requires o.Valid() && Canon(o, f0) && Canon(o, g0) && Canon(o, h0)
    ensures Canon(o, r) && Lvl(o, r) >= B.MinLvl3(o, f0, g0, h0)
    decreases Size(f0) + Size(g0) + Size(h0), 1
  {
    var s := B.Simplify(f0, g0, h0);
    var f, g, h := f0, s.g, s.h;
    SimplifyCanon(o, f0, g0, h0);
    if f == B.Zero then h
    else if f == B.One || g == h then g
    else if h == B.Zero && g == B.One then f
    else if g == B.Zero && h == B.One then B.Complement(f)
    else
      PastTerminal(o, f, g0, h0);
      var t := if s.ret != 0 then StdTriple(o, s.ret, f, g, h) else B.Triple(f, g, h);
      IteSplit(o, t.f, t.g, t.h)
  }

  function IteSplit(o: Order, f: KEdge, g: KEdge, h: KEdge): (r: KEdge)
    requires o.Valid() && Canon(o, f) && Canon(o, g) && Canon(o, h) && f.v.Inner?
    ensures Canon(o, r) && Lvl(o, r) >= B.MinLvl3(o, f, g, h)
    decreases Size(f) + Size(g) + Size(h), 0
  {
    var x := IteVar(o, f, g, h);
    CofTriple(o, f, g, h, x, true);
    CofTriple(o, f, g, h, x, false);
    Branch(o, x, Ite(o, B.Cof(o, f, x, true), B.Cof(o, g, x, true), B.Cof(o, h, x, true)),
                 Ite(o, B.Cof(o, f, x, false), B.Cof(o, g, x, false), B.Cof(o, h, x, false)))
  }

  /** A positive Davio variable above a Shannon one. */
  const PdS: Order := Dd.Order([PD, S], [0, 1])

  /**
   * ite as written at a Davio variable: ite(x0, 0, x1) with x0 positive
   * Davio gives x1, which is true at x0 = x1 = 1 where the ite is false.
   */
  lemma IteDavioCounterexample()
    ensures PdS.Valid()
    ensures Ite(PdS, Var(PdS, 0), B.Zero, Var(PdS, 1)) == Var(PdS, 1)
    ensures B.Sem(PdS, Var(PdS, 1), [true, true])
    ensures !B.IteVal(B.Sem(PdS, Var(PdS, 0), [true, true]), B.Sem(PdS, B.Zero, [true, true]), B.Sem(PdS, Var(PdS, 1), [true, true]))
  {
    var o := PdS;
    var x0, x1 := Var(o, 0), Var(o, 1);
    assert x0 == Edge(false, Inner(0, B.One, B.Zero)) && x1 == Edge(false, Inner(1, B.One, B.Zero));
    assert B.Simplify(x0, B.Zero, x1).ret == 0;
    assert IteVar(o, x0, B.Zero, x1) == 0;
    assert B.Cof(o, x0, 0, true) == B.One && B.Cof(o, B.Zero, 0, true) == B.Zero && B.Cof(o, x1, 0, true) == B.Zero;
    assert B.Cof(o, x0, 0, false) == B.Zero && B.Cof(o, B.Zero, 0, false) == B.Zero && B.Cof(o, x1, 0, false) == x1;
    assert Ite(o, B.One, B.Zero, B.Zero) == B.Zero;
    assert Ite(o, B.Zero, B.Zero, x1) == x1;
    assert IteSplit(o, x0, B.Zero, x1) == x1;
    VarSem(o, 0, [true, true]);
    VarSem(o, 1, [true, true]);
  }

  /** ite built from the proved operators: (f and g) xor (not f and h); the two terms are disjoint. */
  function IteFixed(o: Order, f: KEdge, g: KEdge, h: KEdge): (r: KEdge)
    requires o.Valid() && Canon(o, f) && Canon(o, g) && Canon(o, h)
    ensures Canon(o, r)
  {
    Antiv(o, Conj(o, f, g), Conj(o, B.Complement(f), h))
  }

  lemma IteFixedSem(o: Order, f: KEdge, g: KEdge, h: KEdge, asg: seq<bool>)
    requires o.Valid() && Canon(o, f) && Canon(o, g) && Canon(o, h) && B.Input(o, asg)
    ensures Bounded(f, |asg|) && Bounded(g, |asg|) && Bounded(h, |asg|) && Bounded(IteFixed(o, f, g, h), |asg|)
    ensures B.Sem(o, IteFixed(o, f, g, h), asg) == B.IteVal(B.Sem(o, f, asg), B.Sem(o, g, asg), B.Sem(o, h, asg))
  {
    ConjSem(o, f, g, asg);
    ConjSem(o, B.Complement(f), h, asg);
    B.ComplementSem(o, f, asg);
    AntivSem(o, Conj(o, f, g), Conj(o, B.Complement(f), h), asg);
  }

  // -------------------------------------------------------------------------
  // Counting models

  /**
   * sharpsat as written (the BDD rule, shared by the KFDD manager): the
   * average of the children's counts is exact only for Shannon nodes. Over
   * x0 positive Davio above x1 Shannon, the node with both children x1
   * denotes not x0 and x1, which has one model, but sharpsat gives 2.
   */
  lemma SharpSatDavioCounterexample(o: Order, f: KEdge)
    requires o == PdS && f == Edge(false, Inner(0, Var(o, 1), Var(o, 1)))
    ensures Canon(o, f)
    ensures B.SharpSat(o, f) == 2.0
    ensures B.Models(o, f) == 1
  {
    var x1 := Var(o, 1);
    assert x1 == Edge(false, Inner(1, B.One, B.Zero));
    assert B.SharpSat(o, x1) == 2.0;
    DavioNodeModels(o, f);
  }

  /** Not x0 and x1 holds at exactly one of the four assignments. */
  lemma DavioNodeModels(o: Order, f: KEdge)
    requires o == PdS && f == Edge(false, Inner(0, Var(o, 1), Var(o, 1)))
    ensures B.Models(o, f) == 1
  {
    DavioNodeValues(o, f);
    CountModelsTwo(a => B.Val(o, f, a));
  }

  lemma DavioNodeValues(o: Order, f: KEdge)
    requires o == PdS && f == Edge(false, Inner(0, Var(o, 1), Var(o, 1)))
    ensures !B.Val(o, f, [false, false]) && B.Val(o, f, [false, true])
    ensures !B.Val(o, f, [true, false]) && !B.Val(o, f, [true, true])
  {
    DavioNodeAt(o, f, [false, false]);
    DavioNodeAt(o, f, [false, true]);
    DavioNodeAt(o, f, [true, false]);
    DavioNodeAt(o, f, [true, true]);
  }

  lemma DavioNodeAt(o: Order, f: KEdge, a: seq<bool>)
    requires o == PdS && f == Edge(false, Inner(0, Var(o, 1), Var(o, 1))) && |a| == 2
    ensures B.Val(o, f, a) == (!a[0] && a[1])
  {
    VarSem(o, 1, a);
    assert Bounded(f, 2);
    assert EvalNode(o, f.v, a, B.Agg, B.Merge) == Expand(o.t[0], a[0], B.Sem(o, Var(o, 1), a), B.Sem(o, Var(o, 1), a));
  }

  /**
   * The corrected count: the average of the counts of f with its top
   * variable fixed to 1 and to 0, which for a Davio node are the high XOR
   * low and the low child.
   */
  function SharpSatFixed(o: Order, f: KEdge): (r: real)
    requires o.Valid() && Canon(o, f)
    decreases o.Count() - Lvl(o, f)
  {
    if f.v.Leaf? then (if f == B.Zero then 0.0 else Pow2(o.Count()) as real)
    else
      var x := f.v.x;
      (SharpSatFixed(o, CofValue(o, f, x, true)) + SharpSatFixed(o, CofValue(o, f, x, false))) / 2.0
  }

  /** The models of f split evenly between the assignments with its top variable 1 and 0. */
  lemma CofValueModels(o: Order, f: KEdge)
    requires o.Valid() && Canon(o, f) && f.v.Inner?
    ensures f.v.x < o.Count()
    ensures 2 * B.Models(o, f) == B.Models(o, CofValue(o, f, f.v.x, true)) + B.Models(o, CofValue(o, f, f.v.x, false))
  {
    var n := o.Count();
    var x := f.v.x;
    var P := a => B.Val(o, f, a);
    var H := a => B.Val(o, CofValue(o, f, x, true), a);
    var L := a => B.Val(o, CofValue(o, f, x, false), a);
    forall a: seq<bool> | |a| == n
      ensures H(a) == P(a[x := true]) && L(a) == P(a[x := false])
    {
      CofValueSem(o, f, x, true, a);
      CofValueSem(o, f, x, false, a);
    }
    forall a: seq<bool> | |a| == n && x < n
      ensures H(a[x := true]) == H(a) && H(a[x := false]) == H(a)
      ensures L(a[x := true]) == L(a) && L(a[x := false]) == L(a)
    {
      assert a[x := true][x := true] == a[x := false][x := true] == a[x := true];
      assert a[x := true][x := false] == a[x := false][x := false] == a[x := false];
    }
    forall a: seq<bool> | |a| == n
      ensures P(a) == if a[x] then H(a) else L(a)
    {
      if a[x] { assert a[x := true] == a; } else { assert a[x := false] == a; }
    }
    CountSplit(P, H, L, x, n);
  }

  /** The corrected sharpsat is the exact number of models, for every expansion. */
  lemma {:induction false} SharpSatFixedCounts(o: Order, f: KEdge)
    requires o.Valid() && Canon(o, f)
    ensures SharpSatFixed(o, f) == B.Models(o, f) as real
    decreases o.Count() - Lvl(o, f)
  {
    if f.v.Leaf? {
      B.OrderedBounded(o, f);
      CanonConst(o, f);
      CountConst(a => B.Val(o, f, a), f == B.One, [], o.Count());
    } else {
      var x := f.v.x;
      SharpSatFixedCounts(o, CofValue(o, f, x, true));
      SharpSatFixedCounts(o, CofValue(o, f, x, false));
      CofValueModels(o, f);
    }
  }
}
