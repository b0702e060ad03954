/**
 * Binary hybrid diagrams (freddy bhd_manager): BDDs with complemented edges
 * and a second leaf, the expansion node. An edge into the expansion node
 * (under either weight) marks a part of the function that is handed over
 * to a SAT solver, so a diagram reads as a three-valued function: false,
 * true, or unknown (None) where the path reaches the expansion node. The
 * operators follow Kleene's three-valued logic on that reading, and the
 * heuristics may give information up (turn a known value into the
 * expansion node) but never change a known value.
 */
module Bhd {
  import opened Dd
  import O = Objects
  import B = Bdd

  type BEdge = Edge<bool, bool>

  /** A three-valued truth value: None where the expansion node is reached. */
  type Tv = O.Option<bool>

  const Zero: BEdge := B.Zero
  const One: BEdge := B.One

  /** constant(2) and constant(3): the expansion node, a leaf holding true, under both weights. */
  const Exp: BEdge := Edge(false, Leaf(true))
  const ExpC: BEdge := Edge(true, Leaf(true))

  /** The constant table after construction. */
  const Consts: seq<BEdge> := [Zero, One, Exp, ExpC]

  /** is_exp: f is constant(2) or constant(3). */
  function IsExp(f: BEdge): (r: bool)
    ensures r <==> f.v == Leaf(true)
  {
    if f.w then f == ExpC else f == Exp
  }

  /** Every constant of the manager is one of the four table entries. */
  lemma ConstCases(f: BEdge)
    ensures f.v.Leaf? ==> f == Zero || f == One || IsExp(f)
  {
    if f.v.Leaf? {
      assert f == Edge(f.w, Leaf(f.v.c));
      if f.v.c {
        assert IsExp(f);
      } else if f.w {
        assert f == One;
      } else {
        assert f == Zero;
      }
    }
  }

  /**
   * Canonical form of stored diagrams: the low edge of every node is
   * regular and no node has equal children.
   */
  ghost predicate Normal(v: Node<bool, bool>)
  {
    match v
    case Leaf(_) => true
    case Inner(_, hi, lo) => !lo.w && hi != lo && Normal(hi.v) && Normal(lo.v)
  }

  ghost predicate Canon(o: Order, f: BEdge) { Ordered(o, f) && Normal(f.v) }

  // -------------------------------------------------------------------------
  // Three-valued reading

  /** A weight true negates a known value; the unknown value stays unknown. */
  function Flip(w: bool, t: Tv): Tv
  {
    match t
    case None => O.None
    case Some(b) => O.Some(w != b)
  }

  /** The value of f under asg: the weights on the path applied to the leaf reached. */
  function Val(o: Order, f: BEdge, asg: seq<bool>): Tv
    requires |asg| == o.Count() && Bounded(f, |asg|)
    decreases f, 1
  {
    Flip(f.w, NodeVal(o, f.v, asg))
  }

  function NodeVal(o: Order, v: Node<bool, bool>, asg: seq<bool>): Tv
    requires |asg| == o.Count() && NodeBounded(v, |asg|)
    decreases v, 0
  {
    match v
    case Leaf(c) => if c then O.None else O.Some(false)
    case Inner(x, hi, lo) => if asg[x] then Val(o, hi, asg) else Val(o, lo, asg)
  }

  /** Kleene conjunction: false if either side is false, unknown if either is unknown, else true. */
  function And3(a: Tv, b: Tv): Tv
  {
    if a == O.Some(false) || b == O.Some(false) then O.Some(false)
    else if a == O.None || b == O.None then O.None
    else O.Some(true)
  }

  /** Kleene disjunction. */
  function Or3(a: Tv, b: Tv): Tv
  {
    if a == O.Some(true) || b == O.Some(true) then O.Some(true)
    else if a == O.None || b == O.None then O.None
    else O.Some(false)
  }

  /** Kleene exclusive or: unknown as soon as one side is. */
  function Xor3(a: Tv, b: Tv): Tv
  {
    if a.None? || b.None? then O.None else O.Some(a.value != b.value)
  }

  /** r says no more than e: it is unknown or it agrees with e. */
  predicate Weaker(r: Tv, e: Tv) { r == O.None || r == e }

  /** What replace does to a value: true becomes unknown, the rest stays. */
  function Repl(t: Tv): Tv { if t == O.Some(true) then O.None else t }

  lemma FlipFlip(a: bool, b: bool, t: Tv)
    ensures Flip(a, Flip(b, t)) == Flip(a != b, t)
  {
  }

  /** Complement negates the three-valued reading; the expansion node stays unknown. */
  lemma ComplementVal(o: Order, f: BEdge, asg: seq<bool>)
    requires |asg| == o.Count() && Bounded(f, |asg|)
    ensures Bounded(B.Complement(f), |asg|)
    ensures Val(o, B.Complement(f), asg) == Flip(true, Val(o, f, asg))
  {
    FlipFlip(true, f.w, NodeVal(o, f.v, asg));
  }

  /** Without an expansion leaf every value is known. */
  lemma {:induction false} NoExpKnown(o: Order, f: BEdge, asg: seq<bool>)
    requires |asg| == o.Count() && Bounded(f, |asg|) && !HasConst(f, true)
    ensures Val(o, f, asg) != O.None
  {
    match f.v
    case Leaf(_) =>
    case Inner(x, hi, lo) =>
      if asg[x] {
        NoExpKnown(o, hi, asg);
      } else {
        NoExpKnown(o, lo, asg);
      }
  }

  // -------------------------------------------------------------------------
  // eval

  /** The traversal in eval: the path asg selects in f ends in the expansion node. */
  function ExpReached(o: Order, f: BEdge, asg: seq<bool>): (r: bool)
    requires |asg| == o.Count() && Bounded(f, |asg|)
    ensures r <==> Val(o, f, asg) == O.None
    decreases Size(f)
  {
    if IsExp(f) then true
    else if f.v.Leaf? then false
    else if asg[f.v.x] then ExpReached(o, f.v.hi, asg)
    else ExpReached(o, f.v.lo, asg)
  }

  /**
   * eval: no value when the path reaches the expansion node, otherwise the
   * manager's eval, which treats the expansion node as a leaf like any other.
   */
  function Eval(o: Order, f: BEdge, asg: seq<bool>): (r: Tv)
    requires B.Ctx(o) && |asg| == o.Count() && Bounded(f, |asg|)
    ensures r == Val(o, f, asg)
  {
    EvalKnown(o, f, asg);
    if ExpReached(o, f, asg) then O.None else O.Some(Dd.Eval(o, f, asg, B.Agg, B.Merge))
  }

  /** Where the value is known, the manager's eval computes it. */
  lemma {:induction false} EvalKnown(o: Order, f: BEdge, asg: seq<bool>)
    requires B.Ctx(o) && |asg| == o.Count() && Bounded(f, |asg|)
    ensures Val(o, f, asg) != O.None ==> Val(o, f, asg) == O.Some(Dd.Eval(o, f, asg, B.Agg, B.Merge))
  {
    match f.v
    case Leaf(_) =>
    case Inner(x, hi, lo) =>
      assert o.t[x] == S;
      EvalKnown(o, hi, asg);
      EvalKnown(o, lo, asg);
  }

  // -------------------------------------------------------------------------
  // Cofactors and branch

  lemma CofCanon(o: Order, f: BEdge, x: nat, a: bool)
    requires B.Ctx(o) && x < o.Count() && Canon(o, f) && o.var2lvl[x] <= Lvl(o, f)
    ensures Canon(o, B.Cof(o, f, x, a))
    ensures Lvl(o, B.Cof(o, f, x, a)) > o.var2lvl[x]
  {
    assert o.t[x] == S;
    if f.v.Inner? && f.v.x == x {
      var c := if a then f.v.hi else f.v.lo;
      assert B.Cof(o, f, x, a) == Edge(f.w != c.w, c.v);
      assert Canon(o, c);
    } else if f.v.Inner? {
      assert o.var2lvl[f.v.x] != o.var2lvl[x];
    }
  }

  /** The cofactor at the value asg gives x agrees with f under asg. */
  lemma CofVal(o: Order, f: BEdge, x: nat, asg: seq<bool>)
    requires B.Ctx(o) && x < o.Count() && |asg| == o.Count() && Bounded(f, |asg|)
    ensures Bounded(B.Cof(o, f, x, asg[x]), |asg|)
    ensures Val(o, B.Cof(o, f, x, asg[x]), asg) == Val(o, f, asg)
  {
    assert o.t[x] == S;
    if f.v.Inner? && f.v.x == x {
      var c := if asg[x] then f.v.hi else f.v.lo;
      assert B.Cof(o, f, x, asg[x]) == Edge(f.w != c.w, c.v);
      assert Val(o, f, asg) == Flip(f.w, Val(o, c, asg));
      FlipFlip(f.w, c.w, NodeVal(o, c.v, asg));
    }
  }

  /**
   * branch: the redundancy rule, then BDD normalisation (a complemented lo
   * moves its complement onto the incoming edge).
   */
  function Branch(o: Order, x: nat, hi: BEdge, lo: BEdge): (r: BEdge)
    requires B.Ctx(o) && x < o.Count()
    requires Canon(o, hi) && Canon(o, lo) && o.var2lvl[x] < Lvl(o, hi) && o.var2lvl[x] < Lvl(o, lo)
    ensures Canon(o, r) && Lvl(o, r) >= o.var2lvl[x]
    ensures hi == lo ==> r == hi
    ensures hi != lo ==> r.v.Inner? && r.v.x == x && !r.v.lo.w
  {
    if hi == lo then hi
    else
      var w := lo.w;
      Edge(w, Inner(x, if w then B.Complement(hi) else hi, if w then B.Complement(lo) else lo))
  }

  lemma BranchVal(o: Order, x: nat, hi: BEdge, lo: BEdge, asg: seq<bool>)
    requires B.Ctx(o) && x < o.Count() && |asg| == o.Count()
    requires Canon(o, hi) && Canon(o, lo) && o.var2lvl[x] < Lvl(o, hi) && o.var2lvl[x] < Lvl(o, lo)
    ensures Bounded(hi, |asg|) && Bounded(lo, |asg|) && Bounded(Branch(o, x, hi, lo), |asg|)
    ensures Val(o, Branch(o, x, hi, lo), asg) == if asg[x] then Val(o, hi, asg) else Val(o, lo, asg)
  {
    B.OrderedBounded(o, hi);
    B.OrderedBounded(o, lo);
    B.OrderedBounded(o, Branch(o, x, hi, lo));
    if hi != lo {
      ComplementVal(o, hi, asg);
      ComplementVal(o, lo, asg);
      var w := lo.w;
      var c := if asg[x] then hi else lo;
      FlipFlip(w, w, Val(o, c, asg));
    }
  }

  // -------------------------------------------------------------------------
  // replace

  /**
   * replace as written: redirect the 1-paths of f to the expansion node. m
   * is the parity of the complement marks above f. Children that become
   * equal collapse into the common child, without applying f's own mark;
   * otherwise the node is rebuilt with branch's normalisation and f's mark
   * on top.
   */
  function Replace(o: Order, f: BEdge, m: bool): (r: BEdge)
    requires B.Ctx(o) && Canon(o, f)
    ensures Canon(o, r) && Lvl(o, r) >= Lvl(o, f)
    decreases Size(f)
  {
    if IsExp(f) then f
    else if f.v.Leaf? then
      (if m then (if f == Zero then Exp else f) else (if f == Zero then f else Exp))
    else
      var hi := Replace(o, f.v.hi, m != f.w);
      var lo := Replace(o, f.v.lo, m != f.w);
      if hi == lo then hi
      else
        var b := Branch(o, f.v.x, hi, lo);
        if f.w then B.Complement(b) else b
  }

  /**
   * For f = NOT(x0 ? x1 : (x1 ? 1 : exp)) both children of x0 are replaced
   * by x1 ? 1 : exp, and replace returns that edge without the complement:
   * at x0 = x1 = 1, where f is false, the result reads true.
   */
  lemma ReplaceCounterexample()
    ensures var o := Order([S, S], [0, 1]);
      var f := Edge(true, Inner(0, Edge(false, Inner(1, One, Zero)), Edge(false, Inner(1, One, Exp))));
      && B.Ctx(o) && Canon(o, f)
      && Val(o, f, [true, true]) == O.Some(false)
      && Val(o, Replace(o, f, false), [true, true]) == O.Some(true)
  {
    var o := Order([S, S], [0, 1]);
    var f := Edge(true, Inner(0, Edge(false, Inner(1, One, Zero)), Edge(false, Inner(1, One, Exp))));
    assert Replace(o, Edge(false, Inner(1, One, Zero)), true) == Edge(false, Inner(1, One, Exp));
    assert Replace(o, Edge(false, Inner(1, One, Exp)), true) == Edge(false, Inner(1, One, Exp));
    assert Replace(o, f, false) == Edge(false, Inner(1, One, Exp));
  }

  /** replace with the collapse fixed: the common child carries f's complement mark as well. */
  function ReplaceFixed(o: Order, f: BEdge, m: bool): (r: BEdge)
    requires B.Ctx(o) && Canon(o, f)
    ensures Canon(o, r) && Lvl(o, r) >= Lvl(o, f)
    decreases Size(f)
  {
    if IsExp(f) then f
    else if f.v.Leaf? then
      (if m then (if f == Zero then Exp else f) else (if f == Zero then f else Exp))
    else
      var hi := ReplaceFixed(o, f.v.hi, m != f.w);
      var lo := ReplaceFixed(o, f.v.lo, m != f.w);
      var b := Branch(o, f.v.x, hi, lo);
      if f.w then B.Complement(b) else b
  }

  /**
   * Read under the parity m, the corrected replace turns every true into
   * unknown and keeps false and unknown.
   */
  lemma {:induction false} ReplaceFixedVal(o: Order, f: BEdge, m: bool, asg: seq<bool>)
    requires B.Ctx(o) && Canon(o, f) && |asg| == o.Count()
    ensures Bounded(f, |asg|) && Bounded(ReplaceFixed(o, f, m), |asg|)
    ensures Flip(m, Val(o, ReplaceFixed(o, f, m), asg)) == Repl(Flip(m, Val(o, f, asg)))
    decreases Size(f)
  {
    B.OrderedBounded(o, f);
    B.OrderedBounded(o, ReplaceFixed(o, f, m));
    if !IsExp(f) && f.v.Inner? {
      var p := m != f.w;
      var x := f.v.x;
      var hi := ReplaceFixed(o, f.v.hi, p);
      var lo := ReplaceFixed(o, f.v.lo, p);
      var c := if asg[x] then f.v.hi else f.v.lo;
      var rc := if asg[x] then hi else lo;
      var b := Branch(o, x, hi, lo);
      ReplaceFixedVal(o, c, p, asg);
      BranchVal(o, x, hi, lo, asg);
      ComplementVal(o, b, asg);
      FlipFlip(m, f.w, Val(o, c, asg));
      FlipFlip(m, f.w, Val(o, rc, asg));
      assert Val(o, ReplaceFixed(o, f, m), asg) == Flip(f.w, Val(o, rc, asg));
    }
  }

  /** From the top (parity false): true becomes unknown, false and unknown stay. */
  lemma ReplaceTop(o: Order, f: BEdge, asg: seq<bool>)
    requires B.Ctx(o) && Canon(o, f) && |asg| == o.Count()
    ensures Bounded(f, |asg|) && Bounded(ReplaceFixed(o, f, false), |asg|)
    ensures Val(o, ReplaceFixed(o, f, false), asg) == Repl(Val(o, f, asg))
  {
    ReplaceFixedVal(o, f, false, asg);
    FlipFlip(false, false, Val(o, f, asg));
    FlipFlip(false, false, Val(o, ReplaceFixed(o, f, false), asg));
  }

  // -------------------------------------------------------------------------
  // Conjunction and the heuristics

  /** The heuristic chosen at construction: none, or the level heuristic with its threshold. */
  datatype Heuristic = NoHeur | LevelHeur(thresh: nat)

  /**
   * conj: 0 absorbs, 1 is neutral, f and f give f, f and NOT f give 0 when
   * f has no expansion node; the expansion node with itself is the
   * expansion node, with any other g it is replace(g); otherwise the
   * heuristic decides at the top variable.
   */
  function Conj(o: Order, h: Heuristic, f: BEdge, g: BEdge): (r: BEdge)
    requires B.Ctx(o) && Canon(o, f) && Canon(o, g)
    ensures Canon(o, r) && Lvl(o, r) >= B.MinLvl(o, f, g)
    decreases Size(f) + Size(g), 2
  {
    if f == Zero || g == Zero then Zero
    else if f == One then g
    else if g == One then f
    else if f.v == g.v && f.w == g.w then f
    else if f.v == g.v && !HasConst(f, true) then Zero
    else if IsExp(f) then (if IsExp(g) then Exp else ReplaceFixed(o, g, false))
    else if IsExp(g) then ReplaceFixed(o, f, false)
    else
      ConstCases(f);
      Heur(o, h, f, g, TopVar(o, f, g))
  }

  /**
   * no_heur joins the compressed cofactors; level_heur does so only when
   * both operands are constant or labelled below the threshold, replaces
   * the operand that is when the other is not, and gives the expansion
   * node when neither is.
   */
  function Heur(o: Order, h: Heuristic, f: BEdge, g: BEdge, x: nat): (r: BEdge)
    requires B.Ctx(o) && Canon(o, f) && Canon(o, g) && (f.v.Inner? || g.v.Inner?) && x == TopVar(o, f, g)
    ensures Canon(o, r) && Lvl(o, r) >= B.MinLvl(o, f, g)
    decreases Size(f) + Size(g), 1
  {
    match h
    case NoHeur => Branch(o, x, Compress(o, h, f, g, x, true), Compress(o, h, f, g, x, false))
    case LevelHeur(t) =>
      if f.v.Leaf? || f.v.x < t then
        (if g.v.Leaf? || g.v.x < t then Branch(o, x, Compress(o, h, f, g, x, true), Compress(o, h, f, g, x, false))
         else ReplaceFixed(o, f, false))
      else if g.v.Leaf? || g.v.x < t then ReplaceFixed(o, g, false)
      else Exp
  }

  /**
   * compress: the conjunction of the cofactors, except that an expansion
   * cofactor of one operand is kept as it is when the other operand does
   * not test x.
   */
  function Compress(o: Order, h: Heuristic, f: BEdge, g: BEdge, x: nat, a: bool): (r: BEdge)
    requires B.Ctx(o) && Canon(o, f) && Canon(o, g) && (f.v.Inner? || g.v.Inner?) && x == TopVar(o, f, g)
    ensures Canon(o, r) && Lvl(o, r) > o.var2lvl[x]
    decreases Size(f) + Size(g), 0
  {
    CofCanon(o, f, x, a);
    CofCanon(o, g, x, a);
    var fx := B.Cof(o, f, x, a);
    if IsExp(fx) && g.v.Inner? && g.v.x != x then fx
    else
      var gx := B.Cof(o, g, x, a);
      if IsExp(gx) && f.v.Inner? && f.v.x != x then gx
      else Conj(o, h, fx, gx)
  }

  lemma ReplWeaker(a: Tv, b: Tv)
    ensures Weaker(Repl(a), And3(a, b)) && Weaker(Repl(b), And3(a, b))
  {
    match (a, b)
    case (None, None) =>
    case (None, Some(q)) => if q {} else {}
    case (Some(p), None) => if p {} else {}
    case (Some(p), Some(q)) => if p {} else {}
  }

  /**
   * conj never contradicts the Kleene conjunction of its operands: where it
   * reads a known value, that is the conjunction. Without a heuristic it is
   * exact wherever both operands are known.
   */
  lemma {:induction false} ConjVal(o: Order, h: Heuristic, f: BEdge, g: BEdge, asg: seq<bool>)
    requires B.Ctx(o) && Canon(o, f) && Canon(o, g) && |asg| == o.Count()
    ensures Bounded(f, |asg|) && Bounded(g, |asg|) && Bounded(Conj(o, h, f, g), |asg|)
    ensures Weaker(Val(o, Conj(o, h, f, g), asg), And3(Val(o, f, asg), Val(o, g, asg)))
    ensures h == NoHeur && Val(o, f, asg) != O.None && Val(o, g, asg) != O.None ==>
              Val(o, Conj(o, h, f, g), asg) == And3(Val(o, f, asg), Val(o, g, asg))
    decreases Size(f) + Size(g), 2
  {
    B.OrderedBounded(o, f);
    B.OrderedBounded(o, g);
    B.OrderedBounded(o, Conj(o, h, f, g));
    if f == Zero || g == Zero || f == One || g == One || (f.v == g.v && f.w == g.w) {
    } else if f.v == g.v && !HasConst(f, true) {
      NoExpKnown(o, f, asg);
    } else if IsExp(f) {
      if !IsExp(g) {
        ReplaceTop(o, g, asg);
      }
    } else if IsExp(g) {
      ReplaceTop(o, f, asg);
    } else {
      HeurVal(o, h, f, g, TopVar(o, f, g), asg);
    }
  }

  lemma {:induction false} HeurVal(o: Order, h: Heuristic, f: BEdge, g: BEdge, x: nat, asg: seq<bool>)
    requires B.Ctx(o) && Canon(o, f) && Canon(o, g) && (f.v.Inner? || g.v.Inner?) && x == TopVar(o, f, g)
    requires |asg| == o.Count()
    ensures Bounded(f, |asg|) && Bounded(g, |asg|) && Bounded(Heur(o, h, f, g, x), |asg|)
    ensures Weaker(Val(o, Heur(o, h, f, g, x), asg), And3(Val(o, f, asg), Val(o, g, asg)))
    ensures h == NoHeur && Val(o, f, asg) != O.None && Val(o, g, asg) != O.None ==>
              Val(o, Heur(o, h, f, g, x), asg) == And3(Val(o, f, asg), Val(o, g, asg))
    decreases Size(f) + Size(g), 1
  {
    B.OrderedBounded(o, f);
    B.OrderedBounded(o, g);
    B.OrderedBounded(o, Heur(o, h, f, g, x));
    var joined := match h
      case NoHeur => true
      case LevelHeur(t) => (f.v.Leaf? || f.v.x < t) && (g.v.Leaf? || g.v.x < t);
    if joined {
      var ct, cf := Compress(o, h, f, g, x, true), Compress(o, h, f, g, x, false);
      BranchVal(o, x, ct, cf, asg);
      CompressVal(o, h, f, g, x, asg);
    } else if f.v.Leaf? || f.v.x < h.thresh {
      ReplaceTop(o, f, asg);
      ReplWeaker(Val(o, f, asg), Val(o, g, asg));
    } else if g.v.Leaf? || g.v.x < h.thresh {
      ReplaceTop(o, g, asg);
      ReplWeaker(Val(o, f, asg), Val(o, g, asg));
    }
  }

  lemma {:induction false} CompressVal(o: Order, h: Heuristic, f: BEdge, g: BEdge, x: nat, asg: seq<bool>)
    requires B.Ctx(o) && Canon(o, f) && Canon(o, g) && (f.v.Inner? || g.v.Inner?) && x == TopVar(o, f, g)
    requires |asg| == o.Count()
    ensures Bounded(f, |asg|) && Bounded(g, |asg|) && Bounded(Compress(o, h, f, g, x, asg[x]), |asg|)
    ensures Weaker(Val(o, Compress(o, h, f, g, x, asg[x]), asg), And3(Val(o, f, asg), Val(o, g, asg)))
    ensures h == NoHeur && Val(o, f, asg) != O.None && Val(o, g, asg) != O.None ==>
              Val(o, Compress(o, h, f, g, x, asg[x]), asg) == And3(Val(o, f, asg), Val(o, g, asg))
    decreases Size(f) + Size(g), 0
  {
    var a := asg[x];
    B.OrderedBounded(o, f);
    B.OrderedBounded(o, g);
    B.OrderedBounded(o, Compress(o, h, f, g, x, a));
    CofCanon(o, f, x, a);
    CofCanon(o, g, x, a);
    CofVal(o, f, x, asg);
    CofVal(o, g, x, asg);
    var fx, gx := B.Cof(o, f, x, a), B.Cof(o, g, x, a);
    if IsExp(fx) && g.v.Inner? && g.v.x != x {
    } else if IsExp(gx) && f.v.Inner? && f.v.x != x {
    } else {
      ConjVal(o, h, fx, gx, asg);
    }
  }

  /** conj with the expansion node under its other weight is the expansion node. */
  lemma ExpConjComplement(o: Order, h: Heuristic)
    requires B.Ctx(o)
    ensures Conj(o, h, Exp, B.Complement(Exp)) == Exp
  {
    assert HasConst(Exp, true);
  }

  // -------------------------------------------------------------------------
  // disj and plus

  /** disj: the complement of the conjunction of the complements. */
  function Disj(o: Order, h: Heuristic, f: BEdge, g: BEdge): (r: BEdge)
    requires B.Ctx(o) && Canon(o, f) && Canon(o, g)
    ensures Canon(o, r)
  {
    B.Complement(Conj(o, h, B.Complement(f), B.Complement(g)))
  }

  /** plus: exclusive or, built as (NOT f AND g) OR (f AND NOT g). */
  function Plus(o: Order, h: Heuristic, f: BEdge, g: BEdge): (r: BEdge)
    requires B.Ctx(o) && Canon(o, f) && Canon(o, g)
    ensures Canon(o, r)
  {
    Disj(o, h, Conj(o, h, B.Complement(f), g), Conj(o, h, f, B.Complement(g)))
  }

  lemma Kleene(p: Tv, q: Tv, a: Tv, b: Tv)
    requires Weaker(p, a) && Weaker(q, b)
    ensures Weaker(Or3(p, q), Or3(a, b)) && Weaker(Flip(true, p), Flip(true, a))
    ensures Or3(a, b) == Flip(true, And3(Flip(true, a), Flip(true, b)))
    ensures Xor3(a, b) == Or3(And3(Flip(true, a), b), And3(a, Flip(true, b)))
  {
  }

  /** disj never contradicts the Kleene disjunction, and is exact on known operands without a heuristic. */
  lemma DisjVal(o: Order, h: Heuristic, f: BEdge, g: BEdge, asg: seq<bool>)
    requires B.Ctx(o) && Canon(o, f) && Canon(o, g) && |asg| == o.Count()
    ensures Bounded(f, |asg|) && Bounded(g, |asg|) && Bounded(Disj(o, h, f, g), |asg|)
    ensures Weaker(Val(o, Disj(o, h, f, g), asg), Or3(Val(o, f, asg), Val(o, g, asg)))
    ensures h == NoHeur && Val(o, f, asg) != O.None && Val(o, g, asg) != O.None ==>
              Val(o, Disj(o, h, f, g), asg) == Or3(Val(o, f, asg), Val(o, g, asg))
  {
    B.OrderedBounded(o, f);
    B.OrderedBounded(o, g);
    var nf, ng := B.Complement(f), B.Complement(g);
    var c := Conj(o, h, nf, ng);
    ComplementVal(o, f, asg);
    ComplementVal(o, g, asg);
    ConjVal(o, h, nf, ng, asg);
    ComplementVal(o, c, asg);
    Kleene(Val(o, c, asg), Val(o, c, asg), And3(Val(o, nf, asg), Val(o, ng, asg)), And3(Val(o, nf, asg), Val(o, ng, asg)));
    Kleene(O.None, O.None, Val(o, f, asg), Val(o, g, asg));
  }

  /** plus never contradicts the Kleene exclusive or, and is exact on known operands without a heuristic. */
  lemma PlusVal(o: Order, h: Heuristic, f: BEdge, g: BEdge, asg: seq<bool>)
    requires B.Ctx(o) && Canon(o, f) && Canon(o, g) && |asg| == o.Count()
    ensures Bounded(f, |asg|) && Bounded(g, |asg|) && Bounded(Plus(o, h, f, g), |asg|)
    ensures Weaker(Val(o, Plus(o, h, f, g), asg), Xor3(Val(o, f, asg), Val(o, g, asg)))
    ensures h == NoHeur && Val(o, f, asg) != O.None && Val(o, g, asg) != O.None ==>
              Val(o, Plus(o, h, f, g), asg) == Xor3(Val(o, f, asg), Val(o, g, asg))
  {
    B.OrderedBounded(o, f);
    B.OrderedBounded(o, g);
    var a, b := Val(o, f, asg), Val(o, g, asg);
    var nf, ng := B.Complement(f), B.Complement(g);
    ComplementVal(o, f, asg);
    ComplementVal(o, g, asg);
    var p, q := Conj(o, h, nf, g), Conj(o, h, f, ng);
    ConjVal(o, h, nf, g, asg);
    ConjVal(o, h, f, ng, asg);
    DisjVal(o, h, p, q, asg);
    Kleene(Val(o, p, asg), Val(o, q, asg), And3(Flip(true, a), b), And3(a, Flip(true, b)));
    Kleene(O.None, O.None, a, b);
  }

  // -------------------------------------------------------------------------
  // Examples

  /** x0 AND exp keeps x0 on top with exp and 0 below, and conjoining x1 leaves it unchanged. */
  lemma ExpKeepsLevel()
    ensures var o := Order([S, S], [0, 1]);
      var x0, x1 := Edge(false, Inner(0, One, Zero)), Edge(false, Inner(1, One, Zero));
      && B.Ctx(o) && Canon(o, x0) && Canon(o, x1)
      && var f := Conj(o, NoHeur, x0, Exp);
      && f == Edge(false, Inner(0, Exp, Zero))
      && Conj(o, NoHeur, f, x1) == f
  {
    var o := Order([S, S], [0, 1]);
    var x0, x1 := Edge(false, Inner(0, One, Zero)), Edge(false, Inner(1, One, Zero));
    var f := Edge(false, Inner(0, Exp, Zero));
    assert ReplaceFixed(o, One, false) == Exp;
    assert ReplaceFixed(o, Zero, false) == Zero;
    assert Conj(o, NoHeur, x0, Exp) == f;
    assert Compress(o, NoHeur, f, x1, 0, true) == Exp;
    assert Compress(o, NoHeur, f, x1, 0, false) == Zero;
    assert Conj(o, NoHeur, f, x1) == Heur(o, NoHeur, f, x1, 0);
  }

  /** The four-variable Shannon order of the level-heuristic example. */
  predicate ExampleOrder(o: Order)
  {
    o == Order([S, S, S, S], [0, 1, 2, 3])
  }

  /** The projection edge of variable x. */
  function Proj(x: nat): BEdge
  {
    Edge(false, Inner(x, One, Zero))
  }

  /** Above the threshold both cofactors are joined: x0 AND x1 is x0 ? x1 : 0. */
  lemma LevelStepOne(o: Order, h: Heuristic)
    requires ExampleOrder(o) && h == LevelHeur(2)
    ensures B.Ctx(o) && Canon(o, Proj(0)) && Canon(o, Proj(1))
    ensures Conj(o, h, Proj(0), Proj(1)) == Edge(false, Inner(0, Proj(1), Zero))
  {
    var x0, x1 := Proj(0), Proj(1);
    assert Compress(o, h, x0, x1, 0, true) == x1;
    assert Compress(o, h, x0, x1, 0, false) == Zero;
    assert Conj(o, h, x0, x1) == Heur(o, h, x0, x1, 0);
  }

  /** x2 is labelled at the threshold, so the other operand is replaced: its 1-path ends in the expansion node. */
  lemma LevelStepTwo(o: Order, h: Heuristic)
    requires ExampleOrder(o) && h == LevelHeur(2)
    ensures B.Ctx(o) && Canon(o, Edge(false, Inner(0, Proj(1), Zero))) && Canon(o, Proj(2))
    ensures Conj(o, h, Edge(false, Inner(0, Proj(1), Zero)), Proj(2))
      == Edge(false, Inner(0, Edge(false, Inner(1, Exp, Zero)), Zero))
  {
    var a, r := Edge(false, Inner(0, Proj(1), Zero)), Edge(false, Inner(1, Exp, Zero));
    assert ReplaceFixed(o, One, false) == Exp;
    assert ReplaceFixed(o, Zero, false) == Zero;
    assert ReplaceFixed(o, Proj(1), false) == r;
    assert ReplaceFixed(o, a, false) == Edge(false, Inner(0, r, Zero));
    assert Conj(o, h, a, Proj(2)) == Heur(o, h, a, Proj(2), 0);
  }

  /** Replacing a diagram whose only 1-path already ends in the expansion node changes nothing. */
  lemma LevelStepThree(o: Order, h: Heuristic)
    requires ExampleOrder(o) && h == LevelHeur(2)
    ensures var f := Edge(false, Inner(0, Edge(false, Inner(1, Exp, Zero)), Zero));
      B.Ctx(o) && Canon(o, f) && Canon(o, Proj(3)) && Conj(o, h, f, Proj(3)) == f
  {
    var r := Edge(false, Inner(1, Exp, Zero));
    var f := Edge(false, Inner(0, r, Zero));
    assert ReplaceFixed(o, Exp, false) == Exp;
    assert ReplaceFixed(o, Zero, false) == Zero;
    assert ReplaceFixed(o, r, false) == r;
    assert ReplaceFixed(o, f, false) == f;
    assert Conj(o, h, f, Proj(3)) == Heur(o, h, f, Proj(3), 0);
  }

  /**
   * With the level heuristic at threshold 2, x0 AND x1 AND x2 AND x3 is
   * x0 AND x1 with its 1-path redirected to the expansion node: two levels
   * deep, with an expansion node, and false at the all-false assignment.
   */
  lemma LevelHeuristicExample(o: Order, h: Heuristic)
    requires ExampleOrder(o) && h == LevelHeur(2)
    ensures B.Ctx(o) && Canon(o, Proj(0)) && Canon(o, Proj(1)) && Canon(o, Proj(2)) && Canon(o, Proj(3))
    ensures var f := Conj(o, h, Conj(o, h, Conj(o, h, Proj(0), Proj(1)), Proj(2)), Proj(3));
      && f == Edge(false, Inner(0, Edge(false, Inner(1, Exp, Zero)), Zero))
      && HasConst(f, true)
      && Val(o, f, [false, false, false, false]) == O.Some(false)
  {
    LevelStepOne(o, h);
    LevelStepTwo(o, h);
    LevelStepThree(o, h);
    var f := Edge(false, Inner(0, Edge(false, Inner(1, Exp, Zero)), Zero));
    assert HasConst(f, true);
    assert Val(o, f, [false, false, false, false]) == O.Some(false);
  }

  // -------------------------------------------------------------------------
  // sat_solutions

  /**
   * The vectors the recursive sat_solutions appends below f, starting from
   * the path contents p; m is the parity of the marks down to and
   * including f's own.
   */
  function Sols(f: BEdge, m: bool, p: seq<bool>): seq<seq<bool>>
    requires Bounded(f, |p|)
    decreases Size(f)
  {
    if IsExp(f) then []
    else if f.v.Leaf? then (if m then [p] else [])
    else
      var x := f.v.x;
      var p0 := p[x := false];
      Sols(f.v.lo, m != f.v.lo.w, p0) + Sols(f.v.hi, m != f.v.hi.w, PathAfter(f.v.lo, p0)[x := true])
  }

  /** The path contents the recursive sat_solutions leaves behind. */
  function PathAfter(f: BEdge, p: seq<bool>): (r: seq<bool>)
    requires Bounded(f, |p|)
    ensures |r| == |p|
    decreases Size(f)
  {
    if IsExp(f) || f.v.Leaf? then p
    else
      var x := f.v.x;
      PathAfter(f.v.hi, PathAfter(f.v.lo, p[x := false])[x := true])
  }

  /** The recursive sat_solutions: sets x on path for each branch and appends the path at each odd leaf. */
  method SatSolutionsRec(f: BEdge, m: bool, path: array<bool>, sols: seq<seq<bool>>) returns (sols': seq<seq<bool>>)
    requires Bounded(f, path.Length)
    modifies path
    ensures sols' == sols + Sols(f, m, old(path[..]))
    ensures path[..] == PathAfter(f, old(path[..]))
    decreases Size(f)
  {
    if IsExp(f) {
      return sols;
    }
    if f.v.Leaf? {
      if m {
        return sols + [path[..]];
      }
      return sols;
    }
    var x := f.v.x;
    path[x] := false;
    sols' := SatSolutionsRec(f.v.lo, m != f.v.lo.w, path, sols);
    path[x] := true;
    sols' := SatSolutionsRec(f.v.hi, m != f.v.hi.w, path, sols');
  }

  /** A variable f does not test keeps its entry in every collected vector and in the path. */
  lemma {:induction false} SolsFrame(f: BEdge, m: bool, p: seq<bool>, y: nat)
    requires Bounded(f, |p|) && y < |p| && !Occurs(f, y)
    ensures PathAfter(f, p)[y] == p[y]
    ensures forall s :: s in Sols(f, m, p) ==> |s| == |p| && s[y] == p[y]
    decreases Size(f)
  {
    if !IsExp(f) && f.v.Inner? {
      var x := f.v.x;
      var p0 := p[x := false];
      var p1 := PathAfter(f.v.lo, p0)[x := true];
      SolsFrame(f.v.lo, m != f.v.lo.w, p0, y);
      SolsFrame(f.v.hi, m != f.v.hi.w, p1, y);
    }
  }

  /** Each collected vector follows its path to a leaf whose parity-adjusted value is true. */
  lemma {:induction false} SolsSat(o: Order, f: BEdge, m: bool, p: seq<bool>)
    requires o.Valid() && Ordered(o, f) && |p| == o.Count()
    ensures Bounded(f, |p|)
    ensures forall s :: s in Sols(f, m, p) ==> |s| == |p| && NodeVal(o, f.v, s) == O.Some(!m)
    decreases Size(f)
  {
    B.OrderedBounded(o, f);
    if !IsExp(f) && f.v.Inner? {
      var x, hi, lo := f.v.x, f.v.hi, f.v.lo;
      var p0 := p[x := false];
      var p1 := PathAfter(lo, p0)[x := true];
      OccursBelow(o, lo, x);
      OccursBelow(o, hi, x);
      SolsSat(o, lo, m != lo.w, p0);
      SolsSat(o, hi, m != hi.w, p1);
      SolsFrame(lo, m != lo.w, p0, x);
      SolsFrame(hi, m != hi.w, p1, x);
      forall s | s in Sols(f, m, p)
        ensures |s| == |p| && NodeVal(o, f.v, s) == O.Some(!m)
      {
        if s in Sols(lo, m != lo.w, p0) {
          assert !s[x];
        } else {
          assert s in Sols(hi, m != hi.w, p1);
          assert s[x];
        }
      }
    }
  }

  /** t takes the path s takes through f: it agrees with s on every variable tested along that path. */
  predicate Follows(f: BEdge, s: seq<bool>, t: seq<bool>)
    requires Bounded(f, |s|) && |t| == |s|
    decreases Size(f)
  {
    if IsExp(f) || f.v.Leaf? then true
    else s[f.v.x] == t[f.v.x] && Follows(if s[f.v.x] then f.v.hi else f.v.lo, s, t)
  }

  /** Every path to such a leaf is collected: some collected vector takes the path of any assignment that reaches one. */
  lemma {:induction false} SolsCover(o: Order, f: BEdge, m: bool, p: seq<bool>, s: seq<bool>)
    requires o.Valid() && Ordered(o, f) && Bounded(f, o.Count())
    requires |p| == o.Count() && |s| == o.Count() && NodeVal(o, f.v, s) == O.Some(!m)
    ensures exists t :: t in Sols(f, m, p) && |t| == |s| && Follows(f, s, t)
    decreases Size(f)
  {
    if f.v.Leaf? {
      assert p in Sols(f, m, p);
    } else {
      var x, hi, lo := f.v.x, f.v.hi, f.v.lo;
      var c := if s[x] then hi else lo;
      FlipFlip(c.w, c.w, NodeVal(o, c.v, s));
      var p0 := p[x := false];
      var p1 := PathAfter(lo, p0)[x := true];
      if s[x] {
        OccursBelow(o, hi, x);
        SolsCover(o, hi, m != hi.w, p1, s);
        var t :| t in Sols(hi, m != hi.w, p1) && |t| == |s| && Follows(hi, s, t);
        SolsFrame(hi, m != hi.w, p1, x);
        assert t in Sols(f, m, p);
      } else {
        OccursBelow(o, lo, x);
        SolsCover(o, lo, m != lo.w, p0, s);
        var t :| t in Sols(lo, m != lo.w, p0) && |t| == |s| && Follows(lo, s, t);
        SolsFrame(lo, m != lo.w, p0, x);
        assert t in Sols(f, m, p);
      }
    }
  }

  /**
   * sat_solutions: one all-false vector for the constant 1, none for 0 or
   * the expansion node, otherwise the vectors collected along the paths.
   * Every returned vector satisfies f, every assignment that satisfies f
   * takes the path of a returned vector, and there is none exactly when no
   * assignment makes f true.
   */
  method SatSolutions(o: Order, f: BEdge) returns (sols: seq<seq<bool>>)
    requires o.Valid() && Canon(o, f) && Bounded(f, o.Count())
    ensures forall s :: s in sols ==> |s| == o.Count() && Val(o, f, s) == O.Some(true)
    ensures forall s :: |s| == o.Count() && Val(o, f, s) == O.Some(true) ==> exists t :: t in sols && |t| == |s| && Follows(f, s, t)
    ensures |sols| == 0 <==> forall s :: |s| == o.Count() ==> Val(o, f, s) != O.Some(true)
  {
    sols := [];
    var n := o.Count();
    if f == One {
      var s := seq(n, _ => false);
      sols := [s];
      assert Val(o, f, s) == O.Some(true);
    } else if f != Zero && !IsExp(f) {
      ConstCases(f);
      var path := new bool[n](_ => false);
      var p := path[..];
      sols := SatSolutionsRec(f, f.w, path, sols);
      SolsSat(o, f, f.w, p);
      forall s | |s| == n && Val(o, f, s) == O.Some(true)
        ensures exists t :: t in sols && |t| == |s| && Follows(f, s, t)
      {
        FlipFlip(f.w, f.w, NodeVal(o, f.v, s));
        SolsCover(o, f, f.w, p, s);
      }
      if |sols| > 0 {
        assert sols[0] in sols;
      }
    } else {
      forall s | |s| == n
        ensures Val(o, f, s) != O.Some(true)
      {
        assert NodeVal(o, f.v, s) == if f.v.c then O.None else O.Some(false);
      }
    }
  }

  // -------------------------------------------------------------------------
  // unit_clauses

  /** A literal of a unit clause: a variable and its value. */
  type Lit = (nat, bool)

  /** The literals the entries of ep below n set, in increasing variable order. */
  function Clause(ep: seq<O.Option<bool>>, n: nat): seq<Lit>
    requires n <= |ep|
  {
    if n == 0 then []
    else Clause(ep, n - 1) + (if ep[n - 1].Some? then [(n - 1, ep[n - 1].value)] else [])
  }

  /** Variables strictly increase along c. */
  predicate Increasing(c: seq<Lit>)
  {
    forall j, k :: 0 <= j < k < |c| ==> c[j].0 < c[k].0
  }

  /** s gives every variable of c the value c gives it. */
  predicate Satisfies(s: seq<bool>, c: seq<Lit>)
  {
    forall k :: 0 <= k < |c| ==> c[k].0 < |s| && s[c[k].0] == c[k].1
  }

  /** s agrees with every entry ep sets. */
  predicate Agrees(s: seq<bool>, ep: seq<O.Option<bool>>)
    requires |s| == |ep|
  {
    forall i :: 0 <= i < |ep| && ep[i].Some? ==> s[i] == ep[i].value
  }

  /** The clause holds exactly the set entries, each once, in increasing order. */
  lemma {:induction false} ClauseExact(ep: seq<O.Option<bool>>, n: nat)
    requires n <= |ep|
    ensures var c := Clause(ep, n);
      && Increasing(c)
      && (forall k :: 0 <= k < |c| ==> c[k].0 < n && ep[c[k].0] == O.Some(c[k].1))
      && (forall i :: 0 <= i < n && ep[i].Some? ==> (i, ep[i].value) in c)
  {
    if n > 0 {
      ClauseExact(ep, n - 1);
    }
  }

  /** The loop in the recursive unit_clauses that turns exp_path into a clause. */
  method CollectPath(expPath: array<O.Option<bool>>) returns (path: seq<Lit>)
    ensures path == Clause(expPath[..], expPath.Length)
  {
    path := [];
    var i := 0;
    while i < expPath.Length
      invariant 0 <= i <= expPath.Length
      invariant path == Clause(expPath[..], i)
    {
      if expPath[i].Some? {
        path := path + [(i, expPath[i].value)];
      }
      i := i + 1;
    }
  }

  /** The clauses the recursive unit_clauses appends below f, starting from the entries ep. */
  function Ucs(f: BEdge, ep: seq<O.Option<bool>>): seq<seq<Lit>>
    requires Bounded(f, |ep|)
    decreases Size(f)
  {
    if IsExp(f) then [Clause(ep, |ep|)]
    else if f.v.Leaf? then []
    else
      var x := f.v.x;
      var e0 := ep[x := O.Some(false)];
      Ucs(f.v.lo, e0) + Ucs(f.v.hi, EpAfter(f.v.lo, e0)[x := O.Some(true)])
  }

  /** The entries the recursive unit_clauses leaves behind. */
  function EpAfter(f: BEdge, ep: seq<O.Option<bool>>): (r: seq<O.Option<bool>>)
    requires Bounded(f, |ep|)
    ensures |r| == |ep|
    decreases Size(f)
  {
    if IsExp(f) || f.v.Leaf? then ep
    else
      var x := f.v.x;
      EpAfter(f.v.hi, EpAfter(f.v.lo, ep[x := O.Some(false)])[x := O.Some(true)])[x := O.None]
  }

  /** The recursive unit_clauses: records each branch in exp_path, appends a clause at exp, resets on return. */
  method UnitClausesRec(f: BEdge, expPath: array<O.Option<bool>>, ucs: seq<seq<Lit>>) returns (ucs': seq<seq<Lit>>)
    requires Bounded(f, expPath.Length)
    modifies expPath
    ensures ucs' == ucs + Ucs(f, old(expPath[..]))
    ensures expPath[..] == EpAfter(f, old(expPath[..]))
    decreases Size(f)
  {
    if IsExp(f) {
      var path := CollectPath(expPath);
      return ucs + [path];
    }
    if f.v.Leaf? {
      return ucs;
    }
    var x := f.v.x;
    expPath[x] := O.Some(false);
    ucs' := UnitClausesRec(f.v.lo, expPath, ucs);
    expPath[x] := O.Some(true);
    ucs' := UnitClausesRec(f.v.hi, expPath, ucs');
    expPath[x] := O.None;
  }

  /** Every variable that f tests is reset; the other entries are kept. */
  lemma {:induction false} EpAfterResets(f: BEdge, ep: seq<O.Option<bool>>)
    requires Bounded(f, |ep|)
    ensures forall y :: 0 <= y < |ep| ==> EpAfter(f, ep)[y] == if Occurs(f, y) then O.None else ep[y]
    decreases Size(f)
  {
    if !IsExp(f) && f.v.Inner? {
      var x := f.v.x;
      var e0 := ep[x := O.Some(false)];
      EpAfterResets(f.v.lo, e0);
      EpAfterResets(f.v.hi, EpAfter(f.v.lo, e0)[x := O.Some(true)]);
    }
  }

  /** unit_clauses finds a clause exactly when the expansion node is reachable. */
  lemma {:induction false} UcsNonEmpty(f: BEdge, ep: seq<O.Option<bool>>)
    requires Bounded(f, |ep|)
    ensures |Ucs(f, ep)| > 0 <==> HasConst(f, true)
    decreases Size(f)
  {
    if !IsExp(f) && f.v.Inner? {
      var x := f.v.x;
      var e0 := ep[x := O.Some(false)];
      UcsNonEmpty(f.v.lo, e0);
      UcsNonEmpty(f.v.hi, EpAfter(f.v.lo, e0)[x := O.Some(true)]);
    }
  }

  /**
   * On an ordered diagram, starting from entries that are unset on the
   * variables of f: every clause is increasing, and every assignment that
   * satisfies it agrees with ep and reaches the expansion node.
   */
  lemma {:induction false} UcsSound(o: Order, f: BEdge, ep: seq<O.Option<bool>>)
    requires o.Valid() && Ordered(o, f) && |ep| == o.Count()
    requires forall y :: 0 <= y < |ep| && Occurs(f, y) ==> ep[y] == O.None
    ensures Bounded(f, |ep|)
    ensures forall c :: c in Ucs(f, ep) ==> Increasing(c)
    ensures forall c, s :: c in Ucs(f, ep) && |s| == |ep| && Satisfies(s, c) ==> Agrees(s, ep) && NodeVal(o, f.v, s) == O.None
    decreases Size(f)
  {
    B.OrderedBounded(o, f);
    if IsExp(f) {
      ClauseExact(ep, |ep|);
      forall c, s | c in Ucs(f, ep) && |s| == |ep| && Satisfies(s, c)
        ensures Agrees(s, ep)
      {
        forall i | 0 <= i < |ep| && ep[i].Some?
          ensures s[i] == ep[i].value
        {
          var k :| 0 <= k < |c| && c[k] == (i, ep[i].value);
        }
      }
    } else if f.v.Inner? {
      var x, hi, lo := f.v.x, f.v.hi, f.v.lo;
      OccursBelow(o, lo, x);
      OccursBelow(o, hi, x);
      var e0 := ep[x := O.Some(false)];
      EpAfterResets(lo, e0);
      assert EpAfter(lo, e0) == e0;
      var e1 := ep[x := O.Some(true)];
      assert EpAfter(lo, e0)[x := O.Some(true)] == e1;
      UcsSound(o, lo, e0);
      UcsSound(o, hi, e1);
      forall c, s | c in Ucs(f, ep) && |s| == |ep| && Satisfies(s, c)
        ensures Agrees(s, ep) && NodeVal(o, f.v, s) == O.None
      {
        if c in Ucs(lo, e0) {
          assert Agrees(s, e0);
          assert !s[x];
        } else {
          assert c in Ucs(hi, e1);
          assert Agrees(s, e1);
          assert s[x];
        }
      }
    }
  }

  /** An assignment whose value is unknown reaches the expansion node. */
  lemma {:induction false} NoneReachesExp(o: Order, f: BEdge, s: seq<bool>)
    requires |s| == o.Count() && Bounded(f, |s|)
    ensures NodeVal(o, f.v, s) == O.None ==> HasConst(f, true)
    decreases Size(f)
  {
    if f.v.Inner? {
      var c := if s[f.v.x] then f.v.hi else f.v.lo;
      assert NodeVal(o, f.v, s) == Flip(c.w, NodeVal(o, c.v, s));
      NoneReachesExp(o, c, s);
    }
  }

  /**
   * Every assignment that agrees with ep and reaches the expansion node
   * satisfies one of the clauses: the one of its own path.
   */
  lemma {:induction false} UcsComplete(o: Order, f: BEdge, ep: seq<O.Option<bool>>, s: seq<bool>)
    requires |ep| == o.Count() && |s| == |ep| && Bounded(f, |ep|)
    requires Agrees(s, ep) && NodeVal(o, f.v, s) == O.None
    ensures exists c :: c in Ucs(f, ep) && Satisfies(s, c)
    decreases Size(f)
  {
    if IsExp(f) {
      ClauseExact(ep, |ep|);
      assert Clause(ep, |ep|) in Ucs(f, ep);
    } else if f.v.Inner? {
      var x, hi, lo := f.v.x, f.v.hi, f.v.lo;
      var e0 := ep[x := O.Some(false)];
      var e1 := EpAfter(lo, e0)[x := O.Some(true)];
      if s[x] {
        EpAfterResets(lo, e0);
        assert Agrees(s, e1);
        UcsComplete(o, hi, e1, s);
        var c :| c in Ucs(hi, e1) && Satisfies(s, c);
        assert c in Ucs(f, ep);
      } else {
        assert Agrees(s, e0);
        UcsComplete(o, lo, e0, s);
        var c :| c in Ucs(lo, e0) && Satisfies(s, c);
        assert c in Ucs(f, ep);
      }
    }
  }

  /**
   * unit_clauses: none when no expansion node is reachable, otherwise one
   * clause per path to the expansion node, holding the variables met on the
   * path with their values in increasing variable order. An assignment
   * reaches the expansion node exactly when it satisfies one of the clauses.
   */
  method UnitClauses(o: Order, f: BEdge) returns (ucs: seq<seq<Lit>>)
    requires o.Valid() && Canon(o, f) && Bounded(f, o.Count())
    ensures |ucs| == 0 <==> !HasConst(f, true)
    ensures forall c :: c in ucs ==> Increasing(c)
    ensures forall c, s :: c in ucs && |s| == o.Count() && Satisfies(s, c) ==> Val(o, f, s) == O.None
    ensures forall s :: |s| == o.Count() && Val(o, f, s) == O.None ==> exists c :: c in ucs && Satisfies(s, c)
  {
    ucs := [];
    if !HasConst(f, true) {
      forall s | |s| == o.Count()
        ensures Val(o, f, s) != O.None
      {
        NoneReachesExp(o, f, s);
      }
      return;
    }
    var expPath := new O.Option<bool>[o.Count()](_ => O.None);
    var ep := expPath[..];
    ucs := UnitClausesRec(f, expPath, ucs);
    UcsNonEmpty(f, ep);
    UcsSound(o, f, ep);
    forall s | |s| == o.Count() && Val(o, f, s) == O.None
      ensures exists c :: c in ucs && Satisfies(s, c)
    {
      UcsComplete(o, f, ep, s);
    }
  }
}
