/**
 * Power-of-two hybrid decision diagrams (freddy phdd_manager). An edge
 * weight is a sign and an exponent and stands for the factor +-2^e; a leaf
 * holds 0 or an odd integer below 2^53 (a double with an integral value);
 * variables use the Shannon or the positive Davio decomposition, the
 * latter read arithmetically (lo + x hi). Exponents are natural numbers
 * here, so every diagram denotes an integer-valued function.
 */
module Phdd {
  import opened Dd
  import opened Counting
  import O = Objects
  import B = Bmd

  /** A weight (sign, exponent): the factor -2^e when the sign is set, else 2^e. */
  datatype W = W(s: bool, e: nat)

  type PEdge = Edge<W, int>

  lemma {:induction false} Pow2Add(m: nat, n: nat)
    ensures Pow2(m + n) == Pow2(m) * Pow2(n)
    decreases m
  {
    if m > 0 {
      Pow2Add(m - 1, n);
      Assoc3(2, Pow2(m - 1), Pow2(n));
    }
  }

  lemma Assoc3(a: int, b: int, c: int)
    ensures (a * b) * c == a * (b * c)
  {
  }

  /** The factor a weight stands for. */
  function WVal(w: W): int
  {
    if w.s then -(Pow2(w.e) as int) else Pow2(w.e)
  }

  /** comb XORs the signs and adds the exponents. */
  function Comb(w1: W, w2: W): W { W(w1.s != w2.s, w1.e + w2.e) }

  /** comb multiplies the factors the weights stand for. */
  lemma CombVal(w1: W, w2: W)
    ensures WVal(Comb(w1, w2)) == WVal(w1) * WVal(w2)
  {
    Pow2Add(w1.e, w2.e);
    Signs(Pow2(w1.e), Pow2(w2.e));
  }

  lemma Signs(p: int, q: int)
    ensures (-p) * q == -(p * q) && p * (-q) == -(p * q) && (-p) * (-q) == p * q
  {
  }

  /** agg: -2^e val for a set sign, else 2^e val. */
  function Agg(w: W, c: int): int { WVal(w) * c }

  function Merge(a: int, b: int): int { a + b }

  const Neutral: W := W(false, 0)
  const Zero: PEdge := Edge(Neutral, Leaf(0))
  const One: PEdge := Edge(Neutral, Leaf(1))

  /** The constant table after construction: 0, 1, 2 and -1. */
  const Consts: seq<PEdge> := [Zero, One, Edge(W(false, 1), Leaf(1)), Edge(W(true, 0), Leaf(1))]

  /** The manager state the operators rely on: no negative Davio variable. */
  ghost predicate Ctx(o: Order) { forall x :: 0 <= x < o.Count() ==> o.t[x] != ND }

  /** A leaf holds 0 or an odd integer below 2^53. */
  predicate LeafOk(c: int)
  {
    c == 0 || (c > 0 && c % 2 == 1 && c < Limit53)
  }

  /** 2^53: odd leaf values must stay below it to be exact in a double. */
  const Limit53: nat := 0x20_0000_0000_0000

  lemma Pow2Limits()
    ensures Pow2(53) == Limit53 && Pow2(64) == MaxU64 + 1
  {
    assert Pow2(4) == 0x10 && Pow2(1) == 2;
    Pow2Add(4, 4);
    Pow2Add(8, 8);
    Pow2Add(16, 16);
    Pow2Add(32, 32);
    Pow2Add(16, 4);
    Pow2Add(20, 32);
    Pow2Add(52, 1);
  }

  /** Stored diagrams: labels are variables, leaves are valid, and the 0-leaf is reached only by the constant 0. */
  ghost predicate Wf(o: Order, f: PEdge)
  {
    match f.v
    case Leaf(c) => LeafOk(c) && (c == 0 ==> f == Zero)
    case Inner(x, hi, lo) => x < o.Count() && Wf(o, hi) && Wf(o, lo)
  }

  lemma {:induction false} WfBounded(o: Order, f: PEdge)
    requires Wf(o, f)
    ensures Bounded(f, o.Count())
  {
    match f.v
    case Leaf(_) =>
    case Inner(_, hi, lo) => WfBounded(o, hi); WfBounded(o, lo);
  }

  /** The integer an edge denotes under an assignment. */
  function Sem(o: Order, f: PEdge, asg: seq<bool>): int
    requires Wf(o, f) && |asg| == o.Count()
  {
    WfBounded(o, f);
    Eval(o, f, asg, Agg, Merge)
  }

  /** The value of the node an edge points to, before its weight is applied. */
  function NodeSem(o: Order, f: PEdge, asg: seq<bool>): int
    requires Wf(o, f) && |asg| == o.Count()
  {
    WfBounded(o, f);
    EvalNode(o, f.v, asg, Agg, Merge)
  }

  lemma SemWeight(o: Order, f: PEdge, asg: seq<bool>)
    requires Wf(o, f) && |asg| == o.Count()
    ensures Sem(o, f, asg) == WVal(f.w) * NodeSem(o, f, asg)
  {
  }

  lemma ZeroSem(o: Order, asg: seq<bool>)
    requires |asg| == o.Count()
    ensures Sem(o, Zero, asg) == 0
  {
    SemWeight(o, Zero, asg);
  }

  /** The value of an inner node: the selected child (Shannon), or lo plus, where x holds, hi (Davio). */
  lemma NodeSemInner(o: Order, f: PEdge, asg: seq<bool>)
    requires Ctx(o) && Wf(o, f) && f.v.Inner? && |asg| == o.Count()
    ensures o.t[f.v.x] == S ==> NodeSem(o, f, asg) == if asg[f.v.x] then Sem(o, f.v.hi, asg) else Sem(o, f.v.lo, asg)
    ensures o.t[f.v.x] == PD ==> NodeSem(o, f, asg) == Sem(o, f.v.lo, asg) + if asg[f.v.x] then Sem(o, f.v.hi, asg) else 0
  {
    assert o.t[f.v.x] != ND;
  }

  /** Two edges into the same node with opposite signs and equal exponents cancel. */
  lemma OppositeSem(o: Order, f: PEdge, g: PEdge, asg: seq<bool>)
    requires Wf(o, f) && Wf(o, g) && |asg| == o.Count()
    requires f.v == g.v && f.w.s != g.w.s && f.w.e == g.w.e
    ensures Sem(o, f, asg) + Sem(o, g, asg) == 0
  {
    SemWeight(o, f, asg);
    SemWeight(o, g, asg);
    Signs(Pow2(f.w.e), NodeSem(o, f, asg));
  }

  // -------------------------------------------------------------------------
  // Integers as odd numbers times powers of two

  /**
   * factorize_pow2: (k, w >> k) for k the number of trailing zero bits of
   * w, so w is an odd number times 2^k.
   */
  function FactorizePow2(w: nat): (r: (nat, nat))
    requires w > 0
    ensures w == r.1 * Pow2(r.0) && r.1 % 2 == 1
  {
    if w % 2 == 1 then (0, w)
    else
      var (k, m) := FactorizePow2(w / 2);
      Double(m, Pow2(k));
      (k + 1, m)
  }

  lemma Double(m: nat, p: nat)
    ensures 2 * (m * p) == m * (2 * p)
  {
  }

  /** Number of bits needed to write n. */
  function BitWidth(n: nat): (r: nat)
    ensures n < Pow2(r)
    ensures n > 0 ==> r > 0 && Pow2(r - 1) <= n
  {
    if n == 0 then 0 else 1 + BitWidth(n / 2)
  }

  lemma {:induction false} Pow2Mono(a: nat, b: nat)
    requires a <= b
    ensures Pow2(a) <= Pow2(b)
    decreases b
  {
    if a < b {
      Pow2Mono(a, b - 1);
    }
  }

  /** A width of at most k bits is a value below 2^k. */
  lemma BitWidthBound(n: nat, k: nat)
    ensures BitWidth(n) <= k <==> n < Pow2(k)
  {
    var r := BitWidth(n);
    if r <= k {
      Pow2Mono(r, k);
    } else {
      Pow2Mono(k, r - 1);
    }
  }

  /**
   * constant on a non-zero integer value v: the sign of v, the trailing
   * zero bits of |v| as exponent and the odd rest as leaf, refused when the
   * rest needs 53 bits or more.
   */
  function Constant(v: int): (r: O.Option<PEdge>)
  {
    if v == 0 then O.Some(Zero)
    else
      var (k, m) := FactorizePow2(if v < 0 then -v else v);
      if BitWidth(m) >= 53 then O.None
      else O.Some(Edge(W(v < 0, k), Leaf(m)))
  }

  /** constant denotes its value everywhere, and is refused exactly when the odd part of v is 2^52 or more. */
  lemma ConstantSem(o: Order, v: int, asg: seq<bool>)
    requires |asg| == o.Count()
    ensures var r := Constant(v);
      && (r.None? <==> v != 0 && FactorizePow2(if v < 0 then -v else v).1 >= Pow2(52))
      && (r.Some? ==> Wf(o, r.value) && Sem(o, r.value, asg) == v)
  {
    if v != 0 {
      var (k, m) := FactorizePow2(if v < 0 then -v else v);
      BitWidthBound(m, 52);
      if BitWidth(m) < 53 {
        BitWidthBound(m, 53);
        Pow2Limits();
        Pow2Mono(52, 53);
        LeafEdgeSem(o, W(v < 0, k), m, asg);
        Signs(Pow2(k), m);
      }
    }
  }

  /** A leaf edge denotes its weight's factor times its value. */
  lemma LeafEdgeSem(o: Order, w: W, c: int, asg: seq<bool>)
    requires |asg| == o.Count() && LeafOk(c) && c != 0
    ensures Wf(o, Edge(w, Leaf(c)))
    ensures Sem(o, Edge(w, Leaf(c)), asg) == WVal(w) * c
  {
    SemWeight(o, Edge(w, Leaf(c)), asg);
  }

  // -------------------------------------------------------------------------
  // Weights on edges

  function Min(a: int, b: int): int { if a <= b then a else b }

  /**
   * normw: the weight of the other operand when one is the constant 0,
   * otherwise the sign of f and the smaller exponent.
   */
  function Normw(f: PEdge, g: PEdge): (r: W)
    ensures f == Zero ==> r == g.w
    ensures f != Zero && g == Zero ==> r == f.w
    ensures f != Zero && g != Zero ==>
      r.s == f.w.s && r.e <= f.w.e && r.e <= g.w.e && (r.e == f.w.e || r.e == g.w.e)
  {
    if f == Zero then g.w
    else if g == Zero then f.w
    else W(f.w.s, Min(f.w.e, g.w.e))
  }

  /** The weight left on an edge of weight c once w has been factored out. */
  function Divide(c: W, w: W): W
    requires w.e <= c.e
  {
    W(c.s != w.s, c.e - w.e)
  }

  lemma DivideVal(c: W, w: W)
    requires w.e <= c.e
    ensures WVal(w) * WVal(Divide(c, w)) == WVal(c)
  {
    Pow2Add(w.e, c.e - w.e);
    Signs(Pow2(w.e), Pow2(c.e - w.e));
  }

  /** apply: f unchanged for the constant 0 or the weight (false, 0), otherwise the combined weight. */
  function Apply(w: W, f: PEdge): (r: PEdge)
  {
    if f == Zero || w == Neutral then f else Edge(Comb(w, f.w), f.v)
  }

  lemma ApplyWf(o: Order, w: W, f: PEdge)
    requires Wf(o, f)
    ensures Wf(o, Apply(w, f))
  {
  }

  /** apply multiplies the denoted value by the factor of w. */
  lemma ApplySem(o: Order, w: W, f: PEdge, asg: seq<bool>)
    requires Wf(o, f) && |asg| == o.Count()
    ensures Wf(o, Apply(w, f))
    ensures Sem(o, Apply(w, f), asg) == WVal(w) * Sem(o, f, asg)
  {
    if f == Zero {
      ZeroSem(o, asg);
    } else if w != Neutral {
      var g := Edge(Comb(w, f.w), f.v);
      var n := NodeSem(o, f, asg);
      assert NodeSem(o, g, asg) == n;
      SemWeight(o, f, asg);
      SemWeight(o, g, asg);
      CombVal(w, f.w);
      Assoc3(WVal(w), WVal(f.w), n);
    }
  }

  // -------------------------------------------------------------------------
  // Cofactors and branch

  /**
   * cof: at a variable f does not test, the constant 0 for the true
   * cofactor of a Davio variable and f otherwise; at x the child with the
   * weight of f applied.
   */
  function Cof(o: Order, f: PEdge, x: nat, a: bool): (r: PEdge)
    requires x < o.Count()
    ensures Size(r) <= Size(f)
    ensures f.v.Inner? && f.v.x == x ==> Size(r) < Size(f)
  {
    if f.v.Leaf? || f.v.x != x then (if o.t[x] == PD && a then Zero else f)
    else if a then Apply(f.w, f.v.hi)
    else Apply(f.w, f.v.lo)
  }

  lemma CofWf(o: Order, f: PEdge, x: nat)
    requires x < o.Count() && Wf(o, f)
    ensures Wf(o, Cof(o, f, x, true)) && Wf(o, Cof(o, f, x, false))
  {
    if f.v.Inner? && f.v.x == x {
      ApplyWf(o, f.w, f.v.hi);
      ApplyWf(o, f.w, f.v.lo);
    }
  }

  /**
   * f is recovered from its cofactors: at a Shannon variable the cofactor
   * the assignment selects; at a Davio variable the false cofactor plus,
   * where x holds, the true cofactor.
   */
  lemma CofSem(o: Order, f: PEdge, x: nat, asg: seq<bool>)
    requires Ctx(o) && x < o.Count() && Wf(o, f) && |asg| == o.Count()
    ensures Wf(o, Cof(o, f, x, true)) && Wf(o, Cof(o, f, x, false))
    ensures o.t[x] == S ==> Sem(o, f, asg) == Sem(o, Cof(o, f, x, asg[x]), asg)
    ensures o.t[x] == PD ==>
      Sem(o, f, asg) == Sem(o, Cof(o, f, x, false), asg) + if asg[x] then Sem(o, Cof(o, f, x, true), asg) else 0
  {
    CofWf(o, f, x);
    if f.v.Inner? && f.v.x == x {
      var hi, lo := f.v.hi, f.v.lo;
      ApplySem(o, f.w, hi, asg);
      ApplySem(o, f.w, lo, asg);
      NodeSemInner(o, f, asg);
      SemWeight(o, f, asg);
      B.Distrib(WVal(f.w), Sem(o, lo, asg), Sem(o, hi, asg));
    } else if o.t[x] == PD {
      ZeroSem(o, asg);
    }
  }

  /**
   * branch: a Shannon node with equal children is its child; a Shannon node
   * over a 0 high child takes the low weight; a Davio node over a 0 high
   * child is its low child; a 0 low child lets the node take the high
   * weight; otherwise normw is factored out of both children.
   */
  function Branch(o: Order, x: nat, hi: PEdge, lo: PEdge): (r: PEdge)
    requires x < o.Count() && o.t[x] != ND && Wf(o, hi) && Wf(o, lo)
    ensures Wf(o, r)
  {
    if o.t[x] == S && hi == lo then hi
    else if o.t[x] == S && hi == Zero then Edge(lo.w, Inner(x, hi, Edge(Neutral, lo.v)))
    else if o.t[x] == PD && hi == Zero then lo
    else if lo == Zero then Edge(hi.w, Inner(x, Edge(Neutral, hi.v), lo))
    else
      assert o.t[x] == S || o.t[x] == PD;
      assert hi != Zero && lo != Zero;
      var w := Normw(hi, lo);
      Edge(w, Inner(x, Edge(Divide(hi.w, w), hi.v), Edge(Divide(lo.w, w), lo.v)))
  }

  /** When both children are non-zero and differ, the node's high edge is positive and one child has exponent 0. */
  lemma BranchShape(o: Order, x: nat, hi: PEdge, lo: PEdge)
    requires x < o.Count() && o.t[x] != ND && Wf(o, hi) && Wf(o, lo) && hi != Zero && lo != Zero && hi != lo
    ensures var b := Branch(o, x, hi, lo);
      && b.v.Inner? && b.v.x == x
      && !b.v.hi.w.s && (b.v.hi.w.e == 0 || b.v.lo.w.e == 0)
  {
  }

  /** An edge whose weight is factored through w. */
  lemma DivideSem(o: Order, w: W, c: PEdge, asg: seq<bool>)
    requires Wf(o, c) && c != Zero && w.e <= c.w.e && |asg| == o.Count()
    ensures Wf(o, Edge(Divide(c.w, w), c.v))
    ensures WVal(w) * Sem(o, Edge(Divide(c.w, w), c.v), asg) == Sem(o, c, asg)
  {
    var d := Edge(Divide(c.w, w), c.v);
    var n := NodeSem(o, c, asg);
    assert NodeSem(o, d, asg) == n;
    SemWeight(o, c, asg);
    SemWeight(o, d, asg);
    DivideVal(c.w, w);
    Assoc3(WVal(w), WVal(d.w), n);
  }

  /** branch denotes the Shannon or Davio combination of its children. */
  lemma BranchSem(o: Order, x: nat, hi: PEdge, lo: PEdge, asg: seq<bool>)
    requires Ctx(o) && x < o.Count() && Wf(o, hi) && Wf(o, lo) && |asg| == o.Count()
    ensures o.t[x] == S ==> Sem(o, Branch(o, x, hi, lo), asg) == if asg[x] then Sem(o, hi, asg) else Sem(o, lo, asg)
    ensures o.t[x] == PD ==> Sem(o, Branch(o, x, hi, lo), asg) == Sem(o, lo, asg) + if asg[x] then Sem(o, hi, asg) else 0
  {
    ZeroSem(o, asg);
    if o.t[x] == S && hi == lo {
    } else if o.t[x] == S && hi == Zero {
      BranchSideSem(o, x, hi, lo, asg, false);
    } else if o.t[x] == PD && hi == Zero {
    } else if lo == Zero {
      BranchSideSem(o, x, hi, lo, asg, true);
    } else {
      BranchFactorSem(o, x, hi, lo, asg);
    }
  }

  /** The two cases where one child is 0 and the node takes the other child's weight. */
  lemma BranchSideSem(o: Order, x: nat, hi: PEdge, lo: PEdge, asg: seq<bool>, high: bool)
    requires Ctx(o) && x < o.Count() && Wf(o, hi) && Wf(o, lo) && |asg| == o.Count()
    requires if high then lo == Zero && !(o.t[x] == S && hi == lo) && !(o.t[x] == PD && hi == Zero)
             else o.t[x] == S && hi == Zero && hi != lo
    ensures o.t[x] == S ==> Sem(o, Branch(o, x, hi, lo), asg) == if asg[x] then Sem(o, hi, asg) else Sem(o, lo, asg)
    ensures o.t[x] == PD ==> Sem(o, Branch(o, x, hi, lo), asg) == Sem(o, lo, asg) + if asg[x] then Sem(o, hi, asg) else 0
  {
    ZeroSem(o, asg);
    var c := if high then hi else lo;
    var b := Branch(o, x, hi, lo);
    var c0 := Edge(Neutral, c.v);
    assert b == Edge(c.w, Inner(x, if high then c0 else hi, if high then lo else c0));
    var n := NodeSem(o, c, asg);
    assert NodeSem(o, c0, asg) == n;
    SemWeight(o, c0, asg);
    assert Sem(o, c0, asg) == n;
    SemWeight(o, c, asg);
    SemWeight(o, b, asg);
    NodeSemInner(o, b, asg);
    var nb := NodeSem(o, b, asg);
    // the node's value is n exactly where the non-zero child is selected, and 0 elsewhere
    assert nb == if (high && asg[x]) || (!high && !asg[x]) then n else 0;
    if (high && asg[x]) || (!high && !asg[x]) {
      assert Sem(o, b, asg) == WVal(c.w) * n;
    } else {
      assert Sem(o, b, asg) == WVal(c.w) * 0;
    }
  }

  lemma BranchFactorSem(o: Order, x: nat, hi: PEdge, lo: PEdge, asg: seq<bool>)
    requires Ctx(o) && x < o.Count() && Wf(o, hi) && Wf(o, lo) && |asg| == o.Count()
    requires !(o.t[x] == S && hi == lo) && hi != Zero && lo != Zero
    ensures o.t[x] == S ==> Sem(o, Branch(o, x, hi, lo), asg) == if asg[x] then Sem(o, hi, asg) else Sem(o, lo, asg)
    ensures o.t[x] == PD ==> Sem(o, Branch(o, x, hi, lo), asg) == Sem(o, lo, asg) + if asg[x] then Sem(o, hi, asg) else 0
  {
    var w := Normw(hi, lo);
    var h2, l2 := Edge(Divide(hi.w, w), hi.v), Edge(Divide(lo.w, w), lo.v);
    var b := Branch(o, x, hi, lo);
    assert b == Edge(w, Inner(x, h2, l2));
    DivideSem(o, w, hi, asg);
    DivideSem(o, w, lo, asg);
    SemWeight(o, b, asg);
    NodeSemInner(o, b, asg);
    var sh, sl := Sem(o, h2, asg), Sem(o, l2, asg);
    Factored(WVal(w), NodeSem(o, b, asg), sh, sl, Sem(o, hi, asg), Sem(o, lo, asg), o.t[x] == S, asg[x]);
  }

  /** Factoring w back into the value of a node over children divided by w. */
  lemma Factored(wv: int, n: int, sh: int, sl: int, h: int, l: int, shannon: bool, t: bool)
    requires wv * sh == h && wv * sl == l
    requires n == if shannon then (if t then sh else sl) else sl + (if t then sh else 0)
    ensures wv * n == if shannon then (if t then h else l) else l + (if t then h else 0)
  {
    if !shannon && t {
      B.Distrib(wv, sl, sh);
    }
  }

  /** Moving a non-zero edge onto another weight keeps it well formed. */
  lemma ReweighWf(o: Order, f: PEdge, w: W)
    requires Wf(o, f) && f != Zero
    ensures Wf(o, Edge(w, f.v))
  {
  }

  // -------------------------------------------------------------------------
  // plus

  /** The largest value of an unsigned 64-bit integer. */
  /** The largest unsigned 64-bit value, 2^64 - 1. */
  const MaxU64: nat := 0xFFFF_FFFF_FFFF_FFFF

  /**
   * The sum of a positive odd count n of 2^e units with the given sign: n
   * factorized into an odd leaf and a power of two that joins e, refused
   * when the odd part needs 53 bits or more.
   */
  function Normalized(sign: bool, e: nat, n: nat): (r: O.Option<PEdge>)
    requires n > 0
  {
    var (k, m) := FactorizePow2(n);
    if BitWidth(m) >= 53 then O.None else O.Some(Edge(W(sign, k + e), Leaf(m)))
  }

  /** A normalized sum denotes sign 2^e n. */
  lemma NormalizedSem(o: Order, sign: bool, e: nat, n: nat, asg: seq<bool>)
    requires n > 0 && |asg| == o.Count()
    ensures var r := Normalized(sign, e, n);
      r.Some? ==> Wf(o, r.value) && Sem(o, r.value, asg) == WVal(W(sign, e)) * n
  {
    var (k, m) := FactorizePow2(n);
    if BitWidth(m) < 53 {
      BitWidthBound(m, 53);
      Pow2Limits();
      LeafEdgeSem(o, W(sign, k + e), m, asg);
      WValShift(sign, e, k);
      Assoc3(WVal(W(sign, e)), Pow2(k), m);
    }
  }

  /** Raising the exponent by d multiplies the factor by 2^d. */
  lemma WValShift(s: bool, e: nat, d: nat)
    ensures WVal(W(s, d + e)) == WVal(W(s, e)) * Pow2(d)
    ensures WVal(W(s, e + d)) == WVal(W(s, e)) * Pow2(d)
  {
    Pow2Add(e, d);
    Signs(Pow2(e), Pow2(d));
  }

  /** An odd number is never an even multiple, so unequal leaves cannot meet after the shift. */
  lemma NoCancel(fv: nat, gv: nat, shift: nat)
    requires fv % 2 == 1 && (shift == 0 ==> fv != gv)
    ensures fv != gv * Pow2(shift)
  {
    if shift > 0 {
      var p := Pow2(shift - 1);
      Double(gv, p);
      assert gv * Pow2(shift) == 2 * (gv * p);
    }
  }

  /** Two non-zero constants that do not cancel, as plus expects them. */
  predicate ConstOperands(f: PEdge, g: PEdge)
  {
    && f.v.Leaf? && g.v.Leaf? && LeafOk(f.v.c) && LeafOk(g.v.c) && f.v.c != 0 && g.v.c != 0
    && !(f.v == g.v && f.w.s != g.w.s && f.w.e == g.w.e)
  }

  /** plus on two constants: the one with the smaller exponent goes first. */
  function PlusConst(f: PEdge, g: PEdge): (r: O.Option<PEdge>)
    requires ConstOperands(f, g)
  {
    if f.w.e > g.w.e then PlusOrdered(g, f) else PlusOrdered(f, g)
  }

  /**
   * The value of g shifted left by the exponent difference (refused when
   * it overflows 64 bits) is added to or subtracted from the value of f,
   * over the exponent of f.
   */
  function PlusOrdered(f: PEdge, g: PEdge): (r: O.Option<PEdge>)
    requires ConstOperands(f, g) && f.w.e <= g.w.e
  {
    var shift := g.w.e - f.w.e;
    if 64 - BitWidth(g.v.c) < shift then O.None
    else if f.w.s == g.w.s then PlusSame(f.w.s, f.w.e, f.v.c, Shl(g.v.c, shift))
    else
      NoCancel(f.v.c, g.v.c, shift);
      PlusOpposite(f.w.s, g.w.s, f.w.e, f.v.c, Shl(g.v.c, shift))
  }

  /** v shifted left by k bits, without a width limit. */
  function Shl(v: nat, k: nat): nat { v * Pow2(k) }

  /** Equal signs: the sum, refused when it overflows 64 bits. */
  function PlusSame(s: bool, e: nat, fv: nat, gs: nat): (r: O.Option<PEdge>)
    requires fv > 0
  {
    if fv > MaxU64 - gs then O.None else Normalized(s, e, fv + gs)
  }

  /** Opposite signs: the larger value minus the smaller one, with the sign of the larger. */
  function PlusOpposite(sf: bool, sg: bool, e: nat, fv: nat, gs: nat): (r: O.Option<PEdge>)
    requires fv != gs
  {
    if fv < gs then Normalized(sg, e, gs - fv) else Normalized(sf, e, fv - gs)
  }

  /** The guard of plus: a value of b bits shifted by at most 64 - b bits still fits in 64 bits. */
  lemma ShiftGuard(gv: nat, shift: nat)
    requires BitWidth(gv) + shift <= 64
    ensures Shl(gv, shift) <= MaxU64
  {
    var b := BitWidth(gv);
    Pow2Add(b, shift);
    MulLess(gv, Pow2(b), Pow2(shift));
    Pow2Mono(b + shift, 64);
    Pow2Limits();
  }

  lemma MulLess(a: nat, b: nat, c: nat)
    requires a < b && c > 0
    ensures a * c < b * c
  {
  }

  /** plus of two constants is their sum whenever it is not refused. */
  lemma PlusConstSem(o: Order, f: PEdge, g: PEdge, asg: seq<bool>)
    requires Wf(o, f) && Wf(o, g) && |asg| == o.Count() && ConstOperands(f, g)
    ensures var r := PlusConst(f, g);
      r.Some? ==> Wf(o, r.value) && Sem(o, r.value, asg) == Sem(o, f, asg) + Sem(o, g, asg)
  {
    if f.w.e > g.w.e {
      PlusOrderedSem(o, g, f, asg);
    } else {
      PlusOrderedSem(o, f, g, asg);
    }
  }

  lemma PlusOrderedSem(o: Order, f: PEdge, g: PEdge, asg: seq<bool>)
    requires |asg| == o.Count() && ConstOperands(f, g) && f.w.e <= g.w.e
    ensures Wf(o, f) && Wf(o, g)
    ensures var r := PlusOrdered(f, g);
      r.Some? ==> Wf(o, r.value) && Sem(o, r.value, asg) == Sem(o, f, asg) + Sem(o, g, asg)
  {
    LeafEdgeSem(o, f.w, f.v.c, asg);
    LeafEdgeSem(o, g.w, g.v.c, asg);
    assert f == Edge(f.w, Leaf(f.v.c)) && g == Edge(g.w, Leaf(g.v.c));
    if 64 - BitWidth(g.v.c) >= g.w.e - f.w.e {
      PlusShiftedSem(o, f.w, g.w, f.v.c, g.v.c, asg);
    }
  }

  /** A constant under exponent e + d is the constant shifted by d under exponent e. */
  lemma ShiftedValue(s: bool, e: nat, d: nat, v: nat)
    ensures WVal(W(s, d + e)) * v == WVal(W(s, e)) * Shl(v, d)
  {
    WValShift(s, e, d);
    Assoc3(WVal(W(s, e)), Pow2(d), v);
  }

  /** The aligned sum of two constants, once the shift fits in 64 bits. */
  lemma PlusShiftedSem(o: Order, fw: W, gw: W, fv: nat, gv: nat, asg: seq<bool>)
    requires |asg| == o.Count() && ConstOperands(Edge(fw, Leaf(fv)), Edge(gw, Leaf(gv))) && fw.e <= gw.e
    requires 64 - BitWidth(gv) >= gw.e - fw.e
    ensures var r := PlusOrdered(Edge(fw, Leaf(fv)), Edge(gw, Leaf(gv)));
      r.Some? ==> Wf(o, r.value) && Sem(o, r.value, asg) == WVal(fw) * fv + WVal(gw) * gv
  {
    var shift := gw.e - fw.e;
    var gs := Shl(gv, shift);
    ShiftedValue(gw.s, fw.e, shift, gv);
    assert W(gw.s, shift + fw.e) == gw && W(fw.s, fw.e) == fw;
    var r := PlusOrdered(Edge(fw, Leaf(fv)), Edge(gw, Leaf(gv)));
    if fw.s == gw.s {
      assert r == PlusSame(fw.s, fw.e, fv, gs);
      PlusSameSem(o, fw.s, fw.e, fv, gs, asg);
    } else {
      NoCancel(fv, gv, shift);
      assert r == PlusOpposite(fw.s, gw.s, fw.e, fv, gs);
      PlusOppositeSem(o, fw.s, gw.s, fw.e, fv, gs, asg);
    }
  }

  lemma PlusSameSem(o: Order, s: bool, e: nat, fv: nat, gs: nat, asg: seq<bool>)
    requires fv > 0 && |asg| == o.Count()
    ensures var r := PlusSame(s, e, fv, gs);
      r.Some? ==> Wf(o, r.value) && Sem(o, r.value, asg) == WVal(W(s, e)) * fv + WVal(W(s, e)) * gs
  {
    if fv <= MaxU64 - gs {
      NormalizedSem(o, s, e, fv + gs, asg);
      B.Distrib(WVal(W(s, e)), fv, gs);
    }
  }

  lemma PlusOppositeSem(o: Order, sf: bool, sg: bool, e: nat, fv: nat, gs: nat, asg: seq<bool>)
    requires fv != gs && sf != sg && |asg| == o.Count()
    ensures var r := PlusOpposite(sf, sg, e, fv, gs);
      r.Some? ==> Wf(o, r.value) && Sem(o, r.value, asg) == WVal(W(sf, e)) * fv + WVal(W(sg, e)) * gs
  {
    var a := WVal(W(sf, e));
    assert WVal(W(sg, e)) == -a;
    Cancel(a, fv, gs);
    if fv < gs {
      NormalizedSem(o, sg, e, gs - fv, asg);
    } else {
      NormalizedSem(o, sf, e, fv - gs, asg);
    }
  }

  lemma Cancel(a: int, b: int, c: int)
    ensures a * b + (-a) * c == a * (b - c)
    ensures a * b + (-a) * c == (-a) * (c - b)
  {
  }

  /**
   * plus: the constant 0 is neutral; opposite edges into one node give 0;
   * two constants are added exactly; otherwise the operand with the larger
   * exponent comes first, normw is factored out of both, the cofactor sums
   * are joined by branch and the factor is applied back.
   */
  function Plus(o: Order, f: PEdge, g: PEdge): (r: O.Option<PEdge>)
    requires Ctx(o) && Wf(o, f) && Wf(o, g)
    ensures r.Some? ==> Wf(o, r.value)
    decreases Size(f) + Size(g), 2
  {
    if f == Zero then O.Some(g)
    else if g == Zero then O.Some(f)
    else if f.v == g.v && f.w.s != g.w.s && f.w.e == g.w.e then O.Some(Zero)
    else if f.v.Leaf? && g.v.Leaf? then
      PlusConstWf(o, f, g);
      PlusConst(f, g)
    else if f.w.e <= g.w.e then PlusFactored(o, g, f)
    else PlusFactored(o, f, g)
  }

  /** normw factored out of both operands, the split sum, and the factor applied back. */
  function PlusFactored(o: Order, f: PEdge, g: PEdge): (r: O.Option<PEdge>)
    requires Ctx(o) && Wf(o, f) && Wf(o, g) && f != Zero && g != Zero && (f.v.Inner? || g.v.Inner?)
    ensures r.Some? ==> Wf(o, r.value)
    decreases Size(f) + Size(g), 1
  {
    var w := Normw(f, g);
    ReweighWf(o, f, Divide(f.w, w));
    ReweighWf(o, g, Divide(g.w, w));
    var r := PlusSplit(o, Edge(Divide(f.w, w), f.v), Edge(Divide(g.w, w), g.v));
    if r.None? then O.None
    else
      ApplyWf(o, w, r.value);
      O.Some(Apply(w, r.value))
  }

  lemma PlusConstWf(o: Order, f: PEdge, g: PEdge)
    requires Wf(o, f) && Wf(o, g) && f.v.Leaf? && g.v.Leaf? && f != Zero && g != Zero
    requires !(f.v == g.v && f.w.s != g.w.s && f.w.e == g.w.e)
    ensures ConstOperands(f, g)
    ensures PlusConst(f, g).Some? ==> Wf(o, PlusConst(f, g).value)
  {
    PlusConstSem(o, f, g, seq(o.Count(), _ => false));
  }

  /** The cofactor sums at the top variable of two factored operands, joined by branch. */
  function PlusSplit(o: Order, f: PEdge, g: PEdge): (r: O.Option<PEdge>)
    requires Ctx(o) && Wf(o, f) && Wf(o, g) && (f.v.Inner? || g.v.Inner?)
    ensures r.Some? ==> Wf(o, r.value)
    decreases Size(f) + Size(g), 0
  {
    var x := TopVar(o, f, g);
    CofWf(o, f, x);
    CofWf(o, g, x);
    var hi := Plus(o, Cof(o, f, x, true), Cof(o, g, x, true));
    var lo := Plus(o, Cof(o, f, x, false), Cof(o, g, x, false));
    if hi.None? || lo.None? then O.None else O.Some(Branch(o, x, hi.value, lo.value))
  }

  /** plus adds the denoted integers whenever it is not refused. */
  lemma {:induction false} PlusSem(o: Order, f: PEdge, g: PEdge, asg: seq<bool>)
    requires Ctx(o) && Wf(o, f) && Wf(o, g) && |asg| == o.Count()
    ensures var r := Plus(o, f, g);
      r.Some? ==> Sem(o, r.value, asg) == Sem(o, f, asg) + Sem(o, g, asg)
    decreases Size(f) + Size(g), 2
  {
    ZeroSem(o, asg);
    if f == Zero || g == Zero {
    } else if f.v == g.v && f.w.s != g.w.s && f.w.e == g.w.e {
      OppositeSem(o, f, g, asg);
    } else if f.v.Leaf? && g.v.Leaf? {
      PlusConstWf(o, f, g);
      PlusConstSem(o, f, g, asg);
    } else if f.w.e <= g.w.e {
      PlusFactoredSem(o, g, f, asg);
    } else {
      PlusFactoredSem(o, f, g, asg);
    }
  }

  lemma {:induction false} PlusFactoredSem(o: Order, f: PEdge, g: PEdge, asg: seq<bool>)
    requires Ctx(o) && Wf(o, f) && Wf(o, g) && f != Zero && g != Zero && (f.v.Inner? || g.v.Inner?)
    requires |asg| == o.Count()
    ensures var r := PlusFactored(o, f, g);
      r.Some? ==> Sem(o, r.value, asg) == Sem(o, f, asg) + Sem(o, g, asg)
    decreases Size(f) + Size(g), 1
  {
    var w := Normw(f, g);
    var f2, g2 := Edge(Divide(f.w, w), f.v), Edge(Divide(g.w, w), g.v);
    DivideSem(o, w, f, asg);
    DivideSem(o, w, g, asg);
    var r := PlusSplit(o, f2, g2);
    if r.Some? {
      PlusSplitSem(o, f2, g2, asg);
      ApplySem(o, w, r.value, asg);
      assert PlusFactored(o, f, g) == O.Some(Apply(w, r.value));
      ScaleSum(WVal(w), Sem(o, f2, asg), Sem(o, g2, asg), Sem(o, r.value, asg), Sem(o, f, asg), Sem(o, g, asg));
    }
  }

  /** Scaling a sum scales both summands. */
  lemma ScaleSum(w: int, a: int, b: int, s: int, wa: int, wb: int)
    requires s == a + b && w * a == wa && w * b == wb
    ensures w * s == wa + wb
  {
    B.Distrib(w, a, b);
  }

  lemma {:induction false} PlusSplitSem(o: Order, f: PEdge, g: PEdge, asg: seq<bool>)
    requires Ctx(o) && Wf(o, f) && Wf(o, g) && (f.v.Inner? || g.v.Inner?) && |asg| == o.Count()
    ensures var r := PlusSplit(o, f, g);
      r.Some? ==> Sem(o, r.value, asg) == Sem(o, f, asg) + Sem(o, g, asg)
    decreases Size(f) + Size(g), 0
  {
    var x := TopVar(o, f, g);
    CofSem(o, f, x, asg);
    CofSem(o, g, x, asg);
    var ft, ff, gt, gf := Cof(o, f, x, true), Cof(o, f, x, false), Cof(o, g, x, true), Cof(o, g, x, false);
    var hi, lo := Plus(o, ft, gt), Plus(o, ff, gf);
    if hi.Some? && lo.Some? {
      PlusSem(o, ft, gt, asg);
      PlusSem(o, ff, gf, asg);
      BranchSem(o, x, hi.value, lo.value, asg);
    }
  }

  // -------------------------------------------------------------------------
  // mul

  /** The product of two odd numbers is odd. */
  lemma OddProduct(a: nat, b: nat)
    requires a % 2 == 1 && b % 2 == 1
    ensures (a * b) % 2 == 1 && a * b > 0
  {
    var i, j := a / 2, b / 2;
    assert a * b == 2 * (2 * i * j + i + j) + 1;
  }

  /**
   * mul: the constant 0 absorbs; an operand whose node is the leaf 1 applies
   * its weight to the other; two constants multiply their values, refused
   * when the product is not exact in a double (an odd product of 2^53 or
   * more); otherwise both weights are set aside, the operands are ordered
   * by node hash, and the split product gets the combined weight.
   */
  function Mul(o: Order, hash: Node<W, int> -> nat, f: PEdge, g: PEdge): (r: O.Option<PEdge>)
    requires Ctx(o) && Wf(o, f) && Wf(o, g)
    ensures r.Some? ==> Wf(o, r.value)
    decreases Size(f) + Size(g), 1
  {
    if f == Zero || g == Zero then O.Some(Zero)
    else if f.v == One.v then (ApplyWf(o, f.w, g); O.Some(Apply(f.w, g)))
    else if g.v == One.v then (ApplyWf(o, g.w, f); O.Some(Apply(g.w, f)))
    else if f.v.Leaf? && g.v.Leaf? then
      OddProduct(f.v.c, g.v.c);
      var p := f.v.c * g.v.c;
      if p >= Limit53 then O.None else O.Some(Edge(Comb(f.w, g.w), Leaf(p)))
    else
      var swap := hash(f.v) <= hash(g.v);
      var f1, g1 := Edge(Neutral, if swap then g.v else f.v), Edge(Neutral, if swap then f.v else g.v);
      ReweighWf(o, f, Neutral);
      ReweighWf(o, g, Neutral);
      var r := MulSplit(o, hash, f1, g1);
      if r.None? then O.None
      else
        ApplyWf(o, Comb(f.w, g.w), r.value);
        O.Some(Apply(Comb(f.w, g.w), r.value))
  }

  /**
   * The product split at the top variable: Shannon joins the products of
   * equal cofactors; positive Davio puts the sum of the three products with
   * a true cofactor on the high edge and the product of the false cofactors
   * on the low edge.
   */
  function MulSplit(o: Order, hash: Node<W, int> -> nat, f: PEdge, g: PEdge): (r: O.Option<PEdge>)
    requires Ctx(o) && Wf(o, f) && Wf(o, g) && (f.v.Inner? || g.v.Inner?)
    ensures r.Some? ==> Wf(o, r.value)
    decreases Size(f) + Size(g), 0
  {
    var x := TopVar(o, f, g);
    CofWf(o, f, x);
    CofWf(o, g, x);
    var fT, fF, gT, gF := Cof(o, f, x, true), Cof(o, f, x, false), Cof(o, g, x, true), Cof(o, g, x, false);
    if o.t[x] == S then
      var hi, lo := Mul(o, hash, fT, gT), Mul(o, hash, fF, gF);
      if hi.None? || lo.None? then O.None else O.Some(Branch(o, x, hi.value, lo.value))
    else
      var tt, tf, ft, ff := Mul(o, hash, fT, gT), Mul(o, hash, fT, gF), Mul(o, hash, fF, gT), Mul(o, hash, fF, gF);
      if tt.None? || tf.None? || ft.None? || ff.None? then O.None
      else
        var s := Plus(o, tt.value, tf.value);
        if s.None? then O.None
        else
          var hi := Plus(o, s.value, ft.value);
          if hi.None? then O.None else O.Some(Branch(o, x, hi.value, ff.value))
  }

  /** mul multiplies the denoted integers whenever it is not refused. */
  lemma {:induction false} MulSem(o: Order, hash: Node<W, int> -> nat, f: PEdge, g: PEdge, asg: seq<bool>)
    requires Ctx(o) && Wf(o, f) && Wf(o, g) && |asg| == o.Count()
    ensures var r := Mul(o, hash, f, g);
      r.Some? ==> Sem(o, r.value, asg) == Sem(o, f, asg) * Sem(o, g, asg)
    decreases Size(f) + Size(g), 2
  {
    ZeroSem(o, asg);
    if f == Zero || g == Zero {
    } else if f.v == One.v {
      ApplySem(o, f.w, g, asg);
      LeafEdgeSem(o, f.w, 1, asg);
    } else if g.v == One.v {
      ApplySem(o, g.w, f, asg);
      LeafEdgeSem(o, g.w, 1, asg);
    } else if f.v.Leaf? && g.v.Leaf? {
      OddProduct(f.v.c, g.v.c);
      var p := f.v.c * g.v.c;
      if p < Limit53 {
        LeafEdgeSem(o, Comb(f.w, g.w), p, asg);
        LeafEdgeSem(o, f.w, f.v.c, asg);
        LeafEdgeSem(o, g.w, g.v.c, asg);
        CombVal(f.w, g.w);
        B.Regroup4(WVal(f.w), WVal(g.w), f.v.c, g.v.c);
      }
    } else {
      var swap := hash(f.v) <= hash(g.v);
      var f1, g1 := Edge(Neutral, if swap then g.v else f.v), Edge(Neutral, if swap then f.v else g.v);
      ReweighWf(o, f, Neutral);
      ReweighWf(o, g, Neutral);
      var r := MulSplit(o, hash, f1, g1);
      if r.Some? {
        MulSplitSem(o, hash, f1, g1, asg);
        ApplySem(o, Comb(f.w, g.w), r.value, asg);
        CombVal(f.w, g.w);
        SemWeight(o, f, asg);
        SemWeight(o, g, asg);
        SemWeight(o, f1, asg);
        SemWeight(o, g1, asg);
        var nf, ng := NodeSem(o, f, asg), NodeSem(o, g, asg);
        assert NodeSem(o, Edge(Neutral, f.v), asg) == nf && NodeSem(o, Edge(Neutral, g.v), asg) == ng;
        B.Regroup4(WVal(f.w), WVal(g.w), nf, ng);
      }
    }
  }

  lemma {:induction false} MulSplitSem(o: Order, hash: Node<W, int> -> nat, f: PEdge, g: PEdge, asg: seq<bool>)
    requires Ctx(o) && Wf(o, f) && Wf(o, g) && (f.v.Inner? || g.v.Inner?) && |asg| == o.Count()
    ensures var r := MulSplit(o, hash, f, g);
      r.Some? ==> Sem(o, r.value, asg) == Sem(o, f, asg) * Sem(o, g, asg)
    decreases Size(f) + Size(g), 1
  {
    if o.t[TopVar(o, f, g)] == S {
      MulShannonSem(o, hash, f, g, asg);
    } else {
      MulDavioSplitSem(o, hash, f, g, asg);
    }
  }

  lemma {:induction false} MulShannonSem(o: Order, hash: Node<W, int> -> nat, f: PEdge, g: PEdge, asg: seq<bool>)
    requires Ctx(o) && Wf(o, f) && Wf(o, g) && (f.v.Inner? || g.v.Inner?) && |asg| == o.Count()
    requires o.t[TopVar(o, f, g)] == S
    ensures var r := MulSplit(o, hash, f, g);
      r.Some? ==> Sem(o, r.value, asg) == Sem(o, f, asg) * Sem(o, g, asg)
    decreases Size(f) + Size(g), 0
  {
    var x := TopVar(o, f, g);
    CofSem(o, f, x, asg);
    CofSem(o, g, x, asg);
    var fT, fF, gT, gF := Cof(o, f, x, true), Cof(o, f, x, false), Cof(o, g, x, true), Cof(o, g, x, false);
    var r := MulSplit(o, hash, f, g);
    if r.Some? {
      var hi, lo := Mul(o, hash, fT, gT), Mul(o, hash, fF, gF);
      assert hi.Some? && lo.Some? && r.value == Branch(o, x, hi.value, lo.value);
      BranchSem(o, x, hi.value, lo.value, asg);
      if asg[x] {
        MulSem(o, hash, fT, gT, asg);
      } else {
        MulSem(o, hash, fF, gF, asg);
      }
    }
  }

  lemma {:induction false} MulDavioSplitSem(o: Order, hash: Node<W, int> -> nat, f: PEdge, g: PEdge, asg: seq<bool>)
    requires Ctx(o) && Wf(o, f) && Wf(o, g) && (f.v.Inner? || g.v.Inner?) && |asg| == o.Count()
    requires o.t[TopVar(o, f, g)] == PD
    ensures var r := MulSplit(o, hash, f, g);
      r.Some? ==> Sem(o, r.value, asg) == Sem(o, f, asg) * Sem(o, g, asg)
    decreases Size(f) + Size(g), 0
  {
    var x := TopVar(o, f, g);
    CofSem(o, f, x, asg);
    CofSem(o, g, x, asg);
    var fT, fF, gT, gF := Cof(o, f, x, true), Cof(o, f, x, false), Cof(o, g, x, true), Cof(o, g, x, false);
    var r := MulSplit(o, hash, f, g);
    if r.Some? {
      var tt, tf, ft, ff := Mul(o, hash, fT, gT), Mul(o, hash, fT, gF), Mul(o, hash, fF, gT), Mul(o, hash, fF, gF);
      assert tt.Some? && tf.Some? && ft.Some? && ff.Some?;
      var s := Plus(o, tt.value, tf.value);
      assert s.Some? && Plus(o, s.value, ft.value).Some?;
      assert r.value == Branch(o, x, Plus(o, s.value, ft.value).value, ff.value);
      MulSem(o, hash, fT, gT, asg);
      MulSem(o, hash, fT, gF, asg);
      MulSem(o, hash, fF, gT, asg);
      MulSem(o, hash, fF, gF, asg);
      MulDavioSem(o, x, tt.value, tf.value, ft.value, ff.value, asg);
      DavioProduct(asg[x], Sem(o, fT, asg), Sem(o, fF, asg), Sem(o, gT, asg), Sem(o, gF, asg),
                   Sem(o, f, asg), Sem(o, g, asg), Sem(o, r.value, asg));
    }
  }

  /** The four partial products of two Davio expansions add up to the product of the expansions. */
  lemma DavioProduct(t: bool, a: int, b: int, c: int, d: int, sf: int, sg: int, res: int)
    requires sf == b + (if t then a else 0) && sg == d + (if t then c else 0)
    requires res == b * d + if t then a * c + (a * d + b * c) else 0
    ensures res == sf * sg
  {
    B.Expand4(t, a, b, c, d);
  }

  /** The semantics of the Davio node mul builds from the four partial products. */
  lemma MulDavioSem(o: Order, x: nat, tt: PEdge, tf: PEdge, ft: PEdge, ff: PEdge, asg: seq<bool>)
    requires Ctx(o) && x < o.Count() && o.t[x] == PD && |asg| == o.Count()
    requires Wf(o, tt) && Wf(o, tf) && Wf(o, ft) && Wf(o, ff)
    requires Plus(o, tt, tf).Some? && Plus(o, Plus(o, tt, tf).value, ft).Some?
    ensures Sem(o, Branch(o, x, Plus(o, Plus(o, tt, tf).value, ft).value, ff), asg)
         == Sem(o, ff, asg) + if asg[x] then Sem(o, tt, asg) + (Sem(o, tf, asg) + Sem(o, ft, asg)) else 0
  {
    var s := Plus(o, tt, tf).value;
    PlusSem(o, tt, tf, asg);
    PlusSem(o, s, ft, asg);
    BranchSem(o, x, Plus(o, s, ft).value, ff, asg);
  }

  // -------------------------------------------------------------------------
  // Derived operators

  lemma ConstsWf(o: Order)
    ensures Wf(o, One) && Wf(o, Consts[2]) && Wf(o, Consts[3])
  {
  }

  /** neg: f itself for the constant 0, otherwise consts[3] (that is -1) times f. */
  function Neg(o: Order, hash: Node<W, int> -> nat, f: PEdge): (r: O.Option<PEdge>)
    requires Ctx(o) && Wf(o, f)
    ensures r.Some? ==> Wf(o, r.value)
  {
    ConstsWf(o);
    if f == Zero then O.Some(f) else Mul(o, hash, Consts[3], f)
  }

  /** sub: f plus the negation of g. */
  function Sub(o: Order, hash: Node<W, int> -> nat, f: PEdge, g: PEdge): (r: O.Option<PEdge>)
    requires Ctx(o) && Wf(o, f) && Wf(o, g)
    ensures r.Some? ==> Wf(o, r.value)
  {
    var n := Neg(o, hash, g);
    if n.None? then O.None else Plus(o, f, n.value)
  }

  /** antiv: f + g - consts[2] fg. */
  function Antiv(o: Order, hash: Node<W, int> -> nat, f: PEdge, g: PEdge): (r: O.Option<PEdge>)
    requires Ctx(o) && Wf(o, f) && Wf(o, g)
    ensures r.Some? ==> Wf(o, r.value)
  {
    ConstsWf(o);
    var p, m := Plus(o, f, g), Mul(o, hash, f, g);
    if p.None? || m.None? then O.None
    else
      var m2 := Mul(o, hash, Consts[2], m.value);
      if m2.None? then O.None else Sub(o, hash, p.value, m2.value)
  }

  /** complement: consts[1] - f. */
  function Complement(o: Order, hash: Node<W, int> -> nat, f: PEdge): (r: O.Option<PEdge>)
    requires Ctx(o) && Wf(o, f)
    ensures r.Some? ==> Wf(o, r.value)
  {
    ConstsWf(o);
    Sub(o, hash, One, f)
  }

  /** disj: the other operand for the constant 0, otherwise f + g - fg. */
  function Disj(o: Order, hash: Node<W, int> -> nat, f: PEdge, g: PEdge): (r: O.Option<PEdge>)
    requires Ctx(o) && Wf(o, f) && Wf(o, g)
    ensures r.Some? ==> Wf(o, r.value)
  {
    if f == Zero then O.Some(g)
    else if g == Zero then O.Some(f)
    else
      var p, m := Plus(o, f, g), Mul(o, hash, f, g);
      if p.None? || m.None? then O.None else Sub(o, hash, p.value, m.value)
  }

  lemma NegSem(o: Order, hash: Node<W, int> -> nat, f: PEdge, asg: seq<bool>)
    requires Ctx(o) && Wf(o, f) && |asg| == o.Count()
    ensures Neg(o, hash, f).Some? && Sem(o, Neg(o, hash, f).value, asg) == -Sem(o, f, asg)
  {
    if f == Zero {
      ZeroSem(o, asg);
    } else {
      ConstsWf(o);
      var w := Consts[3].w;
      assert Consts[3].v == One.v && WVal(w) == -1;
      assert Neg(o, hash, f) == O.Some(Apply(w, f));
      ApplySem(o, w, f, asg);
    }
  }

  lemma SubSem(o: Order, hash: Node<W, int> -> nat, f: PEdge, g: PEdge, asg: seq<bool>)
    requires Ctx(o) && Wf(o, f) && Wf(o, g) && |asg| == o.Count()
    ensures Sub(o, hash, f, g).Some? ==> Sem(o, Sub(o, hash, f, g).value, asg) == Sem(o, f, asg) - Sem(o, g, asg)
  {
    NegSem(o, hash, g, asg);
    var n := Neg(o, hash, g);
    if n.Some? {
      PlusSem(o, f, n.value, asg);
    }
  }

  /**
   * Where they are not refused, the derived operators compute the
   * arithmetic forms of XOR, NOT and OR.
   */
  lemma DerivedSem(o: Order, hash: Node<W, int> -> nat, f: PEdge, g: PEdge, asg: seq<bool>)
    requires Ctx(o) && Wf(o, f) && Wf(o, g) && |asg| == o.Count()
    ensures var a, b := Sem(o, f, asg), Sem(o, g, asg);
      && (Antiv(o, hash, f, g).Some? ==> Sem(o, Antiv(o, hash, f, g).value, asg) == a + b - 2 * (a * b))
      && (Complement(o, hash, f).Some? ==> Sem(o, Complement(o, hash, f).value, asg) == 1 - a)
      && (Disj(o, hash, f, g).Some? ==> Sem(o, Disj(o, hash, f, g).value, asg) == a + b - a * b)
  {
    ConstsWf(o);
    ZeroSem(o, asg);
    LeafEdgeSem(o, Neutral, 1, asg);
    LeafEdgeSem(o, W(false, 1), 1, asg);
    SubSem(o, hash, One, f, asg);
    var p, m := Plus(o, f, g), Mul(o, hash, f, g);
    PlusSem(o, f, g, asg);
    MulSem(o, hash, f, g, asg);
    if p.Some? && m.Some? {
      MulSem(o, hash, Consts[2], m.value, asg);
      var m2 := Mul(o, hash, Consts[2], m.value);
      if m2.Some? {
        SubSem(o, hash, p.value, m2.value, asg);
      }
      if f != Zero && g != Zero {
        SubSem(o, hash, p.value, m.value, asg);
      }
    }
  }

  // -------------------------------------------------------------------------
  // Weighted sum

  /** mul by an edge into the leaf 1 is never refused: it applies that edge's weight. */
  lemma MulUnit(o: Order, hash: Node<W, int> -> nat, w: W, g: PEdge)
    requires Ctx(o) && Wf(o, g)
    ensures Wf(o, Edge(w, Leaf(1)))
    ensures Mul(o, hash, Edge(w, Leaf(1)), g) == O.Some(Apply(w, g))
  {
  }

  // -------------------------------------------------------------------------
  // Exactly when the operators refuse, on constants

  /** The integer a leaf edge stands for. */
  function LeafVal(f: PEdge): int
    requires f.v.Leaf?
  {
    WVal(f.w) * f.v.c
  }

  /** Scaling by 2^e adds e to the trailing zero bits and keeps the odd part. */
  lemma {:induction false} FactorizeShift(e: nat, n: nat)
    requires n > 0
    ensures Pow2(e) * n > 0
    ensures FactorizePow2(Pow2(e) * n) == (FactorizePow2(n).0 + e, FactorizePow2(n).1)
    decreases e
  {
    if e > 0 {
      FactorizeShift(e - 1, n);
      var m := Pow2(e - 1) * n;
      Assoc3(2, Pow2(e - 1), n);
      FactorizeDouble(m);
    }
  }

  lemma FactorizeDouble(m: nat)
    requires m > 0
    ensures FactorizePow2(2 * m) == (FactorizePow2(m).0 + 1, FactorizePow2(m).1)
  {
    assert (2 * m) % 2 == 0 && (2 * m) / 2 == m;
  }

  /** A normalized sum is the constant for its value. */
  lemma NormalizedConstant(sign: bool, e: nat, n: nat)
    requires n > 0
    ensures Normalized(sign, e, n) == Constant(WVal(W(sign, e)) * n)
  {
    var a := Pow2(e) * n;
    FactorizeShift(e, n);
    NormalizedShift(sign, e, n);
    var v := WVal(W(sign, e)) * n;
    if sign {
      Signs(Pow2(e), n);
      assert v == -a;
    } else {
      assert v == a;
    }
    ConstantNonZero(v);
  }

  /** The exponent e of a normalized sum can be moved into the count. */
  lemma NormalizedShift(sign: bool, e: nat, n: nat)
    requires n > 0 && Pow2(e) * n > 0
    ensures Normalized(sign, e, n) == Normalized(sign, 0, Pow2(e) * n)
  {
    FactorizeShift(e, n);
  }

  /** constant on a non-zero value is the normalized count |v| with the sign of v. */
  lemma ConstantNonZero(v: int)
    requires v != 0
    ensures Constant(v) == Normalized(v < 0, 0, if v < 0 then -v else v)
  {
  }

  /** A constant that is not refused is a leaf edge for its value. */
  lemma ConstantValue(v: int)
    ensures Constant(v).Some? ==> Constant(v).value.v.Leaf? && LeafVal(Constant(v).value) == v
  {
    if v != 0 {
      var (k, m) := FactorizePow2(if v < 0 then -v else v);
      if BitWidth(m) < 53 {
        Signs(Pow2(k), m);
      }
    }
  }

  /**
   * Stored constants are canonical: two leaf edges for the same integer are
   * the same edge, since an integer has one odd part and one power of two.
   */
  lemma LeafCanonical(o: Order, f: PEdge, g: PEdge)
    requires Wf(o, f) && Wf(o, g) && f.v.Leaf? && g.v.Leaf? && LeafVal(f) == LeafVal(g)
    ensures f == g
  {
    if f.v.c != 0 && g.v.c != 0 {
      OddLeaf(f);
      OddLeaf(g);
    } else if f.v.c != 0 {
      OddLeaf(f);
    } else if g.v.c != 0 {
      OddLeaf(g);
    }
  }

  /** A non-zero leaf edge is recovered from the factorization of its magnitude. */
  lemma OddLeaf(f: PEdge)
    requires f.v.Leaf? && f.v.c > 0 && f.v.c % 2 == 1
    ensures var v := LeafVal(f); v != 0 && (v < 0 <==> f.w.s)
    ensures var v := LeafVal(f); FactorizePow2(if v < 0 then -v else v) == (f.w.e, f.v.c)
  {
    FactorizeShift(f.w.e, f.v.c);
    assert FactorizePow2(f.v.c) == (0, f.v.c);
    Signs(Pow2(f.w.e), f.v.c);
  }

  /**
   * The overflow plus checks on two constants with exponents fe <= ge: the
   * shifted value of g needs more than 64 bits, or with equal signs the sum
   * does.
   */
  predicate ShiftOverflow(f: PEdge, g: PEdge)
    requires ConstOperands(f, g) && f.w.e <= g.w.e
  {
    var shift := g.w.e - f.w.e;
    64 - BitWidth(g.v.c) < shift || (f.w.s == g.w.s && f.v.c > MaxU64 - Shl(g.v.c, shift))
  }

  /** The overflow of plus on two leaf edges, taken in the order plus takes them. */
  predicate PlusOverflow(f: PEdge, g: PEdge)
  {
    && ConstOperands(f, g)
    && (if f.w.e > g.w.e then ShiftOverflow(g, f) else ShiftOverflow(f, g))
  }

  lemma PlusSameExact(s: bool, e: nat, fv: nat, gs: nat)
    requires fv > 0
    ensures PlusSame(s, e, fv, gs) == if fv > MaxU64 - gs then O.None else Constant(WVal(W(s, e)) * fv + WVal(W(s, e)) * gs)
  {
    if fv <= MaxU64 - gs {
      B.Distrib(WVal(W(s, e)), fv, gs);
      NormalizedConstant(s, e, fv + gs);
    }
  }

  lemma PlusOppositeExact(sf: bool, sg: bool, e: nat, fv: nat, gs: nat)
    requires fv != gs && sf != sg
    ensures PlusOpposite(sf, sg, e, fv, gs) == Constant(WVal(W(sf, e)) * fv + WVal(W(sg, e)) * gs)
  {
    var a := WVal(W(sf, e));
    assert WVal(W(sg, e)) == -a;
    Cancel(a, fv, gs);
    if fv < gs {
      NormalizedConstant(sg, e, gs - fv);
    } else {
      NormalizedConstant(sf, e, fv - gs);
    }
  }

  lemma PlusOrderedExact(f: PEdge, g: PEdge)
    requires ConstOperands(f, g) && f.w.e <= g.w.e
    ensures PlusOrdered(f, g) == if ShiftOverflow(f, g) then O.None else Constant(LeafVal(f) + LeafVal(g))
  {
    var shift := g.w.e - f.w.e;
    if 64 - BitWidth(g.v.c) >= shift {
      var gs := Shl(g.v.c, shift);
      ShiftedValue(g.w.s, f.w.e, shift, g.v.c);
      assert W(g.w.s, shift + f.w.e) == g.w;
      assert LeafVal(g) == WVal(W(g.w.s, f.w.e)) * gs;
      if f.w.s == g.w.s {
        PlusSameExact(f.w.s, f.w.e, f.v.c, gs);
      } else {
        NoCancel(f.v.c, g.v.c, shift);
        PlusOppositeExact(f.w.s, g.w.s, f.w.e, f.v.c, gs);
      }
    }
  }

  /**
   * plus on two stored constants gives the constant for their sum. It is
   * refused exactly when both are non-zero and do not cancel, and either
   * the aligned values overflow 64 bits or the sum's odd part needs 53 bits
   * or more.
   */
  lemma PlusLeaves(o: Order, f: PEdge, g: PEdge)
    requires Ctx(o) && Wf(o, f) && Wf(o, g) && f.v.Leaf? && g.v.Leaf?
    ensures var r := Plus(o, f, g);
      && (r.None? <==> PlusOverflow(f, g) || (ConstOperands(f, g) && Constant(LeafVal(f) + LeafVal(g)).None?))
      && (r.Some? ==> r.value.v.Leaf? && LeafVal(r.value) == LeafVal(f) + LeafVal(g))
  {
    if f == Zero || g == Zero {
    } else if f.v == g.v && f.w.s != g.w.s && f.w.e == g.w.e {
      assert WVal(g.w) == -WVal(f.w);
      Signs(WVal(f.w), f.v.c);
    } else {
      PlusConstWf(o, f, g);
      ConstantValue(LeafVal(f) + LeafVal(g));
      if f.w.e > g.w.e {
        PlusOrderedExact(g, f);
      } else {
        PlusOrderedExact(f, g);
      }
    }
  }

  /**
   * mul on two stored constants gives the constant for their product. It is
   * refused exactly when both are non-zero and their odd parts multiply to
   * 2^53 or more, where the product is not exact in a double.
   */
  lemma MulLeaves(o: Order, hash: Node<W, int> -> nat, f: PEdge, g: PEdge)
    requires Ctx(o) && Wf(o, f) && Wf(o, g) && f.v.Leaf? && g.v.Leaf?
    ensures var r := Mul(o, hash, f, g);
      && (r.None? <==> f != Zero && g != Zero && f.v.c * g.v.c >= Limit53)
      && (r.Some? ==> r.value.v.Leaf? && LeafVal(r.value) == LeafVal(f) * LeafVal(g))
  {
    if f == Zero || g == Zero {
    } else {
      CombVal(f.w, g.w);
      B.Regroup4(WVal(f.w), WVal(g.w), f.v.c, g.v.c);
    }
  }

  /** The leaf edge with the opposite sign. */
  function Flip(f: PEdge): (r: PEdge)
    requires f.v.Leaf?
    ensures r.v.Leaf? && LeafVal(r) == -LeafVal(f)
  {
    Signs(Pow2(f.w.e), f.v.c);
    if f == Zero then f else Edge(W(!f.w.s, f.w.e), f.v)
  }

  /** neg on a stored constant is never refused: it flips the sign. */
  lemma NegLeaf(o: Order, hash: Node<W, int> -> nat, f: PEdge)
    requires Ctx(o) && Wf(o, f) && f.v.Leaf?
    ensures Neg(o, hash, f) == O.Some(Flip(f))
  {
    if f != Zero {
      MulUnit(o, hash, Consts[3].w, f);
    }
  }

  /**
   * sub on two stored constants gives the constant for their difference,
   * and is refused exactly when plus refuses f and the negated g.
   */
  lemma SubLeaves(o: Order, hash: Node<W, int> -> nat, f: PEdge, g: PEdge)
    requires Ctx(o) && Wf(o, f) && Wf(o, g) && f.v.Leaf? && g.v.Leaf?
    ensures var r := Sub(o, hash, f, g);
      && (r.None? <==> PlusOverflow(f, Flip(g)) || (ConstOperands(f, Flip(g)) && Constant(LeafVal(f) - LeafVal(g)).None?))
      && (r.Some? ==> r.value.v.Leaf? && LeafVal(r.value) == LeafVal(f) - LeafVal(g))
  {
    NegLeaf(o, hash, g);
    PlusLeaves(o, f, Flip(g));
  }

  /** complement of a stored constant v gives the constant 1 - v, refused exactly when sub refuses 1 and v. */
  lemma ComplementLeaf(o: Order, hash: Node<W, int> -> nat, f: PEdge)
    requires Ctx(o) && Wf(o, f) && f.v.Leaf?
    ensures var r := Complement(o, hash, f);
      && (r.None? <==> PlusOverflow(One, Flip(f)) || (ConstOperands(One, Flip(f)) && Constant(1 - LeafVal(f)).None?))
      && (r.Some? ==> r.value.v.Leaf? && LeafVal(r.value) == 1 - LeafVal(f))
  {
    ConstsWf(o);
    SubLeaves(o, hash, One, f);
    assert LeafVal(One) == 1;
    assert Complement(o, hash, f) == Sub(o, hash, One, f);
  }

  /** The magnitude of a leaf edge's value: its leaf times 2^e. */
  lemma LeafMagnitude(f: PEdge)
    requires f.v.Leaf? && f.v.c >= 0
    ensures (if LeafVal(f) < 0 then -LeafVal(f) else LeafVal(f)) == Pow2(f.w.e) * f.v.c
  {
    Signs(Pow2(f.w.e), f.v.c);
  }

  /** An odd value whose 2^e multiple is below 2^k fits, shifted by e, in k bits. */
  lemma WidthBelow(e: nat, c: nat, k: nat)
    requires c > 0 && Pow2(e) * c < Pow2(k)
    ensures BitWidth(c) + e <= k
  {
    var d: nat := BitWidth(c) - 1;
    PowBelow(e, d, c, Pow2(k));
    Pow2Less(e + d, k);
  }

  lemma Pow2Less(a: nat, b: nat)
    requires Pow2(a) < Pow2(b)
    ensures a < b
  {
    if a >= b {
      Pow2Mono(b, a);
    }
  }

  lemma PowBelow(e: nat, d: nat, c: nat, t: nat)
    requires Pow2(d) <= c && Pow2(e) * c < t
    ensures Pow2(e + d) < t
  {
    Pow2Add(e, d);
    MulLe(Pow2(e), Pow2(d), c);
  }

  lemma MulLe(a: nat, b: nat, c: nat)
    requires b <= c
    ensures a * b <= a * c
  {
  }

  /** A value below 2^k in magnitude has its odd part below 2^k. */
  lemma ConstantBelow(v: int, k: nat)
    requires v != 0 && (if v < 0 then -v else v) < Pow2(k)
    ensures FactorizePow2(if v < 0 then -v else v).1 < Pow2(k)
  {
    var (e, m) := FactorizePow2(if v < 0 then -v else v);
    MulLe(m, 1, Pow2(e));
  }

  /** A value below 2^52 in magnitude is never refused by constant. */
  lemma ConstantSmall(v: int, bound: nat)
    requires bound == Pow2(52) && -(bound as int) < v < bound
    ensures Constant(v).Some?
  {
    if v != 0 {
      ConstantBelow(v, 52);
      var m := FactorizePow2(if v < 0 then -v else v).1;
      BitWidthBound(m, 52);
    }
  }

  /**
   * plus on two stored constants below 2^51 in magnitude is never refused:
   * the aligned values stay far below 64 bits and the sum below 2^52.
   */
  lemma PlusBounded(o: Order, f: PEdge, g: PEdge, bound: nat)
    requires Ctx(o) && Wf(o, f) && Wf(o, g) && f.v.Leaf? && g.v.Leaf?
    requires bound == Pow2(51)
    requires -(bound as int) < LeafVal(f) < bound && -(bound as int) < LeafVal(g) < bound
    ensures Plus(o, f, g).Some?
  {
    PlusLeaves(o, f, g);
    BoundedOperands(f, g, bound);
  }

  /** Two constants below 2^51 in magnitude neither overflow in plus nor give a refused sum. */
  lemma BoundedOperands(f: PEdge, g: PEdge, bound: nat)
    requires f.v.Leaf? && g.v.Leaf? && f.v.c >= 0 && g.v.c >= 0 && bound == Pow2(51)
    requires -(bound as int) < LeafVal(f) < bound && -(bound as int) < LeafVal(g) < bound
    ensures !PlusOverflow(f, g) && Constant(LeafVal(f) + LeafVal(g)).Some?
  {
    Pow2Add(51, 1);
    ConstantSmall(LeafVal(f) + LeafVal(g), Pow2(52));
    if ConstOperands(f, g) {
      LeafMagnitude(f);
      LeafMagnitude(g);
      if f.w.e > g.w.e {
        NoShiftOverflow(g, f, bound);
      } else {
        NoShiftOverflow(f, g, bound);
      }
    }
  }

  lemma NoShiftOverflow(f: PEdge, g: PEdge, bound: nat)
    requires ConstOperands(f, g) && f.w.e <= g.w.e && bound == Pow2(51)
    requires Pow2(f.w.e) * f.v.c < bound && Pow2(g.w.e) * g.v.c < bound
    ensures !ShiftOverflow(f, g)
  {
    var shift: nat := g.w.e - f.w.e;
    WidthBelow(g.w.e, g.v.c, 51);
    var gs := Shl(g.v.c, shift);
    ShiftBelow(g.v.c, shift, g.w.e, bound);
    ShiftBelow(f.v.c, 0, f.w.e, bound);
    assert f.v.c * Pow2(0) == f.v.c;
    Pow2Mono(52, 64);
    Pow2Add(51, 1);
    Pow2Limits();
    assert f.v.c + gs < Pow2(52);
  }

  /** A value shifted by fewer bits than a bounded multiple stays below the bound. */
  lemma ShiftBelow(c: nat, s: nat, e: nat, bound: nat)
    requires s <= e && Pow2(e) * c < bound
    ensures Shl(c, s) < bound
  {
    Pow2Mono(s, e);
    MulLe(c, Pow2(s), Pow2(e));
    assert c * Pow2(e) == Pow2(e) * c;
  }

  /** The constant 1 for true and 0 for false. */
  function BoolEdge(b: bool): (r: PEdge)
    ensures r == if b then Consts[1] else Consts[0]
  {
    if b then One else Zero
  }

  /** The constants 1 and 2 are not refused, and 1 + 1 is 2. */
  lemma SmallConstants(o: Order)
    requires Ctx(o)
    ensures Constant(1) == O.Some(One) && Constant(2) == O.Some(Consts[2])
    ensures Plus(o, One, One) == O.Some(Consts[2])
  {
    ConstsWf(o);
    assert FactorizePow2(1) == (0, 1);
    FactorizeDouble(1);
    assert BitWidth(1) == 1;
    assert Shl(1, 0) == 1;
    PlusLeaves(o, One, One);
    var p := Plus(o, One, One);
    LeafCanonical(o, p.value, Consts[2]);
  }

  /** mul on the constants 0 and 1 is never refused and computes AND. */
  lemma MulBool(o: Order, hash: Node<W, int> -> nat, a: bool, b: bool)
    requires Ctx(o)
    ensures Mul(o, hash, BoolEdge(a), BoolEdge(b)) == O.Some(BoolEdge(a && b))
  {
    ConstsWf(o);
    var f, g := BoolEdge(a), BoolEdge(b);
    MulLeaves(o, hash, f, g);
    LeafCanonical(o, Mul(o, hash, f, g).value, BoolEdge(a && b));
  }

  /** complement on the constants 0 and 1 is never refused and computes NOT. */
  lemma ComplementBool(o: Order, hash: Node<W, int> -> nat, a: bool)
    requires Ctx(o)
    ensures Complement(o, hash, BoolEdge(a)) == O.Some(BoolEdge(!a))
  {
    ConstsWf(o);
    var f := BoolEdge(a);
    ComplementLeaf(o, hash, f);
    LeafCanonical(o, Complement(o, hash, f).value, BoolEdge(!a));
  }

  /** 2 - 1 is 1. */
  lemma TwoMinusOne(o: Order, hash: Node<W, int> -> nat)
    requires Ctx(o)
    ensures Sub(o, hash, Consts[2], One) == O.Some(One)
  {
    ConstsWf(o);
    SmallConstants(o);
    SubLeaves(o, hash, Consts[2], One);
    assert BitWidth(1) == 1;
    LeafCanonical(o, Sub(o, hash, Consts[2], One).value, One);
  }

  /** disj on the constants 0 and 1 is never refused and computes OR. */
  lemma DisjBool(o: Order, hash: Node<W, int> -> nat, a: bool, b: bool)
    requires Ctx(o)
    ensures Disj(o, hash, BoolEdge(a), BoolEdge(b)) == O.Some(BoolEdge(a || b))
  {
    if a && b {
      SmallConstants(o);
      MulBool(o, hash, true, true);
      TwoMinusOne(o, hash);
    }
  }

  /** antiv on the constants 0 and 1 is never refused and computes XOR. */
  lemma AntivBool(o: Order, hash: Node<W, int> -> nat, a: bool, b: bool)
    requires Ctx(o)
    ensures Antiv(o, hash, BoolEdge(a), BoolEdge(b)) == O.Some(BoolEdge(a != b))
  {
    ConstsWf(o);
    var f, g := BoolEdge(a), BoolEdge(b);
    MulBool(o, hash, a, b);
    var m := BoolEdge(a && b);
    MulLeaves(o, hash, Consts[2], m);
    var m2 := Mul(o, hash, Consts[2], m).value;
    var two := Consts[2];
    LeafCanonical(o, m2, if a && b then two else Zero);
    PlusLeaves(o, f, g);
    if a && b {
      SmallConstants(o);
      SubLeaves(o, hash, two, two);
      LeafCanonical(o, Sub(o, hash, two, two).value, Zero);
    } else {
      var p := Plus(o, f, g).value;
      LeafCanonical(o, p, BoolEdge(a != b));
      SubLeaves(o, hash, p, Zero);
      LeafCanonical(o, Sub(o, hash, p, Zero).value, BoolEdge(a != b));
    }
  }

  /** The sum of 2^i times the value of fs[i]: fs[0] is the least significant bit. */
  function WSum(o: Order, fs: seq<PEdge>, asg: seq<bool>): int
    requires |asg| == o.Count() && forall i :: 0 <= i < |fs| ==> Wf(o, fs[i])
  {
    if |fs| == 0 then 0
    else WSum(o, fs[..|fs| - 1], asg) + Pow2(|fs| - 1) * Sem(o, fs[|fs| - 1], asg)
  }

  /**
   * weighted_sum: starting from 0, adds 2^i fs[i] for i from the least to
   * the most significant position; refused when one of the additions is.
   */
  method WeightedSum(o: Order, hash: Node<W, int> -> nat, fs: seq<PEdge>) returns (r: O.Option<PEdge>)
    requires Ctx(o) && forall i :: 0 <= i < |fs| ==> Wf(o, fs[i])
    ensures r.Some? ==> Wf(o, r.value)
    ensures r.Some? ==> forall asg :: |asg| == o.Count() ==> Sem(o, r.value, asg) == WSum(o, fs, asg)
  {
    var res := Zero;
    var i := 0;
    while i < |fs|
      invariant 0 <= i <= |fs| && Wf(o, res)
      invariant forall asg :: |asg| == o.Count() ==> Sem(o, res, asg) == WSum(o, fs[..i], asg)
    {
      var c := Edge(W(false, i), Leaf(1));
      MulUnit(o, hash, c.w, fs[i]);
      var m := Mul(o, hash, c, fs[i]).value;
      var p := Plus(o, res, m);
      if p.None? {
        return O.None;
      }
      forall asg | |asg| == o.Count()
        ensures Sem(o, p.value, asg) == WSum(o, fs[..i + 1], asg)
      {
        MulSem(o, hash, c, fs[i], asg);
        LeafEdgeSem(o, c.w, 1, asg);
        PlusSem(o, res, m, asg);
        assert fs[..i + 1][..i] == fs[..i];
      }
      res := p.value;
      i := i + 1;
    }
    assert fs[..i] == fs;
    return O.Some(res);
  }
}
