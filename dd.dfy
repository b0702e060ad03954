/**
 * The decision-diagram core every flavour shares: nodes labelled by a
 * variable index with a high and a low weighted edge, leaves holding a
 * constant, the variable order kept by the manager, and the meaning of a
 * diagram (its evaluation under an assignment).
 *
 * Hash-consed pointers are modelled by values: two edges are the same
 * pointer exactly when they are equal values.
 */
module Dd {

  /** Decomposition type of a variable: Shannon, positive or negative Davio. */
  datatype Expansion = S | PD | ND

  datatype Node<E, V> = Leaf(c: V) | Inner(x: nat, hi: Edge<E, V>, lo: Edge<E, V>)

  datatype Edge<E, V> = Edge(w: E, v: Node<E, V>)

  /**
   * What the recursive algorithms read from the manager: the decomposition
   * type of every variable (vl[x].t) and its level (var2lvl[x]).
   */
  datatype Order = Order(t: seq<Expansion>, var2lvl: seq<nat>)
  {
    function Count(): nat { |t| }

    /** var2lvl is a permutation of the levels 0..n-1. */
    ghost predicate Valid()
    {
      && |var2lvl| == |t|
      && (forall x :: 0 <= x < |t| ==> var2lvl[x] < |t|)
      && (forall x, y :: 0 <= x < |t| && 0 <= y < |t| && x != y ==> var2lvl[x] != var2lvl[y])
    }

    /** Every variable uses the Shannon decomposition. */
    ghost predicate AllShannon()
    {
      forall x :: 0 <= x < |t| ==> t[x] == S
    }
  }

  /** Number of inner nodes of the diagram unfolded into a tree. */
  function Size<E, V>(e: Edge<E, V>): nat
  {
    match e.v
    case Leaf(_) => 0
    case Inner(_, hi, lo) => 1 + Size(hi) + Size(lo)
  }

  /** Every label is a variable index below n. */
  predicate Bounded<E, V>(e: Edge<E, V>, n: nat)
  {
    NodeBounded(e.v, n)
  }

  predicate NodeBounded<E, V>(v: Node<E, V>, n: nat)
  {
    match v
    case Leaf(_) => true
    case Inner(x, hi, lo) => x < n && NodeBounded(hi.v, n) && NodeBounded(lo.v, n)
  }

  /** Level of the top variable of e; a constant lies below every level. */
  function Lvl<E, V>(o: Order, e: Edge<E, V>): nat
  {
    if e.v.Inner? && e.v.x < |o.var2lvl| then o.var2lvl[e.v.x] else |o.var2lvl|
  }

  /** Children are labelled strictly deeper in the order than their parent. */
  ghost predicate Ordered<E, V>(o: Order, e: Edge<E, V>)
  {
    match e.v
    case Leaf(_) => true
    case Inner(x, hi, lo) =>
      && x < o.Count() && x < |o.var2lvl|
      && Lvl(o, e) < Lvl(o, hi) && Lvl(o, e) < Lvl(o, lo)
      && Ordered(o, hi) && Ordered(o, lo)
  }

  /** x labels some inner node of e. */
  predicate Occurs<E, V>(e: Edge<E, V>, x: nat)
  {
    match e.v
    case Leaf(_) => false
    case Inner(y, hi, lo) => y == x || Occurs(hi, x) || Occurs(lo, x)
  }

  /**
   * Evaluation of a diagram under an assignment with one truth value per
   * variable: the root weight aggregated with the value of its node.
   */
  function Eval<E, V>(o: Order, e: Edge<E, V>, asg: seq<bool>, agg: (E, V) -> V, merge: (V, V) -> V): V
    requires |asg| == o.Count() && Bounded(e, |asg|)
    decreases e, 1
  {
    agg(e.w, EvalNode(o, e.v, asg, agg, merge))
  }

  /**
   * Value of a node: a leaf's constant; at a Shannon node the child
   * the variable selects; at a positive-Davio node merge(hi, lo) when the
   * variable is true and lo otherwise; negative Davio the other way round.
   */
  function EvalNode<E, V>(o: Order, v: Node<E, V>, asg: seq<bool>, agg: (E, V) -> V, merge: (V, V) -> V): V
    requires |asg| == o.Count() && NodeBounded(v, |asg|)
    decreases v, 0
  {
    match v
    case Leaf(c) => c
    case Inner(x, hi, lo) =>
      match o.t[x]
      case S => if asg[x] then Eval(o, hi, asg, agg, merge) else Eval(o, lo, asg, agg, merge)
      case PD => if asg[x] then merge(Eval(o, hi, asg, agg, merge), Eval(o, lo, asg, agg, merge)) else Eval(o, lo, asg, agg, merge)
      case ND => if !asg[x] then merge(Eval(o, hi, asg, agg, merge), Eval(o, lo, asg, agg, merge)) else Eval(o, lo, asg, agg, merge)
  }

  /** The default apply: combine a weight into the incoming edge of f. */
  function Apply<E, V>(comb: (E, E) -> E, w: E, f: Edge<E, V>): Edge<E, V>
  {
    Edge(comb(w, f.w), f.v)
  }

  /** Aggregating a combined weight equals aggregating the two weights in turn. */
  ghost predicate AggHom<E(!new), V(!new)>(agg: (E, V) -> V, comb: (E, E) -> E)
  {
    forall w1, w2, c :: agg(comb(w1, w2), c) == agg(w1, agg(w2, c))
  }

  /** A weight on a Davio node may move onto its low operand. */
  ghost predicate AggShifts<E(!new), V(!new)>(agg: (E, V) -> V, merge: (V, V) -> V)
  {
    forall w, a, b :: agg(w, merge(a, b)) == merge(a, agg(w, b))
  }

  // -------------------------------------------------------------------------
  // Variables in the order

  /** The top variable of f and g is the one on the smaller level. */
  function TopVar<E, V>(o: Order, f: Edge<E, V>, g: Edge<E, V>): (x: nat)
    requires f.v.Inner? || g.v.Inner?
    ensures (f.v.Inner? && x == f.v.x) || (g.v.Inner? && x == g.v.x)
    ensures f.v.Inner? && g.v.Inner? && f.v.x < |o.var2lvl| && g.v.x < |o.var2lvl| ==>
              o.var2lvl[x] == if o.var2lvl[f.v.x] <= o.var2lvl[g.v.x] then o.var2lvl[f.v.x] else o.var2lvl[g.v.x]
    ensures f.v.Leaf? ==> x == g.v.x
    ensures g.v.Leaf? ==> x == f.v.x
  {
    if f.v.Leaf? then g.v.x
    else if g.v.Leaf? then f.v.x
    else if Lvl(o, f) <= Lvl(o, g) then f.v.x
    else g.v.x
  }

  /**
   * x is essential for f: false at a constant and whenever the top variable
   * of f lies below x; otherwise x is the top variable or essential in a
   * child. On an ordered diagram this is exactly "x occurs in f".
   */
  function IsEssential<E, V>(o: Order, f: Edge<E, V>, x: nat): (r: bool)
    requires o.Valid() && x < o.Count()
    ensures Ordered(o, f) ==> (r <==> Occurs(f, x))
  {
    match f.v
    case Leaf(_) => false
    case Inner(y, hi, lo) =>
      if Lvl(o, f) > o.var2lvl[x] then
        (OccursBelow(o, f, x); false)
      else y == x || IsEssential(o, hi, x) || IsEssential(o, lo, x)
  }

  /** Every variable of an ordered diagram lies on the top level or below. */
  lemma {:induction false} OccursLevel<E, V>(o: Order, e: Edge<E, V>, y: nat)
    requires o.Valid() && Ordered(o, e) && Occurs(e, y)
    ensures y < o.Count() && Lvl(o, e) <= o.var2lvl[y]
  {
    match e.v
    case Inner(z, hi, lo) =>
      if z != y {
        if Occurs(hi, y) {
          OccursLevel(o, hi, y);
        } else {
          OccursLevel(o, lo, y);
        }
      }
  }

  lemma OccursBelow<E, V>(o: Order, f: Edge<E, V>, x: nat)
    requires o.Valid() && x < o.Count() && Lvl(o, f) > o.var2lvl[x]
    ensures Ordered(o, f) ==> !Occurs(f, x)
  {
    if Ordered(o, f) && Occurs(f, x) {
      OccursLevel(o, f, x);
    }
  }

  /** A variable that does not occur in f does not influence its value. */
  lemma {:induction false} EvalIndependent<E, V>(o: Order, f: Edge<E, V>, asg: seq<bool>, x: nat, a: bool,
                                                 agg: (E, V) -> V, merge: (V, V) -> V)
    requires |asg| == o.Count() && Bounded(f, |asg|) && x < |asg| && !Occurs(f, x)
    ensures Eval(o, f, asg[x := a], agg, merge) == Eval(o, f, asg, agg, merge)
  {
    match f.v
    case Leaf(_) =>
    case Inner(y, hi, lo) =>
      EvalIndependent(o, hi, asg, x, a, agg, merge);
      EvalIndependent(o, lo, asg, x, a, agg, merge);
  }

  // -------------------------------------------------------------------------
  // Cofactors

  /**
   * Cofactor of f with respect to x (manager version). Shannon: f itself
   * when f does not test x, else the weighted child. Davio: the true
   * cofactor of an f that does not test x is the constant zero, the false
   * cofactor f; at x the unweighted high child and the weighted low child.
   */
  function Cof<E, V>(o: Order, f: Edge<E, V>, x: nat, a: bool, comb: (E, E) -> E, zero: Edge<E, V>): (r: Edge<E, V>)
    requires x < o.Count()
    ensures zero.v.Leaf? ==> Size(r) <= Size(f)
    ensures f.v.Inner? && f.v.x == x ==> Size(r) < Size(f)
    ensures !(f.v.Inner? && f.v.x == x) ==> r == (if o.t[x] != S && a then zero else f)
  {
    if f.v.Leaf? || f.v.x != x then
      (if o.t[x] == S || !a then f else zero)
    else if o.t[x] == S then
      (if a then Apply(comb, f.w, f.v.hi) else Apply(comb, f.w, f.v.lo))
    else
      (if a then f.v.hi else Apply(comb, f.w, f.v.lo))
  }

  /** At a Shannon variable the cofactor agrees with f wherever x has value a. */
  lemma CofShannon<E(!new), V(!new)>(o: Order, f: Edge<E, V>, x: nat, a: bool, comb: (E, E) -> E, zero: Edge<E, V>,
                         asg: seq<bool>, agg: (E, V) -> V, merge: (V, V) -> V)
    requires x < o.Count() && o.t[x] == S && |asg| == o.Count() && Bounded(f, |asg|)
    requires AggHom(agg, comb) && asg[x] == a
    ensures Bounded(Cof(o, f, x, a, comb, zero), |asg|)
    ensures Eval(o, Cof(o, f, x, a, comb, zero), asg, agg, merge) == Eval(o, f, asg, agg, merge)
  {
    if f.v.Inner? && f.v.x == x {
      var c := if a then f.v.hi else f.v.lo;
      assert Eval(o, Apply(comb, f.w, c), asg, agg, merge) == agg(f.w, Eval(o, c, asg, agg, merge));
    }
  }

  /**
   * At a Davio variable f is recovered from its cofactors: merge(true
   * cofactor, false cofactor) where the variable switches the high part on,
   * the false cofactor elsewhere.
   */
  lemma CofDavio<E(!new), V(!new)>(o: Order, f: Edge<E, V>, x: nat, comb: (E, E) -> E, zero: Edge<E, V>,
                       asg: seq<bool>, agg: (E, V) -> V, merge: (V, V) -> V)
    requires x < o.Count() && o.t[x] != S && |asg| == o.Count() && Bounded(f, |asg|) && Bounded(zero, |asg|)
    requires AggHom(agg, comb) && AggShifts(agg, merge)
    requires forall c :: merge(Eval(o, zero, asg, agg, merge), c) == c
    ensures Bounded(Cof(o, f, x, true, comb, zero), |asg|) && Bounded(Cof(o, f, x, false, comb, zero), |asg|)
    ensures
      var c1 := Eval(o, Cof(o, f, x, true, comb, zero), asg, agg, merge);
      var c0 := Eval(o, Cof(o, f, x, false, comb, zero), asg, agg, merge);
      Eval(o, f, asg, agg, merge) == if asg[x] == (o.t[x] == PD) then merge(c1, c0) else c0
  {
    var c0 := Eval(o, Cof(o, f, x, false, comb, zero), asg, agg, merge);
    if f.v.Inner? && f.v.x == x {
      var hi, lo := f.v.hi, f.v.lo;
      assert c0 == agg(f.w, Eval(o, lo, asg, agg, merge));
    } else {
      assert Eval(o, zero, asg, agg, merge) == Eval(o, Cof(o, f, x, true, comb, zero), asg, agg, merge);
    }
  }

  // -------------------------------------------------------------------------
  // Traversals

  /** Number of root-to-leaf paths (DFS without sharing). */
  function PathCount<E, V>(f: Edge<E, V>): (r: nat)
    ensures r >= 1
    ensures r <= Size(f) + 1
  {
    match f.v
    case Leaf(_) => 1
    case Inner(_, hi, lo) => PathCount(hi) + PathCount(lo)
  }

  /** p leads from the root of f to a leaf, true taking the high edge and false the low one. */
  ghost predicate LeafPath<E, V>(f: Edge<E, V>, p: seq<bool>)
    decreases |p|
  {
    if |p| == 0 then f.v.Leaf?
    else f.v.Inner? && LeafPath(if p[0] then f.v.hi else f.v.lo, p[1..])
  }

  /** Each path of ps with the choice b in front. */
  ghost function Prefixed(b: bool, ps: seq<seq<bool>>): (r: seq<seq<bool>>)
    ensures |r| == |ps| && forall i :: 0 <= i < |ps| ==> r[i] == [b] + ps[i]
  {
    if ps == [] then [] else [[b] + ps[0]] + Prefixed(b, ps[1..])
  }

  /** The root-to-leaf paths of f, high paths first. */
  ghost function Paths<E, V>(f: Edge<E, V>): seq<seq<bool>>
  {
    match f.v
    case Leaf(_) => [[]]
    case Inner(_, hi, lo) => Prefixed(true, Paths(hi)) + Prefixed(false, Paths(lo))
  }

  lemma PrefixedIn(b: bool, ps: seq<seq<bool>>, p: seq<bool>)
    ensures p in Prefixed(b, ps) <==> |p| > 0 && p[0] == b && p[1..] in ps
  {
    var r := Prefixed(b, ps);
    if p in r {
      var i :| 0 <= i < |r| && r[i] == p;
      assert p[1..] == ps[i];
    }
    if |p| > 0 && p[0] == b && p[1..] in ps {
      var i :| 0 <= i < |ps| && ps[i] == p[1..];
      assert r[i] == p;
    }
  }

  /** path_count is the number of root-to-leaf paths that Paths lists. */
  lemma {:induction false} PathCountPaths<E, V>(f: Edge<E, V>)
    ensures PathCount(f) == |Paths(f)|
  {
    match f.v
    case Leaf(_) =>
    case Inner(_, hi, lo) =>
      PathCountPaths(hi);
      PathCountPaths(lo);
  }

  /** Paths lists exactly the paths from the root that reach a leaf. */
  lemma {:induction false} PathsExact<E, V>(f: Edge<E, V>, p: seq<bool>)
    ensures p in Paths(f) <==> LeafPath(f, p)
    decreases |p|
  {
    match f.v
    case Leaf(_) =>
    case Inner(_, hi, lo) =>
      PrefixedIn(true, Paths(hi), p);
      PrefixedIn(false, Paths(lo), p);
      if |p| > 0 {
        PathsExact(if p[0] then hi else lo, p[1..]);
      }
  }

  /** No path is listed twice. */
  lemma {:induction false} PathsDistinct<E, V>(f: Edge<E, V>)
    ensures forall i, j :: 0 <= i < j < |Paths(f)| ==> Paths(f)[i] != Paths(f)[j]
  {
    match f.v
    case Leaf(_) =>
    case Inner(_, hi, lo) =>
      PathsDistinct(hi);
      PathsDistinct(lo);
      var H, L := Prefixed(true, Paths(hi)), Prefixed(false, Paths(lo));
      var ps := H + L;
      assert Paths(f) == ps;
      forall i, j | 0 <= i < j < |ps|
        ensures ps[i] != ps[j]
      {
        if j < |H| {
          assert ps[i][1..] == Paths(hi)[i] && ps[j][1..] == Paths(hi)[j];
        } else if i >= |H| {
          assert ps[i][1..] == Paths(lo)[i - |H|] && ps[j][1..] == Paths(lo)[j - |H|];
        } else {
          assert ps[i][0] != ps[j][0];
        }
      }
  }

  function Max(a: int, b: int): int { if a < b then b else a }

  /** Number of edges on a longest path, counting the root edge. */
  function LongestPathRec<E, V>(f: Edge<E, V>): (r: nat)
    ensures r >= 1
    ensures r <= Size(f) + 1
  {
    match f.v
    case Leaf(_) => 1
    case Inner(_, hi, lo) => Max(LongestPathRec(hi), LongestPathRec(lo)) + 1
  }

  /** The longest path bounds every root-to-leaf path, the root edge included. */
  lemma {:induction false} LongestPathBounds<E, V>(f: Edge<E, V>, p: seq<bool>)
    requires LeafPath(f, p)
    ensures |p| + 1 <= LongestPathRec(f)
    decreases |p|
  {
    if |p| > 0 {
      LongestPathBounds(if p[0] then f.v.hi else f.v.lo, p[1..]);
    }
  }

  /** Some root-to-leaf path attains the longest path. */
  lemma {:induction false} LongestPathAttained<E, V>(f: Edge<E, V>)
    ensures exists p :: LeafPath(f, p) && |p| + 1 == LongestPathRec(f)
  {
    match f.v
    case Leaf(_) =>
      assert LeafPath(f, []);
    case Inner(_, hi, lo) =>
      var b := LongestPathRec(hi) >= LongestPathRec(lo);
      var g := if b then hi else lo;
      LongestPathAttained(g);
      var q :| LeafPath(g, q) && |q| + 1 == LongestPathRec(g);
      var p := [b] + q;
      assert p[1..] == q;
      assert LeafPath(f, p);
  }

  /** Depth of a shared diagram: the longest path over all roots, without the root edge. */
  function LongestPath<E, V>(fs: seq<Edge<E, V>>): (r: nat)
    requires |fs| > 0
    ensures forall i :: 0 <= i < |fs| ==> LongestPathRec(fs[i]) <= r + 1
    ensures exists i :: 0 <= i < |fs| && LongestPathRec(fs[i]) == r + 1
  {
    if |fs| == 1 then LongestPathRec(fs[0]) - 1
    else
      var rest := LongestPath(fs[1..]);
      assert forall i :: 1 <= i < |fs| ==> fs[i] == fs[1..][i - 1];
      if LongestPathRec(fs[0]) - 1 <= rest then rest else LongestPathRec(fs[0]) - 1
  }

  /** Some leaf of f holds the constant c (the edge weights are not applied). */
  function HasConst<E, V(==)>(f: Edge<E, V>, c: V): (r: bool)
    ensures r <==> c in Leaves(f)
  {
    match f.v
    case Leaf(d) => d == c
    case Inner(_, hi, lo) => HasConst(hi, c) || HasConst(lo, c)
  }

  ghost function Leaves<E, V>(f: Edge<E, V>): set<V>
  {
    match f.v
    case Leaf(d) => {d}
    case Inner(_, hi, lo) => Leaves(hi) + Leaves(lo)
  }

  // -------------------------------------------------------------------------
  // Node counting with a visited set

  /** The nodes reachable from v, including v. */
  ghost function Desc<E, V>(v: Node<E, V>): set<Node<E, V>>
  {
    match v
    case Leaf(_) => {v}
    case Inner(_, hi, lo) => {v} + Desc(hi.v) + Desc(lo.v)
  }

  function NSize<E, V>(v: Node<E, V>): nat
  {
    match v
    case Leaf(_) => 0
    case Inner(_, hi, lo) => 1 + NSize(hi.v) + NSize(lo.v)
  }

  lemma {:induction false} DescSmaller<E, V>(v: Node<E, V>, u: Node<E, V>)
    requires u in Desc(v)
    ensures NSize(u) <= NSize(v)
    ensures u != v ==> NSize(u) < NSize(v)
  {
    match v
    case Leaf(_) =>
    case Inner(_, hi, lo) =>
      if u != v {
        if u in Desc(hi.v) { DescSmaller(hi.v, u); } else { DescSmaller(lo.v, u); }
      }
  }

  lemma {:induction false} DescTransitive<E, V>(v: Node<E, V>, u: Node<E, V>)
    requires u in Desc(v)
    ensures Desc(u) <= Desc(v)
  {
    match v
    case Leaf(_) =>
    case Inner(_, hi, lo) =>
      if u != v {
        if u in Desc(hi.v) { DescTransitive(hi.v, u); } else { DescTransitive(lo.v, u); }
      }
  }

  /**
   * Every marked node either has all its descendants marked, or is a proper
   * ancestor of v (marked on the way down to v).
   */
  ghost predicate MarksReady<E, V>(marks: set<Node<E, V>>, v: Node<E, V>)
  {
    forall u :: u in marks ==> Desc(u) <= marks || (v in Desc(u) && u != v)
  }

  /**
   * Marks every node reachable from f that is not yet marked, stopping at
   * nodes already visited.
   */
  method NodeCountRec<E(==), V(==)>(f: Edge<E, V>, marks: set<Node<E, V>>) returns (marks': set<Node<E, V>>)
    requires MarksReady(marks, f.v)
    ensures marks' == marks + Desc(f.v)
    decreases NSize(f.v)
  {
    if f.v in marks {
      return marks;
    }
    marks' := marks + {f.v};
    if f.v.Inner? {
      var hi, lo := f.v.hi, f.v.lo;
      ReadyForChild(marks, f.v, hi.v);
      marks' := NodeCountRec(hi, marks');
      ReadyAfterSibling(marks, f.v, hi.v, lo.v);
      marks' := NodeCountRec(lo, marks');
    }
  }

  lemma ReadyForChild<E, V>(marks: set<Node<E, V>>, v: Node<E, V>, c: Node<E, V>)
    requires MarksReady(marks, v) && v !in marks && v.Inner? && (c == v.hi.v || c == v.lo.v)
    ensures MarksReady(marks + {v}, c)
  {
    assert c in Desc(v) && c != v by { DescSmaller(v, c); }
    forall u | u in marks + {v} && !(Desc(u) <= marks + {v})
      ensures c in Desc(u) && u != c
    {
      if u != v {
        assert v in Desc(u) && u != v;
        DescTransitive(u, v);
        DescSmaller(u, v);
        DescSmaller(v, c);
      }
    }
  }

  lemma ReadyAfterSibling<E, V>(marks: set<Node<E, V>>, v: Node<E, V>, h: Node<E, V>, l: Node<E, V>)
    requires MarksReady(marks, v) && v !in marks && v.Inner? && h == v.hi.v && l == v.lo.v
    ensures MarksReady(marks + {v} + Desc(h), l)
  {
    var m := marks + {v} + Desc(h);
    assert l in Desc(v) && l != v by { DescSmaller(v, l); }
    forall u | u in m && !(Desc(u) <= m)
      ensures l in Desc(u) && u != l
    {
      if u in Desc(h) {
        DescTransitive(h, u);
        assert false;
      } else if u != v {
        assert v in Desc(u) && u != v;
        DescTransitive(u, v);
        DescSmaller(u, v);
        DescSmaller(v, l);
      }
    }
  }

  /** All nodes reachable from the roots fs, the leaves included. */
  ghost function Reach<E, V>(fs: seq<Edge<E, V>>): set<Node<E, V>>
  {
    if |fs| == 0 then {} else Reach(fs[..|fs| - 1]) + Desc(fs[|fs| - 1].v)
  }

  /** Number of distinct nodes (leaves included) shared by the diagrams fs. */
  method NodeCount<E(==), V(==)>(fs: seq<Edge<E, V>>) returns (r: nat)
    ensures r == |Reach(fs)|
  {
    var marks: set<Node<E, V>> := {};
    for i := 0 to |fs|
      invariant marks == Reach(fs[..i])
      invariant forall u :: u in marks ==> Desc(u) <= marks
    {
      assert fs[..i + 1][..i] == fs[..i];
      ClosedIsReady(marks, fs[i].v);
      marks := NodeCountRec(fs[i], marks);
      forall u | u in marks ensures Desc(u) <= marks {
        if u in Desc(fs[i].v) { DescTransitive(fs[i].v, u); }
      }
    }
    assert fs[..|fs|] == fs;
    return |marks|;
  }

  lemma ClosedIsReady<E, V>(marks: set<Node<E, V>>, v: Node<E, V>)
    requires forall u :: u in marks ==> Desc(u) <= marks
    ensures MarksReady(marks, v)
  {
  }
}
