/**
 * What the multi-terminal flavours (ADD, MTBDD, BRUH) share: every variable
 * uses the Shannon decomposition, every stored edge is regular (weight
 * false), leaves hold integers, and no stored node has two equal children.
 * The value of such a diagram under an assignment is the constant of the
 * leaf the assignment's path reaches; each flavour then reads that constant
 * through its own agg.
 */
module Mtdd {
  import opened Dd

  type TEdge = Edge<bool, int>

  /** The constant c: a regular edge into the leaf c. */
  function Const(c: int): TEdge { Edge(false, Leaf(c)) }

  /** The manager state the operators rely on: every variable is Shannon. */
  ghost predicate Ctx(o: Order) { forall x :: 0 <= x < o.Count() ==> o.t[x] == S }

  /** Every edge is regular and no node has equal children. */
  predicate Canon(f: TEdge)
  {
    && !f.w
    && match f.v
       case Leaf(_) => true
       case Inner(_, hi, lo) => hi != lo && Canon(hi) && Canon(lo)
  }

  /** Stored diagrams: labels are variables of the manager and the edges are canonical. */
  ghost predicate Wf(o: Order, f: TEdge)
  {
    Bounded(f, o.Count()) && Canon(f)
  }

  /** The constant of the leaf that the path selected by asg reaches. */
  function Value(o: Order, f: TEdge, asg: seq<bool>): int
    requires |asg| == o.Count() && Bounded(f, |asg|)
  {
    match f.v
    case Leaf(c) => c
    case Inner(x, hi, lo) => if asg[x] then Value(o, hi, asg) else Value(o, lo, asg)
  }

  /**
   * Evaluation with the manager's eval: under an all-Shannon order and
   * regular edges, eval is agg(false, ·) of the leaf the path reaches,
   * provided applying agg(false, ·) twice is applying it once.
   */
  lemma {:induction false} EvalValue(o: Order, f: TEdge, asg: seq<bool>, agg: (bool, int) -> int, merge: (int, int) -> int)
    requires Ctx(o) && Wf(o, f) && |asg| == o.Count()
    requires forall c :: agg(false, agg(false, c)) == agg(false, c)
    ensures Eval(o, f, asg, agg, merge) == agg(false, Value(o, f, asg))
  {
    match f.v
    case Leaf(c) =>
    case Inner(x, hi, lo) =>
      assert o.t[x] == S;
      EvalValue(o, hi, asg, agg, merge);
      EvalValue(o, lo, asg, agg, merge);
  }

  /**
   * Shannon cofactor: f itself when f does not test x, otherwise the child
   * the value a selects (with regular edges the weighted child is the child).
   */
  function Cofactor(o: Order, f: TEdge, x: nat, a: bool): (r: TEdge)
    requires x < o.Count()
    ensures Size(r) <= Size(f)
    ensures f.v.Inner? && f.v.x == x ==> Size(r) < Size(f)
    ensures Wf(o, f) ==> Wf(o, r)
  {
    if f.v.Leaf? || f.v.x != x then f
    else if a then f.v.hi
    else f.v.lo
  }

  /** The cofactor at the value asg gives x agrees with f under asg. */
  lemma CofValue(o: Order, f: TEdge, x: nat, asg: seq<bool>)
    requires x < o.Count() && Wf(o, f) && |asg| == o.Count()
    ensures Value(o, Cofactor(o, f, x, asg[x]), asg) == Value(o, f, asg)
  {
  }

  /** No weights are combined in these flavours. */
  function NoComb(w1: bool, w2: bool): bool { false }

  /** On stored diagrams this cofactor is the manager's Shannon cofactor. */
  lemma CofIsManagerCof(o: Order, f: TEdge, x: nat, a: bool)
    requires Ctx(o) && x < o.Count() && Wf(o, f)
    ensures Cofactor(o, f, x, a) == Dd.Cof(o, f, x, a, NoComb, Const(0))
  {
    assert o.t[x] == S;
  }

  /** A node labelled x over hi and lo; hi itself when the two are equal. */
  function Branch(o: Order, x: nat, hi: TEdge, lo: TEdge): (r: TEdge)
    requires x < o.Count() && Wf(o, hi) && Wf(o, lo)
    ensures Wf(o, r)
    ensures hi == lo ==> r == hi
  {
    if hi == lo then hi else Edge(false, Inner(x, hi, lo))
  }

  /** branch selects hi where x holds and lo elsewhere. */
  lemma BranchValue(o: Order, x: nat, hi: TEdge, lo: TEdge, asg: seq<bool>)
    requires x < o.Count() && Wf(o, hi) && Wf(o, lo) && |asg| == o.Count()
    ensures Value(o, Branch(o, x, hi, lo), asg) == if asg[x] then Value(o, hi, asg) else Value(o, lo, asg)
  {
  }

  /** Every leaf constant of f satisfies P. */
  predicate AllLeaves(f: TEdge, P: int -> bool)
  {
    match f.v
    case Leaf(c) => P(c)
    case Inner(_, hi, lo) => AllLeaves(hi, P) && AllLeaves(lo, P)
  }

  /** The reached constant is one of the leaves, so it inherits what all leaves satisfy. */
  lemma {:induction false} ValueLeaf(o: Order, f: TEdge, asg: seq<bool>, P: int -> bool)
    requires |asg| == o.Count() && Bounded(f, |asg|) && AllLeaves(f, P)
    ensures P(Value(o, f, asg))
  {
    match f.v
    case Leaf(_) =>
    case Inner(x, hi, lo) =>
      if asg[x] {
        ValueLeaf(o, hi, asg, P);
      } else {
        ValueLeaf(o, lo, asg, P);
      }
  }

  /** The leaves of a cofactor are leaves of f. */
  lemma CofLeaves(o: Order, f: TEdge, x: nat, a: bool, P: int -> bool)
    requires x < o.Count() && AllLeaves(f, P)
    ensures AllLeaves(Cofactor(o, f, x, a), P)
  {
  }

  /** branch introduces no new leaf. */
  lemma BranchLeaves(o: Order, x: nat, hi: TEdge, lo: TEdge, P: int -> bool)
    requires x < o.Count() && Wf(o, hi) && Wf(o, lo) && AllLeaves(hi, P) && AllLeaves(lo, P)
    ensures AllLeaves(Branch(o, x, hi, lo), P)
  {
  }
}
