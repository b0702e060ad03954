/**
 * The value types of the eddy prototype: weighted edges whose node pointer
 * may be null (a constant), nodes holding a variable index and two edge
 * pointers, and variables holding a decomposition type and a label. Node
 * and edge pointers are abstract identities; hashes of the fields are
 * parameters, combined with XOR as the source does.
 */
module EddyVariable {
  import opened Objects
  import K = Keys

  /** eddy knows only the positive Davio and the Shannon decomposition. */
  datatype Decomposition = PD | S

  /** An edge: an integer weight and a node pointer, null for a constant. */
  datatype EdgeVal = EdgeVal(w: int, v: Ptr)

  /** A node: variable index, high and low edge pointers, and a visit marker. */
  datatype NodeVal = NodeVal(x: int, hi: Ptr, lo: Ptr, m: bool)

  /** The hashes of the fields: std::hash of an integer and of a pointer. */
  datatype FieldHashes = FieldHashes(int_: int -> nat, ptr: Ptr -> nat)

  function MakeEdge(w: int, v: Ptr): (e: EdgeVal)
    ensures e.w == w && e.v == v
    ensures IsConstant(e) <==> v == Null
  {
    EdgeVal(w, v)
  }

  /** An edge without a node stands for a constant. */
  predicate IsConstant(e: EdgeVal) { e.v == Null }

  predicate EdgeEq(l: EdgeVal, r: EdgeVal) { l.w == r.w && l.v == r.v }

  function EdgeHash(hs: FieldHashes, e: EdgeVal): nat
  {
    K.Xor(hs.int_(e.w), hs.ptr(e.v))
  }

  /** Edge equality is the equality of the pair (weight, node pointer), and equal edges hash equally. */
  lemma EdgeEqHash(hs: FieldHashes, l: EdgeVal, r: EdgeVal)
    ensures EdgeEq(l, r) <==> l == r
    ensures EdgeEq(l, r) ==> EdgeHash(hs, l) == EdgeHash(hs, r)
  {
  }

  /** The node constructor: a non-negative index and two non-null children; the marker starts unset. */
  function MakeNode(x: int, hi: Ptr, lo: Ptr): (v: NodeVal)
    requires x >= 0 && hi != Null && lo != Null
    ensures v.x == x && v.hi == hi && v.lo == lo && !v.m
  {
    NodeVal(x, hi, lo, false)
  }

  /** Nodes are compared on (x, hi, lo); the visit marker plays no part. */
  predicate NodeEq(l: NodeVal, r: NodeVal) { l.x == r.x && l.hi == r.hi && l.lo == r.lo }

  function NodeHash(hs: FieldHashes, v: NodeVal): nat
  {
    K.Xor(K.Xor(hs.int_(v.x), hs.ptr(v.hi)), hs.ptr(v.lo))
  }

  /**
   * The node hash reads only x, hi and lo, so equal nodes hash equally even
   * when one has been visited; being an XOR, it does not tell the children
   * apart, so a node and its mirror image share a bucket.
   */
  lemma NodeHashConsistent(hs: FieldHashes, l: NodeVal, r: NodeVal)
    ensures NodeEq(l, r) <==> (l.x, l.hi, l.lo) == (r.x, r.hi, r.lo)
    ensures NodeEq(l, r) ==> NodeHash(hs, l) == NodeHash(hs, r)
    ensures NodeHash(hs, l) == NodeHash(hs, NodeVal(l.x, l.lo, l.hi, !l.m))
  {
    var a, b, c := hs.int_(l.x), hs.ptr(l.hi), hs.ptr(l.lo);
    calc {
      K.Xor(K.Xor(a, b), c);
      { K.XorAssoc(a, b, c); }
      K.Xor(a, K.Xor(b, c));
      { K.XorComm(b, c); }
      K.Xor(a, K.Xor(c, b));
      { K.XorAssoc(a, c, b); }
      K.Xor(K.Xor(a, c), b);
    }
  }

  /** A variable: its decomposition type and its non-empty label. */
  datatype Variable = Variable(t: Decomposition, l: string)

  function MakeVariable(t: Decomposition, l: string): (var_: Variable)
    requires |l| > 0
    ensures var_.t == t && var_.l == l && |var_.l| > 0
  {
    Variable(t, l)
  }
}
