/**
 * The stored objects of the unique tables: nodes and weighted edges as the
 * manager keeps them, addressed by pointers, with the equality and hash the
 * tables use, and the string utility replace_all.
 *
 * A pointer is a natural number, 0 being the null pointer. Hash values are
 * 64-bit words; the hash of a weight, a constant or a pointer is a parameter,
 * since the model fixes no concrete hash function.
 */
module Objects {
  type Ptr = nat

  const Null: Ptr := 0

  datatype Option<T> = None | Some(value: T)

  /** Hash values are words of std::size_t, whose arithmetic wraps around at 2^64. */
  const Word: nat := 0x1_0000_0000_0000_0000

  /** w1 * p1 + w2 * p2 in word arithmetic: the multiplicative mixing of two hashes. */
  function Mix(w1: nat, p1: nat, w2: nat, p2: nat): (r: nat)
    ensures r < Word
  {
    (w1 * p1 + w2 * p2) % Word
  }

  /** The hash functions a table is instantiated with and its two multipliers. */
  datatype Hashing<!E, !V> = Hashing(ptr: Ptr -> nat, weight: E -> nat, value: V -> nat, p1: nat, p2: nat)

  // -------------------------------------------------------------------------
  // Nodes

  /** An inner node tests x and points to its children; a leaf holds a constant. */
  datatype Body<V> = InnerBody(x: nat, hi: Ptr, lo: Ptr) | LeafBody(c: V)

  /** A node together with its reference count (a 16-bit counter). */
  datatype NodeObj<V> = NodeObj(ref: nat, body: Body<V>)

  /** The inner-node constructor: both children must be set; the count starts at 0. */
  function MakeInner<V>(x: nat, hi: Ptr, lo: Ptr): (n: NodeObj<V>)
    requires hi != Null && lo != Null
    ensures !IsConst(n) && !n.body.LeafBody? && n.body.x == x && n.body.hi == hi && n.body.lo == lo
    ensures IsDead(n)
  {
    NodeObj(0, InnerBody(x, hi, lo))
  }

  /** The leaf constructor. */
  function MakeLeaf<V>(c: V): (n: NodeObj<V>)
    ensures IsConst(n) && n.body.c == c && IsDead(n)
  {
    NodeObj(0, LeafBody(c))
  }

  predicate IsConst<V>(n: NodeObj<V>)
  {
    n.body.LeafBody?
  }

  /** A node nobody references any more. */
  predicate IsDead<V>(n: NodeObj<V>)
  {
    n.ref == 0
  }

  /** The branch of an inner node; only defined on inner nodes. */
  function Br<V>(n: NodeObj<V>): (b: (nat, Ptr, Ptr))
    requires !IsConst(n)
    ensures NodeObj(n.ref, InnerBody(b.0, b.1, b.2)) == n
  {
    (n.body.x, n.body.hi, n.body.lo)
  }

  /** The constant of a leaf; only defined on leaves. */
  function C<V>(n: NodeObj<V>): (c: V)
    requires IsConst(n)
    ensures NodeObj(n.ref, LeafBody(c)) == n
  {
    n.body.c
  }

  /** Moving a node keeps its kind and its reference count (copying is not possible). */
  function Move<V>(n: NodeObj<V>): (m: NodeObj<V>)
    ensures IsConst(m) == IsConst(n) && m.ref == n.ref && NodeEq(m, n)
  {
    NodeObj(n.ref, n.body)
  }

  /**
   * Node equality: nodes of different kinds differ, leaves compare their
   * constants, inner nodes their variable and child pointers.
   */
  predicate NodeEq<V(==)>(l: NodeObj<V>, r: NodeObj<V>)
  {
    if IsConst(l) != IsConst(r) then false
    else if IsConst(l) then l.body.c == r.body.c
    else l.body.x == r.body.x && l.body.hi == r.body.hi && l.body.lo == r.body.lo
  }

  /** The reference count takes no part in identity: equal nodes are those with equal contents. */
  lemma NodeEqContents<V>(l: NodeObj<V>, r: NodeObj<V>)
    ensures NodeEq(l, r) <==> l.body == r.body
  {
  }

  /**
   * The node hash: a leaf hashes its constant, an inner node its two child
   * pointers; the variable is left out since each variable has its own table.
   */
  function NodeHash<E, V>(hs: Hashing<E, V>, n: NodeObj<V>): nat
  {
    if IsConst(n) then hs.value(n.body.c) % Word
    else Mix(hs.ptr(n.body.hi), hs.p1, hs.ptr(n.body.lo), hs.p2)
  }

  /** Equal nodes hash equally, so the unique tables can find them. */
  lemma NodeHashConsistent<E, V>(hs: Hashing<E, V>, l: NodeObj<V>, r: NodeObj<V>)
    requires NodeEq(l, r)
    ensures NodeHash(hs, l) == NodeHash(hs, r)
  {
    assert l.body == r.body;
  }

  /** Leaving the variable out of the hash: nodes differing only in their variable collide. */
  lemma NodeHashIgnoresVar<E, V>(hs: Hashing<E, V>, x: nat, y: nat, hi: Ptr, lo: Ptr)
    requires hi != Null && lo != Null && x != y
    ensures !NodeEq(MakeInner<V>(x, hi, lo), MakeInner<V>(y, hi, lo))
    ensures NodeHash(hs, MakeInner<V>(x, hi, lo)) == NodeHash(hs, MakeInner<V>(y, hi, lo))
  {
  }

  // -------------------------------------------------------------------------
  // Edges

  datatype EdgeObj<E> = EdgeObj(w: E, v: Ptr)

  /** The edge constructor: the node must be set. */
  function MakeEdge<E>(w: E, v: Ptr): (e: EdgeObj<E>)
    requires v != Null
    ensures e.w == w && e.v == v
  {
    EdgeObj(w, v)
  }

  /** Edge equality compares the weights and the node pointers. */
  predicate EdgeEq<E(==)>(l: EdgeObj<E>, r: EdgeObj<E>)
  {
    l.w == r.w && l.v == r.v
  }

  /** Edge equality is field-wise, hence an equivalence relation. */
  lemma EdgeEqEquivalence<E>(a: EdgeObj<E>, b: EdgeObj<E>, c: EdgeObj<E>)
    ensures EdgeEq(a, b) <==> a == b
    ensures EdgeEq(a, a)
    ensures EdgeEq(a, b) ==> EdgeEq(b, a)
    ensures EdgeEq(a, b) && EdgeEq(b, c) ==> EdgeEq(a, c)
  {
  }

  function EdgeHash<E, V>(hs: Hashing<E, V>, e: EdgeObj<E>): nat
  {
    Mix(hs.weight(e.w), hs.p1, hs.ptr(e.v), hs.p2)
  }

  lemma EdgeHashConsistent<E, V>(hs: Hashing<E, V>, l: EdgeObj<E>, r: EdgeObj<E>)
    requires EdgeEq(l, r)
    ensures EdgeHash(hs, l) == EdgeHash(hs, r)
  {
  }

  // -------------------------------------------------------------------------
  // Pointee comparison and hashing for the tables

  /** Tables compare stored objects through their pointers; both must be set. */
  function Comp<T(==)>(heap: map<Ptr, T>, l: Ptr, r: Ptr): (b: bool)
    requires l != Null && r != Null && l in heap && r in heap
    ensures b <==> heap[l] == heap[r]
    ensures l == r ==> b
  {
    heap[l] == heap[r]
  }

  /** The table hash of a pointer is the hash of the object it points to. */
  function PtrHash<T>(heap: map<Ptr, T>, h: T -> nat, p: Ptr): (r: nat)
    requires p != Null && p in heap
    ensures forall q :: q != Null && q in heap && heap[q] == heap[p] ==> r == h(heap[q])
  {
    h(heap[p])
  }

  // -------------------------------------------------------------------------
  // replace_all

  /** pat occurs in s at position i. */
  predicate OccursAt(s: string, pat: string, i: nat)
  {
    i + |pat| <= |s| && s[i..i + |pat|] == pat
  }

  /** The first occurrence of pat in s at or after from, if any (string::find). */
  function Find(s: string, pat: string, from: nat): (r: Option<nat>)
    ensures r.Some? ==> from <= r.value && r.value + |pat| <= |s|
    decreases |s| - from
  {
    if from + |pat| > |s| then None
    else if s[from..from + |pat|] == pat then Some(from)
    else Find(s, pat, from + 1)
  }

  /** find returns the first occurrence at or after its start, or none when there is none. */
  lemma {:induction false} FindFirst(s: string, pat: string, from: nat)
    ensures Find(s, pat, from).Some? ==> OccursAt(s, pat, Find(s, pat, from).value)
    ensures Find(s, pat, from).Some? ==> forall i :: from <= i < Find(s, pat, from).value ==> !OccursAt(s, pat, i)
    ensures Find(s, pat, from).None? ==> forall i :: from <= i ==> !OccursAt(s, pat, i)
    decreases |s| - from
  {
    if from + |pat| <= |s| && s[from..from + |pat|] != pat {
      FindFirst(s, pat, from + 1);
    }
  }

  /**
   * The reference definition: the suffix of s from position i with every
   * occurrence of from, scanned left to right, replaced by to.
   */
  function ReplaceFrom(s: string, from: string, to: string, i: nat): (r: string)
    requires |from| > 0 && i <= |s|
    decreases |s| - i
  {
    match Find(s, from, i)
    case None => s[i..]
    case Some(p) => s[i..p] + to + ReplaceFrom(s, from, to, p + |from|)
  }

  /** A string in which from does not occur is left unchanged. */
  lemma ReplaceNoOccurrence(s: string, from: string, to: string)
    requires |from| > 0
    requires forall i :: !OccursAt(s, from, i)
    ensures ReplaceFrom(s, from, to, 0) == s
  {
    FindFirst(s, from, 0);
    assert Find(s, from, 0).None?;
  }

  /** The replacement text is never rescanned: replacing a by one that contains a terminates with one copy. */
  lemma ReplaceNotRescanned()
    ensures ReplaceFrom("a", "a", "aa", 0) == "aa"
  {
    assert Find("a", "a", 0) == Some(0);
    assert Find("a", "a", 1).None?;
  }

  /** find only looks at the text from its start position on. */
  lemma {:induction false} FindShift(s: string, t: string, pat: string, i: nat, j: nat)
    requires i <= |s| && j <= |t| && s[i..] == t[j..]
    ensures Find(s, pat, i).None? == Find(t, pat, j).None?
    ensures Find(s, pat, i).Some? ==> Find(s, pat, i).value - i == Find(t, pat, j).value - j
    decreases |s| - i
  {
    assert |s| - i == |t| - j;
    if i + |pat| <= |s| {
      assert s[i..i + |pat|] == s[i..][..|pat|] == t[j..][..|pat|] == t[j..j + |pat|];
      if s[i..i + |pat|] != pat {
        assert s[i + 1..] == s[i..][1..] == t[j..][1..] == t[j + 1..];
        FindShift(s, t, pat, i + 1, j + 1);
      }
    }
  }

  /** Replacing from the position of the next occurrence on: the text before it, to, and the rest. */
  lemma ReplaceUnfold(str: string, from: string, to: string, done: nat, p: nat)
    requires |from| > 0 && done <= |str| && Find(str, from, done) == Some(p)
    ensures p + |from| <= |str|
    ensures ReplaceFrom(str, from, to, done) == str[done..p] + to + ReplaceFrom(str, from, to, p + |from|)
  {
  }

  /** Two texts that agree from pos resp. done on agree on corresponding slices. */
  lemma ShiftSlices(r: string, str: string, pos: nat, done: nat, k: nat, m: nat)
    requires pos <= |r| && done <= |str| && r[pos..] == str[done..] && pos + k + m <= |r|
    ensures r[pos..pos + k] == str[done..done + k]
    ensures r[pos + k + m..] == str[done + k + m..]
  {
    assert r[pos..pos + k] == r[pos..][..k];
    assert str[done..done + k] == str[done..][..k];
    assert r[pos + k + m..] == r[pos..][k + m..];
    assert str[done + k + m..] == str[done..][k + m..];
  }

  /**
   * The text side of one replacement step: the next occurrence in r at q is
   * the next occurrence of from in the unscanned rest of str, at p, and
   * replacing it leaves the scanned text extended by str[done..p] and to.
   */
  lemma ReplaceStepText(str: string, from: string, to: string, r: string, r': string, pos: nat, done: nat, q: nat, p: nat)
    requires |from| > 0 && done <= |str| && pos <= |r|
    requires r[pos..] == str[done..]
    requires Find(r, from, pos) == Some(q) && p == done + (q - pos)
    requires q + |from| <= |r| && r' == r[..q] + to + r[q + |from|..]
    ensures Find(str, from, done) == Some(p) && p + |from| <= |str|
    ensures r'[..q + |to|] == r[..pos] + str[done..p] + to
    ensures r'[q + |to|..] == str[p + |from|..]
  {
    FindShift(r, str, from, pos, done);
    ShiftSlices(r, str, pos, done, q - pos, |from|);
    assert r'[..q + |to|] == r[..q] + to;
    assert r[..q] == r[..pos] + r[pos..q];
    assert r'[q + |to|..] == r[q + |from|..];
  }

  /**
   * One replacement step: with the text before pos already final and the
   * text from pos on equal to the unscanned rest of str, replacing the next
   * occurrence, at q, keeps both facts for the position after the inserted text.
   */
  lemma ReplaceStep(str: string, from: string, to: string, r: string, r': string, pos: nat, done: nat, q: nat, p: nat)
    requires |from| > 0 && done <= |str| && pos <= |r|
    requires r[..pos] + ReplaceFrom(str, from, to, done) == ReplaceFrom(str, from, to, 0)
    requires r[pos..] == str[done..]
    requires Find(r, from, pos) == Some(q) && p == done + (q - pos)
    requires q + |from| <= |r| && r' == r[..q] + to + r[q + |from|..]
    ensures p + |from| <= |str|
    ensures r'[..q + |to|] + ReplaceFrom(str, from, to, p + |from|) == ReplaceFrom(str, from, to, 0)
    ensures r'[q + |to|..] == str[p + |from|..]
  {
    ReplaceStepText(str, from, to, r, r', pos, done, q, p);
    ReplaceUnfold(str, from, to, done, p);
    Regroup(r[..pos], str[done..p], to, ReplaceFrom(str, from, to, p + |from|),
            ReplaceFrom(str, from, to, done), ReplaceFrom(str, from, to, 0));
  }

  lemma Regroup(a: string, b: string, t: string, rest: string, tail: string, whole: string)
    requires a + tail == whole && tail == b + t + rest
    ensures a + b + t + rest == whole
  {
    assert a + b + t + rest == a + (b + t + rest);
  }

  /**
   * replace_all: from must be non-empty; scanning resumes right after the
   * inserted text, so occurrences of from inside to are never rescanned and
   * the loop terminates.
   */
  method ReplaceAll(str: string, from: string, to: string) returns (r: string)
    requires |from| > 0
    ensures r == ReplaceFrom(str, from, to, 0)
  {
    r := str;
    var pos: nat := 0;
    ghost var done: nat := 0;
    var f := Find(r, from, pos);
    while f.Some?
      invariant done <= |str| && pos <= |r|
      invariant r[..pos] + ReplaceFrom(str, from, to, done) == ReplaceFrom(str, from, to, 0)
      invariant r[pos..] == str[done..]
      invariant f == Find(r, from, pos)
      decreases |str| - done
    {
      var q := f.value;
      var r' := r[..q] + to + r[q + |from|..];
      ghost var p := done + (q - pos);
      ReplaceStep(str, from, to, r, r', pos, done, q, p);
      assert |r'| == |r| - |from| + |to|;
      done := p + |from|;
      r := r';
      pos := q + |to|;
      f := Find(r, from, pos);
    }
    ReplaceDone(str, from, to, r, pos, done);
  }

  /** Once from no longer occurs after pos, the text is final. */
  lemma ReplaceDone(str: string, from: string, to: string, r: string, pos: nat, done: nat)
    requires |from| > 0 && done <= |str| && pos <= |r|
    requires r[..pos] + ReplaceFrom(str, from, to, done) == ReplaceFrom(str, from, to, 0)
    requires r[pos..] == str[done..] && Find(r, from, pos).None?
    ensures r == ReplaceFrom(str, from, to, 0)
  {
    FindShift(r, str, from, pos, done);
    assert ReplaceFrom(str, from, to, done) == str[done..];
    assert r == r[..pos] + r[pos..];
  }
}
