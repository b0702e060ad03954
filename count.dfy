/**
 * Counting satisfying assignments of a predicate over n Boolean variables,
 * the reference against which the sharpsat/satcount operators are proved.
 */
module Counting {
  function Pow2(n: nat): (r: nat)
    ensures r >= 1
  {
    if n == 0 then 1 else 2 * Pow2(n - 1)
  }

  /** Number of ways to extend pre by k more values so that P holds. */
  function CountExt(P: seq<bool> -> bool, pre: seq<bool>, k: nat): (r: nat)
    ensures r <= Pow2(k)
    decreases k
  {
    if k == 0 then (if P(pre) then 1 else 0)
    else CountExt(P, pre + [false], k - 1) + CountExt(P, pre + [true], k - 1)
  }

  /** Number of assignments of length n satisfying P. */
  function CountModels(P: seq<bool> -> bool, n: nat): nat
  {
    CountExt(P, [], n)
  }

  /** Over two variables the count is the number of true entries of the truth table. */
  lemma CountModelsTwo(P: seq<bool> -> bool)
    ensures CountModels(P, 2) == (if P([false, false]) then 1 else 0) + (if P([false, true]) then 1 else 0)
                               + (if P([true, false]) then 1 else 0) + (if P([true, true]) then 1 else 0)
  {
    assert [] + [false] + [false] == [false, false] && [] + [false] + [true] == [false, true];
    assert [] + [true] + [false] == [true, false] && [] + [true] + [true] == [true, true];
  }

  ghost predicate IndependentOf(P: seq<bool> -> bool, x: nat, n: nat)
  {
    forall a: seq<bool> :: |a| == n && x < n ==> P(a[x := true]) == P(a) && P(a[x := false]) == P(a)
  }

  /** Predicates agreeing on every extension of pre count the same. */
  lemma {:induction false} CountAgree(P: seq<bool> -> bool, Q: seq<bool> -> bool, pre: seq<bool>, k: nat)
    requires forall a: seq<bool> :: |a| == |pre| + k && a[..|pre|] == pre ==> P(a) == Q(a)
    ensures CountExt(P, pre, k) == CountExt(Q, pre, k)
    decreases k
  {
    if k == 0 {
      assert pre[..|pre|] == pre;
    } else {
      forall b: bool
        ensures CountExt(P, pre + [b], k - 1) == CountExt(Q, pre + [b], k - 1)
      {
        forall a: seq<bool> | |a| == |pre + [b]| + (k - 1) && a[..|pre + [b]|] == pre + [b]
          ensures P(a) == Q(a)
        {
          assert a[..|pre|] == (pre + [b])[..|pre|] == pre;
        }
        CountAgree(P, Q, pre + [b], k - 1);
      }
    }
  }

  /** Negation counts the complement. */
  lemma {:induction false} CountNot(P: seq<bool> -> bool, Q: seq<bool> -> bool, pre: seq<bool>, k: nat)
    requires forall a: seq<bool> :: |a| == |pre| + k ==> Q(a) == !P(a)
    ensures CountExt(Q, pre, k) == Pow2(k) - CountExt(P, pre, k)
    decreases k
  {
    if k > 0 {
      CountNot(P, Q, pre + [false], k - 1);
      CountNot(P, Q, pre + [true], k - 1);
    }
  }

  /** A predicate that never holds has no models; one that always holds has 2^k. */
  lemma {:induction false} CountConst(P: seq<bool> -> bool, c: bool, pre: seq<bool>, k: nat)
    requires forall a: seq<bool> :: |a| == |pre| + k ==> P(a) == c
    ensures CountExt(P, pre, k) == if c then Pow2(k) else 0
    decreases k
  {
    if k > 0 {
      CountConst(P, c, pre + [false], k - 1);
      CountConst(P, c, pre + [true], k - 1);
    }
  }

  /** Flipping a variable a predicate ignores does not change the count. */
  lemma {:induction false} CountFlip(H: seq<bool> -> bool, x: nat, b: bool, pre: seq<bool>, k: nat)
    requires x < |pre| && IndependentOf(H, x, |pre| + k)
    ensures CountExt(H, pre[x := b], k) == CountExt(H, pre, k)
    decreases k
  {
    if k == 0 {
      assert H(pre[x := b]) == H(pre) by { assert H(pre[x := true]) == H(pre) && H(pre[x := false]) == H(pre); }
    } else {
      assert (pre + [false])[x := b] == pre[x := b] + [false];
      assert (pre + [true])[x := b] == pre[x := b] + [true];
      CountFlip(H, x, b, pre + [false], k - 1);
      CountFlip(H, x, b, pre + [true], k - 1);
    }
  }

  /** On the extensions of pre + [b], P counts as the predicate it agrees with where variable |pre| is b. */
  lemma CountSelect(P: seq<bool> -> bool, Q: seq<bool> -> bool, pre: seq<bool>, b: bool, k: nat)
    requires forall a: seq<bool> :: |a| == |pre| + 1 + k && a[|pre|] == b ==> P(a) == Q(a)
    ensures CountExt(P, pre + [b], k) == CountExt(Q, pre + [b], k)
  {
    var pb := pre + [b];
    forall a: seq<bool> | |a| == |pb| + k && a[..|pb|] == pb
      ensures P(a) == Q(a)
    {
      assert a[|pre|] == a[..|pb|][|pre|] == pb[|pre|] == b;
    }
    CountAgree(P, Q, pb, k);
  }

  /** The split at the first free variable. */
  lemma CountSplitHere(P: seq<bool> -> bool, H: seq<bool> -> bool, L: seq<bool> -> bool, pre: seq<bool>, k: nat)
    requires 0 < k
    requires forall a: seq<bool> :: |a| == |pre| + k ==> P(a) == if a[|pre|] then H(a) else L(a)
    requires IndependentOf(H, |pre|, |pre| + k) && IndependentOf(L, |pre|, |pre| + k)
    ensures 2 * CountExt(P, pre, k) == CountExt(H, pre, k) + CountExt(L, pre, k)
  {
    var x, pf, pt := |pre|, pre + [false], pre + [true];
    CountSelect(P, H, pre, true, k - 1);
    CountSelect(P, L, pre, false, k - 1);
    assert pt[x := false] == pf;
    assert pf[x := true] == pt;
    CountFlip(H, x, false, pt, k - 1);
    CountFlip(L, x, true, pf, k - 1);
  }

  /**
   * Shannon decomposition of a count: if P selects H where x is true and L
   * where it is false, and neither depends on x, each half of the
   * assignments contributes half of the models of H resp. L.
   */
  lemma {:induction false} CountSplitExt(P: seq<bool> -> bool, H: seq<bool> -> bool, L: seq<bool> -> bool,
                                         x: nat, pre: seq<bool>, k: nat)
    requires |pre| <= x < |pre| + k
    requires forall a: seq<bool> :: |a| == |pre| + k ==> P(a) == if a[x] then H(a) else L(a)
    requires IndependentOf(H, x, |pre| + k) && IndependentOf(L, x, |pre| + k)
    ensures 2 * CountExt(P, pre, k) == CountExt(H, pre, k) + CountExt(L, pre, k)
    decreases k
  {
    if x == |pre| {
      CountSplitHere(P, H, L, pre, k);
    } else {
      CountSplitExt(P, H, L, x, pre + [false], k - 1);
      CountSplitExt(P, H, L, x, pre + [true], k - 1);
    }
  }

  lemma CountSplit(P: seq<bool> -> bool, H: seq<bool> -> bool, L: seq<bool> -> bool, x: nat, n: nat)
    requires x < n
    requires forall a: seq<bool> :: |a| == n ==> P(a) == if a[x] then H(a) else L(a)
    requires IndependentOf(H, x, n) && IndependentOf(L, x, n)
    ensures 2 * CountModels(P, n) == CountModels(H, n) + CountModels(L, n)
  {
    CountSplitExt(P, H, L, x, [], n);
  }
}
