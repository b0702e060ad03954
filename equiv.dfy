/**
 * The exhaustive equivalence test of two decision diagrams: every
 * skip-th assignment of the counter i = 0, skip, 2 skip, ... below 2^n is
 * turned into an input vector (variable j takes bit j of i) and both
 * diagrams are evaluated on it, stopping at the first disagreement.
 *
 * A diagram is represented here by its evaluation function; the four
 * overloads (kfdd or bdd on either side) differ only in that function.
 */
module Equiv {
  import opened Counting
  import opened Binary
  import Blif

  /** The k-th enumerated counter value. */
  function Sample(k: nat, skip: nat): nat
  {
    k * skip
  }

  /** The two functions agree on the input vector of counter value i. */
  predicate AgreeAt(f1: seq<bool> -> bool, f2: seq<bool> -> bool, n: nat, i: nat)
  {
    f1(Lsb(i, n)) == f2(Lsb(i, n))
  }

  /** The functions agree on every enumerated assignment. */
  ghost predicate SampledAgree(f1: seq<bool> -> bool, f2: seq<bool> -> bool, n: nat, skip: nat)
  {
    forall k: nat :: Sample(k, skip) < Pow2(n) ==> AgreeAt(f1, f2, n, Sample(k, skip))
  }

  /** The functions agree on every input vector of length n. */
  ghost predicate Equivalent(f1: seq<bool> -> bool, f2: seq<bool> -> bool, n: nat)
  {
    forall a: seq<bool> :: |a| == n ==> f1(a) == f2(a)
  }

  lemma SampleMonotone(k: nat, k': nat, skip: nat)
    requires k <= k'
    ensures Sample(k, skip) <= Sample(k', skip)
  {
    assert k' * skip == k * skip + (k' - k) * skip;
  }

  /** With skip 1 the enumeration is exhaustive: it decides equivalence. */
  lemma ExhaustiveIffEquivalent(f1: seq<bool> -> bool, f2: seq<bool> -> bool, n: nat)
    ensures SampledAgree(f1, f2, n, 1) <==> Equivalent(f1, f2, n)
  {
    if SampledAgree(f1, f2, n, 1) {
      forall a: seq<bool> | |a| == n
        ensures f1(a) == f2(a)
      {
        var k := LsbValue(a);
        LsbValueRoundTrip(a);
        assert Sample(k, 1) == k;
        assert AgreeAt(f1, f2, n, Sample(k, 1));
      }
    }
  }

  /** Equivalent functions pass the test whatever the step. */
  lemma EquivalentSampled(f1: seq<bool> -> bool, f2: seq<bool> -> bool, n: nat, skip: nat)
    requires Equivalent(f1, f2, n)
    ensures SampledAgree(f1, f2, n, skip)
  {
    forall k: nat | Sample(k, skip) < Pow2(n)
      ensures AgreeAt(f1, f2, n, Sample(k, skip))
    {
      assert |Lsb(Sample(k, skip), n)| == n;
    }
  }

  /** With a step of at least 1 the test never evaluates the same input vector twice. */
  lemma SamplesDistinct(k: nat, k': nat, n: nat, skip: nat)
    requires k < k' && 1 <= skip && Sample(k', skip) < Pow2(n)
    ensures Lsb(Sample(k, skip), n) != Lsb(Sample(k', skip), n)
  {
    SampleMonotone(k, k', skip);
    assert Sample(k', skip) == Sample(k, skip) + (k' - k) * skip;
    LsbRoundTrip(Sample(k, skip), n);
    LsbRoundTrip(Sample(k', skip), n);
  }

  /** The input vector of counter value i: variable j takes bit j of i. */
  method InputVars(i: nat, n: nat) returns (bits: seq<bool>)
    ensures bits == Lsb(i, n)
  {
    bits := [];
    var j := 0;
    while j < n
      invariant j <= n && bits == Lsb(i, n)[..j]
    {
      LsbAt(i, n, j);
      bits := bits + [Bit(i, j)];
      j := j + 1;
    }
  }

  /**
   * eval_dds: the 64-bit counter version. 1 << 64 is undefined, so n is
   * at most 63. The step must be at least 1: a step of 0 never leaves the
   * loop while the first input agrees, and a negative step, converted to a
   * 64-bit unsigned number by `i += skip`, leaves it after the first input.
   */
  method EvalDds(f1: seq<bool> -> bool, f2: seq<bool> -> bool, n: nat, skip: nat) returns (r: bool)
    requires n < 64 && 1 <= skip
    ensures r <==> SampledAgree(f1, f2, n, skip)
  {
    var combs := Pow2(n);
    var i := 0;
    ghost var k: nat := 0;
    while i < combs
      invariant i == Sample(k, skip)
      invariant forall k': nat :: k' < k ==> Sample(k', skip) < combs ==> AgreeAt(f1, f2, n, Sample(k', skip))
      decreases combs - i
    {
      var inputVars := InputVars(i, n);
      if f1(inputVars) != f2(inputVars) {
        assert !AgreeAt(f1, f2, n, Sample(k, skip));
        return false;
      }
      i := i + skip;
      k := k + 1;
    }
    forall k': nat | Sample(k', skip) < combs
      ensures AgreeAt(f1, f2, n, Sample(k', skip))
    {
      if k' >= k {
        SampleMonotone(k, k', skip);
      }
    }
    return true;
  }

  /**
   * The copy of eval_dds among the test helpers computes 2^n and the bit
   * masks with int shifts, which stay in range only below 31 variables.
   */
  method EvalDdsNarrow(f1: seq<bool> -> bool, f2: seq<bool> -> bool, n: nat, skip: nat) returns (r: bool)
    requires n <= 30 && 1 <= skip
    ensures r <==> SampledAgree(f1, f2, n, skip)
  {
    r := EvalDds(f1, f2, n, skip);
  }

  /** Output j of the two readers agrees on every enumerated assignment. */
  ghost predicate AllSampledAgree(fs1: seq<seq<bool> -> bool>, fs2: seq<seq<bool> -> bool>, n: nat, skip: nat)
    requires |fs1| == |fs2|
  {
    forall j :: 0 <= j < |fs1| ==> SampledAgree(fs1[j], fs2[j], n, skip)
  }

  /** Every output pair agrees on the input vector of counter i. */
  ghost predicate OutputsAgreeAt(fs1: seq<seq<bool> -> bool>, fs2: seq<seq<bool> -> bool>, n: nat, i: nat)
    requires |fs1| == |fs2|
  {
    forall j :: 0 <= j < |fs1| ==> AgreeAt(fs1[j], fs2[j], n, i)
  }

  /** The inner loop of blif_eq: compares the outputs pairwise on one input vector. */
  method CompareOutputs(fs1: seq<seq<bool> -> bool>, fs2: seq<seq<bool> -> bool>, n: nat, i: nat) returns (r: bool)
    requires |fs1| == |fs2|
    ensures r <==> OutputsAgreeAt(fs1, fs2, n, i)
  {
    var inputVars := InputVars(i, n);
    var j := 0;
    while j < |fs1|
      invariant j <= |fs1|
      invariant forall j' :: 0 <= j' < j ==> AgreeAt(fs1[j'], fs2[j'], n, i)
    {
      if fs1[j](inputVars) != fs2[j](inputVars) {
        assert !AgreeAt(fs1[j], fs2[j], n, i);
        return false;
      }
      j := j + 1;
    }
    return true;
  }

  /**
   * blif_eq for two kfdd readers: outputs are compared pairwise on every
   * enumerated assignment; int shifts limit n to 30, and the step must be
   * at least 1, as for EvalDds.
   */
  method BlifEq(fs1: seq<seq<bool> -> bool>, fs2: seq<seq<bool> -> bool>, n: nat, skip: nat) returns (r: bool)
    requires |fs1| == |fs2| && n <= 30 && 1 <= skip
    ensures r <==> AllSampledAgree(fs1, fs2, n, skip)
  {
    var combs := Pow2(n);
    var i := 0;
    ghost var k: nat := 0;
    while i < combs
      invariant i == Sample(k, skip)
      invariant forall k': nat :: k' < k && Sample(k', skip) < combs ==> OutputsAgreeAt(fs1, fs2, n, Sample(k', skip))
      decreases combs - i
    {
      var ok := CompareOutputs(fs1, fs2, n, i);
      if !ok {
        ghost var j :| 0 <= j < |fs1| && !AgreeAt(fs1[j], fs2[j], n, Sample(k, skip));
        assert !SampledAgree(fs1[j], fs2[j], n, skip);
        return false;
      }
      i := i + skip;
      k := k + 1;
    }
    forall j, k': nat | 0 <= j < |fs1| && Sample(k', skip) < combs
      ensures AgreeAt(fs1[j], fs2[j], n, Sample(k', skip))
    {
      if k' >= k {
        SampleMonotone(k, k', skip);
      }
      assert OutputsAgreeAt(fs1, fs2, n, Sample(k', skip));
    }
    return true;
  }

  /** The evaluation function of a read circuit over N variables. */
  function AsFunction(c: Blif.Circ, N: nat): seq<bool> -> bool
  {
    a => if |a| == N && Blif.Defined(c, N) then Blif.Eval(c, a) else false
  }

  /**
   * Two readers of the same netlist whose outputs each denote the
   * netlist's signals listed in order agree, output by output, on every
   * assignment, so the sampled comparison of the kfdd/bdd correctness
   * test holds for any step.
   */
  lemma ReadersAgree(es: seq<Blif.Event>, order: seq<string>, fa: seq<Blif.Circ>, fb: seq<Blif.Circ>, skip: nat)
    requires |fa| == |order| && |fb| == |order|
    requires forall i :: 0 <= i < |order| ==> Blif.Denotes(fa[i], es, order[i], |Blif.InputsOf(es)|)
    requires forall i :: 0 <= i < |order| ==> Blif.Denotes(fb[i], es, order[i], |Blif.InputsOf(es)|)
    ensures forall i :: 0 <= i < |order| ==>
      SampledAgree(AsFunction(fa[i], |Blif.InputsOf(es)|), AsFunction(fb[i], |Blif.InputsOf(es)|), |Blif.InputsOf(es)|, skip)
  {
    var N := |Blif.InputsOf(es)|;
    forall i | 0 <= i < |order|
      ensures SampledAgree(AsFunction(fa[i], N), AsFunction(fb[i], N), N, skip)
    {
      assert Blif.Denotes(fa[i], es, order[i], N) && Blif.Denotes(fb[i], es, order[i], N);
      forall a: seq<bool> | |a| == N
        ensures AsFunction(fa[i], N)(a) == AsFunction(fb[i], N)(a)
      {
      }
      EquivalentSampled(AsFunction(fa[i], N), AsFunction(fb[i], N), N, skip);
    }
  }
}
