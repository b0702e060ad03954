/**
 * Unit propagation, the DPLL search and the solver object of the BHD
 * debugging example, over the instances that the DIMACS reader builds.
 * Simplification is the corrected one of Dimacs.Simplify, which removes every
 * literal of the assigned variable.
 */
module Dpll {
  import O = Objects
  import opened Dimacs

  // ---------------------------------------------------------------------------
  // Partial assignments
  // ---------------------------------------------------------------------------

  /** The total assignment a agrees with every variable that vars has set. */
  predicate Consistent(a: seq<bool>, vars: seq<O.Option<bool>>)
  {
    |a| == |vars| && forall y :: 0 <= y < |vars| && vars[y].Some? ==> a[y] == vars[y].value
  }

  /** vars' keeps every value that vars has set. */
  predicate Extends(vars': seq<O.Option<bool>>, vars: seq<O.Option<bool>>)
  {
    |vars'| == |vars| && forall y :: 0 <= y < |vars| && vars[y].Some? ==> vars'[y] == vars[y]
  }

  function Unassigned(vars: seq<O.Option<bool>>): set<nat>
  {
    set y | 0 <= y < |vars| && vars[y].None?
  }

  /**
   * The shape every instance of the search has: the clauses mention only
   * unassigned variables, each of which still has a positive occurrence count,
   * assigned variables have count 0, and no clause is empty.
   */
  predicate Clean(q: Cnf)
  {
    && |q.lits| == |q.vars| && |q.pols| == |q.vars|
    && InRange(q.clauses, |q.vars|)
    && NonEmpty(q.clauses)
    && (forall i, l :: 0 <= i < |q.clauses| && l in q.clauses[i] ==> q.vars[l / 2].None? && q.lits[l / 2] > 0)
    && (forall y :: 0 <= y < |q.vars| && q.vars[y].Some? ==> q.lits[y] == 0)
  }

  /** The instance read from a DIMACS file without empty clauses is clean. */
  lemma FreshClean(n: nat, F: seq<seq<nat>>)
    requires InRange(F, n) && NonEmpty(F)
    ensures Clean(Fresh(n, F))
  {
    var q := Fresh(n, F);
    forall i, l | 0 <= i < |F| && l in F[i]
      ensures q.lits[l / 2] > 0
    {
      OccPositive(F, i, l);
    }
  }

  /** Every assignment of the right length is consistent with a fresh instance. */
  lemma FreshConsistent(n: nat, F: seq<seq<nat>>, a: seq<bool>)
    ensures Consistent(a, Fresh(n, F).vars) <==> |a| == n
  {
  }

  /** After x is assigned and simplified away, the instance is clean again. */
  lemma SimplifiedClean(q: Cnf, x: nat, v: bool, r: Cnf)
    requires Clean(q) && x < |q.vars| && q.vars[x].None?
    requires r.vars == q.vars[x := O.Some(v)] && r.lits == q.lits[x := 0] && r.pols == q.pols
    requires NoVar(r.clauses, x) && Within(r.clauses, q.clauses) && NonEmpty(r.clauses)
    ensures Clean(r)
  {
    forall i: int, l: nat | 0 <= i < |r.clauses| && l in r.clauses[i]
      ensures l / 2 < |r.vars| && r.vars[l / 2].None? && r.lits[l / 2] > 0
    {
      assert InF(q.clauses, l);
      var j :| 0 <= j < |q.clauses| && l in q.clauses[j];
      assert l / 2 < |q.vars|;
    }
    assert InRange(r.clauses, |r.vars|) by {
      forall i, l | 0 <= i < |r.clauses| && l in r.clauses[i]
        ensures l / 2 < |r.vars|
      {
        assert InF(q.clauses, l);
      }
    }
  }

  // ---------------------------------------------------------------------------
  // Unit propagation
  // ---------------------------------------------------------------------------

  predicate NoUnit(F: seq<seq<nat>>)
  {
    forall i :: 0 <= i < |F| ==> |F[i]| != 1
  }

  /** A unit clause forces its literal. */
  lemma UnitForces(a: seq<bool>, F: seq<seq<nat>>, i: nat)
    requires i < |F| && |F[i]| == 1 && Satisfies(a, F)
    ensures LitTrue(a, F[i][0])
  {
    assert ClauseHolds(a, F[i]);
  }

  /**
   * Repeated unit resolution: while some clause is a unit, its variable takes
   * the literal's polarity and the formula is simplified; Sat once no clause
   * is left, Unsat once a clause is emptied, Unknown once no unit clause
   * remains. Every assignment that agrees with the new partial assignment
   * satisfies the new clauses exactly when it satisfies the old ones, and
   * every solution of the old instance agrees with the forced values.
   */
  method Up(q: Cnf) returns (st: Status, r: Cnf)
    requires Clean(q)
    ensures st != Unsat ==> Clean(r) && Extends(r.vars, q.vars)
    ensures st == Sat ==> r.clauses == []
    ensures st == Unknown ==> r.clauses != [] && NoUnit(r.clauses)
    ensures st != Unsat ==> forall a :: Consistent(a, r.vars) ==> (Satisfies(a, r.clauses) <==> Satisfies(a, q.clauses))
    ensures forall a :: Consistent(a, q.vars) && Satisfies(a, q.clauses) ==> st != Unsat && Consistent(a, r.vars)
  {
    r := q;
    if |q.clauses| == 0 {
      return Sat, r;
    }
    var ucExists := true;
    while ucExists
      invariant Clean(r) && Extends(r.vars, q.vars) && r.clauses != []
      invariant !ucExists ==> NoUnit(r.clauses)
      invariant forall a :: Consistent(a, r.vars) ==> (Satisfies(a, r.clauses) <==> Satisfies(a, q.clauses))
      invariant forall a :: Consistent(a, q.vars) && Satisfies(a, q.clauses) ==> Consistent(a, r.vars)
      decreases Unassigned(r.vars), ucExists
    {
      ucExists := false;
      var i := 0;
      while i < |r.clauses|
        invariant 0 <= i <= |r.clauses|
        invariant forall k :: 0 <= k < i ==> |r.clauses[k]| != 1
      {
        if |r.clauses[i]| == 1 {
          ucExists := true;
          var l := r.clauses[i][0];
          var x := l / 2;
          assert l in r.clauses[i];
          var v := l % 2 == 1;
          var r1 := r.(vars := r.vars[x := O.Some(v)]);
          forall a | Consistent(a, q.vars) && Satisfies(a, q.clauses)
            ensures Consistent(a, r1.vars) && Satisfies(a, r.clauses)
          {
            UnitForces(a, r.clauses, i);
          }
          var res, r2 := Simplify(r1, x);
          if res == Unsat {
            return Unsat, r2;
          }
          assert Unassigned(r2.vars) == Unassigned(r.vars) - {x};
          if res == Sat {
            SimplifiedClean(r, x, v, r2);
            return Sat, r2;
          }
          SimplifiedClean(r, x, v, r2);
          r := r2;
          break;
        }
        i := i + 1;
      }
    }
    return Unknown, r;
  }

  // ---------------------------------------------------------------------------
  // Branching variable
  // ---------------------------------------------------------------------------

  /** The first index holding the largest count, as a maximum-element search finds it. */
  function MaxElement(lits: seq<nat>): (x: nat)
    requires |lits| > 0
    ensures x < |lits| && forall y :: 0 <= y < |lits| ==> lits[y] <= lits[x]
    ensures forall y :: 0 <= y < x ==> lits[y] < lits[x]
  {
    if |lits| == 1 then 0
    else
      var x := MaxElement(lits[..|lits| - 1]);
      if lits[|lits| - 1] > lits[x] then |lits| - 1 else x
  }

  /** In a clean instance with clauses left, the busiest variable is unassigned. */
  lemma BusiestUnassigned(q: Cnf)
    requires Clean(q) && q.clauses != []
    ensures |q.lits| > 0 && q.vars[MaxElement(q.lits)].None? && q.lits[MaxElement(q.lits)] > 0
  {
    var l := q.clauses[0][0];
    assert l in q.clauses[0];
    var x := MaxElement(q.lits);
    assert q.lits[l / 2] > 0 && q.lits[l / 2] <= q.lits[x];
  }

  // ---------------------------------------------------------------------------
  // The solver
  // ---------------------------------------------------------------------------

  /** The solver object: the problem instance p, replaced by the solved instance. */
  class Solver {
    var p: Cnf

    /** Reads a DIMACS CNF stream; the reader asserts that the stream is well formed. */
    constructor (t: seq<Tok>)
      requires Parse(t).Some? && NonEmpty(Parse(t).value.clauses)
      ensures p == Parse(t).value && Clean(p)
    {
      var r := Read(t);
      p := r.value;
      FreshClean(|r.value.vars|, r.value.clauses);
    }

    /**
     * DPLL: unit propagation, then the busiest variable is tried with its
     * majority polarity first, then with the other, backtracking on Unsat. On
     * Sat, p holds an instance without clauses whose partial assignment
     * extends q's and forces every clause of q; on Unsat, no assignment that
     * agrees with q's satisfies q, and p is untouched.
     */
    method Dpll(q: Cnf) returns (st: Status)
      requires Clean(q)
      modifies this
      ensures st != Unknown
      ensures st == Sat ==> Clean(p) && p.clauses == [] && Extends(p.vars, q.vars)
      ensures st == Sat ==> forall a :: Consistent(a, p.vars) ==> Satisfies(a, q.clauses)
      ensures st == Unsat ==> p == old(p) && forall a :: Consistent(a, q.vars) ==> !Satisfies(a, q.clauses)
      decreases Unassigned(q.vars), 1
    {
      var u;
      st, u := Up(q);
      if st == Sat {
        p := u;
        return;
      }
      if st == Unsat {
        return;
      }
      BusiestUnassigned(u);
      var x := MaxElement(u.lits);
      ghost var first := !(u.pols[x] < 0);
      var k := 0;
      while k < 2
        invariant 0 <= k <= 2 && p == old(p)
        invariant forall a :: Consistent(a, u.vars) && Satisfies(a, u.clauses) ==> k < 2 && (k == 1 ==> a[x] == !first)
      {
        var b := k == 1;
        st := Decide(u, x, if u.pols[x] < 0 then b else !b);
        if st == Sat {
          return;
        }
        k := k + 1;
      }
      st := Unsat;
    }

    /**
     * One branch of the search: x takes the value v, the formula is
     * simplified, and the search goes on below unless that already decided it.
     */
    method Decide(u: Cnf, x: nat, v: bool) returns (st: Status)
      requires Clean(u) && u.clauses != [] && x < |u.vars| && u.vars[x].None?
      modifies this
      ensures st != Unknown
      ensures st == Sat ==> Clean(p) && p.clauses == [] && Extends(p.vars, u.vars) && p.vars[x] == O.Some(v)
      ensures st == Sat ==> forall a :: Consistent(a, p.vars) ==> Satisfies(a, u.clauses)
      ensures st == Unsat ==> p == old(p) && forall a :: Consistent(a, u.vars) && a[x] == v ==> !Satisfies(a, u.clauses)
      decreases Unassigned(u.vars), 0
    {
      var r1 := u.(vars := u.vars[x := O.Some(v)]);
      var r;
      st, r := Simplify(r1, x);
      if st == Unsat {
        return;
      }
      SimplifiedClean(u, x, v, r);
      if st == Sat {
        p := r;
        return;
      }
      assert Unassigned(r.vars) == Unassigned(u.vars) - {x};
      st := Dpll(r);
    }

    /**
     * The solution of the instance: empty when it is unsatisfiable, otherwise
     * one value per variable, set variables as found and the others false,
     * which satisfies every clause.
     */
    method Solve() returns (sol: seq<bool>)
      requires Clean(p)
      modifies this
      ensures (exists a :: Consistent(a, old(p).vars) && Satisfies(a, old(p).clauses)) ==>
                Consistent(sol, old(p).vars) && Satisfies(sol, old(p).clauses)
      ensures !(exists a :: Consistent(a, old(p).vars) && Satisfies(a, old(p).clauses)) ==> sol == []
    {
      var q := p;
      var st := Dpll(q);
      if st != Sat {
        return [];
      }
      sol := seq(|p.vars|, _ => false);
      var i := 0;
      while i < |p.vars|
        invariant 0 <= i <= |p.vars| && |sol| == |p.vars|
        invariant forall y :: 0 <= y < i && p.vars[y].Some? ==> sol[y] == p.vars[y].value
      {
        if p.vars[i].Some? {
          sol := sol[i := p.vars[i].value];
        }
        i := i + 1;
      }
      assert Consistent(sol, p.vars);
    }
  }
}
