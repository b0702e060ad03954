/**
 * The MUX debugging flow of the BHD example: the test patterns that the SAT
 * solver finds for the expansion paths of the miter, and the stuck-at fault
 * localisation that intersects the faults each pattern detects.
 */
module Mux {
  import opened Dimacs
  import opened Dpll

  // ---------------------------------------------------------------------------
  // Patterns from the SAT solver
  // ---------------------------------------------------------------------------

  /** The unit clause that fixes variable x (zero-indexed) to pol, in DIMACS numbering. */
  function Unit(x: nat, pol: bool): (c: seq<int>)
    ensures |c| == 1 && c[0] != 0 && Abs(c[0]) == x + 1
    ensures Decode(Encode(c[0])) == c[0] && Encode(c[0]) == SatLit(x, pol)
  {
    [if pol then x + 1 else -(x as int) - 1]
  }

  function Units(path: seq<(nat, bool)>): (r: seq<seq<int>>)
    ensures |r| == |path| && forall j :: 0 <= j < |path| ==> r[j] == Unit(path[j].0, path[j].1)
  {
    if path == [] then [] else [Unit(path[0].0, path[0].1)] + Units(path[1..])
  }

  /** The DIMACS formula for one expansion path: the base clauses, then one unit clause per pair. */
  function PathFormula(clauses: seq<seq<int>>, path: seq<(nat, bool)>): seq<seq<int>>
  {
    clauses + Units(path)
  }

  predicate WellFormedBase(clauses: seq<seq<int>>)
  {
    DimacsFormula(clauses, 3) && forall i :: 0 <= i < |clauses| ==> |clauses[i]| > 0
  }

  /** Every pair of the path fixes one of the three MUX inputs. */
  predicate PathOk(path: seq<(nat, bool)>)
  {
    forall j :: 0 <= j < |path| ==> path[j].0 < 3
  }

  predicate PathsInRange(ucs: seq<seq<(nat, bool)>>)
  {
    forall k :: 0 <= k < |ucs| ==> PathOk(ucs[k])
  }

  /** The literal codes of a path's formula, as the reader stores them. */
  function PathCodes(clauses: seq<seq<int>>, path: seq<(nat, bool)>): (G: seq<seq<nat>>)
    requires WellFormedBase(clauses) && PathOk(path)
    ensures NonEmpty(G) && InRange(G, 3)
  {
    PathFormulaWellFormed(clauses, path);
    EncodeAll(PathFormula(clauses, path))
  }

  /** The formula of the path has a solution over the three MUX inputs. */
  ghost predicate PathSat(clauses: seq<seq<int>>, path: seq<(nat, bool)>)
    requires WellFormedBase(clauses) && PathOk(path)
  {
    Satisfiable(PathCodes(clauses, path), 3)
  }

  /** Flag k says whether the formula of expansion path k has a solution. */
  ghost function SatFlags(clauses: seq<seq<int>>, ucs: seq<seq<(nat, bool)>>): (r: seq<bool>)
    requires WellFormedBase(clauses) && PathsInRange(ucs)
    ensures |r| == |ucs|
  {
    if ucs == [] then []
    else SatFlags(clauses, ucs[..|ucs| - 1]) + [PathSat(clauses, ucs[|ucs| - 1])]
  }

  lemma {:induction false} SatFlagsAt(clauses: seq<seq<int>>, ucs: seq<seq<(nat, bool)>>, k: nat)
    requires WellFormedBase(clauses) && PathsInRange(ucs) && k < |ucs|
    ensures SatFlags(clauses, ucs)[k] == PathSat(clauses, ucs[k])
  {
    if k < |ucs| - 1 {
      SatFlagsAt(clauses, ucs[..|ucs| - 1], k);
    }
  }

  /** Number of true flags among the first k. */
  function Trues(bs: seq<bool>, k: nat): nat
    requires k <= |bs|
  {
    if k == 0 then 0 else Trues(bs, k - 1) + (if bs[k - 1] then 1 else 0)
  }

  /** Number of the first k expansion paths whose formula has a solution over the three MUX inputs. */
  ghost function SatCount(clauses: seq<seq<int>>, ucs: seq<seq<(nat, bool)>>, k: nat): nat
    requires WellFormedBase(clauses) && PathsInRange(ucs) && k <= |ucs|
  {
    Trues(SatFlags(clauses, ucs), k)
  }

  lemma PathFormulaWellFormed(clauses: seq<seq<int>>, path: seq<(nat, bool)>)
    requires WellFormedBase(clauses) && PathOk(path)
    ensures DimacsFormula(PathFormula(clauses, path), 3)
    ensures NonEmpty(EncodeAll(PathFormula(clauses, path)))
  {
    var F := PathFormula(clauses, path);
    forall i | 0 <= i < |F|
      ensures DimacsClause(F[i], 3) && |F[i]| > 0
    {
      if i >= |clauses| {
        assert F[i] == Unit(path[i - |clauses|].0, path[i - |clauses|].1);
      }
    }
  }

  /** s is a pattern over the three MUX inputs that satisfies the formula of path. */
  predicate Solves(s: seq<bool>, clauses: seq<seq<int>>, path: seq<(nat, bool)>)
    requires WellFormedBase(clauses) && PathOk(path)
  {
    |s| == 3 && Satisfies(s, PathCodes(clauses, path))
  }

  /**
   * One expansion path: its formula written as a DIMACS stream over the three
   * MUX inputs, read back and solved. The solution is empty exactly when the
   * formula has none.
   */
  method SolvePath(clauses: seq<seq<int>>, path: seq<(nat, bool)>) returns (sol: seq<bool>)
    requires WellFormedBase(clauses) && PathOk(path)
    ensures sol == [] <==> !PathSat(clauses, path)
    ensures sol != [] ==> Solves(sol, clauses, path)
  {
    var F := PathFormula(clauses, path);
    PathFormulaWellFormed(clauses, path);
    var dimacs := Write(3, F);
    ParseWrite(3, F, []);
    assert dimacs + [] == dimacs;
    var cnf := new Solver(dimacs);
    sol := cnf.Solve();
    FreshSolution(PathCodes(clauses, path), sol);
  }

  /** What the solver promises for a fresh instance over three variables. */
  lemma FreshSolution(G: seq<seq<nat>>, sol: seq<bool>)
    requires (exists a :: Consistent(a, Fresh(3, G).vars) && Satisfies(a, G)) ==>
               Consistent(sol, Fresh(3, G).vars) && Satisfies(sol, G)
    requires !(exists a :: Consistent(a, Fresh(3, G).vars) && Satisfies(a, G)) ==> sol == []
    ensures sol == [] <==> !Satisfiable(G, 3)
    ensures sol != [] ==> |sol| == 3 && Satisfies(sol, G)
  {
    if Satisfiable(G, 3) {
      var a :| |a| == 3 && Satisfies(a, G);
      assert Consistent(a, Fresh(3, G).vars);
    }
  }

  /** Pattern m of sols solves the formula of path from[m], one of the first k paths. */
  ghost predicate Sourced(sols: seq<seq<bool>>, from: seq<nat>, clauses: seq<seq<int>>, ucs: seq<seq<(nat, bool)>>, k: nat)
    requires WellFormedBase(clauses) && PathsInRange(ucs) && k <= |ucs|
  {
    |from| == |sols| && forall m :: 0 <= m < |sols| ==> from[m] < k && Solves(sols[m], clauses, ucs[from[m]])
  }

  lemma SourcedAppend(sols: seq<seq<bool>>, from: seq<nat>, clauses: seq<seq<int>>, ucs: seq<seq<(nat, bool)>>, k: nat, sol: seq<bool>)
    requires WellFormedBase(clauses) && PathsInRange(ucs) && k < |ucs|
    requires Sourced(sols, from, clauses, ucs, k) && Solves(sol, clauses, ucs[k])
    ensures Sourced(sols + [sol], from + [k], clauses, ucs, k + 1)
  {
  }

  /** One iteration of mux_sat: solve path k and keep its solution, if any. */
  method KeepSolution(clauses: seq<seq<int>>, ucs: seq<seq<(nat, bool)>>, k: nat, sols: seq<seq<bool>>, ghost from: seq<nat>, ghost flags: seq<bool>)
    returns (sols': seq<seq<bool>>, ghost from': seq<nat>)
    requires WellFormedBase(clauses) && PathsInRange(ucs) && k < |ucs|
    requires flags == SatFlags(clauses, ucs) && Sourced(sols, from, clauses, ucs, k)
    ensures |sols'| == |sols| + (if flags[k] then 1 else 0) && Sourced(sols', from', clauses, ucs, k + 1)
  {
    SatFlagsAt(clauses, ucs, k);
    var sol := SolvePath(clauses, ucs[k]);
    sols', from' := sols, from;
    if sol != [] {
      SourcedAppend(sols, from, clauses, ucs, k, sol);
      sols', from' := sols + [sol], from + [k];
    }
  }

  /** Every pattern solves the formula of one of the paths. */
  ghost predicate AllSolve(sols: seq<seq<bool>>, clauses: seq<seq<int>>, ucs: seq<seq<(nat, bool)>>)
    requires WellFormedBase(clauses) && PathsInRange(ucs)
  {
    forall s :: s in sols ==> exists k :: 0 <= k < |ucs| && Solves(s, clauses, ucs[k])
  }

  lemma SourcedSolves(sols: seq<seq<bool>>, from: seq<nat>, clauses: seq<seq<int>>, ucs: seq<seq<(nat, bool)>>)
    requires WellFormedBase(clauses) && PathsInRange(ucs) && Sourced(sols, from, clauses, ucs, |ucs|)
    ensures AllSolve(sols, clauses, ucs)
  {
    forall s | s in sols
      ensures exists k :: 0 <= k < |ucs| && Solves(s, clauses, ucs[k])
    {
      var m :| 0 <= m < |sols| && sols[m] == s;
      assert Solves(s, clauses, ucs[from[m]]);
    }
  }

  /**
   * For every expansion path, solves the base clauses together with the
   * path's unit clauses and keeps the solution when there is one: one pattern
   * per satisfiable path, each of which satisfies its path's formula.
   */
  method MuxSat(clauses: seq<seq<int>>, ucs: seq<seq<(nat, bool)>>) returns (sols: seq<seq<bool>>)
    requires WellFormedBase(clauses) && PathsInRange(ucs)
    ensures |sols| == SatCount(clauses, ucs, |ucs|) && |sols| <= |ucs|
    ensures AllSolve(sols, clauses, ucs)
  {
    sols := [];
    ghost var from: seq<nat> := [];
    ghost var flags := SatFlags(clauses, ucs);
    var k: nat := 0;
    while k < |ucs|
      invariant k <= |ucs| && |sols| == Trues(flags, k) && |sols| <= k
      invariant Sourced(sols, from, clauses, ucs, k)
    {
      sols, from := KeepSolution(clauses, ucs, k, sols, from, flags);
      k := k + 1;
    }
    SourcedSolves(sols, from, clauses, ucs);
  }

}

/**
 * Stuck-at fault localisation for the MUX example, and the two debugging
 * runs on the patterns that the diagram and the SAT solver produce.
 */
module Faults {
  import opened Dimacs
  import opened Mux

  // ---------------------------------------------------------------------------
  // Stuck-at fault localisation
  // ---------------------------------------------------------------------------

  /**
   * The stuck-at faults of the MUX f = s ? a : b that each input pattern
   * (s, a, b) detects; "x/v" is line x stuck at v.
   */
  const DetFaults: map<seq<bool>, set<string>> := map[
    [false, false, false] := {"b/1", "f/1"},
    [false, false, true] := {"s/1", "b/0", "f/0"},
    [false, true, false] := {"s/1", "b/1", "f/1"},
    [false, true, true] := {"b/0", "f/0"},
    [true, false, false] := {"a/1", "f/1"},
    [true, false, true] := {"s/0", "a/1", "f/1"},
    [true, true, false] := {"s/0", "a/0", "f/0"},
    [true, true, true] := {"a/0", "f/0"}]

  /** Every pattern has an entry in the fault table det. */
  predicate Known(det: map<seq<bool>, set<string>>, patterns: seq<seq<bool>>)
  {
    forall i :: 0 <= i < |patterns| ==> patterns[i] in det
  }

  /** The faults detected by every one of the patterns. */
  function Common(det: map<seq<bool>, set<string>>, patterns: seq<seq<bool>>): set<string>
    requires |patterns| > 0 && Known(det, patterns)
  {
    if |patterns| == 1 then det[patterns[0]]
    else Common(det, patterns[..|patterns| - 1]) * det[patterns[|patterns| - 1]]
  }

  /**
   * Fault localisation: starting from the faults the first pattern detects,
   * intersects with each further pattern's faults and stops as soon as a
   * single fault is left. The result is the common faults of the patterns up
   * to that point. The table is a parameter; the MUX example uses
   * DetFaults.
   */
  method MuxSim(det: map<seq<bool>, set<string>>, patterns: seq<seq<bool>>) returns (faults: set<string>)
    requires |patterns| > 0 && Known(det, patterns)
    ensures exists k :: 1 <= k <= |patterns| && faults == Common(det, patterns[..k])
              && (k == |patterns| || |faults| == 1)
              && forall j :: 2 <= j < k ==> |Common(det, patterns[..j])| != 1
  {
    faults := det[patterns[0]];
    assert patterns[..1] == [patterns[0]];
    var i := 1;
    while i < |patterns|
      invariant 1 <= i <= |patterns| && faults == Common(det, patterns[..i])
      invariant forall j :: 2 <= j <= i ==> |Common(det, patterns[..j])| != 1
    {
      var tmp := faults * det[patterns[i]];
      assert patterns[..i + 1][..i] == patterns[..i] && patterns[..i + 1][i] == patterns[i];
      assert tmp == Common(det, patterns[..i + 1]);
      faults := tmp;
      if |faults| == 1 {
        return;
      }
      i := i + 1;
    }
  }

  /** The localised faults always include the faults every pattern detects. */
  lemma {:induction false} CommonShrinks(det: map<seq<bool>, set<string>>, patterns: seq<seq<bool>>, k: nat)
    requires 1 <= k <= |patterns| && Known(det, patterns)
    ensures Common(det, patterns) <= Common(det, patterns[..k])
    decreases |patterns|
  {
    if k < |patterns| {
      var init := patterns[..|patterns| - 1];
      assert init[..k] == patterns[..k];
      CommonShrinks(det, init, k);
    } else {
      assert patterns[..k] == patterns;
    }
  }

  // ---------------------------------------------------------------------------
  // The MUX example
  // ---------------------------------------------------------------------------

  /** (not s or a) and (s or b) with the unit clause not s: every solution is s = 0, b = 1. */
  lemma StuckAt0Solutions(s: seq<bool>)
    requires WellFormedBase([[-1, 2], [1, 3]]) && Solves(s, [[-1, 2], [1, 3]], [(0, false)])
    ensures !s[0] && s[2]
  {
    var G := PathCodes([[-1, 2], [1, 3]], [(0, false)]);
    assert PathFormula([[-1, 2], [1, 3]], [(0, false)]) == [[-1, 2], [1, 3], [-1]];
    assert G[1] == EncodeClause([1, 3]) == [1, 5];
    assert G[2] == EncodeClause([-1]) == [0];
    assert ClauseHolds(s, G[2]) && ClauseHolds(s, G[1]);
  }

  /** (not s or not a) and (s or not b) with not s: every solution is s = 0, b = 0. */
  lemma StuckAt1Solutions(s: seq<bool>)
    requires WellFormedBase([[-1, -2], [1, -3]]) && Solves(s, [[-1, -2], [1, -3]], [(0, false)])
    ensures !s[0] && !s[2]
  {
    var G := PathCodes([[-1, -2], [1, -3]], [(0, false)]);
    assert PathFormula([[-1, -2], [1, -3]], [(0, false)]) == [[-1, -2], [1, -3], [-1]];
    assert G[1] == EncodeClause([1, -3]) == [1, 4];
    assert G[2] == EncodeClause([-1]) == [0];
    assert ClauseHolds(s, G[2]) && ClauseHolds(s, G[1]);
  }

  /**
   * f stuck at 0: the diagram's pattern (1, 1, 0) and the solver's pattern
   * (0, a, 1) leave exactly the fault f/0, whatever a the solver chose.
   */
  lemma StuckAt0Localised(a: bool)
    ensures Common(DetFaults, [[true, true, false], [false, a, true]]) == {"f/0"}
  {
    var ps := [[true, true, false], [false, a, true]];
    assert ps[..1] == [[true, true, false]];
    assert "s/0" in DetFaults[[true, true, false]] && "a/0" in DetFaults[[true, true, false]];
    if a {
      assert DetFaults[[false, a, true]] == {"b/0", "f/0"};
    } else {
      assert DetFaults[[false, a, true]] == {"s/1", "b/0", "f/0"};
    }
  }

  /**
   * f stuck at 1: the diagram's pattern (1, 0, 0) and the solver's pattern
   * (0, a, 0) leave exactly the fault f/1.
   */
  lemma StuckAt1Localised(a: bool)
    ensures Common(DetFaults, [[true, false, false], [false, a, false]]) == {"f/1"}
  {
    var ps := [[true, false, false], [false, a, false]];
    assert ps[..1] == [[true, false, false]];
    assert "a/1" in DetFaults[[true, false, false]];
    if a {
      assert DetFaults[[false, a, false]] == {"s/1", "b/1", "f/1"};
    } else {
      assert DetFaults[[false, a, false]] == {"b/1", "f/1"};
    }
  }
}
