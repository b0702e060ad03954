/**
 * The manager of hash-consed decision diagrams: variables and their
 * expansions, the variable/level permutation, the unique tables that make
 * every node and edge unique, the operation cache and garbage collection.
 */
module Manager {
  import opened Dd

  datatype Option<T> = None | Some(value: T)

  /** No element occurs twice. */
  predicate NoDup<T(==)>(s: seq<T>)
  {
    forall i, j :: 0 <= i < j < |s| ==> s[i] != s[j]
  }

  /**
   * Find or add (foa): the stored element equal to obj if there is one,
   * otherwise obj after inserting it. A table never holds two equal
   * elements and grows by at most one per call.
   */
  method Foa<T(==)>(obj: T, ut: seq<T>) returns (r: T, ut': seq<T>)
    requires NoDup(ut)
    ensures r == obj && r in ut'
    ensures obj in ut ==> ut' == ut
    ensures obj !in ut ==> ut' == ut + [obj]
    ensures NoDup(ut') && |ut'| <= |ut| + 1
  {
    var i := 0;
    while i < |ut|
      invariant 0 <= i <= |ut|
      invariant forall j :: 0 <= j < i ==> ut[j] != obj
    {
      if ut[i] == obj {
        return ut[i], ut;
      }
      i := i + 1;
    }
    return obj, ut + [obj];
  }

  /** The elements of s that are in keep, in their original order. */
  function Filter<T>(s: seq<T>, keep: set<T>): (r: seq<T>)
    ensures |r| <= |s|
    ensures forall i :: 0 <= i < |r| ==> r[i] in s && r[i] in keep
    ensures forall i :: 0 <= i < |s| && s[i] in keep ==> s[i] in r
  {
    if |s| == 0 then []
    else Filter(s[..|s| - 1], keep) + (if s[|s| - 1] in keep then [s[|s| - 1]] else [])
  }

  lemma {:induction false} FilterNoDup<T>(s: seq<T>, keep: set<T>)
    requires NoDup(s)
    ensures NoDup(Filter(s, keep))
    decreases |s|
  {
    if |s| > 0 {
      var p := s[..|s| - 1];
      assert NoDup(p);
      FilterNoDup(p, keep);
      assert s[|s| - 1] !in p;
    }
  }

  /** Erase every element outside keep while walking the table once. */
  method Cleanup<T>(ut: seq<T>, keep: set<T>) returns (r: seq<T>)
    ensures r == Filter(ut, keep)
  {
    r := [];
    var i := 0;
    while i < |ut|
      invariant 0 <= i <= |ut|
      invariant r == Filter(ut[..i], keep)
    {
      assert ut[..i + 1][..i] == ut[..i];
      if ut[i] in keep {
        r := r + [ut[i]];
      }
      i := i + 1;
    }
    assert ut[..|ut|] == ut;
  }

  // -------------------------------------------------------------------------
  // Level permutations

  /** var2lvl and lvl2var are mutually inverse permutations of 0..n-1. */
  ghost predicate Inverse(var2lvl: seq<nat>, lvl2var: seq<nat>)
  {
    && |var2lvl| == |lvl2var|
    && (forall x :: 0 <= x < |var2lvl| ==> var2lvl[x] < |lvl2var| && lvl2var[var2lvl[x]] == x)
    && (forall l :: 0 <= l < |lvl2var| ==> lvl2var[l] < |var2lvl| && var2lvl[lvl2var[l]] == l)
  }

  /** A new variable on a new bottom level keeps the two maps inverse. */
  lemma InverseGrow(var2lvl: seq<nat>, lvl2var: seq<nat>)
    requires Inverse(var2lvl, lvl2var)
    ensures Inverse(var2lvl + [|var2lvl|], lvl2var + [|var2lvl|])
  {
  }

  /** The order after moving the variable on level a to level b, the others keeping their relative order. */
  function Src(a: nat, b: nat, i: nat): nat
  {
    if i == b then a
    else if a <= b && a <= i < b then i + 1
    else if b < a && b < i <= a then i - 1
    else i
  }

  function Move(s: seq<nat>, a: nat, b: nat): (r: seq<nat>)
    requires a < |s| && b < |s|
    ensures |r| == |s| && r[b] == s[a]
  {
    seq(|s|, i requires 0 <= i < |s| => s[Src(a, b, i)])
  }

  function Transpose(s: seq<nat>, a: nat, b: nat): (r: seq<nat>)
    requires a < |s| && b < |s|
  {
    s[a := s[b]][b := s[a]]
  }

  lemma MoveSelf(s: seq<nat>, a: nat)
    requires a < |s|
    ensures Move(s, a, a) == s
  {
  }

  /** Moving a to b and then on to c is moving a to c. */
  lemma MoveMove(s: seq<nat>, a: nat, b: nat, c: nat)
    requires a < |s| && b < |s| && c < |s|
    ensures Move(Move(s, a, b), b, c) == Move(s, a, c)
  {
    forall i | 0 <= i < |s|
      ensures Move(Move(s, a, b), b, c)[i] == Move(s, a, c)[i]
    {
      assert Src(a, b, Src(b, c, i)) == Src(a, c, i);
    }
  }

  /** An adjacent exchange is a one-step move. */
  lemma ExchangeIsMove(s: seq<nat>, l: nat)
    requires l + 1 < |s|
    ensures Transpose(s, l, l + 1) == Move(s, l, l + 1) == Move(s, l + 1, l)
  {
  }

  /** The two sifts of swap realise the transposition of two distinct levels. */
  lemma TwoSiftsTranspose(s: seq<nat>, a: nat, b: nat)
    requires a < |s| && b < |s| && a != b
    ensures var c := if a < b then b - 1 else b + 1;
      c < |s| && Move(Move(s, a, b), c, a) == Transpose(s, a, b)
  {
    var c := if a < b then b - 1 else b + 1;
    forall i | 0 <= i < |s|
      ensures Move(Move(s, a, b), c, a)[i] == Transpose(s, a, b)[i]
    {
      assert Src(a, b, Src(c, a, i)) == if i == a then b else if i == b then a else i;
    }
  }

  /**
   * What swap(a, a) does: with two different variables on levels a and
   * a + 1 (always so in a valid manager) it changes the order, e.g.
   * swap(0, 0) on two variables turns [0, 1] into [1, 0].
   */
  lemma SwapSameLevelReorders(s: seq<nat>, a: nat)
    requires a + 1 < |s| && NoDup(s)
    ensures Transpose(s, a, a + 1) != s
    ensures Transpose([0, 1], 0, 1) == [1, 0]
  {
    assert Transpose(s, a, a + 1)[a] == s[a + 1] != s[a];
  }

  /** Levels of a valid manager hold distinct variables. */
  lemma InverseNoDup(var2lvl: seq<nat>, lvl2var: seq<nat>)
    requires Inverse(var2lvl, lvl2var)
    ensures NoDup(lvl2var)
  {
  }

  /** Decimal digits of n, most significant first (std::to_string). */
  function NatToString(n: nat): (r: string)
    ensures |r| >= 1 && forall i :: 0 <= i < |r| ==> '0' <= r[i] <= '9'
    decreases n
  {
    (if n < 10 then "" else NatToString(n / 10)) + [(('0' as int) + n % 10) as char]
  }

  function ParseNat(s: string): nat
    requires forall i :: 0 <= i < |s| ==> '0' <= s[i] <= '9'
    decreases |s|
  {
    if |s| == 0 then 0 else 10 * ParseNat(s[..|s| - 1]) + (s[|s| - 1] as int - '0' as int)
  }

  /** Distinct indices get distinct default labels. */
  lemma {:induction false} ParseNatToString(n: nat)
    ensures ParseNat(NatToString(n)) == n
    decreases n
  {
    var r := NatToString(n);
    var p := if n < 10 then "" else NatToString(n / 10);
    assert r[..|r| - 1] == p;
    if n >= 10 {
      ParseNatToString(n / 10);
    }
  }

  /** The per-variable part of gc: the tables cleaned in level order, each exactly once. */
  method CleanupLevels<T>(ts: seq<seq<T>>, var2lvl: seq<nat>, lvl2var: seq<nat>, live: set<T>)
    returns (ts': seq<seq<T>>)
    requires Inverse(var2lvl, lvl2var) && |ts| == |var2lvl|
    ensures |ts'| == |ts| && forall x :: 0 <= x < |ts| ==> ts'[x] == Filter(ts[x], live)
  {
    ts' := ts;
    var i := 0;
    while i < |lvl2var|
      invariant 0 <= i <= |lvl2var| && |ts'| == |ts|
      invariant forall x :: 0 <= x < |ts| ==> ts'[x] == if var2lvl[x] < i then Filter(ts[x], live) else ts[x]
    {
      var x := lvl2var[i];
      var c := Cleanup(ts'[x], live);
      ghost var prev := ts';
      ts' := ts'[x := c];
      forall y | 0 <= y < |ts|
        ensures ts'[y] == if var2lvl[y] < i + 1 then Filter(ts[y], live) else ts[y]
      {
        if y != x {
          assert var2lvl[y] != i;
          assert ts'[y] == prev[y];
        }
      }
      i := i + 1;
    }
  }

  // -------------------------------------------------------------------------
  // The manager

  /** Every node of a per-variable table is labelled with that variable. */
  ghost predicate NodesAt<E, V>(ut: seq<Node<E, V>>, x: nat)
  {
    forall i :: 0 <= i < |ut| ==> ut[i].Inner? && ut[i].x == x
  }

  ghost predicate EdgesAt<E, V>(ut: seq<Edge<E, V>>, x: nat)
  {
    forall i :: 0 <= i < |ut| ==> ut[i].v.Inner? && ut[i].v.x == x
  }

  /** The table work of gc: every per-level table and both leaf tables keep only their live entries. */
  method CollectTables<E(==), V(==)>(nt: seq<seq<Node<E, V>>>, et: seq<seq<Edge<E, V>>>,
                             nc: seq<Node<E, V>>, ec: seq<Edge<E, V>>,
                             var2lvl: seq<nat>, lvl2var: seq<nat>,
                             liveNodes: set<Node<E, V>>, liveEdges: set<Edge<E, V>>)
    returns (nt': seq<seq<Node<E, V>>>, et': seq<seq<Edge<E, V>>>, nc': seq<Node<E, V>>, ec': seq<Edge<E, V>>)
    requires Inverse(var2lvl, lvl2var) && |nt| == |et| == |var2lvl| && LevelTables(nt, et)
    requires NoDup(nc) && ConstNodes(nc) && NoDup(ec) && ConstEdges(ec)
    ensures Collected(nt, nt', liveNodes) && Collected(et, et', liveEdges)
    ensures nc' == Filter(nc, liveNodes) && ec' == Filter(ec, liveEdges)
    ensures LevelTables(nt', et') && NoDup(nc') && ConstNodes(nc') && NoDup(ec') && ConstEdges(ec')
  {
    nt' := CleanupLevels(nt, var2lvl, lvl2var, liveNodes);
    et' := CleanupLevels(et, var2lvl, lvl2var, liveEdges);
    LevelTablesFilter(nt, et, nt', et', liveNodes, liveEdges);
    ec' := Cleanup(ec, liveEdges);
    nc' := Cleanup(nc, liveNodes);
    FilterNoDup(ec, liveEdges);
    FilterNoDup(nc, liveNodes);
  }

  /** The unique table of level x holds distinct nodes (edges) labelled x. */
  ghost predicate LevelTables<E, V>(nt: seq<seq<Node<E, V>>>, et: seq<seq<Edge<E, V>>>)
  {
    && (forall x :: 0 <= x < |nt| ==> NoDup(nt[x]) && NodesAt(nt[x], x))
    && (forall x :: 0 <= x < |et| ==> NoDup(et[x]) && EdgesAt(et[x], x))
  }

  /** Appending an empty table for a new variable keeps the tables well-formed. */
  lemma LevelTablesGrow<E, V>(nt: seq<seq<Node<E, V>>>, et: seq<seq<Edge<E, V>>>)
    requires LevelTables(nt, et)
    ensures LevelTables(nt + [[]], et + [[]])
  {
    assert forall x :: 0 <= x < |nt| ==> (nt + [[]])[x] == nt[x];
    assert forall x :: 0 <= x < |et| ==> (et + [[]])[x] == et[x];
  }

  /** Dropping dead entries from every level keeps the tables well-formed. */
  lemma LevelTablesFilter<E, V>(nt: seq<seq<Node<E, V>>>, et: seq<seq<Edge<E, V>>>,
                                nt': seq<seq<Node<E, V>>>, et': seq<seq<Edge<E, V>>>,
                                liveNodes: set<Node<E, V>>, liveEdges: set<Edge<E, V>>)
    requires LevelTables(nt, et) && |nt'| == |nt| && |et'| == |et|
    requires forall x :: 0 <= x < |nt| ==> nt'[x] == Filter(nt[x], liveNodes)
    requires forall x :: 0 <= x < |et| ==> et'[x] == Filter(et[x], liveEdges)
    ensures LevelTables(nt', et')
  {
    forall x | 0 <= x < |nt'|
      ensures NoDup(nt'[x]) && NodesAt(nt'[x], x)
    {
      FilterNoDup(nt[x], liveNodes);
    }
    forall x | 0 <= x < |et'|
      ensures NoDup(et'[x]) && EdgesAt(et'[x], x)
    {
      FilterNoDup(et[x], liveEdges);
    }
  }

  /** ts' is ts with, on every level, the entries outside live dropped. */
  ghost predicate Collected<T>(ts: seq<seq<T>>, ts': seq<seq<T>>, live: set<T>)
  {
    |ts'| == |ts| && forall x :: 0 <= x < |ts| ==> ts'[x] == Filter(ts[x], live)
  }

  ghost predicate ConstNodes<E, V>(ut: seq<Node<E, V>>)
  {
    forall i :: 0 <= i < |ut| ==> ut[i].Leaf?
  }

  ghost predicate ConstEdges<E, V>(ut: seq<Edge<E, V>>)
  {
    forall i :: 0 <= i < |ut| ==> ut[i].v.Leaf?
  }

  /**
   * E and V are the weight and value types of a flavour, K and R the key and
   * result types of its operation cache.
   */
  class Manager<E(==), V(==), K(==), R>
  {
    var types: seq<Expansion>          // expansion of each variable
    var labels: seq<string>            // name of each variable
    var vars: seq<Edge<E, V>>          // the projection function of each variable
    var consts: seq<Edge<E, V>>        // contradiction, tautology, ...
    var var2lvl: seq<nat>
    var lvl2var: seq<nat>
    var nt: seq<seq<Node<E, V>>>       // unique node table per variable
    var et: seq<seq<Edge<E, V>>>       // unique edge table per variable
    var nc: seq<Node<E, V>>            // unique table of leaves
    var ec: seq<Edge<E, V>>            // unique table of edges to leaves
    var ct: map<K, R>                  // operation cache
    ghost var exchanges: nat           // adjacent level exchanges performed so far

    function VarCount(): nat
      reads this
    {
      |types|
    }

    ghost predicate Valid()
      reads this
    {
      && |labels| == |vars| == |var2lvl| == |lvl2var| == |nt| == |et| == |types|
      && |consts| >= 2
      && Inverse(var2lvl, lvl2var)
      && LevelTables(nt, et)
      && NoDup(nc) && ConstNodes(nc) && NoDup(ec) && ConstEdges(ec)
    }

    /** The variable order the diagrams of this manager are read with. */
    function Order(): Order
      reads this
    {
      Dd.Order(types, var2lvl)
    }

    lemma OrderValid()
      requires Valid()
      ensures Order().Valid()
    {
      forall x, y | 0 <= x < |types| && 0 <= y < |types| && x != y
        ensures var2lvl[x] != var2lvl[y]
      {
        assert lvl2var[var2lvl[x]] == x && lvl2var[var2lvl[y]] == y;
      }
    }

    /** The terminal edges are stored in the constant tables and become consts, in order. */
    constructor(tmls: seq<Edge<E, V>>)
      requires |tmls| == 2 && tmls[0].v.Leaf? && tmls[1].v.Leaf?
      ensures Valid() && consts == tmls
      ensures types == [] && vars == [] && ct == map[] && exchanges == 0
      ensures forall i :: 0 <= i < |tmls| ==> tmls[i] in ec && tmls[i].v in nc
    {
      types, labels, vars := [], [], [];
      var2lvl, lvl2var := [], [];
      nt, et := [], [];
      ct := map[];
      exchanges := 0;
      var c: seq<Edge<E, V>> := [];
      var nc', ec' := [], [];
      for i := 0 to |tmls|
        invariant c == tmls[..i]
        invariant NoDup(nc') && ConstNodes(nc') && NoDup(ec') && ConstEdges(ec')
        invariant forall j :: 0 <= j < i ==> tmls[j] in ec' && tmls[j].v in nc'
        invariant forall j :: 0 <= j < |ec'| ==> ec'[j] in tmls[..i]
        invariant forall j :: 0 <= j < |nc'| ==> nc'[j].Leaf?
      {
        var v;
        v, nc' := Foa(tmls[i].v, nc');
        var e;
        e, ec' := Foa(tmls[i], ec');
        c := c + [e];
      }
      nc, ec := nc', ec';
      consts := c;
    }

    /** unode: the unique node (x, hi, lo). */
    method UNode(x: nat, hi: Edge<E, V>, lo: Edge<E, V>) returns (v: Node<E, V>)
      requires Valid() && x < VarCount()
      modifies this
      ensures types == old(types) && |nt| == |old(nt)|
      ensures Valid() && v == Inner(x, hi, lo) && v in nt[x]
      ensures nt == old(nt)[x := nt[x]] && |nt[x]| <= |old(nt)[x]| + 1
      ensures forall u :: u in old(nt)[x] ==> u in nt[x]
      ensures nt[x] == if v in old(nt)[x] then old(nt)[x] else old(nt)[x] + [v]
      ensures types == old(types) && labels == old(labels) && vars == old(vars) && consts == old(consts)
      ensures var2lvl == old(var2lvl) && lvl2var == old(lvl2var) && et == old(et)
      ensures nc == old(nc) && ec == old(ec) && ct == old(ct) && exchanges == old(exchanges)
    {
      var ut;
      v, ut := Foa(Inner(x, hi, lo), nt[x]);
      nt := nt[x := ut];
    }

    /** uedge: the unique edge (w, v), in the table of v's variable or of the constants. */
    method UEdge(w: E, v: Node<E, V>) returns (e: Edge<E, V>)
      requires Valid() && (v.Inner? ==> v.x < VarCount())
      modifies this
      ensures types == old(types) && |et| == |old(et)|
      ensures Valid() && e == Edge(w, v)
      ensures v.Leaf? ==> e in ec && et == old(et)
      ensures v.Inner? ==> e in et[v.x] && ec == old(ec) && et == old(et)[v.x := et[v.x]]
      ensures v.Inner? ==> et[v.x] == if e in old(et)[v.x] then old(et)[v.x] else old(et)[v.x] + [e]
      ensures types == old(types) && labels == old(labels) && vars == old(vars) && consts == old(consts)
      ensures var2lvl == old(var2lvl) && lvl2var == old(lvl2var) && nt == old(nt)
      ensures nc == old(nc) && ct == old(ct) && exchanges == old(exchanges)
    {
      if v.Leaf? {
        e, ec := Foa(Edge(w, v), ec);
      } else {
        var ut;
        e, ut := Foa(Edge(w, v), et[v.x]);
        et := et[v.x := ut];
      }
    }

    /**
     * make_var: a new variable n with its expansion and label ("x" followed
     * by n when none is given), placed on the new bottom level n. Its
     * function is the node (n, consts[1], consts[0]) under the regular
     * weight, or under the weight of consts[1] for negative Davio.
     */
    method MakeVar(t: Expansion, l: string, regw: E) returns (f: Edge<E, V>)
      requires Valid()
      modifies this
      ensures Valid()
      ensures types == old(types) + [t] && VarCount() == old(VarCount()) + 1
      ensures labels == old(labels) + [if |l| == 0 then "x" + NatToString(old(VarCount())) else l]
      ensures var2lvl == old(var2lvl) + [old(VarCount())] && lvl2var == old(lvl2var) + [old(VarCount())]
      ensures f == Edge(if t == ND then old(consts)[1].w else regw, Inner(old(VarCount()), old(consts)[1], old(consts)[0]))
      ensures vars == old(vars) + [f] && consts == old(consts) && ct == old(ct)
      ensures nt == old(nt) + [[f.v]] && et == old(et) + [[f]]
      ensures nc == old(nc) && ec == old(ec) && exchanges == old(exchanges)
    {
      var n := |types|;
      AddSlot(t, if |l| == 0 then "x" + NatToString(n) else l);
      ghost var nt0, et0 := nt, et;
      assert nt0[n] == [] && et0[n] == [];
      var v := UNode(n, consts[1], consts[0]);
      assert v !in nt0[n] && nt0[n] + [v] == [v];
      assert nt[n] == [v];
      assert nt == nt0[n := [v]];
      var w := if t == ND then consts[1].w else regw;
      f := UEdge(w, v);
      assert f !in et0[n] && et0[n] + [f] == [f];
      assert et[n] == [f];
      assert et == et0[n := [f]];
      vars := vars[n := f];
    }

    /** The bookkeeping part of make_var: a new variable on a new bottom level with empty tables. */
    method AddSlot(t: Expansion, name: string)
      requires Valid()
      modifies this
      ensures Valid()
      ensures types == old(types) + [t] && labels == old(labels) + [name]
      ensures var2lvl == old(var2lvl) + [|old(types)|] && lvl2var == old(lvl2var) + [|old(types)|]
      ensures vars == old(vars) + [old(consts)[1]] && consts == old(consts) && ct == old(ct)
      ensures nt == old(nt) + [[]] && et == old(et) + [[]]
      ensures nc == old(nc) && ec == old(ec) && exchanges == old(exchanges)
    {
      var n := |types|;
      types := types + [t];
      labels := labels + [name];
      nt := nt + [[]];
      et := et + [[]];
      var2lvl := var2lvl + [n];
      lvl2var := lvl2var + [n];
      vars := vars + [consts[1]];
      LevelTablesGrow(old(nt), old(et));
      InverseGrow(old(var2lvl), old(lvl2var));
    }

    /** make_const: the unique edge (w, leaf c). */
    method MakeConst(w: E, c: V) returns (f: Edge<E, V>)
      requires Valid()
      modifies this
      ensures Valid() && f == Edge(w, Leaf(c))
      ensures nc == if f.v in old(nc) then old(nc) else old(nc) + [f.v]
      ensures ec == if f in old(ec) then old(ec) else old(ec) + [f]
      ensures labels == old(labels) && exchanges == old(exchanges)
      ensures types == old(types) && vars == old(vars) && consts == old(consts) && ct == old(ct)
      ensures var2lvl == old(var2lvl) && lvl2var == old(lvl2var) && nt == old(nt) && et == old(et)
    {
      var v;
      v, nc := Foa(Leaf(c), nc);
      f, ec := Foa(Edge(w, v), ec);
    }

    // -----------------------------------------------------------------------
    // Operation cache

    /** cached: the stored result for key k, if any. */
    method Cached(k: K) returns (r: Option<R>)
      ensures r == if k in ct then Some(ct[k]) else None
    {
      r := if k in ct then Some(ct[k]) else None;
    }

    /**
     * cache: insert the result of k unless k is already cached; the result
     * handed back is the one stored, so a cached result is never overwritten.
     */
    method Cache(k: K, res: R) returns (r: R)
      modifies this
      ensures ct == if k in old(ct) then old(ct) else old(ct)[k := res]
      ensures r == ct[k] && (k in old(ct) ==> r == old(ct)[k])
      ensures types == old(types) && labels == old(labels) && vars == old(vars) && consts == old(consts)
      ensures var2lvl == old(var2lvl) && lvl2var == old(lvl2var) && nt == old(nt) && et == old(et)
      ensures nc == old(nc) && ec == old(ec) && exchanges == old(exchanges)
    {
      if k !in ct {
        ct := ct[k := res];
      }
      r := ct[k];
    }

    // -----------------------------------------------------------------------
    // Garbage collection

    /**
     * gc: clear the cache, then erase from every unique table, level by
     * level, the nodes and edges no longer referenced from outside (those not
     * in liveNodes and liveEdges).
     */
    method Gc(liveNodes: set<Node<E, V>>, liveEdges: set<Edge<E, V>>)
      requires Valid()
      modifies this
      ensures Valid() && ct == map[]
      ensures Collected(old(nt), nt, liveNodes) && Collected(old(et), et, liveEdges)
      ensures nc == Filter(old(nc), liveNodes) && ec == Filter(old(ec), liveEdges)
      ensures types == old(types) && labels == old(labels) && vars == old(vars) && consts == old(consts)
      ensures var2lvl == old(var2lvl) && lvl2var == old(lvl2var) && exchanges == old(exchanges)
    {
      var nt', et', n, e := CollectTables(nt, et, nc, ec, var2lvl, lvl2var, liveNodes, liveEdges);
      ct, ec, nc, nt, et := map[], e, n, nt', et';
    }
  
    // -----------------------------------------------------------------------
    // Variable reordering

    /** Everything but the order, the cache and the exchange count stays. */
    twostate predicate OnlyOrderChanged()
      reads this
    {
      && types == old(types) && labels == old(labels) && vars == old(vars) && consts == old(consts)
      && nt == old(nt) && et == old(et) && nc == old(nc) && ec == old(ec)
    }

    /**
     * exchange: swap level lvl with the level below; nothing happens at the
     * bottom level. The garbage collection around the swap empties the cache.
     */
    method Exchange(lvl: nat)
      requires Valid() && lvl < VarCount() && VarCount() > 1
      modifies this
      ensures Valid() && OnlyOrderChanged()
      ensures lvl == VarCount() - 1 ==>
        var2lvl == old(var2lvl) && lvl2var == old(lvl2var) && ct == old(ct) && exchanges == old(exchanges)
      ensures lvl < VarCount() - 1 ==>
        && lvl2var == Transpose(old(lvl2var), lvl, lvl + 1)
        && var2lvl == old(var2lvl)[old(lvl2var)[lvl] := lvl + 1][old(lvl2var)[lvl + 1] := lvl]
        && ct == map[] && exchanges == old(exchanges) + 1
    {
      if lvl == |types| - 1 {
        return;
      }
      ct := map[];
      var x := lvl2var[lvl];
      var y := lvl2var[lvl + 1];
      lvl2var := lvl2var[lvl := y][lvl + 1 := x];
      var2lvl := var2lvl[x := lvl + 1][y := lvl];
      exchanges := exchanges + 1;
    }

    /**
     * sift: move the variable on level a to level b by |a - b| adjacent
     * exchanges; the variables in between keep their relative order.
     */
    method Sift(a: nat, b: nat)
      requires Valid() && a < VarCount() && b < VarCount()
      modifies this
      ensures Valid() && OnlyOrderChanged()
      ensures lvl2var == Move(old(lvl2var), a, b)
      ensures exchanges == old(exchanges) + (if a <= b then b - a else a - b)
      ensures a == b ==> ct == old(ct) && var2lvl == old(var2lvl)
      ensures a != b ==> ct == map[]
    {
      MoveSelf(lvl2var, a);
      if a < b {
        SiftLower(a, b);
      } else if b < a {
        SiftHigher(a, b);
      }
    }

    /** The downward half of sift: b - a exchanges, from level a on. */
    method SiftLower(a: nat, b: nat)
      requires Valid() && a < b < VarCount()
      modifies this
      ensures Valid() && OnlyOrderChanged()
      ensures lvl2var == Move(old(lvl2var), a, b)
      ensures exchanges == old(exchanges) + (b - a) && ct == map[]
    {
      ghost var s0 := lvl2var;
      ghost var e0 := exchanges;
      MoveSelf(s0, a);
      var l := a;
      while l != b
        invariant a <= l <= b && Valid() && OnlyOrderChanged()
        invariant lvl2var == Move(s0, a, l) && exchanges == e0 + (l - a)
        invariant l > a ==> ct == map[]
      {
        Exchange(l);
        ExchangeIsMove(Move(s0, a, l), l);
        MoveMove(s0, a, l, l + 1);
        l := l + 1;
      }
    }

    /** The upward half of sift: a - b exchanges, from level a - 1 up. */
    method SiftHigher(a: nat, b: nat)
      requires Valid() && b < a < VarCount()
      modifies this
      ensures Valid() && OnlyOrderChanged()
      ensures lvl2var == Move(old(lvl2var), a, b)
      ensures exchanges == old(exchanges) + (a - b) && ct == map[]
    {
      ghost var s0 := lvl2var;
      ghost var e0 := exchanges;
      MoveSelf(s0, a);
      var l: int := a - 1;
      while l != b - 1
        invariant b - 1 <= l <= a - 1 && Valid() && OnlyOrderChanged()
        invariant lvl2var == Move(s0, a, l + 1) && exchanges == e0 + (a - 1 - l)
        invariant l < a - 1 ==> ct == map[]
      {
        Exchange(l);
        ExchangeIsMove(Move(s0, a, l + 1), l);
        MoveMove(s0, a, l + 1, l);
        l := l - 1;
      }
    }

    /**
     * swap as written: sift a to b, then sift the level next to b back to a.
     * For distinct levels this transposes them; for a == b the second sift
     * moves level a + 1 up to a, so the two levels are exchanged.
     */
    method Swap(a: nat, b: nat)
      requires Valid() && a < VarCount() && b < VarCount()
      requires a >= b ==> b + 1 < VarCount()
      modifies this
      ensures Valid() && OnlyOrderChanged()
      ensures a != b ==> lvl2var == Transpose(old(lvl2var), a, b)
      ensures a == b ==> lvl2var == Transpose(old(lvl2var), a, a + 1)
    {
      Sift(a, b);
      Sift(if a < b then b - 1 else b + 1, a);
      if a != b {
        TwoSiftsTranspose(old(lvl2var), a, b);
      } else {
        ExchangeIsMove(old(lvl2var), a);
      }
    }

    /** swap with the a == b case returning early: the transposition of levels a and b. */
    method SwapFixed(a: nat, b: nat)
      requires Valid() && a < VarCount() && b < VarCount()
      modifies this
      ensures Valid() && OnlyOrderChanged()
      ensures lvl2var == Transpose(old(lvl2var), a, b)
    {
      if a == b {
        return;
      }
      Sift(a, b);
      Sift(if a < b then b - 1 else b + 1, a);
      TwoSiftsTranspose(old(lvl2var), a, b);
    }

    /**
     * sift_down: exchange the variable on level lvl0 downwards while the
     * node count grows by no more than the growth factor, remembering the
     * level with the fewest nodes. cost stands for node_count(), which
     * depends on the order only; base and p0 describe the order the sift of
     * this variable started from.
     */
    method SiftDown(lvl0: nat, lvlMin0: nat, ncntMin0: nat, cost: seq<nat> -> nat, growth: real,
                    ghost base: seq<nat>, ghost p0: nat)
      returns (lvl: nat, lvlMin: nat, ncntMin: nat)
      requires Valid() && lvl0 < VarCount() && lvlMin0 < VarCount() && ncntMin0 > 0
      requires |base| == VarCount() && p0 < VarCount()
      requires lvl2var == Move(base, p0, lvl0) && ncntMin0 == cost(Move(base, p0, lvlMin0))
      modifies this
      ensures Valid() && OnlyOrderChanged()
      ensures lvl0 <= lvl < VarCount() && lvlMin < VarCount()
      ensures lvl2var == Move(base, p0, lvl)
      ensures ncntMin == cost(Move(base, p0, lvlMin)) && ncntMin <= ncntMin0
    {
      lvl, lvlMin, ncntMin := lvl0, lvlMin0, ncntMin0;
      var start, end := 0, 0;
      while lvl != VarCount() - 1 && growth * (start as real) >= end as real
        invariant Valid() && OnlyOrderChanged()
        invariant lvl0 <= lvl < VarCount() && lvlMin < VarCount()
        invariant lvl2var == Move(base, p0, lvl)
        invariant ncntMin == cost(Move(base, p0, lvlMin)) && ncntMin <= ncntMin0
        decreases VarCount() - lvl
      {
        start := cost(lvl2var);
        Exchange(lvl);
        ExchangeIsMove(Move(base, p0, lvl), lvl);
        MoveMove(base, p0, lvl, lvl + 1);
        lvl := lvl + 1;
        end := cost(lvl2var);
        if end < ncntMin {
          lvlMin := lvl;
          ncntMin := end;
        }
      }
    }

    /** sift_up: the same upwards; the level returned is where the variable now sits. */
    method SiftUp(lvl0: nat, lvlMin0: nat, ncntMin0: nat, cost: seq<nat> -> nat, growth: real,
                  ghost base: seq<nat>, ghost p0: nat)
      returns (lvl: nat, lvlMin: nat, ncntMin: nat)
      requires Valid() && lvl0 < VarCount() && lvlMin0 < VarCount() && ncntMin0 > 0
      requires |base| == VarCount() && p0 < VarCount()
      requires lvl2var == Move(base, p0, lvl0) && ncntMin0 == cost(Move(base, p0, lvlMin0))
      modifies this
      ensures Valid() && OnlyOrderChanged()
      ensures lvl <= lvl0 && lvlMin < VarCount()
      ensures lvl2var == Move(base, p0, lvl)
      ensures ncntMin == cost(Move(base, p0, lvlMin)) && ncntMin <= ncntMin0
    {
      var l: int := lvl0;
      lvlMin, ncntMin := lvlMin0, ncntMin0;
      var start, end := 0, 0;
      while true
        invariant Valid() && OnlyOrderChanged()
        invariant 0 <= l <= lvl0 && lvlMin < VarCount()
        invariant lvl2var == Move(base, p0, l)
        invariant ncntMin == cost(Move(base, p0, lvlMin)) && ncntMin <= ncntMin0
        decreases l
      {
        l := l - 1;
        if l == -1 || !(growth * (start as real) >= end as real) {
          break;
        }
        start := cost(lvl2var);
        Exchange(l);
        ExchangeIsMove(Move(base, p0, l + 1), l);
        MoveMove(base, p0, l + 1, l);
        end := cost(lvl2var);
        if end < ncntMin {
          lvlMin := l;
          ncntMin := end;
        }
      }
      lvl := l + 1;
    }

    /**
     * reorder (sifting): each variable in turn is sifted down, then up, and
     * finally moved to the level where the node count was smallest. The
     * node count of the final order is the smallest one seen, hence never
     * above the count before reordering.
     */
    method Reorder(cost: seq<nat> -> nat, growth: real)
      requires Valid() && forall p: seq<nat> :: cost(p) > 0
      modifies this
      ensures Valid() && OnlyOrderChanged()
      ensures cost(lvl2var) <= cost(old(lvl2var))
    {
      var ncntMin := cost(lvl2var);
      for x := 0 to VarCount()
        invariant Valid() && OnlyOrderChanged()
        invariant ncntMin == cost(lvl2var) && ncntMin <= cost(old(lvl2var))
      {
        ghost var base := lvl2var;
        var p0 := var2lvl[x];
        var lvlMin := p0;
        MoveSelf(base, p0);
        var lvlStop;
        lvlStop, lvlMin, ncntMin := SiftDown(p0, lvlMin, ncntMin, cost, growth, base, p0);
        lvlStop, lvlMin, ncntMin := SiftUp(lvlStop, lvlMin, ncntMin, cost, growth, base, p0);
        Sift(lvlStop, lvlMin);
        MoveMove(base, p0, lvlStop, lvlMin);
      }
    }
}
}
