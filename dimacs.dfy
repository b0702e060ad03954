/**
 * The DPLL SAT solver of the BHD debugging example: a DIMACS CNF reader,
 * unit propagation, branching with backtracking, and the MUX stuck-at fault
 * localisation that consumes its solutions.
 *
 * A literal on variable x (zero-indexed) is stored as the code 2x when it is
 * negative and 2x+1 when it is positive, so code / 2 is its variable and
 * code % 2 its polarity.
 */
module Dimacs {
  import O = Objects

  // ---------------------------------------------------------------------------
  // Literal codes
  // ---------------------------------------------------------------------------

  function Abs(i: int): nat { if i < 0 then -i else i }

  /** The stored code of the DIMACS literal lit (-k or +k for variable k-1). */
  function Encode(lit: int): (c: nat)
    requires lit != 0
    ensures c / 2 == Abs(lit) - 1
    ensures c % 2 == 1 <==> lit > 0
  {
    if lit < 0 then 2 * (-lit - 1) else 2 * (lit - 1) + 1
  }

  /** The DIMACS literal a code stands for. */
  function Decode(c: nat): (lit: int)
    ensures lit != 0 && Abs(lit) == c / 2 + 1
    ensures lit > 0 <==> c % 2 == 1
  {
    if c % 2 == 1 then c / 2 + 1 else -(c / 2) - 1
  }

  /** Encoding and decoding are mutually inverse. */
  lemma EncodeDecode(lit: int, c: nat)
    requires lit != 0
    ensures Decode(Encode(lit)) == lit
    ensures Encode(Decode(c)) == c
  {
  }

  // ---------------------------------------------------------------------------
  // Clauses and their meaning
  // ---------------------------------------------------------------------------

  /** Literal code l holds under the total assignment a. */
  predicate LitTrue(a: seq<bool>, l: nat)
  {
    l / 2 < |a| && a[l / 2] == (l % 2 == 1)
  }

  predicate ClauseHolds(a: seq<bool>, c: seq<nat>)
  {
    exists l :: l in c && LitTrue(a, l)
  }

  predicate Satisfies(a: seq<bool>, F: seq<seq<nat>>)
  {
    forall i :: 0 <= i < |F| ==> ClauseHolds(a, F[i])
  }

  ghost predicate Satisfiable(F: seq<seq<nat>>, n: nat)
  {
    exists a :: |a| == n && Satisfies(a, F)
  }

  predicate NonEmpty(F: seq<seq<nat>>)
  {
    forall i :: 0 <= i < |F| ==> |F[i]| > 0
  }

  /** Every literal of F is on a variable below n. */
  predicate InRange(F: seq<seq<nat>>, n: nat)
  {
    forall i, l :: 0 <= i < |F| && l in F[i] ==> l / 2 < n
  }

  // ---------------------------------------------------------------------------
  // Occurrence counts: lits[x] and pols[x]
  // ---------------------------------------------------------------------------

  /** Number of literals of c on variable x. */
  function CountVar(c: seq<nat>, x: int): nat
  {
    if c == [] then 0
    else CountVar(c[..|c| - 1], x) + (if c[|c| - 1] / 2 == x then 1 else 0)
  }

  /** Positive minus negative literals of c on variable x. */
  function PolVar(c: seq<nat>, x: int): int
  {
    if c == [] then 0
    else PolVar(c[..|c| - 1], x) + (if c[|c| - 1] / 2 != x then 0 else if c[|c| - 1] % 2 == 1 then 1 else -1)
  }

  function Occ(F: seq<seq<nat>>, x: int): nat
  {
    if F == [] then 0 else Occ(F[..|F| - 1], x) + CountVar(F[|F| - 1], x)
  }

  function Pol(F: seq<seq<nat>>, x: int): int
  {
    if F == [] then 0 else Pol(F[..|F| - 1], x) + PolVar(F[|F| - 1], x)
  }

  lemma {:induction false} CountVarPositive(c: seq<nat>, l: nat)
    requires l in c
    ensures CountVar(c, l / 2) > 0
    decreases |c|
  {
    if c[|c| - 1] != l {
      assert c == c[..|c| - 1] + [c[|c| - 1]];
      CountVarPositive(c[..|c| - 1], l);
    }
  }

  /** A variable that occurs in F has a positive count. */
  lemma {:induction false} OccPositive(F: seq<seq<nat>>, i: nat, l: nat)
    requires i < |F| && l in F[i]
    ensures Occ(F, l / 2) > 0
    decreases |F|
  {
    if i == |F| - 1 {
      CountVarPositive(F[i], l);
    } else {
      OccPositive(F[..|F| - 1], i, l);
    }
  }

  lemma {:induction false} PolVarBounded(c: seq<nat>, x: int)
    ensures Abs(PolVar(c, x)) <= CountVar(c, x)
    decreases |c|
  {
    if c != [] {
      PolVarBounded(c[..|c| - 1], x);
    }
  }

  /** The polarity balance of a variable never exceeds its occurrence count. */
  lemma {:induction false} PolBounded(F: seq<seq<nat>>, x: int)
    ensures Abs(Pol(F, x)) <= Occ(F, x)
    decreases |F|
  {
    if F != [] {
      PolBounded(F[..|F| - 1], x);
      PolVarBounded(F[|F| - 1], x);
    }
  }

  // ---------------------------------------------------------------------------
  // Problem instance
  // ---------------------------------------------------------------------------

  /**
   * vars holds the partial assignment, lits the occurrence count of each
   * variable (zeroed once the variable is assigned), pols positive minus
   * negative occurrences, clauses the literal codes.
   */
  datatype Cnf = Cnf(vars: seq<O.Option<bool>>, lits: seq<nat>, pols: seq<int>, clauses: seq<seq<nat>>)

  /** The instance the reader builds for n variables and clauses F. */
  function Fresh(n: nat, F: seq<seq<nat>>): (q: Cnf)
    ensures |q.vars| == |q.lits| == |q.pols| == n && q.clauses == F
    ensures forall y :: 0 <= y < n ==> q.vars[y].None? && q.lits[y] == Occ(F, y) && q.pols[y] == Pol(F, y)
  {
    Cnf(seq(n, _ => O.None), seq(n, y => Occ(F, y)), seq(n, y => Pol(F, y)), F)
  }

  // ---------------------------------------------------------------------------
  // DIMACS reader
  // ---------------------------------------------------------------------------

  /**
   * The input as tokens: a comment line, the problem line with its format
   * word, or a number.
   */
  datatype Tok = Comment | Header(format: string) | Num(n: int)

  /**
   * One extraction `>> x` of a number from position pos. A number token is
   * read and passed. Any other token makes the extraction fail: 0 is stored
   * and the stream stays failed, which the model expresses by moving to the
   * end. At the end of the input the extraction fails before converting
   * anything, so x keeps its value.
   */
  function Extract(t: seq<Tok>, pos: nat, x: int): (r: (int, nat))
    requires pos <= |t|
    ensures pos <= r.1 <= |t|
    ensures r.1 == pos <==> pos == |t|
    ensures pos == |t| ==> r.0 == x
    ensures pos < |t| ==> r.0 == (if t[pos].Num? then t[pos].n else 0)
  {
    if pos == |t| then (x, pos)
    else if t[pos].Num? then (t[pos].n, pos + 1)
    else (0, |t|)
  }

  /**
   * Position just after the "p cnf" line, skipping comment lines; the end of
   * the input when it ends before any other line, where every later
   * extraction fails; None when the first other line is not "p cnf".
   */
  function HeaderEnd(t: seq<Tok>, pos: nat): (r: O.Option<nat>)
    requires pos <= |t|
    ensures r.Some? ==> pos <= r.value <= |t|
    ensures r.Some? ==> (pos < r.value && t[r.value - 1] == Header("cnf")) || (r.value == |t| && forall k :: pos <= k < |t| ==> t[k] == Comment)
    decreases |t| - pos
  {
    if pos == |t| then O.Some(pos)
    else match t[pos]
      case Comment => HeaderEnd(t, pos + 1)
      case Header(f) => if f == "cnf" then O.Some(pos + 1) else O.None
      case Num(_) => O.None
  }

  /**
   * The rest of a clause once the literal lit has been read, up to the 0
   * that ends it. None when a literal names an undeclared variable, and when
   * the input ends before the 0: the next extraction then keeps lit, so the
   * source's loop never ends.
   */
  function ReadRest(t: seq<Tok>, pos: nat, n: nat, lit: int): (r: O.Option<(seq<nat>, nat)>)
    requires pos <= |t|
    ensures r.Some? ==> pos <= r.value.1 <= |t| && forall l :: l in r.value.0 ==> l / 2 < n
    ensures pos == |t| ==> (r.Some? <==> lit == 0)
    decreases |t| - pos
  {
    if lit == 0 then O.Some(([], pos))
    else if Abs(lit) > n then O.None
    else
      var (next, p) := Extract(t, pos, lit);
      if p == pos then O.None
      else match ReadRest(t, p, n, next)
        case None => O.None
        case Some(rc) => O.Some(([Encode(lit)] + rc.0, rc.1))
  }

  /** One clause: its first literal is extracted, then the rest is read. */
  function ReadClause(t: seq<Tok>, pos: nat, n: nat): (r: O.Option<(seq<nat>, nat)>)
    requires pos <= |t|
    ensures r.Some? ==> pos <= r.value.1 <= |t| && forall l :: l in r.value.0 ==> l / 2 < n
    ensures pos == |t| ==> r == O.Some(([], pos))
  {
    var (lit, p) := Extract(t, pos, 0);
    ReadRest(t, p, n, lit)
  }

  /** m clauses in a row; a clause that starts at the end of the input is empty. */
  function ReadClauses(t: seq<Tok>, pos: nat, n: nat, m: nat): (r: O.Option<(seq<seq<nat>>, nat)>)
    requires pos <= |t|
    ensures r.Some? ==> |r.value.0| == m && pos <= r.value.1 <= |t| && InRange(r.value.0, n)
    decreases m
  {
    if m == 0 then O.Some(([], pos))
    else match ReadClause(t, pos, n)
      case None => O.None
      case Some(rc) =>
        match ReadClauses(t, rc.1, n, m - 1)
        case None => O.None
        case Some(rs) => O.Some(([rc.0] + rs.0, rs.1))
  }

  /**
   * The instance a DIMACS CNF stream describes. None where the source fails
   * an assertion (a line other than a comment before "p cnf", a literal
   * beyond the declared variables), where a negative count makes the
   * resize fail, and where a clause runs into the end of the input and the
   * source never stops reading it. A missing count reads as 0.
   */
  function Parse(t: seq<Tok>): (r: O.Option<Cnf>)
    ensures r.Some? ==> InRange(r.value.clauses, |r.value.vars|)
  {
    match HeaderEnd(t, 0)
    case None => O.None
    case Some(h) =>
      var (n, p) := Extract(t, h, 0);
      var (m, q) := Extract(t, p, 0);
      if n < 0 || m < 0 then O.None
      else
        match ReadClauses(t, q, n, m)
        case None => O.None
        case Some(rs) => O.Some(Fresh(n, rs.0))
  }

  /** A stream with comments only reads as the empty instance. */
  lemma CommentsOnly(k: nat)
    ensures Parse(seq(k, _ => Comment)) == O.Some(Fresh(0, []))
  {
    var t: seq<Tok> := seq(k, _ => Comment);
    assert forall j :: 0 <= j <= k ==> HeaderEnd(t, j) == O.Some(k) by {
      forall j | 0 <= j <= k
        ensures HeaderEnd(t, j) == O.Some(k)
      {
        HeaderEndComments(t, j);
      }
    }
  }

  lemma {:induction false} HeaderEndComments(t: seq<Tok>, j: nat)
    requires j <= |t| && forall k :: 0 <= k < |t| ==> t[k] == Comment
    ensures HeaderEnd(t, j) == O.Some(|t|)
    decreases |t| - j
  {
    if j < |t| {
      HeaderEndComments(t, j + 1);
    }
  }

  /** Clauses missing at the end of the input read as empty clauses. */
  lemma MissingClauses()
    ensures Parse([Header("cnf"), Num(1), Num(3), Num(-1), Num(0)]) == O.Some(Fresh(1, [[0], [], []]))
  {
    var t := [Header("cnf"), Num(1), Num(3), Num(-1), Num(0)];
    assert HeaderEnd(t, 0) == O.Some(1);
    assert Extract(t, 1, 0) == (1, 2) && Extract(t, 2, 0) == (3, 3);
    assert Extract(t, 3, 0) == (-1, 4) && Extract(t, 4, -1) == (0, 5);
    assert ReadRest(t, 5, 1, 0) == O.Some(([], 5));
    assert Encode(-1) == 0;
    assert [Encode(-1)] + [] == [0];
    assert ReadRest(t, 4, 1, -1) == O.Some(([0], 5));
    assert ReadClause(t, 3, 1) == O.Some(([0], 5));
    assert ReadClause(t, 5, 1) == O.Some(([], 5));
    assert ReadClauses(t, 5, 1, 0) == O.Some(([], 5));
    var e: seq<nat> := [];
    assert [e] + [] == [e] && [e] + [e] == [e, e] && [[0 as nat]] + [e, e] == [[0], e, e];
    assert ReadClauses(t, 5, 1, 1) == O.Some(([[]], 5));
    assert ReadClauses(t, 5, 1, 2) == O.Some(([[], []], 5));
    assert ReadClauses(t, 3, 1, 3) == O.Some(([[0], [], []], 5));
  }

  /** A token that is not a number ends the clause, as the failed extraction stores 0. */
  lemma NonNumberEndsClause()
    ensures Parse([Header("cnf"), Num(1), Num(1), Num(1), Comment]) == O.Some(Fresh(1, [[1]]))
  {
    var t := [Header("cnf"), Num(1), Num(1), Num(1), Comment];
    assert HeaderEnd(t, 0) == O.Some(1);
    assert Extract(t, 1, 0) == (1, 2) && Extract(t, 2, 0) == (1, 3);
    assert Extract(t, 3, 0) == (1, 4) && Extract(t, 4, 1) == (0, 5);
    assert ReadRest(t, 5, 1, 0) == O.Some(([], 5));
    assert Encode(1) == 1;
    assert [Encode(1)] + [] == [1];
    assert ReadRest(t, 4, 1, 1) == O.Some(([1], 5));
    assert ReadClause(t, 3, 1) == O.Some(([1], 5));
    assert ReadClauses(t, 5, 1, 0) == O.Some(([], 5));
    assert [[1]] + [] == [[1]];
    assert ReadClauses(t, 3, 1, 1) == O.Some(([[1]], 5));
  }

  /** A clause cut off by the end of the input keeps the reader in its loop. */
  lemma TruncatedClause()
    ensures Parse([Header("cnf"), Num(1), Num(1), Num(1)]).None?
  {
    var t := [Header("cnf"), Num(1), Num(1), Num(1)];
    assert ReadRest(t, 4, 1, 1).None?;
  }

  function Prepend(c: seq<nat>, r: O.Option<(seq<nat>, nat)>): O.Option<(seq<nat>, nat)>
  {
    match r
    case None => O.None
    case Some(rc) => O.Some((c + rc.0, rc.1))
  }

  function Join(F: seq<seq<nat>>, r: O.Option<(seq<seq<nat>>, nat)>): O.Option<(seq<seq<nat>>, nat)>
  {
    match r
    case None => O.None
    case Some(rs) => O.Some((F + rs.0, rs.1))
  }

  lemma CountStep(c: seq<nat>, e: nat, y: int)
    ensures CountVar(c + [e], y) == CountVar(c, y) + (if e / 2 == y then 1 else 0)
    ensures PolVar(c + [e], y) == PolVar(c, y) + (if e / 2 != y then 0 else if e % 2 == 1 then 1 else -1)
  {
    assert (c + [e])[..|c|] == c;
  }

  lemma OccStep(F: seq<seq<nat>>, c: seq<nat>, y: int)
    ensures Occ(F + [c], y) == Occ(F, y) + CountVar(c, y)
    ensures Pol(F + [c], y) == Pol(F, y) + PolVar(c, y)
  {
    assert (F + [c])[..|F|] == F;
  }

  /** lits and pols are lits0 and pols0 with the literals of c counted in. */
  predicate Counted(lits0: seq<nat>, pols0: seq<int>, lits: seq<nat>, pols: seq<int>, c: seq<nat>, n: nat)
    requires |lits0| == n && |pols0| == n
  {
    |lits| == n && |pols| == n &&
    forall y :: 0 <= y < n ==> lits[y] == lits0[y] + CountVar(c, y) && pols[y] == pols0[y] + PolVar(c, y)
  }

  /** Counting one more literal, on a variable x below n. */
  lemma CountedStep(lits0: seq<nat>, pols0: seq<int>, lits: seq<nat>, pols: seq<int>, c: seq<nat>, n: nat, lit: int)
    requires |lits0| == n && |pols0| == n && Counted(lits0, pols0, lits, pols, c, n)
    requires lit != 0 && Abs(lit) <= n
    ensures Counted(lits0, pols0, lits[Abs(lit) - 1 := lits[Abs(lit) - 1] + 1],
                    pols[Abs(lit) - 1 := pols[Abs(lit) - 1] + (if lit < 0 then -1 else 1)], c + [Encode(lit)], n)
  {
    forall y | 0 <= y < n
      ensures CountVar(c + [Encode(lit)], y) == CountVar(c, y) + (if Encode(lit) / 2 == y then 1 else 0)
      ensures PolVar(c + [Encode(lit)], y) == PolVar(c, y) + (if Encode(lit) / 2 != y then 0 else if Encode(lit) % 2 == 1 then 1 else -1)
    {
      CountStep(c, Encode(lit), y);
    }
  }

  /** Reading past one more literal of the clause that starts at pos. */
  lemma PrependStep(t: seq<Tok>, pos: nat, p: nat, n: nat, c: seq<nat>, lit: int)
    requires pos <= p < |t| && lit != 0 && Abs(lit) <= n
    requires ReadClause(t, pos, n) == Prepend(c, ReadRest(t, p, n, lit))
    ensures var (next, p') := Extract(t, p, lit);
      ReadClause(t, pos, n) == Prepend(c + [Encode(lit)], ReadRest(t, p', n, next))
  {
    var (next, p') := Extract(t, p, lit);
    match ReadRest(t, p', n, next) {
      case None =>
      case Some(rc) => assert c + ([Encode(lit)] + rc.0) == (c + [Encode(lit)]) + rc.0;
    }
  }

  /**
   * The literals of one clause, read up to its terminating 0, each counted in
   * lits and pols as it is read.
   */
  method ReadLiterals(t: seq<Tok>, pos: nat, n: nat, lits: seq<nat>, pols: seq<int>)
    returns (r: O.Option<(seq<nat>, nat)>, lits': seq<nat>, pols': seq<int>)
    requires pos <= |t| && |lits| == n && |pols| == n
    ensures r == ReadClause(t, pos, n)
    ensures r.Some? ==> Counted(lits, pols, lits', pols', r.value.0, n)
  {
    var c: seq<nat> := [];
    lits', pols' := lits, pols;
    var first := Extract(t, pos, 0);
    var lit, p := first.0, first.1;
    match ReadRest(t, p, n, lit) {
      case None =>
      case Some(rc) => assert [] + rc.0 == rc.0;
    }
    while lit != 0
      invariant pos <= p <= |t|
      invariant ReadClause(t, pos, n) == Prepend(c, ReadRest(t, p, n, lit))
      invariant Counted(lits, pols, lits', pols', c, n)
      decreases |t| - p
    {
      if Abs(lit) > n {
        return O.None, lits', pols';
      }
      var x := Abs(lit) - 1;
      var step := Extract(t, p, lit);
      if step.1 == p {
        // the extraction failed and lit kept its value: the source loops forever
        return O.None, lits', pols';
      }
      CountedStep(lits, pols, lits', pols', c, n, lit);
      PrependStep(t, pos, p, n, c, lit);
      lits' := lits'[x := lits'[x] + 1];
      pols' := pols'[x := pols'[x] + (if lit < 0 then -1 else 1)];
      c := c + [Encode(lit)];
      lit, p := step.0, step.1;
    }
    assert c + [] == c;
    r := O.Some((c, p));
  }

  /** lits and pols hold the occurrence counts and polarity balances of F over n variables. */
  predicate Tallied(lits: seq<nat>, pols: seq<int>, F: seq<seq<nat>>, n: nat)
  {
    |lits| == n && |pols| == n && forall y :: 0 <= y < n ==> lits[y] == Occ(F, y) && pols[y] == Pol(F, y)
  }

  lemma TalliedStep(lits0: seq<nat>, pols0: seq<int>, lits: seq<nat>, pols: seq<int>, F: seq<seq<nat>>, c: seq<nat>, n: nat)
    requires Tallied(lits0, pols0, F, n) && Counted(lits0, pols0, lits, pols, c, n)
    ensures Tallied(lits, pols, F + [c], n)
  {
    forall y | 0 <= y < n
      ensures lits[y] == Occ(F + [c], y) && pols[y] == Pol(F + [c], y)
    {
      OccStep(F, c, y);
    }
  }

  /** Counts that tally F are the counts of the fresh instance for F. */
  lemma TalliedFresh(lits: seq<nat>, pols: seq<int>, F: seq<seq<nat>>, n: nat)
    requires Tallied(lits, pols, F, n)
    ensures Cnf(seq(n, _ => O.None), lits, pols, F) == Fresh(n, F)
  {
    assert lits == Fresh(n, F).lits;
    assert pols == Fresh(n, F).pols;
  }

  /** Reading past one more clause of the list that starts at pos. */
  lemma JoinStep(t: seq<Tok>, pos: nat, p: nat, n: nat, k: nat, F: seq<seq<nat>>, c: seq<nat>, p': nat)
    requires pos <= |t| && p <= |t| && p' <= |t| && 0 < k
    requires ReadClauses(t, pos, n, k + |F|) == Join(F, ReadClauses(t, p, n, k))
    requires ReadClause(t, p, n) == O.Some((c, p'))
    ensures ReadClauses(t, pos, n, k + |F|) == Join(F + [c], ReadClauses(t, p', n, k - 1))
  {
    match ReadClauses(t, p', n, k - 1) {
      case None =>
      case Some(rs) => assert F + ([c] + rs.0) == (F + [c]) + rs.0;
    }
  }

  /** The m clauses after the header, with the occurrence counts over n variables. */
  method ReadClauseList(t: seq<Tok>, pos: nat, n: nat, m: nat)
    returns (r: O.Option<(seq<seq<nat>>, nat)>, lits: seq<nat>, pols: seq<int>)
    requires pos <= |t|
    ensures r == ReadClauses(t, pos, n, m)
    ensures r.Some? ==> Tallied(lits, pols, r.value.0, n)
  {
    var p := pos;
    lits := seq(n, _ => 0);
    pols := seq(n, _ => 0);
    var F: seq<seq<nat>> := [];
    var i := 0;
    match ReadClauses(t, pos, n, m) {
      case None =>
      case Some(rs) => assert [] + rs.0 == rs.0;
    }
    while i < m
      invariant 0 <= i <= m && pos <= p <= |t| && |F| == i
      invariant ReadClauses(t, pos, n, m) == Join(F, ReadClauses(t, p, n, m - i))
      invariant Tallied(lits, pols, F, n)
      decreases m - i
    {
      var rc: O.Option<(seq<nat>, nat)>;
      ghost var lits0, pols0 := lits, pols;
      rc, lits, pols := ReadLiterals(t, p, n, lits, pols);
      if rc.None? {
        return O.None, lits, pols;
      }
      var c := rc.value.0;
      TalliedStep(lits0, pols0, lits, pols, F, c, n);
      JoinStep(t, pos, p, n, m - i, F, c, rc.value.1);
      F := F + [c];
      p := rc.value.1;
      i := i + 1;
    }
    assert F + [] == F;
    r := O.Some((F, p));
  }

  /**
   * The reader: skips comments up to the "p cnf" line, reads the variable and
   * clause counts, then every clause, counting occurrences and polarities as it
   * goes.
   */
  method Read(t: seq<Tok>) returns (r: O.Option<Cnf>)
    ensures r == Parse(t)
  {
    var pos := 0;
    while pos < |t| && t[pos].Comment?
      invariant 0 <= pos <= |t|
      invariant HeaderEnd(t, 0) == HeaderEnd(t, pos)
      decreases |t| - pos
    {
      pos := pos + 1;
    }
    if pos < |t| {
      if !t[pos].Header? || t[pos].format != "cnf" {
        return O.None;
      }
      pos := pos + 1;
    }
    assert HeaderEnd(t, 0) == O.Some(pos);
    var vc := Extract(t, pos, 0);
    var cc := Extract(t, vc.1, 0);
    if vc.0 < 0 || cc.0 < 0 {
      return O.None;
    }
    var n: nat := vc.0;
    var rs, lits, pols := ReadClauseList(t, cc.1, n, cc.0);
    if rs.None? {
      return O.None;
    }
    TalliedFresh(lits, pols, rs.value.0, n);
    r := O.Some(Cnf(seq(n, _ => O.None), lits, pols, rs.value.0));
  }

  // ---------------------------------------------------------------------------
  // DIMACS writer and the round trip
  // ---------------------------------------------------------------------------

  /** c is a DIMACS clause over n variables: non-zero literals of magnitude at most n. */
  predicate DimacsClause(c: seq<int>, n: nat)
  {
    forall k :: 0 <= k < |c| ==> c[k] != 0 && Abs(c[k]) <= n
  }

  predicate DimacsFormula(F: seq<seq<int>>, n: nat)
  {
    forall i :: 0 <= i < |F| ==> DimacsClause(F[i], n)
  }

  function EncodeClause(c: seq<int>): (r: seq<nat>)
    requires forall k :: 0 <= k < |c| ==> c[k] != 0
    ensures |r| == |c| && forall k :: 0 <= k < |c| ==> r[k] == Encode(c[k])
  {
    if c == [] then [] else [Encode(c[0])] + EncodeClause(c[1..])
  }

  function DecodeClause(c: seq<nat>): (r: seq<int>)
    ensures |r| == |c| && forall k :: 0 <= k < |c| ==> r[k] == Decode(c[k])
  {
    if c == [] then [] else [Decode(c[0])] + DecodeClause(c[1..])
  }

  function EncodeAll(F: seq<seq<int>>): (r: seq<seq<nat>>)
    requires forall i, k :: 0 <= i < |F| && 0 <= k < |F[i]| ==> F[i][k] != 0
    ensures |r| == |F| && forall i :: 0 <= i < |F| ==> r[i] == EncodeClause(F[i])
  {
    if F == [] then [] else [EncodeClause(F[0])] + EncodeAll(F[1..])
  }

  /** Decoding the stored clauses gives back the DIMACS clauses. */
  lemma DecodeEncodeClause(c: seq<int>)
    requires forall k :: 0 <= k < |c| ==> c[k] != 0
    ensures DecodeClause(EncodeClause(c)) == c
  {
    var d := DecodeClause(EncodeClause(c));
    forall k | 0 <= k < |c|
      ensures d[k] == c[k]
    {
      EncodeDecode(c[k], 0);
    }
  }

  function ClauseToks(c: seq<int>): (r: seq<Tok>)
    ensures |r| == |c| + 1
  {
    if c == [] then [Num(0)] else [Num(c[0])] + ClauseToks(c[1..])
  }

  function Lines(F: seq<seq<int>>): seq<Tok>
  {
    if F == [] then [] else ClauseToks(F[0]) + Lines(F[1..])
  }

  /** A comment line, the "p cnf n m" header, then one 0-terminated line per clause. */
  function Write(n: nat, F: seq<seq<int>>): seq<Tok>
  {
    [Comment, Header("cnf"), Num(n), Num(|F|)] + Lines(F)
  }

  /** s occurs in t at position pos. */
  predicate At(t: seq<Tok>, pos: nat, s: seq<Tok>)
  {
    pos + |s| <= |t| && t[pos..pos + |s|] == s
  }

  lemma AtSplit(t: seq<Tok>, pos: nat, s1: seq<Tok>, s2: seq<Tok>)
    requires At(t, pos, s1 + s2)
    ensures At(t, pos, s1) && At(t, pos + |s1|, s2)
  {
    var u := t[pos..pos + |s1| + |s2|];
    assert t[pos..pos + |s1|] == u[..|s1|];
    assert t[pos + |s1|..pos + |s1| + |s2|] == u[|s1|..];
  }

  lemma {:induction false} ReadClauseWritten(t: seq<Tok>, pos: nat, n: nat, c: seq<int>)
    requires DimacsClause(c, n) && At(t, pos, ClauseToks(c))
    ensures ReadClause(t, pos, n) == O.Some((EncodeClause(c), pos + |c| + 1))
    decreases |c|
  {
    if c == [] {
      assert t[pos] == ClauseToks(c)[0];
    } else {
      assert ClauseToks(c) == [Num(c[0])] + ClauseToks(c[1..]);
      AtSplit(t, pos, [Num(c[0])], ClauseToks(c[1..]));
      assert t[pos] == ([Num(c[0])] + ClauseToks(c[1..]))[0];
      ReadClauseWritten(t, pos + 1, n, c[1..]);
      assert ReadRest(t, pos + 1, n, c[0]) == Prepend([Encode(c[0])], ReadClause(t, pos + 1, n));
    }
  }

  /** The lines of the clauses F occur in t one after the other from position pos. */
  predicate Written(t: seq<Tok>, pos: nat, F: seq<seq<int>>)
    decreases |F|
  {
    F == [] || (At(t, pos, ClauseToks(F[0])) && Written(t, pos + |F[0]| + 1, F[1..]))
  }

  lemma {:induction false} LinesWritten(t: seq<Tok>, pos: nat, F: seq<seq<int>>)
    requires At(t, pos, Lines(F))
    ensures Written(t, pos, F)
    decreases |F|
  {
    if F != [] {
      AtSplit(t, pos, ClauseToks(F[0]), Lines(F[1..]));
      LinesWritten(t, pos + |F[0]| + 1, F[1..]);
    }
  }

  /** Number of tokens the lines of F take. */
  function Width(F: seq<seq<int>>): nat
  {
    if F == [] then 0 else |F[0]| + 1 + Width(F[1..])
  }

  lemma {:induction false} ReadLinesWritten(t: seq<Tok>, pos: nat, n: nat, F: seq<seq<int>>)
    requires DimacsFormula(F, n) && Written(t, pos, F) && pos + Width(F) <= |t|
    ensures ReadClauses(t, pos, n, |F|) == O.Some((EncodeAll(F), pos + Width(F)))
    decreases |F|
  {
    if F != [] {
      var next, rest := pos + |F[0]| + 1, F[1..];
      assert DimacsFormula(rest, n);
      ReadClauseWritten(t, pos, n, F[0]);
      ReadLinesWritten(t, next, n, rest);
      ReadClausesCons(t, pos, n, |rest|, EncodeClause(F[0]), next, EncodeAll(rest), next + Width(rest));
    }
  }

  /** A clause followed by m more clauses is m + 1 clauses. */
  lemma ReadClausesCons(t: seq<Tok>, pos: nat, n: nat, m: nat, c: seq<nat>, next: nat, R: seq<seq<nat>>, end: nat)
    requires pos <= |t| && next <= |t|
    requires ReadClause(t, pos, n) == O.Some((c, next)) && ReadClauses(t, next, n, m) == O.Some((R, end))
    ensures ReadClauses(t, pos, n, m + 1) == O.Some(([c] + R, end))
  {
  }

  lemma {:induction false} LinesWidth(F: seq<seq<int>>)
    ensures |Lines(F)| == Width(F)
  {
    if F != [] {
      LinesWidth(F[1..]);
    }
  }

  /**
   * Round trip: reading what the writer produced, whatever follows it, gives
   * the instance with the encoded clauses and fresh counts.
   */
  lemma ParseWrite(n: nat, F: seq<seq<int>>, rest: seq<Tok>)
    requires DimacsFormula(F, n)
    ensures Parse(Write(n, F) + rest) == O.Some(Fresh(n, EncodeAll(F)))
  {
    WriteLayout(n, F, rest);
    ReadWritten(Write(n, F) + rest, n, F);
  }

  /** Any stream laid out as the writer lays it out reads back as the fresh instance of the encoded clauses. */
  lemma ReadWritten(t: seq<Tok>, n: nat, F: seq<seq<int>>)
    requires DimacsFormula(F, n)
    requires HeaderEnd(t, 0) == O.Some(2) && 4 + Width(F) <= |t| && t[2] == Num(n) && t[3] == Num(|F|) && Written(t, 4, F)
    ensures Parse(t) == O.Some(Fresh(n, EncodeAll(F)))
  {
    ReadLinesWritten(t, 4, n, F);
    ParseParts(t, 2, n, |F|, EncodeAll(F), 4 + Width(F));
  }

  /** The written stream: the header ends at position 2, then come the counts and the clause lines. */
  lemma WriteLayout(n: nat, F: seq<seq<int>>, rest: seq<Tok>)
    ensures var t := Write(n, F) + rest;
      HeaderEnd(t, 0) == O.Some(2) && 4 + Width(F) <= |t| && t[2] == Num(n) && t[3] == Num(|F|) && Written(t, 4, F)
  {
    var t := Write(n, F) + rest;
    assert t[0] == Comment && t[1] == Header("cnf");
    assert HeaderEnd(t, 1) == O.Some(2);
    assert t[4..4 + |Lines(F)|] == Lines(F);
    LinesWritten(t, 4, F);
    LinesWidth(F);
  }

  /** A stream whose header ends at h, followed by the counts n and m and then m clauses, parses to the fresh instance. */
  lemma ParseParts(t: seq<Tok>, h: nat, n: nat, m: nat, G: seq<seq<nat>>, end: nat)
    requires HeaderEnd(t, 0) == O.Some(h) && h + 2 <= |t| && t[h] == Num(n) && t[h + 1] == Num(m)
    requires ReadClauses(t, h + 2, n, m) == O.Some((G, end))
    ensures Parse(t) == O.Some(Fresh(n, G))
  {
    assert Extract(t, h, 0) == (n, h + 1) && Extract(t, h + 1, 0) == (m, h + 2);
  }

  // ---------------------------------------------------------------------------
  // Simplification by an assigned variable
  // ---------------------------------------------------------------------------

  datatype Status = Sat | Unsat | Unknown

  /** The code of x's literal that the value v makes true. */
  function SatLit(x: nat, v: bool): (l: nat)
    ensures l / 2 == x && (l % 2 == 1 <==> v)
  {
    2 * x + (if v then 1 else 0)
  }

  predicate Fixes(a: seq<bool>, x: nat, v: bool)
  {
    x < |a| && a[x] == v
  }

  /** No literal of F is on variable x. */
  predicate NoVar(F: seq<seq<nat>>, x: nat)
  {
    forall i, l :: 0 <= i < |F| && l in F[i] ==> l / 2 != x
  }

  predicate InF(F: seq<seq<nat>>, l: nat)
  {
    exists i :: 0 <= i < |F| && l in F[i]
  }

  /** Every literal of G is a literal of F. */
  predicate Within(G: seq<seq<nat>>, F: seq<seq<nat>>)
  {
    forall i, l :: 0 <= i < |G| && l in G[i] ==> InF(F, l)
  }

  lemma DropLiteral(a: seq<bool>, c: seq<nat>, j: nat)
    requires j < |c| && !LitTrue(a, c[j])
    ensures ClauseHolds(a, c[..j] + c[j + 1..]) <==> ClauseHolds(a, c)
  {
    var d := c[..j] + c[j + 1..];
    if ClauseHolds(a, c) {
      var l :| l in c && LitTrue(a, l);
      var k :| 0 <= k < |c| && c[k] == l;
      if k < j {
        assert d[k] == l;
      } else {
        assert d[k - 1] == l;
      }
    }
    if ClauseHolds(a, d) {
      var l :| l in d && LitTrue(a, l);
      var k :| 0 <= k < |d| && d[k] == l;
      if k < j {
        assert c[k] == l;
      } else {
        assert c[k + 1] == l;
      }
    }
  }

  lemma DropClause(a: seq<bool>, F: seq<seq<nat>>, i: nat)
    requires i < |F| && ClauseHolds(a, F[i])
    ensures Satisfies(a, F[..i] + F[i + 1..]) <==> Satisfies(a, F)
  {
    var G := F[..i] + F[i + 1..];
    if Satisfies(a, G) {
      forall k | 0 <= k < |F|
        ensures ClauseHolds(a, F[k])
      {
        if k < i {
          assert G[k] == F[k];
        } else if k > i {
          assert G[k - 1] == F[k];
        }
      }
    }
    if Satisfies(a, F) {
      forall k | 0 <= k < |G|
        ensures ClauseHolds(a, G[k])
      {
        if k < i {
          assert G[k] == F[k];
        } else {
          assert G[k] == F[k + 1];
        }
      }
    }
  }

  lemma ReplaceClause(a: seq<bool>, F: seq<seq<nat>>, i: nat, c: seq<nat>)
    requires i < |F| && (ClauseHolds(a, c) <==> ClauseHolds(a, F[i]))
    ensures Satisfies(a, F[i := c]) <==> Satisfies(a, F)
  {
    var G := F[i := c];
    if Satisfies(a, F) {
      forall k | 0 <= k < |G|
        ensures ClauseHolds(a, G[k])
      {
      }
    }
    if Satisfies(a, G) {
      forall k | 0 <= k < |F|
        ensures ClauseHolds(a, F[k])
      {
        assert ClauseHolds(a, G[k]);
      }
    }
  }

  /**
   * Simplification after x has been assigned: every clause holding x's true
   * literal is removed and every false literal of x is removed from the other
   * clauses; Sat once no clause is left, Unsat once a clause is emptied. This is
   * the intended behaviour, scanning each clause to its end; the source stops at
   * the first literal of x (SimplifyAsWritten).
   */
  method Simplify(q: Cnf, x: nat) returns (st: Status, r: Cnf)
    requires x < |q.vars| && x < |q.lits| && q.vars[x].Some?
    ensures r.vars == q.vars && r.lits == q.lits[x := 0] && r.pols == q.pols
    ensures st == Sat ==> r.clauses == []
    ensures st == Unknown ==> NoVar(r.clauses, x) && Within(r.clauses, q.clauses)
    ensures st == Unknown ==> (|r.clauses| == 0 <==> |q.clauses| == 0)
    ensures st == Unknown && NonEmpty(q.clauses) ==> NonEmpty(r.clauses)
    ensures forall a :: Fixes(a, x, q.vars[x].value) ==>
              if st == Unsat then !Satisfies(a, q.clauses) else (Satisfies(a, r.clauses) <==> Satisfies(a, q.clauses))
  {
    var v := q.vars[x].value;
    var lits := q.lits[x := 0];
    var cls := q.clauses;
    var i := 0;
    while i < |cls|
      invariant 0 <= i <= |cls|
      invariant |cls| == 0 <==> |q.clauses| == 0
      invariant forall m, l :: 0 <= m < i && l in cls[m] ==> l / 2 != x
      invariant Within(cls, q.clauses)
      invariant NonEmpty(q.clauses) ==> NonEmpty(cls)
      invariant forall a :: Fixes(a, x, v) ==> (Satisfies(a, cls) <==> Satisfies(a, q.clauses))
      decreases |cls| - i
    {
      var c := cls[i];
      var j := 0;
      var removed := false;
      while j < |c| && !removed
        invariant 0 <= j <= |c|
        invariant forall k :: 0 <= k < j ==> c[k] / 2 != x
        invariant forall l :: l in c ==> l in cls[i]
        invariant |cls[i]| > 0 ==> |c| > 0
        invariant forall a :: Fixes(a, x, v) ==> (ClauseHolds(a, c) <==> ClauseHolds(a, cls[i]))
        invariant removed ==> j < |c| && c[j] == SatLit(x, v)
        decreases |c| - j, if removed then 0 else 1
      {
        if c[j] == SatLit(x, v) {
          removed := true;
        } else if c[j] / 2 == x {
          forall a | Fixes(a, x, v)
            ensures ClauseHolds(a, c[..j] + c[j + 1..]) <==> ClauseHolds(a, c)
          {
            DropLiteral(a, c, j);
          }
          c := c[..j] + c[j + 1..];
          if |c| == 0 {
            forall a | Fixes(a, x, v)
              ensures !Satisfies(a, q.clauses)
            {
              assert !ClauseHolds(a, cls[i]);
            }
            return Unsat, Cnf(q.vars, lits, q.pols, cls[i := c]);
          }
        } else {
          j := j + 1;
        }
      }
      if removed {
        forall a | Fixes(a, x, v)
          ensures Satisfies(a, cls[..i] + cls[i + 1..]) <==> Satisfies(a, cls)
        {
          assert c[j] in c && LitTrue(a, c[j]);
          DropClause(a, cls, i);
        }
        cls := cls[..i] + cls[i + 1..];
        if |cls| == 0 {
          return Sat, Cnf(q.vars, lits, q.pols, cls);
        }
      } else {
        forall a | Fixes(a, x, v)
          ensures Satisfies(a, cls[i := c]) <==> Satisfies(a, cls)
        {
          ReplaceClause(a, cls, i, c);
        }
        cls := cls[i := c];
        i := i + 1;
      }
    }
    return Unknown, Cnf(q.vars, lits, q.pols, cls);
  }

  /** Index of the first literal of c on variable x, or |c| when there is none. */
  function FirstOnVar(c: seq<nat>, x: nat): (j: nat)
    ensures j <= |c| && (j < |c| ==> c[j] / 2 == x)
    ensures forall k :: 0 <= k < j ==> c[k] / 2 != x
  {
    if c == [] then 0 else if c[0] / 2 == x then 0 else 1 + FirstOnVar(c[1..], x)
  }

  /**
   * simplify as the source writes it, over the clauses kept so far (done) and
   * those still to visit (rest): each clause is decided by its first literal
   * on x alone, because the scan of a clause stops right after removing a
   * false literal.
   */
  function SimplifyAsWritten(done: seq<seq<nat>>, rest: seq<seq<nat>>, x: nat, v: bool): (r: (Status, seq<seq<nat>>))
    ensures r.0 == Sat ==> r.1 == []
    decreases |rest|
  {
    if rest == [] then (Unknown, done)
    else
      var c := rest[0];
      var j := FirstOnVar(c, x);
      if j == |c| then SimplifyAsWritten(done + [c], rest[1..], x, v)
      else if c[j] == SatLit(x, v) then
        if done == [] && |rest| == 1 then (Sat, []) else SimplifyAsWritten(done, rest[1..], x, v)
      else
        var d := c[..j] + c[j + 1..];
        if d == [] then (Unsat, done + [d] + rest[1..]) else SimplifyAsWritten(done + [d], rest[1..], x, v)
  }

  /**
   * (x1) and (not x1 or not x1) is unsatisfiable. Unit propagation sets x1
   * true; simplify as written removes only the first not-x1 and leaves the unit
   * clause (not x1), so the next round sets x1 false and simplify reports Sat:
   * the solver answers [false], which falsifies (x1).
   */
  lemma SimplifyDuplicateCounterexample()
    ensures SimplifyAsWritten([], [[1], [0, 0]], 0, true) == (Unknown, [[0]])
    ensures !NoVar([[0]], 0)
    ensures SimplifyAsWritten([], [[0]], 0, false) == (Sat, [])
    ensures !Satisfies([false], [[1], [0, 0]])
    ensures !Satisfiable([[1], [0, 0]], 1)
  {
    var F: seq<seq<nat>> := [[1], [0, 0]];
    assert FirstOnVar([1], 0) == 0;
    assert FirstOnVar([0, 0], 0) == 0;
    var c0: seq<nat> := [0, 0];
    var c1: seq<nat> := [0];
    assert c0[..0] + c0[1..] == c1;
    assert FirstOnVar(c1, 0) == 0;
    assert 0 in c1;
    assert F[1..] == [c0];
    assert SimplifyAsWritten([], F, 0, true) == SimplifyAsWritten([], [c0], 0, true);
    assert [c0][0] == c0 && [c0][1..] == [];
    assert FirstOnVar(c0, 0) == 0 && c0[0] != SatLit(0, true);
    assert [] + [c1] == [c1];
    assert SimplifyAsWritten([], [c0], 0, true) == SimplifyAsWritten([c1], [], 0, true);
    var G: seq<seq<nat>> := [c1];
    assert 0 in G[0];
    assert F[0] == [1];
    assert !ClauseHolds([false], F[0]) by {
      forall l | l in F[0] ensures !LitTrue([false], l) {
      }
    }
    forall a | |a| == 1
      ensures !Satisfies(a, F)
    {
      if a[0] {
        assert !ClauseHolds(a, F[1]) by {
          forall l | l in F[1] ensures !LitTrue(a, l) {
          }
        }
      } else {
        assert !ClauseHolds(a, F[0]) by {
          forall l | l in F[0] ensures !LitTrue(a, l) {
          }
        }
      }
    }
  }
}
