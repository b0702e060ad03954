/**
 * The picture test of the MTBDD flavour: a grey-scale image of height h
 * and width w is stored as one MTBDD over hv + wv Shannon variables, with
 * hv = ceil(log2 h) and wv = ceil(log2 w). The first hv variables spell
 * the row and the next wv variables the column, most significant bit
 * first; the padded cells of the 2^hv x 2^wv grid map to 0. Each pixel is
 * a minterm (the pixel's constant conjoined with one literal per variable)
 * and the minterms are OR-ed into the accumulator, which starts at 0.
 *
 * The manager is represented by its variable order: the operators used
 * here read nothing else of it.
 */
module Picture {
  import opened Dd
  import opened Mtdd
  import opened Counting
  import opened Binary
  import A = Add
  import M = Mtbdd

  // -------------------------------------------------------------------------
  // Variables

  /** The manager after n more Shannon variables on new bottom levels. */
  function Extended(o: Order, n: nat): (r: Order)
  {
    Order(o.t + seq(n, _ => S), o.var2lvl + seq(n, k => o.Count() + k))
  }

  /**
   * create_vars: make_var is called until the manager has amount variables;
   * nothing happens when it already has that many.
   */
  method CreateVars(o: Order, amount: int) returns (o': Order)
    ensures o' == if amount <= o.Count() then o else Extended(o, amount - o.Count())
  {
    o' := o;
    var i := o.Count();
    while i < amount
      invariant o.Count() <= i && (o.Count() < amount ==> i <= amount)
      invariant amount <= o.Count() ==> i == o.Count()
      invariant o' == Extended(o, i - o.Count())
    {
      o' := Order(o'.t + [S], o'.var2lvl + [i]);
      i := i + 1;
      assert o'.t == o.t + seq(i - o.Count(), _ => S);
      assert o'.var2lvl == o.var2lvl + seq(i - o.Count(), k => o.Count() + k);
    }
    if o.Count() < amount {
      assert i == amount;
    } else {
      assert o == Extended(o, 0);
    }
  }

  /**
   * The added variables keep the manager consistent: the order stays a
   * permutation, every variable is still Shannon, and the old variables
   * keep their expansions and levels.
   */
  lemma ExtendedKeeps(o: Order, n: nat)
    ensures Extended(o, n).Count() == o.Count() + n
    ensures Extended(o, n).t[..o.Count()] == o.t
    ensures o.Valid() ==> Extended(o, n).var2lvl[..o.Count()] == o.var2lvl
    ensures o.Valid() ==> Extended(o, n).Valid()
    ensures Ctx(o) ==> Ctx(Extended(o, n))
  {
    var e := Extended(o, n);
    assert e.t[..o.Count()] == o.t;
    if o.Valid() {
      assert e.var2lvl[..o.Count()] == o.var2lvl;
      forall x, y | 0 <= x < e.Count() && 0 <= y < e.Count() && x != y
        ensures e.var2lvl[x] != e.var2lvl[y]
      {
        if x < o.Count() && y >= o.Count() {
          assert e.var2lvl[y] == y;
        } else if x >= o.Count() && y < o.Count() {
          assert e.var2lvl[x] == x;
        }
      }
    }
    if Ctx(o) {
      forall x | 0 <= x < e.Count()
        ensures e.t[x] == S
      {
        if x < o.Count() {
          assert e.t[x] == o.t[x];
        }
      }
    }
  }

  /** var(i): the function make_var built for variable i, a node over 1 and 0. */
  function Var(o: Order, i: nat): (r: TEdge)
    requires i < o.Count()
    ensures Wf(o, r)
  {
    Branch(o, i, Const(1), Const(0))
  }

  /** The literal operate_and conjoins for a bit: var(i), or its complement. */
  function Literal(o: Order, i: nat, b: bool): (r: TEdge)
    requires i < o.Count()
    ensures Wf(o, r)
  {
    if b then Var(o, i) else M.Complement(o, Var(o, i))
  }

  /** The literal for b is 1 exactly where variable i has the value b, 0 elsewhere. */
  lemma LiteralValue(o: Order, i: nat, b: bool, asg: seq<bool>)
    requires i < o.Count() && |asg| == o.Count()
    ensures Value(o, Literal(o, i, b), asg) == if asg[i] == b then 1 else 0
  {
    BranchValue(o, i, Const(1), Const(0), asg);
    M.DerivedValue(o, Var(o, i), Var(o, i), asg);
  }

  // -------------------------------------------------------------------------
  // Bits and minterms

  /** int_to_bits: bits[size - 1 - i] is bit i of x. */
  method IntToBits(x: nat, size: nat) returns (bits: seq<bool>)
    ensures bits == Msb(x, size)
  {
    bits := seq(size, _ => false);
    var i := 0;
    while i < size
      invariant i <= size && |bits| == size
      invariant forall k :: 0 <= k < i ==> bits[size - 1 - k] == Bit(x, k)
    {
      bits := bits[size - 1 - i := Bit(x, i)];
      i := i + 1;
    }
    forall j | 0 <= j < size
      ensures bits[j] == Msb(x, size)[j]
    {
      MsbAt(x, size, size - 1 - j);
    }
  }

  lemma PrefixSnoc(a: seq<bool>, b: seq<bool>, i: nat)
    requires i < |a| && i < |b|
    ensures (a[..i + 1] == b[..i + 1]) <==> (a[..i] == b[..i] && a[i] == b[i])
  {
    assert a[..i + 1] == a[..i] + [a[i]];
    assert b[..i + 1] == b[..i] + [b[i]];
    if a[..i + 1] == b[..i + 1] {
      assert a[..i + 1][..i] == a[..i];
      assert a[..i + 1][i] == a[i];
    }
  }

  /** One conjunction of operate_and, on one assignment. */
  lemma AndStep(o: Order, f: TEdge, g: TEdge, bits: seq<bool>, i: nat, asg: seq<bool>)
    requires Wf(o, f) && Wf(o, g) && i < |bits| <= o.Count() && |asg| == o.Count()
    requires Value(o, g, asg) == if asg[..i] == bits[..i] then Value(o, f, asg) else 0
    ensures Value(o, A.Mul(o, g, Literal(o, i, bits[i])), asg)
         == if asg[..i + 1] == bits[..i + 1] then Value(o, f, asg) else 0
  {
    A.MulValue(o, g, Literal(o, i, bits[i]), asg);
    LiteralValue(o, i, bits[i], asg);
    PrefixSnoc(asg, bits, i);
  }

  /**
   * operate_and: f conjoined with var(i) where bits[i] is set and with its
   * complement elsewhere keeps f's value on the assignments that start with
   * bits and is 0 on all others.
   */
  /**
   * g is f restricted to the assignments that start with bits: f there,
   * zero everywhere else.
   */
  ghost predicate Restricted(o: Order, g: TEdge, f: TEdge, bits: seq<bool>)
  {
    Wf(o, f) && Wf(o, g) && |bits| <= o.Count() && forall asg: seq<bool> :: |asg| == o.Count() ==>
      Value(o, g, asg) == if asg[..|bits|] == bits then Value(o, f, asg) else 0
  }

  method OperateAnd(o: Order, f: TEdge, bits: seq<bool>) returns (g: TEdge)
    requires Wf(o, f) && |bits| <= o.Count()
    ensures Restricted(o, g, f, bits)
  {
    g := f;
    var i := 0;
    while i < |bits|
      invariant i <= |bits| && Wf(o, g)
      invariant forall asg: seq<bool> :: |asg| == o.Count() ==>
        Value(o, g, asg) == if asg[..i] == bits[..i] then Value(o, f, asg) else 0
    {
      ghost var g0 := g;
      if bits[i] {
        g := A.Mul(o, g, Var(o, i));
      } else {
        g := A.Mul(o, g, M.Complement(o, Var(o, i)));
      }
      assert g == A.Mul(o, g0, Literal(o, i, bits[i]));
      forall asg: seq<bool> | |asg| == o.Count()
        ensures Value(o, g, asg) == if asg[..i + 1] == bits[..i + 1] then Value(o, f, asg) else 0
      {
        AndStep(o, f, g0, bits, i, asg);
      }
      i := i + 1;
    }
    assert bits[..|bits|] == bits;
  }

  // -------------------------------------------------------------------------
  // Cells of the grid

  /** The least k with 2^k >= n: ceil(log2 n). */
  function CeilLog2(n: nat): (r: nat)
    requires 1 <= n
    ensures n <= Pow2(r) && (r == 0 || Pow2(r - 1) < n)
  {
    if n == 1 then 0 else 1 + CeilLog2((n + 1) / 2)
  }

  /** The row an assignment of the picture's variables spells. */
  function Row(a: seq<bool>, hv: nat): nat
    requires hv <= |a|
  {
    MsbValue(a[..hv])
  }

  /** The column an assignment of the picture's variables spells. */
  function Col(a: seq<bool>, hv: nat): nat
    requires hv <= |a|
  {
    MsbValue(a[hv..])
  }

  /** The assignment spells cell (y, x) exactly when it is the bits of y followed by the bits of x. */
  lemma CellBits(a: seq<bool>, hv: nat, wv: nat, y: nat, x: nat)
    requires |a| == hv + wv && y < Pow2(hv) && x < Pow2(wv)
    ensures (a == Msb(y, hv) + Msb(x, wv)) <==> (Row(a, hv) == y && Col(a, hv) == x)
  {
    SpellsCell(y, x, hv, wv);
    if Row(a, hv) == y && Col(a, hv) == x {
      CellSpelled(a, hv, wv);
    }
  }

  /** The bits of y followed by the bits of x spell row y and column x. */
  lemma SpellsCell(y: nat, x: nat, hv: nat, wv: nat)
    requires y < Pow2(hv) && x < Pow2(wv)
    ensures Row(Msb(y, hv) + Msb(x, wv), hv) == y && Col(Msb(y, hv) + Msb(x, wv), hv) == x
  {
    var a := Msb(y, hv) + Msb(x, wv);
    assert a[..hv] == Msb(y, hv) && a[hv..] == Msb(x, wv);
    MsbRoundTrip(y, hv);
    MsbRoundTrip(x, wv);
  }

  /** Every assignment is the bits of the row it spells followed by the bits of its column. */
  lemma CellSpelled(a: seq<bool>, hv: nat, wv: nat)
    requires |a| == hv + wv
    ensures a == Msb(Row(a, hv), hv) + Msb(Col(a, hv), wv)
  {
    MsbValueRoundTrip(a[..hv]);
    MsbValueRoundTrip(a[hv..]);
    assert a == a[..hv] + a[hv..];
  }

  /** Rows 0..h-1 of img have at least w pixels. */
  predicate Covers(img: seq<seq<int>>, h: nat, w: nat)
  {
    h <= |img| && forall y :: 0 <= y < h ==> w <= |img[y]|
  }

  /** img is exactly h rows of w pixels. */
  predicate Rect(img: seq<seq<int>>, h: nat, w: nat)
  {
    |img| == h && forall y :: 0 <= y < h ==> |img[y]| == w
  }

  /** The pixel the encoding assigns to the cell a spells: 0 outside the image. */
  function PixelAt(img: seq<seq<int>>, h: nat, w: nat, hv: nat, a: seq<bool>): int
    requires Covers(img, h, w) && hv <= |a|
  {
    var y, x := Row(a, hv), Col(a, hv);
    if y < h && x < w then img[y][x] else 0
  }

  /** PixelAt for the cells before (cy, cx) in row-major order, 0 for the rest. */
  function Before(img: seq<seq<int>>, h: nat, w: nat, hv: nat, a: seq<bool>, cy: nat, cx: nat): int
    requires Covers(img, h, w) && hv <= |a|
  {
    var y, x := Row(a, hv), Col(a, hv);
    if (y < cy || (y == cy && x < cx)) && y < h && x < w then img[y][x] else 0
  }

  /**
   * add stores img: its value on every assignment of the manager's
   * variables is the pixel of the cell the first hv + wv variables spell.
   */
  ghost predicate Stores(o: Order, add: TEdge, img: seq<seq<int>>, h: nat, w: nat)
  {
    && 1 <= h && 1 <= w && Covers(img, h, w)
    && var hv, nv := CeilLog2(h), CeilLog2(h) + CeilLog2(w);
    && nv <= o.Count() && Wf(o, add)
    && forall asg: seq<bool> :: |asg| == o.Count() ==> Value(o, add, asg) == PixelAt(img, h, w, hv, asg[..nv])
  }

  // -------------------------------------------------------------------------
  // Encoding

  /**
   * The accumulator holds, on every assignment, the pixel of the cell its
   * first nv variables spell if that cell comes before (cy, cx), else 0.
   */
  ghost predicate Encodes(o: Order, add: TEdge, img: seq<seq<int>>, h: nat, w: nat, hv: nat, nv: nat, cy: nat, cx: nat)
  {
    && Covers(img, h, w) && hv <= nv <= o.Count() && Wf(o, add)
    && forall asg: seq<bool> :: |asg| == o.Count() ==> Value(o, add, asg) == Before(img, h, w, hv, asg[..nv], cy, cx)
  }

  /** The zero accumulator encodes no cell. */
  lemma EncodesNothing(o: Order, img: seq<seq<int>>, h: nat, w: nat, hv: nat, nv: nat)
    requires Covers(img, h, w) && hv <= nv <= o.Count()
    ensures Encodes(o, A.Zero, img, h, w, hv, nv, 0, 0)
  {
  }

  /** A padding cell adds nothing. */
  lemma EncodesPadding(o: Order, add: TEdge, img: seq<seq<int>>, h: nat, w: nat, hv: nat, nv: nat, y: nat, x: nat)
    requires Covers(img, h, w) && hv <= nv <= o.Count() && !(y < h && x < w)
    requires Encodes(o, add, img, h, w, hv, nv, y, x)
    ensures Encodes(o, add, img, h, w, hv, nv, y, x + 1)
  {
  }

  /** The last cell of a row is followed by the first cell of the next. */
  lemma EncodesRow(o: Order, add: TEdge, img: seq<seq<int>>, h: nat, w: nat, hv: nat, wv: nat, y: nat)
    requires Covers(img, h, w) && hv + wv <= o.Count()
    requires Encodes(o, add, img, h, w, hv, hv + wv, y, Pow2(wv))
    ensures Encodes(o, add, img, h, w, hv, hv + wv, y + 1, 0)
  {
    forall asg: seq<bool> | |asg| == o.Count()
      ensures Value(o, add, asg) == Before(img, h, w, hv, asg[..hv + wv], y + 1, 0)
    {
      assert |asg[..hv + wv][hv..]| == wv;
    }
  }

  /** After the last row every cell has been encoded. */
  lemma EncodesAll(o: Order, add: TEdge, img: seq<seq<int>>, h: nat, w: nat, hv: nat, nv: nat, cy: nat)
    requires 1 <= h && 1 <= w && Covers(img, h, w) && hv == CeilLog2(h) && nv == hv + CeilLog2(w) && nv <= o.Count()
    requires cy == Pow2(hv) && Encodes(o, add, img, h, w, hv, nv, cy, 0)
    ensures Stores(o, add, img, h, w)
  {
    forall asg: seq<bool> | |asg| == o.Count()
      ensures Value(o, add, asg) == PixelAt(img, h, w, hv, asg[..nv])
    {
      var v := Value(o, add, asg);
      BeforeEnd(img, h, w, hv, asg[..nv], cy, v);
    }
  }

  /** Every row an assignment spells lies before row 2^hv. */
  lemma BeforeEnd(img: seq<seq<int>>, h: nat, w: nat, hv: nat, a: seq<bool>, cy: nat, v: int)
    requires Covers(img, h, w) && hv <= |a| && cy == Pow2(hv) && v == Before(img, h, w, hv, a, cy, 0)
    ensures v == PixelAt(img, h, w, hv, a)
  {
    assert |a[..hv]| == hv;
  }

  /**
   * Where one operand is 0 the arithmetic OR f + g - fg of the MTBDD is the
   * sum, so OR-ing minterms of distinct cells adds them up.
   */
  lemma DisjointOr(o: Order, f: TEdge, g: TEdge, asg: seq<bool>)
    requires Wf(o, f) && Wf(o, g) && |asg| == o.Count()
    requires Value(o, f, asg) == 0 || Value(o, g, asg) == 0
    ensures Value(o, M.Disj(o, f, g), asg) == Value(o, f, asg) + Value(o, g, asg)
  {
    M.DerivedValue(o, f, g, asg);
    OrOfDisjoint(Value(o, f, asg), Value(o, g, asg));
  }

  lemma OrOfDisjoint(u: int, v: int)
    requires u == 0 || v == 0
    ensures u + v - u * v == u + v
  {
  }

  /**
   * Moving past the in-range cell (y, x) adds that cell, which was not
   * counted before, on the assignments that spell it, and nothing on the
   * others.
   */
  lemma BeforeNext(img: seq<seq<int>>, h: nat, w: nat, hv: nat, a: seq<bool>, y: nat, x: nat)
    requires Covers(img, h, w) && hv <= |a| && y < h && x < w
    ensures Row(a, hv) == y && Col(a, hv) == x ==>
      Before(img, h, w, hv, a, y, x) == 0 && Before(img, h, w, hv, a, y, x + 1) == img[y][x]
    ensures !(Row(a, hv) == y && Col(a, hv) == x) ==>
      Before(img, h, w, hv, a, y, x + 1) == Before(img, h, w, hv, a, y, x)
  {
  }

  /** The minterm of cell (y, x) with constant c, read through the cell an assignment spells. */
  lemma MintermAt(o: Order, conj: TEdge, c: int, bits: seq<bool>, hv: nat, wv: nat, y: nat, x: nat, asg: seq<bool>)
    requires Wf(o, conj) && |asg| == o.Count() && hv + wv <= o.Count() && y < Pow2(hv) && x < Pow2(wv)
    requires bits == Msb(y, hv) + Msb(x, wv)
    requires Value(o, conj, asg) == if asg[..|bits|] == bits then Value(o, Const(c), asg) else 0
    ensures Value(o, conj, asg) == if Row(asg[..hv + wv], hv) == y && Col(asg[..hv + wv], hv) == x then c else 0
  {
    CellBits(asg[..hv + wv], hv, wv, y, x);
  }

  /** Adding the minterm of an in-range cell (y, x) to the accumulator, on one assignment. */
  lemma EncodeStep(o: Order, add: TEdge, conj: TEdge, img: seq<seq<int>>, h: nat, w: nat,
                   hv: nat, nv: nat, y: nat, x: nat, asg: seq<bool>)
    requires Wf(o, add) && Wf(o, conj) && |asg| == o.Count() && hv <= nv <= o.Count()
    requires Covers(img, h, w) && y < h && x < w
    requires Value(o, add, asg) == Before(img, h, w, hv, asg[..nv], y, x)
    requires Value(o, conj, asg) == if Row(asg[..nv], hv) == y && Col(asg[..nv], hv) == x then img[y][x] else 0
    ensures Value(o, M.Disj(o, add, conj), asg) == Before(img, h, w, hv, asg[..nv], y, x + 1)
  {
    BeforeNext(img, h, w, hv, asg[..nv], y, x);
    DisjointOr(o, add, conj, asg);
  }

  /** (y, x) is a cell of the image whose row and column fit hv and wv bits. */
  predicate InGrid(h: nat, w: nat, hv: nat, wv: nat, y: nat, x: nat)
  {
    y < h && x < w && y < Pow2(hv) && x < Pow2(wv)
  }

  /**
   * The body of the pixel loop for an in-range cell: the minterm of the
   * pixel index y * 2^wv + x with the pixel's constant is OR-ed into add.
   */
  method EncodePixel(o: Order, add: TEdge, img: seq<seq<int>>, h: nat, w: nat,
                     hv: nat, wv: nat, y: nat, x: nat, pixel: nat) returns (add': TEdge)
    requires InGrid(h, w, hv, wv, y, x) && pixel == y * Pow2(wv) + x
    requires Encodes(o, add, img, h, w, hv, hv + wv, y, x)
    ensures Encodes(o, add', img, h, w, hv, hv + wv, y, x + 1)
  {
    var bits := IntToBits(pixel, hv + wv);
    MsbConcat(y, x, hv, wv);
    var conj := Const(img[y][x]);
    conj := OperateAnd(o, conj, bits);
    add' := M.Disj(o, add, conj);
    OrMinterm(o, add, conj, img, h, w, hv, wv, y, x, bits);
  }

  /** OR-ing the minterm of cell (y, x) into the accumulator moves it past that cell. */
  lemma OrMinterm(o: Order, add: TEdge, conj: TEdge, img: seq<seq<int>>, h: nat, w: nat,
                  hv: nat, wv: nat, y: nat, x: nat, bits: seq<bool>)
    requires InGrid(h, w, hv, wv, y, x) && bits == Msb(y, hv) + Msb(x, wv)
    requires Encodes(o, add, img, h, w, hv, hv + wv, y, x) && Restricted(o, conj, Const(img[y][x]), bits)
    ensures Encodes(o, M.Disj(o, add, conj), img, h, w, hv, hv + wv, y, x + 1)
  {
    forall asg: seq<bool> | |asg| == o.Count()
      ensures Value(o, M.Disj(o, add, conj), asg) == Before(img, h, w, hv, asg[..hv + wv], y, x + 1)
    {
      OrMintermAt(o, add, conj, img, h, w, hv, wv, y, x, bits, asg,
                  Value(o, add, asg), Value(o, conj, asg));
    }
  }

  /** OrMinterm on one assignment, given the accumulator's and the minterm's values there. */
  lemma OrMintermAt(o: Order, add: TEdge, conj: TEdge, img: seq<seq<int>>, h: nat, w: nat,
                    hv: nat, wv: nat, y: nat, x: nat, bits: seq<bool>, asg: seq<bool>, va: int, vc: int)
    requires InGrid(h, w, hv, wv, y, x) && bits == Msb(y, hv) + Msb(x, wv)
    requires Covers(img, h, w) && hv + wv <= o.Count() && Wf(o, add) && Wf(o, conj) && |asg| == o.Count()
    requires va == Value(o, add, asg) && va == Before(img, h, w, hv, asg[..hv + wv], y, x)
    requires vc == Value(o, conj, asg) && vc == if asg[..|bits|] == bits then Value(o, Const(img[y][x]), asg) else 0
    ensures Value(o, M.Disj(o, add, conj), asg) == Before(img, h, w, hv, asg[..hv + wv], y, x + 1)
  {
    MintermAt(o, conj, img[y][x], bits, hv, wv, y, x, asg);
    EncodeStep(o, add, conj, img, h, w, hv, hv + wv, y, x, asg);
  }

  /** The inner loop of the encoder: one row of the padded grid, pixel by pixel. */
  method EncodeRow(o: Order, add: TEdge, img: seq<seq<int>>, h: nat, w: nat,
                   hv: nat, wv: nat, y: nat, pixel: nat) returns (add': TEdge, pixel': nat)
    requires hv + wv <= o.Count() && Covers(img, h, w) && y < Pow2(hv) && pixel == y * Pow2(wv)
    requires Encodes(o, add, img, h, w, hv, hv + wv, y, 0)
    ensures Encodes(o, add', img, h, w, hv, hv + wv, y + 1, 0)
    ensures pixel' == pixel + Pow2(wv)
  {
    add', pixel' := add, pixel;
    var x := 0;
    while x < Pow2(wv)
      invariant x <= Pow2(wv) && pixel' == pixel + x
      invariant Encodes(o, add', img, h, w, hv, hv + wv, y, x)
    {
      if y < h && x < w {
        add' := EncodePixel(o, add', img, h, w, hv, wv, y, x, pixel');
      } else {
        EncodesPadding(o, add', img, h, w, hv, hv + wv, y, x);
      }
      pixel' := pixel' + 1;
      x := x + 1;
    }
    EncodesRow(o, add', img, h, w, hv, wv, y);
  }

  /**
   * matrix_img_to_add: on the manager grown to hv + wv variables, the
   * result maps every assignment to the pixel of the cell its first hv + wv
   * variables spell, and to 0 on the padding.
   */
  method Encode(img: seq<seq<int>>, height: nat, width: nat, o: Order) returns (o': Order, add: TEdge)
    requires 1 <= height && 1 <= width && Covers(img, height, width)
    ensures var nv := CeilLog2(height) + CeilLog2(width);
      o' == if nv <= o.Count() then o else Extended(o, nv - o.Count())
    ensures Stores(o', add, img, height, width)
  {
    var hv, wv := CeilLog2(height), CeilLog2(width);
    var nv := hv + wv;
    o' := CreateVars(o, nv);
    if o.Count() < nv {
      ExtendedKeeps(o, nv - o.Count());
    }
    add := EncodeGrid(o', img, height, width, hv, wv);
  }

  /** The outer loop of the encoder: every row of the padded 2^hv x 2^wv grid, from the constant 0. */
  method EncodeGrid(o: Order, img: seq<seq<int>>, h: nat, w: nat, hv: nat, wv: nat) returns (add: TEdge)
    requires 1 <= h && 1 <= w && Covers(img, h, w) && hv == CeilLog2(h) && wv == CeilLog2(w) && hv + wv <= o.Count()
    ensures Stores(o, add, img, h, w)
  {
    add := A.Zero;
    EncodesNothing(o, img, h, w, hv, hv + wv);
    var pixel := 0;
    var y := 0;
    while y < Pow2(hv)
      invariant y <= Pow2(hv) && pixel == y * Pow2(wv)
      invariant Encodes(o, add, img, h, w, hv, hv + wv, y, 0)
    {
      add, pixel := EncodeRow(o, add, img, h, w, hv, wv, y, pixel);
      assert pixel == (y + 1) * Pow2(wv);
      y := y + 1;
    }
    EncodesAll(o, add, img, h, w, hv, hv + wv, y);
  }

  // -------------------------------------------------------------------------
  // Decoding

  /**
   * The cells before (cy, cx) of newImg hold the diagram's eval on the bits
   * of their row followed by the bits of their column.
   */
  ghost predicate Decoded(o: Order, add: TEdge, newImg: seq<seq<int>>, h: nat, w: nat, hv: nat, wv: nat, cy: nat, cx: nat)
  {
    && Wf(o, add) && o.Count() == hv + wv && Rect(newImg, h, w)
    && forall y, x :: 0 <= y < h && 0 <= x < w && (y < cy || (y == cy && x < cx)) ==>
         newImg[y][x] == M.Sem(o, add, Msb(y, hv) + Msb(x, wv))
  }

  /** The inner loop of the decoder: one row of the padded grid, pixel by pixel. */
  method DecodeRow(o: Order, add: TEdge, newImg: seq<seq<int>>, h: nat, w: nat,
                   hv: nat, wv: nat, y: nat, pixel: nat) returns (newImg': seq<seq<int>>, pixel': nat)
    requires Wf(o, add) && o.Count() == hv + wv && w <= Pow2(wv) && y < Pow2(hv) && pixel == y * Pow2(wv)
    requires Decoded(o, add, newImg, h, w, hv, wv, y, 0)
    ensures Decoded(o, add, newImg', h, w, hv, wv, y + 1, 0)
    ensures pixel' == pixel + Pow2(wv)
  {
    newImg', pixel' := newImg, pixel;
    var x := 0;
    while x < Pow2(wv)
      invariant x <= Pow2(wv) && pixel' == pixel + x
      invariant Decoded(o, add, newImg', h, w, hv, wv, y, x)
    {
      if y < h && x < w {
        var bits := IntToBits(pixel', hv + wv);
        MsbConcat(y, x, hv, wv);
        newImg' := newImg'[y := newImg'[y][x := M.Sem(o, add, bits)]];
      }
      pixel' := pixel' + 1;
      x := x + 1;
    }
  }

  /**
   * matrix_add_to_img: an h x w image whose pixel (y, x) is the diagram's
   * eval on the bits of y followed by the bits of x. eval demands exactly
   * as many values as the manager has variables.
   */
  method Decode(o: Order, add: TEdge, height: nat, width: nat) returns (newImg: seq<seq<int>>)
    requires 1 <= height && 1 <= width && Wf(o, add)
    requires o.Count() == CeilLog2(height) + CeilLog2(width)
    ensures Rect(newImg, height, width)
    ensures forall y, x :: 0 <= y < height && 0 <= x < width ==>
      newImg[y][x] == M.Sem(o, add, Msb(y, CeilLog2(height)) + Msb(x, CeilLog2(width)))
  {
    var hv, wv := CeilLog2(height), CeilLog2(width);
    newImg := seq(height, _ => seq(width, _ => 0));
    var pixel := 0;
    var y := 0;
    while y < Pow2(hv)
      invariant y <= Pow2(hv) && pixel == y * Pow2(wv)
      invariant Decoded(o, add, newImg, height, width, hv, wv, y, 0)
    {
      newImg, pixel := DecodeRow(o, add, newImg, height, width, hv, wv, y, pixel);
      assert pixel == (y + 1) * Pow2(wv);
      y := y + 1;
    }
  }

  // -------------------------------------------------------------------------
  // Round trip

  /**
   * The picture test: an image encoded on an empty manager and decoded
   * again is the image.
   */
  method RoundTrip(img: seq<seq<int>>, height: nat, width: nat) returns (newImg: seq<seq<int>>)
    requires 1 <= height && 1 <= width && Rect(img, height, width)
    ensures newImg == img
  {
    var hv, wv := CeilLog2(height), CeilLog2(width);
    var empty := Order([], []);
    var o, add := Encode(img, height, width, empty);
    ExtendedKeeps(empty, hv + wv);
    assert Ctx(o) && o.Count() == hv + wv;
    assert Covers(img, height, width);
    newImg := Decode(o, add, height, width);
    forall y | 0 <= y < height
      ensures newImg[y] == img[y]
    {
      forall x | 0 <= x < width
        ensures newImg[y][x] == img[y][x]
      {
        DecodedPixel(o, add, img, height, width, y, x);
      }
    }
  }

  /** Decoding reads back, at the bits of cell (y, x), the pixel encoding put there. */
  lemma DecodedPixel(o: Order, add: TEdge, img: seq<seq<int>>, height: nat, width: nat, y: nat, x: nat)
    requires 1 <= height && 1 <= width && Covers(img, height, width) && y < height && x < width
    requires Ctx(o) && o.Count() == CeilLog2(height) + CeilLog2(width) && Stores(o, add, img, height, width)
    ensures M.Sem(o, add, Msb(y, CeilLog2(height)) + Msb(x, CeilLog2(width))) == img[y][x]
  {
    var hv, wv := CeilLog2(height), CeilLog2(width);
    var bits := Msb(y, hv) + Msb(x, wv);
    PixelOf(o, add, img, height, width, bits);
    SpellsCell(y, x, hv, wv);
    M.SemValue(o, add, bits);
  }

  lemma PixelOf(o: Order, add: TEdge, img: seq<seq<int>>, height: nat, width: nat, asg: seq<bool>)
    requires 1 <= height && 1 <= width && Covers(img, height, width)
    requires o.Count() == CeilLog2(height) + CeilLog2(width) && |asg| == o.Count()
    requires Stores(o, add, img, height, width)
    ensures Value(o, add, asg) == PixelAt(img, height, width, CeilLog2(height), asg)
  {
    assert asg[..CeilLog2(height) + CeilLog2(width)] == asg;
  }
}
