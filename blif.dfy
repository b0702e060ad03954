/**
 * The BLIF reader callbacks of the test helpers: a two-pass state machine
 * over the netlist events. The first pass registers inputs (one fresh
 * variable each), outputs and gates and counts how often each signal is used;
 * the second pass builds every gate's function from its single-cube cover and
 * releases signals whose last use has been consumed.
 *
 * Gate functions are kept as the expression of diagram operations the reader
 * issues (var, constant, ~, &, |); evaluating the expression is evaluating the
 * diagram, because each operation evaluates to its Boolean counterpart
 * (Bdd.ConjSem, Bdd.DisjSem, Bdd.ComplementSem and their KFDD versions).
 */
module Blif {
  import O = Objects

  // ---------------------------------------------------------------------------
  // Gate functions
  // ---------------------------------------------------------------------------

  /** Empty is a default-constructed diagram handle, which the first pass stores for gates. */
  datatype Circ = Empty | Const(b: bool) | Var(x: nat) | Not(c: Circ) | And(l: Circ, r: Circ) | Or(l: Circ, r: Circ)

  /** c holds no empty handle and only variables below n. */
  predicate Defined(c: Circ, n: nat)
  {
    match c
    case Empty => false
    case Const(_) => true
    case Var(x) => x < n
    case Not(a) => Defined(a, n)
    case And(a, b) => Defined(a, n) && Defined(b, n)
    case Or(a, b) => Defined(a, n) && Defined(b, n)
  }

  function Eval(c: Circ, asg: seq<bool>): bool
    requires Defined(c, |asg|)
  {
    match c
    case Const(b) => b
    case Var(x) => asg[x]
    case Not(a) => !Eval(a, asg)
    case And(a, b) => Eval(a, asg) && Eval(b, asg)
    case Or(a, b) => Eval(a, asg) || Eval(b, asg)
  }

  // ---------------------------------------------------------------------------
  // Single-cube covers
  // ---------------------------------------------------------------------------

  /** Input values vals lie in the cube: '1' wants true, '0' false, '-' anything. */
  predicate CubeMatches(cube: string, vals: seq<bool>)
    requires |cube| == |vals|
  {
    forall i :: 0 <= i < |cube| ==> cube[i] == '-' || (cube[i] == '1') == vals[i]
  }

  /**
   * The value a one-cube cover gives: with output bit 1 the cube is the
   * on-set, with output bit 0 it is the off-set.
   */
  predicate CoverValue(cube: string, bit: char, vals: seq<bool>)
    requires |cube| == |vals|
  {
    CubeMatches(cube, vals) == (bit != '0')
  }

  /** A cover of a one-input gate: a buffer for "0 0" and "1 1", an inverter for "0 1" and "1 0". */
  function Gate1(cube: char, bit: char, a: Circ): Circ
  {
    if cube == '0' then (if bit == '0' then a else Not(a))
    else (if bit == '0' then Not(a) else a)
  }

  lemma Gate1Sem(cube: char, bit: char, a: Circ, asg: seq<bool>)
    requires cube == '0' || cube == '1'
    requires Defined(a, |asg|)
    ensures Defined(Gate1(cube, bit, a), |asg|)
    ensures Eval(Gate1(cube, bit, a), asg) == CoverValue([cube], bit, [Eval(a, asg)])
  {
    var vals := [Eval(a, asg)];
    assert [cube][0] == cube && vals[0] == Eval(a, asg);
    assert CubeMatches([cube], vals) <==> ((cube == '1') == Eval(a, asg));
  }

  function Digit(c: char): (d: int)
    ensures 0 <= d <= 1
  {
    if c == '1' then 1 else 0
  }

  predicate IsDigit(c: char) { c == '0' || c == '1' }

  predicate CubeChar(c: char) { c == '0' || c == '1' || c == '-' }

  /**
   * std::stoi on a two-character cube: an optional minus sign followed by the
   * longest run of digits; None where no digit follows (the call throws).
   */
  function Stoi2(cube: string): (r: O.Option<int>)
    requires |cube| == 2 && CubeChar(cube[0]) && CubeChar(cube[1])
    ensures IsDigit(cube[0]) && IsDigit(cube[1]) ==> r == O.Some(10 * Digit(cube[0]) + Digit(cube[1]))
  {
    if IsDigit(cube[0]) then
      if IsDigit(cube[1]) then O.Some(10 * Digit(cube[0]) + Digit(cube[1])) else O.Some(Digit(cube[0]))
    else if IsDigit(cube[1]) then O.Some(-Digit(cube[1]))
    else O.None
  }

  /**
   * The two-input cover table as the reader writes it, dispatching on the
   * cube read as a number; None for the unknown-gate branch, which assigns
   * nothing.
   */
  function Gate2AsWritten(code: int, bit: char, a: Circ, b: Circ): O.Option<Circ>
  {
    if code == 0 then O.Some(if bit == '0' then Or(a, b) else Not(Or(a, b)))
    else if code == 1 then O.Some(if bit == '0' then Or(a, Not(b)) else And(Not(a), b))
    else if code == 10 then O.Some(if bit == '0' then Or(Not(a), b) else And(a, Not(b)))
    else if code == 11 then O.Some(if bit == '0' then Not(And(a, b)) else And(a, b))
    else O.None
  }

  /** On cubes of 0s and 1s the table realises the cover. */
  lemma Gate2AsWrittenSem(cube: string, bit: char, a: Circ, b: Circ, asg: seq<bool>)
    requires |cube| == 2 && IsDigit(cube[0]) && IsDigit(cube[1])
    requires Defined(a, |asg|) && Defined(b, |asg|)
    ensures Gate2AsWritten(Stoi2(cube).value, bit, a, b).Some?
    ensures Defined(Gate2AsWritten(Stoi2(cube).value, bit, a, b).value, |asg|)
    ensures Eval(Gate2AsWritten(Stoi2(cube).value, bit, a, b).value, asg)
              == CoverValue(cube, bit, [Eval(a, asg), Eval(b, asg)])
  {
  }

  /**
   * The cube "1-" with output 1 means f = a, but the number 1 selects the
   * "01" row, so the reader builds (not a) and b, which is false at a = 1,
   * b = 0.
   */
  lemma DontCareCounterexample()
    ensures Stoi2("1-") == O.Some(1)
    ensures Gate2AsWritten(1, '1', Var(0), Var(1)) == O.Some(And(Not(Var(0)), Var(1)))
    ensures !Eval(And(Not(Var(0)), Var(1)), [true, false])
    ensures CoverValue("1-", '1', [true, false])
  {
  }

  /** The literal of input x that a cube character asks for. */
  function CubeLit(c: char, x: Circ): Circ
  {
    if c == '1' then x else if c == '0' then Not(x) else Const(true)
  }

  lemma CubeLitSem(c: char, x: Circ, asg: seq<bool>)
    requires Defined(x, |asg|)
    ensures Defined(CubeLit(c, x), |asg|)
    ensures Eval(CubeLit(c, x), asg) == ((c != '1' && c != '0') || (c == '1') == Eval(x, asg))
  {
  }

  /**
   * The two-input cover as intended: the source's table for cubes of 0s and
   * 1s, and the conjunction of the constrained literals when a don't-care
   * occurs.
   */
  function Gate2(cube: string, bit: char, a: Circ, b: Circ): Circ
    requires |cube| == 2 && CubeChar(cube[0]) && CubeChar(cube[1])
  {
    if IsDigit(cube[0]) && IsDigit(cube[1]) then Gate2AsWritten(Stoi2(cube).value, bit, a, b).value
    else
      var m := And(CubeLit(cube[0], a), CubeLit(cube[1], b));
      if bit == '0' then Not(m) else m
  }

  lemma Gate2Sem(cube: string, bit: char, a: Circ, b: Circ, asg: seq<bool>)
    requires |cube| == 2 && CubeChar(cube[0]) && CubeChar(cube[1])
    requires Defined(a, |asg|) && Defined(b, |asg|)
    ensures Defined(Gate2(cube, bit, a, b), |asg|)
    ensures Eval(Gate2(cube, bit, a, b), asg) == CoverValue(cube, bit, [Eval(a, asg), Eval(b, asg)])
  {
    if IsDigit(cube[0]) && IsDigit(cube[1]) {
      Gate2AsWrittenSem(cube, bit, a, b, asg);
    } else {
      var vals := [Eval(a, asg), Eval(b, asg)];
      CubeLitSem(cube[0], a, asg);
      CubeLitSem(cube[1], b, asg);
      assert CubeMatches(cube, vals) <==> Eval(And(CubeLit(cube[0], a), CubeLit(cube[1], b)), asg) by {
        assert CubeMatches(cube, vals) <==>
          (cube[0] == '-' || (cube[0] == '1') == vals[0]) && (cube[1] == '-' || (cube[1] == '1') == vals[1]);
      }
    }
  }

  // ---------------------------------------------------------------------------
  // Reader state and callbacks
  // ---------------------------------------------------------------------------

  /** One callback of the BLIF parser; a gate carries its single cube and output bit. */
  datatype Event =
    | Model(name: string)
    | Input(name: string)
    | Output(name: string)
    | Gate(ins: seq<string>, out: string, cube: string, bit: char)

  /** Signal name to (use count, function). */
  type Gates = map<string, (int, Circ)>

  /**
   * The reader's record: whether the analysis pass is over, the signal
   * table, the model name, primary inputs and outputs in file order, and the
   * manager's variable count.
   */
  datatype State = State(done: bool, gates: Gates, model: string, inputs: seq<string>, outputs: seq<string>, vars: nat)

  function Init(): State
  {
    State(false, map[], "", [], [], 0)
  }

  /** The assertions a callback makes about its arguments and the current state. */
  predicate Allowed(s: State, e: Event)
  {
    match e
    case Model(n) => n != ""
    case Input(n) => n != ""
    case Output(n) => n != ""
    case Gate(ins, out, cube, bit) =>
      && out != "" && |ins| <= 2 && |cube| == |ins|
      && (forall a :: a in ins ==> a in s.gates)
      && (s.done && |ins| == 1 ==> IsDigit(cube[0]))
      && (s.done && |ins| == 2 ==> CubeChar(cube[0]) && CubeChar(cube[1]))
  }

  /** A use of signal a is counted (analysis pass). */
  function Use(g: Gates, a: string): Gates
    requires a in g
  {
    g[a := (g[a].0 + 1, g[a].1)]
  }

  /** The output's function is set; a missing entry is created with count 0. */
  function Assign(g: Gates, out: string, v: Circ): Gates
  {
    g[out := (if out in g then g[out].0 else 0, v)]
  }

  /**
   * A use of signal a is consumed (simulation pass): the count drops by one
   * and a signal that is not a primary output is erased at zero. A missing
   * entry is created first, as a map lookup by key does.
   */
  function Release(g: Gates, outputs: seq<string>, a: string): Gates
  {
    var c := (if a in g then g[a].0 else 0) - 1;
    if c == 0 && a !in outputs then g - {a}
    else g[a := (c, if a in g then g[a].1 else Empty)]
  }

  /** Releases each of the gate's inputs in order. */
  function ReleaseAll(g: Gates, outputs: seq<string>, ins: seq<string>): Gates
    decreases |ins|
  {
    if ins == [] then g else ReleaseAll(Release(g, outputs, ins[0]), outputs, ins[1..])
  }

  /** The function the simulation pass gives a gate: constant, one-input or two-input cover. */
  function GateFunction(g: Gates, ins: seq<string>, cube: string, bit: char): Circ
    requires |ins| <= 2 && |cube| == |ins| && (forall a :: a in ins ==> a in g)
    requires |ins| == 2 ==> CubeChar(cube[0]) && CubeChar(cube[1])
  {
    if |ins| == 0 then Const(bit != '0')
    else if |ins| == 1 then Gate1(cube[0], bit, g[ins[0]].1)
    else Gate2(cube, bit, g[ins[0]].1, g[ins[1]].1)
  }

  /**
   * The effect of one callback with the corrected reader; in the simulation
   * pass every gate, constants included, keeps its use count.
   */
  function Step(s: State, e: Event): State
    requires Allowed(s, e)
  {
    match e
    case Model(n) => s.(model := n)
    case Input(n) =>
      if s.done then s
      else s.(gates := s.gates[n := (0, Var(s.vars))], inputs := s.inputs + [n], vars := s.vars + 1)
    case Output(n) => if s.done then s else s.(outputs := s.outputs + [n])
    case Gate(ins, out, cube, bit) =>
      if s.done then
        s.(gates := ReleaseAll(Assign(s.gates, out, GateFunction(s.gates, ins, cube, bit)), s.outputs, ins))
      else if |ins| == 0 then s.(gates := s.gates[out := (0, Const(bit != '0'))])
      else if |ins| == 1 then s.(gates := Use(s.gates, ins[0])[out := (0, Empty)])
      else s.(gates := Use(Use(s.gates, ins[0]), ins[1])[out := (0, Empty)])
  }

  /** The cube of a two-input gate in the simulation pass must read as a number. */
  predicate StoiOk(s: State, e: Event)
    requires Allowed(s, e)
  {
    s.done && e.Gate? && |e.ins| == 2 ==> Stoi2(e.cube).Some?
  }

  /**
   * The effect of one callback as the reader is written: in the simulation
   * pass a constant gate is re-registered with use count 0, and two-input
   * covers go through the numeric dispatch.
   */
  function StepAsWritten(s: State, e: Event): State
    requires Allowed(s, e) && StoiOk(s, e)
  {
    if s.done && e.Gate? && |e.ins| == 0 then
      s.(gates := s.gates[e.out := (0, Const(e.bit != '0'))])
    else if s.done && e.Gate? && |e.ins| == 2 then
      var g := match Gate2AsWritten(Stoi2(e.cube).value, e.bit, s.gates[e.ins[0]].1, s.gates[e.ins[1]].1)
               case Some(v) => Assign(s.gates, e.out, v)
               case None => s.gates;
      s.(gates := Release(Release(g, s.outputs, e.ins[0]), s.outputs, e.ins[1]))
    else Step(s, e)
  }

  /**
   * The correction changes only the two defective cases: outside the
   * simulation of constant gates and of two-input cubes with a don't-care,
   * the reader as written and the corrected one take the same step.
   */
  lemma StepAgrees(s: State, e: Event)
    requires Allowed(s, e) && StoiOk(s, e)
    requires s.done && e.Gate? ==> |e.ins| != 0
    requires s.done && e.Gate? && |e.ins| == 2 ==> IsDigit(e.cube[0]) && IsDigit(e.cube[1])
    ensures StepAsWritten(s, e) == Step(s, e)
  {
    if s.done && e.Gate? && |e.ins| == 2 {
      var g := s.gates;
      var a0, a1 := e.ins[0], e.ins[1];
      var v := Gate2AsWritten(Stoi2(e.cube).value, e.bit, g[a0].1, g[a1].1);
      assert v.Some? && v.value == Gate2(e.cube, e.bit, g[a0].1, g[a1].1);
      var g0 := Assign(g, e.out, v.value);
      assert e.ins[0] == a0 && e.ins[1..][0] == a1 && e.ins[1..][1..] == [];
      assert ReleaseAll(g0, s.outputs, e.ins) == ReleaseAll(Release(g0, s.outputs, a0), s.outputs, e.ins[1..]);
      assert ReleaseAll(Release(g0, s.outputs, a0), s.outputs, e.ins[1..])
          == ReleaseAll(Release(Release(g0, s.outputs, a0), s.outputs, a1), s.outputs, []);
    }
  }

  datatype Version = AsWritten | Corrected

  predicate Ok(v: Version, s: State, e: Event)
  {
    Allowed(s, e) && (v.AsWritten? ==> StoiOk(s, e))
  }

  function Next(v: Version, s: State, e: Event): State
    requires Ok(v, s, e)
  {
    if v.AsWritten? then StepAsWritten(s, e) else Step(s, e)
  }

  /** Every callback of es finds its assertions satisfied. */
  predicate RunOk(v: Version, s: State, es: seq<Event>)
    decreases |es|, 0
  {
    es == [] || (RunOk(v, s, es[..|es| - 1]) && Ok(v, Run(v, s, es[..|es| - 1]), es[|es| - 1]))
  }

  /** One parser pass over es without its closing on_end. */
  function Run(v: Version, s: State, es: seq<Event>): State
    requires RunOk(v, s, es)
    decreases |es|, 1
  {
    if es == [] then s else Next(v, Run(v, s, es[..|es| - 1]), es[|es| - 1])
  }

  /** on_end: the analysis pass is over after any call. */
  function End(s: State): State
  {
    s.(done := true)
  }

  /** on_end's assertion in the simulation pass: one remaining signal per primary output. */
  predicate EndOk(s: State)
  {
    s.done ==> |s.gates.Keys| == |s.outputs|
  }

  // ---------------------------------------------------------------------------
  // The netlist a BLIF file describes
  // ---------------------------------------------------------------------------

  function Last(es: seq<Event>): Event
    requires es != []
  {
    es[|es| - 1]
  }

  function Init'(es: seq<Event>): seq<Event>
    requires es != []
  {
    es[..|es| - 1]
  }

  /** The signal an event defines: a primary input or a gate output. */
  function DefOf(e: Event): set<string>
  {
    if e.Input? then {e.name} else if e.Gate? then {e.out} else {}
  }

  function Defs(es: seq<Event>): set<string>
  {
    if es == [] then {} else Defs(Init'(es)) + DefOf(Last(es))
  }

  /** How often gates of es read signal n. */
  function Refs(es: seq<Event>, n: string): nat
  {
    if es == [] then 0
    else Refs(Init'(es), n) + (if Last(es).Gate? then multiset(Last(es).ins)[n] else 0)
  }

  function InputsOf(es: seq<Event>): seq<string>
  {
    if es == [] then [] else InputsOf(Init'(es)) + (if Last(es).Input? then [Last(es).name] else [])
  }

  function OutputsOf(es: seq<Event>): seq<string>
  {
    if es == [] then [] else OutputsOf(Init'(es)) + (if Last(es).Output? then [Last(es).name] else [])
  }

  function Vals(env: map<string, bool>, ins: seq<string>): (r: seq<bool>)
    ensures |r| == |ins|
  {
    seq(|ins|, i requires 0 <= i < |ins| => if ins[i] in env then env[ins[i]] else false)
  }

  /**
   * The value of every signal defined by es when the i-th primary input
   * carries asg[i]: inputs take their value, gates their cover's value.
   */
  function Env(es: seq<Event>, asg: seq<bool>): map<string, bool>
    requires |InputsOf(es)| <= |asg|
  {
    if es == [] then map[]
    else
      var env := Env(Init'(es), asg);
      match Last(es)
      case Input(n) => env[n := asg[|InputsOf(Init'(es))|]]
      case Gate(ins, out, cube, bit) =>
        env[out := if |cube| == |ins| then CoverValue(cube, bit, Vals(env, ins)) else false]
      case _ => env
  }

  /** An event is acceptable after the signals in defined: fresh names, gates read only defined signals. */
  predicate EventOk(e: Event, defined: set<string>)
  {
    match e
    case Model(n) => n != ""
    case Input(n) => n != "" && n !in defined
    case Output(n) => n != ""
    case Gate(ins, out, cube, bit) =>
      && out != "" && out !in defined && |ins| <= 2 && |cube| == |ins|
      && (forall a :: a in ins ==> a in defined)
      && (|ins| == 1 ==> IsDigit(cube[0]))
      && (|ins| == 2 ==> CubeChar(cube[0]) && CubeChar(cube[1]))
  }

  /** Every signal is defined once, before it is read (the file is in topological order). */
  predicate Ordered(es: seq<Event>)
  {
    forall i :: 0 <= i < |es| ==> EventOk(es[i], Defs(es[..i]))
  }

  predicate Distinct(xs: seq<string>)
  {
    forall i, j :: 0 <= i < j < |xs| ==> xs[i] != xs[j]
  }

  /**
   * A netlist the reader accepts: ordered, its primary outputs distinct and
   * defined, and every other signal read by some gate.
   */
  predicate WellFormed(es: seq<Event>)
  {
    && Ordered(es)
    && Distinct(OutputsOf(es))
    && (forall n :: n in OutputsOf(es) ==> n in Defs(es))
    && (forall n :: n in Defs(es) ==> n in OutputsOf(es) || Refs(es, n) > 0)
  }

  // ---------------------------------------------------------------------------
  // The constant-gate use count
  // ---------------------------------------------------------------------------

  /** Input a, constant c = 1, output y = a and c. */
  function ConstNetlist(): seq<Event>
  {
    [Input("a"), Output("y"), Gate([], "c", "", '1'), Gate(["a", "c"], "y", "11", '1')]
  }

  lemma ConstNetlistWellFormed()
    ensures WellFormed(ConstNetlist())
  {
    ConstNetlistDefs();
    ConstNetlistOrdered();
    ConstNetlistRefs();
    var es := ConstNetlist();
    assert forall n :: n in Defs(es) ==> n in OutputsOf(es) || Refs(es, n) > 0;
  }

  lemma ConstNetlistOrdered()
    ensures Ordered(ConstNetlist())
  {
    var es := ConstNetlist();
    var p1, p2, p3 := [Input("a")], [Input("a"), Output("y")], [Input("a"), Output("y"), Gate([], "c", "", '1')];
    ConstNetlistDefs();
    assert p1 == [] + [es[0]] && p2 == p1 + [es[1]] && p3 == p2 + [es[2]] && es == p3 + [es[3]];
    assert Ordered([]);
    OrderedSnoc([], es[0]);
    assert Ordered(p1);
    OrderedSnoc(p1, es[1]);
    assert Ordered(p2);
    OrderedSnoc(p2, es[2]);
    assert Ordered(p3);
    assert EventOk(es[3], {"a", "c"});
    OrderedSnoc(p3, es[3]);
  }

  lemma ConstNetlistRefs()
    ensures Refs(ConstNetlist(), "a") == 1 && Refs(ConstNetlist(), "c") == 1
    ensures OutputsOf(ConstNetlist()) == ["y"]
  {
    var es := ConstNetlist();
    var p1, p2, p3 := [Input("a")], [Input("a"), Output("y")], [Input("a"), Output("y"), Gate([], "c", "", '1')];
    assert Init'(p1) == [] && Init'(p2) == p1 && Init'(p3) == p2 && Init'(es) == p3;
    assert Refs(p3, "a") == 0 && Refs(p3, "c") == 0;
  }

  lemma ConstNetlistDefs()
    ensures Defs([Input("a")]) == {"a"} && Defs([Input("a"), Output("y")]) == {"a"}
    ensures Defs([Input("a"), Output("y"), Gate([], "c", "", '1')]) == {"a", "c"}
    ensures Defs(ConstNetlist()) == {"a", "c", "y"}
  {
    var es := ConstNetlist();
    var p1, p2, p3 := [Input("a")], [Input("a"), Output("y")], [Input("a"), Output("y"), Gate([], "c", "", '1')];
    assert Init'(p1) == [] && Init'(p2) == p1 && Init'(p3) == p2 && Init'(es) == p3;
  }

  /** The analysis pass over the netlist. */
  lemma ConstNetlistPass1()
    ensures RunOk(AsWritten, Init(), ConstNetlist())
    ensures Run(AsWritten, Init(), ConstNetlist())
         == State(false, map["a" := (1, Var(0)), "c" := (1, Const(true)), "y" := (0, Empty)], "", ["a"], ["y"], 1)
  {
    var es := ConstNetlist();
    var p1, p2, p3 := [Input("a")], [Input("a"), Output("y")], [Input("a"), Output("y"), Gate([], "c", "", '1')];
    assert Init'(p1) == [] && Init'(p2) == p1 && Init'(p3) == p2 && Init'(es) == p3;
    var s0 := Init();
    assert RunOk(AsWritten, s0, p1);
    var s1 := Run(AsWritten, s0, p1);
    assert s1 == State(false, map["a" := (0, Var(0))], "", ["a"], [], 1);
    assert RunOk(AsWritten, s0, p2);
    var s2 := Run(AsWritten, s0, p2);
    assert s2 == s1.(outputs := ["y"]);
    assert RunOk(AsWritten, s0, p3);
    var s3 := Run(AsWritten, s0, p3);
    assert s3 == s2.(gates := map["a" := (0, Var(0)), "c" := (0, Const(true))]);
    assert RunOk(AsWritten, s0, es);
  }

  /** The simulation pass over the netlist, as written. */
  lemma ConstNetlistPass2(s: State)
    requires s == State(true, map["a" := (1, Var(0)), "c" := (1, Const(true)), "y" := (0, Empty)], "", ["a"], ["y"], 1)
    ensures RunOk(AsWritten, s, ConstNetlist())
    ensures Run(AsWritten, s, ConstNetlist()).gates == map["c" := (-1, Const(true)), "y" := (0, And(Var(0), Const(true)))]
    ensures Run(AsWritten, s, ConstNetlist()).outputs == ["y"]
  {
    var es := ConstNetlist();
    var p1, p2, p3 := [Input("a")], [Input("a"), Output("y")], [Input("a"), Output("y"), Gate([], "c", "", '1')];
    assert Init'(p1) == [] && Init'(p2) == p1 && Init'(p3) == p2 && Init'(es) == p3;
    assert RunOk(AsWritten, s, p1) && Run(AsWritten, s, p1) == s;
    assert RunOk(AsWritten, s, p2) && Run(AsWritten, s, p2) == s;
    assert RunOk(AsWritten, s, p3);
    var s3 := Run(AsWritten, s, p3);
    assert s3 == s.(gates := map["a" := (1, Var(0)), "c" := (0, Const(true)), "y" := (0, Empty)]);
    ConstLastGate(s3, es[3]);
  }

  /** The last gate of the netlist in the simulation pass, as written. */
  lemma ConstLastGate(s: State, e: Event)
    requires s == State(true, map["a" := (1, Var(0)), "c" := (0, Const(true)), "y" := (0, Empty)], "", ["a"], ["y"], 1)
    requires e == Gate(["a", "c"], "y", "11", '1')
    ensures Ok(AsWritten, s, e)
    ensures Next(AsWritten, s, e) == s.(gates := map["c" := (-1, Const(true)), "y" := (0, And(Var(0), Const(true)))])
  {
    assert Stoi2("11") == O.Some(11);
    var g := Assign(s.gates, "y", And(Var(0), Const(true)));
    assert g == map["a" := (1, Var(0)), "c" := (0, Const(true)), "y" := (0, And(Var(0), Const(true)))];
    ConstReleases(g);
  }

  lemma ConstReleases(g: Gates)
    requires g == map["a" := (1, Var(0)), "c" := (0, Const(true)), "y" := (0, And(Var(0), Const(true)))]
    ensures Release(Release(g, ["y"], "a"), ["y"], "c") == map["c" := (-1, Const(true)), "y" := (0, And(Var(0), Const(true)))]
  {
    var g1 := Release(g, ["y"], "a");
    assert "a" !in ["y"] && "c" !in ["y"] && "a" != "c" && "a" != "y";
    assert g1 == map["c" := (0, Const(true)), "y" := (0, And(Var(0), Const(true)))];
  }

  /**
   * As written, the simulation pass resets the constant's use count to 0, so
   * consuming its one use leaves it at -1 and never erases it: two signals
   * remain for one primary output and on_end's assertion fails.
   */
  lemma ConstGateCounterexample()
    ensures WellFormed(ConstNetlist())
    ensures RunOk(AsWritten, Init(), ConstNetlist())
    ensures RunOk(AsWritten, End(Run(AsWritten, Init(), ConstNetlist())), ConstNetlist())
    ensures var s := Run(AsWritten, End(Run(AsWritten, Init(), ConstNetlist())), ConstNetlist());
            s.gates.Keys == {"c", "y"} && s.gates["c"].0 == -1 && |s.outputs| == 1 && !EndOk(s)
  {
    ConstNetlistWellFormed();
    ConstNetlistPass1();
    ConstNetlistPass2(End(Run(AsWritten, Init(), ConstNetlist())));
    TwoSignals(map["c" := (-1, Const(true)), "y" := (0, And(Var(0), Const(true)))]);
  }

  lemma TwoSignals(g: Gates)
    requires g == map["c" := (-1, Const(true)), "y" := (0, And(Var(0), Const(true)))]
    ensures g.Keys == {"c", "y"} && |g.Keys| == 2
  {
    assert "c" != "y";
  }

  // ---------------------------------------------------------------------------
  // Facts about netlist prefixes
  // ---------------------------------------------------------------------------

  /** Extending a netlist by one event unfolds each netlist function once. */
  lemma Snoc(P: seq<Event>, e: Event)
    ensures Init'(P + [e]) == P && Last(P + [e]) == e
  {
    assert (P + [e])[..|P|] == P;
  }

  lemma OrderedSnoc(P: seq<Event>, e: Event)
    ensures Ordered(P + [e]) <==> Ordered(P) && EventOk(e, Defs(P))
  {
    forall i | 0 <= i <= |P|
      ensures (P + [e])[..i] == P[..i]
    {
    }
    assert (P + [e])[..|P|] == P;
  }

  /** The prefixes of an ordered netlist, one event at a time. */
  lemma OrderedPrefix(es: seq<Event>, k: nat)
    requires Ordered(es) && k < |es|
    ensures es[..k + 1] == es[..k] + [es[k]]
    ensures Ordered(es[..k]) && EventOk(es[k], Defs(es[..k]))
  {
    assert es[..k + 1] == es[..k] + [es[k]];
    forall i | 0 <= i < k
      ensures EventOk(es[..k][i], Defs(es[..k][..i]))
    {
      assert es[..k][..i] == es[..i];
    }
  }

  lemma {:induction false} DefsMono(es: seq<Event>, k: nat)
    requires k <= |es|
    ensures Defs(es[..k]) <= Defs(es)
    decreases |es| - k
  {
    if k < |es| {
      DefsMono(es, k + 1);
      assert es[..k + 1] == es[..k] + [es[k]];
      Snoc(es[..k], es[k]);
    } else {
      assert es[..k] == es;
    }
  }

  lemma {:induction false} RefsMono(es: seq<Event>, k: nat, n: string)
    requires k <= |es|
    ensures Refs(es[..k], n) <= Refs(es, n)
    decreases |es| - k
  {
    if k < |es| {
      RefsMono(es, k + 1, n);
      assert es[..k + 1] == es[..k] + [es[k]];
      Snoc(es[..k], es[k]);
    } else {
      assert es[..k] == es;
    }
  }

  lemma {:induction false} InputsPrefix(es: seq<Event>, k: nat)
    requires k <= |es|
    ensures InputsOf(es[..k]) <= InputsOf(es)
    decreases |es| - k
  {
    if k < |es| {
      InputsPrefix(es, k + 1);
      assert es[..k + 1] == es[..k] + [es[k]];
      Snoc(es[..k], es[k]);
    } else {
      assert es[..k] == es;
    }
  }

  /** A signal that is not defined yet has not been read. */
  lemma {:induction false} RefsUndefined(es: seq<Event>, n: string)
    requires Ordered(es) && n !in Defs(es)
    ensures Refs(es, n) == 0
  {
    if es != [] {
      var P, e := Init'(es), Last(es);
      assert es == P + [e];
      OrderedSnoc(P, e);
      RefsUndefined(P, n);
      if e.Gate? {
        assert n !in e.ins;
      }
    }
  }

  lemma {:induction false} InputsDefined(es: seq<Event>)
    ensures forall j :: 0 <= j < |InputsOf(es)| ==> InputsOf(es)[j] in Defs(es)
  {
    if es != [] {
      InputsDefined(Init'(es));
    }
  }

  lemma {:induction false} EnvKeys(es: seq<Event>, asg: seq<bool>)
    requires |InputsOf(es)| <= |asg|
    ensures Env(es, asg).Keys == Defs(es)
  {
    if es != [] {
      EnvKeys(Init'(es), asg);
    }
  }

  lemma {:induction false} DistinctCard(xs: seq<string>)
    requires Distinct(xs)
    ensures |set x | x in xs| == |xs|
  {
    if xs != [] {
      var t := xs[..|xs| - 1];
      assert Distinct(t);
      DistinctCard(t);
      assert (set x | x in xs) == (set x | x in t) + {xs[|xs| - 1]};
      assert xs[|xs| - 1] !in t;
    }
  }

  // ---------------------------------------------------------------------------
  // The analysis pass
  // ---------------------------------------------------------------------------

  /** After the events P of the analysis pass. */
  predicate Inv1(s: State, P: seq<Event>)
  {
    && !s.done
    && s.gates.Keys == Defs(P)
    && (forall n :: n in s.gates ==> s.gates[n].0 == Refs(P, n))
    && s.inputs == InputsOf(P) && s.vars == |s.inputs|
    && s.outputs == OutputsOf(P)
    && (forall j :: 0 <= j < |s.inputs| ==> s.inputs[j] in s.gates && s.gates[s.inputs[j]].1 == Var(j))
  }

  /** The analysis pass counts one use per occurrence of a signal among the gate's inputs. */
  lemma UseCounts(g: Gates, ins: seq<string>, out: string)
    requires 1 <= |ins| <= 2 && (forall a :: a in ins ==> a in g) && out !in ins
    ensures var g' := if |ins| == 1 then Use(g, ins[0])[out := (0, Empty)]
                      else Use(Use(g, ins[0]), ins[1])[out := (0, Empty)];
            && g'.Keys == g.Keys + {out} && g'[out] == (0, Empty)
            && forall n :: n in g && n != out ==> g'[n] == (g[n].0 + multiset(ins)[n], g[n].1)
  {
    if |ins| == 2 {
      assert ins == [ins[0]] + [ins[1]];
      assert multiset(ins) == multiset{ins[0], ins[1]};
    } else {
      assert ins == [ins[0]];
      assert multiset(ins) == multiset{ins[0]};
    }
  }

  lemma Pass1Step(P: seq<Event>, e: Event, s: State)
    requires Ordered(P) && EventOk(e, Defs(P)) && Inv1(s, P)
    ensures Allowed(s, e) && Inv1(Step(s, e), P + [e])
  {
    Snoc(P, e);
    InputsDefined(P);
    if e.Input? {
      RefsUndefined(P, e.name);
      Pass1Input(P, e, s);
    } else if e.Gate? {
      RefsUndefined(P, e.out);
      Pass1Gate(P, e, s);
    }
  }

  lemma Pass1Input(P: seq<Event>, e: Event, s: State)
    requires EventOk(e, Defs(P)) && Inv1(s, P) && e.Input?
    requires Init'(P + [e]) == P && Last(P + [e]) == e
    requires (forall j :: 0 <= j < |InputsOf(P)| ==> InputsOf(P)[j] in Defs(P)) && Refs(P, e.name) == 0
    ensures Allowed(s, e) && Inv1(Step(s, e), P + [e])
  {
    var s' := Step(s, e);
    assert s'.gates == s.gates[e.name := (0, Var(s.vars))];
    assert forall n :: Refs(P + [e], n) == Refs(P, n);
  }

  /** A gate of an ordered netlist passes the analysis pass's assertions. */
  lemma Pass1Allowed(e: Event, s: State, defined: set<string>)
    requires EventOk(e, defined) && e.Gate? && !s.done && s.gates.Keys == defined
    ensures Allowed(s, e)
  {
  }

  lemma Pass1Gate(P: seq<Event>, e: Event, s: State)
    requires EventOk(e, Defs(P)) && Inv1(s, P) && e.Gate?
    requires Init'(P + [e]) == P && Last(P + [e]) == e
    requires (forall j :: 0 <= j < |InputsOf(P)| ==> InputsOf(P)[j] in Defs(P)) && Refs(P, e.out) == 0
    ensures Allowed(s, e) && Inv1(Step(s, e), P + [e])
  {
    Pass1Allowed(e, s, Defs(P));
    if e.ins == [] {
      var g' := AnalysisConst(s, e);
      Pass1Const(P, e, s, g');
    } else {
      assert e.out !in e.ins;
      var g' := AnalysisUse(s, e);
      Pass1Use(P, e, s, g');
    }
  }

  /** The analysis pass registers a constant gate with no uses. */
  lemma AnalysisConst(s: State, e: Event) returns (g': Gates)
    requires Allowed(s, e) && !s.done && e.Gate? && e.ins == []
    ensures Step(s, e) == s.(gates := g') && g' == s.gates[e.out := (0, Const(e.bit != '0'))]
  {
    g' := Step(s, e).gates;
  }

  /** The analysis pass on a gate with inputs counts their uses and registers the output. */
  lemma AnalysisUse(s: State, e: Event) returns (g': Gates)
    requires Allowed(s, e) && !s.done && e.Gate? && e.ins != [] && e.out !in e.ins
    ensures Step(s, e) == s.(gates := g')
    ensures g'.Keys == s.gates.Keys + {e.out} && g'[e.out] == (0, Empty)
    ensures forall n :: n in s.gates && n != e.out ==> g'[n] == (s.gates[n].0 + multiset(e.ins)[n], s.gates[n].1)
  {
    g' := Step(s, e).gates;
    UseCounts(s.gates, e.ins, e.out);
  }

  lemma Pass1Const(P: seq<Event>, e: Event, s: State, g': Gates)
    requires Inv1(s, P) && e.Gate? && e.ins == [] && e.out !in Defs(P) && Refs(P, e.out) == 0
    requires Init'(P + [e]) == P && Last(P + [e]) == e
    requires (forall j :: 0 <= j < |InputsOf(P)| ==> InputsOf(P)[j] in Defs(P))
    requires g' == s.gates[e.out := (0, Const(e.bit != '0'))]
    ensures Inv1(s.(gates := g'), P + [e])
  {
    assert forall n :: Refs(P + [e], n) == Refs(P, n);
  }

  lemma Pass1Use(P: seq<Event>, e: Event, s: State, g': Gates)
    requires Inv1(s, P) && e.Gate? && e.out !in Defs(P) && e.out !in e.ins && Refs(P, e.out) == 0
    requires Init'(P + [e]) == P && Last(P + [e]) == e
    requires (forall j :: 0 <= j < |InputsOf(P)| ==> InputsOf(P)[j] in Defs(P))
    requires g'.Keys == s.gates.Keys + {e.out} && g'[e.out] == (0, Empty)
    requires forall n :: n in s.gates && n != e.out ==> g'[n] == (s.gates[n].0 + multiset(e.ins)[n], s.gates[n].1)
    ensures Inv1(s.(gates := g'), P + [e])
  {
    assert forall n :: Refs(P + [e], n) == Refs(P, n) + multiset(e.ins)[n];
  }

  lemma {:induction false} Pass1(es: seq<Event>, k: nat)
    requires Ordered(es) && k <= |es|
    ensures RunOk(Corrected, Init(), es[..k]) && Inv1(Run(Corrected, Init(), es[..k]), es[..k])
  {
    if k == 0 {
      assert es[..0] == [];
    } else {
      Pass1(es, k - 1);
      OrderedPrefix(es, k - 1);
      Snoc(es[..k - 1], es[k - 1]);
      Pass1Step(es[..k - 1], es[k - 1], Run(Corrected, Init(), es[..k - 1]));
    }
  }

  // ---------------------------------------------------------------------------
  // The simulation pass
  // ---------------------------------------------------------------------------

  /** Releasing one use of a signal that has one. */
  lemma ReleaseSpec(g: Gates, outputs: seq<string>, a: string)
    requires a in g
    ensures var g' := Release(g, outputs, a);
            && (forall n :: n in g' <==> n in g && (n == a ==> g[a].0 - 1 != 0 || a in outputs))
            && (forall n :: n in g' ==> g'[n] == (g[n].0 - (if n == a then 1 else 0), g[n].1))
  {
  }

  lemma ConsCount(a: string, t: seq<string>, n: string)
    ensures multiset([a] + t)[n] == multiset(t)[n] + (if n == a then 1 else 0)
  {
    assert multiset([a] + t) == multiset{a} + multiset(t);
  }

  /** Releasing a gate's inputs lowers each count by the signal's occurrences among them. */
  lemma {:induction false} ReleaseAllSpec(g: Gates, outputs: seq<string>, ins: seq<string>)
    requires forall a :: a in ins ==> a in g && g[a].0 >= multiset(ins)[a]
    ensures var g' := ReleaseAll(g, outputs, ins);
            && (forall n :: n in g' <==> n in g && (n in ins ==> g[n].0 - multiset(ins)[n] != 0 || n in outputs))
            && (forall n :: n in g' ==> g'[n] == (g[n].0 - multiset(ins)[n], g[n].1))
    decreases |ins|
  {
    if ins != [] {
      var a, t := ins[0], ins[1..];
      assert ins == [a] + t;
      var g1 := Release(g, outputs, a);
      ReleaseSpec(g, outputs, a);
      forall b | b in t
        ensures b in g1 && g1[b].0 >= multiset(t)[b]
      {
        assert b in multiset(t);
        ConsCount(a, t, b);
      }
      ReleaseAllSpec(g1, outputs, t);
      var g' := ReleaseAll(g, outputs, ins);
      assert g' == ReleaseAll(g1, outputs, t);
      forall n
        ensures n in g' <==> n in g && (n in ins ==> g[n].0 - multiset(ins)[n] != 0 || n in outputs)
        ensures n in g' ==> g'[n] == (g[n].0 - multiset(ins)[n], g[n].1)
      {
        ConsCount(a, t, n);
        if n !in t {
          assert multiset(t)[n] == 0;
        }
      }
    }
  }

  /** Signal n still has a table entry after the events P of the simulation pass. */
  predicate Live(es: seq<Event>, P: seq<Event>, n: string)
  {
    n in Defs(es) && (n in OutputsOf(es) || Refs(P, n) < Refs(es, n))
  }

  /** c computes signal n of the netlist P under every assignment to the N primary inputs. */
  ghost predicate Denotes(c: Circ, P: seq<Event>, n: string, N: nat)
    requires |InputsOf(P)| <= N
  {
    Defined(c, N) && forall asg: seq<bool> :: |asg| == N ==> n in Env(P, asg) && Eval(c, asg) == Env(P, asg)[n]
  }

  /** After the events P of the simulation pass over the netlist es. */
  ghost predicate Inv2(s: State, es: seq<Event>, P: seq<Event>)
  {
    && s.done
    && s.inputs == InputsOf(es) && s.vars == |s.inputs| && s.outputs == OutputsOf(es)
    && |InputsOf(P)| <= s.vars
    && (forall n :: n in s.gates <==> Live(es, P, n))
    && (forall n :: n in s.gates ==> s.gates[n].0 == Refs(es, n) - Refs(P, n))
    && (forall j :: 0 <= j < |s.inputs| && s.inputs[j] in s.gates && s.inputs[j] !in Defs(P) ==>
          s.gates[s.inputs[j]].1 == Var(j))
    && (forall n :: n in s.gates && n in Defs(P) ==> Denotes(s.gates[n].1, P, n, s.vars))
  }

  /** What the simulation pass needs to know about the netlist around the next event e. */
  ghost predicate Around(es: seq<Event>, P: seq<Event>, e: Event)
  {
    && Ordered(P) && EventOk(e, Defs(P))
    && Init'(P + [e]) == P && Last(P + [e]) == e
    && (forall n :: Refs(P + [e], n) <= Refs(es, n))
    && Defs(P + [e]) <= Defs(es)
    && InputsOf(P + [e]) <= InputsOf(es)
    && (forall n :: n in Defs(es) ==> n in OutputsOf(es) || Refs(es, n) > 0)
  }

  lemma AroundPrefix(es: seq<Event>, k: nat)
    requires WellFormed(es) && k < |es|
    ensures es[..k + 1] == es[..k] + [es[k]] && Around(es, es[..k], es[k])
  {
    OrderedPrefix(es, k);
    Snoc(es[..k], es[k]);
    forall n {
      RefsMono(es, k + 1, n);
    }
    DefsMono(es, k + 1);
    InputsPrefix(es, k + 1);
  }

  /** The cover a gate's function realises, given the functions of its inputs. */
  lemma GateFunctionSem(g: Gates, ins: seq<string>, cube: string, bit: char, P: seq<Event>, N: nat, asg: seq<bool>)
    requires |ins| <= 2 && |cube| == |ins| && (forall a :: a in ins ==> a in g)
    requires |ins| == 1 ==> IsDigit(cube[0])
    requires |ins| == 2 ==> CubeChar(cube[0]) && CubeChar(cube[1])
    requires |InputsOf(P)| <= N && |asg| == N
    requires forall a :: a in ins ==> Denotes(g[a].1, P, a, N)
    ensures Defined(GateFunction(g, ins, cube, bit), N)
    ensures Eval(GateFunction(g, ins, cube, bit), asg) == CoverValue(cube, bit, Vals(Env(P, asg), ins))
  {
    var env := Env(P, asg);
    if |ins| == 1 {
      Gate1Sem(cube[0], bit, g[ins[0]].1, asg);
      assert cube == [cube[0]] && Vals(env, ins) == [Eval(g[ins[0]].1, asg)];
    } else if |ins| == 2 {
      Gate2Sem(cube, bit, g[ins[0]].1, g[ins[1]].1, asg);
      assert Vals(env, ins) == [Eval(g[ins[0]].1, asg), Eval(g[ins[1]].1, asg)];
    }
  }

  lemma GateFunctionDefined(g: Gates, ins: seq<string>, cube: string, bit: char, N: nat)
    requires |ins| <= 2 && |cube| == |ins| && (forall a :: a in ins ==> a in g && Defined(g[a].1, N))
    requires |ins| == 2 ==> CubeChar(cube[0]) && CubeChar(cube[1])
    ensures Defined(GateFunction(g, ins, cube, bit), N)
  {
    if |ins| == 2 {
      assert ins[0] in ins && ins[1] in ins;
    } else if |ins| == 1 {
      assert ins[0] in ins;
    }
  }

  lemma Pass2Gate(es: seq<Event>, P: seq<Event>, e: Event, s: State)
    requires Around(es, P, e) && Inv2(s, es, P) && e.Gate?
    ensures Allowed(s, e) && Inv2(Step(s, e), es, P + [e])
  {
    Pass2Reads(es, P, e, s);
    Pass2Map(s, e);
    var g' := Step(s, e).gates;
    Pass2Counts(es, P, e, s.gates, g');
    Pass2Value(P, e, s.gates, s.vars);
    DenotesStep(s.gates, g', P, P + [e], e.out, GateFunction(s.gates, e.ins, e.cube, e.bit), s.vars);
  }

  /** The gate's inputs and output have live entries, and its inputs enough uses left. */
  lemma Pass2Reads(es: seq<Event>, P: seq<Event>, e: Event, s: State)
    requires Around(es, P, e) && Inv2(s, es, P) && e.Gate?
    ensures Allowed(s, e) && Refs(P, e.out) == 0 && e.out !in e.ins && e.out in s.gates
    ensures forall n :: Refs(P + [e], n) == Refs(P, n) + multiset(e.ins)[n]
    ensures forall a :: a in e.ins ==> a in s.gates && s.gates[a].0 >= multiset(e.ins)[a] && a in Defs(P)
  {
    RefsUndefined(P, e.out);
    assert forall n :: Refs(P + [e], n) == Refs(P, n) + multiset(e.ins)[n];
    forall a | a in e.ins
      ensures a in s.gates && s.gates[a].0 >= multiset(e.ins)[a]
    {
      assert a in multiset(e.ins);
    }
  }

  /** The simulation step on the signal table: counts drop, dead entries go, the output gets its function. */
  lemma Pass2Map(s: State, e: Event)
    requires Allowed(s, e) && s.done && e.Gate? && e.out in s.gates && e.out !in e.ins
    requires forall a :: a in e.ins ==> a in s.gates && s.gates[a].0 >= multiset(e.ins)[a]
    ensures var g, g' := s.gates, Step(s, e).gates;
            && Step(s, e) == s.(gates := g')
            && (forall n :: n in g' <==> n in g && (n in e.ins ==> g[n].0 - multiset(e.ins)[n] != 0 || n in s.outputs))
            && (forall n :: n in g' ==> g'[n].0 == g[n].0 - multiset(e.ins)[n])
            && (forall n :: n in g' && n != e.out ==> g'[n].1 == g[n].1)
            && (e.out in g' ==> g'[e.out].1 == GateFunction(g, e.ins, e.cube, e.bit))
  {
    var g1 := Assign(s.gates, e.out, GateFunction(s.gates, e.ins, e.cube, e.bit));
    ReleaseAllSpec(g1, s.outputs, e.ins);
  }

  /** Use counts and liveness one event further. */
  lemma Pass2Counts(es: seq<Event>, P: seq<Event>, e: Event, g: Gates, g': Gates)
    requires e.Gate?
    requires forall n :: n in g <==> Live(es, P, n)
    requires forall n :: n in g ==> g[n].0 == Refs(es, n) - Refs(P, n)
    requires forall n :: Refs(P + [e], n) == Refs(P, n) + multiset(e.ins)[n]
    requires forall n :: Refs(P + [e], n) <= Refs(es, n)
    requires forall n :: n in g' <==> n in g && (n in e.ins ==> g[n].0 - multiset(e.ins)[n] != 0 || n in OutputsOf(es))
    requires forall n :: n in g' ==> g'[n].0 == g[n].0 - multiset(e.ins)[n]
    ensures forall n :: n in g' <==> Live(es, P + [e], n)
    ensures forall n :: n in g' ==> g'[n].0 == Refs(es, n) - Refs(P + [e], n)
  {
    forall n
      ensures n in g' <==> Live(es, P + [e], n)
    {
      if n !in e.ins {
        assert multiset(e.ins)[n] == 0;
      }
    }
  }

  /** The gate's new function denotes its output after the event. */
  lemma Pass2Value(P: seq<Event>, e: Event, g: Gates, N: nat)
    requires e.Gate? && |e.ins| <= 2 && |e.cube| == |e.ins| && (forall a :: a in e.ins ==> a in g)
    requires |e.ins| == 1 ==> IsDigit(e.cube[0])
    requires |e.ins| == 2 ==> CubeChar(e.cube[0]) && CubeChar(e.cube[1])
    requires Init'(P + [e]) == P && Last(P + [e]) == e
    requires |InputsOf(P)| <= N
    requires forall a :: a in e.ins ==> Denotes(g[a].1, P, a, N)
    ensures |InputsOf(P + [e])| <= N
    ensures Denotes(GateFunction(g, e.ins, e.cube, e.bit), P + [e], e.out, N)
    ensures EnvAgrees(P, P + [e], e.out, N)
  {
    var v := GateFunction(g, e.ins, e.cube, e.bit);
    GateFunctionDefined(g, e.ins, e.cube, e.bit, N);
    forall asg: seq<bool> | |asg| == N
      ensures Env(P + [e], asg) == Env(P, asg)[e.out := CoverValue(e.cube, e.bit, Vals(Env(P, asg), e.ins))]
      ensures e.out in Env(P + [e], asg) && Eval(v, asg) == Env(P + [e], asg)[e.out]
    {
      GateFunctionSem(g, e.ins, e.cube, e.bit, P, N, asg);
    }
  }

  /** Signals other than out keep their values from P to P'. */
  ghost predicate EnvAgrees(P: seq<Event>, P': seq<Event>, out: string, N: nat)
    requires |InputsOf(P)| <= N && |InputsOf(P')| <= N
  {
    forall asg: seq<bool> :: |asg| == N ==>
      forall m :: m in Env(P, asg) && m != out ==> m in Env(P', asg) && Env(P', asg)[m] == Env(P, asg)[m]
  }

  /** The entries that keep their function keep denoting their signal once out is defined. */
  lemma DenotesStep(g: Gates, g': Gates, P: seq<Event>, P': seq<Event>, out: string, v: Circ, N: nat)
    requires |InputsOf(P)| <= N && |InputsOf(P')| <= N
    requires Defs(P') <= Defs(P) + {out}
    requires forall n :: n in g && n in Defs(P) ==> Denotes(g[n].1, P, n, N)
    requires forall n :: n in g' ==> n in g
    requires forall n :: n in g' && n != out ==> g'[n].1 == g[n].1
    requires out in g' ==> g'[out].1 == v
    requires Denotes(v, P', out, N) && EnvAgrees(P, P', out, N)
    ensures forall n :: n in g' && n in Defs(P') ==> Denotes(g'[n].1, P', n, N)
  {
    forall n | n in g' && n in Defs(P') && n != out
      ensures Denotes(g'[n].1, P', n, N)
    {
      assert Denotes(g[n].1, P, n, N);
      forall asg: seq<bool> | |asg| == N
        ensures n in Env(P', asg) && Eval(g[n].1, asg) == Env(P', asg)[n]
      {
      }
    }
  }

  lemma Pass2Input(es: seq<Event>, P: seq<Event>, e: Event, s: State)
    requires Around(es, P, e) && Inv2(s, es, P) && e.Input?
    ensures Allowed(s, e) && Inv2(Step(s, e), es, P + [e])
  {
    var n, j, N := e.name, |InputsOf(P)|, s.vars;
    var P' := P + [e];
    assert InputsOf(P') == InputsOf(P) + [n];
    assert InputsOf(es)[j] == n;
    assert forall m :: Refs(P', m) == Refs(P, m);
    forall asg: seq<bool> | |asg| == N
      ensures Env(P', asg) == Env(P, asg)[n := asg[j]]
    {
    }
    assert Denotes(Var(j), P', n, N);
    DenotesStep(s.gates, s.gates, P, P', n, Var(j), N);
  }

  /** Model and output lines change nothing the simulation pass depends on. */
  lemma Pass2Other(es: seq<Event>, P: seq<Event>, e: Event, s: State)
    requires Around(es, P, e) && Inv2(s, es, P) && (e.Model? || e.Output?)
    ensures Allowed(s, e) && Inv2(Step(s, e), es, P + [e])
  {
    var P' := P + [e];
    assert forall m :: Refs(P', m) == Refs(P, m);
    forall asg: seq<bool> | |asg| == s.vars
      ensures Env(P', asg) == Env(P, asg)
    {
    }
    forall n | n in s.gates && n in Defs(P')
      ensures Denotes(s.gates[n].1, P', n, s.vars)
    {
      assert Denotes(s.gates[n].1, P, n, s.vars);
    }
  }

  lemma Pass2Step(es: seq<Event>, P: seq<Event>, e: Event, s: State)
    requires Around(es, P, e) && Inv2(s, es, P)
    ensures Allowed(s, e) && Inv2(Step(s, e), es, P + [e])
  {
    if e.Gate? {
      Pass2Gate(es, P, e, s);
    } else if e.Input? {
      Pass2Input(es, P, e, s);
    } else {
      Pass2Other(es, P, e, s);
    }
  }

  lemma {:induction false} Pass2(es: seq<Event>, s: State, k: nat)
    requires WellFormed(es) && k <= |es| && Inv2(s, es, [])
    ensures RunOk(Corrected, s, es[..k]) && Inv2(Run(Corrected, s, es[..k]), es, es[..k])
  {
    if k == 0 {
      assert es[..0] == [];
    } else {
      Pass2(es, s, k - 1);
      AroundPrefix(es, k - 1);
      Pass2Step(es, es[..k - 1], es[k - 1], Run(Corrected, s, es[..k - 1]));
    }
  }

  /** The end of the analysis pass is the start of the simulation pass. */
  lemma Pass2Start(es: seq<Event>, s: State)
    requires WellFormed(es) && Inv1(s, es)
    ensures Inv2(End(s), es, [])
  {
    forall n
      ensures n in s.gates <==> Live(es, [], n)
    {
    }
  }

  /**
   * The two passes of the corrected reader over a well-formed netlist: every
   * callback's assertions hold, on_end's count check holds, exactly the
   * primary outputs remain in the table, and each holds the function of its
   * signal in the netlist, the i-th primary input being variable i.
   */
  lemma ReaderCorrect(es: seq<Event>)
    requires WellFormed(es)
    ensures RunOk(Corrected, Init(), es)
    ensures var s1 := End(Run(Corrected, Init(), es));
            && RunOk(Corrected, s1, es)
            && var s2 := Run(Corrected, s1, es);
               && EndOk(s2)
               && s2.gates.Keys == (set n | n in OutputsOf(es))
               && s2.vars == |InputsOf(es)|
               && forall n :: n in s2.gates ==> Denotes(s2.gates[n].1, es, n, s2.vars)
  {
    assert es[..|es|] == es;
    Pass1(es, |es|);
    var s1 := End(Run(Corrected, Init(), es));
    Pass2Start(es, Run(Corrected, Init(), es));
    Pass2(es, s1, |es|);
    var s2 := Run(Corrected, s1, es);
    forall n
      ensures n in s2.gates <==> n in OutputsOf(es)
    {
    }
    assert s2.gates.Keys == (set n | n in OutputsOf(es));
    DistinctCard(OutputsOf(es));
  }
}
