/**
 * The BLIF reader objects of the test helpers. The parser invokes one
 * callback per netlist line; each callback updates the reader's record in
 * place, and a gate callback may make the manager reorder its variables once
 * the node count exceeds a threshold that doubles after every reordering.
 *
 * Reordering keeps every diagram's function, so on the gate functions kept
 * here it is the identity; the reader only counts how often it happens. The
 * manager's node counts before and after a garbage collection are
 * parameters of the gate callback.
 */
module BlifReader {
  import opened Blif
  import opened Counting

  /**
   * The two variants of the reordering trigger: the shared helper skips a
   * zero threshold and collects garbage before deciding, the KFDD test
   * reader does neither.
   */
  datatype Trigger = GcFirst | Plain

  /** The reader's table iteration order lists every key exactly once. */
  predicate Enumerates(order: seq<string>, keys: set<string>)
  {
    && (forall i, j :: 0 <= i < j < |order| ==> order[i] != order[j])
    && (forall n :: n in order ==> n in keys) && (forall n :: n in keys ==> n in order)
  }

  class Reader {
    var countingIsDone: bool
    var gates: Gates
    var model: string
    var inputs: seq<string>
    var outputs: seq<string>
    var vars: nat                 // the manager's variable count
    var f: seq<Circ>              // the primary outputs' functions, filled by on_end
    var nextSifting: int
    const trigger: Trigger
    ghost const firstSifting: int
    ghost var gcs: nat            // garbage collections started by the trigger
    ghost var sifts: nat          // reorderings started by the trigger

    /** The reader's record as the callback model sees it. */
    function St(): State
      reads this
    {
      State(countingIsDone, gates, model, inputs, outputs, vars)
    }

    /**
     * The threshold has doubled once per reordering; the shared helper
     * reorders only after a garbage collection, and never with a zero
     * threshold.
     */
    ghost predicate Valid()
      reads this
    {
      && nextSifting == firstSifting * Pow2(sifts)
      && (trigger.GcFirst? ==> sifts <= gcs)
      && (trigger.GcFirst? && firstSifting == 0 ==> sifts == 0 && gcs == 0)
    }

    constructor (t: Trigger, sizeFirstSifting: int)
      ensures St() == Init() && f == [] && trigger == t
      ensures nextSifting == sizeFirstSifting && firstSifting == sizeFirstSifting && sifts == 0 && gcs == 0
      ensures Valid()
    {
      countingIsDone, gates, model, inputs, outputs, vars := false, map[], "", [], [], 0;
      f := [];
      nextSifting := sizeFirstSifting;
      trigger := t;
      firstSifting := sizeFirstSifting;
      gcs, sifts := 0, 0;
    }

    /** on_model records the model name. */
    method OnModel(name: string)
      requires Allowed(St(), Model(name))
      modifies this
      ensures St() == Step(old(St()), Model(name)) && model == name
      ensures f == old(f) && nextSifting == old(nextSifting) && gcs == old(gcs) && sifts == old(sifts)
    {
      model := name;
    }

    /** on_input registers a fresh variable with use count 0, in the analysis pass only. */
    method OnInput(name: string)
      requires Allowed(St(), Input(name))
      modifies this
      ensures St() == Step(old(St()), Input(name))
      ensures !old(countingIsDone) ==> gates[name] == (0, Var(old(vars))) && inputs == old(inputs) + [name]
      ensures old(countingIsDone) ==> St() == old(St())
      ensures f == old(f) && nextSifting == old(nextSifting) && gcs == old(gcs) && sifts == old(sifts)
    {
      if !countingIsDone {
        gates := gates[name := (0, Var(vars))];
        inputs := inputs + [name];
        vars := vars + 1;
      }
    }

    /** on_output records a primary output, in the analysis pass only. */
    method OnOutput(name: string)
      requires Allowed(St(), Output(name))
      modifies this
      ensures St() == Step(old(St()), Output(name))
      ensures outputs == if old(countingIsDone) then old(outputs) else old(outputs) + [name]
      ensures f == old(f) && nextSifting == old(nextSifting) && gcs == old(gcs) && sifts == old(sifts)
    {
      if !countingIsDone {
        outputs := outputs + [name];
      }
    }

    /**
     * on_gate. In the analysis pass it counts one use per input and registers
     * the output; in the simulation pass it gives the output its cover's
     * function, keeping its use count, and releases each input once. Then,
     * with nodes the manager's node count and nodesAfterGc the count after a
     * garbage collection, the trigger may reorder and double the threshold.
     */
    method OnGate(ins: seq<string>, out: string, cube: string, bit: char, nodes: nat, nodesAfterGc: nat)
      requires Allowed(St(), Gate(ins, out, cube, bit)) && Valid()
      modifies this
      ensures St() == Step(old(St()), Gate(ins, out, cube, bit))
      ensures f == old(f) && Valid()
      ensures trigger.Plain? ==> gcs == old(gcs) && (sifts == old(sifts) + 1 <==> nodes > old(nextSifting))
      ensures trigger.GcFirst? ==> (gcs == old(gcs) + 1 <==> old(nextSifting) != 0 && nodes > old(nextSifting))
      ensures trigger.GcFirst? ==>
                (sifts == old(sifts) + 1 <==> old(nextSifting) != 0 && nodes > old(nextSifting) && nodesAfterGc > old(nextSifting))
      ensures gcs - old(gcs) in {0, 1} && sifts - old(sifts) in {0, 1}
    {
      Update(ins, out, cube, bit);
      if trigger.GcFirst? {
        if nextSifting != 0 && nodes > nextSifting {
          gcs := gcs + 1;
          if nodesAfterGc > nextSifting {
            Double();
          }
        }
      } else if nodes > nextSifting {
        Double();
      }
    }

    /** The signal-table part of on_gate. */
    method Update(ins: seq<string>, out: string, cube: string, bit: char)
      requires Allowed(St(), Gate(ins, out, cube, bit))
      modifies this
      ensures St() == Step(old(St()), Gate(ins, out, cube, bit))
      ensures f == old(f) && nextSifting == old(nextSifting) && gcs == old(gcs) && sifts == old(sifts)
    {
      if |ins| == 0 {
        var v := Const(bit != '0');
        if countingIsDone {
          gates := Assign(gates, out, v);
        } else {
          gates := gates[out := (0, v)];
        }
      } else if countingIsDone {
        var v := if |ins| == 1 then Gate1(cube[0], bit, gates[ins[0]].1)
                 else Gate2(cube, bit, gates[ins[0]].1, gates[ins[1]].1);
        assert v == GateFunction(gates, ins, cube, bit);
        gates := Assign(gates, out, v);
        ghost var g0 := gates;
        gates := Release(gates, outputs, ins[0]);
        assert ReleaseAll(g0, outputs, ins) == ReleaseAll(gates, outputs, ins[1..]);
        if |ins| == 2 {
          ghost var g1 := gates;
          gates := Release(gates, outputs, ins[1]);
          assert ins[1..][1..] == [];
          assert ReleaseAll(g1, outputs, ins[1..]) == ReleaseAll(gates, outputs, []);
        } else {
          assert ins[1..] == [];
        }
      } else {
        gates := Use(gates, ins[0]);
        if |ins| == 2 {
          gates := Use(gates, ins[1]);
        }
        gates := gates[out := (0, Empty)];
      }
    }

    /** The manager reorders its variables and the threshold doubles. */
    method Double()
      requires Valid() && (trigger.GcFirst? ==> sifts < gcs && firstSifting != 0)
      modifies this
      ensures St() == old(St()) && f == old(f) && gcs == old(gcs)
      ensures sifts == old(sifts) + 1 && nextSifting == 2 * old(nextSifting) && Valid()
    {
      sifts := sifts + 1;
      nextSifting := nextSifting * 2;
    }

    /**
     * on_end. After the simulation pass it collects the remaining entries'
     * functions in the table's iteration order; every call ends the analysis
     * pass.
     */
    method OnEnd(order: seq<string>)
      requires countingIsDone ==> EndOk(St()) && Enumerates(order, gates.Keys)
      modifies this
      ensures St() == End(old(St()))
      ensures !old(countingIsDone) ==> f == old(f)
      ensures old(countingIsDone) ==>
                && |f| == |old(f)| + |order| && f[..|old(f)|] == old(f)
                && forall i :: 0 <= i < |order| ==> f[|old(f)| + i] == gates[order[i]].1
      ensures nextSifting == old(nextSifting) && gcs == old(gcs) && sifts == old(sifts)
    {
      if countingIsDone {
        var acc, i := f, 0;
        while i < |order|
          invariant 0 <= i <= |order|
          invariant |acc| == |f| + i && acc[..|f|] == f
          invariant forall j :: 0 <= j < i ==> acc[|f| + j] == gates[order[j]].1
        {
          acc := acc + [gates[order[i]].1];
          i := i + 1;
        }
        f := acc;
      }
      countingIsDone := true;
    }

    /** The parser's dispatch of one netlist line to its callback. */
    method On(e: Event, nodes: nat, nodesAfterGc: nat)
      requires Allowed(St(), e) && Valid()
      modifies this
      ensures St() == Step(old(St()), e) && f == old(f) && Valid()
      ensures countingIsDone == old(countingIsDone)
    {
      match e
      case Model(n) => OnModel(n);
      case Input(n) => OnInput(n);
      case Output(n) => OnOutput(n);
      case Gate(ins, out, cube, bit) => OnGate(ins, out, cube, bit, nodes, nodesAfterGc);
    }
  }

  /** A prefix of a run that went through is a run that went through. */
  lemma {:induction false} RunPrefix(v: Version, s: State, es: seq<Event>, k: nat)
    requires RunOk(v, s, es) && k <= |es|
    ensures RunOk(v, s, es[..k])
    decreases |es|
  {
    if k < |es| {
      var p := es[..|es| - 1];
      RunPrefix(v, s, p, k);
      assert p[..k] == es[..k];
    } else {
      assert es[..k] == es;
    }
  }

  /** The k-th callback of a run finds its assertions satisfied and takes one step. */
  lemma RunStep(v: Version, s: State, es: seq<Event>, k: nat)
    requires RunOk(v, s, es) && k < |es|
    ensures RunOk(v, s, es[..k]) && RunOk(v, s, es[..k + 1]) && Ok(v, Run(v, s, es[..k]), es[k])
    ensures Run(v, s, es[..k + 1]) == Next(v, Run(v, s, es[..k]), es[k])
  {
    RunPrefix(v, s, es, k);
    RunPrefix(v, s, es, k + 1);
    assert es[..k + 1][..k] == es[..k];
  }

  /** One reading of the file: the callbacks of es in order, the i-th seeing node counts nodes[i]. */
  method Pass(r: Reader, es: seq<Event>, nodes: seq<(nat, nat)>)
    requires r.Valid() && RunOk(Corrected, r.St(), es) && |nodes| == |es|
    modifies r
    ensures r.St() == Run(Corrected, old(r.St()), es) && r.f == old(r.f) && r.Valid()
    ensures r.countingIsDone == old(r.countingIsDone)
  {
    ghost var s := r.St();
    var i := 0;
    assert es[..0] == [];
    while i < |es|
      invariant 0 <= i <= |es| && r.Valid() && r.f == old(r.f) && r.countingIsDone == old(r.countingIsDone)
      invariant RunOk(Corrected, s, es[..i]) && r.St() == Run(Corrected, s, es[..i])
    {
      RunStep(Corrected, s, es, i);
      r.On(es[i], nodes[i].0, nodes[i].1);
      i := i + 1;
    }
    assert es[..|es|] == es;
  }

  /** The analysis reading: the callbacks, then on_end. */
  method Analyse(r: Reader, es: seq<Event>, nodes: seq<(nat, nat)>, order: seq<string>)
    requires r.Valid() && r.St() == Init() && r.f == [] && Ordered(es) && |nodes| == |es|
    modifies r
    ensures RunOk(Corrected, Init(), es) && r.St() == End(Run(Corrected, Init(), es))
    ensures r.Valid() && r.f == [] && r.St().done
    ensures r.inputs == InputsOf(es) && r.outputs == OutputsOf(es) && r.vars == |InputsOf(es)|
  {
    Pass1(es, |es|);
    assert es[..|es|] == es;
    Pass(r, es, nodes);
    r.OnEnd(order);
  }

  /** The simulation reading: the callbacks, then on_end, which collects the outputs' functions. */
  method Simulate(r: Reader, es: seq<Event>, nodes: seq<(nat, nat)>, order: seq<string>)
    requires WellFormed(es) && RunOk(Corrected, Init(), es) && |nodes| == |es|
    requires r.Valid() && r.f == [] && r.St() == End(Run(Corrected, Init(), es))
    requires Enumerates(order, set n | n in OutputsOf(es))
    modifies r
    ensures r.Valid() && r.St().done && r.vars == |InputsOf(es)| && |r.f| == |order|
    ensures forall i :: 0 <= i < |order| ==> Denotes(r.f[i], es, order[i], |InputsOf(es)|)
  {
    ReaderCorrect(es);
    Pass(r, es, nodes);
    r.OnEnd(order);
  }

  /**
   * read_blif: an analysis reading and, if the parser accepted the file, a
   * simulation reading, each closed by on_end; parsed1 and parsed2 are the
   * parser's verdicts. On a well-formed netlist the reader ends with one
   * function per primary output, in the table's iteration order order, each
   * the function of that output's signal with the i-th primary input as
   * variable i.
   */
  method ReadBlif(r: Reader, es: seq<Event>, parsed1: bool, parsed2: bool,
                  nodes1: seq<(nat, nat)>, nodes2: seq<(nat, nat)>, order: seq<string>) returns (ok: bool)
    requires r.Valid() && r.St() == Init() && r.f == [] && WellFormed(es)
    requires |nodes1| == |es| && |nodes2| == |es|
    requires Enumerates(order, set n | n in OutputsOf(es))
    modifies r
    ensures ok == (parsed1 && parsed2) && r.Valid()
    ensures !parsed1 ==> r.f == [] && r.St().done && r.inputs == InputsOf(es) && r.outputs == OutputsOf(es)
    ensures parsed1 ==> r.St().done && r.vars == |InputsOf(es)| && |r.f| == |order|
    ensures parsed1 ==> forall i :: 0 <= i < |order| ==> Denotes(r.f[i], es, order[i], |InputsOf(es)|)
  {
    Analyse(r, es, nodes1, order);
    ok := parsed1;
    if ok {
      Simulate(r, es, nodes2, order);
      ok := parsed2;
    }
  }
}
