/** Flat circuits: emission from a DAG and evaluation (miden-vm/crates/ace-codegen/src/circuit.rs). */
module Circuit {
  import opened Fields
  import opened Dag

  datatype Operator = Plus | Minus | Times

  datatype Wire = InputWire(index: nat) | ConstantWire(index: nat) | OperationWire(index: nat)

  datatype Gate = Gate(op: Operator, lhs: Wire, rhs: Wire)

  /** Which input slot carries each key. */
  datatype Layout = Layout(totalInputs: nat, slots: map<InputKey, nat>) {
    ghost predicate Valid() {
      forall key :: key in slots ==> slots[key] < totalInputs
    }
  }

  datatype AceCircuit<T> = AceCircuit(layout: Layout, constants: seq<T>, gates: seq<Gate>, root: Wire) {
    ghost predicate Valid() {
      && layout.Valid()
      && GatesOrdered(layout.totalInputs, |constants|, gates)
      && Refers(root, layout.totalInputs, |constants|, |gates|)
    }
  }

  predicate Refers(w: Wire, inputs: nat, constants: nat, gates: nat) {
    match w
    case InputWire(i) => i < inputs
    case ConstantWire(i) => i < constants
    case OperationWire(i) => i < gates
  }

  predicate GateOrderedAt(inputs: nat, constants: nat, gates: seq<Gate>, i: int) {
    0 <= i < |gates| ==> Refers(gates[i].lhs, inputs, constants, i) && Refers(gates[i].rhs, inputs, constants, i)
  }

  /** A gate reads inputs, constants and earlier gates only. */
  ghost predicate GatesOrdered(inputs: nat, constants: nat, gates: seq<Gate>) {
    forall i :: GateOrderedAt(inputs, constants, gates, i)
  }

  function Apply<T>(f: Field<T>, op: Operator, x: T, y: T): T {
    match op
    case Plus => f.add(x, y)
    case Minus => f.Sub(x, y)
    case Times => f.mul(x, y)
  }

  ghost function WireValue<T>(f: Field<T>, inputs: seq<T>, constants: seq<T>, gates: seq<Gate>, w: Wire): T
    requires GatesOrdered(|inputs|, |constants|, gates) && Refers(w, |inputs|, |constants|, |gates|)
    decreases if w.OperationWire? then w.index + 1 else 0
  {
    match w
    case InputWire(i) => inputs[i]
    case ConstantWire(i) => constants[i]
    case OperationWire(i) =>
      assert GateOrderedAt(|inputs|, |constants|, gates, i);
      Apply(f, gates[i].op, WireValue(f, inputs, constants, gates, gates[i].lhs),
            WireValue(f, inputs, constants, gates, gates[i].rhs))
  }

  ghost function CircuitValue<T>(f: Field<T>, c: AceCircuit<T>, inputs: seq<T>): T
    requires c.Valid() && |inputs| == c.layout.totalInputs
  {
    WireValue(f, inputs, c.constants, c.gates, c.root)
  }

  /** The value of the last gate. */
  ghost function LastGate<T>(f: Field<T>, c: AceCircuit<T>, inputs: seq<T>): T
    requires c.Valid() && |inputs| == c.layout.totalInputs && |c.gates| > 0
  {
    WireValue(f, inputs, c.constants, c.gates, OperationWire(|c.gates| - 1))
  }

  // Evaluation

  datatype Result<T> = Ok(value: T) | InvalidInputLength | MissingInputKey

  function WireLookup<T>(f: Field<T>, c: AceCircuit<T>, inputs: seq<T>, values: seq<T>, w: Wire): T
    requires Refers(w, |inputs|, |c.constants|, |values|)
  {
    match w
    case InputWire(i) => inputs[i]
    case ConstantWire(i) => c.constants[i]
    case OperationWire(i) => values[i]
  }

  /** Evaluating gate by gate gives the circuit's value. */
  method Eval<T>(f: Field<T>, c: AceCircuit<T>, inputs: seq<T>) returns (r: Result<T>)
    requires c.Valid()
    ensures r == if |inputs| != c.layout.totalInputs then InvalidInputLength else Ok(CircuitValue(f, c, inputs))
  {
    if |inputs| != c.layout.totalInputs { return InvalidInputLength; }
    var values := new T[|c.gates|](_ => f.zero);
    for i := 0 to |c.gates|
      invariant forall j :: 0 <= j < i ==> values[j] == WireValue(f, inputs, c.constants, c.gates, OperationWire(j))
    {
      assert GateOrderedAt(|inputs|, |c.constants|, c.gates, i);
      var gate := c.gates[i];
      values[i] := Apply(f, gate.op, WireLookup(f, c, inputs, values[..], gate.lhs),
                         WireLookup(f, c, inputs, values[..], gate.rhs));
    }
    return Ok(WireLookup(f, c, inputs, values[..], c.root));
  }

  // Emission

  /** The input assignment read off an input vector. */
  function EnvOf<T>(f: Field<T>, layout: Layout, inputs: seq<T>): Env<T> {
    key => if key in layout.slots && layout.slots[key] < |inputs| then inputs[layout.slots[key]] else f.zero
  }

  /** Node `i` of the DAG has been translated to `wires[i]`. */
  ghost predicate TranslatedAt<T>(f: Field<T>, layout: Layout, nodes: seq<Node<T>>, wires: seq<Wire>,
                                  constants: seq<T>, gates: seq<Gate>, i: int)
  {
    0 <= i < |wires| && i < |nodes| ==>
      match nodes[i]
      case Input(key) => key in layout.slots && wires[i] == InputWire(layout.slots[key])
      case Constant(v) => wires[i].ConstantWire? && wires[i].index < |constants| && constants[wires[i].index] == v
      case Add(a, b) => Realised(wires, gates, i, Plus, a.index, b.index)
      case Sub(a, b) => Realised(wires, gates, i, Minus, a.index, b.index)
      case Mul(a, b) => Realised(wires, gates, i, Times, a.index, b.index)
      case Neg(a) =>
        && a.index < i && wires[i].OperationWire? && wires[i].index < |gates|
        && var g := gates[wires[i].index];
        && g.op == Minus && g.rhs == wires[a.index]
        && g.lhs.ConstantWire? && g.lhs.index < |constants| && constants[g.lhs.index] == f.zero
  }

  ghost predicate Realised(wires: seq<Wire>, gates: seq<Gate>, i: nat, op: Operator, a: nat, b: nat)
    requires i < |wires|
  {
    && a < i && b < i && wires[i].OperationWire? && wires[i].index < |gates|
    && gates[wires[i].index] == Gate(op, wires[a], wires[b])
  }

  ghost predicate Translated<T>(f: Field<T>, layout: Layout, nodes: seq<Node<T>>, wires: seq<Wire>,
                                constants: seq<T>, gates: seq<Gate>)
  {
    forall i :: TranslatedAt(f, layout, nodes, wires, constants, gates, i)
  }

  ghost predicate WiresRefer(wires: seq<Wire>, inputs: nat, constants: nat, gates: nat) {
    forall i :: 0 <= i < |wires| ==> Refers(wires[i], inputs, constants, gates)
  }

  /** A translated node carries the node's value, for every input vector. */
  lemma {:induction false} TranslationSound<T(!new)>(f: Field<T>, layout: Layout, dagId: nat, nodes: seq<Node<T>>,
                                                     wires: seq<Wire>, constants: seq<T>, gates: seq<Gate>,
                                                     inputs: seq<T>, i: nat)
    requires IsField(f) && layout.Valid() && |inputs| == layout.totalInputs
    requires Topological(dagId, nodes) && |wires| == |nodes| && i < |nodes|
    requires GatesOrdered(|inputs|, |constants|, gates) && WiresRefer(wires, |inputs|, |constants|, |gates|)
    requires Translated(f, layout, nodes, wires, constants, gates)
    ensures WireValue(f, inputs, constants, gates, wires[i]) == Value(f, dagId, nodes, EnvOf(f, layout, inputs), i)
    decreases i
  {
    assert TranslatedAt(f, layout, nodes, wires, constants, gates, i);
    assert OrderedAt(dagId, nodes, i);
    match nodes[i] {
      case Input(_) =>
      case Constant(_) =>
      case Neg(a) =>
        TranslationSound(f, layout, dagId, nodes, wires, constants, gates, inputs, a.index);
        var g := gates[wires[i].index];
        assert WireValue(f, inputs, constants, gates, g.lhs) == f.zero;
        SubZero(f, Value(f, dagId, nodes, EnvOf(f, layout, inputs), a.index), f.zero);
      case Add(a, b) =>
        TranslationSound(f, layout, dagId, nodes, wires, constants, gates, inputs, a.index);
        TranslationSound(f, layout, dagId, nodes, wires, constants, gates, inputs, b.index);
      case Sub(a, b) =>
        TranslationSound(f, layout, dagId, nodes, wires, constants, gates, inputs, a.index);
        TranslationSound(f, layout, dagId, nodes, wires, constants, gates, inputs, b.index);
      case Mul(a, b) =>
        TranslationSound(f, layout, dagId, nodes, wires, constants, gates, inputs, a.index);
        TranslationSound(f, layout, dagId, nodes, wires, constants, gates, inputs, b.index);
    }
  }

  /** Appending constants, gates and wires keeps earlier translations. */
  lemma TranslationGrows<T>(f: Field<T>, layout: Layout, nodes: seq<Node<T>>, wires: seq<Wire>, constants: seq<T>,
                            gates: seq<Gate>, wires': seq<Wire>, constants': seq<T>, gates': seq<Gate>)
    requires Translated(f, layout, nodes, wires, constants, gates)
    requires wires <= wires' && constants <= constants' && gates <= gates'
    ensures forall i :: i < |wires| ==> TranslatedAt(f, layout, nodes, wires', constants', gates', i)
  {
    forall i | i < |wires|
      ensures TranslatedAt(f, layout, nodes, wires', constants', gates', i)
    {
      assert TranslatedAt(f, layout, nodes, wires, constants, gates, i);
    }
  }

  /** The constants collected so far, each once, with the map that finds them. */
  ghost predicate Pooled<T(!new)>(constants: seq<T>, ids: map<T, nat>) {
    && (forall v :: v in ids ==> ids[v] < |constants| && constants[ids[v]] == v)
    && (forall i :: 0 <= i < |constants| ==> constants[i] in ids && ids[constants[i]] == i)
  }

  method Pool<T(==,!new)>(constants: seq<T>, ids: map<T, nat>, v: T)
    returns (constants': seq<T>, ids': map<T, nat>, at: nat)
    requires Pooled(constants, ids)
    ensures Pooled(constants', ids') && constants <= constants' && at < |constants'| && constants'[at] == v
    ensures constants' == if v in constants then constants else constants + [v]
  {
    if v in ids { return constants, ids, ids[v]; }
    at := |constants|;
    constants' := constants + [v];
    ids' := ids[v := at];
  }

  ghost predicate KeysPresent<T>(nodes: seq<Node<T>>, layout: Layout) {
    forall i :: 0 <= i < |nodes| ==> KeyPresent(nodes[i], layout)
  }

  predicate KeyPresent<T>(node: Node<T>, layout: Layout) {
    node.Input? ==> node.key in layout.slots
  }

  predicate IsOperation<T>(node: Node<T>) {
    !node.Input? && !node.Constant?
  }

  /** The emitter's working state after translating the first `|wires|` nodes. */
  datatype Emission<T(==)> = Emission(constants: seq<T>, ids: map<T, nat>, gates: seq<Gate>, wires: seq<Wire>)

  ghost predicate Translating<T(!new)>(f: Field<T>, layout: Layout, nodes: seq<Node<T>>, st: Emission<T>) {
    && |st.wires| <= |nodes|
    && Pooled(st.constants, st.ids)
    && GatesOrdered(layout.totalInputs, |st.constants|, st.gates)
    && WiresRefer(st.wires, layout.totalInputs, |st.constants|, |st.gates|)
    && Translated(f, layout, nodes, st.wires, st.constants, st.gates)
    && (var i := |st.wires|; i > 0 && IsOperation(nodes[i - 1]) ==>
          |st.gates| > 0 && st.wires[i - 1] == OperationWire(|st.gates| - 1))
  }

  /** Adds the wire of an input or a constant. */
  lemma PushLeaf<T(!new)>(f: Field<T>, layout: Layout, nodes: seq<Node<T>>, st: Emission<T>, constants: seq<T>,
                          ids: map<T, nat>, w: Wire)
    requires Translating(f, layout, nodes, st) && |st.wires| < |nodes|
    requires st.constants <= constants && Pooled(constants, ids)
    requires Refers(w, layout.totalInputs, |constants|, |st.gates|) && !IsOperation(nodes[|st.wires|])
    requires TranslatedAt(f, layout, nodes, st.wires + [w], constants, st.gates, |st.wires|)
    ensures Translating(f, layout, nodes, Emission(constants, ids, st.gates, st.wires + [w]))
  {
    TranslationGrows(f, layout, nodes, st.wires, st.constants, st.gates, st.wires + [w], constants, st.gates);
    forall j ensures GateOrderedAt(layout.totalInputs, |constants|, st.gates, j) {
      assert GateOrderedAt(layout.totalInputs, |st.constants|, st.gates, j);
    }
  }

  /** Adds a gate and its wire. */
  lemma PushGate<T(!new)>(f: Field<T>, layout: Layout, nodes: seq<Node<T>>, st: Emission<T>, gate: Gate)
    requires Translating(f, layout, nodes, st) && |st.wires| < |nodes|
    requires Refers(gate.lhs, layout.totalInputs, |st.constants|, |st.gates|)
    requires Refers(gate.rhs, layout.totalInputs, |st.constants|, |st.gates|)
    requires TranslatedAt(f, layout, nodes, st.wires + [OperationWire(|st.gates|)], st.constants, st.gates + [gate],
               |st.wires|)
    ensures Translating(f, layout, nodes,
                        Emission(st.constants, st.ids, st.gates + [gate], st.wires + [OperationWire(|st.gates|)]))
  {
    var wires, gates := st.wires + [OperationWire(|st.gates|)], st.gates + [gate];
    TranslationGrows(f, layout, nodes, st.wires, st.constants, st.gates, wires, st.constants, gates);
    forall j ensures GateOrderedAt(layout.totalInputs, |st.constants|, gates, j) {
      assert GateOrderedAt(layout.totalInputs, |st.constants|, st.gates, j);
    }
  }

  /** Growing the pool of constants keeps the translation. */
  lemma GrowPool<T(!new)>(f: Field<T>, layout: Layout, nodes: seq<Node<T>>, st: Emission<T>, constants: seq<T>,
                          ids: map<T, nat>)
    requires Translating(f, layout, nodes, st)
    requires st.constants <= constants && Pooled(constants, ids)
    ensures Translating(f, layout, nodes, Emission(constants, ids, st.gates, st.wires))
  {
    TranslationGrows(f, layout, nodes, st.wires, st.constants, st.gates, st.wires, constants, st.gates);
    forall j ensures TranslatedAt(f, layout, nodes, st.wires, constants, st.gates, j) { }
    forall j ensures GateOrderedAt(layout.totalInputs, |constants|, st.gates, j) {
      assert GateOrderedAt(layout.totalInputs, |st.constants|, st.gates, j);
    }
  }

  /** Translates the next node; fails exactly on an input that the layout lacks. */
  method EmitNode<T(==,!new)>(f: Field<T>, dag: AceDag<T>, layout: Layout, st: Emission<T>)
    returns (r: Result<Emission<T>>)
    requires IsField(f) && dag.Valid() && layout.Valid()
    requires Translating(f, layout, dag.nodes, st) && |st.wires| < |dag.nodes|
    ensures r.Ok? <==> KeyPresent(dag.nodes[|st.wires|], layout)
    ensures !r.Ok? ==> r.MissingInputKey?
    ensures r.Ok? ==> Translating(f, layout, dag.nodes, r.value) && |r.value.wires| == |st.wires| + 1
    ensures r.Ok? ==> |r.value.gates| <= |st.gates| + 1 && |r.value.constants| <= |st.constants| + 1
  {
    var i := |st.wires|;
    assert OrderedAt(dag.dagId, dag.nodes, i);
    var gate: Gate;
    match dag.nodes[i] {
      case Input(key) =>
        if key !in layout.slots { return MissingInputKey; }
        PushLeaf(f, layout, dag.nodes, st, st.constants, st.ids, InputWire(layout.slots[key]));
        return Ok(st.(wires := st.wires + [InputWire(layout.slots[key])]));
      case Constant(v) =>
        var constants, ids, at := Pool(st.constants, st.ids, v);
        PushLeaf(f, layout, dag.nodes, st, constants, ids, ConstantWire(at));
        return Ok(Emission(constants, ids, st.gates, st.wires + [ConstantWire(at)]));
      case Neg(a) =>
        var constants, ids, zero := Pool(st.constants, st.ids, f.zero);
        GrowPool(f, layout, dag.nodes, st, constants, ids);
        gate := Gate(Minus, ConstantWire(zero), st.wires[a.index]);
        var grown := Emission(constants, ids, st.gates, st.wires);
        PushGate(f, layout, dag.nodes, grown, gate);
        return Ok(Emission(constants, ids, st.gates + [gate], st.wires + [OperationWire(|st.gates|)]));
      case Add(a, b) => gate := Gate(Plus, st.wires[a.index], st.wires[b.index]);
      case Sub(a, b) => gate := Gate(Minus, st.wires[a.index], st.wires[b.index]);
      case Mul(a, b) => gate := Gate(Times, st.wires[a.index], st.wires[b.index]);
    }
    PushGate(f, layout, dag.nodes, st, gate);
    return Ok(st.(gates := st.gates + [gate], wires := st.wires + [OperationWire(|st.gates|)]));
  }

  /** The emitted circuit computes the DAG's value for every input vector; emission fails exactly when the
      DAG reads an input that the layout lacks.  The last gate computes the last node, if that is an operation. */
  method EmitCircuit<T(==,!new)>(f: Field<T>, dag: AceDag<T>, layout: Layout) returns (r: Result<AceCircuit<T>>)
    requires IsField(f) && dag.Valid() && layout.Valid()
    ensures r.Ok? <==> KeysPresent(dag.nodes, layout)
    ensures !r.Ok? ==> r.MissingInputKey?
    ensures r.Ok? ==> r.value.Valid() && r.value.layout == layout
    ensures r.Ok? ==> forall inputs :: |inputs| == layout.totalInputs ==>
              CircuitValue(f, r.value, inputs) == dag.Eval(f, EnvOf(f, layout, inputs))
    ensures r.Ok? && dag.root.index == |dag.nodes| - 1 && IsOperation(dag.nodes[dag.root.index])
            ==> |r.value.gates| > 0 && r.value.root == OperationWire(|r.value.gates| - 1)
    ensures r.Ok? && IsOperation(dag.nodes[|dag.nodes| - 1]) ==>
              |r.value.gates| > 0 && forall inputs :: |inputs| == layout.totalInputs ==>
                LastGate(f, r.value, inputs) == Value(f, dag.dagId, dag.nodes, EnvOf(f, layout, inputs), |dag.nodes| - 1)
    ensures r.Ok? ==> |r.value.gates| <= |dag.nodes| && |r.value.constants| <= |dag.nodes|
  {
    hide WireValue;
    var st: Emission<T> := Emission([], map[], [], []);
    for i := 0 to |dag.nodes|
      invariant |st.wires| == i && KeysPresent(dag.nodes[..i], layout)
      invariant Translating(f, layout, dag.nodes, st) && |st.gates| <= i && |st.constants| <= i
    {
      var next := EmitNode(f, dag, layout, st);
      if !next.Ok? { return MissingInputKey; }
      st := next.value;
    }
    assert dag.nodes[..|dag.nodes|] == dag.nodes;
    var c := AceCircuit(layout, st.constants, st.gates, st.wires[dag.root.index]);
    forall inputs: seq<T> | |inputs| == layout.totalInputs
      ensures CircuitValue(f, c, inputs) == dag.Eval(f, EnvOf(f, layout, inputs))
    {
      TranslationSound(f, layout, dag.dagId, dag.nodes, st.wires, st.constants, st.gates, inputs, dag.root.index);
    }
    var last := |dag.nodes| - 1;
    if IsOperation(dag.nodes[last]) {
      forall inputs: seq<T> | |inputs| == layout.totalInputs
        ensures LastGate(f, c, inputs) == Value(f, dag.dagId, dag.nodes, EnvOf(f, layout, inputs), last)
      {
        TranslationSound(f, layout, dag.dagId, dag.nodes, st.wires, st.constants, st.gates, inputs, last);
      }
    }
    return Ok(c);
  }
}
