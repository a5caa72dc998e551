/** The whole path of a recursive verification: lower the constraints to a DAG, batch the boundary checks into it, emit
    the circuit, encode it, place it in memory behind the inputs, and run it on the chiplet
    (miden-vm/air/src/ace.rs, build_batched_ace_circuit). */
module Pipeline {
  import opened Fields
  import opened Dag
  import opened Ace
  import opened Circuit
  import opened Encoding
  import opened AceChiplet
  import opened Execution
  import L = Lowering

  /** Batching followed by emission.  The circuit computes the batched value for every input vector, and its
      root is the last gate whenever the constraint DAG does not already use the batching challenge.  There is none
      exactly when the layout lacks an input of the batched DAG. */
  method BuildBatchedAceCircuit<T(==,!new)>(f: Field<T>, dag: AceDag<T>, layout: Layout, config: BatchConfig<T>)
    returns (batched: AceDag<T>, r: Circuit.Result<AceCircuit<T>>)
    requires IsField(f) && dag.Valid() && layout.Valid()
    requires BusesFit(config.numerator) && BusesFit(config.denominator)
    ensures batched.Valid() && dag.nodes <= batched.nodes
    ensures forall env :: batched.Eval(f, env) == BatchedValue(f, env, config, dag.Eval(f, env))
    ensures r.Ok? <==> KeysPresent(batched.nodes, layout)
    ensures !r.Ok? ==> r.MissingInputKey?
    ensures r.Ok? ==> r.value.Valid() && r.value.layout == layout
    ensures r.Ok? ==> forall inputs :: |inputs| == layout.totalInputs ==>
              var env := EnvOf(f, layout, inputs);
              CircuitValue(f, r.value, inputs) == BatchedValue(f, env, config, dag.Eval(f, env))
    ensures r.Ok? && Node.Input(Gamma) !in dag.nodes && config.numerator != [] && config.sumColumns != []
            ==> |r.value.gates| > 0 && r.value.root == OperationWire(|r.value.gates| - 1)
  {
    batched := BatchReducedAuxValues(f, dag, config);
    r := EmitCircuit(f, batched, layout);
  }

  function Cell<T>(b: Basis<T>, inputs: seq<T>, instructions: seq<nat>, a: nat): nat {
    if a < 2 * |inputs| then (if a % 2 == 0 then b.split(inputs[a / 2]).0 else b.split(inputs[a / 2]).1)
    else if a - 2 * |inputs| < |instructions| then instructions[a - 2 * |inputs|]
    else 0
  }

  function CellFrom<T>(b: Basis<T>, inputs: seq<T>, instructions: seq<nat>, ptr: nat, a: nat): nat {
    if a < ptr then 0 else Cell(b, inputs, instructions, a - ptr)
  }

  /** Memory that holds at `ptr` the inputs, two cells each, followed by the instruction stream. */
  function Image<T>(b: Basis<T>, inputs: seq<T>, instructions: seq<nat>, ptr: nat): nat -> nat {
    a => CellFrom(b, inputs, instructions, ptr, a)
  }

  lemma ImageHolds<T(!new)>(b: Basis<T>, inputs: seq<T>, instructions: seq<nat>, ptr: nat)
    requires IsBasis(b)
    ensures MemoryHolds(b, From(Image(b, inputs, instructions, ptr), ptr), inputs, instructions)
  {
    var mem := From(Image(b, inputs, instructions, ptr), ptr);
    forall j | 0 <= j < |inputs|
      ensures b.join(mem(2 * j), mem(2 * j + 1)) == inputs[j]
    {
      assert JoinsSplit(b, inputs[j]);
      assert (2 * j) / 2 == j && (2 * j + 1) / 2 == j;
    }
  }

  datatype Verdict<T> = NoCircuit | NotEncodable(circuit: AceCircuit<T>) | Ran(accepted: bool)

  /** Compiles, encodes and runs the batched check.  There is no circuit exactly when the layout lacks an input, and no
      encoding only when the inputs are misaligned or the circuit is too large.  If it runs, the chiplet accepts exactly
      when `constraint_check + gamma * product_check + gamma^2 * sum_check` is zero. */
  method VerifyOnChiplet<T(==,!new)>(f: Field<T>, b: Basis<T>, dag: AceDag<T>, layout: Layout, config: BatchConfig<T>,
                                     inputs: seq<T>)
    returns (batched: AceDag<T>, v: Verdict<T>)
    requires IsField(f) && IsBasis(b) && dag.Valid() && layout.Valid() && |inputs| == layout.totalInputs
    requires BusesFit(config.numerator) && BusesFit(config.denominator)
    requires Node.Input(Gamma) !in dag.nodes && config.numerator != [] && config.sumColumns != []
    ensures batched.Valid() && dag.nodes <= batched.nodes
    ensures forall env :: batched.Eval(f, env) == BatchedValue(f, env, config, dag.Eval(f, env))
    ensures v.NoCircuit? <==> !KeysPresent(batched.nodes, layout)
    ensures v.NotEncodable? ==> layout.totalInputs % 2 != 0 || SizesOf(v.circuit).Nodes() > MAX_NODE_ID
    ensures v.Ran? ==> layout.totalInputs % 2 == 0
    ensures v.Ran? ==> var env := EnvOf(f, layout, inputs);
              v.accepted <==> BatchedValue(f, env, config, dag.Eval(f, env)) == f.zero
  {
    var circuit;
    batched, circuit := BuildBatchedAceCircuit(f, dag, layout, config);
    if !circuit.Ok? { return batched, NoCircuit; }
    var c := circuit.value;
    var encoded := ToAce(b, c);
    if !encoded.Ok? { return batched, NotEncodable(c); }
    FitsAtStart(b, c, encoded.value);
    var accepted := RunEncoded(f, b, c, encoded.value, inputs, 0);
    v := Ran(accepted);
  }

  /** Places inputs and instructions in memory and runs the chiplet, which judges the last gate.  It fails when the
      circuit cannot be read from there. */
  method RunEncoded<T(==,!new)>(f: Field<T>, b: Basis<T>, c: AceCircuit<T>, enc: Encoded, inputs: seq<T>, ptr: nat)
    returns (accepted: bool)
    requires IsField(f) && IsBasis(b) && c.Valid() && |inputs| == c.layout.totalInputs
    requires IsEncodingOf(b, c, SizesOf(c), enc) && |c.gates| > 0
    requires c.layout.totalInputs % 2 == 0 && SizesOf(c).Nodes() <= MAX_NODE_ID
    ensures accepted <==> Addressable(ptr, enc.numVars, enc.numOps) && LastGate(f, c, inputs) == f.zero
  {
    var mem := Image(b, inputs, enc.instructions, ptr);
    ImageHolds(b, inputs, enc.instructions, ptr);
    AcceptsLastGate(f, b, c, SizesOf(c), enc, mem, ptr, inputs);
    var evaluation;
    accepted, evaluation := EvalCircuit(f, b, mem, ptr, enc.numVars, enc.numOps);
  }

  /** At the start of memory every encoded circuit can be read. */
  lemma FitsAtStart<T>(b: Basis<T>, c: AceCircuit<T>, enc: Encoded)
    requires c.Valid() && IsEncodingOf(b, c, SizesOf(c), enc) && SizesOf(c).Nodes() <= MAX_NODE_ID
    ensures Addressable(0, enc.numVars, enc.numOps)
  {
  }

  /** From symbolic constraints to the verdict: the chiplet accepts exactly when the folded constraints, minus the
      recomposed quotient times the vanishing polynomial, plus the batched boundary checks, are zero. */
  method VerifyAirOnChiplet<T(==,!new)>(f: Field<T>, b: Basis<T>, s: L.Setting<T>, cs: L.Constraints<T>,
                                        chunks: nat,
                                        layout: Layout, config: BatchConfig<T>, inputs: seq<T>)
    returns (batched: AceDag<T>, v: Verdict<T>)
    requires IsField(f) && IsBasis(b) && layout.Valid() && |inputs| == layout.totalInputs
    requires L.NoEmptyColumn(s.periodic) && cs.Lowerable(|s.periodic|)
    requires BusesFit(config.numerator) && BusesFit(config.denominator) && config.numerator != []
             && config.sumColumns != []
    ensures batched.Valid() && L.AllLowerable(cs.InOrder(), |s.periodic|)
    ensures forall env :: batched.Eval(f, env)
                == BatchedValue(f, env, config, L.VerifierValue(f, env, s, cs.InOrder(), chunks))
    ensures v.NoCircuit? <==> !KeysPresent(batched.nodes, layout)
    ensures v.NotEncodable? ==> layout.totalInputs % 2 != 0 || SizesOf(v.circuit).Nodes() > MAX_NODE_ID
    ensures v.Ran? ==> var env := EnvOf(f, layout, inputs);
              v.accepted <==> BatchedValue(f, env, config, L.VerifierValue(f, env, s, cs.InOrder(), chunks)) == f.zero
  {
    hide BatchedValue, L.VerifierValue, EnvOf;
    var dag := L.BuildVerifierDag(f, 0, s, cs, chunks);
    batched, v := VerifyOnChiplet(f, b, dag, layout, config, inputs);
  }

  /** Emits, encodes and runs any DAG that ends in an operation: the chiplet judges its last node, which need not be its
      root. */
  method RunDag<T(==,!new)>(f: Field<T>, b: Basis<T>, dag: AceDag<T>, layout: Layout, inputs: seq<T>)
    returns (v: Verdict<T>)
    requires IsField(f) && IsBasis(b) && dag.Valid() && layout.Valid() && |inputs| == layout.totalInputs
    requires IsOperation(dag.nodes[|dag.nodes| - 1])
    ensures v.NoCircuit? <==> !KeysPresent(dag.nodes, layout)
    ensures v.NotEncodable? ==> layout.totalInputs % 2 != 0 || SizesOf(v.circuit).Nodes() > MAX_NODE_ID
    ensures v.NotEncodable? ==> |v.circuit.gates| <= |dag.nodes| && |v.circuit.constants| <= |dag.nodes|
                                && v.circuit.layout == layout
    ensures v.Ran? ==>
              (v.accepted <==> Value(f, dag.dagId, dag.nodes, EnvOf(f, layout, inputs), |dag.nodes| - 1) == f.zero)
  {
    var circuit := EmitCircuit(f, dag, layout);
    if !circuit.Ok? { return NoCircuit; }
    var c := circuit.value;
    var encoded := ToAce(b, c);
    if !encoded.Ok? { return NotEncodable(c); }
    FitsAtStart(b, c, encoded.value);
    var accepted := RunEncoded(f, b, c, encoded.value, inputs, 0);
    v := Ran(accepted);
  }

  /** `A B` as the root, with `A - B` behind it. */
  function Misrooted<T>(): AceDag<T> {
    var a, b := NodeId(0, 0), NodeId(0, 1);
    AceDag(0, [Node.Input(Public(0)), Node.Input(Public(1)), Node.Mul(a, b), Node.Sub(a, b)], NodeId(0, 2))
  }

  function TwoInputs(): Layout {
    Layout(2, map[Public(0) := 0, Public(1) := 1])
  }

  lemma MisrootedValues<T(!new)>(f: Field<T>)
    requires IsField(f)
    ensures Misrooted<T>().Valid() && KeysPresent(Misrooted<T>().nodes, TwoInputs()) && TwoInputs().Valid()
    ensures var env := EnvOf(f, TwoInputs(), [f.one, f.one]);
            && Misrooted<T>().Eval(f, env) == f.one
            && Value(f, 0, Misrooted<T>().nodes, env, 3) == f.zero
  {
    var dag, env := Misrooted<T>(), EnvOf(f, TwoInputs(), [f.one, f.one]);
    forall i ensures OrderedAt(0, dag.nodes, i) {}
    assert env(Public(0)) == f.one && env(Public(1)) == f.one;
    assert Value(f, 0, dag.nodes, env, 0) == f.one && Value(f, 0, dag.nodes, env, 1) == f.one;
    assert Laws(f, f.one, f.one, f.one);
    SubZero(f, f.one, f.one);
  }

  /** A DAG whose root is not its last node: the chiplet accepts the inputs 1 and 1, although the DAG's value is one. */
  method RootMustBeLast<T(==,!new)>(f: Field<T>, b: Basis<T>) returns (v: Verdict<T>)
    requires IsField(f) && IsBasis(b)
    ensures v == Ran(true)
    ensures Misrooted<T>().Valid() && Misrooted<T>().Eval(f, EnvOf(f, TwoInputs(), [f.one, f.one])) != f.zero
  {
    MisrootedValues(f);
    assert Laws(f, f.one, f.one, f.one);
    v := RunDag(f, b, Misrooted<T>(), TwoInputs(), [f.one, f.one]);
  }
}
