/** Running an encoded circuit on the chiplet decides whether the circuit evaluates to zero. */
module Execution {
  import opened Common
  import opened Fields
  import opened Circuit
  import opened Encoding
  import opened AceChiplet

  /** Memory holds the inputs, two cells each, followed by the instruction stream. */
  ghost predicate MemoryHolds<T>(b: Basis<T>, mem: nat -> nat, inputs: seq<T>, instructions: seq<nat>) {
    && (forall j :: 0 <= j < |inputs| ==> b.join(mem(2 * j), mem(2 * j + 1)) == inputs[j])
    && (forall t :: 0 <= t < |instructions| ==> mem(2 * |inputs| + t) == instructions[t])
  }

  /** The constants as the chiplet loads them, with the padding cells read as zero. */
  ghost function PaddedConstants<T>(b: Basis<T>, constants: seq<T>, total: nat): (cs: seq<T>)
    requires |constants| <= total
    ensures |cs| == total && constants <= cs
  {
    constants + seq(total - |constants|, _ => b.join(0, 0))
  }

  /** Where the chiplet keeps a wire. */
  function Position(s: Sizes, w: Wire): nat {
    match w
    case InputWire(i) => i
    case ConstantWire(i) => s.inputs + i
    case OperationWire(i) => s.inputs + s.constants + i
  }

  lemma LoadedIs<T(!new)>(b: Basis<T>, mem: nat -> nat, inputs: seq<T>, constants: seq<T>, total: nat,
                          instructions: seq<nat>)
    requires IsBasis(b) && HoldsConstants(b, constants, total, instructions)
             && MemoryHolds(b, mem, inputs, instructions)
    ensures Loaded(b, mem, |inputs| + total) == inputs + PaddedConstants(b, constants, total)
  {
    var vs, expected := Loaded(b, mem, |inputs| + total), inputs + PaddedConstants(b, constants, total);
    forall j | 0 <= j < |inputs| + total
      ensures vs[j] == expected[j]
    {
      if j >= |inputs| {
        var i := j - |inputs|;
        assert mem(2 * |inputs| + 2 * i) == instructions[2 * i];
        assert mem(2 * |inputs| + (2 * i + 1)) == instructions[2 * i + 1];
        if i < |constants| { assert JoinsSplit(b, constants[i]); }
      }
    }
  }

  /** Decoded instruction `k` of the program asks for gate `k`. */
  ghost predicate Asks(s: Sizes, gates: seq<Gate>, program: seq<Decoded>, k: int) {
    0 <= k < |gates| && k < |program| && k < s.gates + s.padding ==>
      && Refers(gates[k].lhs, s.inputs, s.constants, k) && Refers(gates[k].rhs, s.inputs, s.constants, k)
      && program[k] == Instruction(WireId(s, gates[k].lhs), WireId(s, gates[k].rhs), gates[k].op)
  }

  ghost predicate AllAsk(s: Sizes, gates: seq<Gate>, program: seq<Decoded>) {
    forall k :: Asks(s, gates, program, k)
  }

  /** The chiplet's wires are the inputs, the constants and the first `k` gate values, in order. */
  ghost predicate Held<T>(f: Field<T>, s: Sizes, inputs: seq<T>, constants: seq<T>, gates: seq<Gate>, wires: seq<T>,
                          k: nat)
    requires |inputs| == s.inputs && |constants| == s.constants
    requires GatesOrdered(s.inputs, s.constants, gates) && k <= |gates|
  {
    && |wires| == s.inputs + s.constants + k
    && forall w :: HeldAt(f, s, inputs, constants, gates, wires, k, w)
  }

  ghost predicate HeldAt<T>(f: Field<T>, s: Sizes, inputs: seq<T>, constants: seq<T>, gates: seq<Gate>, wires: seq<T>,
                            k: nat, w: Wire)
    requires |inputs| == s.inputs && |constants| == s.constants
    requires GatesOrdered(s.inputs, s.constants, gates) && k <= |gates|
    requires |wires| == s.inputs + s.constants + k
  {
    Refers(w, s.inputs, s.constants, k) ==> wires[Position(s, w)] == WireValue(f, inputs, constants, gates, w)
  }

  lemma IdsPosition(s: Sizes, k: nat, w: Wire)
    requires k <= s.gates + s.padding && Refers(w, s.inputs, s.constants, k)
    ensures Readable(s.Nodes(), s.inputs + s.constants + k, WireId(s, w))
    ensures s.Nodes() - 1 - WireId(s, w) == Position(s, w)
  {
  }

  /** One more gate. */
  lemma GateRuns<T>(f: Field<T>, s: Sizes, inputs: seq<T>, constants: seq<T>, gates: seq<Gate>, wires: seq<T>, k: nat)
    requires |inputs| == s.inputs && |constants| == s.constants && |gates| == s.gates + s.padding
    requires GatesOrdered(s.inputs, s.constants, gates) && k < |gates|
    requires Held(f, s, inputs, constants, gates, wires, k)
    ensures Refers(gates[k].lhs, s.inputs, s.constants, k) && Refers(gates[k].rhs, s.inputs, s.constants, k)
    ensures var next := Executed(f, s.Nodes(),
              Instruction(WireId(s, gates[k].lhs), WireId(s, gates[k].rhs), gates[k].op), wires);
            next.Some? && Held(f, s, inputs, constants, gates, next.value, k + 1)
  {
    var g := gates[k];
    assert GateOrderedAt(s.inputs, s.constants, gates, k);
    IdsPosition(s, k, g.lhs);
    IdsPosition(s, k, g.rhs);
    assert HeldAt(f, s, inputs, constants, gates, wires, k, g.lhs);
    assert HeldAt(f, s, inputs, constants, gates, wires, k, g.rhs);
    var out := WireValue(f, inputs, constants, gates, OperationWire(k));
    var next, k' := wires + [out], k + 1;
    assert Executed(f, s.Nodes(), Instruction(WireId(s, g.lhs), WireId(s, g.rhs), g.op), wires) == Some(next);
    forall w ensures HeldAt(f, s, inputs, constants, gates, next, k', w) {
      assert HeldAt(f, s, inputs, constants, gates, wires, k, w);
    }
  }

  lemma {:induction false} RunMatches<T>(f: Field<T>, s: Sizes, inputs: seq<T>, constants: seq<T>, gates: seq<Gate>,
                                         vars: seq<T>, program: seq<Decoded>, k: nat)
    requires |inputs| == s.inputs && |constants| == s.constants && |gates| == |program| == s.gates + s.padding
    requires GatesOrdered(s.inputs, s.constants, gates) && k <= |gates|
    requires AllAsk(s, gates, program) && vars == inputs + constants
    ensures var r := Run(f, vars, program, k); r.Some? && Held(f, s, inputs, constants, gates, r.value, k)
  {
    if k == 0 {
      forall w ensures HeldAt(f, s, inputs, constants, gates, vars, 0, w) { }
    } else {
      RunMatches(f, s, inputs, constants, gates, vars, program, k - 1);
      var wires := Run(f, vars, program, k - 1).value;
      assert Asks(s, gates, program, k - 1);
      GateRuns(f, s, inputs, constants, gates, wires, k - 1);
      assert Run(f, vars, program, k) == Executed(f, s.Nodes(), program[k - 1], wires);
    }
  }

  /** Padding the constants and the gates changes no wire of the circuit. */
  lemma {:induction false} PaddingKeeps<T>(f: Field<T>, inputs: seq<T>, constants: seq<T>, gates: seq<Gate>,
                                           constants': seq<T>, gates': seq<Gate>, w: Wire)
    requires GatesOrdered(|inputs|, |constants|, gates) && GatesOrdered(|inputs|, |constants'|, gates')
    requires constants <= constants' && gates <= gates' && Refers(w, |inputs|, |constants|, |gates|)
    ensures WireValue(f, inputs, constants', gates', w) == WireValue(f, inputs, constants, gates, w)
    decreases if w.OperationWire? then w.index + 1 else 0
  {
    if w.OperationWire? {
      assert GateOrderedAt(|inputs|, |constants|, gates, w.index);
      PaddingKeeps(f, inputs, constants, gates, constants', gates', gates[w.index].lhs);
      PaddingKeeps(f, inputs, constants, gates, constants', gates', gates[w.index].rhs);
    }
  }

  /** Each padding gate squares the one before, so the last wire vanishes exactly when the last gate does. */
  lemma {:induction false} PaddingVanishes<T(!new)>(f: Field<T>, inputs: seq<T>, constants: seq<T>, gates: seq<Gate>,
                                                    padding: nat, j: nat)
    requires IsField(f) && |gates| > 0 && j <= padding
    requires GatesOrdered(|inputs|, |constants|, PaddedGates(gates, padding))
    ensures var gs := PaddedGates(gates, padding);
            WireValue(f, inputs, constants, gs, OperationWire(|gates| - 1 + j)) == f.zero
            <==> WireValue(f, inputs, constants, gs, OperationWire(|gates| - 1)) == f.zero
  {
    if j > 0 {
      PaddingVanishes(f, inputs, constants, gates, padding, j - 1);
      var gs := PaddedGates(gates, padding);
      assert gs[|gates| - 1 + j] == PaddingGate(|gates|, j - 1);
      var x := WireValue(f, inputs, constants, gs, OperationWire(|gates| - 1 + (j - 1)));
      NoZeroDivisors(f, x, x);
    }
  }

  lemma MultipleOfFour(constants: nat, ops: nat)
    requires constants % 2 == 0 && (2 * constants + ops) % 8 == 0
    ensures ops % 4 == 0
  {
    var h, t := constants / 2, (2 * constants + ops) / 8;
    assert ops == 4 * (2 * t - h);
  }

  /** Memory is set up to run the padded circuit on the inputs. */
  ghost predicate Staged<T>(b: Basis<T>, c: AceCircuit<T>, s: Sizes, mem: nat -> nat, inputs: seq<T>) {
    && c.Valid() && Sized(c, s) && |c.gates| > 0 && |inputs| == s.inputs
    && GatesOrdered(s.inputs, s.constants, PaddedGates(c.gates, s.padding))
    && Loaded(b, mem, s.inputs + s.constants) == inputs + PaddedConstants(b, c.constants, s.constants)
    && AllAsk(s, PaddedGates(c.gates, s.padding), Program(mem, 2 * (s.inputs + s.constants), s.gates + s.padding))
  }

  lemma ProgramAsks<T>(b: Basis<T>, c: AceCircuit<T>, s: Sizes, enc: Encoded, mem: nat -> nat, inputs: seq<T>, k: int)
    requires Sized(c, s) && IsEncodingOf(b, c, s, enc) && |inputs| == s.inputs
    requires MemoryHolds(b, mem, inputs, enc.instructions)
    ensures Asks(s, PaddedGates(c.gates, s.padding), Program(mem, 2 * (s.inputs + s.constants), s.gates + s.padding), k)
  {
    var gates := PaddedGates(c.gates, s.padding);
    if 0 <= k < s.gates + s.padding {
      assert EncodesAt(s, gates, enc.instructions, k);
      assert mem(2 * |inputs| + (2 * s.constants + k)) == enc.instructions[2 * s.constants + k];
      DecodePack(WireId(s, gates[k].lhs), WireId(s, gates[k].rhs), gates[k].op);
    }
  }

  lemma EncodingStages<T(!new)>(b: Basis<T>, c: AceCircuit<T>, s: Sizes, enc: Encoded, mem: nat -> nat, inputs: seq<T>)
    requires IsBasis(b) && c.Valid() && Sized(c, s) && IsEncodingOf(b, c, s, enc) && |inputs| == s.inputs
    requires MemoryHolds(b, mem, inputs, enc.instructions)
    ensures Staged(b, c, s, mem, inputs)
  {
    LoadedIs(b, mem, inputs, c.constants, s.constants, enc.instructions);
    PaddedGatesOrdered(s.inputs, |c.constants|, s.constants, c.gates, s.padding);
    var gates, program := PaddedGates(c.gates, s.padding), Program(mem, 2 * (s.inputs + s.constants),
                                      s.gates + s.padding);
    forall k ensures Asks(s, gates, program, k) { ProgramAsks(b, c, s, enc, mem, inputs, k); }
  }

  /** The last wire of a staged run is the last padding gate. */
  lemma StagedRun<T(!new)>(f: Field<T>, b: Basis<T>, c: AceCircuit<T>, s: Sizes, mem: nat -> nat, inputs: seq<T>)
    requires Staged(b, c, s, mem, inputs)
    ensures var numVars, numOps := s.inputs + s.constants, s.gates + s.padding;
            var wires := Run(f, Loaded(b, mem, numVars), Program(mem, 2 * numVars, numOps), numOps);
            && wires.Some?
            && wires.value[numVars + numOps - 1]
               == WireValue(f, inputs, PaddedConstants(b, c.constants, s.constants), PaddedGates(c.gates, s.padding),
                            OperationWire(numOps - 1))
  {
    var constants, gates := PaddedConstants(b, c.constants, s.constants), PaddedGates(c.gates, s.padding);
    var vars := Loaded(b, mem, s.inputs + s.constants);
    var program := Program(mem, 2 * (s.inputs + s.constants), s.gates + s.padding);
    var n := s.gates + s.padding;
    RunMatches(f, s, inputs, constants, gates, vars, program, n);
    assert HeldAt(f, s, inputs, constants, gates, Run(f, vars, program, n).value, n, OperationWire(n - 1));
  }

  lemma LastWireDecides<T(!new)>(f: Field<T>, b: Basis<T>, c: AceCircuit<T>, s: Sizes, enc: Encoded, mem: nat -> nat,
                                 inputs: seq<T>)
    requires IsBasis(b) && c.Valid() && Sized(c, s)
    requires IsEncodingOf(b, c, s, enc) && |inputs| == s.inputs && MemoryHolds(b, mem, inputs, enc.instructions)
    ensures GatesOrdered(s.inputs, s.constants, PaddedGates(c.gates, s.padding))
    ensures RunsToZero(f, b, mem, s.inputs + s.constants, s.gates + s.padding)
            <==> WireValue(f, inputs, PaddedConstants(b, c.constants, s.constants), PaddedGates(c.gates, s.padding),
                           OperationWire(s.gates + s.padding - 1)) == f.zero
  {
    EncodingStages(b, c, s, enc, mem, inputs);
    StagedRun(f, b, c, s, mem, inputs);
  }

  lemma LastGatePadded<T(!new)>(f: Field<T>, inputs: seq<T>, constants: seq<T>, constants': seq<T>, gates: seq<Gate>,
                                padding: nat)
    requires IsField(f) && |gates| > 0 && constants <= constants'
    requires GatesOrdered(|inputs|, |constants|, gates)
    requires GatesOrdered(|inputs|, |constants'|, PaddedGates(gates, padding))
    ensures WireValue(f, inputs, constants', PaddedGates(gates, padding), OperationWire(|gates| + padding - 1))
                == f.zero
            <==> WireValue(f, inputs, constants, gates, OperationWire(|gates| - 1)) == f.zero
  {
    PaddingVanishes(f, inputs, constants', gates, padding, padding);
    PaddingKeeps(f, inputs, constants, gates, constants', PaddedGates(gates, padding), OperationWire(|gates| - 1));
  }

  lemma SizesOk<T>(b: Basis<T>, c: AceCircuit<T>, s: Sizes, enc: Encoded)
    requires c.Valid() && Sized(c, s) && Aligned(s) && IsEncodingOf(b, c, s, enc)
    ensures SizesAccepted(s.inputs + s.constants, s.gates + s.padding)
  {
    assert GateOrderedAt(c.layout.totalInputs, |c.constants|, c.gates, 0);
    MultipleOfFour(s.constants, s.gates + s.padding);
  }

  /** An encoded circuit runs to zero on the chiplet exactly when the circuit's last gate is zero. */
  lemma LastGateDecides<T(!new)>(f: Field<T>, b: Basis<T>, c: AceCircuit<T>, s: Sizes, enc: Encoded, mem: nat -> nat,
                                 inputs: seq<T>)
    requires IsField(f) && IsBasis(b) && c.Valid() && Sized(c, s)
    requires IsEncodingOf(b, c, s, enc) && |inputs| == s.inputs && MemoryHolds(b, mem, inputs, enc.instructions)
    ensures RunsToZero(f, b, mem, enc.numVars, enc.numOps)
            <==> WireValue(f, inputs, c.constants, c.gates, OperationWire(|c.gates| - 1)) == f.zero
  {
    hide RunsToZero, WireValue, PaddedGates, PaddedConstants, MemoryHolds;
    LastWireDecides(f, b, c, s, enc, mem, inputs);
    LastGatePadded(f, inputs, c.constants, PaddedConstants(b, c.constants, s.constants), c.gates, s.padding);
  }

  /** The chiplet accepts an encoded circuit in addressable memory exactly when the circuit's last gate is zero. */
  lemma AcceptsLastGate<T(!new)>(f: Field<T>, b: Basis<T>, c: AceCircuit<T>, s: Sizes, enc: Encoded, mem: nat -> nat,
                                 ptr: nat, inputs: seq<T>)
    requires IsField(f) && IsBasis(b) && c.Valid() && Sized(c, s) && Aligned(s)
    requires IsEncodingOf(b, c, s, enc) && |inputs| == s.inputs
    requires MemoryHolds(b, From(mem, ptr), inputs, enc.instructions)
    ensures Accepts(f, b, mem, ptr, enc.numVars, enc.numOps)
            <==> Addressable(ptr, enc.numVars, enc.numOps) && LastGate(f, c, inputs) == f.zero
  {
    hide RunsToZero, SizesAccepted, WireValue, MemoryHolds, From, Addressable;
    SizesOk(b, c, s, enc);
    LastGateDecides(f, b, c, s, enc, From(mem, ptr), inputs);
  }

  /** When the root is the last gate, the chiplet accepts exactly the inputs on which the circuit is zero. */
  lemma AcceptsIffZero<T(!new)>(f: Field<T>, b: Basis<T>, c: AceCircuit<T>, s: Sizes, enc: Encoded, mem: nat -> nat,
                                ptr: nat, inputs: seq<T>)
    requires IsField(f) && IsBasis(b) && c.Valid() && Sized(c, s) && Aligned(s)
    requires IsEncodingOf(b, c, s, enc) && |inputs| == s.inputs
    requires MemoryHolds(b, From(mem, ptr), inputs, enc.instructions) && c.root == OperationWire(|c.gates| - 1)
    ensures Accepts(f, b, mem, ptr, enc.numVars, enc.numOps)
            <==> Addressable(ptr, enc.numVars, enc.numOps) && CircuitValue(f, c, inputs) == f.zero
  {
    AcceptsLastGate(f, b, c, s, enc, mem, ptr, inputs);
  }
}
