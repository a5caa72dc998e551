/** The instruction stream of the circuit-evaluation chiplet: encoding of a circuit
    (miden-vm/crates/ace-codegen/src/encode.rs) and decoding of one instruction
    (miden-vm/processor/src/trace/chiplets/ace/instruction.rs). */
module Encoding {
  import opened Fields
  import opened Circuit

  const ID_LIMIT := 0x4000_0000            // 2^30
  const MAX_NODE_ID := ID_LIMIT - 1
  const ADV_PIPE_BLOCK_FELTS := 8

  /** Extension-field elements as pairs of base-field elements. */
  datatype Basis<!T> = Basis(split: T -> (nat, nat), join: (nat, nat) -> T)

  ghost predicate JoinsSplit<T>(b: Basis<T>, x: T) {
    b.join(b.split(x).0, b.split(x).1) == x
  }

  ghost predicate IsBasis<T(!new)>(b: Basis<T>) {
    forall x :: JoinsSplit(b, x)
  }

  function NextEven(n: nat): (m: nat)
    ensures m % 2 == 0 && n <= m < n + 2
  {
    if n % 2 == 0 then n else n + 1
  }

  function NextBlock(n: nat): (m: nat)
    ensures m % ADV_PIPE_BLOCK_FELTS == 0 && n <= m < n + ADV_PIPE_BLOCK_FELTS
  {
    (n + 7) / 8 * 8
  }

  // One instruction

  function OpTag(op: Operator): nat {
    match op
    case Minus => 0
    case Times => 1
    case Plus => 2
  }

  function Pack(l: nat, r: nat, op: Operator): nat {
    l + r * ID_LIMIT + OpTag(op) * (ID_LIMIT * ID_LIMIT)
  }

  datatype Decoded = Invalid | Instruction(l: nat, r: nat, op: Operator)

  function DecodeInstruction(x: nat): Decoded {
    var l := x % ID_LIMIT;
    var r := (x / ID_LIMIT) % ID_LIMIT;
    var rest := (x / ID_LIMIT) / ID_LIMIT;
    if rest == 0 then Instruction(l, r, Minus)
    else if rest == 1 then Instruction(l, r, Times)
    else if rest == 2 then Instruction(l, r, Plus)
    else Invalid
  }

  /** Decoding inverts packing, and a packed instruction is a canonical field element. */
  lemma DecodePack(l: nat, r: nat, op: Operator)
    requires l < ID_LIMIT && r < ID_LIMIT
    ensures DecodeInstruction(Pack(l, r, op)) == Instruction(l, r, op)
    ensures Pack(l, r, op) < 0xFFFF_FFFF_0000_0001
  {
    var upper := r + OpTag(op) * ID_LIMIT;
    assert Pack(l, r, op) == l + upper * ID_LIMIT;
  }

  /** Packing what an instruction decodes to gives it back. */
  lemma PackDecode(x: nat)
    requires DecodeInstruction(x).Instruction?
    ensures var d := DecodeInstruction(x); d.l < ID_LIMIT && d.r < ID_LIMIT && Pack(d.l, d.r, d.op) == x
  {
    var upper := x / ID_LIMIT;
    assert x == x % ID_LIMIT + upper * ID_LIMIT;
    assert upper == upper % ID_LIMIT + (upper / ID_LIMIT) * ID_LIMIT;
  }

  // Sizes

  datatype Sizes = Sizes(inputs: nat, constants: nat, gates: nat, padding: nat) {
    function Nodes(): nat {
      inputs + constants + gates + padding
    }
  }

  /** The sizes of a circuit's encoding, apart from alignment. */
  ghost predicate Sized<T>(c: AceCircuit<T>, s: Sizes) {
    s.inputs == c.layout.totalInputs && s.gates == |c.gates| && |c.constants| <= s.constants
  }

  /** Constants fill whole rows, and constants and gates together fill whole blocks. */
  ghost predicate Aligned(s: Sizes) {
    s.constants % 2 == 0 && (2 * s.constants + s.gates + s.padding) % ADV_PIPE_BLOCK_FELTS == 0
  }

  function SizesOf<T>(c: AceCircuit<T>): (s: Sizes)
    ensures Sized(c, s) && Aligned(s)
  {
    var constants := NextEven(|c.constants|);
    var len := 2 * constants + |c.gates|;
    Sizes(c.layout.totalInputs, constants, |c.gates|, NextBlock(len) - len)
  }

  /** Wires are numbered downwards in the order in which the chiplet inserts them. */
  function WireId(s: Sizes, w: Wire): nat
    requires Refers(w, s.inputs, s.constants, s.gates + s.padding)
  {
    match w
    case InputWire(i) => s.Nodes() - 1 - i
    case ConstantWire(i) => s.Nodes() - 1 - s.inputs - i
    case OperationWire(i) => s.Nodes() - 1 - s.inputs - s.constants - i
  }

  /** The gates that fill up the last block: each squares the gate before it. */
  function PaddingGate(gates: nat, k: nat): Gate
    requires gates > 0
  {
    Gate(Times, OperationWire(gates - 1 + k), OperationWire(gates - 1 + k))
  }

  function PaddedGates(gates: seq<Gate>, padding: nat): (gs: seq<Gate>)
    requires |gates| > 0
    ensures |gs| == |gates| + padding && gates <= gs
  {
    gates + seq(padding, k requires 0 <= k < padding => PaddingGate(|gates|, k))
  }

  function EncodeGate(s: Sizes, g: Gate): nat
    requires Refers(g.lhs, s.inputs, s.constants, s.gates + s.padding)
    requires Refers(g.rhs, s.inputs, s.constants, s.gates + s.padding)
  {
    Pack(WireId(s, g.lhs), WireId(s, g.rhs), g.op)
  }

  // The stream

  datatype Encoded = Encoded(numVars: nat, numOps: nat, instructions: seq<nat>)
  datatype Result = Ok(value: Encoded) | MisalignedInputs | NoOperations | TooManyNodes

  /** `instructions` holds the constants, zero-padded to whole rows, followed by the padded gates. */
  ghost predicate IsStreamOf<T>(b: Basis<T>, c: AceCircuit<T>, s: Sizes, instructions: seq<nat>) {
    && |c.gates| > 0
    && |instructions| == 2 * s.constants + s.gates + s.padding
    && HoldsConstants(b, c.constants, s.constants, instructions)
    && forall i :: EncodesAt(s, PaddedGates(c.gates, s.padding), instructions, i)
  }

  ghost predicate HoldsConstants<T>(b: Basis<T>, constants: seq<T>, total: nat, instructions: seq<nat>) {
    && |constants| <= total && 2 * total <= |instructions|
    && (forall i :: 0 <= i < |constants| ==> (instructions[2 * i], instructions[2 * i + 1]) == b.split(constants[i]))
    && (forall i :: 2 * |constants| <= i < 2 * total ==> instructions[i] == 0)
  }

  ghost predicate EncodesAt(s: Sizes, gates: seq<Gate>, instructions: seq<nat>, i: int)
  {
    0 <= i < |gates| && 2 * s.constants + i < |instructions| ==>
      && Refers(gates[i].lhs, s.inputs, s.constants, i)
      && Refers(gates[i].rhs, s.inputs, s.constants, i)
      && i <= s.gates + s.padding
      && instructions[2 * s.constants + i] == EncodeGate(s, gates[i])
  }

  lemma PaddedGatesOrdered(inputs: nat, constants: nat, constants': nat, gates: seq<Gate>, padding: nat)
    requires |gates| > 0 && constants <= constants' && GatesOrdered(inputs, constants, gates)
    ensures GatesOrdered(inputs, constants', PaddedGates(gates, padding))
  {
    forall i ensures GateOrderedAt(inputs, constants', PaddedGates(gates, padding), i) {
      assert GateOrderedAt(inputs, constants, gates, i);
    }
  }

  lemma AppendGate(s: Sizes, gates: seq<Gate>, instructions: seq<nat>, k: nat)
    requires |gates| == s.gates + s.padding && k < |gates| && |instructions| == 2 * s.constants + k
    requires GatesOrdered(s.inputs, s.constants, gates)
    requires forall i :: 0 <= i < k ==> EncodesAt(s, gates, instructions, i)
    ensures Refers(gates[k].lhs, s.inputs, s.constants, k) && Refers(gates[k].rhs, s.inputs, s.constants, k)
    ensures forall i :: 0 <= i <= k ==> EncodesAt(s, gates, instructions + [EncodeGate(s, gates[k])], i)
  {
    assert GateOrderedAt(s.inputs, s.constants, gates, k);
    var longer := instructions + [EncodeGate(s, gates[k])];
    forall i | 0 <= i <= k ensures EncodesAt(s, gates, longer, i) {
      assert EncodesAt(s, gates, instructions, i);
    }
  }

  method PushConstants<T>(b: Basis<T>, constants: seq<T>, total: nat) returns (felts: seq<nat>)
    requires |constants| <= total
    ensures |felts| == 2 * total && HoldsConstants(b, constants, total, felts)
  {
    felts := [];
    for k := 0 to |constants|
      invariant |felts| == 2 * k
      invariant forall i :: 0 <= i < k ==> (felts[2 * i], felts[2 * i + 1]) == b.split(constants[i])
    {
      var (c0, c1) := b.split(constants[k]);
      felts := felts + [c0, c1];
    }
    felts := felts + seq(2 * total - |felts|, _ => 0);
  }

  method PushGates(s: Sizes, gates: seq<Gate>, constants: seq<nat>) returns (instructions: seq<nat>)
    requires 0 < |gates| == s.gates && |constants| == 2 * s.constants
    requires GatesOrdered(s.inputs, s.constants, PaddedGates(gates, s.padding))
    ensures |instructions| == 2 * s.constants + s.gates + s.padding && constants <= instructions
    ensures forall i :: EncodesAt(s, PaddedGates(gates, s.padding), instructions, i)
  {
    ghost var padded := PaddedGates(gates, s.padding);
    instructions := constants;
    for k := 0 to s.gates
      invariant |instructions| == 2 * s.constants + k && constants <= instructions
      invariant forall i :: 0 <= i < k ==> EncodesAt(s, padded, instructions, i)
    {
      AppendGate(s, padded, instructions, k);
      instructions := instructions + [EncodeGate(s, gates[k])];
    }
    for k := 0 to s.padding
      invariant |instructions| == 2 * s.constants + s.gates + k && constants <= instructions
      invariant forall i :: 0 <= i < s.gates + k ==> EncodesAt(s, padded, instructions, i)
    {
      AppendGate(s, padded, instructions, s.gates + k);
      instructions := instructions + [EncodeGate(s, PaddingGate(s.gates, k))];
    }
    forall i ensures EncodesAt(s, padded, instructions, i) { }
  }

  ghost predicate IsEncodingOf<T>(b: Basis<T>, c: AceCircuit<T>, s: Sizes, enc: Encoded) {
    && s.inputs % 2 == 0 && s.Nodes() <= MAX_NODE_ID
    && IsStreamOf(b, c, s, enc.instructions)
    && enc.numVars == s.inputs + s.constants && enc.numOps == s.gates + s.padding
  }

  /** Encodes a circuit; fails exactly on misaligned inputs, an empty circuit, or too many nodes. */
  method ToAce<T>(b: Basis<T>, c: AceCircuit<T>) returns (r: Result)
    requires c.Valid()
    ensures r.MisalignedInputs? <==> c.layout.totalInputs % 2 != 0
    ensures r.NoOperations? <==> c.layout.totalInputs % 2 == 0 && |c.gates| == 0
    ensures r.TooManyNodes? <==> c.layout.totalInputs % 2 == 0 && |c.gates| > 0 && SizesOf(c).Nodes() > MAX_NODE_ID
    ensures r.Ok? ==> IsEncodingOf(b, c, SizesOf(c), r.value)
  {
    if c.layout.totalInputs % 2 != 0 { return MisalignedInputs; }
    var s := SizesOf(c);
    if s.gates == 0 { return NoOperations; }
    if s.Nodes() > MAX_NODE_ID { return TooManyNodes; }
    PaddedGatesOrdered(s.inputs, |c.constants|, s.constants, c.gates, s.padding);
    var constants := PushConstants(b, c.constants, s.constants);
    var instructions := PushGates(s, c.gates, constants);
    return Result.Ok(Encoded(s.inputs + s.constants, s.gates + s.padding, instructions));
  }
}
