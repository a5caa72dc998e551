/** What the constraints and the buses of the circuit-evaluation chiplet prove together: if the rows meet the
    constraints, memory answers their requests and the wires balance, the circuit in memory evaluates to zero
    (miden-vm/air/src/constraints/chiplets/ace.rs, bus/hash_kernel.rs, bus/chiplets.rs and bus/wiring.rs). */
module AceSoundness {
  import opened Common
  import opened Fields
  import opened Circuit
  import opened Encoding
  import opened AceChiplet
  import opened Execution
  import opened AceAir
  import opened AceShape
  import opened Claims
  import opened BusBalance
  import opened BusSoundness
  import opened WiringSoundness
  import S = SumCheck
  import C = Challenges

  // Wires

  /** The two coordinates determine the element. */
  ghost predicate Separates<T(!new)>(coords: T -> (T, T)) {
    forall x, y :: coords(x) == coords(y) ==> x == y
  }

  ghost function WireIn<T>(f: Field<T>, coords: T -> (T, T), r: AceRow<T>, id: T, value: T): (m: BusMessage<T>)
    ensures Full(m) && m.bus == C.ACE_WIRING_BUS
  {
    WireOf(f, r.clk, r.ctx, coords, id, value)
  }

  lemma SameWire<T(!new)>(f: Field<T>, coords: T -> (T, T), r: AceRow<T>, id: T, value: T, s: AceRow<T>, id': T,
                          value': T)
    requires Separates(coords) && WireIn(f, coords, r, id, value) == WireIn(f, coords, s, id', value')
    ensures r.clk == s.clk && r.ctx == s.ctx && id == id' && value == value'
  {
    var left, right := WireIn(f, coords, r, id, value).elems, WireIn(f, coords, s, id', value').elems;
    assert left[0] == right[0] && left[1] == right[1] && left[2] == right[2] && left[3] == right[3]
        && left[4] == right[4];
    assert coords(value).0 == coords(value').0 && coords(value).1 == coords(value').1;
    assert coords(value) == coords(value');
  }

  /** A READ row sends two wires, an EVAL row sends one and reads two. */
  ghost function ClaimsOf<T>(f: Field<T>, coords: T -> (T, T), r: AceRow<T>): (cs: seq<Claim<T>>) {
    var out, left := WireIn(f, coords, r, r.id0, r.v0), WireIn(f, coords, r, r.id1, r.v1);
    if r.block == f.zero then [Sends(r.m0, out), Sends(r.m1, left)]
    else [Sends(r.m0, out), Reads(left), Reads(WireIn(f, coords, r, r.id2, r.v2))]
  }

  /** The wiring bus carries what the rows send and read, and nobody else sends wires. */
  ghost predicate Carries<T>(f: Field<T>, coords: T -> (T, T), rows: seq<AceRow<T>>, cs: seq<Claim<T>>) {
    && (forall i, c :: 0 <= i < |rows| && c in ClaimsOf(f, coords, rows[i]) ==> c in cs)
    && (forall c :: c in cs && c.Sends? && c.message.bus == C.ACE_WIRING_BUS ==> SentBySome(f, coords, rows, c))
  }

  ghost predicate SentBySome<T>(f: Field<T>, coords: T -> (T, T), rows: seq<AceRow<T>>, c: Claim<T>) {
    exists i :: 0 <= i < |rows| && c in ClaimsOf(f, coords, rows[i])
  }

  /** Every message is read as often as it is sent, in the field. */
  ghost predicate Balanced<T(!new)>(f: Field<T>, cs: seq<Claim<T>>) {
    forall m :: Full(m) ==> f.OfNat(SentTimes(cs, m)) == f.OfNat(ReadTimes(cs, m))
  }

  /** The naturals below the limit are different field elements. */
  ghost predicate NatsApart<T>(f: Field<T>, limit: nat) {
    forall a: nat, b: nat :: a < limit && b < limit && f.OfNat(a) == f.OfNat(b) ==> a == b
  }

  lemma {:induction false} ReadCounted<T>(cs: seq<Claim<T>>, m: BusMessage<T>)
    ensures ReadTimes(cs, m) <= |cs| && (Reads(m) in cs ==> ReadTimes(cs, m) > 0)
  {
    if |cs| > 0 { ReadCounted(cs[..|cs| - 1], m); }
  }

  lemma {:induction false} SentSomewhere<T>(cs: seq<Claim<T>>, m: BusMessage<T>) returns (c: Claim<T>)
    requires SentTimes(cs, m) > 0
    ensures c in cs && c.Sends? && c.message == m
  {
    c := cs[|cs| - 1];
    if !(c.Sends? && c.message == m) { c := SentSomewhere(cs[..|cs| - 1], m); }
  }

  /** Whatever is read has been sent. */
  lemma ReadWasSent<T(!new)>(f: Field<T>, cs: seq<Claim<T>>, m: BusMessage<T>, limit: nat) returns (c: Claim<T>)
    requires Balanced(f, cs) && NatsApart(f, limit) && |cs| < limit && Full(m) && Reads(m) in cs
    ensures c in cs && c.Sends? && c.message == m
  {
    ReadCounted(cs, m);
    assert f.OfNat(SentTimes(cs, m)) == f.OfNat(ReadTimes(cs, m));
    c := SentSomewhere(cs, m);
  }

  // The wires of a section

  /** The wires a section sends, in the order in which the chiplet inserts them. */
  ghost function Sent<T>(rows: seq<AceRow<T>>, numRead: nat): (vs: seq<T>)
    requires numRead <= |rows|
    ensures |vs| == |rows| + numRead
  {
    seq(|rows| + numRead, k requires 0 <= k < |rows| + numRead => SentAt(rows, numRead, k))
  }

  ghost function SentAt<T>(rows: seq<AceRow<T>>, numRead: nat, k: nat): T
    requires numRead <= |rows| && k < |rows| + numRead
  {
    if k >= 2 * numRead then rows[k - numRead].v0
    else if k % 2 == 0 then rows[k / 2].v0
    else rows[k / 2].v1
  }

  /** Wire `k` has this identifier and value. */
  ghost predicate IsWire<T>(f: Field<T>, rows: seq<AceRow<T>>, numRead: nat, k: int, id: T, value: T)
    requires numRead <= |rows|
  {
    && 0 <= k < |rows| + numRead
    && id == f.OfNat(|rows| + numRead - 1 - k) && value == Sent(rows, numRead)[k]
  }

  /** A row only sends wires of its section. */
  lemma RowSends<T>(f: Field<T>, coords: T -> (T, T), rows: seq<AceRow<T>>, numRead: nat, i: nat, c: Claim<T>)
    returns (k: nat, id: T, value: T)
    requires numRead < |rows| && Shaped(f, rows, numRead, |rows| - numRead) && i < |rows|
    requires c in ClaimsOf(f, coords, rows[i]) && c.Sends?
    requires f.zero != f.one
    ensures IsWire(f, rows, numRead, k, id, value) && c.message == WireIn(f, coords, rows[i], id, value)
  {
    hide WireIn, Evaluates;
    assert RowAt(f, rows, numRead, |rows| - numRead, i);
    if c.message == WireIn(f, coords, rows[i], rows[i].id0, rows[i].v0) {
      k, id, value := if i < numRead then 2 * i else numRead + i, rows[i].id0, rows[i].v0;
    } else {
      k, id, value := 2 * i + 1, rows[i].id1, rows[i].v1;
    }
  }

  /** Nobody else works in this section's context and clock cycle. */
  ghost predicate Alone<T>(rows: seq<AceRow<T>>, p: nat, q: nat)
    requires p < q <= |rows|
  {
    forall i :: 0 <= i < |rows| && !(p <= i < q) ==> rows[i].clk != rows[p].clk || rows[i].ctx != rows[p].ctx
  }

  /** What a row of the section reads is a wire of the section. */
  lemma OperandIsWire<T(!new)>(f: Field<T>, coords: T -> (T, T), rows: seq<AceRow<T>>, p: nat, q: nat, numRead: nat,
                               cs: seq<Claim<T>>, limit: nat, i: nat, id: T, value: T) returns (k: nat)
    requires IsField(f) && Separates(coords) && p < q <= |rows| && Alone(rows, p, q) && numRead < q - p
    requires Shaped(f, rows[p..q], numRead, q - p - numRead) && Carries(f, coords, rows, cs)
    requires Balanced(f, cs) && NatsApart(f, limit) && |cs| < limit && i < q - p
    requires Reads(WireIn(f, coords, rows[p + i], id, value)) in ClaimsOf(f, coords, rows[p + i])
    ensures IsWire(f, rows[p..q], numRead, k, id, value)
  {
    hide WireIn, ClaimsOf, Balanced, NatsApart, IsField, Separates, IsWire, Shaped;
    var section, m := rows[p..q], WireIn(f, coords, rows[p + i], id, value);
    var c := ReadWasSent(f, cs, m, limit);
    assert SentBySome(f, coords, rows, c);
    var j :| 0 <= j < |rows| && c in ClaimsOf(f, coords, rows[j]);
    var id', value' := SentFrom(f, coords, rows[j], c);
    SameWire(f, coords, rows[p + i], id, value, rows[j], id', value');
    SameContext(f, section, numRead, i);
    assert p <= j < q;
    ZeroNotOne(f);
    var id'', value'';
    k, id'', value'' := RowSends(f, coords, section, numRead, j - p, c);
    SameWire(f, coords, rows[p + i], id, value, rows[j], id'', value'');
  }

  lemma SentFrom<T>(f: Field<T>, coords: T -> (T, T), r: AceRow<T>, c: Claim<T>) returns (id: T, value: T)
    requires c in ClaimsOf(f, coords, r)
    ensures c.message == WireIn(f, coords, r, id, value)
  {
    hide WireIn;
    if c.message == WireIn(f, coords, r, r.id0, r.v0) { return r.id0, r.v0; }
    if c.message == WireIn(f, coords, r, r.id1, r.v1) { return r.id1, r.v1; }
    return r.id2, r.v2;
  }

  lemma SameContext<T>(f: Field<T>, rows: seq<AceRow<T>>, numRead: nat, i: nat)
    requires numRead < |rows| && Shaped(f, rows, numRead, |rows| - numRead) && i < |rows|
    ensures rows[i].clk == rows[0].clk && rows[i].ctx == rows[0].ctx
  {
    assert RowAt(f, rows, numRead, |rows| - numRead, i);
  }

  // Memory

  /** The memory at an address answers the row's request: a READ row asks for a word, an EVAL row for an instruction. */
  ghost predicate AnsweredAt<T>(f: Field<T>, b: Basis<T>, mem: nat -> nat, r: AceRow<T>, addr: nat) {
    && (r.block == f.zero ==>
          r.v0 == b.join(mem(addr), mem(addr + 1)) && r.v1 == b.join(mem(addr + 2), mem(addr + 3)))
    && (r.block == f.one ==> f.OfNat(mem(addr)) == Word(f, r.id1, r.id2, r.op))
  }

  ghost predicate Answered<T>(f: Field<T>, b: Basis<T>, mem: nat -> nat, r: AceRow<T>) {
    forall addr: nat :: addr < ADDRESSES && r.ptr == f.OfNat(addr) ==> AnsweredAt(f, b, mem, r, addr)
  }

  /** A word that an EVAL row asks for decodes to the row's identifiers and operator. */
  lemma WordDecodes<T(!new)>(f: Field<T>, x: nat, l: nat, r: nat, op: Operator, limit: nat)
    requires IsField(f) && NatsApart(f, limit) && 3 * ID2_OFFSET <= limit && x < limit
    requires l < ID1_OFFSET && r < ID1_OFFSET && f.OfNat(x) == Word(f, f.OfNat(l), f.OfNat(r), OpColumn(f, op))
    ensures DecodeInstruction(x) == Instruction(l, r, op)
  {
    hide IsField, Word, OpColumn;
    WordOfNats(f, l, r, op);
    var y: nat := l + r * ID1_OFFSET + (Sign(op) + 1) * ID2_OFFSET;
    assert y < limit;
    DecodesAsConstrained(f, x, l, r, op);
  }

  // Running the program

  /** Wire `numVars + j` is what instruction `j` computes from the wires it names, in whatever order they come. */
  ghost predicate GateAt<T>(f: Field<T>, wires: seq<T>, numVars: nat, program: seq<Decoded>, j: int) {
    && 0 <= j < |program| && |wires| == numVars + |program|
    && var d := program[j];
    && d.Instruction? && d.l < |wires| && d.r < |wires|
    && wires[numVars + j] == Apply(f, d.op, wires[|wires| - 1 - d.l], wires[|wires| - 1 - d.r])
  }

  /** If the program runs at all, wires that satisfy every gate are the wires of the run. */
  lemma {:induction false} RunIsUnique<T>(f: Field<T>, wires: seq<T>, numVars: nat, program: seq<Decoded>, k: nat)
    requires |wires| == numVars + |program| && k <= |program|
    requires forall j :: 0 <= j < |program| ==> GateAt(f, wires, numVars, program, j)
    requires Run(f, wires[..numVars], program, k).Some?
    ensures Run(f, wires[..numVars], program, k).value == wires[..numVars + k]
  {
    if k > 0 {
      RunIsUnique(f, wires, numVars, program, k - 1);
      assert GateAt(f, wires, numVars, program, k - 1);
      assert wires[..numVars + k] == wires[..numVars + k - 1] + [wires[numVars + k - 1]];
    }
  }

  /** Memory holds canonical elements and answers every row of a section. */
  ghost predicate Served<T>(f: Field<T>, b: Basis<T>, mem: nat -> nat, rows: seq<AceRow<T>>, limit: nat) {
    && (forall addr: nat :: mem(addr) < limit)
    && (forall i :: 0 <= i < |rows| ==> Answered(f, b, mem, rows[i]))
  }

  /** The first row answers the request to evaluate a circuit: where it is, and how many variables and instructions
      it has. */
  ghost predicate Requested<T>(f: Field<T>, r: AceRow<T>, ptr: nat, numVars: nat, numOps: nat) {
    var evals := f.add(r.numEval, f.one);
    r.ptr == f.OfNat(ptr) && evals == f.OfNat(numOps) && f.Sub(f.add(r.id0, f.one), evals) == f.OfNat(numVars)
  }

  /** The section has the rows that were requested. */
  lemma RequestedSizes<T(!new)>(f: Field<T>, rows: seq<AceRow<T>>, numRead: nat, ptr: nat, numVars: nat, numOps: nat,
                                limit: nat)
    requires IsField(f) && NatsApart(f, limit) && numRead < |rows| && Shaped(f, rows, numRead, |rows| - numRead)
    requires Requested(f, rows[0], ptr, numVars, numOps) && numVars < limit && numOps < limit && 2 * |rows| < limit
    ensures numVars == 2 * numRead && numOps == |rows| - numRead
  {
    hide IsField, Evaluates, NatsApart;
    var evals := |rows| - numRead;
    assert RowAt(f, rows, numRead, evals, 0);
    assert f.add(rows[0].numEval, f.one) == f.OfNat(evals);
    assert f.add(rows[0].id0, f.one) == f.OfNat(2 * numRead + evals);
    OfNatSum(f, 2 * numRead, evals);
    SubAddBack(f, f.OfNat(2 * numRead), f.OfNat(evals));
    SameNat(f, numOps, evals, limit);
    SameNat(f, numVars, 2 * numRead, limit);
  }

  lemma SameNat<T>(f: Field<T>, a: nat, b: nat, limit: nat)
    requires NatsApart(f, limit) && a < limit && b < limit && f.OfNat(a) == f.OfNat(b)
    ensures a == b
  {
  }

  /** Row `i` of a section asks for its address. */
  lemma AnsweredThere<T(!new)>(f: Field<T>, b: Basis<T>, mem: nat -> nat, rows: seq<AceRow<T>>, numRead: nat, ptr: nat,
                               limit: nat, i: nat)
    requires IsField(f) && Served(f, b, mem, rows, limit) && i < |rows| && rows[0].ptr == f.OfNat(ptr)
    requires numRead < |rows| && Shaped(f, rows, numRead, |rows| - numRead) && ptr + OffsetAt(numRead, i) < ADDRESSES
    ensures AnsweredAt(f, b, mem, rows[i], ptr + OffsetAt(numRead, i))
  {
    hide IsField, Evaluates, AnsweredAt;
    assert RowAt(f, rows, numRead, |rows| - numRead, i);
    OfNatSum(f, ptr, OffsetAt(numRead, i));
    assert Answered(f, b, mem, rows[i]);
  }

  /** A READ row holds two variables. */
  lemma TwoVariables<T(!new)>(f: Field<T>, b: Basis<T>, mem: nat -> nat, rows: seq<AceRow<T>>, numRead: nat, ptr: nat,
                              limit: nat, i: nat)
    requires IsField(f) && Served(f, b, mem, rows, limit) && |rows| > 0 && rows[0].ptr == f.OfNat(ptr)
    requires numRead < |rows| && Shaped(f, rows, numRead, |rows| - numRead) && i < numRead
    requires Addressable(ptr, 2 * numRead, |rows| - numRead)
    ensures rows[i].v0 == b.join(mem(ptr + 4 * i), mem(ptr + 4 * i + 1))
    ensures rows[i].v1 == b.join(mem(ptr + 4 * i + 2), mem(ptr + 4 * i + 3))
  {
    hide IsField, Evaluates, Served;
    assert RowAt(f, rows, numRead, |rows| - numRead, i);
    AnsweredThere(f, b, mem, rows, numRead, ptr, limit, i);
  }

  lemma LoadedPair<T>(b: Basis<T>, mem: nat -> nat, ptr: nat, n: nat, i: nat)
    requires 2 * i + 1 < n
    ensures var vars, at := Loaded(b, From(mem, ptr), n), ptr + 4 * i;
            && vars[2 * i] == b.join(mem(at), mem(at + 1))
            && vars[2 * i + 1] == b.join(mem(at + 2), mem(at + 3))
  {
  }

  lemma SentPair<T>(rows: seq<AceRow<T>>, numRead: nat, i: nat)
    requires i < numRead <= |rows|
    ensures Sent(rows, numRead)[2 * i] == rows[i].v0 && Sent(rows, numRead)[2 * i + 1] == rows[i].v1
  {
  }

  lemma Variables<T(!new)>(f: Field<T>, b: Basis<T>, mem: nat -> nat, rows: seq<AceRow<T>>, numRead: nat, ptr: nat,
                           limit: nat)
    requires IsField(f) && Served(f, b, mem, rows, limit) && |rows| > 0 && rows[0].ptr == f.OfNat(ptr)
    requires numRead < |rows| && Shaped(f, rows, numRead, |rows| - numRead)
    requires Addressable(ptr, 2 * numRead, |rows| - numRead)
    ensures Sent(rows, numRead)[..2 * numRead] == Loaded(b, From(mem, ptr), 2 * numRead)
  {
    hide IsField, Shaped, Served, Sent, Loaded, From;
    forall k | 0 <= k < 2 * numRead ensures Sent(rows, numRead)[k] == Loaded(b, From(mem, ptr), 2 * numRead)[k] {
      var i := k / 2;
      TwoVariables(f, b, mem, rows, numRead, ptr, limit, i);
      LoadedPair(b, mem, ptr, 2 * numRead, i);
      SentPair(rows, numRead, i);
      assert k == 2 * i || k == 2 * i + 1;
    }
  }

  /** The operands of an EVAL row are wires of the section. */
  ghost predicate Operands<T>(f: Field<T>, rows: seq<AceRow<T>>, numRead: nat, i: int, k: int, k': int)
    requires numRead <= |rows|
  {
    && 0 <= i < |rows|
    && IsWire(f, rows, numRead, k, rows[i].id1, rows[i].v1) && IsWire(f, rows, numRead, k', rows[i].id2, rows[i].v2)
  }

  ghost predicate Wired<T>(f: Field<T>, rows: seq<AceRow<T>>, numRead: nat) {
    && numRead <= |rows|
    && forall i :: numRead <= i < |rows| ==> WiredAt(f, rows, numRead, i)
  }

  ghost predicate WiredAt<T>(f: Field<T>, rows: seq<AceRow<T>>, numRead: nat, i: int)
    requires numRead <= |rows|
  {
    exists k, k' :: Operands(f, rows, numRead, i, k, k')
  }

  /** The instruction in memory names the wires that the row reads and applies the row's operator. */
  lemma InstructionNames<T(!new)>(f: Field<T>, b: Basis<T>, mem: nat -> nat, rows: seq<AceRow<T>>, numRead: nat,
                                  ptr: nat,
                                  limit: nat, i: nat, k: nat, k': nat) returns (op: Operator)
    requires IsField(f) && NatsApart(f, limit) && 3 * ID2_OFFSET <= limit
    requires Served(f, b, mem, rows, limit) && numRead <= i < |rows| && rows[0].ptr == f.OfNat(ptr)
    requires Shaped(f, rows, numRead, |rows| - numRead) && Addressable(ptr, 2 * numRead, |rows| - numRead)
    requires |rows| + numRead <= ID1_OFFSET && Operands(f, rows, numRead, i, k, k')
    ensures var n := |rows| + numRead;
            DecodeInstruction(mem(ptr + 4 * numRead + (i - numRead))) == Instruction(n - 1 - k, n - 1 - k', op)
    ensures rows[i].v0 == Apply(f, op, rows[i].v1, rows[i].v2)
  {
    hide IsField, NatsApart, Word, OpColumn, Apply, DecodeInstruction, Sent, Operands;
    OperandsIds(f, rows, numRead, i, k, k');
    var n := |rows| + numRead;
    ZeroNotOne(f);
    assert RowAt(f, rows, numRead, |rows| - numRead, i);
    AnsweredThere(f, b, mem, rows, numRead, ptr, limit, i);
    op :| rows[i].op == OpColumn(f, op) && rows[i].v0 == Apply(f, op, rows[i].v1, rows[i].v2);
    WordDecodes(f, mem(ptr + 4 * numRead + (i - numRead)), n - 1 - k, n - 1 - k', op, limit);
  }

  lemma OperandsIds<T>(f: Field<T>, rows: seq<AceRow<T>>, numRead: nat, i: int, k: int, k': int)
    requires numRead <= |rows| && Operands(f, rows, numRead, i, k, k')
    ensures 0 <= i < |rows| && 0 <= k < |rows| + numRead && 0 <= k' < |rows| + numRead
    ensures rows[i].id1 == f.OfNat(|rows| + numRead - 1 - k) && rows[i].id2 == f.OfNat(|rows| + numRead - 1 - k')
    ensures rows[i].v1 == Sent(rows, numRead)[k] && rows[i].v2 == Sent(rows, numRead)[k']
  {
  }

  lemma InstructionRuns<T(!new)>(f: Field<T>, b: Basis<T>, mem: nat -> nat, rows: seq<AceRow<T>>, numRead: nat,
                                 ptr: nat,
                                 limit: nat, j: nat, k: nat, k': nat)
    requires IsField(f) && NatsApart(f, limit) && 3 * ID2_OFFSET <= limit
    requires Served(f, b, mem, rows, limit) && numRead + j < |rows| && rows[0].ptr == f.OfNat(ptr)
    requires Shaped(f, rows, numRead, |rows| - numRead) && Addressable(ptr, 2 * numRead, |rows| - numRead)
    requires |rows| + numRead <= ID1_OFFSET && Operands(f, rows, numRead, numRead + j, k, k')
    ensures GateAt(f, Sent(rows, numRead), 2 * numRead, Program(From(mem, ptr), 4 * numRead, |rows| - numRead), j)
  {
    hide IsField, NatsApart, Apply, DecodeInstruction, Operands, Shaped, Served, Sent, From, Program, Addressable;
    var i := numRead + j;
    var program := Program(From(mem, ptr), 4 * numRead, |rows| - numRead);
    OperandsIds(f, rows, numRead, i, k, k');
    var op := InstructionNames(f, b, mem, rows, numRead, ptr, limit, i, k, k');
    EvalWire(rows, numRead, j);
    SeenFrom(mem, ptr, 4 * numRead + j);
    assert program[j] == DecodeInstruction(mem(ptr + 4 * numRead + j));
  }

  lemma EvalWire<T>(rows: seq<AceRow<T>>, numRead: nat, j: nat)
    requires numRead + j < |rows|
    ensures Sent(rows, numRead)[2 * numRead + j] == rows[numRead + j].v0
  {
  }

  lemma SeenFrom(mem: nat -> nat, ptr: nat, a: nat)
    ensures From(mem, ptr)(a) == mem(ptr + a)
  {
  }

  /** If the section's wires are wired up and memory answers, the program in memory runs to zero, if it runs. */
  lemma WiredRunsToZero<T(!new)>(f: Field<T>, b: Basis<T>, mem: nat -> nat, rows: seq<AceRow<T>>, numRead: nat,
                                 ptr: nat,
                                 limit: nat)
    requires IsField(f) && NatsApart(f, limit) && 3 * ID2_OFFSET <= limit
    requires Served(f, b, mem, rows, limit) && numRead < |rows| && rows[0].ptr == f.OfNat(ptr) && Bounded(f, rows)
    requires Shaped(f, rows, numRead, |rows| - numRead) && Addressable(ptr, 2 * numRead, |rows| - numRead)
    requires |rows| + numRead <= ID1_OFFSET && Wired(f, rows, numRead)
    requires var numVars, numOps := 2 * numRead, |rows| - numRead;
             Run(f, Loaded(b, From(mem, ptr), numVars), Program(From(mem, ptr), 2 * numVars, numOps), numOps).Some?
    ensures RunsToZero(f, b, From(mem, ptr), 2 * numRead, |rows| - numRead)
  {
    hide IsField, NatsApart, Served, Shaped, Loaded, Program, Run, From, Operands, GateAt;
    var numVars, numOps := 2 * numRead, |rows| - numRead;
    var wires, program := Sent(rows, numRead), Program(From(mem, ptr), 2 * numVars, numOps);
    Variables(f, b, mem, rows, numRead, ptr, limit);
    forall j | 0 <= j < numOps ensures GateAt(f, wires, numVars, program, j) {
      var i := numRead + j;
      assert WiredAt(f, rows, numRead, i);
      var k, k' :| Operands(f, rows, numRead, i, k, k');
      OperandsIds(f, rows, numRead, i, k, k');
      InstructionRuns(f, b, mem, rows, numRead, ptr, limit, j, k, k');
    }
    RunIsUnique(f, wires, numVars, program, numOps);
    assert wires[..numVars + numOps] == wires;
  }

  /** A section of the trace. */
  ghost predicate SectionOf<T>(f: Field<T>, rows: seq<AceRow<T>>, p: nat, q: nat) {
    && p < q <= |rows| && rows[p].start == f.one && (q == |rows| || rows[q].start == f.one)
    && forall i :: p < i < q ==> rows[i].start != f.one
  }

  lemma SectionIsOne<T(!new)>(f: Field<T>, rows: seq<AceRow<T>>, p: nat, q: nat)
    requires IsField(f) && AceAir.Constrained(f, rows) && SectionOf(f, rows, p, q)
    ensures OneSection(f, rows[p..q])
  {
    hide IsField, RowMeans, StepMeans, AceAir.Constrained;
    ConstrainedMeets(f, rows);
    SectionSteps(f, rows, p, q);
    forall i | p < i < q ensures rows[i].start == f.zero { EitherBit(f, rows[i]); }
    if q < |rows| { EndsThere(f, rows[q - 1], rows[q]); }
  }

  lemma SectionSteps<T(!new)>(f: Field<T>, rows: seq<AceRow<T>>, p: nat, q: nat)
    requires Meets(f, rows) && p < q <= |rows|
    ensures forall i :: 0 <= i < q - p ==> RowMeans(f, rows[p..q][i])
    ensures forall i :: 0 <= i < q - p - 1 ==> StepMeans(f, rows[p..q][i], rows[p..q][i + 1])
  {
    hide RowMeans, StepMeans;
    var section := rows[p..q];
    forall i | 0 <= i < q - p ensures RowMeans(f, section[i]) { assert RowMeans(f, rows[p + i]); }
    forall i | 0 <= i < q - p - 1 ensures StepMeans(f, section[i], section[i + 1]) {
      assert StepMeans(f, rows[p + i], rows[p + i + 1]);
    }
  }

  lemma EndsThere<T(!new)>(f: Field<T>, r: AceRow<T>, s: AceRow<T>)
    requires StepMeans(f, r, s) && s.start == f.one
    ensures Ended(f, r)
  {
  }

  /** Balanced wires are wired up: every operand in the section is one of the section's wires. */
  lemma BalancedIsWired<T(!new)>(f: Field<T>, coords: T -> (T, T), rows: seq<AceRow<T>>, p: nat, q: nat, numRead: nat,
                                 cs: seq<Claim<T>>, limit: nat)
    requires IsField(f) && Separates(coords) && p < q <= |rows| && Alone(rows, p, q) && numRead < q - p
    requires Shaped(f, rows[p..q], numRead, q - p - numRead) && Carries(f, coords, rows, cs)
    requires Balanced(f, cs) && NatsApart(f, limit) && |cs| < limit
    ensures Wired(f, rows[p..q], numRead)
  {
    hide IsField, Separates, Balanced, NatsApart, Carries, Alone, IsWire, WireIn;
    var section := rows[p..q];
    forall i | numRead <= i < |section| ensures WiredAt(f, section, numRead, i) {
      var r := rows[p + i];
      assert r == section[i];
      EvalReads(f, coords, section, numRead, i);
      var k := OperandIsWire(f, coords, rows, p, q, numRead, cs, limit, i, r.id1, r.v1);
      var k' := OperandIsWire(f, coords, rows, p, q, numRead, cs, limit, i, r.id2, r.v2);
      assert Operands(f, section, numRead, i, k, k');
    }
  }

  lemma EvalReads<T(!new)>(f: Field<T>, coords: T -> (T, T), rows: seq<AceRow<T>>, numRead: nat, i: nat)
    requires IsField(f) && numRead <= i < |rows| && Shaped(f, rows, numRead, |rows| - numRead)
    ensures var r := rows[i];
            && Reads(WireIn(f, coords, r, r.id1, r.v1)) in ClaimsOf(f, coords, r)
            && Reads(WireIn(f, coords, r, r.id2, r.v2)) in ClaimsOf(f, coords, r)
  {
    hide WireIn, Evaluates;
    ZeroNotOne(f);
    assert RowAt(f, rows, numRead, |rows| - numRead, i);
  }

  // The main results

  /** Every field the chiplet is used over: the naturals below the limit differ, an instruction word is one of them, and
      elements are determined by their coordinates. */
  ghost predicate Suitable<T(!new)>(f: Field<T>, coords: T -> (T, T), limit: nat) {
    IsField(f) && Separates(coords) && NatsApart(f, limit) && 3 * ID2_OFFSET <= limit
  }

  /** The trace has a section for the circuit of these sizes at `ptr`: the rows meet the constraints, the section's
      first row answers the request, memory answers the section's rows, and no other row has its context and clock
      cycle. */
  ghost predicate HasSection<T>(f: Field<T>, b: Basis<T>, rows: seq<AceRow<T>>, p: nat, q: nat, mem: nat -> nat,
                                ptr: nat,
                                numVars: nat, numOps: nat, limit: nat) {
    && AceAir.Constrained(f, rows) && SectionOf(f, rows, p, q) && Alone(rows, p, q) && 2 * |rows| < limit
    && Requested(f, rows[p], ptr, numVars, numOps) && Served(f, b, mem, rows[p..q], limit)
    && Addressable(ptr, numVars, numOps) && numVars + numOps <= MAX_NODE_ID
  }

  /** Soundness of the chiplet: a section that meets the constraints, with balanced wires, shows that the program in
      memory runs to zero, if it runs. */
  lemma SectionRunsToZero<T(!new)>(f: Field<T>, b: Basis<T>, coords: T -> (T, T), rows: seq<AceRow<T>>, p: nat, q: nat,
                                   mem: nat -> nat, ptr: nat, numVars: nat, numOps: nat, cs: seq<Claim<T>>, limit: nat)
    requires Suitable(f, coords, limit) && HasSection(f, b, rows, p, q, mem, ptr, numVars, numOps, limit)
    requires Carries(f, coords, rows, cs) && |cs| < limit && Balanced(f, cs)
    requires Run(f, Loaded(b, From(mem, ptr), numVars), Program(From(mem, ptr), 2 * numVars, numOps), numOps).Some?
    ensures RunsToZero(f, b, From(mem, ptr), numVars, numOps)
  {
    hide IsField, Separates, NatsApart, Served, Alone, Carries, Balanced, Run, Loaded, Program, From, RunsToZero,
         AceAir.Constrained, Shaped, OneSection, Wired, Bounded, Addressable;
    SectionIsOne(f, rows, p, q);
    var section := rows[p..q];
    assert section[0] == rows[p];
    var numRead := SectionShape(f, section);
    RequestedSizes(f, section, numRead, ptr, numVars, numOps, limit);
    BalancedIsWired(f, coords, rows, p, q, numRead, cs, limit);
    WiredRunsToZero(f, b, mem, section, numRead, ptr, limit);
  }

  /** The encoded circuit and its inputs are in memory at `ptr`. */
  ghost predicate InMemory<T(!new)>(b: Basis<T>, c: AceCircuit<T>, s: Sizes, enc: Encoded, mem: nat -> nat, ptr: nat,
                                    inputs: seq<T>) {
    && IsBasis(b) && c.Valid() && Sized(c, s) && IsEncodingOf(b, c, s, enc) && |inputs| == s.inputs && |c.gates| > 0
    && MemoryHolds(b, From(mem, ptr), inputs, enc.instructions)
  }

  /** A circuit in memory whose last gate is not zero on its inputs. */
  ghost predicate FalseInMemory<T(!new)>(f: Field<T>, b: Basis<T>, c: AceCircuit<T>, s: Sizes, enc: Encoded,
                                         mem: nat -> nat, ptr: nat, inputs: seq<T>) {
    InMemory(b, c, s, enc, mem, ptr, inputs) && LastGate(f, c, inputs) != f.zero
  }

  lemma EncodedRuns<T(!new)>(f: Field<T>, b: Basis<T>, c: AceCircuit<T>, s: Sizes, enc: Encoded, mem: nat -> nat,
                             ptr: nat,
                             inputs: seq<T>)
    requires InMemory(b, c, s, enc, mem, ptr, inputs)
    ensures Run(f, Loaded(b, From(mem, ptr), enc.numVars), Program(From(mem, ptr), 2 * enc.numVars, enc.numOps),
                enc.numOps).Some?
  {
    hide Run, Loaded, Program, From, Staged, MemoryHolds, IsBasis;
    EncodingStages(b, c, s, enc, From(mem, ptr), inputs);
    StagedRun(f, b, c, s, From(mem, ptr), inputs);
  }

  /** Soundness for encoded circuits: with balanced wires, the last gate of the circuit in memory is zero. */
  lemma BalancedCircuitIsZero<T(!new)>(f: Field<T>, b: Basis<T>, coords: T -> (T, T), c: AceCircuit<T>, s: Sizes,
                                       enc: Encoded, rows: seq<AceRow<T>>, p: nat, q: nat, mem: nat -> nat, ptr: nat,
                                       inputs: seq<T>, cs: seq<Claim<T>>, limit: nat)
    requires Suitable(f, coords, limit) && HasSection(f, b, rows, p, q, mem, ptr, enc.numVars, enc.numOps, limit)
    requires Carries(f, coords, rows, cs) && |cs| < limit && Balanced(f, cs)
    requires InMemory(b, c, s, enc, mem, ptr, inputs)
    ensures LastGate(f, c, inputs) == f.zero
  {
    hide Run, Loaded, Program, From, MemoryHolds, HasSection, Carries, Balanced, RunsToZero, IsField, IsBasis;
    EncodedRuns(f, b, c, s, enc, mem, ptr, inputs);
    SectionRunsToZero(f, b, coords, rows, p, q, mem, ptr, enc.numVars, enc.numOps, cs, limit);
    LastGateDecides(f, b, c, s, enc, From(mem, ptr), inputs);
  }

  /** Soundness against the verifier's sum check: a trace with a section for a circuit whose last gate is not zero
      passes for at most `16 N |alphas| + 2 N |betas|` pairs of challenges, with `N` the number of claims on both LogUp
      columns, whatever columns are committed. */
  lemma FalseCircuitRarelyPasses<T(!new)>(f: Field<T>, b: Basis<T>, coords: T -> (T, T), c: AceCircuit<T>, s: Sizes,
                                          enc: Encoded, rows: seq<AceRow<T>>, p: nat, q: nat, mem: nat -> nat, ptr: nat,
                                          inputs: seq<T>, range: seq<seq<Claim<T>>>, wiring: seq<seq<Claim<T>>>,
                                          limit: nat, alphas: set<T>, betas: set<T>, passing: set<(T, T)>)
    requires Suitable(f, coords, limit) && HasSection(f, b, rows, p, q, mem, ptr, enc.numVars, enc.numOps, limit)
    requires var cs := S.BothColumns(range, wiring);
             Carries(f, coords, rows, cs) && |cs| < limit && FullWidth(Messages(cs))
    requires C.BusesDistinct(f) && FalseInMemory(f, b, c, s, enc, mem, ptr, inputs)
    requires forall x :: x in passing ==> x.0 in alphas && x.1 in betas && S.SumAccepted(f, x.0, x.1, range, wiring)
    ensures var n := |S.BothColumns(range, wiring)|;
            |passing| <= C.MAX_MESSAGE_WIDTH * n * |alphas| + 2 * n * |betas|
  {
    hide HasSection, Carries, InMemory, S.BothColumns, FullWidth, C.BusesDistinct, S.SumAccepted, Full, IsField;
    var cs := S.BothColumns(range, wiring);
    if Balanced(f, cs) {
      BalancedCircuitIsZero(f, b, coords, c, s, enc, rows, p, q, mem, ptr, inputs, cs, limit);
      assert false;
    }
    var m :| Full(m) && f.OfNat(SentTimes(cs, m)) != f.OfNat(ReadTimes(cs, m));
    S.UnbalancedSumRarelyPasses(f, range, wiring, m, alphas, betas, passing);
  }
}
