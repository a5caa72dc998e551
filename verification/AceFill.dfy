/** The rows the chiplet fills for an accepted circuit meet its constraints and are answered by memory
    (miden-vm/processor/src/trace/chiplets/ace/trace.rs). */
module AceFill {
  import opened Common
  import opened Fields
  import opened Circuit
  import opened Encoding
  import opened AceChiplet
  import opened Wiring
  import opened WiringSoundness
  import opened Claims
  import opened AceAir
  import opened AceShape
  import opened AceSoundness

  /** What an evaluation hands over to the trace: the wires it recorded, its operators and its addresses. */
  datatype Evaluation<T> = Evaluation(section: Section<T>, colOp: seq<T>, colPtr: seq<nat>) {
    predicate Sized() {
      && section.Sized() && section.numReadRows > 0 && section.numEvalRows > 0
      && |colOp| == section.numEvalRows && |colPtr| == section.Rows()
    }
  }

  ghost function HandedOver<T>(ev: CircuitEvaluation<T>): Evaluation<T>
    reads ev
  {
    Evaluation(Section(ev.numReadRows, ev.numEvalRows, ev.Rec()), ev.colOp, ev.colPtr)
  }

  function ReadRowOf<T>(f: Field<T>, ctx: T, clk: T, start: T, ptr: nat, out: Entry<T>, left: Entry<T>, numEval: T,
                        m0: nat, m1: nat): AceRow<T>
  {
    AceRow(start, f.zero, ctx, clk, f.OfNat(ptr), f.zero, f.OfNat(out.id), out.value, f.OfNat(left.id), left.value,
           f.zero, f.zero, numEval, m0, m1)
  }

  function EvalRowOf<T>(f: Field<T>, ctx: T, clk: T, ptr: nat, op: T, out: Entry<T>, left: Entry<T>, right: Entry<T>,
                        m0: nat): AceRow<T>
  {
    AceRow(f.zero, f.one, ctx, clk, f.OfNat(ptr), op, f.OfNat(out.id), out.value, f.OfNat(left.id), left.value,
           f.OfNat(right.id), right.value, f.zero, m0, 0)
  }

  ghost function RowOf<T>(f: Field<T>, ctx: T, clk: T, e: Evaluation<T>, i: nat): AceRow<T>
    requires e.Sized() && i < e.section.Rows()
  {
    var rec, numRead := e.section.rec, e.section.numReadRows;
    if i < numRead then
      ReadRowOf(f, ctx, clk, if i == 0 then f.one else f.zero, e.colPtr[i], rec.colOut[i], rec.colLeft[i],
                f.OfNat(e.section.numEvalRows - 1), rec.multiplicities[2 * i], rec.multiplicities[2 * i + 1])
    else
      EvalRowOf(f, ctx, clk, e.colPtr[i], e.colOp[i - numRead], rec.colOut[i], rec.colLeft[i],
                rec.colRight[i - numRead], rec.multiplicities[numRead + i])
  }

  ghost predicate Filled<T>(f: Field<T>, ctx: T, clk: T, e: Evaluation<T>, rows: seq<AceRow<T>>, n: nat) {
    && e.Sized() && |rows| == n <= e.section.Rows()
    && forall i :: 0 <= i < n ==> rows[i] == RowOf(f, ctx, clk, e, i)
  }

  /** Fills the READ rows, taking two multiplicities each, then the EVAL rows, taking one. */
  method Fill<T>(f: Field<T>, ctx: T, clk: T, ev: CircuitEvaluation<T>) returns (rows: seq<AceRow<T>>)
    requires HandedOver(ev).Sized()
    ensures Filled(f, ctx, clk, HandedOver(ev), rows, ev.numReadRows + ev.numEvalRows)
  {
    hide ReadRowOf, EvalRowOf;
    rows := [];
    var next := 0;
    for i := 0 to ev.numReadRows
      invariant next == 2 * i && Filled(f, ctx, clk, HandedOver(ev), rows, i)
    {
      rows := rows + [ReadRowOf(f, ctx, clk, if i == 0 then f.one else f.zero, ev.colPtr[i], ev.colOut[i], ev.colLeft[i],
                                f.OfNat(ev.numEvalRows - 1), ev.multiplicities[next], ev.multiplicities[next + 1])];
      next := next + 2;
    }
    for j := 0 to ev.numEvalRows
      invariant next == 2 * ev.numReadRows + j && Filled(f, ctx, clk, HandedOver(ev), rows, ev.numReadRows + j)
    {
      var i := ev.numReadRows + j;
      rows := rows + [EvalRowOf(f, ctx, clk, ev.colPtr[i], ev.colOp[j], ev.colOut[i], ev.colLeft[i], ev.colRight[j],
                                ev.multiplicities[next])];
      next := next + 1;
    }
  }

  // Runs satisfy their gates

  lemma {:induction false} RunExtends<T>(f: Field<T>, vars: seq<T>, program: seq<Decoded>, j: nat, k: nat)
    requires j <= k <= |program| && Run(f, vars, program, k).Some?
    ensures Run(f, vars, program, j).Some? && Run(f, vars, program, j).value <= Run(f, vars, program, k).value
  {
    if j < k { RunExtends(f, vars, program, j, k - 1); }
  }

  /** Every wire of a run is what its instruction computes. */
  lemma RunSatisfies<T>(f: Field<T>, vars: seq<T>, program: seq<Decoded>, j: nat)
    requires j < |program| && Run(f, vars, program, |program|).Some?
    ensures GateAt(f, Run(f, vars, program, |program|).value, |vars|, program, j)
  {
    hide Apply;
    RunExtends(f, vars, program, j, |program|);
    RunExtends(f, vars, program, j + 1, |program|);
    assert Run(f, vars, program, j + 1) == Executed(f, |vars| + |program|, program[j], Run(f, vars, program, j).value);
  }

  // Completeness

  /** An accepted evaluation: what running the circuit at `ptr` leaves behind. */
  ghost predicate AcceptedEvaluation<T>(f: Field<T>, b: Basis<T>, mem: nat -> nat, ptr: nat, numVars: nat, numEval: nat,
                                        e: Evaluation<T>) {
    var program := Program(mem, ptr + 2 * numVars, numEval);
    && SizesAccepted(numVars, numEval) && Addressable(ptr, numVars, numEval)
    && e.section.numReadRows == numVars / 2 && e.section.numEvalRows == numEval && e.section.Complete() && e.Sized()
    && e.colPtr == ReadPtrs(ptr, numVars / 2) + EvalPtrs(ptr + 2 * numVars, numEval)
    && Ran(f, numVars + numEval, program, e.colOp, e.section.rec.used, numEval)
    && Run(f, Loaded(b, From(mem, ptr), numVars), program, numEval) == Some(e.section.rec.values)
    && e.section.rec.values[numVars + numEval - 1] == f.zero
  }

  lemma RanSizes<T>(f: Field<T>, numWires: nat, program: seq<Decoded>, colOp: seq<T>, used: seq<nat>, n: nat)
    requires Ran(f, numWires, program, colOp, used, n)
    ensures |colOp| == n && |used| == 2 * n
  {
  }

  lemma PtrOf<T(!new)>(f: Field<T>, mem: nat -> nat, b: Basis<T>, ptr: nat, numVars: nat, numEval: nat,
                       e: Evaluation<T>,
                       i: nat)
    requires AcceptedEvaluation(f, b, mem, ptr, numVars, numEval, e) && i < e.section.Rows()
    ensures e.colPtr[i] == ptr + OffsetAt(e.section.numReadRows, i)
  {
    hide Ran, Run, Loaded, Program;
  }

  /** What an EVAL row records: the wires its instruction names, its operator and the value it computes. */
  ghost predicate RecordsGate<T>(f: Field<T>, e: Evaluation<T>, j: nat, d: Decoded) {
    && e.Sized() && j < e.section.numEvalRows && d.Instruction?
    && var numRead, rec := e.section.numReadRows, e.section.rec;
    && rec.colOut[numRead + j].id == e.section.numEvalRows - 1 - j
    && rec.colLeft[numRead + j].id == d.l && rec.colRight[j].id == d.r && e.colOp[j] == OpColumn(f, d.op)
    && rec.colOut[numRead + j].value == Apply(f, d.op, rec.colLeft[numRead + j].value, rec.colRight[j].value)
  }

  lemma GateIsRecorded<T(!new)>(f: Field<T>, b: Basis<T>, mem: nat -> nat, ptr: nat, numVars: nat, numEval: nat,
                                e: Evaluation<T>, j: nat)
    requires AcceptedEvaluation(f, b, mem, ptr, numVars, numEval, e) && j < numEval
    ensures RecordsGate(f, e, j, DecodeInstruction(mem(ptr + 2 * numVars + j)))
  {
    hide Run, Loaded, Apply, OpColumn, DecodeInstruction, Counts;
    var program, rec := Program(mem, ptr + 2 * numVars, numEval), e.section.rec;
    RunSatisfies(f, Loaded(b, From(mem, ptr), numVars), program, j);
    assert RanAt(f, numVars + numEval, program, e.colOp, rec.used, j);
    assert EvalRow(numVars / 2, numVars + numEval, rec, j);
  }

  lemma ReadIsRecorded<T(!new)>(f: Field<T>, b: Basis<T>, mem: nat -> nat, ptr: nat, numVars: nat, numEval: nat,
                                e: Evaluation<T>, i: nat)
    requires AcceptedEvaluation(f, b, mem, ptr, numVars, numEval, e) && i < numVars / 2
    ensures var vars, rec := Loaded(b, From(mem, ptr), numVars), e.section.rec;
            && rec.colOut[i] == Entry(numVars + numEval - 1 - 2 * i, vars[2 * i])
            && rec.colLeft[i] == Entry(numVars + numEval - 2 - 2 * i, vars[2 * i + 1])
  {
    hide Run, Loaded, Program, Counts, Ran;
    var vars, program, rec := Loaded(b, From(mem, ptr), numVars), Program(mem, ptr + 2 * numVars,
                                     numEval), e.section.rec;
    RunExtends(f, vars, program, 0, numEval);
    RunStart(f, vars, program);
    assert ReadRow(numVars + numEval, rec, i);
  }

  lemma FilledRead<T(!new)>(f: Field<T>, b: Basis<T>, mem: nat -> nat, ptr: nat, numVars: nat, numEval: nat,
                            e: Evaluation<T>, ctx: T, clk: T, rows: seq<AceRow<T>>, i: nat)
    requires IsField(f) && AcceptedEvaluation(f, b, mem, ptr, numVars, numEval, e) && i < numVars / 2
    requires Filled(f, ctx, clk, e, rows, numVars / 2 + numEval)
    ensures RowAt(f, rows, numVars / 2, numEval, i) && AnsweredAt(f, b, mem, rows[i], ptr + OffsetAt(numVars / 2, i))
    ensures rows[i].ptr == f.OfNat(ptr + OffsetAt(numVars / 2, i))
  {
    hide IsField, AcceptedEvaluation, Loaded, AnsweredAt, RowAt, Filled, RowOf;
    AcceptedSizes(f, b, mem, ptr, numVars, numEval, e);
    LoadedPair(b, mem, ptr, numVars, i);
    ReadIsRecorded(f, b, mem, ptr, numVars, numEval, e, i);
    PtrOf(f, mem, b, ptr, numVars, numEval, e, i);
    PtrOf(f, mem, b, ptr, numVars, numEval, e, 0);
    ReadMeets(f, ptr, numVars / 2, numEval, e, ctx, clk, rows, i);
    ReadColumns(f, ctx, clk, e, rows, i);
    AsksForWord(f, b, mem, rows[i], ptr + 4 * i);
  }

  lemma ReadMeets<T(!new)>(f: Field<T>, ptr: nat, numRead: nat, numEval: nat, e: Evaluation<T>, ctx: T, clk: T,
                           rows: seq<AceRow<T>>, i: nat)
    requires IsField(f) && Filled(f, ctx, clk, e, rows, numRead + numEval) && i < numRead && numEval > 0
    requires e.section.numReadRows == numRead && e.section.numEvalRows == numEval
    requires e.colPtr[i] == ptr + 4 * i && e.colPtr[0] == ptr
    requires e.section.rec.colOut[i].id == IdAt(numRead, numEval, i)
    requires e.section.rec.colLeft[i].id == IdAt(numRead, numEval, i) - 1
    ensures RowAt(f, rows, numRead, numEval, i)
  {
    hide IsField, Filled, IdAt;
    ReadColumns(f, ctx, clk, e, rows, i);
    OfNatSum(f, ptr, 4 * i);
  }

  lemma AsksForWord<T(!new)>(f: Field<T>, b: Basis<T>, mem: nat -> nat, r: AceRow<T>, addr: nat)
    requires IsField(f) && r.block == f.zero
    requires r.v0 == b.join(mem(addr), mem(addr + 1)) && r.v1 == b.join(mem(addr + 2), mem(addr + 3))
    ensures AnsweredAt(f, b, mem, r, addr)
  {
    hide IsField;
    ZeroNotOne(f);
  }

  /** The columns of a filled READ row. */
  lemma ReadColumns<T(!new)>(f: Field<T>, ctx: T, clk: T, e: Evaluation<T>, rows: seq<AceRow<T>>, i: nat)
    requires Filled(f, ctx, clk, e, rows, e.section.Rows()) && i < e.section.numReadRows
    ensures |rows| == e.section.Rows()
    ensures var rec := e.section.rec;
            && rows[i].block == f.zero && rows[i].ptr == f.OfNat(e.colPtr[i]) && rows[0].ptr == f.OfNat(e.colPtr[0])
            && rows[i].ctx == rows[0].ctx == ctx && rows[i].clk == rows[0].clk == clk
            && rows[i].id0 == f.OfNat(rec.colOut[i].id) && rows[i].v0 == rec.colOut[i].value
            && rows[i].id1 == f.OfNat(rec.colLeft[i].id) && rows[i].v1 == rec.colLeft[i].value
            && rows[i].numEval == f.OfNat(e.section.numEvalRows - 1)
  {
    assert rows[i] == RowOf(f, ctx, clk, e, i) && rows[0] == RowOf(f, ctx, clk, e, 0);
  }

  lemma AcceptedSizes<T(!new)>(f: Field<T>, b: Basis<T>, mem: nat -> nat, ptr: nat, numVars: nat, numEval: nat,
                               e: Evaluation<T>)
    requires AcceptedEvaluation(f, b, mem, ptr, numVars, numEval, e)
    ensures numVars > 0 && numVars % 2 == 0 && numEval > 0 && e.Sized() && ptr + 2 * numVars + numEval <= ADDRESSES
    ensures e.section.numReadRows == numVars / 2 && e.section.numEvalRows == numEval
  {
    hide Run, Loaded, Program, Ran, Recorded;
  }

  lemma FilledEval<T(!new)>(f: Field<T>, b: Basis<T>, mem: nat -> nat, ptr: nat, numVars: nat, numEval: nat,
                            e: Evaluation<T>, ctx: T, clk: T, rows: seq<AceRow<T>>, i: nat)
    requires IsField(f) && AcceptedEvaluation(f, b, mem, ptr, numVars, numEval, e)
             && numVars / 2 <= i < numVars / 2 + numEval
    requires Filled(f, ctx, clk, e, rows, numVars / 2 + numEval)
    ensures RowAt(f, rows, numVars / 2, numEval, i) && AnsweredAt(f, b, mem, rows[i], ptr + OffsetAt(numVars / 2, i))
    ensures rows[i].ptr == f.OfNat(ptr + OffsetAt(numVars / 2, i))
  {
    hide IsField, AcceptedEvaluation, DecodeInstruction, AnsweredAt, RowAt, Filled, RowOf, RecordsGate;
    AcceptedSizes(f, b, mem, ptr, numVars, numEval, e);
    var j := i - numVars / 2;
    GateIsRecorded(f, b, mem, ptr, numVars, numEval, e, j);
    PtrOf(f, mem, b, ptr, numVars, numEval, e, i);
    PtrOf(f, mem, b, ptr, numVars, numEval, e, 0);
    var numRead := numVars / 2;
    assert ptr + 2 * numVars + j == ptr + 4 * numRead + j;
    EvalMeets(f, b, mem, ptr, numRead, numEval, e, ctx, clk, rows, j);
  }

  lemma EvalMeets<T(!new)>(f: Field<T>, b: Basis<T>, mem: nat -> nat, ptr: nat, numRead: nat, numEval: nat,
                           e: Evaluation<T>, ctx: T, clk: T, rows: seq<AceRow<T>>, j: nat)
    requires IsField(f) && Filled(f, ctx, clk, e, rows, numRead + numEval) && j < numEval && numRead > 0
    requires e.section.numReadRows == numRead && e.section.numEvalRows == numEval
    requires e.colPtr[numRead + j] == ptr + 4 * numRead + j && e.colPtr[0] == ptr
    requires RecordsGate(f, e, j, DecodeInstruction(mem(ptr + 4 * numRead + j)))
    ensures RowAt(f, rows, numRead, numEval, numRead + j)
    ensures AnsweredAt(f, b, mem, rows[numRead + j], ptr + 4 * numRead + j)
    ensures rows[numRead + j].ptr == f.OfNat(ptr + 4 * numRead + j)
  {
    hide IsField, OpColumn, Apply, DecodeInstruction, AnsweredAt, Evaluates, Filled, RecordsGate;
    var i, d := numRead + j, DecodeInstruction(mem(ptr + 4 * numRead + j));
    EvalColumns(f, ctx, clk, e, rows, j, d);
    AsksForInstruction(f, b, mem, rows[i], ptr + 4 * numRead + j, d);
    OfNatSum(f, ptr, 4 * numRead + j);
  }

  /** The columns of a filled EVAL row. */
  lemma EvalColumns<T(!new)>(f: Field<T>, ctx: T, clk: T, e: Evaluation<T>, rows: seq<AceRow<T>>, j: nat, d: Decoded)
    requires Filled(f, ctx, clk, e, rows, e.section.Rows()) && RecordsGate(f, e, j, d)
    ensures |rows| == e.section.Rows() && e.section.numReadRows + j < |rows| && d.Instruction?
    ensures var i := e.section.numReadRows + j;
            && rows[i].block == f.one && rows[i].ptr == f.OfNat(e.colPtr[i]) && rows[0].ptr == f.OfNat(e.colPtr[0])
            && rows[i].ctx == rows[0].ctx == ctx && rows[i].clk == rows[0].clk == clk
            && rows[i].id0 == f.OfNat(e.section.numEvalRows - 1 - j)
            && rows[i].id1 == f.OfNat(d.l) && rows[i].id2 == f.OfNat(d.r)
            && rows[i].op == OpColumn(f, d.op) && rows[i].v0 == Apply(f, d.op, rows[i].v1, rows[i].v2)
  {
    hide OpColumn, Apply;
    var i := e.section.numReadRows + j;
    assert rows[i] == RowOf(f, ctx, clk, e, i) && rows[0] == RowOf(f, ctx, clk, e, 0);
  }

  lemma AsksForInstruction<T(!new)>(f: Field<T>, b: Basis<T>, mem: nat -> nat, r: AceRow<T>, addr: nat, d: Decoded)
    requires IsField(f) && d.Instruction? && d == DecodeInstruction(mem(addr)) && r.block == f.one
    requires r.id1 == f.OfNat(d.l) && r.id2 == f.OfNat(d.r)
    requires r.op == OpColumn(f, d.op) && r.v0 == Apply(f, d.op, r.v1, r.v2)
    ensures AnsweredAt(f, b, mem, r, addr) && Evaluates(f, r)
  {
    hide IsField, OpColumn, Apply, DecodeInstruction, Word;
    ZeroNotOne(f);
    DecodesAsConstrained(f, mem(addr), d.l, d.r, d.op);
    SignColumn(f, d.op);
  }

  lemma FilledRow<T(!new)>(f: Field<T>, b: Basis<T>, mem: nat -> nat, ptr: nat, numVars: nat, numEval: nat,
                           e: Evaluation<T>, ctx: T, clk: T, rows: seq<AceRow<T>>, i: nat)
    requires IsField(f) && AcceptedEvaluation(f, b, mem, ptr, numVars, numEval, e) && i < numVars / 2 + numEval
    requires Filled(f, ctx, clk, e, rows, numVars / 2 + numEval)
    ensures RowAt(f, rows, numVars / 2, numEval, i) && AnsweredAt(f, b, mem, rows[i], ptr + OffsetAt(numVars / 2, i))
    ensures rows[i].ptr == f.OfNat(ptr + OffsetAt(numVars / 2, i))
  {
    hide IsField, AcceptedEvaluation, Filled, RowAt, AnsweredAt;
    if i < numVars / 2 {
      FilledRead(f, b, mem, ptr, numVars, numEval, e, ctx, clk, rows, i);
    } else {
      FilledEval(f, b, mem, ptr, numVars, numEval, e, ctx, clk, rows, i);
    }
  }

  lemma FilledEnds<T(!new)>(f: Field<T>, b: Basis<T>, mem: nat -> nat, ptr: nat, numVars: nat, numEval: nat,
                            e: Evaluation<T>, ctx: T, clk: T, rows: seq<AceRow<T>>)
    requires AcceptedEvaluation(f, b, mem, ptr, numVars, numEval, e)
    requires Filled(f, ctx, clk, e, rows, numVars / 2 + numEval)
    ensures Bounded(f, rows)
  {
    hide Run, Loaded, Program, Ran, Counts;
    AcceptedSizes(f, b, mem, ptr, numVars, numEval, e);
    assert EvalRow(numVars / 2, numVars + numEval, e.section.rec, numEval - 1);
  }

  /** Completeness of the chiplet: the rows filled for an accepted circuit are a section that meets the constraints,
      answers the request and agrees with memory. */
  lemma FilledMeets<T(!new)>(f: Field<T>, b: Basis<T>, mem: nat -> nat, ptr: nat, numVars: nat, numEval: nat,
                             e: Evaluation<T>, ctx: T, clk: T, rows: seq<AceRow<T>>, limit: nat)
    requires IsField(f) && AcceptedEvaluation(f, b, mem, ptr, numVars, numEval, e)
    requires Filled(f, ctx, clk, e, rows, numVars / 2 + numEval)
    requires NatsApart(f, limit) && ADDRESSES <= limit && forall addr: nat :: mem(addr) < limit
    ensures OneSection(f, rows) && AceAir.Constrained(f, rows)
    ensures Requested(f, rows[0], ptr, numVars, numEval) && Served(f, b, mem, rows, limit)
  {
    hide IsField, AcceptedEvaluation, RowOf, RowAt, AnsweredAt, NatsApart, Bounded, Requested, AceAir.Constrained;
    AcceptedSizes(f, b, mem, ptr, numVars, numEval, e);
    var numRead := numVars / 2;
    forall i | 0 <= i < |rows| ensures RowAt(f, rows, numRead, numEval, i) && Answered(f, b, mem, rows[i]) {
      FilledRow(f, b, mem, ptr, numVars, numEval, e, ctx, clk, rows, i);
      forall addr: nat | addr < ADDRESSES && rows[i].ptr == f.OfNat(addr) ensures AnsweredAt(f, b, mem, rows[i], addr) {
        SameNat(f, addr, ptr + OffsetAt(numRead, i), limit);
      }
    }
    FilledEnds(f, b, mem, ptr, numVars, numEval, e, ctx, clk, rows);
    ShapeSection(f, rows, numRead, numEval);
    TwoRows(f, rows);
    ConstrainedMeets(f, rows);
    FilledRow(f, b, mem, ptr, numVars, numEval, e, ctx, clk, rows, 0);
    Announces(f, rows, numRead, numEval, ptr);
  }

  lemma Announces<T(!new)>(f: Field<T>, rows: seq<AceRow<T>>, numRead: nat, numEval: nat, ptr: nat)
    requires IsField(f) && numRead > 0 && RowAt(f, rows, numRead, numEval, 0) && rows[0].ptr == f.OfNat(ptr)
    ensures Requested(f, rows[0], ptr, 2 * numRead, numEval)
  {
    hide IsField, Evaluates;
    assert f.add(rows[0].numEval, f.one) == f.OfNat(numEval);
    assert f.add(rows[0].id0, f.one) == f.OfNat(2 * numRead + numEval);
    OfNatSum(f, 2 * numRead, numEval);
    SubAddBack(f, f.OfNat(2 * numRead), f.OfNat(numEval));
  }

  // The wiring bus

  /** The filled rows send and read what the recorded section does. */
  lemma FilledClaims<T(!new)>(f: Field<T>, coords: T -> (T, T), ctx: T, clk: T, e: Evaluation<T>, rows: seq<AceRow<T>>,
                              i: nat)
    requires IsField(f) && Filled(f, ctx, clk, e, rows, e.section.Rows()) && i < |rows|
    ensures ClaimsOf(f, coords, rows[i]) == RowClaims(WireMessage(f, clk, ctx, coords), e.section, i)
  {
    hide IsField, WireOf;
    ZeroNotOne(f);
    assert rows[i] == RowOf(f, ctx, clk, e, i);
  }

  /** What the first `n` rows send and read. */
  ghost function TraceClaims<T>(f: Field<T>, coords: T -> (T, T), rows: seq<AceRow<T>>, n: nat): seq<Claim<T>>
    requires n <= |rows|
  {
    if n == 0 then [] else TraceClaims(f, coords, rows, n - 1) + ClaimsOf(f, coords, rows[n - 1])
  }

  lemma {:induction false} FilledTrace<T(!new)>(f: Field<T>, coords: T -> (T, T), ctx: T, clk: T, e: Evaluation<T>,
                                                rows: seq<AceRow<T>>, n: nat)
    requires IsField(f) && Filled(f, ctx, clk, e, rows, e.section.Rows()) && n <= |rows|
    ensures TraceClaims(f, coords, rows, n) == SectionClaims(WireMessage(f, clk, ctx, coords), e.section, n)
  {
    hide IsField, Filled, ClaimsOf, RowClaims, WireMessage;
    if n > 0 {
      FilledTrace(f, coords, ctx, clk, e, rows, n - 1);
      FilledClaims(f, coords, ctx, clk, e, rows, n - 1);
    }
  }

  /** The filled rows add nothing to the wiring column, at any challenges. */
  lemma FilledBalances<T(!new)>(f: Field<T>, coords: T -> (T, T), ctx: T, clk: T, e: Evaluation<T>,
                                rows: seq<AceRow<T>>,
                                alpha: T, beta: T)
    requires IsField(f) && Filled(f, ctx, clk, e, rows, e.section.Rows()) && e.section.Complete()
    ensures ClaimSum(f, alpha, beta, TraceClaims(f, coords, rows, |rows|)) == f.zero
  {
    hide IsField, ClaimSum, RowSum, WireWeight, WireMessage, RowOf, Recorded;
    var wire := WireMessage(f, clk, ctx, coords);
    FilledTrace(f, coords, ctx, clk, e, rows, |rows|);
    SectionSum(f, alpha, beta, wire, e.section, |rows|);
    SectionBalances(f, WireWeight(f, alpha, beta, wire), e.section);
  }

  /** Evaluates the circuit in memory and fills its rows.  It succeeds exactly when the chiplet accepts, and then the
      rows meet every constraint, answer the request, agree with memory and leave the wiring column where it was. */
  method EvaluateAndFill<T(==,!new)>(f: Field<T>, b: Basis<T>, coords: T -> (T, T), mem: nat -> nat, ptr: nat,
                                     numVars: nat,
                                     numEval: nat, ctx: T, clk: T, ghost limit: nat)
    returns (ok: bool, rows: seq<AceRow<T>>)
    requires IsField(f) && NatsApart(f, limit) && ADDRESSES <= limit && forall addr: nat :: mem(addr) < limit
    ensures ok <==> Accepts(f, b, mem, ptr, numVars, numEval)
    ensures ok ==> OneSection(f, rows) && AceAir.Constrained(f, rows)
    ensures ok ==> Requested(f, rows[0], ptr, numVars, numEval) && Served(f, b, mem, rows, limit)
    ensures ok ==> forall alpha, beta :: ClaimSum(f, alpha, beta, TraceClaims(f, coords, rows, |rows|)) == f.zero
  {
    hide IsField, NatsApart, Ran, Run, Loaded, Program, Recorded, RowOf, ClaimSum, Served, Requested, OneSection,
         AceAir.Constrained;
    var ev;
    ok, ev := EvalCircuit(f, b, mem, ptr, numVars, numEval);
    rows := [];
    if ok {
      FinishedIsComplete(ev);
      SameProgram(mem, ptr, numVars, numEval);
      RanSizes(f, numVars + numEval, Program(mem, ptr + 2 * numVars, numEval), ev.colOp, ev.used, numEval);
      rows := Fill(f, ctx, clk, ev);
      ghost var e := HandedOver(ev);
      FilledMeets(f, b, mem, ptr, numVars, numEval, e, ctx, clk, rows, limit);
      forall alpha, beta ensures ClaimSum(f, alpha, beta, TraceClaims(f, coords, rows, |rows|)) == f.zero {
        FilledBalances(f, coords, ctx, clk, e, rows, alpha, beta);
      }
    }
  }
}
