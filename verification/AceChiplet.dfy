/** The arithmetic-circuit-evaluation chiplet: running an encoded circuit from memory
    (miden-vm/processor/src/trace/chiplets/ace/trace.rs and
    miden-vm/processor/src/execution/operations/eval_circuit.rs). */
module AceChiplet {
  import opened Common
  import opened Fields
  import opened Circuit
  import opened Encoding

  /** A wire's id together with its value, as recorded in the trace. */
  datatype Entry<T> = Entry(id: nat, value: T)

  ghost predicate Within(used: seq<nat>, n: nat) {
    forall j :: 0 <= j < |used| ==> used[j] < n
  }

  /** `m[k]` is how often `k` occurs among the reads. */
  ghost predicate Counts(m: seq<nat>, used: seq<nat>) {
    && Within(used, |m|)
    && forall k :: 0 <= k < |m| ==> m[k] == multiset(used)[k]
  }

  /** What an evaluation has recorded: wire values in insertion order, how often each has been read, the
      three wire columns, and the wires read so far by index into `values`. */
  datatype Record<T> = Record(
    values: seq<T>,
    multiplicities: seq<nat>,
    colOut: seq<Entry<T>>,
    colLeft: seq<Entry<T>>,
    colRight: seq<Entry<T>>,
    used: seq<nat>)

  /** Row `i` of the READ section records the two wires it inserts. */
  ghost predicate ReadRow<T>(numWires: nat, rec: Record<T>, i: int) {
    0 <= i < |rec.colOut| - |rec.colRight| && i < |rec.colLeft| && 2 * i + 1 < |rec.values| <= numWires ==>
      && rec.colOut[i] == Entry(numWires - 1 - 2 * i, rec.values[2 * i])
      && rec.colLeft[i] == Entry(numWires - 2 - 2 * i, rec.values[2 * i + 1])
  }

  /** Row `i` of the EVAL section records the wire it inserts and the two wires it reads. */
  ghost predicate EvalRow<T>(numReadRows: nat, numWires: nat, rec: Record<T>, i: int) {
    var row, out := numReadRows + i, 2 * numReadRows + i;
    0 <= i < |rec.colRight| && row < |rec.colOut| == |rec.colLeft| && 2 * i + 1 < |rec.used|
    && out < |rec.values| <= numWires ==>
      var l, r := rec.used[2 * i], rec.used[2 * i + 1];
      && l < |rec.values| && r < |rec.values|
      && rec.colOut[row] == Entry(numWires - 1 - out, rec.values[out])
      && rec.colLeft[row] == Entry(numWires - 1 - l, rec.values[l])
      && rec.colRight[i] == Entry(numWires - 1 - r, rec.values[r])
  }

  /** The columns record every wire inserted and read, and the multiplicities count the reads. */
  ghost predicate Recorded<T>(numReadRows: nat, numEvalRows: nat, rec: Record<T>) {
    var numWires, readRows := 2 * numReadRows + numEvalRows, |rec.colOut| - |rec.colRight|;
    && |rec.multiplicities| == |rec.values|
    && |rec.colOut| == |rec.colLeft| && 0 <= readRows <= numReadRows && |rec.colRight| <= numEvalRows
    && |rec.used| == 2 * |rec.colRight| && |rec.values| == 2 * readRows + |rec.colRight|
    && (rec.colRight != [] ==> readRows == numReadRows)
    && Counts(rec.multiplicities, rec.used)
    && (forall i :: ReadRow(numWires, rec, i))
    && (forall i :: EvalRow(numReadRows, numWires, rec, i))
  }

  function AfterRead<T>(numWires: nat, rec: Record<T>, v0: T, v1: T): Record<T>
    requires |rec.values| + 2 <= numWires
  {
    Record(rec.values + [v0, v1], rec.multiplicities + [0, 0],
           rec.colOut + [Entry(numWires - 1 - |rec.values|, v0)], rec.colLeft + [Entry(numWires - 2 - |rec.values|, v1)],
           rec.colRight, rec.used)
  }

  lemma ReadRecorded<T>(numReadRows: nat, numEvalRows: nat, rec: Record<T>, v0: T, v1: T)
    requires Recorded(numReadRows, numEvalRows, rec) && |rec.colOut| < numReadRows
    ensures Recorded(numReadRows, numEvalRows, AfterRead(2 * numReadRows + numEvalRows, rec, v0, v1))
  {
    var numWires := 2 * numReadRows + numEvalRows;
    var rec' := AfterRead(numWires, rec, v0, v1);
    forall i ensures ReadRow(numWires, rec', i) { assert ReadRow(numWires, rec, i); }
  }

  function AfterGate<T>(numWires: nat, rec: Record<T>, l: nat, r: nat, out: T): Record<T>
    requires |rec.multiplicities| == |rec.values| < numWires
    requires Readable(numWires, |rec.values|, l) && Readable(numWires, |rec.values|, r)
  {
    var at, at' := numWires - 1 - l, numWires - 1 - r;
    Record(rec.values + [out], Counted(numWires, l, r, rec.multiplicities),
           rec.colOut + [Entry(numWires - 1 - |rec.values|, out)], rec.colLeft + [Entry(l, rec.values[at])],
           rec.colRight + [Entry(r, rec.values[at'])], rec.used + [at, at'])
  }

  lemma CountsRead(m: seq<nat>, used: seq<nat>, k: nat)
    requires Counts(m, used) && k < |m|
    ensures Counts(m[k := m[k] + 1], used + [k])
  {
    assert multiset(used + [k]) == multiset(used) + multiset{k};
  }

  lemma CountsInsert(m: seq<nat>, used: seq<nat>)
    requires Counts(m, used)
    ensures Counts(m + [0], used)
  {
    assert |m| !in multiset(used);
  }

  lemma CountsGate(numWires: nat, m: seq<nat>, used: seq<nat>, l: nat, r: nat)
    requires Counts(m, used) && Readable(numWires, |m|, l) && Readable(numWires, |m|, r)
    ensures Counts(Counted(numWires, l, r, m), used + [numWires - 1 - l, numWires - 1 - r])
  {
    hide Counts;
    var at, at' := numWires - 1 - l, numWires - 1 - r;
    CountsRead(m, used, at);
    var m' := m[at := m[at] + 1];
    CountsRead(m', used + [at], at');
    CountsInsert(m'[at' := m'[at'] + 1], used + [at] + [at']);
    assert used + [at] + [at'] == used + [at, at'];
  }

  lemma GateRecorded<T>(numReadRows: nat, numEvalRows: nat, rec: Record<T>, l: nat, r: nat, out: T)
    requires Recorded(numReadRows, numEvalRows, rec)
    requires |rec.colOut| - |rec.colRight| == numReadRows && |rec.colRight| < numEvalRows
    requires var n := 2 * numReadRows + numEvalRows; Readable(n, |rec.values|, l) && Readable(n, |rec.values|, r)
    ensures Recorded(numReadRows, numEvalRows, AfterGate(2 * numReadRows + numEvalRows, rec, l, r, out))
  {
    var numWires := 2 * numReadRows + numEvalRows;
    var rec' := AfterGate(numWires, rec, l, r, out);
    CountsGate(numWires, rec.multiplicities, rec.used, l, r);
    forall i ensures ReadRow(numWires, rec', i) { assert ReadRow(numWires, rec, i); }
    forall i ensures EvalRow(numReadRows, numWires, rec', i) { assert EvalRow(numReadRows, numWires, rec, i); }
  }

  /** How many wires there are, in terms of the rows filled. */
  lemma RecordedSizes<T>(numReadRows: nat, numEvalRows: nat, rec: Record<T>)
    requires Recorded(numReadRows, numEvalRows, rec)
    ensures |rec.multiplicities| == |rec.values| && |rec.colOut| == |rec.colLeft| && |rec.used| == 2 * |rec.colRight|
    ensures |rec.colRight| <= |rec.colOut| && |rec.values| == 2 * (|rec.colOut| - |rec.colRight|) + |rec.colRight|
    ensures Counts(rec.multiplicities, rec.used) && Within(rec.used, |rec.values|)
  {
  }

  class CircuitEvaluation<T> {
    const f: Field<T>
    const numReadRows: nat
    const numEvalRows: nat
    /** Wire values in insertion order; the wire with id `k` sits at index `NumWires() - 1 - k`. */
    var values: seq<T>
    /** How often each wire has been read. */
    var multiplicities: seq<nat>
    var colOut: seq<Entry<T>>
    var colLeft: seq<Entry<T>>
    var colRight: seq<Entry<T>>
    /** Where each row was read from, and the operator of each EVAL row as a field element. */
    var colPtr: seq<nat>
    var colOp: seq<T>
    /** The wires read so far, two for each instruction, by index into `values`. */
    ghost var used: seq<nat>

    function NumWires(): nat {
      2 * numReadRows + numEvalRows
    }

    predicate BusValid()
      reads this
    {
      |multiplicities| == |values| <= NumWires()
    }

    ghost function Rec(): Record<T>
      reads this
    {
      Record(values, multiplicities, colOut, colLeft, colRight, used)
    }

    ghost predicate Valid()
      reads this
    {
      BusValid() && Recorded(numReadRows, numEvalRows, Rec())
    }

    /** All rows have been filled. */
    ghost predicate Finished()
      reads this
    {
      Valid() && |colRight| == numEvalRows && |colOut| == numReadRows + numEvalRows
    }

    constructor (f: Field<T>, numReadRows: nat, numEvalRows: nat)
      ensures this.f == f && this.numReadRows == numReadRows && this.numEvalRows == numEvalRows
      ensures Valid() && values == [] && multiplicities == [] && colOut == [] && colLeft == [] && colRight == []
      ensures colPtr == [] && colOp == []
    {
      this.f := f;
      this.numReadRows := numReadRows;
      this.numEvalRows := numEvalRows;
      values, multiplicities, colOut, colLeft, colRight, used := [], [], [], [], [], [];
      colPtr, colOp := [], [];
    }

    /** Inserts a wire and returns its id. */
    method Insert(value: T) returns (id: nat)
      requires BusValid() && |values| < NumWires()
      modifies this`values, this`multiplicities
      ensures BusValid() && values == old(values) + [value] && multiplicities == old(multiplicities) + [0]
      ensures id == NumWires() - 1 - |old(values)|
    {
      id := NumWires() - 1 - |values|;
      values := values + [value];
      multiplicities := multiplicities + [0];
    }

    /** Reads a wire, counting the read; fails on a wire that has not been inserted. */
    method ReadValue(id: nat) returns (value: T, ok: bool)
      requires BusValid()
      modifies this`multiplicities
      ensures BusValid() && ok == Readable(NumWires(), |values|, id)
      ensures ok ==> var at := NumWires() - 1 - id;
                value == values[at] && multiplicities == old(multiplicities)[at := old(multiplicities)[at] + 1]
      ensures !ok ==> multiplicities == old(multiplicities)
    {
      value, ok := f.zero, false;
      if id + 1 <= NumWires() && NumWires() - (id + 1) < |values| {
        var at := NumWires() - (id + 1);
        multiplicities := multiplicities[at := multiplicities[at] + 1];
        value, ok := values[at], true;
      }
    }

    method DoRead(ptr: nat, v0: T, v1: T)
      requires Valid() && |colOut| < numReadRows
      modifies this
      ensures Valid() && Rec() == AfterRead(NumWires(), old(Rec()), v0, v1)
      ensures colPtr == old(colPtr) + [ptr] && colOp == old(colOp)
    {
      ReadRecorded(numReadRows, numEvalRows, Rec(), v0, v1);
      var id0 := Insert(v0);
      colOut := colOut + [Entry(id0, v0)];
      var id1 := Insert(v1);
      colLeft := colLeft + [Entry(id1, v1)];
      colPtr := colPtr + [ptr];
      assert Rec() == AfterRead(NumWires(), old(Rec()), v0, v1);
    }

    /** Runs one decoded instruction; fails when it reads a wire that is not there yet. */
    method ApplyGate(ptr: nat, l: nat, r: nat, op: Operator) returns (ok: bool)
      requires BusValid() && |values| < NumWires()
      modifies this
      ensures BusValid() && ok == (Readable(NumWires(), |old(values)|, l) && Readable(NumWires(), |old(values)|, r))
      ensures ok ==> var x, y := old(values)[NumWires() - 1 - l], old(values)[NumWires() - 1 - r];
                Rec() == AfterGate(NumWires(), old(Rec()), l, r, Apply(f, op, x, y))
      ensures ok ==> colPtr == old(colPtr) + [ptr] && colOp == old(colOp) + [OpColumn(f, op)]
    {
      var left;
      left, ok := ReadValue(l);
      if !ok { return; }
      var right;
      right, ok := ReadValue(r);
      if !ok { return; }
      colLeft := colLeft + [Entry(l, left)];
      colRight := colRight + [Entry(r, right)];
      used := used + [NumWires() - 1 - l, NumWires() - 1 - r];
      var out := Apply(f, op, left, right);
      var id := Insert(out);
      colOut := colOut + [Entry(id, out)];
      colOp := colOp + [OpColumn(f, op)];
      colPtr := colPtr + [ptr];
    }

    /** As `ApplyGate`, keeping the record of the evaluation. */
    method DoGate(ptr: nat, l: nat, r: nat, op: Operator) returns (ok: bool)
      requires Valid() && |colOut| - |colRight| == numReadRows && |colRight| < numEvalRows
      modifies this
      ensures ok == (Readable(NumWires(), |old(values)|, l) && Readable(NumWires(), |old(values)|, r))
      ensures ok ==> Valid() && var x, y := old(values)[NumWires() - 1 - l], old(values)[NumWires() - 1 - r];
                Rec() == AfterGate(NumWires(), old(Rec()), l, r, Apply(f, op, x, y))
      ensures ok ==> colPtr == old(colPtr) + [ptr] && colOp == old(colOp) + [OpColumn(f, op)]
    {
      hide Recorded, Counts, AfterGate;
      RecordedSizes(numReadRows, numEvalRows, Rec());
      if Readable(NumWires(), |values|, l) && Readable(NumWires(), |values|, r) {
        GateRecorded(numReadRows, numEvalRows, Rec(), l, r,
                     Apply(f, op, values[NumWires() - 1 - l], values[NumWires() - 1 - r]));
      }
      ok := ApplyGate(ptr, l, r, op);
    }

    /** Runs one instruction; fails when it does not decode or reads a wire that is not there yet. */
    method DoEval(ptr: nat, instruction: nat) returns (ok: bool)
      requires Valid() && |colOut| - |colRight| == numReadRows && |colRight| < numEvalRows
      modifies this
      ensures ok ==> Valid() && |colOut| == |old(colOut)| + 1 && |colRight| == |old(colRight)| + 1
      ensures ok ==> var d := DecodeInstruction(instruction);
                && d.Instruction? && Readable(NumWires(), |old(values)|, d.l) && Readable(NumWires(), |old(values)|, d.r)
                && colPtr == old(colPtr) + [ptr] && colOp == old(colOp) + [OpColumn(f, d.op)]
                && used == old(used) + [NumWires() - 1 - d.l, NumWires() - 1 - d.r]
      ensures var next := Executed(f, NumWires(), DecodeInstruction(instruction), old(values));
              ok == next.Some? && (ok ==> values == next.value)
    {
      var d := DecodeInstruction(instruction);
      if d.Invalid? { return false; }
      ok := DoGate(ptr, d.l, d.r, d.op);
    }
  }

  /** The operator column: subtraction is -1, multiplication 0 and addition 1. */
  function OpColumn<T>(f: Field<T>, op: Operator): T {
    match op
    case Minus => f.neg(f.one)
    case Times => f.zero
    case Plus => f.one
  }

  /** Instruction `i` of the program left its operator and the two wires it read. */
  ghost predicate RanAt<T>(f: Field<T>, numWires: nat, program: seq<Decoded>, colOp: seq<T>, used: seq<nat>, i: int) {
    && 0 <= i < |program| && i < |colOp| && 2 * i + 1 < |used|
    && program[i].Instruction? && program[i].l < numWires && program[i].r < numWires
    && used[2 * i] == numWires - 1 - program[i].l && used[2 * i + 1] == numWires - 1 - program[i].r
    && colOp[i] == OpColumn(f, program[i].op)
  }

  ghost predicate Ran<T>(f: Field<T>, numWires: nat, program: seq<Decoded>, colOp: seq<T>, used: seq<nat>, n: nat) {
    && |colOp| == n && |used| == 2 * n
    && forall i :: 0 <= i < n ==> RanAt(f, numWires, program, colOp, used, i)
  }

  lemma RanNext<T>(f: Field<T>, numWires: nat, program: seq<Decoded>, colOp: seq<T>, used: seq<nat>, n: nat)
    requires Ran(f, numWires, program, colOp, used, n) && n < |program| && program[n].Instruction?
    requires program[n].l < numWires && program[n].r < numWires
    ensures Ran(f, numWires, program, colOp + [OpColumn(f, program[n].op)],
                used + [numWires - 1 - program[n].l, numWires - 1 - program[n].r], n + 1)
  {
    hide OpColumn;
    var colOp', used' := colOp + [OpColumn(f, program[n].op)],
                         used + [numWires - 1 - program[n].l, numWires - 1 - program[n].r];
    forall i | 0 <= i < n + 1 ensures RanAt(f, numWires, program, colOp', used', i) {
      if i < n { assert RanAt(f, numWires, program, colOp, used, i); }
    }
  }

  predicate Readable(numWires: nat, inserted: nat, id: nat) {
    id < numWires && numWires - 1 - id < inserted
  }

  /** The wires after one more instruction, if it runs. */
  function Executed<T>(f: Field<T>, numWires: nat, d: Decoded, wires: seq<T>): (r: Option<seq<T>>)
    ensures r.Some? ==> |r.value| == |wires| + 1
  {
    if d.Invalid? || !Readable(numWires, |wires|, d.l) || !Readable(numWires, |wires|, d.r) then None
    else Some(wires + [Apply(f, d.op, wires[numWires - 1 - d.l], wires[numWires - 1 - d.r])])
  }

  function Counted(numWires: nat, l: nat, r: nat, m: seq<nat>): seq<nat>
    requires Readable(numWires, |m|, l) && Readable(numWires, |m|, r)
  {
    var m' := m[numWires - 1 - l := m[numWires - 1 - l] + 1];
    m'[numWires - 1 - r := m'[numWires - 1 - r] + 1] + [0]
  }

  // Running a circuit from memory

  /** The extension-field elements in memory, two cells each. */
  ghost function Loaded<T>(b: Basis<T>, mem: nat -> nat, n: nat): (vs: seq<T>)
    ensures |vs| == n
  {
    seq(n, j requires 0 <= j => b.join(mem(2 * j), mem(2 * j + 1)))
  }

  /** The instructions in memory from an address on. */
  ghost function Program(mem: nat -> nat, start: nat, n: nat): (p: seq<Decoded>)
    ensures |p| == n && forall k :: 0 <= k < n ==> p[k] == DecodeInstruction(mem(start + k))
  {
    seq(n, k requires 0 <= k => DecodeInstruction(mem(start + k)))
  }

  /** The wires after running `k` instructions on the given variables, if all of them run. */
  ghost function Run<T>(f: Field<T>, vars: seq<T>, program: seq<Decoded>, k: nat): (r: Option<seq<T>>)
    requires k <= |program|
    ensures r.Some? ==> |r.value| == |vars| + k
  {
    if k == 0 then Some(vars)
    else
      var before := Run(f, vars, program, k - 1);
      if before.None? then None else Executed(f, |vars| + |program|, program[k - 1], before.value)
  }

  predicate SizesAccepted(numVars: nat, numEval: nat) {
    && numVars + numEval <= MAX_NODE_ID
    && numVars % 2 == 0 && numVars != 0
    && numEval % 4 == 0 && numEval != 0
  }

  /** Whole rows of variables and whole words of instructions, some of each, and identifiers of 30 bits. */
  lemma SizesMean(numVars: nat, numEval: nat)
    ensures SizesAccepted(numVars, numEval) <==>
              && numVars + numEval < 0x4000_0000
              && (exists i: nat {:trigger 2 * i} :: i > 0 && numVars == 2 * i)
              && (exists j: nat {:trigger 4 * j} :: j > 0 && numEval == 4 * j)
  {
    if SizesAccepted(numVars, numEval) {
      assert numVars == 2 * (numVars / 2) && numEval == 4 * (numEval / 4);
    }
  }

  /** The program in memory runs to completion and its last wire is zero. */
  ghost predicate RunsToZero<T>(f: Field<T>, b: Basis<T>, mem: nat -> nat, numVars: nat, numEval: nat) {
    var wires := Run(f, Loaded(b, mem, numVars), Program(mem, 2 * numVars, numEval), numEval);
    wires.Some? && numVars + numEval > 0 && wires.value[numVars + numEval - 1] == f.zero
  }

  // Addresses

  const ADDRESSES := 0x1_0000_0000

  /** Memory as seen from an address. */
  function From(mem: nat -> nat, ptr: nat): nat -> nat {
    (a: nat) => mem(ptr + a)
  }

  /** A word can be read: the address is 32-bit and aligned.  Unwritten memory reads as zero. */
  predicate WordReadable(addr: nat) {
    addr < ADDRESSES && addr % 4 == 0
  }

  /** There are 2^30 words to read. */
  lemma ReadableWords(addr: nat)
    ensures WordReadable(addr) <==> exists w: nat {:trigger 4 * w} :: w < 0x4000_0000 && addr == 4 * w
  {
    if WordReadable(addr) { assert addr == 4 * (addr / 4); }
  }

  /** All words and elements of the circuit can be read. */
  predicate Addressable(ptr: nat, numVars: nat, numEval: nat) {
    ptr % 4 == 0 && ptr + 2 * numVars + numEval <= ADDRESSES
  }

  ghost predicate Accepts<T>(f: Field<T>, b: Basis<T>, mem: nat -> nat, ptr: nat, numVars: nat, numEval: nat) {
    && SizesAccepted(numVars, numEval) && Addressable(ptr, numVars, numEval)
    && RunsToZero(f, b, From(mem, ptr), numVars, numEval)
  }

  /** Reads the variables word by word.  It stops at a word that cannot be read. */
  method LoadVariables<T>(b: Basis<T>, mem: nat -> nat, ptr: nat, ev: CircuitEvaluation<T>) returns (ok: bool)
    requires ev.Valid() && ev.values == []
    modifies ev
    ensures ok <==> ev.numReadRows == 0 || Addressable(ptr, 2 * ev.numReadRows, 0)
    ensures ok ==> ev.Valid() && ev.colRight == [] && ev.values == Loaded(b, From(mem, ptr), 2 * ev.numReadRows)
    ensures ok ==> ev.colOp == old(ev.colOp) && ev.colPtr == old(ev.colPtr) + ReadPtrs(ptr, ev.numReadRows)
  {
    hide Recorded, Counts, Loaded, From;
    NothingLoaded(b, mem, ptr);
    RecordedSizes(ev.numReadRows, ev.numEvalRows, ev.Rec());
    for i := 0 to ev.numReadRows
      invariant ev.Valid() && |ev.colOut| == i && ev.colRight == [] && ev.values == Loaded(b, From(mem, ptr), 2 * i)
      invariant i > 0 ==> Addressable(ptr, 2 * i, 0)
      invariant ev.colOp == old(ev.colOp) && ev.colPtr == old(ev.colPtr) + ReadPtrs(ptr, i)
    {
      var at := ptr + 4 * i;
      if !WordReadable(at) { return false; }
      ev.DoRead(at, b.join(mem(at), mem(at + 1)), b.join(mem(at + 2), mem(at + 3)));
      TwoMoreLoaded(b, mem, ptr, i);
    }
    ok := true;
  }

  function ReadPtrs(ptr: nat, n: nat): (ps: seq<nat>)
    ensures |ps| == n && forall i :: 0 <= i < n ==> ps[i] == ptr + 4 * i
  {
    seq(n, (i: nat) => ptr + 4 * i)
  }

  function EvalPtrs(start: nat, n: nat): (ps: seq<nat>)
    ensures |ps| == n && forall i :: 0 <= i < n ==> ps[i] == start + i
  {
    seq(n, (i: nat) => start + i)
  }

  lemma NothingLoaded<T>(b: Basis<T>, mem: nat -> nat, ptr: nat)
    ensures Loaded(b, From(mem, ptr), 0) == []
  {
  }

  lemma TwoMoreLoaded<T>(b: Basis<T>, mem: nat -> nat, ptr: nat, i: nat)
    ensures var at := ptr + 4 * i;
            Loaded(b, From(mem, ptr), 2 * (i + 1))
            == Loaded(b, From(mem, ptr), 2 * i) + [b.join(mem(at), mem(at + 1)), b.join(mem(at + 2), mem(at + 3))]
  {
  }

  /** Runs the instructions from `start` on.  It stops at one that cannot be read, decoded or evaluated. */
  method RunInstructions<T>(mem: nat -> nat, start: nat, ev: CircuitEvaluation<T>) returns (ok: bool)
    requires ev.Valid() && |ev.values| == 2 * ev.numReadRows && ev.colRight == []
    modifies ev
    ensures ok ==> ev.Finished()
    ensures var wires := Run(ev.f, old(ev.values), Program(mem, start, ev.numEvalRows), ev.numEvalRows);
            && (ok <==> wires.Some? && (ev.numEvalRows == 0 || start + ev.numEvalRows <= ADDRESSES))
            && (ok ==> ev.values == wires.value)
    ensures ok && old(ev.colOp) == [] ==>
              Ran(ev.f, ev.NumWires(), Program(mem, start, ev.numEvalRows), ev.colOp, ev.used, ev.numEvalRows)
    ensures ok ==> ev.colPtr == old(ev.colPtr) + EvalPtrs(start, ev.numEvalRows)
  {
    hide Recorded, Counts, DecodeInstruction, Executed, Run, RanAt, OpColumn;
    ghost var vars, program := ev.values, Program(mem, start, ev.numEvalRows);
    RecordedSizes(ev.numReadRows, ev.numEvalRows, ev.Rec());
    RunStart(ev.f, vars, program);
    for k := 0 to ev.numEvalRows
      invariant ev.Valid() && |ev.colRight| == k && |ev.colOut| == ev.numReadRows + k
      invariant Run(ev.f, vars, program, k) == Some(ev.values) && (k > 0 ==> start + k <= ADDRESSES)
      invariant ev.colPtr == old(ev.colPtr) + EvalPtrs(start, k)
      invariant old(ev.colOp) == [] ==> Ran(ev.f, ev.NumWires(), program, ev.colOp, ev.used, k)
    {
      if start + k >= ADDRESSES { return false; }
      RunNext(ev.f, vars, program, k);
      ghost var colOp, used := ev.colOp, ev.used;
      ok := ev.DoEval(start + k, mem(start + k));
      if !ok {
        RunStuck(ev.f, vars, program, k + 1, ev.numEvalRows);
        return;
      }
      if old(ev.colOp) == [] { RanNext(ev.f, ev.NumWires(), program, colOp, used, k); }
    }
    ok := true;
  }

  /** Evaluates the circuit in memory at `ptr`, a field element below the modulus.  Addresses past 32 bits cannot be
      read, so they never wrap around it. */
  method EvalCircuit<T(==)>(f: Field<T>, b: Basis<T>, mem: nat -> nat, ptr: nat, numVars: nat, numEval: nat)
    returns (ok: bool, ev: CircuitEvaluation<T>)
    ensures ok <==> Accepts(f, b, mem, ptr, numVars, numEval)
    ensures ok ==> ev.Finished() && ev.f == f && ev.numReadRows == numVars / 2 && ev.numEvalRows == numEval
    ensures ok ==> ev.colPtr == ReadPtrs(ptr, numVars / 2) + EvalPtrs(ptr + 2 * numVars, numEval)
    ensures ok ==> Ran(f, numVars + numEval, Program(mem, ptr + 2 * numVars, numEval), ev.colOp, ev.used, numEval)
    ensures ok ==> var vars, program := Loaded(b, From(mem, ptr), numVars), Program(mem, ptr + 2 * numVars, numEval);
              Run(f, vars, program, numEval) == Some(ev.values)
  {
    hide Recorded, Counts, Loaded, Program, Run, From, Ran;
    ok := false;
    ev := new CircuitEvaluation(f, numVars / 2, numEval);
    if !SizesAccepted(numVars, numEval) { return; }
    var loaded := LoadVariables(b, mem, ptr, ev);
    if !loaded { return; }
    SameProgram(mem, ptr, numVars, numEval);
    var ran := RunInstructions(mem, ptr + 2 * numVars, ev);
    if ran {
      ok := ev.values[numVars + numEval - 1] == f.zero;
    }
  }

  lemma SameProgram(mem: nat -> nat, ptr: nat, numVars: nat, numEval: nat)
    ensures Program(From(mem, ptr), 2 * numVars, numEval) == Program(mem, ptr + 2 * numVars, numEval)
  {
    hide DecodeInstruction;
    var left, right := Program(From(mem, ptr), 2 * numVars, numEval), Program(mem, ptr + 2 * numVars, numEval);
    forall k | 0 <= k < numEval ensures left[k] == right[k] {
      assert From(mem, ptr)(2 * numVars + k) == mem(ptr + 2 * numVars + k);
    }
  }

  lemma RunStart<T>(f: Field<T>, vars: seq<T>, program: seq<Decoded>)
    ensures Run(f, vars, program, 0) == Some(vars)
  {
  }

  lemma RunNext<T>(f: Field<T>, vars: seq<T>, program: seq<Decoded>, k: nat)
    requires k < |program| && Run(f, vars, program, k).Some?
    ensures Run(f, vars, program, k + 1) == Executed(f, |vars| + |program|, program[k], Run(f, vars, program, k).value)
  {
  }

  lemma {:induction false} RunStuck<T>(f: Field<T>, vars: seq<T>, program: seq<Decoded>, j: nat, k: nat)
    requires j <= k <= |program| && Run(f, vars, program, j).None?
    ensures Run(f, vars, program, k).None?
  {
    if j < k { RunStuck(f, vars, program, j, k - 1); }
  }
}
