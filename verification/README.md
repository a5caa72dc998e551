# Verification of Miden's bus checks, verifier circuits, traces and client stores

A Dafny model of the hardest parts of the Miden virtual machine and client, with machine-checked proofs about all inputs
and all runs. `dafny verify dfyconfig.toml` checks everything.

## What is modelled

**Bus checks and their soundness.** Components of the virtual machine talk over buses. A message becomes one field
element through two random challenges (`Challenges`). Each bus is a running product (`AuxColumn`, `BusDebugger`), and the
verifier checks the final products directly (`ReducedAux`). `BusBalance` shows that the check is an equation between two
products over every message of the trace, and that every balanced trace passes. `BusSoundness` shows the converse
quantitatively: whatever columns a prover commits to, a trace with unbalanced messages passes for at most `17 N q` of the
`q^2` challenge pairs. `BusFinals` says where each column ends on its own. `LogUp`, `Claims`, `WiringSoundness` and
`SumCheck` prove completeness and the same kind of bound for the LogUp sums, `LogUpFinals` where those columns end, and
`Labels` that message labels are unique. `VmField` states these for the field in use, with no hypothesis on the field left.

**The circuit compiler.** The same check is compiled into an arithmetic circuit and run on a chiplet. Every stage is
modelled: ordering symbolic constraints and lowering them to a hash-consed DAG (`ConstraintOrder`, `Dag`, `Lowering`),
batching the boundary checks into it (`Ace`), emitting a flat circuit (`Circuit`), encoding it (`Encoding`), and
executing it from memory (`AceChiplet`, `Execution`). `Pipeline.VerifyAirOnChiplet` is the composition: the chiplet
accepts exactly when the verifier equation holds. `Interpolation` and `Quotient` show that recomposing the quotient is
interpolation over coset shifts, `TraceSemantics` that the lowered constraints are the constraints on the rows of a
trace, `Wiring` that the chiplet's wiring column returns to zero after every circuit.

**The circuit chiplet's constraints.** `AceAir` and `AceShape` show that the polynomial constraints admit exactly
sequences of well-formed sections. `AceSoundness` shows that such a trace, answered by memory, for a circuit that is not
zero, is rejected at almost all challenges; `AceFill` that the rows filled for an accepted circuit pass.

**The field.** Results hold for every field (`Fields`, `Polynomials`, `GrandProducts`). `Goldilocks` proves that
2^64 - 2^32 + 1 is prime and builds the base field; `Fermat` and `QuadField` build the quadratic extension. `U32` shows,
operation by operation, for which operands the 32-bit constraints hold exactly for what the processor computes.

**Trace storage.** `MainTrace`: three layouts of one matrix, their accessors, and exporters that fill declared but
unwritten memory chunk by chunk in any order, each cell exactly once.

**Client and protocol pieces.** `ChainStore` (block headers, relevance flags, sync height, pruning, over whole runs),
`Tokens` (decimal amounts), `Runner` (parallel tests with retries, over every interleaving), `Transcript` (precompile
requests), `Vlpi` (absorbing variable-length inputs).

## How to read the model

- A field is a record of operations with laws. `Laws(f, x, y, z)` names the elements a proof uses the laws for.
- Base-field values appear already embedded in the extension; `f.OfNat(n)` is a small integer in the field.
- The builder's ghost field `meaning` holds what each node computes as a function of the inputs. Contracts that say
  `forall env` quantify over all input assignments.
- The permutation, verifiers, subprocess outcomes and the scheduler are parameters. SQL tables are maps and
  transactions are atomic. `None` stands for a panic where a caller can trigger it.
- `MainTrace.Cell` counts writes, so that "exactly once" is a statement about memory.

## Where a documented or natural claim fails

The model follows the code.

- `miden-vm/air/src/trace/mod.rs:242-243` says that messages of different buses are always distinct, even with the same
  layout and labels. One payload on two buses is told apart exactly when beta is nonzero (`Challenges.BusesSeparate`).
  Different payloads may collide: at every beta some pair on two given buses does (`Challenges.FreePayloadsCollide`).
  Any two different messages collide for at most 16 beta.
- `miden-vm/air/src/lib.rs:341-350` gives final values of the hash-kernel and chiplets columns separately. Memory reads
  of the circuit chiplet are requested on one and answered on the other
  (`miden-vm/processor/src/trace/chiplets/aux_trace/virtual_table.rs:59-67`). The two values hold exactly when the reads
  multiply to one (`BusFinals.HashKernelExactly`, `BusFinals.ChipletsExactly`), which few challenges allow once there is
  a read; `VmField.OneReadUnexpectedInVm` is a case where they fail. Only the product always cancels.
- `miden-vm/air/src/lib.rs:374` says that all LogUp columns end at zero. Memory asks for range checks on the wiring
  column (`miden-vm/air/src/constraints/chiplets/bus/wiring.rs:199-234`) and they are answered on the range-check column.
  Either column ends at zero exactly when the fractions of these requests cancel (`LogUpFinals.FinalsExactly`), which few
  challenges allow; `LogUpFinals.OneLookup` is a case where they do not. Only the sum always cancels.
- `miden-vm/docs/src/design/stack/u32_ops.md:264-265` says that the division constraints enforce `r < s0`. They admit
  negative remainders down to `s0 - 2^32` (`U32.DivisionRows`, `U32.FiveByThree`); `U32.ConstraintsAreExact` gives the
  exact operands where only the processor's result is admitted.
- `miden-vm/air/src/config.rs:118-144` absorbs groups without their lengths. Taken alone, the stream determines the
  groups exactly when there is at most one (`Vlpi.ToldApartExactly`).
- `miden-vm/crates/ace-codegen/src/dag/lower.rs:16-21` writes the folded constraints with the first constraint constant;
  the loop gives the first constraint the highest power of alpha. The two agree exactly when the constraint values read
  the same backwards (`Lowering.FoldingOrderExactly`).
- `miden-vm/crates/ace-codegen/src/dag/ir.rs:63` calls periodic coefficients highest-degree first; Horner evaluation
  takes the first one as the constant. Again the two agree exactly on coefficients that read the same backwards
  (`Lowering.CoefficientOrderExactly`).
- `miden-vm/air/src/trace/main_trace.rs:386` clears the front of the row instead of its non-core part. With the widths in
  use the range is empty; `MainTrace.StrippedRowExact` gives the exact condition.
- An encoded circuit is accepted by its last gate, not by its root. `Pipeline.RunDag` shows that the last node of a DAG
  decides and `Pipeline.RootMustBeLast` runs one where the two differ; the compiler always puts the root last.

## Model

| member | source | states |
|---|---|---|
| Challenges.FillPowers | miden-vm/air/src/trace/challenges.rs:44-54 | filling in place leaves exactly the powers of beta in the array |
| Challenges.New | miden-vm/air/src/trace/challenges.rs:44-54 | the table holds beta^0..beta^15 and, per bus, alpha + (bus + 1) beta^16 |
| Challenges.Encode | miden-vm/air/src/trace/challenges.rs:61-75 | the accumulated value is the bus prefix plus the message as a polynomial at beta |
| Challenges.EncodeSparse | miden-vm/air/src/trace/challenges.rs:82-106 | for every layout, repeated positions included, the value is that of the dense message the sparse one stands for |
| Challenges.ConsecutiveLayout | miden-vm/air/src/trace/challenges.rs:61-106 | with positions 0..K-1 the sparse and the dense encoding agree |
| Challenges.PaddingInvisible | miden-vm/air/src/trace/challenges.rs:61-75 | trailing zeros never change a message value |
| Challenges.CollisionIsRoot | miden-vm/air/src/trace/challenges.rs:44-75 | two messages have equal values exactly at the roots of one polynomial in beta, whatever alpha is |
| Challenges.CollisionsAreRare | miden-vm/air/src/trace/challenges.rs:44-75 | two messages that differ after padding, or are on different buses, collide for at most 16 values of beta |
| Challenges.ZeroBetaMergesBuses | miden-vm/air/src/trace/mod.rs:237-244 | at beta = 0 one payload has the same value on all buses, in every field |
| Challenges.BusesSeparate | miden-vm/air/src/trace/mod.rs:237-244 | one payload on two buses has two values exactly when beta is nonzero |
| Challenges.FreePayloadsCollide | miden-vm/air/src/trace/mod.rs:237-244 | with payloads of their own any two buses have colliding one-element messages at every beta |
| Dag.ValueStable | miden-vm/air/src/ace.rs:89-114 | appending nodes leaves the value of every earlier node unchanged |
| Dag.AddSound | miden-vm/crates/ace-codegen/src/dag/builder.rs:104-118 | folding constants, dropping zeros and ordering operands keep the meaning of a sum |
| Dag.SubSound | miden-vm/crates/ace-codegen/src/dag/builder.rs:121-131 | the same for a difference |
| Dag.MulSound | miden-vm/crates/ace-codegen/src/dag/builder.rs:134-151 | the same for a product, including multiplication by zero and one |
| Dag.DagBuilder.New | miden-vm/crates/ace-codegen/src/dag/builder.rs:25-32 | an empty store |
| Dag.DagBuilder.FromDag | miden-vm/crates/ace-codegen/src/dag/builder.rs:63-79 | resuming from a DAG keeps its nodes, and the root keeps its value for every input |
| Dag.DagBuilder.Intern | miden-vm/crates/ace-codegen/src/dag/builder.rs:181-189 | a node is stored once: an equal node is found, otherwise exactly one is appended; topological order and the cache invariant are kept |
| Dag.DagBuilder.Input | miden-vm/crates/ace-codegen/src/dag/builder.rs:94-96 | the node reads that input, for every assignment |
| Dag.DagBuilder.Constant | miden-vm/crates/ace-codegen/src/dag/builder.rs:99-101 | the node has that value, for every assignment |
| Dag.DagBuilder.Add | miden-vm/crates/ace-codegen/src/dag/builder.rs:104-118 | the node computes the sum of its operands for every assignment; nothing earlier changes |
| Dag.DagBuilder.Sub | miden-vm/crates/ace-codegen/src/dag/builder.rs:121-131 | the same for the difference |
| Dag.DagBuilder.Mul | miden-vm/crates/ace-codegen/src/dag/builder.rs:134-151 | the same for the product |
| Dag.DagBuilder.Neg | miden-vm/crates/ace-codegen/src/dag/builder.rs:154-160 | the same for the negation |
| Dag.DagBuilder.Build | miden-vm/crates/ace-codegen/src/dag/builder.rs:87-91 | the finished DAG is valid and evaluates to what its root node computes |
| Ace.BuildPower | miden-vm/air/src/ace.rs:162-201 | repeated multiplication builds a node for beta^n |
| Ace.BuildElements | miden-vm/air/src/ace.rs:162-201 | the element loop adds the message polynomial at beta |
| Ace.BuildPrefix | miden-vm/air/src/ace.rs:162-201 | the prefix node evaluates to the prefix in the challenge table |
| Ace.EncodeBusMessage | miden-vm/air/src/ace.rs:162-201 | for all alpha, beta, public values and messages the node evaluates to the encoding of the message |
| Ace.BuildFactor | miden-vm/air/src/ace.rs:127-141 | a factor node evaluates to the boundary value, the message or the reduction it names |
| Ace.BuildProduct | miden-vm/air/src/ace.rs:127-141 | the node evaluates to the product of its factors |
| Ace.BuildProductCheck | miden-vm/air/src/ace.rs:117-124 | the node evaluates to numerator minus denominator |
| Ace.BuildSumCheck | miden-vm/air/src/ace.rs:146-156 | the node evaluates to the sum of the listed columns |
| Ace.BatchReducedAuxValues | miden-vm/air/src/ace.rs:89-114 | for every constraint DAG, configuration and input assignment the new root is old root + gamma product + gamma^2 sum; the old nodes stay a prefix; the root is the last node when gamma is new |
| ReducedAux.AirInputsHoldAll | miden-vm/air/src/lib.rs:113-135 | the flattened inputs have 40 values and whole kernel words, and every field is found again at its place |
| BusBalance.BoundaryMessages | miden-vm/air/src/lib.rs:113-135 | the boundary messages carry the program hash, the transcript state and every kernel digest of the public inputs, in order and behind their labels |
| AceChiplet.SizesMean | miden-vm/processor/src/execution/operations/eval_circuit.rs:62-91 | which numbers of variables and instructions are accepted |
| ReducedAux.EncodeProgramHash | miden-vm/air/src/lib.rs:417-433 | the method computes the program-hash message of the block-hash table |
| ReducedAux.EncodeTranscript | miden-vm/air/src/lib.rs:440-452 | the same for a transcript state message |
| ReducedAux.EncodeKernelProc | miden-vm/air/src/lib.rs:458-472 | the same for a kernel init message |
| ReducedAux.KernelReduced | miden-vm/air/src/lib.rs:478-504 | the product of the init messages of all digests, with the two error cases told apart |
| ReducedAux.ReducedAuxValues | miden-vm/air/src/lib.rs:276-378 | each error occurs exactly under its condition; otherwise prod times the denominator is the numerator and sum is the sum of the two columns; `ColumnsLaidOut` says which columns those are |
| ReducedAux.ConfigNumerator | miden-vm/air/src/ace.rs:209-260 | the numerator factors of the configuration multiply to the numerator of the direct check |
| ReducedAux.ConfigDenominator | miden-vm/air/src/ace.rs:209-280 | the same for the denominator |
| ReducedAux.ConfigSum | miden-vm/air/src/ace.rs:209-280 | the sum columns of the configuration add to the direct sum |
| ReducedAux.CompiledAgreesWithDirect | miden-vm/air/src/ace.rs:209-280 | for all finals, challenges, public values and kernels with an invertible denominator, the compiled product (sum) check is 0 exactly when the direct one gives prod = 1 (sum = 0) |
| ReducedAux.BatchingIsSound | miden-vm/air/src/ace.rs:79-114 | unless all three checks vanish, at most two gamma make the batched root vanish |
| ReducedAux.BatchingIsComplete | miden-vm/air/src/ace.rs:79-114 | when all three vanish, so does the batched root for every gamma |
| AuxColumn.Accumulate | miden-vm/processor/src/trace/utils.rs:298-340 | the first pass leaves prefix products of the responses and the shifted requests |
| AuxColumn.DivideOut | miden-vm/processor/src/trace/utils.rs:298-340 | one running inverse, walked backwards, divides every prefix by its own requests |
| AuxColumn.BuildAuxColumn | miden-vm/processor/src/trace/utils.rs:298-340 | entry i is the product of the first i responses over that of the first i requests; it fails exactly when a request is zero |
| AuxColumn.ColumnTransition | miden-vm/air/src/constraints/mod.rs:60-89 | an entry satisfies the row-to-row constraint exactly when it is that ratio |
| BusDebugger.Position | miden-vm/processor/src/debug.rs:50-60 | the first matching position, or none exactly when the value does not wait |
| BusDebugger.OutstandingSwapRemove | miden-vm/processor/src/debug.rs:50-80 | moving the last entry into the gap removes exactly one occurrence of the value |
| BusDebugger.MatchFound | miden-vm/processor/src/debug.rs:50-80 | a new value that cancels a waiting one keeps both sides equal to the multiset differences |
| BusDebugger.NoMatch | miden-vm/processor/src/debug.rs:50-80 | so does one that has to wait |
| BusDebugger.Debugger.AddRequest | miden-vm/processor/src/debug.rs:50-60 | what waits stays exactly the multiset difference of requests and responses |
| BusDebugger.Debugger.AddResponse | miden-vm/processor/src/debug.rs:66-80 | the same for a response |
| BusDebugger.Debugger.IsEmpty | miden-vm/processor/src/debug.rs:82-90 | empty exactly when the two multisets of values are equal |
| BusDebugger.Replay | miden-vm/processor/src/debug.rs:50-90 | after any interleaving each value waits max(0, own - other) times on each side, never on both, and empty means equal multisets |
| BusDebugger.EmptyMeansOne | miden-vm/processor/src/debug.rs:82-90 | for nonzero requests an empty debugger means that the running product ends at one |
| BusBalance.ColumnTelescopes | miden-vm/air/src/constraints/mod.rs:109-117 | over any number of rows: final times everything removed equals everything inserted |
| BusBalance.BuiltColumnFollows | miden-vm/air/src/constraints/mod.rs:60-117 | the column built with one inversion satisfies the boundary and transition constraints |
| BusBalance.ColumnsTelescope | miden-vm/air/src/lib.rs:324-377 | the same for the product of all running-product columns |
| BusBalance.CheckIsGrandProduct | miden-vm/air/src/lib.rs:324-377 | the two sides of the check are the products of all messages added and of all removed, by trace and verifier together |
| BusBalance.BalancedPermutation | miden-vm/air/src/lib.rs:324-377 | root hash, sibling, transcript-chain and kernel hypotheses together make the added messages a permutation of the removed ones |
| BusBalance.BalancedPasses | miden-vm/air/src/lib.rs:324-377 | completeness: every balanced trace of any length has equal numerator and denominator |
| BusBalance.VerifyBalanced | miden-vm/air/src/lib.rs:276-378 | the direct check returns prod = 1 on every balanced trace with nonzero removed messages, and as sum the range-check final plus the wiring final |
| BusFinals.FinalOfSurplus | miden-vm/air/src/constraints/mod.rs:60-89 | whatever evens out inserts and removals of a column, its final value times the one surplus is the other |
| BusFinals.MatchedFinal | miden-vm/air/src/lib.rs:329-332 | a column whose requests and responses cancel ends at one |
| BusFinals.RootFinal | miden-vm/air/src/lib.rs:336-339 | the block-hash column ends at the inverse of the program-hash message |
| BusFinals.HashKernelFinal | miden-vm/processor/src/trace/chiplets/aux_trace/virtual_table.rs:46-68 | for every trace: final value times default message times memory reads is the final transcript message |
| BusFinals.ChipletsFinal | miden-vm/air/src/lib.rs:347-350 | for every trace: the final value is the kernel messages times the memory reads |
| BusFinals.HashKernelExactly | miden-vm/air/src/lib.rs:341-345 | the expected final value holds exactly when the memory reads multiply to one (or the final message is zero) |
| BusFinals.ChipletsExactly | miden-vm/air/src/lib.rs:347-350 | the expected final value holds exactly when the memory reads multiply to one (or a kernel message is zero) |
| BusFinals.ReadsRarelyCancel | miden-vm/processor/src/trace/chiplets/aux_trace/virtual_table.rs:59-67 | with n > 0 reads at most n alpha make them multiply to one, whatever beta is; without reads all do |
| BusFinals.OneReadUnexpected | miden-vm/processor/src/trace/chiplets/aux_trace/virtual_table.rs:59-67 | a balanced trace with one read, at all challenges where it is neither zero nor one: constraints hold and both expectations fail |
| VmField.OneReadUnexpectedInVm | miden-vm/processor/src/trace/chiplets/aux_trace/virtual_table.rs:59-67 | such a trace in the field in use, at alpha = 1 and beta = 0 |
| GrandProducts.GrandProductBound | miden-vm/air/src/constraints/mod.rs:60-66 | different multisets have products of alpha + value that agree for at most as many alpha as they have elements |
| BusSoundness.AcceptedProducts | miden-vm/air/src/lib.rs:324-377 | whatever columns are committed, acceptance forces the two grand products to be equal |
| BusSoundness.FewAlphas | miden-vm/air/src/lib.rs:324-377 | with unbalanced message values, at most N alpha let the trace pass, N being the larger side |
| BusSoundness.FewBetas | miden-vm/air/src/trace/challenges.rs:44-75 | unbalanced messages have balanced values for at most 16 N beta |
| BusSoundness.UnbalancedRarelyPasses | miden-vm/air/src/lib.rs:276-378 | soundness: an unbalanced trace passes for at most 16 N |A| + N |B| challenge pairs from A x B |
| BusSoundness.UnbalancedInFiniteField | miden-vm/air/src/lib.rs:276-378 | over a finite field of size q that is at most 17 N q of the q^2 pairs |
| VmField.UnbalancedRarelyPassesInVm | miden-vm/air/src/lib.rs:276-378 | the same bound at the extension field of the virtual machine, with no hypothesis on the field left |
| Wiring.SentEqualsReceived | miden-vm/processor/src/trace/chiplets/aux_trace/wiring_bus.rs:25-72 | for any weighting of wires, when multiplicities count the reads, what is sent and what is received have the same sum |
| Wiring.ReadRowsSum | miden-vm/processor/src/trace/chiplets/aux_trace/wiring_bus.rs:43-51 | after any number of READ rows the running sum is the weighted multiplicities of the wires inserted so far |
| Wiring.EvalRowsSum | miden-vm/processor/src/trace/chiplets/aux_trace/wiring_bus.rs:59-67 | after any number of EVAL rows it is everything sent so far minus everything received so far |
| Wiring.SectionBalances | miden-vm/processor/src/trace/chiplets/aux_trace/wiring_bus.rs:38-70 | the rows of a complete section add up to zero, whatever weight each wire has |
| Wiring.FillSection | miden-vm/processor/src/trace/chiplets/aux_trace/wiring_bus.rs:42-67 | fills one section row by row, returns to zero and changes no other row |
| Wiring.WiringColumn | miden-vm/processor/src/trace/chiplets/aux_trace/wiring_bus.rs:25-72 | the whole column, with its own weight function for each section: zero up to the offset, each section starts at zero and follows its rows, zero from the end on, so the assertion there holds |
| Wiring.FinishedIsComplete | miden-vm/processor/src/trace/chiplets/aux_trace/wiring_bus.rs:38-70 | every finished evaluation is such a section |
| LogUp.ClearedValue | miden-vm/processor/src/trace/chiplets/aux_trace/wiring_bus.rs:42-67 | a sum of fractions times its denominators is a polynomial of lower degree than there are fractions |
| LogUp.MergedNet | miden-vm/processor/src/trace/chiplets/aux_trace/wiring_bus.rs:42-67 | collecting equal denominators keeps every net multiplicity |
| LogUp.LogUpBound | miden-vm/processor/src/trace/chiplets/aux_trace/wiring_bus.rs:42-67 | if some value has a nonzero net multiplicity, the sum is zero at fewer points than there are fractions |
| LogUp.LogUpCloses | miden-vm/processor/src/trace/chiplets/aux_trace/wiring_bus.rs:42-67 | if all net multiplicities are zero, so is the sum, everywhere |
| Claims.NetIsDifference | miden-vm/processor/src/trace/chiplets/aux_trace/wiring_bus.rs:42-67 | the net multiplicity of a wire is how often it is sent less how often it is read |
| Claims.UnbalancedRarelyCloses | miden-vm/processor/src/trace/chiplets/ace/mod.rs:142-156 | messages with an unbalanced one close the sum for at most 16 N |A| + 2 N |B| pairs of challenges, poles included |
| WiringSoundness.ColumnTotal | miden-vm/processor/src/trace/chiplets/aux_trace/wiring_bus.rs:36-70 | every column that adds up the rows ends at the sum of fractions of all wire messages, whatever the rows hold |
| WiringSoundness.MiswiredRarelyCloses | miden-vm/processor/src/trace/chiplets/aux_trace/wiring_bus.rs:36-72 | if some wire is not read as often as it is sent, at most that many pairs of challenges let any column end at zero |
| VmField.MiswiredRarelyClosesInVm | miden-vm/processor/src/trace/chiplets/ace/mod.rs:142-156 | in the field in use, with the bus messages in use: at most 18 N P^2 of the P^4 pairs |
| Circuit.Eval | miden-vm/crates/ace-codegen/src/circuit.rs:57-75 | the loop computes the value of the root, and fails exactly on a wrong number of inputs |
| Circuit.TranslationSound | miden-vm/crates/ace-codegen/src/circuit.rs:92-157 | every wire of the emitted circuit has the value of its DAG node |
| Circuit.Pool | miden-vm/crates/ace-codegen/src/circuit.rs:92-157 | constants are pooled: an equal one is reused, otherwise one is appended |
| Circuit.EmitNode | miden-vm/crates/ace-codegen/src/circuit.rs:92-157 | one node is translated, or its input key is missing from the layout |
| Circuit.EmitCircuit | miden-vm/crates/ace-codegen/src/circuit.rs:92-157 | for every DAG and input vector the circuit computes the DAG root; emission fails exactly when a key is missing; a last-node root becomes the last gate |
| Encoding.DecodePack | miden-vm/processor/src/trace/chiplets/ace/instruction.rs:34-48 | decoding a packed instruction gives back both operands and the operator |
| Encoding.PackDecode | miden-vm/processor/src/trace/chiplets/ace/instruction.rs:34-48 | packing what a valid word decodes to gives that word back, so decoding is injective |
| Encoding.PushConstants | miden-vm/crates/ace-codegen/src/encode.rs:98-197 | constants are written as coordinate pairs and padded with zeros to the block |
| Encoding.PushGates | miden-vm/crates/ace-codegen/src/encode.rs:98-197 | gate k becomes the instruction with the ids of its operands, followed by padding gates |
| Encoding.PaddedGatesOrdered | miden-vm/crates/ace-codegen/src/encode.rs:98-197 | padding gates read only earlier wires |
| Encoding.ToAce | miden-vm/crates/ace-codegen/src/encode.rs:98-197 | the three failures under their exact conditions; otherwise the stream holds the constants and one instruction per gate, in order |
| AceChiplet.CircuitEvaluation.Insert | miden-vm/processor/src/trace/chiplets/ace/trace.rs:308-314 | a value gets the next id, counted down from the number of wires, with multiplicity zero |
| AceChiplet.CircuitEvaluation.ReadValue | miden-vm/processor/src/trace/chiplets/ace/trace.rs:318-326 | reading a wire returns its value and raises its multiplicity by one; it fails exactly on ids not inserted yet |
| AceChiplet.CircuitEvaluation.DoRead | miden-vm/processor/src/trace/chiplets/ace/trace.rs:99-112 | two values are inserted and one row recorded |
| AceChiplet.CircuitEvaluation.DoEval | miden-vm/processor/src/trace/chiplets/ace/trace.rs:116-161 | the operator is applied to the two wires named; it fails exactly on an undecodable word or an unknown wire |
| AceChiplet.GateRecorded | miden-vm/processor/src/trace/chiplets/ace/trace.rs:116-161 | after each gate every multiplicity is the number of times the wire was read |
| AceChiplet.ReadRecorded | miden-vm/processor/src/trace/chiplets/ace/trace.rs:99-112 | the same after each read row |
| AceChiplet.LoadVariables | miden-vm/processor/src/execution/operations/eval_circuit.rs:98-104 | memory words become the first wires, in order; it fails exactly on an unaligned or too large address |
| AceChiplet.RunInstructions | miden-vm/processor/src/execution/operations/eval_circuit.rs:105-110 | the wires after the run are those of the program semantics, or the run stops where that gets stuck or an address is too large |
| AceChiplet.EvalCircuit | miden-vm/processor/src/execution/operations/eval_circuit.rs:54-118 | accepted exactly when the sizes are allowed, the circuit at the address can be read, every instruction runs and the last wire is zero |
| Execution.RunMatches | miden-vm/crates/ace-codegen/src/encode.rs:98-197 | after k instructions wire k of the chiplet holds gate k of the circuit |
| Execution.PaddingVanishes | miden-vm/crates/ace-codegen/src/encode.rs:98-197 | the padding gates carry the last gate to the end without changing whether it is zero |
| Execution.AcceptsLastGate | miden-vm/processor/src/execution/operations/eval_circuit.rs:54-118 | the chiplet accepts an encoded circuit at any address exactly when it can be read and its last gate is zero |
| Execution.AcceptsIffZero | miden-vm/processor/src/execution/operations/eval_circuit.rs:54-118 | if the root is the last gate, it accepts exactly when it can be read and the circuit evaluates to zero |
| Pipeline.BuildBatchedAceCircuit | miden-vm/air/src/ace.rs:293-306 | batching then emission: the circuit computes the batched value for every input vector, with the root last |
| Pipeline.RunEncoded | miden-vm/processor/src/execution/operations/eval_circuit.rs:54-118 | with inputs and instructions placed at any address the chiplet accepts exactly when they can be read and the last gate is zero |
| Pipeline.VerifyOnChiplet | miden-vm/air/src/ace.rs:293-306 | compile, encode, run: accepted exactly when constraint + gamma product + gamma^2 sum is zero |
| Pipeline.VerifyAirOnChiplet | miden-vm/crates/ace-codegen/src/pipeline.rs:64-79 | from symbolic constraints to the verdict: accepted exactly when the verifier equation with the batched checks holds |
| Pipeline.RunDag | miden-vm/crates/ace-codegen/src/circuit.rs:92-157 | emit, encode and run any DAG that ends in an operation: accepted exactly when its last node, root or not, is zero |
| Pipeline.RootMustBeLast | miden-vm/crates/ace-codegen/src/encode.rs:98-197 | a DAG with its root before its last node is accepted although its value is one |
| VmField.VerifyInVm | miden-vm/air/src/ace.rs:209-306 | the same at the extension field and with the boundary checks of the virtual machine |
| Lowering.LowerCoords | miden-vm/crates/ace-codegen/src/dag/lower.rs:154-208 | coordinate inputs are combined over the basis into the extension value |
| Lowering.LowerLeaf | miden-vm/crates/ace-codegen/src/dag/lower.rs:105-208 | every kind of leaf gets a node with the value of the leaf |
| Lowering.LowerExpr | miden-vm/crates/ace-codegen/src/dag/lower.rs:105-208 | for every expression and assignment the node evaluates to the expression |
| Lowering.HornerEval | miden-vm/crates/ace-codegen/src/dag/lower.rs:311-321 | the nodes compute the polynomial with the first coefficient constant, by Horner |
| Lowering.PointFor | miden-vm/crates/ace-codegen/src/dag/lower.rs:272-309 | the cached point is z_k squared the right number of times |
| Lowering.PeriodicPoint | miden-vm/crates/ace-codegen/src/dag/lower.rs:289-302 | the point of a column is z_k to the largest power of two within max period / period, and to exactly that ratio when both are powers of two |
| Lowering.LowerPeriodic | miden-vm/crates/ace-codegen/src/dag/lower.rs:272-309 | column i gets a node that evaluates its polynomial at the point for its period |
| ConstraintOrder.SortedIsStable | miden-vm/crates/ace-codegen/src/dag/lower.rs:240-249 | the merge keeps all constraints, sorts by position and keeps the order of equal positions |
| ConstraintOrder.OrderedInPlace | miden-vm/crates/ace-codegen/src/dag/lower.rs:240-249 | when the positions number the constraints, each base and extension constraint ends up at its own |
| Lowering.LowerConstraints | miden-vm/crates/ace-codegen/src/dag/lower.rs:251-260 | the accumulator folds the constraints in order, the first having the highest power of alpha |
| Lowering.DeltasAndWeights | miden-vm/crates/ace-codegen/src/quotient.rs:86-108 | delta i is z^N - s0 f^i and weight i is weight0 f^i |
| Lowering.LowerQuotient | miden-vm/crates/ace-codegen/src/quotient.rs:15-62 | the node evaluates to the sum of weight, product of the other deltas, and chunk |
| Lowering.BuildVerifierDag | miden-vm/crates/ace-codegen/src/dag/lower.rs:215-270 | for every constraint system and assignment the root is folded constraints minus quotient times (z^N - 1); gamma does not occur |
| Lowering.FoldedIsPoly | miden-vm/crates/ace-codegen/src/dag/lower.rs:215-260 | the folded value is a polynomial in alpha with the constraint values as coefficients |
| Lowering.FoldingIsSound | miden-vm/crates/ace-codegen/src/dag/lower.rs:215-260 | if a constraint is violated, fewer alpha than constraints make the folded value vanish |
| Lowering.FoldingOrderExactly | miden-vm/crates/ace-codegen/src/dag/lower.rs:16-25 | folding in the documented order agrees with the code, at as many alpha as there are constraints, exactly when the constraint values read the same backwards |
| Lowering.CoefficientOrderExactly | miden-vm/crates/ace-codegen/src/dag/ir.rs:60-65 | the same for the documented order of periodic coefficients |
| Interpolation.BarycentricInterpolates | miden-vm/crates/ace-codegen/src/dag/lower.rs:46-61 | the barycentric formula is the value of every polynomial of matching degree that takes the given values at the points |
| Interpolation.CosetWeights | miden-vm/crates/ace-codegen/src/dag/lower.rs:46-61 | weight0 f^i are the right weights when weight0 = 1 / (k s0^(k-1)) and f is a k-th root of one |
| Quotient.TermsAgree | miden-vm/crates/ace-codegen/src/quotient.rs:15-62 | the lowered sum is that formula at the coset shifts |
| Quotient.QuotientInterpolates | miden-vm/crates/ace-codegen/src/quotient.rs:15-62 | the recomposed quotient is the value at z^N of the polynomial that takes the chunk values at the shifts |
| MainTrace.VmLayout | miden-vm/air/src/trace/mod.rs:34-129 | with the widths in use there is no padding: the padded width is the trace width |
| MainTrace.Get | miden-vm/air/src/trace/main_trace.rs:169-212 | a cell exists exactly within rows and width, in all three layouts |
| MainTrace.PartsRow | miden-vm/air/src/trace/main_trace.rs:169-212 | in the split layout a row is core, range checker, chiplets and zeros, in this order |
| MainTrace.FillWholeParts | miden-vm/air/src/trace/main_trace.rs:248-264 | the row is written left to right, once, with its logical contents |
| MainTrace.FillStrippedParts | miden-vm/air/src/trace/main_trace.rs:367-390 | what one stripped row receives, for every target width from the core width on, the misplaced zero fill included |
| MainTrace.StrippedRowExact | miden-vm/air/src/trace/main_trace.rs:367-390 | a stripped row is right, each cell written once, exactly when the target width is within the trace width; beyond it a cell is written twice and the last never |
| MainTrace.FillRows | miden-vm/air/src/trace/main_trace.rs:248-264 | the rows of a slice are filled and no other cell changes |
| MainTrace.FillChunk | miden-vm/air/src/trace/main_trace.rs:268-278 | chunk c fills rows c R up to the next chunk, whatever the others hold |
| MainTrace.FillChunks | miden-vm/air/src/trace/main_trace.rs:240-279 | for every row count, chunk size and order of chunks every cell is written exactly once, with the logical contents |
| MainTrace.SequentialSchedule | miden-vm/air/src/trace/main_trace.rs:265-266 | the sequential fill is the schedule with one chunk |
| MainTrace.ToRowMajor | miden-vm/air/src/trace/main_trace.rs:225-282 | the exported matrix has every logical row, from every layout |
| MainTrace.ToRowMajorStripped | miden-vm/air/src/trace/main_trace.rs:285-409 | the first target-width columns, from every layout |
| MainTrace.ExportsAgree | miden-vm/air/src/trace/main_trace.rs:240-279 | chunked and sequential exports of one width are the same matrix |
| MainTrace.Transpose | miden-vm/air/src/trace/main_trace.rs:225-228 | row c of the result is column c |
| MainTrace.TransposedTrace | miden-vm/air/src/trace/main_trace.rs:160-167 | a trace from the transpose of a matrix has the cells of the trace from the matrix |
| MainTrace.RebuiltTrace | miden-vm/air/src/trace/main_trace.rs:126-167 | rebuilding a trace from its export, row-major or transposed, changes no cell, in or out of range |
| MainTrace.ReadRowInto | miden-vm/air/src/trace/main_trace.rs:424-452 | the front of the buffer is the logical row, the rest is untouched |
| MainTrace.GetColumn | miden-vm/air/src/trace/main_trace.rs:455-483 | cell by cell what Get gives; out of range: zeros, nothing or a panic, by layout |
| ChainStore.Store.constructor | miden-client/crates/sqlite-store/src/store.sql:203-217 | a new database is empty with sync height 0 |
| ChainStore.Store.SetHasClientNotes | miden-client/crates/sqlite-store/src/chain_data.rs:411-423 | one flag can only be raised; nothing else changes |
| ChainStore.Store.InsertBlockHeader | miden-client/crates/sqlite-store/src/chain_data.rs:203-229 | a new row, or the old row with the flag raised |
| ChainStore.Store.InsertNodes | miden-client/crates/sqlite-store/src/chain_data.rs:189-197 | nodes already stored win over new ones |
| ChainStore.Store.ApplyStateSync | miden-client/crates/sqlite-store/src/sync.rs:115-134 | the height moves only forward, then headers and nodes are inserted in order |
| ChainStore.Store.PruneIrrelevantBlocks | miden-client/crates/sqlite-store/src/chain_data.rs:238-293 | nodes removed, flags taken down, and exactly the unflagged headers strictly between genesis and sync height deleted |
| ChainStore.Store.GetNodes | miden-client/crates/sqlite-store/src/chain_data.rs:117-154 | exactly the stored nodes that the filter selects |
| ChainStore.TrackedAfterPrune | miden-client/crates/sqlite-store/src/chain_data.rs:238-293 | a prune leaves exactly the tracked blocks it does not untrack, whatever headers it deletes |
| ChainStore.TrackedExactly | miden-client/crates/sqlite-store/src/chain_data.rs:102-115 | over every run a block is tracked at the end exactly when it was tracked or flagged at some point and no later prune untracked it |
| ChainStore.StepKeeps | miden-client/crates/sqlite-store/src/chain_data.rs:203-293 | one step of any kind: height not lowered, a header that stays is not overwritten, only a prune removes or unflags |
| ChainStore.HeightNeverFalls | miden-client/crates/sqlite-store/src/sync.rs:115-121 | over every run the sync height never decreases |
| ChainStore.SafeHeadersSurvive | miden-client/crates/sqlite-store/src/chain_data.rs:238-293 | over every run genesis, headers at or above the final height, and flagged headers never untracked stay byte for byte, and those flags stay up |
| ChainStore.LostOnlyByPrune | miden-client/crates/sqlite-store/src/chain_data.rs:238-293 | over every run a header disappears exactly through a prune that finds it unflagged between genesis and the sync height |
| ChainStore.PrunedClean | miden-client/crates/sqlite-store/src/chain_data.rs:276-290 | after a run that ends with a prune every header strictly between genesis and the height is flagged |
| ChainStore.PruneTwice | miden-client/crates/sqlite-store/src/chain_data.rs:238-293 | two prunes with the height moved between are one prune at the later height with both lists |
| ChainStore.RoundsAreOnePrune | miden-client/crates/sqlite-store/src/chain_data.rs:238-293 | any number of rounds of moving and pruning is one prune at the highest height with all lists |
| ChainStore.InsertTwice | miden-client/crates/sqlite-store/src/chain_data.rs:203-229 | two inserts of a block are one, with the first data and either flag |
| ChainStore.InsertsCommute | miden-client/crates/sqlite-store/src/chain_data.rs:203-229 | inserts of different blocks commute |
| ChainStore.Client.MaybePrune | miden-client/crates/rust-client/src/sync/mod.rs:207-275 | prunes exactly when due, fails exactly without a sync height; untracks in ascending order the tracked blocks that are not live, removes the nodes each frees, and leaves the live ones tracked |
| Tokens.Split | miden-client/crates/rust-client/src/utils.rs:64-65 | the loop computes the parts between points |
| Tokens.PartsJoin | miden-client/crates/rust-client/src/utils.rs:64-65 | joining the parts with points gives the string back |
| Tokens.PartsHoldNoPoint | miden-client/crates/rust-client/src/utils.rs:64-65 | no part holds a point, so the parts are determined |
| Tokens.TrimLength | miden-client/crates/rust-client/src/utils.rs:79-89 | a trimmed fraction is too long exactly when a nonzero digit lies beyond n places |
| Tokens.PaddedValue | miden-client/crates/rust-client/src/utils.rs:79-94 | trimming and padding a fraction rescales its value exactly |
| Tokens.CombinedParse | miden-client/crates/rust-client/src/utils.rs:96-100 | the combined digits parse to the exact amount, or fail exactly when it exceeds u64 |
| Tokens.TokensToBaseUnits | miden-client/crates/rust-client/src/utils.rs:59-101 | each error exactly under its condition; otherwise v 10^|F| = (I 10^|F| + F) 10^n |
| Tokens.Decimal | miden-client/crates/rust-client/src/utils.rs:24-25 | the decimal string of a number has that value |
| Tokens.PrintedParts | miden-client/crates/rust-client/src/utils.rs:24-41 | a printed amount is an integer part and exactly d digits that make the amount |
| Tokens.PrintThenParse | miden-client/crates/rust-client/src/utils.rs:24-101 | printing then parsing gives Ok(u) for every u64 and every d up to 12 |
| Runner.StepKeeps | miden-client/bin/integration-tests/src/main.rs:656-812 | every step keeps queued + in flight + finished as one multiset and shortens the rest of the run by exactly one |
| Runner.RunKeeps | miden-client/bin/integration-tests/src/main.rs:656-812 | the same over every interleaving |
| Runner.RunsComplete | miden-client/bin/integration-tests/src/main.rs:632-821 | a run has at most 3 n + jobs steps, exactly that many when all workers have left, and then every test has exactly one attempt |
| Runner.RunTestsParallel | miden-client/bin/integration-tests/src/main.rs:599-822 | under every scheduler and all outcomes it is a run of the interleaving semantics from start to end, the results hold each test once with what that test reported when it ran, and without workers there are none |
| Runner.Record | miden-client/bin/integration-tests/src/main.rs:584-588 | each attempt goes to the first result of its name and nowhere else |
| Runner.FailedTests | miden-client/bin/integration-tests/src/main.rs:569-582 | the tests registered under a failed name run again, as often as they are registered |
| Runner.FailedOnce | miden-client/bin/integration-tests/src/main.rs:569-582 | with distinct registered names exactly the failed tests run again, once each |
| Runner.RunTestsWithRetries | miden-client/bin/integration-tests/src/main.rs:551-592 | one result per test with at least one attempt; with distinct registered names 1 to retry_count + 1 attempts, all but the last failed, and a test failed in the end used all; the attempts of a test are what it reported in the successive rounds |
| Goldilocks.ModulusIsPrime | miden-vm/crates/assembly/src/instruction/ext2_ops.rs:103-115 | 2^64 - 2^32 + 1 is prime |
| Goldilocks.InverseCorrect | miden-vm/processor/src/tracer.rs:490-503 | every nonzero element has the inverse that the helper registers need |
| Goldilocks.BaseFieldIsField | miden-vm/air/src/constraints/stack/stack_arith/mod.rs:75-104 | base-field arithmetic obeys the field laws |
| QuadField.ExtensionIsField | miden-vm/air/src/constraints/ext_field.rs:71-77 | the extension with u^2 = 7 obeys the field laws |
| QuadField.SevenIsNoSquare | miden-vm/crates/assembly/src/instruction/ext2_ops.rs:103-115 | seven is not a square in the base field, so x^2 - 7 is irreducible |
| QuadField.ThreeMultiplications | miden-vm/air/src/constraints/stack/stack_arith/mod.rs:168-188 | the EXT2MUL constraint form is the extension product |
| U32.MaddFits | miden-vm/processor/src/execution/operations/u32_ops/mod.rs:179-206 | a b + c stays below the modulus for 32-bit operands |
| U32.LimbValues | miden-vm/air/src/constraints/stack/stack_arith/mod.rs:193-197 | the 16-bit helpers recompose the two halves without wrapping |
| U32.CanonicalHalves | miden-vm/air/src/constraints/stack/stack_arith/mod.rs:199-205 | halves are canonical exactly when the low one is zero or the high one is not all ones |
| U32.ValidityMeaning | miden-vm/air/src/constraints/stack/stack_arith/mod.rs:199-205 | the validity check holds only for canonical halves, and holds for them with the inverse helper |
| U32.SplitSound | miden-vm/air/src/constraints/stack/stack_arith/mod.rs:199-220 | range-checked helpers that meet split constraints are the unique canonical halves |
| U32.SplitComplete | miden-vm/air/src/constraints/stack/stack_arith/mod.rs:199-220 | the helpers of the processor meet them |
| U32.HelpersRecompose | miden-vm/processor/src/tracer.rs:490-600 | the helper registers of two 32-bit values are range-checked and recompose them |
| U32.SubSound | miden-vm/air/src/constraints/stack/stack_arith/mod.rs:229-236 | a borrow bit and a 32-bit difference that satisfy the constraint are those of wrapping subtraction |
| U32.HalvesExact | miden-vm/air/src/constraints/stack/stack_arith/mod.rs:199-240 | for split, add, add3, mul and madd the constraints force the result of the processor, and its helpers meet them |
| U32.ConstraintsAreComplete | miden-vm/air/src/constraints/stack/stack_arith/mod.rs:190-257 | for all eight operations what the processor computes meets the constraints with its own helpers |
| U32.DivisionRows | miden-vm/air/src/constraints/stack/stack_arith/mod.rs:241-248 | some range-checked helpers go with a row exactly when b q + r = a, 0 <= q <= a and b - 2^32 <= r < b, the remainder taken modulo P |
| U32.DivisionForced | miden-vm/air/src/constraints/stack/stack_arith/mod.rs:241-248 | division is forced when a / b = a or a mod b < 2 b - 2^32 |
| U32.DivisionOpen | miden-vm/air/src/constraints/stack/stack_arith/mod.rs:241-248 | otherwise the row with the next larger quotient and a negative remainder also meets the constraints |
| U32.DivisionWithSmallRemainder | miden-vm/air/src/constraints/stack/stack_arith/mod.rs:241-248 | a row that meets them and has a 32-bit remainder is always that of the processor |
| U32.FiveByThree | miden-vm/docs/src/design/stack/u32_ops.md:252-265 | 5 by 3: the row with quotient 2 and remainder -1 meets the constraints, so they do not by themselves enforce 0 <= r < s0 |
| U32.ConstraintsAreExact | miden-vm/air/src/constraints/stack/stack_arith/mod.rs:190-257 | for all eight operations on 32-bit operands the constraints hold exactly for what the processor computes, except for division exactly where it is not determined |
| U32.EqualityIsExact | miden-vm/air/src/constraints/stack/stack_arith/mod.rs:128-136 | some witness meets the EQ constraint exactly when the result is the truth value |
| Transcript.PrecompileTranscript.Record | miden-vm/core/src/precompile.rs:359-376 | the transcript state stays that of the commitments recorded so far, with this one added |
| Transcript.PrecompileTranscript.Finalize | miden-vm/core/src/precompile.rs:378-393 | the digest of a new transcript is the sequential hash of all COMM, TAG pairs recorded and two zero words; from any other start, the full sponge absorbing them |
| Transcript.CapacityIsEnough | miden-vm/core/src/precompile.rs:328-340 | keeping only the capacity gives the same state as the full overwrite-mode sponge |
| Transcript.FinalizeIsAbsorb | miden-vm/core/src/precompile.rs:378-393 | squeezing the kept capacity is absorbing two zero words into the full sponge |
| Transcript.RecordedConcat | miden-vm/core/src/precompile.rs:359-376 | transcripts compose through the state |
| Transcript.StatesChain | miden-vm/core/src/precompile.rs:359-376 | the states form a chain from the first to the last, one commitment a step |
| Transcript.RegistrationIsLocal | miden-vm/core/src/precompile.rs:241-250 | registering a verifier changes no outcome of requests for other events, and decides those for its own |
| Transcript.RequestedEventsDecide | miden-vm/core/src/precompile.rs:267-287 | registries that agree on the events of a list of requests accept it with equal commitments or fail at the same place |
| Transcript.PrecompileVerifierRegistry.Merge | miden-vm/core/src/precompile.rs:252-258 | all entries of the other registry win |
| Transcript.PrecompileVerifierRegistry.RequestsTranscript | miden-vm/core/src/precompile.rs:267-287 | succeeds exactly when every request is accepted, with the recorded commitments in order; otherwise reports the least failing index and why |
| Transcript.ConcatenatedRequests | miden-vm/core/src/precompile.rs:267-287 | over concatenated lists success, state and failing index compose |
| Vlpi.PadMessage | miden-vm/air/src/config.rs:137-140 | leading zeros to a multiple of 8, then the message backwards |
| Vlpi.ObserveGroup | miden-vm/air/src/config.rs:128-143 | panics exactly on a zero width or a partial message; otherwise absorbs (length / w) blocks |
| Vlpi.RecoverStream | miden-vm/air/src/config.rs:118-144 | the group can be read back from its stream |
| Vlpi.StreamInjective | miden-vm/air/src/config.rs:118-144 | distinct groups of one width, of any lengths, have distinct streams |
| Vlpi.ObserveVarLenPublicInputs | miden-vm/air/src/config.rs:118-144 | all groups in order, with the panics under their exact conditions |
| Vlpi.StreamsInjective | miden-vm/air/src/config.rs:118-144 | several groups with equal message counts are told apart |
| Vlpi.ConfusableExactly | miden-vm/air/src/config.rs:118-144 | groups with n and with n' messages can share a stream exactly when both absorb the same number of elements |
| Vlpi.ToldApartExactly | miden-vm/air/src/config.rs:118-144 | for any positive widths the stream determines the groups exactly when there is at most one group |
| Vlpi.MovedMessage | miden-vm/air/src/config.rs:118-144 | not only zeros are confused: any message moved to a neighbouring group of the same width leaves the stream unchanged |
| ReducedAux.ColumnsLaidOut | miden-vm/air/src/trace/mod.rs:133-190 | with sections of 3, 1, 1, 1, 1 and 1 columns one after another, each of the eight columns is at the index the check reads it from, so six enter the product and two the sum, each once |
| Labels.LabelsApart | miden-vm/air/src/trace/chiplets/kernel_rom.rs:11-14 | a label determines the chiplet and, among equally many selectors, the operation, for any number of chiplets |
| Labels.LabelsFromSelectors | miden-vm/air/src/trace/chiplets/memory.rs:24-47 | each of the fifteen labels is one more than its selectors with the bits reversed |
| Labels.LabelsAreUnique | miden-vm/air/src/trace/chiplets/memory.rs:24-28 | no two operations share a label |
| SumCheck.BalancedSum | miden-vm/air/src/lib.rs:374-377 | claims in which every message is read as often as it is sent have fractions that cancel, at all challenges |
| SumCheck.SumTelescopes | miden-vm/air/src/lib.rs:374-377 | a LogUp column ends at the sum of the fractions of all rows |
| SumCheck.SumIsBoth | miden-vm/air/src/lib.rs:374-377 | the verifier's sum is the sum of the fractions of both columns together |
| SumCheck.UnbalancedSumRarelyPasses | miden-vm/air/src/lib.rs:374-377 | if some message is not read as often as it is sent over both columns, few pairs of challenges let any columns pass |
| SumCheck.VerifyHonest | miden-vm/air/src/lib.rs:276-378 | the check returns exactly prod = 1 and sum = 0 on every trace whose six product columns and two LogUp columns are honest and balanced |
| LogUpFinals.FinalsExactly | miden-vm/air/src/lib.rs:374-377 | the wiring column ends at the fractions of the range checks asked for on it, and when the sum is zero either column ends at zero exactly when these cancel |
| LogUpFinals.LookupsRarelyCancel | miden-vm/air/src/constraints/chiplets/bus/wiring.rs:199-234 | once some value is asked for, few pairs of challenges let the wiring column end at zero |
| LogUpFinals.OneLookup | miden-vm/air/src/constraints/chiplets/bus/wiring.rs:199-234 | with a single range check the sum is zero and neither final is |
| AceAir.DecodesAsConstrained | miden-vm/processor/src/trace/chiplets/ace/instruction.rs:34-48 | a word decodes to two identifiers and an operator exactly when it is l + r 2^30 + (e + 1) 2^60 with e the sign of the operator; as field elements this is the word the chiplet asks memory for, and the operator computes e^2 (u + e v) + (1 - e^2) u v |
| AceAir.WordOfNats | miden-vm/air/src/constraints/chiplets/bus/hash_kernel.rs:151-163 | the requested word of two integer identifiers and an operator is the integer l + r 2^30 + (e + 1) 2^60 |
| AceAir.GateIsApply | miden-vm/air/src/constraints/chiplets/ace.rs:157-189 | with the operator column at -1, 0 or 1 the constraint asks for the difference, the product or the sum |
| AceAir.TernaryOp | miden-vm/air/src/constraints/chiplets/ace.rs:157-164 | the operator constraint admits no other field element |
| AceAir.RowMeaning | miden-vm/air/src/constraints/chiplets/ace.rs:74-189 | the polynomial constraints on a row hold exactly when it is a well-formed READ or EVAL row |
| AceAir.StepMeaning | miden-vm/air/src/constraints/chiplets/ace.rs:90-151 | those on two rows hold exactly when the second continues the section or the first ends it |
| AceShape.SectionShape | miden-vm/air/src/constraints/chiplets/ace.rs:47-210 | every section has READ rows, then EVAL rows, with identifiers counting down to zero, pointers moving by four and by one, and the announced number of EVAL rows |
| AceShape.ShapeSection | miden-vm/air/src/constraints/chiplets/ace.rs:47-210 | all rows of that shape are a section |
| AceShape.ConstrainedIffSections | miden-vm/air/src/constraints/chiplets/ace.rs:47-210 | a trace meets all constraints of the chiplet exactly when it is a nonempty sequence of sections |
| AceSoundness.ReadWasSent | miden-vm/air/src/constraints/chiplets/bus/wiring.rs:139-197 | when the claims balance in the field and are fewer than its characteristic, every message read has been sent |
| AceSoundness.OperandIsWire | miden-vm/air/src/constraints/chiplets/bus/wiring.rs:139-197 | so every operand in a section is the value that the section assigned to that identifier |
| AceSoundness.WordDecodes | miden-vm/air/src/constraints/chiplets/bus/hash_kernel.rs:151-163 | a canonical word that an EVAL row asks for decodes to the row's identifiers and operator |
| AceSoundness.RequestedSizes | miden-vm/air/src/constraints/chiplets/bus/chiplets.rs:1218-1253 | the section that answers a request has exactly the requested variables and instructions |
| AceSoundness.RunIsUnique | miden-vm/processor/src/trace/chiplets/ace/trace.rs:116-161 | wires that satisfy every gate of a program that runs are the wires of its run |
| AceSoundness.SectionRunsToZero | miden-vm/air/src/constraints/chiplets/ace.rs:47-210 | soundness of the chiplet: constraints, memory answers and balanced wires together show that the requested program runs to zero, if it runs |
| AceSoundness.BalancedCircuitIsZero | miden-vm/air/src/constraints/chiplets/ace.rs:47-210 | for an encoded circuit in memory they show that its last gate is zero on its inputs |
| AceSoundness.FalseCircuitRarelyPasses | miden-vm/air/src/lib.rs:374-377 | a trace that meets the constraints for a circuit whose last gate is not zero passes the sum check for at most 16 N |A| + 2 N |B| pairs of challenges |
| AceFill.Fill | miden-vm/processor/src/trace/chiplets/ace/trace.rs:163-241 | the rows are filled column by column from the recorded evaluation, each multiplicity going to its wire |
| AceFill.RunSatisfies | miden-vm/processor/src/trace/chiplets/ace/trace.rs:116-161 | every wire of a run is what its instruction computes |
| AceFill.FilledMeets | miden-vm/processor/src/trace/chiplets/ace/trace.rs:163-241 | completeness of the chiplet: the rows filled for an accepted circuit meet all constraints, answer the request and agree with memory |
| AceFill.FilledBalances | miden-vm/processor/src/trace/chiplets/ace/trace.rs:163-241 | they add nothing to the wiring column, at any challenges |
| AceFill.EvaluateAndFill | miden-vm/processor/src/execution/operations/eval_circuit.rs:54-118 | evaluation succeeds exactly when the chiplet accepts, and then the filled rows have all these properties |
| VmField.FalseCircuitRarelyPassesInVm | miden-vm/air/src/lib.rs:374-377 | the same in the virtual machine's field, with no hypothesis on the field left: at most 18 N P^2 of the P^4 pairs |
| Runner.RunReports | miden-client/bin/integration-tests/src/main.rs:656-812 | over every interleaving the results, with those about to be pushed, are exactly what the steps so far reported |
| Runner.FinishedReports | miden-client/bin/integration-tests/src/main.rs:632-821 | when all workers have left, the results are exactly what the attempts reported, as a multiset of names and outcomes |
| Runner.StartOrder | miden-client/bin/integration-tests/src/main.rs:656-680 | over every interleaving the tests started, followed by those still queued, are the list from its end |
| Runner.SteadyOutcomes | miden-client/bin/integration-tests/src/main.rs:551-592 | a test that always fails is reported failed after retry_count + 1 attempts; one that always passes after one |
| ChainStore.HeightAfterStep | miden-client/crates/sqlite-store/src/sync.rs:115-121 | a sync sets the height to the larger of the old height and its block; no other step changes it |
| ChainStore.HeightExactly | miden-client/crates/sqlite-store/src/sync.rs:115-121 | over every run the height is the largest of the initial one and all synced block numbers |
| ChainStore.RowAfterStep | miden-client/crates/sqlite-store/src/chain_data.rs:203-293 | after any step a header is stored exactly when it was and the step does not prune it, or the place was empty and the step is the first to bring it |
| ChainStore.RowsExactly | miden-client/crates/sqlite-store/src/chain_data.rs:203-293 | over every run a header and its peaks are stored at the end exactly when they were at the start and no prune deleted them, or some step brought them to an empty place and no later prune deleted them |
| ChainStore.NodeAfterStep | miden-client/crates/sqlite-store/src/chain_data.rs:189-293 | after any step a node is stored exactly when it was and is not removed, or the place was empty and the step brings it |
| ChainStore.NodesSurvive | miden-client/crates/sqlite-store/src/chain_data.rs:189-293 | over every run a stored node that no prune removes stays as it is |
| ChainStore.ForestSelects | miden-client/crates/sqlite-store/src/chain_data.rs:117-154 | the filter for a forest selects exactly the indices up to the rightmost one, the one for all nodes every index, and the empty filters none |
| ChainStore.FreedExactly | miden-client/crates/rust-client/src/sync/mod.rs:256-266 | the nodes removed are exactly those that untracking some block frees, given the blocks untracked before it |
| ChainStore.AscendingUnique | miden-client/crates/rust-client/src/sync/mod.rs:241-248 | the ascending order in which blocks are untracked is determined by the set |
| ChainStore.Cadence | miden-client/crates/rust-client/src/sync/mod.rs:207-226 | over any sync heights, prunes are at least the interval apart, the first height prunes, and every height without a prune is within the interval of one |
| TraceSemantics.LoweredOnRow | miden-vm/crates/ace-codegen/src/dag/lower.rs:105-208 | lowered constraints evaluated with the columns of a trace row are the constraints on that row, leaf by leaf |
| TraceSemantics.PeriodicOnRow | miden-vm/crates/ace-codegen/src/dag/lower.rs:272-309 | when the coefficients interpolate a periodic column over its cycle, the periodic leaf is the column's entry at the row |
| TraceSemantics.AuxOnRow | miden-vm/crates/ace-codegen/src/dag/lower.rs:154-208 | the coordinates of an auxiliary column combine to its entry |
| TraceSemantics.SelectorsSelect | miden-vm/crates/ace-codegen/src/dag/lower.rs:28-39 | on the trace domain the first, last and transition selectors are nonzero exactly on their rows |
| TraceSemantics.SelectorsOffDomain | miden-vm/crates/ace-codegen/src/dag/lower.rs:28-39 | at every point they are the documented quotients of z^N - 1 |
| TraceSemantics.ChunksCombine | miden-vm/crates/ace-codegen/src/quotient.rs:15-62 | a chunk of the quotient is read from its own coordinates |
| Quotient.HonestQuotientPasses | miden-vm/crates/ace-codegen/src/dag/lower.rs:215-270 | if the chunks are the values at the shifts of a polynomial whose value at z^N times z^N - 1 is the folded constraints, the verifier's equation holds |
| U32.ExecuteMeans | miden-vm/processor/src/execution/operations/u32_ops/mod.rs:54-320 | when each operation runs, and what its two results are as integers |
| Tokens.LargestAmount | miden-client/crates/rust-client/src/utils.rs:111-113 | an amount is a 64-bit number of units, at most 18,446,744 whole tokens with the most decimals, and that is reached |

## Left out

- Proving and verifying STARK proofs, FRI and hashing: library code; the permutation is a parameter.
- Execution, decoding, stack and memory constraints, MAST forests and serialization of proofs.
- The operations U32AND and U32XOR, which are bus requests.
- The processor's stack depth and range-check recording; an operation is its effect on the top of the stack.
- Panics on preprocessed columns while lowering constraints: base and extension constraints share one expression type
  without them.
- The order in which inputs are laid out for the circuit: a layout is any map from keys to slots.
- The inverse transform that turns periodic columns into coefficients: `TraceSemantics.PeriodicOnRow` takes coefficients
  that interpolate the column.
- Placing the circuit chiplet's rows among the other chiplets, and the selector columns that mark its region.
- Database errors, connections and rollbacks.
- Subprocesses, printing, timing and filtering in the test runner.
- Wiring.WiringColumn: leaves out the range-check and hasher running sums that are added to the column afterwards,
  because they are separate sums with their own buses.
- ChainStore.Store.ApplyStateSync: leaves out accounts, notes, tags and transactions, which do not touch these tables.
- ChainStore.Client.MaybePrune: takes the blocks with unspent notes, and the nodes that the partial MMR frees for each
  untracked block, as parameters.
- Runner.RunTestsParallel: a test reports under its own name.
- MainTrace.ToRowMajorStripped: for the split layout asks for a target width within the trace width, because beyond it
  the code leaves cells unwritten (`MainTrace.StrippedRowExact`), and for a width above zero, because the code divides
  by it.
- U32.HelpersRecompose: covers the 32-bit operations; helpers of other operations are outside the model.
- U32.Constraints: for asserting it includes that the two elements stay in place, which is the stack's own rule and not
  part of the cited constraints.
- U32.ConstraintsAreExact: asks for 32-bit operands except for splitting and asserting, as the processor does.
