/** The verifier's direct check of the final auxiliary-column values (miden-vm/air/src/lib.rs), and its
    agreement with the check compiled into the DAG. */
module ReducedAux {
  import opened Fields
  import opened Polynomials
  import opened Dag
  import opened Ace
  import C = Challenges

  const WORD_SIZE := 4
  const MIN_STACK_DEPTH := 16
  const NUM_PUBLIC_VALUES := WORD_SIZE + MIN_STACK_DEPTH + MIN_STACK_DEPTH + WORD_SIZE
  const PV_PROGRAM_HASH := 0
  const PV_TRANSCRIPT_STATE := NUM_PUBLIC_VALUES - WORD_SIZE

  // Auxiliary columns, section by section
  const DECODER_AUX_TRACE_WIDTH := 3
  const STACK_AUX_TRACE_OFFSET := DECODER_AUX_TRACE_WIDTH
  const RANGE_CHECK_AUX_TRACE_OFFSET := STACK_AUX_TRACE_OFFSET + 1
  const HASH_KERNEL_VTABLE_AUX_TRACE_OFFSET := RANGE_CHECK_AUX_TRACE_OFFSET + 1
  const CHIPLETS_BUS_AUX_TRACE_OFFSET := HASH_KERNEL_VTABLE_AUX_TRACE_OFFSET + 1
  const ACE_CHIPLET_WIRING_BUS_OFFSET := CHIPLETS_BUS_AUX_TRACE_OFFSET + 1
  const AUX_TRACE_WIDTH := ACE_CHIPLET_WIRING_BUS_OFFSET + 1

  const P1 := 0
  const P2 := 1
  const P3 := 2
  const S_AUX := STACK_AUX_TRACE_OFFSET
  const B_RANGE := RANGE_CHECK_AUX_TRACE_OFFSET
  const B_HASH_KERNEL := HASH_KERNEL_VTABLE_AUX_TRACE_OFFSET
  const B_CHIPLETS := CHIPLETS_BUS_AUX_TRACE_OFFSET
  const V_WIRING := ACE_CHIPLET_WIRING_BUS_OFFSET

  const LOG_PRECOMPILE_LABEL := 94
  const KERNEL_PROC_INIT_LABEL := 48

  /** One value for each auxiliary column. */
  datatype AuxValues<T> = AuxValues(p1: T, p2: T, p3: T, sAux: T, bRange: T, bHashKernel: T, bChiplets: T, vWiring: T)
  {
    /** The values in the order of the trace sections: decoder, stack, range checker, chiplets. */
    function LaidOut(): seq<T> {
      [p1, p2, p3] + [sAux] + [bRange] + [bHashKernel] + [bChiplets] + [vWiring]
    }
  }

  /** Every column is found at its own offset. */
  lemma ColumnsLaidOut<T>(v: AuxValues<T>)
    ensures var aux := v.LaidOut();
            && |aux| == AUX_TRACE_WIDTH
            && aux[P1] == v.p1 && aux[P2] == v.p2 && aux[P3] == v.p3 && aux[S_AUX] == v.sAux
            && aux[B_RANGE] == v.bRange && aux[B_HASH_KERNEL] == v.bHashKernel && aux[B_CHIPLETS] == v.bChiplets
            && aux[V_WIRING] == v.vWiring
  {
  }

  // Public inputs

  datatype PublicInputs<T> = PublicInputs(
    programHash: seq<T>,
    kernel: seq<seq<T>>,
    stackInputs: seq<T>,
    stackOutputs: seq<T>,
    transcriptState: seq<T>)
  {
    predicate Valid() {
      && |programHash| == WORD_SIZE && |transcriptState| == WORD_SIZE
      && |stackInputs| == MIN_STACK_DEPTH && |stackOutputs| == MIN_STACK_DEPTH
      && forall i :: 0 <= i < |kernel| ==> |kernel[i]| == WORD_SIZE
    }
  }

  function Flatten<T>(words: seq<seq<T>>): seq<T> {
    if |words| == 0 then [] else Flatten(words[..|words| - 1]) + words[|words| - 1]
  }

  function ToAirInputs<T>(inputs: PublicInputs<T>): (seq<T>, seq<T>) {
    (inputs.programHash + inputs.stackInputs + inputs.stackOutputs + inputs.transcriptState, Flatten(inputs.kernel))
  }

  lemma {:induction false} FlattenWords<T>(words: seq<seq<T>>, i: nat)
    requires forall j :: 0 <= j < |words| ==> |words[j]| == WORD_SIZE
    ensures |Flatten(words)| == WORD_SIZE * |words|
    ensures i < |words| ==> Flatten(words)[WORD_SIZE * i..WORD_SIZE * i + WORD_SIZE] == words[i]
  {
    if |words| > 0 {
      var n := |words| - 1;
      FlattenWords(words[..n], i);
      var front, last := Flatten(words[..n]), words[n];
      if i == n {
        assert (front + last)[|front|..|front| + WORD_SIZE] == last;
      } else if i < n {
        assert (front + last)[WORD_SIZE * i..WORD_SIZE * i + WORD_SIZE]
                   == front[WORD_SIZE * i..WORD_SIZE * i + WORD_SIZE];
      }
    }
  }

  /** The flattened inputs have the size the verifier asks for, and it finds the program hash, the transcript state and
      every kernel digest in them. */
  lemma AirInputsHoldAll<T>(inputs: PublicInputs<T>, i: nat)
    requires inputs.Valid()
    ensures var (pv, kernel) := ToAirInputs(inputs);
            && |pv| == NUM_PUBLIC_VALUES && |kernel| == WORD_SIZE * |inputs.kernel|
            && pv[PV_PROGRAM_HASH..PV_PROGRAM_HASH + WORD_SIZE] == inputs.programHash
            && pv[WORD_SIZE..WORD_SIZE + MIN_STACK_DEPTH] == inputs.stackInputs
            && pv[WORD_SIZE + MIN_STACK_DEPTH..PV_TRANSCRIPT_STATE] == inputs.stackOutputs
            && pv[PV_TRANSCRIPT_STATE..PV_TRANSCRIPT_STATE + WORD_SIZE] == inputs.transcriptState
            && (i < |inputs.kernel| ==> Digest(kernel, i) == inputs.kernel[i])
  {
    FlattenWords(inputs.kernel, i);
  }

  // Boundary messages

  function ProgramHashMessage<T>(f: Field<T>, alpha: T, beta: T, hash: seq<T>): T
    requires |hash| == WORD_SIZE
  {
    C.Encoded(f, alpha, beta, C.BLOCK_HASH_TABLE, [f.zero, hash[0], hash[1], hash[2], hash[3], f.zero, f.zero])
  }

  function TranscriptMessage<T>(f: Field<T>, alpha: T, beta: T, state: seq<T>): T
    requires |state| == WORD_SIZE
  {
    C.Encoded(f, alpha, beta, C.LOG_PRECOMPILE_TRANSCRIPT,
              [f.OfNat(LOG_PRECOMPILE_LABEL), state[0], state[1], state[2], state[3]])
  }

  function KernelMessage<T>(f: Field<T>, alpha: T, beta: T, digest: seq<T>): T
    requires |digest| == WORD_SIZE
  {
    C.Encoded(f, alpha, beta, C.CHIPLETS_BUS,
              [f.OfNat(KERNEL_PROC_INIT_LABEL), digest[0], digest[1], digest[2], digest[3]])
  }

  function DefaultState<T>(f: Field<T>): (s: seq<T>)
    ensures |s| == WORD_SIZE
  {
    [f.zero, f.zero, f.zero, f.zero]
  }

  function Digest<T>(felts: seq<T>, i: nat): (digest: seq<T>)
    requires WORD_SIZE * i + WORD_SIZE <= |felts|
    ensures |digest| == WORD_SIZE
  {
    felts[WORD_SIZE * i..WORD_SIZE * i + WORD_SIZE]
  }

  /** The init messages of the first `n` digests in a flat slice. */
  function KernelMessagesUpTo<T>(f: Field<T>, alpha: T, beta: T, felts: seq<T>, n: nat): (ms: seq<T>)
    requires WORD_SIZE * n <= |felts|
    ensures |ms| == n
  {
    if n == 0 then []
    else KernelMessagesUpTo(f, alpha, beta, felts, n - 1) + [KernelMessage(f, alpha, beta, Digest(felts, n - 1))]
  }

  function KernelMessages<T>(f: Field<T>, alpha: T, beta: T, felts: seq<T>): (ms: seq<T>)
    ensures |ms| == |felts| / WORD_SIZE
  {
    KernelMessagesUpTo(f, alpha, beta, felts, |felts| / WORD_SIZE)
  }

  // The direct check

  datatype ReductionError = WrongPublicCount | WrongVarLenCount | RaggedKernelDigests | ZeroDenominator
  datatype Reduced<T> = Reduced(prod: T, sum: T)
  datatype Result<T> = Ok(value: T) | Err(error: ReductionError)

  method EncodeProgramHash<T(!new)>(f: Field<T>, c: C.Challenges<T>, ghost beta: T, hash: seq<T>) returns (m: T)
    requires IsField(f) && C.DerivedFrom(c, f, c.alpha, beta) && |hash| == WORD_SIZE
    ensures m == ProgramHashMessage(f, c.alpha, beta, hash)
  {
    m := C.Encode(f, c, beta, C.BLOCK_HASH_TABLE, [f.zero, hash[0], hash[1], hash[2], hash[3], f.zero, f.zero]);
  }

  method EncodeTranscript<T(!new)>(f: Field<T>, c: C.Challenges<T>, ghost beta: T, state: seq<T>) returns (m: T)
    requires IsField(f) && C.DerivedFrom(c, f, c.alpha, beta) && |state| == WORD_SIZE
    ensures m == TranscriptMessage(f, c.alpha, beta, state)
  {
    m := C.Encode(f, c, beta, C.LOG_PRECOMPILE_TRANSCRIPT,
                  [f.OfNat(LOG_PRECOMPILE_LABEL), state[0], state[1], state[2], state[3]]);
  }

  method EncodeKernelProc<T(!new)>(f: Field<T>, c: C.Challenges<T>, ghost beta: T, digest: seq<T>) returns (m: T)
    requires IsField(f) && C.DerivedFrom(c, f, c.alpha, beta) && |digest| == WORD_SIZE
    ensures m == KernelMessage(f, c.alpha, beta, digest)
  {
    m := C.Encode(f, c, beta, C.CHIPLETS_BUS,
                  [f.OfNat(KERNEL_PROC_INIT_LABEL), digest[0], digest[1], digest[2], digest[3]]);
  }

  method KernelReduced<T(!new)>(f: Field<T>, c: C.Challenges<T>, ghost beta: T, varLen: seq<seq<T>>)
    returns (r: Result<T>)
    requires IsField(f) && C.DerivedFrom(c, f, c.alpha, beta)
    ensures r == if |varLen| != 1 then Err(WrongVarLenCount)
                 else if |varLen[0]| % WORD_SIZE != 0 then Err(RaggedKernelDigests)
                 else Ok(f.Prod(KernelMessages(f, c.alpha, beta, varLen[0])))
  {
    if |varLen| != 1 { return Err(WrongVarLenCount); }
    var felts := varLen[0];
    if |felts| % WORD_SIZE != 0 { return Err(RaggedKernelDigests); }
    var acc := f.one;
    var count := |felts| / WORD_SIZE;
    for i := 0 to count
      invariant acc == f.Prod(KernelMessagesUpTo(f, c.alpha, beta, felts, i))
    {
      var message := EncodeKernelProc(f, c, beta, Digest(felts, i));
      ghost var before := KernelMessagesUpTo(f, c.alpha, beta, felts, i);
      assert (before + [message])[..i] == before;
      acc := f.mul(acc, message);
    }
    return Ok(acc);
  }

  /** All column finals times the messages the verifier adds. */
  function Numerator<T>(f: Field<T>, aux: seq<T>, alpha: T, beta: T, pv: seq<T>): T
    requires |aux| == AUX_TRACE_WIDTH && |pv| == NUM_PUBLIC_VALUES
  {
    f.mul(f.mul(f.mul(f.mul(f.mul(f.mul(f.mul(aux[P1], aux[P2]), aux[P3]), aux[S_AUX]), aux[B_HASH_KERNEL]), aux[B_CHIPLETS]),
                ProgramHashMessage(f, alpha, beta, pv[PV_PROGRAM_HASH..PV_PROGRAM_HASH + WORD_SIZE])),
          TranscriptMessage(f, alpha, beta, DefaultState(f)))
  }

  function Denominator<T>(f: Field<T>, alpha: T, beta: T, pv: seq<T>, kernelFelts: seq<T>): T
    requires |pv| == NUM_PUBLIC_VALUES
  {
    f.mul(TranscriptMessage(f, alpha, beta, pv[PV_TRANSCRIPT_STATE..PV_TRANSCRIPT_STATE + WORD_SIZE]),
          f.Prod(KernelMessages(f, alpha, beta, kernelFelts)))
  }

  method ReducedAuxValues<T(==,!new)>(f: Field<T>, aux: seq<T>, challenges: seq<T>, pv: seq<T>, varLen: seq<seq<T>>)
    returns (r: Result<Reduced<T>>)
    requires IsField(f) && |aux| == AUX_TRACE_WIDTH && |challenges| >= 2
    ensures r.Err? && r.error == WrongPublicCount <==> |pv| != NUM_PUBLIC_VALUES
    ensures r.Err? && r.error == WrongVarLenCount <==> |pv| == NUM_PUBLIC_VALUES && |varLen| != 1
    ensures r.Err? && r.error == RaggedKernelDigests
            <==> |pv| == NUM_PUBLIC_VALUES && |varLen| == 1 && |varLen[0]| % WORD_SIZE != 0
    ensures |pv| == NUM_PUBLIC_VALUES && |varLen| == 1 && |varLen[0]| % WORD_SIZE == 0 ==>
              var n := Numerator(f, aux, challenges[0], challenges[1], pv);
              var d := Denominator(f, challenges[0], challenges[1], pv, varLen[0]);
              if d == f.zero then r == Err(ZeroDenominator)
              else r.Ok? && f.mul(r.value.prod, d) == n && r.value.sum == f.add(aux[B_RANGE], aux[V_WIRING])
  {
    if |pv| != NUM_PUBLIC_VALUES { return Err(WrongPublicCount); }
    var hash := pv[PV_PROGRAM_HASH..PV_PROGRAM_HASH + WORD_SIZE];
    var state := pv[PV_TRANSCRIPT_STATE..PV_TRANSCRIPT_STATE + WORD_SIZE];
    ghost var beta := challenges[1];
    var c := C.New(f, challenges[0], challenges[1]);
    var phMessage := EncodeProgramHash(f, c, beta, hash);
    var defaultMessage := EncodeTranscript(f, c, beta, DefaultState(f));
    var finalMessage := EncodeTranscript(f, c, beta, state);
    var kernel := KernelReduced(f, c, beta, varLen);
    if kernel.Err? { return Err(kernel.error); }
    var denominator := f.mul(finalMessage, kernel.value);
    if denominator == f.zero { return Err(ZeroDenominator); }
    var inverse := f.inv(denominator);
    var finals := f.mul(f.mul(f.mul(f.mul(f.mul(aux[P1], aux[P2]), aux[P3]), aux[S_AUX]), aux[B_HASH_KERNEL]),
                        aux[B_CHIPLETS]);
    var numerator := f.mul(f.mul(finals, phMessage), defaultMessage);
    var prod := f.mul(numerator, inverse);
    assert Laws(f, numerator, inverse, denominator);
    assert Laws(f, denominator, inverse, denominator);
    assert Laws(f, numerator, f.one, f.one);
    r := Ok(Reduced(prod, f.add(aux[B_RANGE], aux[V_WIRING])));
  }

  // The compiled check

  function ReducedAuxBatchConfig<T>(f: Field<T>): BatchConfig<T> {
    var zero := Literal(f.zero);
    var tag := Literal(f.OfNat(LOG_PRECOMPILE_LABEL));
    var programHash := [zero, PublicInput(PV_PROGRAM_HASH), PublicInput(PV_PROGRAM_HASH + 1),
                        PublicInput(PV_PROGRAM_HASH + 2), PublicInput(PV_PROGRAM_HASH + 3), zero, zero];
    var defaultState := [tag, zero, zero, zero, zero];
    var finalState := [tag, PublicInput(PV_TRANSCRIPT_STATE), PublicInput(PV_TRANSCRIPT_STATE + 1),
                       PublicInput(PV_TRANSCRIPT_STATE + 2), PublicInput(PV_TRANSCRIPT_STATE + 3)];
    BatchConfig(
      [BusBoundary(P1), BusBoundary(P2), BusBoundary(P3), BusBoundary(S_AUX), BusBoundary(B_HASH_KERNEL),
       BusBoundary(B_CHIPLETS), Message(C.BLOCK_HASH_TABLE, programHash),
       Message(C.LOG_PRECOMPILE_TRANSCRIPT, defaultState)],
      [Message(C.LOG_PRECOMPILE_TRANSCRIPT, finalState), Vlpi(0)],
      [B_RANGE, V_WIRING])
  }

  /** The circuit inputs carry the verifier's data. */
  ghost predicate Carries<T>(env: Env<T>, f: Field<T>, aux: seq<T>, alpha: T, beta: T, pv: seq<T>, kernelFelts: seq<T>)
    requires |aux| == AUX_TRACE_WIDTH && |pv| == NUM_PUBLIC_VALUES
  {
    && (forall i :: 0 <= i < |aux| ==> env(AuxBusBoundary(i)) == aux[i])
    && (forall i :: 0 <= i < |pv| ==> env(Public(i)) == pv[i])
    && env(AuxRandAlpha) == alpha && env(AuxRandBeta) == beta
    && env(VlpiReduction(0)) == f.Prod(KernelMessages(f, alpha, beta, kernelFelts))
  }

  lemma FactorProductAppend<T>(f: Field<T>, env: Env<T>, factors: seq<ProductFactor<T>>, last: ProductFactor<T>)
    ensures FactorProduct(f, env, factors + [last]) == f.mul(FactorProduct(f, env, factors), FactorValue(f, env, last))
  {
    assert (factors + [last])[..|factors|] == factors;
  }

  /** A product of inputs is the product of the column finals. */
  lemma {:induction false} BoundaryProduct<T(!new)>(f: Field<T>, env: Env<T>, columns: seq<nat>,
                                             factors: seq<ProductFactor<T>>, finals: seq<T>)
    requires IsField(f) && |columns| == |finals| == |factors|
    requires forall i :: 0 <= i < |columns| ==>
               factors[i] == BusBoundary(columns[i]) && env(AuxBusBoundary(columns[i])) == finals[i]
    ensures FactorProduct(f, env, factors) == f.Prod(finals)
  {
    var n := |columns|;
    if n > 0 {
      BoundaryProduct(f, env, columns[..n - 1], factors[..n - 1], finals[..n - 1]);
    }
  }

  lemma MessageElementsMatch<T>(f: Field<T>, env: Env<T>, pv: seq<T>)
    requires |pv| == NUM_PUBLIC_VALUES && forall i :: 0 <= i < |pv| ==> env(Public(i)) == pv[i]
    ensures var cfg := ReducedAuxBatchConfig(f);
            && ElementValues(env, cfg.numerator[6].elements) == [f.zero, pv[0], pv[1], pv[2], pv[3], f.zero, f.zero]
            && ElementValues(env, cfg.numerator[7].elements)
               == [f.OfNat(LOG_PRECOMPILE_LABEL), f.zero, f.zero, f.zero, f.zero]
            && ElementValues(env, cfg.denominator[0].elements)
               == [f.OfNat(LOG_PRECOMPILE_LABEL), pv[36], pv[37], pv[38], pv[39]]
  {
  }

  lemma ConfigNumerator<T(!new)>(f: Field<T>, env: Env<T>, aux: seq<T>, alpha: T, beta: T, pv: seq<T>,
                                 kernelFelts: seq<T>)
    requires IsField(f) && |aux| == AUX_TRACE_WIDTH && |pv| == NUM_PUBLIC_VALUES
    requires Carries(env, f, aux, alpha, beta, pv, kernelFelts)
    ensures FactorProduct(f, env, ReducedAuxBatchConfig(f).numerator) == Numerator(f, aux, alpha, beta, pv)
  {
    var factors := ReducedAuxBatchConfig(f).numerator;
    var finals := [aux[P1], aux[P2], aux[P3], aux[S_AUX], aux[B_HASH_KERNEL], aux[B_CHIPLETS]];
    BoundaryProduct(f, env, [P1, P2, P3, S_AUX, B_HASH_KERNEL, B_CHIPLETS], factors[..6], finals);
    ProdSix(f, aux[P1], aux[P2], aux[P3], aux[S_AUX], aux[B_HASH_KERNEL], aux[B_CHIPLETS]);
    MessageElementsMatch(f, env, pv);
    assert factors[..7] == factors[..6] + [factors[6]] && factors == factors[..7] + [factors[7]];
    FactorProductAppend(f, env, factors[..6], factors[6]);
    FactorProductAppend(f, env, factors[..7], factors[7]);
  }

  lemma ProdSix<T(!new)>(f: Field<T>, a: T, b: T, c: T, d: T, e: T, g: T)
    requires IsField(f)
    ensures f.Prod([a, b, c, d, e, g]) == f.mul(f.mul(f.mul(f.mul(f.mul(a, b), c), d), e), g)
  {
    ProdSingle(f, a);
    assert [a, b][..1] == [a] && [a, b, c][..2] == [a, b] && [a, b, c, d][..3] == [a, b, c];
    assert [a, b, c, d, e][..4] == [a, b, c, d] && [a, b, c, d, e, g][..5] == [a, b, c, d, e];
    assert f.Prod([a, b, c]) == f.mul(f.mul(a, b), c);
    assert f.Prod([a, b, c, d, e]) == f.mul(f.mul(f.Prod([a, b, c]), d), e);
  }

  lemma ConfigDenominator<T(!new)>(f: Field<T>, env: Env<T>, aux: seq<T>, alpha: T, beta: T, pv: seq<T>,
                                   kernelFelts: seq<T>)
    requires IsField(f) && |aux| == AUX_TRACE_WIDTH && |pv| == NUM_PUBLIC_VALUES
    requires Carries(env, f, aux, alpha, beta, pv, kernelFelts)
    ensures FactorProduct(f, env, ReducedAuxBatchConfig(f).denominator) == Denominator(f, alpha, beta, pv, kernelFelts)
  {
    var factors := ReducedAuxBatchConfig(f).denominator;
    MessageElementsMatch(f, env, pv);
    FactorProductAppend(f, env, [], factors[0]);
    FactorProductAppend(f, env, [factors[0]], factors[1]);
    assert [] + [factors[0]] == [factors[0]] && factors == [factors[0]] + [factors[1]];
    var final := FactorValue(f, env, factors[0]);
    assert Laws(f, final, f.one, f.one) && Laws(f, f.one, final, f.one);
  }

  lemma ConfigSum<T(!new)>(f: Field<T>, env: Env<T>, x: T, y: T)
    requires IsField(f) && env(AuxBusBoundary(B_RANGE)) == x && env(AuxBusBoundary(V_WIRING)) == y
    ensures SumCheck(f, env, ReducedAuxBatchConfig(f)) == f.add(x, y)
  {
    var columns := ReducedAuxBatchConfig(f).sumColumns;
    assert columns[..1] == [B_RANGE] && columns[..1][..0] == [];
    assert ColumnSum(f, env, columns[..1]) == f.add(f.zero, x);
    assert Laws(f, x, f.zero, f.zero) && Laws(f, f.zero, x, x);
  }

  /** The compiled checks vanish exactly when the direct ones pass. */
  lemma CompiledAgreesWithDirect<T(!new)>(f: Field<T>, env: Env<T>, aux: seq<T>, alpha: T, beta: T, pv: seq<T>,
                                          kernelFelts: seq<T>, reduced: Reduced<T>)
    requires IsField(f) && |aux| == AUX_TRACE_WIDTH && |pv| == NUM_PUBLIC_VALUES
    requires Carries(env, f, aux, alpha, beta, pv, kernelFelts)
    requires Denominator(f, alpha, beta, pv, kernelFelts) != f.zero
    requires f.mul(reduced.prod, Denominator(f, alpha, beta, pv, kernelFelts)) == Numerator(f, aux, alpha, beta, pv)
    requires reduced.sum == f.add(aux[B_RANGE], aux[V_WIRING])
    ensures ProductCheck(f, env, ReducedAuxBatchConfig(f)) == f.zero <==> reduced.prod == f.one
    ensures SumCheck(f, env, ReducedAuxBatchConfig(f)) == f.zero <==> reduced.sum == f.zero
  {
    ConfigNumerator(f, env, aux, alpha, beta, pv, kernelFelts);
    ConfigDenominator(f, env, aux, alpha, beta, pv, kernelFelts);
    ConfigSum(f, env, aux[B_RANGE], aux[V_WIRING]);
    var n, d := Numerator(f, aux, alpha, beta, pv), Denominator(f, alpha, beta, pv, kernelFelts);
    SubZero(f, n, d);
    MulCancel(f, reduced.prod, f.one, d);
    assert Laws(f, d, f.one, d) && Laws(f, f.one, d, d);
  }

  /** Batching loses nothing: unless all three checks vanish, at most two batching challenges make the
      batched root vanish. */
  lemma BatchingIsSound<T(!new)>(f: Field<T>, constraint: T, product: T, sum: T, gammas: set<T>)
    requires IsField(f)
    requires !(constraint == f.zero && product == f.zero && sum == f.zero)
    requires forall g :: g in gammas ==>
               f.add(f.add(constraint, f.mul(g, product)), f.mul(f.mul(g, g), sum)) == f.zero
    ensures |gammas| <= 2
  {
    var s := [constraint, product, sum];
    forall g | g in gammas
      ensures Poly(f, s, g) == f.zero
    {
      assert s[..2] == [constraint, product] && [constraint, product][..1] == [constraint];
      PolyConstant(f, constraint, g);
      assert Laws(f, g, f.one, f.one) && Laws(f, f.one, g, g);
      assert f.Pow(g, 1) == g && f.Pow(g, 2) == f.mul(g, g);
    }
    assert s[0] != f.zero || s[1] != f.zero || s[2] != f.zero;
    RootBound(f, s, gammas);
  }

  /** When all three checks vanish, so does the batched root, whatever the challenge. */
  lemma BatchingIsComplete<T(!new)>(f: Field<T>, env: Env<T>, config: BatchConfig<T>)
    requires IsField(f)
    requires ProductCheck(f, env, config) == f.zero && SumCheck(f, env, config) == f.zero
    ensures BatchedValue(f, env, config, f.zero) == f.zero
  {
    MulZero(f, env(Gamma));
    MulZero(f, f.mul(env(Gamma), env(Gamma)));
    assert Laws(f, f.zero, f.zero, f.zero);
  }
}
