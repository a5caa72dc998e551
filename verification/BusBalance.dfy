/** What the reduced check of the column finals means: an equation between two products over every message of the
    trace, and why a trace whose messages balance passes it (miden-vm/air/src/lib.rs,
    miden-vm/air/src/constraints/mod.rs). */
module BusBalance {
  import opened Fields
  import opened GrandProducts
  import opened ReducedAux
  import AuxColumn
  import C = Challenges

  datatype BusMessage<T> = BusMessage(bus: nat, elems: seq<T>)

  /** What one running-product column receives: per row, the messages multiplied in and those divided out. */
  datatype Traffic<T> = Traffic(inserts: seq<seq<BusMessage<T>>>, removes: seq<seq<BusMessage<T>>>)

  function Value<T>(f: Field<T>, alpha: T, beta: T, m: BusMessage<T>): T {
    C.Encoded(f, alpha, beta, m.bus, m.elems)
  }

  function Values<T>(f: Field<T>, alpha: T, beta: T, ms: seq<BusMessage<T>>): (vs: seq<T>)
    ensures |vs| == |ms| && forall i :: 0 <= i < |ms| ==> vs[i] == Value(f, alpha, beta, ms[i])
  {
    seq(|ms|, i requires 0 <= i < |ms| => Value(f, alpha, beta, ms[i]))
  }

  /** The product of the values of a list of messages. */
  function Product<T>(f: Field<T>, alpha: T, beta: T, ms: seq<BusMessage<T>>): T {
    f.Prod(Values(f, alpha, beta, ms))
  }

  lemma ProductConcat<T(!new)>(f: Field<T>, alpha: T, beta: T, s: seq<BusMessage<T>>, t: seq<BusMessage<T>>)
    requires IsField(f)
    ensures Product(f, alpha, beta, s + t) == f.mul(Product(f, alpha, beta, s), Product(f, alpha, beta, t))
  {
    assert Values(f, alpha, beta, s + t) == Values(f, alpha, beta, s) + Values(f, alpha, beta, t);
    ProdConcat(f, Values(f, alpha, beta, s), Values(f, alpha, beta, t));
  }

  lemma ProductSingle<T(!new)>(f: Field<T>, alpha: T, beta: T, m: BusMessage<T>)
    requires IsField(f)
    ensures Product(f, alpha, beta, [m]) == Value(f, alpha, beta, m)
  {
    assert Values(f, alpha, beta, [m]) == [Value(f, alpha, beta, m)];
    ProdSingle(f, Value(f, alpha, beta, m));
  }

  lemma ProductRemove<T(!new)>(f: Field<T>, alpha: T, beta: T, s: seq<BusMessage<T>>, k: nat)
    requires IsField(f) && k < |s|
    ensures Product(f, alpha, beta, s)
                == f.mul(Product(f, alpha, beta, s[..k] + s[k + 1..]), Value(f, alpha, beta, s[k]))
    ensures multiset(s[..k] + s[k + 1..]) == multiset(s) - multiset{s[k]}
  {
    hide Value;
    Without(s, k);
    var vs := Values(f, alpha, beta, s);
    ProdRemove(f, vs, k);
    assert Values(f, alpha, beta, s[..k] + s[k + 1..]) == vs[..k] + vs[k + 1..];
  }

  lemma {:induction false} ProductPermutation<T(!new)>(f: Field<T>, alpha: T, beta: T, s: seq<BusMessage<T>>,
                                                t: seq<BusMessage<T>>)
    requires IsField(f) && multiset(s) == multiset(t)
    ensures Product(f, alpha, beta, s) == Product(f, alpha, beta, t)
    decreases |s|
  {
    hide Product, Value;
    assert |multiset(s)| == |s| && |multiset(t)| == |t|;
    if |s| == 0 {
      assert s == t;
    } else {
      var n, x := |s| - 1, s[|s| - 1];
      assert x in multiset(t);
      var k :| 0 <= k < |t| && t[k] == x;
      ProductRemove(f, alpha, beta, s, n);
      ProductRemove(f, alpha, beta, t, k);
      assert s[..n] + s[n + 1..] == s[..n];
      ProductPermutation(f, alpha, beta, s[..n], t[..k] + t[k + 1..]);
    }
  }

  // Columns

  /** The boundary and transition constraints of a column: it starts at one and every row multiplies by what it
      inserts and divides by what it removes. */
  ghost predicate Follows<T>(f: Field<T>, alpha: T, beta: T, column: seq<T>, t: Traffic<T>) {
    && |column| == |t.inserts| + 1 == |t.removes| + 1
    && column[0] == f.one
    && forall i :: 0 <= i < |t.inserts| ==>
         f.mul(column[i + 1], Product(f, alpha, beta, t.removes[i])) == f.mul(column[i], Product(f, alpha, beta, t.inserts[i]))
  }

  /** What each row contributes to one side. */
  function RowProducts<T>(f: Field<T>, alpha: T, beta: T, rows: seq<seq<BusMessage<T>>>): (ps: seq<T>)
    ensures |ps| == |rows| && forall i :: 0 <= i < |rows| ==> ps[i] == Product(f, alpha, beta, rows[i])
  {
    seq(|rows|, i requires 0 <= i < |rows| => Product(f, alpha, beta, rows[i]))
  }

  /** The column that the prover builds satisfies the constraints. */
  lemma BuiltColumnFollows<T(!new)>(f: Field<T>, alpha: T, beta: T, t: Traffic<T>, column: seq<T>)
    requires IsField(f) && |t.inserts| == |t.removes| && |column| == |t.inserts| + 1
    requires f.zero !in RowProducts(f, alpha, beta, t.removes)
    requires var responses, requests := RowProducts(f, alpha, beta, t.inserts), RowProducts(f, alpha, beta, t.removes);
             forall i :: 0 <= i <= |t.inserts| ==> column[i] == AuxColumn.Ratio(f, responses[..i], requests[..i])
    ensures Follows(f, alpha, beta, column, t)
  {
    hide Product;
    var responses, requests := RowProducts(f, alpha, beta, t.inserts), RowProducts(f, alpha, beta, t.removes);
    assert Laws(f, f.one, f.one, f.one);
    assert responses[..0] == [] && requests[..0] == [];
    AuxColumn.RatioUnique(f, [], [], f.one);
    forall i | 0 <= i < |t.inserts|
      ensures f.mul(column[i + 1], Product(f, alpha, beta, t.removes[i]))
                  == f.mul(column[i], Product(f, alpha, beta, t.inserts[i]))
    {
      AuxColumn.ColumnTransition(f, responses, requests, i, column[i + 1]);
    }
  }

  function Final<T>(column: seq<T>): T
    requires |column| > 0
  {
    column[|column| - 1]
  }

  /** Over any number of rows the transitions telescope. */
  lemma {:induction false} ColumnTelescopes<T(!new)>(f: Field<T>, alpha: T, beta: T, column: seq<T>, t: Traffic<T>)
    requires IsField(f) && Follows(f, alpha, beta, column, t)
    ensures f.mul(Final(column), Product(f, alpha, beta, Flatten(t.removes)))
                == Product(f, alpha, beta, Flatten(t.inserts))
    decreases |t.inserts|
  {
    hide Product;
    var n := |t.inserts|;
    if n == 0 {
      ProductEmpty(f, alpha, beta);
      assert Laws(f, f.one, f.one, f.one);
    } else {
      var before := Traffic(t.inserts[..n - 1], t.removes[..n - 1]);
      ColumnTelescopes(f, alpha, beta, column[..n], before);
      ProductConcat(f, alpha, beta, Flatten(before.inserts), t.inserts[n - 1]);
      ProductConcat(f, alpha, beta, Flatten(before.removes), t.removes[n - 1]);
      TelescopeStep(f, column[n - 1], column[n],
                    Product(f, alpha, beta, Flatten(before.inserts)), Product(f, alpha, beta, Flatten(before.removes)),
                    Product(f, alpha, beta, t.inserts[n - 1]), Product(f, alpha, beta, t.removes[n - 1]));
    }
  }

  lemma ProductEmpty<T>(f: Field<T>, alpha: T, beta: T)
    ensures Product(f, alpha, beta, []) == f.one
  {
  }

  lemma TelescopeStep<T(!new)>(f: Field<T>, x: T, y: T, inserted: T, removed: T, i: T, r: T)
    requires IsField(f) && f.mul(x, removed) == inserted && f.mul(y, r) == f.mul(x, i)
    ensures f.mul(y, f.mul(removed, r)) == f.mul(inserted, i)
  {
    assert Laws(f, y, r, removed) && Laws(f, removed, r, r);
    assert Laws(f, x, i, removed) && Laws(f, i, removed, removed) && Laws(f, x, removed, i);
  }

  // All columns together

  function AllInserts<T>(ts: seq<Traffic<T>>): seq<BusMessage<T>> {
    if |ts| == 0 then [] else AllInserts(ts[..|ts| - 1]) + Flatten(ts[|ts| - 1].inserts)
  }

  function AllRemoves<T>(ts: seq<Traffic<T>>): seq<BusMessage<T>> {
    if |ts| == 0 then [] else AllRemoves(ts[..|ts| - 1]) + Flatten(ts[|ts| - 1].removes)
  }

  ghost predicate AllFollow<T>(f: Field<T>, alpha: T, beta: T, columns: seq<seq<T>>, ts: seq<Traffic<T>>) {
    |columns| == |ts| && forall k :: 0 <= k < |ts| ==> Follows(f, alpha, beta, columns[k], ts[k])
  }

  function Finals<T>(columns: seq<seq<T>>): (s: seq<T>)
    requires forall k :: 0 <= k < |columns| ==> |columns[k]| > 0
    ensures |s| == |columns| && forall k :: 0 <= k < |columns| ==> s[k] == Final(columns[k])
  {
    seq(|columns|, k requires 0 <= k < |columns| => Final(columns[k]))
  }

  lemma {:induction false} ColumnsTelescope<T(!new)>(f: Field<T>, alpha: T, beta: T, columns: seq<seq<T>>,
                                              ts: seq<Traffic<T>>)
    requires IsField(f) && AllFollow(f, alpha, beta, columns, ts)
    ensures f.mul(f.Prod(Finals(columns)), Product(f, alpha, beta, AllRemoves(ts)))
                == Product(f, alpha, beta, AllInserts(ts))
    decreases |ts|
  {
    hide Product, Follows;
    FollowsNonempty(f, alpha, beta, columns, ts);
    var n := |ts|;
    if n == 0 {
      ProductEmpty(f, alpha, beta);
      assert Laws(f, f.one, f.one, f.one);
    } else {
      ColumnsTelescope(f, alpha, beta, columns[..n - 1], ts[..n - 1]);
      ColumnTelescopes(f, alpha, beta, columns[n - 1], ts[n - 1]);
      assert Finals(columns)[..n - 1] == Finals(columns[..n - 1]);
      ProductConcat(f, alpha, beta, AllInserts(ts[..n - 1]), Flatten(ts[n - 1].inserts));
      ProductConcat(f, alpha, beta, AllRemoves(ts[..n - 1]), Flatten(ts[n - 1].removes));
      MulMiddle(f, f.Prod(Finals(columns[..n - 1])), Final(columns[n - 1]),
                Product(f, alpha, beta, AllRemoves(ts[..n - 1])), Product(f, alpha, beta, Flatten(ts[n - 1].removes)));
    }
  }

  lemma FollowsNonempty<T>(f: Field<T>, alpha: T, beta: T, columns: seq<seq<T>>, ts: seq<Traffic<T>>)
    requires AllFollow(f, alpha, beta, columns, ts)
    ensures forall k :: 0 <= k < |columns| ==> |columns[k]| > 0
  {
    forall k | 0 <= k < |columns| ensures |columns[k]| > 0 {
      assert Follows(f, alpha, beta, columns[k], ts[k]);
    }
  }

  // The verifier's own messages

  function ProgramHash<T>(f: Field<T>, pv: seq<T>): BusMessage<T>
    requires |pv| == NUM_PUBLIC_VALUES
  {
    BusMessage(C.BLOCK_HASH_TABLE, [f.zero, pv[0], pv[1], pv[2], pv[3], f.zero, f.zero])
  }

  function Transcript<T>(f: Field<T>, state: seq<T>): BusMessage<T>
    requires |state| == WORD_SIZE
  {
    BusMessage(C.LOG_PRECOMPILE_TRANSCRIPT, [f.OfNat(LOG_PRECOMPILE_LABEL)] + state)
  }

  function FinalState<T>(pv: seq<T>): (state: seq<T>)
    requires |pv| == NUM_PUBLIC_VALUES
    ensures |state| == WORD_SIZE
  {
    pv[PV_TRANSCRIPT_STATE..PV_TRANSCRIPT_STATE + WORD_SIZE]
  }

  function KernelInit<T>(f: Field<T>, digest: seq<T>): BusMessage<T>
    requires |digest| == WORD_SIZE
  {
    BusMessage(C.CHIPLETS_BUS, [f.OfNat(KERNEL_PROC_INIT_LABEL)] + digest)
  }

  function KernelInits<T>(f: Field<T>, felts: seq<T>): (ms: seq<BusMessage<T>>)
    ensures |ms| == |felts| / WORD_SIZE
  {
    seq(|felts| / WORD_SIZE, i requires 0 <= i < |felts| / WORD_SIZE => KernelInit(f, Digest(felts, i)))
  }

  /** The boundary messages carry the program hash, the transcript state and the kernel digests of the public inputs,
      each in order and behind its label. */
  lemma BoundaryMessages<T>(f: Field<T>, inputs: PublicInputs<T>, i: nat)
    requires inputs.Valid() && i < |inputs.kernel|
    ensures var (pv, kernel) := ToAirInputs(inputs);
            && |pv| == NUM_PUBLIC_VALUES && |kernel| == WORD_SIZE * |inputs.kernel|
            && ProgramHash(f, pv).elems == [f.zero] + inputs.programHash + [f.zero, f.zero]
            && Transcript(f, FinalState(pv)).elems == [f.OfNat(LOG_PRECOMPILE_LABEL)] + inputs.transcriptState
            && |KernelInits(f, kernel)| == |inputs.kernel|
            && KernelInits(f, kernel)[i].elems == [f.OfNat(KERNEL_PROC_INIT_LABEL)] + inputs.kernel[i]
  {
    AirInputsHoldAll(inputs, i);
    var (pv, _) := ToAirInputs(inputs);
    assert pv[0..4] == inputs.programHash;
    assert pv[0] == inputs.programHash[0] && pv[1] == inputs.programHash[1] && pv[2] == inputs.programHash[2]
        && pv[3] == inputs.programHash[3];
  }

  /** Everything multiplied in, by the trace and by the verifier. */
  function Added<T>(f: Field<T>, ts: seq<Traffic<T>>, pv: seq<T>): seq<BusMessage<T>>
    requires |pv| == NUM_PUBLIC_VALUES
  {
    AllInserts(ts) + [ProgramHash(f, pv), Transcript(f, DefaultState(f))]
  }

  /** Everything divided out, by the trace and by the verifier. */
  function Removed<T>(f: Field<T>, ts: seq<Traffic<T>>, pv: seq<T>, felts: seq<T>): seq<BusMessage<T>>
    requires |pv| == NUM_PUBLIC_VALUES
  {
    AllRemoves(ts) + ([Transcript(f, FinalState(pv))] + KernelInits(f, felts))
  }

  lemma KernelInitValue<T>(f: Field<T>, alpha: T, beta: T, digest: seq<T>)
    requires |digest| == WORD_SIZE
    ensures Value(f, alpha, beta, KernelInit(f, digest)) == KernelMessage(f, alpha, beta, digest)
  {
    var tag := f.OfNat(KERNEL_PROC_INIT_LABEL);
    assert [tag] + digest == [tag, digest[0], digest[1], digest[2], digest[3]];
  }

  lemma {:induction false} KernelInitsValue<T(!new)>(f: Field<T>, alpha: T, beta: T, felts: seq<T>, n: nat)
    requires n <= |felts| / WORD_SIZE
    ensures Values(f, alpha, beta, KernelInits(f, felts)[..n]) == KernelMessagesUpTo(f, alpha, beta, felts, n)
  {
    hide Value, KernelInit, KernelMessage, Digest;
    if n > 0 {
      KernelInitsValue(f, alpha, beta, felts, n - 1);
      KernelInitValue(f, alpha, beta, Digest(felts, n - 1));
      var ms := KernelInits(f, felts);
      assert ms[..n] == ms[..n - 1] + [ms[n - 1]];
    }
  }

  lemma TranscriptValue<T(!new)>(f: Field<T>, alpha: T, beta: T, state: seq<T>)
    requires |state| == WORD_SIZE
    ensures Value(f, alpha, beta, Transcript(f, state)) == TranscriptMessage(f, alpha, beta, state)
  {
    var tag := f.OfNat(LOG_PRECOMPILE_LABEL);
    assert [tag] + state == [tag, state[0], state[1], state[2], state[3]];
  }

  lemma DenominatorValue<T(!new)>(f: Field<T>, alpha: T, beta: T, pv: seq<T>, felts: seq<T>)
    requires IsField(f) && |pv| == NUM_PUBLIC_VALUES
    ensures Denominator(f, alpha, beta, pv, felts)
            == Product(f, alpha, beta, [Transcript(f, FinalState(pv))] + KernelInits(f, felts))
  {
    var final, inits := Transcript(f, FinalState(pv)), KernelInits(f, felts);
    ProductConcat(f, alpha, beta, [final], inits);
    ProductSingle(f, alpha, beta, final);
    TranscriptValue(f, alpha, beta, FinalState(pv));
    assert inits[..|inits|] == inits;
    KernelInitsValue(f, alpha, beta, felts, |inits|);
  }

  lemma NumeratorValue<T(!new)>(f: Field<T>, alpha: T, beta: T, aux: seq<T>, finals: seq<T>, pv: seq<T>)
    requires IsField(f) && |pv| == NUM_PUBLIC_VALUES && |aux| == AUX_TRACE_WIDTH
    requires finals == [aux[P1], aux[P2], aux[P3], aux[S_AUX], aux[B_HASH_KERNEL], aux[B_CHIPLETS]]
    ensures Numerator(f, aux, alpha, beta, pv)
            == f.mul(f.Prod(finals), Product(f, alpha, beta, [ProgramHash(f, pv), Transcript(f, DefaultState(f))]))
  {
    ProdSix(f, aux[P1], aux[P2], aux[P3], aux[S_AUX], aux[B_HASH_KERNEL], aux[B_CHIPLETS]);
    var hash, start := ProgramHash(f, pv), Transcript(f, DefaultState(f));
    assert [hash, start] == [hash] + [start];
    ProductConcat(f, alpha, beta, [hash], [start]);
    ProductSingle(f, alpha, beta, hash);
    ProductSingle(f, alpha, beta, start);
    TranscriptValue(f, alpha, beta, DefaultState(f));
    assert Laws(f, f.Prod(finals), Value(f, alpha, beta, hash), Value(f, alpha, beta, start));
    assert pv[PV_PROGRAM_HASH..PV_PROGRAM_HASH + WORD_SIZE] == [pv[0], pv[1], pv[2], pv[3]];
  }

  /** The finals the verifier is given are those of columns that satisfy the constraints. */
  ghost predicate Constrained<T>(f: Field<T>, alpha: T, beta: T, aux: seq<T>, columns: seq<seq<T>>, ts: seq<Traffic<T>>)
    requires |aux| == AUX_TRACE_WIDTH
  {
    && |ts| == 6 && AllFollow(f, alpha, beta, columns, ts)
    && (forall k :: 0 <= k < |columns| ==> |columns[k]| > 0)
    && Finals(columns) == [aux[P1], aux[P2], aux[P3], aux[S_AUX], aux[B_HASH_KERNEL], aux[B_CHIPLETS]]
  }

  /** Up to the product of all removed messages, the two sides of the verifier's check are the products of
      everything added and of everything removed. */
  lemma CheckIsGrandProduct<T(!new)>(f: Field<T>, alpha: T, beta: T, aux: seq<T>, columns: seq<seq<T>>,
                                     ts: seq<Traffic<T>>,
                                     pv: seq<T>, felts: seq<T>)
    requires IsField(f) && |pv| == NUM_PUBLIC_VALUES && |aux| == AUX_TRACE_WIDTH
    requires Constrained(f, alpha, beta, aux, columns, ts)
    ensures f.mul(Numerator(f, aux, alpha, beta, pv), Product(f, alpha, beta, AllRemoves(ts)))
            == Product(f, alpha, beta, Added(f, ts, pv))
    ensures f.mul(Denominator(f, alpha, beta, pv, felts), Product(f, alpha, beta, AllRemoves(ts)))
            == Product(f, alpha, beta, Removed(f, ts, pv, felts))
  {
    hide Product, Numerator, Denominator, ProgramHash, Transcript, KernelInits, AllInserts, AllRemoves, AllFollow;
    ColumnsTelescope(f, alpha, beta, columns, ts);
    NumeratorValue(f, alpha, beta, aux, Finals(columns), pv);
    DenominatorValue(f, alpha, beta, pv, felts);
    var outer := [ProgramHash(f, pv), Transcript(f, DefaultState(f))];
    var rest := [Transcript(f, FinalState(pv))] + KernelInits(f, felts);
    ProductConcat(f, alpha, beta, AllInserts(ts), outer);
    ProductConcat(f, alpha, beta, AllRemoves(ts), rest);
    var p, r, o := f.Prod(Finals(columns)), Product(f, alpha, beta, AllRemoves(ts)), Product(f, alpha, beta, outer);
    assert Laws(f, p, o, r) && Laws(f, o, r, r) && Laws(f, p, r, o);
    assert Laws(f, r, Product(f, alpha, beta, rest), r);
  }

  // A balanced trace

  function Transcripts<T>(f: Field<T>, states: seq<seq<T>>): (ms: seq<BusMessage<T>>)
    requires forall i :: 0 <= i < |states| ==> |states[i]| == WORD_SIZE
    ensures |ms| == |states| && forall i :: 0 <= i < |states| ==> ms[i] == Transcript(f, states[i])
  {
    seq(|states|, i requires 0 <= i < |states| => Transcript(f, states[i]))
  }

  ghost predicate Matched<T>(t: Traffic<T>) {
    multiset(Flatten(t.inserts)) == multiset(Flatten(t.removes))
  }

  /** The block-hash table: the only unmatched removal is the root's. */
  ghost predicate RootUnmatched<T>(f: Field<T>, t: Traffic<T>, pv: seq<T>)
    requires |pv| == NUM_PUBLIC_VALUES
  {
    multiset(Flatten(t.removes)) == multiset(Flatten(t.inserts)) + multiset{ProgramHash(f, pv)}
  }

  /** The hash-kernel table: sibling entries cancel, the transcript chain removes state `i` and inserts state `i + 1`
      from the default to the final state, and memory reads of the circuit chiplet are only requested. */
  ghost predicate ChainFrom<T>(f: Field<T>, t: Traffic<T>, siblings: multiset<BusMessage<T>>, states: seq<seq<T>>,
                               memoryReads: multiset<BusMessage<T>>, pv: seq<T>)
    requires |pv| == NUM_PUBLIC_VALUES
  {
    && |states| > 0 && (forall i :: 0 <= i < |states| ==> |states[i]| == WORD_SIZE)
    && states[0] == DefaultState(f) && states[|states| - 1] == FinalState(pv)
    && multiset(Flatten(t.inserts)) == siblings + multiset(Transcripts(f, states[1..]))
    && multiset(Flatten(t.removes)) == siblings + multiset(Transcripts(f, states[..|states| - 1])) + memoryReads
  }

  /** The chiplets bus: besides matched traffic it answers those memory reads and inserts, in some order, the init
      messages of the kernel procedures. */
  ghost predicate KernelUnmatched<T>(f: Field<T>, t: Traffic<T>, memoryReads: multiset<BusMessage<T>>, felts: seq<T>) {
    multiset(Flatten(t.inserts)) == multiset(Flatten(t.removes)) + memoryReads + multiset(KernelInits(f, felts))
  }

  ghost predicate Balanced<T>(f: Field<T>, ts: seq<Traffic<T>>, siblings: multiset<BusMessage<T>>, states: seq<seq<T>>,
                              memoryReads: multiset<BusMessage<T>>, pv: seq<T>, felts: seq<T>)
    requires |pv| == NUM_PUBLIC_VALUES
  {
    && |ts| == 6
    && Matched(ts[0]) && RootUnmatched(f, ts[1], pv) && Matched(ts[2]) && Matched(ts[3])
    && ChainFrom(f, ts[4], siblings, states, memoryReads, pv)
    && KernelUnmatched(f, ts[5], memoryReads, felts)
  }

  lemma ChainEnds<T>(f: Field<T>, states: seq<seq<T>>)
    requires |states| > 0 && forall i :: 0 <= i < |states| ==> |states[i]| == WORD_SIZE
    ensures multiset(Transcripts(f, states[1..])) + multiset{Transcript(f, states[0])}
            == multiset(Transcripts(f, states[..|states| - 1])) + multiset{Transcript(f, states[|states| - 1])}
  {
    hide Transcript;
    var all := Transcripts(f, states);
    assert Transcripts(f, states[1..]) == all[1..] && Transcripts(f, states[..|states| - 1]) == all[..|all| - 1];
    DropEnds(all);
  }

  lemma DropEnds<X>(s: seq<X>)
    requires |s| > 0
    ensures multiset(s[1..]) + multiset{s[0]} == multiset(s[..|s| - 1]) + multiset{s[|s| - 1]}
  {
    var head, last := [s[0]], [s[|s| - 1]];
    assert s == head + s[1..] && s == s[..|s| - 1] + last;
    assert multiset(head + s[1..]) == multiset(s[..|s| - 1] + last);
  }

  lemma AllSix<T>(ts: seq<Traffic<T>>)
    requires |ts| == 6
    ensures AllInserts(ts) == Flatten(ts[0].inserts) + Flatten(ts[1].inserts) + Flatten(ts[2].inserts)
                              + Flatten(ts[3].inserts) + Flatten(ts[4].inserts) + Flatten(ts[5].inserts)
    ensures AllRemoves(ts) == Flatten(ts[0].removes) + Flatten(ts[1].removes) + Flatten(ts[2].removes)
                              + Flatten(ts[3].removes) + Flatten(ts[4].removes) + Flatten(ts[5].removes)
  {
    hide Flatten;
    assert ts[..5][..4] == ts[..4] && ts[..4][..3] == ts[..3] && ts[..3][..2] == ts[..2] && ts[..2][..1] == ts[..1];
    assert AllInserts(ts[..1]) == Flatten(ts[0].inserts) && AllRemoves(ts[..1]) == Flatten(ts[0].removes);
    assert AllInserts(ts[..3]) == AllInserts(ts[..2]) + Flatten(ts[2].inserts);
    assert AllRemoves(ts[..3]) == AllRemoves(ts[..2]) + Flatten(ts[2].removes);
    assert AllInserts(ts[..5]) == AllInserts(ts[..4]) + Flatten(ts[4].inserts);
    assert AllRemoves(ts[..5]) == AllRemoves(ts[..4]) + Flatten(ts[4].removes);
  }

  /** The balance of the six columns as an equation between multisets. */
  lemma Regroup<X>(i: seq<multiset<X>>, r: seq<multiset<X>>, root: multiset<X>, siblings: multiset<X>,
                   later: multiset<X>,
                   earlier: multiset<X>, first: multiset<X>, last: multiset<X>, memory: multiset<X>, kernel: multiset<X>)
    requires |i| == |r| == 6 && i[0] == r[0] && r[1] == i[1] + root && i[2] == r[2] && i[3] == r[3]
    requires i[4] == siblings + later && r[4] == siblings + earlier + memory && i[5] == r[5] + memory + kernel
    requires later + first == earlier + last
    ensures i[0] + i[1] + i[2] + i[3] + i[4] + i[5] + (root + first)
                == r[0] + r[1] + r[2] + r[3] + r[4] + r[5] + (last + kernel)
  {
    forall x
      ensures (i[0] + i[1] + i[2] + i[3] + i[4] + i[5] + (root + first))[x]
              == (r[0] + r[1] + r[2] + r[3] + r[4] + r[5] + (last + kernel))[x]
    {
      assert (later + first)[x] == (earlier + last)[x];
      assert i[4][x] == siblings[x] + later[x] && r[4][x] == siblings[x] + earlier[x] + memory[x];
      assert r[1][x] == i[1][x] + root[x] && i[5][x] == r[5][x] + memory[x] + kernel[x];
    }
  }

  ghost function Inserted<T>(t: Traffic<T>): multiset<BusMessage<T>> { multiset(Flatten(t.inserts)) }

  ghost function Taken<T>(t: Traffic<T>): multiset<BusMessage<T>> { multiset(Flatten(t.removes)) }

  lemma AddedParts<T>(f: Field<T>, ts: seq<Traffic<T>>, pv: seq<T>)
    requires |pv| == NUM_PUBLIC_VALUES && |ts| == 6
    ensures multiset(Added(f, ts, pv))
            == Inserted(ts[0]) + Inserted(ts[1]) + Inserted(ts[2]) + Inserted(ts[3]) + Inserted(ts[4]) + Inserted(ts[5])
               + (multiset{ProgramHash(f, pv)} + multiset{Transcript(f, DefaultState(f))})
  {
    hide Flatten, AllInserts, Transcript, ProgramHash;
    AllSix(ts);
  }

  lemma RemovedParts<T>(f: Field<T>, ts: seq<Traffic<T>>, pv: seq<T>, felts: seq<T>)
    requires |pv| == NUM_PUBLIC_VALUES && |ts| == 6
    ensures multiset(Removed(f, ts, pv, felts))
            == Taken(ts[0]) + Taken(ts[1]) + Taken(ts[2]) + Taken(ts[3]) + Taken(ts[4]) + Taken(ts[5])
               + (multiset{Transcript(f, FinalState(pv))} + multiset(KernelInits(f, felts)))
  {
    hide Flatten, AllRemoves, Transcript, KernelInits;
    AllSix(ts);
  }

  /** In a balanced trace, what is added is a permutation of what is removed. */
  lemma BalancedPermutation<T>(f: Field<T>, ts: seq<Traffic<T>>, siblings: multiset<BusMessage<T>>, states: seq<seq<T>>,
                               memoryReads: multiset<BusMessage<T>>, pv: seq<T>, felts: seq<T>)
    requires |pv| == NUM_PUBLIC_VALUES && Balanced(f, ts, siblings, states, memoryReads, pv, felts)
    ensures multiset(Added(f, ts, pv)) == multiset(Removed(f, ts, pv, felts))
  {
    hide Flatten, Added, Removed, Transcripts, KernelInits, Transcript, ProgramHash, FinalState;
    ChainEnds(f, states);
    AddedParts(f, ts, pv);
    RemovedParts(f, ts, pv, felts);
    Regroup([Inserted(ts[0]), Inserted(ts[1]), Inserted(ts[2]), Inserted(ts[3]), Inserted(ts[4]), Inserted(ts[5])],
            [Taken(ts[0]), Taken(ts[1]), Taken(ts[2]), Taken(ts[3]), Taken(ts[4]), Taken(ts[5])],
            multiset{ProgramHash(f, pv)}, siblings, multiset(Transcripts(f, states[1..])),
            multiset(Transcripts(f, states[..|states| - 1])), multiset{Transcript(f, DefaultState(f))},
            multiset{Transcript(f, FinalState(pv))}, memoryReads, multiset(KernelInits(f, felts)));
  }

  /** Completeness: the verifier accepts the finals of every balanced trace, of any length, at all challenges that
      leave the messages nonzero. */
  lemma BalancedPasses<T(!new)>(f: Field<T>, alpha: T, beta: T, aux: seq<T>, columns: seq<seq<T>>, ts: seq<Traffic<T>>,
                                siblings: multiset<BusMessage<T>>, states: seq<seq<T>>,
                                memoryReads: multiset<BusMessage<T>>, pv: seq<T>, felts: seq<T>)
    requires IsField(f) && |pv| == NUM_PUBLIC_VALUES && |aux| == AUX_TRACE_WIDTH
    requires Balanced(f, ts, siblings, states, memoryReads, pv, felts)
    requires Constrained(f, alpha, beta, aux, columns, ts)
    requires f.zero !in Values(f, alpha, beta, AllRemoves(ts))
    ensures Numerator(f, aux, alpha, beta, pv) == Denominator(f, alpha, beta, pv, felts)
  {
    hide Values, Balanced, Constrained, Numerator, Denominator, Added, Removed, AllRemoves;
    CheckIsGrandProduct(f, alpha, beta, aux, columns, ts, pv, felts);
    BalancedPermutation(f, ts, siblings, states, memoryReads, pv, felts);
    ProductPermutation(f, alpha, beta, Added(f, ts, pv), Removed(f, ts, pv, felts));
    ProdZero(f, Values(f, alpha, beta, AllRemoves(ts)));
    MulCancel(f, Numerator(f, aux, alpha, beta, pv), Denominator(f, alpha, beta, pv, felts),
              Product(f, alpha, beta, AllRemoves(ts)));
  }

  /** The verifier's reduction of a balanced trace returns the product one. */
  method VerifyBalanced<T(==,!new)>(f: Field<T>, alpha: T, beta: T, aux: seq<T>, ghost columns: seq<seq<T>>,
                                    ghost ts: seq<Traffic<T>>, ghost siblings: multiset<BusMessage<T>>,
                                    ghost states: seq<seq<T>>, ghost memoryReads: multiset<BusMessage<T>>,
                                    pv: seq<T>, felts: seq<T>) returns (r: Result<Reduced<T>>)
    requires IsField(f) && |pv| == NUM_PUBLIC_VALUES && |aux| == AUX_TRACE_WIDTH && |felts| % WORD_SIZE == 0
    requires Balanced(f, ts, siblings, states, memoryReads, pv, felts)
    requires Constrained(f, alpha, beta, aux, columns, ts)
    requires f.zero !in Values(f, alpha, beta, Removed(f, ts, pv, felts))
    ensures r.Ok? && r.value.prod == f.one && r.value.sum == f.add(aux[B_RANGE], aux[V_WIRING])
  {
    hide Values, Balanced, Constrained, Numerator, Denominator, AllRemoves;
    NonzeroParts(f, alpha, beta, ts, pv, felts);
    BalancedPasses(f, alpha, beta, aux, columns, ts, siblings, states, memoryReads, pv, felts);
    ghost var d := Denominator(f, alpha, beta, pv, felts);
    r := ReducedAuxValues(f, aux, [alpha, beta], pv, [felts]);
    assert Laws(f, d, f.one, d) && Laws(f, f.one, d, d);
    MulCancel(f, r.value.prod, f.one, d);
  }

  lemma NonzeroParts<T(!new)>(f: Field<T>, alpha: T, beta: T, ts: seq<Traffic<T>>, pv: seq<T>, felts: seq<T>)
    requires IsField(f) && |pv| == NUM_PUBLIC_VALUES
    requires f.zero !in Values(f, alpha, beta, Removed(f, ts, pv, felts))
    ensures f.zero !in Values(f, alpha, beta, AllRemoves(ts)) && Denominator(f, alpha, beta, pv, felts) != f.zero
  {
    hide Denominator, Transcript, KernelInits;
    var rest := [Transcript(f, FinalState(pv))] + KernelInits(f, felts);
    assert Values(f, alpha, beta, Removed(f, ts, pv, felts))
               == Values(f, alpha, beta, AllRemoves(ts)) + Values(f, alpha, beta, rest);
    ProdZero(f, Values(f, alpha, beta, rest));
    DenominatorValue(f, alpha, beta, pv, felts);
  }
}
