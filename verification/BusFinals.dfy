/** The final value of each running-product column on its own, next to what miden-vm/air/src/lib.rs expects of it.
    The memory reads of the circuit chiplet are requested on one column and answered on another, so two of the
    expectations hold only when those reads multiply to one; the verifier's product check never needs them. */
module BusFinals {
  import opened Common
  import opened Fields
  import opened Polynomials
  import opened GrandProducts
  import opened ReducedAux
  import opened BusBalance
  import C = Challenges
  import S = BusSoundness

  /** The messages a column divides out have nonzero values. */
  ghost predicate Removable<T>(f: Field<T>, alpha: T, beta: T, t: Traffic<T>) {
    f.zero !in Values(f, alpha, beta, Flatten(t.removes))
  }

  /** A column ends at what it is left with: if adding `a` to its inserts and `b` to its removals evens the two out,
      its final value times the value of `a` is the value of `b`. */
  lemma FinalOfSurplus<T(!new)>(f: Field<T>, alpha: T, beta: T, column: seq<T>, t: Traffic<T>,
                                a: seq<BusMessage<T>>, b: seq<BusMessage<T>>)
    requires IsField(f) && Follows(f, alpha, beta, column, t) && Removable(f, alpha, beta, t)
    requires multiset(Flatten(t.inserts) + a) == multiset(Flatten(t.removes) + b)
    ensures f.mul(Final(column), Product(f, alpha, beta, a)) == Product(f, alpha, beta, b)
  {
    hide Product, Values;
    var inserts, removes := Flatten(t.inserts), Flatten(t.removes);
    ColumnTelescopes(f, alpha, beta, column, t);
    ProductPermutation(f, alpha, beta, inserts + a, removes + b);
    ProductConcat(f, alpha, beta, inserts, a);
    ProductConcat(f, alpha, beta, removes, b);
    RemovableProduct(f, alpha, beta, t);
    CancelRemoved(f, Final(column), Product(f, alpha, beta, inserts), Product(f, alpha, beta, removes),
                  Product(f, alpha, beta, a), Product(f, alpha, beta, b));
  }

  lemma RemovableProduct<T(!new)>(f: Field<T>, alpha: T, beta: T, t: Traffic<T>)
    requires IsField(f) && Removable(f, alpha, beta, t)
    ensures Product(f, alpha, beta, Flatten(t.removes)) != f.zero
  {
    ProdZero(f, Values(f, alpha, beta, Flatten(t.removes)));
  }

  lemma CancelRemoved<T(!new)>(f: Field<T>, x: T, i: T, r: T, a: T, b: T)
    requires IsField(f) && r != f.zero && f.mul(x, r) == i && f.mul(i, a) == f.mul(r, b)
    ensures f.mul(x, a) == b
  {
    assert Laws(f, x, r, a) && Laws(f, r, a, a) && Laws(f, x, a, r) && Laws(f, r, b, b);
    MulCancel(f, f.mul(x, a), b, r);
  }

  /** A column whose requests and responses cancel ends at one. */
  lemma MatchedFinal<T(!new)>(f: Field<T>, alpha: T, beta: T, column: seq<T>, t: Traffic<T>)
    requires IsField(f) && Follows(f, alpha, beta, column, t) && Removable(f, alpha, beta, t) && Matched(t)
    ensures Final(column) == f.one
  {
    hide Follows, Removable, Product;
    FollowsLength(f, alpha, beta, column, t);
    assert Flatten(t.inserts) + [] == Flatten(t.inserts) && Flatten(t.removes) + [] == Flatten(t.removes);
    FinalOfSurplus(f, alpha, beta, column, t, [], []);
    ProductEmpty(f, alpha, beta);
    assert Laws(f, Final(column), f.one, f.one);
  }

  lemma FollowsLength<T>(f: Field<T>, alpha: T, beta: T, column: seq<T>, t: Traffic<T>)
    requires Follows(f, alpha, beta, column, t)
    ensures |column| > 0
  {
  }

  /** The block-hash column ends at the inverse of the program-hash message. */
  lemma RootFinal<T(!new)>(f: Field<T>, alpha: T, beta: T, column: seq<T>, t: Traffic<T>, pv: seq<T>)
    requires IsField(f) && Follows(f, alpha, beta, column, t) && Removable(f, alpha, beta, t)
    requires |pv| == NUM_PUBLIC_VALUES && RootUnmatched(f, t, pv)
    ensures f.mul(Final(column), Value(f, alpha, beta, ProgramHash(f, pv))) == f.one
  {
    hide Follows, Removable, Product, Value, ProgramHash;
    FollowsLength(f, alpha, beta, column, t);
    assert Flatten(t.removes) + [] == Flatten(t.removes);
    FinalOfSurplus(f, alpha, beta, column, t, [ProgramHash(f, pv)], []);
    ProductSingle(f, alpha, beta, ProgramHash(f, pv));
    ProductEmpty(f, alpha, beta);
  }

  /** The hash-kernel column ends at the last transcript message, divided by the first one and by the memory reads. */
  lemma HashKernelFinal<T(!new)>(f: Field<T>, alpha: T, beta: T, column: seq<T>, t: Traffic<T>,
                                 siblings: multiset<BusMessage<T>>, states: seq<seq<T>>, memoryReads: seq<BusMessage<T>>,
                                 pv: seq<T>)
    requires IsField(f) && Follows(f, alpha, beta, column, t) && Removable(f, alpha, beta, t)
    requires |pv| == NUM_PUBLIC_VALUES && ChainFrom(f, t, siblings, states, multiset(memoryReads), pv)
    ensures f.mul(f.mul(Final(column), Value(f, alpha, beta, Transcript(f, DefaultState(f)))),
                  Product(f, alpha, beta, memoryReads))
            == Value(f, alpha, beta, Transcript(f, FinalState(pv)))
  {
    hide Follows, Removable, Product, Value, Transcript;
    FollowsLength(f, alpha, beta, column, t);
    var first, last := Transcript(f, DefaultState(f)), Transcript(f, FinalState(pv));
    ChainSurplus(f, t, siblings, states, memoryReads, pv);
    FinalOfSurplus(f, alpha, beta, column, t, [first] + memoryReads, [last]);
    ProductConcat(f, alpha, beta, [first], memoryReads);
    ProductSingle(f, alpha, beta, first);
    ProductSingle(f, alpha, beta, last);
    assert Laws(f, Final(column), Value(f, alpha, beta, first), Product(f, alpha, beta, memoryReads));
  }

  lemma ChainSurplus<T>(f: Field<T>, t: Traffic<T>, siblings: multiset<BusMessage<T>>, states: seq<seq<T>>,
                        memoryReads: seq<BusMessage<T>>, pv: seq<T>)
    requires |pv| == NUM_PUBLIC_VALUES && ChainFrom(f, t, siblings, states, multiset(memoryReads), pv)
    ensures multiset(Flatten(t.inserts) + ([Transcript(f, DefaultState(f))] + memoryReads))
            == multiset(Flatten(t.removes) + [Transcript(f, FinalState(pv))])
  {
    hide Transcript, Transcripts, Flatten;
    ChainEnds(f, states);
    Rearranged(siblings, multiset(Transcripts(f, states[1..])), multiset(Transcripts(f, states[..|states| - 1])),
               multiset{Transcript(f, DefaultState(f))}, multiset{Transcript(f, FinalState(pv))}, multiset(memoryReads));
  }

  lemma Rearranged<X>(siblings: multiset<X>, later: multiset<X>, earlier: multiset<X>, first: multiset<X>,
                      last: multiset<X>, reads': multiset<X>)
    requires later + first == earlier + last
    ensures siblings + later + (first + reads') == siblings + earlier + reads' + last
  {
    assert siblings + later + (first + reads') == siblings + (later + first) + reads';
  }

  /** The chiplets column ends at the kernel's init messages times the memory reads. */
  lemma ChipletsFinal<T(!new)>(f: Field<T>, alpha: T, beta: T, column: seq<T>, t: Traffic<T>,
                               memoryReads: seq<BusMessage<T>>, felts: seq<T>)
    requires IsField(f) && Follows(f, alpha, beta, column, t) && Removable(f, alpha, beta, t)
    requires KernelUnmatched(f, t, multiset(memoryReads), felts)
    ensures Final(column) == f.mul(f.Prod(KernelMessages(f, alpha, beta, felts)), Product(f, alpha, beta, memoryReads))
  {
    hide Follows, Removable, Product, KernelMessages, KernelInits, Flatten;
    FollowsLength(f, alpha, beta, column, t);
    var inits := KernelInits(f, felts);
    assert Flatten(t.inserts) + [] == Flatten(t.inserts);
    FinalOfSurplus(f, alpha, beta, column, t, [], inits + memoryReads);
    ProductEmpty(f, alpha, beta);
    ProductConcat(f, alpha, beta, inits, memoryReads);
    KernelProduct(f, alpha, beta, felts);
    assert Laws(f, Final(column), f.one, f.one);
  }

  lemma KernelProduct<T(!new)>(f: Field<T>, alpha: T, beta: T, felts: seq<T>)
    ensures Product(f, alpha, beta, KernelInits(f, felts)) == f.Prod(KernelMessages(f, alpha, beta, felts))
  {
    hide KernelInit, Value, KernelMessage;
    var inits := KernelInits(f, felts);
    assert inits[..|inits|] == inits;
    KernelInitsValue(f, alpha, beta, felts, |inits|);
  }

  // The expectations

  /** `final_transcript_msg / default_transcript_msg` for the hash-kernel column. */
  ghost predicate HashKernelAsExpected<T>(f: Field<T>, alpha: T, beta: T, column: seq<T>, pv: seq<T>)
    requires |column| > 0 && |pv| == NUM_PUBLIC_VALUES
  {
    f.mul(Final(column), Value(f, alpha, beta, Transcript(f, DefaultState(f))))
      == Value(f, alpha, beta, Transcript(f, FinalState(pv)))
  }

  /** `kernel_reduced` for the chiplets column. */
  ghost predicate ChipletsAsExpected<T>(f: Field<T>, alpha: T, beta: T, column: seq<T>, felts: seq<T>)
    requires |column| > 0
  {
    Final(column) == f.Prod(KernelMessages(f, alpha, beta, felts))
  }

  /** The hash-kernel column ends as expected exactly when the memory reads multiply to one, or the last transcript
      message is zero, which the verifier reports as an error. */
  lemma HashKernelExactly<T(!new)>(f: Field<T>, alpha: T, beta: T, column: seq<T>, t: Traffic<T>,
                                   siblings: multiset<BusMessage<T>>, states: seq<seq<T>>,
                                   memoryReads: seq<BusMessage<T>>, pv: seq<T>)
    requires IsField(f) && Follows(f, alpha, beta, column, t) && Removable(f, alpha, beta, t)
    requires |pv| == NUM_PUBLIC_VALUES && ChainFrom(f, t, siblings, states, multiset(memoryReads), pv)
    ensures HashKernelAsExpected(f, alpha, beta, column, pv)
            <==> Product(f, alpha, beta, memoryReads) == f.one
                 || Value(f, alpha, beta, Transcript(f, FinalState(pv))) == f.zero
  {
    hide Follows, Removable, Product, Value, Transcript, ChainFrom;
    FollowsLength(f, alpha, beta, column, t);
    HashKernelFinal(f, alpha, beta, column, t, siblings, states, memoryReads, pv);
    ReadsNonzero(f, alpha, beta, t, siblings, states, memoryReads, pv);
    var x, r := f.mul(Final(column), Value(f, alpha, beta, Transcript(f, DefaultState(f)))), Product(f, alpha, beta,
                      memoryReads);
    NoZeroDivisors(f, x, r);
    if x != f.zero {
      FactorIsOne(f, x, r, Value(f, alpha, beta, Transcript(f, FinalState(pv))));
    }
  }

  lemma ReadsNonzero<T(!new)>(f: Field<T>, alpha: T, beta: T, t: Traffic<T>, siblings: multiset<BusMessage<T>>,
                              states: seq<seq<T>>, memoryReads: seq<BusMessage<T>>, pv: seq<T>)
    requires IsField(f) && Removable(f, alpha, beta, t)
    requires |pv| == NUM_PUBLIC_VALUES && ChainFrom(f, t, siblings, states, multiset(memoryReads), pv)
    ensures Product(f, alpha, beta, memoryReads) != f.zero
  {
    hide Value, Transcripts, Flatten;
    ProdZero(f, Values(f, alpha, beta, memoryReads));
    var removes := Flatten(t.removes);
    forall i | 0 <= i < |memoryReads| ensures Value(f, alpha, beta, memoryReads[i]) != f.zero {
      assert memoryReads[i] in multiset(memoryReads);
      assert memoryReads[i] in multiset(removes);
      var k :| 0 <= k < |removes| && removes[k] == memoryReads[i];
      assert Values(f, alpha, beta, removes)[k] == Value(f, alpha, beta, memoryReads[i]);
    }
  }

  /** The chiplets column ends as expected exactly when the memory reads multiply to one, or some kernel message is
      zero, which the verifier reports as an error. */
  lemma ChipletsExactly<T(!new)>(f: Field<T>, alpha: T, beta: T, column: seq<T>, t: Traffic<T>,
                                 memoryReads: seq<BusMessage<T>>, felts: seq<T>)
    requires IsField(f) && Follows(f, alpha, beta, column, t) && Removable(f, alpha, beta, t)
    requires KernelUnmatched(f, t, multiset(memoryReads), felts)
    ensures ChipletsAsExpected(f, alpha, beta, column, felts)
            <==> Product(f, alpha, beta, memoryReads) == f.one
                 || f.zero in KernelMessages(f, alpha, beta, felts)
  {
    hide Follows, Removable, Product, KernelMessages, KernelUnmatched;
    FollowsLength(f, alpha, beta, column, t);
    ChipletsFinal(f, alpha, beta, column, t, memoryReads, felts);
    ProdZero(f, KernelMessages(f, alpha, beta, felts));
    var kernel, r := f.Prod(KernelMessages(f, alpha, beta, felts)), Product(f, alpha, beta, memoryReads);
    NoZeroDivisors(f, kernel, r);
    if kernel != f.zero {
      FactorIsOne(f, kernel, r, Final(column));
    }
  }

  lemma FactorIsOne<T(!new)>(f: Field<T>, x: T, r: T, y: T)
    requires IsField(f) && f.mul(x, r) == y && x != f.zero
    ensures x == y <==> r == f.one
  {
    assert Laws(f, x, r, x) && Laws(f, x, f.one, x) && Laws(f, f.one, x, x);
    MulCancel(f, r, f.one, x);
  }

  /** With at least one memory read, few `alpha` make the reads multiply to one, whatever `beta` is.  Without reads
      all do. */
  lemma ReadsRarelyCancel<T(!new)>(f: Field<T>, beta: T, memoryReads: seq<BusMessage<T>>, alphas: set<T>)
    requires IsField(f)
    requires forall alpha :: alpha in alphas ==> Product(f, alpha, beta, memoryReads) == f.one
    ensures memoryReads != [] ==> |alphas| <= |memoryReads|
    ensures memoryReads == [] ==> forall alpha :: Product(f, alpha, beta, memoryReads) == f.one
  {
    if memoryReads != [] {
      var points := S.Points(f, beta, memoryReads);
      forall alpha | alpha in alphas
        ensures f.Prod(Shifted(f, alpha, points)) == f.Prod(Shifted(f, alpha, []))
      {
        S.ValuesAreShifted(f, alpha, beta, memoryReads);
      }
      assert |multiset(points)| == |points| > 0;
      GrandProductBound(f, points, [], alphas);
    }
  }

  // A trace with one read

  const MEMORY_READ_WORD_LABEL := 28

  /** What the circuit chiplet asks of memory for one word. */
  function ReadWord<T>(f: Field<T>, ctx: T, addr: T, clk: T, word: seq<T>): BusMessage<T>
    requires |word| == WORD_SIZE
  {
    BusMessage(C.CHIPLETS_BUS, [f.OfNat(MEMORY_READ_WORD_LABEL), ctx, addr, clk, word[0], word[1], word[2], word[3]])
  }

  /** One row: the root block ends and the circuit chiplet reads one word. */
  function OneReadTraffic<T>(f: Field<T>, read: BusMessage<T>, pv: seq<T>): (ts: seq<Traffic<T>>)
    requires |pv| == NUM_PUBLIC_VALUES
    ensures |ts| == 6
  {
    var quiet := Traffic([[]], [[]]);
    [quiet, Traffic([[]], [[ProgramHash(f, pv)]]), quiet, quiet, Traffic([[]], [[read]]), Traffic([[read]], [[]])]
  }

  function OneReadColumns<T>(f: Field<T>, root: T, read: T): (columns: seq<seq<T>>)
    ensures |columns| == 6
  {
    var quiet := [f.one, f.one];
    [quiet, [f.one, f.inv(root)], quiet, quiet, [f.one, f.inv(read)], [f.one, read]]
  }

  lemma FlattenOne<X>(row: seq<X>)
    ensures Flatten([row]) == row
  {
    assert [row][..0] == [];
    assert Flatten([row]) == Flatten([]) + row;
  }

  lemma OneReadBalanced<T>(f: Field<T>, read: BusMessage<T>, pv: seq<T>)
    requires |pv| == NUM_PUBLIC_VALUES && FinalState(pv) == DefaultState(f)
    ensures Balanced(f, OneReadTraffic(f, read, pv), multiset{}, [DefaultState(f)], multiset([read]), pv, [])
  {
    hide ProgramHash, Transcript;
    FlattenOne<BusMessage<T>>([]);
    FlattenOne([read]);
    FlattenOne([ProgramHash(f, pv)]);
    var states := [DefaultState(f)];
    assert states[1..] == [] && states[..0] == [];
    assert multiset(Transcripts(f, states[1..])) == multiset{};
    assert KernelInits(f, []) == [];
  }

  /** One row that multiplies by `i` and divides by `r`. */
  lemma OneRowFollows<T(!new)>(f: Field<T>, alpha: T, beta: T, i: seq<BusMessage<T>>, r: seq<BusMessage<T>>, last: T)
    requires IsField(f) && f.mul(last, Product(f, alpha, beta, r)) == Product(f, alpha, beta, i)
    ensures Follows(f, alpha, beta, [f.one, last], Traffic([i], [r]))
  {
    hide Product;
    assert Laws(f, Product(f, alpha, beta, i), f.one, f.one);
    assert Laws(f, f.one, Product(f, alpha, beta, i), f.one);
  }

  lemma OneReadFollows<T(!new)>(f: Field<T>, alpha: T, beta: T, read: BusMessage<T>, pv: seq<T>)
    requires IsField(f) && |pv| == NUM_PUBLIC_VALUES
    requires Value(f, alpha, beta, read) != f.zero && Value(f, alpha, beta, ProgramHash(f, pv)) != f.zero
    ensures AllFollow(f, alpha, beta,
                      OneReadColumns(f, Value(f, alpha, beta, ProgramHash(f, pv)), Value(f, alpha, beta, read)),
                      OneReadTraffic(f, read, pv))
  {
    hide Product, Value, ProgramHash, Follows;
    var root := ProgramHash(f, pv);
    var x, v := Value(f, alpha, beta, root), Value(f, alpha, beta, read);
    ProductEmpty(f, alpha, beta);
    ProductSingle(f, alpha, beta, root);
    ProductSingle(f, alpha, beta, read);
    assert Laws(f, f.one, f.one, f.one);
    assert Laws(f, x, f.inv(x), x) && Laws(f, v, f.inv(v), v) && Laws(f, v, f.one, v);
    OneRowFollows(f, alpha, beta, [], [], f.one);
    OneRowFollows(f, alpha, beta, [], [root], f.inv(x));
    OneRowFollows(f, alpha, beta, [], [read], f.inv(v));
    OneRowFollows(f, alpha, beta, [read], [], v);
  }

  /** The trace with one read is balanced, its columns meet the constraints, and neither column ends as expected. */
  ghost predicate Unexpected<T>(f: Field<T>, alpha: T, beta: T, read: BusMessage<T>, pv: seq<T>)
    requires |pv| == NUM_PUBLIC_VALUES
  {
    var ts := OneReadTraffic(f, read, pv);
    var columns := OneReadColumns(f, Value(f, alpha, beta, ProgramHash(f, pv)), Value(f, alpha, beta, read));
    && Balanced(f, ts, multiset{}, [DefaultState(f)], multiset([read]), pv, [])
    && AllFollow(f, alpha, beta, columns, ts)
    && |columns[4]| > 0 && !HashKernelAsExpected(f, alpha, beta, columns[4], pv)
    && |columns[5]| > 0 && !ChipletsAsExpected(f, alpha, beta, columns[5], [])
  }

  /** So it is at all challenges where the read is neither zero nor one; the verifier's product check still passes, as
      it does for every balanced trace. */
  lemma OneReadUnexpected<T(!new)>(f: Field<T>, alpha: T, beta: T, read: BusMessage<T>, pv: seq<T>)
    requires IsField(f) && |pv| == NUM_PUBLIC_VALUES && FinalState(pv) == DefaultState(f)
    requires Value(f, alpha, beta, read) != f.zero && Value(f, alpha, beta, read) != f.one
    requires Value(f, alpha, beta, ProgramHash(f, pv)) != f.zero
    requires Value(f, alpha, beta, Transcript(f, DefaultState(f))) != f.zero
    ensures Unexpected(f, alpha, beta, read, pv)
  {
    hide Product, Value, ProgramHash, Transcript, Follows, Balanced;
    var ts := OneReadTraffic(f, read, pv);
    var columns := OneReadColumns(f, Value(f, alpha, beta, ProgramHash(f, pv)), Value(f, alpha, beta, read));
    OneReadBalanced(f, read, pv);
    OneReadFollows(f, alpha, beta, read, pv);
    assert Follows(f, alpha, beta, columns[4], ts[4]) && Follows(f, alpha, beta, columns[5], ts[5]);
    FlattenOne<BusMessage<T>>([]);
    FlattenOne([read]);
    ProductSingle(f, alpha, beta, read);
    OneReadParts(f, read, pv);
    HashKernelExactly(f, alpha, beta, columns[4], ts[4], multiset{}, [DefaultState(f)], [read], pv);
    ChipletsExactly(f, alpha, beta, columns[5], ts[5], [read], []);
  }

  lemma OneReadParts<T>(f: Field<T>, read: BusMessage<T>, pv: seq<T>)
    requires |pv| == NUM_PUBLIC_VALUES && FinalState(pv) == DefaultState(f)
    ensures var ts := OneReadTraffic(f, read, pv);
            && ChainFrom(f, ts[4], multiset{}, [DefaultState(f)], multiset([read]), pv)
            && KernelUnmatched(f, ts[5], multiset([read]), [])
  {
    OneReadBalanced(f, read, pv);
  }
}
