/** The results at the virtual machine's own field and boundary checks. */
module VmField {
  import opened Common
  import opened Fields
  import opened Goldilocks
  import opened QuadField
  import opened ReducedAux
  import opened BusBalance
  import opened GrandProducts
  import opened BusSoundness
  import N = BusFinals
  import W = WiringSoundness
  import M = Claims
  import S = SumCheck
  import X = AceSoundness
  import Y = AceAir
  import V = Wiring
  import C = Challenges
  import D = Dag
  import A = Ace
  import L = Lowering
  import E = Encoding
  import K = Circuit
  import Pipeline

  lemma {:induction false} OfNatQuad(n: nat)
    requires n < P
    ensures ExtensionField().OfNat(n) == Quad(n as Felt, 0)
  {
    if n > 0 {
      OfNatQuad(n - 1);
      ModUnique(n, P, 0, n);
    }
  }

  /** The ten bus types stay apart in the field. */
  lemma BusTypesDistinct()
    ensures C.BusesDistinct(ExtensionField())
  {
    forall i, j | 1 <= i < j <= C.NUM_BUS_TYPES ensures ExtensionField().OfNat(i) != ExtensionField().OfNat(j) {
      OfNatQuad(i);
      OfNatQuad(j);
    }
  }

  // Counting the elements

  ghost function Row(re: Felt, n: nat): (s: set<Quad>)
    requires n <= P
    ensures |s| == n && forall q: Quad :: q in s <==> q.re == re && q.im as int < n
  {
    if n == 0 then {} else Row(re, n - 1) + {Quad(re, (n - 1) as Felt)}
  }

  ghost function QuadsBelow(n: nat): (s: set<Quad>)
    requires n <= P
    ensures |s| == n * P && forall q: Quad :: q in s <==> q.re as int < n
  {
    if n == 0 then {} else
      assert n * P == (n - 1) * P + P;
      QuadsBelow(n - 1) + Row((n - 1) as Felt, P)
  }

  lemma AllQuads(n: nat) returns (elements: set<Quad>)
    requires n == P
    ensures |elements| == P * P && forall q: Quad :: q in elements
  {
    elements := QuadsBelow(n);
  }

  /** In the virtual machine's field, of size `P^2`, an unbalanced trace passes for at most `17 N P^2` of the `P^4`
      pairs of challenges. */
  lemma UnbalancedRarelyPassesInVm(ts: seq<Traffic<Quad>>, pv: seq<Quad>, felts: seq<Quad>, passing: set<(Quad, Quad)>)
    requires |pv| == NUM_PUBLIC_VALUES
    requires var f := ExtensionField();
             && WellFormed(Added(f, ts, pv)) && WellFormed(Removed(f, ts, pv, felts))
             && multiset(Canonical(f, Added(f, ts, pv))) != multiset(Canonical(f, Removed(f, ts, pv, felts)))
             && forall p :: p in passing ==> Accepted(f, p.0, p.1, ts, pv, felts)
    ensures |passing| <= 17 * Max(|Added(ExtensionField(), ts, pv)|,
              |Removed(ExtensionField(), ts, pv, felts)|) * (P * P)
  {
    hide ExtensionField, WellFormed, Added, Removed, Canonical, Accepted, C.BusesDistinct, Max;
    ExtensionIsField();
    BusTypesDistinct();
    var elements := AllQuads(P);
    UnbalancedInFiniteField(ExtensionField(), ts, pv, felts, elements, passing);
  }

  // Finals

  lemma ValueAtZero(alpha: Quad, m: BusMessage<Quad>)
    requires |m.elems| > 0
    ensures Value(ExtensionField(), alpha, ExtensionField().zero, m) == ExtensionField().add(alpha, m.elems[0])
  {
    hide ExtensionField;
    ExtensionIsField();
    C.EncodedAtZero(ExtensionField(), alpha, m.bus, m.elems);
  }

  /** A concrete case in the virtual machine's field: one word is read, and at the challenges 1 and 0 neither column
      ends as expected. */
  lemma OneReadUnexpectedInVm(word: seq<Quad>, pv: seq<Quad>)
    requires |word| == WORD_SIZE && |pv| == NUM_PUBLIC_VALUES && forall i :: 0 <= i < |pv| ==>
               pv[i] == ExtensionField().zero
    ensures var f := ExtensionField();
            N.Unexpected(f, f.one, f.zero, N.ReadWord(f, f.zero, f.zero, f.zero, word), pv)
  {
    hide ExtensionField, Value, N.Unexpected;
    ExtensionIsField();
    var f := ExtensionField();
    var read := N.ReadWord(f, f.zero, f.zero, f.zero, word);
    assert FinalState(pv) == DefaultState(f);
    assert Laws(f, f.zero, f.one, f.one) && Laws(f, f.one, f.zero, f.one);
    OneMoreAtZero(read, N.MEMORY_READ_WORD_LABEL);
    OneMoreAtZero(ProgramHash(f, pv), 0);
    OneMoreAtZero(Transcript(f, DefaultState(f)), LOG_PRECOMPILE_LABEL);
    N.OneReadUnexpected(f, f.one, f.zero, read, pv);
  }

  /** At alpha = 1 and beta = 0, a message that starts with a small integer is neither zero nor, unless that integer is
      zero, one. */
  lemma OneMoreAtZero(m: BusMessage<Quad>, first: nat)
    requires |m.elems| > 0 && first + 1 < P && m.elems[0] == ExtensionField().OfNat(first)
    ensures var f := ExtensionField();
            var v := Value(f, f.one, f.zero, m);
            v != f.zero && (first > 0 ==> v != f.one)
  {
    hide ExtensionField, Value;
    ExtensionIsField();
    var f := ExtensionField();
    ValueAtZero(f.one, m);
    assert Laws(f, f.zero, f.one, f.one) && Laws(f, f.one, f.zero, f.one);
    OfNatSum(f, 1, first);
    SmallNatsDistinct(first + 1, 0);
    if first > 0 { SmallNatsDistinct(first + 1, 1); }
  }

  // The wiring bus

  function QuadCoords(q: Quad): (Quad, Quad) {
    (Quad(q.re, 0), Quad(q.im, 0))
  }

  lemma SmallNatsDistinct(a: nat, b: nat)
    requires a < P && b < P && a != b
    ensures ExtensionField().OfNat(a) != ExtensionField().OfNat(b)
  {
    hide ExtensionField;
    OfNatQuad(a);
    OfNatQuad(b);
  }

  /** In the virtual machine's field: if some wire message is sent and read a different number of times, both below `P`,
      the wiring column ends at zero for at most `18 N P^2` of the `P^4` pairs of challenges, whatever the rows hold. */
  lemma MiswiredRarelyClosesInVm(clks: seq<Quad>, ctxs: seq<Quad>, sections: seq<V.Section<Quad>>, offset: nat,
                                 m: BusMessage<Quad>, passing: set<(Quad, Quad)>)
    requires |clks| == |ctxs| == |sections| && W.AllSized(sections) && Full(m)
    requires var wires := W.WireMessages(ExtensionField(), clks, ctxs, QuadCoords);
             var cs := W.AllClaims(wires, sections, |sections|);
             && M.SentTimes(cs, m) != M.ReadTimes(cs, m) && M.SentTimes(cs, m) < P && M.ReadTimes(cs, m) < P
             && forall p :: p in passing ==> W.WiringAccepted(ExtensionField(), p.0, p.1, wires, sections, offset)
    ensures var wires := W.WireMessages(ExtensionField(), clks, ctxs, QuadCoords);
            |passing| <= 18 * |W.AllClaims(wires, sections, |sections|)| * (P * P)
  {
    hide ExtensionField, C.BusesDistinct, W.AllClaims, M.SentTimes, M.ReadTimes, W.WiringAccepted, W.WireMessages, Full;
    ExtensionIsField();
    BusTypesDistinct();
    var f := ExtensionField();
    var elements := AllQuads(P);
    var wires := W.WireMessages(f, clks, ctxs, QuadCoords);
    var cs := W.AllClaims(wires, sections, |sections|);
    W.WireMessagesFull(f, clks, ctxs, QuadCoords);
    W.AllClaimsFull(wires, sections, |sections|);
    MessagesFull(cs);
    SmallNatsDistinct(M.SentTimes(cs, m), M.ReadTimes(cs, m));
    W.MiswiredRarelyCloses(f, wires, sections, offset, m, elements, elements, passing);
    Collected(|cs|, |elements|);
  }

  lemma MessagesFull<T>(cs: seq<M.Claim<T>>)
    requires M.FullClaims(cs)
    ensures FullWidth(M.Messages(cs))
  {
  }

  lemma Collected(n: nat, s: nat)
    ensures C.MAX_MESSAGE_WIDTH * n * s + 2 * n * s == 18 * n * s
  {
  }

  // Recursive verification

  /** An extension-field element as the two base-field elements that memory holds. */
  function QuadBasis(): E.Basis<Quad> {
    E.Basis((q: Quad) => (q.re as int, q.im as int), (a: nat, b: nat) => Quad(Reduce(a), Reduce(b)))
  }

  lemma QuadIsBasis()
    ensures E.IsBasis(QuadBasis())
  {
    forall q: Quad ensures E.JoinsSplit(QuadBasis(), q) {
      ModUnique(q.re as int, P, 0, q.re as int);
      ModUnique(q.im as int, P, 0, q.im as int);
    }
  }

  /** The verifier circuit of any constraint system, with the virtual machine's own boundary checks batched in, run on
      the chiplet: it accepts exactly when the verifier's equation holds. */
  method VerifyInVm(s: L.Setting<Quad>, cs: L.Constraints<Quad>, chunks: nat, layout: K.Layout,
                    inputs: seq<Quad>)
    returns (batched: D.AceDag<Quad>, v: Pipeline.Verdict<Quad>)
    requires layout.Valid() && |inputs| == layout.totalInputs
    requires L.NoEmptyColumn(s.periodic) && cs.Lowerable(|s.periodic|)
    ensures batched.Valid() && L.AllLowerable(cs.InOrder(), |s.periodic|) && (v.NoCircuit? <==>
              !K.KeysPresent(batched.nodes, layout))
    ensures v.Ran? ==>
              var f, env := ExtensionField(), K.EnvOf(ExtensionField(), layout, inputs);
              v.accepted <==>
                A.BatchedValue(f, env, ReducedAuxBatchConfig(f), L.VerifierValue(f, env, s, cs.InOrder(), chunks)) == f.zero
  {
    hide A.BatchedValue, L.VerifierValue, K.EnvOf, ExtensionField, E.IsBasis, QuadBasis;
    ExtensionIsField();
    QuadIsBasis();
    var f := ExtensionField();
    batched, v := Pipeline.VerifyAirOnChiplet(f, QuadBasis(), s, cs, chunks, layout, ReducedAuxBatchConfig(f),
                                              inputs);
  }

  // The circuit-evaluation chiplet

  lemma ChipletField()
    ensures X.Suitable(ExtensionField(), QuadCoords, P)
  {
    hide ExtensionField;
    ExtensionIsField();
    forall a: nat, b: nat | a < P && b < P && ExtensionField().OfNat(a) == ExtensionField().OfNat(b) ensures a == b {
      if a != b { SmallNatsDistinct(a, b); }
    }
    forall x, y | QuadCoords(x) == QuadCoords(y) ensures x == y {
      assert QuadCoords(x).0.re == x.re && QuadCoords(x).1.re == x.im;
    }
    assert forall a: nat, b: nat :: a < P && b < P && ExtensionField().OfNat(a) == ExtensionField().OfNat(b) ==> a == b;
  }

  /** In the virtual machine's field: a chiplet trace that meets the constraints with a section for a circuit whose last
      gate is not zero passes the sum check for at most `18 N P^2` of the `P^4` pairs of challenges. */
  lemma FalseCircuitRarelyPassesInVm(b: E.Basis<Quad>, c: K.AceCircuit<Quad>, s: E.Sizes, enc: E.Encoded,
                                     rows: seq<Y.AceRow<Quad>>, p: nat, q: nat, mem: nat -> nat, ptr: nat,
                                     inputs: seq<Quad>, range: seq<seq<M.Claim<Quad>>>,
                                     wiring: seq<seq<M.Claim<Quad>>>, passing: set<(Quad, Quad)>)
    requires X.HasSection(ExtensionField(), b, rows, p, q, mem, ptr, enc.numVars, enc.numOps, P)
    requires X.FalseInMemory(ExtensionField(), b, c, s, enc, mem, ptr, inputs)
    requires var cs := S.BothColumns(range, wiring);
             X.Carries(ExtensionField(), QuadCoords, rows, cs) && |cs| < P && M.FullClaims(cs)
    requires forall x :: x in passing ==> S.SumAccepted(ExtensionField(), x.0, x.1, range, wiring)
    ensures |passing| <= 18 * |S.BothColumns(range, wiring)| * (P * P)
  {
    hide ExtensionField, X.Suitable, X.HasSection, X.FalseInMemory, X.Carries, S.BothColumns, S.SumAccepted,
         C.BusesDistinct, M.FullClaims;
    ChipletField();
    BusTypesDistinct();
    var elements := AllQuads(P);
    var cs := S.BothColumns(range, wiring);
    MessagesFull(cs);
    X.FalseCircuitRarelyPasses(ExtensionField(), b, QuadCoords, c, s, enc, rows, p, q, mem, ptr, inputs, range, wiring, P,
                               elements, elements, passing);
    Collected(|cs|, |elements|);
  }
}
