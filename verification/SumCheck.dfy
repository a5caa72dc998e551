/** The verifier's sum check: the finals of the range-check and wiring columns add up to zero when every LogUp message
    is read as often as it is sent, on whichever of the two columns, and rarely otherwise (miden-vm/air/src/lib.rs,
    miden-vm/processor/src/trace/chiplets/aux_trace/wiring_bus.rs). */
module SumCheck {
  import opened Common
  import opened Fields
  import opened LogUp
  import opened ReducedAux
  import opened BusBalance
  import opened BusSoundness
  import opened Claims
  import C = Challenges

  // Balanced claims cancel

  /** The claims about other messages. */
  ghost function Without<T>(cs: seq<Claim<T>>, m: BusMessage<T>): (rest: seq<Claim<T>>)
    ensures |rest| <= |cs|
  {
    if |cs| == 0 then []
    else Without(cs[..|cs| - 1], m) + if cs[|cs| - 1].message == m then [] else [cs[|cs| - 1]]
  }

  lemma {:induction false} NetWithout<T>(f: Field<T>, cs: seq<Claim<T>>, m: BusMessage<T>, other: BusMessage<T>)
    ensures NetOf(f, Without(cs, m), other) == if other == m then f.zero else NetOf(f, cs, other)
  {
    hide NetOf;
    if |cs| == 0 {
      NetNone(f, other);
    } else {
      var n := |cs| - 1;
      var rest := Without(cs[..n], m);
      NetWithout(f, cs[..n], m, other);
      assert cs == cs[..n] + [cs[n]];
      NetNext(f, cs[..n], cs[n], other);
      if cs[n].message == m {
        assert Without(cs, m) == rest;
      } else {
        NetNext(f, rest, cs[n], other);
      }
    }
  }

  lemma NetNone<T>(f: Field<T>, m: BusMessage<T>)
    ensures NetOf(f, [], m) == f.zero
  {
  }

  lemma NetNext<T>(f: Field<T>, cs: seq<Claim<T>>, c: Claim<T>, m: BusMessage<T>)
    ensures NetOf(f, cs + [c], m) == if c.message == m then f.add(NetOf(f, cs, m), Count(f, c)) else NetOf(f, cs, m)
  {
    assert (cs + [c])[..|cs|] == cs;
  }

  /** Collecting the claims about one message: its fraction, times its net multiplicity. */
  lemma {:induction false} SumWithout<T(!new)>(f: Field<T>, alpha: T, beta: T, cs: seq<Claim<T>>, m: BusMessage<T>)
    requires IsField(f)
    ensures ClaimSum(f, alpha, beta, cs)
            == f.add(ClaimSum(f, alpha, beta, Without(cs, m)), f.mul(NetOf(f, cs, m), f.inv(Value(f, alpha, beta, m))))
  {
    hide ClaimSum, Value, Count, IsField;
    var v := f.inv(Value(f, alpha, beta, m));
    if |cs| == 0 {
      NoClaims(f, alpha, beta);
      assert cs == [];
      MulZero(f, v);
      assert Laws(f, f.zero, f.zero, f.zero) by { FieldLaws(f, f.zero, f.zero, f.zero); }
    } else {
      var n, c := |cs| - 1, cs[|cs| - 1];
      SumWithout(f, alpha, beta, cs[..n], m);
      assert cs == cs[..n] + [c];
      ClaimsConcat(f, alpha, beta, cs[..n], [c]);
      OneClaim(f, alpha, beta, c);
      var rest, net := Without(cs[..n], m), NetOf(f, cs[..n], m);
      if c.message == m {
        assert Without(cs, m) == rest;
        Collects(f, ClaimSum(f, alpha, beta, rest), net, Count(f, c), v);
      } else {
        ClaimsConcat(f, alpha, beta, rest, [c]);
        Swaps(f, ClaimSum(f, alpha, beta, rest), f.mul(net, v), ClaimSum(f, alpha, beta, [c]));
      }
    }
  }

  lemma FieldLaws<T(!new)>(f: Field<T>, x: T, y: T, z: T)
    requires IsField(f)
    ensures Laws(f, x, y, z)
  {
  }

  /** `(r + n v) + c v = r + (n + c) v` */
  lemma Collects<T(!new)>(f: Field<T>, r: T, n: T, c: T, v: T)
    requires IsField(f)
    ensures f.add(f.add(r, f.mul(n, v)), f.mul(c, v)) == f.add(r, f.mul(f.add(n, c), v))
  {
    assert Laws(f, v, n, c) && Laws(f, n, v, v) && Laws(f, c, v, v) && Laws(f, f.add(n, c), v, v);
    assert Laws(f, r, f.mul(n, v), f.mul(c, v));
  }

  /** `(r + x) + y = (r + y) + x` */
  lemma Swaps<T(!new)>(f: Field<T>, r: T, x: T, y: T)
    requires IsField(f)
    ensures f.add(f.add(r, x), y) == f.add(f.add(r, y), x)
  {
    assert Laws(f, r, x, y) && Laws(f, r, y, x) && Laws(f, x, y, y);
  }

  ghost predicate NetZero<T>(f: Field<T>, cs: seq<Claim<T>>, m: BusMessage<T>) {
    NetOf(f, cs, m) == f.zero
  }

  /** When no message has a net multiplicity the fractions cancel, at all challenges. */
  lemma {:induction false} BalancedSum<T(!new)>(f: Field<T>, alpha: T, beta: T, cs: seq<Claim<T>>)
    requires IsField(f) && forall m :: NetZero(f, cs, m)
    ensures ClaimSum(f, alpha, beta, cs) == f.zero
    decreases |cs|
  {
    hide ClaimSum, Value, NetOf, IsField;
    if |cs| == 0 {
      assert cs == [];
      NoClaims(f, alpha, beta);
    } else {
      var m := cs[|cs| - 1].message;
      var rest := Without(cs, m);
      assert |rest| < |cs|;
      forall other ensures NetZero(f, rest, other) {
        NetWithout(f, cs, m, other);
        assert NetZero(f, cs, other);
      }
      BalancedSum(f, alpha, beta, rest);
      SumWithout(f, alpha, beta, cs, m);
      assert NetZero(f, cs, m);
      MulZero(f, f.inv(Value(f, alpha, beta, m)));
      FieldLaws(f, f.zero, f.zero, f.zero);
    }
  }

  // Running sums

  /** A LogUp column: it starts at zero and every row adds its claims. */
  ghost predicate Accumulates<T>(f: Field<T>, alpha: T, beta: T, column: seq<T>, rows: seq<seq<Claim<T>>>) {
    && |column| == |rows| + 1 && column[0] == f.zero
    && forall i :: 0 <= i < |rows| ==> column[i + 1] == f.add(column[i], ClaimSum(f, alpha, beta, rows[i]))
  }

  lemma {:induction false} SumTelescopes<T(!new)>(f: Field<T>, alpha: T, beta: T, column: seq<T>,
                                                  rows: seq<seq<Claim<T>>>)
    requires IsField(f) && Accumulates(f, alpha, beta, column, rows)
    ensures Final(column) == ClaimSum(f, alpha, beta, Flatten(rows))
    decreases |rows|
  {
    hide ClaimSum, IsField;
    if |rows| == 0 {
      NoClaims(f, alpha, beta);
    } else {
      var n := |rows| - 1;
      SumTelescopes(f, alpha, beta, column[..n + 1], rows[..n]);
      ClaimsConcat(f, alpha, beta, Flatten(rows[..n]), rows[n]);
    }
  }

  /** Everything sent and read on the two columns. */
  function BothColumns<T>(range: seq<seq<Claim<T>>>, wiring: seq<seq<Claim<T>>>): seq<Claim<T>> {
    Flatten(range) + Flatten(wiring)
  }

  /** The verifier's sum is the sum of the fractions of both columns. */
  lemma SumIsBoth<T(!new)>(f: Field<T>, alpha: T, beta: T, bRange: seq<T>, vWiring: seq<T>,
                           range: seq<seq<Claim<T>>>, wiring: seq<seq<Claim<T>>>)
    requires IsField(f) && Accumulates(f, alpha, beta, bRange, range) && Accumulates(f, alpha, beta, vWiring, wiring)
    ensures f.add(Final(bRange), Final(vWiring)) == ClaimSum(f, alpha, beta, BothColumns(range, wiring))
  {
    SumTelescopes(f, alpha, beta, bRange, range);
    SumTelescopes(f, alpha, beta, vWiring, wiring);
    ClaimsConcat(f, alpha, beta, Flatten(range), Flatten(wiring));
  }

  /** Some columns accumulate these claims, and their finals pass the sum check. */
  ghost predicate SumAccepted<T(!new)>(f: Field<T>, alpha: T, beta: T, range: seq<seq<Claim<T>>>,
                                       wiring: seq<seq<Claim<T>>>) {
    exists bRange: seq<T>, vWiring: seq<T> ::
      && Accumulates(f, alpha, beta, bRange, range) && Accumulates(f, alpha, beta, vWiring, wiring)
      && f.add(Final(bRange), Final(vWiring)) == f.zero
  }

  /** Soundness of the sum check: if some message is not read as often as it is sent, few pairs of challenges pass,
      whatever columns are committed. */
  lemma UnbalancedSumRarelyPasses<T(!new)>(f: Field<T>, range: seq<seq<Claim<T>>>, wiring: seq<seq<Claim<T>>>,
                                           m: BusMessage<T>, alphas: set<T>, betas: set<T>, passing: set<(T, T)>)
    requires IsField(f) && C.BusesDistinct(f) && Full(m) && FullWidth(Messages(BothColumns(range, wiring)))
    requires var cs := BothColumns(range, wiring); f.OfNat(SentTimes(cs, m)) != f.OfNat(ReadTimes(cs, m))
    requires forall p :: p in passing ==> p.0 in alphas && p.1 in betas && SumAccepted(f, p.0, p.1, range, wiring)
    ensures var n := |BothColumns(range, wiring)|;
            |passing| <= C.MAX_MESSAGE_WIDTH * n * |alphas| + 2 * n * |betas|
  {
    hide IsField, C.BusesDistinct, BothColumns, FullWidth, Full, SentTimes, ReadTimes, SumAccepted, Closes, NetOf;
    var cs := BothColumns(range, wiring);
    NetIsDifference(f, cs, m);
    SubZero(f, f.OfNat(SentTimes(cs, m)), f.OfNat(ReadTimes(cs, m)));
    forall p | p in passing ensures Closes(f, p.0, p.1, cs) {
      SumAcceptedCloses(f, p.0, p.1, range, wiring);
    }
    UnbalancedRarelyCloses(f, cs, m, alphas, betas, passing);
  }

  lemma SumAcceptedCloses<T(!new)>(f: Field<T>, alpha: T, beta: T, range: seq<seq<Claim<T>>>,
                                   wiring: seq<seq<Claim<T>>>)
    requires IsField(f) && SumAccepted(f, alpha, beta, range, wiring)
    ensures Closes(f, alpha, beta, BothColumns(range, wiring))
  {
    hide IsField, BothColumns, SumAt;
    var bRange: seq<T>, vWiring: seq<T> :| Accumulates(f, alpha, beta, bRange, range)
      && Accumulates(f, alpha, beta, vWiring, wiring) && f.add(Final(bRange), Final(vWiring)) == f.zero;
    SumIsBoth(f, alpha, beta, bRange, vWiring, range, wiring);
  }

  // Both checks

  function FinalsOf<T>(columns: AuxValues<seq<T>>): AuxValues<T>
    requires NoneEmpty(columns)
  {
    AuxValues(Final(columns.p1), Final(columns.p2), Final(columns.p3), Final(columns.sAux), Final(columns.bRange),
              Final(columns.bHashKernel), Final(columns.bChiplets), Final(columns.vWiring))
  }

  predicate NoneEmpty<T>(columns: AuxValues<seq<T>>) {
    && |columns.p1| > 0 && |columns.p2| > 0 && |columns.p3| > 0 && |columns.sAux| > 0 && |columns.bRange| > 0
    && |columns.bHashKernel| > 0 && |columns.bChiplets| > 0 && |columns.vWiring| > 0
  }

  function ProductColumns<T>(columns: AuxValues<seq<T>>): seq<seq<T>> {
    [columns.p1, columns.p2, columns.p3, columns.sAux, columns.bHashKernel, columns.bChiplets]
  }

  lemma ProductFinals<T>(f: Field<T>, alpha: T, beta: T, columns: AuxValues<seq<T>>, ts: seq<Traffic<T>>)
    requires NoneEmpty(columns) && |ts| == 6 && AllFollow(f, alpha, beta, ProductColumns(columns), ts)
    ensures var aux := FinalsOf(columns).LaidOut();
            |aux| == AUX_TRACE_WIDTH && Constrained(f, alpha, beta, aux, ProductColumns(columns), ts)
  {
    hide AllFollow;
    ColumnsLaidOut(FinalsOf(columns));
  }

  lemma SixColumns<T>(f: Field<T>, ts: seq<Traffic<T>>, siblings: multiset<BusMessage<T>>, states: seq<seq<T>>,
                      memoryReads: multiset<BusMessage<T>>, pv: seq<T>, felts: seq<T>)
    requires |pv| == NUM_PUBLIC_VALUES && Balanced(f, ts, siblings, states, memoryReads, pv, felts)
    ensures |ts| == 6
  {
  }

  /** Completeness of the whole reduction: the finals of every trace whose running products and running sums balance
      give the product one and the sum zero. */
  method VerifyHonest<T(==,!new)>(f: Field<T>, alpha: T, beta: T, columns: AuxValues<seq<T>>, ghost ts: seq<Traffic<T>>,
                                  ghost siblings: multiset<BusMessage<T>>, ghost states: seq<seq<T>>,
                                  ghost memoryReads: multiset<BusMessage<T>>, ghost range: seq<seq<Claim<T>>>,
                                  ghost wiring: seq<seq<Claim<T>>>, pv: seq<T>, felts: seq<T>)
    returns (r: Result<Reduced<T>>)
    requires IsField(f) && NoneEmpty(columns) && |pv| == NUM_PUBLIC_VALUES && |felts| % WORD_SIZE == 0
    requires Balanced(f, ts, siblings, states, memoryReads, pv, felts)
    requires AllFollow(f, alpha, beta, ProductColumns(columns), ts)
    requires f.zero !in Values(f, alpha, beta, Removed(f, ts, pv, felts))
    requires Accumulates(f, alpha, beta, columns.bRange, range) && Accumulates(f, alpha, beta, columns.vWiring, wiring)
    requires forall m :: NetZero(f, BothColumns(range, wiring), m)
    ensures r == Ok(Reduced(f.one, f.zero))
  {
    hide Values, Balanced, Constrained, AllFollow, Removed, Accumulates, BothColumns, NetZero;
    ColumnsLaidOut(FinalsOf(columns));
    SixColumns(f, ts, siblings, states, memoryReads, pv, felts);
    ProductFinals(f, alpha, beta, columns, ts);
    var aux := FinalsOf(columns).LaidOut();
    r := VerifyBalanced(f, alpha, beta, aux, ProductColumns(columns), ts, siblings, states, memoryReads, pv, felts);
    SumIsBoth(f, alpha, beta, columns.bRange, columns.vWiring, range, wiring);
    BalancedSum(f, alpha, beta, BothColumns(range, wiring));
  }
}
