/** Where the two LogUp columns end on their own.  Memory asks for range checks on the wiring column and the range
    checker answers them on its own column, so the finals cancel in the sum and not one by one
    (miden-vm/air/src/constraints/chiplets/bus/wiring.rs, miden-vm/air/src/lib.rs). */
module LogUpFinals {
  import opened Fields
  import opened LogUp
  import opened ReducedAux
  import opened BusBalance
  import opened BusSoundness
  import opened Claims
  import opened SumCheck
  import C = Challenges

  /** The claims on one bus. */
  ghost function On<T>(cs: seq<Claim<T>>, bus: nat): seq<Claim<T>> {
    if |cs| == 0 then []
    else On(cs[..|cs| - 1], bus) + if cs[|cs| - 1].message.bus == bus then [cs[|cs| - 1]] else []
  }

  /** The claims on the others. */
  ghost function Off<T>(cs: seq<Claim<T>>, bus: nat): seq<Claim<T>> {
    if |cs| == 0 then []
    else Off(cs[..|cs| - 1], bus) + if cs[|cs| - 1].message.bus == bus then [] else [cs[|cs| - 1]]
  }

  lemma {:induction false} NetOff<T>(f: Field<T>, cs: seq<Claim<T>>, bus: nat, m: BusMessage<T>)
    ensures NetOf(f, Off(cs, bus), m) == if m.bus == bus then f.zero else NetOf(f, cs, m)
  {
    hide NetOf;
    if |cs| == 0 {
      assert cs == [];
      NetNone(f, m);
    } else {
      var n, rest := |cs| - 1, Off(cs[..|cs| - 1], bus);
      NetOff(f, cs[..n], bus, m);
      assert cs == cs[..n] + [cs[n]];
      NetNext(f, cs[..n], cs[n], m);
      if cs[n].message.bus == bus {
        assert Off(cs, bus) == rest;
      } else {
        NetNext(f, rest, cs[n], m);
      }
    }
  }

  lemma {:induction false} SumByBus<T(!new)>(f: Field<T>, alpha: T, beta: T, cs: seq<Claim<T>>, bus: nat)
    requires IsField(f)
    ensures ClaimSum(f, alpha, beta, cs)
            == f.add(ClaimSum(f, alpha, beta, Off(cs, bus)), ClaimSum(f, alpha, beta, On(cs, bus)))
  {
    hide ClaimSum, IsField;
    if |cs| == 0 {
      NoClaims(f, alpha, beta);
      assert cs == [];
      FieldLaws(f, f.zero, f.zero, f.zero);
    } else {
      var n, c := |cs| - 1, cs[|cs| - 1];
      var off, on := Off(cs[..n], bus), On(cs[..n], bus);
      SumByBus(f, alpha, beta, cs[..n], bus);
      assert cs == cs[..n] + [c];
      ClaimsConcat(f, alpha, beta, cs[..n], [c]);
      var x, y, z := ClaimSum(f, alpha, beta, off), ClaimSum(f, alpha, beta, on), ClaimSum(f, alpha, beta, [c]);
      FieldLaws(f, x, y, z);
      if c.message.bus == bus {
        assert Off(cs, bus) == off;
        ClaimsConcat(f, alpha, beta, on, [c]);
      } else {
        assert On(cs, bus) == on;
        ClaimsConcat(f, alpha, beta, off, [c]);
        Swaps(f, x, y, z);
      }
    }
  }

  /** What the wiring column sends and reads apart from range checks is balanced on that column. */
  ghost predicate WiresBalanced<T(!new)>(f: Field<T>, wiring: seq<seq<Claim<T>>>) {
    forall m: BusMessage<T> :: m.bus != C.RANGE_CHECK_BUS ==> NetZero(f, Flatten(wiring), m)
  }

  lemma WiresCancel<T(!new)>(f: Field<T>, alpha: T, beta: T, wiring: seq<seq<Claim<T>>>)
    requires IsField(f) && WiresBalanced(f, wiring)
    ensures ClaimSum(f, alpha, beta, Off(Flatten(wiring), C.RANGE_CHECK_BUS)) == f.zero
  {
    hide ClaimSum, IsField;
    var cs, bus := Flatten(wiring), C.RANGE_CHECK_BUS;
    forall m ensures NetZero(f, Off(cs, bus), m) {
      NetOff(f, cs, bus, m);
      if m.bus != bus { assert NetZero(f, cs, m); }
    }
    BalancedSum(f, alpha, beta, Off(cs, bus));
  }

  /** The range checks asked for on the wiring column. */
  ghost function Lookups<T>(wiring: seq<seq<Claim<T>>>): seq<Claim<T>> {
    On(Flatten(wiring), C.RANGE_CHECK_BUS)
  }

  /** The wiring column ends at the fractions of the range checks it asks for.  When the sum check passes, each of the
      two columns ends at zero exactly when these cancel among themselves. */
  lemma FinalsExactly<T(!new)>(f: Field<T>, alpha: T, beta: T, bRange: seq<T>, vWiring: seq<T>,
                               range: seq<seq<Claim<T>>>, wiring: seq<seq<Claim<T>>>)
    requires IsField(f) && Accumulates(f, alpha, beta, bRange, range) && Accumulates(f, alpha, beta, vWiring, wiring)
    requires WiresBalanced(f, wiring) && f.add(Final(bRange), Final(vWiring)) == f.zero
    ensures Final(vWiring) == ClaimSum(f, alpha, beta, Lookups(wiring))
    ensures Final(vWiring) == f.zero <==> Final(bRange) == f.zero
  {
    hide ClaimSum, IsField, WiresBalanced;
    SumTelescopes(f, alpha, beta, vWiring, wiring);
    SumByBus(f, alpha, beta, Flatten(wiring), C.RANGE_CHECK_BUS);
    WiresCancel(f, alpha, beta, wiring);
    var lookups := ClaimSum(f, alpha, beta, Lookups(wiring));
    FieldLaws(f, lookups, f.zero, f.zero);
    FieldLaws(f, f.zero, lookups, lookups);
    FieldLaws(f, Final(bRange), f.zero, f.zero);
    FieldLaws(f, f.zero, Final(vWiring), f.zero);
    FieldLaws(f, Final(vWiring), f.zero, f.zero);
  }

  /** They cancel for few challenges: if some value is asked for a number of times that is not zero in the field, at
      most `16 N |alphas| + 2 N |betas|` pairs let the wiring column end at zero, with `N` the number of range checks.
      */
  lemma LookupsRarelyCancel<T(!new)>(f: Field<T>, wiring: seq<seq<Claim<T>>>, m: BusMessage<T>, alphas: set<T>,
                                     betas: set<T>, passing: set<(T, T)>)
    requires IsField(f) && C.BusesDistinct(f) && Full(m) && FullWidth(Messages(Lookups(wiring)))
    requires WiresBalanced(f, wiring) && NetOf(f, Lookups(wiring), m) != f.zero
    requires forall p :: p in passing ==> p.0 in alphas && p.1 in betas && EndsAtZero(f, p.0, p.1, wiring)
    ensures var n := |Lookups(wiring)|; |passing| <= C.MAX_MESSAGE_WIDTH * n * |alphas| + 2 * n * |betas|
  {
    hide IsField, C.BusesDistinct, Full, FullWidth, NetOf, Closes, Lookups, EndsAtZero, WiresBalanced;
    forall p | p in passing ensures Closes(f, p.0, p.1, Lookups(wiring)) { EndingCloses(f, p.0, p.1, wiring); }
    UnbalancedRarelyCloses(f, Lookups(wiring), m, alphas, betas, passing);
  }

  /** Some column accumulates the claims and ends at zero. */
  ghost predicate EndsAtZero<T(!new)>(f: Field<T>, alpha: T, beta: T, wiring: seq<seq<Claim<T>>>) {
    exists column: seq<T> :: Accumulates(f, alpha, beta, column, wiring) && Final(column) == f.zero
  }

  lemma EndingCloses<T(!new)>(f: Field<T>, alpha: T, beta: T, wiring: seq<seq<Claim<T>>>)
    requires IsField(f) && WiresBalanced(f, wiring) && EndsAtZero(f, alpha, beta, wiring)
    ensures Closes(f, alpha, beta, Lookups(wiring))
  {
    hide IsField, WiresBalanced;
    var column: seq<T> :| Accumulates(f, alpha, beta, column, wiring) && Final(column) == f.zero;
    SumTelescopes(f, alpha, beta, column, wiring);
    SumByBus(f, alpha, beta, Flatten(wiring), C.RANGE_CHECK_BUS);
    WiresCancel(f, alpha, beta, wiring);
    var lookups := ClaimSum(f, alpha, beta, Lookups(wiring));
    FieldLaws(f, lookups, f.zero, f.zero);
    FieldLaws(f, f.zero, lookups, lookups);
  }

  /** One range check asked for on the wiring column and answered on the other: the sum is zero and neither final is. */
  lemma OneLookup<T(!new)>(f: Field<T>, alpha: T, beta: T, value: T, bRange: seq<T>, vWiring: seq<T>)
    requires var m := BusMessage(C.RANGE_CHECK_BUS, [value]);
             && IsField(f) && Value(f, alpha, beta, m) != f.zero
             && Accumulates(f, alpha, beta, bRange, [[Sends(1, m)]])
             && Accumulates(f, alpha, beta, vWiring, [[Reads(m)]])
    ensures f.add(Final(bRange), Final(vWiring)) == f.zero && Final(bRange) != f.zero && Final(vWiring) != f.zero
  {
    hide ClaimSum, Value;
    var m := BusMessage(C.RANGE_CHECK_BUS, [value]);
    var v := f.inv(Value(f, alpha, beta, m));
    SendsValue(f, alpha, beta, Sends(1, m));
    ReadsValue(f, alpha, beta, Reads(m));
    assert f.OfNat(1) == f.add(f.OfNat(0), f.one);
    assert Laws(f, f.zero, f.one, f.one) && Laws(f, f.one, f.zero, f.zero) && Laws(f, v, f.one, f.zero);
    assert Laws(f, f.zero, v, v) && Laws(f, v, f.zero, f.zero);
    assert Laws(f, f.zero, f.neg(v), f.zero) && Laws(f, f.neg(v), f.zero, f.zero);
    MulZero(f, Value(f, alpha, beta, m));
    assert Laws(f, Value(f, alpha, beta, m), v, v);
    SubZero(f, f.zero, v);
  }
}
