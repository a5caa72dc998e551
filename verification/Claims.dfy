/** Messages with multiplicities on the LogUp buses: each is sent a number of times or read once, and contributes that
    many fractions to a running sum (miden-vm/processor/src/trace/chiplets/aux_trace/wiring_bus.rs,
    miden-vm/air/src/lib.rs). */
module Claims {
  import opened Common
  import opened Fields
  import opened LogUp
  import opened BusBalance
  import opened BusSoundness
  import C = Challenges
  import GrandProducts

  /** A message sent a number of times, or read once. */
  datatype Claim<T> = Sends(times: nat, message: BusMessage<T>) | Reads(message: BusMessage<T>)

  function Count<T>(f: Field<T>, c: Claim<T>): T {
    if c.Sends? then f.OfNat(c.times) else f.neg(f.one)
  }

  function Messages<T>(cs: seq<Claim<T>>): (ms: seq<BusMessage<T>>)
    ensures |ms| == |cs| && forall i :: 0 <= i < |cs| ==> ms[i] == cs[i].message
  {
    seq(|cs|, i requires 0 <= i < |cs| => cs[i].message)
  }

  function Fractions<T>(f: Field<T>, beta: T, cs: seq<Claim<T>>): (ts: seq<Fraction<T>>)
    ensures |ts| == |cs|
    ensures forall i :: 0 <= i < |cs| ==> ts[i] == Fraction(Count(f, cs[i]), Point(f, beta, cs[i].message))
  {
    seq(|cs|, i requires 0 <= i < |cs| => Fraction(Count(f, cs[i]), Point(f, beta, cs[i].message)))
  }

  /** How often a message is sent, less how often it is read. */
  ghost function NetOf<T>(f: Field<T>, cs: seq<Claim<T>>, m: BusMessage<T>): T {
    if |cs| == 0 then f.zero
    else
      var n := |cs| - 1;
      if cs[n].message == m then f.add(NetOf(f, cs[..n], m), Count(f, cs[n])) else NetOf(f, cs[..n], m)
  }

  ghost function SentTimes<T>(cs: seq<Claim<T>>, m: BusMessage<T>): nat {
    if |cs| == 0 then 0
    else
      var c := cs[|cs| - 1];
      SentTimes(cs[..|cs| - 1], m) + if c.Sends? && c.message == m then c.times else 0
  }

  ghost function ReadTimes<T>(cs: seq<Claim<T>>, m: BusMessage<T>): nat {
    if |cs| == 0 then 0
    else
      var c := cs[|cs| - 1];
      ReadTimes(cs[..|cs| - 1], m) + if c.Reads? && c.message == m then 1 else 0
  }

  /** `(s - r) + t = (s + t) - r` and `(s - r) - 1 = s - (r + 1)`. */
  lemma NetStep<T(!new)>(f: Field<T>, s: T, r: T, t: T)
    requires IsField(f)
    ensures f.add(f.Sub(s, r), t) == f.Sub(f.add(s, t), r)
    ensures f.add(f.Sub(s, r), f.neg(t)) == f.Sub(s, f.add(r, t))
  {
    SubAdd(f, s, t, r, f.zero);
    SubZero(f, t, t);
    assert Laws(f, r, f.zero, f.zero);
    SubAdd(f, s, f.zero, r, t);
    assert Laws(f, s, f.zero, f.zero);
  }

  /** The net multiplicity is the difference of the two counts. */
  lemma {:induction false} NetIsDifference<T(!new)>(f: Field<T>, cs: seq<Claim<T>>, m: BusMessage<T>)
    requires IsField(f)
    ensures NetOf(f, cs, m) == f.Sub(f.OfNat(SentTimes(cs, m)), f.OfNat(ReadTimes(cs, m)))
  {
    if |cs| == 0 {
      SubZero(f, f.zero, f.zero);
    } else {
      var n, c := |cs| - 1, cs[|cs| - 1];
      NetIsDifference(f, cs[..n], m);
      var s, r := SentTimes(cs[..n], m), ReadTimes(cs[..n], m);
      if c.message == m {
        NetStep(f, f.OfNat(s), f.OfNat(r), Magnitude(f, c));
        if c.Sends? { OfNatSum(f, s, c.times); }
      }
    }
  }

  function Magnitude<T>(f: Field<T>, c: Claim<T>): T {
    if c.Sends? then f.OfNat(c.times) else f.one
  }

  /** Unless another message collides with it, a message and its value have the same net multiplicity. */
  lemma {:induction false} NetAtPoint<T(!new)>(f: Field<T>, beta: T, cs: seq<Claim<T>>, m: BusMessage<T>)
    requires !CollidesWith(f, beta, Messages(cs), m)
    ensures Net(f, Fractions(f, beta, cs), Point(f, beta, m)) == NetOf(f, cs, m)
  {
    hide Point, Count;
    if |cs| > 0 {
      var n := |cs| - 1;
      assert Messages(cs)[n] == cs[n].message;
      assert forall j :: 0 <= j < n ==> Messages(cs[..n])[j] == Messages(cs)[j];
      NetAtPoint(f, beta, cs[..n], m);
      assert Fractions(f, beta, cs)[..n] == Fractions(f, beta, cs[..n]);
    }
  }

  /** The challenges at which the sum closes, or is not defined. */
  ghost predicate Closes<T>(f: Field<T>, alpha: T, beta: T, cs: seq<Claim<T>>) {
    NoPole(f, alpha, Fractions(f, beta, cs)) ==> SumAt(f, alpha, Fractions(f, beta, cs)) == f.zero
  }

  ghost function Poles<T>(f: Field<T>, ts: seq<Fraction<T>>): set<T> {
    if |ts| == 0 then {} else Poles(f, ts[..|ts| - 1]) + {f.neg(ts[|ts| - 1].point)}
  }

  lemma {:induction false} FewPoles<T(!new)>(f: Field<T>, ts: seq<Fraction<T>>)
    requires IsField(f)
    ensures |Poles(f, ts)| <= |ts|
    ensures forall x :: !NoPole(f, x, ts) ==> x in Poles(f, ts)
  {
    if |ts| > 0 {
      var n := |ts| - 1;
      FewPoles(f, ts[..n]);
      forall x | !NoPole(f, x, ts) ensures x in Poles(f, ts) {
        NegUnique(f, ts[n].point, x);
        assert Laws(f, ts[n].point, x, x);
        if f.add(x, ts[n].point) != f.zero { assert !NoPole(f, x, ts[..n]); }
      }
    }
  }

  lemma FewClosing<T(!new)>(f: Field<T>, beta: T, cs: seq<Claim<T>>, m: BusMessage<T>, alphas: set<T>)
    requires IsField(f) && !CollidesWith(f, beta, Messages(cs), m) && NetOf(f, cs, m) != f.zero
    requires forall alpha :: alpha in alphas ==> Closes(f, alpha, beta, cs)
    ensures |alphas| <= 2 * |cs|
  {
    hide Net, NetOf, Poles, CollidesWith, SumAt, IsField, Point;
    var ts := Fractions(f, beta, cs);
    FewPoles(f, ts);
    NetAtPoint(f, beta, cs, m);
    var poles, rest := alphas * Poles(f, ts), alphas - Poles(f, ts);
    forall x | x in rest ensures NoPole(f, x, ts) && SumAt(f, x, ts) == f.zero {
      assert Closes(f, x, beta, cs);
    }
    LogUpBound(f, ts, Point(f, beta, m), rest);
    GrandProducts.SubsetSize(poles, Poles(f, ts));
    assert alphas == poles + rest;
  }

  /** If some message is not read as often as it is sent, at most `16 N |alphas| + 2 N |betas|` pairs of challenges
      close the sum, with `N` the number of messages. */
  lemma UnbalancedRarelyCloses<T(!new)>(f: Field<T>, cs: seq<Claim<T>>, m: BusMessage<T>, alphas: set<T>, betas: set<T>,
                                        passing: set<(T, T)>)
    requires IsField(f) && C.BusesDistinct(f) && FullWidth(Messages(cs)) && Full(m) && NetOf(f, cs, m) != f.zero
    requires forall p :: p in passing ==> p.0 in alphas && p.1 in betas && Closes(f, p.0, p.1, cs)
    ensures |passing| <= C.MAX_MESSAGE_WIDTH * |cs| * |alphas| + 2 * |cs| * |betas|
  {
    hide IsField, C.BusesDistinct, FullWidth, Full, NetOf, Closes, AlphasAt, CollidesWith;
    var ms := Messages(cs);
    var bad := set beta | beta in betas && CollidesWith(f, beta, ms, m);
    FewCollisions(f, m, ms, bad);
    forall beta | beta in betas ensures |AlphasAt(passing, beta)| <= if beta in bad then |alphas| else 2 * |cs| {
      AllAlphas(passing, alphas, beta);
      if beta !in bad { ClosingAt(f, cs, m, passing, beta); }
    }
    CountByBeta(passing, betas, bad, |alphas|, 2 * |cs|);
    MulMono(|bad|, C.MAX_MESSAGE_WIDTH * |cs|, |alphas|);
  }

  lemma ClosingAt<T(!new)>(f: Field<T>, cs: seq<Claim<T>>, m: BusMessage<T>, passing: set<(T, T)>, beta: T)
    requires IsField(f) && !CollidesWith(f, beta, Messages(cs), m) && NetOf(f, cs, m) != f.zero
    requires forall p :: p in passing ==> Closes(f, p.0, p.1, cs)
    ensures |AlphasAt(passing, beta)| <= 2 * |cs|
  {
    hide IsField, NetOf, Closes, CollidesWith;
    forall alpha | alpha in AlphasAt(passing, beta) ensures Closes(f, alpha, beta, cs) {
      assert (alpha, beta) in passing;
    }
    FewClosing(f, beta, cs, m, AlphasAt(passing, beta));
  }

  // Sums

  lemma NoClaims<T>(f: Field<T>, alpha: T, beta: T)
    ensures ClaimSum(f, alpha, beta, []) == f.zero
  {
  }

  lemma {:induction false} SumAtConcat<T(!new)>(f: Field<T>, x: T, s: seq<Fraction<T>>, t: seq<Fraction<T>>)
    requires IsField(f)
    ensures SumAt(f, x, s + t) == f.add(SumAt(f, x, s), SumAt(f, x, t))
  {
    if |t| == 0 {
      assert s + t == s;
      assert Laws(f, SumAt(f, x, s), f.zero, f.zero);
    } else {
      var n := |t| - 1;
      assert (s + t)[..|s + t| - 1] == s + t[..n];
      SumAtConcat(f, x, s, t[..n]);
      assert Laws(f, SumAt(f, x, s), SumAt(f, x, t[..n]), f.mul(t[n].top, f.inv(f.add(x, t[n].point))));
    }
  }

  lemma ClaimsConcat<T(!new)>(f: Field<T>, alpha: T, beta: T, s: seq<Claim<T>>, t: seq<Claim<T>>)
    requires IsField(f)
    ensures ClaimSum(f, alpha, beta, s + t) == f.add(ClaimSum(f, alpha, beta, s), ClaimSum(f, alpha, beta, t))
  {
    hide Point, Count;
    assert Fractions(f, beta, s + t) == Fractions(f, beta, s) + Fractions(f, beta, t);
    SumAtConcat(f, alpha, Fractions(f, beta, s), Fractions(f, beta, t));
  }

  function ClaimSum<T>(f: Field<T>, alpha: T, beta: T, cs: seq<Claim<T>>): T {
    SumAt(f, alpha, Fractions(f, beta, cs))
  }

  lemma OneClaim<T(!new)>(f: Field<T>, alpha: T, beta: T, c: Claim<T>)
    requires IsField(f)
    ensures ClaimSum(f, alpha, beta, [c]) == f.mul(Count(f, c), f.inv(Value(f, alpha, beta, c.message)))
  {
    hide Point, Count, Value;
    ValueIsShifted(f, alpha, beta, c.message);
    var ts := Fractions(f, beta, [c]);
    assert SumAt(f, alpha, ts[..0]) == f.zero;
    assert ts[0] == Fraction(Count(f, c), Point(f, beta, c.message));
    var v := f.mul(ts[0].top, f.inv(f.add(alpha, ts[0].point)));
    assert Laws(f, f.zero, v, v) && Laws(f, v, f.zero, f.zero);
  }

  lemma ReadOnce<T(!new)>(f: Field<T>, v: T)
    requires IsField(f)
    ensures f.mul(f.neg(f.one), v) == f.neg(v)
  {
    assert Laws(f, v, f.one, f.neg(f.one)) && Laws(f, f.one, f.one, f.one) && Laws(f, v, f.neg(f.one), v);
    assert Laws(f, f.neg(f.one), v, v);
    MulZero(f, v);
    NegUnique(f, v, f.mul(f.neg(f.one), v));
  }

  lemma SendsValue<T(!new)>(f: Field<T>, alpha: T, beta: T, c: Claim<T>)
    requires IsField(f) && c.Sends?
    ensures ClaimSum(f, alpha, beta, [c]) == f.mul(f.inv(Value(f, alpha, beta, c.message)), f.OfNat(c.times))
  {
    hide Value, ClaimSum;
    OneClaim(f, alpha, beta, c);
    assert Laws(f, f.OfNat(c.times), f.inv(Value(f, alpha, beta, c.message)), f.one);
  }

  lemma ReadsValue<T(!new)>(f: Field<T>, alpha: T, beta: T, c: Claim<T>)
    requires IsField(f) && c.Reads?
    ensures ClaimSum(f, alpha, beta, [c]) == f.neg(f.inv(Value(f, alpha, beta, c.message)))
  {
    hide Value, ClaimSum;
    OneClaim(f, alpha, beta, c);
    ReadOnce(f, f.inv(Value(f, alpha, beta, c.message)));
  }

  ghost predicate FullClaims<T>(cs: seq<Claim<T>>) {
    forall i :: 0 <= i < |cs| ==> Full(cs[i].message)
  }
}
