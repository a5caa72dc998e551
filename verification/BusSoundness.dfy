/** Why the reduced check is worth making: a trace whose bus messages do not balance passes it for few challenges,
    whatever auxiliary columns are committed (miden-vm/air/src/lib.rs, miden-vm/air/src/constraints/mod.rs). */
module BusSoundness {
  import opened Common
  import opened Fields
  import opened Polynomials
  import opened GrandProducts
  import opened ReducedAux
  import opened BusBalance
  import C = Challenges

  // Messages at a challenge

  ghost predicate WellFormed<T>(ms: seq<BusMessage<T>>) {
    forall i :: 0 <= i < |ms| ==> ms[i].bus < C.NUM_BUS_TYPES && |ms[i].elems| <= C.MAX_MESSAGE_WIDTH
  }

  /** The part of a message's value that does not depend on alpha. */
  function Point<T>(f: Field<T>, beta: T, m: BusMessage<T>): T {
    Value(f, f.zero, beta, m)
  }

  function Points<T>(f: Field<T>, beta: T, ms: seq<BusMessage<T>>): (vs: seq<T>)
    ensures |vs| == |ms| && forall i :: 0 <= i < |ms| ==> vs[i] == Point(f, beta, ms[i])
  {
    seq(|ms|, i requires 0 <= i < |ms| => Point(f, beta, ms[i]))
  }

  lemma ValueIsShifted<T(!new)>(f: Field<T>, alpha: T, beta: T, m: BusMessage<T>)
    requires IsField(f)
    ensures Value(f, alpha, beta, m) == f.add(alpha, Point(f, beta, m))
  {
    var top, p := f.mul(f.Pow(beta, C.MAX_MESSAGE_WIDTH), f.OfNat(m.bus + 1)), Poly(f, m.elems, beta);
    assert Laws(f, alpha, top, p);
    assert Laws(f, f.zero, top, p) && Laws(f, top, f.zero, p);
  }

  lemma ValuesAreShifted<T(!new)>(f: Field<T>, alpha: T, beta: T, ms: seq<BusMessage<T>>)
    requires IsField(f)
    ensures Values(f, alpha, beta, ms) == Shifted(f, alpha, Points(f, beta, ms))
  {
    hide Value, Point;
    forall i | 0 <= i < |ms| ensures Value(f, alpha, beta, ms[i]) == f.add(alpha, Point(f, beta, ms[i])) {
      ValueIsShifted(f, alpha, beta, ms[i]);
    }
  }

  /** Some committed columns satisfy the constraints at these challenges and pass the verifier's product check. */
  ghost predicate Accepted<T(!new)>(f: Field<T>, alpha: T, beta: T, ts: seq<Traffic<T>>, pv: seq<T>, felts: seq<T>)
    requires |pv| == NUM_PUBLIC_VALUES
  {
    exists aux: seq<T>, columns: seq<seq<T>> ::
      && |aux| == AUX_TRACE_WIDTH
      && Constrained(f, alpha, beta, aux, columns, ts)
      && Numerator(f, aux, alpha, beta, pv) == Denominator(f, alpha, beta, pv, felts)
  }

  lemma AcceptedProducts<T(!new)>(f: Field<T>, alpha: T, beta: T, ts: seq<Traffic<T>>, pv: seq<T>, felts: seq<T>)
    requires IsField(f) && |pv| == NUM_PUBLIC_VALUES && Accepted(f, alpha, beta, ts, pv, felts)
    ensures f.Prod(Shifted(f, alpha, Points(f, beta, Added(f, ts, pv))))
            == f.Prod(Shifted(f, alpha, Points(f, beta, Removed(f, ts, pv, felts))))
  {
    hide Constrained, Numerator, Denominator, Values, Points, Added, Removed, AllRemoves;
    var aux: seq<T>, columns: seq<seq<T>> :| |aux| == AUX_TRACE_WIDTH && Constrained(f, alpha, beta, aux, columns, ts)
      && Numerator(f, aux, alpha, beta, pv) == Denominator(f, alpha, beta, pv, felts);
    CheckIsGrandProduct(f, alpha, beta, aux, columns, ts, pv, felts);
    ValuesAreShifted(f, alpha, beta, Added(f, ts, pv));
    ValuesAreShifted(f, alpha, beta, Removed(f, ts, pv, felts));
  }

  /** When the message values are unbalanced at `beta`, few `alpha` let the trace pass. */
  lemma FewAlphas<T(!new)>(f: Field<T>, beta: T, ts: seq<Traffic<T>>, pv: seq<T>, felts: seq<T>, alphas: set<T>)
    requires IsField(f) && |pv| == NUM_PUBLIC_VALUES
    requires multiset(Points(f, beta, Added(f, ts, pv))) != multiset(Points(f, beta, Removed(f, ts, pv, felts)))
    requires forall alpha :: alpha in alphas ==> Accepted(f, alpha, beta, ts, pv, felts)
    ensures |alphas| <= Max(|Added(f, ts, pv)|, |Removed(f, ts, pv, felts)|)
  {
    hide Accepted, Added, Removed;
    forall alpha | alpha in alphas
      ensures f.Prod(Shifted(f, alpha, Points(f, beta, Added(f, ts, pv))))
              == f.Prod(Shifted(f, alpha, Points(f, beta, Removed(f, ts, pv, felts))))
    {
      AcceptedProducts(f, alpha, beta, ts, pv, felts);
    }
    GrandProductBound(f, Points(f, beta, Added(f, ts, pv)), Points(f, beta, Removed(f, ts, pv, felts)), alphas);
  }

  // Messages across challenges

  /** The message with its elements padded to full width: two messages are the same when these agree. */
  ghost function Canonical<T>(f: Field<T>, ms: seq<BusMessage<T>>): (cs: seq<BusMessage<T>>)
    requires WellFormed(ms)
    ensures |cs| == |ms|
    ensures forall i :: 0 <= i < |ms| ==> cs[i] == BusMessage(ms[i].bus, C.Padded(f, ms[i].elems))
  {
    seq(|ms|, i requires 0 <= i < |ms| => BusMessage(ms[i].bus, C.Padded(f, ms[i].elems)))
  }

  ghost predicate FullWidth<T>(ms: seq<BusMessage<T>>) {
    forall i :: 0 <= i < |ms| ==> Full(ms[i])
  }

  ghost predicate Full<T>(m: BusMessage<T>) {
    m.bus < C.NUM_BUS_TYPES && |m.elems| == C.MAX_MESSAGE_WIDTH
  }

  lemma CanonicalPoints<T(!new)>(f: Field<T>, beta: T, ms: seq<BusMessage<T>>)
    requires IsField(f) && WellFormed(ms)
    ensures FullWidth(Canonical(f, ms)) && Points(f, beta, Canonical(f, ms)) == Points(f, beta, ms)
  {
    var cs := Canonical(f, ms);
    forall i | 0 <= i < |ms| ensures Point(f, beta, cs[i]) == Point(f, beta, ms[i]) {
      C.PaddingInvisible(f, f.zero, beta, ms[i].bus, ms[i].elems);
    }
  }

  /** The point of a message is taken at least as often as the message occurs, and exactly as often unless another
      message collides with it. */
  lemma {:induction false} PointCount<T(!new)>(f: Field<T>, beta: T, s: seq<BusMessage<T>>, m: BusMessage<T>)
    ensures multiset(Points(f, beta, s))[Point(f, beta, m)] >= multiset(s)[m]
    ensures (forall j :: 0 <= j < |s| && Point(f, beta, s[j]) == Point(f, beta, m) ==> s[j] == m)
            ==> multiset(Points(f, beta, s))[Point(f, beta, m)] == multiset(s)[m]
  {
    hide Point;
    if |s| == 0 {
      assert Points(f, beta, s) == [];
    } else {
      var n := |s| - 1;
      PointCount(f, beta, s[..n], m);
      assert s == s[..n] + [s[n]];
      assert Points(f, beta, s) == Points(f, beta, s[..n]) + [Point(f, beta, s[n])];
    }
  }

  ghost predicate CollidesWith<T>(f: Field<T>, beta: T, s: seq<BusMessage<T>>, m: BusMessage<T>) {
    exists j :: 0 <= j < |s| && s[j] != m && Point(f, beta, s[j]) == Point(f, beta, m)
  }

  /** Balanced values of unbalanced messages need a collision with the message in excess. */
  lemma ExcessCollides<T(!new)>(f: Field<T>, beta: T, a: seq<BusMessage<T>>, b: seq<BusMessage<T>>, m: BusMessage<T>)
    requires multiset(a)[m] > multiset(b)[m] && multiset(Points(f, beta, a)) == multiset(Points(f, beta, b))
    ensures CollidesWith(f, beta, b, m)
  {
    hide Point;
    PointCount(f, beta, a, m);
    PointCount(f, beta, b, m);
  }

  ghost predicate AllCollide<T>(f: Field<T>, b: seq<BusMessage<T>>, m: BusMessage<T>, betas: set<T>) {
    forall beta :: beta in betas ==> CollidesWith(f, beta, b, m)
  }

  /** The challenges at which one given message collides with `m`. */
  ghost function CollidingAt<T>(f: Field<T>, other: BusMessage<T>, m: BusMessage<T>, betas: set<T>): set<T> {
    set beta | beta in betas && other != m && Point(f, beta, other) == Point(f, beta, m)
  }

  lemma SplitSize<X>(s: set<X>, part: set<X>, few: nat, rest: nat)
    requires part <= s && |part| <= few && |s - part| <= rest
    ensures |s| <= few + rest
  {
    assert s == (s - part) + part;
  }

  /** A fixed message collides with one of `n` others for at most `MAX_MESSAGE_WIDTH n` values of beta. */
  lemma {:induction false} FewCollisions<T(!new)>(f: Field<T>, m: BusMessage<T>, b: seq<BusMessage<T>>, betas: set<T>)
    requires IsField(f) && C.BusesDistinct(f) && FullWidth(b) && Full(m)
    requires AllCollide(f, b, m, betas)
    ensures |betas| <= C.MAX_MESSAGE_WIDTH * |b|
  {
    hide Point, IsField, C.BusesDistinct, AllCollide, CollidingAt, Full;
    if |b| == 0 {
      NoneCollide(f, b, m, betas);
    } else {
      var n := |b| - 1;
      var here := CollidingAt(f, b[n], m, betas);
      FewWithOne(f, m, b[n], betas);
      OthersCollide(f, m, b, betas);
      FewCollisions(f, m, b[..n], betas - here);
      SplitSize(betas, here, C.MAX_MESSAGE_WIDTH, C.MAX_MESSAGE_WIDTH * n);
    }
  }

  lemma NoneCollide<T(!new)>(f: Field<T>, b: seq<BusMessage<T>>, m: BusMessage<T>, betas: set<T>)
    requires |b| == 0 && AllCollide(f, b, m, betas)
    ensures betas == {}
  {
    assert forall beta :: !CollidesWith(f, beta, b, m);
  }

  lemma OthersCollide<T>(f: Field<T>, m: BusMessage<T>, b: seq<BusMessage<T>>, betas: set<T>)
    requires |b| > 0 && AllCollide(f, b, m, betas)
    ensures AllCollide(f, b[..|b| - 1], m, betas - CollidingAt(f, b[|b| - 1], m, betas))
  {
    hide Point, CollidesWith;
    var rest := betas - CollidingAt(f, b[|b| - 1], m, betas);
    forall beta | beta in rest ensures CollidesWith(f, beta, b[..|b| - 1], m) {
      CollidesEarlier(f, beta, b, m);
    }
  }

  lemma CollidesEarlier<T>(f: Field<T>, beta: T, b: seq<BusMessage<T>>, m: BusMessage<T>)
    requires |b| > 0 && CollidesWith(f, beta, b, m)
    requires b[|b| - 1] == m || Point(f, beta, b[|b| - 1]) != Point(f, beta, m)
    ensures CollidesWith(f, beta, b[..|b| - 1], m)
  {
    hide Point;
    var j :| 0 <= j < |b| && b[j] != m && Point(f, beta, b[j]) == Point(f, beta, m);
    assert b[..|b| - 1][j] == b[j];
  }

  lemma FewWithOne<T(!new)>(f: Field<T>, m: BusMessage<T>, other: BusMessage<T>, betas: set<T>)
    requires IsField(f) && C.BusesDistinct(f) && Full(m) && Full(other)
    ensures CollidingAt(f, other, m, betas) <= betas
    ensures |CollidingAt(f, other, m, betas)| <= C.MAX_MESSAGE_WIDTH
  {
    hide C.BusesDistinct, IsField;
    var here := CollidingAt(f, other, m, betas);
    if other != m {
      assert C.Padded(f, m.elems) == m.elems && C.Padded(f, other.elems) == other.elems;
      C.CollisionsAreRare(f, f.zero, other.bus, other.elems, m.bus, m.elems, here);
    } else {
      assert here == {};
    }
  }

  /** Messages that do not balance have values that do not balance, except at few `beta`. */
  lemma FewBetas<T(!new)>(f: Field<T>, a: seq<BusMessage<T>>, b: seq<BusMessage<T>>, betas: set<T>)
    requires IsField(f) && C.BusesDistinct(f) && WellFormed(a) && WellFormed(b)
    requires multiset(Canonical(f, a)) != multiset(Canonical(f, b))
    requires forall beta :: beta in betas ==> multiset(Points(f, beta, a)) == multiset(Points(f, beta, b))
    ensures |betas| <= C.MAX_MESSAGE_WIDTH * Max(|a|, |b|)
  {
    hide Point;
    var a', b' := Canonical(f, a), Canonical(f, b);
    CanonicalPoints(f, f.zero, a);
    CanonicalPoints(f, f.zero, b);
    var m :| multiset(a')[m] != multiset(b')[m];
    var (more, less) := if multiset(a')[m] > multiset(b')[m] then (a', b') else (b', a');
    assert m in more;
    forall beta | beta in betas ensures CollidesWith(f, beta, less, m) {
      CanonicalPoints(f, beta, a);
      CanonicalPoints(f, beta, b);
      ExcessCollides(f, beta, more, less, m);
    }
    FewCollisions(f, m, less, betas);
  }

  /** Soundness of the check as a whole: out of all pairs of challenges from `alphas` and `betas`, an unbalanced trace
      passes for at most `16 N |alphas| + N |betas|`, with `N` the number of messages on the larger side. */
  lemma UnbalancedRarelyPasses<T(!new)>(f: Field<T>, ts: seq<Traffic<T>>, pv: seq<T>, felts: seq<T>,
                                        alphas: set<T>, betas: set<T>, passing: set<(T, T)>)
    requires IsField(f) && C.BusesDistinct(f) && |pv| == NUM_PUBLIC_VALUES
    requires WellFormed(Added(f, ts, pv)) && WellFormed(Removed(f, ts, pv, felts))
    requires multiset(Canonical(f, Added(f, ts, pv))) != multiset(Canonical(f, Removed(f, ts, pv, felts)))
    requires forall p :: p in passing ==> p.0 in alphas && p.1 in betas && Accepted(f, p.0, p.1, ts, pv, felts)
    ensures var n := Max(|Added(f, ts, pv)|, |Removed(f, ts, pv, felts)|);
            |passing| <= C.MAX_MESSAGE_WIDTH * n * |alphas| + n * |betas|
  {
    hide Accepted, Added, Removed, WellFormed, Points, Canonical, AlphasAt;
    var a, b := Added(f, ts, pv), Removed(f, ts, pv, felts);
    var n := Max(|a|, |b|);
    var bad := set beta | beta in betas && multiset(Points(f, beta, a)) == multiset(Points(f, beta, b));
    FewBetas(f, a, b, bad);
    forall beta | beta in betas
      ensures |AlphasAt(passing, beta)| <= if beta in bad then |alphas| else n
    {
      AllAlphas(passing, alphas, beta);
      if beta !in bad {
        AlphasAtGoodBeta(f, ts, pv, felts, passing, beta);
      }
    }
    CountByBeta(passing, betas, bad, |alphas|, n);
    MulMono(|bad|, C.MAX_MESSAGE_WIDTH * n, |alphas|);
  }

  /** Over a finite field: at most `17 N` out of every `|elements|` pairs of challenges pass. */
  lemma UnbalancedInFiniteField<T(!new)>(f: Field<T>, ts: seq<Traffic<T>>, pv: seq<T>, felts: seq<T>, elements: set<T>,
                                         passing: set<(T, T)>)
    requires IsField(f) && C.BusesDistinct(f) && |pv| == NUM_PUBLIC_VALUES && forall x :: x in elements
    requires WellFormed(Added(f, ts, pv)) && WellFormed(Removed(f, ts, pv, felts))
    requires multiset(Canonical(f, Added(f, ts, pv))) != multiset(Canonical(f, Removed(f, ts, pv, felts)))
    requires forall p :: p in passing ==> Accepted(f, p.0, p.1, ts, pv, felts)
    ensures |passing| <= 17 * Max(|Added(f, ts, pv)|, |Removed(f, ts, pv, felts)|) * |elements|
  {
    hide Accepted, Added, Removed, WellFormed, Canonical, Max;
    UnbalancedRarelyPasses(f, ts, pv, felts, elements, elements, passing);
    Collect(Max(|Added(f, ts, pv)|, |Removed(f, ts, pv, felts)|), |elements|);
  }

  lemma Collect(n: nat, s: nat)
    ensures C.MAX_MESSAGE_WIDTH * n * s + n * s == 17 * n * s
  {
  }

  lemma MulMono(x: nat, y: nat, z: nat)
    requires x <= y
    ensures x * z <= y * z
  {
  }

  lemma AllAlphas<T>(passing: set<(T, T)>, alphas: set<T>, beta: T)
    requires forall p :: p in passing ==> p.0 in alphas
    ensures |AlphasAt(passing, beta)| <= |alphas|
  {
    SubsetSize(AlphasAt(passing, beta), alphas);
  }

  lemma AlphasAtGoodBeta<T(!new)>(f: Field<T>, ts: seq<Traffic<T>>, pv: seq<T>, felts: seq<T>, passing: set<(T, T)>,
                                  beta: T)
    requires IsField(f) && |pv| == NUM_PUBLIC_VALUES
    requires multiset(Points(f, beta, Added(f, ts, pv))) != multiset(Points(f, beta, Removed(f, ts, pv, felts)))
    requires forall p :: p in passing ==> Accepted(f, p.0, p.1, ts, pv, felts)
    ensures |AlphasAt(passing, beta)| <= Max(|Added(f, ts, pv)|, |Removed(f, ts, pv, felts)|)
  {
    hide Accepted, Added, Removed, Points;
    forall alpha | alpha in AlphasAt(passing, beta) ensures Accepted(f, alpha, beta, ts, pv, felts) {
      assert (alpha, beta) in passing;
    }
    FewAlphas(f, beta, ts, pv, felts, AlphasAt(passing, beta));
  }

  ghost function AlphasAt<T>(passing: set<(T, T)>, beta: T): set<T> {
    set p | p in passing && p.1 == beta :: p.0
  }

  ghost function Elsewhere<T>(passing: set<(T, T)>, beta: T): set<(T, T)> {
    set p | p in passing && p.1 != beta
  }

  lemma TakeBeta<T>(passing: set<(T, T)>, beta: T)
    ensures |passing| == |AlphasAt(passing, beta)| + |Elsewhere(passing, beta)|
    ensures forall b :: b != beta ==> AlphasAt(Elsewhere(passing, beta), b) == AlphasAt(passing, b)
  {
    var here := set p | p in passing && p.1 == beta;
    assert passing == here + Elsewhere(passing, beta);
    assert AlphasAt(here, beta) == AlphasAt(passing, beta);
    SameBeta(here, beta);
    forall b | b != beta ensures AlphasAt(Elsewhere(passing, beta), b) == AlphasAt(passing, b) {}
  }

  lemma {:induction false} CountByBeta<T>(passing: set<(T, T)>, betas: set<T>, bad: set<T>, many: nat, few: nat)
    requires bad <= betas && forall p :: p in passing ==> p.1 in betas
    requires forall beta :: beta in betas ==> |AlphasAt(passing, beta)| <= if beta in bad then many else few
    ensures |passing| <= |bad| * many + few * |betas|
    decreases |betas|
  {
    hide AlphasAt;
    if betas == {} {
      assert passing == {};
    } else {
      var beta :| beta in betas;
      var rest := Elsewhere(passing, beta);
      TakeBeta(passing, beta);
      CountByBeta(rest, betas - {beta}, bad - {beta}, many, few);
      assert beta !in bad ==> bad - {beta} == bad;
      SplitCount(|bad|, |bad - {beta}|, |betas|, many, few, |AlphasAt(passing, beta)|, |rest|, beta in bad);
    }
  }

  lemma SplitCount(bad: nat, bad': nat, betas: nat, many: nat, few: nat, here: nat, rest: nat, isBad: bool)
    requires betas > 0 && bad' + (if isBad then 1 else 0) == bad
    requires here <= (if isBad then many else few) && rest <= bad' * many + few * (betas - 1)
    ensures here + rest <= bad * many + few * betas
  {
    assert bad * many == bad' * many + (if isBad then many else 0);
    assert few * betas == few * (betas - 1) + few;
  }

  lemma {:induction false} SameBeta<T>(here: set<(T, T)>, beta: T)
    requires forall p :: p in here ==> p.1 == beta
    ensures |AlphasAt(here, beta)| == |here|
    decreases |here|
  {
    if here == {} {
      assert AlphasAt(here, beta) == {};
    } else {
      var p :| p in here;
      SameBeta(here - {p}, beta);
      assert AlphasAt(here, beta) == AlphasAt(here - {p}, beta) + {p.0};
      assert p.0 !in AlphasAt(here - {p}, beta);
    }
  }
}
