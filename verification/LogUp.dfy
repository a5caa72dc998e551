/** Sums of fractions: the argument behind the wiring bus and the other LogUp columns
    (miden-vm/processor/src/trace/chiplets/aux_trace/wiring_bus.rs).  Each row adds `m / (alpha + p)` for a value with
    multiplicity `m`; the sum closes at zero when the multiplicities of every value cancel, and rarely otherwise. */
module LogUp {
  import opened Common
  import opened Fields
  import opened Polynomials
  import opened GrandProducts
  import I = Interpolation

  /** `top / (alpha + point)`. */
  datatype Fraction<T> = Fraction(top: T, point: T)

  function PointsOf<T>(ts: seq<Fraction<T>>): (ps: seq<T>)
    ensures |ps| == |ts| && forall i :: 0 <= i < |ts| ==> ps[i] == ts[i].point
  {
    seq(|ts|, i requires 0 <= i < |ts| => ts[i].point)
  }

  function SumAt<T>(f: Field<T>, x: T, ts: seq<Fraction<T>>): T {
    if |ts| == 0 then f.zero
    else
      var n := |ts| - 1;
      f.add(SumAt(f, x, ts[..n]), f.mul(ts[n].top, f.inv(f.add(x, ts[n].point))))
  }

  ghost predicate NoPole<T>(f: Field<T>, x: T, ts: seq<Fraction<T>>) {
    forall i :: 0 <= i < |ts| ==> f.add(x, ts[i].point) != f.zero
  }

  /** The multiplicities of one value, added up. */
  ghost function Net<T>(f: Field<T>, ts: seq<Fraction<T>>, p: T): T {
    if |ts| == 0 then f.zero
    else
      var n := |ts| - 1;
      if ts[n].point == p then f.add(Net(f, ts[..n], p), ts[n].top) else Net(f, ts[..n], p)
  }

  // Clearing denominators

  /** The coefficients of the sum times the product of all denominators. */
  ghost function Cleared<T>(f: Field<T>, ts: seq<Fraction<T>>): (c: seq<T>)
    ensures |c| == |ts|
  {
    if |ts| == 0 then []
    else
      var n := |ts| - 1;
      I.AddScaled(f, TimesLinear(f, Cleared(f, ts[..n]), ts[n].point), ts[n].top, Expand(f, PointsOf(ts[..n])))
  }

  lemma ClearedStep<T(!new)>(f: Field<T>, ts: seq<Fraction<T>>, x: T)
    requires IsField(f) && |ts| > 0
    ensures var n := |ts| - 1;
            Poly(f, Cleared(f, ts), x)
            == f.add(f.mul(f.add(x, ts[n].point), Poly(f, Cleared(f, ts[..n]), x)),
                     f.mul(ts[n].top, f.Prod(Shifted(f, x, PointsOf(ts[..n])))))
  {
    hide Poly, Expand, TimesLinear, I.AddScaled;
    var n := |ts| - 1;
    var c := Cleared(f, ts[..n]);
    var raised, product := TimesLinear(f, c, ts[n].point), Expand(f, PointsOf(ts[..n]));
    I.AddScaledValue(f, raised, ts[n].top, product, x);
    ExpandValue(f, PointsOf(ts[..n]), x);
    PolyIsHorner(f, c, x);
    PolyIsHorner(f, raised, x);
    TimesLinearValue(f, c, ts[n].point, x);
  }

  /** `y (s p) + c p = (s + c / y) (p y)` */
  lemma CommonDenominator<T(!new)>(f: Field<T>, y: T, s: T, p: T, c: T)
    requires IsField(f) && y != f.zero
    ensures f.add(f.mul(y, f.mul(s, p)), f.mul(c, p)) == f.mul(f.add(s, f.mul(c, f.inv(y))), f.mul(p, y))
  {
    var q, w := f.mul(p, y), f.mul(c, f.inv(y));
    assert f.mul(f.add(s, w), q) == f.add(f.mul(s, q), f.mul(w, q)) by {
      assert Laws(f, q, s, w) && Laws(f, f.add(s, w), q, q) && Laws(f, s, q, q) && Laws(f, w, q, q);
    }
    assert f.mul(s, q) == f.mul(y, f.mul(s, p)) by {
      assert Laws(f, s, p, y) && Laws(f, f.mul(s, p), y, y);
    }
    assert f.mul(w, q) == f.mul(c, p) by {
      assert Laws(f, c, f.inv(y), q) && Laws(f, f.inv(y), q, q) && Laws(f, p, y, f.inv(y)) && Laws(f, y, f.inv(y), y);
      assert Laws(f, p, f.one, p);
    }
  }

  /** Away from poles the cleared polynomial is the sum times the product of all denominators. */
  lemma {:induction false} ClearedValue<T(!new)>(f: Field<T>, ts: seq<Fraction<T>>, x: T)
    requires IsField(f) && NoPole(f, x, ts)
    ensures Poly(f, Cleared(f, ts), x) == f.mul(SumAt(f, x, ts), f.Prod(Shifted(f, x, PointsOf(ts))))
  {
    hide Cleared, Poly;
    if |ts| == 0 {
      I.PolyNone(f, x);
      assert Cleared(f, ts) == [];
      MulZero(f, f.Prod(Shifted(f, x, PointsOf(ts))));
    } else {
      var n := |ts| - 1;
      ClearedValue(f, ts[..n], x);
      ClearedStep(f, ts, x);
      assert Shifted(f, x, PointsOf(ts))[..n] == Shifted(f, x, PointsOf(ts[..n]));
      CommonDenominator(f, f.add(x, ts[n].point), SumAt(f, x, ts[..n]), f.Prod(Shifted(f, x, PointsOf(ts[..n]))),
                        ts[n].top);
    }
  }

  // Distinct values

  lemma SumIsZero<T(!new)>(f: Field<T>, p: T, q: T)
    requires IsField(f)
    ensures f.add(f.neg(p), q) == f.zero <==> p == q
  {
    assert Laws(f, p, f.neg(p), p) && Laws(f, f.neg(p), p, p) && Laws(f, q, f.neg(p), q) && Laws(f, f.neg(p), q, q);
    AddCancel(f, p, q, f.neg(p));
  }

  /** The cleared polynomial does not vanish at a value with a nonzero multiplicity. */
  lemma {:induction false} NonzeroAt<T(!new)>(f: Field<T>, ts: seq<Fraction<T>>, i: nat)
    requires IsField(f) && Distinct(PointsOf(ts)) && i < |ts| && ts[i].top != f.zero
    ensures Poly(f, Cleared(f, ts), f.neg(ts[i].point)) != f.zero
  {
    hide Cleared, Poly;
    var n, p := |ts| - 1, ts[i].point;
    var x, before := f.neg(p), PointsOf(ts[..n]);
    ClearedStep(f, ts, x);
    ShiftedZero(f, before, p);
    SumIsZero(f, p, ts[n].point);
    var product, rest := f.Prod(Shifted(f, x, before)), Poly(f, Cleared(f, ts[..n]), x);
    MulZero(f, rest);
    MulZero(f, ts[n].top);
    if i == n {
      assert p !in before by { assert forall j :: 0 <= j < n ==> PointsOf(ts)[j] != PointsOf(ts)[n]; }
      NoZeroDivisors(f, ts[n].top, product);
      assert Laws(f, f.zero, f.mul(ts[n].top, product), f.zero) && Laws(f, f.mul(ts[n].top, product), f.zero, f.zero);
    } else {
      assert before[i] == p;
      assert PointsOf(ts)[i] != PointsOf(ts)[n];
      NonzeroAt(f, ts[..n], i);
      NoZeroDivisors(f, f.add(x, ts[n].point), rest);
      assert Laws(f, f.mul(f.add(x, ts[n].point), rest), f.zero, f.zero);
    }
  }

  lemma DistinctBound<T(!new)>(f: Field<T>, ts: seq<Fraction<T>>, i: nat, alphas: set<T>)
    requires IsField(f) && Distinct(PointsOf(ts)) && i < |ts| && ts[i].top != f.zero
    requires forall x :: x in alphas ==> NoPole(f, x, ts) && SumAt(f, x, ts) == f.zero
    ensures |alphas| < |ts|
  {
    hide Cleared, Poly, SumAt;
    var c := Cleared(f, ts);
    forall x | x in alphas ensures Poly(f, c, x) == f.zero {
      ClearedValue(f, ts, x);
      MulZero(f, f.Prod(Shifted(f, x, PointsOf(ts))));
    }
    NonzeroAt(f, ts, i);
    NonzeroSomewhere(f, c, f.neg(ts[i].point));
    RootBound(f, c, alphas);
  }

  // Repeated values

  ghost predicate HasPoint<T>(ts: seq<Fraction<T>>, p: T, k: int) {
    0 <= k < |ts| && ts[k].point == p
  }

  /** The same fractions with one entry for each value. */
  ghost function Merged<T>(f: Field<T>, ts: seq<Fraction<T>>): seq<Fraction<T>> {
    if |ts| == 0 then [] else Merge(f, Merged(f, ts[..|ts| - 1]), ts[|ts| - 1])
  }

  ghost function Merge<T>(f: Field<T>, ms: seq<Fraction<T>>, t: Fraction<T>): seq<Fraction<T>> {
    if exists k :: HasPoint(ms, t.point, k) then
      var k :| HasPoint(ms, t.point, k);
      ms[k := Fraction(f.add(ms[k].top, t.top), t.point)]
    else ms + [t]
  }

  lemma MergeCases<T>(f: Field<T>, ms: seq<Fraction<T>>, t: Fraction<T>) returns (k: nat)
    ensures k <= |ms|
    ensures k < |ms| ==>
              && ms[k].point == t.point
              && Merge(f, ms, t) == ms[k := Fraction(f.add(ms[k].top, t.top), t.point)]
    ensures k == |ms| ==> Merge(f, ms, t) == ms + [t] && forall j :: 0 <= j < |ms| ==> ms[j].point != t.point
  {
    if exists k :: HasPoint(ms, t.point, k) {
      var i :| HasPoint(ms, t.point, i) && Merge(f, ms, t) == ms[i := Fraction(f.add(ms[i].top, t.top), t.point)];
      k := i;
    } else {
      k := |ms|;
      forall j | 0 <= j < |ms| ensures ms[j].point != t.point { assert !HasPoint(ms, t.point, j); }
    }
  }

  lemma {:induction false} MergedShape<T>(f: Field<T>, ts: seq<Fraction<T>>)
    ensures Distinct(PointsOf(Merged(f, ts))) && |Merged(f, ts)| <= |ts|
    ensures forall k :: 0 <= k < |Merged(f, ts)| ==> Merged(f, ts)[k].point in PointsOf(ts)
  {
    if |ts| > 0 {
      var n := |ts| - 1;
      MergedShape(f, ts[..n]);
      var ms := Merged(f, ts[..n]);
      var k := MergeCases(f, ms, ts[n]);
      hide Merge;
      var after := Merge(f, ms, ts[n]);
      assert forall j :: 0 <= j < |ms| ==> after[j].point == ms[j].point;
      assert forall p :: p in PointsOf(ts[..n]) ==> p in PointsOf(ts) by {
        assert PointsOf(ts) == PointsOf(ts[..n]) + [ts[n].point];
      }
      assert PointsOf(ts)[n] == ts[n].point;
      assert Distinct(PointsOf(after));
    }
  }

  lemma {:induction false} NetBump<T(!new)>(f: Field<T>, ms: seq<Fraction<T>>, k: nat, c: T, p: T)
    requires IsField(f) && k < |ms|
    ensures Net(f, ms[k := Fraction(f.add(ms[k].top, c), ms[k].point)], p)
            == if ms[k].point == p then f.add(Net(f, ms, p), c) else Net(f, ms, p)
  {
    var n := |ms| - 1;
    var after := ms[k := Fraction(f.add(ms[k].top, c), ms[k].point)];
    var low := Net(f, ms[..n], p);
    if k == n {
      assert after[..n] == ms[..n];
      assert Laws(f, low, ms[n].top, c);
    } else {
      assert after[..n] == ms[..n][k := Fraction(f.add(ms[k].top, c), ms[k].point)];
      NetBump(f, ms[..n], k, c, p);
      assert Laws(f, low, c, ms[n].top) && Laws(f, c, ms[n].top, low) && Laws(f, low, ms[n].top, c);
    }
  }

  lemma {:induction false} MergedNet<T(!new)>(f: Field<T>, ts: seq<Fraction<T>>, p: T)
    requires IsField(f)
    ensures Net(f, Merged(f, ts), p) == Net(f, ts, p)
  {
    hide Merge;
    if |ts| > 0 {
      var n := |ts| - 1;
      MergedNet(f, ts[..n], p);
      var ms := Merged(f, ts[..n]);
      var k := MergeCases(f, ms, ts[n]);
      if k < |ms| {
        NetBump(f, ms, k, ts[n].top, p);
      } else {
        assert (ms + [ts[n]])[..|ms|] == ms;
      }
    }
  }

  /** A value that does not occur has net multiplicity zero; one that occurs once has its own. */
  lemma {:induction false} NetOfDistinct<T(!new)>(f: Field<T>, ms: seq<Fraction<T>>, p: T)
    requires IsField(f) && Distinct(PointsOf(ms))
    ensures p !in PointsOf(ms) ==> Net(f, ms, p) == f.zero
    ensures forall k :: HasPoint(ms, p, k) ==> ms[k].top == Net(f, ms, p)
  {
    if |ms| > 0 {
      var n := |ms| - 1;
      var ps := PointsOf(ms);
      assert ps == PointsOf(ms[..n]) + [ms[n].point];
      NetOfDistinct(f, ms[..n], p);
      assert Laws(f, f.zero, ms[n].top, f.zero) && Laws(f, ms[n].top, f.zero, f.zero);
      forall k | HasPoint(ms, p, k) ensures ms[k].top == Net(f, ms, p) {
        assert ps[k] == p;
        if k < n {
          assert HasPoint(ms[..n], p, k);
          assert ps[k] != ps[n];
        } else {
          assert p !in PointsOf(ms[..n]) by { assert forall j :: 0 <= j < n ==> ps[j] != ps[n]; }
        }
      }
    }
  }

  /** Raising one multiplicity adds its fraction. */
  lemma {:induction false} SumBump<T(!new)>(f: Field<T>, x: T, ms: seq<Fraction<T>>, k: nat, c: T)
    requires IsField(f) && k < |ms|
    ensures SumAt(f, x, ms[k := Fraction(f.add(ms[k].top, c), ms[k].point)])
            == f.add(SumAt(f, x, ms), f.mul(c, f.inv(f.add(x, ms[k].point))))
  {
    var n := |ms| - 1;
    var after := ms[k := Fraction(f.add(ms[k].top, c), ms[k].point)];
    var w, v := f.inv(f.add(x, ms[k].point)), f.inv(f.add(x, ms[n].point));
    var low, top, extra := SumAt(f, x, ms[..n]), f.mul(ms[n].top, v), f.mul(c, w);
    if k == n {
      assert after[..n] == ms[..n];
      assert Laws(f, w, ms[n].top, c) && Laws(f, ms[n].top, w, w) && Laws(f, c, w, w);
      assert Laws(f, f.add(ms[n].top, c), w, w);
      assert Laws(f, low, top, extra);
    } else {
      assert after[..n] == ms[..n][k := Fraction(f.add(ms[k].top, c), ms[k].point)];
      SumBump(f, x, ms[..n], k, c);
      assert Laws(f, low, extra, top) && Laws(f, extra, top, low) && Laws(f, low, top, extra);
    }
  }

  lemma {:induction false} MergedSum<T(!new)>(f: Field<T>, x: T, ts: seq<Fraction<T>>)
    requires IsField(f)
    ensures SumAt(f, x, Merged(f, ts)) == SumAt(f, x, ts)
  {
    hide Merge;
    if |ts| > 0 {
      var n := |ts| - 1;
      MergedSum(f, x, ts[..n]);
      var ms := Merged(f, ts[..n]);
      var k := MergeCases(f, ms, ts[n]);
      if k < |ms| {
        SumBump(f, x, ms, k, ts[n].top);
      } else {
        assert (ms + [ts[n]])[..|ms|] == ms;
      }
    }
  }

  /** Sound: if some value's multiplicities do not cancel, the sum is zero at fewer points than there are fractions. */
  lemma LogUpBound<T(!new)>(f: Field<T>, ts: seq<Fraction<T>>, p: T, alphas: set<T>)
    requires IsField(f) && Net(f, ts, p) != f.zero
    requires forall x :: x in alphas ==> NoPole(f, x, ts) && SumAt(f, x, ts) == f.zero
    ensures |alphas| < |ts|
  {
    hide Merged, SumAt, Net;
    MergedNet(f, ts, p);
    MergedShape(f, ts);
    var ms := Merged(f, ts);
    NetOfDistinct(f, ms, p);
    assert p in PointsOf(ms);
    var k :| 0 <= k < |ms| && PointsOf(ms)[k] == p;
    assert HasPoint(ms, p, k);
    forall x | x in alphas ensures NoPole(f, x, ms) && SumAt(f, x, ms) == f.zero {
      MergedSum(f, x, ts);
      forall i | 0 <= i < |ms| ensures f.add(x, ms[i].point) != f.zero {
        assert ms[i].point in PointsOf(ts);
        var j :| 0 <= j < |ts| && PointsOf(ts)[j] == ms[i].point;
        assert ts[j].point == ms[i].point;
      }
    }
    DistinctBound(f, ms, k, alphas);
  }

  lemma {:induction false} ZeroTops<T(!new)>(f: Field<T>, x: T, ms: seq<Fraction<T>>)
    requires IsField(f) && forall i :: 0 <= i < |ms| ==> ms[i].top == f.zero
    ensures SumAt(f, x, ms) == f.zero
  {
    if |ms| > 0 {
      var n := |ms| - 1;
      ZeroTops(f, x, ms[..n]);
      MulZero(f, f.inv(f.add(x, ms[n].point)));
      assert Laws(f, f.zero, f.zero, f.zero);
    }
  }

  /** Complete: if the multiplicities of every value cancel, the sum is zero everywhere. */
  lemma LogUpCloses<T(!new)>(f: Field<T>, ts: seq<Fraction<T>>, x: T)
    requires IsField(f) && forall p :: Net(f, ts, p) == f.zero
    ensures SumAt(f, x, ts) == f.zero
  {
    hide Merged, SumAt, Net;
    var ms := Merged(f, ts);
    MergedShape(f, ts);
    forall k | 0 <= k < |ms| ensures ms[k].top == f.zero {
      MergedNet(f, ts, ms[k].point);
      NetOfDistinct(f, ms, ms[k].point);
      assert HasPoint(ms, ms[k].point, k);
    }
    ZeroTops(f, x, ms);
    MergedSum(f, x, ts);
  }
}
