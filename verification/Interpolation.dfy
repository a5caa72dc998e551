/** What recomposing the quotient computes: the value at `z^N` of the polynomial that takes the chunk values at the
    coset shifts (miden-vm/crates/ace-codegen/src/quotient.rs). */
module Interpolation {
  import opened Common
  import opened Fields
  import opened Polynomials
  import opened GrandProducts

  // Sums of scaled polynomials

  /** The coefficients of `a + c b`. */
  function AddScaled<T>(f: Field<T>, a: seq<T>, c: T, b: seq<T>): (r: seq<T>)
    requires |a| == |b|
    ensures |r| == |a| && forall i :: 0 <= i < |a| ==> r[i] == f.add(a[i], f.mul(c, b[i]))
  {
    seq(|a|, i requires 0 <= i < |a| => f.add(a[i], f.mul(c, b[i])))
  }

  /** `x (a + c b) = x a + c (x b)`, added to what is there. */
  lemma ScaledStep<T(!new)>(f: Field<T>, p: T, q: T, x: T, a: T, c: T, b: T)
    requires IsField(f)
    ensures f.add(f.add(p, f.mul(c, q)), f.mul(x, f.add(a, f.mul(c, b))))
            == f.add(f.add(p, f.mul(x, a)), f.mul(c, f.add(q, f.mul(x, b))))
  {
    assert Laws(f, x, a, f.mul(c, b)) && Laws(f, x, c, b) && Laws(f, c, x, b) && Laws(f, c, q, f.mul(x, b));
    AddMiddle(f, p, f.mul(c, q), f.mul(x, a), f.mul(c, f.mul(x, b)));
  }

  lemma PolyNone<T>(f: Field<T>, x: T)
    ensures Poly(f, [], x) == f.zero
  {
  }

  lemma PolyLast<T>(f: Field<T>, s: seq<T>, x: T)
    requires |s| > 0
    ensures Poly(f, s, x) == f.add(Poly(f, s[..|s| - 1], x), f.mul(f.Pow(x, |s| - 1), s[|s| - 1]))
  {
  }

  lemma {:induction false} AddScaledValue<T(!new)>(f: Field<T>, a: seq<T>, c: T, b: seq<T>, x: T)
    requires IsField(f) && |a| == |b|
    ensures Poly(f, AddScaled(f, a, c, b), x) == f.add(Poly(f, a, x), f.mul(c, Poly(f, b, x)))
  {
    hide Poly;
    if |a| == 0 {
      PolyNone(f, x);
      MulZero(f, c);
      assert Laws(f, f.zero, f.zero, f.zero);
    } else {
      var n := |a| - 1;
      AddScaledValue(f, a[..n], c, b[..n], x);
      assert AddScaled(f, a, c, b)[..n] == AddScaled(f, a[..n], c, b[..n]);
      PolyLast(f, a, x);
      PolyLast(f, b, x);
      PolyLast(f, AddScaled(f, a, c, b), x);
      ScaledStep(f, Poly(f, a[..n], x), Poly(f, b[..n], x), f.Pow(x, n), a[n], c, b[n]);
    }
  }

  // The interpolation formula

  /** The product of `x - s[j]` over the first `n` points, without point `i`. */
  ghost function OthersAt<T>(f: Field<T>, s: seq<T>, i: nat, x: T, n: nat): T
    requires n <= |s|
  {
    if n == 0 then f.one
    else if n - 1 == i then OthersAt(f, s, i, x, n - 1)
    else f.mul(OthersAt(f, s, i, x, n - 1), f.Sub(x, s[n - 1]))
  }

  /** The first `n` terms of `sum(w[i] * prod(x - s[j], j != i) * q[i])`. */
  ghost function Barycentric<T>(f: Field<T>, s: seq<T>, w: seq<T>, q: seq<T>, x: T, n: nat): T
    requires |s| == |w| == |q| && n <= |s|
  {
    if n == 0 then f.zero
    else f.add(Barycentric(f, s, w, q, x, n - 1), f.mul(f.mul(w[n - 1], OthersAt(f, s, n - 1, x, |s|)), q[n - 1]))
  }

  /** The negated points without point `i`. */
  ghost function NegatedOthers<T>(f: Field<T>, s: seq<T>, i: nat, n: nat): (r: seq<T>)
    requires n <= |s|
    ensures |r| == if i < n then n - 1 else n
  {
    if n == 0 then []
    else if n - 1 == i then NegatedOthers(f, s, i, n - 1)
    else NegatedOthers(f, s, i, n - 1) + [f.neg(s[n - 1])]
  }

  lemma {:induction false} OthersIsProduct<T(!new)>(f: Field<T>, s: seq<T>, i: nat, x: T, n: nat)
    requires IsField(f) && n <= |s|
    ensures OthersAt(f, s, i, x, n) == f.Prod(Shifted(f, x, NegatedOthers(f, s, i, n)))
  {
    if n > 0 {
      OthersIsProduct(f, s, i, x, n - 1);
      if n - 1 != i {
        var before := NegatedOthers(f, s, i, n - 1);
        var t := Shifted(f, x, before + [f.neg(s[n - 1])]);
        assert t[..|before|] == Shifted(f, x, before);
      }
    }
  }

  /** The coefficients of the product over all points but `i`. */
  ghost function OthersPoly<T>(f: Field<T>, s: seq<T>, i: nat): (c: seq<T>)
    requires i < |s|
    ensures |c| == |s|
  {
    Expand(f, NegatedOthers(f, s, i, |s|))
  }

  lemma OthersPolyValue<T(!new)>(f: Field<T>, s: seq<T>, i: nat, x: T)
    requires IsField(f) && i < |s|
    ensures Poly(f, OthersPoly(f, s, i), x) == OthersAt(f, s, i, x, |s|)
  {
    ExpandValue(f, NegatedOthers(f, s, i, |s|), x);
    OthersIsProduct(f, s, i, x, |s|);
  }

  /** The coefficients of the first `n` terms of the formula. */
  ghost function BarycentricPoly<T>(f: Field<T>, s: seq<T>, w: seq<T>, q: seq<T>, n: nat): (c: seq<T>)
    requires |s| == |w| == |q| && n <= |s|
    ensures |c| == |s|
  {
    if n == 0 then Zeros(f, |s|)
    else AddScaled(f, BarycentricPoly(f, s, w, q, n - 1), f.mul(w[n - 1], q[n - 1]), OthersPoly(f, s, n - 1))
  }

  lemma SwapFactors<T(!new)>(f: Field<T>, a: T, b: T, c: T)
    requires IsField(f)
    ensures f.mul(f.mul(a, b), c) == f.mul(f.mul(a, c), b)
  {
    assert Laws(f, a, b, c) && Laws(f, b, c, c) && Laws(f, a, c, b);
  }

  lemma {:induction false} BarycentricPolyValue<T(!new)>(f: Field<T>, s: seq<T>, w: seq<T>, q: seq<T>, x: T, n: nat)
    requires IsField(f) && |s| == |w| == |q| && n <= |s|
    ensures Poly(f, BarycentricPoly(f, s, w, q, n), x) == Barycentric(f, s, w, q, x, n)
  {
    hide OthersPoly, OthersAt, Poly, AddScaled;
    if n == 0 {
      PolyZeros(f, |s|, x);
    } else {
      BarycentricPolyValue(f, s, w, q, x, n - 1);
      AddScaledValue(f, BarycentricPoly(f, s, w, q, n - 1), f.mul(w[n - 1], q[n - 1]), OthersPoly(f, s, n - 1), x);
      OthersPolyValue(f, s, n - 1, x);
      SwapFactors(f, w[n - 1], q[n - 1], OthersAt(f, s, n - 1, x, |s|));
    }
  }

  lemma {:induction false} OthersVanish<T(!new)>(f: Field<T>, s: seq<T>, i: nat, m: nat, n: nat)
    requires IsField(f) && m < n <= |s| && m != i
    ensures OthersAt(f, s, i, s[m], n) == f.zero
  {
    var before := OthersAt(f, s, i, s[m], n - 1);
    SubZero(f, s[m], s[m]);
    MulZero(f, before);
    if m < n - 1 {
      OthersVanish(f, s, i, m, n - 1);
      MulZero(f, f.Sub(s[m], s[n - 1]));
    }
  }

  /** The weights undo the product over the other points. */
  ghost predicate Weighted<T>(f: Field<T>, s: seq<T>, w: seq<T>)
    requires |s| == |w|
  {
    forall i :: 0 <= i < |s| ==> f.mul(w[i], OthersAt(f, s, i, s[i], |s|)) == f.one
  }

  lemma WeightedAt<T>(f: Field<T>, s: seq<T>, w: seq<T>, i: nat)
    requires |s| == |w| && i < |s| && Weighted(f, s, w)
    ensures f.mul(w[i], OthersAt(f, s, i, s[i], |s|)) == f.one
  {
  }

  /** At point `m` only term `m` is left. */
  lemma {:induction false} BarycentricAtPoint<T(!new)>(f: Field<T>, s: seq<T>, w: seq<T>, q: seq<T>, m: nat, n: nat)
    requires IsField(f) && |s| == |w| == |q| && m < |s| && n <= |s| && Weighted(f, s, w)
    ensures Barycentric(f, s, w, q, s[m], n) == if m < n then q[m] else f.zero
  {
    hide OthersAt, Weighted;
    if n > 0 {
      BarycentricAtPoint(f, s, w, q, m, n - 1);
      WeightedAt(f, s, w, n - 1);
      var i := n - 1;
      if m == i {
        OneTerm(f, q[m]);
      } else {
        OthersVanish(f, s, i, m, |s|);
        NoTerm(f, w[i], q[i], if m < i then q[m] else f.zero);
      }
    }
  }

  lemma OneTerm<T(!new)>(f: Field<T>, q: T)
    requires IsField(f)
    ensures f.add(f.zero, f.mul(f.one, q)) == q
  {
    assert Laws(f, q, f.one, f.one) && Laws(f, f.one, q, q) && Laws(f, f.zero, q, q) && Laws(f, q, f.zero, f.zero);
  }

  lemma NoTerm<T(!new)>(f: Field<T>, w: T, q: T, sum: T)
    requires IsField(f)
    ensures f.add(sum, f.mul(f.mul(w, f.zero), q)) == sum
  {
    MulZero(f, w);
    MulZero(f, q);
    assert Laws(f, sum, f.zero, f.zero);
  }

  ghost function Points<T>(s: seq<T>): set<T> {
    set x | x in s
  }

  lemma {:induction false} PointsCount<T>(s: seq<T>)
    requires Distinct(s)
    ensures |Points(s)| == |s|
  {
    if |s| == 0 {
      assert Points(s) == {};
    } else {
      var n := |s| - 1;
      PointsCount(s[..n]);
      assert s == s[..n] + [s[n]];
      assert Points(s) == Points(s[..n]) + {s[n]};
    }
  }

  /** A polynomial with `n` coefficients that vanishes at `n` points is zero everywhere. */
  lemma VanishesEverywhere<T(!new)>(f: Field<T>, d: seq<T>, s: seq<T>, x: T)
    requires IsField(f) && Distinct(s) && |d| <= |s|
    requires forall i :: 0 <= i < |s| ==> Poly(f, d, s[i]) == f.zero
    ensures Poly(f, d, x) == f.zero
  {
    if Poly(f, d, x) != f.zero {
      NonzeroSomewhere(f, d, x);
      PointsCount(s);
      RootBound(f, d, Points(s));
    }
  }

  /** The formula gives the value at `x` of every polynomial, with no more coefficients than points, that takes the
      given values at the points. */
  lemma BarycentricInterpolates<T(!new)>(f: Field<T>, s: seq<T>, w: seq<T>, q: seq<T>, c: seq<T>, x: T)
    requires IsField(f) && |s| == |w| == |q| && |c| <= |s| && Distinct(s) && Weighted(f, s, w)
    requires forall i :: 0 <= i < |s| ==> Poly(f, c, s[i]) == q[i]
    ensures Barycentric(f, s, w, q, x, |s|) == Poly(f, c, x)
  {
    hide Barycentric, Weighted, Poly, Gap, Distinct;
    forall i | 0 <= i < |s| ensures Poly(f, Gap(f, s, w, q, c), s[i]) == f.zero {
      GapValue(f, s, w, q, c, s[i]);
      BarycentricAtPoint(f, s, w, q, i, |s|);
    }
    VanishesEverywhere(f, Gap(f, s, w, q, c), s, x);
    GapValue(f, s, w, q, c, x);
  }

  /** The coefficients of the formula minus those of `c`. */
  ghost function Gap<T>(f: Field<T>, s: seq<T>, w: seq<T>, q: seq<T>, c: seq<T>): (d: seq<T>)
    requires |s| == |w| == |q| && |c| <= |s|
    ensures |d| == |s|
  {
    PolyDiff(f, BarycentricPoly(f, s, w, q, |s|), c + Zeros(f, |s| - |c|))
  }

  lemma GapValue<T(!new)>(f: Field<T>, s: seq<T>, w: seq<T>, q: seq<T>, c: seq<T>, x: T)
    requires IsField(f) && |s| == |w| == |q| && |c| <= |s|
    ensures Poly(f, Gap(f, s, w, q, c), x) == f.zero
            <==> Barycentric(f, s, w, q, x, |s|) == Poly(f, c, x)
  {
    hide Barycentric, BarycentricPoly, Poly, PolyDiff;
    var k := |s|;
    var b, p := BarycentricPoly(f, s, w, q, k), c + Zeros(f, k - |c|);
    PolySubtract(f, b, p, x);
    PolyTrailingZeros(f, c, k - |c|, x);
    BarycentricPolyValue(f, s, w, q, x, k);
    SubZero(f, Poly(f, b, x), Poly(f, p, x));
  }

  // The weights of coset shifts

  /** The coefficients of `(X^k - a^k) / (X - a)`. */
  ghost function Geometric<T>(f: Field<T>, a: T, k: nat): (c: seq<T>)
    ensures |c| == k
  {
    if k == 0 then [] else AddScaled(f, Zeros(f, k - 1), a, Geometric(f, a, k - 1)) + [f.one]
  }

  lemma GeometricStep<T(!new)>(f: Field<T>, a: T, k: nat, x: T)
    requires IsField(f) && k > 0
    ensures Poly(f, Geometric(f, a, k), x) == f.add(f.mul(a, Poly(f, Geometric(f, a, k - 1), x)), f.Pow(x, k - 1))
  {
    var front := AddScaled(f, Zeros(f, k - 1), a, Geometric(f, a, k - 1));
    var g := front + [f.one];
    PolyLast(f, g, x);
    assert g[..k - 1] == front;
    AddScaledValue(f, Zeros(f, k - 1), a, Geometric(f, a, k - 1), x);
    PolyZeros(f, k - 1, x);
    var v := f.mul(a, Poly(f, Geometric(f, a, k - 1), x));
    assert Laws(f, v, f.zero, v) && Laws(f, f.zero, v, v) && Laws(f, f.Pow(x, k - 1), f.one, x);
  }

  /** `(x - a)(a g + p) = a ((x - a) g) + (x - a) p` */
  lemma TelescopeGeometric<T(!new)>(f: Field<T>, x: T, a: T, g: T, p: T, q: T)
    requires IsField(f) && f.mul(f.Sub(x, a), g) == f.Sub(p, q)
    ensures f.mul(f.Sub(x, a), f.add(f.mul(a, g), p)) == f.Sub(f.mul(p, x), f.mul(q, a))
  {
    var d := f.Sub(x, a);
    assert Laws(f, d, f.mul(a, g), p) && Laws(f, d, a, g) && Laws(f, a, d, g) && Laws(f, a, g, d);
    MulSub(f, a, p, q);
    MulSub(f, p, x, a);
    assert Laws(f, d, p, p) && Laws(f, a, p, p) && Laws(f, a, q, q);
    // a p - a q + (p x - p a) = p x - q a
    var ap, aq, px := f.mul(a, p), f.mul(a, q), f.mul(p, x);
    assert Laws(f, ap, f.neg(aq), f.Sub(px, ap)) && Laws(f, f.neg(aq), px, f.neg(ap))
           && Laws(f, px, f.neg(aq), f.neg(ap));
    assert Laws(f, f.neg(aq), px, px) && Laws(f, ap, f.add(px, f.neg(aq)), f.neg(ap))
           && Laws(f, f.add(px, f.neg(aq)), ap, f.neg(ap));
    assert Laws(f, ap, ap, ap) && Laws(f, f.add(px, f.neg(aq)), f.zero, ap);
  }

  lemma {:induction false} GeometricValue<T(!new)>(f: Field<T>, a: T, k: nat, x: T)
    requires IsField(f)
    ensures f.mul(f.Sub(x, a), Poly(f, Geometric(f, a, k), x)) == f.Sub(f.Pow(x, k), f.Pow(a, k))
  {
    hide Geometric, Poly;
    if k == 0 {
      GeometricNone(f, a, x);
      MulZero(f, f.Sub(x, a));
      SubZero(f, f.one, f.one);
    } else {
      GeometricValue(f, a, k - 1, x);
      GeometricStep(f, a, k, x);
      TelescopeGeometric(f, x, a, Poly(f, Geometric(f, a, k - 1), x), f.Pow(x, k - 1), f.Pow(a, k - 1));
    }
  }

  lemma GeometricNone<T>(f: Field<T>, a: T, x: T)
    ensures Poly(f, Geometric(f, a, 0), x) == f.zero
  {
  }

  /** At `a` itself: `k a^(k-1)`. */
  lemma {:induction false} GeometricDiagonal<T(!new)>(f: Field<T>, a: T, k: nat)
    requires IsField(f) && k > 0
    ensures Poly(f, Geometric(f, a, k), a) == f.mul(f.OfNat(k), f.Pow(a, k - 1))
  {
    hide Geometric, Poly;
    GeometricStep(f, a, k, a);
    var p := f.Pow(a, k - 1);
    if k == 1 {
      GeometricNone(f, a, a);
      MulZero(f, a);
      assert Laws(f, f.one, f.zero, f.zero) && Laws(f, f.zero, f.one, f.one) && Laws(f, f.one, f.one, f.one);
      assert f.OfNat(1) == f.add(f.OfNat(0), f.one);
    } else {
      GeometricDiagonal(f, a, k - 1);
      var n, before := f.OfNat(k - 1), f.Pow(a, k - 2);
      assert p == f.mul(before, a);
      assert Laws(f, a, f.mul(n, before), a) && Laws(f, n, before, a);
      assert Laws(f, p, n, f.one) && Laws(f, p, f.one, p) && Laws(f, n, p, p) && Laws(f, f.add(n, f.one), p, p);
    }
  }

  lemma GeometricLeading<T>(f: Field<T>, a: T, k: nat)
    requires k > 0
    ensures Geometric(f, a, k)[k - 1] == f.one
  {
  }

  lemma {:induction false} TimesLinearLeading<T(!new)>(f: Field<T>, c: seq<T>, r: T)
    requires IsField(f) && |c| > 0
    ensures TimesLinear(f, c, r)[|c|] == c[|c| - 1]
  {
    if |c| == 1 {
      assert c[1..] == [];
      assert Laws(f, c[0], f.zero, f.zero);
    } else {
      TimesLinearLeading(f, c[1..], r);
    }
  }

  lemma {:induction false} ExpandLeading<T(!new)>(f: Field<T>, s: seq<T>)
    requires IsField(f)
    ensures Expand(f, s)[|s|] == f.one
  {
    if |s| > 0 {
      ExpandLeading(f, s[..|s| - 1]);
      TimesLinearLeading(f, Expand(f, s[..|s| - 1]), s[|s| - 1]);
    }
  }

  // Roots of one power

  ghost predicate SamePower<T>(f: Field<T>, s: seq<T>, k: nat) {
    forall i, j :: 0 <= i < |s| && 0 <= j < |s| ==> f.Pow(s[i], k) == f.Pow(s[j], k)
  }

  lemma GeometricAtOther<T(!new)>(f: Field<T>, s: seq<T>, i: nat, m: nat)
    requires IsField(f) && Distinct(s) && SamePower(f, s, |s|) && i < |s| && m < |s| && m != i
    ensures Poly(f, Geometric(f, s[i], |s|), s[m]) == f.zero
  {
    hide Geometric, Poly;
    assert s[m] != s[i] by { if m < i { assert s[m] != s[i]; } else { assert s[i] != s[m]; } }
    GeometricValue(f, s[i], |s|, s[m]);
    SubZero(f, s[m], s[i]);
    SubZero(f, f.Pow(s[m], |s|), f.Pow(s[i], |s|));
    NoZeroDivisors(f, f.Sub(s[m], s[i]), Poly(f, Geometric(f, s[i], |s|), s[m]));
  }

  /** Two polynomials with the same leading coefficient that agree at all other points agree everywhere. */
  lemma AgreeWithLeading<T(!new)>(f: Field<T>, a: seq<T>, b: seq<T>, s: seq<T>, x: T)
    requires IsField(f) && |a| == |b| == |s| + 1 && Distinct(s) && a[|s|] == b[|s|]
    requires forall i :: 0 <= i < |s| ==> Poly(f, a, s[i]) == Poly(f, b, s[i])
    ensures Poly(f, a, x) == Poly(f, b, x)
  {
    hide Poly, Distinct;
    var n := |s|;
    var d := PolyDiff(f, a, b);
    SubZero(f, a[n], b[n]);
    forall i | 0 <= i < n ensures Poly(f, d[..n], s[i]) == f.zero {
      DropLeading(f, a, b, s[i]);
      SubZero(f, Poly(f, a, s[i]), Poly(f, b, s[i]));
    }
    VanishesEverywhere(f, d[..n], s, x);
    DropLeading(f, a, b, x);
    SubZero(f, Poly(f, a, x), Poly(f, b, x));
  }

  lemma DropLeading<T(!new)>(f: Field<T>, a: seq<T>, b: seq<T>, x: T)
    requires IsField(f) && |a| == |b| > 0 && a[|a| - 1] == b[|a| - 1]
    ensures Poly(f, PolyDiff(f, a, b)[..|a| - 1], x) == f.Sub(Poly(f, a, x), Poly(f, b, x))
  {
    hide Poly;
    var n, d := |a| - 1, PolyDiff(f, a, b);
    PolySubtract(f, a, b, x);
    PolyLast(f, d, x);
    SubZero(f, a[n], b[n]);
    MulZero(f, f.Pow(x, n));
    var rest := Poly(f, d[..n], x);
    assert Laws(f, rest, f.zero, f.zero);
  }

  ghost function WithoutPoint<T>(s: seq<T>, i: nat): (r: seq<T>)
    requires i < |s|
    ensures |r| == |s| - 1
    ensures forall j :: 0 <= j < |s| - 1 ==> r[j] == s[if j < i then j else j + 1]
  {
    s[..i] + s[i + 1..]
  }

  /** For points with a common `k`-th power, the product of the differences from point `i` is `k s[i]^(k-1)`. */
  lemma OthersAtPoint<T(!new)>(f: Field<T>, s: seq<T>, i: nat)
    requires IsField(f) && Distinct(s) && SamePower(f, s, |s|) && i < |s|
    ensures OthersAt(f, s, i, s[i], |s|) == f.mul(f.OfNat(|s|), f.Pow(s[i], |s| - 1))
  {
    hide OthersAt, OthersPoly, Geometric, Poly, SamePower;
    var k, rest := |s|, WithoutPoint(s, i);
    var a, b := OthersPoly(f, s, i), Geometric(f, s[i], k);
    LeadingCoefficients(f, s, i);
    assert Distinct(rest);
    forall j | 0 <= j < |rest| ensures Poly(f, a, rest[j]) == Poly(f, b, rest[j]) {
      var m := if j < i then j else j + 1;
      OthersPolyValue(f, s, i, s[m]);
      OthersVanish(f, s, i, m, k);
      GeometricAtOther(f, s, i, m);
    }
    AgreeWithLeading(f, a, b, rest, s[i]);
    OthersPolyValue(f, s, i, s[i]);
    GeometricDiagonal(f, s[i], k);
  }

  lemma LeadingCoefficients<T(!new)>(f: Field<T>, s: seq<T>, i: nat)
    requires IsField(f) && i < |s|
    ensures OthersPoly(f, s, i)[|s| - 1] == f.one && Geometric(f, s[i], |s|)[|s| - 1] == f.one
  {
    ExpandLeading(f, NegatedOthers(f, s, i, |s|));
    GeometricLeading(f, s[i], |s|);
  }

  // Cosets

  lemma {:induction false} PowProduct<T(!new)>(f: Field<T>, x: T, y: T, n: nat)
    requires IsField(f)
    ensures f.Pow(f.mul(x, y), n) == f.mul(f.Pow(x, n), f.Pow(y, n))
  {
    if n == 0 {
      assert Laws(f, f.one, f.one, f.one);
    } else {
      PowProduct(f, x, y, n - 1);
      MulMiddle(f, f.Pow(x, n - 1), f.Pow(y, n - 1), x, y);
    }
  }

  lemma {:induction false} PowSum<T(!new)>(f: Field<T>, x: T, a: nat, b: nat)
    requires IsField(f)
    ensures f.Pow(x, a + b) == f.mul(f.Pow(x, a), f.Pow(x, b))
  {
    if b == 0 {
      assert Laws(f, f.Pow(x, a), f.one, f.one);
    } else {
      PowSum(f, x, a, b - 1);
      assert Laws(f, f.Pow(x, a), f.Pow(x, b - 1), x);
    }
  }

  lemma {:induction false} PowPow<T(!new)>(f: Field<T>, x: T, a: nat, b: nat)
    requires IsField(f)
    ensures f.Pow(f.Pow(x, a), b) == f.Pow(x, a * b)
  {
    if b == 0 {
      assert a * b == 0;
    } else {
      PowPow(f, x, a, b - 1);
      assert a * b == a * (b - 1) + a;
      PowSum(f, x, a * (b - 1), a);
    }
  }

  lemma {:induction false} PowOfOne<T(!new)>(f: Field<T>, n: nat)
    requires IsField(f)
    ensures f.Pow(f.one, n) == f.one
  {
    if n > 0 {
      PowOfOne(f, n - 1);
      assert Laws(f, f.one, f.one, f.one);
    }
  }

  /** A power of a `k`-th root of one is one. */
  lemma RootPower<T(!new)>(f: Field<T>, ratio: T, k: nat, i: nat)
    requires IsField(f) && f.Pow(ratio, k) == f.one
    ensures f.Pow(f.Pow(ratio, i), k) == f.one
  {
    PowPow(f, ratio, i, k);
    PowPow(f, ratio, k, i);
    assert i * k == k * i;
    PowOfOne(f, i);
  }

  /** `start`, `start ratio`, `start ratio^2`, ... */
  ghost function Progression<T>(f: Field<T>, start: T, ratio: T, k: nat): (s: seq<T>)
    ensures |s| == k && forall i :: 0 <= i < k ==> s[i] == f.mul(start, f.Pow(ratio, i))
  {
    seq(k, i requires 0 <= i < k => f.mul(start, f.Pow(ratio, i)))
  }

  lemma ProgressionPower<T(!new)>(f: Field<T>, start: T, ratio: T, k: nat)
    requires IsField(f) && f.Pow(ratio, k) == f.one
    ensures SamePower(f, Progression(f, start, ratio, k), k)
  {
    var s := Progression(f, start, ratio, k);
    forall i | 0 <= i < k ensures f.Pow(s[i], k) == f.Pow(start, k) {
      PowProduct(f, start, f.Pow(ratio, i), k);
      RootPower(f, ratio, k, i);
      assert Laws(f, f.Pow(start, k), f.one, f.one);
    }
  }

  /** `(w0 y)(n (p yk)) = (w0 (n p))(y yk)` */
  lemma CollectWeights<T(!new)>(f: Field<T>, w0: T, y: T, n: T, p: T, yk: T)
    requires IsField(f)
    ensures f.mul(f.mul(w0, y), f.mul(n, f.mul(p, yk))) == f.mul(f.mul(w0, f.mul(n, p)), f.mul(y, yk))
  {
    assert Laws(f, n, p, yk);
    MulMiddle(f, w0, y, f.mul(n, p), yk);
  }

  /** With the first weight equal to `1 / (k s0^(k-1))`, the geometric weights are the right ones. */
  lemma CosetWeights<T(!new)>(f: Field<T>, s0: T, ratio: T, weight0: T, k: nat)
    requires IsField(f) && k > 0 && f.Pow(ratio, k) == f.one && Distinct(Progression(f, s0, ratio, k))
    requires f.mul(weight0, f.mul(f.OfNat(k), f.Pow(s0, k - 1))) == f.one
    ensures Weighted(f, Progression(f, s0, ratio, k), Progression(f, weight0, ratio, k))
  {
    hide OthersAt, Distinct, SamePower;
    var s, w := Progression(f, s0, ratio, k), Progression(f, weight0, ratio, k);
    ProgressionPower(f, s0, ratio, k);
    forall i | 0 <= i < k ensures f.mul(w[i], OthersAt(f, s, i, s[i], k)) == f.one {
      OthersAtPoint(f, s, i);
      OneWeight(f, s0, ratio, weight0, k, i);
    }
  }

  lemma OneWeight<T(!new)>(f: Field<T>, s0: T, ratio: T, weight0: T, k: nat, i: nat)
    requires IsField(f) && k > 0 && f.Pow(ratio, k) == f.one
    requires f.mul(weight0, f.mul(f.OfNat(k), f.Pow(s0, k - 1))) == f.one
    ensures var y := f.Pow(ratio, i);
            f.mul(f.mul(weight0, y), f.mul(f.OfNat(k), f.Pow(f.mul(s0, y), k - 1))) == f.one
  {
    var y := f.Pow(ratio, i);
    PowProduct(f, s0, y, k - 1);
    CollectWeights(f, weight0, y, f.OfNat(k), f.Pow(s0, k - 1), f.Pow(y, k - 1));
    RootPower(f, ratio, k, i);
    assert Laws(f, y, f.Pow(y, k - 1), y) && Laws(f, f.one, f.one, f.one);
    assert f.Pow(y, k) == f.mul(f.Pow(y, k - 1), y);
  }
}
