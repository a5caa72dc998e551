/** Products of linear factors as polynomials, and at how many points two such products can agree. */
module GrandProducts {
  import opened Common
  import opened Fields
  import opened Polynomials

  lemma Without<X>(s: seq<X>, k: nat)
    requires k < |s|
    ensures multiset(s[..k] + s[k + 1..]) == multiset(s) - multiset{s[k]}
  {
    assert s == s[..k] + [s[k]] + s[k + 1..];
  }

  // Grand products as polynomials

  function Shifted<T>(f: Field<T>, x: T, s: seq<T>): (t: seq<T>)
    ensures |t| == |s| && forall i :: 0 <= i < |s| ==> t[i] == f.add(x, s[i])
  {
    seq(|s|, i requires 0 <= i < |s| => f.add(x, s[i]))
  }

  /** The coefficients of `(X + r) c`. */
  function TimesLinear<T>(f: Field<T>, c: seq<T>, r: T): (d: seq<T>)
    ensures |d| == |c| + 1
  {
    if |c| == 0 then [f.zero]
    else
      var rest := TimesLinear(f, c[1..], r);
      [f.mul(r, c[0])] + rest[0 := f.add(c[0], rest[0])]
  }

  /** The coefficients of the product of `X + s[i]`. */
  function Expand<T>(f: Field<T>, s: seq<T>): (c: seq<T>)
    ensures |c| == |s| + 1
  {
    if |s| == 0 then [f.one] else TimesLinear(f, Expand(f, s[..|s| - 1]), s[|s| - 1])
  }

  lemma HornerBump<T(!new)>(f: Field<T>, d: seq<T>, c: T, x: T)
    requires IsField(f) && |d| > 0
    ensures Horner(f, d[0 := f.add(c, d[0])], x) == f.add(c, Horner(f, d, x))
  {
    assert d[0 := f.add(c, d[0])][1..] == d[1..];
    assert Laws(f, c, d[0], f.mul(x, Horner(f, d[1..], x)));
  }

  /** `r c + x (c + (x + r) h) = (x + r)(c + x h)` */
  lemma LinearStep<T(!new)>(f: Field<T>, x: T, r: T, c: T, h: T)
    requires IsField(f)
    ensures f.add(f.mul(r, c), f.mul(x, f.add(c, f.mul(f.add(x, r), h)))) == f.mul(f.add(x, r), f.add(c, f.mul(x, h)))
  {
    var y := f.add(x, r);
    assert Laws(f, y, c, f.mul(x, h));
    assert Laws(f, c, x, r) && Laws(f, y, c, c) && Laws(f, x, c, c) && Laws(f, r, c, c);
    assert Laws(f, y, x, h) && Laws(f, x, y, h) && Laws(f, y, x, x);
    assert Laws(f, x, c, f.mul(y, h));
    var xc, rc, w := f.mul(x, c), f.mul(r, c), f.mul(x, f.mul(y, h));
    assert Laws(f, rc, xc, w) && Laws(f, xc, rc, w);
  }

  lemma {:induction false} TimesLinearValue<T(!new)>(f: Field<T>, c: seq<T>, r: T, x: T)
    requires IsField(f)
    ensures Horner(f, TimesLinear(f, c, r), x) == f.mul(f.add(x, r), Horner(f, c, x))
    decreases |c|
  {
    if |c| == 0 {
      MulZero(f, f.add(x, r));
      MulZero(f, x);
      assert Laws(f, f.zero, f.zero, f.zero);
      assert [f.zero][1..] == [];
    } else {
      TimesLinearValue(f, c[1..], r, x);
      var rest := TimesLinear(f, c[1..], r);
      var tail := rest[0 := f.add(c[0], rest[0])];
      HornerBump(f, rest, c[0], x);
      assert ([f.mul(r, c[0])] + tail)[1..] == tail;
      LinearStep(f, x, r, c[0], Horner(f, c[1..], x));
    }
  }

  lemma {:induction false} ExpandValue<T(!new)>(f: Field<T>, s: seq<T>, x: T)
    requires IsField(f)
    ensures Poly(f, Expand(f, s), x) == f.Prod(Shifted(f, x, s))
  {
    if |s| == 0 {
      PolyConstant(f, f.one, x);
    } else {
      var n := |s| - 1;
      ExpandValue(f, s[..n], x);
      PolyIsHorner(f, Expand(f, s[..n]), x);
      PolyIsHorner(f, Expand(f, s), x);
      TimesLinearValue(f, Expand(f, s[..n]), s[n], x);
      assert Shifted(f, x, s)[..n] == Shifted(f, x, s[..n]);
      assert Laws(f, f.add(x, s[n]), f.Prod(Shifted(f, x, s[..n])), f.one);
    }
  }

  /** `Expand`, padded to a common length. */
  function Padded<T>(f: Field<T>, s: seq<T>, n: nat): (c: seq<T>)
    requires |s| <= n
    ensures |c| == n + 1
  {
    Expand(f, s) + Zeros(f, n - |s|)
  }

  lemma PaddedValue<T(!new)>(f: Field<T>, s: seq<T>, n: nat, x: T)
    requires IsField(f) && |s| <= n
    ensures Poly(f, Padded(f, s, n), x) == f.Prod(Shifted(f, x, s))
  {
    PolyTrailingZeros(f, Expand(f, s), n - |s|, x);
    ExpandValue(f, s, x);
  }

  lemma ShiftedZero<T(!new)>(f: Field<T>, s: seq<T>, m: T)
    requires IsField(f)
    ensures f.Prod(Shifted(f, f.neg(m), s)) == f.zero <==> m in s
  {
    var t := Shifted(f, f.neg(m), s);
    ProdZero(f, t);
    forall i | 0 <= i < |s| ensures t[i] == f.zero <==> s[i] == m {
      assert Laws(f, f.neg(m), m, m) && Laws(f, m, f.neg(m), m) && Laws(f, f.neg(m), s[i], m);
      AddCancel(f, s[i], m, f.neg(m));
      assert Laws(f, s[i], f.neg(m), m);
    }
    if m in s {
      var i :| 0 <= i < |s| && s[i] == m;
      assert t[i] == f.zero;
    }
  }

  /** Lists with no element in common: their products agree at few points. */
  lemma DisjointBound<T(!new)>(f: Field<T>, a: seq<T>, b: seq<T>, points: set<T>)
    requires IsField(f) && |a| > 0
    requires forall x :: x in a ==> x !in b
    requires forall x :: x in points ==> f.Prod(Shifted(f, x, a)) == f.Prod(Shifted(f, x, b))
    ensures |points| <= Max(|a|, |b|)
  {
    var n := Max(|a|, |b|);
    var ca, cb := Padded(f, a, n), Padded(f, b, n);
    var d := PolyDiff(f, ca, cb);
    DiffValue(f, a, b, n, f.neg(a[0]));
    ShiftedZero(f, a, a[0]);
    ShiftedZero(f, b, a[0]);
    NonzeroSomewhere(f, d, f.neg(a[0]));
    forall x | x in points ensures Poly(f, d, x) == f.zero {
      DiffValue(f, a, b, n, x);
    }
    RootBound(f, d, points);
  }

  lemma DiffValue<T(!new)>(f: Field<T>, a: seq<T>, b: seq<T>, n: nat, x: T)
    requires IsField(f) && |a| <= n && |b| <= n
    ensures Poly(f, PolyDiff(f, Padded(f, a, n), Padded(f, b, n)), x) == f.zero
            <==> f.Prod(Shifted(f, x, a)) == f.Prod(Shifted(f, x, b))
  {
    PaddedValue(f, a, n, x);
    PaddedValue(f, b, n, x);
    PolySubtract(f, Padded(f, a, n), Padded(f, b, n), x);
    SubZero(f, f.Prod(Shifted(f, x, a)), f.Prod(Shifted(f, x, b)));
  }

  lemma NonzeroSomewhere<T(!new)>(f: Field<T>, d: seq<T>, x: T)
    requires IsField(f) && Poly(f, d, x) != f.zero
    ensures exists i :: 0 <= i < |d| && d[i] != f.zero
  {
    if forall i :: 0 <= i < |d| ==> d[i] == f.zero {
      assert d == Zeros(f, |d|);
      PolyZeros(f, |d|, x);
    }
  }

  /** Different multisets have products that agree at no more points than they have elements. */
  lemma {:induction false} GrandProductBound<T(!new)>(f: Field<T>, a: seq<T>, b: seq<T>, points: set<T>)
    requires IsField(f) && multiset(a) != multiset(b)
    requires forall x :: x in points ==> f.Prod(Shifted(f, x, a)) == f.Prod(Shifted(f, x, b))
    ensures |points| <= Max(|a|, |b|)
    decreases |a|
  {
    assert |a| == 0 && |b| == 0 ==> a == b;
    if i, j :| 0 <= i < |a| && 0 <= j < |b| && a[i] == b[j] {
      var gone := f.neg(a[i]);
      Without(a, i);
      Without(b, j);
      DropCommon(a, b, a[i]);
      CancelEverywhere(f, a, i, b, j, points - {gone});
      GrandProductBound(f, a[..i] + a[i + 1..], b[..j] + b[j + 1..], points - {gone});
      OneLess(points, gone);
    } else if |a| > 0 {
      DisjointBound(f, a, b, points);
    } else {
      DisjointBound(f, b, a, points);
    }
  }

  lemma DropCommon<X>(a: seq<X>, b: seq<X>, m: X)
    requires m in a && m in b && multiset(a) != multiset(b)
    ensures multiset(a) - multiset{m} != multiset(b) - multiset{m}
  {
    assert multiset(a) == multiset(a) - multiset{m} + multiset{m};
    assert multiset(b) == multiset(b) - multiset{m} + multiset{m};
  }

  lemma SubsetSize<X>(s: set<X>, t: set<X>)
    requires s <= t
    ensures |s| <= |t|
  {
    assert t == s + (t - s);
  }

  lemma OneLess<X>(s: set<X>, x: X)
    ensures |s| <= |s - {x}| + 1
  {
    SubsetSize(s, s - {x} + {x});
  }

  lemma CancelEverywhere<T(!new)>(f: Field<T>, a: seq<T>, i: nat, b: seq<T>, j: nat, points: set<T>)
    requires IsField(f) && i < |a| && j < |b| && a[i] == b[j] && f.neg(a[i]) !in points
    requires forall x :: x in points ==> f.Prod(Shifted(f, x, a)) == f.Prod(Shifted(f, x, b))
    ensures forall x :: x in points ==>
              f.Prod(Shifted(f, x, a[..i] + a[i + 1..])) == f.Prod(Shifted(f, x, b[..j] + b[j + 1..]))
  {
    forall x | x in points ensures f.Prod(Shifted(f, x, a[..i] + a[i + 1..])) == f.Prod(Shifted(f, x, b[..j] + b[j + 1..])) {
      CancelCommon(f, a, i, b, j, x);
    }
  }

  lemma ShiftedRemove<T(!new)>(f: Field<T>, s: seq<T>, i: nat, x: T)
    requires IsField(f) && i < |s|
    ensures f.Prod(Shifted(f, x, s)) == f.mul(f.Prod(Shifted(f, x, s[..i] + s[i + 1..])), f.add(x, s[i]))
  {
    var t := Shifted(f, x, s);
    ProdRemove(f, t, i);
    assert Shifted(f, x, s[..i] + s[i + 1..]) == t[..i] + t[i + 1..];
  }

  lemma CancelCommon<T(!new)>(f: Field<T>, a: seq<T>, i: nat, b: seq<T>, j: nat, x: T)
    requires IsField(f) && i < |a| && j < |b| && a[i] == b[j] && x != f.neg(a[i])
    requires f.Prod(Shifted(f, x, a)) == f.Prod(Shifted(f, x, b))
    ensures f.Prod(Shifted(f, x, a[..i] + a[i + 1..])) == f.Prod(Shifted(f, x, b[..j] + b[j + 1..]))
  {
    hide Shifted;
    ShiftedRemove(f, a, i, x);
    ShiftedRemove(f, b, j, x);
    NegUnique(f, a[i], x);
    assert Laws(f, x, a[i], x);
    MulCancel(f, f.Prod(Shifted(f, x, a[..i] + a[i + 1..])), f.Prod(Shifted(f, x, b[..j] + b[j + 1..])),
              f.add(x, a[i]));
  }
}
