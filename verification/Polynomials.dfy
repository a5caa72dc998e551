/** Polynomials over a field, given by their coefficients with the constant term first. */
module Polynomials {
  import opened Fields

  function Poly<T>(f: Field<T>, s: seq<T>, x: T): T {
    if |s| == 0 then f.zero
    else f.add(Poly(f, s[..|s| - 1], x), f.mul(f.Pow(x, |s| - 1), s[|s| - 1]))
  }

  function Zeros<T>(f: Field<T>, n: nat): (s: seq<T>)
    ensures |s| == n && forall i :: 0 <= i < n ==> s[i] == f.zero
  {
    seq(n, _ => f.zero)
  }

  lemma {:induction false} PolyTrailingZeros<T(!new)>(f: Field<T>, s: seq<T>, n: nat, x: T)
    requires IsField(f)
    ensures Poly(f, s + Zeros(f, n), x) == Poly(f, s, x)
  {
    if n == 0 {
      assert s + Zeros(f, n) == s;
    } else {
      var t := s + Zeros(f, n);
      assert t[..|t| - 1] == s + Zeros(f, n - 1);
      PolyTrailingZeros(f, s, n - 1, x);
      MulZero(f, f.Pow(x, |t| - 1));
      assert Laws(f, Poly(f, s, x), x, x);
    }
  }

  lemma PolyZeros<T(!new)>(f: Field<T>, n: nat, x: T)
    requires IsField(f)
    ensures Poly(f, Zeros(f, n), x) == f.zero
  {
    PolyTrailingZeros(f, [], n, x);
    assert [] + Zeros(f, n) == Zeros(f, n);
  }

  /** `p + (t + b) = (p + t) + b` and `(p + b) + t = (p + t) + b`. */
  lemma AddShuffle<T(!new)>(f: Field<T>, p: T, t: T, b: T)
    requires IsField(f)
    ensures f.add(p, f.add(t, b)) == f.add(f.add(p, t), b)
    ensures f.add(f.add(p, b), t) == f.add(f.add(p, t), b)
  {
    assert Laws(f, p, t, b);
    assert Laws(f, p, b, t);
    assert Laws(f, b, t, p);
  }

  /** Adding `v` to coefficient `k` adds `v x^k` to the value. */
  lemma {:induction false} PolyBump<T(!new)>(f: Field<T>, s: seq<T>, k: nat, v: T, x: T)
    requires IsField(f) && k < |s|
    ensures Poly(f, s[k := f.add(s[k], v)], x) == f.add(Poly(f, s, x), f.mul(f.Pow(x, k), v))
  {
    var n := |s| - 1;
    var c := f.add(s[k], v);
    if k == n {
      assert s[k := c][..n] == s[..n];
      assert Laws(f, f.Pow(x, n), s[n], v);
      AddShuffle(f, Poly(f, s[..n], x), f.mul(f.Pow(x, n), s[n]), f.mul(f.Pow(x, n), v));
    } else {
      PolyBump(f, s[..n], k, v, x);
      assert s[k := c][..n] == s[..n][k := c];
      AddShuffle(f, Poly(f, s[..n], x), f.mul(f.Pow(x, n), s[n]), f.mul(f.Pow(x, k), v));
    }
  }

  function PolyDiff<T>(f: Field<T>, s: seq<T>, t: seq<T>): (d: seq<T>)
    requires |s| == |t|
    ensures |d| == |s| && forall i :: 0 <= i < |s| ==> d[i] == f.Sub(s[i], t[i])
  {
    seq(|s|, i requires 0 <= i < |s| => f.Sub(s[i], t[i]))
  }

  lemma {:induction false} PolySubtract<T(!new)>(f: Field<T>, s: seq<T>, t: seq<T>, x: T)
    requires IsField(f) && |s| == |t|
    ensures Poly(f, PolyDiff(f, s, t), x) == f.Sub(Poly(f, s, x), Poly(f, t, x))
  {
    if |s| == 0 {
      assert Laws(f, f.zero, f.zero, f.zero);
    } else {
      var n := |s| - 1;
      PolySubtract(f, s[..n], t[..n], x);
      var d := PolyDiff(f, s, t);
      assert d[..n] == PolyDiff(f, s[..n], t[..n]);
      assert Poly(f, d, x) == f.add(Poly(f, d[..n], x), f.mul(f.Pow(x, n), f.Sub(s[n], t[n])));
      SubAdd(f, Poly(f, s[..n], x), f.mul(f.Pow(x, n), s[n]), Poly(f, t[..n], x), f.mul(f.Pow(x, n), t[n]));
      MulSub(f, f.Pow(x, n), s[n], t[n]);
    }
  }

  // Horner form and division by a linear factor

  function Horner<T>(f: Field<T>, s: seq<T>, x: T): T {
    if |s| == 0 then f.zero else f.add(s[0], f.mul(x, Horner(f, s[1..], x)))
  }

  lemma {:induction false} HornerAppend<T(!new)>(f: Field<T>, s: seq<T>, c: T, x: T)
    requires IsField(f)
    ensures Horner(f, s + [c], x) == f.add(Horner(f, s, x), f.mul(f.Pow(x, |s|), c))
  {
    if |s| == 0 {
      assert (s + [c])[1..] == [];
      MulZero(f, x);
      assert Laws(f, c, f.one, f.zero);
      assert Laws(f, f.zero, c, c);
    } else {
      var r := s[1..];
      assert (s + [c])[1..] == r + [c];
      HornerAppend(f, r, c, x);
      var h, p := Horner(f, r, x), f.Pow(x, |r|);
      assert Laws(f, x, h, f.mul(p, c));
      assert Laws(f, x, p, c);
      assert Laws(f, s[0], f.mul(x, h), f.mul(x, f.mul(p, c)));
    }
  }

  lemma {:induction false} PolyIsHorner<T(!new)>(f: Field<T>, s: seq<T>, x: T)
    requires IsField(f)
    ensures Poly(f, s, x) == Horner(f, s, x)
  {
    if |s| > 0 {
      var n := |s| - 1;
      PolyIsHorner(f, s[..n], x);
      HornerAppend(f, s[..n], s[n], x);
      assert s == s[..n] + [s[n]];
    }
  }

  /** The quotient of a polynomial by `x - r`. */
  function Quotient<T>(f: Field<T>, s: seq<T>, r: T): (q: seq<T>)
    ensures |q| == if |s| == 0 then 0 else |s| - 1
  {
    if |s| <= 1 then [] else [Horner(f, s[1..], r)] + Quotient(f, s[1..], r)
  }

  lemma {:induction false} QuotientCorrect<T(!new)>(f: Field<T>, s: seq<T>, r: T, x: T)
    requires IsField(f)
    ensures Horner(f, s, x) == f.add(Horner(f, s, r), f.mul(f.Sub(x, r), Horner(f, Quotient(f, s, r), x)))
  {
    if |s| <= 1 {
      MulZero(f, f.Sub(x, r));
      MulZero(f, x);
      MulZero(f, r);
      assert Laws(f, Horner(f, s, r), f.zero, f.zero);
      assert |s| == 1 ==> s[1..] == [];
    } else {
      var t := s[1..];
      QuotientCorrect(f, t, r, x);
      var q := Quotient(f, s, r);
      assert q[0] == Horner(f, t, r) && q[1..] == Quotient(f, t, r);
      DivisionStep(f, s[0], x, r, Horner(f, t, r), Horner(f, q[1..], x));
    }
  }

  /** `c + x (h + (x - r) q) = (c + r h) + (x - r)(h + x q)`. */
  lemma DivisionStep<T(!new)>(f: Field<T>, c: T, x: T, r: T, h: T, q: T)
    requires IsField(f)
    ensures f.add(c, f.mul(x, f.add(h, f.mul(f.Sub(x, r), q))))
         == f.add(f.add(c, f.mul(r, h)), f.mul(f.Sub(x, r), f.add(h, f.mul(x, q))))
  {
    var d := f.Sub(x, r);
    var dq, rh, dh, xh := f.mul(d, q), f.mul(r, h), f.mul(d, h), f.mul(x, h);
    var xdq, dxq := f.mul(x, dq), f.mul(d, f.mul(x, q));
    assert Laws(f, x, h, dq);
    assert xdq == dxq by {
      assert Laws(f, x, d, q);
      assert Laws(f, d, x, q);
    }
    assert xh == f.add(rh, dh) by {
      assert f.add(r, d) == x by {
        assert Laws(f, x, f.neg(r), r);
        assert Laws(f, r, d, r);
        assert Laws(f, f.neg(r), r, r);
        assert Laws(f, x, r, r);
      }
      assert Laws(f, h, r, d);
      assert Laws(f, h, x, d);
      assert Laws(f, r, h, d);
      assert Laws(f, d, h, d);
    }
    assert Laws(f, d, h, f.mul(x, q));
    assert Laws(f, rh, dh, dxq);
    assert Laws(f, c, rh, f.add(dh, dxq));
  }

  lemma {:induction false} QuotientLeading<T(!new)>(f: Field<T>, s: seq<T>, r: T)
    requires IsField(f) && |s| >= 2
    ensures Quotient(f, s, r)[|s| - 2] == s[|s| - 1]
  {
    if |s| == 2 {
      assert s[1..] == [s[1]] && s[1..][1..] == [];
      assert Horner(f, s[1..], r) == f.add(s[1], f.mul(r, f.zero));
      MulZero(f, r);
      assert Laws(f, s[1], f.zero, f.zero);
    } else {
      QuotientLeading(f, s[1..], r);
    }
  }

  lemma PolyConstant<T(!new)>(f: Field<T>, c: T, x: T)
    requires IsField(f)
    ensures Poly(f, [c], x) == c
  {
    assert [c][..0] == [];
    assert Laws(f, c, f.one, f.zero) && Laws(f, f.zero, c, c);
  }

  /** A polynomial with a nonzero coefficient has fewer roots than coefficients. */
  lemma {:induction false} RootBound<T(!new)>(f: Field<T>, s: seq<T>, roots: set<T>)
    requires IsField(f)
    requires exists i :: 0 <= i < |s| && s[i] != f.zero
    requires forall x :: x in roots ==> Poly(f, s, x) == f.zero
    ensures |roots| < |s|
    decreases |s|
  {
    var n := |s| - 1;
    if s[n] == f.zero {
      forall x | x in roots
        ensures Poly(f, s[..n], x) == f.zero
      {
        PolyTrailingZeros(f, s[..n], 1, x);
        assert s == s[..n] + Zeros(f, 1);
      }
      RootBound(f, s[..n], roots);
    } else if n == 0 {
      assert s == [s[0]];
      forall r | r in roots ensures false { PolyConstant(f, s[0], r); }
    } else if roots != {} {
      var r :| r in roots;
      var q := Quotient(f, s, r);
      QuotientLeading(f, s, r);
      forall x | x in roots - {r}
        ensures Poly(f, q, x) == f.zero
      {
        PolyIsHorner(f, s, x);
        PolyIsHorner(f, s, r);
        PolyIsHorner(f, q, x);
        QuotientCorrect(f, s, r, x);
        var p := f.mul(f.Sub(x, r), Horner(f, q, x));
        assert Laws(f, f.zero, p, p) && Laws(f, p, f.zero, p);
        NoZeroDivisors(f, f.Sub(x, r), Horner(f, q, x));
        SubZero(f, x, r);
      }
      RootBound(f, q, roots - {r});
    }
  }
}
