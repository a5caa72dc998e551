/** Fermat's little theorem for a finite field given by the list of its nonzero elements. */
module Fermat {
  import opened Fields

  /** The list holds every nonzero element, once. */
  ghost predicate Units<T(!new)>(f: Field<T>, units: seq<T>) {
    && (forall x :: x in units <==> x != f.zero)
    && NoRepeats(units)
  }

  ghost predicate NoRepeats<T>(s: seq<T>) {
    forall i, j :: 0 <= i < j < |s| ==> s[i] != s[j]
  }

  function Scaled<T>(f: Field<T>, x: T, s: seq<T>): (t: seq<T>)
    ensures |t| == |s| && forall i :: 0 <= i < |s| ==> t[i] == f.mul(x, s[i])
  {
    seq(|s|, i requires 0 <= i < |s| => f.mul(x, s[i]))
  }

  ghost function Elements<T>(s: seq<T>): set<T> {
    set x | x in s
  }

  lemma {:induction false} ElementsCount<T>(s: seq<T>)
    requires NoRepeats(s)
    ensures |Elements(s)| == |s| && forall x :: multiset(s)[x] == if x in s then 1 else 0
  {
    if |s| == 0 {
      assert Elements(s) == {};
    } else {
      var n := |s| - 1;
      ElementsCount(s[..n]);
      assert s == s[..n] + [s[n]];
      assert Elements(s) == Elements(s[..n]) + {s[n]};
      assert s[n] !in s[..n];
    }
  }

  lemma SubsetOfSameSize<T>(s: set<T>, t: set<T>)
    requires s <= t && |s| == |t|
    ensures s == t
  {
    assert t == s + (t - s);
  }

  lemma SamePermutation<T>(s: seq<T>, t: seq<T>)
    requires NoRepeats(s) && NoRepeats(t) && |s| == |t| && forall x :: x in s ==> x in t
    ensures multiset(s) == multiset(t)
  {
    ElementsCount(s);
    ElementsCount(t);
    SubsetOfSameSize(Elements(s), Elements(t));
    forall x ensures multiset(s)[x] == multiset(t)[x] {
      assert x in s <==> x in Elements(s);
      assert x in t <==> x in Elements(t);
    }
  }

  /** Multiplying by a nonzero element permutes the nonzero elements. */
  lemma ScalingPermutes<T(!new)>(f: Field<T>, x: T, units: seq<T>)
    requires IsField(f) && Units(f, units) && x != f.zero
    ensures multiset(Scaled(f, x, units)) == multiset(units)
  {
    var t := Scaled(f, x, units);
    forall i, j | 0 <= i < j < |t| ensures t[i] != t[j] {
      MulCancel(f, units[i], units[j], x);
      assert Laws(f, x, units[i], x) && Laws(f, x, units[j], x);
    }
    forall y | y in t ensures y in units {
      var i :| 0 <= i < |t| && t[i] == y;
      assert units[i] in units;
      NoZeroDivisors(f, x, units[i]);
    }
    SamePermutation(t, units);
  }

  lemma {:induction false} ScaledProduct<T(!new)>(f: Field<T>, x: T, s: seq<T>)
    requires IsField(f)
    ensures f.Prod(Scaled(f, x, s)) == f.mul(f.Pow(x, |s|), f.Prod(s))
  {
    if |s| == 0 {
      assert Laws(f, f.one, f.one, f.one);
    } else {
      var n := |s| - 1;
      ScaledProduct(f, x, s[..n]);
      assert Scaled(f, x, s)[..n] == Scaled(f, x, s[..n]);
      MulMiddle(f, f.Pow(x, n), f.Prod(s[..n]), x, s[n]);
    }
  }

  /** A nonzero element to the number of nonzero elements is one. */
  lemma LittleTheorem<T(!new)>(f: Field<T>, x: T, units: seq<T>)
    requires IsField(f) && Units(f, units) && x != f.zero
    ensures f.Pow(x, |units|) == f.one
  {
    ScalingPermutes(f, x, units);
    ProdPermutation(f, Scaled(f, x, units), units);
    ScaledProduct(f, x, units);
    ProdZero(f, units);
    var p := f.Prod(units);
    assert Laws(f, p, f.one, p) && Laws(f, f.one, p, p);
    MulCancel(f, f.Pow(x, |units|), f.one, p);
  }
}
