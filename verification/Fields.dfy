/** The field that bus values, challenges and circuit wires live in.

    The virtual machine works over an extension field `EF` supplied by a library.  Here a field
    is a record of operations together with the laws it obeys, so that every result holds for
    every field. */
module Fields {

  datatype Field<!T> = Field(
    zero: T,
    one: T,
    add: (T, T) -> T,
    neg: T -> T,
    mul: (T, T) -> T,
    inv: T -> T)
  {
    function Sub(x: T, y: T): T {
      add(x, neg(y))
    }

    /** The image of a small integer, as `EF::from(Felt::from_u32(n))`. */
    function OfNat(n: nat): T {
      if n == 0 then zero else add(OfNat(n - 1), one)
    }

    function Pow(x: T, n: nat): T {
      if n == 0 then one else mul(Pow(x, n - 1), x)
    }

    function Prod(s: seq<T>): T {
      if |s| == 0 then one else mul(Prod(s[..|s| - 1]), s[|s| - 1])
    }

    function Sum(s: seq<T>): T {
      if |s| == 0 then zero else add(Sum(s[..|s| - 1]), s[|s| - 1])
    }
  }

  /** The field laws at three elements.  `IsField` quantifies over this predicate, so that a proof
      names the elements it needs the laws for. */
  ghost predicate Laws<T>(f: Field<T>, x: T, y: T, z: T) {
    && f.add(x, y) == f.add(y, x)
    && f.add(f.add(x, y), z) == f.add(x, f.add(y, z))
    && f.add(x, f.zero) == x
    && f.add(x, f.neg(x)) == f.zero
    && f.mul(x, y) == f.mul(y, x)
    && f.mul(f.mul(x, y), z) == f.mul(x, f.mul(y, z))
    && f.mul(x, f.one) == x
    && f.mul(x, f.add(y, z)) == f.add(f.mul(x, y), f.mul(x, z))
    && (x != f.zero ==> f.mul(x, f.inv(x)) == f.one)
    && f.zero != f.one
  }

  ghost predicate IsField<T(!new)>(f: Field<T>) {
    forall x, y, z :: Laws(f, x, y, z)
  }

  lemma AddCancel<T(!new)>(f: Field<T>, x: T, y: T, z: T)
    requires IsField(f)
    ensures f.add(x, z) == f.add(y, z) <==> x == y
  {
    assert Laws(f, x, z, f.neg(z));
    assert Laws(f, y, z, f.neg(z));
    assert Laws(f, z, z, z);
  }

  lemma MulZero<T(!new)>(f: Field<T>, x: T)
    requires IsField(f)
    ensures f.mul(x, f.zero) == f.zero && f.mul(f.zero, x) == f.zero
  {
    var p := f.mul(x, f.zero);
    assert Laws(f, x, f.zero, f.zero);
    assert Laws(f, f.zero, x, x);
    assert Laws(f, p, p, p);
    AddCancel(f, p, f.zero, p);
    assert Laws(f, f.zero, p, p);
  }

  lemma SubZero<T(!new)>(f: Field<T>, x: T, y: T)
    requires IsField(f)
    ensures f.Sub(x, y) == f.zero <==> x == y
    ensures f.Sub(x, f.zero) == x
    ensures f.Sub(f.zero, x) == f.neg(x)
  {
    AddCancel(f, x, y, f.neg(y));
    assert Laws(f, y, y, y);
    assert Laws(f, f.zero, f.neg(f.zero), x);
    assert Laws(f, f.neg(f.zero), f.neg(f.zero), x);
    assert Laws(f, f.neg(x), f.zero, x);
    assert Laws(f, x, f.zero, x);
  }

  lemma NoZeroDivisors<T(!new)>(f: Field<T>, x: T, y: T)
    requires IsField(f)
    ensures f.mul(x, y) == f.zero <==> x == f.zero || y == f.zero
  {
    MulZero(f, x);
    MulZero(f, y);
    if x != f.zero && f.mul(x, y) == f.zero {
      MulZero(f, f.inv(x));
      assert Laws(f, f.inv(x), x, y);
      assert Laws(f, x, y, y);
      assert Laws(f, y, f.one, y);
    }
  }

  lemma InvUnique<T(!new)>(f: Field<T>, x: T, y: T)
    requires IsField(f)
    requires f.mul(x, y) == f.one
    ensures x != f.zero && y != f.zero && y == f.inv(x)
  {
    MulZero(f, x);
    MulZero(f, y);
    assert Laws(f, x, f.inv(x), y);
    assert Laws(f, y, x, f.inv(x));
    assert Laws(f, f.inv(x), f.one, y);
  }

  /** Four factors regrouped: `(a b)(c d) = (a c)(b d)`. */
  lemma MulMiddle<T(!new)>(f: Field<T>, a: T, b: T, c: T, d: T)
    requires IsField(f)
    ensures f.mul(f.mul(a, b), f.mul(c, d)) == f.mul(f.mul(a, c), f.mul(b, d))
  {
    assert Laws(f, a, b, f.mul(c, d));
    assert Laws(f, b, c, d);
    assert Laws(f, c, b, d);
    assert Laws(f, a, c, f.mul(b, d));
  }

  lemma AddMiddle<T(!new)>(f: Field<T>, a: T, b: T, c: T, d: T)
    requires IsField(f)
    ensures f.add(f.add(a, b), f.add(c, d)) == f.add(f.add(a, c), f.add(b, d))
  {
    assert Laws(f, a, b, f.add(c, d));
    assert Laws(f, b, c, d);
    assert Laws(f, c, b, d);
    assert Laws(f, a, c, f.add(b, d));
  }

  lemma NegUnique<T(!new)>(f: Field<T>, x: T, y: T)
    requires IsField(f)
    ensures f.add(x, y) == f.zero <==> y == f.neg(x)
  {
    assert Laws(f, x, y, f.neg(x));
    assert Laws(f, y, x, f.neg(x));
    AddCancel(f, y, f.neg(x), x);
    assert Laws(f, f.neg(x), x, x);
  }

  lemma SubAdd<T(!new)>(f: Field<T>, a: T, b: T, c: T, d: T)
    requires IsField(f)
    ensures f.Sub(f.add(a, b), f.add(c, d)) == f.add(f.Sub(a, c), f.Sub(b, d))
  {
    AddMiddle(f, a, b, f.neg(c), f.neg(d));
    AddMiddle(f, c, d, f.neg(c), f.neg(d));
    assert Laws(f, c, d, d) && Laws(f, d, c, c) && Laws(f, f.zero, d, d);
    NegUnique(f, f.add(c, d), f.add(f.neg(c), f.neg(d)));
  }

  lemma MulSub<T(!new)>(f: Field<T>, x: T, a: T, b: T)
    requires IsField(f)
    ensures f.mul(x, f.Sub(a, b)) == f.Sub(f.mul(x, a), f.mul(x, b))
  {
    assert Laws(f, x, a, f.neg(b));
    assert Laws(f, x, b, f.neg(b));
    assert Laws(f, b, b, b);
    MulZero(f, x);
    NegUnique(f, f.mul(x, b), f.mul(x, f.neg(b)));
  }

  /** Cancelling an invertible factor on the right. */
  lemma MulCancel<T(!new)>(f: Field<T>, x: T, y: T, z: T)
    requires IsField(f) && z != f.zero
    ensures f.mul(x, z) == f.mul(y, z) <==> x == y
  {
    assert Laws(f, x, z, f.inv(z));
    assert Laws(f, y, z, f.inv(z));
    assert Laws(f, z, z, z);
  }

  lemma {:induction false} OfNatSum<T(!new)>(f: Field<T>, a: nat, b: nat)
    requires IsField(f)
    ensures f.OfNat(a + b) == f.add(f.OfNat(a), f.OfNat(b))
  {
    if b == 0 {
      assert Laws(f, f.OfNat(a), f.zero, f.zero);
    } else {
      OfNatSum(f, a, b - 1);
      assert Laws(f, f.OfNat(a), f.OfNat(b - 1), f.one);
    }
  }

  // Products and sums over sequences

  lemma {:induction false} ProdConcat<T(!new)>(f: Field<T>, s: seq<T>, t: seq<T>)
    requires IsField(f)
    ensures f.Prod(s + t) == f.mul(f.Prod(s), f.Prod(t))
  {
    if |t| == 0 {
      assert s + t == s;
      assert Laws(f, f.Prod(s), f.one, f.one);
    } else {
      var n := |t| - 1;
      assert (s + t)[..|s + t| - 1] == s + t[..n];
      ProdConcat(f, s, t[..n]);
      assert Laws(f, f.Prod(s), f.Prod(t[..n]), t[n]);
    }
  }

  lemma {:induction false} SumConcat<T(!new)>(f: Field<T>, s: seq<T>, t: seq<T>)
    requires IsField(f)
    ensures f.Sum(s + t) == f.add(f.Sum(s), f.Sum(t))
  {
    if |t| == 0 {
      assert s + t == s;
      assert Laws(f, f.Sum(s), f.one, f.one);
    } else {
      var n := |t| - 1;
      assert (s + t)[..|s + t| - 1] == s + t[..n];
      SumConcat(f, s, t[..n]);
      assert Laws(f, f.Sum(s), f.Sum(t[..n]), t[n]);
    }
  }

  lemma ProdSingle<T(!new)>(f: Field<T>, x: T)
    requires IsField(f)
    ensures f.Prod([x]) == x
  {
    assert Laws(f, x, f.one, x);
    assert [x][..0] == [];
  }

  /** A product of field elements vanishes exactly when one of the factors does. */
  lemma {:induction false} ProdZero<T(!new)>(f: Field<T>, s: seq<T>)
    requires IsField(f)
    ensures f.Prod(s) == f.zero <==> f.zero in s
  {
    assert Laws(f, f.zero, f.one, f.one);
    if |s| > 0 {
      var n := |s| - 1;
      ProdZero(f, s[..n]);
      NoZeroDivisors(f, f.Prod(s[..n]), s[n]);
      assert s == s[..n] + [s[n]];
    }
  }

  /** Pulling one factor to the end of a product. */
  lemma ProdRemove<T(!new)>(f: Field<T>, s: seq<T>, k: nat)
    requires IsField(f) && k < |s|
    ensures f.Prod(s) == f.mul(f.Prod(s[..k] + s[k + 1..]), s[k])
    ensures multiset(s[..k] + s[k + 1..]) == multiset(s) - multiset{s[k]}
  {
    var l, r, x := s[..k], s[k + 1..], s[k];
    assert s == (l + [x]) + r;
    ProdConcat(f, l + [x], r);
    ProdConcat(f, l, [x]);
    ProdSingle(f, x);
    ProdConcat(f, l, r);
    assert Laws(f, f.Prod(l), x, f.Prod(r));
    assert Laws(f, x, f.Prod(r), x);
    assert Laws(f, f.Prod(l), f.Prod(r), x);
  }

  /** A product depends only on the multiset of its factors. */
  lemma {:induction false} ProdPermutation<T(!new)>(f: Field<T>, s: seq<T>, t: seq<T>)
    requires IsField(f)
    requires multiset(s) == multiset(t)
    ensures f.Prod(s) == f.Prod(t)
    decreases |s|
  {
    assert |multiset(s)| == |s| && |multiset(t)| == |t|;
    if |s| > 0 {
      var n := |s| - 1;
      var x := s[n];
      assert x in multiset(t);
      var k :| 0 <= k < |t| && t[k] == x;
      ProdRemove(f, t, k);
      assert s == s[..n] + [x];
      ProdPermutation(f, s[..n], t[..k] + t[k + 1..]);
    }
  }
}
