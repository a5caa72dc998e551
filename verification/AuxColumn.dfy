/** Auxiliary bus columns: running products of responses over requests, computed with one inversion
    (miden-vm/processor/src/trace/utils.rs). */
module AuxColumn {
  import opened Common
  import opened Fields

  /** `s / t`, for a product `t` that does not vanish. */
  function Ratio<T>(f: Field<T>, s: seq<T>, t: seq<T>): T {
    f.mul(f.Prod(s), f.inv(f.Prod(t)))
  }

  lemma RatioUnique<T(!new)>(f: Field<T>, s: seq<T>, t: seq<T>, x: T)
    requires IsField(f) && f.zero !in t
    ensures x == Ratio(f, s, t) <==> f.mul(x, f.Prod(t)) == f.Prod(s)
  {
    var p, q := f.Prod(s), f.Prod(t);
    ProdZero(f, t);
    assert Laws(f, p, f.inv(q), q) && Laws(f, f.inv(q), q, q) && Laws(f, q, f.inv(q), q) && Laws(f, p, f.one, p);
    MulCancel(f, x, Ratio(f, s, t), q);
  }

  lemma PrefixNonzero<T(!new)>(f: Field<T>, s: seq<T>, n: nat)
    requires IsField(f) && n <= |s| && f.zero !in s
    ensures f.zero !in s[..n] && f.Prod(s[..n]) != f.zero
  {
    ProdZero(f, s[..n]);
  }

  /** The product of the first `n` factors. */
  function Upto<T>(f: Field<T>, s: seq<T>, n: nat): T
    requires n <= |s|
  {
    f.Prod(s[..n])
  }

  lemma UptoEnds<T>(f: Field<T>, s: seq<T>)
    ensures Upto(f, s, 0) == f.one && Upto(f, s, |s|) == f.Prod(s)
  {
    assert s[..|s|] == s;
  }

  lemma UptoNext<T>(f: Field<T>, s: seq<T>, n: nat)
    requires n < |s|
    ensures Upto(f, s, n + 1) == f.mul(Upto(f, s, n), s[n])
  {
    assert s[..n + 1][..n] == s[..n];
  }

  function Quot<T>(f: Field<T>, responses: seq<T>, requests: seq<T>, n: nat): T
    requires n <= |responses| == |requests|
  {
    Ratio(f, responses[..n], requests[..n])
  }

  lemma QuotIs<T(!new)>(f: Field<T>, responses: seq<T>, requests: seq<T>, n: nat, inverse: T)
    requires IsField(f) && n <= |responses| == |requests| && f.mul(inverse, Upto(f, requests, n)) == f.one
    ensures f.mul(Upto(f, responses, n), inverse) == Quot(f, responses, requests, n)
  {
    var q := Upto(f, requests, n);
    assert Laws(f, inverse, q, q);
    InvUnique(f, q, inverse);
  }

  /** One step back: from the inverse of a product to the inverse of the product without its last factor. */
  lemma InverseBack<T(!new)>(f: Field<T>, s: seq<T>, n: nat, d: T)
    requires IsField(f) && n < |s| && f.mul(d, Upto(f, s, n + 1)) == f.one
    ensures f.mul(f.mul(d, s[n]), Upto(f, s, n)) == f.one
  {
    UptoNext(f, s, n);
    var q, x := Upto(f, s, n), s[n];
    assert Laws(f, q, x, x);
    assert Laws(f, d, x, q);
  }

  /** The first pass: products of all response prefixes, the requests shifted by one row, and the product of
      all requests. */
  method Accumulate<T>(f: Field<T>, responses: seq<T>, requests: seq<T>, column: array<T>, divisors: array<T>)
    returns (requestsProduct: T)
    requires |responses| == |requests| && column.Length == divisors.Length == |responses| + 1 && column != divisors
    requires column[0] == f.one && divisors[0] == f.one
    modifies column, divisors
    ensures divisors[0] == f.one && forall j :: 0 < j <= |requests| ==> divisors[j] == requests[j - 1]
    ensures forall j :: 0 <= j <= |responses| ==> column[j] == Upto(f, responses, j)
    ensures requestsProduct == f.Prod(requests)
  {
    hide Upto;
    UptoEnds(f, requests);
    UptoEnds(f, responses);
    requestsProduct := f.one;
    var responsesProduct := f.one;
    for i := 0 to |responses|
      invariant divisors[0] == f.one && forall j :: 0 < j <= i ==> divisors[j] == requests[j - 1]
      invariant forall j :: 0 <= j <= i ==> column[j] == Upto(f, responses, j)
      invariant requestsProduct == Upto(f, requests, i) && responsesProduct == Upto(f, responses, i)
    {
      UptoNext(f, responses, i);
      UptoNext(f, requests, i);
      responsesProduct := f.mul(responsesProduct, responses[i]);
      column[i + 1] := responsesProduct;
      divisors[i + 1] := requests[i];
      requestsProduct := f.mul(requestsProduct, requests[i]);
    }
  }

  /** The second pass, backwards: one running inverse divides out the requests of every prefix. */
  method DivideOut<T(!new)>(f: Field<T>, responses: seq<T>, requests: seq<T>, column: array<T>, divisors: array<T>,
                            inverse: T)
    requires IsField(f) && |responses| == |requests| && column.Length == divisors.Length == |responses| + 1
    requires column != divisors && f.mul(inverse, f.Prod(requests)) == f.one
    requires forall j :: 0 < j <= |requests| ==> divisors[j] == requests[j - 1]
    requires forall j :: 0 <= j <= |responses| ==> column[j] == Upto(f, responses, j)
    modifies column
    ensures forall j :: 0 <= j <= |responses| ==> column[j] == Quot(f, responses, requests, j)
  {
    hide Upto, Quot;
    UptoEnds(f, requests);
    var divisor, i := inverse, column.Length;
    while i > 0
      invariant 0 <= i <= column.Length
      invariant forall j :: 0 <= j < i ==> column[j] == Upto(f, responses, j)
      invariant forall j :: i <= j < column.Length ==> column[j] == Quot(f, responses, requests, j)
      invariant i > 0 ==> f.mul(divisor, Upto(f, requests, i - 1)) == f.one
    {
      i := i - 1;
      QuotIs(f, responses, requests, i, divisor);
      column[i] := f.mul(column[i], divisor);
      if i > 0 {
        InverseBack(f, requests, i - 1, divisor);
        assert divisors[i] == requests[i - 1];
      }
      divisor := f.mul(divisor, divisors[i]);
    }
  }

  /** Builds the column for per-row response and request products.  `None` stands for the inversion of zero.
      Entry `i` is the product of the first `i` responses over the product of the first `i` requests. */
  method BuildAuxColumn<T(==,!new)>(f: Field<T>, responses: seq<T>, requests: seq<T>) returns (r: Option<seq<T>>)
    requires IsField(f) && |responses| == |requests|
    ensures r.None? <==> f.zero in requests
    ensures r.Some? ==> |r.value| == |responses| + 1
    ensures r.Some? ==> forall i :: 0 <= i <= |responses| ==> r.value[i] == Ratio(f, responses[..i], requests[..i])
  {
    var n := |responses| + 1;
    var divisors := new T[n](_ => f.one);
    var column := new T[n](_ => f.one);
    var product := Accumulate(f, responses, requests, column, divisors);
    ProdZero(f, requests);
    if product == f.zero { return None; }
    assert Laws(f, product, f.inv(product), product) && Laws(f, f.inv(product), product, product);
    DivideOut(f, responses, requests, column, divisors, f.inv(product));
    return Some(column[..]);
  }

  /** The column satisfies the row-to-row constraint, and is the only one starting at one that does. */
  lemma ColumnTransition<T(!new)>(f: Field<T>, responses: seq<T>, requests: seq<T>, i: nat, x: T)
    requires IsField(f) && |responses| == |requests| && i < |responses| && f.zero !in requests
    ensures f.mul(x, requests[i]) == f.mul(Ratio(f, responses[..i], requests[..i]), responses[i])
            <==> x == Ratio(f, responses[..i + 1], requests[..i + 1])
  {
    var p, q, c := f.Prod(responses[..i]), f.Prod(requests[..i]), Ratio(f, responses[..i], requests[..i]);
    PrefixNonzero(f, requests, i);
    PrefixNonzero(f, requests, i + 1);
    UptoNext(f, responses, i);
    UptoNext(f, requests, i);
    RatioUnique(f, responses[..i + 1], requests[..i + 1], x);
    RatioUnique(f, responses[..i], requests[..i], c);
    // x (q b) = (x b) q  and  p a = (c a) q
    var a, b := responses[i], requests[i];
    assert Laws(f, q, b, b) && Laws(f, x, b, q);
    assert Laws(f, c, q, a) && Laws(f, q, a, a) && Laws(f, c, a, q);
    MulCancel(f, f.mul(x, b), f.mul(c, a), q);
  }
}
