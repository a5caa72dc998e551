/** Shared vocabulary. */
module Common {

  datatype Option<T> = None | Some(value: T)

  function Min(m: nat, n: nat): nat {
    if m < n then m else n
  }

  function Max(m: nat, n: nat): nat {
    if m < n then n else m
  }

  /** The least multiple of `k` that is at least `n`. */
  function NextMultipleOf(n: nat, k: nat): nat
    requires k > 0
  {
    if n % k == 0 then n else n + (k - n % k)
  }

  function Repeat<T>(x: T, n: nat): (s: seq<T>)
    ensures |s| == n && forall i :: 0 <= i < n ==> s[i] == x
  {
    seq(n, _ => x)
  }

  function Reversed<T>(s: seq<T>): (r: seq<T>)
    ensures |r| == |s| && forall i :: 0 <= i < |s| ==> r[i] == s[|s| - 1 - i]
  {
    seq(|s|, i requires 0 <= i < |s| => s[|s| - 1 - i])
  }

  // Sequences without repetition

  ghost predicate Distinct<X>(s: seq<X>) {
    forall i, j :: 0 <= i < j < |s| ==> s[i] != s[j]
  }

  lemma TwicePresent<X>(s: seq<X>, i: nat, j: nat)
    requires i < j < |s| && s[i] == s[j]
    ensures multiset(s)[s[i]] >= 2
  {
    assert s == s[..i] + [s[i]] + s[i + 1..j] + [s[j]] + s[j + 1..];
  }

  lemma {:induction false} OncePresent<X>(s: seq<X>, x: X)
    requires Distinct(s)
    ensures multiset(s)[x] <= 1
  {
    if |s| > 0 {
      var n := |s| - 1;
      OncePresent(s[..n], x);
      assert s == s[..n] + [s[n]];
      assert s[n] !in s[..n];
    }
  }

  // Division

  lemma Division(n: nat, w: nat, q: nat, r: nat)
    requires w > 0 && n == q * w + r && r < w
    ensures n / w == q && n % w == r
  {
    var d, e := n / w, n % w;
    assert n == d * w + e;
    if d < q { Apart(w, d, q); }
    if q < d { Apart(w, q, d); }
  }

  lemma Apart(w: nat, a: nat, b: nat)
    requires a < b
    ensures a * w + w <= b * w
  {
    assert b * w == a * w + w + (b - a - 1) * w;
  }
}
