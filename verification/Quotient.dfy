/** The lowered quotient recomposition is interpolation over the coset shifts. */
module Quotient {
  import opened Common
  import opened Fields
  import opened Polynomials
  import opened Dag
  import opened Lowering
  import I = Interpolation

  ghost function Shifts<T>(f: Field<T>, env: Env<T>, k: nat): (s: seq<T>)
    ensures |s| == k
  {
    I.Progression(f, env(S0), env(F), k)
  }

  ghost function ShiftWeights<T>(f: Field<T>, env: Env<T>, k: nat): (w: seq<T>)
    ensures |w| == k
  {
    I.Progression(f, env(Weight0), env(F), k)
  }

  ghost function ChunkList<T>(f: Field<T>, env: Env<T>, basis: seq<T>, k: nat): (q: seq<T>)
    ensures |q| == k && forall i :: 0 <= i < k ==> q[i] == Chunk(f, env, basis, i)
  {
    seq(k, i requires 0 <= i < k => Chunk(f, env, basis, i))
  }

  lemma {:induction false} ShiftIsPower<T(!new)>(f: Field<T>, env: Env<T>, i: nat)
    requires IsField(f)
    ensures Shift(f, env, i) == f.mul(env(S0), f.Pow(env(F), i))
    ensures Weight(f, env, i) == f.mul(env(Weight0), f.Pow(env(F), i))
  {
    if i == 0 {
      assert Laws(f, env(S0), f.one, f.one) && Laws(f, env(Weight0), f.one, f.one);
    } else {
      ShiftIsPower(f, env, i - 1);
      assert Laws(f, env(S0), f.Pow(env(F), i - 1), env(F)) && Laws(f, env(Weight0), f.Pow(env(F), i - 1), env(F));
    }
  }

  lemma ShiftsAt<T(!new)>(f: Field<T>, env: Env<T>, k: nat, i: nat)
    requires IsField(f) && i < k
    ensures Shifts(f, env, k)[i] == Shift(f, env, i) && ShiftWeights(f, env, k)[i] == Weight(f, env, i)
  {
    ShiftIsPower(f, env, i);
  }

  lemma {:induction false} OthersAgree<T>(f: Field<T>, env: Env<T>, s: seq<T>, i: nat, n: nat)
    requires n <= |s| && forall j :: 0 <= j < |s| ==> s[j] == Shift(f, env, j)
    ensures Others(f, env, i, n) == I.OthersAt(f, s, i, env(ZPowN), n)
  {
    hide Shift;
    if n > 0 { OthersAgree(f, env, s, i, n - 1); }
  }

  /** The lowered sum is the interpolation formula. */
  lemma {:induction false} TermsAgree<T>(f: Field<T>, env: Env<T>, basis: seq<T>, s: seq<T>, w: seq<T>, q: seq<T>,
                                         n: nat)
    requires |s| == |w| == |q| && n <= |s|
    requires forall j :: 0 <= j < |s| ==>
               s[j] == Shift(f, env, j) && w[j] == Weight(f, env, j) && q[j] == Chunk(f, env, basis, j)
    ensures QuotientTerms(f, env, basis, |s|, n) == I.Barycentric(f, s, w, q, env(ZPowN), n)
  {
    hide Others, I.OthersAt, Weight, Chunk, Shift;
    if n > 0 {
      TermsAgree(f, env, basis, s, w, q, n - 1);
      OthersAgree(f, env, s, n - 1, |s|);
    }
  }

  /** The inputs describe `k` cosets: the ratio is a `k`-th root of one that keeps the shifts apart, and the first
      weight is `1 / (k s0^(k-1))`. */
  ghost predicate Cosets<T>(f: Field<T>, env: Env<T>, k: nat) {
    && k > 0 && f.Pow(env(F), k) == f.one && Distinct(Shifts(f, env, k))
    && f.mul(env(Weight0), f.mul(f.OfNat(k), f.Pow(env(S0), k - 1))) == f.one
  }

  /** The recomposed quotient is the value at `z^N` of every polynomial with at most `k` coefficients that takes the
      chunk values at the coset shifts. */
  lemma QuotientInterpolates<T(!new)>(f: Field<T>, env: Env<T>, basis: seq<T>, k: nat, c: seq<T>)
    requires IsField(f) && Cosets(f, env, k) && |c| <= k
    requires forall i :: 0 <= i < k ==> Poly(f, c, Shift(f, env, i)) == Chunk(f, env, basis, i)
    ensures QuotientTerms(f, env, basis, k, k) == Poly(f, c, env(ZPowN))
  {
    hide QuotientTerms, I.Barycentric, Poly, Chunk, Distinct, I.Weighted, Shift, Weight;
    var s, w, q := Shifts(f, env, k), ShiftWeights(f, env, k), ChunkList(f, env, basis, k);
    forall i | 0 <= i < k ensures s[i] == Shift(f, env, i) && w[i] == Weight(f, env, i) { ShiftsAt(f, env, k, i); }
    TermsAgree(f, env, basis, s, w, q, k);
    I.CosetWeights(f, env(S0), env(F), env(Weight0), k);
    I.BarycentricInterpolates(f, s, w, q, c, env(ZPowN));
  }

  /** An honest prover passes: if the chunks are those of a polynomial that times `z^N - 1` is the folded constraints,
      the verifier's value is zero. */
  lemma HonestQuotientPasses<T(!new)>(f: Field<T>, env: Env<T>, s: Setting<T>, constraints: seq<Expr<T>>, k: nat,
                                      c: seq<T>)
    requires IsField(f) && Cosets(f, env, k) && |c| <= k && NoEmptyColumn(s.periodic)
    requires AllLowerable(constraints, |s.periodic|)
    requires forall i :: 0 <= i < k ==> Poly(f, c, Shift(f, env, i)) == Chunk(f, env, s.basis, i)
    requires f.mul(Poly(f, c, env(ZPowN)), f.Sub(env(ZPowN), f.one)) == FoldedValue(f, env, s, constraints)
    ensures VerifierValue(f, env, s, constraints, k) == f.zero
  {
    hide Poly, QuotientTerms, FoldedValue, Cosets, Shift, Chunk;
    QuotientInterpolates(f, env, s.basis, k, c);
    SubZero(f, FoldedValue(f, env, s, constraints), FoldedValue(f, env, s, constraints));
  }
}
