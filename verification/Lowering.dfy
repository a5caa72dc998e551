/** Lowering symbolic constraints to the verifier DAG (miden-vm/crates/ace-codegen/src/dag/lower.rs and quotient.rs):
    what every node built for an expression, a periodic column, the folded constraints and the recomposed quotient
    evaluates to. */
module Lowering {
  import opened Common
  import opened Fields
  import opened Polynomials
  import opened Dag
  import O = ConstraintOrder

  /** A symbolic constraint.  Base-field and extension-field expressions share their operators; a base expression is
      an extension expression as it stands. */
  datatype Expr<T> =
    | MainColumn(offset: nat, index: nat)
    | PublicValue(index: nat)
    | PeriodicColumn(index: nat)
    | IsFirstRow
    | IsLastRow
    | IsTransitionRow
    | Permutation(offset: nat, index: nat)
    | Challenge(index: nat)
    | PermutationValue(index: nat)
    | Literal(value: T)
    | Sum(x: Expr<T>, y: Expr<T>)
    | Difference(x: Expr<T>, y: Expr<T>)
    | Product(x: Expr<T>, y: Expr<T>)
    | Negation(x: Expr<T>)

  /** The periodic columns by their coefficients, and the basis of the extension field over the base field. */
  datatype Setting<T> = Setting(periodic: seq<seq<T>>, basis: seq<T>)

  /** Expressions the lowering does not panic on. */
  predicate Lowerable<T>(e: Expr<T>, numPeriodic: nat) {
    match e
    case PeriodicColumn(i) => i < numPeriodic
    case Challenge(i) => i < 2
    case Sum(x, y) => Lowerable(x, numPeriodic) && Lowerable(y, numPeriodic)
    case Difference(x, y) => Lowerable(x, numPeriodic) && Lowerable(y, numPeriodic)
    case Product(x, y) => Lowerable(x, numPeriodic) && Lowerable(y, numPeriodic)
    case Negation(x) => Lowerable(x, numPeriodic)
    case _ => true
  }

  // What the pieces mean

  /** An extension-field value from the inputs that hold its coordinates. */
  ghost function FromCoords<T>(f: Field<T>, env: Env<T>, basis: seq<T>, key: nat -> InputKey, n: nat): T
    requires n <= |basis|
  {
    if n == 0 then f.zero
    else f.add(FromCoords(f, env, basis, key, n - 1), f.mul(basis[n - 1], env(key(n - 1))))
  }

  function AuxKey(offset: nat, index: nat): nat -> InputKey {
    (coord: nat) => AuxCoord(offset, index, coord)
  }

  function ChunkKey(chunk: nat): nat -> InputKey {
    (coord: nat) => QuotientChunkCoord(0, chunk, coord)
  }

  function ILog2(n: nat): nat {
    if n < 2 then 0 else 1 + ILog2(n / 2)
  }

  function MaxPeriod<T>(periodic: seq<seq<T>>): nat {
    if |periodic| == 0 then 0
    else
      var n, m := |periodic| - 1, MaxPeriod(periodic[..|periodic| - 1]);
      if |periodic[n]| > m then |periodic[n]| else m
  }

  /** `x` squared `n` times. */
  ghost function Squarings<T>(f: Field<T>, x: T, n: nat): T {
    if n == 0 then x else
      var y := Squarings(f, x, n - 1);
      f.mul(y, y)
  }

  function LogRatio<T>(periodic: seq<seq<T>>, i: nat): nat
    requires i < |periodic| && |periodic[i]| > 0
  {
    ILog2(MaxPeriod(periodic) / |periodic[i]|)
  }

  /** A periodic column at the out-of-domain point: its polynomial at the power of `z_k` for its period. */
  ghost function PeriodicValue<T>(f: Field<T>, env: Env<T>, periodic: seq<seq<T>>, i: nat): T
    requires i < |periodic| && |periodic[i]| > 0
  {
    Poly(f, periodic[i], Squarings(f, env(ZK), LogRatio(periodic, i)))
  }

  function PowerOfTwo(n: nat): (p: nat)
    ensures p > 0
  {
    if n == 0 then 1 else 2 * PowerOfTwo(n - 1)
  }

  lemma {:induction false} PowSum<T(!new)>(f: Field<T>, x: T, a: nat, b: nat)
    requires IsField(f)
    ensures f.Pow(x, a + b) == f.mul(f.Pow(x, a), f.Pow(x, b))
  {
    if b == 0 {
      assert Laws(f, f.Pow(x, a), f.one, f.one);
    } else {
      PowSum(f, x, a, b - 1);
      assert Laws(f, f.Pow(x, a), f.Pow(x, b - 1), x);
    }
  }

  lemma {:induction false} SquaringsArePowers<T(!new)>(f: Field<T>, x: T, n: nat)
    requires IsField(f)
    ensures Squarings(f, x, n) == f.Pow(x, PowerOfTwo(n))
  {
    if n == 0 {
      assert Laws(f, x, f.one, x) && Laws(f, f.one, x, x);
      assert f.Pow(x, 1) == f.mul(f.Pow(x, 0), x);
    } else {
      SquaringsArePowers(f, x, n - 1);
      PowSum(f, x, PowerOfTwo(n - 1), PowerOfTwo(n - 1));
    }
  }

  /** The integer logarithm names the largest power of two that fits. */
  lemma {:induction false} ILog2Fits(n: nat)
    requires n > 0
    ensures PowerOfTwo(ILog2(n)) <= n < 2 * PowerOfTwo(ILog2(n))
  {
    if n >= 2 { ILog2Fits(n / 2); }
  }

  lemma {:induction false} PowersApart(a: nat, b: nat)
    requires a < b
    ensures 2 * PowerOfTwo(a) <= PowerOfTwo(b)
  {
    if a + 1 < b { PowersApart(a, b - 1); }
  }

  lemma ILog2OfPower(k: nat)
    ensures ILog2(PowerOfTwo(k)) == k
  {
    var n := ILog2(PowerOfTwo(k));
    ILog2Fits(PowerOfTwo(k));
    if n < k { PowersApart(n, k); }
    if k < n { PowersApart(k, n); }
  }

  lemma {:induction false} PowersDivide(a: nat, b: nat)
    requires a <= b
    ensures PowerOfTwo(b) == PowerOfTwo(a) * PowerOfTwo(b - a)
  {
    if a < b {
      PowersDivide(a, b - 1);
      Doubled(PowerOfTwo(a), PowerOfTwo(b - 1 - a));
    }
  }

  lemma Doubled(x: nat, y: nat)
    ensures 2 * (x * y) == x * (2 * y)
  {
  }

  /** When the periods are powers of two, a column is evaluated at `z_k` to the power of how often its period fits into
      the longest one.  Otherwise the power is the largest power of two that fits. */
  lemma PeriodicPoint<T(!new)>(f: Field<T>, z: T, periodic: seq<seq<T>>, i: nat, a: nat, b: nat)
    requires IsField(f) && i < |periodic| && |periodic[i]| > 0
    ensures MaxPeriod(periodic) >= |periodic[i]|
    ensures var ratio, k := MaxPeriod(periodic) / |periodic[i]|, LogRatio(periodic, i);
            Squarings(f, z, k) == f.Pow(z, PowerOfTwo(k)) && PowerOfTwo(k) <= ratio < 2 * PowerOfTwo(k)
    ensures |periodic[i]| == PowerOfTwo(a) && MaxPeriod(periodic) == PowerOfTwo(b) ==>
              Squarings(f, z, LogRatio(periodic, i)) == f.Pow(z, MaxPeriod(periodic) / |periodic[i]|)
  {
    hide ILog2, PowerOfTwo, MaxPeriod, Squarings;
    var ratio, k := MaxPeriod(periodic) / |periodic[i]|, LogRatio(periodic, i);
    LongestPeriod(periodic, i);
    AtLeastOne(MaxPeriod(periodic), |periodic[i]|);
    ILog2Fits(ratio);
    SquaringsArePowers(f, z, k);
    if |periodic[i]| == PowerOfTwo(a) && MaxPeriod(periodic) == PowerOfTwo(b) {
      PowerRatio(a, b);
    }
  }

  lemma PowerRatio(a: nat, b: nat)
    requires PowerOfTwo(a) <= PowerOfTwo(b)
    ensures PowerOfTwo(ILog2(PowerOfTwo(b) / PowerOfTwo(a))) == PowerOfTwo(b) / PowerOfTwo(a)
  {
    hide ILog2, PowerOfTwo;
    if b < a { PowersApart(b, a); }
    PowersDivide(a, b);
    var x, y := PowerOfTwo(a), PowerOfTwo(b - a);
    Division(x * y, x, y, 0);
    ILog2OfPower(b - a);
  }

  lemma AtLeastOne(m: nat, n: nat)
    requires m >= n > 0
    ensures m / n >= 1
  {
  }

  lemma {:induction false} LongestPeriod<T>(periodic: seq<seq<T>>, i: nat)
    requires i < |periodic|
    ensures MaxPeriod(periodic) >= |periodic[i]|
  {
    var n := |periodic| - 1;
    if i < n { LongestPeriod(periodic[..n], i); }
  }

  ghost predicate NoEmptyColumn<T>(periodic: seq<seq<T>>) {
    forall i :: 0 <= i < |periodic| ==> |periodic[i]| > 0
  }

  /** The value of an expression at the out-of-domain point. */
  ghost function ExprValue<T>(f: Field<T>, env: Env<T>, s: Setting<T>, e: Expr<T>): T
    requires NoEmptyColumn(s.periodic) && Lowerable(e, |s.periodic|)
  {
    match e
    case MainColumn(offset, index) => env(Main(offset, index))
    case PublicValue(index) => env(Public(index))
    case PeriodicColumn(index) => PeriodicValue(f, env, s.periodic, index)
    case IsFirstRow => env(IsFirst)
    case IsLastRow => env(IsLast)
    case IsTransitionRow => env(IsTransition)
    case Permutation(offset, index) => FromCoords(f, env, s.basis, AuxKey(offset, index), |s.basis|)
    case Challenge(index) => if index == 0 then env(AuxRandAlpha) else env(AuxRandBeta)
    case PermutationValue(index) => env(AuxBusBoundary(index))
    case Literal(value) => value
    case Sum(x, y) => f.add(ExprValue(f, env, s, x), ExprValue(f, env, s, y))
    case Difference(x, y) => f.Sub(ExprValue(f, env, s, x), ExprValue(f, env, s, y))
    case Product(x, y) => f.mul(ExprValue(f, env, s, x), ExprValue(f, env, s, y))
    case Negation(x) => f.neg(ExprValue(f, env, s, x))
  }

  // Lowering an expression

  /** Lists of nodes by what they compute: node `i` has the value `v(env, i)`. */
  ghost predicate ComputesAt<T>(meaning: seq<Env<T> -> T>, ids: seq<NodeId>, v: (Env<T>, nat) -> T, env: Env<T>,
                                i: int) {
    0 <= i < |ids| ==> ids[i].index < |meaning| && meaning[ids[i].index](env) == v(env, i)
  }

  ghost predicate Compute<T(!new)>(dagId: nat, meaning: seq<Env<T> -> T>, ids: seq<NodeId>, v: (Env<T>, nat) -> T) {
    && (forall i :: 0 <= i < |ids| ==> In(ids[i], dagId, |meaning|))
    && forall env, i :: ComputesAt(meaning, ids, v, env, i)
  }

  lemma ComputeStay<T(!new)>(dagId: nat, before: seq<Env<T> -> T>, after: seq<Env<T> -> T>, ids: seq<NodeId>,
                             v: (Env<T>, nat) -> T)
    requires Compute(dagId, before, ids, v) && before <= after
    ensures Compute(dagId, after, ids, v)
  {
    forall env, i ensures ComputesAt(after, ids, v, env, i) { assert ComputesAt(before, ids, v, env, i); }
  }

  lemma ComputeOne<T(!new)>(dagId: nat, meaning: seq<Env<T> -> T>, ids: seq<NodeId>, v: (Env<T>, nat) -> T, i: nat)
    requires Compute(dagId, meaning, ids, v) && i < |ids|
    ensures In(ids[i], dagId, |meaning|) && forall env :: meaning[ids[i].index](env) == v(env, i)
  {
    forall env ensures meaning[ids[i].index](env) == v(env, i) { assert ComputesAt(meaning, ids, v, env, i); }
  }

  lemma ComputeAppend<T(!new)>(dagId: nat, meaning: seq<Env<T> -> T>, ids: seq<NodeId>, v: (Env<T>, nat) -> T,
                               id: NodeId)
    requires Compute(dagId, meaning, ids, v) && In(id, dagId, |meaning|)
    requires forall env :: meaning[id.index](env) == v(env, |ids|)
    ensures Compute(dagId, meaning, ids + [id], v)
  {
    forall env, i ensures ComputesAt(meaning, ids + [id], v, env, i) { assert ComputesAt(meaning, ids, v, env, i); }
  }

  lemma ComputeNone<T(!new)>(dagId: nat, meaning: seq<Env<T> -> T>, v: (Env<T>, nat) -> T)
    ensures Compute(dagId, meaning, [], v)
  {
  }

  ghost function PeriodicValues<T>(f: Field<T>, periodic: seq<seq<T>>): (Env<T>, nat) -> T {
    (env: Env<T>, i: nat) => if i < |periodic| && |periodic[i]| > 0 then PeriodicValue(f, env, periodic, i) else f.zero
  }

  /** `sum(basis[c] * coordinate c)`. */
  method LowerCoords<T(==,!new)>(b: DagBuilder<T>, basis: seq<T>, key: nat -> InputKey) returns (acc: NodeId)
    requires b.Valid() && forall c :: key(c) != Gamma
    modifies b
    ensures b.Valid() && b.Advanced() && b.Has(acc)
    ensures forall env :: b.meaning[acc.index](env) == FromCoords(b.f, env, basis, key, |basis|)
  {
    acc := b.Constant(b.f.zero);
    for c := 0 to |basis|
      invariant b.Valid() && b.Advanced() && b.Has(acc)
      invariant forall env :: b.meaning[acc.index](env) == FromCoords(b.f, env, basis, key, c)
    {
      acc := AddCoord(b, acc, basis[c], key(c));
    }
  }

  /** `acc + unit * coordinate`. */
  method AddCoord<T(==,!new)>(b: DagBuilder<T>, acc: NodeId, unit: T, key: InputKey) returns (acc': NodeId)
    requires b.Valid() && b.Has(acc) && key != Gamma
    modifies b
    ensures b.Valid() && b.Advanced() && b.Has(acc')
    ensures forall env :: b.meaning[acc'.index](env) == b.f.add(b.meaning[acc.index](env), b.f.mul(unit, env(key)))
  {
    var coord := b.Input(key);
    var scale := b.Constant(unit);
    var term := b.Mul(scale, coord);
    acc' := b.Add(acc, term);
  }

  method LowerLeaf<T(==,!new)>(b: DagBuilder<T>, s: Setting<T>, columns: seq<NodeId>, e: Expr<T>) returns (id: NodeId)
    requires b.Valid() && NoEmptyColumn(s.periodic) && |columns| == |s.periodic|
    requires Compute(b.dagId, b.meaning, columns, PeriodicValues(b.f, s.periodic))
    requires Lowerable(e, |s.periodic|) && !e.Sum? && !e.Difference? && !e.Product? && !e.Negation?
    modifies b
    ensures b.Valid() && b.Advanced() && b.Has(id)
    ensures forall env :: b.meaning[id.index](env) == ExprValue(b.f, env, s, e)
  {
    hide PeriodicValue;
    match e
    case MainColumn(offset, index) => id := b.Input(Main(offset, index));
    case PublicValue(index) => id := b.Input(Public(index));
    case PeriodicColumn(index) =>
      id := columns[index];
      ComputeOne(b.dagId, b.meaning, columns, PeriodicValues(b.f, s.periodic), index);
    case IsFirstRow => id := b.Input(IsFirst);
    case IsLastRow => id := b.Input(IsLast);
    case IsTransitionRow => id := b.Input(IsTransition);
    case Permutation(offset, index) => id := LowerCoords(b, s.basis, AuxKey(offset, index));
    case Challenge(index) => id := b.Input(if index == 0 then AuxRandAlpha else AuxRandBeta);
    case PermutationValue(index) => id := b.Input(AuxBusBoundary(index));
    case Literal(value) => id := b.Constant(value);
  }

  /** Lowers an expression: the node computes the expression's value, for every assignment of the inputs. */
  method LowerExpr<T(==,!new)>(b: DagBuilder<T>, s: Setting<T>, columns: seq<NodeId>, e: Expr<T>) returns (id: NodeId)
    requires b.Valid() && NoEmptyColumn(s.periodic) && |columns| == |s.periodic|
    requires Compute(b.dagId, b.meaning, columns, PeriodicValues(b.f, s.periodic))
    requires Lowerable(e, |s.periodic|)
    modifies b
    ensures b.Valid() && b.Advanced() && b.Has(id)
    ensures forall env :: b.meaning[id.index](env) == ExprValue(b.f, env, s, e)
    decreases e, 1
  {
    hide Compute, PeriodicValues, PeriodicValue, FromCoords;
    match e
    case Sum(x, y) =>
      var l, r := LowerPair(b, s, columns, x, y, e);
      id := b.Add(l, r);
    case Difference(x, y) =>
      var l, r := LowerPair(b, s, columns, x, y, e);
      id := b.Sub(l, r);
    case Product(x, y) =>
      var l, r := LowerPair(b, s, columns, x, y, e);
      id := b.Mul(l, r);
    case Negation(x) =>
      var l := LowerExpr(b, s, columns, x);
      id := b.Neg(l);
    case _ =>
      id := LowerLeaf(b, s, columns, e);
  }

  method LowerPair<T(==,!new)>(b: DagBuilder<T>, s: Setting<T>, columns: seq<NodeId>, x: Expr<T>, y: Expr<T>,
                               ghost whole: Expr<T>)
    returns (l: NodeId, r: NodeId)
    requires b.Valid() && NoEmptyColumn(s.periodic) && |columns| == |s.periodic|
    requires Compute(b.dagId, b.meaning, columns, PeriodicValues(b.f, s.periodic))
    requires Lowerable(x, |s.periodic|) && Lowerable(y, |s.periodic|) && x < whole && y < whole
    modifies b
    ensures b.Valid() && b.Advanced() && b.Has(l) && b.Has(r)
    ensures forall env :: b.meaning[l.index](env) == ExprValue(b.f, env, s, x)
    ensures forall env :: b.meaning[r.index](env) == ExprValue(b.f, env, s, y)
    decreases whole, 0
  {
    hide Compute, ExprValue, PeriodicValues;
    ghost var before := b.meaning;
    l := LowerExpr(b, s, columns, x);
    ComputeStay(b.dagId, before, b.meaning, columns, PeriodicValues(b.f, s.periodic));
    r := LowerExpr(b, s, columns, y);
  }

  // Periodic columns

  ghost function Coefficients<T>(coeffs: seq<T>, zero: T): (Env<T>, nat) -> T {
    (env: Env<T>, i: nat) => if i < |coeffs| then coeffs[i] else zero
  }

  method LowerConstants<T(==,!new)>(b: DagBuilder<T>, coeffs: seq<T>) returns (ids: seq<NodeId>)
    requires b.Valid()
    modifies b
    ensures b.Valid() && b.Advanced() && |ids| == |coeffs|
    ensures Compute(b.dagId, b.meaning, ids, Coefficients(coeffs, b.f.zero))
  {
    hide Compute;
    ghost var v := Coefficients(coeffs, b.f.zero);
    ids := [];
    ComputeNone(b.dagId, b.meaning, v);
    for i := 0 to |coeffs|
      invariant b.Valid() && b.Advanced() && |ids| == i && Compute(b.dagId, b.meaning, ids, v)
    {
      ghost var before := b.meaning;
      var id := b.Constant(coeffs[i]);
      ComputeStay(b.dagId, before, b.meaning, ids, v);
      ComputeAppend(b.dagId, b.meaning, ids, v, id);
      ids := ids + [id];
    }
  }

  /** Horner's rule over nodes, from the last coefficient down. */
  method HornerEval<T(==,!new)>(b: DagBuilder<T>, point: NodeId, ids: seq<NodeId>, ghost coeffs: seq<T>)
    returns (acc: NodeId)
    requires b.Valid() && b.Has(point) && |ids| == |coeffs|
    requires Compute(b.dagId, b.meaning, ids, Coefficients(coeffs, b.f.zero))
    modifies b
    ensures b.Valid() && b.Advanced() && b.Has(acc)
    ensures forall env :: b.meaning[acc.index](env) == Horner(b.f, coeffs, b.meaning[point.index](env))
  {
    hide Compute;
    ghost var v := Coefficients(coeffs, b.f.zero);
    ghost var start := b.meaning;
    acc := b.Constant(b.f.zero);
    assert coeffs[|ids|..] == [];
    for i := |ids| downto 0
      invariant b.Valid() && b.Advanced() && b.Has(acc) && start <= b.meaning
      invariant forall env :: b.meaning[acc.index](env) == Horner(b.f, coeffs[i..], b.meaning[point.index](env))
    {
      ComputeOne(b.dagId, start, ids, v, i);
      assert coeffs[i..][1..] == coeffs[i + 1..];
      var scaled := b.Mul(point, acc);
      acc := b.Add(ids[i], scaled);
    }
    assert coeffs[0..] == coeffs;
  }

  /** The points of the columns, by the number of squarings. */
  ghost predicate PointAt<T>(f: Field<T>, dagId: nat, meaning: seq<Env<T> -> T>, cache: map<nat, NodeId>, log: nat,
                             env: Env<T>) {
    log in cache ==> In(cache[log], dagId, |meaning|) && meaning[cache[log].index](env) == Squarings(f, env(ZK), log)
  }

  ghost predicate Points<T(!new)>(f: Field<T>, dagId: nat, meaning: seq<Env<T> -> T>, cache: map<nat, NodeId>) {
    && (forall log :: log in cache ==> In(cache[log], dagId, |meaning|))
    && forall log, env :: PointAt(f, dagId, meaning, cache, log, env)
  }

  lemma PointsStay<T(!new)>(f: Field<T>, dagId: nat, before: seq<Env<T> -> T>, after: seq<Env<T> -> T>,
                            cache: map<nat, NodeId>)
    requires Points(f, dagId, before, cache) && before <= after
    ensures Points(f, dagId, after, cache)
  {
    forall log, env ensures PointAt(f, dagId, after, cache, log, env) { assert PointAt(f, dagId, before, cache, log, env); }
  }

  /** The point for `log` squarings, from the cache or newly built. */
  method PointFor<T(==,!new)>(b: DagBuilder<T>, cache: map<nat, NodeId>, log: nat)
    returns (z: NodeId, cache': map<nat, NodeId>)
    requires b.Valid() && Points(b.f, b.dagId, b.meaning, cache)
    modifies b
    ensures b.Valid() && b.Advanced() && b.Has(z) && Points(b.f, b.dagId, b.meaning, cache')
    ensures forall env :: b.meaning[z.index](env) == Squarings(b.f, env(ZK), log)
  {
    if log in cache {
      z, cache' := cache[log], cache;
      forall env ensures b.meaning[z.index](env) == Squarings(b.f, env(ZK), log) {
        assert PointAt(b.f, b.dagId, b.meaning, cache, log, env);
      }
      return;
    }
    ghost var before := b.meaning;
    z := b.Input(ZK);
    for i := 0 to log
      invariant b.Valid() && b.Advanced() && b.Has(z) && before <= b.meaning
      invariant forall env :: b.meaning[z.index](env) == Squarings(b.f, env(ZK), i)
    {
      z := b.Mul(z, z);
    }
    cache' := cache[log := z];
    PointsStay(b.f, b.dagId, before, b.meaning, cache);
    forall l, env ensures PointAt(b.f, b.dagId, b.meaning, cache', l, env) {
      assert PointAt(b.f, b.dagId, b.meaning, cache, l, env);
    }
  }

  method LowerColumn<T(==,!new)>(b: DagBuilder<T>, cache: map<nat, NodeId>, periodic: seq<seq<T>>, i: nat)
    returns (id: NodeId, cache': map<nat, NodeId>)
    requires b.Valid() && Points(b.f, b.dagId, b.meaning, cache) && i < |periodic| && |periodic[i]| > 0
    modifies b
    ensures b.Valid() && b.Advanced() && b.Has(id) && Points(b.f, b.dagId, b.meaning, cache')
    ensures forall env :: b.meaning[id.index](env) == PeriodicValue(b.f, env, periodic, i)
  {
    hide Points, Compute, Coefficients;
    var log := LogRatio(periodic, i);
    var z;
    z, cache' := PointFor(b, cache, log);
    ghost var m := b.meaning;
    var ids := LowerConstants(b, periodic[i]);
    id := HornerEval(b, z, ids, periodic[i]);
    PointsStay(b.f, b.dagId, m, b.meaning, cache');
    forall env ensures b.meaning[id.index](env) == PeriodicValue(b.f, env, periodic, i) {
      PolyIsHorner(b.f, periodic[i], Squarings(b.f, env(ZK), log));
    }
  }

  method LowerPeriodic<T(==,!new)>(b: DagBuilder<T>, periodic: seq<seq<T>>) returns (columns: seq<NodeId>)
    requires b.Valid() && NoEmptyColumn(periodic)
    modifies b
    ensures b.Valid() && b.Advanced() && |columns| == |periodic|
    ensures Compute(b.dagId, b.meaning, columns, PeriodicValues(b.f, periodic))
  {
    hide Compute, PeriodicValue;
    ghost var v := PeriodicValues(b.f, periodic);
    columns := [];
    var cache: map<nat, NodeId> := map[];
    ComputeNone(b.dagId, b.meaning, v);
    for i := 0 to |periodic|
      invariant b.Valid() && b.Advanced() && |columns| == i
      invariant Points(b.f, b.dagId, b.meaning, cache) && Compute(b.dagId, b.meaning, columns, v)
    {
      ghost var before := b.meaning;
      var id;
      id, cache := LowerColumn(b, cache, periodic, i);
      ComputeStay(b.dagId, before, b.meaning, columns, v);
      ComputeAppend(b.dagId, b.meaning, columns, v, id);
      columns := columns + [id];
    }
  }

  // Folding the constraints

  ghost predicate AllLowerable<T>(constraints: seq<Expr<T>>, numPeriodic: nat) {
    forall i :: 0 <= i < |constraints| ==> Lowerable(constraints[i], numPeriodic)
  }

  /** The constraints folded with powers of alpha, the first constraint having the highest. */
  ghost function FoldedValue<T>(f: Field<T>, env: Env<T>, s: Setting<T>, constraints: seq<Expr<T>>): T
    requires NoEmptyColumn(s.periodic) && AllLowerable(constraints, |s.periodic|)
  {
    if |constraints| == 0 then f.zero
    else
      var n := |constraints| - 1;
      f.add(f.mul(FoldedValue(f, env, s, constraints[..n]), env(Alpha)), ExprValue(f, env, s, constraints[n]))
  }

  method LowerConstraints<T(==,!new)>(b: DagBuilder<T>, s: Setting<T>, columns: seq<NodeId>, constraints: seq<Expr<T>>)
    returns (acc: NodeId)
    requires b.Valid() && NoEmptyColumn(s.periodic) && |columns| == |s.periodic|
    requires Compute(b.dagId, b.meaning, columns, PeriodicValues(b.f, s.periodic))
    requires AllLowerable(constraints, |s.periodic|)
    modifies b
    ensures b.Valid() && b.Advanced() && b.Has(acc)
    ensures forall env :: b.meaning[acc.index](env) == FoldedValue(b.f, env, s, constraints)
  {
    hide Compute, PeriodicValues, ExprValue;
    ghost var start := b.meaning;
    var alpha := b.Input(Alpha);
    acc := b.Constant(b.f.zero);
    for i := 0 to |constraints|
      invariant b.Valid() && b.Advanced() && b.Has(acc) && b.Has(alpha) && start <= b.meaning
      invariant forall env :: b.meaning[alpha.index](env) == env(Alpha)
      invariant forall env :: b.meaning[acc.index](env) == FoldedValue(b.f, env, s, constraints[..i])
    {
      ComputeStay(b.dagId, start, b.meaning, columns, PeriodicValues(b.f, s.periodic));
      assert constraints[..i + 1][..i] == constraints[..i];
      acc := FoldOne(b, s, columns, constraints[i], acc, alpha);
    }
    assert constraints[..|constraints|] == constraints;
  }

  /** `acc * alpha + constraint`. */
  method FoldOne<T(==,!new)>(b: DagBuilder<T>, s: Setting<T>, columns: seq<NodeId>, e: Expr<T>, acc: NodeId,
                             alpha: NodeId) returns (acc': NodeId)
    requires b.Valid() && b.Has(acc) && b.Has(alpha) && NoEmptyColumn(s.periodic) && |columns| == |s.periodic|
    requires Compute(b.dagId, b.meaning, columns, PeriodicValues(b.f, s.periodic)) && Lowerable(e, |s.periodic|)
    modifies b
    ensures b.Valid() && b.Advanced() && b.Has(acc')
    ensures forall env :: b.meaning[acc'.index](env)
              == b.f.add(b.f.mul(b.meaning[acc.index](env), b.meaning[alpha.index](env)), ExprValue(b.f, env, s, e))
  {
    hide Compute, PeriodicValues, ExprValue;
    var node := LowerExpr(b, s, columns, e);
    var scaled := b.Mul(acc, alpha);
    acc' := b.Add(scaled, node);
  }

  // Recomposing the quotient

  /** The shift of coset `i`: `s0 f^i`. */
  ghost function Shift<T>(f: Field<T>, env: Env<T>, i: nat): T {
    if i == 0 then env(S0) else f.mul(Shift(f, env, i - 1), env(F))
  }

  /** The weight of chunk `i`: `weight0 f^i`. */
  ghost function Weight<T>(f: Field<T>, env: Env<T>, i: nat): T {
    if i == 0 then env(Weight0) else f.mul(Weight(f, env, i - 1), env(F))
  }

  ghost function Delta<T>(f: Field<T>, env: Env<T>, i: nat): T {
    f.Sub(env(ZPowN), Shift(f, env, i))
  }

  ghost function Deltas<T>(f: Field<T>): (Env<T>, nat) -> T {
    (env: Env<T>, i: nat) => Delta(f, env, i)
  }

  ghost function Weights<T>(f: Field<T>): (Env<T>, nat) -> T {
    (env: Env<T>, i: nat) => Weight(f, env, i)
  }

  ghost function Chunk<T>(f: Field<T>, env: Env<T>, basis: seq<T>, i: nat): T {
    FromCoords(f, env, basis, ChunkKey(i), |basis|)
  }

  ghost function Chunks<T>(f: Field<T>, basis: seq<T>): (Env<T>, nat) -> T {
    (env: Env<T>, i: nat) => Chunk(f, env, basis, i)
  }

  /** The product of the first `n` deltas without delta `i`. */
  ghost function Others<T>(f: Field<T>, env: Env<T>, i: nat, n: nat): T {
    if n == 0 then f.one
    else if n - 1 == i then Others(f, env, i, n - 1)
    else f.mul(Others(f, env, i, n - 1), Delta(f, env, n - 1))
  }

  /** The first `n` terms of the recomposed quotient of `k` chunks. */
  ghost function QuotientTerms<T>(f: Field<T>, env: Env<T>, basis: seq<T>, k: nat, n: nat): T {
    if n == 0 then f.zero
    else f.add(QuotientTerms(f, env, basis, k, n - 1),
               f.mul(f.mul(Weight(f, env, n - 1), Others(f, env, n - 1, k)), Chunk(f, env, basis, n - 1)))
  }

  method NextDelta<T(==,!new)>(b: DagBuilder<T>, zPowN: NodeId, shift: NodeId, weight: NodeId, ratio: NodeId)
    returns (delta: NodeId, shift': NodeId, weight': NodeId)
    requires b.Valid() && b.Has(zPowN) && b.Has(shift) && b.Has(weight) && b.Has(ratio)
    modifies b
    ensures b.Valid() && b.Advanced() && b.Has(delta) && b.Has(shift') && b.Has(weight')
    ensures forall env :: b.meaning[delta.index](env)
                == b.f.Sub(b.meaning[zPowN.index](env), b.meaning[shift.index](env))
    ensures forall env :: b.meaning[shift'.index](env)
                == b.f.mul(b.meaning[shift.index](env), b.meaning[ratio.index](env))
    ensures forall env :: b.meaning[weight'.index](env)
                == b.f.mul(b.meaning[weight.index](env), b.meaning[ratio.index](env))
  {
    delta := b.Sub(zPowN, shift);
    shift' := b.Mul(shift, ratio);
    weight' := b.Mul(weight, ratio);
  }

  /** The running shift and weight before round `i`. */
  ghost predicate RoundAt<T>(f: Field<T>, meaning: seq<Env<T> -> T>, zPowN: NodeId, ratio: NodeId, shift: NodeId,
                             weight: NodeId, i: nat, env: Env<T>)
    requires zPowN.index < |meaning| && ratio.index < |meaning| && shift.index < |meaning| && weight.index < |meaning|
  {
    && meaning[zPowN.index](env) == env(ZPowN) && meaning[ratio.index](env) == env(F)
    && meaning[shift.index](env) == Shift(f, env, i) && meaning[weight.index](env) == Weight(f, env, i)
  }

  ghost predicate Round<T(!new)>(f: Field<T>, dagId: nat, meaning: seq<Env<T> -> T>, zPowN: NodeId, ratio: NodeId,
                                 shift: NodeId, weight: NodeId, i: nat) {
    && In(zPowN, dagId, |meaning|) && In(ratio, dagId, |meaning|) && In(shift, dagId, |meaning|) && In(weight, dagId, |meaning|)
    && forall env :: RoundAt(f, meaning, zPowN, ratio, shift, weight, i, env)
  }

  method FirstRound<T(==,!new)>(b: DagBuilder<T>) returns (zPowN: NodeId, ratio: NodeId, shift: NodeId, weight: NodeId)
    requires b.Valid()
    modifies b
    ensures b.Valid() && b.Advanced() && Round(b.f, b.dagId, b.meaning, zPowN, ratio, shift, weight, 0)
  {
    zPowN := b.Input(ZPowN);
    shift := b.Input(S0);
    ratio := b.Input(F);
    weight := b.Input(Weight0);
  }

  method NextRound<T(==,!new)>(b: DagBuilder<T>, zPowN: NodeId, ratio: NodeId, shift: NodeId, weight: NodeId,
                               ghost i: nat)
    returns (delta: NodeId, shift': NodeId, weight': NodeId)
    requires b.Valid() && Round(b.f, b.dagId, b.meaning, zPowN, ratio, shift, weight, i)
    modifies b
    ensures b.Valid() && b.Advanced() && b.Has(delta) && b.Has(weight)
    ensures Round(b.f, b.dagId, b.meaning, zPowN, ratio, shift', weight', i + 1)
    ensures forall env :: b.meaning[delta.index](env) == Deltas(b.f)(env, i)
    ensures forall env :: b.meaning[weight.index](env) == Weights(b.f)(env, i)
  {
    ghost var before := b.meaning;
    delta, shift', weight' := NextDelta(b, zPowN, shift, weight, ratio);
    ghost var next := i + 1;
    forall env ensures RoundAt(b.f, b.meaning, zPowN, ratio, shift', weight', next, env) {
      assert RoundAt(b.f, before, zPowN, ratio, shift, weight, i, env);
    }
    forall env ensures b.meaning[delta.index](env) == Deltas(b.f)(env, i) && b.meaning[weight.index](env) == Weights(b.f)(env, i) {
      assert RoundAt(b.f, before, zPowN, ratio, shift, weight, i, env);
    }
  }

  method DeltasAndWeights<T(==,!new)>(b: DagBuilder<T>, k: nat) returns (deltas: seq<NodeId>, weights: seq<NodeId>)
    requires b.Valid()
    modifies b
    ensures b.Valid() && b.Advanced() && |deltas| == |weights| == k
    ensures Compute(b.dagId, b.meaning, deltas, Deltas(b.f)) && Compute(b.dagId, b.meaning, weights, Weights(b.f))
  {
    hide Compute, Round, Deltas, Weights;
    var zPowN, ratio, shift, weight := FirstRound(b);
    deltas, weights := [], [];
    ComputeNone(b.dagId, b.meaning, Deltas(b.f));
    ComputeNone(b.dagId, b.meaning, Weights(b.f));
    for i := 0 to k
      invariant b.Valid() && b.Advanced() && |deltas| == |weights| == i
      invariant Round(b.f, b.dagId, b.meaning, zPowN, ratio, shift, weight, i)
      invariant Compute(b.dagId, b.meaning, deltas, Deltas(b.f)) && Compute(b.dagId, b.meaning, weights, Weights(b.f))
    {
      ghost var before := b.meaning;
      var delta, shift', weight' := NextRound(b, zPowN, ratio, shift, weight, i);
      ComputeStay(b.dagId, before, b.meaning, deltas, Deltas(b.f));
      ComputeStay(b.dagId, before, b.meaning, weights, Weights(b.f));
      ComputeAppend(b.dagId, b.meaning, deltas, Deltas(b.f), delta);
      ComputeAppend(b.dagId, b.meaning, weights, Weights(b.f), weight);
      deltas, weights, shift, weight := deltas + [delta], weights + [weight], shift', weight';
    }
  }

  method LowerChunks<T(==,!new)>(b: DagBuilder<T>, basis: seq<T>, k: nat) returns (chunks: seq<NodeId>)
    requires b.Valid()
    modifies b
    ensures b.Valid() && b.Advanced() && |chunks| == k && Compute(b.dagId, b.meaning, chunks, Chunks(b.f, basis))
  {
    hide Compute, FromCoords;
    chunks := [];
    ComputeNone(b.dagId, b.meaning, Chunks(b.f, basis));
    for i := 0 to k
      invariant b.Valid() && b.Advanced() && |chunks| == i && Compute(b.dagId, b.meaning, chunks, Chunks(b.f, basis))
    {
      ghost var before := b.meaning;
      var id := LowerCoords(b, basis, ChunkKey(i));
      ComputeStay(b.dagId, before, b.meaning, chunks, Chunks(b.f, basis));
      ComputeAppend(b.dagId, b.meaning, chunks, Chunks(b.f, basis), id);
      chunks := chunks + [id];
    }
  }

  lemma NextOther<T>(f: Field<T>, env: Env<T>, i: nat, n: nat)
    ensures Others(f, env, i, n + 1)
            == if n == i then Others(f, env, i, n) else f.mul(Others(f, env, i, n), Delta(f, env, n))
  {
  }

  lemma NoOthers<T>(f: Field<T>, env: Env<T>, i: nat)
    ensures Others(f, env, i, 0) == f.one
  {
  }

  method ProductOfOthers<T(==,!new)>(b: DagBuilder<T>, deltas: seq<NodeId>, i: nat) returns (prod: NodeId)
    requires b.Valid() && Compute(b.dagId, b.meaning, deltas, Deltas(b.f))
    modifies b
    ensures b.Valid() && b.Advanced() && b.Has(prod)
    ensures forall env :: b.meaning[prod.index](env) == Others(b.f, env, i, |deltas|)
  {
    hide Compute, Delta, Others;
    ghost var start := b.meaning;
    prod := b.Constant(b.f.one);
    forall env ensures b.f.one == Others(b.f, env, i, 0) { NoOthers(b.f, env, i); }
    for j := 0 to |deltas|
      invariant b.Valid() && b.Advanced() && b.Has(prod) && start <= b.meaning
      invariant forall env :: b.meaning[prod.index](env) == Others(b.f, env, i, j)
    {
      if i != j {
        ComputeStay(b.dagId, start, b.meaning, deltas, Deltas(b.f));
        ComputeOne(b.dagId, b.meaning, deltas, Deltas(b.f), j);
        prod := b.Mul(prod, deltas[j]);
      }
      forall env ensures b.meaning[prod.index](env) == Others(b.f, env, i, j + 1) { NextOther(b.f, env, i, j); }
    }
  }

  /** `quotient + weights[i] * prod(other deltas) * chunks[i]`. */
  method AddChunk<T(==,!new)>(b: DagBuilder<T>, deltas: seq<NodeId>, weight: NodeId, chunk: NodeId, i: nat,
                              quotient: NodeId) returns (quotient': NodeId)
    requires b.Valid() && Compute(b.dagId, b.meaning, deltas, Deltas(b.f)) && b.Has(weight) && b.Has(chunk)
             && b.Has(quotient)
    modifies b
    ensures b.Valid() && b.Advanced() && b.Has(quotient')
    ensures forall env :: b.meaning[quotient'.index](env)
              == b.f.add(b.meaning[quotient.index](env),
                         b.f.mul(b.f.mul(b.meaning[weight.index](env), Others(b.f, env, i, |deltas|)), b.meaning[chunk.index](env)))
  {
    hide Compute, Others;
    var prod := ProductOfOthers(b, deltas, i);
    var zps := b.Mul(weight, prod);
    var term := b.Mul(zps, chunk);
    quotient' := b.Add(quotient, term);
  }

  method LowerQuotient<T(==,!new)>(b: DagBuilder<T>, basis: seq<T>, k: nat) returns (quotient: NodeId)
    requires b.Valid()
    modifies b
    ensures b.Valid() && b.Advanced() && b.Has(quotient)
    ensures forall env :: b.meaning[quotient.index](env) == QuotientTerms(b.f, env, basis, k, k)
  {
    hide Compute, Others, Weight, Chunk;
    var deltas, weights := DeltasAndWeights(b, k);
    ghost var m := b.meaning;
    var chunks := LowerChunks(b, basis, k);
    ComputeStay(b.dagId, m, b.meaning, deltas, Deltas(b.f));
    ComputeStay(b.dagId, m, b.meaning, weights, Weights(b.f));
    quotient := SumChunks(b, basis, k, deltas, weights, chunks);
  }

  method SumChunks<T(==,!new)>(b: DagBuilder<T>, basis: seq<T>, k: nat, deltas: seq<NodeId>, weights: seq<NodeId>,
                               chunks: seq<NodeId>)
    returns (quotient: NodeId)
    requires b.Valid() && |deltas| == |weights| == |chunks| == k
    requires Compute(b.dagId, b.meaning, deltas, Deltas(b.f)) && Compute(b.dagId, b.meaning, weights, Weights(b.f))
    requires Compute(b.dagId, b.meaning, chunks, Chunks(b.f, basis))
    modifies b
    ensures b.Valid() && b.Advanced() && b.Has(quotient)
    ensures forall env :: b.meaning[quotient.index](env) == QuotientTerms(b.f, env, basis, k, k)
  {
    hide Compute, Others, Weight, Chunk;
    ghost var start := b.meaning;
    quotient := b.Constant(b.f.zero);
    for i := 0 to k
      invariant b.Valid() && b.Advanced() && b.Has(quotient) && start <= b.meaning
      invariant forall env :: b.meaning[quotient.index](env) == QuotientTerms(b.f, env, basis, k, i)
    {
      ComputeStay(b.dagId, start, b.meaning, deltas, Deltas(b.f));
      ComputeOne(b.dagId, start, weights, Weights(b.f), i);
      ComputeOne(b.dagId, start, chunks, Chunks(b.f, basis), i);
      quotient := AddChunk(b, deltas, weights[i], chunks[i], i, quotient);
    }
  }

  // The verifier's equation

  /** Folded constraints minus the quotient times the vanishing polynomial. */
  ghost function VerifierValue<T>(f: Field<T>, env: Env<T>, s: Setting<T>, constraints: seq<Expr<T>>, k: nat): T
    requires NoEmptyColumn(s.periodic) && AllLowerable(constraints, |s.periodic|)
  {
    f.Sub(FoldedValue(f, env, s, constraints),
          f.mul(QuotientTerms(f, env, s.basis, k, k), f.Sub(env(ZPowN), f.one)))
  }

  method LowerRoot<T(==,!new)>(b: DagBuilder<T>, acc: NodeId, quotient: NodeId) returns (root: NodeId)
    requires b.Valid() && b.Has(acc) && b.Has(quotient)
    modifies b
    ensures b.Valid() && b.Advanced() && b.Has(root)
    ensures forall env :: b.meaning[root.index](env)
              == b.f.Sub(b.meaning[acc.index](env), b.f.mul(b.meaning[quotient.index](env), b.f.Sub(env(ZPowN), b.f.one)))
  {
    var zPowN := b.Input(ZPowN);
    var one := b.Constant(b.f.one);
    var vanishing := b.Sub(zPowN, one);
    var product := b.Mul(quotient, vanishing);
    root := b.Sub(acc, product);
  }

  /** The constraints of a system: base-field and extension-field ones, each with its position in evaluation order. */
  datatype Constraints<T> = Constraints(
    base: seq<Expr<T>>,
    ext: seq<Expr<T>>,
    baseIndices: seq<nat>,
    extIndices: seq<nat>)
  {
    predicate Indexed() {
      |baseIndices| <= |base| && |extIndices| <= |ext|
    }

    ghost predicate Lowerable(numPeriodic: nat) {
      Indexed() && AllLowerable(base, numPeriodic) && AllLowerable(ext, numPeriodic)
    }

    function InOrder(): seq<Expr<T>>
      requires Indexed()
    {
      O.Ordered(base, baseIndices, ext, extIndices)
    }
  }

  lemma InOrderLowerable<T(!new)>(cs: Constraints<T>, numPeriodic: nat)
    requires cs.Lowerable(numPeriodic)
    ensures AllLowerable(cs.InOrder(), numPeriodic)
  {
    hide Lowerable;
    O.OrderedFrom(cs.base, cs.baseIndices, cs.ext, cs.extIndices);
    var ordered := cs.InOrder();
    forall i | 0 <= i < |ordered| ensures Lowerable(ordered[i], numPeriodic) {
      assert ordered[i] in ordered;
    }
  }

  /** Builds the verifier DAG.  For every constraint system and every assignment of the inputs its root is the folded
      constraints, in evaluation order, minus the recomposed quotient times `z^N - 1`; the batching challenge does not
      occur in it. */
  method BuildVerifierDag<T(==,!new)>(f: Field<T>, dagId: nat, s: Setting<T>, cs: Constraints<T>, k: nat)
    returns (dag: AceDag<T>)
    requires IsField(f) && NoEmptyColumn(s.periodic) && cs.Lowerable(|s.periodic|)
    ensures dag.Valid() && Node.Input(Gamma) !in dag.nodes && AllLowerable(cs.InOrder(), |s.periodic|)
    ensures forall env :: dag.Eval(f, env) == VerifierValue(f, env, s, cs.InOrder(), k)
  {
    hide Compute, PeriodicValues, FoldedValue, QuotientTerms, O.Ordered, Lowerable;
    InOrderLowerable(cs, |s.periodic|);
    var constraints := cs.InOrder();
    var b := new DagBuilder.New(f, dagId);
    var columns := LowerPeriodic(b, s.periodic);
    var acc := LowerConstraints(b, s, columns, constraints);
    var quotient := LowerQuotient(b, s.basis, k);
    var root := LowerRoot(b, acc, quotient);
    dag := b.Build(root);
  }

  // Folding loses nothing

  /** The assignment with another composition challenge. */
  ghost function WithAlpha<T>(env: Env<T>, alpha: T): Env<T> {
    (key: InputKey) => if key == Alpha then alpha else env(key)
  }

  lemma {:induction false} CoordsIgnoreAlpha<T>(f: Field<T>, env: Env<T>, alpha: T, basis: seq<T>,
                                                key: nat -> InputKey, n: nat)
    requires n <= |basis| && forall c :: key(c) != Alpha
    ensures FromCoords(f, WithAlpha(env, alpha), basis, key, n) == FromCoords(f, env, basis, key, n)
  {
    if n > 0 { CoordsIgnoreAlpha(f, env, alpha, basis, key, n - 1); }
  }

  lemma {:induction false} ExprIgnoresAlpha<T>(f: Field<T>, env: Env<T>, alpha: T, s: Setting<T>, e: Expr<T>)
    requires NoEmptyColumn(s.periodic) && Lowerable(e, |s.periodic|)
    ensures ExprValue(f, WithAlpha(env, alpha), s, e) == ExprValue(f, env, s, e)
  {
    match e
    case Permutation(offset, index) => CoordsIgnoreAlpha(f, env, alpha, s.basis, AuxKey(offset, index), |s.basis|);
    case Sum(x, y) =>
      ExprIgnoresAlpha(f, env, alpha, s, x);
      ExprIgnoresAlpha(f, env, alpha, s, y);
    case Difference(x, y) =>
      ExprIgnoresAlpha(f, env, alpha, s, x);
      ExprIgnoresAlpha(f, env, alpha, s, y);
    case Product(x, y) =>
      ExprIgnoresAlpha(f, env, alpha, s, x);
      ExprIgnoresAlpha(f, env, alpha, s, y);
    case Negation(x) => ExprIgnoresAlpha(f, env, alpha, s, x);
    case _ =>
  }

  /** The values of the constraints, the last one first. */
  ghost function ValuesBackwards<T>(f: Field<T>, env: Env<T>, s: Setting<T>, constraints: seq<Expr<T>>): (vs: seq<T>)
    requires NoEmptyColumn(s.periodic) && AllLowerable(constraints, |s.periodic|)
    ensures |vs| == |constraints|
    ensures forall i :: 0 <= i < |constraints| ==> vs[i] == ExprValue(f, env, s, constraints[|constraints| - 1 - i])
  {
    seq(|constraints|, i requires 0 <= i < |constraints| => ExprValue(f, env, s, constraints[|constraints| - 1 - i]))
  }

  /** The folded value is a polynomial in alpha whose coefficients are the constraint values. */
  lemma {:induction false} FoldedIsPoly<T(!new)>(f: Field<T>, env: Env<T>, alpha: T, s: Setting<T>,
                                          constraints: seq<Expr<T>>)
    requires IsField(f) && NoEmptyColumn(s.periodic) && AllLowerable(constraints, |s.periodic|)
    ensures FoldedValue(f, WithAlpha(env, alpha), s, constraints)
                == Poly(f, ValuesBackwards(f, env, s, constraints), alpha)
  {
    hide ExprValue;
    PolyIsHorner(f, ValuesBackwards(f, env, s, constraints), alpha);
    if |constraints| > 0 {
      var n := |constraints| - 1;
      FoldedIsPoly(f, env, alpha, s, constraints[..n]);
      PolyIsHorner(f, ValuesBackwards(f, env, s, constraints[..n]), alpha);
      ExprIgnoresAlpha(f, env, alpha, s, constraints[n]);
      var vs := ValuesBackwards(f, env, s, constraints);
      assert vs[1..] == ValuesBackwards(f, env, s, constraints[..n]);
      var front := FoldedValue(f, WithAlpha(env, alpha), s, constraints[..n]);
      assert Laws(f, front, alpha, alpha) && Laws(f, vs[0], f.mul(alpha, front), alpha);
    }
  }

  /** Unless every constraint holds, fewer challenges than there are constraints make the folded value vanish. */
  lemma FoldingIsSound<T(!new)>(f: Field<T>, env: Env<T>, s: Setting<T>, constraints: seq<Expr<T>>, violated: nat,
                                alphas: set<T>)
    requires IsField(f) && NoEmptyColumn(s.periodic) && AllLowerable(constraints, |s.periodic|)
    requires violated < |constraints| && ExprValue(f, env, s, constraints[violated]) != f.zero
    requires forall a :: a in alphas ==> FoldedValue(f, WithAlpha(env, a), s, constraints) == f.zero
    ensures |alphas| < |constraints|
  {
    hide ExprValue, FoldedValue;
    var vs := ValuesBackwards(f, env, s, constraints);
    assert vs[|constraints| - 1 - violated] != f.zero;
    forall a | a in alphas ensures Poly(f, vs, a) == f.zero { FoldedIsPoly(f, env, a, s, constraints); }
    RootBound(f, vs, alphas);
  }

  // The documented orders

  /** Polynomials that agree at as many points as they have coefficients are the same. */
  lemma SameCoefficients<T(!new)>(f: Field<T>, a: seq<T>, b: seq<T>, points: set<T>)
    requires IsField(f) && |a| == |b| <= |points| && forall x :: x in points ==> Poly(f, a, x) == Poly(f, b, x)
    ensures a == b
  {
    var d := PolyDiff(f, a, b);
    if i :| 0 <= i < |a| && a[i] != b[i] {
      SubZero(f, a[i], b[i]);
      assert d[i] != f.zero;
      forall x | x in points ensures Poly(f, d, x) == f.zero {
        PolySubtract(f, a, b, x);
        SubZero(f, Poly(f, a, x), Poly(f, b, x));
      }
      RootBound(f, d, points);
    }
  }

  /** Folding with the first constraint as the constant term would give the same values, at as many challenges as there
      are constraints, exactly when the constraint values read the same backwards. */
  lemma FoldingOrderExactly<T(!new)>(f: Field<T>, env: Env<T>, s: Setting<T>, constraints: seq<Expr<T>>, alphas: set<T>)
    requires IsField(f) && NoEmptyColumn(s.periodic) && AllLowerable(constraints, |s.periodic|)
    requires |alphas| >= |constraints|
    ensures var backwards := ValuesBackwards(f, env, s, constraints);
            (forall a :: a in alphas ==>
               FoldedValue(f, WithAlpha(env, a), s, constraints) == Poly(f, Reversed(backwards), a))
            <==> backwards == Reversed(backwards)
  {
    hide ExprValue, FoldedValue, ValuesBackwards;
    var backwards := ValuesBackwards(f, env, s, constraints);
    forall a | a in alphas ensures FoldedValue(f, WithAlpha(env, a), s, constraints) == Poly(f, backwards, a) {
      FoldedIsPoly(f, env, a, s, constraints);
    }
    if forall a :: a in alphas ==>
         FoldedValue(f, WithAlpha(env, a), s, constraints) == Poly(f, Reversed(backwards), a) {
      SameCoefficients(f, backwards, Reversed(backwards), alphas);
    }
  }

  /** Reading a periodic column's coefficients from the highest degree down would give the same values, at as many
      points as there are coefficients, exactly when they read the same backwards. */
  lemma CoefficientOrderExactly<T(!new)>(f: Field<T>, coeffs: seq<T>, points: set<T>)
    requires IsField(f) && |points| >= |coeffs|
    ensures (forall x :: x in points ==> Poly(f, coeffs, x) == Poly(f, Reversed(coeffs), x)) <==>
              coeffs == Reversed(coeffs)
  {
    if forall x :: x in points ==> Poly(f, coeffs, x) == Poly(f, Reversed(coeffs), x) {
      SameCoefficients(f, coeffs, Reversed(coeffs), points);
    }
  }
}
