/** What a lowered constraint says about an actual trace (miden-vm/crates/ace-codegen/src/dag/lower.rs): with the inputs
    read off one row and its successors, its value is the constraint on that row. */
module TraceSemantics {
  import opened Common
  import opened Fields
  import opened Polynomials
  import opened Dag
  import opened Lowering
  import I = Interpolation

  /** A trace: main and auxiliary rows, and what all rows share.  A periodic column repeats its values down the trace.
      */
  datatype Trace<T> = Trace(
    main: seq<seq<T>>,
    aux: seq<seq<T>>,
    publicValues: seq<T>,
    challenges: (T, T),
    boundaries: seq<T>,
    periodic: seq<seq<T>>)
  {
    function Rows(): nat { |main| }

    predicate Valid() {
      && |main| == |aux| > 0
      && forall k :: 0 <= k < |periodic| ==> |periodic[k]| > 0
    }
  }

  /** The expression reads only columns and values that the trace has. */
  predicate Fits<T>(t: Trace<T>, mainWidth: nat, auxWidth: nat, e: Expr<T>) {
    match e
    case MainColumn(_, index) => index < mainWidth
    case PublicValue(index) => index < |t.publicValues|
    case PeriodicColumn(index) => index < |t.periodic|
    case Permutation(_, index) => index < auxWidth
    case Challenge(index) => index < 2
    case PermutationValue(index) => index < |t.boundaries|
    case Sum(x, y) => Fits(t, mainWidth, auxWidth, x) && Fits(t, mainWidth, auxWidth, y)
    case Difference(x, y) => Fits(t, mainWidth, auxWidth, x) && Fits(t, mainWidth, auxWidth, y)
    case Product(x, y) => Fits(t, mainWidth, auxWidth, x) && Fits(t, mainWidth, auxWidth, y)
    case Negation(x) => Fits(t, mainWidth, auxWidth, x)
    case _ => true
  }

  predicate Rectangular<T>(rows: seq<seq<T>>, width: nat) {
    forall i :: 0 <= i < |rows| ==> |rows[i]| == width
  }

  /** The constraint on row `i`.  Rows follow each other in a circle. */
  ghost function OnRow<T>(f: Field<T>, t: Trace<T>, mainWidth: nat, auxWidth: nat, i: nat, e: Expr<T>): T
    requires t.Valid() && Rectangular(t.main, mainWidth) && Rectangular(t.aux, auxWidth) && i < t.Rows()
    requires Fits(t, mainWidth, auxWidth, e)
  {
    match e
    case MainColumn(offset, index) => t.main[(i + offset) % t.Rows()][index]
    case Permutation(offset, index) => t.aux[(i + offset) % t.Rows()][index]
    case PublicValue(index) => t.publicValues[index]
    case PermutationValue(index) => t.boundaries[index]
    case Challenge(index) => if index == 0 then t.challenges.0 else t.challenges.1
    case PeriodicColumn(index) => t.periodic[index][i % |t.periodic[index]|]
    case IsFirstRow => if i == 0 then f.one else f.zero
    case IsLastRow => if i + 1 == t.Rows() then f.one else f.zero
    case IsTransitionRow => if i + 1 < t.Rows() then f.one else f.zero
    case Literal(value) => value
    case Sum(x, y) => f.add(OnRow(f, t, mainWidth, auxWidth, i, x), OnRow(f, t, mainWidth, auxWidth, i, y))
    case Difference(x, y) => f.Sub(OnRow(f, t, mainWidth, auxWidth, i, x), OnRow(f, t, mainWidth, auxWidth, i, y))
    case Product(x, y) => f.mul(OnRow(f, t, mainWidth, auxWidth, i, x), OnRow(f, t, mainWidth, auxWidth, i, y))
    case Negation(x) => f.neg(OnRow(f, t, mainWidth, auxWidth, i, x))
  }

  // The inputs of a row

  /** An element by its coordinates. */
  datatype Coordinates<!T> = Coordinates(basis: seq<T>, coord: (T, nat) -> T)
  {
    ghost function Combined(f: Field<T>, x: T, n: nat): T
      requires n <= |basis|
    {
      if n == 0 then f.zero else f.add(Combined(f, x, n - 1), f.mul(basis[n - 1], coord(x, n - 1)))
    }
  }

  ghost predicate Recombines<T>(f: Field<T>, c: Coordinates<T>, x: T) {
    c.Combined(f, x, |c.basis|) == x
  }

  ghost predicate IsCoordinates<T(!new)>(f: Field<T>, c: Coordinates<T>) {
    forall x :: Recombines(f, c, x)
  }

  function CellOr<T>(f: Field<T>, rows: seq<seq<T>>, row: nat, index: nat): T {
    if row < |rows| && index < |rows[row]| then rows[row][index] else f.zero
  }

  function ItemOr<T>(f: Field<T>, s: seq<T>, index: nat): T {
    if index < |s| then s[index] else f.zero
  }

  function Truth<T>(f: Field<T>, b: bool): T {
    if b then f.one else f.zero
  }

  /** What the verifier's inputs hold at row `i`: the row's cells and those of its successors, the shared values, the
      row selectors, and the power of the row's domain point at which periodic columns are evaluated. */
  ghost function EnvAt<T>(f: Field<T>, t: Trace<T>, c: Coordinates<T>, zk: T, i: nat): Env<T>
    requires t.Valid() && i < t.Rows()
  {
    (key: InputKey) =>
      match key
      case Main(offset, index) => CellOr(f, t.main, (i + offset) % t.Rows(), index)
      case AuxCoord(offset, index, coord) => c.coord(CellOr(f, t.aux, (i + offset) % t.Rows(), index), coord)
      case Public(index) => ItemOr(f, t.publicValues, index)
      case AuxBusBoundary(index) => ItemOr(f, t.boundaries, index)
      case AuxRandAlpha => t.challenges.0
      case AuxRandBeta => t.challenges.1
      case IsFirst => Truth(f, i == 0)
      case IsLast => Truth(f, i + 1 == t.Rows())
      case IsTransition => Truth(f, i + 1 < t.Rows())
      case ZK => zk
      case _ => f.zero
  }

  lemma {:induction false} CoordsCombine<T>(f: Field<T>, env: Env<T>, c: Coordinates<T>, key: nat -> InputKey, x: T,
                                            n: nat)
    requires n <= |c.basis| && forall j :: 0 <= j < n ==> env(key(j)) == c.coord(x, j)
    ensures FromCoords(f, env, c.basis, key, n) == c.Combined(f, x, n)
  {
    if n > 0 { CoordsCombine(f, env, c, key, x, n - 1); }
  }

  lemma AuxOnRow<T(!new)>(f: Field<T>, t: Trace<T>, c: Coordinates<T>, zk: T, i: nat, auxWidth: nat, offset: nat,
                          index: nat)
    requires IsCoordinates(f, c) && t.Valid() && Rectangular(t.aux, auxWidth) && i < t.Rows() && index < auxWidth
    ensures FromCoords(f, EnvAt(f, t, c, zk, i), c.basis, AuxKey(offset, index), |c.basis|)
            == t.aux[(i + offset) % t.Rows()][index]
  {
    var x := t.aux[(i + offset) % t.Rows()][index];
    CoordsCombine(f, EnvAt(f, t, c, zk, i), c, AuxKey(offset, index), x, |c.basis|);
    assert Recombines(f, c, x);
  }

  // Periodic columns

  lemma {:induction false} PowPow<T(!new)>(f: Field<T>, x: T, a: nat, b: nat)
    requires IsField(f)
    ensures f.Pow(f.Pow(x, a), b) == f.Pow(x, a * b)
  {
    if b > 0 {
      PowPow(f, x, a, b - 1);
      PowSum(f, x, a * (b - 1), a);
      assert a * b == a * (b - 1) + a;
    }
  }

  lemma {:induction false} PowOfOne<T(!new)>(f: Field<T>, n: nat)
    requires IsField(f)
    ensures f.Pow(f.one, n) == f.one
  {
    if n > 0 {
      PowOfOne(f, n - 1);
      assert Laws(f, f.one, f.one, f.one);
    }
  }

  /** Powers of an element of order dividing `len` repeat. */
  lemma PowRepeats<T(!new)>(f: Field<T>, w: T, len: nat, i: nat)
    requires IsField(f) && len > 0 && f.Pow(w, len) == f.one
    ensures f.Pow(w, i) == f.Pow(w, i % len)
  {
    var q, r := i / len, i % len;
    assert i == len * q + r;
    PowSum(f, w, len * q, r);
    PowPow(f, w, len, q);
    PowOfOne(f, q);
    assert Laws(f, f.Pow(w, r), f.one, f.one) && Laws(f, f.one, f.Pow(w, r), f.one);
  }

  /** The coefficients interpolate the column over the subgroup of its length, as the inverse transform makes them. */
  ghost predicate Interpolates<T>(f: Field<T>, g: T, rows: nat, coeffs: seq<T>, values: seq<T>) {
    && |coeffs| == |values| > 0 && rows % |values| == 0
    && forall j :: 0 <= j < |values| ==> Poly(f, coeffs, f.Pow(f.Pow(g, rows / |values|), j)) == values[j]
  }

  lemma Quotients(n: nat, m: nat, l: nat)
    requires l > 0 && m > 0 && n % m == 0 && m % l == 0
    ensures n / m * (m / l) == n / l && n % l == 0
  {
    var p, q := n / m, m / l;
    assert n == p * m && m == q * l;
    Associate(p, q, l);
    Division(n, l, p * q, 0);
  }

  lemma Associate(p: nat, q: nat, l: nat)
    ensures p * (q * l) == (p * q) * l
  {
  }

  /** At row `i` the lowered column has the value the column repeats there. */
  lemma PeriodicOnRow<T(!new)>(f: Field<T>, env: Env<T>, periodic: seq<seq<T>>, k: nat, g: T, rows: nat, i: nat,
                               values: seq<T>, a: nat, b: nat)
    requires IsField(f) && k < |periodic| && rows > 0 && f.Pow(g, rows) == f.one
    requires Interpolates(f, g, rows, periodic[k], values)
    requires |values| == PowerOfTwo(a) && MaxPeriod(periodic) == PowerOfTwo(b) && rows % MaxPeriod(periodic) == 0
    requires env(ZK) == f.Pow(g, i * (rows / MaxPeriod(periodic)))
    ensures PeriodicValue(f, env, periodic, k) == values[i % |values|]
  {
    hide Poly, PowerOfTwo, MaxPeriod, Squarings, LogRatio, IsField;
    PeriodicPoint(f, env(ZK), periodic, k, a, b);
    PowersFit(a, b);
    RowPoint(f, g, rows, MaxPeriod(periodic), |values|, i);
  }

  /** `((g^i)^(N/m))^(m/l) = (g^(N/l))^(i mod l)` */
  lemma RowPoint<T(!new)>(f: Field<T>, g: T, n: nat, m: nat, l: nat, i: nat)
    requires IsField(f) && f.Pow(g, n) == f.one && l > 0 && m > 0 && n % m == 0 && m % l == 0
    ensures f.Pow(f.Pow(g, i * (n / m)), m / l) == f.Pow(f.Pow(g, n / l), i % l)
  {
    Quotients(n, m, l);
    var p := n / l;
    PowPow(f, g, i * (n / m), m / l);
    Exponents(i, n / m, m / l);
    PowPow(f, g, p, i);
    Commutes(i, p);
    PowPow(f, g, p, l);
    Whole(n, l);
    PowRepeats(f, f.Pow(g, p), l, i);
  }

  lemma PowersFit(a: nat, b: nat)
    requires PowerOfTwo(a) <= PowerOfTwo(b)
    ensures PowerOfTwo(b) % PowerOfTwo(a) == 0
  {
    if b < a { PowersApart(b, a); }
    PowersDivide(a, b);
    Division(PowerOfTwo(b), PowerOfTwo(a), PowerOfTwo(b - a), 0);
  }

  lemma Exponents(i: nat, p: nat, q: nat)
    ensures i * p * q == i * (p * q)
  {
  }

  lemma Commutes(i: nat, p: nat)
    ensures i * p == p * i
  {
  }

  lemma Whole(n: nat, l: nat)
    requires l > 0 && n % l == 0
    ensures n / l * l == n
  {
  }

  // Expressions

  /** The periodic data and the generator go with the trace. */
  ghost predicate Describes<T>(f: Field<T>, t: Trace<T>, c: Coordinates<T>, s: Setting<T>, g: T) {
    && t.Valid() && s.basis == c.basis && |s.periodic| == |t.periodic| && f.Pow(g, t.Rows()) == f.one
    && (forall k :: 0 <= k < |t.periodic| ==> Interpolates(f, g, t.Rows(), s.periodic[k], t.periodic[k]))
    && (forall k :: 0 <= k < |t.periodic| ==> IsPowerOfTwo(|t.periodic[k]|))
    && (|t.periodic| > 0 ==> IsPowerOfTwo(MaxPeriod(s.periodic)) && t.Rows() % MaxPeriod(s.periodic) == 0)
  }

  ghost predicate IsPowerOfTwo(n: nat) {
    exists a: nat :: n == PowerOfTwo(a)
  }

  /** The point of row `i` for periodic columns: `(g^i)^(N / max period)`. */
  ghost function PeriodicPointAt<T>(f: Field<T>, t: Trace<T>, s: Setting<T>, g: T, i: nat): T {
    if MaxPeriod(s.periodic) == 0 then f.one else f.Pow(g, i * (t.Rows() / MaxPeriod(s.periodic)))
  }

  lemma PeriodicLeaf<T(!new)>(f: Field<T>, t: Trace<T>, c: Coordinates<T>, s: Setting<T>, g: T, i: nat, k: nat)
    requires IsField(f) && Describes(f, t, c, s, g) && i < t.Rows() && k < |t.periodic| && |s.periodic[k]| > 0
    ensures PeriodicValue(f, EnvAt(f, t, c, PeriodicPointAt(f, t, s, g, i), i), s.periodic, k)
            == t.periodic[k][i % |t.periodic[k]|]
  {
    hide PeriodicValue, Poly, PowerOfTwo;
    assert IsPowerOfTwo(|t.periodic[k]|);
    var a: nat :| |t.periodic[k]| == PowerOfTwo(a);
    var b: nat :| MaxPeriod(s.periodic) == PowerOfTwo(b);
    var env := EnvAt(f, t, c, PeriodicPointAt(f, t, s, g, i), i);
    PeriodicOnRow(f, env, s.periodic, k, g, t.Rows(), i, t.periodic[k], a, b);
  }

  /** For every trace, row and expression: with the inputs of that row, the value that is lowered is the constraint on
      that row. */
  lemma {:induction false} LoweredOnRow<T(!new)>(f: Field<T>, t: Trace<T>, c: Coordinates<T>, s: Setting<T>, g: T,
                                                 mainWidth: nat, auxWidth: nat, i: nat, e: Expr<T>)
    requires IsField(f) && IsCoordinates(f, c) && Describes(f, t, c, s, g) && NoEmptyColumn(s.periodic)
    requires Rectangular(t.main, mainWidth) && Rectangular(t.aux, auxWidth) && i < t.Rows()
    requires Fits(t, mainWidth, auxWidth, e) && Lowerable(e, |s.periodic|)
    ensures ExprValue(f, EnvAt(f, t, c, PeriodicPointAt(f, t, s, g, i), i), s, e)
            == OnRow(f, t, mainWidth, auxWidth, i, e)
    decreases e
  {
    hide PeriodicValue, FromCoords, Describes, PeriodicPointAt, IsField, IsCoordinates;
    Sizes(f, t, c, s, g);
    match e
    case Sum(x, y) =>
      LoweredOnRow(f, t, c, s, g, mainWidth, auxWidth, i, x);
      LoweredOnRow(f, t, c, s, g, mainWidth, auxWidth, i, y);
    case Difference(x, y) =>
      LoweredOnRow(f, t, c, s, g, mainWidth, auxWidth, i, x);
      LoweredOnRow(f, t, c, s, g, mainWidth, auxWidth, i, y);
    case Product(x, y) =>
      LoweredOnRow(f, t, c, s, g, mainWidth, auxWidth, i, x);
      LoweredOnRow(f, t, c, s, g, mainWidth, auxWidth, i, y);
    case Negation(x) => LoweredOnRow(f, t, c, s, g, mainWidth, auxWidth, i, x);
    case PeriodicColumn(k) => PeriodicLeaf(f, t, c, s, g, i, k);
    case Permutation(offset, index) =>
      AuxOnRow(f, t, c, PeriodicPointAt(f, t, s, g, i), i, auxWidth, offset, index);
    case _ =>
  }

  lemma Sizes<T>(f: Field<T>, t: Trace<T>, c: Coordinates<T>, s: Setting<T>, g: T)
    requires Describes(f, t, c, s, g)
    ensures t.Valid() && s.basis == c.basis && |s.periodic| == |t.periodic|
  {
  }

  // The row selectors at the domain points

  /** `is_first = (z^N - 1) / (z - 1)`, `is_last = (z^N - 1) / (z - g^-1)` and `is_transition = z - g^-1`, the divisions
      being exact. */
  ghost function FirstSelector<T>(f: Field<T>, n: nat, z: T): T {
    Poly(f, I.Geometric(f, f.one, n), z)
  }

  ghost function LastSelector<T>(f: Field<T>, g: T, n: nat, z: T): T {
    Poly(f, I.Geometric(f, f.inv(g), n), z)
  }

  ghost function TransitionSelector<T>(f: Field<T>, g: T, z: T): T {
    f.Sub(z, f.inv(g))
  }

  /** The powers of `g` below `n` are all different. */
  ghost predicate HasOrder<T>(f: Field<T>, g: T, n: nat) {
    && n > 0 && f.Pow(g, n) == f.one
    && forall i, j :: 0 <= i < j < n ==> f.Pow(g, i) != f.Pow(g, j)
  }

  lemma LastPoint<T(!new)>(f: Field<T>, g: T, n: nat)
    requires IsField(f) && HasOrder(f, g, n)
    ensures f.Pow(g, n - 1) == f.inv(g) && f.Pow(f.inv(g), n) == f.one
  {
    var p := f.Pow(g, n - 1);
    assert Laws(f, p, g, p);
    InvUnique(f, g, p);
    PowPow(f, g, n - 1, n);
    PowPow(f, g, n, n - 1);
    Commutes(n - 1, n);
    PowOfOne(f, n - 1);
  }

  lemma GeometricOnDomain<T(!new)>(f: Field<T>, g: T, n: nat, a: nat, i: nat)
    requires IsField(f) && HasOrder(f, g, n) && a < n && i < n && i != a
    ensures Poly(f, I.Geometric(f, f.Pow(g, a), n), f.Pow(g, i)) == f.zero
  {
    hide Poly, I.Geometric;
    var x, y := f.Pow(g, i), f.Pow(g, a);
    assert x != y;
    I.GeometricValue(f, y, n, x);
    RootPower(f, g, n, a);
    RootPower(f, g, n, i);
    SubZero(f, x, y);
    SubZero(f, f.one, f.one);
    NoZeroDivisors(f, f.Sub(x, y), Poly(f, I.Geometric(f, y, n), x));
  }

  lemma RootPower<T(!new)>(f: Field<T>, g: T, n: nat, i: nat)
    requires IsField(f) && f.Pow(g, n) == f.one
    ensures f.Pow(f.Pow(g, i), n) == f.one
  {
    PowPow(f, g, i, n);
    PowPow(f, g, n, i);
    Commutes(i, n);
    PowOfOne(f, i);
  }

  lemma {:induction false} PowIsZero<T(!new)>(f: Field<T>, x: T, n: nat)
    requires IsField(f) && x != f.zero
    ensures f.Pow(x, n) != f.zero
  {
    assert Laws(f, x, x, x);
    if n > 0 {
      PowIsZero(f, x, n - 1);
      NoZeroDivisors(f, f.Pow(x, n - 1), x);
    }
  }

  /** Each selector vanishes at exactly the rows that it does not select, and off the domain it is the stated quotient.
      */
  lemma SelectorsSelect<T(!new)>(f: Field<T>, g: T, n: nat, i: nat)
    requires IsField(f) && HasOrder(f, g, n) && i < n && f.OfNat(n) != f.zero
    ensures FirstSelector(f, n, f.Pow(g, i)) != f.zero <==> i == 0
    ensures LastSelector(f, g, n, f.Pow(g, i)) != f.zero <==> i == n - 1
    ensures TransitionSelector(f, g, f.Pow(g, i)) != f.zero <==> i < n - 1
  {
    hide Poly, I.Geometric;
    LastPoint(f, g, n);
    assert f.Pow(g, 0) == f.one;
    PowOfOne(f, n);
    SubZero(f, f.Pow(g, i), f.inv(g));
    if i != 0 { GeometricOnDomain(f, g, n, 0, i); } else { Diagonal(f, f.one, n); }
    if i != n - 1 { GeometricOnDomain(f, g, n, n - 1, i); } else { Diagonal(f, f.inv(g), n); }
    assert i < n - 1 ==> f.Pow(g, i) != f.Pow(g, n - 1);
  }

  lemma Diagonal<T(!new)>(f: Field<T>, a: T, n: nat)
    requires IsField(f) && n > 0 && f.Pow(a, n) == f.one && f.OfNat(n) != f.zero
    ensures Poly(f, I.Geometric(f, a, n), a) != f.zero
  {
    hide Poly, I.Geometric;
    I.GeometricDiagonal(f, a, n);
    assert Laws(f, f.one, f.one, f.one);
    NoZeroDivisors(f, f.Pow(a, n - 1), a);
    PowIsZero(f, a, n - 1);
    NoZeroDivisors(f, f.OfNat(n), f.Pow(a, n - 1));
  }

  lemma SelectorsOffDomain<T(!new)>(f: Field<T>, g: T, n: nat, z: T)
    requires IsField(f) && HasOrder(f, g, n)
    ensures f.mul(f.Sub(z, f.one), FirstSelector(f, n, z)) == f.Sub(f.Pow(z, n), f.one)
    ensures f.mul(f.Sub(z, f.inv(g)), LastSelector(f, g, n, z)) == f.Sub(f.Pow(z, n), f.one)
  {
    hide Poly, I.Geometric;
    I.GeometricValue(f, f.one, n, z);
    PowOfOne(f, n);
    LastPoint(f, g, n);
    I.GeometricValue(f, f.inv(g), n, z);
  }

  // Quotient chunks

  /** The inputs hold the coordinates of these chunk values. */
  ghost predicate HoldsChunks<T>(env: Env<T>, c: Coordinates<T>, chunks: seq<T>) {
    forall i, j :: 0 <= i < |chunks| && 0 <= j < |c.basis| ==>
      env(QuotientChunkCoord(0, i, j)) == c.coord(chunks[i], j)
  }

  lemma ChunksCombine<T(!new)>(f: Field<T>, env: Env<T>, c: Coordinates<T>, chunks: seq<T>, i: nat)
    requires IsCoordinates(f, c) && HoldsChunks(env, c, chunks) && i < |chunks|
    ensures Chunk(f, env, c.basis, i) == chunks[i]
  {
    CoordsCombine(f, env, c, ChunkKey(i), chunks[i], |c.basis|);
    assert Recombines(f, c, chunks[i]);
  }
}
