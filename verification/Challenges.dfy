/** Bus message encoding: a message on a bus is one field element, computed from two random
    challenges with a per-bus prefix (miden-vm/air/src/trace/challenges.rs). */
module Challenges {
  import opened Fields
  import opened Polynomials

  const MAX_MESSAGE_WIDTH := 16
  const NUM_BUS_TYPES := 10

  // Bus interaction types
  const CHIPLETS_BUS := 0
  const BLOCK_STACK_TABLE := 1
  const BLOCK_HASH_TABLE := 2
  const OP_GROUP_TABLE := 3
  const STACK_OVERFLOW_TABLE := 4
  const SIBLING_TABLE := 5
  const LOG_PRECOMPILE_TRANSCRIPT := 6
  const RANGE_CHECK_BUS := 7
  const ACE_WIRING_BUS := 8
  const HASHER_PERM_LINK := 9

  /** The bus types number the prefixes from zero. */
  lemma BusTypesNumbered()
    ensures [CHIPLETS_BUS, BLOCK_STACK_TABLE, BLOCK_HASH_TABLE, OP_GROUP_TABLE, STACK_OVERFLOW_TABLE, SIBLING_TABLE,
             LOG_PRECOMPILE_TRANSCRIPT, RANGE_CHECK_BUS, ACE_WIRING_BUS, HASHER_PERM_LINK] == seq(NUM_BUS_TYPES, i => i)
  {
  }

  datatype Challenges<T> = Challenges(alpha: T, betaPowers: seq<T>, busPrefix: seq<T>)

  function BusPrefix<T>(f: Field<T>, alpha: T, beta: T, bus: nat): T {
    f.add(alpha, f.mul(f.Pow(beta, MAX_MESSAGE_WIDTH), f.OfNat(bus + 1)))
  }

  /** The value of a message: the prefix of its bus plus the message read as a polynomial at beta. */
  function Encoded<T>(f: Field<T>, alpha: T, beta: T, bus: nat, elems: seq<T>): T {
    f.add(BusPrefix(f, alpha, beta, bus), Poly(f, elems, beta))
  }

  ghost predicate DerivedFrom<T>(c: Challenges<T>, f: Field<T>, alpha: T, beta: T) {
    && c.alpha == alpha
    && |c.betaPowers| == MAX_MESSAGE_WIDTH
    && (forall i :: 0 <= i < MAX_MESSAGE_WIDTH ==> c.betaPowers[i] == f.Pow(beta, i))
    && |c.busPrefix| == NUM_BUS_TYPES
    && (forall i :: 0 <= i < NUM_BUS_TYPES ==> c.busPrefix[i] == BusPrefix(f, alpha, beta, i))
  }

  method FillPowers<T>(f: Field<T>, beta: T, powers: array<T>)
    requires 0 < powers.Length && powers[0] == f.one
    modifies powers
    ensures forall i :: 0 <= i < powers.Length ==> powers[i] == f.Pow(beta, i)
  {
    for i := 1 to powers.Length
      invariant forall j :: 0 <= j < i ==> powers[j] == f.Pow(beta, j)
    {
      powers[i] := f.mul(powers[i - 1], beta);
    }
  }

  /** The prefixes, with the power after the last one taken from the table. */
  function Prefixes<T>(f: Field<T>, alpha: T, gamma: T): (busPrefix: seq<T>)
    ensures |busPrefix| == NUM_BUS_TYPES
    ensures forall i :: 0 <= i < NUM_BUS_TYPES ==> busPrefix[i] == f.add(alpha, f.mul(gamma, f.OfNat(i + 1)))
  {
    seq(NUM_BUS_TYPES, i requires 0 <= i => f.add(alpha, f.mul(gamma, f.OfNat(i + 1))))
  }

  lemma PowNext<T>(f: Field<T>, x: T, n: nat)
    ensures f.Pow(x, n + 1) == f.mul(f.Pow(x, n), x)
  {
  }

  lemma PrefixesDerived<T>(f: Field<T>, alpha: T, beta: T, gamma: T, width: nat)
    requires width == MAX_MESSAGE_WIDTH && gamma == f.Pow(beta, width)
    ensures forall i :: 0 <= i < NUM_BUS_TYPES ==> Prefixes(f, alpha, gamma)[i] == BusPrefix(f, alpha, beta, i)
  {
  }

  method New<T>(f: Field<T>, alpha: T, beta: T) returns (c: Challenges<T>)
    ensures DerivedFrom(c, f, alpha, beta)
  {
    hide BusPrefix, Prefixes;
    var width := MAX_MESSAGE_WIDTH;
    var betaPowers := new T[width](_ => f.one);
    FillPowers(f, beta, betaPowers);
    var gamma := f.mul(betaPowers[width - 1], beta);
    PowNext(f, beta, width - 1);
    PrefixesDerived(f, alpha, beta, gamma, width);
    c := Challenges(alpha, betaPowers[..], Prefixes(f, alpha, gamma));
  }

  method Encode<T(!new)>(f: Field<T>, c: Challenges<T>, ghost beta: T, bus: nat, elems: seq<T>) returns (acc: T)
    requires IsField(f) && DerivedFrom(c, f, c.alpha, beta)
    requires bus < NUM_BUS_TYPES && |elems| <= MAX_MESSAGE_WIDTH
    ensures acc == Encoded(f, c.alpha, beta, bus, elems)
  {
    ghost var prefix := BusPrefix(f, c.alpha, beta, bus);
    acc := c.busPrefix[bus];
    assert Laws(f, prefix, prefix, prefix);
    for i := 0 to |elems|
      invariant acc == f.add(prefix, Poly(f, elems[..i], beta))
    {
      acc := f.add(acc, f.mul(c.betaPowers[i], elems[i]));
      assert elems[..i + 1][..i] == elems[..i];
      assert Laws(f, prefix, Poly(f, elems[..i], beta), f.mul(f.Pow(beta, i), elems[i]));
    }
    assert elems[..|elems|] == elems;
  }

  /** The dense message a sparse one stands for: each value is added at its position. */
  ghost function Scatter<T>(f: Field<T>, layout: seq<nat>, values: seq<T>): (dense: seq<T>)
    requires |layout| == |values|
    requires forall i :: 0 <= i < |layout| ==> layout[i] < MAX_MESSAGE_WIDTH
    ensures |dense| == MAX_MESSAGE_WIDTH
  {
    var n := |layout|;
    if n == 0 then Zeros(f, MAX_MESSAGE_WIDTH)
    else
      var d := Scatter(f, layout[..n - 1], values[..n - 1]);
      d[layout[n - 1] := f.add(d[layout[n - 1]], values[n - 1])]
  }

  /** Sparse encoding is dense encoding of the scattered message, whatever the layout. */
  method EncodeSparse<T(!new)>(f: Field<T>, c: Challenges<T>, ghost beta: T, bus: nat,
                               layout: seq<nat>, values: seq<T>) returns (acc: T)
    requires IsField(f) && DerivedFrom(c, f, c.alpha, beta)
    requires bus < NUM_BUS_TYPES && |layout| == |values|
    requires forall i :: 0 <= i < |layout| ==> layout[i] < MAX_MESSAGE_WIDTH
    ensures acc == Encoded(f, c.alpha, beta, bus, Scatter(f, layout, values))
  {
    ghost var prefix := BusPrefix(f, c.alpha, beta, bus);
    acc := c.busPrefix[bus];
    assert Laws(f, prefix, prefix, prefix);
    PolyZeros(f, MAX_MESSAGE_WIDTH, beta);
    for i := 0 to |layout|
      invariant acc == f.add(prefix, Poly(f, Scatter(f, layout[..i], values[..i]), beta))
    {
      ghost var before := Scatter(f, layout[..i], values[..i]);
      acc := f.add(acc, f.mul(c.betaPowers[layout[i]], values[i]));
      assert layout[..i + 1][..i] == layout[..i] && values[..i + 1][..i] == values[..i];
      PolyBump(f, before, layout[i], values[i], beta);
      assert Laws(f, prefix, Poly(f, before, beta), f.mul(f.Pow(beta, layout[i]), values[i]));
    }
    assert layout[..|layout|] == layout && values[..|values|] == values;
  }

  ghost function Padded<T>(f: Field<T>, elems: seq<T>): (dense: seq<T>)
    requires |elems| <= MAX_MESSAGE_WIDTH
    ensures |dense| == MAX_MESSAGE_WIDTH
  {
    elems + Zeros(f, MAX_MESSAGE_WIDTH - |elems|)
  }

  /** With the layout 0, 1, ..., K-1 a sparse message is the dense one. */
  lemma {:induction false} ConsecutiveLayout<T(!new)>(f: Field<T>, layout: seq<nat>, values: seq<T>)
    requires IsField(f) && |layout| == |values| <= MAX_MESSAGE_WIDTH
    requires forall i :: 0 <= i < |layout| ==> layout[i] == i
    ensures Scatter(f, layout, values) == Padded(f, values)
  {
    var n := |layout|;
    if n > 0 {
      ConsecutiveLayout(f, layout[..n - 1], values[..n - 1]);
      assert Laws(f, f.zero, values[n - 1], f.zero);
      assert Laws(f, values[n - 1], f.zero, f.zero);
      var d := Padded(f, values[..n - 1]);
      assert d[n - 1 := values[n - 1]] == Padded(f, values);
    }
  }

  /** Trailing zeros do not change a message's value. */
  lemma PaddingInvisible<T(!new)>(f: Field<T>, alpha: T, beta: T, bus: nat, elems: seq<T>)
    requires IsField(f) && |elems| <= MAX_MESSAGE_WIDTH
    ensures Encoded(f, alpha, beta, bus, Padded(f, elems)) == Encoded(f, alpha, beta, bus, elems)
  {
    PolyTrailingZeros(f, elems, MAX_MESSAGE_WIDTH - |elems|, beta);
  }

  // Collisions

  /** The integers 1..NUM_BUS_TYPES stay distinct in the field, as they do in characteristic above 10. */
  ghost predicate BusesDistinct<T>(f: Field<T>) {
    forall i, j :: 1 <= i < j <= NUM_BUS_TYPES ==> f.OfNat(i) != f.OfNat(j)
  }

  /** The coefficients of the polynomial whose roots are the challenges at which two messages collide. */
  ghost function Difference<T>(f: Field<T>, bus: nat, m: seq<T>, bus': nat, m': seq<T>): (d: seq<T>)
    requires |m| <= MAX_MESSAGE_WIDTH && |m'| <= MAX_MESSAGE_WIDTH
    ensures |d| == MAX_MESSAGE_WIDTH + 1
  {
    PolyDiff(f, Padded(f, m) + [f.OfNat(bus + 1)], Padded(f, m') + [f.OfNat(bus' + 1)])
  }

  lemma CollisionIsRoot<T(!new)>(f: Field<T>, alpha: T, beta: T, bus: nat, m: seq<T>, bus': nat, m': seq<T>)
    requires IsField(f)
    requires |m| <= MAX_MESSAGE_WIDTH && |m'| <= MAX_MESSAGE_WIDTH
    ensures Encoded(f, alpha, beta, bus, m) == Encoded(f, alpha, beta, bus', m')
            <==> Poly(f, Difference(f, bus, m, bus', m'), beta) == f.zero
  {
    var s, s' := Padded(f, m) + [f.OfNat(bus + 1)], Padded(f, m') + [f.OfNat(bus' + 1)];
    EncodedAsPoly(f, alpha, beta, bus, m);
    EncodedAsPoly(f, alpha, beta, bus', m');
    var p, p' := Poly(f, s, beta), Poly(f, s', beta);
    assert Laws(f, alpha, p, p) && Laws(f, alpha, p', p');
    AddCancel(f, p, p', alpha);
    PolySubtract(f, s, s', beta);
    SubZero(f, p, p');
  }

  lemma EncodedAsPoly<T(!new)>(f: Field<T>, alpha: T, beta: T, bus: nat, m: seq<T>)
    requires IsField(f) && |m| <= MAX_MESSAGE_WIDTH
    ensures Encoded(f, alpha, beta, bus, m) == f.add(alpha, Poly(f, Padded(f, m) + [f.OfNat(bus + 1)], beta))
  {
    PaddingInvisible(f, alpha, beta, bus, m);
    var d := Padded(f, m);
    var s := d + [f.OfNat(bus + 1)];
    assert s[..|s| - 1] == d;
    var top := f.mul(f.Pow(beta, MAX_MESSAGE_WIDTH), f.OfNat(bus + 1));
    assert Laws(f, alpha, top, Poly(f, d, beta));
    assert Laws(f, top, Poly(f, d, beta), top);
  }

  /** Two different messages (on the same bus or not) collide for at most MAX_MESSAGE_WIDTH values of
      beta, whatever alpha is.  Messages count as different when they differ after zero padding. */
  lemma CollisionsAreRare<T(!new)>(f: Field<T>, alpha: T, bus: nat, m: seq<T>, bus': nat, m': seq<T>, betas: set<T>)
    requires IsField(f) && BusesDistinct(f)
    requires bus < NUM_BUS_TYPES && bus' < NUM_BUS_TYPES
    requires |m| <= MAX_MESSAGE_WIDTH && |m'| <= MAX_MESSAGE_WIDTH
    requires bus != bus' || Padded(f, m) != Padded(f, m')
    requires forall beta :: beta in betas ==> Encoded(f, alpha, beta, bus, m) == Encoded(f, alpha, beta, bus', m')
    ensures |betas| <= MAX_MESSAGE_WIDTH
  {
    var d := Difference(f, bus, m, bus', m');
    forall beta | beta in betas
      ensures Poly(f, d, beta) == f.zero
    {
      CollisionIsRoot(f, alpha, beta, bus, m, bus', m');
    }
    if bus != bus' {
      SubZero(f, f.OfNat(bus + 1), f.OfNat(bus' + 1));
      assert d[MAX_MESSAGE_WIDTH] != f.zero;
    } else {
      var s, s' := Padded(f, m), Padded(f, m');
      var i :| 0 <= i < MAX_MESSAGE_WIDTH && s[i] != s'[i];
      SubZero(f, s[i], s'[i]);
      assert d[i] != f.zero;
    }
    RootBound(f, d, betas);
  }

  // How far the prefix separates buses

  lemma {:induction false} PowNonzero<T(!new)>(f: Field<T>, x: T, n: nat)
    requires IsField(f)
    ensures n > 0 ==> (f.Pow(x, n) == f.zero <==> x == f.zero)
    ensures n == 0 ==> f.Pow(x, n) != f.zero
  {
    assert Laws(f, x, x, x);
    if n > 0 {
      PowNonzero(f, x, n - 1);
      NoZeroDivisors(f, f.Pow(x, n - 1), x);
    }
  }

  lemma PrefixesEqual<T(!new)>(f: Field<T>, alpha: T, power: T, n: T, n': T)
    requires IsField(f) && n != n'
    ensures f.add(alpha, f.mul(power, n)) == f.add(alpha, f.mul(power, n')) <==> power == f.zero
  {
    var p, p' := f.mul(power, n), f.mul(power, n');
    assert Laws(f, alpha, p, p) && Laws(f, alpha, p', p');
    AddCancel(f, p, p', alpha);
    assert Laws(f, power, n, n) && Laws(f, power, n', n');
    MulZero(f, n);
    MulZero(f, n');
    if power != f.zero {
      MulCancel(f, n, n', power);
    }
  }

  /** The same payload on two different buses has two different values exactly when beta is nonzero. */
  lemma BusesSeparate<T(!new)>(f: Field<T>, alpha: T, beta: T, bus: nat, bus': nat, m: seq<T>)
    requires IsField(f) && BusesDistinct(f) && bus < NUM_BUS_TYPES && bus' < NUM_BUS_TYPES && bus != bus'
    ensures Encoded(f, alpha, beta, bus, m) == Encoded(f, alpha, beta, bus', m) <==> beta == f.zero
  {
    var power := f.Pow(beta, MAX_MESSAGE_WIDTH);
    AddCancel(f, BusPrefix(f, alpha, beta, bus), BusPrefix(f, alpha, beta, bus'), Poly(f, m, beta));
    assert f.OfNat(bus + 1) != f.OfNat(bus' + 1);
    PrefixesEqual(f, alpha, power, f.OfNat(bus + 1), f.OfNat(bus' + 1));
    PowNonzero(f, beta, MAX_MESSAGE_WIDTH);
  }

  /** At beta = 0 all prefixes coincide, in every field. */
  lemma ZeroBetaMergesBuses<T(!new)>(f: Field<T>, alpha: T, bus: nat, bus': nat, m: seq<T>)
    requires IsField(f)
    ensures Encoded(f, alpha, f.zero, bus, m) == Encoded(f, alpha, f.zero, bus', m)
  {
    PowNonzero(f, f.zero, MAX_MESSAGE_WIDTH);
    MulZero(f, f.OfNat(bus + 1));
    MulZero(f, f.OfNat(bus' + 1));
  }

  /** With payloads of their own, two buses have colliding messages at every beta: one element is enough. */
  lemma FreePayloadsCollide<T(!new)>(f: Field<T>, alpha: T, beta: T, bus: nat, bus': nat)
    requires IsField(f)
    ensures var power := f.Pow(beta, MAX_MESSAGE_WIDTH);
            Encoded(f, alpha, beta, bus, [f.mul(power, f.OfNat(bus' + 1))])
            == Encoded(f, alpha, beta, bus', [f.mul(power, f.OfNat(bus + 1))])
  {
    var power := f.Pow(beta, MAX_MESSAGE_WIDTH);
    var x, x' := f.mul(power, f.OfNat(bus + 1)), f.mul(power, f.OfNat(bus' + 1));
    PolyConstant(f, x, beta);
    PolyConstant(f, x', beta);
    assert Laws(f, alpha, x, x') && Laws(f, alpha, x', x) && Laws(f, x, x', x);
  }

  /** At beta = 0 a message is alpha plus its first element. */
  lemma EncodedAtZero<T(!new)>(f: Field<T>, alpha: T, bus: nat, m: seq<T>)
    requires IsField(f) && |m| > 0
    ensures Encoded(f, alpha, f.zero, bus, m) == f.add(alpha, m[0])
  {
    PowNonzero(f, f.zero, MAX_MESSAGE_WIDTH);
    MulZero(f, f.OfNat(bus + 1));
    PolyIsHorner(f, m, f.zero);
    MulZero(f, Horner(f, m[1..], f.zero));
    assert Laws(f, alpha, f.zero, f.zero) && Laws(f, m[0], f.zero, f.zero);
  }
}
