/** The base field of the virtual machine: the integers modulo 2^64 - 2^32 + 1.  The modulus is shown to be prime, so
    that every nonzero element has an inverse. */
module Goldilocks {
  import opened Fields

  const P := 0xFFFF_FFFF_0000_0001

  newtype Felt = x: int | 0 <= x < P

  // Remainders

  lemma ModUnique(a: int, m: int, q: int, r: int)
    requires m > 0 && a == m * q + r && 0 <= r < m
    ensures a % m == r && a / m == q
  {
    var d, e := a / m, a % m;
    assert a == m * d + e;
    if q > d { Step(m, q - d); }
    if q < d { Step(m, d - q); }
    assert m * (q - d) == m * q - m * d;
  }

  lemma Step(m: int, k: int)
    requires m > 0 && k > 0
    ensures m * k >= m
  {
  }

  lemma ModShift(a: int, k: int, m: int)
    requires m > 0
    ensures (a + m * k) % m == a % m
  {
    assert a == m * (a / m) + a % m;
    assert m * (a / m + k) == m * (a / m) + m * k;
    ModUnique(a + m * k, m, a / m + k, a % m);
  }

  lemma ModMulLeft(a: int, b: int, m: int)
    requires m > 0
    ensures (a % m) * b % m == a * b % m
  {
    var q, r := a / m, a % m;
    assert a == m * q + r;
    Distribute(m, q, r, b);
    ModShift(r * b, q * b, m);
  }

  lemma ModMul(a: int, b: int, m: int)
    requires m > 0
    ensures (a % m) * b % m == a * b % m && a * (b % m) % m == a * b % m
  {
    ModMulLeft(a, b, m);
    ModMulLeft(b, a, m);
    assert a * b == b * a && (b % m) * a == a * (b % m);
  }

  lemma Distribute(m: int, q: int, r: int, b: int)
    ensures (m * q + r) * b == r * b + m * (q * b)
  {
    assert (m * q + r) * b == m * q * b + r * b;
    assert m * q * b == m * (q * b);
  }

  lemma ModAdd(a: int, b: int, m: int)
    requires m > 0
    ensures (a % m + b) % m == (a + b) % m && (a + b % m) % m == (a + b) % m
  {
    assert a == m * (a / m) + a % m && b == m * (b / m) + b % m;
    ModShift(a % m + b, a / m, m);
    ModShift(a + b % m, b / m, m);
  }

  lemma ModMod(a: int, r: int, k: int)
    requires r > 0 && k > 0
    ensures r * k > 0 && a % (r * k) % r == a % r
  {
    Step(r, k);
    var m := r * k;
    assert a == m * (a / m) + a % m;
    assert m * (a / m) == r * (k * (a / m));
    ModShift(a % m, k * (a / m), r);
  }

  // Powers modulo m

  function MulMod(a: nat, b: nat, m: nat): (c: nat)
    requires m > 0
    ensures c < m
  {
    a * b % m
  }

  lemma MulModAssoc(a: nat, b: nat, c: nat, m: nat)
    requires m > 0
    ensures MulMod(MulMod(a, b, m), c, m) == MulMod(a, MulMod(b, c, m), m)
  {
    ModMul(a * b, c, m);
    ModMul(a, b * c, m);
    assert a * b * c == a * (b * c);
  }

  lemma MulModUnit(a: nat, m: nat)
    requires a < m
    ensures MulMod(a, 1 % m, m) == a && MulMod(1 % m, a, m) == a
  {
    ModMul(a, 1, m);
    ModMul(1, a, m);
    ModUnique(a, m, 0, a);
  }

  lemma OneTimes(a: nat, m: nat)
    requires m > 1 && a < m
    ensures MulMod(1, a, m) == a
  {
    ModUnique(a, m, 0, a);
  }

  function PowMod(x: nat, e: nat, m: nat): (y: nat)
    requires m > 0
    ensures y < m
  {
    if e == 0 then 1 % m else MulMod(PowMod(x, e - 1, m), x, m)
  }

  lemma {:induction false} PowAdd(x: nat, a: nat, b: nat, m: nat)
    requires m > 0
    ensures PowMod(x, a + b, m) == MulMod(PowMod(x, a, m), PowMod(x, b, m), m)
  {
    hide MulMod;
    if b == 0 {
      MulModUnit(PowMod(x, a, m), m);
    } else {
      PowAdd(x, a, b - 1, m);
      MulModAssoc(PowMod(x, a, m), PowMod(x, b - 1, m), x, m);
    }
  }

  lemma {:induction false} PowMul(x: nat, a: nat, b: nat, m: nat)
    requires m > 0
    ensures PowMod(PowMod(x, a, m), b, m) == PowMod(x, a * b, m)
  {
    hide MulMod;
    if b == 0 {
      assert a * b == 0;
    } else {
      PowMul(x, a, b - 1, m);
      assert a * b == a * (b - 1) + a;
      PowAdd(x, a * (b - 1), a, m);
    }
  }

  lemma {:induction false} PowOne(k: nat, m: nat)
    requires m > 1
    ensures PowMod(1, k, m) == 1
  {
    if k > 0 { PowOne(k - 1, m); }
  }

  lemma MinusOneSquared(m: nat)
    requires m > 1
    ensures MulMod(m - 1, m - 1, m) == 1 && MulMod(1, m - 1, m) == m - 1
  {
    assert (m - 1) * (m - 1) == m * (m - 2) + 1;
    ModUnique((m - 1) * (m - 1), m, m - 2, 1);
    ModUnique(1 * (m - 1), m, 0, m - 1);
  }

  /** Minus one to an odd power. */
  lemma {:induction false} PowMinusOne(k: nat, m: nat)
    requires m > 1
    ensures PowMod(m - 1, k, m) == if k % 2 == 1 then m - 1 else 1
  {
    hide MulMod;
    if k > 0 {
      PowMinusOne(k - 1, m);
      MinusOneSquared(m);
    }
  }

  function Pow2(n: nat): (p: nat)
    ensures p > 0
  {
    if n == 0 then 1 else 2 * Pow2(n - 1)
  }

  lemma {:induction false} Pow2Add(m: nat, n: nat)
    ensures Pow2(m + n) == Pow2(m) * Pow2(n)
  {
    if n > 0 {
      Pow2Add(m, n - 1);
      assert Pow2(m) * (2 * Pow2(n - 1)) == 2 * (Pow2(m) * Pow2(n - 1));
    }
  }

  /** Every positive number is a power of two times an odd number. */
  lemma {:induction false} TwoPart(d: nat) returns (t: nat, odd: nat)
    requires d > 0
    ensures d == Pow2(t) * odd && odd % 2 == 1
  {
    if d % 2 == 1 {
      t, odd := 0, d;
    } else {
      var s;
      s, odd := TwoPart(d / 2);
      t := s + 1;
      assert Pow2(t) * odd == 2 * (Pow2(s) * odd);
    }
  }

  lemma {:induction false} Pow2Mono(m: nat, n: nat)
    requires m <= n
    ensures Pow2(m) <= Pow2(n)
  {
    if m < n { Pow2Mono(m, n - 1); }
  }

  // An element of order 2^n needs more than 2^n residues

  /** `x` to the power `2^n` is minus one. */
  ghost predicate HalfTurn(x: nat, n: nat, m: nat) {
    m > 2 && PowMod(x, Pow2(n), m) == m - 1
  }

  lemma NoSmallerOrder(x: nat, n: nat, m: nat, d: nat)
    requires HalfTurn(x, n, m) && 0 < d < Pow2(n + 1)
    ensures PowMod(x, d, m) != 1
  {
    var t, odd := TwoPart(d);
    if t > n {
      Pow2Mono(n + 1, t);
      Step(Pow2(t), odd);
    } else {
      if PowMod(x, d, m) == 1 {
        // then (x^d)^(2^(n-t)) is one, but it is (x^(2^n))^odd
        PowMul(x, d, Pow2(n - t), m);
        PowOne(Pow2(n - t), m);
        Pow2Add(t, n - t);
        assert d * Pow2(n - t) == Pow2(n) * odd by { Rotate(Pow2(t), odd, Pow2(n - t)); }
        PowMul(x, Pow2(n), odd, m);
        PowMinusOne(odd, m);
      }
    }
  }

  lemma Rotate(a: nat, b: nat, c: nat)
    ensures a * b * c == a * c * b
  {
  }

  lemma FullTurn(x: nat, n: nat, m: nat)
    requires HalfTurn(x, n, m)
    ensures PowMod(x, Pow2(n + 1), m) == 1
  {
    PowMul(x, Pow2(n), 2, m);
    PowMinusOne(2, m);
    assert Pow2(n) * 2 == Pow2(n + 1);
  }

  lemma CancelPower(x: nat, m: nat, order: nat, i: nat, j: nat)
    requires m > 1 && i <= j <= order && PowMod(x, order, m) == 1 && PowMod(x, i, m) == PowMod(x, j, m)
    ensures PowMod(x, j - i, m) == 1
  {
    hide MulMod, PowMod;
    var rest := order - i;
    PowAdd(x, i, rest, m);
    PowAdd(x, j, rest, m);
    assert i + rest == order && j + rest == order + (j - i);
    PowAdd(x, order, j - i, m);
    OneTimes(PowMod(x, j - i, m), m);
  }

  lemma PowersDiffer(x: nat, n: nat, m: nat, i: nat, j: nat)
    requires HalfTurn(x, n, m) && i < j < Pow2(n + 1)
    ensures PowMod(x, i, m) != PowMod(x, j, m)
  {
    hide MulMod, PowMod, Pow2;
    FullTurn(x, n, m);
    NoSmallerOrder(x, n, m, j - i);
    if PowMod(x, i, m) == PowMod(x, j, m) {
      CancelPower(x, m, Pow2(n + 1), i, j);
    }
  }

  lemma PowersNonzero(x: nat, n: nat, m: nat, i: nat)
    requires HalfTurn(x, n, m) && i < Pow2(n + 1)
    ensures PowMod(x, i, m) > 0
  {
    hide MulMod, PowMod, Pow2;
    FullTurn(x, n, m);
    PowAdd(x, i, Pow2(n + 1) - i, m);
    MulModZero(PowMod(x, Pow2(n + 1) - i, m), m);
  }

  lemma MulModZero(a: nat, m: nat)
    requires m > 0
    ensures MulMod(0, a, m) == 0
  {
    assert 0 * a == 0;
  }

  ghost function Powers(x: nat, k: nat, m: nat): set<nat>
    requires m > 0
  {
    set i: nat | i < k :: PowMod(x, i, m)
  }

  lemma {:induction false} PowersCount(x: nat, n: nat, m: nat, k: nat)
    requires HalfTurn(x, n, m) && k <= Pow2(n + 1)
    ensures |Powers(x, k, m)| == k
  {
    hide MulMod, PowMod, Pow2;
    if k == 0 {
      assert Powers(x, k, m) == {};
    } else {
      PowersCount(x, n, m, k - 1);
      var last := PowMod(x, k - 1, m);
      assert Powers(x, k, m) == Powers(x, k - 1, m) + {last};
      if last in Powers(x, k - 1, m) {
        var i: nat :| i < k - 1 && PowMod(x, i, m) == last;
        PowersDiffer(x, n, m, i, k - 1);
      }
    }
  }

  lemma {:induction false} RangeSize(s: set<nat>, m: nat)
    requires m > 0 && forall y :: y in s ==> 0 < y < m
    ensures |s| < m
  {
    if m == 1 {
      assert s == {};
    } else {
      RangeSize(s - {m - 1}, m - 1);
    }
  }

  lemma ResiduesNeeded(x: nat, n: nat, m: nat)
    requires HalfTurn(x, n, m)
    ensures m > Pow2(n + 1)
  {
    var order := Pow2(n + 1);
    PowersCount(x, n, m, order);
    forall y | y in Powers(x, order, m) ensures 0 < y < m {
      var i: nat :| i < order && PowMod(x, i, m) == y;
      PowersNonzero(x, n, m, i);
    }
    RangeSize(Powers(x, order, m), m);
  }

  // The modulus

  /** A 2^32-nd root of unity. */
  const ROOT := 1753635133440165772

  /** `ROOT` squared `k` times, modulo `P`. */
  function Squared(k: nat): (y: nat)
    ensures y < P
  {
    if k == 0 then ROOT else MulMod(Squared(k - 1), Squared(k - 1), P)
  }

  lemma SquareStep(k: nat, y: nat, z: nat)
    requires Squared(k) == y && y * y % P == z
    ensures Squared(k + 1) == z
  {
  }

  lemma HalfTurnOfRoot()
    ensures Squared(31) == P - 1
  {
    hide Squared;
    SquareStart();
    SquareStep(0, 1753635133440165772, 4614640910117430873);
    SquareStep(1, 4614640910117430873, 9123114210336311365);
    SquareStep(2, 9123114210336311365, 16116352524544190054);
    SquareStep(3, 16116352524544190054, 6414415596519834757);
    SquareStep(4, 6414415596519834757, 1213594585890690845);
    SquareStep(5, 1213594585890690845, 17096174751763063430);
    SquareStep(6, 17096174751763063430, 5456943929260765144);
    SquareStep(7, 5456943929260765144, 9713644485405565297);
    SquareStep(8, 9713644485405565297, 16905767614792059275);
    SquareStep(9, 16905767614792059275, 5416168637041100469);
    SquareStep(10, 5416168637041100469, 17654865857378133588);
    SquareStep(11, 17654865857378133588, 3511170319078647661);
    SquareStep(12, 3511170319078647661, 18146160046829613826);
    SquareStep(13, 18146160046829613826, 9306717745644682924);
    SquareStep(14, 9306717745644682924, 12380578893860276750);
    SquareStep(15, 12380578893860276750, 6115771955107415310);
    SquareStep(16, 6115771955107415310, 17776499369601055404);
    SquareStep(17, 17776499369601055404, 16207902636198568418);
    SquareStep(18, 16207902636198568418, 1532612707718625687);
    SquareStep(19, 1532612707718625687, 17492915097719143606);
    SquareStep(20, 17492915097719143606, 455906449640507599);
    SquareStep(21, 455906449640507599, 11353340290879379826);
    SquareStep(22, 11353340290879379826, 1803076106186727246);
    SquareStep(23, 1803076106186727246, 13797081185216407910);
    SquareStep(24, 13797081185216407910, 17870292113338400769);
    SquareStep(25, 17870292113338400769, 549755813888);
    SquareStep(26, 549755813888, 70368744161280);
    SquareStep(27, 70368744161280, 17293822564807737345);
    SquareStep(28, 17293822564807737345, 18446744069397807105);
    SquareStep(29, 18446744069397807105, 281474976710656);
    SquareStep(30, 281474976710656, 18446744069414584320);
  }

  lemma SquareStart()
    ensures Squared(0) == ROOT
  {
  }

  lemma {:induction false} SquaredModDivisor(k: nat, r: nat, q: nat)
    requires r > 1 && q > 0 && P == r * q
    ensures PowMod(ROOT, Pow2(k), r) == Squared(k) % r
  {
    if k == 0 {
      MulModUnit(ROOT % r, r);
      ModMul(1 % r, ROOT, r);
      ModMul(1, ROOT, r);
      assert PowMod(ROOT, 1, r) == MulMod(PowMod(ROOT, 0, r), ROOT, r);
    } else {
      SquaredModDivisor(k - 1, r, q);
      var half, y := Pow2(k - 1), Squared(k - 1);
      assert Pow2(k) == half + half;
      PowAdd(ROOT, half, half, r);
      SquareModDivisor(y, r, q);
    }
  }

  lemma SquareModDivisor(y: nat, r: nat, q: nat)
    requires r > 1 && q > 0 && P == r * q
    ensures MulMod(y, y, P) % r == MulMod(y % r, y % r, r)
  {
    ModMod(y * y, r, q);
    ModMul(y, y, r);
    ModMul(y % r, y, r);
  }

  lemma Pow2Of32()
    ensures Pow2(32) == 0x1_0000_0000
  {
    assert Pow2(8) == 256;
    Pow2Add(8, 8);
    Pow2Add(16, 16);
  }

  /** A divisor of the modulus leaves room for all powers of the root, so it is large. */
  lemma DivisorIsLarge(r: nat, q: nat)
    requires r > 1 && q > 0 && P == r * q
    ensures r > 0x1_0000_0000
  {
    hide MulMod, PowMod, Pow2, Squared;
    assert r != 2 by { assert P % 2 == 1; }
    HalfTurnOfRoot();
    SquaredModDivisor(31, r, q);
    assert P - 1 == r * (q - 1) + (r - 1);
    ModUnique(P - 1, r, q - 1, r - 1);
    ResiduesNeeded(ROOT, 31, r);
    Pow2Of32();
  }

  /** The modulus is prime. */
  lemma ModulusIsPrime(r: nat, q: nat)
    requires P == r * q
    ensures r == 1 || q == 1
  {
    Factors(r, q);
    if r > 1 && q > 1 {
      DivisorIsLarge(r, q);
      assert q * r == P;
      DivisorIsLarge(q, r);
      Product(r, q, 0x1_0000_0001);
    }
  }

  lemma Factors(a: nat, b: nat)
    requires a * b > 0
    ensures 0 < a <= a * b && 0 < b <= a * b
  {
  }

  lemma Product(a: nat, b: nat, c: nat)
    requires a >= c && b >= c
    ensures a * b >= c * c
  {
    assert a * b >= c * b;
    assert c * b >= c * c;
  }

  // Inverses

  /** The coefficients of the extended Euclidean algorithm. */
  function Euclid(a: nat, b: nat): (int, int)
    decreases b
  {
    if b == 0 then (1, 0)
    else
      var (s, t) := Euclid(b, a % b);
      (t, s - a / b * t)
  }

  lemma {:induction false} EuclidCorrect(a: nat, b: nat) returns (g: nat, p: nat, q: nat)
    ensures a == g * p && b == g * q && a * Euclid(a, b).0 + b * Euclid(a, b).1 == g
    decreases b
  {
    if b == 0 {
      g, p, q := a, 1, 0;
    } else {
      var d, r := a / b, a % b;
      var p', q';
      g, p', q' := EuclidCorrect(b, r);
      var (s, t) := Euclid(b, r);
      assert a == b * d + r;
      p, q := p' * d + q', p';
      assert g * p == g * p' * d + g * q' by { Expand(g, p', d, q'); }
      Combine(b, d, r, s, t);
    }
  }

  lemma Expand(g: int, p: int, d: int, q: int)
    ensures g * (p * d + q) == g * p * d + g * q
  {
    assert g * (p * d) == g * p * d;
  }

  lemma Combine(b: int, d: int, r: int, s: int, t: int)
    ensures (b * d + r) * t + b * (s - d * t) == b * s + r * t
  {
    assert (b * d + r) * t == b * d * t + r * t;
    assert b * (s - d * t) == b * s - b * (d * t);
    assert b * d * t == b * (d * t);
  }

  function Inverse(x: Felt): Felt {
    (Euclid(x as int, P).0 % P) as Felt
  }

  lemma InverseCorrect(x: Felt)
    requires x != 0
    ensures x as int * Inverse(x) as int % P == 1
  {
    var a := x as int;
    var g, p, q := EuclidCorrect(a, P);
    Factors(g, p);
    ModulusIsPrime(g, q);
    var (s, t) := Euclid(a, P);
    ModMul(a, s, P);
    ModShift(1, -t, P);
    assert a * s == 1 + P * -t by { assert P * -t == -(P * t); }
  }

  // The field

  function AddFelt(x: Felt, y: Felt): Felt { ((x as int + y as int) % P) as Felt }

  function NegFelt(x: Felt): Felt { ((P - x as int) % P) as Felt }

  function MulFelt(x: Felt, y: Felt): Felt { (x as int * y as int % P) as Felt }

  function BaseField(): Field<Felt> {
    Field(0, 1, AddFelt, NegFelt, MulFelt, Inverse)
  }

  lemma AddAssoc(x: Felt, y: Felt, z: Felt)
    ensures AddFelt(AddFelt(x, y), z) == AddFelt(x, AddFelt(y, z))
  {
    ModAdd(x as int + y as int, z as int, P);
    ModAdd(x as int, y as int + z as int, P);
  }

  lemma AddLaws(x: Felt, y: Felt)
    ensures AddFelt(x, y) == AddFelt(y, x) && AddFelt(x, 0) == x && AddFelt(x, NegFelt(x)) == 0
  {
    var a := x as int;
    ModUnique(a, P, 0, a);
    ModAdd(a, P - a, P);
  }

  lemma MulLaws(x: Felt, y: Felt, z: Felt)
    ensures MulFelt(MulFelt(x, y), z) == MulFelt(x, MulFelt(y, z))
    ensures MulFelt(x, y) == MulFelt(y, x) && MulFelt(x, 1) == x
    ensures x != 0 ==> MulFelt(x, Inverse(x)) == 1
  {
    var a, b, c := x as int, y as int, z as int;
    MulModAssoc(a, b, c, P);
    MulModUnit(a, P);
    if x != 0 { InverseCorrect(x); }
  }

  lemma DistributiveLaw(x: Felt, y: Felt, z: Felt)
    ensures MulFelt(x, AddFelt(y, z)) == AddFelt(MulFelt(x, y), MulFelt(x, z))
  {
    var a, b, c := x as int, y as int, z as int;
    ModMul(a, b + c, P);
    assert a * (b + c) == a * b + a * c;
    ModAdd(a * b, a * c, P);
    ModAdd(a * b % P, a * c, P);
  }

  /** The base field is a field. */
  lemma BaseFieldIsField()
    ensures IsField(BaseField())
  {
    hide AddFelt, NegFelt, MulFelt, Inverse;
    forall x: Felt, y: Felt, z: Felt ensures Laws(BaseField(), x, y, z) {
      AddAssoc(x, y, z);
      AddLaws(x, y);
      MulLaws(x, y, z);
      DistributiveLaw(x, y, z);
    }
  }
}
