/** The extension field that challenges, bus values and circuit wires live in: pairs of base-field elements, with the
    square of the second basis element equal to seven (miden-vm/air/src/constraints/ext_field.rs).  It is shown to be a
    field, so that every result about fields holds for the virtual machine's own. */
module QuadField {
  import opened Fields
  import opened Goldilocks
  import opened Fermat

  /** The square of the second basis element. */
  const W := 7

  datatype Quad = Quad(re: Felt, im: Felt)

  function AddQuad(a: Quad, b: Quad): Quad {
    Quad(AddFelt(a.re, b.re), AddFelt(a.im, b.im))
  }

  function NegQuad(a: Quad): Quad {
    Quad(NegFelt(a.re), NegFelt(a.im))
  }

  function Reduce(x: int): Felt {
    (x % P) as Felt
  }

  function Re(a0: int, a1: int, b0: int, b1: int): int { a0 * b0 + W * (a1 * b1) }

  function Im(a0: int, a1: int, b0: int, b1: int): int { a0 * b1 + a1 * b0 }

  function MulQuad(a: Quad, b: Quad): Quad {
    var a0, a1, b0, b1 := a.re as int, a.im as int, b.re as int, b.im as int;
    Quad(Reduce(Re(a0, a1, b0, b1)), Reduce(Im(a0, a1, b0, b1)))
  }

  function Norm(a: Quad): Felt {
    Reduce(a.re as int * a.re as int - W * (a.im as int * a.im as int))
  }

  function InvQuad(a: Quad): Quad {
    var i := Inverse(Norm(a));
    Quad(MulFelt(a.re, i), MulFelt(NegFelt(a.im), i))
  }

  function ExtensionField(): Field<Quad> {
    Field(Quad(0, 0), Quad(1, 0), AddQuad, NegQuad, MulQuad, InvQuad)
  }

  // Ring laws

  lemma ReduceSum(u: int, v: int, x: int, y: int)
    ensures Reduce((u % P) * x + (v % P) * y) == Reduce(u * x + v * y)
  {
    ModMul(u, x, P);
    ModMul(v, y, P);
    SumReduced((u % P) * x, u * x, (v % P) * y, v * y);
  }

  lemma SumReduced(p: int, p': int, q: int, q': int)
    requires p % P == p' % P && q % P == q' % P
    ensures Reduce(p + q) == Reduce(p' + q')
  {
    ModAdd(p, q, P);
    ModAdd(p % P, q, P);
    ModAdd(p', q', P);
    ModAdd(p' % P, q', P);
  }

  /** Operands may be reduced first. */
  lemma ReduceOperand(u: int, v: int, b0: int, b1: int)
    ensures Reduce(Re(u % P, v % P, b0, b1)) == Reduce(Re(u, v, b0, b1))
    ensures Reduce(Im(u % P, v % P, b0, b1)) == Reduce(Im(u, v, b0, b1))
  {
    assert Re(u % P, v % P, b0, b1) == (u % P) * b0 + (v % P) * (W * b1);
    assert Re(u, v, b0, b1) == u * b0 + v * (W * b1);
    ReduceSum(u, v, b0, W * b1);
    ReduceSum(u, v, b1, b0);
  }

  lemma ReComm(a0: int, a1: int, b0: int, b1: int)
    ensures Re(a0, a1, b0, b1) == Re(b0, b1, a0, a1) && Im(a0, a1, b0, b1) == Im(b0, b1, a0, a1)
  {
  }

  lemma ReAssoc(a0: int, a1: int, b0: int, b1: int, c0: int, c1: int)
    ensures Re(Re(a0, a1, b0, b1), Im(a0, a1, b0, b1), c0, c1) == Re(Re(b0, b1, c0, c1), Im(b0, b1, c0, c1), a0, a1)
    ensures Im(Re(a0, a1, b0, b1), Im(a0, a1, b0, b1), c0, c1) == Im(Re(b0, b1, c0, c1), Im(b0, b1, c0, c1), a0, a1)
  {
  }

  lemma MulCommQuad(a: Quad, b: Quad)
    ensures MulQuad(a, b) == MulQuad(b, a)
  {
    ReComm(a.re as int, a.im as int, b.re as int, b.im as int);
  }

  lemma MulAssocQuad(a: Quad, b: Quad, c: Quad)
    ensures MulQuad(MulQuad(a, b), c) == MulQuad(a, MulQuad(b, c))
  {
    hide Re, Im;
    MulCommQuad(a, MulQuad(b, c));
    var a0, a1, b0, b1, c0, c1 := a.re as int, a.im as int, b.re as int, b.im as int, c.re as int, c.im as int;
    ReduceOperand(Re(a0, a1, b0, b1), Im(a0, a1, b0, b1), c0, c1);
    ReduceOperand(Re(b0, b1, c0, c1), Im(b0, b1, c0, c1), a0, a1);
    ReAssoc(a0, a1, b0, b1, c0, c1);
  }

  lemma ReSum(a0: int, a1: int, b0: int, b1: int, c0: int, c1: int)
    ensures Re(b0 + c0, b1 + c1, a0, a1) == Re(a0, a1, b0, b1) + Re(a0, a1, c0, c1)
    ensures Im(b0 + c0, b1 + c1, a0, a1) == Im(a0, a1, b0, b1) + Im(a0, a1, c0, c1)
  {
  }

  lemma ReduceAdd(u: int, v: int)
    ensures AddFelt(Reduce(u), Reduce(v)) == Reduce(u + v)
  {
    ModAdd(u, v, P);
    ModAdd(u % P, v, P);
  }

  lemma DistributiveQuad(a: Quad, b: Quad, c: Quad)
    ensures MulQuad(a, AddQuad(b, c)) == AddQuad(MulQuad(a, b), MulQuad(a, c))
  {
    hide Re, Im;
    MulCommQuad(a, AddQuad(b, c));
    var a0, a1, b0, b1, c0, c1 := a.re as int, a.im as int, b.re as int, b.im as int, c.re as int, c.im as int;
    ReduceOperand(b0 + c0, b1 + c1, a0, a1);
    ReSum(a0, a1, b0, b1, c0, c1);
    ReduceAdd(Re(a0, a1, b0, b1), Re(a0, a1, c0, c1));
    ReduceAdd(Im(a0, a1, b0, b1), Im(a0, a1, c0, c1));
  }

  lemma AddLawsQuad(a: Quad, b: Quad, c: Quad)
    ensures AddQuad(AddQuad(a, b), c) == AddQuad(a, AddQuad(b, c)) && AddQuad(a, b) == AddQuad(b, a)
    ensures AddQuad(a, Quad(0, 0)) == a && AddQuad(a, NegQuad(a)) == Quad(0, 0)
  {
    hide AddFelt, NegFelt;
    AddAssoc(a.re, b.re, c.re);
    AddAssoc(a.im, b.im, c.im);
    AddLaws(a.re, b.re);
    AddLaws(a.im, b.im);
  }

  lemma MulOneQuad(a: Quad)
    ensures MulQuad(a, Quad(1, 0)) == a
  {
    ModUnique(a.re as int, P, 0, a.re as int);
    ModUnique(a.im as int, P, 0, a.im as int);
  }

  /** The three-multiplication form that the EXT2MUL operation is constrained by computes the product. */
  lemma ThreeMultiplications(a: Quad, b: Quad)
    ensures var f := BaseField();
            var low, high := f.mul(a.re, b.re), f.mul(a.im, b.im);
            MulQuad(a, b) == Quad(f.add(low, f.mul(high, W as Felt)),
                                  f.Sub(f.Sub(f.mul(f.add(a.re, a.im), f.add(b.re, b.im)), low), high))
  {
    hide AddFelt, NegFelt, MulFelt, Reduce, Re, Im;
    var a0, a1, b0, b1 := a.re as int, a.im as int, b.re as int, b.im as int;
    var low, high, cross := a0 * b0, a1 * b1, (a0 + a1) * (b0 + b1);
    Unreduced(a.re, b.re);
    Unreduced(a.im, b.im);
    Unreduced(a.re, a.im);
    Unreduced(b.re, b.im);
    ReduceProduct(high, W);
    ReduceAdd(low, high * W);
    CrossTerms(a0, a1, b0, b1);
    ReduceProduct(a0 + a1, b0 + b1);
    ReduceMinus(cross, low);
    ReduceMinus(cross - low, high);
  }

  lemma Unreduced(x: Felt, y: Felt)
    ensures MulFelt(x, y) == Reduce(x as int * y as int) && AddFelt(x, y) == Reduce(x as int + y as int)
    ensures Reduce(W) == W as Felt
  {
  }

  lemma CrossTerms(a0: int, a1: int, b0: int, b1: int)
    ensures (a0 + a1) * (b0 + b1) - a0 * b0 - a1 * b1 == Im(a0, a1, b0, b1)
    ensures a0 * b0 + a1 * b1 * W == Re(a0, a1, b0, b1)
  {
  }

  lemma ReduceProduct(u: int, v: int)
    ensures MulFelt(Reduce(u), Reduce(v)) == Reduce(u * v)
  {
    ModMul(u, v, P);
    ModMul(u % P, v, P);
  }

  lemma ReduceMinus(u: int, v: int)
    ensures AddFelt(Reduce(u), NegFelt(Reduce(v))) == Reduce(u - v)
  {
    var n := v % P;
    ModAdd(u, (P - n) % P, P);
    ModAdd(u, P - n, P);
    assert u + (P - n) == u - v + P * (v / P + 1);
    ModShift(u - v, v / P + 1, P);
  }

  // Inverses

  /** The product with the conjugate is the norm. */
  lemma TimesConjugate(a0: int, a1: int, i: int)
    ensures Re(a0 * i, -a1 * i, a0, a1) == (a0 * a0 - W * (a1 * a1)) * i
    ensures Im(a0 * i, -a1 * i, a0, a1) == 0
  {
  }

  lemma InverseParts(a: Quad, i: Felt)
    ensures MulFelt(a.re, i) as int == (a.re as int * i as int) % P
    ensures MulFelt(NegFelt(a.im), i) as int == (-(a.im as int) * i as int) % P
  {
    var a1, k := a.im as int, i as int;
    ModMul(P - a1, k, P);
    assert (P - a1) * k == -a1 * k + P * k;
    ModShift(-a1 * k, k, P);
  }

  lemma InverseQuad(a: Quad)
    requires Norm(a) != 0
    ensures MulQuad(a, InvQuad(a)) == Quad(1, 0)
  {
    hide Re, Im;
    var i := Inverse(Norm(a));
    var a0, a1, k := a.re as int, a.im as int, i as int;
    MulCommQuad(a, InvQuad(a));
    InverseParts(a, i);
    ReduceOperand(a0 * k, -a1 * k, a0, a1);
    TimesConjugate(a0, a1, k);
    InverseCorrect(Norm(a));
    ModMul(a0 * a0 - W * (a1 * a1), k, P);
  }

  // Seven is not a square

  /** Seven to the power `2^k - 1`. */
  ghost predicate Chain(k: nat, y: nat) {
    PowMod(W, Pow2(k) - 1, P) == y
  }

  lemma DoubleStep(k: nat, y: nat, square: nat, z: nat)
    requires Chain(k, y) && y * y % P == square && square * W % P == z
    ensures Chain(k + 1, z)
  {
    var e := Pow2(k) - 1;
    PowAdd(W, e, e, P);
    assert Pow2(k + 1) - 1 == e + e + 1;
  }

  lemma ChainStart()
    ensures Chain(0, 1)
  {
  }

  lemma Chain8()
    ensures Chain(8, 8125271997680889877)
  {
    hide Chain;
    ChainStart();
    DoubleStep(0, 1, 1, 7);
    DoubleStep(1, 7, 49, 343);
    DoubleStep(2, 343, 117649, 823543);
    DoubleStep(3, 823543, 678223072849, 4747561509943);
    DoubleStep(4, 4747561509943, 1582037354089406189, 11074261478625843323);
    DoubleStep(5, 11074261478625843323, 14911712358349047125, 12148266161370408270);
    DoubleStep(6, 12148266161370408270, 14177331716484271384, 7007601668316978083);
    DoubleStep(7, 7007601668316978083, 1160753142525841411, 8125271997680889877);
  }

  lemma Chain16()
    ensures Chain(16, 12134830135347446949)
  {
    hide Chain;
    Chain8();
    DoubleStep(8, 8125271997680889877, 10915923311382173605, 2624486902016877951);
    DoubleStep(9, 2624486902016877951, 1179017105118043277, 8253119735826302939);
    DoubleStep(10, 8253119735826302939, 13682469552810377440, 3543566522599720475);
    DoubleStep(11, 3543566522599720475, 12252646851770615269, 11981551684735969599);
    DoubleStep(12, 11981551684735969599, 9343193256669382154, 10062120588441922115);
    DoubleStep(13, 10062120588441922115, 4133221502128927102, 10485806445487905393);
    DoubleStep(14, 10485806445487905393, 5861853314594190514, 4139485063330164956);
    DoubleStep(15, 4139485063330164956, 7004045467739516513, 12134830135347446949);
  }

  lemma Chain24()
    ensures Chain(24, 8935258787870022506)
  {
    hide Chain;
    Chain16();
    DoubleStep(16, 12134830135347446949, 618113109518621269, 4326791766630348883);
    DoubleStep(17, 4326791766630348883, 13205783127219969319, 206761543466863628);
    DoubleStep(18, 206761543466863628, 14617186517222294718, 10086585273483141421);
    DoubleStep(19, 10086585273483141421, 5535602650859329748, 1855730417186139594);
    DoubleStep(20, 1855730417186139594, 3724741596018185032, 7626447102712710903);
    DoubleStep(21, 7626447102712710903, 11653985196031332500, 7790920094560990216);
    DoubleStep(22, 7790920094560990216, 16654626667483233145, 5901922255895126089);
    DoubleStep(23, 5901922255895126089, 9182212999444825067, 8935258787870022506);
  }

  /** The root of unity is a power of seven. */
  lemma RootFromSeven()
    ensures Chain(32, ROOT)
  {
    hide Chain;
    Chain24();
    DoubleStep(24, 8935258787870022506, 17682034324931514088, 13093775858033092690);
    DoubleStep(25, 13093775858033092690, 9511995656157268947, 11243737384857129666);
    DoubleStep(26, 11243737384857129666, 16106297366990222687, 2063617152444052883);
    DoubleStep(27, 2063617152444052883, 4501656151559876649, 13064848991504552222);
    DoubleStep(28, 13064848991504552222, 2370486178716065012, 16593403251012455084);
    DoubleStep(29, 16593403251012455084, 14013264900002007546, 5859133952941131217);
    DoubleStep(30, 5859133952941131217, 10142762553374040318, 15659105665374529263);
    DoubleStep(31, 15659105665374529263, 16062014221418238814, 1753635133440165772);
  }

  /** Half way round the nonzero elements, seven is at minus one. */
  lemma SevenHalfWay()
    ensures PowMod(W, (P - 1) / 2, P) == P - 1
  {
    hide PowMod, Pow2, Squared, MulMod;
    RootFromSeven();
    HalfTurnOfRoot();
    SquaredModDivisor(31, P, 1);
    PowMul(W, Pow2(32) - 1, Pow2(31), P);
    Pow2Of32();
    HalfPow();
  }

  lemma HalfPow()
    ensures 2 * Pow2(31) == Pow2(32)
  {
  }

  function Unit(i: nat): Felt
    requires i < P - 1
  {
    (i + 1) as Felt
  }

  ghost function AllUnits(): (units: seq<Felt>)
    ensures |units| == P - 1 && forall i :: 0 <= i < P - 1 ==> units[i] == Unit(i)
  {
    seq(P - 1, i requires 0 <= i < P - 1 => Unit(i))
  }

  lemma AllUnitsAreUnits()
    ensures Units(BaseField(), AllUnits())
  {
    var units := AllUnits();
    forall x: Felt ensures x in units <==> x != 0 {
      if x != 0 { assert units[x as int - 1] == x; }
    }
  }

  lemma {:induction false} PowIsPowMod(x: Felt, n: nat)
    ensures BaseField().Pow(x, n) as int == PowMod(x as int, n, P)
  {
    if n > 0 { PowIsPowMod(x, n - 1); }
  }

  lemma FermatModP(x: Felt)
    requires x != 0
    ensures PowMod(x as int, P - 1, P) == 1
  {
    hide PowMod, AllUnits;
    BaseFieldIsField();
    AllUnitsAreUnits();
    LittleTheorem(BaseField(), x, AllUnits());
    PowIsPowMod(x, P - 1);
  }

  lemma SquareMod(z: nat)
    requires z < P
    ensures PowMod(z, 2, P) == z * z % P
  {
    MulModUnit(z, P);
    assert PowMod(z, 1, P) == MulMod(PowMod(z, 0, P), z, P) == z;
  }

  lemma SevenIsNoSquare(z: Felt)
    ensures MulFelt(z, z) != W as Felt
  {
    hide PowMod;
    if z != 0 {
      var h := (P - 1) / 2;
      assert 2 * h == P - 1;
      FermatModP(z);
      PowMul(z as int, 2, h, P);
      SquareMod(z as int);
      SevenHalfWay();
    }
  }

  /** Only zero has norm zero. */
  lemma NormNonzero(a: Quad)
    requires a != Quad(0, 0)
    ensures Norm(a) != 0
  {
    if a.im == 0 {
      NoNilpotents(a.re);
    } else if Norm(a) == 0 {
      var a0, a1 := a.re as int, a.im as int;
      var i := Inverse(a.im) as int;
      InverseCorrect(a.im);
      SevenIsNoSquare(MulFelt(a.re, Inverse(a.im)));
      QuotientSquare(a0, a1, i);
    }
  }

  lemma NoNilpotents(x: Felt)
    requires x != 0
    ensures Reduce(x as int * x as int) != 0
  {
    InverseCorrect(x);
    SquareNonzero(x as int, Inverse(x) as int);
  }

  lemma SquareNonzero(a: int, i: int)
    requires 0 < a < P && a * i % P == 1
    ensures a * a % P != 0
  {
    var square, product := a * a, a * i;
    Reassociate(a, i);
    ModMul(square, i, P);
    ModMul(a, product, P);
    ModUnique(a, P, 0, a);
  }

  lemma Reassociate(a: int, i: int)
    ensures (a * a) * i == a * (a * i)
  {
  }

  /** If `a0^2 = 7 a1^2` then `a0 / a1` squares to seven. */
  lemma QuotientSquare(a0: int, a1: int, i: int)
    requires (a0 * a0 - W * (a1 * a1)) % P == 0 && a1 * i % P == 1
    ensures (a0 * i % P) * (a0 * i % P) % P == W
  {
    var d, e, x := a0 * a0 - W * (a1 * a1), a1 * i, a0 * i;
    ModMul(x, x % P, P);
    ModMul(x, x, P);
    Regroup(a0, a1, i);
    assert x * x == d * (i * i) + W * (e * e);
    SevenLeft(d, i * i, e);
  }

  lemma SevenLeft(d: int, k: int, e: int)
    requires d % P == 0 && e % P == 1
    ensures (d * k + W * (e * e)) % P == W
  {
    ModMulLeft(d, k, P);
    ModMulLeft(e, e, P);
    ModMul(W, e * e, P);
    ModAdd(d * k, W * (e * e), P);
  }

  lemma Regroup(a0: int, a1: int, i: int)
    ensures a0 * i * (a0 * i) == (a0 * a0 - W * (a1 * a1)) * (i * i) + W * (a1 * i * (a1 * i))
  {
  }

  /** The extension field is a field. */
  lemma ExtensionIsField()
    ensures IsField(ExtensionField())
  {
    hide AddQuad, NegQuad, MulQuad, InvQuad;
    forall a: Quad, b: Quad, c: Quad ensures Laws(ExtensionField(), a, b, c) {
      AddLawsQuad(a, b, c);
      MulCommQuad(a, b);
      MulAssocQuad(a, b, c);
      MulOneQuad(a);
      DistributiveQuad(a, b, c);
      if a != Quad(0, 0) {
        NormNonzero(a);
        InverseQuad(a);
      }
    }
  }
}
