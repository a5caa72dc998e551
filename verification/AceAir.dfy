/** The constraints on the rows of the circuit-evaluation chiplet (miden-vm/air/src/constraints/chiplets/ace.rs), and
    the one shape of trace that meets them. */
module AceAir {
  import opened Fields
  import opened Circuit
  import opened Encoding
  import opened AceChiplet

  // Operators as field elements

  /** The value an EVAL row must output, with the operator as a field element: `op^2 (x + op y - x y) + x y`. */
  function Gate<T>(f: Field<T>, op: T, x: T, y: T): T {
    var linear, nonlinear := f.add(x, f.mul(y, op)), f.mul(x, y);
    f.add(f.mul(f.Sub(linear, nonlinear), f.mul(op, op)), nonlinear)
  }

  // Where the second identifier and the operator start in an instruction word
  const ID1_OFFSET := 0x4000_0000             // 2^30
  const ID2_OFFSET := 0x1000_0000_0000_0000   // 2^60

  /** The instruction word an EVAL row asks memory for. */
  function Word<T>(f: Field<T>, id1: T, id2: T, op: T): T {
    f.add(f.add(id1, f.mul(id2, f.OfNat(ID1_OFFSET))), f.mul(f.add(op, f.one), f.OfNat(ID2_OFFSET)))
  }

  /** An integer in the field. */
  function OfInt<T>(f: Field<T>, e: int): T {
    if e >= 0 then f.OfNat(e) else f.neg(f.OfNat(-e))
  }

  lemma SmallInts<T(!new)>(f: Field<T>)
    requires IsField(f)
    ensures OfInt(f, -1) == f.neg(f.one) && OfInt(f, 0) == f.zero && OfInt(f, 1) == f.one
  {
    assert f.OfNat(1) == f.add(f.OfNat(0), f.one);
    assert Laws(f, f.zero, f.one, f.one) && Laws(f, f.one, f.zero, f.zero);
  }

  lemma NegProduct<T(!new)>(f: Field<T>, x: T, y: T)
    requires IsField(f)
    ensures f.mul(x, f.neg(y)) == f.neg(f.mul(x, y)) && f.neg(f.neg(x)) == x
  {
    assert Laws(f, x, y, f.neg(y)) && Laws(f, y, y, y) && Laws(f, x, x, x) && Laws(f, f.neg(x), x, x);
    MulZero(f, x);
    NegUnique(f, f.mul(x, y), f.mul(x, f.neg(y)));
    NegUnique(f, f.neg(x), x);
  }

  lemma SquareOfSign<T(!new)>(f: Field<T>)
    requires IsField(f)
    ensures f.mul(f.neg(f.one), f.neg(f.one)) == f.one && f.mul(f.one, f.one) == f.one
    ensures f.mul(f.zero, f.zero) == f.zero
  {
    NegProduct(f, f.neg(f.one), f.one);
    NegProduct(f, f.one, f.one);
    assert Laws(f, f.neg(f.one), f.one, f.one) && Laws(f, f.one, f.one, f.one);
    MulZero(f, f.zero);
  }

  lemma SubAddBack<T(!new)>(f: Field<T>, x: T, y: T)
    requires IsField(f)
    ensures f.add(f.Sub(x, y), y) == x && f.Sub(f.add(x, y), y) == x
  {
    assert Laws(f, x, f.neg(y), y) && Laws(f, f.neg(y), y, y) && Laws(f, y, y, y) && Laws(f, x, x, x);
    assert Laws(f, x, y, f.neg(y));
  }

  /** With operator -1, 0 or 1 the constraint asks for the difference, the product or the sum. */
  lemma GateIsApply<T(!new)>(f: Field<T>, op: Operator, x: T, y: T)
    requires IsField(f)
    ensures Gate(f, OpColumn(f, op), x, y) == Apply(f, op, x, y)
  {
    var e := OpColumn(f, op);
    var linear, nonlinear := f.add(x, f.mul(y, e)), f.mul(x, y);
    SquareOfSign(f);
    MulZero(f, f.Sub(linear, nonlinear));
    assert Laws(f, f.Sub(linear, nonlinear), linear, linear) && Laws(f, y, y, y)
           && Laws(f, f.zero, nonlinear, nonlinear)
        && Laws(f, nonlinear, f.zero, f.zero);
    NegProduct(f, y, f.one);
    SubAddBack(f, linear, nonlinear);
  }

  /** The operator column can only hold -1, 0 or 1. */
  lemma TernaryOp<T(!new)>(f: Field<T>, e: T) returns (op: Operator)
    requires IsField(f) && f.mul(e, f.Sub(f.mul(e, e), f.one)) == f.zero
    ensures e == OpColumn(f, op)
  {
    NoZeroDivisors(f, e, f.Sub(f.mul(e, e), f.one));
    if e == f.zero { return Times; }
    SubZero(f, f.mul(e, e), f.one);
    // (e - 1)(e + 1) = e^2 - 1
    var minus, plus := f.Sub(e, f.one), f.add(e, f.one);
    assert f.mul(minus, plus) == f.zero by {
      assert Laws(f, minus, e, f.one) && Laws(f, e, minus, minus) && Laws(f, minus, e, e);
      MulSub(f, e, e, f.one);
      assert Laws(f, e, f.one, f.one);
      assert f.mul(minus, plus) == f.add(f.Sub(f.one, e), minus);
      assert Laws(f, f.one, f.neg(e), minus) && Laws(f, f.neg(e), e, f.neg(f.one)) && Laws(f, e, e, e)
          && Laws(f, f.neg(f.one), f.zero, f.zero) && Laws(f, f.zero, f.neg(f.one), f.neg(f.one))
          && Laws(f, f.one, f.one, f.one);
    }
    NoZeroDivisors(f, minus, plus);
    SubZero(f, e, f.one);
    assert Laws(f, e, f.one, f.one);
    NegUnique(f, f.one, e);
    op := if minus == f.zero then Plus else Minus;
  }

  lemma TernaryHolds<T(!new)>(f: Field<T>, op: Operator)
    requires IsField(f)
    ensures var e := OpColumn(f, op); f.mul(e, f.Sub(f.mul(e, e), f.one)) == f.zero
  {
    var e := OpColumn(f, op);
    SquareOfSign(f);
    SubZero(f, f.one, f.one);
    NoZeroDivisors(f, e, f.Sub(f.mul(e, e), f.one));
  }

  // Instruction words

  lemma {:induction false} OfNatProduct<T(!new)>(f: Field<T>, a: nat, b: nat)
    requires IsField(f)
    ensures f.OfNat(a * b) == f.mul(f.OfNat(a), f.OfNat(b))
  {
    if b == 0 {
      MulZero(f, f.OfNat(a));
    } else {
      OfNatProduct(f, a, b - 1);
      assert a * b == a * (b - 1) + a;
      OfNatSum(f, a * (b - 1), a);
      assert Laws(f, f.OfNat(a), f.OfNat(b - 1), f.one);
    }
  }

  /** The sign of an operator: its column entry as an integer. */
  function Sign(op: Operator): (e: int)
    ensures -1 <= e <= 1
  {
    match op
    case Minus => -1
    case Times => 0
    case Plus => 1
  }

  /** The word is linear in its two identifiers and the sign. */
  lemma WordOfNats<T(!new)>(f: Field<T>, l: nat, r: nat, op: Operator)
    requires IsField(f)
    ensures Word(f, f.OfNat(l), f.OfNat(r), OpColumn(f, op))
            == f.OfNat(l + r * ID1_OFFSET + (Sign(op) + 1) * ID2_OFFSET)
  {
    var big := ID2_OFFSET;
    var limit, tag: nat := ID1_OFFSET, Sign(op) + 1;
    SignTag(f, op);
    OfNatProduct(f, r, limit);
    OfNatProduct(f, tag, big);
    OfNatSum(f, l, r * limit);
    OfNatSum(f, l + r * limit, tag * big);
  }

  lemma SignTag<T(!new)>(f: Field<T>, op: Operator)
    requires IsField(f)
    ensures f.add(OpColumn(f, op), f.one) == f.OfNat(Sign(op) + 1)
  {
    assert f.OfNat(2) == f.add(f.OfNat(1), f.one) && f.OfNat(1) == f.add(f.OfNat(0), f.one);
    assert Laws(f, f.zero, f.one, f.one) && Laws(f, f.one, f.zero, f.zero) && Laws(f, f.one, f.neg(f.one), f.one);
  }

  lemma Digits(x: nat, l: nat, r: nat, t: nat)
    requires l < ID1_OFFSET && r < ID1_OFFSET && x == l + r * ID1_OFFSET + t * ID2_OFFSET
    ensures x % ID1_OFFSET == l && (x / ID1_OFFSET) % ID1_OFFSET == r && (x / ID1_OFFSET) / ID1_OFFSET == t
  {
    assert x / ID1_OFFSET == r + t * ID1_OFFSET;
  }

  /** What the decoder reads from a word is what the chiplet's constraints make of it.  A word decodes to two
      identifiers and an operator exactly when it is `l + r 2^30 + (e + 1) 2^60` for identifiers below `2^30` and the
      operator's sign `e` in {-1, 0, 1}; as field elements that is the word an EVAL row with these identifiers and
      operator `e` asks for; and on any two operands the operator yields `e^2 (u + e v) + (1 - e^2) u v`. */
  lemma DecodesAsConstrained<T(!new)>(f: Field<T>, x: nat, l: nat, r: nat, op: Operator)
    requires IsField(f)
    ensures DecodeInstruction(x) == Instruction(l, r, op) <==>
              l < ID1_OFFSET && r < ID1_OFFSET && x == l + r * ID1_OFFSET + (Sign(op) + 1) * ID2_OFFSET
    ensures DecodeInstruction(x) == Instruction(l, r, op) ==>
              f.OfNat(x) == Word(f, f.OfNat(l), f.OfNat(r), OfInt(f, Sign(op)))
    ensures forall u, v :: Blend(f, Sign(op), u, v) == Apply(f, op, u, v)
  {
    var tag: nat := Sign(op) + 1;
    if l < ID1_OFFSET && r < ID1_OFFSET && x == l + r * ID1_OFFSET + tag * ID2_OFFSET { Digits(x, l, r, tag); }
    if DecodeInstruction(x) == Instruction(l, r, op) {
      Rejoined(x);
      WordOfNats(f, l, r, op);
      SignColumn(f, op);
    }
    forall u, v ensures Blend(f, Sign(op), u, v) == Apply(f, op, u, v) { BlendIs(f, op, u, v); }
  }

  lemma Rejoined(x: nat)
    ensures x == x % ID1_OFFSET + (x / ID1_OFFSET) % ID1_OFFSET * ID1_OFFSET + (x / ID1_OFFSET) / ID1_OFFSET * ID2_OFFSET
  {
    var y := x / ID1_OFFSET;
    assert y == y % ID1_OFFSET + y / ID1_OFFSET * ID1_OFFSET;
  }

  lemma SignColumn<T(!new)>(f: Field<T>, op: Operator)
    requires IsField(f)
    ensures OfInt(f, Sign(op)) == OpColumn(f, op)
  {
    SmallInts(f);
  }

  /** `e^2 (u + e v) + (1 - e^2) u v` */
  function Blend<T>(f: Field<T>, e: int, u: T, v: T): T {
    var s := f.mul(OfInt(f, e), OfInt(f, e));
    f.add(f.mul(s, f.add(u, f.mul(OfInt(f, e), v))), f.mul(f.Sub(f.one, s), f.mul(u, v)))
  }

  lemma BlendIs<T(!new)>(f: Field<T>, op: Operator, u: T, v: T)
    requires IsField(f)
    ensures Blend(f, Sign(op), u, v) == Apply(f, op, u, v)
  {
    SignColumn(f, op);
    SquareOfSign(f);
    var e := OpColumn(f, op);
    var linear, nonlinear := f.add(u, f.mul(e, v)), f.mul(u, v);
    SubZero(f, f.one, f.one);
    SubZero(f, f.one, f.zero);
    MulZero(f, nonlinear);
    MulZero(f, linear);
    NegProduct(f, v, f.one);
    assert Laws(f, f.one, linear, linear) && Laws(f, linear, f.one, f.one) && Laws(f, f.one, nonlinear, nonlinear)
        && Laws(f, nonlinear, f.one, f.one) && Laws(f, f.zero, nonlinear, nonlinear) && Laws(f, e, v, v)
        && Laws(f, v, f.one, f.one) && Laws(f, nonlinear, f.zero, f.zero);
  }

  // Rows

  /** A row of the chiplet.  `id2` and `numEval` are the EVAL and the READ reading of one column, and so are a
      coordinate of `v2` and `m1`.  Values are single elements of the extension field; the other columns are of the
      base field. */
  datatype AceRow<T> = AceRow(
    start: T, block: T, ctx: T, clk: T, ptr: T, op: T,
    id0: T, v0: T, id1: T, v1: T, id2: T, v2: T, numEval: T, m0: nat, m1: nat)

  function Not<T>(f: Field<T>, x: T): T {
    f.Sub(f.one, x)
  }

  ghost predicate IsBit<T>(f: Field<T>, x: T) {
    x == f.zero || x == f.one
  }

  /** The constraints on each row of the chiplet. */
  ghost predicate RowHolds<T>(f: Field<T>, r: AceRow<T>) {
    && f.mul(r.start, f.Sub(r.start, f.one)) == f.zero
    && f.mul(r.block, f.Sub(r.block, f.one)) == f.zero
    && f.mul(r.start, r.block) == f.zero
    && f.mul(Not(f, r.block), f.Sub(r.id1, f.Sub(r.id0, f.one))) == f.zero
    && f.mul(r.block, f.mul(r.op, f.Sub(f.mul(r.op, r.op), f.one))) == f.zero
    && f.mul(r.block, f.Sub(r.v0, Gate(f, r.op, r.v1, r.v2))) == f.zero
  }

  /** The constraints on two rows of the chiplet that follow each other. */
  ghost predicate StepHolds<T>(f: Field<T>, r: AceRow<T>, s: AceRow<T>) {
    var read, inSection := Not(f, r.block), Not(f, s.start);
    && f.mul(r.start, s.start) == f.zero
    && f.mul(inSection, f.mul(r.block, Not(f, s.block))) == f.zero
    && f.mul(inSection, f.Sub(s.ctx, r.ctx)) == f.zero
    && f.mul(inSection, f.Sub(s.clk, r.clk)) == f.zero
    && f.mul(inSection, f.Sub(s.ptr, f.add(f.add(r.ptr, f.mul(read, f.OfNat(4))), r.block))) == f.zero
    && f.mul(inSection, f.Sub(r.id0, f.add(f.add(s.id0, f.add(read, read)), r.block))) == f.zero
    && f.mul(read, f.Sub(f.add(f.mul(Not(f, s.block), s.numEval), f.mul(s.block, s.id0)), r.numEval)) == f.zero
    && f.mul(s.start, read) == f.zero && f.mul(s.start, r.v0) == f.zero && f.mul(s.start, r.id0) == f.zero
  }

  /** The constraints on the chiplet's last row. */
  ghost predicate LastHolds<T>(f: Field<T>, r: AceRow<T>) {
    r.start == f.zero && Not(f, r.block) == f.zero && r.v0 == f.zero && r.id0 == f.zero
  }

  /** All constraints on the rows of the chiplet, which are together in the trace. */
  ghost predicate Constrained<T>(f: Field<T>, rows: seq<AceRow<T>>) {
    && |rows| > 0 && rows[0].start == f.one && LastHolds(f, rows[|rows| - 1])
    && (forall i :: 0 <= i < |rows| ==> RowHolds(f, rows[i]))
    && (forall i :: 0 <= i < |rows| - 1 ==> StepHolds(f, rows[i], rows[i + 1]))
  }

  // What the constraints say

  ghost predicate RowMeans<T>(f: Field<T>, r: AceRow<T>) {
    && IsBit(f, r.start) && IsBit(f, r.block)
    && (r.start == f.one ==> r.block == f.zero)
    && (r.block == f.zero ==> r.id0 == f.add(r.id1, f.one))
    && (r.block == f.one ==> Evaluates(f, r))
  }

  /** The row applies one of the three operators to its operands. */
  ghost predicate Evaluates<T>(f: Field<T>, r: AceRow<T>) {
    exists op: Operator :: r.op == OpColumn(f, op) && r.v0 == Apply(f, op, r.v1, r.v2)
  }

  ghost predicate Ended<T>(f: Field<T>, r: AceRow<T>) {
    r.block == f.one && r.v0 == f.zero && r.id0 == f.zero
  }

  /** Within a section: READ rows move the pointer by four and take two identifiers, EVAL rows one and one. */
  ghost predicate Continues<T>(f: Field<T>, r: AceRow<T>, s: AceRow<T>) {
    && s.ctx == r.ctx && s.clk == r.clk && (r.block == f.one ==> s.block == f.one)
    && s.ptr == f.add(r.ptr, if r.block == f.zero then f.OfNat(4) else f.one)
    && r.id0 == f.add(s.id0, if r.block == f.zero then f.add(f.one, f.one) else f.one)
  }

  ghost predicate StepMeans<T>(f: Field<T>, r: AceRow<T>, s: AceRow<T>) {
    && (s.start == f.one ==> r.start != f.one && Ended(f, r))
    && (s.start == f.zero ==> Continues(f, r, s))
    && (r.block == f.zero ==> r.numEval == if s.block == f.zero then s.numEval else s.id0)
  }

  lemma Bits<T(!new)>(f: Field<T>, x: T)
    requires IsField(f)
    ensures f.mul(x, f.Sub(x, f.one)) == f.zero <==> IsBit(f, x)
    ensures Not(f, f.zero) == f.one && Not(f, f.one) == f.zero
  {
    NoZeroDivisors(f, x, f.Sub(x, f.one));
    SubZero(f, x, f.one);
    SubZero(f, f.one, f.zero);
    SubZero(f, f.one, f.one);
  }

  /** A constraint behind a selector bit. */
  lemma Selected<T(!new)>(f: Field<T>, bit: T, x: T)
    requires IsField(f) && IsBit(f, bit)
    ensures f.mul(bit, x) == f.zero <==> (bit == f.one ==> x == f.zero)
    ensures f.mul(Not(f, bit), x) == f.zero <==> (bit == f.zero ==> x == f.zero)
  {
    Bits(f, bit);
    NoZeroDivisors(f, bit, x);
    NoZeroDivisors(f, Not(f, bit), x);
    assert Laws(f, x, x, x);
  }

  lemma Equation<T(!new)>(f: Field<T>, bit: T, x: T, y: T)
    requires IsField(f) && IsBit(f, bit)
    ensures f.mul(bit, f.Sub(x, y)) == f.zero <==> (bit == f.one ==> x == y)
    ensures f.mul(Not(f, bit), f.Sub(x, y)) == f.zero <==> (bit == f.zero ==> x == y)
  {
    Selected(f, bit, f.Sub(x, y));
    SubZero(f, x, y);
  }

  lemma EvaluatesIff<T(!new)>(f: Field<T>, r: AceRow<T>)
    requires IsField(f)
    ensures Evaluates(f, r) <==>
              f.mul(r.op, f.Sub(f.mul(r.op, r.op), f.one)) == f.zero && r.v0 == Gate(f, r.op, r.v1, r.v2)
  {
    hide OpColumn, Gate, Apply, IsField;
    if f.mul(r.op, f.Sub(f.mul(r.op, r.op), f.one)) == f.zero && r.v0 == Gate(f, r.op, r.v1, r.v2) {
      var op := TernaryOp(f, r.op);
      GateIsApply(f, op, r.v1, r.v2);
    }
    if Evaluates(f, r) {
      var op :| r.op == OpColumn(f, op) && r.v0 == Apply(f, op, r.v1, r.v2);
      GateIsApply(f, op, r.v1, r.v2);
      TernaryHolds(f, op);
    }
  }

  lemma OneLess<T(!new)>(f: Field<T>, x: T, y: T)
    requires IsField(f)
    ensures x == f.Sub(y, f.one) <==> y == f.add(x, f.one)
  {
    SubAddBack(f, y, f.one);
    SubAddBack(f, x, f.one);
  }

  /** The row constraints hold exactly when the row is a well-formed READ or EVAL row. */
  lemma RowMeaning<T(!new)>(f: Field<T>, r: AceRow<T>)
    requires IsField(f)
    ensures RowHolds(f, r) <==> RowMeans(f, r)
  {
    hide IsField, Gate, Evaluates, Not;
    Bits(f, r.start);
    Bits(f, r.block);
    assert Not(f, f.zero) == f.one;
    if IsBit(f, r.start) && IsBit(f, r.block) {
      Selected(f, r.start, r.block);
      Equation(f, r.block, r.id1, f.Sub(r.id0, f.one));
      OneLess(f, r.id1, r.id0);
      Selected(f, r.block, f.mul(r.op, f.Sub(f.mul(r.op, r.op), f.one)));
      Equation(f, r.block, r.v0, Gate(f, r.op, r.v1, r.v2));
      EvaluatesIff(f, r);
      ZeroNotOne(f);
    }
  }

  lemma ZeroNotOne<T(!new)>(f: Field<T>)
    requires IsField(f)
    ensures f.zero != f.one
  {
    assert Laws(f, f.zero, f.zero, f.zero);
  }

  lemma BlockTerms<T(!new)>(f: Field<T>, block: T, x: T, y: T)
    requires IsField(f) && IsBit(f, block)
    ensures f.add(f.add(x, f.mul(Not(f, block), f.OfNat(4))), block)
            == f.add(x, if block == f.zero then f.OfNat(4) else f.one)
    ensures f.add(f.add(y, f.add(Not(f, block), Not(f, block))), block)
            == f.add(y, if block == f.zero then f.add(f.one, f.one) else f.one)
  {
    Bits(f, block);
    var four := f.OfNat(4);
    MulZero(f, four);
    ZeroNotOne(f);
    assert Laws(f, f.one, four, four) && Laws(f, four, f.one, f.one);
    assert Laws(f, f.add(x, four), f.zero, f.zero) && Laws(f, x, f.zero, f.zero);
    assert Laws(f, f.add(y, f.add(f.one, f.one)), f.zero, f.zero) && Laws(f, y, f.zero, f.zero);
    assert Laws(f, f.zero, f.zero, f.zero);
  }

  lemma SelectedSum<T(!new)>(f: Field<T>, bit: T, x: T, y: T)
    requires IsField(f) && IsBit(f, bit)
    ensures f.add(f.mul(Not(f, bit), x), f.mul(bit, y)) == if bit == f.zero then x else y
  {
    Bits(f, bit);
    ZeroNotOne(f);
    MulZero(f, x);
    MulZero(f, y);
    assert Laws(f, x, f.one, f.zero) && Laws(f, y, f.one, f.zero) && Laws(f, f.one, x, x) && Laws(f, f.one, y, y)
        && Laws(f, x, f.zero, f.zero) && Laws(f, y, f.zero, f.zero) && Laws(f, f.zero, y, y);
  }

  /** The step constraints hold exactly when the second row continues the section or the first one ends it. */
  lemma StepMeaning<T(!new)>(f: Field<T>, r: AceRow<T>, s: AceRow<T>)
    requires IsField(f) && RowMeans(f, r) && RowMeans(f, s)
    ensures StepHolds(f, r, s) <==> StepMeans(f, r, s)
  {
    hide IsField, Not, Evaluates;
    ZeroNotOne(f);
    Bits(f, s.block);
    Selected(f, r.start, s.start);
    Selected(f, s.start, f.mul(r.block, Not(f, s.block)));
    Selected(f, r.block, Not(f, s.block));
    Equation(f, s.start, s.ctx, r.ctx);
    Equation(f, s.start, s.clk, r.clk);
    BlockTerms(f, r.block, r.ptr, s.id0);
    Equation(f, s.start, s.ptr, f.add(r.ptr, if r.block == f.zero then f.OfNat(4) else f.one));
    Equation(f, s.start, r.id0, f.add(s.id0, if r.block == f.zero then f.add(f.one, f.one) else f.one));
    SelectedSum(f, s.block, s.numEval, s.id0);
    Equation(f, r.block, if s.block == f.zero then s.numEval else s.id0, r.numEval);
    Selected(f, s.start, Not(f, r.block));
    Selected(f, s.start, r.v0);
    Selected(f, s.start, r.id0);
  }
}
