/** 32-bit operations over the base field: what the processor computes, the helper registers it fills in
    (miden-vm/processor/src/tracer.rs), and the constraints on both (miden-vm/air/src/constraints/stack/stack_arith). */
module U32 {
  import opened Common
  import opened Fields
  import opened Goldilocks

  const TWO_POW_16 := 0x1_0000
  const TWO_POW_32 := 0x1_0000_0000
  const TWO_POW_48 := 0x1_0000_0000_0000
  const TWO_POW_63 := 0x8000_0000_0000_0000
  const TWO_POW_64 := 0x1_0000_0000_0000_0000

  datatype Op = Split | Add | Add3 | Sub | Mul | Madd | Div | Assert2

  predicate IsU32(x: Felt) { x as int < TWO_POW_32 }

  // What the processor computes

  /** The low and the high half of a 64-bit value. */
  function Halves(n: nat): (Felt, Felt)
    requires n < TWO_POW_64
  {
    ((n % TWO_POW_32) as Felt, (n / TWO_POW_32) as Felt)
  }

  function Operands(op: Op): nat {
    match op case Split => 0 case Add3 => 3 case Madd => 3 case _ => 2
  }

  predicate OperandsAreU32(op: Op, s: seq<Felt>)
    requires |s| == 3
  {
    forall i :: 0 <= i < Operands(op) ==> IsU32(s[i])
  }

  /** A product of two 32-bit values plus a third stays below the modulus. */
  lemma MaddFits(a: nat, b: nat, c: nat)
    requires a < TWO_POW_32 && b < TWO_POW_32 && c < TWO_POW_32
    ensures a * b + c < P
  {
    Product(TWO_POW_32 - 1, TWO_POW_32 - 1, if a < b then b else a);
    AtMost(a, b, if a < b then b else a);
  }

  lemma AtMost(a: nat, b: nat, m: nat)
    requires a <= m && b <= m
    ensures a * b <= m * m
  {
    assert a * b <= m * b;
    assert m * b <= m * m;
  }

  function MaddHalves(a: nat, b: nat, c: nat): (Felt, Felt)
    requires a < TWO_POW_32 && b < TWO_POW_32 && c < TWO_POW_32
  {
    MaddFits(a, b, c);
    Halves(a * b + c)
  }

  lemma Quotients(a: nat, b: nat)
    requires b > 0
    ensures a == b * (a / b) + a % b && 0 <= a % b < b && 0 <= a / b <= a
  {
    MulLe(1, b, a / b);
  }

  lemma MulLe(x: int, y: int, z: int)
    requires x <= y && z >= 0
    ensures x * z <= y * z
  {
  }

  /** The remainder and the quotient. */
  function Divided(a: nat, b: nat): (Felt, Felt)
    requires a < TWO_POW_32 && b > 0
  {
    Quotients(a, b);
    ((a % b) as Felt, (a / b) as Felt)
  }

  /** The two elements on top of the stack after the operation on `s`, or `None` when an operand is not 32-bit or the
      divisor is zero. */
  function Execute(op: Op, s: seq<Felt>): Option<(Felt, Felt)>
    requires |s| == 3
  {
    if !OperandsAreU32(op, s) then None
    else
      var a, b, c := s[0] as int, s[1] as int, s[2] as int;
      match op
      case Split => Some(Halves(a))
      case Add => Some(Halves(a + b))
      case Add3 => Some(Halves(a + b + c))
      case Sub =>
        // the top of the stack is subtracted from the second element, modulo 2^64
        var result := (b - a) % TWO_POW_64;
        Some(((result / TWO_POW_63) as Felt, (result % TWO_POW_32) as Felt))
      case Mul => Some(MaddHalves(a, b, 0))
      case Madd => Some(MaddHalves(a, b, c))
      case Div =>
        // the second element is divided by the top; the remainder ends on top
        if a == 0 then None else Some(Divided(b, a))
      case Assert2 => Some((s[0], s[1]))
  }

  /** When an operation runs, and what its two results are as integers. */
  lemma ExecuteMeans(op: Op, s: seq<Felt>)
    requires |s| == 3
    ensures Execute(op, s).Some? <==>
              && (op.Split? || (IsU32(s[0]) && IsU32(s[1]))) && (op.Add3? || op.Madd? ==> IsU32(s[2]))
              && (op.Div? ==> s[0] != 0)
    ensures Execute(op, s).Some? ==>
              var a, b, c := s[0] as int, s[1] as int, s[2] as int;
              var n0, n1 := Execute(op, s).value.0 as int, Execute(op, s).value.1 as int;
              && n0 < TWO_POW_32 && n1 < TWO_POW_32
              && match op
                 case Split => n0 + n1 * TWO_POW_32 == a
                 case Add => n0 + n1 * TWO_POW_32 == a + b
                 case Add3 => n0 + n1 * TWO_POW_32 == a + b + c
                 case Sub => n0 <= 1 && n1 - n0 * TWO_POW_32 == b - a
                 case Mul => n0 + n1 * TWO_POW_32 == a * b
                 case Madd => n0 + n1 * TWO_POW_32 == a * b + c
                 case Div => b == a * n1 + n0 && n0 < a
                 case Assert2 => n0 == a && n1 == b
  {
    var a, b, c := s[0] as int, s[1] as int, s[2] as int;
    assert OperandsAreU32(op, s) <==>
             (op.Split? || (IsU32(s[0]) && IsU32(s[1]))) && (op.Add3? || op.Madd? ==> IsU32(s[2]));
    if OperandsAreU32(op, s) {
      if op.Mul? { MaddFits(a, b, 0); }
      if op.Madd? { MaddFits(a, b, c); }
      if op.Div? && a != 0 { Quotients(b, a); }
      if op.Sub? { Borrowed(b - a); }
    }
  }

  lemma Borrowed(d: int)
    requires -TWO_POW_32 < d < TWO_POW_32
    ensures var r := d % TWO_POW_64;
            r / TWO_POW_63 == (if d < 0 then 1 else 0) && r % TWO_POW_32 == if d < 0 then d + TWO_POW_32 else d
  {
    if d < 0 {
      assert d % TWO_POW_64 == d + TWO_POW_64;
      assert d + TWO_POW_64 == (TWO_POW_32 - 1) * TWO_POW_32 + (d + TWO_POW_32);
    }
  }

  // Helper registers

  datatype Helpers = Helpers(h0: Felt, h1: Felt, h2: Felt, h3: Felt, h4: Felt, h5: Felt)

  /** The low 16 bits and the next 16. */
  function Limbs(x: Felt): (Felt, Felt) {
    ((x as int % TWO_POW_16) as Felt, (x as int / TWO_POW_16 % TWO_POW_16) as Felt)
  }

  /** `try_inverse` or zero. */
  function InverseOrZero(x: Felt): Felt {
    if x == 0 then 0 else Inverse(x)
  }

  function Sub32Max(hi: Felt): Felt {
    AddFelt((TWO_POW_32 - 1) as Felt, NegFelt(hi))
  }

  /** The helper registers for two 32-bit values. */
  function UserOpHelpers(op: Op, first: Felt, second: Felt): Helpers {
    var (t0, t1) := Limbs(first);
    var (t2, t3) := Limbs(second);
    match op
    case Split | Mul | Madd => Helpers(t0, t1, t2, t3, InverseOrZero(Sub32Max(second)), 0)
    case Add | Add3 | Div => Helpers(t0, t1, t2, t3, 0, 0)
    case Sub => Helpers(t2, t3, 0, 0, 0, 0)
    case Assert2 => Helpers(t2, t3, t0, t1, 0, 0)
  }

  /** The helper registers the processor fills in: from the outputs, except that division uses `s1 - q` and
      `s0 - r - 1`. */
  function OwnHelpers(op: Op, s: seq<Felt>, first: Felt, second: Felt): Helpers
    requires |s| == 3
  {
    if op.Div? then UserOpHelpers(Div, Minus(s[1], second), Minus(Minus(s[0], first), 1))
    else UserOpHelpers(op, first, second)
  }

  function Minus(x: Felt, y: Felt): Felt { AddFelt(x, NegFelt(y)) }

  /** What the range checks on the helper registers enforce. */
  predicate RangeChecked(h: Helpers) {
    h.h0 as int < TWO_POW_16 && h.h1 as int < TWO_POW_16 && h.h2 as int < TWO_POW_16 && h.h3 as int < TWO_POW_16
  }

  // Constraints

  function VLo(h: Helpers): Felt { AddFelt(MulFelt(h.h1, TWO_POW_16 as Felt), h.h0) }

  function VHi(h: Helpers): Felt { AddFelt(MulFelt(h.h3, TWO_POW_16 as Felt), h.h2) }

  function V48(h: Helpers): Felt { AddFelt(MulFelt(h.h2, TWO_POW_32 as Felt), VLo(h)) }

  function V64(h: Helpers): Felt { AddFelt(MulFelt(h.h3, TWO_POW_48 as Felt), V48(h)) }

  /** The element validity check: `(1 - m (2^32 - 1 - v_hi)) v_lo = 0`. */
  predicate ValidElement(h: Helpers) {
    MulFelt(AddFelt(1, NegFelt(MulFelt(h.h4, Sub32Max(VHi(h))))), VLo(h)) == 0
  }

  /** The constraints on the next row.  That asserting leaves the two elements in place is the stack's own rule. */
  predicate Constraints(op: Op, s: seq<Felt>, h: Helpers, n0: Felt, n1: Felt)
    requires |s| == 3
  {
    match op
    case Split => ValidElement(h) && n0 == VLo(h) && n1 == VHi(h) && s[0] == V64(h)
    case Add => n0 == VLo(h) && n1 == VHi(h) && AddFelt(s[0], s[1]) == V48(h) && h.h3 == 0
    case Add3 => n0 == VLo(h) && n1 == VHi(h) && AddFelt(AddFelt(s[0], s[1]), s[2]) == V48(h) && h.h3 == 0
    case Sub =>
      && s[1] == AddFelt(AddFelt(s[0], n1), NegFelt(MulFelt(n0, TWO_POW_32 as Felt)))
      && (n0 == 0 || n0 == 1) && n1 == VLo(h)
    case Mul => ValidElement(h) && n0 == VLo(h) && n1 == VHi(h) && MulFelt(s[0], s[1]) == V64(h)
    case Madd => ValidElement(h) && n0 == VLo(h) && n1 == VHi(h) && AddFelt(MulFelt(s[0], s[1]), s[2]) == V64(h)
    case Div =>
      && s[1] == AddFelt(MulFelt(s[0], n1), n0)
      && Minus(s[1], n1) == VLo(h) && Minus(s[0], n0) == AddFelt(VHi(h), 1)
    case Assert2 => n0 == VHi(h) && n1 == VLo(h) && n0 == s[0] && n1 == s[1]
  }

  // Limbs as integers

  lemma SmallMul(x: Felt, k: nat)
    requires 0 < k < P && x as int * k < P
    ensures MulFelt(x, k as Felt) as int == x as int * k
  {
    ModUnique(x as int * k, P, 0, x as int * k);
  }

  lemma SmallAdd(x: Felt, y: Felt)
    requires x as int + y as int < P
    ensures AddFelt(x, y) as int == x as int + y as int
  {
    ModUnique(x as int + y as int, P, 0, x as int + y as int);
  }

  lemma LimbValues(h: Helpers)
    requires RangeChecked(h)
    ensures VLo(h) as int == h.h1 as int * TWO_POW_16 + h.h0 as int < TWO_POW_32
    ensures VHi(h) as int == h.h3 as int * TWO_POW_16 + h.h2 as int < TWO_POW_32
    ensures V48(h) as int == h.h2 as int * TWO_POW_32 + VLo(h) as int < TWO_POW_48
  {
    SmallMul(h.h1, TWO_POW_16);
    SmallMul(h.h3, TWO_POW_16);
    SmallMul(h.h2, TWO_POW_32);
    SmallAdd(MulFelt(h.h1, TWO_POW_16 as Felt), h.h0);
    SmallAdd(MulFelt(h.h3, TWO_POW_16 as Felt), h.h2);
    SmallAdd(MulFelt(h.h2, TWO_POW_32 as Felt), VLo(h));
  }

  lemma V64Value(h: Helpers)
    requires RangeChecked(h)
    ensures V64(h) as int == (VHi(h) as int * TWO_POW_32 + VLo(h) as int) % P
  {
    LimbValues(h);
    SmallMul(h.h3, TWO_POW_48);
  }

  /** The only pairs of halves that are not canonical end in a nonzero low half under an all-ones high half. */
  lemma CanonicalHalves(lo: nat, hi: nat)
    requires lo < TWO_POW_32 && hi < TWO_POW_32
    ensures hi * TWO_POW_32 + lo < P <==> (lo == 0 || hi < TWO_POW_32 - 1)
  {
  }

  lemma Sub32MaxZero(hi: Felt)
    requires IsU32(hi)
    ensures Sub32Max(hi) as int == TWO_POW_32 - 1 - hi as int
  {
    var k := TWO_POW_32 - 1 - hi as int;
    ModAdd(TWO_POW_32 - 1, P - hi as int, P);
    ModShift(k, 1, P);
    ModUnique(k, P, 0, k);
  }

  /** The validity check can be met exactly by canonical halves. */
  lemma ValidityMeaning(h: Helpers)
    requires RangeChecked(h)
    ensures ValidElement(h) ==> VHi(h) as int * TWO_POW_32 + VLo(h) as int < P
    ensures VHi(h) as int * TWO_POW_32 + VLo(h) as int < P && h.h4 == InverseOrZero(Sub32Max(VHi(h))) ==>
              ValidElement(h)
  {
    hide VLo, VHi, AddFelt, MulFelt, NegFelt, Sub32Max, Inverse;
    LimbValues(h);
    var lo, hi := VLo(h), VHi(h);
    CanonicalHalves(lo as int, hi as int);
    Sub32MaxZero(hi);
    var f, d := BaseField(), Sub32Max(hi);
    BaseFieldIsField();
    var product := f.mul(h.h4, d);
    NoZeroDivisors(f, f.Sub(1, product), lo);
    SubZero(f, 1, product);
    MulZero(f, h.h4);
    assert Laws(f, d, h.h4, d) && Laws(f, 1, 1, 1);
  }

  // Exactness, operation by operation

  lemma HalvesOf(n: nat, lo: nat, hi: nat)
    requires n == hi * TWO_POW_32 + lo && lo < TWO_POW_32
    ensures n % TWO_POW_32 == lo && n / TWO_POW_32 == hi
  {
  }

  lemma LimbsRecompose(x: Felt)
    requires IsU32(x)
    ensures var (t0, t1) := Limbs(x);
            && t0 as int < TWO_POW_16 && t1 as int < TWO_POW_16 && t1 as int * TWO_POW_16 + t0 as int == x as int
  {
  }

  /** Sound: whatever the helpers, the constraints force the processor's result. */
  lemma SplitSound(value: Felt, h: Helpers)
    requires RangeChecked(h) && ValidElement(h) && value == V64(h)
    ensures Halves(value as int) == (VLo(h), VHi(h))
  {
    hide VLo, VHi, V64, ValidElement;
    LimbValues(h);
    V64Value(h);
    ValidityMeaning(h);
    var n := VHi(h) as int * TWO_POW_32 + VLo(h) as int;
    ModUnique(n, P, 0, n);
    HalvesOf(n, VLo(h) as int, VHi(h) as int);
  }

  lemma SumSound(sum: nat, h: Helpers)
    requires RangeChecked(h) && h.h3 == 0 && sum < P && sum as Felt == V48(h)
    ensures Halves(sum) == (VLo(h), VHi(h))
  {
    hide VLo, VHi, V48;
    LimbValues(h);
    HalvesOf(sum, VLo(h) as int, VHi(h) as int);
  }

  /** The difference of two 32-bit values, from a borrow bit and a 32-bit result. */
  lemma SubSound(a: nat, b: nat, borrow: nat, diff: nat)
    requires a < TWO_POW_32 && b < TWO_POW_32 && borrow <= 1 && diff < TWO_POW_32
    requires a == (b + diff - borrow * TWO_POW_32) % P
    ensures var result := (a - b) % TWO_POW_64; borrow == result / TWO_POW_63 && diff == result % TWO_POW_32
  {
    var n := b + diff - borrow * TWO_POW_32;
    if n < 0 { ModUnique(n, P, -1, n + P); } else { ModUnique(n, P, 0, n); }
    assert n == a;
    if borrow == 0 {
      ModUnique(a - b, TWO_POW_64, 0, a - b);
    } else {
      ModUnique(a - b, TWO_POW_64, -1, a - b + TWO_POW_64);
    }
  }

  /** The processor's outputs with its own helpers meet the constraints. */
  lemma SplitComplete(n: nat, h: Helpers)
    requires n < P && RangeChecked(h) && (VLo(h), VHi(h)) == Halves(n) && h.h4 == InverseOrZero(Sub32Max(VHi(h)))
    ensures ValidElement(h) && n as Felt == V64(h)
  {
    hide VLo, VHi, V64, ValidElement;
    LimbValues(h);
    V64Value(h);
    ValidityMeaning(h);
    ModUnique(n, P, 0, n);
  }

  /** The helpers of 32-bit outputs recompose them. */
  lemma HelpersRecompose(op: Op, first: Felt, second: Felt)
    requires (op.Sub? || IsU32(first)) && IsU32(second)
    ensures var h := UserOpHelpers(op, first, second);
            && RangeChecked(h)
            && (op.Split? || op.Add? || op.Add3? || op.Mul? || op.Madd? || op.Div? ==> VLo(h) == first && VHi(h) == second)
            && (op.Sub? ==> VLo(h) == second)
            && (op.Assert2? ==> VHi(h) == first && VLo(h) == second)
            && h.h5 == 0 && (op.Sub? ==> h.h2 == h.h3 == 0)
            && if op.Split? || op.Mul? || op.Madd? then
                 if second as int == TWO_POW_32 - 1 then h.h4 == 0 else MulFelt(Sub32Max(second), h.h4) == 1
               else h.h4 == 0
  {
    hide VLo, VHi, MulFelt;
    MaxHelper(second);
    if !op.Sub? { LimbsRecompose(first); }
    LimbsRecompose(second);
    LimbValues(UserOpHelpers(op, first, second));
  }

  /** The element-validity helper inverts `2^32 - 1 - hi`, or is zero where there is no inverse. */
  lemma MaxHelper(hi: Felt)
    requires IsU32(hi)
    ensures var d := Sub32Max(hi);
            if hi as int == TWO_POW_32 - 1 then InverseOrZero(d) == 0 else MulFelt(d, InverseOrZero(d)) == 1
  {
    hide MulFelt, Inverse;
    var f, top := BaseField(), (TWO_POW_32 - 1) as Felt;
    BaseFieldIsField();
    SubZero(f, top, hi);
    assert Sub32Max(hi) == f.Sub(top, hi);
    assert Laws(f, Sub32Max(hi), 0, 0);
  }

  lemma SumComplete(sum: nat, h: Helpers)
    requires sum < TWO_POW_48 && RangeChecked(h) && (VLo(h), VHi(h)) == Halves(sum)
    ensures h.h3 == 0 && sum as Felt == V48(h)
  {
    hide VLo, VHi, V48;
    LimbValues(h);
  }

  lemma SubComplete(a: nat, b: nat)
    requires a < TWO_POW_32 && b < TWO_POW_32
    ensures var result := (a - b) % TWO_POW_64;
            var borrow, diff := result / TWO_POW_63, result % TWO_POW_32;
            borrow <= 1 && diff < TWO_POW_32 && a == b + diff - borrow * TWO_POW_32
  {
    if a < b { ModUnique(a - b, TWO_POW_64, -1, a - b + TWO_POW_64); } else { ModUnique(a - b, TWO_POW_64, 0, a - b); }
  }

  /** The constraint of the subtraction, on integers. */
  lemma SubValue(b: Felt, borrow: Felt, diff: Felt)
    requires borrow == 0 || borrow == 1
    ensures AddFelt(AddFelt(b, diff), NegFelt(MulFelt(borrow, TWO_POW_32 as Felt))) as int
            == (b as int + diff as int - borrow as int * TWO_POW_32) % P
  {
    SmallMul(borrow, TWO_POW_32);
    var s, k := b as int + diff as int, borrow as int * TWO_POW_32;
    ModAdd(s, (P - k) % P, P);
    ModAdd(s, P - k, P);
    ModShift(s - k, 1, P);
  }

  lemma SubExact(s: seq<Felt>, h: Helpers, n0: Felt, n1: Felt)
    requires |s| == 3 && OperandsAreU32(Sub, s)
    ensures RangeChecked(h) && Constraints(Sub, s, h, n0, n1) ==> Execute(Sub, s) == Some((n0, n1))
    ensures Execute(Sub, s) == Some((n0, n1)) && h == UserOpHelpers(Sub, n0, n1) ==>
              RangeChecked(h) && Constraints(Sub, s, h, n0, n1)
  {
    hide VLo, AddFelt, MulFelt, NegFelt, Limbs;
    assert IsU32(s[0]) && IsU32(s[1]);
    if RangeChecked(h) && Constraints(Sub, s, h, n0, n1) {
      LimbValues(h);
      SubValue(s[0], n0, n1);
      SubSound(s[1] as int, s[0] as int, n0 as int, n1 as int);
    }
    if Execute(Sub, s) == Some((n0, n1)) && h == UserOpHelpers(Sub, n0, n1) {
      SubComplete(s[1] as int, s[0] as int);
      HelpersRecompose(Sub, n0, n1);
      SubValue(s[0], n0, n1);
      ModUnique(s[1] as int, P, 0, s[1] as int);
    }
  }

  /** The value whose halves the operation puts on the stack, as an integer and as the field expression that the
      constraints use. */
  function Wide(op: Op, s: seq<Felt>): int
    requires |s| == 3
  {
    var a, b, c := s[0] as int, s[1] as int, s[2] as int;
    match op case Split => a case Add => a + b case Add3 => a + b + c case Mul => a * b case Madd => a * b + c case _ => 0
  }

  function WideFelt(op: Op, s: seq<Felt>): Felt
    requires |s| == 3
  {
    match op
    case Split => s[0]
    case Add => AddFelt(s[0], s[1])
    case Add3 => AddFelt(AddFelt(s[0], s[1]), s[2])
    case Mul => MulFelt(s[0], s[1])
    case Madd => AddFelt(MulFelt(s[0], s[1]), s[2])
    case _ => 0
  }

  lemma WideFits(op: Op, s: seq<Felt>)
    requires |s| == 3 && OperandsAreU32(op, s)
    ensures 0 <= Wide(op, s) < P && WideFelt(op, s) as int == Wide(op, s)
    ensures op.Add? || op.Add3? ==> Wide(op, s) < TWO_POW_48
  {
    hide AddFelt, MulFelt;
    var a, b, c := s[0] as int, s[1] as int, s[2] as int;
    match op
    case Split =>
    case Add => SmallAdd(s[0], s[1]);
    case Add3 =>
      SmallAdd(s[0], s[1]);
      SmallAdd(AddFelt(s[0], s[1]), s[2]);
    case Mul =>
      MaddFits(a, b, 0);
      ProductValue(s[0], s[1]);
    case Madd =>
      MaddFits(a, b, c);
      ProductValue(s[0], s[1]);
      SmallAdd(MulFelt(s[0], s[1]), s[2]);
    case _ =>
  }

  lemma ProductValue(x: Felt, y: Felt)
    requires x as int * y as int < P
    ensures MulFelt(x, y) as int == x as int * y as int
  {
    ModSmall(x as int * y as int);
  }

  lemma ModSmall(n: nat)
    requires n < P
    ensures n % P == n
  {
  }

  ghost predicate TwoOutputs(op: Op) { !op.Sub? && !op.Div? && !op.Assert2? }

  lemma HalvesExact(op: Op, s: seq<Felt>, h: Helpers, n0: Felt, n1: Felt)
    requires |s| == 3 && OperandsAreU32(op, s) && TwoOutputs(op)
    ensures RangeChecked(h) && Constraints(op, s, h, n0, n1) ==> Execute(op, s) == Some((n0, n1))
    ensures Execute(op, s) == Some((n0, n1)) && h == UserOpHelpers(op, n0, n1) ==>
              RangeChecked(h) && Constraints(op, s, h, n0, n1)
  {
    hide VLo, VHi, V48, V64, ValidElement, AddFelt, MulFelt, Limbs, InverseOrZero, Halves;
    WideFits(op, s);
    var n := Wide(op, s);
    assert Execute(op, s) == Some(Halves(n));
    if RangeChecked(h) && Constraints(op, s, h, n0, n1) {
      assert n as Felt == WideFelt(op, s);
      if op.Add? || op.Add3? { SumSound(n, h); } else { SplitSound(n as Felt, h); }
    }
    if Execute(op, s) == Some((n0, n1)) && h == UserOpHelpers(op, n0, n1) {
      HalvesAreU32(n);
      HelpersRecompose(op, n0, n1);
      if op.Add? || op.Add3? { SumComplete(n, h); } else { SplitComplete(n, h); }
    }
  }

  lemma HalvesAreU32(n: nat)
    requires n < TWO_POW_64
    ensures IsU32(Halves(n).0) && IsU32(Halves(n).1)
  {
  }

  lemma AssertExact(s: seq<Felt>, h: Helpers, n0: Felt, n1: Felt)
    requires |s| == 3
    ensures RangeChecked(h) && Constraints(Assert2, s, h, n0, n1) ==> Execute(Assert2, s) == Some((n0, n1))
    ensures Execute(Assert2, s) == Some((n0, n1)) && h == UserOpHelpers(Assert2, n0, n1)
            ==> RangeChecked(h) && Constraints(Assert2, s, h, n0, n1)
  {
    hide VLo, VHi, Limbs;
    if RangeChecked(h) { LimbValues(h); }
    if IsU32(n0) && IsU32(n1) { HelpersRecompose(Assert2, n0, n1); }
  }

  // Division

  lemma MinusValue(x: Felt, y: Felt)
    ensures Minus(x, y) as int == (x as int - y as int) % P
  {
    ModAdd(x as int, P - y as int, P);
    ModShift(x as int - y as int, 1, P);
  }

  lemma Close(x: int, y: int)
    requires x % P == y % P && -P < x - y < P
    ensures x == y
  {
    var k := x / P - y / P;
    assert x - y == P * k;
    if k > 0 { Step(P, k); }
    if k < 0 { Step(P, -k); }
  }

  lemma Congruent(b: int, q: int, r: int)
    ensures (b * (q % P) % P + r % P) % P == (b * q + r) % P
  {
    ModMul(b, q, P);
    ModAdd(b * q % P, r, P);
    ModAdd(b * q, r, P);
  }

  /** What the three constraints say about integers: a quotient at most the dividend and a remainder below the divisor,
      but possibly negative. */
  ghost predicate Admitted(a: nat, b: nat, q: int, r: int) {
    b * q + r == a && 0 <= q <= a && b - TWO_POW_32 <= r < b
  }

  /** The terms of the first constraint cannot wrap around the modulus. */
  lemma DivisionFits(a: nat, b: nat, lo: nat, hi: nat)
    requires a < TWO_POW_32 && b < TWO_POW_32 && lo < TWO_POW_32 && hi < TWO_POW_32
    ensures -P < b * (a - lo) + (b - 1 - hi) - a < P
  {
    if lo <= a {
      ProductAtMost(b, a - lo, TWO_POW_32 - 1, TWO_POW_32 - 1);
    } else {
      ProductAtMost(b, lo - a - 1, TWO_POW_32 - 1, TWO_POW_32 - 2);
      Flip(b, lo - a - 1);
    }
  }

  lemma Flip(b: int, k: int)
    ensures b * (-k - 1) == -(b * k) - b
  {
  }

  lemma ProductAtMost(x: nat, y: nat, maxX: nat, maxY: nat)
    requires x <= maxX && y <= maxY
    ensures 0 <= x * y <= maxX * maxY
  {
    MulLe(x, maxX, y);
    MulLe(y, maxY, maxX);
  }

  lemma DivisionSound(s: seq<Felt>, h: Helpers, n0: Felt, n1: Felt)
    requires |s| == 3 && OperandsAreU32(Div, s) && RangeChecked(h) && Constraints(Div, s, h, n0, n1)
    ensures var r := s[0] as int - 1 - VHi(h) as int;
            Admitted(s[1] as int, s[0] as int, n1 as int, r) && n0 as int == r % P
  {
    hide VLo, VHi, AddFelt, MulFelt, NegFelt, Minus, Divides, Admitted, Constraints;
    assert IsU32(s[0]) && IsU32(s[1]);
    LimbValues(h);
    DivisionParts(s, h, n0, n1);
    DivisionOfIntegers(s[1] as int, s[0] as int, VLo(h) as int, VHi(h) as int, n0, n1);
  }

  lemma DivisionOfIntegers(a: nat, b: nat, lo: nat, hi: nat, n0: Felt, n1: Felt)
    requires a < TWO_POW_32 && b < TWO_POW_32 && lo < TWO_POW_32 && hi < TWO_POW_32
    requires Divides(a, b, n1 as int, n0 as int) && IsMod(n1, a - lo) && IsMod(n0, b - 1 - hi)
    ensures Admitted(a, b, n1 as int, b - 1 - hi)
  {
    hide Divides;
    var q, r := a - lo, b - 1 - hi;
    NoWrap(a, b, q, r);
    DivisionFits(a, b, lo, hi);
    Close(b * q + r, a);
    NonnegativeQuotient(a, b, q, r);
    ModSmall(q);
  }

  lemma NoWrap(a: nat, b: nat, q: int, r: int)
    requires a < P && Divides(a, b, q % P, r % P)
    ensures (b * q + r) % P == a % P
  {
    Congruent(b, q, r);
    ModSmall(a);
  }

  lemma NonnegativeQuotient(a: nat, b: nat, q: int, r: int)
    requires b * q + r == a && r < b
    ensures q >= 0
  {
    if q < 0 { MulLe(q, -1, b); }
  }

  ghost predicate Divides(a: int, b: int, q: int, r: int) {
    a == (b * q % P + r) % P
  }

  ghost predicate IsMod(x: Felt, y: int) {
    x as int == y % P
  }

  /** The constraints on the outputs, modulo the modulus. */
  lemma DivisionParts(s: seq<Felt>, h: Helpers, n0: Felt, n1: Felt)
    requires |s| == 3 && RangeChecked(h)
    ensures Constraints(Div, s, h, n0, n1)
            <==> && Divides(s[1] as int, s[0] as int, n1 as int, n0 as int)
                 && IsMod(n1, s[1] as int - VLo(h) as int) && IsMod(n0, s[0] as int - 1 - VHi(h) as int)
  {
    hide VLo, VHi, Minus, NegFelt, AddFelt, MulFelt, Divides, IsMod;
    LimbValues(h);
    SmallAdd(VHi(h), 1);
    FirstConstraint(s[1], s[0], n0, n1);
    MinusExact(s[1], n1, VLo(h));
    MinusExact(s[0], n0, AddFelt(VHi(h), 1));
  }

  lemma FirstConstraint(a: Felt, b: Felt, n0: Felt, n1: Felt)
    ensures a == AddFelt(MulFelt(b, n1), n0) <==> Divides(a as int, b as int, n1 as int, n0 as int)
  {
  }

  lemma MinusExact(x: Felt, y: Felt, z: Felt)
    ensures Minus(x, y) == z <==> IsMod(y, x as int - z as int)
  {
    MinusValue(x, y);
    if Minus(x, y) == z { ModNeg(x as int, y as int, z as int); }
    if IsMod(y, x as int - z as int) { ModNeg(x as int, z as int, y as int); }
  }

  lemma ModNeg(x: int, y: int, z: int)
    requires 0 <= y < P && z == (x - y) % P
    ensures y == (x - z) % P
  {
    var k := (x - y) / P;
    assert x - y == P * k + z;
    ModUnique(x - z, P, k, y);
  }

  /** The helpers that go with an admitted quotient and remainder. */
  lemma DivisionComplete(s: seq<Felt>, q: int, r: int) returns (h: Helpers)
    requires |s| == 3 && OperandsAreU32(Div, s) && Admitted(s[1] as int, s[0] as int, q, r)
    ensures RangeChecked(h) && h == OwnHelpers(Div, s, (r % P) as Felt, q as Felt)
    ensures Constraints(Div, s, h, (r % P) as Felt, q as Felt)
  {
    hide VLo, VHi, AddFelt, MulFelt, NegFelt, Limbs, Minus, Constraints;
    assert IsU32(s[0]) && IsU32(s[1]);
    var a, b := s[1] as int, s[0] as int;
    var lo, hi := (a - q) as Felt, (b - 1 - r) as Felt;
    h := UserOpHelpers(Div, lo, hi);
    HelpersRecompose(Div, lo, hi);
    Congruent(b, q, r);
    ModUnique(q, P, 0, q);
    ModUnique(a, P, 0, a);
    DivisionParts(s, h, (r % P) as Felt, q as Felt);
    OwnDivision(s, q, r);
  }

  lemma OwnDivision(s: seq<Felt>, q: int, r: int)
    requires |s| == 3 && OperandsAreU32(Div, s) && Admitted(s[1] as int, s[0] as int, q, r)
    ensures OwnHelpers(Div, s, (r % P) as Felt, q as Felt)
            == UserOpHelpers(Div, (s[1] as int - q) as Felt, (s[0] as int - 1 - r) as Felt)
  {
    hide Limbs, Minus;
    assert IsU32(s[0]) && IsU32(s[1]);
    MinusValue(s[1], q as Felt);
    ModSmall(s[1] as int - q);
    MinusOne(s[0], r);
  }

  lemma MinusOne(b: Felt, r: int)
    requires 0 <= b as int - 1 - r < P
    ensures Minus(Minus(b, (r % P) as Felt), 1) as int == b as int - 1 - r
  {
    hide Minus;
    var n0 := (r % P) as Felt;
    MinusValue(b, n0);
    MinusValue(Minus(b, n0), 1);
    ModAdd(b as int - n0 as int, -1, P);
    var k := r / P;
    assert r == P * k + n0 as int;
    ModShift(b as int - 1 - r, k, P);
    ModSmall(b as int - 1 - r);
  }

  /** Some range-checked helpers go with the next row exactly when it holds an admitted quotient and, modulo the
      modulus, the remainder that goes with it. */
  lemma DivisionRows(s: seq<Felt>, n0: Felt, n1: Felt)
    requires |s| == 3 && OperandsAreU32(Div, s)
    ensures Satisfiable(Div, s, n0, n1)
            <==> exists r: int :: Admitted(s[1] as int, s[0] as int, n1 as int, r) && n0 as int == r % P
  {
    hide Constraints, Admitted;
    forall h | RangeChecked(h) && Constraints(Div, s, h, n0, n1)
      ensures exists r: int :: Admitted(s[1] as int, s[0] as int, n1 as int, r) && n0 as int == r % P
    {
      DivisionSound(s, h, n0, n1);
    }
    forall r: int | Admitted(s[1] as int, s[0] as int, n1 as int, r) && n0 as int == r % P
      ensures Satisfiable(Div, s, n0, n1)
    {
      var h := DivisionComplete(s, n1 as int, r);
    }
  }

  /** Whether Euclidean division is the only admitted one: no larger quotient stays within the dividend, or the next
      smaller remainder is out of reach of the range check.  A zero divisor admits nothing. */
  predicate Determined(a: nat, b: nat) {
    b == 0 || a / b == a || a % b < 2 * b - TWO_POW_32
  }

  lemma EuclideanAdmitted(a: nat, b: nat)
    requires a < TWO_POW_32 && 0 < b < TWO_POW_32
    ensures Admitted(a, b, a / b, a % b)
  {
    Quotients(a, b);
  }

  /** Any other admitted division has a larger quotient; the next one is admitted unless division is determined. */
  lemma OtherDivisions(a: nat, b: nat, q: int, r: int)
    requires a < TWO_POW_32 && b < TWO_POW_32 && Admitted(a, b, q, r)
    ensures b > 0 && q >= a / b
    ensures q == a / b ==> r == a % b
    ensures q > a / b ==> !Determined(a, b)
  {
    Quotients(a, b);
    var k := a / b;
    Distributes(b, k, q - k);
    if q < k { MulLe(q - k, -1, b); }
    if q > k { MulLe(1, q - k, b); }
  }

  lemma Distributes(b: int, x: int, y: int)
    ensures b * (x + y) == b * x + b * y
  {
  }

  lemma NextDivision(a: nat, b: nat)
    requires a < TWO_POW_32 && b < TWO_POW_32 && !Determined(a, b)
    ensures Admitted(a, b, a / b + 1, a % b - b)
  {
    Quotients(a, b);
    assert b * (a / b + 1) == b * (a / b) + b;
  }

  lemma DivisionComputes(s: seq<Felt>, n0: Felt, n1: Felt)
    requires |s| == 3 && OperandsAreU32(Div, s) && Execute(Div, s) == Some((n0, n1))
    ensures RangeChecked(OwnHelpers(Div, s, n0, n1)) && Constraints(Div, s, OwnHelpers(Div, s, n0, n1), n0, n1)
  {
    hide Constraints, OwnHelpers;
    assert IsU32(s[0]) && IsU32(s[1]);
    EuclideanAdmitted(s[1] as int, s[0] as int);
    ModUnique(n0 as int, P, 0, n0 as int);
    var h := DivisionComplete(s, n1 as int, n0 as int);
  }

  /** Where division is determined, the constraints admit what the processor computes and nothing else. */
  lemma DivisionForced(s: seq<Felt>, n0: Felt, n1: Felt)
    requires |s| == 3 && OperandsAreU32(Div, s) && Determined(s[1] as int, s[0] as int)
    requires Satisfiable(Div, s, n0, n1)
    ensures Execute(Div, s) == Some((n0, n1))
  {
    hide Constraints;
    assert IsU32(s[0]) && IsU32(s[1]);
    DivisionRows(s, n0, n1);
    var r: int :| Admitted(s[1] as int, s[0] as int, n1 as int, r) && n0 as int == r % P;
    OtherDivisions(s[1] as int, s[0] as int, n1 as int, r);
    Quotients(s[1] as int, s[0] as int);
    ModUnique(r, P, 0, r);
  }

  /** Elsewhere they also admit the next larger quotient, with a negative remainder. */
  lemma DivisionOpen(s: seq<Felt>) returns (n0: Felt, n1: Felt)
    requires |s| == 3 && OperandsAreU32(Div, s) && !Determined(s[1] as int, s[0] as int)
    ensures Satisfiable(Div, s, n0, n1) && Execute(Div, s) != Some((n0, n1))
  {
    hide Constraints;
    assert IsU32(s[0]) && IsU32(s[1]);
    var a, b := s[1] as int, s[0] as int;
    NextDivision(a, b);
    Quotients(a, b);
    n0, n1 := ((a % b - b) % P) as Felt, (a / b + 1) as Felt;
    DivisionRows(s, n0, n1);
  }

  /** A row whose remainder is a 32-bit value is always the processor's. */
  lemma DivisionWithSmallRemainder(s: seq<Felt>, n0: Felt, n1: Felt)
    requires |s| == 3 && OperandsAreU32(Div, s)
    ensures Satisfiable(Div, s, n0, n1) && IsU32(n0) <==> Execute(Div, s) == Some((n0, n1))
  {
    hide Constraints, Satisfiable;
    assert IsU32(s[0]) && IsU32(s[1]);
    var a, b := s[1] as int, s[0] as int;
    DivisionRows(s, n0, n1);
    if Satisfiable(Div, s, n0, n1) && IsU32(n0) {
      var r: int :| Admitted(a, b, n1 as int, r) && n0 as int == r % P;
      if r < 0 { ModUnique(r, P, -1, r + P); } else { ModUnique(r, P, 0, r); }
      OtherDivisions(a, b, n1 as int, r);
      SmallRemainder(a, b, n1 as int, r);
    }
    if Execute(Div, s) == Some((n0, n1)) {
      Quotients(a, b);
      HasHelpers(Div, s, n0, n1);
    }
  }

  lemma SmallRemainder(a: nat, b: nat, q: int, r: int)
    requires b > 0 && b * q + r == a && 0 <= r < b
    ensures q == a / b && r == a % b
  {
    ModUnique(a, b, q, r);
  }

  /** Five divided by three: besides quotient 1 and remainder 2, the row with quotient 2 and remainder -1. */
  lemma FiveByThree(s: seq<Felt>)
    requires s == [3, 5, 0]
    ensures Execute(Div, s) == Some((2, 1))
    ensures var h := Helpers(3, 0, 3, 0, 0, 0); RangeChecked(h) && Constraints(Div, s, h, (P - 1) as Felt, 2)
  {
    var h := Helpers(3, 0, 3, 0, 0, 0);
    LimbValues(h);
    DivisionParts(s, h, (P - 1) as Felt, 2);
  }

  // All operations

  /** Some range-checked helpers meet the constraints together with this next row. */
  ghost predicate Satisfiable(op: Op, s: seq<Felt>, n0: Felt, n1: Felt)
    requires |s| == 3
  {
    exists h :: RangeChecked(h) && Constraints(op, s, h, n0, n1)
  }

  /** The constraints hold exactly for what the processor computes. */
  ghost predicate Exact(op: Op, s: seq<Felt>)
    requires |s| == 3
  {
    forall n0, n1 :: Satisfiable(op, s, n0, n1) <==> Execute(op, s) == Some((n0, n1))
  }

  /** What the processor computes meets the constraints with its own helpers, for every operation. */
  lemma ConstraintsAreComplete(op: Op, s: seq<Felt>, n0: Felt, n1: Felt)
    requires |s| == 3 && Execute(op, s) == Some((n0, n1))
    ensures RangeChecked(OwnHelpers(op, s, n0, n1)) && Constraints(op, s, OwnHelpers(op, s, n0, n1), n0, n1)
  {
    hide Constraints, UserOpHelpers, Minus;
    var h := OwnHelpers(op, s, n0, n1);
    match op
    case Sub => SubExact(s, h, n0, n1);
    case Assert2 => AssertExact(s, h, n0, n1);
    case Div => DivisionComputes(s, n0, n1);
    case _ => HalvesExact(op, s, h, n0, n1);
  }

  lemma ConstraintsAreSound(op: Op, s: seq<Felt>, n0: Felt, n1: Felt)
    requires |s| == 3 && (op.Assert2? || OperandsAreU32(op, s)) && Satisfiable(op, s, n0, n1)
    requires op.Div? ==> Determined(s[1] as int, s[0] as int)
    ensures Execute(op, s) == Some((n0, n1))
  {
    hide Constraints, Execute;
    var h :| RangeChecked(h) && Constraints(op, s, h, n0, n1);
    match op
    case Sub => SubExact(s, h, n0, n1);
    case Assert2 => AssertExact(s, h, n0, n1);
    case Div => DivisionForced(s, n0, n1);
    case _ => HalvesExact(op, s, h, n0, n1);
  }

  /** For every operation and all 32-bit operands the constraints are exact, except for division exactly where it is not
      determined.  Splitting works on every field element, and the assertion on every pair. */
  lemma ConstraintsAreExact(op: Op, s: seq<Felt>)
    requires |s| == 3 && (op.Assert2? || OperandsAreU32(op, s))
    ensures Exact(op, s) <==> (op.Div? ==> Determined(s[1] as int, s[0] as int))
  {
    hide Constraints, Execute, Satisfiable, Determined;
    if op.Div? && !Determined(s[1] as int, s[0] as int) {
      var n0, n1 := DivisionOpen(s);
    } else {
      forall n0, n1 ensures Satisfiable(op, s, n0, n1) <==> Execute(op, s) == Some((n0, n1)) {
        if Satisfiable(op, s, n0, n1) { ConstraintsAreSound(op, s, n0, n1); }
        if Execute(op, s) == Some((n0, n1)) { HasHelpers(op, s, n0, n1); }
      }
    }
  }

  lemma HasHelpers(op: Op, s: seq<Felt>, n0: Felt, n1: Felt)
    requires |s| == 3 && Execute(op, s) == Some((n0, n1))
    ensures Satisfiable(op, s, n0, n1)
  {
    hide Constraints, Execute;
    ConstraintsAreComplete(op, s, n0, n1);
  }

  // Equality

  /** The equality constraint with its inverse witness. */
  predicate EqConstraint(a: Felt, b: Felt, h0: Felt, next: Felt) {
    var f := BaseField();
    var d := f.Sub(a, b);
    f.mul(d, next) == 0 && next == f.Sub(1, f.mul(d, h0))
  }

  function EqHelper(first: Felt, second: Felt): Felt {
    if first == second then 0 else Inverse(BaseField().Sub(first, second))
  }

  /** Some witness meets the equality constraint exactly when the result is the truth value of the comparison. */
  lemma EqualityIsExact(first: Felt, second: Felt, next: Felt)
    ensures (exists h0 :: EqConstraint(first, second, h0, next)) <==> next == if first == second then 1 else 0
    ensures EqConstraint(first, second, EqHelper(first, second), if first == second then 1 else 0)
    ensures first == second ==> EqHelper(first, second) == 0
  {
    hide AddFelt, MulFelt, NegFelt, Inverse;
    BaseFieldIsField();
    var f := BaseField();
    var d := f.Sub(first, second);
    SubZero(f, first, second);
    SubZero(f, 1, 1);
    NoZeroDivisors(f, d, next);
    MulZero(f, d);
    assert Laws(f, d, d, d);
    forall h0 | EqConstraint(first, second, h0, next) ensures next == if first == second then 1 else 0 {
      MulZero(f, h0);
    }
    MulZero(f, 0);
    if next == if first == second then 1 else 0 {
      assert EqConstraint(first, second, EqHelper(first, second), next);
    }
  }
}
