/** The labels that open messages on the chiplets bus (miden-vm/air/src/trace/chiplets).  A label stands for the
    selectors of the chiplet and of the operation, and no two operations share one. */
module Labels {
  import A = ReducedAux
  import F = BusFinals

  /** The bits as a number, the first bit lowest. */
  function Number(bits: seq<bool>): nat {
    if |bits| == 0 then 0 else (if bits[0] then 1 else 0) + 2 * Number(bits[1..])
  }

  /** One more than the selectors with the bits reversed. */
  function Label(selectors: seq<bool>): nat {
    Number(selectors) + 1
  }

  /** Chiplet `k` is selected by `k` ones and a zero. */
  function Chiplet(k: nat): seq<bool> {
    if k == 0 then [false] else [true] + Chiplet(k - 1)
  }

  lemma {:induction false} NumbersApart(s: seq<bool>, s': seq<bool>)
    requires |s| == |s'| && Number(s) == Number(s')
    ensures s == s'
  {
    hide Number;
    if |s| > 0 {
      var rest, rest' := s[1..], s'[1..];
      assert s == [s[0]] + rest && s' == [s'[0]] + rest';
      Bit(s[0], rest);
      Bit(s'[0], rest');
      NumbersApart(rest, rest');
    }
  }

  /** A label determines the chiplet, and among operations of the chiplet with equally many selectors the operation. */
  lemma {:induction false} LabelsApart(k: nat, s: seq<bool>, k': nat, s': seq<bool>)
    requires Label(Chiplet(k) + s) == Label(Chiplet(k') + s')
    ensures k == k' && (|s| == |s'| ==> s == s')
  {
    var left, right := Chiplet(k) + s, Chiplet(k') + s';
    assert Number(left) % 2 == (if left[0] then 1 else 0) && Number(right) % 2 == if right[0] then 1 else 0;
    if k == 0 || k' == 0 {
      assert left[1..] == s || k > 0;
      assert right[1..] == s' || k' > 0;
      if |s| == |s'| { NumbersApart(s, s'); }
    } else {
      assert left[1..] == Chiplet(k - 1) + s && right[1..] == Chiplet(k' - 1) + s';
      LabelsApart(k - 1, s, k' - 1, s');
    }
  }

  datatype Operation =
    | LinearHash | MpVerify | MrUpdateOld | MrUpdateNew | ReturnHash | ReturnState
    | And | Xor | WriteElement | WriteWord | ReadElement | ReadWord | AceInit | KernelCall | KernelInit

  /** The chiplet of an operation and the operation's own selectors. */
  function Selectors(op: Operation): (nat, seq<bool>) {
    match op
    case LinearHash => (0, [true, false, false])
    case MpVerify => (0, [true, false, true])
    case MrUpdateOld => (0, [true, true, false])
    case MrUpdateNew => (0, [true, true, true])
    case ReturnHash => (0, [false, false, false])
    case ReturnState => (0, [false, false, true])
    case And => (1, [false])
    case Xor => (1, [true])
    case WriteElement => (2, [false, false])
    case WriteWord => (2, [false, true])
    case ReadElement => (2, [true, false])
    case ReadWord => (2, [true, true])
    case AceInit => (3, [])
    case KernelCall => (4, [false])
    case KernelInit => (4, [true])
  }

  /** The labels in use. */
  function LabelOf(op: Operation): nat {
    match op
    case LinearHash => 3
    case MpVerify => 11
    case MrUpdateOld => 7
    case MrUpdateNew => 15
    case ReturnHash => 1
    case ReturnState => 9
    case And => 2
    case Xor => 6
    case WriteElement => 4
    case WriteWord => 20
    case ReadElement => 12
    case ReadWord => F.MEMORY_READ_WORD_LABEL
    case AceInit => 8
    case KernelCall => 16
    case KernelInit => A.KERNEL_PROC_INIT_LABEL
  }

  lemma Bit(b: bool, rest: seq<bool>)
    ensures Number([b] + rest) == (if b then 1 else 0) + 2 * Number(rest)
  {
    assert ([b] + rest)[1..] == rest;
  }

  lemma {:induction false} ChipletNumber(k: nat, s: seq<bool>, n: nat)
    requires n == Number(s)
    ensures k == 0 ==> Number(Chiplet(k) + s) == 2 * n
    ensures k > 0 ==> Number(Chiplet(k) + s) == 1 + 2 * Number(Chiplet(k - 1) + s)
  {
    if k == 0 {
      Bit(false, s);
    } else {
      assert Chiplet(k) + s == [true] + (Chiplet(k - 1) + s);
      Bit(true, Chiplet(k - 1) + s);
    }
  }

  lemma SmallNumber(s: seq<bool>)
    requires |s| <= 3
    ensures Number(s) == (if |s| > 0 && s[0] then 1 else 0) + (if |s| > 1 && s[1] then 2 else 0)
                         + if |s| > 2 && s[2] then 4 else 0
  {
    if |s| > 0 {
      var t := s[1..];
      if |t| > 0 {
        var u := t[1..];
        if |u| > 0 { assert Number(u[1..]) == 0; }
      }
    }
  }

  /** Every label in use is made from its operation's selectors. */
  lemma LabelsFromSelectors(op: Operation)
    ensures LabelOf(op) == Label(Chiplet(Selectors(op).0) + Selectors(op).1)
  {
    var (k, s) := Selectors(op);
    SmallNumber(s);
    ChipletNumber(0, s, Number(s));
    ChipletNumber(1, s, Number(s));
    ChipletNumber(2, s, Number(s));
    ChipletNumber(3, s, Number(s));
    ChipletNumber(4, s, Number(s));
  }

  /** So no two operations share a label. */
  lemma LabelsAreUnique(op: Operation, op': Operation)
    requires LabelOf(op) == LabelOf(op')
    ensures op == op'
  {
    hide LabelOf, Label;
    LabelsFromSelectors(op);
    LabelsFromSelectors(op');
    LabelsApart(Selectors(op).0, Selectors(op).1, Selectors(op').0, Selectors(op').1);
  }

  /** The transcript messages carry the opcode of the operation that makes them, 1011110 in binary. */
  lemma TranscriptLabel()
    ensures A.LOG_PRECOMPILE_LABEL == Number([false, true, true, true, true, false, true])
  {
    Bit(false, [true, true, true, true, false, true]);
    Bit(true, [true, true, true, false, true]);
    Bit(true, [true, true, false, true]);
    Bit(true, [true, false, true]);
    Bit(true, [false, true]);
    SmallNumber([false, true]);
  }
}
