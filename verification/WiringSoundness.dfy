/** Why the wiring column is worth closing: a chiplet trace in which some wire is not read as often as its multiplicity
    says ends at zero for few challenges, whatever is in its rows
    (miden-vm/processor/src/trace/chiplets/aux_trace/wiring_bus.rs, miden-vm/processor/src/trace/chiplets/ace/mod.rs).
    */
module WiringSoundness {
  import opened Common
  import opened Fields
  import opened LogUp
  import opened Claims
  import opened BusBalance
  import opened BusSoundness
  import opened Wiring
  import opened AceChiplet
  import C = Challenges

  // The rows of the chiplet

  /** The bus value of a wire is one over this. */
  function WireWeight<T>(f: Field<T>, alpha: T, beta: T, wire: Entry<T> -> BusMessage<T>): Entry<T> -> T {
    e => f.inv(Value(f, alpha, beta, wire(e)))
  }

  /** A wire: its clock cycle, context, identifier and value, padded to full width. */
  ghost function WireOf<T>(f: Field<T>, clk: T, ctx: T, coords: T -> (T, T), id: T, value: T): (m: BusMessage<T>)
    ensures Full(m) && m.elems[..5] == [clk, ctx, id, coords(value).0, coords(value).1]
  {
    var (v0, v1) := coords(value);
    BusMessage(C.ACE_WIRING_BUS, C.Padded(f, [clk, ctx, id, v0, v1]))
  }

  /** A wire of a section. */
  ghost function Wire<T>(f: Field<T>, clk: T, ctx: T, coords: T -> (T, T), e: Entry<T>): (m: BusMessage<T>)
    ensures Full(m)
  {
    WireOf(f, clk, ctx, coords, f.OfNat(e.id), e.value)
  }

  ghost function WireMessage<T>(f: Field<T>, clk: T, ctx: T, coords: T -> (T, T)): Entry<T> -> BusMessage<T> {
    (e: Entry<T>) => Wire(f, clk, ctx, coords, e)
  }

  /** A READ row sends two wires; an EVAL row sends one and reads two. */
  function RowClaims<T>(wire: Entry<T> -> BusMessage<T>, sec: Section<T>, row: nat): seq<Claim<T>>
    requires sec.Sized() && row < sec.Rows()
  {
    var out, left := wire(sec.rec.colOut[row]), wire(sec.rec.colLeft[row]);
    var m := sec.rec.multiplicities;
    if row < sec.numReadRows then [Sends(m[2 * row], out), Sends(m[2 * row + 1], left)]
    else
      var i := row - sec.numReadRows;
      [Sends(m[2 * sec.numReadRows + i], out), Reads(left), Reads(wire(sec.rec.colRight[i]))]
  }

  function SectionClaims<T>(wire: Entry<T> -> BusMessage<T>, sec: Section<T>, n: nat): seq<Claim<T>>
    requires sec.Sized() && n <= sec.Rows()
  {
    if n == 0 then [] else SectionClaims(wire, sec, n - 1) + RowClaims(wire, sec, n - 1)
  }

  /** `x + (-y) + (-z) = x - (y + z)` */
  lemma TwoReads<T(!new)>(f: Field<T>, x: T, y: T, z: T)
    requires IsField(f)
    ensures f.add(f.add(x, f.neg(y)), f.neg(z)) == f.Sub(x, f.add(y, z))
  {
    NetStep(f, x, y, z);
  }

  lemma RowClaimsSum<T(!new)>(f: Field<T>, alpha: T, beta: T, wire: Entry<T> -> BusMessage<T>, sec: Section<T>,
                              row: nat)
    requires IsField(f) && sec.Sized() && row < sec.Rows()
    ensures ClaimSum(f, alpha, beta, RowClaims(wire, sec, row))
            == RowValue(f, WireWeight(f, alpha, beta, wire), sec, row)
  {
    hide ClaimSum, Value, IsField;
    var out, left := sec.rec.colOut[row], sec.rec.colLeft[row];
    var m := sec.rec.multiplicities;
    if row < sec.numReadRows {
      var a, b := Sends(m[2 * row], wire(out)), Sends(m[2 * row + 1], wire(left));
      assert RowClaims(wire, sec, row) == [a] + [b];
      ClaimsConcat(f, alpha, beta, [a], [b]);
      SendsValue(f, alpha, beta, a);
      SendsValue(f, alpha, beta, b);
    } else {
      var i := row - sec.numReadRows;
      var right := sec.rec.colRight[i];
      var a, b, c := Sends(m[2 * sec.numReadRows + i], wire(out)), Reads(wire(left)), Reads(wire(right));
      assert RowClaims(wire, sec, row) == [a] + [b] + [c];
      ClaimsConcat(f, alpha, beta, [a] + [b], [c]);
      ClaimsConcat(f, alpha, beta, [a], [b]);
      SendsValue(f, alpha, beta, a);
      ReadsValue(f, alpha, beta, b);
      ReadsValue(f, alpha, beta, c);
      TwoReads(f, f.mul(f.inv(Value(f, alpha, beta, a.message)), f.OfNat(a.times)),
               f.inv(Value(f, alpha, beta, b.message)), f.inv(Value(f, alpha, beta, c.message)));
    }
  }

  lemma {:induction false} SectionSum<T(!new)>(f: Field<T>, alpha: T, beta: T, wire: Entry<T> -> BusMessage<T>,
                                               sec: Section<T>, n: nat)
    requires IsField(f) && sec.Sized() && n <= sec.Rows()
    ensures RowSum(f, WireWeight(f, alpha, beta, wire), sec, n)
            == ClaimSum(f, alpha, beta, SectionClaims(wire, sec, n))
  {
    hide ClaimSum, RowValue, RowClaims, WireWeight, IsField;
    if n == 0 {
      NoClaims(f, alpha, beta);
    } else {
      SectionSum(f, alpha, beta, wire, sec, n - 1);
      RowClaimsSum(f, alpha, beta, wire, sec, n - 1);
      ClaimsConcat(f, alpha, beta, SectionClaims(wire, sec, n - 1), RowClaims(wire, sec, n - 1));
    }
  }

  // All sections

  ghost predicate AllSized<T>(sections: seq<Section<T>>) {
    forall k :: 0 <= k < |sections| ==> sections[k].Sized()
  }

  function AllClaims<T>(wires: seq<Entry<T> -> BusMessage<T>>, sections: seq<Section<T>>, n: nat): seq<Claim<T>>
    requires n <= |sections| == |wires| && AllSized(sections)
  {
    if n == 0 then []
    else AllClaims(wires, sections, n - 1) + SectionClaims(wires[n - 1], sections[n - 1], sections[n - 1].Rows())
  }

  /** The column starts at zero and adds up every section's rows, whatever they hold. */
  ghost predicate AddsUp<T>(f: Field<T>, alpha: T, beta: T, wires: seq<Entry<T> -> BusMessage<T>>,
                            sections: seq<Section<T>>, column: seq<T>, offset: nat)
    requires |sections| == |wires|
  {
    && offset < |column| && column[offset] == f.zero
    && forall k :: 0 <= k < |sections| ==>
         Wiring.Follows(f, WireWeight(f, alpha, beta, wires[k]), sections[k], column, Start(sections, offset, k))
  }

  lemma {:induction false} FollowsSum<T(!new)>(f: Field<T>, weight: Entry<T> -> T, sec: Section<T>, column: seq<T>,
                                               start: nat, n: nat)
    requires IsField(f) && Wiring.Follows(f, weight, sec, column, start) && n <= sec.Rows()
    ensures column[start + n] == f.add(column[start], RowSum(f, weight, sec, n))
  {
    hide RowValue;
    if n == 0 {
      assert Laws(f, column[start], f.zero, f.zero);
    } else {
      FollowsSum(f, weight, sec, column, start, n - 1);
      assert Laws(f, column[start], RowSum(f, weight, sec, n - 1), RowValue(f, weight, sec, n - 1));
      assert column[start + (n - 1) + 1] == f.add(column[start + (n - 1)], RowValue(f, weight, sec, n - 1));
    }
  }

  lemma {:induction false} ColumnTotal<T(!new)>(f: Field<T>, alpha: T, beta: T, wires: seq<Entry<T> -> BusMessage<T>>,
                                                sections: seq<Section<T>>, column: seq<T>, offset: nat, n: nat)
    requires IsField(f) && n <= |sections| == |wires| && AllSized(sections)
    requires AddsUp(f, alpha, beta, wires, sections, column, offset)
    ensures Start(sections, offset, n) < |column|
    ensures column[Start(sections, offset, n)] == ClaimSum(f, alpha, beta, AllClaims(wires, sections, n))
  {
    hide ClaimSum, Wiring.Follows, WireWeight, SectionClaims, RowSum, IsField, Start, AddsUp;
    if n == 0 {
      FirstRow(f, alpha, beta, wires, sections, column, offset);
      NoClaims(f, alpha, beta);
    } else {
      var k := n - 1;
      var sec, weight, start := sections[k], WireWeight(f, alpha, beta, wires[k]), Start(sections, offset, k);
      ColumnTotal(f, alpha, beta, wires, sections, column, offset, k);
      StartNext(sections, offset, k);
      SectionFollows(f, alpha, beta, wires, sections, column, offset, k);
      FollowsSum(f, weight, sec, column, start, sec.Rows());
      SectionSum(f, alpha, beta, wires[k], sec, sec.Rows());
      ClaimsConcat(f, alpha, beta, AllClaims(wires, sections, k), SectionClaims(wires[k], sec, sec.Rows()));
    }
  }

  lemma FirstRow<T>(f: Field<T>, alpha: T, beta: T, wires: seq<Entry<T> -> BusMessage<T>>, sections: seq<Section<T>>,
                    column: seq<T>, offset: nat)
    requires |sections| == |wires| && AddsUp(f, alpha, beta, wires, sections, column, offset)
    ensures Start(sections, offset, 0) < |column| && column[Start(sections, offset, 0)] == f.zero
  {
  }

  lemma SectionFollows<T>(f: Field<T>, alpha: T, beta: T, wires: seq<Entry<T> -> BusMessage<T>>,
                          sections: seq<Section<T>>, column: seq<T>, offset: nat, k: nat)
    requires k < |sections| == |wires| && AddsUp(f, alpha, beta, wires, sections, column, offset)
    ensures var start := Start(sections, offset, k);
            && Wiring.Follows(f, WireWeight(f, alpha, beta, wires[k]), sections[k], column, start)
            && start + sections[k].Rows() < |column|
  {
    hide WireWeight, Start;
    assert Wiring.Follows(f, WireWeight(f, alpha, beta, wires[k]), sections[k], column, Start(sections, offset, k));
  }

  /** Some column adds up the rows and ends at zero. */
  ghost predicate WiringAccepted<T(!new)>(f: Field<T>, alpha: T, beta: T, wires: seq<Entry<T> -> BusMessage<T>>,
                                          sections: seq<Section<T>>, offset: nat)
    requires |sections| == |wires|
  {
    exists column: seq<T> ::
      && AddsUp(f, alpha, beta, wires, sections, column, offset)
      && Start(sections, offset, |sections|) < |column| && column[Start(sections, offset, |sections|)] == f.zero
  }

  /** Soundness of the wiring bus: whatever the rows of the chiplet hold, if some wire is not read as often as it is
      sent then, of all pairs of challenges from `alphas` and `betas`, at most `16 N |alphas| + 2 N |betas|` let the
      column end at zero.  `N` is the number of wire messages; "as often" is in the field. */
  lemma MiswiredRarelyCloses<T(!new)>(f: Field<T>, wires: seq<Entry<T> -> BusMessage<T>>, sections: seq<Section<T>>,
                                      offset: nat, m: BusMessage<T>, alphas: set<T>, betas: set<T>, passing: set<(T, T)>)
    requires IsField(f) && C.BusesDistinct(f) && |sections| == |wires| && AllSized(sections) && Full(m)
    requires FullWidth(Messages(AllClaims(wires, sections, |sections|)))
    requires var cs := AllClaims(wires, sections, |sections|);
             f.OfNat(SentTimes(cs, m)) != f.OfNat(ReadTimes(cs, m))
    requires forall p :: p in passing ==>
               p.0 in alphas && p.1 in betas && WiringAccepted(f, p.0, p.1, wires, sections, offset)
    ensures var n := |AllClaims(wires, sections, |sections|)|;
            |passing| <= C.MAX_MESSAGE_WIDTH * n * |alphas| + 2 * n * |betas|
  {
    hide IsField, C.BusesDistinct, AllClaims, FullWidth, Full, SentTimes, ReadTimes, WiringAccepted, Closes, NetOf;
    var cs := AllClaims(wires, sections, |sections|);
    NetIsDifference(f, cs, m);
    SubZero(f, f.OfNat(SentTimes(cs, m)), f.OfNat(ReadTimes(cs, m)));
    forall p | p in passing ensures Closes(f, p.0, p.1, cs) {
      AcceptedCloses(f, p.0, p.1, wires, sections, offset);
    }
    UnbalancedRarelyCloses(f, cs, m, alphas, betas, passing);
  }

  lemma AcceptedCloses<T(!new)>(f: Field<T>, alpha: T, beta: T, wires: seq<Entry<T> -> BusMessage<T>>,
                                sections: seq<Section<T>>, offset: nat)
    requires IsField(f) && |sections| == |wires| && AllSized(sections)
    requires WiringAccepted(f, alpha, beta, wires, sections, offset)
    ensures Closes(f, alpha, beta, AllClaims(wires, sections, |sections|))
  {
    hide AddsUp, AllClaims, IsField;
    var column: seq<T> :| && AddsUp(f, alpha, beta, wires, sections, column, offset)
      && Start(sections, offset, |sections|) < |column| && column[Start(sections, offset, |sections|)] == f.zero;
    ColumnTotal(f, alpha, beta, wires, sections, column, offset, |sections|);
  }

  // The bus's own messages

  ghost predicate FullWires<T(!new)>(wires: seq<Entry<T> -> BusMessage<T>>) {
    forall k, e :: 0 <= k < |wires| ==> Full(wires[k](e))
  }

  /** The wires of sections with their clock cycles and contexts. */
  ghost function WireMessages<T>(f: Field<T>, clks: seq<T>, ctxs: seq<T>, coords: T -> (T, T)):
    (wires: seq<Entry<T> -> BusMessage<T>>)
    requires |clks| == |ctxs|
    ensures |wires| == |clks| && forall k :: 0 <= k < |clks| ==> wires[k] == WireMessage(f, clks[k], ctxs[k], coords)
  {
    seq(|clks|, k requires 0 <= k < |clks| => WireMessage(f, clks[k], ctxs[k], coords))
  }

  lemma WireMessagesFull<T(!new)>(f: Field<T>, clks: seq<T>, ctxs: seq<T>, coords: T -> (T, T))
    requires |clks| == |ctxs|
    ensures FullWires(WireMessages(f, clks, ctxs, coords))
  {
    var wires := WireMessages(f, clks, ctxs, coords);
    forall k, e | 0 <= k < |wires| ensures Full(wires[k](e)) {
      assert wires[k] == WireMessage(f, clks[k], ctxs[k], coords);
    }
  }

  lemma RowClaimsFull<T(!new)>(wires: seq<Entry<T> -> BusMessage<T>>, k: nat, sec: Section<T>, row: nat)
    requires FullWires(wires) && k < |wires| && sec.Sized() && row < sec.Rows()
    ensures FullClaims(RowClaims(wires[k], sec, row))
  {
    hide Full;
  }

  lemma {:induction false} SectionClaimsFull<T(!new)>(wires: seq<Entry<T> -> BusMessage<T>>, k: nat, sec: Section<T>,
                                               n: nat)
    requires FullWires(wires) && k < |wires| && sec.Sized() && n <= sec.Rows()
    ensures FullClaims(SectionClaims(wires[k], sec, n))
  {
    hide FullWires, RowClaims;
    if n > 0 {
      SectionClaimsFull(wires, k, sec, n - 1);
      RowClaimsFull(wires, k, sec, n - 1);
    }
  }

  lemma {:induction false} AllClaimsFull<T(!new)>(wires: seq<Entry<T> -> BusMessage<T>>, sections: seq<Section<T>>,
                                           n: nat)
    requires FullWires(wires) && n <= |sections| == |wires| && AllSized(sections)
    ensures FullClaims(AllClaims(wires, sections, n))
  {
    hide FullWires, SectionClaims;
    if n > 0 {
      AllClaimsFull(wires, sections, n - 1);
      SectionClaimsFull(wires, n - 1, sections[n - 1], sections[n - 1].Rows());
    }
  }
}
