/** The wiring bus of the circuit-evaluation chiplet: every wire enters with the number of times it is read,
    every read leaves once, so the LogUp sum of a finished evaluation is zero
    (miden-vm/processor/src/trace/chiplets/aux_trace/wiring_bus.rs). */
module Wiring {
  import opened Fields
  import opened AceChiplet

  /** The sum of the weights, each taken as often as its multiplicity says. */
  ghost function WeightedSum<T>(f: Field<T>, m: seq<nat>, w: seq<T>): T
    requires |m| == |w|
  {
    var n := |m| - 1;
    if n < 0 then f.zero else f.add(WeightedSum(f, m[..n], w[..n]), f.mul(w[n], f.OfNat(m[n])))
  }

  /** The sum of the weights of the wires read. */
  ghost function ReadSum<T>(f: Field<T>, used: seq<nat>, w: seq<T>): T
    requires Within(used, |w|)
  {
    var n := |used| - 1;
    if n < 0 then f.zero else f.add(ReadSum(f, used[..n], w), w[used[n]])
  }

  /** Reading a wire once more adds its weight once more. */
  lemma {:induction false} CountOnce<T(!new)>(f: Field<T>, m: seq<nat>, w: seq<T>, k: nat)
    requires IsField(f) && |m| == |w| && k < |m|
    ensures WeightedSum(f, m[k := m[k] + 1], w) == f.add(WeightedSum(f, m, w), w[k])
  {
    var n := |m| - 1;
    var m' := m[k := m[k] + 1];
    var low, top := WeightedSum(f, m[..n], w[..n]), f.mul(w[n], f.OfNat(m[n]));
    if k == n {
      assert m'[..n] == m[..n];
      assert Laws(f, w[n], f.OfNat(m[n]), f.one);
      assert Laws(f, low, top, w[n]);
    } else {
      assert m'[..n] == m[..n][k := m[k] + 1];
      CountOnce(f, m[..n], w[..n], k);
      assert Laws(f, low, w[k], top) && Laws(f, w[k], top, low) && Laws(f, low, top, w[k]);
    }
  }

  lemma {:induction false} NothingRead<T(!new)>(f: Field<T>, m: seq<nat>, w: seq<T>)
    requires IsField(f) && |m| == |w| && forall k :: 0 <= k < |m| ==> m[k] == 0
    ensures WeightedSum(f, m, w) == f.zero
  {
    if |m| > 0 {
      var n := |m| - 1;
      NothingRead(f, m[..n], w[..n]);
      MulZero(f, w[n]);
      assert Laws(f, f.zero, f.zero, f.zero);
    }
  }

  /** When the multiplicities count the reads, wires sent and wires received have the same sum. */
  lemma {:induction false} SentEqualsReceived<T(!new)>(f: Field<T>, m: seq<nat>, used: seq<nat>, w: seq<T>)
    requires IsField(f) && |m| == |w| && Counts(m, used)
    ensures WeightedSum(f, m, w) == ReadSum(f, used, w)
    decreases |used|
  {
    var n := |used| - 1;
    if n < 0 {
      assert used == [];
      NothingRead(f, m, w);
    } else {
      var k := used[n];
      assert used == used[..n] + [k];
      assert m[k] > 0;
      var m' := m[k := m[k] - 1];
      assert Counts(m', used[..n]);
      SentEqualsReceived(f, m', used[..n], w);
      CountOnce(f, m', w, k);
      assert m'[k := m'[k] + 1] == m;
    }
  }

  ghost function Weights<T>(weight: Entry<T> -> T, numWires: nat, values: seq<T>): (w: seq<T>)
    requires |values| <= numWires
    ensures |w| == |values|
    ensures forall k :: 0 <= k < |w| ==> w[k] == weight(Entry(numWires - 1 - k, values[k]))
  {
    seq(|values|, k requires 0 <= k < |values| => weight(Entry(numWires - 1 - k, values[k])))
  }

  /** A partial sum over the first `n` wires. */
  ghost function Sent<T>(f: Field<T>, m: seq<nat>, w: seq<T>, n: nat): T
    requires |m| == |w| && n <= |m|
  {
    WeightedSum(f, m[..n], w[..n])
  }

  lemma SentNext<T>(f: Field<T>, m: seq<nat>, w: seq<T>, n: nat)
    requires |m| == |w| && n < |m|
    ensures Sent(f, m, w, n + 1) == f.add(Sent(f, m, w, n), f.mul(w[n], f.OfNat(m[n])))
  {
    assert m[..n + 1][..n] == m[..n] && w[..n + 1][..n] == w[..n];
  }

  ghost function Received<T>(f: Field<T>, used: seq<nat>, w: seq<T>, n: nat): T
    requires n <= |used| && Within(used, |w|)
  {
    ReadSum(f, used[..n], w)
  }

  lemma ReceivedNext<T>(f: Field<T>, used: seq<nat>, w: seq<T>, n: nat)
    requires n < |used| && Within(used, |w|)
    ensures Received(f, used, w, n + 1) == f.add(Received(f, used, w, n), w[used[n]])
  {
    assert used[..n + 1][..n] == used[..n];
  }

  /** `(s - r) + (x - (y + z)) = (s + x) - ((r + y) + z)`. */
  lemma RowBalance<T(!new)>(f: Field<T>, s: T, r: T, x: T, y: T, z: T)
    requires IsField(f)
    ensures f.add(f.Sub(s, r), f.Sub(x, f.add(y, z))) == f.Sub(f.add(s, x), f.add(f.add(r, y), z))
  {
    SubAdd(f, s, x, r, f.add(y, z));
    assert Laws(f, r, y, z);
  }

  /** The entries of EVAL row `i` weigh as the wires they stand for. */
  ghost predicate EvalWeighted<T>(weight: Entry<T> -> T, numReadRows: nat, numEvalRows: nat, rec: Record<T>,
                                  w: seq<T>, i: nat) {
    && i < |rec.colRight| == numEvalRows && |rec.colOut| == |rec.colLeft| == numReadRows + numEvalRows
    && |rec.values| == |w| == |rec.multiplicities| == 2 * numReadRows + numEvalRows && |rec.used| == 2 * numEvalRows
    && rec.used[2 * i] < |w| && rec.used[2 * i + 1] < |w|
    && weight(rec.colOut[numReadRows + i]) == w[2 * numReadRows + i]
    && weight(rec.colLeft[numReadRows + i]) == w[rec.used[2 * i]]
    && weight(rec.colRight[i]) == w[rec.used[2 * i + 1]]
  }

  lemma EvalRowWeights<T>(weight: Entry<T> -> T, numReadRows: nat, numEvalRows: nat, rec: Record<T>, i: nat)
    requires Recorded(numReadRows, numEvalRows, rec) && |rec.colRight| == numEvalRows && i < numEvalRows
    requires |rec.colOut| == numReadRows + numEvalRows
    ensures EvalWeighted(weight, numReadRows, numEvalRows, rec,
              Weights(weight, 2 * numReadRows + numEvalRows, rec.values), i)
  {
    assert EvalRow(numReadRows, 2 * numReadRows + numEvalRows, rec, i);
  }

  /** What one EVAL row adds to the running sum. */
  lemma EvalStep<T(!new)>(f: Field<T>, m: seq<nat>, w: seq<T>, used: seq<nat>, first: nat, i: nat)
    requires IsField(f) && |m| == |w| && first + i < |m| && 2 * i + 1 < |used|
    requires Within(used, |w|)
    ensures f.Sub(Sent(f, m, w, first + i + 1), Received(f, used, w, 2 * (i + 1)))
         == f.add(f.Sub(Sent(f, m, w, first + i), Received(f, used, w, 2 * i)),
                  f.Sub(f.mul(w[first + i], f.OfNat(m[first + i])), f.add(w[used[2 * i]], w[used[2 * i + 1]])))
  {
    SentNext(f, m, w, first + i);
    ReceivedNext(f, used, w, 2 * i);
    ReceivedNext(f, used, w, 2 * i + 1);
    RowBalance(f, Sent(f, m, w, first + i), Received(f, used, w, 2 * i), f.mul(w[first + i], f.OfNat(m[first + i])),
               w[used[2 * i]], w[used[2 * i + 1]]);
  }

  lemma AllBalanced<T(!new)>(f: Field<T>, m: seq<nat>, w: seq<T>, used: seq<nat>)
    requires IsField(f) && |m| == |w| && Counts(m, used)
    ensures f.Sub(Sent(f, m, w, |m|), Received(f, used, w, |used|)) == f.zero
  {
    assert m[..|m|] == m && w[..|w|] == w && used[..|used|] == used;
    SentEqualsReceived(f, m, used, w);
    SubZero(f, WeightedSum(f, m, w), ReadSum(f, used, w));
  }

  // Sections

  /** One evaluated circuit in the trace: its READ rows, then its EVAL rows. */
  datatype Section<T> = Section(numReadRows: nat, numEvalRows: nat, rec: Record<T>)
  {
    function Rows(): nat { numReadRows + numEvalRows }

    predicate Sized() {
      && |rec.colLeft| == |rec.colOut| == Rows() && |rec.colRight| == numEvalRows
      && |rec.multiplicities| == |rec.values| == 2 * numReadRows + numEvalRows && |rec.used| == 2 * numEvalRows
    }

    ghost predicate Complete() {
      && Recorded(numReadRows, numEvalRows, rec)
      && |rec.colRight| == numEvalRows && |rec.colOut| == numReadRows + numEvalRows
    }
  }

  lemma CompleteSizes<T>(sec: Section<T>)
    requires sec.Complete()
    ensures sec.Sized()
  {
  }

  /** What a row adds to the running sum: what it sends, with multiplicities, minus what it receives. */
  function RowValue<T>(f: Field<T>, weight: Entry<T> -> T, sec: Section<T>, row: nat): T
    requires sec.Sized() && row < sec.Rows()
  {
    var out, left := weight(sec.rec.colOut[row]), weight(sec.rec.colLeft[row]);
    var m := sec.rec.multiplicities;
    if row < sec.numReadRows then
      f.add(f.mul(out, f.OfNat(m[2 * row])), f.mul(left, f.OfNat(m[2 * row + 1])))
    else
      var i := row - sec.numReadRows;
      f.Sub(f.mul(out, f.OfNat(m[2 * sec.numReadRows + i])), f.add(left, weight(sec.rec.colRight[i])))
  }

  ghost function RowSum<T>(f: Field<T>, weight: Entry<T> -> T, sec: Section<T>, n: nat): T
    requires sec.Sized() && n <= sec.Rows()
  {
    if n == 0 then f.zero else f.add(RowSum(f, weight, sec, n - 1), RowValue(f, weight, sec, n - 1))
  }

  ghost function SectionWeights<T>(weight: Entry<T> -> T, sec: Section<T>): (w: seq<T>)
    requires sec.Sized()
    ensures |w| == |sec.rec.values|
  {
    Weights(weight, 2 * sec.numReadRows + sec.numEvalRows, sec.rec.values)
  }

  lemma ReadRowValue<T(!new)>(f: Field<T>, weight: Entry<T> -> T, sec: Section<T>, i: nat)
    requires sec.Complete() && sec.Sized() && i < sec.numReadRows
    ensures var m, w := sec.rec.multiplicities, SectionWeights(weight, sec);
            RowValue(f, weight, sec, i) == f.add(f.mul(w[2 * i], f.OfNat(m[2 * i])), f.mul(w[2 * i + 1], f.OfNat(m[2 * i + 1])))
  {
    assert ReadRow(2 * sec.numReadRows + sec.numEvalRows, sec.rec, i);
  }

  /** The READ rows send every variable with its multiplicity. */
  lemma {:induction false} ReadRowsSum<T(!new)>(f: Field<T>, weight: Entry<T> -> T, sec: Section<T>, n: nat)
    requires IsField(f) && sec.Complete() && sec.Sized() && n <= sec.numReadRows
    ensures RowSum(f, weight, sec, n) == Sent(f, sec.rec.multiplicities, SectionWeights(weight, sec), 2 * n)
  {
    hide Recorded, RowValue, SectionWeights, Sent;
    var m, w := sec.rec.multiplicities, SectionWeights(weight, sec);
    if n == 0 {
      SentNone(f, m, w);
    } else {
      var i := n - 1;
      ReadRowsSum(f, weight, sec, i);
      ReadRowValue(f, weight, sec, i);
      SentNext(f, m, w, 2 * i);
      SentNext(f, m, w, 2 * i + 1);
      assert Laws(f, RowSum(f, weight, sec, i), f.mul(w[2 * i], f.OfNat(m[2 * i])),
                  f.mul(w[2 * i + 1], f.OfNat(m[2 * i + 1])));
    }
  }

  lemma SentNone<T>(f: Field<T>, m: seq<nat>, w: seq<T>)
    requires |m| == |w|
    ensures Sent(f, m, w, 0) == f.zero
  {
  }

  lemma NoneReceived<T>(f: Field<T>, used: seq<nat>, w: seq<T>)
    requires Within(used, |w|)
    ensures Received(f, used, w, 0) == f.zero
  {
  }

  lemma EvalRowValue<T(!new)>(f: Field<T>, weight: Entry<T> -> T, sec: Section<T>, i: nat)
    requires sec.Complete() && sec.Sized() && i < sec.numEvalRows && Within(sec.rec.used, |sec.rec.values|)
    ensures var m, w, used := sec.rec.multiplicities, SectionWeights(weight, sec), sec.rec.used;
            var at := 2 * sec.numReadRows + i;
            RowValue(f, weight, sec, sec.numReadRows + i)
            == f.Sub(f.mul(w[at], f.OfNat(m[at])), f.add(w[used[2 * i]], w[used[2 * i + 1]]))
  {
    hide Recorded, Weights;
    EvalRowWeights(weight, sec.numReadRows, sec.numEvalRows, sec.rec, i);
  }

  /** After `n` EVAL rows: everything sent so far minus everything received. */
  lemma {:induction false} EvalRowsSum<T(!new)>(f: Field<T>, weight: Entry<T> -> T, sec: Section<T>, n: nat)
    requires IsField(f) && sec.Complete() && sec.Sized() && n <= sec.numEvalRows
    requires Within(sec.rec.used, |sec.rec.values|)
    ensures RowSum(f, weight, sec, sec.numReadRows + n)
            == f.Sub(Sent(f, sec.rec.multiplicities, SectionWeights(weight, sec), 2 * sec.numReadRows + n),
                     Received(f, sec.rec.used, SectionWeights(weight, sec), 2 * n))
  {
    hide Recorded, RowValue, SectionWeights, Sent, Received, Within;
    var first, w := 2 * sec.numReadRows, SectionWeights(weight, sec);
    if n == 0 {
      ReadRowsSum(f, weight, sec, sec.numReadRows);
      NoneReceived(f, sec.rec.used, w);
      SubZero(f, Sent(f, sec.rec.multiplicities, w, first), f.zero);
    } else {
      EvalRowsSum(f, weight, sec, n - 1);
      EvalStep(f, sec.rec.multiplicities, w, sec.rec.used, first, n - 1);
      EvalRowValue(f, weight, sec, n - 1);
    }
  }

  /** A complete section adds nothing to the running sum. */
  lemma SectionBalances<T(!new)>(f: Field<T>, weight: Entry<T> -> T, sec: Section<T>)
    requires IsField(f) && sec.Complete() && sec.Sized()
    ensures RowSum(f, weight, sec, sec.Rows()) == f.zero
  {
    hide RowSum;
    assert Counts(sec.rec.multiplicities, sec.rec.used);
    EvalRowsSum(f, weight, sec, sec.numEvalRows);
    AllBalanced(f, sec.rec.multiplicities, SectionWeights(weight, sec), sec.rec.used);
  }

  // The column

  /** Row by row from `start`, the column adds what the section's rows add. */
  ghost predicate Follows<T>(f: Field<T>, weight: Entry<T> -> T, sec: Section<T>, column: seq<T>, start: nat) {
    && sec.Sized() && start + sec.Rows() < |column|
    && forall row :: 0 <= row < sec.Rows() ==>
         column[start + row + 1] == f.add(column[start + row], RowValue(f, weight, sec, row))
  }

  method FillSection<T(!new)>(f: Field<T>, weight: Entry<T> -> T, sec: Section<T>, column: array<T>, start: nat)
    requires IsField(f) && sec.Complete() && sec.Sized() && start + sec.Rows() < column.Length
             && column[start] == f.zero
    modifies column
    ensures Follows(f, weight, sec, column[..], start) && column[start + sec.Rows()] == f.zero
    ensures forall i :: 0 <= i <= start || start + sec.Rows() < i < column.Length ==> column[i] == old(column[i])
  {
    hide RowValue, Recorded, IsField;
    for row := 0 to sec.Rows()
      invariant forall i :: 0 <= i <= start || start + row < i < column.Length ==> column[i] == old(column[i])
      invariant column[start + row] == RowSum(f, weight, sec, row)
      invariant forall r :: 0 <= r < row ==>
                  column[start + r + 1] == f.add(column[start + r], RowValue(f, weight, sec, r))
    {
      column[start + row + 1] := f.add(column[start + row], RowValue(f, weight, sec, row));
    }
    SectionBalances(f, weight, sec);
  }

  /** Where section `k` starts. */
  ghost function Start<T>(sections: seq<Section<T>>, offset: nat, k: nat): nat
    requires k <= |sections|
  {
    if k == 0 then offset else Start(sections, offset, k - 1) + sections[k - 1].Rows()
  }

  lemma {:induction false} StartMono<T>(sections: seq<Section<T>>, offset: nat, k: nat, n: nat)
    requires k <= n <= |sections|
    ensures Start(sections, offset, k) <= Start(sections, offset, n)
  {
    if k < n { StartMono(sections, offset, k, n - 1); }
  }

  lemma StartFirst<T>(sections: seq<Section<T>>, offset: nat)
    ensures Start(sections, offset, 0) == offset
  {
  }

  lemma StartNext<T>(sections: seq<Section<T>>, offset: nat, k: nat)
    requires k < |sections|
    ensures Start(sections, offset, k + 1) == Start(sections, offset, k) + sections[k].Rows()
  {
  }

  lemma FollowsStays<T>(f: Field<T>, weight: Entry<T> -> T, sec: Section<T>, before: seq<T>, after: seq<T>, start: nat)
    requires Follows(f, weight, sec, before, start) && |before| == |after|
    requires start + sec.Rows() < |before| && forall i :: 0 <= i <= start + sec.Rows() ==> after[i] == before[i]
    ensures Follows(f, weight, sec, after, start)
  {
  }

  /** Section `k` starts at zero and is followed row by row. */
  ghost predicate Placed<T>(f: Field<T>, weights: seq<Entry<T> -> T>, sections: seq<Section<T>>, column: seq<T>,
                            offset: nat, k: nat)
    requires k < |sections| == |weights|
  {
    var start := Start(sections, offset, k);
    start < |column| && column[start] == f.zero && Follows(f, weights[k], sections[k], column, start)
  }

  ghost predicate AllPlaced<T>(f: Field<T>, weights: seq<Entry<T> -> T>, sections: seq<Section<T>>, column: seq<T>,
                               offset: nat, n: nat)
    requires n <= |sections| == |weights|
  {
    forall k :: 0 <= k < n ==> Placed(f, weights, sections, column, offset, k)
  }

  lemma StaysPlaced<T>(f: Field<T>, weights: seq<Entry<T> -> T>, sections: seq<Section<T>>, before: seq<T>,
                       after: seq<T>,
                       offset: nat, j: nat, k: nat)
    requires j < k < |sections| == |weights| && |before| == |after| && Placed(f, weights, sections, before, offset, j)
    requires Start(sections, offset, k) < |before|
    requires forall i :: 0 <= i <= Start(sections, offset, k) ==> after[i] == before[i]
    ensures Placed(f, weights, sections, after, offset, j)
  {
    StartMono(sections, offset, j + 1, k);
    FollowsStays(f, weights[j], sections[j], before, after, Start(sections, offset, j));
  }

  lemma OneMoreSection<T>(f: Field<T>, weights: seq<Entry<T> -> T>, sections: seq<Section<T>>, before: seq<T>,
                          after: seq<T>,
                          offset: nat, k: nat)
    requires k < |sections| == |weights| && |before| == |after| && AllPlaced(f, weights, sections, before, offset, k)
    requires Start(sections, offset, k) < |before|
    requires forall i :: 0 <= i <= Start(sections, offset, k) ==> after[i] == before[i]
    requires Placed(f, weights, sections, after, offset, k)
    ensures AllPlaced(f, weights, sections, after, offset, k + 1)
  {
    hide Placed;
    forall j | 0 <= j < k ensures Placed(f, weights, sections, after, offset, j) {
      StaysPlaced(f, weights, sections, before, after, offset, j, k);
    }
  }

  /** Fill section `k` and keep the earlier ones. */
  method PlaceSection<T(!new)>(f: Field<T>, weights: seq<Entry<T> -> T>, sections: seq<Section<T>>, column: array<T>,
                               offset: nat, k: nat, at: nat)
    requires IsField(f) && k < |sections| == |weights| && sections[k].Complete() && sections[k].Sized()
    requires at == Start(sections, offset, k) && at + sections[k].Rows() < column.Length && column[at] == f.zero
    requires AllPlaced(f, weights, sections, column[..], offset, k)
    modifies column
    ensures AllPlaced(f, weights, sections, column[..], offset, k + 1) && column[at + sections[k].Rows()] == f.zero
    ensures forall i :: 0 <= i <= at || at + sections[k].Rows() < i < column.Length ==> column[i] == old(column[i])
  {
    hide Recorded, RowValue, Follows, AllPlaced, Start;
    ghost var before := column[..];
    FillSection(f, weights[k], sections[k], column, at);
    OneMoreSection(f, weights, sections, before, column[..], offset, k);
  }

  /** The column over all sections.  It adds up the rows, and it is back at zero at the start of every section and
      from the end on, whatever weight the bus gives to each wire of each section (it depends
      on the section's context and clock cycle). */
  method WiringColumn<T(!new)>(f: Field<T>, weights: seq<Entry<T> -> T>, sections: seq<Section<T>>, offset: nat,
                               length: nat)
    returns (column: seq<T>)
    requires IsField(f) && |weights| == |sections| && offset <= Start(sections, offset, |sections|) < length
    requires forall k :: 0 <= k < |sections| ==> sections[k].Complete() && sections[k].Sized()
    ensures |column| == length && forall i :: 0 <= i <= offset ==> column[i] == f.zero
    ensures AllPlaced(f, weights, sections, column, offset, |sections|)
    ensures forall i :: Start(sections, offset, |sections|) <= i < length ==> column[i] == f.zero
  {
    hide Recorded, RowValue, Follows, Placed, AllPlaced, Start, IsField;
    var buf := new T[length](_ => f.zero);
    var at := offset;
    StartFirst(sections, offset);
    NonePlaced(f, weights, sections, buf[..], offset);
    for k := 0 to |sections|
      invariant offset <= at == Start(sections, offset, k) < length
      invariant forall i :: 0 <= i <= offset || at <= i < length ==> buf[i] == f.zero
      invariant AllPlaced(f, weights, sections, buf[..], offset, k)
    {
      StartNext(sections, offset, k);
      StartMono(sections, offset, k + 1, |sections|);
      PlaceSection(f, weights, sections, buf, offset, k, at);
      at := at + sections[k].Rows();
    }
    column := buf[..];
  }

  lemma NonePlaced<T>(f: Field<T>, weights: seq<Entry<T> -> T>, sections: seq<Section<T>>, column: seq<T>, offset: nat)
    requires |weights| == |sections|
    ensures AllPlaced(f, weights, sections, column, offset, 0)
  {
  }

  /** The record of a finished evaluation is a complete section. */
  lemma FinishedIsComplete<T>(ev: CircuitEvaluation<T>)
    requires ev.Finished()
    ensures Section(ev.numReadRows, ev.numEvalRows, ev.Rec()).Complete()
    ensures Section(ev.numReadRows, ev.numEvalRows, ev.Rec()).Sized()
  {
    hide Recorded;
    CompleteSizes(Section(ev.numReadRows, ev.numEvalRows, ev.Rec()));
  }
}
