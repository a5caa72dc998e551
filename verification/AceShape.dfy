/** The traces that meet the constraints of the circuit-evaluation chiplet: sections of READ rows followed by EVAL rows,
    with identifiers counting down to zero, and nothing else (miden-vm/air/src/constraints/chiplets/ace.rs). */
module AceShape {
  import opened Fields
  import opened Circuit
  import opened AceChiplet
  import opened AceAir

  /** Rows from a start to the next one, or to the chiplet's last row. */
  ghost predicate OneSection<T>(f: Field<T>, rows: seq<AceRow<T>>) {
    && |rows| > 0 && rows[0].start == f.one && Ended(f, rows[|rows| - 1])
    && (forall i :: 0 < i < |rows| ==> rows[i].start == f.zero)
    && (forall i :: 0 <= i < |rows| ==> RowMeans(f, rows[i]))
    && (forall i :: 0 <= i < |rows| - 1 ==> StepMeans(f, rows[i], rows[i + 1]))
  }

  // One section

  /** The identifier row `i` assigns, with `numRead` READ rows and `numEval` EVAL rows. */
  function IdAt(numRead: nat, numEval: nat, i: nat): nat
    requires i < numRead + numEval
  {
    if i < numRead then 2 * (numRead - i) + numEval - 1 else numRead + numEval - 1 - i
  }

  /** How far row `i` is past the section's first address. */
  function OffsetAt(numRead: nat, i: nat): nat {
    if i < numRead then 4 * i else 4 * numRead + (i - numRead)
  }

  ghost predicate RowAt<T>(f: Field<T>, rows: seq<AceRow<T>>, numRead: nat, numEval: nat, i: int) {
    && 0 <= i < |rows| == numRead + numEval && numEval > 0
    && var r := rows[i];
    && r.ctx == rows[0].ctx && r.clk == rows[0].clk && r.ptr == f.add(rows[0].ptr, f.OfNat(OffsetAt(numRead, i)))
    && r.block == (if i < numRead then f.zero else f.one) && r.id0 == f.OfNat(IdAt(numRead, numEval, i))
    && (i < numRead ==> r.id1 == f.OfNat(IdAt(numRead, numEval, i) - 1) && r.numEval == f.OfNat(numEval - 1))
    && (i >= numRead ==> Evaluates(f, r))
  }

  /** First READ rows, then EVAL rows, at consecutive addresses and with identifiers down to zero. */
  ghost predicate Shaped<T>(f: Field<T>, rows: seq<AceRow<T>>, numRead: nat, numEval: nat) {
    && |rows| == numRead + numEval && numRead > 0 && numEval > 0
    && forall i :: 0 <= i < |rows| ==> RowAt(f, rows, numRead, numEval, i)
  }

  /** Only the first row starts a section, and the last value is zero. */
  ghost predicate Bounded<T>(f: Field<T>, rows: seq<AceRow<T>>) {
    && |rows| > 0 && rows[0].start == f.one && rows[|rows| - 1].v0 == f.zero
    && forall i :: 0 < i < |rows| ==> rows[i].start == f.zero
  }

  lemma FirstEval<T(!new)>(f: Field<T>, rows: seq<AceRow<T>>) returns (numRead: nat)
    requires IsField(f) && OneSection(f, rows)
    ensures 0 < numRead < |rows| && rows[numRead].block == f.one
    ensures forall i :: 0 <= i < numRead ==> rows[i].block == f.zero
  {
    ZeroNotOne(f);
    assert RowMeans(f, rows[0]);
    numRead := 1;
    while rows[numRead].block == f.zero
      invariant 0 < numRead < |rows| && forall i :: 0 <= i < numRead ==> rows[i].block == f.zero
      decreases |rows| - numRead
    {
      numRead := numRead + 1;
    }
    assert RowMeans(f, rows[numRead]);
  }

  lemma {:induction false} EvalAfter<T(!new)>(f: Field<T>, rows: seq<AceRow<T>>, numRead: nat, i: nat)
    requires OneSection(f, rows) && numRead <= i < |rows| && rows[numRead].block == f.one
    ensures rows[i].block == f.one
  {
    if i > numRead {
      EvalAfter(f, rows, numRead, i - 1);
      assert StepMeans(f, rows[i - 1], rows[i]);
    }
  }

  /** The rows are READ before `numRead` and EVAL from there on. */
  ghost predicate Blocks<T>(f: Field<T>, rows: seq<AceRow<T>>, numRead: nat) {
    && 0 < numRead < |rows|
    && forall i :: 0 <= i < |rows| ==> rows[i].block == if i < numRead then f.zero else f.one
  }

  lemma {:induction false} Counted<T(!new)>(f: Field<T>, rows: seq<AceRow<T>>, numRead: nat, i: nat)
    requires IsField(f) && OneSection(f, rows) && Blocks(f, rows, numRead) && i < |rows|
    ensures rows[i].id0 == f.OfNat(IdAt(numRead, |rows| - numRead, i))
    decreases |rows| - i
  {
    hide IsField, Evaluates;
    if i < |rows| - 1 {
      Counted(f, rows, numRead, i + 1);
      assert StepMeans(f, rows[i], rows[i + 1]);
      ZeroNotOne(f);
      TwoMore(f, IdAt(numRead, |rows| - numRead, i + 1));
    }
  }

  lemma TwoMore<T(!new)>(f: Field<T>, n: nat)
    requires IsField(f)
    ensures f.OfNat(n + 2) == f.add(f.OfNat(n), f.add(f.one, f.one)) && f.OfNat(n + 1) == f.add(f.OfNat(n), f.one)
  {
    assert f.OfNat(n + 2) == f.add(f.OfNat(n + 1), f.one);
    assert Laws(f, f.OfNat(n), f.one, f.one);
  }

  lemma {:induction false} Announced<T(!new)>(f: Field<T>, rows: seq<AceRow<T>>, numRead: nat, i: nat)
    requires IsField(f) && OneSection(f, rows) && Blocks(f, rows, numRead) && i < numRead
    ensures rows[i].numEval == f.OfNat(|rows| - numRead - 1)
    decreases numRead - i
  {
    hide IsField, Evaluates;
    ZeroNotOne(f);
    assert StepMeans(f, rows[i], rows[i + 1]);
    if i < numRead - 1 { Announced(f, rows, numRead, i + 1); } else { Counted(f, rows, numRead, numRead); }
  }

  lemma {:induction false} Addressed<T(!new)>(f: Field<T>, rows: seq<AceRow<T>>, numRead: nat, i: nat)
    requires IsField(f) && OneSection(f, rows) && Blocks(f, rows, numRead) && i < |rows|
    ensures rows[i].ptr == f.add(rows[0].ptr, f.OfNat(OffsetAt(numRead, i)))
    ensures rows[i].ctx == rows[0].ctx && rows[i].clk == rows[0].clk
  {
    hide Evaluates;
    if i == 0 {
      assert Laws(f, rows[0].ptr, f.zero, f.zero);
    } else {
      Addressed(f, rows, numRead, i - 1);
      ZeroNotOne(f);
      assert StepMeans(f, rows[i - 1], rows[i]);
      var step: nat := if i - 1 < numRead then 4 else 1;
      assert f.OfNat(1) == f.one by { SmallInts(f); }
      OfNatSum(f, OffsetAt(numRead, i - 1), step);
      assert Laws(f, rows[0].ptr, f.OfNat(OffsetAt(numRead, i - 1)), f.OfNat(step));
    }
  }

  lemma SecondId<T(!new)>(f: Field<T>, id0: T, id1: T, n: nat)
    requires IsField(f) && n > 0 && id0 == f.OfNat(n)
    ensures id0 == f.add(id1, f.one) <==> id1 == f.OfNat(n - 1)
  {
    AddCancel(f, id1, f.OfNat(n - 1), f.one);
  }

  /** A section has READ rows, then EVAL rows, and every column but the operands is determined by how many. */
  lemma SectionShape<T(!new)>(f: Field<T>, rows: seq<AceRow<T>>) returns (numRead: nat)
    requires IsField(f) && OneSection(f, rows)
    ensures numRead < |rows| && Shaped(f, rows, numRead, |rows| - numRead) && Bounded(f, rows)
  {
    hide IsField, Evaluates;
    numRead := FirstEval(f, rows);
    ZeroNotOne(f);
    forall i | numRead <= i < |rows| ensures rows[i].block == f.one { EvalAfter(f, rows, numRead, i); }
    var numEval := |rows| - numRead;
    forall i | 0 <= i < |rows| ensures RowAt(f, rows, numRead, numEval, i) {
      Counted(f, rows, numRead, i);
      Addressed(f, rows, numRead, i);
      assert RowMeans(f, rows[i]);
      if i < numRead {
        Announced(f, rows, numRead, i);
        SecondId(f, rows[i].id0, rows[i].id1, IdAt(numRead, numEval, i));
      }
    }
  }

  lemma ShapedRow<T(!new)>(f: Field<T>, rows: seq<AceRow<T>>, numRead: nat, numEval: nat, i: nat)
    requires IsField(f) && Shaped(f, rows, numRead, numEval) && Bounded(f, rows) && i < |rows|
    ensures RowMeans(f, rows[i])
  {
    hide IsField, Evaluates;
    ZeroNotOne(f);
    assert RowAt(f, rows, numRead, numEval, i);
    if i < numRead { SecondId(f, rows[i].id0, rows[i].id1, IdAt(numRead, numEval, i)); }
  }

  lemma ShapedStep<T(!new)>(f: Field<T>, rows: seq<AceRow<T>>, numRead: nat, numEval: nat, i: nat)
    requires IsField(f) && Shaped(f, rows, numRead, numEval) && Bounded(f, rows) && i + 1 < |rows|
    ensures StepMeans(f, rows[i], rows[i + 1])
  {
    hide Evaluates;
    ZeroNotOne(f);
    assert RowAt(f, rows, numRead, numEval, i) && RowAt(f, rows, numRead, numEval, i + 1);
    var step: nat := if i < numRead then 4 else 1;
    assert f.OfNat(1) == f.one by { SmallInts(f); }
    OfNatSum(f, OffsetAt(numRead, i), step);
    assert Laws(f, rows[0].ptr, f.OfNat(OffsetAt(numRead, i)), f.OfNat(step));
    TwoMore(f, IdAt(numRead, numEval, i + 1));
  }

  /** And rows of that shape are a section. */
  lemma ShapeSection<T(!new)>(f: Field<T>, rows: seq<AceRow<T>>, numRead: nat, numEval: nat)
    requires IsField(f) && Shaped(f, rows, numRead, numEval) && Bounded(f, rows)
    ensures OneSection(f, rows)
  {
    hide IsField, RowMeans, StepMeans, Evaluates;
    assert RowAt(f, rows, numRead, numEval, |rows| - 1);
    forall i | 0 <= i < |rows| ensures RowMeans(f, rows[i]) { ShapedRow(f, rows, numRead, numEval, i); }
    forall i | 0 <= i < |rows| - 1 ensures StepMeans(f, rows[i], rows[i + 1]) { ShapedStep(f, rows, numRead, numEval, i); }
  }

  // The whole trace

  ghost function Flat<T>(sections: seq<seq<AceRow<T>>>): seq<AceRow<T>> {
    if |sections| == 0 then [] else Flat(sections[..|sections| - 1]) + sections[|sections| - 1]
  }

  ghost predicate AllSections<T>(f: Field<T>, sections: seq<seq<AceRow<T>>>) {
    forall k :: 0 <= k < |sections| ==> OneSection(f, sections[k])
  }

  lemma Meaning<T(!new)>(f: Field<T>, rows: seq<AceRow<T>>)
    requires IsField(f)
    ensures (forall i :: 0 <= i < |rows| ==> RowHolds(f, rows[i])) <==>
              (forall i :: 0 <= i < |rows| ==> RowMeans(f, rows[i]))
    ensures (forall i :: 0 <= i < |rows| ==> RowMeans(f, rows[i])) ==>
              ((forall i :: 0 <= i < |rows| - 1 ==> StepHolds(f, rows[i], rows[i + 1]))
               <==> (forall i :: 0 <= i < |rows| - 1 ==> StepMeans(f, rows[i], rows[i + 1])))
  {
    hide IsField, RowHolds, RowMeans, StepHolds, StepMeans;
    forall i | 0 <= i < |rows| ensures RowHolds(f, rows[i]) <==> RowMeans(f, rows[i]) { RowMeaning(f, rows[i]); }
    if forall i :: 0 <= i < |rows| ==> RowMeans(f, rows[i]) {
      forall i | 0 <= i < |rows| - 1
        ensures StepHolds(f, rows[i], rows[i + 1]) <==> StepMeans(f, rows[i], rows[i + 1])
      {
        StepMeaning(f, rows[i], rows[i + 1]);
      }
    }
  }

  /** The constraints with their meaning unfolded. */
  ghost predicate Meets<T>(f: Field<T>, rows: seq<AceRow<T>>) {
    && |rows| > 0 && rows[0].start == f.one && rows[|rows| - 1].start == f.zero && Ended(f, rows[|rows| - 1])
    && (forall i :: 0 <= i < |rows| ==> RowMeans(f, rows[i]))
    && (forall i :: 0 <= i < |rows| - 1 ==> StepMeans(f, rows[i], rows[i + 1]))
  }

  lemma ConstrainedMeets<T(!new)>(f: Field<T>, rows: seq<AceRow<T>>)
    requires IsField(f)
    ensures Constrained(f, rows) <==> Meets(f, rows)
  {
    hide IsField, RowHolds, StepHolds, StepMeans, RowMeans;
    Meaning(f, rows);
    if |rows| > 0 { SubZero(f, f.one, rows[|rows| - 1].block); }
  }

  lemma LastStart<T(!new)>(f: Field<T>, rows: seq<AceRow<T>>) returns (p: nat)
    requires IsField(f) && Meets(f, rows)
    ensures p < |rows| && rows[p].start == f.one && forall i :: p < i < |rows| ==> rows[i].start == f.zero
  {
    p := |rows| - 1;
    while rows[p].start == f.zero
      invariant p < |rows| && forall i :: p < i < |rows| ==> rows[i].start == f.zero
      decreases p
    {
      ZeroNotOne(f);
      p := p - 1;
    }
    assert RowMeans(f, rows[p]);
  }

  lemma Behind<T(!new)>(f: Field<T>, rows: seq<AceRow<T>>, p: nat)
    requires IsField(f) && Meets(f, rows) && p < |rows| && rows[p].start == f.one
    requires forall i :: p < i < |rows| ==> rows[i].start == f.zero
    ensures OneSection(f, rows[p..]) && (p > 0 ==> Meets(f, rows[..p]))
  {
    hide IsField, RowMeans, Continues;
    var tail := rows[p..];
    forall i | 0 <= i < |tail| ensures RowMeans(f, tail[i]) { assert RowMeans(f, rows[p + i]); }
    forall i | 0 <= i < |tail| - 1 ensures StepMeans(f, tail[i], tail[i + 1]) {
      assert StepMeans(f, rows[p + i], rows[p + i + 1]);
    }
    if p > 0 {
      assert StepMeans(f, rows[p - 1], rows[p]);
      EitherBit(f, rows[p - 1]);
    }
  }

  lemma EitherBit<T(!new)>(f: Field<T>, r: AceRow<T>)
    requires RowMeans(f, r)
    ensures IsBit(f, r.start) && IsBit(f, r.block)
  {
  }

  /** Whatever meets the constraints is a sequence of sections. */
  lemma {:induction false} TraceSplits<T(!new)>(f: Field<T>, rows: seq<AceRow<T>>)
    returns (sections: seq<seq<AceRow<T>>>)
    requires IsField(f) && Meets(f, rows)
    ensures |sections| > 0 && AllSections(f, sections) && Flat(sections) == rows
    decreases |rows|
  {
    hide IsField, Meets, OneSection;
    var p := LastStart(f, rows);
    Behind(f, rows, p);
    if p == 0 {
      sections := [rows[p..]];
      assert Flat(sections[..0]) == [];
      assert [] + rows[p..] == rows;
    } else {
      var before := TraceSplits(f, rows[..p]);
      sections := before + [rows[p..]];
      assert sections[..|before|] == before;
      assert rows[..p] + rows[p..] == rows;
    }
  }

  lemma TwoRows<T(!new)>(f: Field<T>, rows: seq<AceRow<T>>)
    requires IsField(f) && OneSection(f, rows)
    ensures |rows| >= 2 && rows[|rows| - 1].start == f.zero && Meets(f, rows)
  {
    ZeroNotOne(f);
    assert RowMeans(f, rows[0]);
  }

  lemma Joined<T(!new)>(f: Field<T>, before: seq<AceRow<T>>, rows: seq<AceRow<T>>)
    requires IsField(f) && Meets(f, before) && OneSection(f, rows)
    ensures Meets(f, before + rows)
  {
    hide IsField, RowMeans, Continues;
    TwoRows(f, rows);
    ZeroNotOne(f);
    var all, n := before + rows, |before|;
    forall i | 0 <= i < |all| - 1 ensures StepMeans(f, all[i], all[i + 1]) {
      if i < n - 1 {
        assert StepMeans(f, before[i], before[i + 1]);
      } else if i >= n {
        assert StepMeans(f, rows[i - n], rows[i - n + 1]);
      }
    }
  }

  lemma {:induction false} SectionsMeet<T(!new)>(f: Field<T>, sections: seq<seq<AceRow<T>>>)
    requires IsField(f) && |sections| > 0 && AllSections(f, sections)
    ensures Meets(f, Flat(sections))
  {
    hide IsField, Meets, OneSection;
    var n := |sections| - 1;
    TwoRows(f, sections[n]);
    if n > 0 {
      SectionsMeet(f, sections[..n]);
      Joined(f, Flat(sections[..n]), sections[n]);
    } else {
      assert Flat(sections[..0]) == [];
      assert [] + sections[0] == sections[0];
    }
  }

  /** The chiplet's rows meet the constraints exactly when they are sections one after another. */
  lemma ConstrainedIffSections<T(!new)>(f: Field<T>, rows: seq<AceRow<T>>)
    requires IsField(f)
    ensures Constrained(f, rows) <==>
              exists ss: seq<seq<AceRow<T>>> :: |ss| > 0 && AllSections(f, ss) && Flat(ss) == rows
  {
    hide IsField, Constrained, Meets, AllSections, Flat;
    ConstrainedMeets(f, rows);
    if Meets(f, rows) { var ss := TraceSplits(f, rows); }
    if ss: seq<seq<AceRow<T>>> :| |ss| > 0 && AllSections(f, ss) && Flat(ss) == rows { SectionsMeet(f, ss); }
  }
}
