/** The execution trace as one logical matrix behind three physical layouts (miden-vm/air/src/trace/main_trace.rs). */
module MainTrace {
  import opened Common

  /** The widths the layouts are built from: `core` row-major columns, two range-checker columns, `chiplets` row-major
      columns, and zero columns up to `padded`. */
  datatype Layout<T> = Layout(core: nat, chiplets: nat, padded: nat, zero: T)
  {
    function TraceWidth(): nat { core + RANGE_CHECK_WIDTH + chiplets }

    predicate Valid() { 0 < core && TraceWidth() <= padded }
  }

  const RANGE_CHECK_WIDTH := 2
  const RATE_LEN := 8

  /** The virtual machine's widths: six system, 24 decoder, 19 stack and 21 chiplet columns. */
  function VmLayout<T>(zero: T): (k: Layout<T>)
    ensures k.Valid() && k.padded == k.TraceWidth() == 72
  {
    Layout(6 + 24 + 19, 21, NextMultipleOf(6 + 24 + 19 + 2 + 21, RATE_LEN), zero)
  }

  /** Padding completes the last block of eight columns and no more. */
  lemma PaddingCompletes(width: nat)
    ensures var padded := NextMultipleOf(width, RATE_LEN); padded % 8 == 0 && width <= padded < width + 8
  {
  }

  /** A dense row-major matrix. */
  datatype Matrix<T> = Matrix(values: seq<T>, width: nat, height: nat)
  {
    predicate Valid() { |values| == height * width }

    function Row(r: nat): (row: seq<T>)
      requires Valid() && r < height
      ensures |row| == width
    {
      RowInside(width, height, r);
      values[r * width..r * width + width]
    }
  }

  lemma RowInside(w: nat, h: nat, r: nat)
    requires r < h
    ensures 0 <= r * w && r * w + w <= h * w
  {
    assert h * w == r * w + w + (h - r - 1) * w;
  }

  lemma RowsApart(w: nat, r: nat, r': nat)
    requires r < r'
    ensures r * w + w <= r' * w
  {
    RowInside(w, r', r);
  }

  /** Equal rows make equal matrices. */
  lemma SameRows<T>(m: Matrix<T>, m': Matrix<T>)
    requires m.Valid() && m'.Valid() && m.width == m'.width && m.height == m'.height
    requires forall r :: 0 <= r < m.height ==> m.Row(r) == m'.Row(r)
    ensures m == m'
  {
    forall i | 0 <= i < |m.values| ensures m.values[i] == m'.values[i] {
      SameCell(m, m', i);
    }
  }

  lemma SameCell<T>(m: Matrix<T>, m': Matrix<T>, i: nat)
    requires m.Valid() && m'.Valid() && m.width == m'.width && m.height == m'.height && i < |m.values|
    requires forall r :: 0 <= r < m.height ==> m.Row(r) == m'.Row(r)
    ensures m.values[i] == m'.values[i]
  {
    var r, c := Locate(m.width, m.height, i);
    assert m.Row(r) == m'.Row(r);
    RowCell(m, r, c);
    RowCell(m', r, c);
  }

  lemma RowCell<T>(m: Matrix<T>, r: nat, c: nat)
    requires m.Valid() && r < m.height && c < m.width
    ensures r * m.width + c < |m.values| && m.Row(r)[c] == m.values[r * m.width + c]
  {
    RowInside(m.width, m.height, r);
  }

  lemma Locate(w: nat, h: nat, i: nat) returns (r: nat, c: nat)
    requires i < h * w
    ensures r < h && c < w && i == r * w + c
  {
    r, c := 0, i;
    while c >= w
      invariant i == r * w + c && r < h
    {
      assert (r + 1) * w == r * w + w;
      if r + 1 == h { assert false; }
      r, c := r + 1, c - w;
    }
  }

  // Storage

  datatype Storage<T> =
    | Parts(coreRm: seq<T>, chipletsRm: seq<T>, rangeChecker: seq<seq<T>>, numRows: nat)
    | RowMajor(matrix: Matrix<T>)
    | Transposed(matrix: Matrix<T>, numCols: nat, rows: nat)

  ghost predicate Valid<T>(k: Layout<T>, t: Storage<T>) {
    && k.Valid()
    && match t
       case Parts(core, chiplets, range, n) =>
         && |core| == n * k.core && |chiplets| == n * k.chiplets
         && |range| == RANGE_CHECK_WIDTH && |range[0]| == |range[1]| == n
       case RowMajor(m) => m.Valid()
       case Transposed(m, numCols, numRows) => m.Valid() && numCols == m.height && numRows == m.width
  }

  function FromTransposed<T>(transposed: Matrix<T>): Storage<T> {
    Transposed(transposed, transposed.height, transposed.width)
  }

  function Width<T>(k: Layout<T>, t: Storage<T>): nat {
    match t
    case Parts(_, _, _, _) => k.padded
    case RowMajor(m) => m.width
    case Transposed(_, numCols, _) => numCols
  }

  function NumRows<T>(t: Storage<T>): nat {
    match t
    case Parts(_, _, _, n) => n
    case RowMajor(m) => m.height
    case Transposed(_, _, n) => n
  }

  /** The part of row `r` stored in a row-major block. */
  function BlockRow<T>(block: seq<T>, w: nat, h: nat, r: nat): (row: seq<T>)
    requires |block| == h * w && r < h
    ensures |row| == w
  {
    Matrix(block, w, h).Row(r)
  }

  /** One cell; `None` stands for the panic on an index out of bounds. */
  function Get<T>(k: Layout<T>, t: Storage<T>, r: nat, c: nat): (cell: Option<T>)
    requires Valid(k, t)
    ensures cell.Some? <==> r < NumRows(t) && c < Width(k, t)
  {
    match t
    case Parts(core, chiplets, range, n) =>
      if !(r < n && c < k.padded) then None
      else if c < k.core then
        RowInside(k.core, n, r);
        Some(core[r * k.core + c])
      else
        var nc := c - k.core;
        if nc < RANGE_CHECK_WIDTH then Some(range[nc][r])
        else if nc < RANGE_CHECK_WIDTH + k.chiplets then
          RowInside(k.chiplets, n, r);
          Some(chiplets[r * k.chiplets + (nc - RANGE_CHECK_WIDTH)])
        else Some(k.zero)
    case RowMajor(m) =>
      if r < m.height && c < m.width then Some(m.Row(r)[c]) else None
    case Transposed(m, _, _) =>
      if c < m.height && r < m.width then Some(m.Row(c)[r]) else None
  }

  /** The logical row: what `Get` says, cell by cell. */
  ghost function LogicalRow<T>(k: Layout<T>, t: Storage<T>, r: nat): (row: seq<T>)
    requires Valid(k, t) && r < NumRows(t)
    ensures |row| == Width(k, t)
    ensures forall c :: 0 <= c < |row| ==> Get(k, t, r, c) == Some(row[c])
  {
    seq(Width(k, t), c requires 0 <= c < Width(k, t) => Get(k, t, r, c).value)
  }

  /** The matrix holds the first columns of the trace, as many as it is wide. */
  ghost predicate Exports<T>(k: Layout<T>, t: Storage<T>, m: Matrix<T>)
    requires Valid(k, t)
  {
    && m.Valid() && m.height == NumRows(t) && m.width <= Width(k, t)
    && forall r :: 0 <= r < m.height ==> m.Row(r) == LogicalRow(k, t, r)[..m.width]
  }

  /** In the split layout a logical row is core, range checker, chiplets and padding, in this order. */
  lemma PartsRow<T>(k: Layout<T>, t: Storage<T>, r: nat)
    requires Valid(k, t) && t.Parts? && r < t.numRows
    ensures LogicalRow(k, t, r)
            == BlockRow(t.coreRm, k.core, t.numRows, r) + [t.rangeChecker[0][r], t.rangeChecker[1][r]]
               + BlockRow(t.chipletsRm, k.chiplets, t.numRows, r) + Repeat(k.zero, k.padded - k.TraceWidth())
  {
    RowInside(k.core, t.numRows, r);
    RowInside(k.chiplets, t.numRows, r);
  }

  // Output buffers

  /** A cell of memory whose length was declared before it was written: not written yet, or written some number of
      times. */
  datatype Cell<T> = Uninit | Init(value: T, writes: nat)

  function Rewrite<T>(c: Cell<T>, x: T): Cell<T> {
    Init(x, 1 + if c.Init? then c.writes else 0)
  }

  ghost function Overwrite<T>(cells: seq<Cell<T>>, at: nat, src: seq<T>): (r: seq<Cell<T>>)
    requires at + |src| <= |cells|
    ensures |r| == |cells|
    ensures forall i :: 0 <= i < |cells| ==>
              r[i] == if at <= i < at + |src| then Rewrite(cells[i], src[i - at]) else cells[i]
  {
    seq(|cells|, i requires 0 <= i < |cells| =>
      if at <= i < at + |src| then Rewrite(cells[i], src[i - at]) else cells[i])
  }

  method Copy<T>(buf: array<Cell<T>>, at: nat, src: seq<T>)
    requires at + |src| <= buf.Length
    modifies buf
    ensures buf[..] == Overwrite(old(buf[..]), at, src)
  {
    for i := 0 to |src|
      invariant forall j :: 0 <= j < buf.Length ==>
                  buf[j] == if at <= j < at + i then Rewrite(old(buf[j]), src[j - at]) else old(buf[j])
    {
      buf[at + i] := Rewrite(buf[at + i], src[i]);
    }
  }

  /** Cells that were each written once, with these values. */
  function Once<T>(src: seq<T>): (cells: seq<Cell<T>>)
    ensures |cells| == |src| && forall i :: 0 <= i < |src| ==> cells[i] == Init(src[i], 1)
  {
    seq(|src|, i requires 0 <= i < |src| => Init(src[i], 1))
  }

  lemma OverwriteHere<T>(cells: seq<Cell<T>>, w: nat, h: nat, r: nat, at: nat, src: seq<T>)
    requires |cells| == h * w && r < h && at + |src| <= w
    ensures r * w + at + |src| <= |cells|
    ensures BlockRow(Overwrite(cells, r * w + at, src), w, h, r) == Overwrite(BlockRow(cells, w, h, r), at, src)
  {
    RowInside(w, h, r);
    var base := r * w;
    assert Overwrite(cells, base + at, src)[base..base + w] == Overwrite(cells[base..base + w], at, src);
  }

  lemma OverwriteElsewhere<T>(cells: seq<Cell<T>>, w: nat, h: nat, r: nat, at: nat, src: seq<T>, r': nat)
    requires |cells| == h * w && r < h && at + |src| <= w && r * w + at + |src| <= |cells| && r' < h && r' != r
    ensures BlockRow(Overwrite(cells, r * w + at, src), w, h, r') == BlockRow(cells, w, h, r')
  {
    RowInside(w, h, r');
    if r' < r { RowsApart(w, r', r); } else { RowsApart(w, r, r'); }
    var base := r' * w;
    assert Overwrite(cells, r * w + at, src)[base..base + w] == cells[base..base + w];
  }

  /** Writing inside one row leaves the others alone. */
  lemma OverwriteRow<T>(cells: seq<Cell<T>>, w: nat, h: nat, r: nat, at: nat, src: seq<T>)
    requires |cells| == h * w && r < h && at + |src| <= w
    ensures r * w + at + |src| <= |cells|
    ensures BlockRow(Overwrite(cells, r * w + at, src), w, h, r) == Overwrite(BlockRow(cells, w, h, r), at, src)
    ensures forall r' :: 0 <= r' < h && r' != r ==>
              BlockRow(Overwrite(cells, r * w + at, src), w, h, r') == BlockRow(cells, w, h, r')
  {
    hide Overwrite, BlockRow;
    OverwriteHere(cells, w, h, r, at, src);
    forall r' | 0 <= r' < h && r' != r
      ensures BlockRow(Overwrite(cells, r * w + at, src), w, h, r') == BlockRow(cells, w, h, r')
    {
      OverwriteElsewhere(cells, w, h, r, at, src, r');
    }
  }

  /** Copies into one row of a buffer. */
  method CopyInRow<T>(buf: array<Cell<T>>, w: nat, h: nat, r: nat, at: nat, src: seq<T>)
    requires buf.Length == h * w && r < h && at + |src| <= w
    modifies buf
    ensures BlockRow(buf[..], w, h, r) == Overwrite(old(BlockRow(buf[..], w, h, r)), at, src)
    ensures forall r' :: 0 <= r' < h && r' != r ==> BlockRow(buf[..], w, h, r') == old(BlockRow(buf[..], w, h, r'))
  {
    hide Overwrite, BlockRow;
    OverwriteRow(buf[..], w, h, r, at, src);
    Copy(buf, r * w + at, src);
  }

  /** Two adjacent writes are one. */
  lemma OverwriteTwice<T>(cells: seq<Cell<T>>, at: nat, src: seq<T>, more: seq<T>)
    requires at + |src| + |more| <= |cells|
    ensures Overwrite(Overwrite(cells, at, src), at + |src|, more) == Overwrite(cells, at, src + more)
  {
  }

  lemma OverwriteNothing<T>(cells: seq<Cell<T>>, at: nat)
    requires at <= |cells|
    ensures Overwrite(cells, at, []) == cells
  {
  }

  lemma OverwriteBlank<T>(w: nat, src: seq<T>)
    requires |src| == w
    ensures Overwrite(Repeat(Uninit, w), 0, src) == Once(src)
  {
  }

  // Exporting rows

  datatype Export = Whole | Stripped(targetWidth: nat)

  function ExportWidth<T>(k: Layout<T>, t: Storage<T>, e: Export): nat {
    match e case Whole => Width(k, t) case Stripped(w) => w
  }

  /** What the callers must respect: the split layout only strips columns after the core ones, the row-major layout
      only strips. */
  ghost predicate Exportable<T>(k: Layout<T>, t: Storage<T>, e: Export) {
    && 0 < ExportWidth(k, t, e)
    && match t
       case Parts(_, _, _, _) => k.core <= ExportWidth(k, t, e)
       case _ => ExportWidth(k, t, e) <= Width(k, t)
  }

  /** The export is exact: every width for the two matrix layouts; for the split layout the whole trace, or a stripped
      one that leaves out all padding. */
  ghost predicate Exact<T>(k: Layout<T>, t: Storage<T>, e: Export) {
    t.Parts? && e.Stripped? ==> e.targetWidth <= k.TraceWidth()
  }

  method FillWholeParts<T>(k: Layout<T>, t: Storage<T>, buf: array<Cell<T>>, h: nat, r: nat)
    requires Valid(k, t) && t.Parts? && h == t.numRows && r < h && buf.Length == h * k.padded
    modifies buf
    ensures BlockRow(buf[..], k.padded, h, r)
                == Overwrite(old(BlockRow(buf[..], k.padded, h, r)), 0, LogicalRow(k, t, r))
    ensures forall r' :: 0 <= r' < h && r' != r ==>
              BlockRow(buf[..], k.padded, h, r') == old(BlockRow(buf[..], k.padded, h, r'))
  {
    hide Overwrite, BlockRow, LogicalRow, Valid;
    PartsSizes(k, t, r);
    PartsRow(k, t, r);
    var w := k.padded;
    var core, chiplets := BlockRow(t.coreRm, k.core, h, r), BlockRow(t.chipletsRm, k.chiplets, h, r);
    var range0, range1 := t.rangeChecker[0][r], t.rangeChecker[1][r];
    var pad := Repeat(k.zero, w - k.TraceWidth());
    ghost var was := BlockRow(buf[..], w, h, r);
    CopyInRow(buf, w, h, r, 0, core);
    CopyInRow(buf, w, h, r, k.core, [range0]);
    OverwriteTwice(was, 0, core, [range0]);
    CopyInRow(buf, w, h, r, k.core + 1, [range1]);
    OverwriteTwice(was, 0, core + [range0], [range1]);
    CopyInRow(buf, w, h, r, k.core + 2, chiplets);
    OverwriteTwice(was, 0, core + [range0] + [range1], chiplets);
    CopyInRow(buf, w, h, r, k.core + 2 + k.chiplets, pad);
    OverwriteTwice(was, 0, core + [range0] + [range1] + chiplets, pad);
    assert core + [range0] + [range1] + chiplets + pad == core + [range0, range1] + chiplets + pad;
  }

  lemma PartsSizes<T>(k: Layout<T>, t: Storage<T>, r: nat)
    requires Valid(k, t) && t.Parts? && r < t.numRows
    ensures k.Valid() && |t.coreRm| == t.numRows * k.core && |t.chipletsRm| == t.numRows * k.chiplets
    ensures |t.rangeChecker| == RANGE_CHECK_WIDTH && |t.rangeChecker[0]| == |t.rangeChecker[1]| == t.numRows
  {
  }

  /** The columns a stripped row takes from the source: those of the trace, as far as they are wanted. */
  ghost function StrippedSource<T>(k: Layout<T>, t: Storage<T>, r: nat, targetWidth: nat): (src: seq<T>)
    requires Valid(k, t) && r < NumRows(t) && k.core <= targetWidth && t.Parts?
    ensures |src| == if targetWidth <= k.TraceWidth() then targetWidth else k.TraceWidth()
  {
    LogicalRow(k, t, r)[..if targetWidth <= k.TraceWidth() then targetWidth else k.TraceWidth()]
  }

  lemma SourceParts<T>(k: Layout<T>, t: Storage<T>, r: nat, targetWidth: nat)
    requires Valid(k, t) && t.Parts? && r < t.numRows && k.core <= targetWidth
    ensures var ranges := Min(RANGE_CHECK_WIDTH, targetWidth - k.core);
            var chips := Min(targetWidth - k.core - ranges, k.chiplets);
            StrippedSource(k, t, r, targetWidth)
            == BlockRow(t.coreRm, k.core, t.numRows, r) + [t.rangeChecker[0][r], t.rangeChecker[1][r]][..ranges]
               + BlockRow(t.chipletsRm, k.chiplets, t.numRows, r)[..chips]
  {
    PartsRow(k, t, r);
  }

  /** The core and range-checker columns of a stripped row. */
  method FillStrippedFront<T>(k: Layout<T>, t: Storage<T>, targetWidth: nat, buf: array<Cell<T>>, h: nat, r: nat)
    returns (ncPos: nat)
    requires Valid(k, t) && t.Parts? && h == t.numRows && r < h && buf.Length == h * targetWidth
             && k.core <= targetWidth
    modifies buf
    ensures ncPos == Min(RANGE_CHECK_WIDTH, targetWidth - k.core)
    ensures BlockRow(buf[..], targetWidth, h, r)
            == Overwrite(old(BlockRow(buf[..], targetWidth, h, r)), 0,
                         BlockRow(t.coreRm, k.core, t.numRows, r) + [t.rangeChecker[0][r], t.rangeChecker[1][r]][..ncPos])
    ensures forall r' :: 0 <= r' < h && r' != r ==>
              BlockRow(buf[..], targetWidth, h, r') == old(BlockRow(buf[..], targetWidth, h, r'))
  {
    hide Overwrite, BlockRow, Valid;
    PartsSizes(k, t, r);
    var w, ranges := targetWidth, [t.rangeChecker[0][r], t.rangeChecker[1][r]];
    var core := BlockRow(t.coreRm, k.core, h, r);
    ghost var was := BlockRow(buf[..], w, h, r);
    CopyInRow(buf, w, h, r, 0, core);
    ncPos := 0;
    assert core + ranges[..0] == core;
    while ncPos < Min(RANGE_CHECK_WIDTH, w - k.core)
      invariant ncPos <= Min(RANGE_CHECK_WIDTH, w - k.core)
      invariant BlockRow(buf[..], w, h, r) == Overwrite(was, 0, core + ranges[..ncPos])
      invariant forall r' :: 0 <= r' < h && r' != r ==> BlockRow(buf[..], w, h, r') == old(BlockRow(buf[..], w, h, r'))
    {
      CopyInRow(buf, w, h, r, k.core + ncPos, [ranges[ncPos]]);
      OverwriteTwice(was, 0, core + ranges[..ncPos], [ranges[ncPos]]);
      assert core + ranges[..ncPos] + [ranges[ncPos]] == core + ranges[..ncPos + 1];
      ncPos := ncPos + 1;
    }
  }

  /** One row of a stripped export of the split layout.  The trailing zeros go to the front of the row instead of the
      non-core part, so the row is right exactly when there are none. */
  method FillStrippedParts<T>(k: Layout<T>, t: Storage<T>, targetWidth: nat, buf: array<Cell<T>>, h: nat, r: nat)
    requires Valid(k, t) && t.Parts? && h == t.numRows && r < h && buf.Length == h * targetWidth
             && k.core <= targetWidth
    modifies buf
    ensures var source := StrippedSource(k, t, r, targetWidth);
            BlockRow(buf[..], targetWidth, h, r)
            == Overwrite(Overwrite(old(BlockRow(buf[..], targetWidth, h, r)), 0, source),
                         |source| - k.core, Repeat(k.zero, targetWidth - |source|))
    ensures forall r' :: 0 <= r' < h && r' != r ==>
              BlockRow(buf[..], targetWidth, h, r') == old(BlockRow(buf[..], targetWidth, h, r'))
  {
    hide Overwrite, BlockRow, Valid, StrippedSource;
    PartsSizes(k, t, r);
    SourceParts(k, t, r, targetWidth);
    var w, ncNeeded := targetWidth, targetWidth - k.core;
    ghost var was := BlockRow(buf[..], w, h, r);
    ghost var ranges := [t.rangeChecker[0][r], t.rangeChecker[1][r]];
    ghost var front := BlockRow(t.coreRm, k.core, h, r) + ranges[..Min(RANGE_CHECK_WIDTH, ncNeeded)];
    var ncPos := FillStrippedFront(k, t, targetWidth, buf, h, r);
    var chipCols := Min(ncNeeded - ncPos, k.chiplets);
    var chips := BlockRow(t.chipletsRm, k.chiplets, h, r)[..chipCols];
    if ncPos < ncNeeded {
      CopyInRow(buf, w, h, r, k.core + ncPos, chips);
      OverwriteTwice(was, 0, front, chips);
      ncPos := ncPos + chipCols;
    } else {
      assert front + chips == front;
    }
    CopyInRow(buf, w, h, r, ncPos, Repeat(k.zero, ncNeeded - ncPos));
  }

  /** A blank row becomes the first columns of the logical row, each cell written once, exactly when no padding was
      asked for.  Otherwise its last cell is never written. */
  lemma StrippedRowExact<T>(k: Layout<T>, t: Storage<T>, targetWidth: nat, r: nat)
    requires Valid(k, t) && t.Parts? && r < t.numRows && k.core <= targetWidth
    ensures var source := StrippedSource(k, t, r, targetWidth);
            var row := Overwrite(Overwrite(Repeat(Uninit, targetWidth), 0, source), |source| - k.core,
                                 Repeat(k.zero, targetWidth - |source|));
            if targetWidth <= k.TraceWidth() then row == Once(LogicalRow(k, t, r)[..targetWidth])
            else row[targetWidth - 1].Uninit? && row[|source| - k.core] == Init(k.zero, 2)
  {
    hide LogicalRow;
    var source := StrippedSource(k, t, r, targetWidth);
    if targetWidth <= k.TraceWidth() {
      OverwriteBlank(targetWidth, source);
      assert Repeat(k.zero, 0) == [];
      OverwriteNothing(Once(source), |source| - k.core);
    }
  }

  /** What an exact export makes of a row: its first columns, each cell written once. */
  ghost function Target<T>(k: Layout<T>, t: Storage<T>, e: Export, r: nat): (cells: seq<Cell<T>>)
    requires Valid(k, t) && Exportable(k, t, e) && Exact(k, t, e) && r < NumRows(t)
    ensures |cells| == ExportWidth(k, t, e)
  {
    Once(LogicalRow(k, t, r)[..ExportWidth(k, t, e)])
  }

  /** Fills one blank row of the output. */
  method FillRow<T>(k: Layout<T>, t: Storage<T>, e: Export, buf: array<Cell<T>>, w: nat, h: nat, r: nat)
    requires Valid(k, t) && Exportable(k, t, e) && Exact(k, t, e) && !t.Transposed?
    requires w == ExportWidth(k, t, e) && h == NumRows(t) && r < h && buf.Length == h * w
    requires BlockRow(buf[..], w, h, r) == Repeat(Uninit, w)
    modifies buf
    ensures BlockRow(buf[..], w, h, r) == Target(k, t, e, r)
    ensures forall r' :: 0 <= r' < h && r' != r ==> BlockRow(buf[..], w, h, r') == old(BlockRow(buf[..], w, h, r'))
  {
    hide BlockRow, Overwrite, LogicalRow, Once, StrippedSource;
    assert w <= Width(k, t);
    match t
    case RowMajor(m) =>
      MatrixRow(k, t, r);
      CopyInRow(buf, w, h, r, 0, m.Row(r)[..w]);
      OverwriteBlank(w, LogicalRow(k, t, r)[..w]);
    case Parts(_, _, _, _) =>
      match e {
        case Whole =>
          FillWholeParts(k, t, buf, h, r);
          assert LogicalRow(k, t, r)[..w] == LogicalRow(k, t, r);
          OverwriteBlank(w, LogicalRow(k, t, r));
        case Stripped(_) =>
          FillStrippedParts(k, t, w, buf, h, r);
          StrippedRowExact(k, t, w, r);
      }
  }

  lemma MatrixRow<T>(k: Layout<T>, t: Storage<T>, r: nat)
    requires Valid(k, t) && t.RowMajor? && r < t.matrix.height
    ensures LogicalRow(k, t, r) == t.matrix.Row(r)
  {
    forall c | 0 <= c < t.matrix.width ensures LogicalRow(k, t, r)[c] == t.matrix.Row(r)[c] {
      assert Get(k, t, r, c) == Some(t.matrix.Row(r)[c]);
    }
  }

  // Chunks

  /** Chunk `c` is one of those a buffer of `h * w` cells splits into. */
  ghost predicate IsChunk(w: nat, h: nat, rowsPerChunk: nat, c: nat) {
    c * (rowsPerChunk * w) < h * w
  }

  lemma DivUnique(a: nat, w: nat, q: nat)
    requires w > 0 && q * w <= a < q * w + w
    ensures a / w == q
  {
    var d := a / w;
    assert d * w <= a < d * w + w;
    if d < q { RowsApart(w, d, q); }
    if q < d { RowsApart(w, q, d); }
  }

  lemma Scale(a: nat, b: nat, w: nat)
    requires w > 0
    ensures a < b <==> a * w < b * w
  {
    if a < b { RowsApart(w, a, b); }
    if b < a { RowsApart(w, b, a); }
  }

  /** Chunk `c` holds the cells of rows `c * rowsPerChunk` up to the next chunk or the end. */
  lemma ChunkShape(w: nat, h: nat, rowsPerChunk: nat, c: nat)
    requires w > 0 && rowsPerChunk > 0
    ensures IsChunk(w, h, rowsPerChunk, c) <==> c * rowsPerChunk < h
    ensures c * rowsPerChunk < h ==>
              Min(c * (rowsPerChunk * w) + rowsPerChunk * w, h * w)
              == c * (rowsPerChunk * w) + Min(rowsPerChunk, h - c * rowsPerChunk) * w
  {
    var start := c * rowsPerChunk;
    assert c * (rowsPerChunk * w) == start * w;
    Scale(start, h, w);
    if start < h {
      assert (start + rowsPerChunk) * w == start * w + rowsPerChunk * w;
      assert (h - start) * w == h * w - start * w;
      Scale(h - start, rowsPerChunk, w);
      Scale(start + rowsPerChunk, h, w);
    }
  }

  /** Fills the rows of one slice of the buffer, of length `length`, that starts at a row boundary. */
  method FillRows<T>(k: Layout<T>, t: Storage<T>, e: Export, buf: array<Cell<T>>, w: nat, h: nat, startRow: nat,
                     length: nat, ghost rows: nat)
    requires Valid(k, t) && Exportable(k, t, e) && Exact(k, t, e) && !t.Transposed?
    requires w == ExportWidth(k, t, e) && h == NumRows(t) && buf.Length == h * w
    requires startRow + rows <= h && length == rows * w
    requires forall r :: startRow <= r < startRow + rows ==> BlockRow(buf[..], w, h, r) == Repeat(Uninit, w)
    modifies buf
    ensures forall r :: startRow <= r < startRow + rows ==> BlockRow(buf[..], w, h, r) == Target(k, t, e, r)
    ensures forall r :: 0 <= r < h && !(startRow <= r < startRow + rows) ==>
              BlockRow(buf[..], w, h, r) == old(BlockRow(buf[..], w, h, r))
  {
    hide BlockRow, Target, Valid, Exportable, Exact, Repeat;
    PositiveWidth(k, t, e);
    DivUnique(length, w, rows);
    var chunkRows := length / w;
    for i := 0 to chunkRows
      invariant forall r :: startRow <= r < startRow + i ==> BlockRow(buf[..], w, h, r) == Target(k, t, e, r)
      invariant forall r :: 0 <= r < h && !(startRow <= r < startRow + i) ==>
                  BlockRow(buf[..], w, h, r) == old(BlockRow(buf[..], w, h, r))
    {
      FillRow(k, t, e, buf, w, h, startRow + i);
    }
  }

  lemma PositiveWidth<T>(k: Layout<T>, t: Storage<T>, e: Export)
    requires Exportable(k, t, e)
    ensures 0 < ExportWidth(k, t, e)
  {
  }

  ghost predicate InChunk(rowsPerChunk: nat, c: nat, r: nat) {
    c * rowsPerChunk <= r < c * rowsPerChunk + rowsPerChunk
  }

  /** Fills one chunk, whatever is in the others. */
  method FillChunk<T>(k: Layout<T>, t: Storage<T>, e: Export, buf: array<Cell<T>>, w: nat, h: nat, rowsPerChunk: nat,
                      c: nat)
    requires Valid(k, t) && Exportable(k, t, e) && Exact(k, t, e) && !t.Transposed?
    requires w == ExportWidth(k, t, e) && h == NumRows(t) && buf.Length == h * w
    requires rowsPerChunk > 0 && IsChunk(w, h, rowsPerChunk, c)
    requires forall r :: 0 <= r < h && InChunk(rowsPerChunk, c, r) ==> BlockRow(buf[..], w, h, r) == Repeat(Uninit, w)
    modifies buf
    ensures forall r :: 0 <= r < h && InChunk(rowsPerChunk, c, r) ==> BlockRow(buf[..], w, h, r) == Target(k, t, e, r)
    ensures forall r :: 0 <= r < h && !InChunk(rowsPerChunk, c, r) ==>
              BlockRow(buf[..], w, h, r) == old(BlockRow(buf[..], w, h, r))
  {
    hide BlockRow, Target, Valid, IsChunk, Exportable, Exact, Repeat;
    PositiveWidth(k, t, e);
    ChunkShape(w, h, rowsPerChunk, c);
    var low := c * (rowsPerChunk * w);
    var high := Min(low + rowsPerChunk * w, h * w);
    var startRow := c * rowsPerChunk;
    FillRows(k, t, e, buf, w, h, startRow, high - low, Min(rowsPerChunk, h - startRow));
  }

  /** The chunks in the order in which they happen to be filled. */
  ghost predicate IsSchedule(order: seq<nat>, w: nat, h: nat, rowsPerChunk: nat) {
    && (forall c: nat :: c in order <==> IsChunk(w, h, rowsPerChunk, c))
    && forall i, j :: 0 <= i < j < |order| ==> order[i] != order[j]
  }

  ghost predicate Reached(order: seq<nat>, n: nat, rowsPerChunk: nat, r: nat)
    requires n <= |order|
  {
    exists i :: 0 <= i < n && InChunk(rowsPerChunk, order[i], r)
  }

  lemma OneChunk(rowsPerChunk: nat, c: nat, c': nat, r: nat)
    requires InChunk(rowsPerChunk, c, r) && InChunk(rowsPerChunk, c', r)
    ensures c == c'
  {
    if c < c' { RowsApart(rowsPerChunk, c, c'); }
    if c' < c { RowsApart(rowsPerChunk, c', c); }
  }

  lemma NotReachedYet(order: seq<nat>, n: nat, w: nat, h: nat, rowsPerChunk: nat, r: nat)
    requires n < |order| && IsSchedule(order, w, h, rowsPerChunk) && InChunk(rowsPerChunk, order[n], r)
    ensures !Reached(order, n, rowsPerChunk, r)
  {
    hide InChunk, IsChunk;
    forall i | 0 <= i < n ensures !InChunk(rowsPerChunk, order[i], r) {
      if InChunk(rowsPerChunk, order[i], r) { OneChunk(rowsPerChunk, order[i], order[n], r); }
    }
  }

  lemma ReachedNext(order: seq<nat>, n: nat, rowsPerChunk: nat, r: nat)
    requires n < |order|
    ensures Reached(order, n + 1, rowsPerChunk, r) <==>
              Reached(order, n, rowsPerChunk, r) || InChunk(rowsPerChunk, order[n], r)
  {
    hide InChunk;
    if InChunk(rowsPerChunk, order[n], r) { assert n < n + 1; }
  }

  lemma AllReached(order: seq<nat>, w: nat, h: nat, rowsPerChunk: nat, r: nat)
    requires w > 0 && rowsPerChunk > 0 && IsSchedule(order, w, h, rowsPerChunk) && r < h
    ensures Reached(order, |order|, rowsPerChunk, r)
  {
    hide IsChunk;
    assert r < (r + 1) * rowsPerChunk;
    var row, rest := Locate(rowsPerChunk, r + 1, r);
    ChunkShape(w, h, rowsPerChunk, row);
    assert row in order;
    var i :| 0 <= i < |order| && order[i] == row;
    assert InChunk(rowsPerChunk, order[i], r);
  }

  ghost predicate Progress<T>(k: Layout<T>, t: Storage<T>, e: Export, cells: seq<Cell<T>>, order: seq<nat>, n: nat,
                              rowsPerChunk: nat)
    requires Valid(k, t) && Exportable(k, t, e) && Exact(k, t, e) && n <= |order|
    requires |cells| == NumRows(t) * ExportWidth(k, t, e)
  {
    var w, h := ExportWidth(k, t, e), NumRows(t);
    forall r :: 0 <= r < h ==>
      BlockRow(cells, w, h, r) == if Reached(order, n, rowsPerChunk, r) then Target(k, t, e, r) else Repeat(Uninit, w)
  }

  /** Fills the whole output chunk by chunk, in any order.  Every cell is written exactly once, and the result does not
      depend on the chunk size or the order. */
  method FillChunks<T>(k: Layout<T>, t: Storage<T>, e: Export, rowsPerChunk: nat, order: seq<nat>)
    returns (cells: seq<Cell<T>>)
    requires Valid(k, t) && Exportable(k, t, e) && Exact(k, t, e) && !t.Transposed? && rowsPerChunk > 0
    requires IsSchedule(order, ExportWidth(k, t, e), NumRows(t), rowsPerChunk)
    ensures |cells| == NumRows(t) * ExportWidth(k, t, e)
    ensures forall r :: 0 <= r < NumRows(t) ==>
              BlockRow(cells, ExportWidth(k, t, e), NumRows(t), r) == Target(k, t, e, r)
  {
    hide Target, Valid, Exportable, Exact, IsChunk, InChunk, Reached, BlockRow;
    PositiveWidth(k, t, e);
    var w, h := ExportWidth(k, t, e), NumRows(t);
    var buf := new Cell<T>[h * w](_ => Uninit);
    BlankStart(k, t, e, buf[..], order, rowsPerChunk);
    for n := 0 to |order|
      invariant Progress(k, t, e, buf[..], order, n, rowsPerChunk)
    {
      forall r | 0 <= r < h && InChunk(rowsPerChunk, order[n], r) ensures BlockRow(buf[..], w, h, r) == Repeat(Uninit, w) {
        NotReachedYet(order, n, w, h, rowsPerChunk, r);
      }
      assert order[n] in order;
      FillChunk(k, t, e, buf, w, h, rowsPerChunk, order[n]);
      forall r | 0 <= r < h
        ensures BlockRow(buf[..], w, h, r)
                    == if Reached(order, n + 1, rowsPerChunk, r) then Target(k, t, e, r) else Repeat(Uninit, w)
      {
        ReachedNext(order, n, rowsPerChunk, r);
      }
    }
    cells := buf[..];
    forall r | 0 <= r < h ensures BlockRow(cells, w, h, r) == Target(k, t, e, r) {
      AllReached(order, w, h, rowsPerChunk, r);
    }
  }

  lemma BlankStart<T>(k: Layout<T>, t: Storage<T>, e: Export, cells: seq<Cell<T>>, order: seq<nat>, rowsPerChunk: nat)
    requires Valid(k, t) && Exportable(k, t, e) && Exact(k, t, e)
    requires |cells| == NumRows(t) * ExportWidth(k, t, e) && forall i :: 0 <= i < |cells| ==> cells[i] == Uninit
    ensures Progress(k, t, e, cells, order, 0, rowsPerChunk)
  {
    var w, h := ExportWidth(k, t, e), NumRows(t);
    forall r | 0 <= r < h ensures BlockRow(cells, w, h, r) == Repeat(Uninit, w) && !Reached(order, 0, rowsPerChunk, r) {
      RowInside(w, h, r);
    }
  }

  function Contents<T>(cells: seq<Cell<T>>): (values: seq<T>)
    requires forall i :: 0 <= i < |cells| ==> cells[i].Init?
    ensures |values| == |cells| && forall i :: 0 <= i < |cells| ==> values[i] == cells[i].value
  {
    seq(|cells|, i requires 0 <= i < |cells| => cells[i].value)
  }

  lemma AllWritten<T>(k: Layout<T>, t: Storage<T>, e: Export, cells: seq<Cell<T>>, i: nat)
    requires Valid(k, t) && Exportable(k, t, e) && Exact(k, t, e) && i < |cells| == NumRows(t) * ExportWidth(k, t, e)
    requires forall r :: 0 <= r < NumRows(t) ==>
               BlockRow(cells, ExportWidth(k, t, e), NumRows(t), r) == Target(k, t, e, r)
    ensures cells[i].Init? && cells[i].writes == 1
  {
    hide Valid, Exportable, Exact;
    var w, h := ExportWidth(k, t, e), NumRows(t);
    var r, c := Locate(w, h, i);
    RowCell(Matrix(cells, w, h), r, c);
    assert BlockRow(cells, w, h, r)[c] == Target(k, t, e, r)[c];
  }

  lemma CellsExport<T>(k: Layout<T>, t: Storage<T>, e: Export, cells: seq<Cell<T>>)
    requires Valid(k, t) && Exportable(k, t, e) && Exact(k, t, e) && |cells| == NumRows(t) * ExportWidth(k, t, e)
    requires forall r :: 0 <= r < NumRows(t) ==>
               BlockRow(cells, ExportWidth(k, t, e), NumRows(t), r) == Target(k, t, e, r)
    requires forall i :: 0 <= i < |cells| ==> cells[i].Init?
    ensures Exports(k, t, Matrix(Contents(cells), ExportWidth(k, t, e), NumRows(t)))
  {
    var w, h := ExportWidth(k, t, e), NumRows(t);
    assert w <= Width(k, t);
    var m := Matrix(Contents(cells), w, h);
    forall r | 0 <= r < h ensures m.Row(r) == LogicalRow(k, t, r)[..w] {
      ContentsRow(k, t, e, cells, r);
    }
  }

  lemma ContentsRow<T>(k: Layout<T>, t: Storage<T>, e: Export, cells: seq<Cell<T>>, r: nat)
    requires Valid(k, t) && Exportable(k, t, e) && Exact(k, t, e) && |cells| == NumRows(t) * ExportWidth(k, t, e)
    requires r < NumRows(t) && BlockRow(cells, ExportWidth(k, t, e), NumRows(t), r) == Target(k, t, e, r)
    requires forall i :: 0 <= i < |cells| ==> cells[i].Init?
    ensures Matrix(Contents(cells), ExportWidth(k, t, e), NumRows(t)).Row(r)
                == LogicalRow(k, t, r)[..ExportWidth(k, t, e)]
  {
    hide LogicalRow, BlockRow, Contents;
    var w, h := ExportWidth(k, t, e), NumRows(t);
    assert w <= Width(k, t);
    forall c | 0 <= c < w ensures Matrix(Contents(cells), w, h).Row(r)[c] == LogicalRow(k, t, r)[c] {
      ContentsCell(cells, w, h, r, c);
    }
  }

  lemma ContentsCell<T>(cells: seq<Cell<T>>, w: nat, h: nat, r: nat, c: nat)
    requires |cells| == h * w && r < h && c < w && forall i :: 0 <= i < |cells| ==> cells[i].Init?
    ensures BlockRow(cells, w, h, r)[c].Init?
            && Matrix(Contents(cells), w, h).Row(r)[c] == BlockRow(cells, w, h, r)[c].value
  {
    RowCell(Matrix(cells, w, h), r, c);
    RowCell(Matrix(Contents(cells), w, h), r, c);
  }

  /** Running without threads is the schedule with a single chunk. */
  lemma SequentialSchedule(w: nat, h: nat)
    requires w > 0 && h > 0
    ensures IsSchedule([0], w, h, h)
  {
    forall c: nat ensures c in [0] <==> IsChunk(w, h, h, c) {
      ChunkShape(w, h, h, c);
      if c > 0 { RowsApart(h, 0, c); }
    }
  }

  // Transposition

  ghost function Column<T>(m: Matrix<T>, c: nat): (col: seq<T>)
    requires m.Valid() && c < m.width
    ensures |col| == m.height && forall r :: 0 <= r < m.height ==> col[r] == m.Row(r)[c]
  {
    seq(m.height, r requires 0 <= r < m.height => m.Row(r)[c])
  }

  ghost predicate IsTranspose<T>(m: Matrix<T>, m': Matrix<T>)
    requires m.Valid()
  {
    && m'.Valid() && m'.width == m.height && m'.height == m.width
    && forall c :: 0 <= c < m.width ==> m'.Row(c) == Column(m, c)
  }

  method ReadColumn<T>(m: Matrix<T>, c: nat) returns (col: seq<T>)
    requires m.Valid() && c < m.width
    ensures col == Column(m, c)
  {
    col := [];
    for r := 0 to m.height
      invariant |col| == r && forall i :: 0 <= i < r ==> col[i] == m.Row(i)[c]
    {
      col := col + [m.Row(r)[c]];
    }
  }

  method Transpose<T>(m: Matrix<T>) returns (m': Matrix<T>)
    requires m.Valid()
    ensures IsTranspose(m, m')
  {
    hide Column;
    var values, h := [], m.height;
    for c := 0 to m.width
      invariant |values| == c * h
      invariant forall i :: 0 <= i < c ==> BlockRow(values, h, c, i) == Column(m, i)
    {
      ghost var before := values;
      var col := ReadColumn(m, c);
      values := values + col;
      assert (c + 1) * h == c * h + h;
      BlockAppend(before, col, h, c);
    }
    m' := Matrix(values, h, m.width);
  }

  lemma BlockAppend<T>(block: seq<T>, row: seq<T>, w: nat, h: nat)
    requires |block| == h * w && |row| == w && |block + row| == (h + 1) * w
    ensures BlockRow(block + row, w, h + 1, h) == row
    ensures forall i :: 0 <= i < h ==> BlockRow(block + row, w, h + 1, i) == BlockRow(block, w, h, i)
  {
    forall i | 0 <= i < h ensures BlockRow(block + row, w, h + 1, i) == BlockRow(block, w, h, i) {
      RowInside(w, h, i);
    }
  }

  /** A trace built from the transpose of a matrix is the trace built from the matrix. */
  lemma TransposedTrace<T>(k: Layout<T>, m: Matrix<T>, m': Matrix<T>, r: nat, c: nat)
    requires k.Valid() && m.Valid() && IsTranspose(m, m')
    ensures Valid(k, FromTransposed(m')) && Get(k, FromTransposed(m'), r, c) == Get(k, RowMajor(m), r, c)
  {
    if c < m.width && r < m.height {
      assert m'.Row(c) == Column(m, c);
    }
  }

  /** A matrix exported from a transposed trace by transposing it back. */
  lemma TransposeExports<T>(k: Layout<T>, t: Storage<T>, full: Matrix<T>)
    requires Valid(k, t) && t.Transposed? && IsTranspose(t.matrix, full)
    ensures Exports(k, t, full) && full.width == Width(k, t)
  {
    forall r | 0 <= r < full.height ensures full.Row(r) == LogicalRow(k, t, r)[..full.width] {
      assert full.Row(r) == Column(t.matrix, r);
      forall c | 0 <= c < full.width ensures full.Row(r)[c] == LogicalRow(k, t, r)[c] {
        assert Get(k, t, r, c) == Some(t.matrix.Row(c)[r]);
      }
    }
  }

  // The exporters

  /** The whole trace as one row-major matrix, whatever the layout, chunk size and schedule. */
  method ToRowMajor<T>(k: Layout<T>, t: Storage<T>, rowsPerChunk: nat, order: seq<nat>) returns (m: Matrix<T>)
    requires Valid(k, t) && rowsPerChunk > 0 && IsSchedule(order, Width(k, t), NumRows(t), rowsPerChunk)
    ensures Exports(k, t, m) && m.width == Width(k, t)
  {
    hide IsSchedule;
    match t
    case RowMajor(matrix) =>
      m := matrix;
      WholeMatrix(k, t);
    case Transposed(matrix, _, _) =>
      m := Transpose(matrix);
      TransposeExports(k, t, m);
    case Parts(_, _, _, _) =>
      m := ExportMatrix(k, t, Whole, rowsPerChunk, order);
  }

  lemma WholeMatrix<T>(k: Layout<T>, t: Storage<T>)
    requires Valid(k, t) && t.RowMajor?
    ensures Exports(k, t, t.matrix)
  {
    hide LogicalRow;
    forall r | 0 <= r < t.matrix.height ensures t.matrix.Row(r) == LogicalRow(k, t, r)[..t.matrix.width] {
      MatrixRow(k, t, r);
    }
  }

  method ExportMatrix<T>(k: Layout<T>, t: Storage<T>, e: Export, rowsPerChunk: nat, order: seq<nat>)
    returns (m: Matrix<T>)
    requires Valid(k, t) && Exportable(k, t, e) && Exact(k, t, e) && !t.Transposed? && rowsPerChunk > 0
    requires IsSchedule(order, ExportWidth(k, t, e), NumRows(t), rowsPerChunk)
    ensures Exports(k, t, m) && m.width == ExportWidth(k, t, e)
  {
    hide IsSchedule, Valid, Exportable, Exact, Target, BlockRow;
    var cells := FillChunks(k, t, e, rowsPerChunk, order);
    forall i | 0 <= i < |cells| ensures cells[i].Init? { AllWritten(k, t, e, cells, i); }
    CellsExport(k, t, e, cells);
    m := Matrix(Contents(cells), ExportWidth(k, t, e), NumRows(t));
  }

  /** The first `targetWidth` columns of the trace. */
  method ToRowMajorStripped<T>(k: Layout<T>, t: Storage<T>, targetWidth: nat, rowsPerChunk: nat, order: seq<nat>)
    returns (m: Matrix<T>)
    requires Valid(k, t) && Exportable(k, t, Stripped(targetWidth)) && Exact(k, t, Stripped(targetWidth))
    requires rowsPerChunk > 0 && IsSchedule(order, targetWidth, NumRows(t), rowsPerChunk)
    ensures Exports(k, t, m) && m.width == targetWidth
  {
    hide IsSchedule, LogicalRow;
    match t
    case RowMajor(matrix) =>
      if targetWidth == matrix.width {
        m := matrix;
        WholeMatrix(k, t);
      } else {
        m := ExportMatrix(k, t, Stripped(targetWidth), rowsPerChunk, order);
      }
    case Transposed(matrix, _, _) =>
      var full := Transpose(matrix);
      TransposeExports(k, t, full);
      if targetWidth == full.width {
        m := full;
      } else if full.height == 0 {
        m := Matrix([], targetWidth, 0);
      } else {
        SequentialSchedule(targetWidth, full.height);
        m := ExportMatrix(k, RowMajor(full), Stripped(targetWidth), full.height, [0]);
        ExportOfExport(k, t, full, m);
      }
    case Parts(_, _, _, _) =>
      m := ExportMatrix(k, t, Stripped(targetWidth), rowsPerChunk, order);
  }

  lemma ExportOfExport<T>(k: Layout<T>, t: Storage<T>, full: Matrix<T>, m: Matrix<T>)
    requires Valid(k, t) && Exports(k, t, full) && Exports(k, RowMajor(full), m)
    ensures Exports(k, t, m)
  {
    hide LogicalRow;
    forall r | 0 <= r < m.height ensures m.Row(r) == LogicalRow(k, t, r)[..m.width] {
      MatrixRow(k, RowMajor(full), r);
      assert full.Row(r) == LogicalRow(k, t, r)[..full.width];
      assert LogicalRow(k, t, r)[..full.width][..m.width] == LogicalRow(k, t, r)[..m.width];
    }
  }

  /** All exports of the same width are the same matrix: chunked or sequential, in whatever order. */
  lemma ExportsAgree<T>(k: Layout<T>, t: Storage<T>, m: Matrix<T>, m': Matrix<T>)
    requires Valid(k, t) && Exports(k, t, m) && Exports(k, t, m') && m.width == m'.width
    ensures m == m'
  {
    hide LogicalRow;
    SameRows(m, m');
  }

  /** Rebuilding a trace from its exported matrix, or from the transpose of it, changes no cell. */
  lemma RebuiltTrace<T>(k: Layout<T>, t: Storage<T>, m: Matrix<T>, m': Matrix<T>, r: nat, c: nat)
    requires Valid(k, t) && Exports(k, t, m) && m.width == Width(k, t) && IsTranspose(m, m')
    ensures Get(k, RowMajor(m), r, c) == Get(k, t, r, c)
    ensures Valid(k, FromTransposed(m')) && Get(k, FromTransposed(m'), r, c) == Get(k, t, r, c)
  {
    TransposedTrace(k, m, m', r, c);
    if r < m.height && c < m.width {
      assert m.Row(r) == LogicalRow(k, t, r)[..m.width];
      assert m.Row(r)[c] == LogicalRow(k, t, r)[c];
    }
  }

  // Reading rows and columns

  method CopySlice<T>(row: array<T>, at: nat, src: seq<T>)
    requires at + |src| <= row.Length
    modifies row
    ensures row[..] == old(row[..at]) + src + old(row[at + |src|..])
  {
    for i := 0 to |src|
      invariant forall j :: 0 <= j < row.Length ==> row[j] == if at <= j < at + i then src[j - at] else old(row[j])
    {
      row[at + i] := src[i];
    }
  }

  /** Copies one logical row into the front of a buffer. */
  method ReadRowInto<T>(k: Layout<T>, t: Storage<T>, r: nat, row: array<T>)
    requires Valid(k, t) && r < NumRows(t) && Width(k, t) <= row.Length
    modifies row
    ensures row[..] == LogicalRow(k, t, r) + old(row[Width(k, t)..])
  {
    hide LogicalRow, BlockRow;
    ghost var was := row[..];
    match t
    case RowMajor(m) =>
      MatrixRow(k, t, r);
      CopyNext(row, [], was, 0, m.Row(r));
      assert [] + m.Row(r) == m.Row(r);
    case Transposed(_, _, _) =>
      ReadTransposedRow(k, t, r, row);
    case Parts(_, _, _, _) =>
      ReadPartsRow(k, t, r, row);
  }

  /** The buffer starts with `front` and is otherwise as it was. */
  ghost predicate Done<T>(cells: seq<T>, front: seq<T>, was: seq<T>) {
    |front| <= |was| && cells == front + was[|front|..]
  }

  /** Copies right after the part of the buffer that is already done. */
  method CopyNext<T>(row: array<T>, ghost front: seq<T>, ghost was: seq<T>, at: nat, src: seq<T>)
    requires Done(row[..], front, was) && at == |front| && at + |src| <= |was| == row.Length
    modifies row
    ensures Done(row[..], front + src, was)
  {
    assert row[..at] == row[..][..at] == front;
    assert row[at + |src|..] == row[..][at + |src|..] == was[at + |src|..];
    CopySlice(row, at, src);
  }

  method ReadPartsRow<T>(k: Layout<T>, t: Storage<T>, r: nat, row: array<T>)
    requires Valid(k, t) && t.Parts? && r < t.numRows && k.padded <= row.Length
    modifies row
    ensures Done(row[..], LogicalRow(k, t, r), old(row[..]))
  {
    hide LogicalRow, BlockRow, Valid, Done;
    PartsSizes(k, t, r);
    PartsRow(k, t, r);
    var core, chiplets := BlockRow(t.coreRm, k.core, t.numRows, r), BlockRow(t.chipletsRm, k.chiplets, t.numRows, r);
    var pad := Repeat(k.zero, k.padded - k.TraceWidth());
    var range0, range1 := [t.rangeChecker[0][r]], [t.rangeChecker[1][r]];
    ghost var was := row[..];
    NothingDone(was);
    CopyNext(row, [], was, 0, core);
    assert [] + core == core;
    CopyNext(row, core, was, k.core, range0);
    CopyNext(row, core + range0, was, k.core + 1, range1);
    assert core + range0 + range1 == core + [t.rangeChecker[0][r], t.rangeChecker[1][r]];
    CopyNext(row, core + range0 + range1, was, k.core + 2, chiplets);
    CopyNext(row, core + range0 + range1 + chiplets, was, k.TraceWidth(), pad);
  }

  lemma NothingDone<T>(was: seq<T>)
    ensures Done(was, [], was)
  {
  }

  method ReadTransposedRow<T>(k: Layout<T>, t: Storage<T>, r: nat, row: array<T>)
    requires Valid(k, t) && t.Transposed? && r < NumRows(t) && Width(k, t) <= row.Length
    modifies row
    ensures Done(row[..], LogicalRow(k, t, r), old(row[..]))
  {
    for c := 0 to t.numCols
      invariant forall j :: 0 <= j < row.Length ==> row[j] == if j < c then LogicalRow(k, t, r)[j] else old(row[j])
    {
      assert Get(k, t, r, c) == Some(t.matrix.Row(c)[r]);
      row[c] := t.matrix.Row(c)[r];
    }
  }

  /** One column; `None` stands for a panic.  The split layout answers zeros beyond its width. */
  method GetColumn<T>(k: Layout<T>, t: Storage<T>, c: nat) returns (col: Option<seq<T>>)
    requires Valid(k, t)
    ensures c < Width(k, t) ==> col.Some? && |col.value| == NumRows(t) && forall r :: 0 <= r < NumRows(t) ==>
              Get(k, t, r, c) == Some(col.value[r])
    ensures c >= Width(k, t) ==>
              col == if t.Parts? then Some(Repeat(k.zero, NumRows(t))) else if t.RowMajor? && NumRows(t) == 0 then Some([]) else None
  {
    var h := NumRows(t);
    match t
    case Parts(core, chiplets, range, _) =>
      if c < k.core {
        var s := ReadColumn(Matrix(core, k.core, h), c);
        PartsColumn(k, t, c, s);
        return Some(s);
      }
      var nc := c - k.core;
      if nc < RANGE_CHECK_WIDTH { return Some(range[nc]); }
      if nc < RANGE_CHECK_WIDTH + k.chiplets {
        var s := ReadColumn(Matrix(chiplets, k.chiplets, h), nc - RANGE_CHECK_WIDTH);
        PartsColumn(k, t, c, s);
        return Some(s);
      }
      return Some(Repeat(k.zero, h));
    case RowMajor(m) =>
      if h == 0 { return Some([]); }
      if c >= m.width { return None; }
      var s := ReadColumn(m, c);
      return Some(s);
    case Transposed(m, _, _) =>
      if c >= m.height { return None; }
      return Some(m.Row(c)[..h]);
  }

  lemma PartsColumn<T>(k: Layout<T>, t: Storage<T>, c: nat, col: seq<T>)
    requires Valid(k, t) && t.Parts?
    requires if c < k.core then col == Column(Matrix(t.coreRm, k.core, t.numRows), c)
             else k.core + RANGE_CHECK_WIDTH <= c < k.TraceWidth()
                  && col == Column(Matrix(t.chipletsRm, k.chiplets, t.numRows), c - k.core - RANGE_CHECK_WIDTH)
    ensures forall r :: 0 <= r < t.numRows ==> Get(k, t, r, c) == Some(col[r])
  {
    forall r | 0 <= r < t.numRows ensures Get(k, t, r, c) == Some(col[r]) {
      if c < k.core {
        RowCell(Matrix(t.coreRm, k.core, t.numRows), r, c);
      } else {
        RowCell(Matrix(t.chipletsRm, k.chiplets, t.numRows), r, c - k.core - RANGE_CHECK_WIDTH);
      }
    }
  }
}
