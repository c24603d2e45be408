/**
 * The effect of `Workbook.fill_range` on one worksheet. The source walks the
 * rectangle row by row and column by column; at each position that has a
 * value it resolves the merge corner against the sheet AS IT IS AT THAT
 * MOMENT, creates a stub there if absent, retags `'z'` to `'s'` and sets `v`.
 * The specification is that walk, a left fold over `RowMajor(rg)`; the
 * lemmas then show what it amounts to.
 */
module RangeFill {
  import opened Wrappers
  import opened Ranges
  import opened Cells
  import opened Sheets

  /**
   * `values[row - s.r][col - s.c]`: `None` (JavaScript `undefined`) when the
   * row array is missing or too short, which is how ragged input is skipped.
   */
  function ValueAt(values: seq<seq<Value>>, rg: Range, a: Addr): (v: Option<Value>)
    ensures v.Some? <==> rg.s.r <= a.r && rg.s.c <= a.c &&
                         a.r - rg.s.r < |values| && a.c - rg.s.c < |values[a.r - rg.s.r]|
  {
    if a.r < rg.s.r || a.c < rg.s.c then None
    else if a.r - rg.s.r >= |values| then None
    else if a.c - rg.s.c >= |values[a.r - rg.s.r]| then None
    else Some(values[a.r - rg.s.r][a.c - rg.s.c])
  }

  /** One visit of the inner loop at position `a`. */
  function FillAt(ws: Sheet, rg: Range, values: seq<seq<Value>>, a: Addr): Sheet {
    match ValueAt(values, rg, a)
    case None => ws
    case Some(v) =>
      var k := FindCorner(ws, a);
      ws.(cells := ws.cells[k := Filled(CellOrStub(ws.cells, k), v)])
  }

  /** The positions `xs` visited in order. */
  function FillAll(ws: Sheet, rg: Range, values: seq<seq<Value>>, xs: seq<Addr>): Sheet
    decreases |xs|
  {
    if xs == [] then ws
    else FillAt(FillAll(ws, rg, values, xs[..|xs| - 1]), rg, values, xs[|xs| - 1])
  }

  /** Visiting one more position is one more `FillAt`. */
  lemma FillAllSnoc(ws: Sheet, rg: Range, values: seq<seq<Value>>, xs: seq<Addr>, x: Addr)
    ensures FillAll(ws, rg, values, xs + [x]) == FillAt(FillAll(ws, rg, values, xs), rg, values, x)
  {
    assert (xs + [x])[..|xs|] == xs;
  }

  /**
   * Merges and the used range are never touched, no cell is removed, and a
   * new cell only appears at or above-left of a visited position (the
   * position itself or a merge corner covering it).
   */
  lemma {:induction false} FillAllShape(ws: Sheet, rg: Range, values: seq<seq<Value>>, xs: seq<Addr>)
    ensures var r := FillAll(ws, rg, values, xs);
            r.merges == ws.merges && r.usedRange == ws.usedRange && ws.cells.Keys <= r.cells.Keys
    ensures forall k :: k in FillAll(ws, rg, values, xs).cells && k !in ws.cells ==>
              exists y :: y in xs && k.r <= y.r && k.c <= y.c
    decreases |xs|
  {
    if xs != [] {
      var pre, x := xs[..|xs| - 1], xs[|xs| - 1];
      assert xs == pre + [x];
      FillAllShape(ws, rg, values, pre);
      assert forall y :: y in pre ==> y in xs;
    }
  }

  /** The sheet `fill_range(rg, values)` leaves behind. */
  function FilledSheet(ws: Sheet, rg: Range, values: seq<seq<Value>>): Sheet {
    FillAll(ws, rg, values, RowMajor(rg))
  }

  /** Positions without a value (a missing row array, say) leave the walk where it was. */
  lemma {:induction false} FillSkips(ws: Sheet, rg: Range, values: seq<seq<Value>>, xs: seq<Addr>, ys: seq<Addr>)
    requires forall y :: y in ys ==> ValueAt(values, rg, y).None?
    ensures FillAll(ws, rg, values, xs + ys) == FillAll(ws, rg, values, xs)
    decreases |ys|
  {
    if ys != [] {
      var pre, y := ys[..|ys| - 1], ys[|ys| - 1];
      assert ys == pre + [y];
      assert xs + ys == (xs + pre) + [y];
      FillAllSnoc(ws, rg, values, xs + pre, y);
      assert y in ys;
      assert forall z :: z in pre ==> z in ys;
      FillSkips(ws, rg, values, xs, pre);
    } else {
      assert xs + ys == xs;
    }
  }

  /** Position `y` has a value and resolves, in the original sheet, to `k`. */
  ghost predicate Hits(ws: Sheet, rg: Range, values: seq<seq<Value>>, y: Addr, k: Addr) {
    ValueAt(values, rg, y).Some? && FindCorner(ws, y) == k
  }

  /**
   * Corner resolution during the walk agrees with resolution against the
   * original sheet: a cell created earlier lies at or above-left of an
   * earlier position, so it is never the position now being visited.
   */
  lemma FillTargetStable(ws: Sheet, rg: Range, values: seq<seq<Value>>, xs: seq<Addr>, x: Addr)
    requires forall y :: y in xs ==> Before(y, x)
    ensures FindCorner(FillAll(ws, rg, values, xs), x) == FindCorner(ws, x)
  {
    FillAllShape(ws, rg, values, xs);
    FindCornerLocal(FillAll(ws, rg, values, xs), ws, x);
  }

  /** Splits an ordered walk into its prefix and last position. */
  lemma OrderedPrefix(pre: seq<Addr>, x: Addr)
    requires Ordered(pre + [x])
    ensures Ordered(pre)
    ensures forall y :: y in pre ==> Before(y, x)
  {
    var xs := pre + [x];
    forall y | y in pre
      ensures Before(y, x)
    {
      var i :| 0 <= i < |pre| && pre[i] == y;
      assert xs[i] == y && xs[|pre|] == x;
    }
    forall i, j | 0 <= i < j < |pre|
      ensures Before(pre[i], pre[j])
    {
      assert xs[i] == pre[i] && xs[j] == pre[j];
    }
  }

  /** One visit changes at most the cell its position resolves to. */
  lemma FillAtCell(cur: Sheet, rg: Range, values: seq<seq<Value>>, x: Addr, k: Addr)
    ensures var r := FillAt(cur, rg, values, x);
            if Hits(cur, rg, values, x, k)
            then k in r.cells && r.cells[k] == Filled(CellOrStub(cur.cells, k), ValueAt(values, rg, x).value)
            else SameAt(r, cur, k)
  {
  }

  /** One more visited position changes at most the cell it resolves to in the original sheet. */
  lemma FillStep(ws: Sheet, rg: Range, values: seq<seq<Value>>, pre: seq<Addr>, x: Addr, k: Addr)
    requires forall y :: y in pre ==> Before(y, x)
    ensures var cur := FillAll(ws, rg, values, pre);
            var r := FillAll(ws, rg, values, pre + [x]);
            if Hits(ws, rg, values, x, k)
            then k in r.cells && r.cells[k] == Filled(CellOrStub(cur.cells, k), ValueAt(values, rg, x).value)
            else SameAt(r, cur, k)
  {
    var cur := FillAll(ws, rg, values, pre);
    FillAllSnoc(ws, rg, values, pre, x);
    FillTargetStable(ws, rg, values, pre, x);
    assert Hits(ws, rg, values, x, k) == Hits(cur, rg, values, x, k);
    FillAtCell(cur, rg, values, x, k);
  }

  /** A cell that no filled position resolves to keeps its presence and its contents. */
  lemma {:induction false} FillUntouched(ws: Sheet, rg: Range, values: seq<seq<Value>>, xs: seq<Addr>, k: Addr)
    requires Ordered(xs)
    requires forall y :: y in xs ==> !Hits(ws, rg, values, y, k)
    ensures SameAt(FillAll(ws, rg, values, xs), ws, k)
    decreases |xs|
  {
    if xs != [] {
      var pre, x := xs[..|xs| - 1], xs[|xs| - 1];
      assert xs == pre + [x];
      OrderedPrefix(pre, x);
      FillUntouched(ws, rg, values, pre, k);
      FillStep(ws, rg, values, pre, x, k);
    }
  }

  /**
   * The index of the last position of `xs` that has a value and resolves, in
   * the original sheet, to `k`; `None` when no position does.
   */
  ghost function LastHit(ws: Sheet, rg: Range, values: seq<seq<Value>>, xs: seq<Addr>, k: Addr): (i: Option<nat>)
    ensures i.None? <==> forall j :: 0 <= j < |xs| ==> !Hits(ws, rg, values, xs[j], k)
    ensures i.Some? ==> i.value < |xs| && Hits(ws, rg, values, xs[i.value], k)
    ensures i.Some? ==> forall j :: i.value < j < |xs| ==> !Hits(ws, rg, values, xs[j], k)
    decreases |xs|
  {
    if xs == [] then None
    else if Hits(ws, rg, values, xs[|xs| - 1], k) then Some(|xs| - 1)
    else LastHit(ws, rg, values, xs[..|xs| - 1], k)
  }

  /**
   * When `xs[i]` is the last position of the walk that has a value and
   * resolves to `k`, the cell at `k` ends as the original cell (or a stub)
   * filled with the value of `xs[i]`: when the positions of a merge region
   * carry different values, the corner is written once per position and
   * the last write wins.
   */
  lemma {:induction false} FillWritten(ws: Sheet, rg: Range, values: seq<seq<Value>>, xs: seq<Addr>, k: Addr, i: nat)
    requires Ordered(xs)
    requires i < |xs| && Hits(ws, rg, values, xs[i], k)
    requires forall j :: i < j < |xs| ==> !Hits(ws, rg, values, xs[j], k)
    ensures var r := FillAll(ws, rg, values, xs);
            k in r.cells && r.cells[k] == Filled(CellOrStub(ws.cells, k), ValueAt(values, rg, xs[i]).value)
    decreases |xs|
  {
    var pre, x := xs[..|xs| - 1], xs[|xs| - 1];
    assert xs == pre + [x];
    OrderedPrefix(pre, x);
    FillStep(ws, rg, values, pre, x, k);
    if i == |xs| - 1 {
      var last := LastHit(ws, rg, values, pre, k);
      if last.Some? {
        FillWritten(ws, rg, values, pre, k, last.value);
        FilledTwice(CellOrStub(ws.cells, k), ValueAt(values, rg, pre[last.value]).value, ValueAt(values, rg, x).value);
      } else {
        forall y | y in pre
          ensures !Hits(ws, rg, values, y, k)
        {
          var j :| 0 <= j < |pre| && pre[j] == y;
        }
        FillUntouched(ws, rg, values, pre, k);
      }
    } else {
      assert pre[i] == xs[i];
      FillWritten(ws, rg, values, pre, k, i);
    }
  }

  /** Over the whole rectangle: cells no filled position resolves to are left alone. */
  lemma FillSheetUntouched(ws: Sheet, rg: Range, values: seq<seq<Value>>, k: Addr)
    requires forall a :: InRange(a, rg) ==> !Hits(ws, rg, values, a, k)
    ensures SameAt(FilledSheet(ws, rg, values), ws, k)
  {
    RowMajorSpec(rg);
    FillUntouched(ws, rg, values, RowMajor(rg), k);
  }

  /**
   * Over the whole rectangle: when `a` is the last position in row-major
   * order that has a value and resolves to `k`, the cell at `k` ends filled
   * with the value of `a`, whatever earlier positions of the same merge
   * region carried.
   */
  lemma FillSheetWritten(ws: Sheet, rg: Range, values: seq<seq<Value>>, a: Addr, k: Addr)
    requires InRange(a, rg) && Hits(ws, rg, values, a, k)
    requires forall b :: InRange(b, rg) && Before(a, b) ==> !Hits(ws, rg, values, b, k)
    ensures var r := FilledSheet(ws, rg, values);
            k in r.cells && r.cells[k] == Filled(CellOrStub(ws.cells, k), ValueAt(values, rg, a).value)
  {
    var xs := RowMajor(rg);
    RowMajorSpec(rg);
    assert a in xs;
    var ia :| 0 <= ia < |xs| && xs[ia] == a;
    forall j | ia < j < |xs|
      ensures !Hits(ws, rg, values, xs[j], k)
    {
      assert Before(a, xs[j]) && InRange(xs[j], rg);
    }
    FillWritten(ws, rg, values, xs, k, ia);
  }

  /**
   * On a sheet without `!merges` the fill is exactly pointwise: every
   * in-range position with a value is written at its own address, and every
   * other cell (outside the range, or skipped as ragged) is unchanged.
   */
  lemma FillSheetWithoutMerges(ws: Sheet, rg: Range, values: seq<seq<Value>>)
    requires ws.merges.None?
    ensures var r := FilledSheet(ws, rg, values);
            forall a :: InRange(a, rg) && ValueAt(values, rg, a).Some? ==>
              a in r.cells && r.cells[a] == Filled(CellOrStub(ws.cells, a), ValueAt(values, rg, a).value)
    ensures forall a :: !(InRange(a, rg) && ValueAt(values, rg, a).Some?) ==> SameAt(FilledSheet(ws, rg, values), ws, a)
  {
    forall a | InRange(a, rg) && ValueAt(values, rg, a).Some?
      ensures var r := FilledSheet(ws, rg, values);
              a in r.cells && r.cells[a] == Filled(CellOrStub(ws.cells, a), ValueAt(values, rg, a).value)
    {
      assert Hits(ws, rg, values, a, a);
      FillSheetWritten(ws, rg, values, a, a);
    }
    forall a | !(InRange(a, rg) && ValueAt(values, rg, a).Some?)
      ensures SameAt(FilledSheet(ws, rg, values), ws, a)
    {
      FillSheetUntouched(ws, rg, values, a);
    }
  }

  /**
   * The body of the inner loop at position `a`: `values[a.r - s.r][c]` (for
   * `c = a.c - s.c`) is written at `find_corner(a)` on the current sheet,
   * stub and `z` retagging included, unless it is `undefined`.
   */
  method FillCell(ws: Sheet, rg: Range, values: seq<seq<Value>>, a: Addr) returns (r: Sheet)
    requires rg.s.r <= a.r < rg.s.r + |values| && rg.s.c <= a.c
    ensures r == FillAt(ws, rg, values, a)
  {
    r := ws;
    var rowValues := values[a.r - rg.s.r];
    if a.c - rg.s.c < |rowValues| {
      var target := FindCorner(ws, a);
      var cell := if target in ws.cells then ws.cells[target] else Stub();
      r := ws.(cells := ws.cells[target := Filled(cell, rowValues[a.c - rg.s.c])]);
    }
  }

  /**
   * The inner loop of `fill_range` over row `row` of the rectangle, which has
   * a row array `values[row - s.r]`; `done` are the positions visited before.
   */
  method FillRow(ws: Sheet, rg: Range, values: seq<seq<Value>>, row: nat, ghost done: seq<Addr>, cur0: Sheet)
    returns (r: Sheet)
    requires rg.s.r <= row && row - rg.s.r < |values|
    requires cur0 == FillAll(ws, rg, values, done)
    ensures r == FillAll(ws, rg, values, done + RowCells(row, rg.s.c, rg.e.c + 1))
  {
    var cur := cur0;
    var col := rg.s.c;
    assert done + RowCells(row, rg.s.c, col) == done;
    while col <= rg.e.c
      invariant rg.s.c <= col <= if rg.s.c <= rg.e.c + 1 then rg.e.c + 1 else rg.s.c
      invariant cur == FillAll(ws, rg, values, done + RowCells(row, rg.s.c, col))
    {
      var a := Addr(row, col);
      VisitedStep(done, row, rg.s.c, col);
      FillAllSnoc(ws, rg, values, done + RowCells(row, rg.s.c, col), a);
      cur := FillCell(cur, rg, values, a);
      col := col + 1;
    }
    return cur;
  }

  /**
   * The nested loops of `fill_range` over one worksheet `ws` (the copy's
   * default sheet): a missing row array skips the row, a missing entry skips
   * the position, and every other position writes at its corner.
   */
  method FillSheet(ws: Sheet, rg: Range, values: seq<seq<Value>>) returns (r: Sheet)
    ensures r == FilledSheet(ws, rg, values)
  {
    var cur := ws;
    var row := rg.s.r;
    while row <= rg.e.r
      invariant rg.s.r <= row <= if rg.s.r <= rg.e.r + 1 then rg.e.r + 1 else rg.s.r
      invariant cur == FillAll(ws, rg, values, Block(rg.s.r, row, rg.s.c, rg.e.c + 1))
    {
      if row - rg.s.r >= |values| {
        // `row_values === undefined`: the whole row is skipped.
        ghost var done := Block(rg.s.r, row, rg.s.c, rg.e.c + 1);
        assert Block(rg.s.r, row + 1, rg.s.c, rg.e.c + 1) == done + RowCells(row, rg.s.c, rg.e.c + 1);
        RowCellsMembers(row, rg.s.c, rg.e.c + 1);
        FillSkips(ws, rg, values, done, RowCells(row, rg.s.c, rg.e.c + 1));
      } else {
        assert Block(rg.s.r, row + 1, rg.s.c, rg.e.c + 1) ==
               Block(rg.s.r, row, rg.s.c, rg.e.c + 1) + RowCells(row, rg.s.c, rg.e.c + 1);
        cur := FillRow(ws, rg, values, row, Block(rg.s.r, row, rg.s.c, rg.e.c + 1), cur);
      }
      row := row + 1;
    }
    assert Block(rg.s.r, row, rg.s.c, rg.e.c + 1) == RowMajor(rg) by {
      if rg.e.r + 1 < rg.s.r {
        assert row == rg.s.r;
      }
    }
    return cur;
  }
}
