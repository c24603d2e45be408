/**
 * The effect of `Workbook.update_range` on one worksheet, stated cell by cell:
 * every address of the rectangle gets `Object.assign(ws[ref], changes)` at
 * that very address (never at its merge corner), a stub is created first for
 * an absent address only when the sheet has no `!merges`, and with `!merges`
 * present an absent address makes `Object.assign(undefined, ...)` throw.
 */
module RangeUpdate {
  import opened Wrappers
  import opened Ranges
  import opened Cells
  import opened Sheets

  /** Every address of `rg` already holds a cell. */
  ghost predicate AllPresent(ws: Sheet, rg: Range) {
    forall a :: InRange(a, rg) ==> a in ws.cells
  }

  /**
   * One visit of the inner loop at address `a`: the cell at `a` itself, or a
   * new stub `{t:'z', v:''}` when the sheet has no `!merges`, gets `changes`
   * merged in. With `!merges` present `find_corner` always answers something
   * truthy, so no stub is made and `Object.assign(undefined, changes)` throws
   * (`None`).
   */
  function UpdateAt(ws: Sheet, changes: map<string, Value>, a: Addr): Option<Sheet> {
    if a !in ws.cells && ws.merges.Some? then None
    else Some(ws.(cells := ws.cells[a := Assign(CellOrStub(ws.cells, a), changes)]))
  }

  /** The addresses `xs` visited in order; the first error ends the walk. */
  function UpdateAll(ws: Sheet, changes: map<string, Value>, xs: seq<Addr>): Option<Sheet>
    decreases |xs|
  {
    if xs == [] then Some(ws)
    else match UpdateAll(ws, changes, xs[..|xs| - 1])
      case None => None
      case Some(p) => UpdateAt(p, changes, xs[|xs| - 1])
  }

  /** Visiting one more address is one more `UpdateAt`. */
  lemma UpdateAllSnoc(ws: Sheet, changes: map<string, Value>, xs: seq<Addr>, x: Addr)
    ensures UpdateAll(ws, changes, xs + [x]) ==
            match UpdateAll(ws, changes, xs)
            case None => None
            case Some(p) => UpdateAt(p, changes, x)
  {
    assert (xs + [x])[..|xs|] == xs;
  }

  /** Walking `xs + ys` is walking `xs`, then `ys` from where it ended. */
  lemma {:induction false} UpdateAllConcat(ws: Sheet, changes: map<string, Value>, xs: seq<Addr>, ys: seq<Addr>)
    ensures UpdateAll(ws, changes, xs + ys) ==
            match UpdateAll(ws, changes, xs)
            case None => None
            case Some(p) => UpdateAll(p, changes, ys)
    decreases |ys|
  {
    if ys == [] {
      assert xs + ys == xs;
    } else {
      var pre, y := ys[..|ys| - 1], ys[|ys| - 1];
      assert xs + ys == (xs + pre) + [y];
      assert ys == pre + [y];
      UpdateAllConcat(ws, changes, xs, pre);
      UpdateAllSnoc(ws, changes, xs + pre, y);
      match UpdateAll(ws, changes, xs)
      case None =>
      case Some(p) => UpdateAllSnoc(p, changes, pre, y);
    }
  }

  /**
   * A walk over `xs` that does not throw leaves every visited address holding
   * `Object.assign(old cell or stub, changes)` and every other address as
   * before, and keeps merges and the used range.
   */
  lemma {:induction false} UpdateAllContents(ws: Sheet, changes: map<string, Value>, xs: seq<Addr>)
    ensures var r := UpdateAll(ws, changes, xs);
            r.Some? ==>
              r.value.merges == ws.merges && r.value.usedRange == ws.usedRange &&
              (forall a :: a in xs ==> a in r.value.cells && r.value.cells[a] == Assign(CellOrStub(ws.cells, a), changes)) &&
              (forall a :: a !in xs ==> SameAt(r.value, ws, a))
    decreases |xs|
  {
    if xs != [] {
      var pre, x := xs[..|xs| - 1], xs[|xs| - 1];
      assert xs == pre + [x];
      UpdateAllContents(ws, changes, pre);
      UpdateAllSnoc(ws, changes, pre, x);
      if UpdateAll(ws, changes, xs).Some? {
        var p := UpdateAll(ws, changes, pre).value;
        var q := UpdateAll(ws, changes, xs).value;
        assert q.cells == p.cells[x := Assign(CellOrStub(p.cells, x), changes)];
        if x in pre {
          AssignIdempotent(CellOrStub(ws.cells, x), changes);
        }
        forall a | a in xs
          ensures a in q.cells && q.cells[a] == Assign(CellOrStub(ws.cells, a), changes)
        {
          if a != x {
            assert a in pre;
          }
        }
        forall a | a !in xs
          ensures SameAt(q, ws, a)
        {
          assert a !in pre && a != x;
        }
      }
    }
  }

  /** The walk over `xs` throws exactly when the sheet has `!merges` and some visited address is absent. */
  lemma {:induction false} UpdateAllFails(ws: Sheet, changes: map<string, Value>, xs: seq<Addr>)
    ensures UpdateAll(ws, changes, xs).None? <==> ws.merges.Some? && !(forall x :: x in xs ==> x in ws.cells)
    decreases |xs|
  {
    if xs != [] {
      var pre, x := xs[..|xs| - 1], xs[|xs| - 1];
      assert xs == pre + [x];
      assert forall a :: a in xs <==> a in pre || a == x;
      UpdateAllFails(ws, changes, pre);
      UpdateAllContents(ws, changes, pre);
      UpdateAllSnoc(ws, changes, pre, x);
      if UpdateAll(ws, changes, pre).Some? {
        var p := UpdateAll(ws, changes, pre).value;
        assert x in p.cells <==> x in ws.cells || x in pre;
      }
    }
  }

  /** The inner loop: columns `c0 .. c - 1` of row `r`, left to right. */
  function UpdateCols(ws: Sheet, changes: map<string, Value>, r: nat, c0: nat, c: nat): Option<Sheet>
    decreases c
  {
    if c <= c0 then Some(ws)
    else match UpdateCols(ws, changes, r, c0, c - 1)
      case None => None
      case Some(p) => UpdateAt(p, changes, Addr(r, c - 1))
  }

  /** The outer loop: rows `r0 .. r - 1`, each walked over columns `c0 .. c1 - 1`. */
  function UpdateRows(ws: Sheet, changes: map<string, Value>, r0: nat, r: nat, c0: nat, c1: nat): Option<Sheet>
    decreases r
  {
    if r <= r0 then Some(ws)
    else match UpdateRows(ws, changes, r0, r - 1, c0, c1)
      case None => None
      case Some(p) => UpdateCols(p, changes, r - 1, c0, c1)
  }

  /** A throw at some column ends the walk of the row with the throw. */
  lemma {:induction false} UpdateColsStaysFailed(ws: Sheet, changes: map<string, Value>, r: nat, c0: nat, c: nat, c1: nat)
    requires c <= c1 && UpdateCols(ws, changes, r, c0, c).None?
    ensures UpdateCols(ws, changes, r, c0, c1).None?
    decreases c1
  {
    if c < c1 {
      UpdateColsStaysFailed(ws, changes, r, c0, c, c1 - 1);
    }
  }

  /** A throw in some row ends the walk of the rectangle with the throw. */
  lemma {:induction false} UpdateRowsStaysFailed(ws: Sheet, changes: map<string, Value>, r0: nat, r: nat, r1: nat, c0: nat, c1: nat)
    requires r <= r1 && UpdateRows(ws, changes, r0, r, c0, c1).None?
    ensures UpdateRows(ws, changes, r0, r1, c0, c1).None?
    decreases r1
  {
    if r < r1 {
      UpdateRowsStaysFailed(ws, changes, r0, r, r1 - 1, c0, c1);
    }
  }

  /** The inner loop visits the addresses of its row in order. */
  lemma {:induction false} UpdateColsIsWalk(ws: Sheet, changes: map<string, Value>, r: nat, c0: nat, c: nat)
    ensures UpdateCols(ws, changes, r, c0, c) == UpdateAll(ws, changes, RowCells(r, c0, c))
    decreases c
  {
    if c > c0 {
      UpdateColsIsWalk(ws, changes, r, c0, c - 1);
      UpdateAllSnoc(ws, changes, RowCells(r, c0, c - 1), Addr(r, c - 1));
    }
  }

  /** The nested loops visit the addresses of the block in row-major order. */
  lemma {:induction false} UpdateRowsIsWalk(ws: Sheet, changes: map<string, Value>, r0: nat, r: nat, c0: nat, c1: nat)
    ensures UpdateRows(ws, changes, r0, r, c0, c1) == UpdateAll(ws, changes, Block(r0, r, c0, c1))
    decreases r
  {
    if r > r0 {
      var xs, ys := Block(r0, r - 1, c0, c1), RowCells(r - 1, c0, c1);
      assert Block(r0, r, c0, c1) == xs + ys;
      UpdateRowsIsWalk(ws, changes, r0, r - 1, c0, c1);
      UpdateAllConcat(ws, changes, xs, ys);
      if UpdateRows(ws, changes, r0, r - 1, c0, c1).Some? {
        UpdateColsIsWalk(UpdateRows(ws, changes, r0, r - 1, c0, c1).value, changes, r - 1, c0, c1);
      }
    }
  }

  /** The sheet after `update_range(rg, changes)`, or `None` for the TypeError. */
  function UpdatedSheet(ws: Sheet, rg: Range, changes: map<string, Value>): Option<Sheet> {
    UpdateRows(ws, changes, rg.s.r, rg.e.r + 1, rg.s.c, rg.e.c + 1)
  }

  /** `UpdateAllFails` and `UpdateAllContents` for the addresses of a rectangle in row-major order. */
  lemma WalkSpec(ws: Sheet, rg: Range, changes: map<string, Value>)
    ensures var r := UpdateAll(ws, changes, RowMajor(rg));
            (r.None? <==> ws.merges.Some? && !AllPresent(ws, rg)) &&
            (r.Some? ==> r.value.merges == ws.merges && r.value.usedRange == ws.usedRange) &&
            (r.Some? ==> forall a :: InRange(a, rg) ==>
               a in r.value.cells && r.value.cells[a] == Assign(CellOrStub(ws.cells, a), changes)) &&
            (r.Some? ==> forall a :: !InRange(a, rg) ==> SameAt(r.value, ws, a)) &&
            (r.Some? && ws.merges.Some? ==> r.value.cells.Keys == ws.cells.Keys)
  {
    RowMajorSpec(rg);
    UpdateAllFails(ws, changes, RowMajor(rg));
    UpdateAllContents(ws, changes, RowMajor(rg));
    var r := UpdateAll(ws, changes, RowMajor(rg));
    if r.Some? && ws.merges.Some? {
      forall a ensures a in r.value.cells <==> a in ws.cells {
        if InRange(a, rg) {
          assert a in RowMajor(rg);
        } else {
          assert SameAt(r.value, ws, a);
        }
      }
    }
  }

  /**
   * `update_range` on one sheet: it throws exactly when the sheet has
   * `!merges` and some address of the rectangle is absent; otherwise each
   * address of the rectangle holds its old cell (or a stub) with `changes`
   * merged in, at that very address, every other address is untouched, and
   * with `!merges` no address is added.
   */
  lemma UpdatedSheetSpec(ws: Sheet, rg: Range, changes: map<string, Value>)
    ensures var r := UpdatedSheet(ws, rg, changes);
            (r.None? <==> ws.merges.Some? && !AllPresent(ws, rg)) &&
            (r.Some? ==> r.value.merges == ws.merges && r.value.usedRange == ws.usedRange) &&
            (r.Some? ==> forall a :: InRange(a, rg) ==>
               a in r.value.cells && r.value.cells[a] == Assign(CellOrStub(ws.cells, a), changes)) &&
            (r.Some? ==> forall a :: !InRange(a, rg) ==> SameAt(r.value, ws, a)) &&
            (r.Some? && ws.merges.Some? ==> r.value.cells.Keys == ws.cells.Keys)
  {
    UpdateRowsIsWalk(ws, changes, rg.s.r, rg.e.r + 1, rg.s.c, rg.e.c + 1);
    WalkSpec(ws, rg, changes);
  }

  /** Updating a range a second time with the same changes changes nothing more. */
  lemma UpdateIdempotent(ws: Sheet, rg: Range, changes: map<string, Value>)
    requires UpdatedSheet(ws, rg, changes).Some?
    ensures UpdatedSheet(UpdatedSheet(ws, rg, changes).value, rg, changes) == UpdatedSheet(ws, rg, changes)
  {
    var once := UpdatedSheet(ws, rg, changes).value;
    UpdatedSheetSpec(ws, rg, changes);
    UpdatedSheetSpec(once, rg, changes);
    if ws.merges.Some? {
      assert AllPresent(once, rg);
    }
    var twice := UpdatedSheet(once, rg, changes).value;
    forall a | a in twice.cells
      ensures a in once.cells && twice.cells[a] == once.cells[a]
    {
      if InRange(a, rg) {
        AssignIdempotent(CellOrStub(ws.cells, a), changes);
      } else {
        assert SameAt(twice, once, a);
      }
    }
    forall a | a in once.cells
      ensures a in twice.cells
    {
      if !InRange(a, rg) {
        assert SameAt(twice, once, a);
      }
    }
    assert twice.cells == once.cells;
  }

  /**
   * A merge corner outside the rectangle is never written, even when the
   * rectangle covers other cells of its merge region.
   */
  lemma UpdateLeavesCornersOutside(ws: Sheet, rg: Range, changes: map<string, Value>, m: Range)
    requires UpdatedSheet(ws, rg, changes).Some?
    requires ws.merges.Some? && m in ws.merges.value && !InRange(m.s, rg)
    ensures SameAt(UpdatedSheet(ws, rg, changes).value, ws, m.s)
  {
    UpdatedSheetSpec(ws, rg, changes);
  }

  /** The body of the inner loop at address `a`, as `UpdateAt` describes it. */
  method UpdateCell(ws: Sheet, changes: map<string, Value>, a: Addr) returns (r: Option<Sheet>)
    ensures r == UpdateAt(ws, changes, a)
  {
    var cell: Cell;
    if a in ws.cells {
      cell := ws.cells[a];
    } else if ws.merges.None? {
      // `corner` is still undefined: the stub `{t:'z', v:''}` is created.
      cell := Stub();
    } else {
      // `find_corner` answered something truthy, so `Object.assign(undefined, ...)` throws.
      return None;
    }
    return Some(ws.(cells := ws.cells[a := Assign(cell, changes)]));
  }

  /** One row of the walk in `update_range`: columns `rg.s.c` to `rg.e.c` of `row`. */
  method UpdateRow(ws: Sheet, rg: Range, changes: map<string, Value>, row: nat) returns (r: Option<Sheet>)
    ensures r == UpdateCols(ws, changes, row, rg.s.c, rg.e.c + 1)
  {
    var cur := ws;
    var col := rg.s.c;
    while col <= rg.e.c
      invariant rg.s.c <= col <= if rg.s.c <= rg.e.c + 1 then rg.e.c + 1 else rg.s.c
      invariant Some(cur) == UpdateCols(ws, changes, row, rg.s.c, col)
    {
      var next := UpdateCell(cur, changes, Addr(row, col));
      if next.None? {
        UpdateColsStaysFailed(ws, changes, row, rg.s.c, col + 1, rg.e.c + 1);
        return None;
      }
      cur := next.value;
      col := col + 1;
    }
    return Some(cur);
  }

  /**
   * The nested loops of `update_range` over one worksheet `ws` (the copy's
   * default sheet), row by row and column by column; `None` is the TypeError
   * thrown at the first absent address of a sheet that has `!merges`.
   */
  method UpdateSheet(ws: Sheet, rg: Range, changes: map<string, Value>) returns (r: Option<Sheet>)
    ensures r == UpdatedSheet(ws, rg, changes)
  {
    var cur := ws;
    var row := rg.s.r;
    while row <= rg.e.r
      invariant rg.s.r <= row <= if rg.s.r <= rg.e.r + 1 then rg.e.r + 1 else rg.s.r
      invariant Some(cur) == UpdateRows(ws, changes, rg.s.r, row, rg.s.c, rg.e.c + 1)
    {
      var next := UpdateRow(cur, rg, changes, row);
      if next.None? {
        UpdateRowsStaysFailed(ws, changes, rg.s.r, row + 1, rg.e.r + 1, rg.s.c, rg.e.c + 1);
        return None;
      }
      cur := next.value;
      row := row + 1;
    }
    return Some(cur);
  }
}
