/**
 * The script-level functions registered on top of `Workbook`: the list form
 * of `update_range`, `parse_range`, and `listval`, which reads a named range,
 * an `A1:B2` range or a single cell as a list of lists or a single value.
 * The A1 codec of the spreadsheet library is a parameter (`Codec`), so
 * addresses stay numeric.
 */
module Scripts {
  import opened Wrappers
  import opened Ranges
  import opened Cells
  import opened Sheets
  import opened Workbooks

  /** `cells_equal(a, b)`: both addresses are defined and name the same row and column. */
  function CellsEqual(a: Option<Addr>, b: Option<Addr>): (eq: bool)
    ensures eq <==> a.Some? && a == b
  {
    a.Some? && b.Some? && a.value.r == b.value.r && a.value.c == b.value.c
  }

  /** What `dereference_range` yields: an optional sheet name, a start and an optional end. */
  datatype SheetRange = SheetRange(sheet: Option<string>, s: Addr, e: Option<Addr>)

  /**
   * The parts of the spreadsheet library's A1 codec that `listval` uses:
   * `decode_range` for an `A1:B2` string, `dereference_range` for a defined
   * name's `Ref`, and `cellKey`, the address whose canonical A1 key is
   * exactly the given string (`None` for strings such as `$A$1` that are not
   * a cell key of a sheet object).
   */
  datatype Codec = Codec(
    decodeRange: string -> Range,
    dereference: string -> SheetRange,
    cellKey: string -> Option<Addr>)

  // ---------------------------------------------------------------------
  // update_range over a list of ranges
  // ---------------------------------------------------------------------

  /** Applying `update_range` for each range in turn; the first error ends the chain. */
  ghost function UpdatedAll(book: Book, ranges: seq<Range>, changes: map<string, Value>): Option<Book>
    decreases |ranges|
  {
    if ranges == [] then Some(book)
    else match UpdatedBook(book, ranges[0], changes)
      case None => None
      case Some(b) => UpdatedAll(b, ranges[1..], changes)
  }

  /** Updating with `xs + ys` is updating with `xs`, then with `ys`. */
  lemma {:induction false} UpdatedAllConcat(book: Book, xs: seq<Range>, ys: seq<Range>, changes: map<string, Value>)
    ensures UpdatedAll(book, xs + ys, changes) ==
            match UpdatedAll(book, xs, changes)
            case None => None
            case Some(b) => UpdatedAll(b, ys, changes)
    decreases |xs|
  {
    if xs == [] {
      assert xs + ys == ys;
    } else {
      assert (xs + ys)[0] == xs[0];
      assert (xs + ys)[1..] == xs[1..] + ys;
      match UpdatedBook(book, xs[0], changes)
      case None =>
      case Some(b) => UpdatedAllConcat(b, xs[1..], ys, changes);
    }
  }

  /**
   * Every successful chain keeps the sheet list, the defined names and the
   * set of sheets, and leaves every sheet other than the default one alone.
   */
  lemma {:induction false} UpdatedAllLayout(book: Book, ranges: seq<Range>, changes: map<string, Value>)
    requires UpdatedAll(book, ranges, changes).Some?
    ensures var r := UpdatedAll(book, ranges, changes).value;
            r.sheetNames == book.sheetNames && r.names == book.names && r.sheets.Keys == book.sheets.Keys &&
            forall n :: n in book.sheets && n != SheetKey(book, None) ==> r.sheets[n] == book.sheets[n]
    decreases |ranges|
  {
    if ranges != [] {
      var b := UpdatedBook(book, ranges[0], changes).value;
      assert SheetKey(b, None) == SheetKey(book, None);
      UpdatedAllLayout(b, ranges[1..], changes);
    }
  }

  /**
   * The script function `update_range(spreadsheet, list of range strings,
   * changes)`: `wb = wb.update_range(range, changes)` for each range in turn.
   * The argument workbook is never changed.
   */
  method UpdateRanges(w: Workbook, ranges: seq<Range>, changes: map<string, Value>) returns (res: Option<Workbook>)
    ensures w.wb == old(w.wb)
    ensures res.None? <==> UpdatedAll(w.wb, ranges, changes).None?
    ensures res.Some? ==> res.value.wb == UpdatedAll(w.wb, ranges, changes).value
    ensures ranges == [] ==> res == Some(w)
  {
    var cur := w;
    var i := 0;
    while i < |ranges|
      invariant 0 <= i <= |ranges|
      invariant i == 0 ==> cur == w
      invariant UpdatedAll(w.wb, ranges, changes) == UpdatedAll(cur.wb, ranges[i..], changes)
    {
      assert ranges[i..][1..] == ranges[i + 1..];
      var next := cur.UpdateRange(ranges[i], changes);
      if next.None? {
        return None;
      }
      cur := next.value;
      i := i + 1;
    }
    return Some(cur);
  }

  // ---------------------------------------------------------------------
  // parse_range
  // ---------------------------------------------------------------------

  /**
   * `parse_range(range)`: every address of the range, row by row and left to
   * right within a row (the A1 encoding of each is left to the codec).
   */
  method ParseRange(rg: Range) returns (out: seq<Addr>)
    ensures out == RowMajor(rg)
    ensures |out| == Height(rg) * Width(rg)
    ensures forall a :: a in out <==> InRange(a, rg)
    ensures Ordered(out)
    ensures forall i, j :: 0 <= i < |out| && 0 <= j < |out| && i != j ==> out[i] != out[j]
  {
    out := [];
    var r := rg.s.r;
    while r <= rg.e.r
      invariant rg.s.r <= r <= if rg.s.r <= rg.e.r + 1 then rg.e.r + 1 else rg.s.r
      invariant out == Block(rg.s.r, r, rg.s.c, rg.e.c + 1)
    {
      ghost var done := out;
      var c := rg.s.c;
      while c <= rg.e.c
        invariant rg.s.c <= c <= if rg.s.c <= rg.e.c + 1 then rg.e.c + 1 else rg.s.c
        invariant out == done + RowCells(r, rg.s.c, c)
      {
        assert RowCells(r, rg.s.c, c + 1) == RowCells(r, rg.s.c, c) + [Addr(r, c)];
        out := out + [Addr(r, c)];
        c := c + 1;
      }
      r := r + 1;
    }
    assert out == RowMajor(rg) by {
      if rg.e.r + 1 < rg.s.r {
        assert r == rg.s.r;
      }
    }
    RowMajorSpec(rg);
    forall i, j | 0 <= i < |out| && 0 <= j < |out| && i != j
      ensures out[i] != out[j]
    {
      OrderedDistinct(out, i, j);
    }
  }

  // ---------------------------------------------------------------------
  // listval
  // ---------------------------------------------------------------------

  /** What `listval` returns: a list of rows of strings, or a single string. */
  datatype ListValue = Grid(rows: seq<seq<Value>>) | Scalar(v: Value)

  /** What `listval` reads: a rectangle, or one cell given by its key (`None`: no cell key). */
  datatype Target = Rect(sheet: Option<string>, rg: Range) | One(sheet: Option<string>, at: Option<Addr>)

  /** A `Ref` is used only when it is truthy, i.e. present and not the empty string. */
  predicate NamedRefUsed(book: Book, ref: string) {
    var named := GetNamedRef(book, ref);
    named.Some? && named.value != ""
  }

  /**
   * How `listval` resolves `ref`: a defined name first (its range collapses
   * to one cell when its corners coincide or it has no end), then a string
   * containing `:` as a range on the first sheet, then a single cell key on
   * the first sheet.
   */
  function Resolve(book: Book, ref: string, codec: Codec): (t: Target)
    ensures NamedRefUsed(book, ref) ==>
              var d := codec.dereference(GetNamedRef(book, ref).value);
              t.sheet == d.sheet &&
              (t.Rect? <==> d.e.Some? && d.e.value != d.s) &&
              (t.Rect? ==> t.rg == Range(d.s, d.e.value)) &&
              (t.One? ==> t.at == Some(d.s))
    ensures !NamedRefUsed(book, ref) ==> t.sheet.None?
    ensures !NamedRefUsed(book, ref) ==> (t.Rect? <==> ':' in ref)
    ensures !NamedRefUsed(book, ref) && t.Rect? ==> t.rg == codec.decodeRange(ref)
    ensures !NamedRefUsed(book, ref) && t.One? ==> t.at == codec.cellKey(ref)
  {
    if NamedRefUsed(book, ref) then
      var d := codec.dereference(GetNamedRef(book, ref).value);
      var e := if CellsEqual(d.e, Some(d.s)) then None else d.e;
      if e.Some? then Rect(d.sheet, Range(d.s, e.value)) else One(d.sheet, Some(d.s))
    else if ':' in ref then Rect(None, codec.decodeRange(ref))
    else One(None, codec.cellKey(ref))
  }

  /** The cell under key `at` exists and its `v` is present and truthy. */
  predicate HasText(ws: Sheet, at: Option<Addr>) {
    at.Some? && at.value in ws.cells && "v" in ws.cells[at.value] && Truthy(ws.cells[at.value]["v"])
  }

  /**
   * `get_cell_value(sheet, key) || ''` for a cell key of a present sheet: the
   * cell's truthy `v`, and `''` for no key, a missing cell, a cell without
   * `v` or a falsy `v`.
   */
  function CellText(ws: Sheet, at: Option<Addr>): (v: Value)
    ensures HasText(ws, at) ==> v == ws.cells[at.value]["v"]
    ensures !HasText(ws, at) ==> v == Str("")
    ensures v == Str("") <==> !HasText(ws, at)
  {
    if at.None? then Str("") else OrEmpty(GetCellValue(ws, at.value))
  }

  /** The texts of `n` cells of row `r`, from column `c0` on. */
  function RowText(ws: Sheet, r: nat, c0: nat, n: nat): (row: seq<Value>)
    ensures |row| == n
    ensures forall j :: 0 <= j < n ==> row[j] == CellText(ws, Some(Addr(r, c0 + j)))
  {
    seq(n, j requires 0 <= j < n => CellText(ws, Some(Addr(r, c0 + j))))
  }

  /** The texts of the rectangle `rg`, one list per row. */
  function GridText(ws: Sheet, rg: Range): (rows: seq<seq<Value>>)
    ensures |rows| == Height(rg)
    ensures forall i :: 0 <= i < Height(rg) ==> rows[i] == RowText(ws, rg.s.r + i, rg.s.c, Width(rg))
  {
    seq(Height(rg), i requires 0 <= i < Height(rg) => RowText(ws, rg.s.r + i, rg.s.c, Width(rg)))
  }

  /**
   * What `listval(spreadsheet, ref)` evaluates to, `None` for the TypeError
   * thrown when the resolved sheet does not exist and a cell is read.
   */
  ghost function ListvalResult(book: Book, ref: string, codec: Codec): Option<ListValue> {
    match Resolve(book, ref, codec)
    case Rect(sheet, rg) =>
      (match GetWorksheet(book, sheet)
       case Some(ws) => Some(Grid(GridText(ws, rg)))
       case None =>
         if Height(rg) > 0 && Width(rg) > 0 then None
         else Some(Grid(seq(Height(rg), i => []))))
    case One(sheet, at) =>
      (match GetWorksheet(book, sheet)
       case Some(ws) => Some(Scalar(CellText(ws, at)))
       case None => None)
  }

  /**
   * `listval(spreadsheet, ref)`: resolves `ref`, then reads the rectangle
   * row by row and column by column, or reads the one cell.
   */
  method Listval(w: Workbook, ref: string, codec: Codec) returns (res: Option<ListValue>)
    ensures res == ListvalResult(w.wb, ref, codec)
  {
    var target := Resolve(w.wb, ref, codec);
    var sheet := GetWorksheet(w.wb, target.sheet);
    if target.One? {
      if sheet.None? {
        return None;
      }
      return Some(Scalar(CellText(sheet.value, target.at)));
    }
    var rg := target.rg;
    var out: seq<seq<Value>> := [];
    var row := rg.s.r;
    while row <= rg.e.r
      invariant rg.s.r <= row <= if rg.s.r <= rg.e.r + 1 then rg.e.r + 1 else rg.s.r
      invariant |out| == row - rg.s.r
      invariant forall i :: 0 <= i < |out| ==>
                  if sheet.Some? then out[i] == RowText(sheet.value, rg.s.r + i, rg.s.c, Width(rg)) else out[i] == []
      invariant sheet.None? && Width(rg) > 0 ==> row == rg.s.r
    {
      var orow: seq<Value> := [];
      var col := rg.s.c;
      while col <= rg.e.c
        invariant rg.s.c <= col <= if rg.s.c <= rg.e.c + 1 then rg.e.c + 1 else rg.s.c
        invariant |orow| == col - rg.s.c
        invariant sheet.Some? ==> forall j :: 0 <= j < |orow| ==> orow[j] == CellText(sheet.value, Some(Addr(row, rg.s.c + j)))
        invariant sheet.None? ==> orow == []
      {
        if sheet.None? {
          // `sheet[ref]` on an undefined sheet throws.
          return None;
        }
        orow := orow + [CellText(sheet.value, Some(Addr(row, col)))];
        col := col + 1;
      }
      out := out + [orow];
      row := row + 1;
    }
    if sheet.Some? {
      assert out == GridText(sheet.value, rg);
    } else {
      assert out == seq(Height(rg), i => []);
    }
    return Some(Grid(out));
  }

  // ---------------------------------------------------------------------
  // properties of listval
  // ---------------------------------------------------------------------

  /** A truthy defined name wins: how the codec reads `ref` itself as a range or cell is irrelevant. */
  lemma NamedRefFirst(book: Book, ref: string, codec: Codec, other: Codec)
    requires NamedRefUsed(book, ref)
    requires other.dereference == codec.dereference
    ensures ListvalResult(book, ref, other) == ListvalResult(book, ref, codec)
  {
  }

  /** Without a usable defined name, `:` selects a range and the cell-key reading is irrelevant. */
  lemma ColonMeansRange(book: Book, ref: string, codec: Codec, other: Codec)
    requires !NamedRefUsed(book, ref) && ':' in ref
    requires other.decodeRange == codec.decodeRange
    ensures ListvalResult(book, ref, other) == ListvalResult(book, ref, codec)
    ensures ListvalResult(book, ref, codec).None? || ListvalResult(book, ref, codec).value.Grid?
  {
  }

  /** Otherwise `ref` is a single cell key on the first sheet, and the result is one value. */
  lemma OtherwiseOneCell(book: Book, ref: string, codec: Codec)
    requires !NamedRefUsed(book, ref) && ':' !in ref
    ensures ListvalResult(book, ref, codec).None? <==> GetWorksheet(book, None).None?
    ensures ListvalResult(book, ref, codec).Some? ==>
              ListvalResult(book, ref, codec) == Some(Scalar(CellText(GetWorksheet(book, None).value, codec.cellKey(ref))))
  {
  }

  /**
   * A defined name whose range starts and ends at the same cell reads as that
   * one value, which is the only entry of the one-by-one grid of that range.
   */
  lemma SingleCellNameCollapses(book: Book, ref: string, codec: Codec)
    requires NamedRefUsed(book, ref)
    requires var d := codec.dereference(GetNamedRef(book, ref).value); d.e == Some(d.s)
    ensures var d := codec.dereference(GetNamedRef(book, ref).value);
            var r := ListvalResult(book, ref, codec);
            (r.None? <==> GetWorksheet(book, d.sheet).None?) &&
            (r.Some? ==> r.value.Scalar? && GridText(GetWorksheet(book, d.sheet).value, Range(d.s, d.s)) == [[r.value.v]])
  {
    var d := codec.dereference(GetNamedRef(book, ref).value);
    var ws := GetWorksheet(book, d.sheet);
    if ws.Some? {
      var g := GridText(ws.value, Range(d.s, d.s));
      assert g[0] == RowText(ws.value, d.s.r, d.s.c, 1);
      assert Addr(d.s.r, d.s.c + 0) == d.s;
      assert g[0] == [CellText(ws.value, Some(d.s))];
      assert g == [[CellText(ws.value, Some(d.s))]];
    }
  }

  /**
   * A value `listval` returns is `''` exactly when the cell it reads is
   * missing, has no `v` or has a falsy `v`; otherwise it is that `v`.
   */
  lemma ListvalFalsyIsEmpty(book: Book, ref: string, codec: Codec)
    requires ListvalResult(book, ref, codec).Some?
    ensures var t := Resolve(book, ref, codec);
            var ws := GetWorksheet(book, t.sheet);
            var r := ListvalResult(book, ref, codec).value;
            r.Scalar? ==>
              (t.One? && ws.Some? &&
               (r.v == Str("") <==> !HasText(ws.value, t.at)) &&
               (HasText(ws.value, t.at) ==> r.v == ws.value.cells[t.at.value]["v"]))
    ensures var t := Resolve(book, ref, codec);
            var ws := GetWorksheet(book, t.sheet);
            var r := ListvalResult(book, ref, codec).value;
            r.Grid? ==>
              (t.Rect? &&
               forall i, j :: 0 <= i < |r.rows| && 0 <= j < |r.rows[i]| ==>
                 var at := Some(Addr(t.rg.s.r + i, t.rg.s.c + j));
                 ws.Some? &&
                 (r.rows[i][j] == Str("") <==> !HasText(ws.value, at)) &&
                 (HasText(ws.value, at) ==> r.rows[i][j] == ws.value.cells[at.value]["v"]))
  {
  }

  /** The rows concatenated. */
  function Flatten(rows: seq<seq<Value>>): (flat: seq<Value>)
    decreases |rows|
  {
    if rows == [] then [] else Flatten(rows[..|rows| - 1]) + rows[|rows| - 1]
  }

  /** The texts of the cells `xs`, in order. */
  function Texts(ws: Sheet, xs: seq<Addr>): (ts: seq<Value>)
    ensures |ts| == |xs|
    ensures forall k :: 0 <= k < |xs| ==> ts[k] == CellText(ws, Some(xs[k]))
  {
    seq(|xs|, k requires 0 <= k < |xs| => CellText(ws, Some(xs[k])))
  }

  lemma {:induction false} RowTextIsTexts(ws: Sheet, r: nat, c0: nat, c1: nat)
    ensures RowText(ws, r, c0, Span(c0, c1)) == Texts(ws, RowCells(r, c0, c1))
  {
    RowCellsMembers(r, c0, c1);
    RowCellsIndex(r, c0, c1);
  }

  lemma {:induction false} RowCellsIndex(r: nat, c0: nat, c1: nat)
    ensures forall k :: 0 <= k < |RowCells(r, c0, c1)| ==> RowCells(r, c0, c1)[k] == Addr(r, c0 + k)
    decreases c1
  {
    RowCellsMembers(r, c0, c1);
    if c0 < c1 {
      RowCellsIndex(r, c0, c1 - 1);
      RowCellsMembers(r, c0, c1 - 1);
    }
  }

  /**
   * Reading a rectangle and concatenating its rows gives the cells in the
   * order `parse_range` lists them.
   */
  lemma {:induction false} GridFollowsParseRange(ws: Sheet, rg: Range)
    ensures Flatten(GridText(ws, rg)) == Texts(ws, RowMajor(rg))
  {
    GridPrefix(ws, rg, Height(rg));
    assert GridText(ws, rg)[..Height(rg)] == GridText(ws, rg);
    if rg.e.r + 1 < rg.s.r {
      assert Block(rg.s.r, rg.e.r + 1, rg.s.c, rg.e.c + 1) == Block(rg.s.r, rg.s.r, rg.s.c, rg.e.c + 1);
    }
  }

  lemma {:induction false} GridPrefix(ws: Sheet, rg: Range, k: nat)
    requires k <= Height(rg)
    ensures Flatten(GridText(ws, rg)[..k]) == Texts(ws, Block(rg.s.r, rg.s.r + k, rg.s.c, rg.e.c + 1))
  {
    var g := GridText(ws, rg);
    if k > 0 {
      GridPrefix(ws, rg, k - 1);
      assert g[..k][..k - 1] == g[..k - 1];
      var r := rg.s.r + k - 1;
      RowTextIsTexts(ws, r, rg.s.c, rg.e.c + 1);
      TextsConcat(ws, Block(rg.s.r, r, rg.s.c, rg.e.c + 1), RowCells(r, rg.s.c, rg.e.c + 1));
    } else {
      assert g[..0] == [];
    }
  }

  lemma TextsConcat(ws: Sheet, xs: seq<Addr>, ys: seq<Addr>)
    ensures Texts(ws, xs + ys) == Texts(ws, xs) + Texts(ws, ys)
  {
    assert Texts(ws, xs + ys) == Texts(ws, xs) + Texts(ws, ys);
  }
}
