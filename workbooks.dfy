/**
 * The `Workbook` wrapper class: a single field holding the library's
 * workbook object, sheet lookup and replacement, named-range lookup, and the
 * copy-then-mutate range operations `update_range` and `fill_range`.
 */
module Workbooks {
  import opened Wrappers
  import opened Ranges
  import opened Cells
  import opened Sheets
  import opened RangeUpdate
  import opened RangeFill

  /** An entry `{Name, Ref}` of the workbook's defined-names table. */
  datatype DefinedName = DefinedName(name: string, ref: string)

  /**
   * The library's workbook object: `SheetNames`, `Sheets`, and the
   * `Workbook.Names` table (a missing `Workbook` or `Names` behaves as an
   * empty table, since both make `get_named_ref` return `undefined`).
   */
  datatype Book = Book(sheetNames: seq<string>, sheets: map<string, Sheet>, names: seq<DefinedName>)

  /**
   * The key `name || SheetNames[0]`: an absent or empty name selects the
   * first listed sheet; with no sheets listed, JavaScript indexes `Sheets`
   * with `undefined`, i.e. with the key "undefined".
   */
  function SheetKey(book: Book, name: Option<string>): (key: string)
    ensures name.Some? && name.value != "" ==> key == name.value
    ensures (name.None? || name.value == "") && book.sheetNames != [] ==> key == book.sheetNames[0]
  {
    if name.Some? && name.value != "" then name.value
    else if book.sheetNames != [] then book.sheetNames[0]
    else "undefined"
  }

  /** `get_worksheet(name)`: the sheet under that key, `None` for `undefined`. */
  function GetWorksheet(book: Book, name: Option<string>): (ws: Option<Sheet>)
    ensures ws.Some? <==> SheetKey(book, name) in book.sheets
    ensures ws.Some? ==> ws.value == book.sheets[SheetKey(book, name)]
  {
    var key := SheetKey(book, name);
    if key in book.sheets then Some(book.sheets[key]) else None
  }

  /** The workbook after `replace_worksheet(sheet, name)`. */
  function Replaced(book: Book, sheet: Sheet, name: Option<string>): (r: Book)
    ensures r.sheetNames == book.sheetNames && r.names == book.names
    ensures r.sheets.Keys == book.sheets.Keys + {SheetKey(book, name)}
  {
    book.(sheets := book.sheets[SheetKey(book, name) := sheet])
  }

  /**
   * Reading a sheet back after replacing it yields the new sheet, and every
   * lookup that resolves to another key is unaffected.
   */
  lemma GetAfterReplace(book: Book, sheet: Sheet, name: Option<string>, other: Option<string>)
    ensures GetWorksheet(Replaced(book, sheet, name), name) == Some(sheet)
    ensures SheetKey(book, other) != SheetKey(book, name) ==>
              GetWorksheet(Replaced(book, sheet, name), other) == GetWorksheet(book, other)
  {
  }

  /** `names.find(({Name}) => Name == name)`: the index of the first entry with that name. */
  function FirstNamed(names: seq<DefinedName>, name: string): (i: Option<nat>)
    ensures i.None? <==> forall j :: 0 <= j < |names| ==> names[j].name != name
    ensures i.Some? ==> i.value < |names| && names[i.value].name == name
    ensures i.Some? ==> forall j :: 0 <= j < i.value ==> names[j].name != name
  {
    if names == [] then None
    else if names[0].name == name then Some(0)
    else match FirstNamed(names[1..], name)
      case None => None
      case Some(k) => Some(k + 1)
  }

  /** `get_named_ref(name)`: the `Ref` of the first defined name called `name`. */
  function GetNamedRef(book: Book, name: string): (ref: Option<string>)
    ensures ref.None? <==> forall j :: 0 <= j < |book.names| ==> book.names[j].name != name
    ensures ref.Some? ==> exists j :: 0 <= j < |book.names| && book.names[j] == DefinedName(name, ref.value) &&
                                     forall i :: 0 <= i < j ==> book.names[i].name != name
  {
    match FirstNamed(book.names, name)
    case None => None
    case Some(i) => Some(book.names[i].ref)
  }

  /**
   * The workbook value that `update_range(rg, changes)` returns, or `None`
   * for the TypeError it throws: `ref in ws` on a missing default sheet
   * (only once the loops run), or `Object.assign(undefined, ...)`.
   */
  ghost function UpdatedBook(book: Book, rg: Range, changes: map<string, Value>): (r: Option<Book>)
    ensures r.Some? ==> r.value.sheetNames == book.sheetNames && r.value.names == book.names
    ensures r.Some? ==> r.value.sheets.Keys == book.sheets.Keys
    ensures r.Some? ==> forall n :: n in book.sheets && n != SheetKey(book, None) ==> r.value.sheets[n] == book.sheets[n]
  {
    var key := SheetKey(book, None);
    if key !in book.sheets then
      if Height(rg) > 0 && Width(rg) > 0 then None else Some(book)
    else match UpdatedSheet(book.sheets[key], rg, changes)
      case None => None
      case Some(ws) => Some(book.(sheets := book.sheets[key := ws]))
  }

  /** Repeating an `update_range` with the same arguments on its result changes nothing. */
  lemma UpdatedBookIdempotent(book: Book, rg: Range, changes: map<string, Value>)
    requires UpdatedBook(book, rg, changes).Some?
    ensures UpdatedBook(UpdatedBook(book, rg, changes).value, rg, changes) == UpdatedBook(book, rg, changes)
  {
    var key := SheetKey(book, None);
    if key in book.sheets {
      UpdateIdempotent(book.sheets[key], rg, changes);
      var once := UpdatedBook(book, rg, changes).value;
      assert SheetKey(once, None) == key;
      assert once.sheets[key := UpdatedSheet(book.sheets[key], rg, changes).value] == once.sheets;
    }
  }

  /**
   * The workbook value that `fill_range(rg, values)` returns, or `None` for
   * the TypeError `find_corner` throws on a missing default sheet once a row
   * that has values reaches the inner loop.
   */
  ghost function FilledBook(book: Book, rg: Range, values: seq<seq<Value>>): (r: Option<Book>)
    ensures r.Some? ==> r.value.sheetNames == book.sheetNames && r.value.names == book.names
    ensures r.Some? ==> r.value.sheets.Keys == book.sheets.Keys
    ensures r.Some? ==> forall n :: n in book.sheets && n != SheetKey(book, None) ==> r.value.sheets[n] == book.sheets[n]
  {
    var key := SheetKey(book, None);
    if key !in book.sheets then
      if Height(rg) > 0 && Width(rg) > 0 && |values| > 0 then None else Some(book)
    else Some(book.(sheets := book.sheets[key := FilledSheet(book.sheets[key], rg, values)]))
  }

  /** A filled sheet keeps its merges and its used range (`!ref` is never widened). */
  lemma FilledBookKeepsLayout(book: Book, rg: Range, values: seq<seq<Value>>)
    requires FilledBook(book, rg, values).Some? && SheetKey(book, None) in book.sheets
    ensures var before := book.sheets[SheetKey(book, None)];
            var after := FilledBook(book, rg, values).value.sheets[SheetKey(book, None)];
            after.merges == before.merges && after.usedRange == before.usedRange && before.cells.Keys <= after.cells.Keys
  {
    FillAllShape(book.sheets[SheetKey(book, None)], rg, values, RowMajor(rg));
  }

  class Workbook {
    var wb: Book

    constructor(wb: Book)
      ensures this.wb == wb
    {
      this.wb := wb;
    }

    /** `replace_worksheet(sheet, name)`: assigns into `Sheets`; `SheetNames` is not updated. */
    method ReplaceWorksheet(sheet: Sheet, name: Option<string>)
      modifies this
      ensures wb == Replaced(old(wb), sheet, name)
    {
      wb := wb.(sheets := wb.sheets[SheetKey(wb, name) := sheet]);
    }

    /** `copy()`: a new, independent workbook holding the same value. */
    method Copy() returns (w: Workbook)
      ensures fresh(w) && w.wb == wb
    {
      w := new Workbook(wb);
    }

    /**
     * `update_range(range, changes)`: works on a copy, so the receiver is
     * never changed (the method may modify nothing that existed before it).
     */
    method UpdateRange(rg: Range, changes: map<string, Value>) returns (res: Option<Workbook>)
      ensures wb == old(wb)
      ensures res.None? <==> UpdatedBook(wb, rg, changes).None?
      ensures res.Some? ==> fresh(res.value) && res.value.wb == UpdatedBook(wb, rg, changes).value
    {
      var w := Copy();
      var key := SheetKey(w.wb, None);
      if key !in w.wb.sheets {
        // `ref in ws` with `ws` undefined throws once the inner loop body runs.
        if Height(rg) > 0 && Width(rg) > 0 {
          return None;
        }
        return Some(w);
      }
      var ws := UpdateSheet(w.wb.sheets[key], rg, changes);
      if ws.None? {
        return None;
      }
      w.wb := w.wb.(sheets := w.wb.sheets[key := ws.value]);
      return Some(w);
    }

    /**
     * `fill_range(range, values)`: works on a copy; each position with a
     * value is written at its merge corner, resolved as the walk goes.
     */
    method FillRange(rg: Range, values: seq<seq<Value>>) returns (res: Option<Workbook>)
      ensures wb == old(wb)
      ensures res.None? <==> FilledBook(wb, rg, values).None?
      ensures res.Some? ==> fresh(res.value) && res.value.wb == FilledBook(wb, rg, values).value
    {
      var w := Copy();
      var key := SheetKey(w.wb, None);
      if key !in w.wb.sheets {
        // `find_corner(undefined, ...)` throws once a row with values reaches the inner loop.
        if Height(rg) > 0 && Width(rg) > 0 && |values| > 0 {
          return None;
        }
        return Some(w);
      }
      var ws := FillSheet(w.wb.sheets[key], rg, values);
      w.wb := w.wb.(sheets := w.wb.sheets[key := ws]);
      return Some(w);
    }
  }
}
