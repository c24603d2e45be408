# Spreadsheet workbook core of the Numbas sheets extension

This project models the workbook layer of the Numbas "sheets" extension in
Dafny (`src/extension.js`). It covers:

- the `Workbook` class: sheet lookup and replacement, copying,
  merge-aware corner resolution, `update_range`, `fill_range`,
  named-range lookup and cell reads;
- the helper `cells_equal`;
- the script functions built on that class: `update_range` over a list
  of ranges, `parse_range` and `listval`.

Entities:

- **Addresses and ranges.** An address is a zero-based pair
  `Addr(r, c)`. A range is a pair of addresses `s` (start) and `e` (end),
  both inclusive (module `Ranges`). `RowMajor(rg)` lists the range's
  addresses rows-outer, columns-inner, both ascending. That is the order
  in which every loop of the source walks a range.
- **Cells.** A cell is a dictionary from attribute name to value
  (module `Cells`), so `t`, `v` and every other attribute are keys.
  `Object.assign(cell, changes)` is the map union `Assign`.
  `{t:'z', v:''}` is `Stub`. A `fill_range` write is `Filled`.
- **Sheets.** A sheet (module `Sheets`) has three parts:
  - its cells, keyed by address;
  - its optional `!merges` list, where `None` means the key is absent,
    which the code treats differently from an empty list;
  - its optional used range `!ref`.
- **The workbook.** The library's workbook object is the value `Book`:
  `SheetNames`, `Sheets` and the defined-names table (module
  `Workbooks`). The JavaScript class `Workbook` is a Dafny class whose
  one field `wb` holds it.
  - Pure lookups are functions over `Book`.
  - `replace_worksheet` updates the field in place.
  - `copy`, `update_range` and `fill_range` build a fresh `Workbook` and
    never change the receiver.
- **Range walks.** `update_range` and `fill_range` are imperative loops
  (modules `RangeUpdate` and `RangeFill`). Each is a method with nested
  `while` loops. It is proved equal to a left fold over `RowMajor(rg)`
  of the one-address step, and the lemmas say what that fold does cell
  by cell.
- **Errors.** A JavaScript `TypeError` thrown by the source
  (`Object.assign(undefined, …)`, `ref in undefined`, `undefined[ref]`)
  is the `None` of an `Option` result.
- **A1 text.** The spreadsheet library's A1 text codec is outside the
  model.
  - `update_range`, `fill_range` and `parse_range` take the decoded
    range.
  - `listval` takes the reference text and a `Codec` value. It supplies
    `decode_range`, `dereference_range`, and the address whose canonical
    A1 key is a given string.

## Model

| member | source | states |
|---|---|---|
| Scripts.CellsEqual | src/extension.js:88-90 | true exactly when both addresses are defined and equal |
| Workbooks.Workbook.constructor | src/extension.js:93-95 | the new object wraps the given workbook value |
| Workbooks.SheetKey | src/extension.js:97-98 | a non-empty name is used as given; an absent or empty name selects `SheetNames[0]` |
| Workbooks.GetWorksheet | src/extension.js:97-99 | the sheet stored under `name \|\| SheetNames[0]` is returned if present, otherwise `undefined` (`None`) |
| Workbooks.Replaced | src/extension.js:101-104 | replacement keeps the sheet list and defined names, and adds the resolved key to the sheet keys |
| Workbooks.GetAfterReplace | src/extension.js:97-104 | a replaced sheet reads back as the new sheet; a lookup of any other key is unaffected |
| Workbooks.Workbook.ReplaceWorksheet | src/extension.js:101-104 | the field becomes the old workbook with the sheet assigned under `name \|\| SheetNames[0]` |
| Workbooks.Workbook.Copy | src/extension.js:106-108 | a fresh object holding an equal workbook value |
| Sheets.FirstMatch | src/extension.js:119-124 | `find` over the merge list: `None` iff no rectangle contains the address (bounds inclusive on all four sides); otherwise the least such index |
| Sheets.FindCorner | src/extension.js:110-131 | an address that holds a cell, or any address when there is no `!merges`, is its own corner; otherwise the corner is the start of a containing merge rectangle, or the address itself; always at or above-left of the address |
| Sheets.FindCornerFirst | src/extension.js:118-128 | among overlapping merge rectangles, the first one listed decides the corner |
| Sheets.FindCornerOutsideMerges | src/extension.js:126-130 | an address outside every merge rectangle is its own corner |
| Sheets.FindCornerLocal | src/extension.js:110-131 | corner resolution depends only on whether the address is present and on the merge list |
| Sheets.FindCornerAsWritten | src/extension.js:110-131 | the code as written: an absent address inside some merge rectangle of a sheet with `!merges` yields the first matching merge entry; every other lookup yields the address itself |
| Sheets.AsWrittenMissesCorner | src/extension.js:119-128 | for every absent address inside a merge rectangle, including the merge's own absent top-left corner, the code as written returns the first matching merge entry rather than the corner |
| Sheets.AsWrittenExample | src/extension.js:119-128 | merge A1:B2 with a cell at A1, looked up at B2: the intended corner is A1, and the code returns the entry A1:B2. Merge B2:C3 with no cells, looked up at B2: the intended corner is B2, and the code returns the entry B2:C3 |
| Sheets.GetCellValue | src/extension.js:193-195 | `sheet[ref]?.v`: defined exactly when the cell exists and has a `v`, and then it is that `v` |
| Sheets.OrEmpty | src/extension.js:324-329 | `v \|\| ''`: a truthy value is kept; a missing or falsy one becomes `''` |
| Cells.Assign | src/extension.js:151 | `Object.assign`: the keys of the result are the union of both key sets; `changes` overwrite; other attributes are kept |
| Cells.AssignIdempotent | src/extension.js:151 | assigning the same changes twice equals assigning them once |
| Cells.Stub | src/extension.js:148 | the stub has exactly the keys `t = 'z'` and `v = ''` |
| Cells.Filled | src/extension.js:172-178 | one fill write: `v` is set; `'z'` is retagged to `'s'`; any other `t` and every other attribute are kept |
| Cells.FilledTwice | src/extension.js:175-178 | a second fill of the same cell replaces the value and retags nothing further |
| RangeUpdate.UpdateCell | src/extension.js:139-151 | the inner-loop body equals the one-address step `UpdateAt`: a present cell or a new stub gets `changes` merged in at the address; an absent address on a sheet with `!merges` throws |
| RangeUpdate.UpdateRow | src/extension.js:138-152 | the inner loop equals the column-by-column fold `UpdateCols` over one row |
| RangeUpdate.UpdateSheet | src/extension.js:137-153 | the nested loops equal the row-by-row fold `UpdatedSheet` over the rectangle |
| RangeUpdate.UpdateAllConcat | src/extension.js:137-153 | walking `xs + ys` is walking `xs`, then `ys` from where it stopped |
| RangeUpdate.UpdateAllContents | src/extension.js:137-153 | a walk that does not throw leaves every visited address holding its old cell (or a stub) with `changes` merged in; every other address is unchanged; merges and the used range are kept |
| RangeUpdate.UpdateAllFails | src/extension.js:141-151 | a walk throws iff the sheet has `!merges` and some visited address is absent |
| RangeUpdate.UpdateColsStaysFailed | src/extension.js:138-152 | a throw at one column ends the row with the throw |
| RangeUpdate.UpdateRowsStaysFailed | src/extension.js:137-153 | a throw in one row ends the rectangle with the throw |
| RangeUpdate.UpdateColsIsWalk | src/extension.js:138-152 | the inner loop visits the row's addresses left to right |
| RangeUpdate.UpdateRowsIsWalk | src/extension.js:137-153 | the nested loops visit the rectangle's addresses in row-major order |
| RangeUpdate.WalkSpec | src/extension.js:137-153 | all five parts of `UpdatedSheetSpec`, stated for the row-major walk |
| RangeUpdate.UpdatedSheetSpec | src/extension.js:133-155 | `update_range` on one sheet: it throws iff the sheet has `!merges` and some address of the rectangle is absent; otherwise every address of the rectangle holds its old cell (or a stub) with `changes` merged in, at that very address and never at a merge corner; every address outside is unchanged; merges and the used range are kept; with `!merges` no key is added |
| RangeUpdate.UpdateIdempotent | src/extension.js:133-155 | repeating a successful update of a range with the same changes changes nothing |
| RangeUpdate.UpdateLeavesCornersOutside | src/extension.js:139-151 | a merge corner outside the rectangle is not written, even when the rectangle covers other cells of its merge region |
| RangeFill.ValueAt | src/extension.js:162-170 | `values[row - s.r][col - s.c]` is defined exactly when the row array exists and is long enough |
| RangeFill.FillAllShape | src/extension.js:161-180 | merges and the used range are never touched; no cell is removed; a new cell appears only at or above-left of a visited position |
| RangeFill.FillSkips | src/extension.js:162-171 | positions without a value (missing rows, short rows) leave the walk unchanged |
| RangeFill.FillTargetStable | src/extension.js:167 | resolving a corner on the partly filled sheet gives the same result as on the original sheet, because of the row-major order |
| RangeFill.OrderedPrefix | src/extension.js:161-166 | every earlier position of a row-major walk comes before the position being visited |
| RangeFill.FillAtCell | src/extension.js:167-178 | one visit changes at most the cell its position resolves to |
| RangeFill.FillStep | src/extension.js:167-178 | one more visit changes at most the cell the position resolves to in the original sheet |
| RangeFill.FillUntouched | src/extension.js:161-180 | a cell that no filled position resolves to keeps its presence and contents |
| RangeFill.FillWritten | src/extension.js:161-180 | a cell that filled positions resolve to ends as its old cell (or a stub) filled with the value of the last such position: the last write wins |
| RangeFill.FillSheetUntouched | src/extension.js:157-182 | over the whole rectangle, a cell that no filled position resolves to is untouched |
| RangeFill.FillSheetWritten | src/extension.js:157-182 | over the whole rectangle, the cell that positions resolve to ends filled with the value of the last of them in row-major order, whatever earlier positions of the same merge region carried |
| RangeFill.FillSheetWithoutMerges | src/extension.js:157-182 | without `!merges` the fill is pointwise: each in-range position with a value is filled at its own address; every other cell is unchanged |
| RangeFill.FillCell | src/extension.js:167-178 | the inner-loop body equals the one-position step `FillAt` |
| RangeFill.FillRow | src/extension.js:166-179 | the inner loop extends the fold by the row's positions, left to right |
| RangeFill.FillSheet | src/extension.js:161-180 | the nested loops, including the `continue` for a missing row, equal the fold `FilledSheet` over the rectangle |
| Workbooks.UpdatedBook | src/extension.js:133-155 | a successful update keeps the sheet list, defined names and sheet keys, and changes no sheet except the default one |
| Workbooks.UpdatedBookIdempotent | src/extension.js:133-155 | repeating a successful `update_range` with the same arguments on its result changes nothing |
| Workbooks.FilledBook | src/extension.js:157-182 | a successful fill keeps the sheet list, defined names and sheet keys, and changes no sheet except the default one |
| Workbooks.FilledBookKeepsLayout | src/extension.js:157-182 | the filled sheet keeps its merges and its used range (`!ref` is never widened); no cell is removed |
| Workbooks.Workbook.UpdateRange | src/extension.js:133-155 | the receiver is unchanged; the result is a fresh workbook holding `UpdatedBook`, or the error when that is `None` |
| Workbooks.Workbook.FillRange | src/extension.js:157-182 | the receiver is unchanged; the result is a fresh workbook holding `FilledBook`, or the error when that is `None` |
| Workbooks.FirstNamed | src/extension.js:189 | `find` over the defined names: `None` iff no entry has the name; otherwise the least index of one that does |
| Workbooks.GetNamedRef | src/extension.js:184-191 | `undefined` iff no entry has the name; otherwise the `Ref` of the first entry with that name |
| Scripts.UpdatedAllConcat | src/extension.js:261-270 | updating with `xs + ys` is updating with `xs`, then with `ys`; the first error ends the chain |
| Scripts.UpdatedAllLayout | src/extension.js:261-270 | a successful chain keeps the sheet list, names and sheet keys, and every non-default sheet |
| Scripts.UpdateRanges | src/extension.js:261-270 | the argument workbook is unchanged; the result is the chain of updates over the list; an empty list returns the argument itself |
| Ranges.RowMajorSpec | src/extension.js:279-290 | the row-major listing holds exactly the rectangle's addresses, strictly ordered, and has height × width entries |
| Scripts.ParseRange | src/extension.js:279-290 | `parse_range` lists exactly the addresses of the range, row-major with no repeats, height × width of them |
| Scripts.Resolve | src/extension.js:298-314 | first, a truthy defined name: its range, collapsed to one cell when its ends coincide or it has no end; second, text containing `:` as a range on the first sheet; otherwise a single cell key on the first sheet |
| Scripts.CellText | src/extension.js:323-329 | a cell read is the cell's `v` when that is present and truthy, and `''` exactly when the key, the cell or its `v` is missing or the `v` is falsy |
| Scripts.RowText | src/extension.js:320-325 | one output row: the cell texts of the row's columns in order |
| Scripts.GridText | src/extension.js:318-327 | one output row per range row, in order |
| Scripts.Listval | src/extension.js:292-332 | the loops return exactly `ListvalResult`: a grid of cell texts or one cell text, or the error when the sheet is missing and a cell is read |
| Scripts.NamedRefFirst | src/extension.js:298-306 | a truthy defined name wins: how the text itself would decode does not matter |
| Scripts.ColonMeansRange | src/extension.js:307-308 | without a usable name, text containing `:` always yields a grid (or the error) |
| Scripts.OtherwiseOneCell | src/extension.js:309-329 | otherwise the result is the single cell under the raw key on the first sheet, or the error iff that sheet is missing |
| Scripts.SingleCellNameCollapses | src/extension.js:301-306 | a name whose range starts and ends at one cell reads as one value: the only entry of that one-by-one grid |
| Scripts.ListvalFalsyIsEmpty | src/extension.js:324-329 | each scalar and each grid entry is `''` exactly when the cell read is missing, has no `v` or has a falsy `v`; otherwise it is that `v` |
| Scripts.Texts | src/extension.js:323-324 | the texts of a list of addresses, in order |
| Scripts.GridFollowsParseRange | src/extension.js:319-325 | the rows read by `listval`, concatenated, are the texts of the addresses `parse_range` lists, in the same order |

## Left out

- A1 text: `decode_cell`, `encode_cell`, `decode_range` and `dereference_range` belong to the spreadsheet library, which is not part of this model.
  - Ranges and addresses are numeric throughout.
  - Where `listval` reads from text, the codec is a parameter.
  - The source passes each `!merges` entry through `decode_range`; the model stores the entries already as rectangles.
- Workbooks.Workbook.Copy: `JSON.parse(JSON.stringify(wb))` is modelled as an independent value copy. JSON's loss of `undefined` and of non-JSON values is not modelled.
- In-place updates: `update_range` and `fill_range` change the copied sheet object in place. The model computes the new sheet as a value and stores it back into the copy, and nothing else can observe the difference.
- `Truthy`: JavaScript truthiness of `NaN` and of `undefined` attribute values is not modelled. Values are strings, reals, booleans and nested dictionaries.
- Stringification: `new TString(v || '')` in `listval` stringifies a value. The model returns the value itself.
- Scripting glue is not part of this model: the widget, the `TSpreadsheet` wrapper, the JME type and display registration, and the `spreadsheet` and `spreadsheet_from_workbook` constructors.
- Behaviour a reader might expect that the code does not have; the model follows the code:
  - `update_range` writes at each address itself, not at its merge corner.
  - With `!merges` present, `update_range` throws on an address that holds no cell.
  - `Object.assign` merges shallowly, not deeply.
  - `fill_range` neither widens `!ref` nor retags numeric values as numbers; it retags only `'z'` to `'s'`.
  - `get_worksheet` returns `undefined` for a missing sheet instead of failing with a typed error. A later read then throws a `TypeError`, modelled as `None`.
- Scripts.Resolve: a single-cell reference with no defined name is read by its raw text as a key of the sheet object. The model passes that through `cellKey`, which says which address, if any, has that text as its key. The text `$A$1` therefore reads nothing.
- Workbooks.GetNamedRef: an entry found without a `Ref` is not modelled; every defined name carries a `Ref` string.

## Findings

| source | as written | input that shows it | evidently intended | confidence | as-written member | corrected member |
|---|---|---|---|---|---|---|
| src/extension.js:119-128 | `find` returns the merge entry whose callback result is truthy, so `find_corner` returns the entry itself, not the corner; `fill_range` then indexes the sheet with that entry | merge A1:B2 with a cell only at A1; `fill_range` over B2 resolves B2 to the entry A1:B2, not to A1 (likewise an absent corner B2 of merge B2:C3 resolves to the entry B2:C3) | return the top-left corner `encode_cell(r.s)` of the first containing merge | high (read from the code; not executed) | Sheets.FindCornerAsWritten | Sheets.FindCorner |
