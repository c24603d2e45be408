/**
 * A sparse worksheet: cells keyed by address, the optional `!merges` list of
 * merged rectangles and the optional used range `!ref`; merge-aware corner
 * resolution and cell reads.
 */
module Sheets {
  import opened Wrappers
  import opened Ranges
  import opened Cells

  /**
   * A worksheet object. `merges` is `None` when the sheet has no `!merges`
   * key at all, which the range operations distinguish from an empty list.
   */
  datatype Sheet = Sheet(cells: map<Addr, Cell>, merges: Option<seq<Range>>, usedRange: Option<Range>)

  /** The cell stored at `a`, or a fresh stub when `a` is absent. */
  function CellOrStub(cells: map<Addr, Cell>, a: Addr): Cell {
    if a in cells then cells[a] else Stub()
  }

  /** Sheets `a` and `b` agree at `k`: same presence, same contents. */
  ghost predicate SameAt(a: Sheet, b: Sheet, k: Addr) {
    (k in a.cells <==> k in b.cells) && (k in b.cells ==> a.cells[k] == b.cells[k])
  }

  /**
   * `Array.prototype.find` over the merge list: the index of the first
   * rectangle, in stored order, that contains `a`.
   */
  function FirstMatch(ms: seq<Range>, a: Addr): (i: Option<nat>)
    ensures i.None? <==> forall j :: 0 <= j < |ms| ==> !InRange(a, ms[j])
    ensures i.Some? ==> i.value < |ms| && InRange(a, ms[i.value])
    ensures i.Some? ==> forall j :: 0 <= j < i.value ==> !InRange(a, ms[j])
  {
    if ms == [] then None
    else if InRange(a, ms[0]) then Some(0)
    else match FirstMatch(ms[1..], a)
      case None => None
      case Some(k) => Some(k + 1)
  }

  /**
   * `find_corner`: the address itself when it holds a cell, when the sheet
   * has no merges, or when no merge contains it; otherwise the top-left
   * corner of the first merge rectangle that contains it. (The source's
   * `find` callback only uses `encode_cell(r.s)` as a truthy flag, so the
   * code returns the merge entry itself; this is the corner it evidently
   * means, see FindCornerAsWritten.)
   */
  function FindCorner(ws: Sheet, a: Addr): (corner: Addr)
    ensures a in ws.cells ==> corner == a
    ensures ws.merges.None? ==> corner == a
    ensures corner == a || (ws.merges.Some? && exists m :: m in ws.merges.value && InRange(a, m) && corner == m.s)
    ensures corner.r <= a.r && corner.c <= a.c
  {
    if a in ws.cells then a
    else if ws.merges.None? then a
    else match FirstMatch(ws.merges.value, a)
      case None => a
      case Some(i) => ws.merges.value[i].s
  }

  /** The first-listed containing rectangle decides the corner, even when later ones overlap it. */
  lemma FindCornerFirst(ws: Sheet, a: Addr, i: nat)
    requires a !in ws.cells && ws.merges.Some?
    requires i < |ws.merges.value| && InRange(a, ws.merges.value[i])
    requires forall j :: 0 <= j < i ==> !InRange(a, ws.merges.value[j])
    ensures FindCorner(ws, a) == ws.merges.value[i].s
  {
  }

  /** An address outside every merge rectangle is its own corner. */
  lemma FindCornerOutsideMerges(ws: Sheet, a: Addr)
    requires ws.merges.Some? && forall m :: m in ws.merges.value ==> !InRange(a, m)
    ensures FindCorner(ws, a) == a
  {
  }

  /** Corner resolution reads only whether `a` is present and the merge list. */
  lemma FindCornerLocal(ws1: Sheet, ws2: Sheet, a: Addr)
    requires (a in ws1.cells <==> a in ws2.cells) && ws1.merges == ws2.merges
    ensures FindCorner(ws1, a) == FindCorner(ws2, a)
  {
  }

  /** What the source's `find_corner` returns: a reference, or a whole merge entry. */
  datatype Found = Ref(addr: Addr) | Entry(region: Range)

  /** `find_corner` exactly as written: `find` yields the matching merge entry, not its corner. */
  function FindCornerAsWritten(ws: Sheet, a: Addr): (f: Found)
    ensures f.Ref? ==> f.addr == a
    ensures f.Entry? <==> a !in ws.cells && ws.merges.Some? &&
                          exists j :: 0 <= j < |ws.merges.value| && InRange(a, ws.merges.value[j])
    ensures f.Entry? ==> f.region in ws.merges.value && InRange(a, f.region)
    ensures f.Entry? ==> f.region == ws.merges.value[FirstMatch(ws.merges.value, a).value]
  {
    if a in ws.cells || ws.merges.None? then Ref(a)
    else match FirstMatch(ws.merges.value, a)
      case None => Ref(a)
      case Some(i) => Entry(ws.merges.value[i])
  }

  /**
   * Whenever an absent address lies in some merge rectangle, the code as
   * written returns that merge entry instead of any address, so `fill_range`
   * then indexes the sheet with the entry rather than with the corner. This
   * covers the absent top-left corner of a merge as well, whose intended
   * corner is the address itself.
   */
  lemma {:induction false} AsWrittenMissesCorner(ws: Sheet, a: Addr)
    requires a !in ws.cells && ws.merges.Some?
    requires exists j :: 0 <= j < |ws.merges.value| && InRange(a, ws.merges.value[j])
    ensures FindCornerAsWritten(ws, a) == Entry(ws.merges.value[FirstMatch(ws.merges.value, a).value])
    ensures FindCornerAsWritten(ws, a) != Ref(FindCorner(ws, a))
  {
  }

  /**
   * The concrete inputs: merge A1:B2 with a cell at A1 only, looked up at
   * B2; and merge B2:C3 with no cells, looked up at its own corner B2.
   */
  lemma AsWrittenExample()
    ensures var ws := Sheet(map[Addr(0, 0) := Stub()], Some([Range(Addr(0, 0), Addr(1, 1))]), None);
            FindCorner(ws, Addr(1, 1)) == Addr(0, 0) &&
            FindCornerAsWritten(ws, Addr(1, 1)) == Entry(Range(Addr(0, 0), Addr(1, 1)))
    ensures var ws := Sheet(map[], Some([Range(Addr(1, 1), Addr(2, 2))]), None);
            FindCorner(ws, Addr(1, 1)) == Addr(1, 1) &&
            FindCornerAsWritten(ws, Addr(1, 1)) == Entry(Range(Addr(1, 1), Addr(2, 2)))
  {
  }

  /** `get_cell_value`: `sheet[ref]?.v`, `None` standing for `undefined`. */
  function GetCellValue(ws: Sheet, a: Addr): (v: Option<Value>)
    ensures v.Some? <==> a in ws.cells && "v" in ws.cells[a]
    ensures v.Some? ==> v.value == ws.cells[a]["v"]
  {
    if a in ws.cells && "v" in ws.cells[a] then Some(ws.cells[a]["v"]) else None
  }

  /** `v || ''`: a missing or falsy value reads as the empty string. */
  function OrEmpty(v: Option<Value>): (r: Value)
    ensures v.Some? && Truthy(v.value) ==> r == v.value
    ensures !(v.Some? && Truthy(v.value)) ==> r == Str("")
    ensures Truthy(r) || r == Str("")
  {
    if v.Some? && Truthy(v.value) then v.value else Str("")
  }
}
