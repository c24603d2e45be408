/**
 * Cell records. A cell is the library's plain object `{t, v, ...}`: its type
 * tag `t`, its value `v` and any other attribute (`disabled`, `s` for style,
 * ...) are all keys of one dictionary, so a `changes` dictionary may overwrite
 * any of them.
 */
module Cells {

  /** The attribute values a cell or a `changes` dictionary can hold. */
  datatype Value =
    | Str(s: string)
    | Num(x: real)
    | Bool(b: bool)
    | Dict(fields: map<string, Value>)

  /** A cell record: attribute name to value. */
  type Cell = map<string, Value>

  /** JavaScript truthiness of a defined value (NaN is not modelled). */
  predicate Truthy(v: Value) {
    match v
    case Str(s) => s != ""
    case Num(x) => x != 0.0
    case Bool(b) => b
    case Dict(_) => true
  }

  /** The stub `{t:'z', v:''}` that range writes create for an absent address. */
  function Stub(): (c: Cell)
    ensures c.Keys == {"t", "v"} && c["t"] == Str("z") && c["v"] == Str("")
  {
    map["t" := Str("z"), "v" := Str("")]
  }

  /**
   * `Object.assign(cell, changes)`: a shallow merge in which every key of
   * `changes` overwrites, and every other key of `cell` is kept.
   */
  function Assign(cell: Cell, changes: map<string, Value>): (r: Cell)
    ensures r.Keys == cell.Keys + changes.Keys
    ensures forall k :: k in changes ==> r[k] == changes[k]
    ensures forall k :: k in cell && k !in changes ==> r[k] == cell[k]
  {
    cell + changes
  }

  /** Assigning the same changes twice is the same as assigning them once. */
  lemma AssignIdempotent(cell: Cell, changes: map<string, Value>)
    ensures Assign(Assign(cell, changes), changes) == Assign(cell, changes)
  {
  }

  /**
   * One write of `fill_range`: a stub type `'z'` becomes `'s'`, any other
   * type (or a missing one) stays, `v` becomes `value`, and every other
   * attribute is kept.
   */
  function Filled(cell: Cell, value: Value): (r: Cell)
    ensures r.Keys == cell.Keys + {"v"}
    ensures r["v"] == value
    ensures "t" in cell && cell["t"] == Str("z") ==> r["t"] == Str("s")
    ensures "t" in cell && cell["t"] != Str("z") ==> r["t"] == cell["t"]
    ensures forall k :: k in cell && k != "t" && k != "v" ==> r[k] == cell[k]
  {
    var retagged := if "t" in cell && cell["t"] == Str("z") then cell["t" := Str("s")] else cell;
    retagged["v" := value]
  }

  /** A later fill of the same cell replaces the earlier value and retags nothing further. */
  lemma FilledTwice(cell: Cell, v1: Value, v2: Value)
    ensures Filled(Filled(cell, v1), v2) == Filled(cell, v2)
  {
  }
}
