/**
 * The column mapping and the pandas cell semantics the Python reference
 * pipeline (app.py) relies on: `get_col`, the ValueErrors it raises for
 * unmapped columns, `to_numeric(errors="coerce")`, `astype(str)` and the
 * comparisons under which NaN equals nothing. NaN is the `Missing` cell.
 */
module Pandas {
  import opened Wrappers
  import opened Cells

  /** A column mapper: logical column name to the chosen sheet column. */
  type Mapper = map<string, string>

  /** The selectbox placeholder meaning "do not use". */
  const Unused: string := "<nepoužiť>"

  /** `get_col`: the mapped column, or None when the key is unmapped, mapped to "" or to the placeholder. */
  function GetCol(m: Mapper, key: string): (c: Option<string>)
    ensures c.None? <==> key !in m || m[key] == "" || m[key] == Unused
    ensures c.Some? ==> c.value == m[key] && c.value != "" && c.value != Unused
  {
    if key !in m then None
    else
      var value := m[key];
      if value == "" || value == Unused then None else Some(value)
  }

  predicate Mapped(m: Mapper, key: string) {
    GetCol(m, key).Some?
  }

  /** Every key of the list is mapped. */
  predicate AllMapped(m: Mapper, keys: seq<string>) {
    forall i :: 0 <= i < |keys| ==> Mapped(m, keys[i])
  }

  /** The ValueErrors the reference raises. */
  datatype PyError =
    | MissingColumns(keys: seq<string>)        // a required column is not mapped
    | NotANumber(code: Cell)                    // int() of NaN: a capacity cell that is not numeric
    | AmbiguousLabel(code: Cell)                // truth value of a Series: several capacity rows share a code
    | ResultColumnsMissing(uk: string, id: string)

  /** The check `if not a or not b or ...: raise ValueError(...)`. */
  function RequireColumns(m: Mapper, keys: seq<string>): (e: Option<PyError>)
    ensures e.None? <==> AllMapped(m, keys)
    ensures e.Some? ==> e.value == MissingColumns(keys)
  {
    if AllMapped(m, keys) then None else Some(MissingColumns(keys))
  }

  /** The cell a column holds after `to_numeric(errors="coerce")`: a number, or NaN. */
  function NumCell(o: Option<int>): (c: Cell)
    ensures PyNumeric(c) == o
  {
    match o
    case Some(n) => Number(n)
    case None => Missing
  }

  /** `to_numeric(errors="coerce")` applied to a cell, as stored back in the frame. */
  function Coerced(c: Cell): (r: Cell)
    ensures PyNumeric(r) == PyNumeric(c)
    ensures r.Missing? || r.Number?
  {
    NumCell(PyNumeric(c))
  }

  /** `astype(str).str.strip().str.upper()`. */
  function NormText(c: Cell): string {
    Upper(Trim(Py, PyString(c)))
  }

  /** `column == value` in pandas: NaN on either side compares unequal. */
  predicate Same(a: Cell, b: Cell) {
    a != Missing && a == b
  }

  /** `a < b` on coerced numbers: false whenever either side is NaN. */
  predicate Less(a: Option<int>, b: Option<int>) {
    a.Some? && b.Some? && a.value < b.value
  }

  /** `str(v) if pd.notna(v) else ""`. */
  function KeyText(c: Cell): string {
    if c.Missing? then "" else PyString(c)
  }
}
