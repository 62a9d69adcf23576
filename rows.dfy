/**
 * The records the pipeline works on, and the way allSteps.ts reads their
 * cells: keys through `str`, numbers through `num`, flags trimmed and
 * upper-cased.
 */
module Rows {
  import opened Cells

  /**
   * One application row: the columns the pipeline reads ("Číslo UK",
   * "ID code", "Studying for degree", "NOMINOVÁN", "PRIORITA", "Pořadí")
   * and every other column, carried along untouched.
   */
  datatype Row = Row(uk: Cell, code: Cell, degree: Cell, flag: Cell, priority: Cell, rank: Cell, extra: map<string, Cell>)

  /** One capacity row: "ID code", the four counters, and the other columns. */
  datatype CapRow = CapRow(code: Cell, bc: Cell, mgr: Cell, phd: Cell, all: Cell, extra: map<string, Cell>)

  /** The student key, `str(r["Číslo UK"])`. */
  function Uk(r: Row): string { Str(r.uk) }

  /** The institute key, `str(r["ID code"])`. */
  function Code(r: Row): string { Str(r.code) }

  /** `str(r["NOMINOVÁN"]).toUpperCase()`. */
  function FlagText(r: Row): string { Upper(Str(r.flag)) }

  predicate IsAno(r: Row) { FlagText(r) == "ANO" }

  predicate IsNe(r: Row) { FlagText(r) == "NE" }

  /** `num(r["PRIORITA"])`. */
  function Prio(r: Row): int { Num(r.priority) }

  /** `num(r["Pořadí"])`. */
  function RankOf(r: Row): int { Num(r.rank) }

  /** `str(row["ID code"])` of a capacity row. */
  function CapCode(c: CapRow): string { Str(c.code) }

  /** A flag written as "ANO" or "NE" reads back as itself. */
  lemma FlagOfText(r: Row)
    requires r.flag == Text("ANO") || r.flag == Text("NE")
    ensures FlagText(r) == r.flag.s
  {
    PlainFixed(r.flag.s);
  }
}
