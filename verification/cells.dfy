/**
  Spreadsheet cell values as Range.getValues returns them to the scripts: an empty cell,
  a string, or a number (only whole numbers are modelled).
 */
module Cells {
  import opened Strings

  datatype Cell = Blank | Text(text: string) | Number(value: int)

  /** row[k]: indexing past the end of a row yields undefined, modelled as an empty cell. */
  function At(row: seq<Cell>, k: nat): Cell {
    if k < |row| then row[k] else Blank
  }

  /** JavaScript truthiness of a cell value: '' and 0 are falsy, like an empty cell. */
  predicate Truthy(c: Cell) {
    match c
    case Blank => false
    case Text(s) => s != ""
    case Number(n) => n != 0
  }

  /**
    `parseFloat(c) || 0` and `Number(c) || 0`: a number reads as itself, and everything the
    model treats as non-numeric (an empty cell, text) reads as 0.
   */
  function NumericValue(c: Cell): int {
    if c.Number? then c.value else 0
  }

  /** Number.prototype.toString() of an integer. */
  function IntToString(n: int): (s: string)
    ensures s != []
  {
    if n < 0 then "-" + NatToString(-n) else NatToString(n)
  }

  /** A cell in a template literal `${c}` (only used on truthy cells). */
  function Display(c: Cell): string {
    match c
    case Blank => ""
    case Text(s) => s
    case Number(n) => IntToString(n)
  }

  /** A truthy cell displays as a non-empty string. */
  lemma TruthyDisplay(c: Cell)
    requires Truthy(c)
    ensures Display(c) != ""
  {
  }
}
