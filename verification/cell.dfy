/** A single square of a Hitori grid: a fixed number and a white/black flag.
    The flag is stored as `white`, as in the Java class; "covered" is its negation. */
module Cells {

  datatype Cell = Cell(value: int, white: bool)

  /** A cell as it is created: white (uncovered) and holding `v`. */
  function NewCell(v: int): (c: Cell)
    ensures GetValue(c) == v
    ensures !IsCovered(c)
  {
    Cell(v, true)
  }

  /** True when the cell is black (covered). */
  predicate IsCovered(c: Cell) {
    !c.white
  }

  function GetValue(c: Cell): int {
    c.value
  }

  /** Blacks the cell out; the number is kept. */
  function Cover(c: Cell): (r: Cell)
    ensures IsCovered(r)
    ensures GetValue(r) == GetValue(c)
  {
    c.(white := false)
  }

  /** Makes the cell white again; the number is kept. */
  function Uncover(c: Cell): (r: Cell)
    ensures !IsCovered(r)
    ensures GetValue(r) == GetValue(c)
  {
    c.(white := true)
  }

  /** A cell is determined by its number and its covered flag. */
  lemma CellExtensionality(c: Cell, d: Cell)
    requires GetValue(c) == GetValue(d)
    requires IsCovered(c) == IsCovered(d)
    ensures c == d
  {
  }

  lemma CoverIdempotent(c: Cell)
    ensures Cover(Cover(c)) == Cover(c)
  {
  }

  lemma UncoverIdempotent(c: Cell)
    ensures Uncover(Uncover(c)) == Uncover(c)
  {
  }

  /** Covering a white cell and uncovering it again gives back the same cell. */
  lemma CoverThenUncoverRestores(c: Cell)
    requires !IsCovered(c)
    ensures Uncover(Cover(c)) == c
  {
  }
}
