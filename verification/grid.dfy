/** The puzzle state: a square grid of cells, its accessors and the two
    unconditional moves (uncover one cell, uncover every cell). */
module Grid {
  import opened Cells

  /** A (row, column) position; it may lie outside the grid. */
  datatype Pos = Pos(row: int, col: int)

  datatype Puzzle = Puzzle(size: int, cells: seq<seq<Cell>>)

  /** The grid is square with side `size`, and not empty. */
  predicate Valid(p: Puzzle) {
    p.size > 0 &&
    |p.cells| == p.size &&
    forall i :: 0 <= i < |p.cells| ==> |p.cells[i]| == p.size
  }

  predicate IsValidPosition(p: Puzzle, i: int, j: int) {
    i >= 0 && i < p.size && j >= 0 && j < p.size
  }

  predicate InBounds(p: Puzzle, q: Pos) {
    IsValidPosition(p, q.row, q.col)
  }

  /** On a well-formed grid, a position passes `IsValidPosition` exactly when
      indexing the cell array with it is defined. */
  lemma ValidPositionMeansIndexable(p: Puzzle, i: int, j: int)
    requires Valid(p)
    ensures IsValidPosition(p, i, j) <==> (0 <= i < |p.cells| && 0 <= j < |p.cells[i]|)
  {
  }

  function GetSize(p: Puzzle): (n: int)
    requires Valid(p)
    ensures n == |p.cells|
    ensures n > 0
  {
    p.size
  }

  function Get(p: Puzzle, i: int, j: int): Cell
    requires Valid(p) && IsValidPosition(p, i, j)
  {
    p.cells[i][j]
  }

  function At(p: Puzzle, q: Pos): Cell
    requires Valid(p) && InBounds(p, q)
  {
    Get(p, q.row, q.col)
  }

  predicate Covered(p: Puzzle, q: Pos)
    requires Valid(p) && InBounds(p, q)
  {
    IsCovered(At(p, q))
  }

  /** An in-bounds uncovered cell: a member of the white region. */
  predicate White(p: Puzzle, q: Pos)
    requires Valid(p)
  {
    InBounds(p, q) && !Covered(p, q)
  }

  function ValueAt(p: Puzzle, q: Pos): int
    requires Valid(p) && InBounds(p, q)
  {
    GetValue(At(p, q))
  }

  /** The set of all positions of the grid. */
  function AllPositions(p: Puzzle): (s: set<Pos>)
    ensures forall q :: q in s <==> InBounds(p, q)
  {
    set i, j | 0 <= i < p.size && 0 <= j < p.size :: Pos(i, j)
  }

  /** The grid with the cell at (i, j) replaced by `c`: the functional form of
      an in-place update of that one cell. */
  function SetCell(p: Puzzle, i: int, j: int, c: Cell): (r: Puzzle)
    requires Valid(p) && IsValidPosition(p, i, j)
    ensures Valid(r) && r.size == p.size
    ensures Get(r, i, j) == c
    ensures forall q :: InBounds(p, q) && q != Pos(i, j) ==> At(r, q) == At(p, q)
  {
    Puzzle(p.size, p.cells[i := p.cells[i][j := c]])
  }

  /** The tentative grid of a cover move: (i, j) blacked out, all else as it was. */
  function CoverAt(p: Puzzle, i: int, j: int): (r: Puzzle)
    requires Valid(p) && IsValidPosition(p, i, j)
    ensures Valid(r) && r.size == p.size
    ensures Covered(r, Pos(i, j))
    ensures forall q :: InBounds(p, q) ==> ValueAt(r, q) == ValueAt(p, q)
    ensures forall q :: InBounds(p, q) && q != Pos(i, j) ==> At(r, q) == At(p, q)
  {
    SetCell(p, i, j, Cover(Get(p, i, j)))
  }

  /** Uncovers the cell at (i, j) with no rule checks. */
  function Reactivate(p: Puzzle, i: int, j: int): (r: Puzzle)
    requires Valid(p) && IsValidPosition(p, i, j)
    ensures Valid(r) && r.size == p.size
    ensures !Covered(r, Pos(i, j))
    ensures forall q :: InBounds(p, q) ==> ValueAt(r, q) == ValueAt(p, q)
    ensures forall q :: InBounds(p, q) && q != Pos(i, j) ==> At(r, q) == At(p, q)
  {
    SetCell(p, i, j, Uncover(Get(p, i, j)))
  }

  /** Uncovers every cell; the numbers are kept. Like the Java loop it walks
      whatever rows the grid holds, so it needs no well-formedness. */
  function Reset(p: Puzzle): (r: Puzzle)
    ensures r.size == p.size && |r.cells| == |p.cells|
    ensures forall i :: 0 <= i < |p.cells| ==> |r.cells[i]| == |p.cells[i]|
    ensures forall i, j :: 0 <= i < |p.cells| && 0 <= j < |p.cells[i]| ==>
              !IsCovered(r.cells[i][j]) && GetValue(r.cells[i][j]) == GetValue(p.cells[i][j])
  {
    Puzzle(p.size, seq(|p.cells|, i requires 0 <= i < |p.cells| =>
                         seq(|p.cells[i]|, j requires 0 <= j < |p.cells[i]| => Uncover(p.cells[i][j]))))
  }

  /** Two well-formed grids of the same size that agree on every cell are equal. */
  lemma PuzzleExtensionality(p: Puzzle, r: Puzzle)
    requires Valid(p) && Valid(r) && r.size == p.size
    requires forall q :: InBounds(p, q) ==> At(r, q) == At(p, q)
    ensures r == p
  {
    forall i | 0 <= i < p.size
      ensures r.cells[i] == p.cells[i]
    {
      forall j | 0 <= j < p.size
        ensures r.cells[i][j] == p.cells[i][j]
      {
        assert At(r, Pos(i, j)) == At(p, Pos(i, j));
      }
    }
  }

  /** Reactivating a cell that is already white changes nothing. */
  lemma ReactivateWhiteIsNoop(p: Puzzle, i: int, j: int)
    requires Valid(p) && IsValidPosition(p, i, j)
    requires !Covered(p, Pos(i, j))
    ensures Reactivate(p, i, j) == p
  {
    var r := Reactivate(p, i, j);
    forall q | InBounds(p, q)
      ensures At(r, q) == At(p, q)
    {
      if q == Pos(i, j) {
        CellExtensionality(At(r, q), At(p, q));
      }
    }
    PuzzleExtensionality(p, r);
  }

  /** A reset grid is well formed when the original was, and resetting twice is resetting once. */
  lemma ResetIdempotent(p: Puzzle)
    ensures Reset(Reset(p)) == Reset(p)
    ensures Valid(p) ==> Valid(Reset(p))
  {
    var r := Reset(p);
    var rr := Reset(r);
    forall i | 0 <= i < |p.cells|
      ensures rr.cells[i] == r.cells[i]
    {
      forall j | 0 <= j < |p.cells[i]|
        ensures rr.cells[i][j] == r.cells[i][j]
      {
        CellExtensionality(rr.cells[i][j], r.cells[i][j]);
      }
    }
  }

  /** Builds a puzzle from an already-parsed square grid of numbers; every cell starts white. */
  function FromValues(values: seq<seq<int>>): (p: Puzzle)
    requires |values| > 0
    requires forall i :: 0 <= i < |values| ==> |values[i]| == |values|
    ensures Valid(p) && p.size == |values|
    ensures forall q :: InBounds(p, q) ==> !Covered(p, q) && ValueAt(p, q) == values[q.row][q.col]
  {
    Puzzle(|values|, seq(|values|, i requires 0 <= i < |values| =>
                          seq(|values[i]|, j requires 0 <= j < |values[i]| => NewCell(values[i][j]))))
  }

  /** The built-in 8x8 starting puzzle. */
  const DefaultValues: seq<seq<int>> :=
    [[4, 8, 1, 6, 3, 2, 5, 7],
     [3, 6, 7, 2, 1, 6, 5, 4],
     [2, 3, 4, 8, 2, 8, 6, 1],
     [4, 1, 6, 5, 7, 7, 3, 5],
     [7, 2, 3, 1, 8, 5, 1, 2],
     [3, 5, 6, 7, 3, 1, 8, 4],
     [6, 4, 2, 3, 5, 4, 7, 8],
     [8, 7, 1, 4, 2, 3, 5, 6]]

  function LoadDefaultPuzzle(): (p: Puzzle)
    ensures Valid(p) && p.size == 8
    ensures forall q :: InBounds(p, q) ==> !Covered(p, q) && ValueAt(p, q) == DefaultValues[q.row][q.col]
    ensures ValueAt(p, Pos(0, 0)) == 4 && ValueAt(p, Pos(7, 7)) == 6
  {
    FromValues(DefaultValues)
  }
}
