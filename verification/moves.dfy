/** The cover move of the Hitori engine and the legality invariant it keeps:
    no two covered cells side by side (rule 2) and one connected white
    region (rule 3). */
module Moves {
  import opened Cells
  import opened Grid
  import opened Connectivity

  /** The result codes `eliminate` returns. */
  const Success := 0
  const AdjacencyViolation := 2
  const ConnectivityViolation := 3

  datatype MoveResult = MoveResult(puzzle: Puzzle, code: int)

  /** Some in-grid orthogonal neighbour of `q` is covered. */
  ghost predicate HasCoveredNeighbour(p: Puzzle, q: Pos)
    requires Valid(p)
  {
    exists n :: Adjacent(q, n) && InBounds(p, n) && Covered(p, n)
  }

  /** Rule 2 as checked around (i, j): the neighbours above, below, left and
      right, where they exist, are all white. */
  function CheckRule2(p: Puzzle, i: int, j: int): (ok: bool)
    requires Valid(p)
    ensures ok <==> !HasCoveredNeighbour(p, Pos(i, j))
  {
    var q := Pos(i, j);
    assert Adjacent(q, Up(q)) && Adjacent(q, Down(q)) && Adjacent(q, Left(q)) && Adjacent(q, Right(q));
    if IsValidPosition(p, i - 1, j) && IsCovered(Get(p, i - 1, j)) then false
    else if IsValidPosition(p, i + 1, j) && IsCovered(Get(p, i + 1, j)) then false
    else if IsValidPosition(p, i, j - 1) && IsCovered(Get(p, i, j - 1)) then false
    else if IsValidPosition(p, i, j + 1) && IsCovered(Get(p, i, j + 1)) then false
    else true
  }

  /** The cover move: tentatively cover (i, j); if a neighbour is covered,
      uncover it and report 2; otherwise, if the white region fell apart,
      uncover it and report 3; otherwise keep it covered and report 0. */
  function Eliminate(p: Puzzle, i: int, j: int): (r: MoveResult)
    requires Valid(p) && IsValidPosition(p, i, j)
    ensures Valid(r.puzzle) && r.puzzle.size == p.size
    ensures r.code == AdjacencyViolation <==> HasCoveredNeighbour(p, Pos(i, j))
    ensures r.code == ConnectivityViolation <==>
              !HasCoveredNeighbour(p, Pos(i, j)) && !Connected(CoverAt(p, i, j))
    ensures r.code == Success <==>
              !HasCoveredNeighbour(p, Pos(i, j)) && Connected(CoverAt(p, i, j))
    ensures Covered(r.puzzle, Pos(i, j)) <==> r.code == Success
    ensures forall q :: InBounds(p, q) ==> ValueAt(r.puzzle, q) == ValueAt(p, q)
    ensures forall q :: InBounds(p, q) && q != Pos(i, j) ==> At(r.puzzle, q) == At(p, q)
  {
    var tentative := CoverAt(p, i, j);
    assert HasCoveredNeighbour(tentative, Pos(i, j)) <==> HasCoveredNeighbour(p, Pos(i, j)) by {
      forall n | Adjacent(Pos(i, j), n) && InBounds(p, n)
        ensures Covered(tentative, n) == Covered(p, n)
      {
        assert n != Pos(i, j);
      }
    }
    if !CheckRule2(tentative, i, j) then
      MoveResult(Reactivate(tentative, i, j), AdjacencyViolation)
    else if !CheckRule3(tentative) then
      MoveResult(Reactivate(tentative, i, j), ConnectivityViolation)
    else
      MoveResult(tentative, Success)
  }

  /** No two orthogonally adjacent cells are both covered. */
  ghost predicate NoAdjacentCovered(p: Puzzle)
    requires Valid(p)
  {
    forall a, b :: InBounds(p, a) && InBounds(p, b) && Adjacent(a, b) && Covered(p, a) ==> !Covered(p, b)
  }

  /** The legality invariant of a Hitori position: rules 2 and 3 both hold. */
  ghost predicate Legal(p: Puzzle) {
    Valid(p) && NoAdjacentCovered(p) && Connected(p)
  }

  /** Whatever `eliminate` reports, a legal grid stays legal; and a rejected
      move leaves the grid exactly as it was. */
  lemma EliminatePreservesLegal(p: Puzzle, i: int, j: int)
    requires Legal(p) && IsValidPosition(p, i, j)
    ensures Legal(Eliminate(p, i, j).puzzle)
    ensures Eliminate(p, i, j).code != Success ==> Eliminate(p, i, j).puzzle == p
    ensures Covered(p, Pos(i, j)) ==> Eliminate(p, i, j) == MoveResult(p, Success)
  {
    var r := Eliminate(p, i, j);
    var t := CoverAt(p, i, j);
    var q := Pos(i, j);
    if Covered(p, q) {
      // The cell was already black: the tentative grid is the grid itself,
      // and its neighbours are white because rule 2 held.
      forall x | InBounds(p, x)
        ensures At(t, x) == At(p, x)
      {
        if x == q {
          CellExtensionality(At(t, x), At(p, x));
        }
      }
      PuzzleExtensionality(p, t);
      assert !HasCoveredNeighbour(p, q);
      assert r.code == Success;
    } else if r.code != Success {
      ReactivateWhiteIsNoop(p, i, j);
      forall x | InBounds(p, x)
        ensures At(r.puzzle, x) == At(p, x)
      {
        if x == q {
          CellExtensionality(At(r.puzzle, x), At(p, x));
        }
      }
      PuzzleExtensionality(p, r.puzzle);
    } else {
      assert r.puzzle == t;
      forall a, b | InBounds(t, a) && InBounds(t, b) && Adjacent(a, b)
        ensures !(Covered(t, a) && Covered(t, b))
      {
        if a == q {
          assert !Covered(p, b);
        } else if b == q {
          AdjacentSymmetric(a, b);
          assert !Covered(p, a);
        }
      }
    }
  }

  /** Once a cover move has been committed, covering any neighbour of that
      cell is rejected for adjacency. */
  lemma EliminateThenNeighbourRejected(p: Puzzle, i: int, j: int, n: Pos)
    requires Valid(p) && IsValidPosition(p, i, j)
    requires InBounds(p, n) && Adjacent(Pos(i, j), n)
    ensures Eliminate(p, i, j).code == Success ==>
              Eliminate(Eliminate(p, i, j).puzzle, n.row, n.col).code == AdjacencyViolation &&
              !Covered(Eliminate(Eliminate(p, i, j).puzzle, n.row, n.col).puzzle, n)
  {
    if Eliminate(p, i, j).code == Success {
      AdjacentSymmetric(Pos(i, j), n);
      assert Covered(Eliminate(p, i, j).puzzle, Pos(i, j));
    }
  }

  /** On a 1x1 grid the only cell can be covered: rule 2 has no neighbour to
      look at and rule 3 has no white cell to look at. */
  lemma EliminateSingleCell(v: int)
    ensures Eliminate(FromValues([[v]]), 0, 0).code == Success
    ensures Covered(Eliminate(FromValues([[v]]), 0, 0).puzzle, Pos(0, 0))
  {
    var p := FromValues([[v]]);
    var t := CoverAt(p, 0, 0);
    assert !HasCoveredNeighbour(p, Pos(0, 0));
    assert forall q :: InBounds(t, q) ==> q == Pos(0, 0);
    AllCoveredPassesRule3(t);
  }

  /** Uncovering a cell of a legal grid keeps it legal: its neighbours are
      white, so it joins the white region through any one of them. */
  lemma ReactivatePreservesLegal(p: Puzzle, i: int, j: int)
    requires Legal(p) && IsValidPosition(p, i, j)
    ensures Legal(Reactivate(p, i, j))
  {
    var q := Pos(i, j);
    var r := Reactivate(p, i, j);
    if !Covered(p, q) {
      ReactivateWhiteIsNoop(p, i, j);
      return;
    }
    assert forall x :: White(p, x) ==> White(r, x);
    forall a, b | White(r, a) && White(r, b)
      ensures Reachable(r, a, b)
    {
      if a == q && b == q {
        ReachableRefl(r, q);
      } else {
        var other := if a == q then b else a;
        assert White(p, other);
        var n := WhiteNeighbour(p, q, other);
        assert White(r, n);
        AdjacentSymmetric(q, n);
        if a == q {
          PathsSurviveUncover(p, r, n, b);
          ReachablePrepend(r, q, n, b);
        } else if b == q {
          PathsSurviveUncover(p, r, a, n);
          ReachableRefl(r, q);
          ReachablePrepend(r, n, q, q);
          ReachableTrans(r, a, n, q);
        } else {
          PathsSurviveUncover(p, r, a, b);
        }
      }
    }
  }

  /** A covered cell of a grid obeying rule 2 that is not the only cell has a
      white in-grid neighbour. */
  lemma WhiteNeighbour(p: Puzzle, q: Pos, x: Pos) returns (n: Pos)
    requires Valid(p) && NoAdjacentCovered(p) && InBounds(p, q) && Covered(p, q)
    requires White(p, x) && x != q
    ensures Adjacent(q, n) && White(p, n)
  {
    assert p.size > 1;
    n := if q.row > 0 then Up(q) else Down(q);
    assert Adjacent(q, n) && InBounds(p, n);
  }

  /** Paths through the white cells of `p` remain paths once more cells are white. */
  lemma PathsSurviveUncover(p: Puzzle, r: Puzzle, a: Pos, b: Pos)
    requires Valid(p) && Valid(r)
    requires forall x :: White(p, x) ==> White(r, x)
    requires Reachable(p, a, b)
    ensures Reachable(r, a, b)
  {
    var path :| IsPath(p, path) && path[0] == a && path[|path| - 1] == b;
    assert IsPath(r, path);
  }

  /** A reset grid is legal: nothing is covered and every cell reaches every other. */
  lemma ResetIsLegal(p: Puzzle)
    requires Valid(p)
    ensures Legal(Reset(p))
  {
    ResetIdempotent(p);
    var r := Reset(p);
    assert forall q :: InBounds(r, q) ==> !Covered(r, q);
    AllWhiteConnected(r);
  }

  /** A freshly loaded square grid starts legal: every cell is white. */
  lemma FromValuesIsLegal(values: seq<seq<int>>)
    requires |values| > 0
    requires forall i :: 0 <= i < |values| ==> |values[i]| == |values|
    ensures Legal(FromValues(values))
  {
    AllWhiteConnected(FromValues(values));
  }

  /** The built-in puzzle starts legal. */
  lemma DefaultPuzzleIsLegal()
    ensures Legal(LoadDefaultPuzzle())
  {
    FromValuesIsLegal(DefaultValues);
  }
}
