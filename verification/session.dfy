/** A play session: the moves the user interface can issue against one puzzle
    (left click covers, right click uncovers, the reset button uncovers all),
    and the legality of every position reached from a fresh puzzle. The Load
    button starts a new puzzle instead of moving in the current one. */
module Session {
  import opened Cells
  import opened Grid
  import opened Connectivity
  import opened Moves

  datatype Move = CoverCell(row: int, col: int) | UncoverCell(row: int, col: int) | ResetAll

  /** The move names a cell of a grid of side `size` (a reset names none). */
  predicate InGrid(size: int, m: Move) {
    m.ResetAll? || (0 <= m.row < size && 0 <= m.col < size)
  }

  /** The grid after one move; the result code of a cover move only decides
      what the user is told and is dropped here. */
  function Apply(p: Puzzle, m: Move): (r: Puzzle)
    requires Valid(p) && InGrid(p.size, m)
    ensures Valid(r) && r.size == p.size
  {
    match m
    case CoverCell(i, j) => Eliminate(p, i, j).puzzle
    case UncoverCell(i, j) => Reactivate(p, i, j)
    case ResetAll => ResetIdempotent(p); Reset(p)
  }

  function Play(p: Puzzle, moves: seq<Move>): (r: Puzzle)
    requires Valid(p)
    requires forall k :: 0 <= k < |moves| ==> InGrid(p.size, moves[k])
    ensures Valid(r) && r.size == p.size
    decreases |moves|
  {
    if moves == [] then p
    else
      var next := Apply(p, moves[0]);
      assert forall k :: 0 <= k < |moves[1..]| ==> moves[1..][k] == moves[k + 1];
      Play(next, moves[1..])
  }

  /** Every move keeps a legal grid legal. */
  lemma ApplyPreservesLegal(p: Puzzle, m: Move)
    requires Legal(p) && InGrid(p.size, m)
    ensures Legal(Apply(p, m))
  {
    match m
    case CoverCell(i, j) => EliminatePreservesLegal(p, i, j);
    case UncoverCell(i, j) => ReactivatePreservesLegal(p, i, j);
    case ResetAll => ResetIsLegal(p);
  }

  /** No sequence of moves ever reaches two covered neighbours or a split
      white region from a legal start. */
  lemma {:induction false} PlayPreservesLegal(p: Puzzle, moves: seq<Move>)
    requires Legal(p)
    requires forall k :: 0 <= k < |moves| ==> InGrid(p.size, moves[k])
    ensures Legal(Play(p, moves))
    decreases |moves|
  {
    if moves != [] {
      var next := Apply(p, moves[0]);
      ApplyPreservesLegal(p, moves[0]);
      assert forall k :: 0 <= k < |moves[1..]| ==> moves[1..][k] == moves[k + 1];
      PlayPreservesLegal(next, moves[1..]);
    }
  }

  /** Every position reachable from the built-in puzzle is legal. */
  lemma DefaultSessionLegal(moves: seq<Move>)
    requires forall k :: 0 <= k < |moves| ==> InGrid(8, moves[k])
    ensures Legal(Play(LoadDefaultPuzzle(), moves))
  {
    DefaultPuzzleIsLegal();
    PlayPreservesLegal(LoadDefaultPuzzle(), moves);
  }

  /** With only the top-left corner covered, every white cell reaches the
      bottom-right corner by going down its column and then along the last row. */
  lemma {:induction false} ReachesFarCorner(p: Puzzle, a: Pos)
    requires Valid(p) && p.size >= 2
    requires forall q :: InBounds(p, q) ==> (Covered(p, q) <==> q == Pos(0, 0))
    requires White(p, a)
    ensures Reachable(p, a, Pos(p.size - 1, p.size - 1))
    decreases (p.size - 1 - a.row) + (p.size - 1 - a.col)
  {
    var corner := Pos(p.size - 1, p.size - 1);
    if a == corner {
      ReachableRefl(p, a);
    } else {
      var n := if a.row < p.size - 1 then Down(a) else Right(a);
      assert InBounds(p, n) && n != Pos(0, 0);
      ReachesFarCorner(p, n);
      ReachablePrepend(p, a, n, corner);
    }
  }

  lemma CornerCoveredConnected(p: Puzzle)
    requires Valid(p) && p.size >= 2
    requires forall q :: InBounds(p, q) ==> (Covered(p, q) <==> q == Pos(0, 0))
    ensures Connected(p)
  {
    var corner := Pos(p.size - 1, p.size - 1);
    forall a, b | White(p, a) && White(p, b)
      ensures Reachable(p, a, b)
    {
      ReachesFarCorner(p, a);
      ReachesFarCorner(p, b);
      ReachableSymmetric(p, b, corner);
      ReachableTrans(p, a, corner, b);
    }
  }

  /** On the built-in puzzle, covering (0, 0) is accepted, and covering (0, 1)
      straight after is rejected for adjacency and leaves (0, 1) white. */
  lemma DefaultCornerScenario()
    ensures Eliminate(LoadDefaultPuzzle(), 0, 0).code == Success
    ensures Eliminate(Eliminate(LoadDefaultPuzzle(), 0, 0).puzzle, 0, 1).code == AdjacencyViolation
    ensures !Covered(Eliminate(Eliminate(LoadDefaultPuzzle(), 0, 0).puzzle, 0, 1).puzzle, Pos(0, 1))
  {
    var p := LoadDefaultPuzzle();
    var t := CoverAt(p, 0, 0);
    assert !HasCoveredNeighbour(p, Pos(0, 0));
    CornerCoveredConnected(t);
    assert Eliminate(p, 0, 0).code == Success;
    assert Adjacent(Pos(0, 0), Pos(0, 1));
    EliminateThenNeighbourRejected(p, 0, 0, Pos(0, 1));
  }
}
