/** Rule 3 of Hitori: the white cells form one orthogonally connected region.
    Reachability is defined by explicit paths; the depth-first flood fill of
    the Java engine is modelled as a recursive function and proved to compute
    exactly the cells reachable from its seed. */
module Connectivity {
  import opened Cells
  import opened Grid

  function Up(q: Pos): Pos { Pos(q.row - 1, q.col) }
  function Down(q: Pos): Pos { Pos(q.row + 1, q.col) }
  function Left(q: Pos): Pos { Pos(q.row, q.col - 1) }
  function Right(q: Pos): Pos { Pos(q.row, q.col + 1) }

  /** `b` is one of the four orthogonal neighbours of `a`. */
  predicate Adjacent(a: Pos, b: Pos) {
    b == Up(a) || b == Down(a) || b == Left(a) || b == Right(a)
  }

  /** A non-empty walk through white cells, each step to an orthogonal neighbour. */
  ghost predicate IsPath(p: Puzzle, path: seq<Pos>)
    requires Valid(p)
  {
    |path| > 0 &&
    (forall k :: 0 <= k < |path| ==> White(p, path[k])) &&
    (forall k :: 0 < k < |path| ==> Adjacent(path[k - 1], path[k]))
  }

  ghost predicate Reachable(p: Puzzle, a: Pos, b: Pos)
    requires Valid(p)
  {
    exists path :: IsPath(p, path) && path[0] == a && path[|path| - 1] == b
  }

  /** Every white cell can reach every other white cell (vacuous when none is white). */
  ghost predicate Connected(p: Puzzle)
    requires Valid(p)
  {
    forall a, b :: White(p, a) && White(p, b) ==> Reachable(p, a, b)
  }

  lemma AdjacentSymmetric(a: Pos, b: Pos)
    requires Adjacent(a, b)
    ensures Adjacent(b, a)
  {
  }

  lemma ReachableRefl(p: Puzzle, a: Pos)
    requires Valid(p) && White(p, a)
    ensures Reachable(p, a, a)
  {
    assert IsPath(p, [a]);
  }

  /** One white step in front of a path is still a path. */
  lemma ReachablePrepend(p: Puzzle, a: Pos, b: Pos, c: Pos)
    requires Valid(p) && White(p, a) && Adjacent(a, b) && Reachable(p, b, c)
    ensures Reachable(p, a, c)
  {
    var path :| IsPath(p, path) && path[0] == b && path[|path| - 1] == c;
    var path' := [a] + path;
    assert IsPath(p, path');
  }

  lemma {:induction false} ReachableSymmetric(p: Puzzle, a: Pos, b: Pos)
    requires Valid(p) && Reachable(p, a, b)
    ensures Reachable(p, b, a)
  {
    var path :| IsPath(p, path) && path[0] == a && path[|path| - 1] == b;
    var rev := seq(|path|, k requires 0 <= k < |path| => path[|path| - 1 - k]);
    forall k | 0 < k < |rev|
      ensures Adjacent(rev[k - 1], rev[k])
    {
      AdjacentSymmetric(path[|path| - 1 - k], path[|path| - k]);
    }
    assert IsPath(p, rev);
  }

  lemma ReachableTrans(p: Puzzle, a: Pos, b: Pos, c: Pos)
    requires Valid(p) && Reachable(p, a, b) && Reachable(p, b, c)
    ensures Reachable(p, a, c)
  {
    var p1 :| IsPath(p, p1) && p1[0] == a && p1[|p1| - 1] == b;
    var p2 :| IsPath(p, p2) && p2[0] == b && p2[|p2| - 1] == c;
    var path := p1 + p2[1..];
    forall k | 0 < k < |path|
      ensures Adjacent(path[k - 1], path[k])
    {
      if k == |p1| {
        assert path[k - 1] == p2[0] && path[k] == p2[1];
      }
    }
    assert IsPath(p, path);
  }

  /** A set that holds `a` and every white neighbour of each of its members
      holds every cell reachable from `a`. */
  lemma {:induction false} ClosedSetHoldsReachable(p: Puzzle, s: set<Pos>, a: Pos, b: Pos)
    requires Valid(p) && a in s
    requires forall x, y :: x in s && White(p, y) && Adjacent(x, y) ==> y in s
    requires Reachable(p, a, b)
    ensures b in s
  {
    var path :| IsPath(p, path) && path[0] == a && path[|path| - 1] == b;
    var k := 0;
    while k < |path| - 1
      invariant 0 <= k < |path|
      invariant path[k] in s
    {
      assert Adjacent(path[k], path[k + 1]) && White(p, path[k + 1]);
      k := k + 1;
    }
  }

  lemma SubsetDifferenceCard<T>(a: set<T>, v: set<T>, w: set<T>)
    requires v <= w
    ensures |a - w| <= |a - v|
  {
    assert a - w <= a - v;
    SubsetCard(a - w, a - v);
  }

  lemma {:induction false} SubsetCard<T>(x: set<T>, y: set<T>)
    requires x <= y
    ensures |x| <= |y|
    decreases |y|
  {
    if x != {} {
      var e :| e in x;
      SubsetCard(x - {e}, y - {e});
    }
  }

  /** Marking an unmarked in-grid position leaves fewer positions unmarked. */
  lemma MarkShrinksUnvisited(p: Puzzle, visited: set<Pos>, q: Pos)
    requires InBounds(p, q) && q !in visited
    ensures |AllPositions(p) - (visited + {q})| < |AllPositions(p) - visited|
  {
    var a := AllPositions(p);
    assert a - (visited + {q}) == (a - visited) - {q};
    assert q in a - visited;
  }

  /** The recursive depth-first search of the Java engine: from `q`, marks
      every white cell reachable through cells not yet in `visited`, probing
      up, down, left and right in that order. An out-of-grid, already visited
      or covered `q` returns `visited` unchanged. */
  function Dfs(p: Puzzle, visited: set<Pos>, q: Pos): (r: set<Pos>)
    requires Valid(p)
    ensures visited <= r
    ensures forall x :: x in r && x !in visited ==> White(p, x)
    ensures White(p, q) ==> q in r
    ensures forall x, y :: x in r && x !in visited && White(p, y) && Adjacent(x, y) ==> y in r
    decreases |AllPositions(p) - visited|
  {
    if !IsValidPosition(p, q.row, q.col) then visited
    else if q in visited || IsCovered(Get(p, q.row, q.col)) then visited
    else
      var v0 := visited + {q};
      MarkShrinksUnvisited(p, visited, q);
      var v1 := Dfs(p, v0, Up(q));
      SubsetDifferenceCard(AllPositions(p), v0, v1);
      var v2 := Dfs(p, v1, Down(q));
      SubsetDifferenceCard(AllPositions(p), v0, v2);
      var v3 := Dfs(p, v2, Left(q));
      SubsetDifferenceCard(AllPositions(p), v0, v3);
      Dfs(p, v3, Right(q))
  }

  /** Every cell newly marked by `Dfs` is reachable from its start. */
  lemma {:induction false} DfsSound(p: Puzzle, visited: set<Pos>, q: Pos)
    requires Valid(p)
    ensures forall x :: x in Dfs(p, visited, q) && x !in visited ==> Reachable(p, q, x)
    decreases |AllPositions(p) - visited|
  {
    if !IsValidPosition(p, q.row, q.col) || q in visited || IsCovered(Get(p, q.row, q.col)) {
    } else {
      var v0 := visited + {q};
      MarkShrinksUnvisited(p, visited, q);
      var v1 := Dfs(p, v0, Up(q));
      SubsetDifferenceCard(AllPositions(p), v0, v1);
      var v2 := Dfs(p, v1, Down(q));
      SubsetDifferenceCard(AllPositions(p), v0, v2);
      var v3 := Dfs(p, v2, Left(q));
      SubsetDifferenceCard(AllPositions(p), v0, v3);
      var v4 := Dfs(p, v3, Right(q));
      assert v4 == Dfs(p, visited, q);
      DfsSound(p, v0, Up(q));
      DfsSound(p, v1, Down(q));
      DfsSound(p, v2, Left(q));
      DfsSound(p, v3, Right(q));
      forall x | x in v4 && x !in visited
        ensures Reachable(p, q, x)
      {
        if x == q {
          ReachableRefl(p, q);
        } else if x in v1 {
          ReachablePrepend(p, q, Up(q), x);
        } else if x in v2 {
          ReachablePrepend(p, q, Down(q), x);
        } else if x in v3 {
          ReachablePrepend(p, q, Left(q), x);
        } else {
          ReachablePrepend(p, q, Right(q), x);
        }
      }
    }
  }

  /** From a white start, the search marks exactly the cells reachable from it
      along white cells: the reachability closure of the start. */
  lemma DfsComputesReachable(p: Puzzle, s: Pos, x: Pos)
    requires Valid(p) && White(p, s)
    ensures x in Dfs(p, {}, s) <==> Reachable(p, s, x)
  {
    DfsSound(p, {}, s);
    if Reachable(p, s, x) {
      ClosedSetHoldsReachable(p, Dfs(p, {}, s), s, x);
    }
  }

  /** Row-major order on positions. */
  predicate Before(a: Pos, b: Pos) {
    a.row < b.row || (a.row == b.row && a.col < b.col)
  }

  datatype Option<T> = None | Some(value: T)

  /** The first white cell of row `i` at column `j` or later. */
  function FirstWhiteInRow(p: Puzzle, i: int, j: int): (r: Option<Pos>)
    requires Valid(p) && 0 <= i < p.size && 0 <= j <= p.size
    ensures r.None? ==> forall c :: j <= c < p.size ==> !White(p, Pos(i, c))
    ensures r.Some? ==> r.value.row == i && j <= r.value.col && White(p, r.value)
    ensures r.Some? ==> forall c :: j <= c < r.value.col ==> !White(p, Pos(i, c))
    decreases p.size - j
  {
    if j == p.size then None
    else if !IsCovered(Get(p, i, j)) then Some(Pos(i, j))
    else FirstWhiteInRow(p, i, j + 1)
  }

  /** The first white cell, in row-major order, of rows `i` onwards. */
  function FirstWhiteFrom(p: Puzzle, i: int): (r: Option<Pos>)
    requires Valid(p) && 0 <= i <= p.size
    ensures r.None? ==> forall q :: White(p, q) ==> q.row < i
    ensures r.Some? ==> White(p, r.value) && i <= r.value.row
    ensures r.Some? ==> forall q :: White(p, q) && i <= q.row ==> !Before(q, r.value)
    decreases p.size - i
  {
    if i == p.size then None
    else
      match FirstWhiteInRow(p, i, 0)
      case Some(s) => Some(s)
      case None => FirstWhiteFrom(p, i + 1)
  }

  /** The seed of the connectivity check: the first white cell in row-major order. */
  function FirstWhite(p: Puzzle): (r: Option<Pos>)
    requires Valid(p)
    ensures r.None? <==> forall q :: !White(p, q)
    ensures r.Some? ==> White(p, r.value) && forall q :: White(p, q) ==> !Before(q, r.value)
  {
    FirstWhiteFrom(p, 0)
  }

  /** The cells marked by the flood fill of the connectivity check. */
  function Flood(p: Puzzle): set<Pos>
    requires Valid(p)
  {
    match FirstWhite(p)
    case None => {}
    case Some(s) => Dfs(p, {}, s)
  }

  /** The final scan: no white cell was left unmarked. */
  predicate AllWhiteMarked(p: Puzzle, marked: set<Pos>)
    requires Valid(p)
  {
    forall i, j | 0 <= i < p.size && 0 <= j < p.size :: IsCovered(Get(p, i, j)) || Pos(i, j) in marked
  }

  lemma FloodCorrect(p: Puzzle)
    requires Valid(p)
    ensures AllWhiteMarked(p, Flood(p)) <==> Connected(p)
  {
    match FirstWhite(p)
    case None =>
    case Some(s) =>
      var r := Dfs(p, {}, s);
      if AllWhiteMarked(p, r) {
        forall a, b | White(p, a) && White(p, b)
          ensures Reachable(p, a, b)
        {
          assert a in r && b in r;
          DfsComputesReachable(p, s, a);
          DfsComputesReachable(p, s, b);
          ReachableSymmetric(p, s, a);
          ReachableTrans(p, a, s, b);
        }
      }
      if Connected(p) {
        forall i, j | 0 <= i < p.size && 0 <= j < p.size && !IsCovered(Get(p, i, j))
          ensures Pos(i, j) in r
        {
          assert White(p, Pos(i, j));
          DfsComputesReachable(p, s, Pos(i, j));
        }
      }
  }

  /** Rule 3 as the Java engine checks it: flood from the first white cell,
      then look for an unmarked white cell. It holds exactly when the white
      region is connected. */
  function CheckRule3(p: Puzzle): (ok: bool)
    requires Valid(p)
    ensures ok <==> Connected(p)
  {
    FloodCorrect(p);
    AllWhiteMarked(p, Flood(p))
  }

  /** With no white cell left the check passes: there is no seed and nothing to miss. */
  lemma AllCoveredPassesRule3(p: Puzzle)
    requires Valid(p)
    requires forall q :: InBounds(p, q) ==> Covered(p, q)
    ensures CheckRule3(p)
  {
  }

  /** On a grid with no covered cell, any two cells are joined by a path. */
  lemma {:induction false} AllWhiteReachable(p: Puzzle, a: Pos, b: Pos)
    requires Valid(p) && InBounds(p, a) && InBounds(p, b)
    requires forall q :: InBounds(p, q) ==> !Covered(p, q)
    ensures Reachable(p, a, b)
    decreases (if a.row < b.row then b.row - a.row else a.row - b.row) +
              (if a.col < b.col then b.col - a.col else a.col - b.col)
  {
    if a == b {
      ReachableRefl(p, a);
    } else {
      var n := if a.row < b.row then Down(a)
               else if a.row > b.row then Up(a)
               else if a.col < b.col then Right(a)
               else Left(a);
      AllWhiteReachable(p, n, b);
      AdjacentSymmetric(a, n);
      ReachablePrepend(p, a, n, b);
    }
  }

  lemma AllWhiteConnected(p: Puzzle)
    requires Valid(p)
    requires forall q :: InBounds(p, q) ==> !Covered(p, q)
    ensures Connected(p)
  {
    forall a, b | White(p, a) && White(p, b)
      ensures Reachable(p, a, b)
    {
      AllWhiteReachable(p, a, b);
    }
  }
}
