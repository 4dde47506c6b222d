/** Win detection: no row and no column holds two white cells with the same
    number. Covered cells are ignored. */
module WinCheck {
  import opened Cells
  import opened Grid

  /** The white cells of row `i` carry pairwise distinct numbers. */
  ghost predicate RowDistinct(p: Puzzle, i: int)
    requires Valid(p) && 0 <= i < p.size
  {
    forall a, b :: 0 <= a < b < p.size && White(p, Pos(i, a)) && White(p, Pos(i, b)) ==>
      ValueAt(p, Pos(i, a)) != ValueAt(p, Pos(i, b))
  }

  /** The white cells of column `j` carry pairwise distinct numbers. */
  ghost predicate ColumnDistinct(p: Puzzle, j: int)
    requires Valid(p) && 0 <= j < p.size
  {
    forall a, b :: 0 <= a < b < p.size && White(p, Pos(a, j)) && White(p, Pos(b, j)) ==>
      ValueAt(p, Pos(a, j)) != ValueAt(p, Pos(b, j))
  }

  /** The win condition. */
  ghost predicate Solved(p: Puzzle)
    requires Valid(p)
  {
    (forall i :: 0 <= i < p.size ==> RowDistinct(p, i)) &&
    (forall j :: 0 <= j < p.size ==> ColumnDistinct(p, j))
  }

  /** The numbers of the white cells of row `i` in columns before `j`. */
  ghost function RowSeen(p: Puzzle, i: int, j: int): set<int>
    requires Valid(p) && 0 <= i < p.size && 0 <= j <= p.size
  {
    set c | 0 <= c < j && White(p, Pos(i, c)) :: ValueAt(p, Pos(i, c))
  }

  /** The numbers of the white cells of column `j` in rows before `i`. */
  ghost function ColumnSeen(p: Puzzle, j: int, i: int): set<int>
    requires Valid(p) && 0 <= j < p.size && 0 <= i <= p.size
  {
    set r | 0 <= r < i && White(p, Pos(r, j)) :: ValueAt(p, Pos(r, j))
  }

  lemma RowSeenStep(p: Puzzle, i: int, j: int)
    requires Valid(p) && 0 <= i < p.size && 0 <= j < p.size
    ensures RowSeen(p, i, j + 1) ==
              RowSeen(p, i, j) + (if White(p, Pos(i, j)) then {ValueAt(p, Pos(i, j))} else {})
  {
  }

  lemma ColumnSeenStep(p: Puzzle, j: int, i: int)
    requires Valid(p) && 0 <= j < p.size && 0 <= i < p.size
    ensures ColumnSeen(p, j, i + 1) ==
              ColumnSeen(p, j, i) + (if White(p, Pos(i, j)) then {ValueAt(p, Pos(i, j))} else {})
  {
  }

  /** Scans the rows and then the columns with a set of the numbers seen so
      far in the current line, stopping at the first repeated number. */
  method IsGameOver(p: Puzzle) returns (over: bool)
    requires Valid(p)
    ensures over <==> Solved(p)
  {
    var n := p.size;
    var i := 0;
    while i < n
      invariant 0 <= i <= n
      invariant forall i' :: 0 <= i' < i ==> RowDistinct(p, i')
    {
      var seen: set<int> := {};
      var j := 0;
      while j < n
        invariant 0 <= j <= n
        invariant seen == RowSeen(p, i, j)
        invariant forall a, b :: 0 <= a < b < j && White(p, Pos(i, a)) && White(p, Pos(i, b)) ==>
                    ValueAt(p, Pos(i, a)) != ValueAt(p, Pos(i, b))
      {
        var cell := Get(p, i, j);
        RowSeenStep(p, i, j);
        if !IsCovered(cell) {
          var v := GetValue(cell);
          if v in seen {
            var c :| 0 <= c < j && White(p, Pos(i, c)) && ValueAt(p, Pos(i, c)) == v;
            assert White(p, Pos(i, j)) && ValueAt(p, Pos(i, j)) == v;
            assert !RowDistinct(p, i);
            return false;
          }
          seen := seen + {v};
        }
        j := j + 1;
      }
      i := i + 1;
    }
    var j := 0;
    while j < n
      invariant 0 <= j <= n
      invariant forall i' :: 0 <= i' < n ==> RowDistinct(p, i')
      invariant forall j' :: 0 <= j' < j ==> ColumnDistinct(p, j')
    {
      var seen: set<int> := {};
      var r := 0;
      while r < n
        invariant 0 <= r <= n
        invariant seen == ColumnSeen(p, j, r)
        invariant forall a, b :: 0 <= a < b < r && White(p, Pos(a, j)) && White(p, Pos(b, j)) ==>
                    ValueAt(p, Pos(a, j)) != ValueAt(p, Pos(b, j))
      {
        var cell := Get(p, r, j);
        ColumnSeenStep(p, j, r);
        if !IsCovered(cell) {
          var v := GetValue(cell);
          if v in seen {
            var c :| 0 <= c < r && White(p, Pos(c, j)) && ValueAt(p, Pos(c, j)) == v;
            assert White(p, Pos(r, j)) && ValueAt(p, Pos(r, j)) == v;
            assert !ColumnDistinct(p, j);
            return false;
          }
          seen := seen + {v};
        }
        r := r + 1;
      }
      j := j + 1;
    }
    return true;
  }

  /** After a reset every cell is white, so winning means that no row and no
      column repeats a number at all. */
  lemma SolvedAfterReset(p: Puzzle)
    requires Valid(p)
    ensures Valid(Reset(p))
    ensures Solved(Reset(p)) <==>
              (forall i, a, b :: 0 <= i < p.size && 0 <= a < b < p.size ==>
                 ValueAt(p, Pos(i, a)) != ValueAt(p, Pos(i, b)) && ValueAt(p, Pos(a, i)) != ValueAt(p, Pos(b, i)))
  {
    ResetIdempotent(p);
    var r := Reset(p);
    assert forall q :: InBounds(p, q) ==> White(r, q) && ValueAt(r, q) == ValueAt(p, q);
    if Solved(r) {
      forall i, a, b | 0 <= i < p.size && 0 <= a < b < p.size
        ensures ValueAt(p, Pos(i, a)) != ValueAt(p, Pos(i, b))
        ensures ValueAt(p, Pos(a, i)) != ValueAt(p, Pos(b, i))
      {
        assert RowDistinct(r, i) && ColumnDistinct(r, i);
        assert White(r, Pos(i, a)) && White(r, Pos(i, b));
        assert White(r, Pos(a, i)) && White(r, Pos(b, i));
      }
    }
  }
}
