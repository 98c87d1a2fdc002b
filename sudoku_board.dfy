/**
 * `sudoku.csp.SudokuBoard`: the board view of the same tiles, with a list of
 * blank tiles for every one of the nine boxes, the set of unassigned tiles,
 * neighbour computation, the initial pruning pass and the final check.
 */
module Board {
  import opened Wrappers
  import opened Tiles
  import opened TileComparator
  import opened Grid
  import Solver

  /** Where `verify` throws an `IllegalStateException`. */
  datatype VerifyError =
    | UnfilledTile(row: int, col: int)  // a tile that is unassigned or holds 0
    | RowInconsistent(row: int)         // a repeated value in a row
    | ColInconsistent(col: int)         // a repeated value in a column
    | SecInconsistent(sec: int)         // a repeated value in a section list

  /**
   * `sec` has a list for each of the nine boxes (created up front), and list
   * k holds the tiles of ts that are in `blanks` and lie in box k.
   */
  ghost predicate BoxListsSoFar(sec: map<int, seq<Tile>>, ts: seq<Tile>, blanks: set<Tile>)
  {
    && (forall k :: k in sec <==> 0 <= k < SIZE)
    && (forall k :: k in sec ==> sec[k] == SectionList(ts, blanks, k))
  }

  /** Appending a blank tile to the list of its box extends the walk by one tile. */
  lemma BoxListsSoFarStep(sec: map<int, seq<Tile>>, ts: seq<Tile>, t: Tile, blanks: set<Tile>)
    requires BoxListsSoFar(sec, ts, blanks)
    requires 0 <= t.row < SIZE && 0 <= t.col < SIZE
    ensures t in blanks ==>
              var k := CalculateSectionNo(t.row, t.col);
              k in sec && BoxListsSoFar(sec[k := sec[k] + [t]], ts + [t], blanks)
    ensures t !in blanks ==> BoxListsSoFar(sec, ts + [t], blanks)
  {
    var k0 := CalculateSectionNo(t.row, t.col);
    var sec' := if t in blanks then sec[k0 := sec[k0] + [t]] else sec;
    forall k | k in sec'
      ensures sec'[k] == SectionList(ts + [t], blanks, k)
    {
      SectionListSnoc(ts, t, blanks, k);
    }
  }

  /** One list per box, each empty: the first loop of the constructor. */
  method EmptyBoxLists() returns (sec: map<int, seq<Tile>>)
    ensures BoxListsSoFar(sec, [], {})
    ensures forall k :: k in sec ==> sec[k] == []
  {
    sec := map[];
    for i := 0 to SIZE
      invariant forall k :: k in sec <==> 0 <= k < i
      invariant forall k :: k in sec ==> sec[k] == []
    {
      sec := sec[i := []];
    }
  }

  /**
   * `iterateBoard` with the board constructor's consumer: number each tile
   * with its box and add each blank tile to its box's list and to the
   * unassigned set.
   */
  method IterateBoard(cells: seq<Tile>, sec0: map<int, seq<Tile>>) returns (sec: map<int, seq<Tile>>, unassigned: set<Tile>)
    requires forall t :: t in cells ==> 0 <= t.row < SIZE && 0 <= t.col < SIZE
    requires forall k :: k in sec0 <==> 0 <= k < SIZE
    requires forall k :: k in sec0 ==> sec0[k] == []
    modifies cells`secNo
    ensures forall t :: t in cells ==> t.secNo == CalculateSectionNo(t.row, t.col)
    ensures BoxListsSoFar(sec, cells, Blanks(cells))
    ensures unassigned == Blanks(cells)
  {
    ghost var blanks := Blanks(cells);
    sec, unassigned := sec0, {};
    ghost var walked: seq<Tile> := [];
    for p := 0 to |cells|
      invariant blanks == Blanks(cells)
      invariant walked == cells[..p]
      invariant forall i :: 0 <= i < p ==> cells[i].secNo == CalculateSectionNo(cells[i].row, cells[i].col)
      invariant BoxListsSoFar(sec, walked, blanks)
      invariant forall t :: t in unassigned <==> t in walked && t in blanks
    {
      var tile := cells[p];
      assert tile in cells;
      PrefixSnoc(cells, p);
      assert tile in blanks <==> !tile.isAssigned;
      BoxListsSoFarStep(sec, walked, tile, blanks);
      walked := walked + [tile];
      var sectionNo := CalculateSectionNo(tile.row, tile.col);
      tile.SetSecNo(sectionNo);
      if !tile.isAssigned {
        var list := sec[sectionNo];
        sec := sec[sectionNo := list + [tile]];
        unassigned := unassigned + {tile};
      }
    }
    assert walked == cells;
    assert forall t :: t in cells ==> t.secNo == CalculateSectionNo(t.row, t.col) by {
      forall t | t in cells
        ensures t.secNo == CalculateSectionNo(t.row, t.col)
      {
        var i :| 0 <= i < |cells| && cells[i] == t;
      }
    }
  }

  /** Two tiles of ts hold the same value. */
  predicate Repeats(ts: seq<Tile>)
    reads ts`val
  {
    exists a, b :: 0 <= a < b < |ts| && ts[a].val == ts[b].val
  }

  /**
   * The duplicate scan shared by `verifyRow`, `verifyCol` and `verifySec`:
   * walk the tiles, remembering the values seen, and stop at the first value
   * seen before.
   */
  method SeenTwice(ts: seq<Tile>) returns (repeat: bool)
    ensures repeat <==> Repeats(ts)
  {
    var seen: set<int> := {};
    for i := 0 to |ts|
      invariant forall v :: v in seen <==> exists j :: 0 <= j < i && ts[j].val == v
      invariant forall a, b :: 0 <= a < b < i ==> ts[a].val != ts[b].val
    {
      if ts[i].val in seen {
        var j :| 0 <= j < i && ts[j].val == ts[i].val;
        assert 0 <= j < i < |ts| && ts[j].val == ts[i].val;
        return true;
      }
      seen := seen + {ts[i].val};
    }
    return false;
  }

  /**
   * One more clue pass on a tile: from "domain d0 minus V, counter n0 minus C"
   * and h calls of `removeDomin(_, v)` to "minus V and v, minus C + h".
   */
  lemma PassStep(d0: set<int>, n0: int, isAssigned: bool, dp: set<int>, np: int, d: set<int>, n: int,
                 V: set<int>, C: int, v: int, h: int)
    requires h == 0 || h == 1
    requires np == n0 - C && dp == (if isAssigned then d0 else d0 - V)
    requires Solver.PrunedTo(d, n, isAssigned, dp, np, v, h)
    ensures n == n0 - (C + h)
    ensures d == if isAssigned then d0 else d0 - (V + if h > 0 then {v} else {})
  {
    if h > 0 && !isAssigned {
      assert d0 - V - {v} == d0 - (V + {v});
    }
  }

  /** The domain of every tile of ts, as it is now. */
  ghost function DomainsOf(ts: seq<Tile>): (m: map<Tile, set<int>>)
    reads ts`domain
    ensures forall t :: t in ts ==> t in m && m[t] == t.domain
  {
    map t | t in ts :: t.domain
  }

  /** The unassigned-neighbour counter of every tile of ts, as it is now. */
  ghost function CountersOf(ts: seq<Tile>): (m: map<Tile, int>)
    reads ts`numUNeighbours
    ensures forall t :: t in ts ==> t in m && m[t] == t.numUNeighbours
  {
    map t | t in ts :: t.numUNeighbours
  }

  /** A subset is no larger than its superset. */
  lemma {:induction false} SubsetCard(a: set<Tile>, b: set<Tile>)
    requires a <= b
    ensures |a| <= |b|
    decreases |a|
  {
    if a != {} {
      var x :| x in a;
      SubsetCard(a - {x}, b - {x});
    }
  }

  class SudokuBoard {
    /** The shared `List<List<Tile>>`. */
    const grid: seq<seq<Tile>>
    /** The solver the pruning pass delegates to. */
    const solver: Solver.SudokuSolver
    /** Box number to its blank tiles; every box 0..8 has a list. */
    const section: map<int, seq<Tile>>
    /** The tiles still to be filled. */
    var unassigned: set<Tile>

    /** The board is 9x9, there is a list for each box, and each list holds distinct tiles of its own box. */
    ghost predicate Valid()
    {
      && WellFormed(grid)
      && (forall k :: k in section <==> 0 <= k < SIZE)
      && forall k :: k in section ==>
           && Distinct(section[k])
           && forall t :: t in section[k] ==> t in Cells(grid) && CalculateSectionNo(t.row, t.col) == k
    }

    /** Every tile carries the number of its box, as the constructor left it. */
    ghost predicate Numbered()
      requires WellFormed(grid)
      reads Cells(grid)`secNo
    {
      forall t :: t in Cells(grid) ==> t.secNo == CalculateSectionNo(t.row, t.col)
    }

    /**
     * Creates a list for each of the nine boxes, numbers every tile with its
     * box, and puts every blank tile in the list of its box and in the
     * unassigned set.
     */
    constructor (board: seq<seq<Tile>>, solver: Solver.SudokuSolver)
      requires WellFormed(board)
      modifies Cells(board)`secNo
      ensures grid == board && this.solver == solver && Valid() && Numbered()
      ensures forall k :: k in section ==> section[k] == SectionList(Cells(board), Blanks(Cells(board)), k)
      ensures unassigned == Blanks(Cells(board))
    {
      var cells := Cells(board);
      CellsDistinct(board);
      var sec0 := EmptyBoxLists();
      var sec, blank := IterateBoard(cells, sec0);
      forall k | k in sec
        ensures Distinct(sec[k])
      {
        SectionListDistinct(cells, Blanks(cells), k);
      }
      grid := board;
      this.solver := solver;
      section := sec;
      unassigned := blank;
    }

    /** `getTilesInSec`: the tiles of the list of box `secNo`, as a fresh set. */
    function GetTilesInSec(secNo: int): (r: set<Tile>)
      requires Valid() && 0 <= secNo < SIZE
      ensures forall t :: t in r ==> t in section[secNo]
      ensures forall i :: 0 <= i < |section[secNo]| ==> section[secNo][i] in r
    {
      set t | t in section[secNo]
    }

    /** `getTilesInRow`: the nine tiles of row `row`. */
    method GetTilesInRow(row: int) returns (r: set<Tile>)
      requires Valid() && 0 <= row < SIZE
      ensures forall t :: t in r ==> t in grid[row]
      ensures forall j :: 0 <= j < SIZE ==> grid[row][j] in r
      ensures |r| == SIZE
    {
      r := {};
      for i := 0 to SIZE
        invariant forall t :: t in r ==> t in grid[row][..i]
        invariant forall j :: 0 <= j < i ==> grid[row][j] in r
        invariant |r| == i
      {
        assert forall j :: 0 <= j < i ==> grid[row][..i][j].col != grid[row][i].col;
        assert grid[row][..i + 1] == grid[row][..i] + [grid[row][i]];
        r := r + {grid[row][i]};
      }
      assert grid[row][..SIZE] == grid[row];
    }

    /** `getTilesInCol`: the nine tiles of column `col`. */
    method GetTilesInCol(col: int) returns (r: set<Tile>)
      requires Valid() && 0 <= col < SIZE
      ensures forall t :: t in r ==> t in Column(grid, col)
      ensures forall i :: 0 <= i < SIZE ==> grid[i][col] in r
      ensures |r| == SIZE
    {
      ghost var column := Column(grid, col);
      r := {};
      for i := 0 to SIZE
        invariant forall t :: t in r ==> t in column[..i]
        invariant forall j :: 0 <= j < i ==> grid[j][col] in r
        invariant |r| == i
      {
        assert forall j :: 0 <= j < i ==> column[..i][j].row != grid[i][col].row;
        assert column[..i + 1] == column[..i] + [grid[i][col]];
        r := r + {grid[i][col]};
      }
      assert column[..SIZE] == column;
    }

    /**
     * x is a neighbour of c: another tile in c's row or column, or a tile of
     * the list of c's box (so only a tile blank at construction counts there).
     */
    ghost predicate Adjacent(x: Tile, c: Tile)
    {
      && x != c
      && (x.row == c.row || x.col == c.col
          || (CalculateSectionNo(c.row, c.col) in section && x in section[CalculateSectionNo(c.row, c.col)]))
    }

    /**
     * `getNeighbours`: the tiles of the list of the chosen tile's box, its row
     * and its column, without the chosen tile itself. A tile of the board that
     * carries its own box number has at most 20 of them.
     */
    method GetNeighbours(chosen: Tile) returns (r: set<Tile>)
      requires Valid()
      requires 0 <= chosen.row < SIZE && 0 <= chosen.col < SIZE && 0 <= chosen.secNo < SIZE
      ensures chosen !in r
      ensures forall t :: t in r ==>
                t in Cells(grid) && (t in grid[chosen.row] || t in Column(grid, chosen.col) || t in section[chosen.secNo])
      ensures forall j :: 0 <= j < SIZE && grid[chosen.row][j] != chosen ==> grid[chosen.row][j] in r
      ensures forall i :: 0 <= i < SIZE && grid[i][chosen.col] != chosen ==> grid[i][chosen.col] in r
      ensures forall i :: 0 <= i < |section[chosen.secNo]| && section[chosen.secNo][i] != chosen ==>
                section[chosen.secNo][i] in r
      ensures chosen == grid[chosen.row][chosen.col] && chosen.secNo == CalculateSectionNo(chosen.row, chosen.col) ==>
                && |r| <= 20
                && forall x :: x in Cells(grid) ==> (x in r <==> Adjacent(x, chosen))
    {
      var neighbours := GetTilesInSec(chosen.secNo);
      var rowTiles := GetTilesInRow(chosen.row);
      neighbours := neighbours + rowTiles;
      var colTiles := GetTilesInCol(chosen.col);
      neighbours := neighbours + colTiles;
      NeighboursInCells(chosen, rowTiles, colTiles, GetTilesInSec(chosen.secNo));
      neighbours := neighbours - {chosen};
      if chosen == grid[chosen.row][chosen.col] && chosen.secNo == CalculateSectionNo(chosen.row, chosen.col) {
        NeighbourCount(chosen, rowTiles, colTiles, GetTilesInSec(chosen.secNo));
        NeighboursAdjacent(chosen, rowTiles, colTiles, GetTilesInSec(chosen.secNo));
      }
      r := neighbours;
    }

    /** Rows, columns and box lists hold tiles of the board only. */
    lemma NeighboursInCells(c: Tile, rowTiles: set<Tile>, colTiles: set<Tile>, secTiles: set<Tile>)
      requires Valid() && 0 <= c.row < SIZE && 0 <= c.col < SIZE && 0 <= c.secNo < SIZE
      requires forall t :: t in rowTiles ==> t in grid[c.row]
      requires forall t :: t in colTiles ==> t in Column(grid, c.col)
      requires forall t :: t in secTiles ==> t in section[c.secNo]
      ensures forall t :: t in secTiles + rowTiles + colTiles ==> t in Cells(grid)
    {
      forall t | t in secTiles + rowTiles + colTiles
        ensures t in Cells(grid)
      {
        if t in rowTiles {
          var j :| 0 <= j < SIZE && grid[c.row][j] == t;
          CellsContain(grid, c.row, j);
        } else if t in colTiles {
          var i :| 0 <= i < SIZE && Column(grid, c.col)[i] == t;
          CellsContain(grid, i, c.col);
        }
      }
    }

    /** For a tile of the board, being in the built set is being adjacent. */
    lemma NeighboursAdjacent(c: Tile, rowTiles: set<Tile>, colTiles: set<Tile>, secTiles: set<Tile>)
      requires Valid() && 0 <= c.row < SIZE && 0 <= c.col < SIZE && c == grid[c.row][c.col]
      requires forall t :: t in rowTiles ==> t in grid[c.row]
      requires forall j :: 0 <= j < SIZE ==> grid[c.row][j] in rowTiles
      requires forall t :: t in colTiles ==> t in Column(grid, c.col)
      requires forall i :: 0 <= i < SIZE ==> grid[i][c.col] in colTiles
      requires forall t :: t in secTiles ==> t in section[CalculateSectionNo(c.row, c.col)]
      requires forall i :: 0 <= i < |section[CalculateSectionNo(c.row, c.col)]| ==> section[CalculateSectionNo(c.row, c.col)][i] in secTiles
      ensures forall x :: x in Cells(grid) ==> (x in (secTiles + rowTiles + colTiles) - {c} <==> Adjacent(x, c))
    {
      forall x | x in Cells(grid)
        ensures x in (secTiles + rowTiles + colTiles) - {c} <==> Adjacent(x, c)
      {
        if x in rowTiles {
          var j :| 0 <= j < SIZE && grid[c.row][j] == x;
        }
        if x in colTiles {
          var i :| 0 <= i < SIZE && Column(grid, c.col)[i] == x;
        }
        if x.row == c.row {
          assert x == grid[c.row][x.col];
        }
        if x.col == c.col {
          assert x == grid[x.row][c.col];
        }
      }
    }

    /** The four cells of c's box that share neither c's row nor c's column. */
    ghost function OtherCorners(c: Tile): (r: set<Tile>)
      requires WellFormed(grid) && 0 <= c.row < SIZE && 0 <= c.col < SIZE
      ensures |r| <= 4
    {
      var b, d := (c.row / 3) * 3, (c.col / 3) * 3;
      var r1 := if c.row == b then b + 1 else b;
      var r2 := if c.row == b + 2 then b + 1 else b + 2;
      var c1 := if c.col == d then d + 1 else d;
      var c2 := if c.col == d + 2 then d + 1 else d + 2;
      {grid[r1][c1], grid[r1][c2], grid[r2][c1], grid[r2][c2]}
    }

    /** A tile of c's box outside c's row and column is one of those four. */
    lemma InOtherCorners(t: Tile, c: Tile)
      requires WellFormed(grid) && 0 <= c.row < SIZE && 0 <= c.col < SIZE
      requires t in Cells(grid) && CalculateSectionNo(t.row, t.col) == CalculateSectionNo(c.row, c.col)
      requires t.row != c.row && t.col != c.col
      ensures t in OtherCorners(c)
    {
      SameSectionIff(t.row, t.col, c.row, c.col);
      var b, d := (c.row / 3) * 3, (c.col / 3) * 3;
      assert b <= t.row < b + 3 && b <= c.row < b + 3;
      assert d <= t.col < d + 3 && d <= c.col < d + 3;
      var r1 := if c.row == b then b + 1 else b;
      var r2 := if c.row == b + 2 then b + 1 else b + 2;
      var c1 := if c.col == d then d + 1 else d;
      var c2 := if c.col == d + 2 then d + 1 else d + 2;
      assert t.row == r1 || t.row == r2;
      assert t.col == c1 || t.col == c2;
      assert t == grid[t.row][t.col];
    }

    /**
     * Of the tiles of a tile's row, column and box list, at most 20 are not
     * the tile itself: 8 more in the row, 8 more in the column, and at most
     * the 4 cells of the box that share neither.
     */
    lemma NeighbourCount(c: Tile, rowTiles: set<Tile>, colTiles: set<Tile>, secTiles: set<Tile>)
      requires Valid() && 0 <= c.row < SIZE && 0 <= c.col < SIZE && c == grid[c.row][c.col]
      requires (forall t :: t in rowTiles ==> t in grid[c.row]) && |rowTiles| == SIZE
      requires forall j :: 0 <= j < SIZE ==> grid[c.row][j] in rowTiles
      requires (forall t :: t in colTiles ==> t in Column(grid, c.col)) && |colTiles| == SIZE
      requires forall i :: 0 <= i < SIZE ==> grid[i][c.col] in colTiles
      requires forall t :: t in secTiles ==> t in section[CalculateSectionNo(c.row, c.col)]
      ensures |(secTiles + rowTiles + colTiles) - {c}| <= 20
    {
      var rest := secTiles - rowTiles - colTiles;
      forall t | t in rest
        ensures t in OtherCorners(c)
      {
        assert t in Cells(grid);
        assert t == grid[t.row][t.col];
        InOtherCorners(t, c);
      }
      SubsetCard(rest, OtherCorners(c));
      var bound := (rowTiles - {c}) + (colTiles - {c}) + rest;
      assert (secTiles + rowTiles + colTiles) - {c} <= bound;
      SubsetCard((secTiles + rowTiles + colTiles) - {c}, bound);
    }

    /**
     * `getMostContrainedVariable`: the unassigned tiles of least domain size,
     * in no particular order. With no unassigned tile the minimum does not
     * exist and `getAsInt` throws; that is `None` here.
     */
    function GetMostConstrainedVariable(): (r: Option<set<Tile>>)
      reads this, unassigned`domain
      ensures r.None? <==> unassigned == {}
      ensures r.Some? ==>
                && r.value != {}
                && r.value <= unassigned
                && forall t :: t in unassigned ==> (t in r.value <==> IsHead(t, unassigned))
    {
      if unassigned == {} then None
      else
        var min := MinDomainSize(unassigned);
        HeadExists(unassigned);
        var tied := set t | t in unassigned && |t.domain| == min;
        assert tied != {} by {
          var h :| h in unassigned && IsHead(h, unassigned);
          assert h in tied;
        }
        Some(tied)
    }

    /** `addUnassigned`: put the tile in the unassigned set. */
    method AddUnassigned(tile: Tile)
      modifies this`unassigned
      ensures unassigned == old(unassigned) + {tile}
    {
      unassigned := unassigned + {tile};
    }

    /** `removeUnassigned`: take the tile out of the unassigned set. */
    method RemoveUnassigned(tile: Tile)
      modifies this`unassigned
      ensures unassigned == old(unassigned) - {tile}
    {
      unassigned := unassigned - {tile};
    }

    /** The tile is assigned and holds a value (not 0). */
    predicate Filled(t: Tile)
      reads t`isAssigned, t`val
    {
      t.isAssigned && t.val != 0
    }

    /** Every tile of the board is filled. */
    ghost predicate Complete()
      requires WellFormed(grid)
      reads Cells(grid)`isAssigned, Cells(grid)`val
    {
      CellsCover(grid);
      forall i, j :: 0 <= i < SIZE && 0 <= j < SIZE ==> Filled(grid[i][j])
    }

    /** No row holds a value twice. */
    ghost predicate RowsConsistent()
      requires WellFormed(grid)
      reads Cells(grid)`val
    {
      CellsCover(grid);
      forall i :: 0 <= i < SIZE ==> !Repeats(grid[i])
    }

    /** No column holds a value twice. */
    ghost predicate ColsConsistent()
      requires WellFormed(grid)
      reads Cells(grid)`val
    {
      CellsCover(grid);
      forall i :: 0 <= i < SIZE ==> !Repeats(Column(grid, i))
    }

    /** No section list holds a value twice. */
    ghost predicate SecsConsistent()
      requires Valid()
      reads Cells(grid)`val
    {
      forall k :: 0 <= k < SIZE ==>
        assert forall i :: 0 <= i < |section[k]| ==> section[k][i] in Cells(grid);
        !Repeats(section[k])
    }

    /**
     * `verify`: every tile must be filled (checked in board order), then no
     * row, no column and no section list may repeat a value (checked in that
     * order, one line after the other). The first violation is reported; the
     * board is left untouched.
     */
    method Verify() returns (r: Outcome<VerifyError>)
      requires Valid()
      ensures r.Pass? <==> Complete() && RowsConsistent() && ColsConsistent() && SecsConsistent()
      ensures r.Fail? && r.error.UnfilledTile? ==>
                && 0 <= r.error.row < SIZE && 0 <= r.error.col < SIZE
                && !Filled(grid[r.error.row][r.error.col])
                && forall i, j :: 0 <= i < SIZE && 0 <= j < SIZE && (i < r.error.row || (i == r.error.row && j < r.error.col)) ==>
                     Filled(grid[i][j])
      ensures r.Fail? && !r.error.UnfilledTile? ==> Complete()
      ensures r.Fail? && r.error.RowInconsistent? ==>
                && 0 <= r.error.row < SIZE && Repeats(grid[r.error.row])
                && forall i :: 0 <= i < r.error.row ==> !Repeats(grid[i])
      ensures r.Fail? && r.error.ColInconsistent? ==>
                && RowsConsistent()
                && 0 <= r.error.col < SIZE && Repeats(Column(grid, r.error.col))
                && forall i :: 0 <= i < r.error.col ==> !Repeats(Column(grid, i))
      ensures r.Fail? && r.error.SecInconsistent? ==>
                && RowsConsistent() && ColsConsistent()
                && 0 <= r.error.sec < SIZE && Repeats(section[r.error.sec])
                && forall k :: 0 <= k < r.error.sec ==> !Repeats(section[k])
    {
      for i := 0 to SIZE
        invariant forall i', j :: 0 <= i' < i && 0 <= j < SIZE ==> Filled(grid[i'][j])
      {
        for j := 0 to SIZE
          invariant forall i', j' :: 0 <= i' < SIZE && 0 <= j' < SIZE && (i' < i || (i' == i && j' < j)) ==> Filled(grid[i'][j'])
        {
          var tile := grid[i][j];
          if !tile.isAssigned || tile.val == 0 {
            return Fail(UnfilledTile(i, j));
          }
        }
      }
      r := VerifyRow();
      if r.Fail? {
        return;
      }
      r := VerifyCol();
      if r.Fail? {
        return;
      }
      r := VerifySec();
    }

    /** `verifySec`: the first section list that repeats a value, if any. */
    method VerifySec() returns (r: Outcome<VerifyError>)
      requires Valid()
      ensures r.Pass? <==> SecsConsistent()
      ensures r.Fail? ==>
                && r.error.SecInconsistent? && 0 <= r.error.sec < SIZE && Repeats(section[r.error.sec])
                && forall k :: 0 <= k < r.error.sec ==> !Repeats(section[k])
    {
      for i := 0 to SIZE
        invariant forall k :: 0 <= k < i ==> !Repeats(section[k])
      {
        var repeat := SeenTwice(section[i]);
        if repeat {
          return Fail(SecInconsistent(i));
        }
      }
      return Pass;
    }

    /** `verifyRow`: the first row that repeats a value, if any. */
    method VerifyRow() returns (r: Outcome<VerifyError>)
      requires Valid()
      ensures r.Pass? <==> RowsConsistent()
      ensures r.Fail? ==>
                && r.error.RowInconsistent? && 0 <= r.error.row < SIZE && Repeats(grid[r.error.row])
                && forall i :: 0 <= i < r.error.row ==> !Repeats(grid[i])
    {
      for i := 0 to SIZE
        invariant forall i' :: 0 <= i' < i ==> !Repeats(grid[i'])
      {
        var repeat := SeenTwice(grid[i]);
        if repeat {
          return Fail(RowInconsistent(i));
        }
      }
      return Pass;
    }

    /** `verifyCol`: the first column that repeats a value, if any. */
    method VerifyCol() returns (r: Outcome<VerifyError>)
      requires Valid()
      ensures r.Pass? <==> ColsConsistent()
      ensures r.Fail? ==>
                && r.error.ColInconsistent? && 0 <= r.error.col < SIZE && Repeats(Column(grid, r.error.col))
                && forall i :: 0 <= i < r.error.col ==> !Repeats(Column(grid, i))
    {
      for i := 0 to SIZE
        invariant forall i' :: 0 <= i' < i ==> !Repeats(Column(grid, i'))
      {
        var repeat := SeenTwice(Column(grid, i));
        if repeat {
          return Fail(ColInconsistent(i));
        }
      }
      return Pass;
    }

    /**
     * The values of the clues among ts that are neighbours of x: what the
     * pruning pass over ts takes out of x's domain.
     */
    ghost function ClueValues(ts: seq<Tile>, x: Tile): set<int>
      reads ts`isAssigned, ts`val
    {
      if ts == [] then {}
      else
        var c := ts[|ts| - 1];
        ClueValues(ts[..|ts| - 1], x) + if c.isAssigned && Adjacent(x, c) then {c.val} else {}
    }

    /** The number of clues among ts that are neighbours of x: how often the pass reaches x. */
    ghost function ClueCount(ts: seq<Tile>, x: Tile): int
      reads ts`isAssigned
    {
      if ts == [] then 0
      else
        var c := ts[|ts| - 1];
        ClueCount(ts[..|ts| - 1], x) + if c.isAssigned && Adjacent(x, c) then 1 else 0
    }

    /** A value is taken out of x's domain exactly when some clue among ts next to x holds it. */
    lemma {:induction false} ClueValuesMeaning(ts: seq<Tile>, x: Tile, v: int)
      ensures v in ClueValues(ts, x) <==>
                exists i :: 0 <= i < |ts| && ts[i].isAssigned && Adjacent(x, ts[i]) && ts[i].val == v
    {
      if ts != [] {
        var init := ts[..|ts| - 1];
        ClueValuesMeaning(init, x, v);
        if v in ClueValues(init, x) {
          var i :| 0 <= i < |init| && init[i].isAssigned && Adjacent(x, init[i]) && init[i].val == v;
          assert ts[i] == init[i];
        }
        if exists i :: 0 <= i < |ts| && ts[i].isAssigned && Adjacent(x, ts[i]) && ts[i].val == v {
          var i :| 0 <= i < |ts| && ts[i].isAssigned && Adjacent(x, ts[i]) && ts[i].val == v;
          if i < |init| {
            assert init[i] == ts[i];
          }
        }
      }
    }

    /** The pass reaches x at least once exactly when some clue among ts is next to x. */
    lemma {:induction false} ClueCountMeaning(ts: seq<Tile>, x: Tile)
      ensures ClueCount(ts, x) >= 0
      ensures ClueCount(ts, x) > 0 <==> exists i :: 0 <= i < |ts| && ts[i].isAssigned && Adjacent(x, ts[i])
    {
      if ts != [] {
        var init := ts[..|ts| - 1];
        ClueCountMeaning(init, x);
        if ClueCount(init, x) > 0 {
          var i :| 0 <= i < |init| && init[i].isAssigned && Adjacent(x, init[i]);
          assert ts[i] == init[i];
        }
        if exists i :: 0 <= i < |ts| && ts[i].isAssigned && Adjacent(x, ts[i]) {
          var i :| 0 <= i < |ts| && ts[i].isAssigned && Adjacent(x, ts[i]);
          if i < |init| {
            assert init[i] == ts[i];
          }
        }
      }
    }

    /**
     * Applies `removeDomin(_, v)` of the solver to every tile of `ns`. The
     * call `solver.forwardCheck(neighbours, val)` in `init` names a method the
     * solver does not have; this is the behaviour it is taken to stand for.
     */
    method PruneAll(ns: set<Tile>, v: int)
      modifies solver`mrv, ns`domain, ns`numUNeighbours
      ensures forall x :: x in ns ==> Solver.PrunedBy(x, old(x.domain), old(x.numUNeighbours), v, 1)
      ensures old(solver.mrv) <= solver.mrv
      ensures forall x :: x in solver.mrv && x !in old(solver.mrv) ==> x in ns && !x.isAssigned
      ensures forall x :: x in ns && !x.isAssigned ==> x in solver.mrv
    {
      ghost var d0 := map t | t in ns :: t.domain;
      ghost var n0 := map t | t in ns :: t.numUNeighbours;
      ghost var m0 := solver.mrv;
      var rest := ns;
      ghost var done: set<Tile> := {};
      while rest != {}
        invariant rest <= ns
        invariant forall x :: x in done <==> x in ns && x !in rest
        invariant PrunedSet(ns, done, v, d0, n0, m0)
        decreases |rest|
      {
        var tile :| tile in rest;
        PruneStep(tile, v, ns, done, d0, n0, m0);
        done := done + {tile};
        rest := rest - {tile};
      }
    }

    /**
     * The state after `removeDomin(_, v)` has been applied once to each tile of
     * `done`, a part of `ns`, measured against the domains d0, counters n0 and
     * queue m0 from before.
     */
    ghost predicate PrunedSet(ns: set<Tile>, done: set<Tile>, v: int, d0: map<Tile, set<int>>, n0: map<Tile, int>, m0: set<Tile>)
      reads ns`domain, ns`numUNeighbours, ns`isAssigned, done`isAssigned, solver`mrv
    {
      && (forall x :: x in ns ==>
            x in d0 && x in n0 && Solver.PrunedTo(x.domain, x.numUNeighbours, x.isAssigned, d0[x], n0[x], v, if x in done then 1 else 0))
      && m0 <= solver.mrv
      && (forall x :: x in solver.mrv && x !in m0 ==> x in done && !x.isAssigned)
      && (forall x :: x in done && !x.isAssigned ==> x in solver.mrv)
    }

    /** One step of the loop in `PruneAll`: pruning one more tile extends `done` by it. */
    method PruneStep(tile: Tile, v: int, ghost ns: set<Tile>, ghost done: set<Tile>,
                     ghost d0: map<Tile, set<int>>, ghost n0: map<Tile, int>, ghost m0: set<Tile>)
      requires tile in ns && tile !in done
      requires PrunedSet(ns, done, v, d0, n0, m0)
      modifies solver`mrv, tile`domain, tile`numUNeighbours
      ensures PrunedSet(ns, done + {tile}, v, d0, n0, m0)
    {
      solver.RemoveDomain(tile, v);
    }

    /** Walking one more tile adds its value and one reach to x when it is a clue next to x. */
    lemma ClueSnoc(ts: seq<Tile>, c: Tile, x: Tile)
      ensures ClueValues(ts + [c], x) == ClueValues(ts, x) + if c.isAssigned && Adjacent(x, c) then {c.val} else {}
      ensures ClueCount(ts + [c], x) == ClueCount(ts, x) + if c.isAssigned && Adjacent(x, c) then 1 else 0
    {
      assert (ts + [c])[..|ts|] == ts;
    }

    /**
     * The consumer `init` hands to `iterateBoard`: when the tile is a clue,
     * prune its value from all its neighbours.
     */
    method PruneClue(tile: Tile)
      requires Valid() && tile in Cells(grid) && tile.secNo == CalculateSectionNo(tile.row, tile.col)
      modifies solver`mrv, Cells(grid)`domain, Cells(grid)`numUNeighbours
      ensures forall x :: x in Cells(grid) ==>
                Solver.PrunedBy(x, old(x.domain), old(x.numUNeighbours), tile.val,
                                if tile.isAssigned && Adjacent(x, tile) then 1 else 0)
      ensures old(solver.mrv) <= solver.mrv
      ensures forall x :: x in solver.mrv && x !in old(solver.mrv) ==>
                x in Cells(grid) && !x.isAssigned && tile.isAssigned && Adjacent(x, tile)
      ensures forall x :: x in Cells(grid) && !x.isAssigned && tile.isAssigned && Adjacent(x, tile) ==> x in solver.mrv
    {
      if tile.isAssigned {
        var neighbours := GetNeighbours(tile);
        PruneAll(neighbours, tile.val);
      }
    }

    /**
     * The state after the clue pass has walked over ts, measured against the
     * domains d0, counters n0 and queue m0 from before the pass.
     */
    ghost predicate PassedOver(ts: seq<Tile>, d0: map<Tile, set<int>>, n0: map<Tile, int>, m0: set<Tile>)
      requires WellFormed(grid)
      reads Cells(grid)`domain, Cells(grid)`numUNeighbours, Cells(grid)`isAssigned, ts`isAssigned, ts`val, solver`mrv
    {
      && (forall x :: x in Cells(grid) ==>
            && x in d0 && x in n0
            && x.numUNeighbours == n0[x] - ClueCount(ts, x)
            && x.domain == if x.isAssigned then d0[x] else d0[x] - ClueValues(ts, x))
      && m0 <= solver.mrv
      && (forall x :: x in solver.mrv && x !in m0 ==> x in Cells(grid) && !x.isAssigned && ClueCount(ts, x) > 0)
      && (forall x :: x in Cells(grid) && !x.isAssigned && ClueCount(ts, x) > 0 ==> x in solver.mrv)
    }

    /** Before the walk nothing has been pruned yet. */
    lemma PassedOverStart(d0: map<Tile, set<int>>, n0: map<Tile, int>, m0: set<Tile>)
      requires WellFormed(grid)
      requires forall x :: x in Cells(grid) ==> x in d0 && x in n0 && d0[x] == x.domain && n0[x] == x.numUNeighbours
      requires m0 == solver.mrv
      ensures PassedOver([], d0, n0, m0)
    {
    }

    /** One step of `init`'s walk: the consumer on the next tile extends the pass by that tile. */
    method InitStep(ghost ts: seq<Tile>, tile: Tile, ghost d0: map<Tile, set<int>>, ghost n0: map<Tile, int>, ghost m0: set<Tile>)
      requires Valid() && tile in Cells(grid) && tile.secNo == CalculateSectionNo(tile.row, tile.col)
      requires PassedOver(ts, d0, n0, m0)
      modifies solver`mrv, Cells(grid)`domain, Cells(grid)`numUNeighbours
      ensures PassedOver(ts + [tile], d0, n0, m0)
    {
      ghost var cells := Cells(grid);
      PruneClue(tile);
      forall x | x in cells
        ensures x.numUNeighbours == n0[x] - ClueCount(ts + [tile], x)
        ensures x.domain == if x.isAssigned then d0[x] else d0[x] - ClueValues(ts + [tile], x)
        ensures ClueCount(ts + [tile], x) > 0 <==> ClueCount(ts, x) > 0 || (tile.isAssigned && Adjacent(x, tile))
      {
        ClueSnoc(ts, tile, x);
        ClueCountMeaning(ts, x);
        PassStep(d0[x], n0[x], x.isAssigned,
                 old(x.domain), old(x.numUNeighbours), x.domain, x.numUNeighbours,
                 ClueValues(ts, x), ClueCount(ts, x), tile.val,
                 if tile.isAssigned && Adjacent(x, tile) then 1 else 0);
      }
    }

    /**
     * `init`: for every clue, in board order, prune its value from all its
     * neighbours. Afterwards every blank tile has lost exactly the values of
     * the clues next to it, and every tile's counter has dropped by the number
     * of clues next to it.
     */
    method Init()
      requires Valid() && Numbered()
      modifies solver`mrv, Cells(grid)`domain, Cells(grid)`numUNeighbours
      ensures forall x :: x in Cells(grid) ==>
                && x.numUNeighbours == old(x.numUNeighbours) - ClueCount(Cells(grid), x)
                && x.domain == if x.isAssigned then old(x.domain) else old(x.domain) - ClueValues(Cells(grid), x)
      ensures old(solver.mrv) <= solver.mrv
      ensures forall x :: x in solver.mrv && x !in old(solver.mrv) ==>
                x in Cells(grid) && !x.isAssigned && ClueCount(Cells(grid), x) > 0
      ensures forall x :: x in Cells(grid) && !x.isAssigned && ClueCount(Cells(grid), x) > 0 ==> x in solver.mrv
    {
      ghost var d0 := DomainsOf(Cells(grid));
      ghost var n0 := CountersOf(Cells(grid));
      ghost var m0 := solver.mrv;
      PassedOverStart(d0, n0, m0);
      ClueWalk(d0, n0, m0);
    }

    /** The walk of `init` over the board, in board order, handing every tile to the consumer. */
    method ClueWalk(ghost d0: map<Tile, set<int>>, ghost n0: map<Tile, int>, ghost m0: set<Tile>)
      requires Valid() && Numbered()
      requires PassedOver([], d0, n0, m0)
      modifies solver`mrv, Cells(grid)`domain, Cells(grid)`numUNeighbours
      ensures PassedOver(Cells(grid), d0, n0, m0)
    {
      var cells := Cells(grid);
      ghost var walked: seq<Tile> := [];
      for p := 0 to |cells|
        invariant walked == cells[..p]
        invariant PassedOver(walked, d0, n0, m0)
      {
        PrefixSnoc(cells, p);
        InitStep(walked, cells[p], d0, n0, m0);
        walked := walked + [cells[p]];
      }
      assert walked == cells;
    }
  }

  /** Adding a tile that was not there and removing it again leaves the unassigned set as it was. */
  method AddThenRemoveUnassigned(b: SudokuBoard, tile: Tile)
    requires tile !in b.unassigned
    modifies b`unassigned
    ensures b.unassigned == old(b.unassigned)
  {
    b.AddUnassigned(tile);
    b.RemoveUnassigned(tile);
  }
}
