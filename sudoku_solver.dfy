/**
 * The constraint model of `sudoku.csp.SudokuSolver`: box numbering, the
 * per-box lists of blank tiles, the domain-size queue `mrv`, forward checking
 * and the two variable-selection heuristics.
 */
module Solver {
  import opened Wrappers
  import opened Tiles
  import opened TileComparator
  import opened Grid

  /** Where the Java code throws a `NullPointerException`. */
  datatype SolverError =
    | NullSectionList(secNo: int)  // `section.get(secNo)` found no list for a box without blanks
    | NullPoll                     // `mrv.poll()` on an empty queue
    | NullPeek                     // `mrv.peek()` after the tie loop emptied the queue

  /** The degree tie-break order: fewer `numUNeighbours`, then smaller row, then smaller column. */
  predicate Precedes(a: Tile, b: Tile)
    reads a`numUNeighbours, b`numUNeighbours
  {
    || a.numUNeighbours < b.numUNeighbours
    || (a.numUNeighbours == b.numUNeighbours && (a.row < b.row || (a.row == b.row && a.col <= b.col)))
  }

  /** Precedes is transitive. */
  lemma PrecedesTransitive(a: Tile, b: Tile, c: Tile)
    requires Precedes(a, b) && Precedes(b, c)
    ensures Precedes(a, c)
  {
  }

  /** Precedes is total: of two tiles one comes first. */
  lemma PrecedesTotal(a: Tile, b: Tile)
    ensures Precedes(a, b) || Precedes(b, a)
  {
  }

  /** Two tiles that precede each other tie on the counter and sit on the same cell. */
  lemma PrecedesAntisymmetric(a: Tile, b: Tile)
    requires Precedes(a, b) && Precedes(b, a)
    ensures a.numUNeighbours == b.numUNeighbours && a.row == b.row && a.col == b.col
  {
  }

  /** A tile that precedes b also precedes everything b precedes. */
  lemma PrecedesTransitiveAll(a: Tile, b: Tile, cs: seq<Tile>)
    requires Precedes(a, b)
    requires forall j :: 0 <= j < |cs| ==> Precedes(b, cs[j])
    ensures forall j :: 0 <= j < |cs| ==> Precedes(a, cs[j])
  {
    forall j | 0 <= j < |cs|
      ensures Precedes(a, cs[j])
    {
      PrecedesTransitive(a, b, cs[j]);
    }
  }

  /** Appending one more polled tile of the tied size keeps every polled tile out of the queue and tied. */
  lemma TiedSnoc(rs: seq<Tile>, t: Tile, q0: set<Tile>, q: set<Tile>, size: int)
    requires forall i :: 0 <= i < |rs| ==> rs[i] in q0 && rs[i] !in q && |rs[i].domain| == size
    requires t in q0 && t !in q && |t.domain| == size
    ensures forall i :: 0 <= i < |rs + [t]| ==>
              (rs + [t])[i] in q0 && (rs + [t])[i] !in q && |(rs + [t])[i].domain| == size
  {
  }

  /**
   * Domain d and counter n are what h calls of `removeDomin(_, v)` leave of
   * domain d0 and counter n0: the counter drops by h, the domain of an
   * unassigned tile loses v as soon as h > 0, an assigned tile's domain stays.
   */
  predicate PrunedTo(d: set<int>, n: int, isAssigned: bool, d0: set<int>, n0: int, v: int, h: int)
  {
    && n == n0 - h
    && d == if h > 0 && !isAssigned then d0 - {v} else d0
  }

  /** Tile x now holds what h calls of `removeDomin(x, v)` leave of domain d0 and counter n0. */
  ghost predicate PrunedBy(x: Tile, d0: set<int>, n0: int, v: int, h: int)
    reads x`domain, x`numUNeighbours, x`isAssigned
  {
    PrunedTo(x.domain, x.numUNeighbours, x.isAssigned, d0, n0, v, h)
  }

  /** Pruning only shrinks a domain, takes v out of a reached blank tile and leaves an unreached tile alone. */
  lemma PrunedToEffect(d: set<int>, n: int, isAssigned: bool, d0: set<int>, n0: int, v: int, h: int)
    requires PrunedTo(d, n, isAssigned, d0, n0, v, h)
    ensures d <= d0
    ensures h > 0 && !isAssigned ==> v !in d && d0 - d <= {v}
    ensures h == 0 ==> d == d0 && n == n0
  {
  }

  /** Pruning in two rounds with the same value is pruning once with the hits added up. */
  lemma PrunedToCompose(d2: set<int>, n2: int, d1: set<int>, n1: int, isAssigned: bool,
                        d0: set<int>, n0: int, v: int, h1: int, h2: int)
    requires h1 >= 0 && h2 >= 0
    requires PrunedTo(d1, n1, isAssigned, d0, n0, v, h1)
    requires PrunedTo(d2, n2, isAssigned, d1, n1, v, h2)
    ensures PrunedTo(d2, n2, isAssigned, d0, n0, v, h1 + h2)
  {
    if h1 > 0 && h2 > 0 && !isAssigned {
      assert d0 - {v} - {v} == d0 - {v};
    }
  }

  /**
   * The consumer the constructor hands to `iterateBoard`: number the tile with
   * its box and, when it is blank, append it to its box's list (creating the
   * list on the first blank) and queue it.
   */
  method NumberTile(tile: Tile, sec: map<int, seq<Tile>>, queue: set<Tile>)
    returns (sec': map<int, seq<Tile>>, queue': set<Tile>)
    modifies tile`secNo
    ensures tile.secNo == CalculateSectionNo(tile.row, tile.col)
    ensures var k := CalculateSectionNo(tile.row, tile.col);
            sec' == if tile.isAssigned then sec else sec[k := (if k in sec then sec[k] else []) + [tile]]
    ensures queue' == if tile.isAssigned then queue else queue + {tile}
  {
    var sectionNo := CalculateSectionNo(tile.row, tile.col);
    tile.SetSecNo(sectionNo);
    sec', queue' := sec, queue;
    if !tile.isAssigned {
      var list := if sectionNo in sec then sec[sectionNo] else [];
      sec' := sec[sectionNo := list + [tile]];
      queue' := queue + {tile};
    }
  }

  /**
   * `iterateBoard` with the constructor's consumer: visits the tiles in board
   * order and returns the box lists and the queue built on the way.
   */
  method IterateBoard(cells: seq<Tile>) returns (sec: map<int, seq<Tile>>, queue: set<Tile>)
    requires Distinct(cells)
    modifies cells`secNo
    ensures forall t :: t in cells ==> t.secNo == CalculateSectionNo(t.row, t.col)
    ensures ListsSoFar(sec, cells, Blanks(cells))
    ensures queue == Blanks(cells)
  {
    ghost var blanks := Blanks(cells);
    sec, queue := map[], {};
    ghost var walked: seq<Tile> := [];
    for p := 0 to |cells|
      invariant blanks == Blanks(cells)
      invariant walked == cells[..p]
      invariant forall i :: 0 <= i < p ==> cells[i].secNo == CalculateSectionNo(cells[i].row, cells[i].col)
      invariant ListsSoFar(sec, walked, blanks)
      invariant forall t :: t in queue <==> t in walked && t in blanks
    {
      var tile := cells[p];
      PrefixSnoc(cells, p);
      assert tile in blanks <==> !tile.isAssigned;
      ListsSoFarStep(sec, walked, tile, blanks);
      sec, queue := NumberTile(tile, sec, queue);
      walked := walked + [tile];
    }
    assert walked == cells;
    assert forall t :: t in cells ==> t.secNo == CalculateSectionNo(t.row, t.col) by {
      forall t | t in cells
        ensures t.secNo == CalculateSectionNo(t.row, t.col)
      {
        var i :| 0 <= i < |cells| && cells[i] == t;
      }
    }
  }

  class SudokuSolver {
    /** The shared `List<List<Tile>>`; its shape never changes. */
    const grid: seq<seq<Tile>>
    /** Box number to its blank tiles; filled by the constructor only. */
    const section: map<int, seq<Tile>>
    /** The priority queue, as the set of tiles it holds. */
    var mrv: set<Tile>

    /** The board is 9x9 and each section list holds distinct tiles of its own box. */
    ghost predicate Valid()
    {
      && WellFormed(grid)
      && forall k :: k in section ==>
           && Distinct(section[k])
           && forall t :: t in section[k] ==> t in Cells(grid) && CalculateSectionNo(t.row, t.col) == k
    }

    /**
     * Numbers every tile with its box, lists the blank tiles of each box in
     * board order (a box without blanks gets no list at all, as `getOrDefault`
     * only creates one on the first blank) and queues every blank tile.
     */
    constructor (board: seq<seq<Tile>>)
      requires WellFormed(board)
      modifies Cells(board)`secNo
      ensures grid == board && Valid()
      ensures forall t :: t in Cells(board) ==> t.secNo == CalculateSectionNo(t.row, t.col)
      ensures ListsSoFar(section, Cells(board), Blanks(Cells(board)))
      ensures mrv == Blanks(Cells(board))
    {
      var cells := Cells(board);
      CellsDistinct(board);
      var sec, queue := IterateBoard(cells);
      ghost var blanks := Blanks(cells);
      ListsSoFarSound(sec, cells, blanks);
      grid := board;
      section := sec;
      mrv := queue;
    }

    /** Tile x is in row `row` outside box `sec`: `applyConstraintsRow` reaches it. */
    ghost predicate InRowPart(x: Tile, row: int, sec: int)
      requires WellFormed(grid) && 0 <= row < SIZE
      reads x`secNo
    {
      x in grid[row] && x.secNo != sec
    }

    /** Tile x is in column `col` outside box `sec`: `applyConstraintsCol` reaches it. */
    ghost predicate InColPart(x: Tile, col: int, sec: int)
      requires WellFormed(grid) && 0 <= col < SIZE
      reads x`secNo
    {
      x in Column(grid, col) && x.secNo != sec
    }

    /** Tile x is in the section list of box `sec`: `applyConstraintsSec` reaches it. */
    ghost predicate InSecPart(x: Tile, sec: int)
    {
      sec in section && x in section[sec]
    }

    /**
     * `removeDomin`: take the tile out of the queue, drop the value from its
     * domain and queue it again, so the queue is re-sorted; an assigned tile is
     * left alone. Either way the tile has one unassigned neighbour fewer.
     */
    method RemoveDomain(tile: Tile, v: int)
      modifies this`mrv, tile`domain, tile`numUNeighbours
      ensures tile.numUNeighbours == old(tile.numUNeighbours) - 1
      ensures !tile.isAssigned ==> tile.domain == old(tile.domain) - {v} && mrv == old(mrv) + {tile}
      ensures !tile.isAssigned && tile in old(mrv) ==> mrv == old(mrv)
      ensures tile.isAssigned ==> tile.domain == old(tile.domain) && mrv == old(mrv)
    {
      if !tile.isAssigned {
        mrv := mrv - {tile};
        tile.RemoveDomain(v);
        mrv := mrv + {tile};
      }
      tile.DecrementNumUNeighbours();
    }

    /** `applyConstraintsRow`: prune v from the tiles of row `row` that lie outside box `sec`. */
    method ApplyConstraintsRow(row: int, v: int, sec: int)
      requires Valid() && 0 <= row < SIZE
      modifies this`mrv, Cells(grid)`domain, Cells(grid)`numUNeighbours
      ensures forall x :: x in Cells(grid) ==>
                PrunedBy(x, old(x.domain), old(x.numUNeighbours), v, if InRowPart(x, row, sec) then 1 else 0)
      ensures old(mrv) <= mrv
      ensures forall x :: x in mrv && x !in old(mrv) ==> x in Cells(grid) && InRowPart(x, row, sec) && !x.isAssigned
      ensures forall x :: x in Cells(grid) && InRowPart(x, row, sec) && !x.isAssigned ==> x in mrv
    {
      ghost var cells := Cells(grid);
      for i := 0 to SIZE
        invariant forall x :: x in cells ==>
                    PrunedBy(x, old(x.domain), old(x.numUNeighbours), v,
                             if x in grid[row][..i] && x.secNo != sec then 1 else 0)
        invariant old(mrv) <= mrv
        invariant forall x :: x in mrv && x !in old(mrv) ==> x in cells && x in grid[row][..i] && x.secNo != sec && !x.isAssigned
        invariant forall x :: x in cells && x in grid[row][..i] && x.secNo != sec && !x.isAssigned ==> x in mrv
      {
        var tile := grid[row][i];
        CellsContain(grid, row, i);
        assert tile in cells && tile !in grid[row][..i];
        PrefixSnoc(grid[row], i);
        if tile.secNo != sec {
          RemoveDomain(tile, v);
        }
      }
      assert grid[row][..SIZE] == grid[row];
    }

    /** `applyConstraintsCol`: prune v from the tiles of column `col` that lie outside box `sec`. */
    method ApplyConstraintsCol(col: int, v: int, sec: int)
      requires Valid() && 0 <= col < SIZE
      modifies this`mrv, Cells(grid)`domain, Cells(grid)`numUNeighbours
      ensures forall x :: x in Cells(grid) ==>
                PrunedBy(x, old(x.domain), old(x.numUNeighbours), v, if InColPart(x, col, sec) then 1 else 0)
      ensures old(mrv) <= mrv
      ensures forall x :: x in mrv && x !in old(mrv) ==> x in Cells(grid) && InColPart(x, col, sec) && !x.isAssigned
      ensures forall x :: x in Cells(grid) && InColPart(x, col, sec) && !x.isAssigned ==> x in mrv
    {
      ghost var cells := Cells(grid);
      ghost var column := Column(grid, col);
      for i := 0 to SIZE
        invariant forall x :: x in cells ==>
                    PrunedBy(x, old(x.domain), old(x.numUNeighbours), v,
                             if x in column[..i] && x.secNo != sec then 1 else 0)
        invariant old(mrv) <= mrv
        invariant forall x :: x in mrv && x !in old(mrv) ==> x in cells && x in column[..i] && x.secNo != sec && !x.isAssigned
        invariant forall x :: x in cells && x in column[..i] && x.secNo != sec && !x.isAssigned ==> x in mrv
      {
        var tile := grid[i][col];
        CellsContain(grid, i, col);
        assert tile in cells && tile !in column[..i];
        PrefixSnoc(column, i);
        if tile.secNo != sec {
          RemoveDomain(tile, v);
        }
      }
      assert column[..SIZE] == column;
    }

    /**
     * `applyConstraintsSec`: prune v from every tile of the section list of box
     * `sec`. Fails, having changed nothing, when the box has no list.
     */
    method ApplyConstraintsSec(sec: int, v: int) returns (r: Outcome<SolverError>)
      requires Valid()
      modifies this`mrv, Cells(grid)`domain, Cells(grid)`numUNeighbours
      ensures r == (if sec in section then Pass else Fail(NullSectionList(sec)))
      ensures forall x :: x in Cells(grid) ==>
                PrunedBy(x, old(x.domain), old(x.numUNeighbours), v, if InSecPart(x, sec) then 1 else 0)
      ensures old(mrv) <= mrv
      ensures forall x :: x in mrv && x !in old(mrv) ==> x in Cells(grid) && InSecPart(x, sec) && !x.isAssigned
      ensures forall x :: x in Cells(grid) && InSecPart(x, sec) && !x.isAssigned ==> x in mrv
    {
      if sec !in section {
        return Fail(NullSectionList(sec));
      }
      var list := section[sec];
      ghost var cells := Cells(grid);
      for i := 0 to |list|
        invariant forall x :: x in cells ==>
                    PrunedBy(x, old(x.domain), old(x.numUNeighbours), v, if x in list[..i] then 1 else 0)
        invariant old(mrv) <= mrv
        invariant forall x :: x in mrv && x !in old(mrv) ==> x in cells && x in list[..i] && !x.isAssigned
        invariant forall x :: x in cells && x in list[..i] && !x.isAssigned ==> x in mrv
      {
        var tile := list[i];
        assert tile in cells && tile !in list[..i];
        PrefixSnoc(list, i);
        RemoveDomain(tile, v);
      }
      assert list[..|list|] == list;
      return Pass;
    }

    /** How many of the three passes of `forwardCheck(row, col, sec, _)` reach tile x. */
    ghost function Hits(x: Tile, row: int, col: int, sec: int): int
      requires WellFormed(grid) && 0 <= row < SIZE && 0 <= col < SIZE
      reads x`secNo
    {
      (if InRowPart(x, row, sec) then 1 else 0)
      + (if InColPart(x, col, sec) then 1 else 0)
      + (if InSecPart(x, sec) then 1 else 0)
    }

    /**
     * `forwardCheck`: prune v from the row, then the column, then the section
     * list. When box `sec` has no list the row and column passes have already
     * happened and the call fails.
     */
    method ForwardCheck(row: int, col: int, sec: int, v: int) returns (r: Outcome<SolverError>)
      requires Valid() && 0 <= row < SIZE && 0 <= col < SIZE
      modifies this`mrv, Cells(grid)`domain, Cells(grid)`numUNeighbours
      ensures r == (if sec in section then Pass else Fail(NullSectionList(sec)))
      ensures forall x :: x in Cells(grid) ==>
                PrunedBy(x, old(x.domain), old(x.numUNeighbours), v, Hits(x, row, col, sec))
      ensures forall x :: x in Cells(grid) ==> x.domain <= old(x.domain)
      ensures forall x :: x in Cells(grid) && Hits(x, row, col, sec) > 0 && !x.isAssigned ==> v !in x.domain
      ensures forall x :: x in Cells(grid) && Hits(x, row, col, sec) == 0 ==> x.domain == old(x.domain)
      ensures old(mrv) <= mrv
      ensures forall x :: x in mrv && x !in old(mrv) ==> x in Cells(grid) && Hits(x, row, col, sec) > 0 && !x.isAssigned
      ensures forall x :: x in Cells(grid) && Hits(x, row, col, sec) > 0 && !x.isAssigned ==> x in mrv
    {
      ghost var cells := Cells(grid);
      ApplyConstraintsRow(row, v, sec);
      label AfterRow:
      ApplyConstraintsCol(col, v, sec);
      label AfterCol:
      r := ApplyConstraintsSec(sec, v);
      forall x | x in cells
        ensures PrunedBy(x, old(x.domain), old(x.numUNeighbours), v, Hits(x, row, col, sec))
      {
        var h1 := if InRowPart(x, row, sec) then 1 else 0;
        var h2 := if InColPart(x, col, sec) then 1 else 0;
        var h3 := if InSecPart(x, sec) then 1 else 0;
        PrunedToCompose(old@AfterCol(x.domain), old@AfterCol(x.numUNeighbours),
                        old@AfterRow(x.domain), old@AfterRow(x.numUNeighbours), x.isAssigned,
                        old(x.domain), old(x.numUNeighbours), v, h1, h2);
        PrunedToCompose(x.domain, x.numUNeighbours,
                        old@AfterCol(x.domain), old@AfterCol(x.numUNeighbours), x.isAssigned,
                        old(x.domain), old(x.numUNeighbours), v, h1 + h2, h3);
      }
      forall x | x in cells
        ensures x.domain <= old(x.domain)
        ensures Hits(x, row, col, sec) > 0 && !x.isAssigned ==> v !in x.domain
        ensures Hits(x, row, col, sec) == 0 ==> x.domain == old(x.domain)
      {
        PrunedToEffect(x.domain, x.numUNeighbours, x.isAssigned, old(x.domain), old(x.numUNeighbours), v,
                       Hits(x, row, col, sec));
      }
    }

    /**
     * `findMostRestrained`: poll a tile of least domain size from the queue,
     * then keep polling while the head of the queue ties with it. Polling an
     * empty queue, or peeking at one the tie loop has emptied, fails; so the
     * call fails exactly when the queue is empty or all its tiles tie. On
     * success the tied tiles leave the queue and everything left is larger.
     */
    method FindMostRestrained() returns (r: Result<seq<Tile>, SolverError>)
      modifies this`mrv
      ensures old(mrv) == {} ==> r == Err(NullPoll)
      ensures old(mrv) != {} ==>
                (r.Err? <==> forall t :: t in old(mrv) ==> |t.domain| == MinDomainSize(old(mrv)))
      ensures r.Err? ==> mrv == {} && (old(mrv) != {} ==> r == Err(NullPeek))
      ensures r.Ok? ==>
                && old(mrv) != {}
                && |r.value| > 0
                && Distinct(r.value)
                && (forall t :: t in r.value ==> t in old(mrv) && |t.domain| == MinDomainSize(old(mrv)))
                && (forall t :: t in old(mrv) && |t.domain| == MinDomainSize(old(mrv)) ==> t in r.value)
                && mrv <= old(mrv)
                && (forall t :: t in old(mrv) ==> (t in mrv <==> t !in r.value))
                && (forall t :: t in mrv ==> |t.domain| > MinDomainSize(old(mrv)))
    {
      if mrv == {} {
        return Err(NullPoll);
      }
      ghost var q0 := mrv;
      var tile := Poll();
      var domainSize := |tile.domain|;
      var retList := [tile];
      var peek: Tile;
      while true
        invariant mrv <= q0
        invariant |retList| > 0 && Distinct(retList)
        invariant forall i :: 0 <= i < |retList| ==> retList[i] in q0 && retList[i] !in mrv && |retList[i].domain| == domainSize
        invariant forall t :: t in q0 ==> t in mrv || t in retList
        decreases |mrv|
      {
        if mrv == {} {
          return Err(NullPeek);
        }
        peek := Peek();
        if |peek.domain| != domainSize {
          break;
        }
        var polled := Poll();
        assert polled !in retList;
        DistinctSnoc(retList, polled);
        TiedSnoc(retList, polled, q0, mrv, domainSize);
        retList := retList + [polled];
      }
      assert peek in q0 && |peek.domain| > domainSize;
      return Ok(retList);
    }

    /** `mrv.poll()` on a nonempty queue: removes and returns a tile of least domain size. */
    method Poll() returns (t: Tile)
      requires mrv != {}
      modifies this`mrv
      ensures IsHead(t, old(mrv)) && mrv == old(mrv) - {t}
    {
      HeadExists(mrv);
      t :| IsHead(t, mrv);
      mrv := mrv - {t};
    }

    /** `mrv.peek()` on a nonempty queue: a tile of least domain size, left in place. */
    method Peek() returns (t: Tile)
      requires mrv != {}
      ensures IsHead(t, mrv)
    {
      HeadExists(mrv);
      t :| IsHead(t, mrv);
    }

    /**
     * `findMostRestraining`: the choice with the fewest unassigned
     * neighbours, ties going to the smallest row and then the smallest column.
     */
    method FindMostRestraining(choices: seq<Tile>) returns (minTile: Tile)
      requires |choices| > 0
      ensures minTile in choices
      ensures forall i :: 0 <= i < |choices| ==> Precedes(minTile, choices[i])
    {
      var tile := choices[0];
      minTile := tile;
      var min := tile.numUNeighbours;
      for i := 0 to |choices|
        invariant minTile in choices && min == minTile.numUNeighbours
        invariant forall j :: 0 <= j < i ==> Precedes(minTile, choices[j])
      {
        tile := choices[i];
        if min > tile.numUNeighbours {
          min := tile.numUNeighbours;
          PrecedesTransitiveAll(tile, minTile, choices[..i]);
          minTile := tile;
        } else if min == tile.numUNeighbours {
          if tile.row < minTile.row || (tile.row == minTile.row && tile.col < minTile.col) {
            PrecedesTransitiveAll(tile, minTile, choices[..i]);
            minTile := tile;
          }
        }
      }
    }
  }
}
