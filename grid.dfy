/**
 * The board as both `SudokuBoard` and `SudokuSolver` hold it: a list of nine
 * rows of nine tiles, indexed `board.get(row).get(col)`, and the box number
 * both classes compute with `calcaluateSectionNo`.
 */
module Grid {
  import opened Tiles

  /** `Main.SUDOKU_ROW_SIZE` and `Main.SUDOKU_COL_SIZE`. */
  const SIZE: int := 9

  /** Java's `/` on `int`, which truncates toward zero. */
  function JavaDiv(a: int, d: int): (q: int)
    requires d > 0
    ensures a >= 0 ==> 0 <= a - q * d < d
    ensures a < 0 ==> -d < a - q * d <= 0
  {
    if a >= 0 then a / d else -((-a) / d)
  }

  /**
   * `calcaluateSectionNo`: the 3x3 box of a cell, numbered row-major. On the
   * board the box number encodes the box's block row and block column.
   */
  function CalculateSectionNo(row: int, col: int): (s: int)
    ensures 0 <= row < SIZE && 0 <= col < SIZE ==>
              0 <= s < SIZE && s / 3 == row / 3 && s % 3 == col / 3
  {
    JavaDiv(row, 3) * 3 + JavaDiv(col, 3)
  }

  /** Two cells get the same box number exactly when they lie in the same 3x3 block. */
  lemma SameSectionIff(r1: int, c1: int, r2: int, c2: int)
    requires 0 <= r1 < SIZE && 0 <= c1 < SIZE && 0 <= r2 < SIZE && 0 <= c2 < SIZE
    ensures CalculateSectionNo(r1, c1) == CalculateSectionNo(r2, c2) <==> r1 / 3 == r2 / 3 && c1 / 3 == c2 / 3
  {
    var s1, s2 := CalculateSectionNo(r1, c1), CalculateSectionNo(r2, c2);
    if r1 / 3 == r2 / 3 && c1 / 3 == c2 / 3 {
      assert s1 == (s1 / 3) * 3 + s1 % 3;
      assert s2 == (s2 / 3) * 3 + s2 % 3;
    }
  }

  /**
   * The board a well-formed puzzle file gives: exactly nine rows of nine tiles,
   * the tile at index (i, j) made with row i and column j (so all 81 are
   * distinct). Boards with extra or short rows are outside the model.
   */
  predicate WellFormed(grid: seq<seq<Tile>>)
  {
    && |grid| == SIZE
    && (forall i :: 0 <= i < SIZE ==> |grid[i]| == SIZE)
    && (forall i, j :: 0 <= i < SIZE && 0 <= j < SIZE ==> grid[i][j].row == i && grid[i][j].col == j)
  }

  /** The board in the order `iterateBoard` visits it: row by row, left to right. */
  function Cells(grid: seq<seq<Tile>>): (c: seq<Tile>)
    requires WellFormed(grid)
    ensures |c| == SIZE * SIZE
    ensures forall t :: t in c ==> 0 <= t.row < SIZE && 0 <= t.col < SIZE && grid[t.row][t.col] == t
  {
    var c := seq(SIZE * SIZE, p requires 0 <= p < SIZE * SIZE => grid[p / SIZE][p % SIZE]);
    assert forall i, j :: 0 <= i < SIZE && 0 <= j < SIZE ==> c[SIZE * i + j] == grid[i][j] by {
      forall i, j | 0 <= i < SIZE && 0 <= j < SIZE ensures c[SIZE * i + j] == grid[i][j] {
        var p := SIZE * i + j;
        assert p / SIZE == i && p % SIZE == j;
      }
    }
    c
  }

  /** Every tile of the board is one of its cells. */
  lemma CellsContain(grid: seq<seq<Tile>>, i: int, j: int)
    requires WellFormed(grid) && 0 <= i < SIZE && 0 <= j < SIZE
    ensures grid[i][j] in Cells(grid)
  {
    var p := SIZE * i + j;
    assert p / SIZE == i && p % SIZE == j;
    assert Cells(grid)[p] == grid[i][j];
  }

  /** Every tile of every row is one of the cells. */
  lemma CellsCover(grid: seq<seq<Tile>>)
    requires WellFormed(grid)
    ensures forall i, j :: 0 <= i < SIZE && 0 <= j < SIZE ==> grid[i][j] in Cells(grid)
  {
    forall i, j | 0 <= i < SIZE && 0 <= j < SIZE
      ensures grid[i][j] in Cells(grid)
    {
      CellsContain(grid, i, j);
    }
  }

  /** No tile occurs twice in row-major order. */
  lemma CellsDistinct(grid: seq<seq<Tile>>)
    requires WellFormed(grid)
    ensures Distinct(Cells(grid))
  {
    var c := Cells(grid);
    forall a, b | 0 <= a < b < |c| ensures c[a] != c[b] {
      assert c[a] == grid[a / SIZE][a % SIZE] && c[b] == grid[b / SIZE][b % SIZE];
    }
  }

  /** Taking one more element of a sequence appends that element. */
  lemma PrefixSnoc(s: seq<Tile>, p: int)
    requires 0 <= p < |s|
    ensures s[..p + 1] == s[..p] + [s[p]]
  {
  }

  /** No tile occurs twice. */
  predicate Distinct(ts: seq<Tile>)
  {
    forall a, b :: 0 <= a < b < |ts| ==> ts[a] != ts[b]
  }

  /** Column `col` of the board, top to bottom. */
  function Column(grid: seq<seq<Tile>>, col: int): (c: seq<Tile>)
    requires WellFormed(grid) && 0 <= col < SIZE
    ensures |c| == SIZE && forall i :: 0 <= i < SIZE ==> c[i] == grid[i][col]
  {
    seq(SIZE, i requires 0 <= i < SIZE => grid[i][col])
  }

  /** Appending a tile that is not there yet keeps a list free of repeats. */
  lemma DistinctSnoc(ts: seq<Tile>, t: Tile)
    requires Distinct(ts) && t !in ts
    ensures Distinct(ts + [t])
  {
    forall a, b | 0 <= a < b < |ts| + 1
      ensures (ts + [t])[a] != (ts + [t])[b]
    {
      if b == |ts| {
        assert ts[a] in ts;
      }
    }
  }

  /** The tiles of ts that are not assigned. */
  function Blanks(ts: seq<Tile>): (b: set<Tile>)
    reads ts`isAssigned
    ensures forall t :: t in b ==> t in ts && !t.isAssigned
    ensures forall i :: 0 <= i < |ts| && !ts[i].isAssigned ==> ts[i] in b
  {
    set t | t in ts && !t.isAssigned
  }

  /**
   * The tiles of ts that are in `blanks` and lie in box k, in order: what the
   * constructors of both classes append to the section list of box k while
   * walking the board, `blanks` being the tiles that were blank then.
   */
  function SectionList(ts: seq<Tile>, blanks: set<Tile>, k: int): (b: seq<Tile>)
    ensures forall t :: t in b ==> t in ts && t in blanks && CalculateSectionNo(t.row, t.col) == k
    ensures forall i :: 0 <= i < |ts| && ts[i] in blanks && CalculateSectionNo(ts[i].row, ts[i].col) == k ==> ts[i] in b
  {
    if ts == [] then []
    else
      var last := ts[|ts| - 1];
      SectionList(ts[..|ts| - 1], blanks, k) + if last in blanks && CalculateSectionNo(last.row, last.col) == k then [last] else []
  }

  /** Walking one more tile appends it to the list of its box when it is blank. */
  lemma SectionListSnoc(ts: seq<Tile>, t: Tile, blanks: set<Tile>, k: int)
    ensures t in blanks && CalculateSectionNo(t.row, t.col) == k ==>
              SectionList(ts + [t], blanks, k) == SectionList(ts, blanks, k) + [t]
    ensures !(t in blanks && CalculateSectionNo(t.row, t.col) == k) ==>
              SectionList(ts + [t], blanks, k) == SectionList(ts, blanks, k)
  {
    assert (ts + [t])[..|ts|] == ts;
    assert SectionList(ts, blanks, k) + [] == SectionList(ts, blanks, k);
  }

  /**
   * `sec` holds, for each box, the section list of ts, and only boxes with at
   * least one such tile have an entry (the `getOrDefault` discipline).
   */
  ghost predicate ListsSoFar(sec: map<int, seq<Tile>>, ts: seq<Tile>, blanks: set<Tile>)
  {
    && (forall k :: k in sec <==> SectionList(ts, blanks, k) != [])
    && (forall k :: k in sec ==> sec[k] == SectionList(ts, blanks, k))
  }

  /** Appending a blank tile to the list of its box (creating the list if need be) extends the walk by one tile. */
  lemma ListsSoFarStep(sec: map<int, seq<Tile>>, ts: seq<Tile>, t: Tile, blanks: set<Tile>)
    requires ListsSoFar(sec, ts, blanks)
    ensures t in blanks ==>
              var k := CalculateSectionNo(t.row, t.col);
              ListsSoFar(sec[k := (if k in sec then sec[k] else []) + [t]], ts + [t], blanks)
    ensures t !in blanks ==> ListsSoFar(sec, ts + [t], blanks)
  {
    var k0 := CalculateSectionNo(t.row, t.col);
    var sec' := if t in blanks then sec[k0 := (if k0 in sec then sec[k0] else []) + [t]] else sec;
    forall k
      ensures (k in sec' <==> SectionList(ts + [t], blanks, k) != [])
      ensures k in sec' ==> sec'[k] == SectionList(ts + [t], blanks, k)
    {
      SectionListSnoc(ts, t, blanks, k);
      if t in blanks && k == k0 {
        assert sec'[k] == SectionList(ts, blanks, k) + [t];
      } else {
        assert k in sec' <==> k in sec;
      }
    }
  }

  /** Lists built from a walk over distinct tiles are free of repeats and hold only tiles of their own box. */
  lemma ListsSoFarSound(sec: map<int, seq<Tile>>, ts: seq<Tile>, blanks: set<Tile>)
    requires ListsSoFar(sec, ts, blanks) && Distinct(ts)
    ensures forall k :: k in sec ==>
              && Distinct(sec[k])
              && forall t :: t in sec[k] ==> t in ts && t in blanks && CalculateSectionNo(t.row, t.col) == k
  {
    forall k | k in sec
      ensures Distinct(sec[k])
    {
      SectionListDistinct(ts, blanks, k);
    }
  }

  /** Filtering keeps a list free of repeats. */
  lemma {:induction false} SectionListDistinct(ts: seq<Tile>, blanks: set<Tile>, k: int)
    requires Distinct(ts)
    ensures Distinct(SectionList(ts, blanks, k))
  {
    if ts != [] {
      var init, last := ts[..|ts| - 1], ts[|ts| - 1];
      SectionListDistinct(init, blanks, k);
      assert last !in init;
    }
  }
}
