/** One cell of the 9x9 board (`sudoku.csp.Tile`). */
module Tiles {

  /** Largest cell value; blank cells start with the domain 1..MAX. */
  const MAX: int := 9

  /** The integers lo..hi. */
  function Range(lo: int, hi: int): (d: set<int>)
    ensures forall v :: v in d <==> lo <= v <= hi
    decreases hi - lo
  {
    if lo > hi then {} else {lo} + Range(lo + 1, hi)
  }

  /** The candidate values of a blank tile as constructed. */
  function FullDomain(): (d: set<int>)
    ensures forall v :: v in d <==> 1 <= v <= MAX
  {
    Range(1, MAX)
  }

  /**
   * A cell. The position is fixed when the tile is made (`const`), everything
   * else is updated in place by the board and the solver. The Java class has no
   * `numUNeighbours` field although the solver reads and decrements it; here it
   * is an ordinary integer field that starts at 0. `isAssigned` is the Java
   * field `assigned` (a keyword in Dafny), read through `isAssigned()`.
   */
  class Tile {
    var domain: set<int>
    var val: int
    const row: int
    const col: int
    var secNo: int
    var isAssigned: bool
    var numUNeighbours: int

    /** A 0 marks a blank: unassigned, every value 1..9 possible. Any other value is a given clue. */
    constructor (val: int, row: int, col: int)
      ensures this.val == val && this.row == row && this.col == col
      ensures val == 0 ==> !isAssigned && domain == FullDomain()
      ensures val != 0 ==> isAssigned && domain == {}
      ensures secNo == 0 && numUNeighbours == 0
    {
      var d: set<int> := {};
      if val == 0 {
        for i := 1 to MAX + 1
          invariant forall v :: v in d <==> 1 <= v < i
        {
          d := d + {i};
        }
        assert d == FullDomain();
        isAssigned := false;
      } else {
        isAssigned := true;
      }
      this.val := val;
      this.row := row;
      this.col := col;
      domain := d;
      secNo := 0;
      numUNeighbours := 0;
    }

    method SetAssigned(b: bool)
      modifies this`isAssigned
      ensures isAssigned == b
    {
      isAssigned := b;
    }

    /** The argument-less `setAssigned()`. */
    method MarkAssigned()
      modifies this`isAssigned
      ensures isAssigned
    {
      SetAssigned(true);
    }

    method RemoveDomain(v: int)
      modifies this`domain
      ensures domain == old(domain) - {v}
    {
      domain := domain - {v};
    }

    method SetSecNo(secNo: int)
      modifies this`secNo
      ensures this.secNo == secNo
    {
      this.secNo := secNo;
    }

    method SetVal(val: int)
      modifies this`val
      ensures this.val == val
    {
      this.val := val;
    }

    method AddDomain(v: int)
      modifies this`domain
      ensures domain == old(domain) + {v}
    {
      domain := domain + {v};
    }

    /** Called by the solver but missing from `Tile.java`: one fewer unassigned neighbour. */
    method DecrementNumUNeighbours()
      modifies this`numUNeighbours
      ensures numUNeighbours == old(numUNeighbours) - 1
    {
      numUNeighbours := numUNeighbours - 1;
    }
  }

  /** Removing a value a second time changes nothing more than removing it once. */
  method RemoveDomainTwice(t: Tile, v: int)
    modifies t`domain
    ensures t.domain == old(t.domain) - {v}
  {
    t.RemoveDomain(v);
    ghost var once := t.domain;
    t.RemoveDomain(v);
    assert t.domain == once;
  }

  /** Putting back a removed candidate restores the domain it was removed from. */
  method RemoveThenAddDomain(t: Tile, v: int)
    requires v in t.domain
    modifies t`domain
    ensures t.domain == old(t.domain)
  {
    t.RemoveDomain(v);
    t.AddDomain(v);
  }
}
