/** The priority-queue order on tiles (`sudoku.csp.TileComparator`). */
module TileComparator {
  import opened Tiles

  /**
   * Fewer candidates first. Domain sizes are at most a few elements, so the
   * Java `int` subtraction cannot overflow and plain integers model it.
   */
  function Compare(o1: Tile, o2: Tile): (r: int)
    reads o1`domain, o2`domain
    ensures r < 0 <==> |o1.domain| < |o2.domain|
    ensures r == 0 <==> |o1.domain| == |o2.domain|
    ensures r > 0 <==> |o1.domain| > |o2.domain|
  {
    |o1.domain| - |o2.domain|
  }

  /** Swapping the arguments flips the sign; a tile ties with itself. */
  lemma CompareAntisymmetric(a: Tile, b: Tile)
    ensures Compare(a, b) == -Compare(b, a)
    ensures Compare(a, a) == 0
  {
  }

  /** "Not after" is transitive, and so is "strictly before": a valid queue order. */
  lemma CompareTransitive(a: Tile, b: Tile, c: Tile)
    ensures Compare(a, b) <= 0 && Compare(b, c) <= 0 ==> Compare(a, c) <= 0
    ensures Compare(a, b) < 0 && Compare(b, c) < 0 ==> Compare(a, c) < 0
  {
  }

  /** Any two tiles are comparable. */
  lemma CompareTotal(a: Tile, b: Tile)
    ensures Compare(a, b) <= 0 || Compare(b, a) <= 0
  {
  }

  /** Every nonempty finite set of integers has a least element. */
  lemma {:induction false} LeastExists(s: set<int>)
    requires s != {}
    ensures exists m :: m in s && forall y :: y in s ==> m <= y
  {
    assert exists y :: y in s by {
      if forall y :: y !in s { assert false; }
    }
    var x :| x in s;
    if s != {x} {
      LeastExists(s - {x});
      var m :| m in s - {x} && forall y :: y in s - {x} ==> m <= y;
      var w := if x < m then x else m;
      forall y | y in s ensures w <= y {
        if y != x { assert y in s - {x}; }
      }
    } else {
      assert forall y :: y in s ==> x <= y;
    }
  }

  /** The least element of a nonempty set of integers. */
  function Least(s: set<int>): (m: int)
    requires s != {}
    ensures m in s && forall y :: y in s ==> m <= y
  {
    LeastExists(s);
    var m :| m in s && forall y :: y in s ==> m <= y; m
  }

  /**
   * The domain size at the head of a queue ordered by `Compare`, which is also
   * the minimum `getMostContrainedVariable` computes with a stream.
   */
  function MinDomainSize(ts: set<Tile>): (m: int)
    requires ts != {}
    reads ts`domain
    ensures exists t :: t in ts && |t.domain| == m
    ensures forall t :: t in ts ==> m <= |t.domain|
  {
    var sizes := set t | t in ts :: |t.domain|;
    assert sizes != {} by {
      var t :| t in ts;
      assert |t.domain| in sizes;
    }
    var m := Least(sizes);
    assert forall t :: t in ts ==> |t.domain| in sizes;
    m
  }

  /** t may be at the head of a queue holding ts and ordered by `Compare`: no tile of ts comes before it. */
  predicate IsHead(t: Tile, ts: set<Tile>)
    reads t`domain, ts`domain
  {
    t in ts && forall u :: u in ts ==> Compare(t, u) <= 0
  }

  /** A nonempty queue has a head, and every head has the least domain size. */
  lemma HeadExists(ts: set<Tile>)
    requires ts != {}
    ensures exists t :: IsHead(t, ts)
    ensures forall t :: IsHead(t, ts) ==> |t.domain| == MinDomainSize(ts)
  {
    var m := MinDomainSize(ts);
    var t :| t in ts && |t.domain| == m;
    assert IsHead(t, ts);
  }
}
