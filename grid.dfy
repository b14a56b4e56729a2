/**
  Board geometry: bounds, Moore neighbourhoods, the neighbour-bomb count
  written by board construction, and walks through empty cells, which
  describe what the cascading reveal may reach.
 */
module Grid {
  import opened GameInterface

  predicate InBounds(p: Position, size: Size)
  {
    0 <= p.row < size.rows && 0 <= p.col < size.cols
  }

  /** Moore neighbours: two different cells at most one step apart in each direction. */
  predicate Adjacent(p: Position, q: Position)
  {
    p != q && -1 <= p.row - q.row <= 1 && -1 <= p.col - q.col <= 1
  }

  /** The bombs among the Moore neighbours of `p`. */
  function BombsAround(bombs: set<Position>, p: Position): set<Position>
  {
    set q | q in bombs && Adjacent(p, q)
  }

  /** The value board construction stores on a safe cell with `n` bomb neighbours. */
  function ValueFor(n: nat): Value
  {
    if n == 0 then Empty else Count(n)
  }

  /** The eight Moore neighbours of `p`, written out. */
  function Ring(p: Position): set<Position>
  {
    {Position(p.row - 1, p.col - 1), Position(p.row - 1, p.col), Position(p.row - 1, p.col + 1),
     Position(p.row, p.col - 1), Position(p.row, p.col + 1),
     Position(p.row + 1, p.col - 1), Position(p.row + 1, p.col), Position(p.row + 1, p.col + 1)}
  }

  lemma SubsetCard<T>(a: set<T>, b: set<T>)
    requires a <= b
    ensures |a| <= |b|
    ensures |b - a| == |b| - |a|
  {
    assert b == a + (b - a);
  }

  /**
    A safe cell has at most eight bomb neighbours, so the value board
    construction stores on it is `Empty` or a count between 1 and 8.
   */
  lemma {:induction false} NeighbourCountInRange(bombs: set<Position>, p: Position)
    ensures |BombsAround(bombs, p)| <= 8
    ensures ValueFor(|BombsAround(bombs, p)|) == Empty
            || 1 <= ValueFor(|BombsAround(bombs, p)|).n <= 8
  {
    var ring := Ring(p);
    assert BombsAround(bombs, p) <= ring;
    SubsetCard(BombsAround(bombs, p), ring);
  }

  /** `path` steps from neighbour to neighbour, and every cell it leaves is in `through`. */
  ghost predicate IsWalk(path: seq<Position>, through: set<Position>)
  {
    |path| >= 1 &&
    forall k :: 0 <= k < |path| - 1 ==> path[k] in through && Adjacent(path[k], path[k + 1])
  }

  /** `to` can be reached from `from` by a walk whose cells, except the last, are in `through`. */
  ghost predicate Reachable(through: set<Position>, from: Position, to: Position)
  {
    exists path :: IsWalk(path, through) && path[0] == from && path[|path| - 1] == to
  }

  lemma ReachableFromItself(through: set<Position>, p: Position)
    ensures Reachable(through, p, p)
  {
    assert IsWalk([p], through);
  }

  /** A walk can be extended backwards by one step out of a cell of `through`. */
  lemma {:induction false} ReachableStep(through: set<Position>, from: Position, next: Position, to: Position)
    requires from in through && Adjacent(from, next)
    requires Reachable(through, next, to)
    ensures Reachable(through, from, to)
  {
    var path :| IsWalk(path, through) && path[0] == next && path[|path| - 1] == to;
    var longer := [from] + path;
    assert forall k :: 1 <= k < |longer| - 1 ==> longer[k] == path[k - 1] && longer[k + 1] == path[k];
    assert IsWalk(longer, through);
  }

  /**
    If no cell of `through` has a bomb neighbour and the start is not a
    bomb, nothing reachable from the start is a bomb: the last step of a
    walk leaves a cell of `through`, whose neighbours are all safe.
   */
  lemma {:induction false} ReachedCellsAreSafe(through: set<Position>, bombs: set<Position>,
                                              from: Position, to: Position)
    requires forall e :: e in through ==> BombsAround(bombs, e) == {}
    requires from !in bombs
    requires Reachable(through, from, to)
    ensures to !in bombs
  {
    var path :| IsWalk(path, through) && path[0] == from && path[|path| - 1] == to;
    if |path| > 1 {
      var prev := path[|path| - 2];
      assert prev in through && Adjacent(prev, to);
      assert to !in BombsAround(bombs, prev);
    }
  }
}
