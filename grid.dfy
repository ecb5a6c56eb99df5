/**
 * The battlefield grid used by the path finder: a fixed 27 x 21 board,
 * 4-connected, every step costing 1. A cell may be entered when it lies on the
 * board and is not blocked by another living unit.
 */
module Grid {

  const WIDTH: int := 27
  const HEIGHT: int := 21
  /** Java's Integer.MAX_VALUE, used as "not reached yet". */
  const INF: int := 2147483647

  /** The four step directions, in the order the search tries them:
      left, right, down, up. */
  const DIRECTIONS: seq<(int, int)> := [(-1, 0), (1, 0), (0, -1), (0, 1)]

  /** A grid point (the library calls it Edge). */
  datatype Edge = Edge(x: int, y: int)

  /** A priority-queue entry: a grid point and the distance it was offered with. */
  datatype EdgeDistance = EdgeDistance(x: int, y: int, distance: int) {
    function Cell(): Edge { Edge(x, y) }
  }

  predicate InBounds(c: Edge) {
    0 <= c.x < WIDTH && 0 <= c.y < HEIGHT
  }

  /** The entry test of the search: on the board and not blocked. */
  predicate IsValid(c: Edge, blocked: set<Edge>): (r: bool)
    ensures r <==> c in Cells() - blocked
  {
    InBounds(c) && c !in blocked
  }

  predicate Adjacent(a: Edge, b: Edge) {
    (a.x == b.x && (a.y - b.y == 1 || b.y - a.y == 1)) ||
    (a.y == b.y && (a.x - b.x == 1 || b.x - a.x == 1))
  }

  /** The neighbour of `c` in direction `k` of DIRECTIONS. */
  function Neighbor(c: Edge, k: int): Edge
    requires 0 <= k < 4
  {
    Edge(c.x + DIRECTIONS[k].0, c.y + DIRECTIONS[k].1)
  }

  lemma NeighborIsAdjacent(c: Edge, k: int)
    requires 0 <= k < 4
    ensures Adjacent(c, Neighbor(c, k)) && Neighbor(c, k) != c
  {
  }

  /** The four directions reach exactly the orthogonal neighbours, each once. */
  lemma NeighborsAreAdjacent(c: Edge, v: Edge)
    ensures Adjacent(c, v) <==> exists k :: 0 <= k < 4 && v == Neighbor(c, k)
  {
    if Adjacent(c, v) {
      if v.x == c.x - 1 { assert v == Neighbor(c, 0); }
      else if v.x == c.x + 1 { assert v == Neighbor(c, 1); }
      else if v.y == c.y - 1 { assert v == Neighbor(c, 2); }
      else { assert v == Neighbor(c, 3); }
    }
  }

  /** Every cell of the board. */
  ghost function Cells(): set<Edge> {
    set x: int, y: int | 0 <= x < WIDTH && 0 <= y < HEIGHT :: Edge(x, y)
  }

  /** A route that starts at w[0] and takes only permitted steps: each next
      cell is an orthogonal neighbour of the previous one and may be entered.
      The first cell itself is not tested, as the search starts there. */
  ghost predicate IsWalk(w: seq<Edge>, blocked: set<Edge>) {
    |w| >= 1 &&
    forall i :: 1 <= i < |w| ==> Adjacent(w[i - 1], w[i]) && IsValid(w[i], blocked)
  }

  ghost predicate WalkFromTo(w: seq<Edge>, s: Edge, t: Edge, blocked: set<Edge>) {
    IsWalk(w, blocked) && w[0] == s && w[|w| - 1] == t
  }

  ghost predicate Reachable(s: Edge, t: Edge, blocked: set<Edge>) {
    exists w :: WalkFromTo(w, s, t, blocked)
  }

  /** A prefix of a walk is a walk. */
  lemma WalkPrefix(w: seq<Edge>, blocked: set<Edge>, n: int)
    requires IsWalk(w, blocked) && 1 <= n <= |w|
    ensures IsWalk(w[..n], blocked)
  {
  }

  ghost function Column(x: int, n: nat): set<Edge> {
    set y: int | 0 <= y < n :: Edge(x, y)
  }

  ghost function Block(w: nat, h: nat): set<Edge> {
    set x: int, y: int | 0 <= x < w && 0 <= y < h :: Edge(x, y)
  }

  lemma {:induction false} ColumnSize(x: int, n: nat)
    ensures |Column(x, n)| == n
  {
    if n > 0 {
      ColumnSize(x, n - 1);
      assert Column(x, n) == Column(x, n - 1) + {Edge(x, n - 1)};
    }
  }

  lemma {:induction false} BlockSize(w: nat, h: nat)
    ensures |Block(w, h)| == w * h
  {
    if w > 0 {
      BlockSize(w - 1, h);
      ColumnSize(w - 1, h);
      BlockSplit(w, h);
      assert (w - 1) * h + h == w * h;
    }
  }

  /** A block is the block one column narrower plus its last column. */
  lemma BlockSplit(w: nat, h: nat)
    requires w > 0
    ensures Block(w, h) == Block(w - 1, h) + Column(w - 1, h)
    ensures Block(w - 1, h) !! Column(w - 1, h)
  {
    forall c | c in Block(w, h) ensures c in Block(w - 1, h) + Column(w - 1, h) {
      if c.x < w - 1 {
        assert c in Block(w - 1, h);
      } else {
        assert c in Column(w - 1, h);
      }
    }
  }

  /** A subset is no larger than its superset. */
  lemma {:induction false} SubsetSize<T>(a: set<T>, b: set<T>)
    requires a <= b
    ensures |a| <= |b|
  {
    if a != {} {
      var c :| c in a;
      SubsetSize(a - {c}, b - {c});
    }
  }

  /** The board has 567 cells, so any set of board cells has at most 567. */
  lemma CellsBound(s: set<Edge>)
    requires forall c :: c in s ==> InBounds(c)
    ensures |s| <= WIDTH * HEIGHT
  {
    BlockSize(WIDTH, HEIGHT);
    assert s <= Block(WIDTH, HEIGHT) by {
      forall c | c in s ensures c in Block(WIDTH, HEIGHT) {
        assert 0 <= c.x < WIDTH && 0 <= c.y < HEIGHT;
      }
    }
    SubsetSize(s, Block(WIDTH, HEIGHT));
  }
}
