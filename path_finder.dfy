/**
 * UnitTargetPathFinderImpl: the shortest route from an attacking unit to its
 * target on the 27 x 21 board. The working state is three 2-D arrays
 * (distances, visited flags, predecessors) and a priority queue; the search is
 * Dijkstra's algorithm on unit-weight steps and stops as soon as the target's
 * cell is taken from the queue. The module Search states and proves the
 * search's invariant on the values these arrays hold.
 */
module PathFinder {
  import opened Grid
  import opened Optional
  import opened Search
  import opened Units

  ghost predicate BoardSized<T>(a: array2<T>) {
    a.Length0 == WIDTH && a.Length1 == HEIGHT
  }

  /** The board-sized array `a` holds the table `M`: `M` has exactly the
      board's cells as keys and agrees with `a` on each of them. */
  ghost predicate Mirrors<T>(a: array2<T>, M: map<Edge, T>)
    reads a
  {
    BoardSized(a) &&
    (forall c :: c in M <==> InBounds(c)) &&
    (forall x, y {:trigger a[x, y]} :: 0 <= x < WIDTH && 0 <= y < HEIGHT ==> a[x, y] == M[Edge(x, y)])
  }

  /** The table holding the same value on every cell of the board. */
  ghost function Constant<T>(v: T): map<Edge, T> {
    map c | c in Cells() :: v
  }

  lemma InCells(c: Edge)
    ensures c in Cells() <==> InBounds(c)
  {
    if InBounds(c) { assert c == Edge(c.x, c.y); }
  }

  /** The cells of alive units other than the attacker and the target (both
      compared by reference). */
  ghost function BlockedCells(units: seq<Unit>, attackUnit: Unit, targetUnit: Unit): set<Edge>
    reads units
  {
    set u | u in units && u.alive && u != attackUnit && u != targetUnit :: Edge(u.x, u.y)
  }

  method GetBlockedCells(existingUnitList: seq<Unit>, attackUnit: Unit, targetUnit: Unit)
    returns (blockedCells: set<Edge>)
    ensures forall c :: c in blockedCells <==>
              exists u :: u in existingUnitList && u.alive && u != attackUnit && u != targetUnit &&
                          c == Edge(u.x, u.y)
    ensures blockedCells == BlockedCells(existingUnitList, attackUnit, targetUnit)
  {
    blockedCells := {};
    for i := 0 to |existingUnitList|
      invariant forall c :: c in blockedCells <==>
                  exists u :: u in existingUnitList[..i] && u.alive && u != attackUnit &&
                              u != targetUnit && c == Edge(u.x, u.y)
    {
      var unit := existingUnitList[i];
      if unit.alive && unit != attackUnit && unit != targetUnit {
        blockedCells := blockedCells + {Edge(unit.x, unit.y)};
      }
      assert existingUnitList[..i + 1] == existingUnitList[..i] + [unit];
    }
    assert existingUnitList[..|existingUnitList|] == existingUnitList;
  }

  /** A fresh distance table with every cell at "infinity". */
  method InitializeDistances() returns (distances: array2<int>)
    ensures fresh(distances) && Mirrors(distances, Constant(INF))
  {
    distances := new int[WIDTH, HEIGHT];
    for x := 0 to WIDTH
      invariant forall i, j :: 0 <= i < x && 0 <= j < HEIGHT ==> distances[i, j] == INF
    {
      for y := 0 to HEIGHT
        invariant forall i, j :: 0 <= i < x && 0 <= j < HEIGHT ==> distances[i, j] == INF
        invariant forall j :: 0 <= j < y ==> distances[x, j] == INF
      {
        distances[x, y] := INF;
      }
    }
    forall c ensures c in Constant(INF) <==> InBounds(c) {
      InCells(c);
    }
  }

  /** Gives the attacker's cell distance 0 and queues it. */
  method AddStartingPointToQueue(priorityQueue: Queue, attackUnit: Unit, distances: array2<int>, ghost D: Dist)
    returns (queue: Queue)
    requires Mirrors(distances, D) && InBounds(Edge(attackUnit.x, attackUnit.y))
    modifies distances
    ensures Mirrors(distances, D[Edge(attackUnit.x, attackUnit.y) := 0])
    ensures queue == priorityQueue + multiset{EdgeDistance(attackUnit.x, attackUnit.y, 0)}
  {
    var x := attackUnit.x;
    var y := attackUnit.y;
    distances[x, y] := 0;
    queue := priorityQueue + multiset{EdgeDistance(x, y, 0)};
  }

  /** targetReached: the popped entry stands on the target unit's cell. */
  predicate TargetReached(current: EdgeDistance, targetUnit: Unit): (r: bool)
    reads targetUnit
    ensures r <==> current.Cell() == Edge(targetUnit.x, targetUnit.y)
  {
    current.x == targetUnit.x && current.y == targetUnit.y
  }

  /** Removes one entry of smallest distance; which one, among several with
      the same distance, is left open. */
  method Poll(priorityQueue: Queue) returns (current: EdgeDistance, rest: Queue)
    requires |priorityQueue| > 0
    ensures IsMinEntry(priorityQueue, current)
    ensures rest == priorityQueue - multiset{current}
  {
    MinEntryExists(priorityQueue);
    current :| IsMinEntry(priorityQueue, current);
    rest := priorityQueue - multiset{current};
  }

  /** A non-empty queue has an entry of smallest distance. */
  lemma {:induction false} MinEntryExists(Q: Queue)
    requires |Q| > 0
    ensures exists e :: IsMinEntry(Q, e)
    decreases |Q|
  {
    var x :| x in Q;
    var others := Q - multiset{x};
    var e := x;
    if |others| > 0 {
      MinEntryExists(others);
      var m :| IsMinEntry(others, m);
      if m.distance < x.distance {
        e := m;
      }
    }
    forall f | f in Q ensures e.distance <= f.distance {
      if f != x {
        assert f in others;
      }
    }
    assert IsMinEntry(Q, e);
  }

  /** Records a shorter distance and its predecessor for one cell. */
  method SetNeighbor(distances: array2<int>, predecessors: array2<Option<Edge>>, x: int, y: int,
                     distance: int, previous: Edge, ghost Dk: Dist, ghost Pk: Preds, ghost Dn: Dist, ghost Pn: Preds)
    requires Mirrors(distances, Dk) && Mirrors(predecessors, Pk) && InBounds(Edge(x, y))
    requires Dn == Dk[Edge(x, y) := distance] && Pn == Pk[Edge(x, y) := Some(previous)]
    modifies distances, predecessors
    ensures Mirrors(distances, Dn) && Mirrors(predecessors, Pn)
  {
    distances[x, y] := distance;
    predecessors[x, y] := Some(previous);
  }

  /** Queueing one more offer keeps the queue equal to its base plus the
      offers made so far. */
  lemma AddOffer(base: Queue, queue: Queue, offers: seq<EdgeDistance>, more: seq<EdgeDistance>, e: EdgeDistance)
    requires queue == base + multiset(offers) && multiset(more) == multiset(offers) + multiset{e}
    ensures queue + multiset{e} == base + multiset(more)
  {
  }

  /** Relaxes the neighbour of `current` in direction `k`: when it is on the
      board, not blocked, and its distance would drop, it gets the distance
      one more than `current`'s, `current` as predecessor, and a queue entry.
      `D` and `P` are the tables before the first direction was relaxed and
      `base` the queue before then. */
  method RelaxDirection(current: EdgeDistance, k: int, blockedCells: set<Edge>, distances: array2<int>,
                        predecessors: array2<Option<Edge>>, priorityQueue: Queue,
                        ghost D: Dist, ghost P: Preds, ghost base: Queue)
    returns (queue: Queue)
    requires 0 <= k < 4 && InBounds(current.Cell()) && Tables(D, P)
    requires Mirrors(distances, RelaxDistUpTo(D, current.Cell(), blockedCells, k))
    requires Mirrors(predecessors, RelaxPredsUpTo(D, P, current.Cell(), blockedCells, k))
    requires priorityQueue == base + multiset(Offers(D, current.Cell(), blockedCells, k))
    modifies distances, predecessors
    ensures Mirrors(distances, RelaxDistUpTo(D, current.Cell(), blockedCells, k + 1))
    ensures Mirrors(predecessors, RelaxPredsUpTo(D, P, current.Cell(), blockedCells, k + 1))
    ensures queue == base + multiset(Offers(D, current.Cell(), blockedCells, k + 1))
  {
    ghost var c := current.Cell();
    ghost var Dk, Pk := RelaxDistUpTo(D, c, blockedCells, k), RelaxPredsUpTo(D, P, c, blockedCells, k);
    var neighborX := current.x + DIRECTIONS[k].0;
    var neighborY := current.y + DIRECTIONS[k].1;
    ghost var n := Edge(neighborX, neighborY);
    assert n == Neighbor(c, k);
    RelaxStep(D, c, blockedCells, k);
    queue := priorityQueue;
    if IsValid(Edge(neighborX, neighborY), blockedCells) {
      var newDistance := distances[current.x, current.y] + 1;
      if newDistance < distances[neighborX, neighborY] {
        ImprovingStep(D, P, c, blockedCells, k);
        SetNeighbor(distances, predecessors, neighborX, neighborY, newDistance, Edge(current.x, current.y), Dk, Pk,
                    RelaxDistUpTo(D, c, blockedCells, k + 1), RelaxPredsUpTo(D, P, c, blockedCells, k + 1));
        queue := queue + multiset{EdgeDistance(neighborX, neighborY, newDistance)};
        AddOffer(base, priorityQueue, Offers(D, c, blockedCells, k), Offers(D, c, blockedCells, k + 1),
                 EdgeDistance(neighborX, neighborY, newDistance));
      } else {
        UnchangedStep(D, P, c, blockedCells, k);
      }
    } else {
      UnchangedStep(D, P, c, blockedCells, k);
    }
  }

  /** Relaxes the four neighbours of `current` in DIRECTIONS order. */
  method UpdateNeighbors(current: EdgeDistance, blockedCells: set<Edge>, distances: array2<int>,
                         predecessors: array2<Option<Edge>>, priorityQueue: Queue, ghost D: Dist, ghost P: Preds)
    returns (queue: Queue)
    requires Mirrors(distances, D) && Mirrors(predecessors, P) && InBounds(current.Cell())
    modifies distances, predecessors
    ensures Mirrors(distances, RelaxDist(D, current.Cell(), blockedCells))
    ensures Mirrors(predecessors, RelaxPreds(D, P, current.Cell(), blockedCells))
    ensures queue == priorityQueue + multiset(Offers(D, current.Cell(), blockedCells, 4))
  {
    ghost var c := current.Cell();
    assert D == RelaxDistUpTo(D, c, blockedCells, 0);
    assert P == RelaxPredsUpTo(D, P, c, blockedCells, 0);
    queue := priorityQueue;
    for k := 0 to 4
      invariant Mirrors(distances, RelaxDistUpTo(D, c, blockedCells, k))
      invariant Mirrors(predecessors, RelaxPredsUpTo(D, P, c, blockedCells, k))
      invariant queue == priorityQueue + multiset(Offers(D, c, blockedCells, k))
    {
      queue := RelaxDirection(current, k, blockedCells, distances, predecessors, queue, D, P, priorityQueue);
    }
    RelaxAllDirections(D, P, c, blockedCells);
  }

  /** Walks the predecessors back from the target, reading each predecessor's
      two coordinates before moving the cursor. The result runs from the
      first step after the chain's root to the target; it is empty when the
      target has no predecessor. */
  method BuildPath(cameFrom: array2<Option<Edge>>, targetUnit: Unit, ghost P: Preds, ghost D: Dist)
    returns (path: seq<Edge>)
    requires Mirrors(cameFrom, P) && InBounds(Edge(targetUnit.x, targetUnit.y)) && Ranked(D, P)
    ensures var t := Edge(targetUnit.x, targetUnit.y);
            P[t] == None ==> path == []
    ensures var t := Edge(targetUnit.x, targetUnit.y);
            P[t] != None ==> PredChain(P, t, path) && |path| == D[t] - D[P[path[0]].value]
  {
    ghost var t := Edge(targetUnit.x, targetUnit.y);
    path := [];
    var x := targetUnit.x;
    var y := targetUnit.y;
    while cameFrom[x, y] != None
      invariant InBounds(Edge(x, y))
      invariant path == [] ==> Edge(x, y) == t
      invariant path != [] ==>
                  path[|path| - 1] == t &&
                  (forall i :: 0 <= i < |path| ==> path[i] in P && P[path[i]].Some?) &&
                  (forall i :: 1 <= i < |path| ==> P[path[i]] == Some(path[i - 1])) &&
                  P[path[0]] == Some(Edge(x, y)) &&
                  |path| == D[t] - D[Edge(x, y)]
      decreases D[Edge(x, y)]
    {
      path := [Edge(x, y)] + path;
      var previous := cameFrom[x, y].value;
      x := previous.x;
      y := previous.y;
    }
  }

  /** How the loop of buildPath as written ends: with a route, with a null
      dereference, or (in this model only) with its pass budget spent. */
  datatype Trace = Returned(path: seq<Edge>) | NullDereference | OutOfFuel

  /** A predecessor table over the board whose predecessors are on the board. */
  ghost predicate OnBoard(P: Preds) {
    (forall c :: c in P <==> InBounds(c)) &&
    (forall c :: c in P && P[c].Some? ==> InBounds(P[c].value))
  }

  /** buildPath as written (lines 138-141): the cursor's x moves to the
      predecessor's x first, and y is then read from the predecessor entry
      of the cell (new x, old y), dereferenced without a null check. The
      route built so far is `path`; `fuel` bounds the number of passes. */
  ghost function BuildPathAsWritten(P: Preds, x: int, y: int, path: seq<Edge>, fuel: nat): (r: Trace)
    requires OnBoard(P) && InBounds(Edge(x, y))
    ensures r.Returned? ==> |path| <= |r.path| && r.path[|r.path| - |path|..] == path
    decreases fuel
  {
    if P[Edge(x, y)].None? then Returned(path)
    else if fuel == 0 then OutOfFuel
    else
      var x' := P[Edge(x, y)].value.x;
      if P[Edge(x', y)].None? then NullDereference
      else BuildPathAsWritten(P, x', P[Edge(x', y)].value.y, [Edge(x, y)] + path, fuel - 1)
  }

  /** Every finished search whose target stands next to the attacker on the
      same row, on a cell no other living unit blocks, makes buildPath as
      written dereference null: the target's
      predecessor is the attacker, so the second read lands on the
      attacker's own cell, which never gets a predecessor. */
  lemma AsWrittenCrashesBesideStart(s: Edge, t: Edge, B: set<Edge>, D: Dist, P: Preds, fuel: nat)
    requires SearchDone(s, t, B, D, P) && IsValid(t, B)
    requires t.y == s.y && (t.x == s.x + 1 || t.x == s.x - 1) && fuel > 0
    ensures OnBoard(P) && BuildPathAsWritten(P, t.x, t.y, [], fuel) == NullDereference
  {
    assert WalkFromTo([s, t], s, t, B);
    assert D[t] <= 1;
  }

  /** As written, buildPath also returns routes that are not walks. With the
      attacker at (0, 0) and the chain (0, 0) -> (0, 1) -> (1, 1) (the cell
      (1, 0) blocked), the second read jumps from (1, 1) straight back to
      (0, 0) and the route comes out as the single cell (1, 1), which does
      not touch the attacker; the chain itself is the route [(0, 1), (1, 1)]. */
  lemma AsWrittenSkipsCell()
    ensures var s, m, t := Edge(0, 0), Edge(0, 1), Edge(1, 1);
            var P := InitialPreds()[m := Some(s)][t := Some(m)];
            OnBoard(P) && PredChain(P, t, [m, t]) &&
            BuildPathAsWritten(P, 1, 1, [], 2) == Returned([t]) && !Adjacent(s, t)
  {
    var s, m, t := Edge(0, 0), Edge(0, 1), Edge(1, 1);
    var P := InitialPreds()[m := Some(s)][t := Some(m)];
    InCells(s);
    forall c ensures c in P <==> InBounds(c) {
      InCells(c);
    }
    assert P[s] == None;
  }

  /** The state the search loop keeps between passes: the three arrays hold
      the tables `D`, `P` and `Visited`, the visited flags mark exactly the
      expanded cells `V`, and the tables satisfy the search invariant. */
  ghost predicate Searching(s: Edge, t: Edge, B: set<Edge>, distances: array2<int>,
                            predecessors: array2<Option<Edge>>, visited: array2<bool>,
                            D: Dist, V: set<Edge>, P: Preds, Visited: map<Edge, bool>, Q: Queue)
    reads distances, predecessors, visited
  {
    Mirrors(distances, D) && Mirrors(predecessors, P) && Mirrors(visited, Visited) &&
    (forall c {:trigger Visited[c]} :: c in Visited ==> (Visited[c] <==> c in V)) &&
    SearchInv(s, t, B, D, V, P, Q)
  }

  /** Marks one cell as visited. */
  method MarkVisited(visited: array2<bool>, x: int, y: int, ghost Visited: map<Edge, bool>)
    requires Mirrors(visited, Visited) && InBounds(Edge(x, y))
    modifies visited
    ensures Mirrors(visited, Visited[Edge(x, y) := true])
  {
    visited[x, y] := true;
  }

  /** The entry taken from the queue is on the board, and its visited flag
      says whether its cell was expanded. */
  lemma PolledCell(s: Edge, t: Edge, B: set<Edge>, distances: array2<int>,
                   predecessors: array2<Option<Edge>>, visited: array2<bool>,
                   D: Dist, V: set<Edge>, P: Preds, Visited: map<Edge, bool>, Q: Queue, e: EdgeDistance)
    requires Searching(s, t, B, distances, predecessors, visited, D, V, P, Visited, Q) && e in Q
    ensures InBounds(e.Cell()) && 0 <= e.x < WIDTH && 0 <= e.y < HEIGHT
    ensures visited[e.x, e.y] <==> e.Cell() in V
  {
    assert Q[e] > 0;
    assert Edge(e.x, e.y) in Visited;
    assert visited[e.x, e.y] == Visited[Edge(e.x, e.y)];
  }

  /** One pass of the search loop of getTargetPath: take an entry of smallest
      distance and skip it if its cell was expanded already; otherwise visit
      the cell. `found` reports the stop at the target. */
  method SearchStep(targetUnit: Unit, blockedCells: set<Edge>, distances: array2<int>,
                    predecessors: array2<Option<Edge>>, visited: array2<bool>, priorityQueue: Queue,
                    ghost s: Edge, ghost t: Edge, ghost D: Dist, ghost V: set<Edge>, ghost P: Preds,
                    ghost Visited: map<Edge, bool>)
    returns (queue: Queue, found: bool, ghost D': Dist, ghost V': set<Edge>, ghost P': Preds,
             ghost Visited': map<Edge, bool>, ghost expanded: Edge)
    requires |priorityQueue| > 0 && t == Edge(targetUnit.x, targetUnit.y)
    requires Searching(s, t, blockedCells, distances, predecessors, visited, D, V, P, Visited, priorityQueue)
    modifies distances, predecessors, visited
    ensures found ==> Mirrors(distances, D') && Mirrors(predecessors, P') && SearchDone(s, t, blockedCells, D', P')
    ensures !found ==> Searching(s, t, blockedCells, distances, predecessors, visited, D', V', P', Visited', queue)
    ensures !found ==> (V' == V && |queue| < |priorityQueue|) ||
                       (V' == V + {expanded} && expanded !in V && expanded in Cells())
  {
    ghost var Q := priorityQueue;
    var current, rest := Poll(priorityQueue);
    PolledCell(s, t, blockedCells, distances, predecessors, visited, D, V, P, Visited, Q, current);
    var x := current.x;
    var y := current.y;
    expanded := current.Cell();

    if visited[x, y] {
      PopSkipKeepsInv(s, t, blockedCells, D, V, P, Q, current);
      return rest, false, D, V, P, Visited, expanded;
    }

    queue, found, D', V', P', Visited' :=
      VisitCell(targetUnit, blockedCells, distances, predecessors, visited, current, rest, s, t, D, V, P, Visited, Q);
    InCells(expanded);
  }

  /** The rest of a pass, for a cell not expanded before: mark it visited,
      stop if it is the target's, and relax its neighbours if not. */
  method VisitCell(targetUnit: Unit, blockedCells: set<Edge>, distances: array2<int>,
                   predecessors: array2<Option<Edge>>, visited: array2<bool>, current: EdgeDistance, rest: Queue,
                   ghost s: Edge, ghost t: Edge, ghost D: Dist, ghost V: set<Edge>, ghost P: Preds,
                   ghost Visited: map<Edge, bool>, ghost Q: Queue)
    returns (queue: Queue, found: bool, ghost D': Dist, ghost V': set<Edge>, ghost P': Preds,
             ghost Visited': map<Edge, bool>)
    requires t == Edge(targetUnit.x, targetUnit.y)
    requires Searching(s, t, blockedCells, distances, predecessors, visited, D, V, P, Visited, Q)
    requires IsMinEntry(Q, current) && current.Cell() !in V && rest == Q - multiset{current}
    modifies distances, predecessors, visited
    ensures found ==> Mirrors(distances, D') && Mirrors(predecessors, P') && SearchDone(s, t, blockedCells, D', P')
    ensures !found ==> Searching(s, t, blockedCells, distances, predecessors, visited, D', V', P', Visited', queue)
    ensures !found ==> V' == V + {current.Cell()}
  {
    ghost var B := blockedCells;
    PolledCell(s, t, B, distances, predecessors, visited, D, V, P, Visited, Q, current);
    var x := current.x;
    var y := current.y;
    MarkVisited(visited, x, y, Visited);
    Visited' := Visited[current.Cell() := true];
    D', V', P' := D, V, P;

    if TargetReached(current, targetUnit) {
      TargetPopped(s, t, B, D, V, P, Q, current);
      return rest, true, D', V', P', Visited';
    }

    queue, D', V', P' := ExpandCell(blockedCells, distances, predecessors, current, rest, s, t, D, V, P, Q);
    found := false;
  }

  /** Relaxes the neighbours of a popped cell that is not the target's: the
      arrays then hold the relaxed tables, and the invariant holds with the
      cell expanded. */
  method ExpandCell(blockedCells: set<Edge>, distances: array2<int>, predecessors: array2<Option<Edge>>,
                    current: EdgeDistance, rest: Queue,
                    ghost s: Edge, ghost t: Edge, ghost D: Dist, ghost V: set<Edge>, ghost P: Preds, ghost Q: Queue)
    returns (queue: Queue, ghost D': Dist, ghost V': set<Edge>, ghost P': Preds)
    requires Mirrors(distances, D) && Mirrors(predecessors, P) && SearchInv(s, t, blockedCells, D, V, P, Q)
    requires IsMinEntry(Q, current) && current.Cell() !in V && current.Cell() != t && rest == Q - multiset{current}
    modifies distances, predecessors
    ensures Mirrors(distances, D') && Mirrors(predecessors, P') && SearchInv(s, t, blockedCells, D', V', P', queue)
    ensures V' == V + {current.Cell()}
  {
    ghost var B := blockedCells;
    ExpandKeepsInv(s, t, B, D, V, P, Q, current);
    queue := UpdateNeighbors(current, blockedCells, distances, predecessors, rest, D, P);
    D', P', V' := RelaxDist(D, current.Cell(), B), RelaxPreds(D, P, current.Cell(), B), V + {current.Cell()};
  }

  /**
   * getTargetPath: the route from the attacker's cell `s` to the target's
   * cell `t` avoiding the cells of the other alive units. The route is empty
   * exactly when `s` and `t` coincide or no route exists; otherwise it
   * starts next to `s`, takes only orthogonal steps onto enterable cells,
   * ends at `t`, never revisits `s`, and no route is shorter.
   */
  method GetTargetPath(attackUnit: Unit, targetUnit: Unit, existingUnitList: seq<Unit>)
    returns (path: seq<Edge>)
    requires InBounds(Edge(attackUnit.x, attackUnit.y)) && InBounds(Edge(targetUnit.x, targetUnit.y))
    ensures ShortestRoute(Edge(attackUnit.x, attackUnit.y), Edge(targetUnit.x, targetUnit.y),
                          BlockedCells(existingUnitList, attackUnit, targetUnit), path)
  {
    ghost var s, t := Edge(attackUnit.x, attackUnit.y), Edge(targetUnit.x, targetUnit.y);
    var distances := InitializeDistances();
    var visited := new bool[WIDTH, HEIGHT]((x, y) => false);
    var predecessors := new Option<Edge>[WIDTH, HEIGHT]((x, y) => None);
    var blockedCells := GetBlockedCells(existingUnitList, attackUnit, targetUnit);
    ghost var B := blockedCells;

    var priorityQueue: Queue := multiset{};
    priorityQueue := AddStartingPointToQueue(priorityQueue, attackUnit, distances, Constant(INF));
    ghost var D, P := SearchLoop(targetUnit, blockedCells, distances, predecessors, visited, priorityQueue, s, t);
    path := BuildPath(predecessors, targetUnit, P, D);
    TreeRoute(s, t, B, D, P, path);
    assert B == BlockedCells(existingUnitList, attackUnit, targetUnit);
  }

  /** Right after initialisation the arrays hold the search's initial tables
      and the queue holds only the start. */
  lemma InitialSearching(s: Edge, t: Edge, B: set<Edge>, distances: array2<int>,
                         predecessors: array2<Option<Edge>>, visited: array2<bool>, Q: Queue)
    requires InBounds(s) && Mirrors(distances, Constant(INF)[s := 0])
    requires BoardSized(predecessors) && BoardSized(visited)
    requires forall x, y :: 0 <= x < WIDTH && 0 <= y < HEIGHT ==> predecessors[x, y] == None && !visited[x, y]
    requires Q == multiset{} + multiset{EdgeDistance(s.x, s.y, 0)}
    ensures Searching(s, t, B, distances, predecessors, visited, InitialDist(s), {}, InitialPreds(), Constant(false), Q)
  {
    InitialState(s, Constant(INF)[s := 0], predecessors);
    ConstantArray(visited, false);
    InitialInv(s, t, B);
    assert Q == multiset{EdgeDistance(s.x, s.y, 0)};
  }

  /** The while loop of getTargetPath: passes until the queue runs empty or
      the target's cell is taken from it. */
  method SearchLoop(targetUnit: Unit, blockedCells: set<Edge>, distances: array2<int>,
                    predecessors: array2<Option<Edge>>, visited: array2<bool>, priorityQueue: Queue,
                    ghost s: Edge, ghost t: Edge)
    returns (ghost D': Dist, ghost P': Preds)
    requires t == Edge(targetUnit.x, targetUnit.y) && InBounds(t) && InBounds(s)
    requires Mirrors(distances, Constant(INF)[s := 0])
    requires BoardSized(predecessors) && BoardSized(visited)
    requires forall x, y :: 0 <= x < WIDTH && 0 <= y < HEIGHT ==> predecessors[x, y] == None && !visited[x, y]
    requires priorityQueue == multiset{} + multiset{EdgeDistance(s.x, s.y, 0)}
    modifies distances, predecessors, visited
    ensures Mirrors(predecessors, P') && SearchDone(s, t, blockedCells, D', P') && Ranked(D', P')
  {
    ghost var B := blockedCells;
    InitialSearching(s, t, B, distances, predecessors, visited, priorityQueue);
    var queue := priorityQueue;
    ghost var V: set<Edge>, Visited' := {}, Constant(false);
    D', P' := InitialDist(s), InitialPreds();
    var found := false;

    while |queue| > 0
      invariant Searching(s, t, B, distances, predecessors, visited, D', V, P', Visited', queue)
      decreases Cells() - V, |queue|
    {
      ghost var V0, expanded := V, s;
      queue, found, D', V, P', Visited', expanded :=
        SearchStep(targetUnit, blockedCells, distances, predecessors, visited, queue, s, t, D', V, P', Visited');
      if found {
        assert Ranked(D', P');
        return;
      }
      if V != V0 {
        Shrinks(V0, expanded);
      }
    }
    QueueExhausted(s, t, B, D', V, P', queue);
    assert Ranked(D', P');
  }

  /** Expanding cells of the board shrinks the set still to expand. */
  lemma Shrinks(V: set<Edge>, c: Edge)
    requires c in Cells() && c !in V
    ensures Cells() - (V + {c}) < Cells() - V
  {
    assert c in Cells() - V;
  }

  /** An array with the same value everywhere holds the constant table. */
  lemma ConstantArray<T>(a: array2<T>, v: T)
    requires BoardSized(a) && forall x, y :: 0 <= x < WIDTH && 0 <= y < HEIGHT ==> a[x, y] == v
    ensures Mirrors(a, Constant(v))
  {
    forall c ensures c in Constant(v) <==> InBounds(c) {
      InCells(c);
    }
  }

  /** The freshly initialised arrays hold the search's initial tables. */
  lemma InitialState(s: Edge, D: Dist, predecessors: array2<Option<Edge>>)
    requires InBounds(s) && D == Constant(INF)[s := 0]
    requires BoardSized(predecessors)
    requires forall x, y :: 0 <= x < WIDTH && 0 <= y < HEIGHT ==> predecessors[x, y] == None
    ensures D == InitialDist(s) && Mirrors(predecessors, InitialPreds())
  {
    forall c ensures c in D <==> c in InitialDist(s) {
      InCells(c);
    }
    forall c ensures c in InitialPreds() <==> InBounds(c) {
      InCells(c);
    }
  }
}
