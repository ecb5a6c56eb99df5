/**
 * The shortest-path search of the path finder, stated on values. The search
 * keeps a distance table D, a visited set V, a predecessor table P and a
 * priority queue Q (a multiset: which of several entries with the smallest
 * distance is taken first is left open). SearchInv is the invariant the
 * search loop keeps; the lemmas below show that each step of the loop keeps
 * it and what it gives when the loop stops.
 */
module Search {
  import opened Grid
  import opened Optional

  type Dist = map<Edge, int>
  type Preds = map<Edge, Option<Edge>>
  type Queue = multiset<EdgeDistance>

  /** Both tables hold exactly the cells of the board. */
  ghost predicate Tables(D: Dist, P: Preds) {
    forall c :: (c in D <==> InBounds(c)) && (c in P <==> InBounds(c))
  }

  /** The predecessor tree rooted at the start cell `s`: `s` has distance 0
      and no predecessor; every other cell has a predecessor exactly when it
      has been reached, that predecessor is an orthogonal neighbour one step
      closer, and the cell itself may be entered. */
  ghost predicate PredTree(s: Edge, B: set<Edge>, D: Dist, P: Preds) {
    Tables(D, P) && InBounds(s) && D[s] == 0 && P[s] == None &&
    (forall c {:trigger D[c]} :: c in D ==> 0 <= D[c] <= INF) &&
    (forall c {:trigger P[c]} :: c in D && c != s ==> (D[c] < INF <==> P[c].Some?)) &&
    (forall c {:trigger P[c]} :: c in P && P[c].Some? ==>
       InBounds(P[c].value) && Adjacent(P[c].value, c) && IsValid(c, B) &&
       D[c] == D[P[c].value] + 1)
  }

  /** The invariant of the search loop (start `s`, target `t`, blocked `B`). */
  ghost predicate SearchInv(s: Edge, t: Edge, B: set<Edge>, D: Dist, V: set<Edge>, P: Preds, Q: Queue) {
    PredTree(s, B, D, P) &&
    // predecessors are expanded cells
    (forall c {:trigger P[c]} :: c in P && P[c].Some? ==> P[c].value in V) &&
    // expanded cells are on the board and closer than the number of expansions
    (forall u {:trigger u in V} :: u in V ==> InBounds(u) && D[u] < |V|) &&
    // the loop stops as soon as the target is expanded
    t !in V &&
    // queue entries are on the board and never below the cell's distance
    (forall e {:trigger Q[e]} :: e in Q ==> InBounds(e.Cell()) && D[e.Cell()] <= e.distance <= |V|) &&
    // every reached, unexpanded cell is queued with its current distance
    (forall c {:trigger D[c]} :: c in D && c !in V && D[c] < INF ==> EdgeDistance(c.x, c.y, D[c]) in Q) &&
    // expansion order is by distance
    (forall u, e {:trigger u in V, Q[e]} :: u in V && e in Q ==> D[u] <= e.distance) &&
    // expanded cells have relaxed all their enterable neighbours
    (forall u, v {:trigger u in V, Adjacent(u, v)} :: u in V && Adjacent(u, v) && IsValid(v, B) ==> D[v] <= D[u] + 1) &&
    // expanded cells carry their shortest distance
    (forall w {:trigger IsWalk(w, B)} :: IsWalk(w, B) && w[0] == s && w[|w| - 1] in V ==> D[w[|w| - 1]] <= |w| - 1)
  }

  /** What the search establishes when it stops: the predecessor tree, and the
      target's distance is the length of a shortest walk, or "infinity"
      exactly when there is no walk at all. */
  ghost predicate SearchDone(s: Edge, t: Edge, B: set<Edge>, D: Dist, P: Preds) {
    PredTree(s, B, D, P) && InBounds(t) &&
    (D[t] < INF ==> forall w {:trigger WalkFromTo(w, s, t, B)} :: WalkFromTo(w, s, t, B) ==> D[t] <= |w| - 1) &&
    (D[t] == INF ==> !Reachable(s, t, B))
  }

  /** The tables after initialisation: every distance "infinity" except the
      start's, which is 0; no predecessors. */
  ghost function InitialDist(s: Edge): Dist {
    map c | c in Cells() :: if c == s then 0 else INF
  }

  ghost function InitialPreds(): Preds {
    map c | c in Cells() :: None
  }

  /** Relaxing `v` from the expanded cell `c` lowers its distance. */
  ghost predicate Improves(D: Dist, c: Edge, v: Edge, B: set<Edge>) {
    c in D && Adjacent(c, v) && IsValid(v, B) && v in D && D[c] + 1 < D[v]
  }

  ghost function RelaxDist(D: Dist, c: Edge, B: set<Edge>): Dist {
    map v | v in D :: if Improves(D, c, v, B) then D[c] + 1 else D[v]
  }

  ghost function RelaxPreds(D: Dist, P: Preds, c: Edge, B: set<Edge>): Preds {
    map v | v in P :: if Improves(D, c, v, B) then Some(c) else P[v]
  }

  /** `v` is one of the neighbours reached through the first `k` directions. */
  ghost predicate AmongFirst(c: Edge, v: Edge, k: int) {
    exists j :: 0 <= j < k && j < 4 && v == Neighbor(c, j)
  }

  /** The tables after relaxing through the first `k` directions only, one
      direction at a time. Relaxing never adds or drops a key. */
  ghost function RelaxDistUpTo(D: Dist, c: Edge, B: set<Edge>, k: int): (r: Dist)
    requires 0 <= k <= 4
    ensures forall v :: v in r <==> v in D
  {
    if k == 0 then D
    else
      var n := Neighbor(c, k - 1);
      if Improves(D, c, n, B) then RelaxDistUpTo(D, c, B, k - 1)[n := D[c] + 1]
      else RelaxDistUpTo(D, c, B, k - 1)
  }

  ghost function RelaxPredsUpTo(D: Dist, P: Preds, c: Edge, B: set<Edge>, k: int): (r: Preds)
    requires 0 <= k <= 4 && forall v :: v in D <==> v in P
    ensures forall v :: v in r <==> v in P
  {
    if k == 0 then P
    else
      var n := Neighbor(c, k - 1);
      if Improves(D, c, n, B) then RelaxPredsUpTo(D, P, c, B, k - 1)[n := Some(c)]
      else RelaxPredsUpTo(D, P, c, B, k - 1)
  }

  /** Direction `k` reaches the first `k + 1` neighbours: those of the
      first `k` and the `k`-th. */
  lemma AmongFirstStep(c: Edge, v: Edge, k: int)
    requires 0 <= k < 4
    ensures AmongFirst(c, v, k + 1) <==> AmongFirst(c, v, k) || v == Neighbor(c, k)
  {
    if AmongFirst(c, v, k + 1) {
      var j :| 0 <= j < k + 1 && j < 4 && v == Neighbor(c, j);
      if j < k { assert AmongFirst(c, v, k); }
    }
  }

  /** After `k` directions, exactly the improvable neighbours among the first
      `k` have a new distance. */
  lemma {:induction false} DistUpToIs(D: Dist, c: Edge, B: set<Edge>, k: int, v: Edge)
    requires 0 <= k <= 4 && v in D
    ensures RelaxDistUpTo(D, c, B, k)[v] ==
              if AmongFirst(c, v, k) && Improves(D, c, v, B) then D[c] + 1 else D[v]
  {
    if k > 0 {
      DistUpToIs(D, c, B, k - 1, v);
      AmongFirstStep(c, v, k - 1);
    }
  }

  /** After `k` directions, exactly the improvable neighbours among the first
      `k` have the expanded cell as predecessor. */
  lemma {:induction false} PredsUpToIs(D: Dist, P: Preds, c: Edge, B: set<Edge>, k: int, v: Edge)
    requires 0 <= k <= 4 && (forall u :: u in D <==> u in P) && v in P
    ensures RelaxPredsUpTo(D, P, c, B, k)[v] ==
              if AmongFirst(c, v, k) && Improves(D, c, v, B) then Some(c) else P[v]
  {
    if k > 0 {
      PredsUpToIs(D, P, c, B, k - 1, v);
      AmongFirstStep(c, v, k - 1);
    }
  }

  /** Direction `k` as the search performs it, on the table `Dk` left by the
      first `k` directions: before it, the expanded cell and that direction's
      neighbour still hold their starting values; an enterable neighbour
      whose distance in `Dk` exceeds the expanded cell's by more than one
      gets that distance plus one, and otherwise the table is unchanged. */
  lemma RelaxStep(D: Dist, c: Edge, B: set<Edge>, k: int)
    requires 0 <= k < 4 && c in D
    ensures var n := Neighbor(c, k);
      RelaxDistUpTo(D, c, B, k)[c] == D[c] &&
      (n in D ==> RelaxDistUpTo(D, c, B, k)[n] == D[n])
    ensures var n, Dk := Neighbor(c, k), RelaxDistUpTo(D, c, B, k);
      RelaxDistUpTo(D, c, B, k + 1) ==
        if IsValid(n, B) && n in Dk && Dk[c] + 1 < Dk[n] then Dk[n := Dk[c] + 1] else Dk
  {
    var n := Neighbor(c, k);
    DistUpToIs(D, c, B, k, c);
    assert !AmongFirst(c, c, 4);
    if n in D {
      DistUpToIs(D, c, B, k, n);
      assert !AmongFirst(c, n, k);
    }
    NeighborIsAdjacent(c, k);
  }

  /** Relaxing through all four directions is relaxing every neighbour. */
  lemma RelaxAllDirections(D: Dist, P: Preds, c: Edge, B: set<Edge>)
    requires forall v :: v in D <==> v in P
    ensures RelaxDistUpTo(D, c, B, 4) == RelaxDist(D, c, B)
    ensures RelaxPredsUpTo(D, P, c, B, 4) == RelaxPreds(D, P, c, B)
  {
    forall v | v in D ensures RelaxDistUpTo(D, c, B, 4)[v] == RelaxDist(D, c, B)[v] {
      DistUpToIs(D, c, B, 4, v);
      NeighborsAreAdjacent(c, v);
    }
    forall v | v in P ensures RelaxPredsUpTo(D, P, c, B, 4)[v] == RelaxPreds(D, P, c, B)[v] {
      PredsUpToIs(D, P, c, B, 4, v);
      NeighborsAreAdjacent(c, v);
    }
  }

  /** The entries offered while relaxing from `c` through the first `k`
      directions, in direction order. */
  ghost function Offers(D: Dist, c: Edge, B: set<Edge>, k: int): seq<EdgeDistance>
    requires 0 <= k <= 4
  {
    if k == 0 then []
    else
      var n := Neighbor(c, k - 1);
      Offers(D, c, B, k - 1) + if Improves(D, c, n, B) then [EdgeDistance(n.x, n.y, D[c] + 1)] else []
  }

  /** When the neighbour in direction `k` improves, relaxing that direction
      gives it the distance one more than the expanded cell's and the
      expanded cell as predecessor, and offers one more queue entry. */
  lemma ImprovingStep(D: Dist, P: Preds, c: Edge, B: set<Edge>, k: int)
    requires 0 <= k < 4 && forall v :: v in D <==> v in P
    requires Improves(D, c, Neighbor(c, k), B)
    ensures var n := Neighbor(c, k);
      RelaxDistUpTo(D, c, B, k + 1) == RelaxDistUpTo(D, c, B, k)[n := D[c] + 1] &&
      RelaxPredsUpTo(D, P, c, B, k + 1) == RelaxPredsUpTo(D, P, c, B, k)[n := Some(c)] &&
      multiset(Offers(D, c, B, k + 1)) ==
        multiset(Offers(D, c, B, k)) + multiset{EdgeDistance(n.x, n.y, D[c] + 1)}
  {
    ImprovingOffer(D, c, B, k);
  }

  /** The offers part of `ImprovingStep`. */
  lemma ImprovingOffer(D: Dist, c: Edge, B: set<Edge>, k: int)
    requires 0 <= k < 4 && Improves(D, c, Neighbor(c, k), B)
    ensures var n := Neighbor(c, k);
      multiset(Offers(D, c, B, k + 1)) ==
        multiset(Offers(D, c, B, k)) + multiset{EdgeDistance(n.x, n.y, D[c] + 1)}
  {
    var n := Neighbor(c, k);
    var e := EdgeDistance(n.x, n.y, D[c] + 1);
    assert Offers(D, c, B, k + 1) == Offers(D, c, B, k) + [e];
    assert multiset(Offers(D, c, B, k) + [e]) == multiset(Offers(D, c, B, k)) + multiset{e};
  }

  /** When the neighbour in direction `k` does not improve, relaxing that
      direction changes nothing and offers nothing. */
  lemma UnchangedStep(D: Dist, P: Preds, c: Edge, B: set<Edge>, k: int)
    requires 0 <= k < 4 && forall v :: v in D <==> v in P
    requires !Improves(D, c, Neighbor(c, k), B)
    ensures RelaxDistUpTo(D, c, B, k + 1) == RelaxDistUpTo(D, c, B, k)
    ensures RelaxPredsUpTo(D, P, c, B, k + 1) == RelaxPredsUpTo(D, P, c, B, k)
    ensures Offers(D, c, B, k + 1) == Offers(D, c, B, k)
  {
    assert Offers(D, c, B, k + 1) == Offers(D, c, B, k) + [];
  }

  /** The offered entries are exactly the improved neighbours, each with the
      distance one more than the expanded cell's. */
  lemma {:induction false} OffersAre(D: Dist, c: Edge, B: set<Edge>, k: int)
    requires 0 <= k <= 4
    ensures forall e :: e in Offers(D, c, B, k) ==>
              Improves(D, c, e.Cell(), B) && e.distance == D[c] + 1
    ensures forall j :: 0 <= j < k && Improves(D, c, Neighbor(c, j), B) ==>
              EdgeDistance(Neighbor(c, j).x, Neighbor(c, j).y, D[c] + 1) in Offers(D, c, B, k)
  {
    if k > 0 {
      OffersAre(D, c, B, k - 1);
    }
  }

  lemma InitialInv(s: Edge, t: Edge, B: set<Edge>)
    requires InBounds(s)
    ensures SearchInv(s, t, B, InitialDist(s), {}, InitialPreds(), multiset{EdgeDistance(s.x, s.y, 0)})
  {
    var D, P, Q := InitialDist(s), InitialPreds(), multiset{EdgeDistance(s.x, s.y, 0)};
    assert s in Cells();
    forall c ensures (c in D <==> InBounds(c)) && (c in P <==> InBounds(c)) {
      if InBounds(c) { assert c == Edge(c.x, c.y); }
    }
    forall c | c in D && c !in {} && D[c] < INF ensures EdgeDistance(c.x, c.y, D[c]) in Q {
      assert c == s;
    }
  }

  /** The position of the first cell of `w` outside `V`. */
  lemma FirstOutside(w: seq<Edge>, V: set<Edge>) returns (j: int)
    requires |w| >= 1 && w[|w| - 1] !in V
    ensures 0 <= j < |w| && w[j] !in V
    ensures forall i :: 0 <= i < j ==> w[i] in V
  {
    j := 0;
    while w[j] in V
      invariant 0 <= j < |w|
      invariant forall i :: 0 <= i < j ==> w[i] in V
      decreases |w| - j
    {
      j := j + 1;
    }
  }

  /** Any walk from the start to an unexpanded cell passes an unexpanded cell
      that is queued with a distance no larger than the walk's length. */
  lemma WalkMeetsQueue(s: Edge, t: Edge, B: set<Edge>, D: Dist, V: set<Edge>, P: Preds, Q: Queue, w: seq<Edge>)
    returns (e: EdgeDistance)
    requires SearchInv(s, t, B, D, V, P, Q)
    requires IsWalk(w, B) && w[0] == s && w[|w| - 1] !in V
    ensures e in Q && e.distance <= |w| - 1
  {
    var j := FirstOutside(w, V);
    var v := w[j];
    OutsideBound(s, t, B, D, V, P, Q, w, j);
    CellsBound(V);
    assert D[v] < INF;
    e := EdgeDistance(v.x, v.y, D[v]);
  }

  /** The first unexpanded cell on a walk from the start is no farther than
      its position on the walk: its predecessor on the walk is expanded. */
  lemma OutsideBound(s: Edge, t: Edge, B: set<Edge>, D: Dist, V: set<Edge>, P: Preds, Q: Queue,
                     w: seq<Edge>, j: int)
    requires SearchInv(s, t, B, D, V, P, Q)
    requires IsWalk(w, B) && w[0] == s && 0 <= j < |w| && w[j] !in V
    requires forall i :: 0 <= i < j ==> w[i] in V
    ensures D[w[j]] <= j && D[w[j]] <= |V|
  {
    if j > 0 {
      var u := w[j - 1];
      WalkPrefix(w, B, j);
      assert w[..j][j - 1] == u;
      assert D[u] <= j - 1;
    }
  }

  /** The entry popped for an unexpanded cell carries that cell's distance,
      which no walk from the start undercuts. */
  lemma PopFresh(s: Edge, t: Edge, B: set<Edge>, D: Dist, V: set<Edge>, P: Preds, Q: Queue, e: EdgeDistance)
    requires SearchInv(s, t, B, D, V, P, Q)
    requires IsMinEntry(Q, e)
    requires e.Cell() !in V
    ensures D[e.Cell()] == e.distance
    ensures forall w :: WalkFromTo(w, s, e.Cell(), B) ==> D[e.Cell()] <= |w| - 1
  {
    var c := e.Cell();
    CellsBound(V);
    assert EdgeDistance(c.x, c.y, D[c]) in Q;
    forall w | WalkFromTo(w, s, c, B) ensures D[c] <= |w| - 1 {
      var f := WalkMeetsQueue(s, t, B, D, V, P, Q, w);
    }
  }

  /** `e` is an entry of `Q` with the smallest distance. */
  predicate IsMinEntry(Q: Queue, e: EdgeDistance) {
    e in Q && forall f {:trigger Q[f]} :: f in Q ==> e.distance <= f.distance
  }

  /** The facts about one expansion step that the parts below share. */
  lemma ExpandBasics(s: Edge, t: Edge, B: set<Edge>, D: Dist, V: set<Edge>, P: Preds, Q: Queue, e: EdgeDistance)
    requires SearchInv(s, t, B, D, V, P, Q)
    requires IsMinEntry(Q, e) && e.Cell() !in V
    ensures D[e.Cell()] == e.distance && D[e.Cell()] < |V| + 1 && |V| < INF - 1
    ensures forall u :: u in V + {e.Cell()} ==>
              RelaxDist(D, e.Cell(), B)[u] == D[u] && RelaxPreds(D, P, e.Cell(), B)[u] == P[u]
    ensures RelaxDist(D, e.Cell(), B)[s] == 0 && RelaxPreds(D, P, e.Cell(), B)[s] == None
    ensures forall v :: v in D ==>
              RelaxDist(D, e.Cell(), B)[v] <= D[v] &&
              (RelaxDist(D, e.Cell(), B)[v] < D[v] ==> Improves(D, e.Cell(), v, B))
    ensures forall e' :: e' in Offers(D, e.Cell(), B, 4) ==>
              Improves(D, e.Cell(), e'.Cell(), B) && e'.distance == D[e.Cell()] + 1
  {
    PopFresh(s, t, B, D, V, P, Q, e);
    CellsBound(V);
    OffersAre(D, e.Cell(), B, 4);
  }

  lemma ExpandPredTree(s: Edge, t: Edge, B: set<Edge>, D: Dist, V: set<Edge>, P: Preds, Q: Queue, e: EdgeDistance)
    requires SearchInv(s, t, B, D, V, P, Q)
    requires IsMinEntry(Q, e) && e.Cell() !in V
    ensures PredTree(s, B, RelaxDist(D, e.Cell(), B), RelaxPreds(D, P, e.Cell(), B))
    ensures forall c :: c in RelaxPreds(D, P, e.Cell(), B) && RelaxPreds(D, P, e.Cell(), B)[c].Some? ==>
              RelaxPreds(D, P, e.Cell(), B)[c].value in V + {e.Cell()}
  {
    ExpandBasics(s, t, B, D, V, P, Q, e);
    var c := e.Cell();
    var D', P' := RelaxDist(D, c, B), RelaxPreds(D, P, c, B);
    forall v | v in P' && P'[v].Some?
      ensures InBounds(P'[v].value) && Adjacent(P'[v].value, v) && IsValid(v, B) &&
              D'[v] == D'[P'[v].value] + 1
    {
      if !Improves(D, c, v, B) {
        assert P[v].value in V;
      }
    }
  }

  lemma ExpandQueue(s: Edge, t: Edge, B: set<Edge>, D: Dist, V: set<Edge>, P: Preds, Q: Queue, e: EdgeDistance)
    requires SearchInv(s, t, B, D, V, P, Q)
    requires IsMinEntry(Q, e) && e.Cell() !in V
    ensures var D', V', Q' := RelaxDist(D, e.Cell(), B), V + {e.Cell()},
                              (Q - multiset{e}) + multiset(Offers(D, e.Cell(), B, 4));
      (forall e' :: e' in Q' ==> InBounds(e'.Cell()) && D'[e'.Cell()] <= e'.distance <= |V'|) &&
      (forall u, e' :: u in V' && e' in Q' ==> D'[u] <= e'.distance)
  {
    ExpandBasics(s, t, B, D, V, P, Q, e);
    var c := e.Cell();
    var D', V' := RelaxDist(D, c, B), V + {c};
    var offers := Offers(D, c, B, 4);
    var Q' := (Q - multiset{e}) + multiset(offers);
    assert |V'| == |V| + 1;
    forall e' | e' in Q' ensures InBounds(e'.Cell()) && D'[e'.Cell()] <= e'.distance <= |V'| {
      if e' in multiset(offers) {
        assert e' in offers;
      } else {
        assert e' in Q;
      }
    }
    forall u, e' | u in V' && e' in Q' ensures D'[u] <= e'.distance {
      if e' in multiset(offers) {
        assert e' in offers;
      } else {
        assert e' in Q;
      }
    }
  }

  lemma ExpandQueued(s: Edge, t: Edge, B: set<Edge>, D: Dist, V: set<Edge>, P: Preds, Q: Queue, e: EdgeDistance)
    requires SearchInv(s, t, B, D, V, P, Q)
    requires IsMinEntry(Q, e) && e.Cell() !in V
    ensures var D', V', Q' := RelaxDist(D, e.Cell(), B), V + {e.Cell()},
                              (Q - multiset{e}) + multiset(Offers(D, e.Cell(), B, 4));
      forall v :: v in D' && v !in V' && D'[v] < INF ==> EdgeDistance(v.x, v.y, D'[v]) in Q'
  {
    ExpandBasics(s, t, B, D, V, P, Q, e);
    var c := e.Cell();
    var D', V' := RelaxDist(D, c, B), V + {c};
    var offers := Offers(D, c, B, 4);
    var Q' := (Q - multiset{e}) + multiset(offers);
    OffersAre(D, c, B, 4);
    forall v | v in D' && v !in V' && D'[v] < INF ensures EdgeDistance(v.x, v.y, D'[v]) in Q' {
      if Improves(D, c, v, B) {
        NeighborsAreAdjacent(c, v);
        var k :| 0 <= k < 4 && v == Neighbor(c, k);
        assert D'[v] == D[c] + 1;
        assert EdgeDistance(v.x, v.y, D'[v]) in offers;
        assert EdgeDistance(v.x, v.y, D'[v]) in multiset(offers);
      } else {
        var f := EdgeDistance(v.x, v.y, D[v]);
        assert D'[v] == D[v];
        assert v != c;
        assert f in Q && f != e;
        assert f in Q - multiset{e};
      }
    }
  }

  lemma ExpandRelaxed(s: Edge, t: Edge, B: set<Edge>, D: Dist, V: set<Edge>, P: Preds, Q: Queue, e: EdgeDistance)
    requires SearchInv(s, t, B, D, V, P, Q)
    requires IsMinEntry(Q, e) && e.Cell() !in V
    ensures var D', V' := RelaxDist(D, e.Cell(), B), V + {e.Cell()};
      (forall u :: u in V' ==> InBounds(u) && D'[u] < |V'|) &&
      (forall u, v :: u in V' && Adjacent(u, v) && IsValid(v, B) ==> D'[v] <= D'[u] + 1) &&
      (forall w :: IsWalk(w, B) && w[0] == s && w[|w| - 1] in V' ==> D'[w[|w| - 1]] <= |w| - 1)
  {
    ExpandBasics(s, t, B, D, V, P, Q, e);
    PopFresh(s, t, B, D, V, P, Q, e);
    var c := e.Cell();
    var D', V' := RelaxDist(D, c, B), V + {c};
    assert |V'| == |V| + 1;
    forall u | u in V' ensures InBounds(u) && D'[u] < |V'| {
    }
    forall u, v | u in V' && Adjacent(u, v) && IsValid(v, B) ensures D'[v] <= D'[u] + 1 {
      if u == c {
        assert D'[v] == if Improves(D, c, v, B) then D[c] + 1 else D[v];
      } else {
        assert D[v] <= D[u] + 1;
      }
    }
    forall w | IsWalk(w, B) && w[0] == s && w[|w| - 1] in V' ensures D'[w[|w| - 1]] <= |w| - 1 {
      if w[|w| - 1] != c {
        assert D[w[|w| - 1]] <= |w| - 1;
      } else {
        assert WalkFromTo(w, s, c, B);
      }
    }
  }

  /** Expanding a popped, unexpanded cell other than the target (mark it
      visited, relax its four neighbours, queue the improved ones) keeps the
      invariant. */
  lemma ExpandKeepsInv(s: Edge, t: Edge, B: set<Edge>, D: Dist, V: set<Edge>, P: Preds, Q: Queue, e: EdgeDistance)
    requires SearchInv(s, t, B, D, V, P, Q)
    requires IsMinEntry(Q, e) && e.Cell() !in V && e.Cell() != t
    ensures SearchInv(s, t, B, RelaxDist(D, e.Cell(), B), V + {e.Cell()},
                      RelaxPreds(D, P, e.Cell(), B),
                      (Q - multiset{e}) + multiset(Offers(D, e.Cell(), B, 4)))
  {
    ExpandPredTree(s, t, B, D, V, P, Q, e);
    ExpandQueue(s, t, B, D, V, P, Q, e);
    ExpandQueued(s, t, B, D, V, P, Q, e);
    ExpandRelaxed(s, t, B, D, V, P, Q, e);
  }

  /** Popping the target ends the search with its shortest distance. */
  lemma TargetPopped(s: Edge, t: Edge, B: set<Edge>, D: Dist, V: set<Edge>, P: Preds, Q: Queue, e: EdgeDistance)
    requires SearchInv(s, t, B, D, V, P, Q)
    requires IsMinEntry(Q, e)
    requires e.Cell() == t
    ensures SearchDone(s, t, B, D, P)
  {
    PopFresh(s, t, B, D, V, P, Q, e);
    CellsBound(V);
  }

  /** An empty queue ends the search with the target out of reach. */
  lemma QueueExhausted(s: Edge, t: Edge, B: set<Edge>, D: Dist, V: set<Edge>, P: Preds, Q: Queue)
    requires SearchInv(s, t, B, D, V, P, Q) && |Q| == 0
    requires InBounds(t)
    ensures SearchDone(s, t, B, D, P)
    ensures D[t] == INF
  {
    assert D[t] == INF;
    if Reachable(s, t, B) {
      var w :| WalkFromTo(w, s, t, B);
      var e := WalkMeetsQueue(s, t, B, D, V, P, Q, w);
    }
  }

  /** Popping an entry of an already expanded cell changes nothing else. */
  lemma PopSkipKeepsInv(s: Edge, t: Edge, B: set<Edge>, D: Dist, V: set<Edge>, P: Preds, Q: Queue, e: EdgeDistance)
    requires SearchInv(s, t, B, D, V, P, Q)
    requires e in Q && e.Cell() in V
    ensures SearchInv(s, t, B, D, V, P, Q - multiset{e})
  {
    forall c | c in D && c !in V && D[c] < INF ensures EdgeDistance(c.x, c.y, D[c]) in Q - multiset{e} {
      assert EdgeDistance(c.x, c.y, D[c]) != e;
    }
  }

  /** Each predecessor is one step closer and on the board: following them
      from any cell ends. */
  ghost predicate Ranked(D: Dist, P: Preds) {
    Tables(D, P) &&
    (forall c :: c in D ==> D[c] >= 0) &&
    (forall c :: c in P && P[c].Some? ==> InBounds(P[c].value) && D[c] == D[P[c].value] + 1)
  }

  /** `path` is the predecessor chain that ends at `t`, read back from the
      first cell whose predecessor has none. */
  ghost predicate PredChain(P: Preds, t: Edge, path: seq<Edge>) {
    |path| >= 1 && path[|path| - 1] == t &&
    (forall i :: 0 <= i < |path| ==> path[i] in P && P[path[i]].Some?) &&
    (forall i :: 1 <= i < |path| ==> P[path[i]] == Some(path[i - 1])) &&
    P[path[0]].value in P && P[P[path[0]].value] == None
  }

  /** Along a predecessor chain of the tree the distances count up from 1,
      and the chain hangs off the start. */
  lemma ChainDistances(s: Edge, t: Edge, B: set<Edge>, D: Dist, P: Preds, path: seq<Edge>)
    requires PredTree(s, B, D, P) && PredChain(P, t, path)
    ensures P[path[0]] == Some(s)
    ensures forall j :: 0 <= j < |path| ==> D[path[j]] == j + 1
  {
    var r := P[path[0]].value;
    assert r == s by {
      assert D[path[0]] == D[r] + 1 && D[path[0]] <= INF;
    }
    for i := 0 to |path|
      invariant forall j :: 0 <= j < i ==> D[path[j]] == j + 1
    {
      if i > 0 {
        assert P[path[i]] == Some(path[i - 1]);
      }
    }
  }

  /** A predecessor chain of the tree, preceded by the start, is a walk. */
  lemma ChainIsWalk(s: Edge, t: Edge, B: set<Edge>, D: Dist, P: Preds, path: seq<Edge>)
    requires PredTree(s, B, D, P) && PredChain(P, t, path) && P[path[0]] == Some(s)
    ensures WalkFromTo([s] + path, s, t, B) && s !in path
  {
    var w := [s] + path;
    forall i | 1 <= i < |w| ensures Adjacent(w[i - 1], w[i]) && IsValid(w[i], B) {
      assert w[i] == path[i - 1];
      if i == 1 {
        assert P[path[0]] == Some(s);
      } else {
        assert w[i - 1] == path[i - 2];
        assert P[path[i - 1]] == Some(path[i - 2]);
      }
    }
  }

  /** After the search, the predecessor chain of the target, preceded by the
      start, is a walk to the target, and a shortest one. */
  lemma ChainIsShortestWalk(s: Edge, t: Edge, B: set<Edge>, D: Dist, P: Preds, path: seq<Edge>)
    requires SearchDone(s, t, B, D, P) && PredChain(P, t, path)
    ensures WalkFromTo([s] + path, s, t, B) && s !in path && |path| == D[t]
    ensures forall w :: WalkFromTo(w, s, t, B) ==> |path| <= |w| - 1
  {
    ChainDistances(s, t, B, D, P, path);
    ChainIsWalk(s, t, B, D, P, path);
  }

  /** `path` is what getTargetPath promises for start `s`, target `t` and
      blocked cells `B`: empty exactly when `s` is `t` or no walk joins them,
      otherwise the cells after `s` of a walk to `t` that does not come back
      to `s`, and never longer than any walk from `s` to `t`. */
  ghost predicate ShortestRoute(s: Edge, t: Edge, B: set<Edge>, path: seq<Edge>) {
    (path == [] <==> s == t || !Reachable(s, t, B)) &&
    (path != [] ==> WalkFromTo([s] + path, s, t, B) && s !in path) &&
    (forall w {:trigger WalkFromTo(w, s, t, B)} :: WalkFromTo(w, s, t, B) ==> |path| <= |w| - 1)
  }

  /** The route read off a finished search's predecessor tree is empty
      exactly when the start is the target or the target is out of reach,
      and is a shortest walk otherwise. */
  lemma TreeRoute(s: Edge, t: Edge, B: set<Edge>, D: Dist, P: Preds, path: seq<Edge>)
    requires SearchDone(s, t, B, D, P)
    requires P[t] == None ==> path == []
    requires P[t] != None ==> PredChain(P, t, path)
    ensures ShortestRoute(s, t, B, path)
  {
    if P[t] != None {
      ChainIsShortestWalk(s, t, B, D, P, path);
      assert WalkFromTo([s] + path, s, t, B);
    } else if s != t {
      assert D[t] == INF;
    }
  }
}
