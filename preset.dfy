/**
 * GeneratePresetImpl: builds the computer's army from a list of unit
 * templates and a point budget. Templates are taken in list order; each is
 * copied while it has fewer than UNITS_TYPE_COUNT copies and its cost still
 * fits the budget. Every copy is placed on a free cell of the WIDTH_ARMY x
 * HEIGHT_ARMY deployment area, chosen by drawing random coordinates until a
 * free one comes up.
 */
module Preset {
  import Grid
  import opened Units

  const UNITS_TYPE_COUNT := 11
  const HEIGHT_ARMY := 21
  const WIDTH_ARMY := 3

  /** Coordinate: compared by its two fields (equals/hashCode), so a value;
      it is the grid point of the board. */
  type Coordinate = Grid.Edge

  predicate InArea(c: Coordinate) {
    0 <= c.x < WIDTH_ARMY && 0 <= c.y < HEIGHT_ARMY
  }

  /** While fewer than 63 cells of the area are taken, a free one remains. */
  lemma FreeCellExists(occupied: set<Coordinate>)
    requires forall c :: c in occupied ==> InArea(c)
    requires |occupied| < WIDTH_ARMY * HEIGHT_ARMY
    ensures exists c :: InArea(c) && c !in occupied
  {
    if forall c :: InArea(c) ==> c in occupied {
      Grid.BlockSize(WIDTH_ARMY, HEIGHT_ARMY);
      assert Grid.Block(WIDTH_ARMY, HEIGHT_ARMY) <= occupied;
      Grid.SubsetSize(Grid.Block(WIDTH_ARMY, HEIGHT_ARMY), occupied);
      assert false;
    }
  }

  // ---------------------------------------------------------------------
  // java.util.Random

  /** The random source, as the values its successive nextInt calls produce
      before reduction to the requested bound: value p is drawn by call p. */
  class Random {
    const values: imap<nat, nat>
    var position: nat

    constructor (values: imap<nat, nat>)
      ensures this.values == values && position == 0
    {
      this.values := values;
      position := 0;
    }

    /** nextInt(bound): the next value, in [0, bound). */
    method NextInt(bound: int) returns (r: int)
      requires bound > 0 && Endless(values)
      modifies this
      ensures old(position) in values && r == values[old(position)] % bound
      ensures 0 <= r < bound
      ensures position == old(position) + 1
    {
      r := values[position] % bound;
      position := position + 1;
    }
  }

  /** The stream never runs out. */
  ghost predicate Endless(values: imap<nat, nat>) {
    forall p: nat :: p in values
  }

  /** The coordinate drawn by the k-th pair of draws counted from position p. */
  ghost function DrawnAt(values: imap<nat, nat>, p: nat, k: nat): Coordinate
    requires Endless(values)
  {
    Grid.Edge(values[p + 2 * k] % WIDTH_ARMY, values[p + 2 * k + 1] % HEIGHT_ARMY)
  }

  ghost predicate Hits(values: imap<nat, nat>, p: nat, c: Coordinate)
    requires Endless(values)
  {
    exists k: nat :: DrawnAt(values, p, k) == c
  }

  /** The draws never run out and keep coming back to every cell of the
      area: from any point on, every cell is drawn as some later pair.
      Without this the retry loop of addUnit need not stop. */
  ghost predicate Fair(values: imap<nat, nat>) {
    Endless(values) && forall p: nat, c: Coordinate :: InArea(c) ==> Hits(values, p, c)
  }

  // ---------------------------------------------------------------------
  // Names: unitType + " " + index

  function Digit(d: nat): char
    requires d < 10
  {
    "0123456789"[d]
  }

  predicate IsDigit(c: char) {
    '0' as int <= c as int <= '9' as int
  }

  /** The decimal rendering of an index, as Java's string concatenation writes it. */
  function IntToString(n: nat): (s: string)
    ensures |s| > 0 && forall i :: 0 <= i < |s| ==> IsDigit(s[i])
  {
    if n < 10 then [Digit(n)] else IntToString(n / 10) + [Digit(n % 10)]
  }

  /** The number a string of decimal digits denotes: the inverse of IntToString. */
  function DecimalValue(s: string): nat
    requires forall i :: 0 <= i < |s| ==> IsDigit(s[i])
  {
    if |s| == 0 then 0
    else
      assert IsDigit(s[|s| - 1]);
      10 * DecimalValue(s[..|s| - 1]) + (s[|s| - 1] as int - '0' as int)
  }

  lemma {:induction false} DecimalRoundTrip(n: nat)
    ensures DecimalValue(IntToString(n)) == n
  {
    var s := IntToString(n);
    if n >= 10 {
      DecimalRoundTrip(n / 10);
      assert s[..|s| - 1] == IntToString(n / 10);
    }
  }

  function UnitName(unitType: string, index: nat): string {
    unitType + " " + IntToString(index)
  }

  /** A name determines both the template type and the template index:
      copies of different templates never share a name. */
  lemma NameDeterminesTemplate(t1: string, i: nat, t2: string, j: nat)
    requires UnitName(t1, i) == UnitName(t2, j)
    ensures t1 == t2 && i == j
  {
    var s, a, b := UnitName(t1, i), IntToString(i), IntToString(j);
    // the digits end the name and a space stands just before them
    assert forall k :: |s| - |a| <= k < |s| ==> s[k] == a[k - (|s| - |a|)];
    assert forall k :: |s| - |b| <= k < |s| ==> s[k] == b[k - (|s| - |b|)];
    assert s[|s| - |a| - 1] == ' ' == s[|s| - |b| - 1];
    if |a| < |b| {
      assert false;
    } else if |b| < |a| {
      assert false;
    } else {
      assert a == s[|s| - |a|..] == b;
      DecimalRoundTrip(i);
      DecimalRoundTrip(j);
      assert t1 == s[..|s| - |a| - 1] == t2;
    }
  }

  /** What a unit carries that the generator sets: its name, type, health,
      base attack, cost and cell. */
  datatype Profile = Profile(name: string, unitType: string, health: int, baseAttack: int, cost: int, at: Coordinate)

  function ProfileOf(u: Unit): Profile
  {
    Profile(u.name, u.unitType, u.health, u.baseAttack, u.cost, Grid.Edge(u.x, u.y))
  }

  /** The profiles of a list of units, in list order. */
  ghost function Profiles(units: seq<Unit>): seq<Profile> {
    seq(|units|, j requires 0 <= j < |units| => ProfileOf(units[j]))
  }

  lemma ProfilesAppend(units: seq<Unit>, u: Unit)
    ensures Profiles(units + [u]) == Profiles(units) + [ProfileOf(u)]
  {
  }

  /** A generated unit copies template `t`, which stands at `index` in the
      list: named after the template's type and index, with its type, health,
      base attack and cost. */
  predicate CopyOf(p: Profile, t: Profile, index: nat) {
    p.name == UnitName(t.unitType, index) && p.unitType == t.unitType &&
    p.health == t.health && p.baseAttack == t.baseAttack && p.cost == t.cost
  }

  // ---------------------------------------------------------------------
  // The greedy budget plan

  /** How many copies a template ends with when its loop starts with `count`
      copies and `total` points spent. */
  function Copies(cost: int, total: int, maxPoints: int, count: nat): (n: nat)
    requires count <= UNITS_TYPE_COUNT
    ensures count <= n <= UNITS_TYPE_COUNT
    decreases UNITS_TYPE_COUNT - count
  {
    if count < UNITS_TYPE_COUNT && total + cost <= maxPoints then Copies(cost, total + cost, maxPoints, count + 1)
    else count
  }

  /** The points spent on `counts[k]` copies of a template costing `costs[k]`, for every k. */
  function Spent(costs: seq<int>, counts: seq<nat>): int
    requires |costs| == |counts|
  {
    if |costs| == 0 then 0
    else Spent(costs[..|costs| - 1], counts[..|counts| - 1]) + counts[|counts| - 1] * costs[|costs| - 1]
  }

  function Total(counts: seq<nat>): nat {
    if |counts| == 0 then 0 else Total(counts[..|counts| - 1]) + counts[|counts| - 1]
  }

  /** The copy counts the generator arrives at, template by template. */
  function Plan(costs: seq<int>, maxPoints: int): (counts: seq<nat>)
    ensures |counts| == |costs|
  {
    if |costs| == 0 then []
    else
      var before := Plan(costs[..|costs| - 1], maxPoints);
      before + [Copies(costs[|costs| - 1], Spent(costs[..|costs| - 1], before), maxPoints, 0)]
  }

  function Costs(templates: seq<Unit>): (costs: seq<int>)
    ensures |costs| == |templates| && forall k :: 0 <= k < |templates| ==> costs[k] == templates[k].cost
  {
    seq(|templates|, k requires 0 <= k < |templates| => templates[k].cost)
  }

  /** A template's loop stops with the cap reached or with no room for one
      more copy, and it spends within the budget: when it starts within the
      budget or adds at least one copy, it ends within the budget. */
  lemma {:induction false} CopiesStop(cost: int, total: int, maxPoints: int, count: nat)
    requires count <= UNITS_TYPE_COUNT
    ensures var n := Copies(cost, total, maxPoints, count);
            n == UNITS_TYPE_COUNT || total + (n - count) * cost + cost > maxPoints
    ensures var n := Copies(cost, total, maxPoints, count);
            (total <= maxPoints || n > count) ==> total + (n - count) * cost <= maxPoints
    decreases UNITS_TYPE_COUNT - count
  {
    if count < UNITS_TYPE_COUNT && total + cost <= maxPoints {
      CopiesStop(cost, total + cost, maxPoints, count + 1);
      var n := Copies(cost, total + cost, maxPoints, count + 1);
      assert Copies(cost, total, maxPoints, count) == n;
      OneMore(n, count, cost);
    }
  }

  /** One more copy costs one more `cost`. */
  lemma OneMore(n: int, count: int, cost: int)
    ensures (n - count) * cost == (n - (count + 1)) * cost + cost
  {
  }

  lemma {:induction false} PlanPrefix(costs: seq<int>, maxPoints: int, k: nat)
    requires k <= |costs|
    ensures Plan(costs[..k], maxPoints) == Plan(costs, maxPoints)[..k]
    decreases |costs|
  {
    if k < |costs| {
      PlanPrefix(costs[..|costs| - 1], maxPoints, k);
      assert costs[..|costs| - 1][..k] == costs[..k];
    } else {
      assert costs[..k] == costs;
    }
  }

  /** No template gets more than 11 copies. */
  lemma {:induction false} PlanCapped(costs: seq<int>, maxPoints: int)
    ensures var counts := Plan(costs, maxPoints);
            forall k :: 0 <= k < |counts| ==> counts[k] <= UNITS_TYPE_COUNT
  {
    if |costs| > 0 {
      var init := costs[..|costs| - 1];
      PlanCapped(init, maxPoints);
      assert Plan(costs, maxPoints)[..|costs| - 1] == Plan(init, maxPoints);
    }
  }

  /** One template's step of the plan: its count, the points spent before
      it and after it. */
  lemma PlanStep(costs: seq<int>, maxPoints: int, k: nat)
    requires k < |costs|
    ensures var counts := Plan(costs, maxPoints);
            var before := Spent(costs[..k], counts[..k]);
            counts[k] == Copies(costs[k], before, maxPoints, 0) &&
            Spent(costs[..k + 1], counts[..k + 1]) == before + counts[k] * costs[k]
  {
    var counts := Plan(costs, maxPoints);
    PlanPrefix(costs, maxPoints, k + 1);
    PlanPrefix(costs, maxPoints, k);
    assert costs[..k + 1][..k] == costs[..k];
    assert counts[..k + 1][..k] == counts[..k];
  }

  /** Greedy stop: after template k the plan has either reached 11 copies
      of it or has no room for another. */
  lemma PlanGreedy(costs: seq<int>, maxPoints: int)
    ensures var counts := Plan(costs, maxPoints);
            forall k :: 0 <= k < |counts| ==>
              counts[k] == UNITS_TYPE_COUNT || Spent(costs[..k + 1], counts[..k + 1]) + costs[k] > maxPoints
  {
    var counts := Plan(costs, maxPoints);
    forall k | 0 <= k < |counts|
      ensures counts[k] == UNITS_TYPE_COUNT || Spent(costs[..k + 1], counts[..k + 1]) + costs[k] > maxPoints
    {
      PlanStep(costs, maxPoints, k);
      CopiesStop(costs[k], Spent(costs[..k], counts[..k]), maxPoints, 0);
    }
  }

  /** With a non-negative budget the plan spends at most the budget. */
  lemma {:induction false} PlanWithinBudget(costs: seq<int>, maxPoints: int)
    requires 0 <= maxPoints
    ensures Spent(costs, Plan(costs, maxPoints)) <= maxPoints
  {
    if |costs| > 0 {
      var n := |costs|;
      var init := costs[..n - 1];
      PlanWithinBudget(init, maxPoints);
      var counts := Plan(costs, maxPoints);
      assert counts[..n - 1] == Plan(init, maxPoints);
      CopiesStop(costs[n - 1], Spent(init, Plan(init, maxPoints)), maxPoints, 0);
    }
  }

  // ---------------------------------------------------------------------
  // Where the copies of each template sit in the generated list

  /** The template index of every generated unit, in generation order. */
  function Layout(counts: seq<nat>): (owners: seq<nat>)
    ensures |owners| == Total(counts)
  {
    if |counts| == 0 then []
    else Layout(counts[..|counts| - 1]) + Repeat(|counts| - 1, counts[|counts| - 1])
  }

  /** `c` copies of the index `k`. */
  function Repeat(k: nat, c: nat): (r: seq<nat>)
    ensures |r| == c && forall i :: 0 <= i < c ==> r[i] == k
  {
    if c == 0 then [] else Repeat(k, c - 1) + [k]
  }

  /** Templates are copied in list order: entry j of the generated list is
      a copy of template k exactly when j lies in k's block, which starts
      after the copies of the templates before k. */
  lemma {:induction false} LayoutBlocks(counts: seq<nat>)
    ensures forall j :: 0 <= j < Total(counts) ==>
              Layout(counts)[j] < |counts| &&
              Total(counts[..Layout(counts)[j]]) <= j < Total(counts[..Layout(counts)[j] + 1])
  {
    if |counts| > 0 {
      var n := |counts|;
      var init := counts[..n - 1];
      LayoutBlocks(init);
      assert counts[..n] == counts;
      forall j | 0 <= j < Total(counts)
        ensures Layout(counts)[j] < n &&
                Total(counts[..Layout(counts)[j]]) <= j < Total(counts[..Layout(counts)[j] + 1])
      {
        var k := Layout(counts)[j];
        if j < Total(init) {
          assert k == Layout(init)[j];
          assert counts[..k] == init[..k] && counts[..k + 1] == init[..k + 1];
        } else {
          assert k == n - 1;
        }
      }
    }
  }

  lemma {:induction false} TotalPrefix(counts: seq<nat>, k: nat)
    requires k <= |counts|
    ensures Total(counts[..k]) <= Total(counts)
    decreases |counts|
  {
    if k < |counts| {
      TotalPrefix(counts[..|counts| - 1], k);
      assert counts[..|counts| - 1][..k] == counts[..k];
    } else {
      assert counts[..k] == counts;
    }
  }

  // ---------------------------------------------------------------------
  // The generator

  /** The sum of the units' costs. */
  function TotalCost(units: seq<Unit>): int {
    if |units| == 0 then 0 else TotalCost(units[..|units| - 1]) + units[|units| - 1].cost
  }

  /** No template occurs twice in the list: each is absent from the ones before it. */
  predicate Distinct(templates: seq<Unit>) {
    |templates| == 0 ||
    (templates[|templates| - 1] !in templates[..|templates| - 1] && Distinct(templates[..|templates| - 1]))
  }

  /** Distinct says that the templates are pairwise different objects. */
  lemma {:induction false} DistinctPairwise(templates: seq<Unit>)
    ensures Distinct(templates) <==> forall i, j :: 0 <= i < j < |templates| ==> templates[i] != templates[j]
  {
    if |templates| > 0 {
      var n := |templates| - 1;
      var init := templates[..n];
      DistinctPairwise(init);
      assert forall j :: 0 <= j < n ==> init[j] == templates[j];
      if !Distinct(templates) && templates[n] in init {
        var i :| 0 <= i < n && init[i] == templates[n];
        assert templates[i] == templates[n];
      }
    }
  }

  /** List.indexOf by reference: the first position holding `u`, or -1. */
  function IndexOf(list: seq<Unit>, u: Unit): (i: int)
    ensures -1 <= i < |list|
    ensures 0 <= i ==> list[i] == u && forall j :: 0 <= j < i ==> list[j] != u
    ensures i == -1 ==> u !in list
  {
    IndexFrom(list, u, 0)
  }

  /** The first position from `from` on holding `u`, or -1. */
  function IndexFrom(list: seq<Unit>, u: Unit, from: nat): (i: int)
    requires from <= |list|
    ensures -1 <= i < |list|
    ensures 0 <= i ==> from <= i && list[i] == u && forall j :: from <= j < i ==> list[j] != u
    ensures i == -1 ==> forall j :: from <= j < |list| ==> list[j] != u
    decreases |list| - from
  {
    if from == |list| then -1
    else if list[from] == u then from
    else IndexFrom(list, u, from + 1)
  }

  /** With pairwise different templates, indexOf finds each at its own position. */
  lemma IndexOfDistinct(templates: seq<Unit>, k: nat)
    requires Distinct(templates) && k < |templates|
    ensures IndexOf(templates, templates[k]) == k
  {
    DistinctPairwise(templates);
    assert templates[k] in templates;
  }

  /** The generated units, by profile: entry j copies template owners[j];
      their cells are the occupied set, all in the area and pairwise different. */
  predicate Roster(ps: seq<Profile>, templates: seq<Profile>, owners: seq<nat>, occupied: set<Coordinate>) {
    |ps| == |owners| == |occupied| &&
    (forall j :: 0 <= j < |ps| ==> owners[j] < |templates| && CopyOf(ps[j], templates[owners[j]], owners[j])) &&
    (forall j :: 0 <= j < |ps| ==> ps[j].at in occupied) &&
    (forall c :: c in occupied ==> InArea(c)) &&
    (forall i, j :: 0 <= i < j < |ps| ==> ps[i].at != ps[j].at)
  }

  /** The cells a list of profiles stands on. */
  function Cells(ps: seq<Profile>): set<Coordinate> {
    if ps == [] then {} else Cells(ps[..|ps| - 1]) + {ps[|ps| - 1].at}
  }

  /** Each profile's cell is among the cells, and there are at most as many
      cells as profiles, as many exactly when the cells are pairwise different. */
  lemma {:induction false} CellsCount(ps: seq<Profile>)
    ensures forall j :: 0 <= j < |ps| ==> ps[j].at in Cells(ps)
    ensures |Cells(ps)| <= |ps|
    ensures |Cells(ps)| == |ps| ==> forall i, j :: 0 <= i < j < |ps| ==> ps[i].at != ps[j].at
  {
    if ps != [] {
      var init := ps[..|ps| - 1];
      CellsCount(init);
      assert forall j :: 0 <= j < |init| ==> ps[j] == init[j];
      if |Cells(ps)| == |ps| {
        assert ps[|ps| - 1].at !in Cells(init);
      }
    }
  }

  /** The loop's form of a roster: the cells are counted instead of compared pairwise. */
  predicate Placed(ps: seq<Profile>, templates: seq<Profile>, owners: seq<nat>, occupied: set<Coordinate>) {
    |ps| == |owners| == |occupied| &&
    (forall j :: 0 <= j < |ps| ==> owners[j] < |templates| && CopyOf(ps[j], templates[owners[j]], owners[j])) &&
    Cells(ps) == occupied &&
    (forall c :: c in occupied ==> InArea(c))
  }

  lemma PlacedRoster(ps: seq<Profile>, templates: seq<Profile>, owners: seq<nat>, occupied: set<Coordinate>)
    requires Placed(ps, templates, owners, occupied)
    ensures Roster(ps, templates, owners, occupied)
  {
    CellsCount(ps);
  }

  /** Appending a copy of template k on a free cell of the area keeps the roster. */
  lemma PlacedGrow(ps: seq<Profile>, templates: seq<Profile>, owners: seq<nat>, occupied: set<Coordinate>,
                   p: Profile, k: nat)
    requires Placed(ps, templates, owners, occupied)
    requires k < |templates| && CopyOf(p, templates[k], k)
    requires InArea(p.at) && p.at !in occupied
    ensures Placed(ps + [p], templates, owners + [k], occupied + {p.at})
  {
    var ps', owners' := ps + [p], owners + [k];
    forall j | 0 <= j < |ps'|
      ensures owners'[j] < |templates| && CopyOf(ps'[j], templates[owners'[j]], owners'[j])
    {
      if j < |ps| {
        assert ps'[j] == ps[j] && owners'[j] == owners[j];
      }
    }
    assert ps'[..|ps|] == ps;
  }

  lemma {:induction false} LayoutAppend(counts: seq<nat>, c: nat)
    ensures Layout(counts + [c]) == Layout(counts) + Repeat(|counts|, c)
  {
    assert (counts + [c])[..|counts|] == counts;
  }

  lemma AppendAssoc<T>(a: seq<T>, b: seq<T>, x: T)
    ensures a + (b + [x]) == (a + b) + [x]
  {
  }

  /** One more copy of the last template adds its index at the end. */
  lemma {:induction false} LayoutGrow(counts: seq<nat>, c: nat)
    ensures Layout(counts + [c + 1]) == Layout(counts + [c]) + [|counts|]
  {
    LayoutAppend(counts, c + 1);
    LayoutAppend(counts, c);
    AppendAssoc(Layout(counts), Repeat(|counts|, c), |counts|);
  }

  lemma SpentGrow(costs: seq<int>, counts: seq<nat>, c: nat)
    requires |costs| == |counts| + 1
    ensures Spent(costs, counts + [c + 1]) == Spent(costs, counts + [c]) + costs[|counts|]
  {
    assert (counts + [c + 1])[..|counts|] == counts == (counts + [c])[..|counts|];
  }

  lemma TotalCostGrow(units: seq<Unit>, u: Unit)
    ensures TotalCost(units + [u]) == TotalCost(units) + u.cost
  {
    assert (units + [u])[..|units|] == units;
  }

  lemma {:induction false} TotalLast(counts: seq<nat>, c: nat)
    ensures Total(counts + [c]) == Total(counts) + c
  {
    assert (counts + [c])[..|counts|] == counts;
  }

  /** The plan for a prefix of the templates takes no more units than the whole plan. */
  lemma PlanPrefixTotal(costs: seq<int>, maxPoints: int, k: nat)
    requires k <= |costs|
    ensures Total(Plan(costs[..k], maxPoints)) <= Total(Plan(costs, maxPoints))
  {
    PlanPrefix(costs, maxPoints, k);
    TotalPrefix(Plan(costs, maxPoints), k);
  }

  /** The generator's state after `counts[i]` copies of each of the first
      |counts| templates (`templates` are their profiles, `costs` their
      costs): the points spent are both the plan's price and the sum of the
      copies' costs, and the copies form a roster in template order. */
  predicate Built(templates: seq<Profile>, costs: seq<int>, counts: seq<nat>, total: int,
                  units: seq<Unit>, ps: seq<Profile>, occupied: set<Coordinate>)
  {
    |counts| <= |templates| == |costs| &&
    total == Spent(costs[..|counts|], counts) == TotalCost(units) &&
    |units| == |ps| && Placed(ps, templates, Layout(counts), occupied)
  }

  /** Nothing generated yet. */
  lemma BuiltStart(templates: seq<Profile>, costs: seq<int>)
    requires |templates| == |costs|
    ensures Built(templates, costs, [], 0, [], [], {})
  {
    assert costs[..0] == [];
  }

  /** After the last template: the plan is complete and the copies form its roster. */
  lemma BuiltDone(templates: seq<Profile>, costs: seq<int>, counts: seq<nat>, maxPoints: int, total: int,
                  units: seq<Unit>, ps: seq<Profile>, occupied: set<Coordinate>)
    requires Built(templates, costs, counts, total, units, ps, occupied)
    requires |counts| == |costs| && counts == Plan(costs[..|costs|], maxPoints)
    ensures counts == Plan(costs, maxPoints)
    ensures total == Spent(costs, counts) == TotalCost(units)
    ensures Roster(ps, templates, Layout(counts), occupied)
  {
    assert costs[..|costs|] == costs;
    PlacedRoster(ps, templates, Layout(counts), occupied);
  }

  /** Template k's turn: the plan for one template more appends the copies
      the greedy loop gives it, and those still fit the area. */
  lemma BuiltNext(templates: seq<Profile>, costs: seq<int>, counts: seq<nat>, maxPoints: int, total: int,
                  units: seq<Unit>, ps: seq<Profile>, occupied: set<Coordinate>)
    requires Built(templates, costs, counts, total, units, ps, occupied) && |counts| < |costs|
    requires counts == Plan(costs[..|counts|], maxPoints)
    requires Total(Plan(costs, maxPoints)) <= WIDTH_ARMY * HEIGHT_ARMY
    ensures var target := Copies(costs[|counts|], total, maxPoints, 0);
            Plan(costs[..|counts| + 1], maxPoints) == counts + [target] &&
            Total(counts + [target]) <= WIDTH_ARMY * HEIGHT_ARMY
  {
    var k := |counts|;
    assert costs[..k + 1][..k] == costs[..k];
    PlanPrefixTotal(costs, maxPoints, k + 1);
  }

  /** Opening the loop of template |counts| with no copies yet. */
  lemma {:induction false} BuiltOpen(templates: seq<Profile>, costs: seq<int>, counts: seq<nat>, total: int,
                                     units: seq<Unit>, ps: seq<Profile>, occupied: set<Coordinate>)
    requires Built(templates, costs, counts, total, units, ps, occupied) && |counts| < |templates|
    ensures Built(templates, costs, counts + [0], total, units, ps, occupied)
  {
    var n := |counts|;
    assert (counts + [0])[..n] == counts;
    assert costs[..n + 1][..n] == costs[..n];
    LayoutAppend(counts, 0);
    assert Layout(counts) + Repeat(n, 0) == Layout(counts);
  }

  /** Inside the loop of template |counts|: `c` copies made so far, on the
      way to the `target` the plan gives it. */
  predicate Filling(templates: seq<Profile>, costs: seq<int>, counts: seq<nat>, c: nat, target: nat, maxPoints: int,
                    points: int, units: seq<Unit>, ps: seq<Profile>, occupied: set<Coordinate>)
  {
    |counts| < |costs| && c <= target <= UNITS_TYPE_COUNT &&
    Copies(costs[|counts|], points, maxPoints, c) == target &&
    Built(templates, costs, counts + [c], points, units, ps, occupied) &&
    Total(counts + [c]) + (target - c) == Total(counts + [target])
  }

  /** Starting the loop of template |counts| with no copies. */
  lemma FillingStart(templates: seq<Profile>, costs: seq<int>, counts: seq<nat>, maxPoints: int,
                     points: int, units: seq<Unit>, ps: seq<Profile>, occupied: set<Coordinate>)
    requires Built(templates, costs, counts, points, units, ps, occupied) && |counts| < |templates|
    ensures var target := Copies(costs[|counts|], points, maxPoints, 0);
            Filling(templates, costs, counts, 0, target, maxPoints, points, units, ps, occupied)
  {
    var target := Copies(costs[|counts|], points, maxPoints, 0);
    BuiltOpen(templates, costs, counts, points, units, ps, occupied);
    TotalLast(counts, 0);
    TotalLast(counts, target);
  }

  /** While the loop condition holds, the plan still asks for a copy and
      the area still has a free cell. */
  lemma FillingRoom(templates: seq<Profile>, costs: seq<int>, counts: seq<nat>, c: nat, target: nat, maxPoints: int,
                    points: int, units: seq<Unit>, ps: seq<Profile>, occupied: set<Coordinate>)
    requires Filling(templates, costs, counts, c, target, maxPoints, points, units, ps, occupied)
    requires Total(counts + [target]) <= WIDTH_ARMY * HEIGHT_ARMY
    requires c < UNITS_TYPE_COUNT && points + costs[|counts|] <= maxPoints
    ensures c < target
    ensures forall p :: p in occupied ==> InArea(p)
    ensures |occupied| < WIDTH_ARMY * HEIGHT_ARMY
  {
  }

  /** One more copy of template |counts| on a free cell keeps the loop state. */
  lemma {:induction false} FillingStep(templates: seq<Profile>, costs: seq<int>, counts: seq<nat>, c: nat, target: nat,
                                       maxPoints: int, points: int, units: seq<Unit>, ps: seq<Profile>,
                                       occupied: set<Coordinate>, u: Unit, p: Profile,
                                       points': int, units': seq<Unit>, ps': seq<Profile>, occupied': set<Coordinate>)
    requires Filling(templates, costs, counts, c, target, maxPoints, points, units, ps, occupied)
    requires c < UNITS_TYPE_COUNT && points + costs[|counts|] <= maxPoints
    requires u.cost == costs[|counts|] && CopyOf(p, templates[|counts|], |counts|)
    requires InArea(p.at) && p.at !in occupied
    requires points' == points + costs[|counts|] && units' == units + [u] && ps' == ps + [p]
    requires occupied' == occupied + {p.at}
    ensures Filling(templates, costs, counts, c + 1, target, maxPoints, points', units', ps', occupied')
  {
    var n := |counts|;
    LayoutGrow(counts, c);
    SpentGrow(costs[..n + 1], counts, c);
    TotalCostGrow(units, u);
    TotalLast(counts, c);
    TotalLast(counts, c + 1);
    PlacedGrow(ps, templates, Layout(counts + [c]), occupied, p, n);
    assert (counts + [c + 1])[..n] == counts == (counts + [c])[..n];
  }

  /** Leaving the loop of template |counts|: the target is reached. */
  lemma FillingDone(templates: seq<Profile>, costs: seq<int>, counts: seq<nat>, c: nat, target: nat, maxPoints: int,
                    points: int, units: seq<Unit>, ps: seq<Profile>, occupied: set<Coordinate>)
    requires Filling(templates, costs, counts, c, target, maxPoints, points, units, ps, occupied)
    requires c >= UNITS_TYPE_COUNT || points + costs[|counts|] > maxPoints
    ensures c == target && Built(templates, costs, counts + [c], points, units, ps, occupied)
  {
  }

  class GeneratePreset {
    const random: Random

    constructor (random: Random)
      ensures this.random == random
    {
      this.random := random;
    }

    /** generate: copies the templates in list order, each while it has
        fewer than UNITS_TYPE_COUNT copies and the budget still has room for
        it. The result carries the copies and the points spent on them. */
    method Generate(unitList: seq<Unit>, maxPoints: int)
      returns (result: Army, ghost generated: seq<Unit>, ghost counts: seq<nat>, ghost occupied: set<Coordinate>)
      requires Distinct(unitList)
      requires Fair(random.values)
      requires Total(Plan(Costs(unitList), maxPoints)) <= WIDTH_ARMY * HEIGHT_ARMY
      modifies random
      ensures fresh(result) && result.units == generated
      ensures counts == Plan(Costs(unitList), maxPoints)
      ensures result.points == Spent(Costs(unitList), counts) == TotalCost(generated)
      ensures Roster(Profiles(generated), Profiles(unitList), Layout(counts), occupied)
    {
      result := new Army();
      var unitCount := new int[|unitList|];
      forall i | 0 <= i < unitCount.Length {
        unitCount[i] := 0;
      }
      // the efficiency sort is not modelled: the list order is taken as given
      ghost var templates := Profiles(unitList);
      ghost var ps: seq<Profile>;
      var totalPoints: int, generatedUnits: seq<Unit>, occupiedCoordinates: set<Coordinate>;
      totalPoints, generatedUnits, occupiedCoordinates, ps, counts :=
        CopyTemplates(unitList, unitCount, maxPoints, templates);
      result.units := generatedUnits;
      result.points := totalPoints;
      generated, occupied := generatedUnits, occupiedCoordinates;
    }

    /** The loop over the templates, in list order. */
    method CopyTemplates(unitList: seq<Unit>, unitCount: array<int>, maxPoints: int, ghost templates: seq<Profile>)
      returns (totalPoints: int, generatedUnits: seq<Unit>, occupiedCoordinates: set<Coordinate>,
               ghost ps: seq<Profile>, ghost counts: seq<nat>)
      requires |unitList| == unitCount.Length && Distinct(unitList)
      requires forall i :: 0 <= i < unitCount.Length ==> unitCount[i] == 0
      requires Fair(random.values)
      requires templates == Profiles(unitList)
      requires Total(Plan(Costs(unitList), maxPoints)) <= WIDTH_ARMY * HEIGHT_ARMY
      modifies random, unitCount
      ensures ps == Profiles(generatedUnits)
      ensures counts == Plan(Costs(unitList), maxPoints)
      ensures totalPoints == Spent(Costs(unitList), counts) == TotalCost(generatedUnits)
      ensures Roster(ps, templates, Layout(counts), occupiedCoordinates)
    {
      ghost var costs := Costs(unitList);
      totalPoints, generatedUnits, occupiedCoordinates, ps, counts := 0, [], {}, [], [];
      BuiltStart(templates, costs);
      assert costs[..0] == [];
      for k := 0 to |unitList|
        invariant |counts| == k && counts == Plan(costs[..k], maxPoints)
        invariant forall i :: 0 <= i < |unitList| ==> unitCount[i] == if i < k then counts[i] else 0
        invariant ps == Profiles(generatedUnits)
        invariant Built(templates, costs, counts, totalPoints, generatedUnits, ps, occupiedCoordinates)
      {
        totalPoints, generatedUnits, occupiedCoordinates, ps, counts :=
          NextTemplate(unitList, k, unitCount, maxPoints, templates, costs, counts, totalPoints, generatedUnits, ps,
                       occupiedCoordinates);
      }
      assert costs[..|unitList|] == costs;
      BuiltDone(templates, costs, counts, maxPoints, totalPoints, generatedUnits, ps, occupiedCoordinates);
    }

    /** One turn of the loop over the templates: the copies of unitList[k]. */
    method NextTemplate(unitList: seq<Unit>, k: nat, unitCount: array<int>, maxPoints: int,
                        ghost templates: seq<Profile>, ghost costs: seq<int>, ghost counts: seq<nat>,
                        totalPoints: int, generatedUnits: seq<Unit>, ghost ps: seq<Profile>,
                        occupiedCoordinates: set<Coordinate>)
      returns (points: int, units: seq<Unit>, occupied: set<Coordinate>, ghost ps': seq<Profile>, ghost counts': seq<nat>)
      requires k < |unitList| == unitCount.Length && Distinct(unitList)
      requires Fair(random.values)
      requires costs == Costs(unitList) && templates == Profiles(unitList) && ps == Profiles(generatedUnits)
      requires |counts| == k && counts == Plan(costs[..k], maxPoints)
      requires forall i :: 0 <= i < |unitList| ==> unitCount[i] == if i < k then counts[i] else 0
      requires Built(templates, costs, counts, totalPoints, generatedUnits, ps, occupiedCoordinates)
      requires Total(Plan(costs, maxPoints)) <= WIDTH_ARMY * HEIGHT_ARMY
      modifies random, unitCount
      ensures |counts'| == k + 1 && counts' == Plan(costs[..k + 1], maxPoints)
      ensures forall i :: 0 <= i < |unitList| ==> unitCount[i] == if i < k + 1 then counts'[i] else 0
      ensures ps' == Profiles(units)
      ensures Built(templates, costs, counts', points, units, ps', occupied)
    {
      BuiltNext(templates, costs, counts, maxPoints, totalPoints, generatedUnits, ps, occupiedCoordinates);
      ghost var c: nat;
      points, units, occupied, ps', c :=
        AddCopies(unitList, k, unitCount, maxPoints, templates, costs, counts, totalPoints, generatedUnits, ps,
                  occupiedCoordinates);
      counts' := counts + [c];
      forall i | 0 <= i < |unitList|
        ensures unitCount[i] == if i < k + 1 then counts'[i] else 0
      {
        if i < k {
          assert counts'[i] == counts[i];
        }
      }
    }

    /** The loop over one template: copies unitList[k] while it has fewer
        than UNITS_TYPE_COUNT copies and its cost fits the budget. */
    method AddCopies(unitList: seq<Unit>, k: nat, unitCount: array<int>, maxPoints: int,
                     ghost templates: seq<Profile>, ghost costs: seq<int>, ghost counts: seq<nat>,
                     totalPoints: int, generatedUnits: seq<Unit>, ghost ps: seq<Profile>,
                     occupiedCoordinates: set<Coordinate>)
      returns (points: int, units: seq<Unit>, occupied: set<Coordinate>, ghost ps': seq<Profile>, ghost c: nat)
      requires k < |unitList| == unitCount.Length && Distinct(unitList) && unitCount[k] == 0
      requires Fair(random.values)
      requires costs == Costs(unitList) && templates == Profiles(unitList) && ps == Profiles(generatedUnits)
      requires |counts| == k && Built(templates, costs, counts, totalPoints, generatedUnits, ps, occupiedCoordinates)
      requires Total(counts + [Copies(costs[k], totalPoints, maxPoints, 0)]) <= WIDTH_ARMY * HEIGHT_ARMY
      modifies random, unitCount
      ensures c == Copies(costs[k], totalPoints, maxPoints, 0)
      ensures forall i :: 0 <= i < unitCount.Length ==> unitCount[i] == if i == k then c else old(unitCount[i])
      ensures ps' == Profiles(units)
      ensures Built(templates, costs, counts + [c], points, units, ps', occupied)
    {
      var unit := unitList[k];
      IndexOfDistinct(unitList, k);
      ghost var target := Copies(unit.cost, totalPoints, maxPoints, 0);
      points, units, occupied, ps', c := totalPoints, generatedUnits, occupiedCoordinates, ps, 0;
      FillingStart(templates, costs, counts, maxPoints, points, units, ps', occupied);
      while unitCount[IndexOf(unitList, unit)] < UNITS_TYPE_COUNT && points + unit.cost <= maxPoints
        invariant forall i :: 0 <= i < unitCount.Length ==> unitCount[i] == if i == k then c else old(unitCount[i])
        invariant ps' == Profiles(units)
        invariant Filling(templates, costs, counts, c, target, maxPoints, points, units, ps', occupied)
        decreases UNITS_TYPE_COUNT - c
      {
        points, units, occupied, ps' :=
          AddCopy(unitList, k, unitCount, maxPoints, templates, costs, counts, c, target, points, units, ps', occupied);
        c := c + 1;
      }
      FillingDone(templates, costs, counts, c, target, maxPoints, points, units, ps', occupied);
    }

    /** One turn of that loop: addUnit, then the counter and the points. */
    method AddCopy(unitList: seq<Unit>, k: nat, unitCount: array<int>, maxPoints: int,
                   ghost templates: seq<Profile>, ghost costs: seq<int>, ghost counts: seq<nat>,
                   ghost c: nat, ghost target: nat,
                   totalPoints: int, generatedUnits: seq<Unit>, ghost ps: seq<Profile>,
                   occupiedCoordinates: set<Coordinate>)
      returns (points: int, units: seq<Unit>, occupied: set<Coordinate>, ghost ps': seq<Profile>)
      requires k < |unitList| == unitCount.Length && IndexOf(unitList, unitList[k]) == k && unitCount[k] == c
      requires Fair(random.values)
      requires costs == Costs(unitList) && templates == Profiles(unitList) && ps == Profiles(generatedUnits)
      requires |counts| == k && Filling(templates, costs, counts, c, target, maxPoints, totalPoints, generatedUnits, ps, occupiedCoordinates)
      requires Total(counts + [target]) <= WIDTH_ARMY * HEIGHT_ARMY
      requires c < UNITS_TYPE_COUNT && totalPoints + costs[k] <= maxPoints
      modifies random, unitCount
      ensures ps' == Profiles(units)
      ensures Filling(templates, costs, counts, c + 1, target, maxPoints, points, units, ps', occupied)
      ensures forall i :: 0 <= i < unitCount.Length ==> unitCount[i] == if i == k then c + 1 else old(unitCount[i])
      ensures |units| == |generatedUnits| + 1 && units == generatedUnits + [units[|generatedUnits|]]
      ensures fresh(units[|generatedUnits|])
    {
      var unit := unitList[k];
      FillingRoom(templates, costs, counts, c, target, maxPoints, totalPoints, generatedUnits, ps, occupiedCoordinates);
      units, occupied := AddUnit(unit, generatedUnits, occupiedCoordinates, IndexOf(unitList, unit));
      ghost var added := units[|generatedUnits|];
      ghost var profile := ProfileOf(added);
      ps' := ps + [profile];
      ProfilesAppend(generatedUnits, added);
      unitCount[IndexOf(unitList, unit)] := unitCount[IndexOf(unitList, unit)] + 1;
      points := totalPoints + unit.cost;
      FillingStep(templates, costs, counts, c, target, maxPoints, totalPoints, generatedUnits, ps, occupiedCoordinates,
                  added, profile, points, units, ps', occupied);
    }

    /** addUnit: draws coordinates until a free cell comes up, takes that
        cell and appends a copy of the template standing on it. */
    method AddUnit(unit: Unit, generatedUnits: seq<Unit>, occupiedCoordinates: set<Coordinate>, index: nat)
      returns (units: seq<Unit>, occupied: set<Coordinate>)
      requires Fair(random.values)
      requires forall c :: c in occupiedCoordinates ==> InArea(c)
      requires |occupiedCoordinates| < WIDTH_ARMY * HEIGHT_ARMY
      modifies random
      ensures |units| == |generatedUnits| + 1 && units == generatedUnits + [units[|generatedUnits|]]
      ensures fresh(units[|generatedUnits|])
      ensures CopyOf(ProfileOf(units[|generatedUnits|]), ProfileOf(unit), index)
      ensures InArea(ProfileOf(units[|generatedUnits|]).at)
      ensures ProfileOf(units[|generatedUnits|]).at !in occupiedCoordinates
      ensures occupied == occupiedCoordinates + {ProfileOf(units[|generatedUnits|]).at}
    {
      ghost var p := random.position;
      var x := random.NextInt(WIDTH_ARMY);
      var y := random.NextInt(HEIGHT_ARMY);
      var coordinate := Grid.Edge(x, y);
      FreeCellExists(occupiedCoordinates);
      ghost var free :| InArea(free) && free !in occupiedCoordinates;
      assert Hits(random.values, p, free);
      ghost var k: nat :| DrawnAt(random.values, p, k) == free;
      ghost var i: nat := 0;
      while coordinate in occupiedCoordinates
        invariant i <= k && random.position == p + 2 * i + 2
        invariant coordinate == DrawnAt(random.values, p, i)
        decreases k - i
      {
        x := random.NextInt(WIDTH_ARMY);
        coordinate := coordinate.(x := x);
        y := random.NextInt(HEIGHT_ARMY);
        coordinate := coordinate.(y := y);
        i := i + 1;
      }
      occupied := occupiedCoordinates + {coordinate};
      var newUnit := new Unit(UnitName(unit.unitType, index), unit.unitType, unit.health, unit.baseAttack,
                              unit.cost, coordinate.x, coordinate.y);
      units := generatedUnits + [newUnit];
    }
  }
}
