/**
 * SimulateBattleImpl: the battle loop. Each round compacts both working lists
 * to their living units, stops when either side has none left, orders each
 * side by base attack (strongest first, ties in their previous order), and
 * lets every living unit of the player's side act, then every living unit of
 * the computer's side. A unit that died earlier in the same round loses its
 * turn and leaves the working list.
 *
 * What a unit does on its turn is decided by its own program, which is
 * outside this model: a program call is represented by the next entry of a
 * script of outcomes (the units it kills and the target it reports).
 */
module Battle {
  import opened Units

  /** The visible effect of one call of a unit's program: the units it kills
      and the target it reports (null when it attacked nobody). */
  datatype Outcome = Outcome(kills: seq<Unit>, target: Unit?)

  /** The outcome of call number `n`; past the end of the script a call kills
      nobody and reports no target. */
  function OutcomeAt(script: seq<Outcome>, n: nat): Outcome {
    if n < |script| then script[n] else Outcome([], null)
  }

  ghost function Killed(o: Outcome): set<Unit> {
    set u | u in o.kills
  }

  /** Every unit some call of the script may kill: the units a battle may change. */
  ghost function Victims(script: seq<Outcome>): set<Unit> {
    set o, u | o in script && u in o.kills :: u
  }

  /** The units killed by calls `lo` up to (not including) `hi`. */
  ghost function KilledBetween(script: seq<Outcome>, lo: nat, hi: nat): set<Unit>
    decreases hi
  {
    if hi <= lo then {} else KilledBetween(script, lo, hi - 1) + Killed(OutcomeAt(script, hi - 1))
  }

  lemma KilledAreVictims(script: seq<Outcome>, n: nat)
    ensures Killed(OutcomeAt(script, n)) <= Victims(script)
  {
    if n < |script| {
      var o := script[n];
      forall u | u in o.kills ensures u in Victims(script) {
        assert o in script;
      }
    }
  }

  lemma {:induction false} KilledBetweenAreVictims(script: seq<Outcome>, lo: nat, hi: nat)
    ensures KilledBetween(script, lo, hi) <= Victims(script)
    decreases hi
  {
    if hi > lo {
      KilledBetweenAreVictims(script, lo, hi - 1);
      KilledAreVictims(script, hi - 1);
    }
  }

  /** Splitting off the first call of a stretch of calls. */
  lemma {:induction false} KilledBetweenFront(script: seq<Outcome>, lo: nat, hi: nat)
    requires lo < hi
    ensures KilledBetween(script, lo, hi) == Killed(OutcomeAt(script, lo)) + KilledBetween(script, lo + 1, hi)
    decreases hi
  {
    if hi - 1 > lo {
      KilledBetweenFront(script, lo, hi - 1);
    }
  }

  /** The units' programs (Unit.getProgram().attack()), as one script of
      outcomes consumed in call order, with a record of who called. */
  class Programs {
    const script: seq<Outcome>
    var calls: nat
    var attackers: seq<Unit>

    constructor (script: seq<Outcome>)
      ensures this.script == script && calls == 0 && attackers == []
    {
      this.script := script;
      calls := 0;
      attackers := [];
    }

    function Next(): Outcome
      reads this
    {
      OutcomeAt(script, calls)
    }

    /** One program call on behalf of `attacker`: it kills the units of the
        next outcome and reports that outcome's target. Nothing else changes. */
    method Attack(attacker: Unit) returns (target: Unit?)
      modifies this, Killed(Next())
      ensures calls == old(calls) + 1 && attackers == old(attackers) + [attacker]
      ensures target == old(Next()).target
      ensures forall u :: u in Killed(old(Next())) ==> !u.alive
    {
      var o := Next();
      for k := 0 to |o.kills|
        invariant calls == old(calls) && attackers == old(attackers)
        invariant forall m :: 0 <= m < k ==> !o.kills[m].alive
      {
        o.kills[k].alive := false;
      }
      calls := calls + 1;
      attackers := attackers + [attacker];
      target := o.target;
    }
  }

  /** The battle log (PrintBattleLog), an outside collaborator: the model
      keeps the lines it was asked to print. */
  class BattleLog {
    var entries: seq<(Unit, Unit)>

    constructor ()
      ensures entries == []
    {
      entries := [];
    }

    method PrintBattleLog(attacker: Unit, target: Unit)
      modifies this
      ensures entries == old(entries) + [(attacker, target)]
    {
      entries := entries + [(attacker, target)];
    }
  }

  ghost function Elements(list: seq<Unit?>): set<Unit> {
    set u: Unit | u in list
  }

  /** The living units a list refers to. */
  ghost function AliveIn(list: seq<Unit?>): set<Unit>
    reads Elements(list)
  {
    set u: Unit | u in list && u.alive
  }

  /** The entries of `xs` whose flag in `mask` is set, in order: every
      subsequence of `xs` is of this form. */
  function Keep<T>(xs: seq<T>, mask: seq<bool>): seq<T>
    requires |xs| == |mask|
  {
    if |xs| == 0 then []
    else Keep(xs[..|xs| - 1], mask[..|xs| - 1]) + (if mask[|xs| - 1] then [xs[|xs| - 1]] else [])
  }

  lemma {:induction false} KeepLength<T>(xs: seq<T>, mask: seq<bool>)
    requires |xs| == |mask|
    ensures |Keep(xs, mask)| == multiset(mask)[true]
  {
    if |xs| > 0 {
      KeepLength(xs[..|xs| - 1], mask[..|xs| - 1]);
      assert mask == mask[..|xs| - 1] + [mask[|xs| - 1]];
    }
  }

  lemma {:induction false} KeepElements<T>(xs: seq<T>, mask: seq<bool>)
    requires |xs| == |mask|
    ensures forall x :: x in Keep(xs, mask) <==> exists i :: 0 <= i < |xs| && mask[i] && xs[i] == x
  {
    if |xs| > 0 {
      var n := |xs| - 1;
      KeepElements(xs[..n], mask[..n]);
      forall x ensures x in Keep(xs, mask) <==> exists i :: 0 <= i < |xs| && mask[i] && xs[i] == x {
        if x in Keep(xs, mask) && x !in Keep(xs[..n], mask[..n]) {
          assert mask[n] && xs[n] == x;
        }
        if exists i :: 0 <= i < |xs| && mask[i] && xs[i] == x {
          var i :| 0 <= i < |xs| && mask[i] && xs[i] == x;
          if i < n {
            assert xs[..n][i] == x && mask[..n][i];
          }
        }
      }
    }
  }

  /** Which entries of `list` take a turn when their turns run in list order,
      starting with program call number `calls`: an entry acts when it is a
      unit that is still alive when reached (`alive` holds the list's living
      units at that moment); each acting entry consumes one program call,
      whose kills are dead for the rest of the list. */
  ghost function Acting(list: seq<Unit?>, alive: set<Unit>, script: seq<Outcome>, calls: nat): (acted: seq<bool>)
    ensures |acted| == |list|
  {
    if |list| == 0 then []
    else if list[0] != null && list[0] in alive then
      [true] + Acting(list[1..], alive - Killed(OutcomeAt(script, calls)), script, calls + 1)
    else
      [false] + Acting(list[1..], alive, script, calls)
  }

  /** An entry acts exactly when it is a unit, alive when the turns begin,
      and not killed by a program call made earlier in the same pass. */
  lemma {:induction false} ActingIff(list: seq<Unit?>, alive: set<Unit>, script: seq<Outcome>, calls: nat, i: int)
    requires 0 <= i < |list|
    ensures var acted := Acting(list, alive, script, calls);
            acted[i] <==> list[i] != null && list[i] in alive &&
                          list[i] !in KilledBetween(script, calls, calls + multiset(acted[..i])[true])
    decreases i
  {
    var acted := Acting(list, alive, script, calls);
    if i > 0 {
      var acts := list[0] != null && list[0] in alive;
      var alive', calls' := if acts then alive - Killed(OutcomeAt(script, calls)) else alive, if acts then calls + 1 else calls;
      var rest := Acting(list[1..], alive', script, calls');
      assert acted == [acts] + rest;
      ActingIff(list[1..], alive', script, calls', i - 1);
      var k := multiset(rest[..i - 1])[true];
      assert acted[..i] == [acts] + rest[..i - 1];
      if acts {
        assert multiset(acted[..i])[true] == k + 1;
        KilledBetweenFront(script, calls, calls + k + 1);
      } else {
        assert multiset(acted[..i])[true] == k;
      }
    }
  }

  /** The log lines of the acting units `actors`, whose program calls are
      numbered from `calls`: one line per call that reported a target. */
  ghost function Logged(actors: seq<Unit?>, script: seq<Outcome>, calls: nat): seq<(Unit, Unit)> {
    if |actors| == 0 then []
    else
      var n := |actors| - 1;
      var a, t := actors[n], OutcomeAt(script, calls + n).target;
      Logged(actors[..n], script, calls) + (if a != null && t != null then [(a, t)] else [])
  }

  /** removeIf(u -> u == null || !u.isAlive()): the living units, in order. */
  function WithoutDead(list: seq<Unit?>): (r: seq<Unit>)
    reads Elements(list)
    ensures forall u :: u in r ==> u in list && u.alive
    ensures forall i :: 0 <= i < |list| && list[i] != null && list[i].alive ==> list[i] in r
    ensures |r| <= |list|
  {
    if |list| == 0 then []
    else
      var n := |list| - 1;
      var u := list[n];
      WithoutDead(list[..n]) + (if u != null && u.alive then [u] else [])
  }

  /** The compaction keeps exactly the entries that are living units, every
      one of them (a unit listed twice stays twice), in their previous
      relative order. */
  lemma {:induction false} WithoutDeadKeepsOrder(list: seq<Unit?>) returns (mask: seq<bool>)
    ensures |mask| == |list| && WithoutDead(list) == Keep(list, mask)
    ensures forall i :: 0 <= i < |list| ==> mask[i] == (list[i] != null && list[i].alive)
  {
    if |list| == 0 {
      mask := [];
    } else {
      var n := |list| - 1;
      var u := list[n];
      var front := WithoutDeadKeepsOrder(list[..n]);
      mask := front + [u != null && u.alive];
      assert mask[..n] == front;
      forall i | 0 <= i < n ensures mask[i] == (list[i] != null && list[i].alive) {
        assert mask[i] == front[i] && list[..n][i] == list[i];
      }
    }
  }

  /** Ordered by base attack, strongest first. */
  ghost predicate ByAttack(s: seq<Unit>) {
    forall i, j :: 0 <= i < j < |s| ==> s[i].baseAttack >= s[j].baseAttack
  }

  /** The units of `s` with base attack `a`, in order. */
  function WithAttack(s: seq<Unit>, a: int): seq<Unit> {
    if |s| == 0 then []
    else WithAttack(s[..|s| - 1], a) + (if s[|s| - 1].baseAttack == a then [s[|s| - 1]] else [])
  }

  /** Places `u` behind every unit of `r` whose base attack is at least `u`'s. */
  function InsertByAttack(r: seq<Unit>, u: Unit): (q: seq<Unit>)
    ensures multiset(q) == multiset(r) + multiset{u}
  {
    if |r| == 0 || r[|r| - 1].baseAttack >= u.baseAttack then r + [u]
    else
      var n := |r| - 1;
      assert r == r[..n] + [r[n]];
      InsertByAttack(r[..n], u) + [r[n]]
  }

  /** Inserting into a list ordered by attack keeps it ordered. */
  lemma {:induction false} InsertKeepsOrder(r: seq<Unit>, u: Unit)
    requires ByAttack(r)
    ensures ByAttack(InsertByAttack(r, u))
  {
    if |r| == 0 || r[|r| - 1].baseAttack >= u.baseAttack {
      AppendKeepsOrder(r, u);
    } else {
      var n := |r| - 1;
      InsertKeepsOrder(r[..n], u);
      InsertBeforeWeaker(r, u);
    }
  }

  lemma AppendKeepsOrder(r: seq<Unit>, u: Unit)
    requires ByAttack(r) && (|r| == 0 || r[|r| - 1].baseAttack >= u.baseAttack)
    ensures ByAttack(r + [u])
  {
    var q := r + [u];
    forall i, j | 0 <= i < j < |q| ensures q[i].baseAttack >= q[j].baseAttack {
      if j == |r| && i < |r| - 1 {
        assert r[i].baseAttack >= r[|r| - 1].baseAttack;
      }
    }
  }

  /** The step where `u` overtakes the last unit of `r`, which is weaker. */
  lemma InsertBeforeWeaker(r: seq<Unit>, u: Unit)
    requires ByAttack(r) && |r| > 0 && r[|r| - 1].baseAttack < u.baseAttack
    requires ByAttack(InsertByAttack(r[..|r| - 1], u))
    ensures ByAttack(InsertByAttack(r[..|r| - 1], u) + [r[|r| - 1]])
  {
    var n := |r| - 1;
    var q' := InsertByAttack(r[..n], u);
    var q := q' + [r[n]];
    forall i, j | 0 <= i < j < |q| ensures q[i].baseAttack >= q[j].baseAttack {
      if j == |q'| {
        var x := q'[i];
        assert x in multiset(q');
        if x != u {
          assert x in multiset(r[..n]);
          var k :| 0 <= k < n && r[..n][k] == x;
          assert r[k].baseAttack >= r[n].baseAttack;
        }
      } else {
        assert q[i] == q'[i] && q[j] == q'[j];
      }
    }
  }

  /** List.sort with Comparator.comparingInt(Unit::getBaseAttack).reversed():
      a stable sort on base attack, strongest first. */
  function SortByAttack(s: seq<Unit>): (r: seq<Unit>)
    ensures ByAttack(r)
    ensures multiset(r) == multiset(s)
  {
    if |s| == 0 then []
    else
      var n := |s| - 1;
      assert s == s[..n] + [s[n]];
      InsertKeepsOrder(SortByAttack(s[..n]), s[n]);
      InsertByAttack(SortByAttack(s[..n]), s[n])
  }

  lemma {:induction false} InsertKeepsTies(r: seq<Unit>, u: Unit, a: int)
    ensures WithAttack(InsertByAttack(r, u), a) == WithAttack(r, a) + (if u.baseAttack == a then [u] else [])
  {
    if |r| == 0 || r[|r| - 1].baseAttack >= u.baseAttack {
      var q := r + [u];
      assert q[..|q| - 1] == r;
    } else {
      var n := |r| - 1;
      InsertKeepsTies(r[..n], u, a);
      OvertakeKeepsTies(r, u, a);
    }
  }

  /** The step where `u` overtakes the weaker last unit of `r`: at most one
      of the two has base attack `a`, so their order does not show. */
  lemma OvertakeKeepsTies(r: seq<Unit>, u: Unit, a: int)
    requires |r| > 0 && r[|r| - 1].baseAttack < u.baseAttack
    requires WithAttack(InsertByAttack(r[..|r| - 1], u), a) == WithAttack(r[..|r| - 1], a) + (if u.baseAttack == a then [u] else [])
    ensures WithAttack(InsertByAttack(r[..|r| - 1], u) + [r[|r| - 1]], a) == WithAttack(r, a) + (if u.baseAttack == a then [u] else [])
  {
    var n := |r| - 1;
    var q' := InsertByAttack(r[..n], u);
    var q := q' + [r[n]];
    assert q[..|q| - 1] == q';
    var head := WithAttack(r[..n], a);
    var tu: seq<Unit> := if u.baseAttack == a then [u] else [];
    var tr: seq<Unit> := if r[n].baseAttack == a then [r[n]] else [];
    assert WithAttack(q, a) == head + tu + tr;
    assert WithAttack(r, a) == head + tr;
    assert tu == [] || tr == [];
  }

  /** Stability: units with equal base attack keep their relative order. */
  lemma {:induction false} SortIsStable(s: seq<Unit>, a: int)
    ensures WithAttack(SortByAttack(s), a) == WithAttack(s, a)
  {
    if |s| > 0 {
      var n := |s| - 1;
      SortIsStable(s[..n], a);
      InsertKeepsTies(SortByAttack(s[..n]), s[n], a);
    }
  }

  /** The bookkeeping of processTurns after `j` entries of `attackers`: the
      working list holds the kept entries followed by the unvisited ones (the
      iterator stands at `i`), and the flags so far agree with Acting. */
  ghost predicate TurnsInv(attackers: seq<Unit?>, alive0: set<Unit>, script: seq<Outcome>, c0: nat,
                           list: seq<Unit?>, i: int, j: int, acted: seq<bool>, alive: set<Unit>, calls: nat)
  {
    0 <= i <= |list| && 0 <= j <= |attackers| && |acted| == j &&
    list[..i] == Keep(attackers[..j], acted) && list[i..] == attackers[j..] &&
    Acting(attackers, alive0, script, c0) == acted + Acting(attackers[j..], alive, script, calls) &&
    calls == c0 + i
  }

  lemma TurnsStart(attackers: seq<Unit?>, alive0: set<Unit>, script: seq<Outcome>, c0: nat)
    ensures TurnsInv(attackers, alive0, script, c0, attackers, 0, 0, [], alive0, c0)
  {
    assert attackers[0..] == attackers;
  }

  /** An entry that is empty or dead when reached leaves the list. */
  lemma TurnsSkip(attackers: seq<Unit?>, alive0: set<Unit>, script: seq<Outcome>, c0: nat,
                  list: seq<Unit?>, i: int, j: int, acted: seq<bool>, alive: set<Unit>, calls: nat)
    requires TurnsInv(attackers, alive0, script, c0, list, i, j, acted, alive, calls)
    requires i < |list| && (list[i] == null || list[i] !in alive)
    ensures TurnsInv(attackers, alive0, script, c0, list[..i] + list[i + 1..], i, j + 1, acted + [false], alive, calls)
    ensures (list[..i] + list[i + 1..])[..i] == list[..i]
  {
    var list' := list[..i] + list[i + 1..];
    assert list[i] == attackers[j];
    assert attackers[j..][1..] == attackers[j + 1..];
    assert attackers[..j + 1][..j] == attackers[..j] && (acted + [false])[..j] == acted;
    assert list'[..i] == list[..i] && list'[i..] == list[i + 1..];
    assert Acting(attackers[j..], alive, script, calls) == [false] + Acting(attackers[j + 1..], alive, script, calls);
    assert acted + [false] + Acting(attackers[j + 1..], alive, script, calls) == acted + ([false] + Acting(attackers[j + 1..], alive, script, calls));
  }

  /** An entry that is alive when reached takes its turn and stays. */
  lemma TurnsAct(attackers: seq<Unit?>, alive0: set<Unit>, script: seq<Outcome>, c0: nat,
                 list: seq<Unit?>, i: int, j: int, acted: seq<bool>, alive: set<Unit>, calls: nat)
    requires TurnsInv(attackers, alive0, script, c0, list, i, j, acted, alive, calls)
    requires i < |list| && list[i] != null && list[i] in alive
    ensures TurnsInv(attackers, alive0, script, c0, list, i + 1, j + 1, acted + [true],
                     alive - Killed(OutcomeAt(script, calls)), calls + 1)
    ensures list[..i + 1] == list[..i] + [list[i]]
  {
    var alive' := alive - Killed(OutcomeAt(script, calls));
    assert list[i] == attackers[j];
    assert attackers[j..][1..] == attackers[j + 1..];
    assert attackers[..j + 1][..j] == attackers[..j] && (acted + [true])[..j] == acted;
    assert list[i + 1..] == list[i..][1..];
    assert Acting(attackers[j..], alive, script, calls) == [true] + Acting(attackers[j + 1..], alive', script, calls + 1);
    assert acted + [true] + Acting(attackers[j + 1..], alive', script, calls + 1) == acted + ([true] + Acting(attackers[j + 1..], alive', script, calls + 1));
  }

  /** At the end of the list the flags are Acting's and the list is what Keep leaves. */
  lemma TurnsEnd(attackers: seq<Unit?>, alive0: set<Unit>, script: seq<Outcome>, c0: nat,
                 list: seq<Unit?>, i: int, j: int, acted: seq<bool>, alive: set<Unit>, calls: nat)
    requires TurnsInv(attackers, alive0, script, c0, list, i, j, acted, alive, calls)
    requires i == |list|
    ensures acted == Acting(attackers, alive0, script, c0) && list == Keep(attackers, acted)
    ensures |acted| == |attackers| && calls == c0 + |list| && list[..i] == list
  {
    assert attackers[..j] == attackers && list[..i] == list;
  }

  lemma LoggedStep(actors: seq<Unit?>, a: Unit?, script: seq<Outcome>, calls: nat)
    ensures var t := OutcomeAt(script, calls + |actors|).target;
            Logged(actors + [a], script, calls) ==
              Logged(actors, script, calls) + (if a != null && t != null then [(a, t)] else [])
  {
    assert (actors + [a])[..|actors|] == actors;
  }

  /** For the entries from `j` on, the unit's alive flag says whether it is in `alive`. */
  ghost predicate Tracks(list: seq<Unit?>, j: int, alive: set<Unit>)
    reads Elements(list)
  {
    forall k :: 0 <= j <= k < |list| && list[k] != null ==> (list[k].alive <==> list[k] in alive)
  }

  /** Of the units the script may kill, exactly those alive at the start
      (`alive0`) and not killed by calls `c0` up to `calls` are alive. */
  ghost predicate DeathsSoFar(script: seq<Outcome>, alive0: set<Unit>, c0: nat, calls: nat)
    reads Victims(script)
  {
    forall u :: u in Victims(script) ==> (u.alive <==> u in alive0 && u !in KilledBetween(script, c0, calls))
  }

  /** The battle loop (SimulateBattleImpl) and its log collaborator, which
      is handed in from outside and never assigned here. */
  class SimulateBattle {
    var printBattleLog: BattleLog?

    constructor (printBattleLog: BattleLog?)
      ensures this.printBattleLog == printBattleLog
    {
      this.printBattleLog := printBattleLog;
    }

    /** The turn of one living unit: one program call, and a log line when
        the call reports a target and there is a log. The call's kills are
        the only deaths. */
    method TakeTurn(attacker: Unit, programs: Programs,
                    ghost list: seq<Unit?>, ghost j: int, ghost alive: set<Unit>, ghost alive0: set<Unit>, ghost c0: nat)
      returns (target: Unit?)
      requires Tracks(list, j, alive) && DeathsSoFar(programs.script, alive0, c0, programs.calls)
      requires c0 <= programs.calls
      modifies programs, printBattleLog, Victims(programs.script)
      ensures programs.calls == old(programs.calls) + 1
      ensures programs.attackers == old(programs.attackers) + [attacker]
      ensures target == old(programs.Next()).target
      ensures printBattleLog != null ==>
                printBattleLog.entries == old(printBattleLog.entries) + (if target != null then [(attacker, target)] else [])
      ensures Tracks(list, j, alive - Killed(old(programs.Next())))
      ensures DeathsSoFar(programs.script, alive0, c0, programs.calls)
    {
      KilledAreVictims(programs.script, programs.calls);
      target := programs.Attack(attacker);
      if target != null && printBattleLog != null {
        printBattleLog.PrintBattleLog(attacker, target);
      }
    }

    /** What processTurns has recorded once the iterator stands at `i`: one
        program call per kept entry, in order, and their log lines. */
    ghost predicate Recorded(programs: Programs, a0: seq<Unit>, e0: seq<(Unit, Unit)>, list: seq<Unit?>, i: int, c0: nat)
      requires 0 <= i <= |list|
      reads this, programs, printBattleLog
    {
      programs.calls == c0 + i &&
      programs.attackers == a0 + list[..i] &&
      (printBattleLog != null ==> printBattleLog.entries == e0 + Logged(list[..i], programs.script, c0))
    }

    /** The iterator reaches a living unit: it takes its turn and stays in the list. */
    method ActEntry(attackers: seq<Unit?>, programs: Programs, list: seq<Unit?>, i: int,
                    ghost j: int, ghost acted: seq<bool>, ghost alive: set<Unit>,
                    ghost alive0: set<Unit>, ghost victims0: set<Unit>, ghost a0: seq<Unit>, ghost e0: seq<(Unit, Unit)>, ghost c0: nat)
      returns (ghost alive': set<Unit>)
      requires TurnsInv(attackers, alive0, programs.script, c0, list, i, j, acted, alive, programs.calls)
      requires Recorded(programs, a0, e0, list, i, c0)
      requires Tracks(attackers, j, alive) && DeathsSoFar(programs.script, victims0, c0, programs.calls)
      requires i < |list| && list[i] != null && list[i].alive
      modifies programs, printBattleLog, Victims(programs.script)
      ensures TurnsInv(attackers, alive0, programs.script, c0, list, i + 1, j + 1, acted + [true], alive', programs.calls)
      ensures Recorded(programs, a0, e0, list, i + 1, c0)
      ensures Tracks(attackers, j + 1, alive') && DeathsSoFar(programs.script, victims0, c0, programs.calls)
    {
      var attacker := list[i];
      assert attacker == attackers[j];
      TurnsAct(attackers, alive0, programs.script, c0, list, i, j, acted, alive, programs.calls);
      LoggedStep(list[..i], attacker, programs.script, c0);
      ghost var o := programs.Next();
      alive' := alive - Killed(o);
      var target := TakeTurn(attacker, programs, attackers, j + 1, alive, victims0, c0);
    }

    /** The iterator reaches an empty or dead entry: it is removed and nothing is recorded. */
    lemma SkipEntry(attackers: seq<Unit?>, programs: Programs, list: seq<Unit?>, i: int,
                    j: int, acted: seq<bool>, alive: set<Unit>,
                    alive0: set<Unit>, victims0: set<Unit>, a0: seq<Unit>, e0: seq<(Unit, Unit)>, c0: nat)
      requires TurnsInv(attackers, alive0, programs.script, c0, list, i, j, acted, alive, programs.calls)
      requires Recorded(programs, a0, e0, list, i, c0)
      requires Tracks(attackers, j, alive) && DeathsSoFar(programs.script, victims0, c0, programs.calls)
      requires i < |list| && (list[i] == null || !list[i].alive)
      ensures TurnsInv(attackers, alive0, programs.script, c0, list[..i] + list[i + 1..], i, j + 1, acted + [false], alive, programs.calls)
      ensures Recorded(programs, a0, e0, list[..i] + list[i + 1..], i, c0)
      ensures Tracks(attackers, j + 1, alive) && DeathsSoFar(programs.script, victims0, c0, programs.calls)
    {
      assert list[i] == attackers[j];
      TurnsSkip(attackers, alive0, programs.script, c0, list, i, j, acted, alive, programs.calls);
    }

    /** processTurns: walks the list with an iterator; an entry that is
        empty or dead when reached is removed, every other entry makes
        exactly one program call, in list order, and a reported target is
        logged when there is a log. */
    method ProcessTurns(attackers: seq<Unit?>, programs: Programs) returns (remaining: seq<Unit?>, ghost acted: seq<bool>)
      modifies programs, printBattleLog, Victims(programs.script)
      ensures acted == Acting(attackers, old(AliveIn(attackers)), programs.script, old(programs.calls))
      ensures |acted| == |attackers| && remaining == Keep(attackers, acted)
      ensures programs.calls == old(programs.calls) + |remaining|
      ensures programs.attackers == old(programs.attackers) + remaining
      ensures printBattleLog != null ==>
                printBattleLog.entries == old(printBattleLog.entries) + Logged(remaining, programs.script, old(programs.calls))
      ensures forall u :: u in Victims(programs.script) ==>
                u.alive == (old(u.alive) && u !in KilledBetween(programs.script, old(programs.calls), programs.calls))
    {
      ghost var S, c0, a0 := programs.script, programs.calls, programs.attackers;
      ghost var e0 := if printBattleLog != null then printBattleLog.entries else [];
      ghost var A0 := AliveIn(attackers);
      ghost var V0 := set u | u in Victims(S) && u.alive;
      ghost var A := A0;
      ghost var j := 0;
      var list := attackers;
      var i := 0;
      acted := [];
      TurnsStart(attackers, A0, S, c0);
      while i < |list|
        invariant TurnsInv(attackers, A0, S, c0, list, i, j, acted, A, programs.calls)
        invariant Recorded(programs, a0, e0, list, i, c0)
        invariant Tracks(attackers, j, A) && DeathsSoFar(S, V0, c0, programs.calls)
        decreases |attackers| - j
      {
        var attacker := list[i];
        if attacker == null || !attacker.alive {
          SkipEntry(attackers, programs, list, i, j, acted, A, A0, V0, a0, e0, c0);
          // it.remove()
          list := list[..i] + list[i + 1..];
          acted := acted + [false];
          j := j + 1;
        } else {
          A := ActEntry(attackers, programs, list, i, j, acted, A, A0, V0, a0, e0, c0);
          acted := acted + [true];
          i, j := i + 1, j + 1;
        }
      }
      TurnsEnd(attackers, A0, S, c0, list, i, j, acted, A, programs.calls);
      remaining := list;
    }

    ghost function LogEntries(): seq<(Unit, Unit)>
      reads this, printBattleLog
    {
      if printBattleLog == null then [] else printBattleLog.entries
    }

    /** The turns of one round: every turn of the player's list, then every
        turn of the computer's list (both hold living units when the round
        starts); a computer unit killed by a player turn loses its turn. */
    method BothSides(playerOrder: seq<Unit?>, computerOrder: seq<Unit?>, programs: Programs)
      returns (player: seq<Unit?>, computer: seq<Unit?>)
      requires forall u :: u in playerOrder ==> u != null && u.alive
      requires forall u :: u in computerOrder ==> u != null && u.alive
      modifies programs, printBattleLog, Victims(programs.script)
      ensures Played(programs, printBattleLog, playerOrder, computerOrder, player, computer,
                     old(programs.calls), old(programs.attackers), old(LogEntries()))
      ensures forall u :: u in Victims(programs.script) ==>
                u.alive == (old(u.alive) && u !in KilledBetween(programs.script, old(programs.calls), programs.calls))
    {
      ghost var S, c0 := programs.script, programs.calls;
      AllAliveIn(playerOrder);
      ghost var acted;
      player, acted := ProcessTurns(playerOrder, programs);
      ghost var c1 := programs.calls;
      KilledBetweenAreVictims(S, c0, c1);
      forall u | u in computerOrder
        ensures u != null && (u.alive <==> u !in KilledBetween(S, c0, c1))
      {
        if u !in Victims(S) {
          assert u !in KilledBetween(S, c0, c1);
        }
      }
      AliveAfter(computerOrder, KilledBetween(S, c0, c1));
      computer, acted := ProcessTurns(computerOrder, programs);
      KilledBetweenSplit(S, c0, c1, programs.calls);
    }

    /** One pass of simulate's loop body: compact both working lists to
        their living units; stop when either is empty; otherwise sort both
        by base attack, strongest first, and run the turns of both sides. */
    method Round(playerUnits: seq<Unit?>, computerUnits: seq<Unit?>, programs: Programs)
      returns (player: seq<Unit?>, computer: seq<Unit?>, over: bool,
               ghost playerOrder: seq<Unit?>, ghost computerOrder: seq<Unit?>)
      modifies programs, printBattleLog, Victims(programs.script)
      ensures over <==> old(|WithoutDead(playerUnits)| == 0 || |WithoutDead(computerUnits)| == 0)
      ensures over ==> player == old(WithoutDead(playerUnits)) && computer == old(WithoutDead(computerUnits))
      ensures over ==> programs.calls == old(programs.calls) && programs.attackers == old(programs.attackers)
      ensures over ==> forall u :: u in player + computer ==> u != null && u.alive
      ensures !over ==> playerOrder == SortByAttack(old(WithoutDead(playerUnits))) &&
                        computerOrder == SortByAttack(old(WithoutDead(computerUnits)))
      ensures !over ==> Played(programs, printBattleLog, playerOrder, computerOrder, player, computer,
                               old(programs.calls), old(programs.attackers), old(LogEntries()))
      ensures forall u :: u in Victims(programs.script) ==>
                u.alive == (old(u.alive) && u !in KilledBetween(programs.script, old(programs.calls), programs.calls))
    {
      // removeIf(u -> u == null || !u.isAlive()) on both lists
      var livePlayer := WithoutDead(playerUnits);
      var liveComputer := WithoutDead(computerUnits);
      if |livePlayer| == 0 || |liveComputer| == 0 {
        player, computer, over := livePlayer, liveComputer, true;
        playerOrder, computerOrder := [], [];
        return;
      }
      over := false;
      // sort(Comparator.comparingInt(Unit::getBaseAttack).reversed()) on both lists
      var sortedPlayer := SortByAttack(livePlayer);
      var sortedComputer := SortByAttack(liveComputer);
      playerOrder, computerOrder := sortedPlayer, sortedComputer;
      SortedAlive(livePlayer, sortedPlayer);
      SortedAlive(liveComputer, sortedComputer);
      player, computer := BothSides(sortedPlayer, sortedComputer, programs);
    }

    /** simulate: copies both armies' unit lists and plays rounds until one
        side has no living unit. The source loops without bound; here at
        most `maxRounds` rounds are played and `finished` says whether the
        battle ended. */
    method Simulate(playerArmy: Army, computerArmy: Army, programs: Programs, maxRounds: nat)
      returns (playerUnits: seq<Unit?>, computerUnits: seq<Unit?>, rounds: nat, finished: bool)
      modifies programs, printBattleLog, Victims(programs.script)
      ensures playerArmy.units == old(playerArmy.units) && computerArmy.units == old(computerArmy.units)
      ensures rounds <= maxRounds && (!finished ==> rounds == maxRounds)
      ensures finished ==> |playerUnits| == 0 || |computerUnits| == 0
      ensures finished ==> forall u :: u in playerUnits + computerUnits ==> u != null && u.alive
      ensures forall u :: u in Victims(programs.script) ==> (u.alive ==> old(u.alive))
    {
      playerUnits := playerArmy.units;
      computerUnits := computerArmy.units;
      rounds, finished := 0, false;
      while rounds < maxRounds
        invariant rounds <= maxRounds
        invariant forall u :: u in Victims(programs.script) ==> (u.alive ==> old(u.alive))
      {
        var over;
        ghost var po, co;
        playerUnits, computerUnits, over, po, co := Round(playerUnits, computerUnits, programs);
        if over {
          finished := true;
          return;
        }
        rounds := rounds + 1;
      }
    }
  }

  /** What the turns of one round did, given the two ordered lists: the
      player's list took its turns first, from program call `c0` on, with
      all its units alive; then the computer's list, whose units were alive
      unless a player turn killed them. Each side keeps the units that
      acted; every call is recorded, and every reported target logged. */
  ghost predicate Played(programs: Programs, log: BattleLog?, playerOrder: seq<Unit?>, computerOrder: seq<Unit?>,
                         player: seq<Unit?>, computer: seq<Unit?>, c0: nat, a0: seq<Unit>, e0: seq<(Unit, Unit)>)
    reads programs, log
  {
    var S := programs.script;
    var c1 := c0 + |player|;
    player == Keep(playerOrder, Acting(playerOrder, Elements(playerOrder), S, c0)) &&
    computer == Keep(computerOrder, Acting(computerOrder, Elements(computerOrder) - KilledBetween(S, c0, c1), S, c1)) &&
    programs.calls == c1 + |computer| &&
    programs.attackers == a0 + player + computer &&
    (log != null ==> log.entries == e0 + Logged(player, S, c0) + Logged(computer, S, c1))
  }

  /** A sorted copy of living units holds living units only. */
  lemma SortedAlive(live: seq<Unit>, order: seq<Unit>)
    requires forall u :: u in live ==> u.alive
    requires multiset(order) == multiset(live)
    ensures forall u :: u in order ==> u.alive
  {
    forall u | u in order ensures u.alive {
      assert u in multiset(order);
    }
  }

  lemma AllAliveIn(list: seq<Unit?>)
    requires forall u :: u in list ==> u != null && u.alive
    ensures AliveIn(list) == Elements(list)
  {
  }

  lemma AliveAfter(list: seq<Unit?>, dead: set<Unit>)
    requires forall u :: u in list ==> u != null && (u.alive <==> u !in dead)
    ensures AliveIn(list) == Elements(list) - dead
  {
  }

  lemma {:induction false} KilledBetweenSplit(script: seq<Outcome>, lo: nat, mid: nat, hi: nat)
    requires lo <= mid <= hi
    ensures KilledBetween(script, lo, hi) == KilledBetween(script, lo, mid) + KilledBetween(script, mid, hi)
    decreases hi
  {
    if hi > mid {
      KilledBetweenSplit(script, lo, mid, hi - 1);
    }
  }
}
