/**
 * SuitableForAttackUnitsFinderImpl: which enemy units an attacker may choose
 * from. The enemy army is given row by row; in each row only the foremost
 * occupant seen from the attacked side qualifies, and only when it is alive.
 * "Foremost" looks at references alone: a dead unit still standing in a row
 * shields every unit behind it.
 */
module SuitableUnits {
  import opened Optional
  import opened Units

  /** One row of the enemy's layout; an entry is a unit or empty (null). */
  type Row = seq<Unit?>

  /** The units a row refers to, as a frame. */
  ghost function RowUnits(row: Row): set<Unit> {
    set u: Unit | u in row
  }

  ghost function LayoutUnits(rows: seq<Row>): set<Unit> {
    set r, u: Unit | r in rows && u in r :: u
  }

  /** isFirstUnitFromLeft: at the start of the row or with only empty entries before it. */
  predicate IsFirstUnitFromLeft(row: Row, index: int): (r: bool)
    requires 0 <= index < |row|
    ensures r <==> FirstOccupied(row[..index]).None?
  {
    index == 0 || forall j :: 0 <= j < index ==> row[j] == null
  }

  /** isLastUnitFromRight: at the end of the row or with only empty entries after it. */
  predicate IsLastUnitFromRight(row: Row, index: int): (r: bool)
    requires 0 <= index < |row|
    ensures r <==> LastOccupied(row[index + 1..]).None?
  {
    index == |row| - 1 || forall j :: index + 1 <= j < |row| ==> row[j] == null
  }

  /** isValidUnitForAttack: the left army is attacked from the left, the right
      army from the right; either way, every entry on the attacked side of
      `index` is empty. */
  predicate IsValidUnitForAttack(row: Row, index: int, isLeftArmyTarget: bool): (r: bool)
    requires 0 <= index < |row|
    ensures r <==> forall j :: 0 <= j < |row| && (if isLeftArmyTarget then j < index else index < j) ==> row[j] == null
  {
    if isLeftArmyTarget then IsFirstUnitFromLeft(row, index) else IsLastUnitFromRight(row, index)
  }

  /** The test applied to entry `i` of a row. */
  predicate Selected(row: Row, i: int, isLeftArmyTarget: bool)
    requires 0 <= i < |row|
    reads RowUnits(row)
  {
    row[i] != null && row[i].alive && IsValidUnitForAttack(row, i, isLeftArmyTarget)
  }

  /** The entries among the first `n` of a row that pass the test, in row order. */
  ghost function Picked(row: Row, isLeftArmyTarget: bool, n: int): seq<Unit>
    requires 0 <= n <= |row|
    reads RowUnits(row)
  {
    if n == 0 then []
    else
      var u := row[n - 1];
      Picked(row, isLeftArmyTarget, n - 1) + (if u != null && Selected(row, n - 1, isLeftArmyTarget) then [u] else [])
  }

  /** The index of the first occupied entry of a row, if any: a reference
      definition of "foremost from the left" that does not mention the test. */
  function FirstOccupied(row: Row): (r: Option<nat>)
    ensures r.Some? ==> r.value < |row| && row[r.value] != null &&
                        forall j :: 0 <= j < r.value ==> row[j] == null
    ensures r.None? ==> forall j :: 0 <= j < |row| ==> row[j] == null
  {
    if |row| == 0 then None
    else if row[0] != null then Some(0)
    else match FirstOccupied(row[1..])
      case None => None
      case Some(k) => Some(k + 1)
  }

  /** The index of the last occupied entry of a row, if any. */
  function LastOccupied(row: Row): (r: Option<nat>)
    ensures r.Some? ==> r.value < |row| && row[r.value] != null &&
                        forall j :: r.value < j < |row| ==> row[j] == null
    ensures r.None? ==> forall j :: 0 <= j < |row| ==> row[j] == null
  {
    if |row| == 0 then None
    else if row[|row| - 1] != null then Some(|row| - 1)
    else LastOccupied(row[..|row| - 1])
  }

  /** The foremost occupied entry seen from the attacked side. */
  function Foremost(row: Row, isLeftArmyTarget: bool): Option<nat> {
    if isLeftArmyTarget then FirstOccupied(row) else LastOccupied(row)
  }

  /** What a row should contribute: its foremost occupant if that one is alive, else nothing. */
  ghost function FrontTarget(row: Row, isLeftArmyTarget: bool): seq<Unit>
    reads RowUnits(row)
  {
    match Foremost(row, isLeftArmyTarget)
    case None => []
    case Some(k) => if k < |row| && row[k] != null && row[k].alive then [row[k]] else []
  }

  /** An occupied entry passes the position test exactly when it is the
      foremost occupied entry from the attacked side. */
  lemma ValidIffForemost(row: Row, i: int, isLeftArmyTarget: bool)
    requires 0 <= i < |row| && row[i] != null
    ensures IsValidUnitForAttack(row, i, isLeftArmyTarget) <==> Foremost(row, isLeftArmyTarget) == Some(i)
  {
    var f := Foremost(row, isLeftArmyTarget);
    if isLeftArmyTarget {
      if IsFirstUnitFromLeft(row, i) {
        assert f.Some?;
      }
    } else {
      if IsLastUnitFromRight(row, i) {
        assert f.Some?;
      }
    }
  }

  /** The entry at index `i` is returned exactly when it is a living unit
      and the foremost occupied entry seen from the attacked side. */
  lemma SelectedIff(row: Row, i: int, isLeftArmyTarget: bool)
    requires 0 <= i < |row|
    ensures Selected(row, i, isLeftArmyTarget) <==>
              row[i] != null && row[i].alive && Foremost(row, isLeftArmyTarget) == Some(i)
  {
    if row[i] != null {
      ValidIffForemost(row, i, isLeftArmyTarget);
    }
  }

  lemma {:induction false} PickedUpTo(row: Row, isLeftArmyTarget: bool, n: int)
    requires 0 <= n <= |row|
    ensures Picked(row, isLeftArmyTarget, n) ==
              match Foremost(row, isLeftArmyTarget)
              case None => []
              case Some(k) => if k < n && row[k] != null && row[k].alive then [row[k]] else []
  {
    if n > 0 {
      PickedUpTo(row, isLeftArmyTarget, n - 1);
      var u := row[n - 1];
      if u != null {
        ValidIffForemost(row, n - 1, isLeftArmyTarget);
      }
    }
  }

  /** A row contributes its foremost occupant when that one is alive and
      nothing otherwise: at most one unit per row, none from an empty or
      all-empty row, none when the foremost occupant is dead. */
  lemma RowContribution(row: Row, isLeftArmyTarget: bool)
    ensures Picked(row, isLeftArmyTarget, |row|) == FrontTarget(row, isLeftArmyTarget)
    ensures |Picked(row, isLeftArmyTarget, |row|)| <= 1
  {
    PickedUpTo(row, isLeftArmyTarget, |row|);
  }

  /** A dead unit standing in front shields every unit behind it. */
  lemma DeadBlockerShields(row: Row, i: int, j: int, isLeftArmyTarget: bool)
    requires 0 <= i < |row| && 0 <= j < |row|
    requires row[j] != null && !row[j].alive
    requires if isLeftArmyTarget then j < i else i < j
    ensures !Selected(row, i, isLeftArmyTarget)
  {
  }

  /** findSuitableUnitsInRow: the units of one row that pass the test, in row order. */
  method FindSuitableUnitsInRow(row: Row, isLeftArmyTarget: bool) returns (suitableUnits: seq<Unit>)
    ensures suitableUnits == Picked(row, isLeftArmyTarget, |row|)
    ensures |suitableUnits| <= 1
    ensures forall u :: u in suitableUnits ==> u.alive && u in row
  {
    suitableUnits := [];
    for i := 0 to |row|
      invariant suitableUnits == Picked(row, isLeftArmyTarget, i)
    {
      var unit := row[i];
      if unit != null && unit.alive && IsValidUnitForAttack(row, i, isLeftArmyTarget) {
        suitableUnits := suitableUnits + [unit];
      }
    }
    RowContribution(row, isLeftArmyTarget);
  }

  /** The concatenation of the rows' contributions, in row order. */
  ghost function Suitable(rows: seq<Row>, isLeftArmyTarget: bool): seq<Unit>
    reads LayoutUnits(rows)
  {
    if |rows| == 0 then []
    else
      assert RowUnits(rows[|rows| - 1]) <= LayoutUnits(rows);
      assert LayoutUnits(rows[..|rows| - 1]) <= LayoutUnits(rows);
      Suitable(rows[..|rows| - 1], isLeftArmyTarget) + Picked(rows[|rows| - 1], isLeftArmyTarget, |rows[|rows| - 1]|)
  }

  /** getSuitableUnits: every row's suitable units, appended in row order. */
  method GetSuitableUnits(unitsByRow: seq<Row>, isLeftArmyTarget: bool) returns (result: seq<Unit>)
    ensures result == Suitable(unitsByRow, isLeftArmyTarget)
  {
    result := [];
    for r := 0 to |unitsByRow|
      invariant result == Suitable(unitsByRow[..r], isLeftArmyTarget)
    {
      var row := unitsByRow[r];
      var suitableUnits := FindSuitableUnitsInRow(row, isLeftArmyTarget);
      // the call changes no unit, so the contributions of the rows so far stand
      assert forall u :: u in LayoutUnits(unitsByRow[..r]) ==> u.alive == old(u.alive);
      assert unitsByRow[..r + 1][..r] == unitsByRow[..r] && unitsByRow[..r + 1][r] == row;
      result := result + suitableUnits;
    }
    assert unitsByRow[..|unitsByRow|] == unitsByRow;
  }

  /** At most one unit per row; every returned unit is alive, is the foremost
      occupant of some row, and that row's contribution is exactly it. */
  lemma {:induction false} SuitableFacts(rows: seq<Row>, isLeftArmyTarget: bool)
    ensures |Suitable(rows, isLeftArmyTarget)| <= |rows|
    ensures forall u :: u in Suitable(rows, isLeftArmyTarget) ==>
              u.alive && exists r :: 0 <= r < |rows| && FrontTarget(rows[r], isLeftArmyTarget) == [u]
  {
    if |rows| > 0 {
      var init, last := rows[..|rows| - 1], rows[|rows| - 1];
      SuitableFacts(init, isLeftArmyTarget);
      RowContribution(last, isLeftArmyTarget);
      forall u | u in Suitable(rows, isLeftArmyTarget)
        ensures u.alive && exists r :: 0 <= r < |rows| && FrontTarget(rows[r], isLeftArmyTarget) == [u]
      {
        if u in Suitable(init, isLeftArmyTarget) {
          var r :| 0 <= r < |init| && FrontTarget(init[r], isLeftArmyTarget) == [u];
          assert rows[r] == init[r];
        } else {
          assert FrontTarget(rows[|rows| - 1], isLeftArmyTarget) == [u];
        }
      }
    }
  }
}
