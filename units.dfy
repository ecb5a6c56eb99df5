/**
 * The two library types the combat code works on. Only the attributes that
 * the modelled code reads or writes are kept: identity (object reference),
 * name and type, health, base attack, cost, grid position and the alive flag.
 * Attack types and the attack/defence bonus tables are consumed only by the
 * per-unit decision procedure, which is outside this model.
 */
module Units {

  /** A combat unit. Only the alive flag changes here (a program call kills
      units). Name, type, health, base attack, cost and position are fixed
      at construction: the modelled code only reads them, and the unit
      decision procedure that changes health and position is outside this
      model. */
  class Unit {
    const name: string
    const unitType: string
    const baseAttack: int
    const cost: int
    const health: int
    const x: int
    const y: int
    var alive: bool

    constructor (name: string, unitType: string, health: int, baseAttack: int, cost: int, x: int, y: int)
      ensures this.name == name && this.unitType == unitType
      ensures this.health == health && this.baseAttack == baseAttack && this.cost == cost
      ensures this.x == x && this.y == y
      ensures alive == (health > 0)
    {
      this.name := name;
      this.unitType := unitType;
      this.health := health;
      this.baseAttack := baseAttack;
      this.cost := cost;
      this.x := x;
      this.y := y;
      this.alive := health > 0;
    }
  }

  /** A roster: its units (entries may be null) and the points spent on it. */
  class Army {
    var units: seq<Unit?>
    var points: int

    constructor ()
      ensures units == [] && points == 0
    {
      units := [];
      points := 0;
    }
  }
}
