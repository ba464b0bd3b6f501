/** The game state record: counters, the five resources, the inventory, the
    alive flag and the current disaster, with its initial value and the
    invariant every reachable state keeps. */
module State {
  import opened Wrappers
  import opened Resources
  import opened Disasters

  /** Disasters to survive before victory. */
  const TotalDisasters: int := 25

  /** The four consumables. */
  datatype Item = MedicalKits | RepairKits | EmergencyRations | FreshWater

  /** The inventory record: one count per consumable. */
  datatype Inventory = Inventory(
    medicalKits: int,
    repairKits: int,
    emergencyRations: int,
    freshWater: int)

  /** The disaster last drawn: a copy of the catalog entry plus an `active`
      flag and a `timer` set from its duration. */
  datatype ActiveDisaster = ActiveDisaster(info: Disaster, active: bool, timer: int)

  datatype GameState = GameState(
    day: int,
    disastersSurvived: int,
    totalDisasters: int,
    health: int,
    sanity: int,
    food: int,
    water: int,
    shipCondition: int,
    currentDisaster: Option<ActiveDisaster>,
    inventory: Inventory,
    isAlive: bool)

  /** The count the inventory holds for `item`. */
  function Count(inv: Inventory, item: Item): int {
    match item
    case MedicalKits => inv.medicalKits
    case RepairKits => inv.repairKits
    case EmergencyRations => inv.emergencyRations
    case FreshWater => inv.freshWater
  }

  /** The inventory with the count for `item` replaced by `n`. */
  function WithCount(inv: Inventory, item: Item, n: int): (r: Inventory)
    ensures Count(r, item) == n
    ensures forall other :: other != item ==> Count(r, other) == Count(inv, other)
  {
    match item
    case MedicalKits => inv.(medicalKits := n)
    case RepairKits => inv.(repairKits := n)
    case EmergencyRations => inv.(emergencyRations := n)
    case FreshWater => inv.(freshWater := n)
  }

  /** The value of the resource field named `k`. */
  function StatOf(g: GameState, k: Stat): int {
    match k
    case Health => g.health
    case Sanity => g.sanity
    case Food => g.food
    case Water => g.water
    case ShipCondition => g.shipCondition
  }

  /** The two states agree on everything except the five resources. */
  predicate SameExceptStats(g: GameState, r: GameState) {
    && r.day == g.day
    && r.disastersSurvived == g.disastersSurvived
    && r.totalDisasters == g.totalDisasters
    && r.currentDisaster == g.currentDisaster
    && r.inventory == g.inventory
    && r.isAlive == g.isAlive
  }

  /** The state with the resource field named `k` replaced by `v`. */
  function WithStat(g: GameState, k: Stat, v: int): (r: GameState)
    ensures StatOf(r, k) == v
    ensures forall other :: other != k ==> StatOf(r, other) == StatOf(g, other)
    ensures SameExceptStats(g, r)
  {
    match k
    case Health => g.(health := v)
    case Sanity => g.(sanity := v)
    case Food => g.(food := v)
    case Water => g.(water := v)
    case ShipCondition => g.(shipCondition := v)
  }

  predicate StatsInRange(g: GameState) {
    forall k :: Floor <= StatOf(g, k) <= Ceiling
  }

  predicate CountsNonNegative(inv: Inventory) {
    forall item :: Count(inv, item) >= 0
  }

  /** The invariant of every state the game can reach from its start. */
  predicate Valid(g: GameState) {
    && g.totalDisasters == TotalDisasters
    && StatsInRange(g)
    && g.day == g.disastersSurvived + 1
    && 0 <= g.disastersSurvived <= g.totalDisasters
    && CountsNonNegative(g.inventory)
    // the slot is filled by the first disaster and never emptied again
    && (g.currentDisaster.None? <==> g.disastersSurvived == 0)
    // and, once filled, it holds an active copy of a well-formed disaster
    && (g.currentDisaster.Some? ==>
          var cur := g.currentDisaster.value;
          && WellFormed(cur.info)
          && cur.active
          && cur.timer == cur.info.duration)
    // a living crew has health and a ship left
    && (g.isAlive ==> g.health > Floor && g.shipCondition > Floor)
  }

  /** The state the game starts (and restarts) in. */
  function Init(): (g: GameState)
    ensures Valid(g)
    ensures g.isAlive && g.day == 1 && g.disastersSurvived == 0
    ensures forall k :: StatOf(g, k) == Ceiling
    ensures g.currentDisaster == None
  {
    GameState(
      day := 1,
      disastersSurvived := 0,
      totalDisasters := TotalDisasters,
      health := 100,
      sanity := 100,
      food := 100,
      water := 100,
      shipCondition := 100,
      currentDisaster := None,
      inventory := Inventory(
        medicalKits := 1,
        repairKits := 1,
        emergencyRations := 2,
        freshWater := 3),
      isAlive := true)
  }
}
