/** The static disaster catalog: eight one-shot events, each with the
    resources it damages and by how much. */
module Disasters {
  import opened Resources

  /** The category tag of a disaster; the game keeps it twice, as the
      disaster's type and as the visual effect the renderer picks. */
  datatype Category = Storm | Fire | Hunger | Thirst | Pirates | Mutiny | Toxic | Lost

  /** One catalog entry. `duration` is stored and copied into the active
      disaster's timer but never consulted by the game logic. Each category
      has exactly one entry, so the message title and body shown when the
      disaster strikes are looked up by category. */
  datatype Disaster = Disaster(
    kind: Category,
    visual: Category,
    effects: Effects,
    duration: int)
  {
    /** The title of the disaster message. */
    function Name(): string {
      match kind
      case Storm => "Mega Storm"
      case Fire => "Engine Fire"
      case Hunger => "Food Crisis"
      case Thirst => "Water Shortage"
      case Pirates => "Pirates Attack"
      case Mutiny => "Crew Mutiny"
      case Toxic => "Toxic Spill"
      case Lost => "Navigation Failure"
    }

    /** The body of the disaster message. */
    function Description(): string {
      match kind
      case Storm => "A massive storm with waves taller than the ship!"
      case Fire => "Fire in the engine room! Smoke everywhere!"
      case Hunger => "Storm contaminated the food supplies!"
      case Thirst => "Water purification system failed!"
      case Pirates => "Pirates are boarding the ship!"
      case Mutiny => "The crew is losing their minds!"
      case Toxic => "Hazardous materials are leaking!"
      case Lost => "All navigation systems are down!"
    }
  }

  /** What every catalog entry satisfies: it damages at least one resource,
      names each resource at most once, only ever takes away, and lasts at
      least one turn. */
  predicate WellFormed(d: Disaster) {
    && |d.effects| > 0
    && DistinctStats(d.effects)
    && AllHarmful(d.effects)
    && d.duration > 0
    && d.kind == d.visual
  }

  /** Number of catalog entries: the range of the random draw. */
  const CatalogSize: nat := 8

  /** The eight disasters, in catalog order (Mega Storm, Engine Fire, Food
      Crisis, Water Shortage, Pirates Attack, Crew Mutiny, Toxic Spill,
      Navigation Failure); a draw is an index into it. */
  function Catalog(): (c: seq<Disaster>)
    ensures |c| == CatalogSize
    ensures forall i :: 0 <= i < |c| ==> WellFormed(c[i])
  {
    [
      Disaster(Storm, Storm,
        [Effect(Health, -15), Effect(Sanity, -10), Effect(ShipCondition, -20)], 3),
      Disaster(Fire, Fire,
        [Effect(Health, -20), Effect(ShipCondition, -25), Effect(Sanity, -15)], 2),
      Disaster(Hunger, Hunger,
        [Effect(Food, -40), Effect(Health, -10), Effect(Sanity, -10)], 2),
      Disaster(Thirst, Thirst,
        [Effect(Water, -50), Effect(Health, -15), Effect(Sanity, -10)], 2),
      Disaster(Pirates, Pirates,
        [Effect(Health, -25), Effect(Sanity, -20), Effect(ShipCondition, -15)], 3),
      Disaster(Mutiny, Mutiny,
        [Effect(Sanity, -30), Effect(Health, -10)], 2),
      Disaster(Toxic, Toxic,
        [Effect(Health, -30), Effect(Sanity, -15)], 3),
      Disaster(Lost, Lost,
        [Effect(Sanity, -25), Effect(Food, -20), Effect(Water, -20)], 2)
    ]
  }

  /** No two catalog entries share a category. */
  lemma CatalogCategoriesDistinct()
    ensures forall i, j :: 0 <= i < j < |Catalog()| ==> Catalog()[i].kind != Catalog()[j].kind
  {
  }

  /** Catalog positions of two entries the examples and lemmas refer to. */
  const EngineFire: nat := 1
  const NavigationFailure: nat := 7
}
