/** The game's three state-changing operations -- applying an effect
    mapping, using an item, and drawing the next disaster -- with the
    game-over check, the button-disabled projection and the victory score. */
module Engine {
  import opened Wrappers
  import opened Resources
  import opened Disasters
  import opened State

  // ---------------------------------------------------------------------
  // Applying an effect mapping

  /** Walks the mapping key by key, replacing each named resource by the
      clamped sum of its current value and the delta. */
  function ApplyEffects(g: GameState, effects: Effects): (r: GameState)
    ensures SameExceptStats(g, r)
    ensures forall k :: !Names(effects, k) ==> StatOf(r, k) == StatOf(g, k)
    ensures forall k :: Names(effects, k) ==> Floor <= StatOf(r, k) <= Ceiling
    decreases |effects|
  {
    if |effects| == 0 then g
    else
      var e := effects[0];
      ApplyEffects(WithStat(g, e.stat, Clamp(StatOf(g, e.stat) + e.delta)), effects[1..])
  }

  /** With one entry per resource, walking the mapping in any order lands
      each named resource on the clamp of its old value plus its delta. */
  lemma {:induction false} ApplyEffectsPointwise(g: GameState, effects: Effects, k: Stat)
    requires DistinctStats(effects)
    ensures StatOf(ApplyEffects(g, effects), k)
         == if Names(effects, k) then Clamp(StatOf(g, k) + DeltaFor(effects, k)) else StatOf(g, k)
    decreases |effects|
  {
    if |effects| > 0 {
      var e := effects[0];
      var mid := WithStat(g, e.stat, Clamp(StatOf(g, e.stat) + e.delta));
      var rest := effects[1..];
      DistinctTail(effects);
      ApplyEffectsPointwise(mid, rest, k);
      if e.stat == k {
        NotNamedWhenAbsent(rest, k);
      }
    }
  }

  /** The pointwise law for every resource at once, in its range-aware form:
      from a state whose resources are percentages, every resource (named
      or not) is the clamp of its old value plus its delta. */
  lemma ApplyEffectsExact(g: GameState, effects: Effects)
    requires DistinctStats(effects)
    requires StatsInRange(g)
    ensures forall k :: StatOf(ApplyEffects(g, effects), k) == Clamp(StatOf(g, k) + DeltaFor(effects, k))
  {
    forall k
      ensures StatOf(ApplyEffects(g, effects), k) == Clamp(StatOf(g, k) + DeltaFor(effects, k))
    {
      ApplyEffectsPointwise(g, effects, k);
      if !Names(effects, k) {
        DeltaForUnnamed(effects, k);
      }
    }
  }

  /** A harmful mapping never raises a resource that was a percentage; a
      restorative one never lowers it. */
  lemma ApplyEffectsMonotone(g: GameState, effects: Effects)
    requires DistinctStats(effects)
    requires StatsInRange(g)
    ensures AllHarmful(effects) ==> forall k :: StatOf(ApplyEffects(g, effects), k) <= StatOf(g, k)
    ensures AllRestorative(effects) ==> forall k :: StatOf(ApplyEffects(g, effects), k) >= StatOf(g, k)
  {
    forall k
      ensures AllHarmful(effects) ==> StatOf(ApplyEffects(g, effects), k) <= StatOf(g, k)
      ensures AllRestorative(effects) ==> StatOf(ApplyEffects(g, effects), k) >= StatOf(g, k)
    {
      ApplyEffectsPointwise(g, effects, k);
      if Names(effects, k) {
        DeltaSign(effects, k);
      }
    }
  }

  // ---------------------------------------------------------------------
  // The game-over check and the victory score

  /** Marks the crew dead when health or the ship has run out; the flag is
      only ever cleared, never set. */
  function CheckGameOver(g: GameState): (r: GameState)
    ensures r.isAlive <==> g.isAlive && g.health > 0 && g.shipCondition > 0
    ensures r.(isAlive := g.isAlive) == g
  {
    if g.health <= 0 || g.shipCondition <= 0 then g.(isAlive := false) else g
  }

  /** The score the victory banner shows: health plus sanity plus ship. */
  function VictoryScore(g: GameState): (s: int)
    ensures StatsInRange(g) ==> 0 <= s <= 3 * Ceiling
    ensures StatsInRange(g) && s == 3 * Ceiling ==>
              g.health == Ceiling && g.sanity == Ceiling && g.shipCondition == Ceiling
  {
    StatOf(g, Health) + StatOf(g, Sanity) + StatOf(g, ShipCondition)
  }

  // ---------------------------------------------------------------------
  // Drawing the next disaster

  /** What a press of the "next disaster" button shows. */
  datatype Outcome =
    | Ignored                      // the crew is dead: nothing happens
    | Victory(score: int)          // every disaster already survived
    | Survived(disaster: Disaster) // the disaster struck and the crew lives
    | Defeated(disaster: Disaster) // the disaster struck and ended the game

  /** The state after the press and what was shown. */
  datatype Turn = Turn(state: GameState, outcome: Outcome)

  /** Disaster `d` strikes: it becomes the current disaster (active, timer
      set from its duration), its effects apply, both counters advance and
      the game-over check runs. Defeat is reported over survival. */
  function Strike(g: GameState, d: Disaster): (t: Turn)
    ensures t.state.day == g.day + 1
    ensures t.state.disastersSurvived == g.disastersSurvived + 1
    ensures t.state.totalDisasters == g.totalDisasters
    ensures t.state.inventory == g.inventory
    ensures t.state.currentDisaster == Some(ActiveDisaster(d, true, d.duration))
    ensures forall k :: !Names(d.effects, k) ==> StatOf(t.state, k) == StatOf(g, k)
    ensures forall k :: Names(d.effects, k) ==> Floor <= StatOf(t.state, k) <= Ceiling
    ensures t.state.isAlive <==> g.isAlive && t.state.health > 0 && t.state.shipCondition > 0
    ensures t.outcome == (if t.state.isAlive then Survived(d) else Defeated(d))
  {
    var drawn := g.(currentDisaster := Some(ActiveDisaster(d, true, d.duration)));
    var struck := ApplyEffects(drawn, d.effects);
    var counted := struck.(day := struck.day + 1, disastersSurvived := struck.disastersSurvived + 1);
    var checked := CheckGameOver(counted);
    Turn(checked, if checked.isAlive then Survived(d) else Defeated(d))
  }

  /** After a well-formed disaster strikes a state whose resources are
      percentages, each resource is the clamp of its old value plus the
      disaster's delta for it, and so is never higher than before. */
  lemma StrikeEffects(g: GameState, d: Disaster)
    requires WellFormed(d)
    requires StatsInRange(g)
    ensures forall k :: StatOf(Strike(g, d).state, k) == Clamp(StatOf(g, k) + DeltaFor(d.effects, k))
    ensures forall k :: StatOf(Strike(g, d).state, k) <= StatOf(g, k)
  {
    var drawn := g.(currentDisaster := Some(ActiveDisaster(d, true, d.duration)));
    assert forall k :: StatOf(drawn, k) == StatOf(g, k);
    ApplyEffectsExact(drawn, d.effects);
    ApplyEffectsMonotone(drawn, d.effects);
  }

  /** A catalog disaster striking a valid state that has not yet won keeps
      the game invariant. */
  lemma StrikePreservesValid(g: GameState, d: Disaster)
    requires Valid(g)
    requires WellFormed(d)
    requires g.disastersSurvived < g.totalDisasters
    ensures Valid(Strike(g, d).state)
  {
    StrikeEffects(g, d);
  }

  /** One press of the "next disaster" button; `draw` stands for the random
      catalog index the game picks. A dead crew gets nothing; a crew that has
      survived every disaster gets the victory banner and no change. */
  function TriggerNextDisaster(g: GameState, draw: int): (t: Turn)
    requires 0 <= draw < CatalogSize
    ensures !g.isAlive ==> t == Turn(g, Ignored)
    ensures g.isAlive && g.disastersSurvived >= g.totalDisasters ==>
              t == Turn(g, Victory(VictoryScore(g)))
    ensures g.isAlive && g.disastersSurvived < g.totalDisasters ==>
              t == Strike(g, Catalog()[draw])
  {
    if !g.isAlive then Turn(g, Ignored)
    else if g.disastersSurvived >= g.totalDisasters then Turn(g, Victory(VictoryScore(g)))
    else Strike(g, Catalog()[draw])
  }

  /** The state after a press of the "next disaster" button. */
  function NextDisaster(g: GameState, draw: int): (r: GameState)
    requires 0 <= draw < CatalogSize
    ensures r.isAlive ==> g.isAlive
    ensures r.day >= g.day
  {
    TriggerNextDisaster(g, draw).state
  }

  /** A press changes nothing exactly when the crew is dead or every
      disaster is already behind it. */
  lemma NextDisasterNoOpIff(g: GameState, draw: int)
    requires 0 <= draw < CatalogSize
    ensures NextDisaster(g, draw) == g <==> !g.isAlive || g.disastersSurvived >= g.totalDisasters
  {
  }

  /** A press of the "next disaster" button keeps the game invariant. */
  lemma NextDisasterPreservesValid(g: GameState, draw: int)
    requires 0 <= draw < CatalogSize
    requires Valid(g)
    ensures Valid(NextDisaster(g, draw))
  {
    if g.isAlive && g.disastersSurvived < g.totalDisasters {
      StrikePreservesValid(g, Catalog()[draw]);
    }
  }

  // ---------------------------------------------------------------------
  // Using an item

  /** The restorative mapping each item button is wired to. */
  function ItemEffects(item: Item): (es: Effects)
    ensures |es| == 1 && DistinctStats(es) && AllRestorative(es)
  {
    match item
    case MedicalKits => [Effect(Health, 30)]
    case RepairKits => [Effect(ShipCondition, 25)]
    case EmergencyRations => [Effect(Food, 40)]
    case FreshWater => [Effect(Water, 50)]
  }

  /** Uses one `item` if the inventory holds any, applying `effects`; with
      none left nothing changes. The alive flag is not consulted. */
  function UseItem(g: GameState, item: Item, effects: Effects): (r: GameState)
    ensures Count(g.inventory, item) <= 0 ==> r == g
    ensures Count(g.inventory, item) > 0 ==>
              && Count(r.inventory, item) == Count(g.inventory, item) - 1
              && (forall other :: other != item ==> Count(r.inventory, other) == Count(g.inventory, other))
              && r.day == g.day
              && r.disastersSurvived == g.disastersSurvived
              && r.totalDisasters == g.totalDisasters
              && r.currentDisaster == g.currentDisaster
              && r.isAlive == g.isAlive
              && (forall k :: !Names(effects, k) ==> StatOf(r, k) == StatOf(g, k))
              && (forall k :: Names(effects, k) ==> Floor <= StatOf(r, k) <= Ceiling)
  {
    if Count(g.inventory, item) > 0 then
      var taken := g.(inventory := WithCount(g.inventory, item, Count(g.inventory, item) - 1));
      ApplyEffects(taken, effects)
    else g
  }

  /** A press of `item`'s button: use it with its fixed restorative mapping. */
  function PressUse(g: GameState, item: Item): (r: GameState)
    ensures r.isAlive == g.isAlive
    ensures CountsNonNegative(g.inventory) ==> CountsNonNegative(r.inventory)
  {
    UseItem(g, item, ItemEffects(item))
  }

  /** After a use that happened, each resource is the clamp of its old value
      plus the item's delta for it, and so is never lower than before. */
  lemma PressUseEffects(g: GameState, item: Item)
    requires StatsInRange(g)
    requires Count(g.inventory, item) > 0
    ensures forall k :: StatOf(PressUse(g, item), k) == Clamp(StatOf(g, k) + DeltaFor(ItemEffects(item), k))
    ensures forall k :: StatOf(PressUse(g, item), k) >= StatOf(g, k)
  {
    var taken := g.(inventory := WithCount(g.inventory, item, Count(g.inventory, item) - 1));
    assert forall k :: StatOf(taken, k) == StatOf(g, k);
    ApplyEffectsExact(taken, ItemEffects(item));
    ApplyEffectsMonotone(taken, ItemEffects(item));
  }

  /** A press of an item button keeps the game invariant, dead crew or not. */
  lemma PressUsePreservesValid(g: GameState, item: Item)
    requires Valid(g)
    ensures Valid(PressUse(g, item))
  {
    if Count(g.inventory, item) > 0 {
      PressUseEffects(g, item);
      var r := PressUse(g, item);
      assert StatOf(r, Health) >= StatOf(g, Health);
      assert StatOf(r, ShipCondition) >= StatOf(g, ShipCondition);
    }
  }

  /** The item button is disabled exactly when its count is zero; a
      disabled button does nothing when pressed. */
  function ButtonDisabled(g: GameState, item: Item): (disabled: bool)
    ensures disabled ==> PressUse(g, item) == g
  {
    Count(g.inventory, item) == 0
  }

  /** With counts never negative, a press changes nothing exactly when the
      button is shown disabled. */
  lemma PressUseNoOpIff(g: GameState, item: Item)
    requires CountsNonNegative(g.inventory)
    ensures PressUse(g, item) == g <==> ButtonDisabled(g, item)
  {
    if Count(g.inventory, item) > 0 {
      assert Count(PressUse(g, item).inventory, item) != Count(g.inventory, item);
    }
  }
}
