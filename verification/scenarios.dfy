/** Worked examples of the game's behaviour, each stated as a lemma about
    the model for every state that matches the example's starting values. */
module Scenarios {
  import opened Resources
  import opened Disasters
  import opened State
  import opened Engine

  /** Engine Fire drawn from the start (or any state with the same
      counters and resources as `Init()`): health 80, ship 75, sanity 85, the
      other resources untouched, day 2, one disaster survived, crew alive,
      and the message titled "Engine Fire". */
  lemma EngineFireFromStart(g: GameState)
    requires Valid(g) && g.isAlive && g.disastersSurvived == 0
    requires forall k :: StatOf(g, k) == Ceiling
    ensures var t := TriggerNextDisaster(g, EngineFire);
            && t.state.health == 80 && t.state.shipCondition == 75 && t.state.sanity == 85
            && t.state.food == 100 && t.state.water == 100
            && t.state.day == 2 && t.state.disastersSurvived == 1
            && t.state.isAlive
            && t.outcome == Survived(Catalog()[EngineFire])
            && t.outcome.disaster.Name() == "Engine Fire"
            && t.state.currentDisaster.Some? && t.state.currentDisaster.value.active
  {
    var fire := Catalog()[EngineFire];
    assert fire.effects == [Effect(Health, -20), Effect(ShipCondition, -25), Effect(Sanity, -15)];
    StrikeEffects(g, fire);
    var t := Strike(g, fire);
    assert StatOf(t.state, Health) == 80 && StatOf(t.state, ShipCondition) == 75;
    assert StatOf(t.state, Sanity) == 85;
    assert StatOf(t.state, Food) == 100 && StatOf(t.state, Water) == 100;
  }

  /** A living crew at health 10 and ship 50 meeting the Mega Storm on its
      last disaster: health clamps to 0, the ship drops to 30 and the game is
      lost, although the disaster count reaches 25. */
  lemma DefeatOnTheLastDisaster(g: GameState)
    requires Valid(g) && g.isAlive
    requires g.disastersSurvived == TotalDisasters - 1
    requires g.health == 10 && g.shipCondition == 50
    ensures var t := TriggerNextDisaster(g, 0);
            && t.state.health == 0 && t.state.shipCondition == 30
            && t.state.disastersSurvived == TotalDisasters
            && !t.state.isAlive
            && t.outcome == Defeated(Catalog()[0])
  {
    var storm := Catalog()[0];
    assert storm.effects == [Effect(Health, -15), Effect(Sanity, -10), Effect(ShipCondition, -20)];
    StrikeEffects(g, storm);
    var t := Strike(g, storm);
    assert StatOf(g, Health) == 10 && StatOf(g, ShipCondition) == 50;
    assert StatOf(t.state, Health) == 0 && StatOf(t.state, ShipCondition) == 30;
  }

  /** One medical kit, pressed twice: health rises by 30 once, the second
      press changes nothing and leaves the button disabled. */
  lemma MedicalKitTwice(g: GameState)
    requires g.inventory.medicalKits == 1
    requires 0 <= g.health <= 70
    ensures var once := PressUse(g, MedicalKits);
            var twice := PressUse(once, MedicalKits);
            && once.health == g.health + 30 && once.inventory.medicalKits == 0
            && twice == once
            && ButtonDisabled(twice, MedicalKits)
  {
    var once := PressUse(g, MedicalKits);
    ApplyEffectsPointwise(g.(inventory := g.inventory.(medicalKits := 0)), ItemEffects(MedicalKits), Health);
    assert StatOf(once, Health) == g.health + 30;
  }

  /** Items still work after game over: a dead crew's health rises by a
      medical kit, but the crew stays dead. */
  lemma ItemAfterGameOver(g: GameState)
    requires !g.isAlive
    requires g.inventory.medicalKits > 0
    requires g.health == 0
    ensures var r := PressUse(g, MedicalKits);
            && r.health == 30 && !r.isAlive
            && r.inventory.medicalKits == g.inventory.medicalKits - 1
  {
    var r := PressUse(g, MedicalKits);
    var taken := g.(inventory := g.inventory.(medicalKits := g.inventory.medicalKits - 1));
    ApplyEffectsPointwise(taken, ItemEffects(MedicalKits), Health);
    assert StatOf(r, Health) == 30;
  }

  /** Clamping from either side: a loss of 999 on health 10 lands on 0, a
      gain of 999 on water 90 lands on 100, and sanity is untouched. */
  lemma ClampExtremes(g: GameState)
    requires g.health == 10 && g.water == 90
    ensures var r := ApplyEffects(g, [Effect(Health, -999), Effect(Water, 999)]);
            r.health == 0 && r.water == 100 && r.sanity == g.sanity
  {
    var es := [Effect(Health, -999), Effect(Water, 999)];
    var r := ApplyEffects(g, es);
    ApplyEffectsPointwise(g, es, Health);
    ApplyEffectsPointwise(g, es, Water);
    assert StatOf(r, Health) == 0 && StatOf(r, Water) == 100;
    assert StatOf(r, Sanity) == StatOf(g, Sanity);
  }
}
