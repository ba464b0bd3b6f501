/** Whole games: sequences of button presses from the initial state, and the
    invariants that hold across every one of them. */
module Play {
  import opened Resources
  import opened Disasters
  import opened State
  import opened Engine

  /** The five input triggers: the "next disaster" button, carrying the
      catalog index its random draw would produce, and the four item buttons. */
  datatype Action = Advance(draw: int) | Use(item: Item)

  /** A draw the random index computation can produce. */
  predicate Legal(a: Action) {
    a.Advance? ==> 0 <= a.draw < CatalogSize
  }

  predicate AllLegal(acts: seq<Action>) {
    forall j :: 0 <= j < |acts| ==> Legal(acts[j])
  }

  /** The state after one press. */
  function Step(g: GameState, a: Action): (r: GameState)
    requires Legal(a)
    ensures r.isAlive ==> g.isAlive
    ensures forall item :: Count(r.inventory, item) <= Count(g.inventory, item)
  {
    match a
    case Advance(draw) => NextDisaster(g, draw)
    case Use(item) => PressUse(g, item)
  }

  /** The state after pressing the buttons in order. Along any run the
      crew never comes back to life, the day never goes backwards and no
      inventory count ever grows. */
  function Run(g: GameState, acts: seq<Action>): (r: GameState)
    requires AllLegal(acts)
    ensures r.isAlive ==> g.isAlive
    ensures r.day >= g.day
    ensures r.totalDisasters == g.totalDisasters
    ensures forall item :: Count(r.inventory, item) <= Count(g.inventory, item)
    decreases |acts|
  {
    if |acts| == 0 then g
    else
      assert Legal(acts[0]);
      Run(Step(g, acts[0]), acts[1..])
  }

  /** Every press keeps the invariant. */
  lemma StepPreservesValid(g: GameState, a: Action)
    requires Valid(g)
    requires Legal(a)
    ensures Valid(Step(g, a))
  {
    match a
    case Advance(draw) => NextDisasterPreservesValid(g, draw);
    case Use(item) => PressUsePreservesValid(g, item);
  }

  /** Every sequence of presses keeps the invariant. */
  lemma {:induction false} RunPreservesValid(g: GameState, acts: seq<Action>)
    requires Valid(g)
    requires AllLegal(acts)
    ensures Valid(Run(g, acts))
    decreases |acts|
  {
    if |acts| > 0 {
      StepPreservesValid(g, acts[0]);
      RunPreservesValid(Step(g, acts[0]), acts[1..]);
    }
  }

  /** The states some sequence of presses reaches from the start. */
  ghost predicate Reachable(g: GameState) {
    exists acts :: AllLegal(acts) && Run(Init(), acts) == g
  }

  /** Every reachable state keeps the invariant: resources are percentages,
      the day is one more than the disasters survived, at most 25 disasters
      are survived and no inventory count is negative. */
  lemma ReachableIsValid(g: GameState)
    requires Reachable(g)
    ensures Valid(g)
    ensures g.day == g.disastersSurvived + 1
    ensures 0 <= g.disastersSurvived <= TotalDisasters
    ensures forall k :: Floor <= StatOf(g, k) <= Ceiling
    ensures forall item :: Count(g.inventory, item) >= 0
  {
    var acts :| AllLegal(acts) && Run(Init(), acts) == g;
    RunPreservesValid(Init(), acts);
  }

  /** The current-disaster slot, when filled, holds one of the catalog
      entries. */
  predicate FromCatalog(g: GameState) {
    g.currentDisaster.Some? ==>
      exists i :: 0 <= i < CatalogSize && g.currentDisaster.value.info == Catalog()[i]
  }

  /** Every press keeps the slot a catalog entry: a strike puts the drawn
      entry there, and nothing else touches it. */
  lemma StepKeepsFromCatalog(g: GameState, a: Action)
    requires FromCatalog(g)
    requires Legal(a)
    ensures FromCatalog(Step(g, a))
  {
    match a
    case Advance(draw) =>
      if g.isAlive && g.disastersSurvived < g.totalDisasters {
        assert Step(g, a).currentDisaster.value.info == Catalog()[draw];
      }
    case Use(item) =>
  }

  /** Every sequence of presses keeps the slot a catalog entry. */
  lemma {:induction false} RunKeepsFromCatalog(g: GameState, acts: seq<Action>)
    requires FromCatalog(g)
    requires AllLegal(acts)
    ensures FromCatalog(Run(g, acts))
    decreases |acts|
  {
    if |acts| > 0 {
      StepKeepsFromCatalog(g, acts[0]);
      RunKeepsFromCatalog(Step(g, acts[0]), acts[1..]);
    }
  }

  /** In every reachable state the current disaster, once there is one, is
      an active copy of one of the eight catalog entries. */
  lemma ReachableHoldsCatalogEntry(g: GameState)
    requires Reachable(g)
    ensures g.currentDisaster.Some? ==> g.currentDisaster.value.active
    ensures g.currentDisaster.Some? ==>
              exists i :: 0 <= i < CatalogSize && g.currentDisaster.value.info == Catalog()[i]
  {
    var acts :| AllLegal(acts) && Run(Init(), acts) == g;
    RunPreservesValid(Init(), acts);
    RunKeepsFromCatalog(Init(), acts);
  }

  /** Once the crew is dead, no press moves the counters or the current
      disaster again; only item uses still change resources and inventory. */
  lemma {:induction false} DeadCrewFrozen(g: GameState, acts: seq<Action>)
    requires !g.isAlive
    requires AllLegal(acts)
    ensures !Run(g, acts).isAlive
    ensures Run(g, acts).day == g.day
    ensures Run(g, acts).disastersSurvived == g.disastersSurvived
    ensures Run(g, acts).currentDisaster == g.currentDisaster
    decreases |acts|
  {
    if |acts| > 0 {
      var a := acts[0];
      assert Legal(a);
      DeadCrewFrozen(Step(g, a), acts[1..]);
    }
  }

  /** Every press in the sequence draws Navigation Failure. */
  predicate AllNavigationFailures(acts: seq<Action>) {
    forall j :: 0 <= j < |acts| ==> acts[j] == Advance(NavigationFailure)
  }

  /** The deltas Navigation Failure stores for each resource. */
  lemma NavigationFailureDeltas()
    ensures var es := Catalog()[NavigationFailure].effects;
            && DeltaFor(es, Health) == 0 && DeltaFor(es, ShipCondition) == 0
            && DeltaFor(es, Sanity) == -25
            && DeltaFor(es, Food) == -20 && DeltaFor(es, Water) == -20
  {
    var es := Catalog()[NavigationFailure].effects;
    assert es == [Effect(Sanity, -25), Effect(Food, -20), Effect(Water, -20)];
  }

  /** Navigation Failure touches neither health nor the ship; it takes 25
      sanity, 20 food and 20 water. */
  lemma NavigationFailureSpares(g: GameState)
    requires Valid(g) && g.isAlive
    requires g.health == Ceiling && g.shipCondition == Ceiling
    requires g.disastersSurvived < g.totalDisasters
    ensures var r := Step(g, Advance(NavigationFailure));
            && Valid(r) && r.isAlive
            && r.health == Ceiling && r.shipCondition == Ceiling
            && r.sanity == Clamp(g.sanity - 25)
            && r.food == Clamp(g.food - 20) && r.water == Clamp(g.water - 20)
            && r.disastersSurvived == g.disastersSurvived + 1
  {
    var lost := Catalog()[NavigationFailure];
    NavigationFailureDeltas();
    StrikeEffects(g, lost);
    StrikePreservesValid(g, lost);
    var t := Strike(g, lost);
    assert StatOf(t.state, Health) == Ceiling && StatOf(t.state, ShipCondition) == Ceiling;
    assert StatOf(t.state, Sanity) == Clamp(g.sanity - 25);
    assert StatOf(t.state, Food) == Clamp(g.food - 20) && StatOf(t.state, Water) == Clamp(g.water - 20);
  }

  /** So a crew with both full that draws only Navigation Failure stays
      alive and full while the disaster count rises one per press, even as
      sanity, food and water drain to the floor: game over looks only at
      health and the ship. */
  lemma {:induction false} OnlyNavigationFailures(g: GameState, acts: seq<Action>)
    requires Valid(g) && g.isAlive
    requires g.health == Ceiling && g.shipCondition == Ceiling
    requires AllNavigationFailures(acts)
    requires g.disastersSurvived + |acts| <= g.totalDisasters
    ensures AllLegal(acts)
    ensures var r := Run(g, acts);
            && Valid(r) && r.isAlive
            && r.health == Ceiling && r.shipCondition == Ceiling
            && r.sanity == Clamp(g.sanity - 25 * |acts|)
            && r.food == Clamp(g.food - 20 * |acts|)
            && r.water == Clamp(g.water - 20 * |acts|)
            && r.disastersSurvived == g.disastersSurvived + |acts|
    decreases |acts|
  {
    assert AllLegal(acts) by {
      assert Legal(Advance(NavigationFailure));
    }
    assert StatOf(g, Sanity) <= Ceiling && StatOf(g, Food) <= Ceiling && StatOf(g, Water) <= Ceiling;
    assert StatOf(g, Sanity) >= Floor && StatOf(g, Food) >= Floor && StatOf(g, Water) >= Floor;
    if |acts| > 0 {
      assert acts[0] == Advance(NavigationFailure);
      NavigationFailureSpares(g);
      var next := Step(g, acts[0]);
      var n := |acts| - 1;
      OnlyNavigationFailures(next, acts[1..]);
      ClampLossesCompose(g.sanity, 25, 25 * n);
      ClampLossesCompose(g.food, 20, 20 * n);
      ClampLossesCompose(g.water, 20, 20 * n);
    }
  }

  /** Five Navigation Failures from the start empty sanity, food and water,
      and the crew is still alive. */
  lemma DrainedButAlive(acts: seq<Action>)
    requires AllNavigationFailures(acts) && |acts| == 5
    ensures AllLegal(acts)
    ensures var r := Run(Init(), acts);
            && r.isAlive && r.sanity == Floor && r.food == Floor && r.water == Floor
  {
    var g := Init();
    assert g.health == StatOf(g, Health) == Ceiling;
    assert g.shipCondition == StatOf(g, ShipCondition) == Ceiling;
    assert g.sanity == StatOf(g, Sanity) && g.food == StatOf(g, Food) && g.water == StatOf(g, Water);
    OnlyNavigationFailures(g, acts);
  }

  /** A living crew that has survived every disaster, with health and ship
      full, gets the victory banner with a score of at least 200. */
  lemma VictoryWhenFull(g: GameState, draw: int)
    requires 0 <= draw < CatalogSize
    requires StatsInRange(g) && g.isAlive && g.disastersSurvived >= g.totalDisasters
    requires g.health == Ceiling && g.shipCondition == Ceiling
    ensures TriggerNextDisaster(g, draw).outcome.Victory?
    ensures TriggerNextDisaster(g, draw).outcome.score >= 2 * Ceiling
  {
  }

  /** Victory is reachable: after 25 Navigation Failures from the start the
      crew is alive on day 26, and the next press shows the victory banner
      with a score of at least 200. */
  lemma VictoryReachable(acts: seq<Action>, draw: int)
    requires AllNavigationFailures(acts) && |acts| == TotalDisasters
    requires 0 <= draw < CatalogSize
    ensures AllLegal(acts)
    ensures Run(Init(), acts).isAlive && Run(Init(), acts).day == TotalDisasters + 1
    ensures TriggerNextDisaster(Run(Init(), acts), draw).outcome.Victory?
    ensures TriggerNextDisaster(Run(Init(), acts), draw).outcome.score >= 2 * Ceiling
  {
    var g := Init();
    assert g.health == StatOf(g, Health) == Ceiling;
    assert g.shipCondition == StatOf(g, ShipCondition) == Ceiling;
    OnlyNavigationFailures(g, acts);
    VictoryWhenFull(Run(g, acts), draw);
  }
}
