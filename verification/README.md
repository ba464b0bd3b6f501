# Cargo-ship survival game: a Dafny model of its state machine

The game (`cargo-survival/game.js`, class `SurvivalGame`) keeps one flat
state record: a day counter, a count of disasters survived out of a fixed 25,
five percentage resources (health, sanity, food, water, ship condition), four
consumable counts (medical kits, repair kits, emergency rations, fresh water),
an alive flag and an optional current disaster. Three operations change it:

- `applyEffects` adds signed deltas to the named resources and clamps each
  result to [0, 100];
- `useItem` takes one item if any is left and applies that item's fixed
  restorative effect;
- `triggerNextDisaster` does nothing for a dead crew, shows the victory banner
  once every disaster is survived, and otherwise applies one disaster drawn
  from a static catalog of eight, advances both counters and runs the
  game-over check.

The model is functional: an immutable `GameState` datatype, the catalog as a
constant sequence, pure step functions, and lemmas that the invariants hold
along every sequence of button presses from the initial state.

Modules, one per part of the program:

- `Wrappers` (`wrappers.dfy`): `Option`, for the current-disaster slot.
- `Resources` (`resources.dfy`): the resource names, the clamped-add rule, and
  effect mappings as ordered lists of (resource, delta) entries.
- `Disasters` (`disasters.dfy`): the catalog.
- `State` (`state.dfy`): the state record, inventory, `Init()` and the
  invariant `Valid`.
- `Engine` (`engine.dfy`): `ApplyEffects`, `CheckGameOver`, `Strike`,
  `TriggerNextDisaster`, `UseItem`, the item buttons (`PressUse`), the
  button-disabled projection and the victory score.
- `Play` (`play.dfy`): button-press sequences (`Run`), invariants across them,
  and a run that reaches victory.
- `Scenarios` (`scenarios.dfy`): worked examples as lemmas.

Modelling choices:

- An effect mapping is a JavaScript object walked with `Object.keys`. It is
  modelled as the list of its entries in key order, and `ApplyEffects` folds
  over that list. Object keys are distinct, so the pointwise law (each named
  resource becomes `Clamp(old + delta)`) is proved for lists without repeated
  resources.
- The random draw `Math.floor(Math.random() * 8)` is the parameter `draw`,
  with `0 <= draw < 8` (`Disasters.CatalogSize`).
- `TriggerNextDisaster` returns the new state together with what the press
  shows: nothing, the victory banner with its score, the disaster survived,
  or defeat.
- Restart reloads the page. In the model that is `Init()`.
- Each category has exactly one catalog entry. So the message title and
  body (`name`, `description`) are member functions of `Disaster`, looked up
  by category, not stored fields.

Behaviour modelled as the code has it, where a reader might expect
otherwise:

- `useItem` does not check the alive flag. A dead crew can still use items.
  Health rises but the crew stays dead (`Scenarios.ItemAfterGameOver`).
- `currentDisaster.active` is set when a disaster strikes and is never
  cleared. The invariant records this: once a disaster has struck, the slot
  always holds an active disaster whose timer equals its duration.
- The victory guard is `disastersSurvived >= totalDisasters`, not `==`.
  Victory is shown on the press after the 25th disaster, on day 26. Defeat on
  the 25th disaster wins over victory (`Scenarios.DefeatOnTheLastDisaster`).
- Game over looks only at health and ship condition. Sanity, food and water
  can reach 0 without ending the game (`Play.OnlyNavigationFailures`,
  `Play.DrainedButAlive`).

## Model

| member | source | states |
|---|---|---|
| Resources.Clamp | cargo-survival/game.js:173 | the result always lies in [0,100]; a value already in range is kept; anything below 0 becomes 0 and anything above 100 becomes 100 |
| Disasters.Catalog | cargo-survival/game.js:68-135 | eight disasters, each naming at least one resource, no resource twice, every delta negative, a positive duration, and the same type and visual tag |
| Disasters.CatalogCategoriesDistinct | cargo-survival/game.js:68-135 | no two catalog entries share a category |
| State.Init | cargo-survival/game.js:5-22 | the starting state satisfies the game invariant: alive on day 1, no disaster yet, every resource at 100 |
| Engine.ApplyEffects | cargo-survival/game.js:171-175 | only resources change (counters, inventory, alive flag and current disaster stay); resources the mapping does not name keep their value; named ones land in [0,100] |
| Engine.ApplyEffectsPointwise | cargo-survival/game.js:171-175 | with one entry per resource, each named resource ends at clamp(old + delta) and each unnamed one is unchanged, whatever the key order |
| Engine.ApplyEffectsExact | cargo-survival/game.js:171-175 | from a state whose resources are percentages, every resource ends at clamp(old + its delta), with delta 0 for unnamed ones |
| Engine.ApplyEffectsMonotone | cargo-survival/game.js:171-175 | an all-negative mapping never raises a resource and an all-positive one never lowers one |
| Engine.CheckGameOver | cargo-survival/game.js:257-262 | afterwards the crew is alive iff it was alive and health and ship condition are both positive; nothing else changes |
| Engine.VictoryScore | cargo-survival/game.js:280 | health + sanity + ship lies in [0,300] when the resources are percentages, and reaches 300 only with all three at 100 |
| Engine.Strike | cargo-survival/game.js:153-168 | the drawn disaster becomes the active current disaster with its duration as timer; day and survived count each rise by exactly 1; inventory and total are kept; unnamed resources are kept and named ones land in [0,100]; the crew is alive afterwards iff it was alive and health and ship are positive; the outcome is defeat exactly when the crew died |
| Engine.StrikeEffects | cargo-survival/game.js:154-158 | a well-formed disaster (as every catalog entry is) sets each resource to clamp(old + its delta) and never raises any resource |
| Engine.StrikePreservesValid | cargo-survival/game.js:145-169 | a well-formed disaster striking a valid state short of victory keeps the game invariant |
| Engine.TriggerNextDisaster | cargo-survival/game.js:145-169 | a dead crew gets no change and no message; a crew with every disaster survived gets the victory banner with its score and no change; otherwise the drawn catalog disaster strikes |
| Engine.NextDisaster | cargo-survival/game.js:145-169 | a press never revives the crew and never moves the day backwards |
| Engine.NextDisasterNoOpIff | cargo-survival/game.js:146-151 | a press leaves the state unchanged iff the crew is dead or all disasters are already survived |
| Engine.NextDisasterPreservesValid | cargo-survival/game.js:145-169 | every press of the disaster button keeps the game invariant |
| Engine.ItemEffects | cargo-survival/game.js:139-142 | each item button's mapping names exactly one resource with a positive delta |
| Engine.UseItem | cargo-survival/game.js:177-184 | with a count of 0 or less the state is unchanged; otherwise that count drops by exactly 1, the other three counts, both counters, the current disaster and the alive flag are kept whatever the alive flag is, unnamed resources are kept and named ones land in [0,100] |
| Engine.PressUse | cargo-survival/game.js:139-142 | a press of an item button never changes the alive flag and never makes a count negative |
| Engine.PressUseEffects | cargo-survival/game.js:139-142 | a use that happens sets each resource to clamp(old + the item's delta), so no resource goes down |
| Engine.PressUsePreservesValid | cargo-survival/game.js:177-184 | every press of an item button keeps the game invariant, alive or dead |
| Engine.ButtonDisabled | cargo-survival/game.js:237-240 | the button is disabled when its count is 0, and a press of a disabled button changes nothing |
| Engine.PressUseNoOpIff | cargo-survival/game.js:237-240 | with non-negative counts, a press changes nothing iff the button is disabled, that is iff the count is 0 |
| Play.Step | cargo-survival/game.js:137-143 | one press never revives the crew and never raises an inventory count |
| Play.Run | cargo-survival/game.js:137-143 | along any sequence of presses the crew never comes back to life, the day never goes backwards, the total stays fixed and no inventory count grows |
| Play.StepPreservesValid | cargo-survival/game.js:137-143 | each of the five buttons keeps the game invariant |
| Play.RunPreservesValid | cargo-survival/game.js:137-184 | every sequence of presses from a valid state ends in a valid state |
| Play.ReachableIsValid | cargo-survival/game.js:5-22 | every state reachable from the start has resources in [0,100], day == disastersSurvived + 1, 0 <= disastersSurvived <= 25 and no negative count |
| Play.StepKeepsFromCatalog | cargo-survival/game.js:153-155 | after any press the current disaster, if there is one, is one of the eight catalog entries |
| Play.RunKeepsFromCatalog | cargo-survival/game.js:137-155 | every sequence of presses keeps the current disaster one of the catalog entries |
| Play.ReachableHoldsCatalogEntry | cargo-survival/game.js:153-155 | in every state reachable from the start, the current disaster, once set, is an active copy of one of the eight catalog entries |
| Play.DeadCrewFrozen | cargo-survival/game.js:146 | after game over no sequence of presses revives the crew or moves the day, the survived count or the current disaster |
| Play.NavigationFailureDeltas | cargo-survival/game.js:127-132 | Navigation Failure takes 25 sanity, 20 food and 20 water and leaves health and the ship alone |
| Play.NavigationFailureSpares | cargo-survival/game.js:127-132 | Navigation Failure touches neither health nor the ship: a full, living crew stays full and alive, loses 25 sanity, 20 food and 20 water (clamped at 0), and the survived count rises by one |
| Play.OnlyNavigationFailures | cargo-survival/game.js:127-132 | a full-health crew drawing only Navigation Failure n times stays valid, alive and full while sanity, food and water fall to clamp(old - 25n), clamp(old - 20n) and clamp(old - 20n) and the survived count rises by n |
| Play.DrainedButAlive | cargo-survival/game.js:257-262 | five Navigation Failures from the start leave sanity, food and water at 0 and the crew alive |
| Play.VictoryWhenFull | cargo-survival/game.js:148-150 | a living crew past its last disaster with full health and ship gets the victory banner on any draw, with a score of at least 200 |
| Play.VictoryReachable | cargo-survival/game.js:148-150 | any 25 Navigation Failures from the start leave the crew alive on day 26, and the next press shows the victory banner with a score of at least 200 |
| Scenarios.EngineFireFromStart | cargo-survival/game.js:79-84 | Engine Fire from the starting values gives health 80, ship 75, sanity 85, food and water 100, day 2, one disaster survived, the crew alive, the message "Engine Fire" and an active current disaster |
| Scenarios.DefeatOnTheLastDisaster | cargo-survival/game.js:164-168 | a living crew at health 10 and ship 50 meeting the Mega Storm as its 25th disaster ends at health 0 and ship 30, dead, with defeat reported rather than victory |
| Scenarios.MedicalKitTwice | cargo-survival/game.js:177-180 | one medical kit pressed twice raises health by 30 once; the second press changes nothing and leaves the button disabled |
| Scenarios.ItemAfterGameOver | cargo-survival/game.js:177-184 | a dead crew at health 0 can still use a medical kit: health becomes 30, one kit is used and the crew stays dead |
| Scenarios.ClampExtremes | cargo-survival/game.js:173 | a delta of -999 on health 10 gives 0, +999 on water 90 gives 100, and sanity is untouched |

## Left out

- Canvas drawing (`createShipImage`, `gameLoop` and the storm, fire, pirate
  and toxic effects): pure rendering driven by `Math.random`, `Date.now` and
  floating-point alpha and widths.
- Message panels (`showDisasterMessage`, `showMessage`, `showGameOver`,
  `showVictory`) and their `setTimeout` auto-hide: DOM output and timers. The
  model keeps only what a press reports (`Engine.Outcome`) and the victory
  score.
- `updateUI` and `updateBar`: DOM text and colour writes. Only "button
  disabled iff count is 0" is kept, as `Engine.ButtonDisabled`. The bar
  colour has no branch back to normal once a value climbs above 50; this is
  styling only and is not modelled.
- The random draw: it is the caller-supplied index `draw`.
- `location.reload()`: host behaviour; restart is `State.Init()`.
- Event-listener wiring, except the item-to-effect table it encodes
  (`Engine.ItemEffects`) and the five buttons (`Play.Action`).
- JavaScript numbers are doubles. All values the game computes are small
  integers, so they are modelled as unbounded `int`.
- The disaster `timer` is copied from `duration` and never counted down by
  the game. The model stores it and does nothing more with it.
