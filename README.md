# Action-substitution core of XIVComboPlugin, in Dafny

The plugin swaps the action a player presses for another one when a rule
("combo") says so. Each rule belongs to a job, may be limited to some trigger
actions, can be switched off by the user, and runs a decision over the game
state inside a failure boundary. Two helper algorithms are shared by the
rules: a cooldown tie-break over several candidate actions and a combo-chain
inference over a list of (level, action) steps.

This project models that core:

- `GameState` (`game_state.dfy`): the game state as one explicit `Snapshot`
  value (local player's job, cooldown data per action, effects on the player,
  the Astrologian's drawn card, the enabled presets) instead of the plugin's
  service lookups; the unsigned integer widths as newtypes.
- `CustomCombo` (`custom_combo.dfy`): job-to-class normalisation, the
  enablement threshold, a rule as a `Combo` record whose decision returns an
  `Outcome` (`Returned(id)` or `Threw`, so an exception can be represented),
  the guard-and-invoke wrapper `TryInvoke` (a method, with the function
  `Substitution` as its specification), the cooldown tie-break
  (`Compare`, `Aggregate`, `PickByCooldown`) and the chain inference
  (`SimpleChainCombo`, a loop proved against `ChainStep`).
- `AST` (`ast.dfy`): the Astrologian constants and its four rules, with what
  each does once wrapped by the guard.
- `Dispatcher` (`dispatcher.dfy`): a harness. The plugin's registration loop
  over all rules is not in CustomCombo.cs or Combos/AST.cs and is not
  modelled. Here it is written as a first-match fold over `Substitution`, to
  prove first-match-wins and fault containment.

Where the state comes from:

- Cooldown data comes from the snapshot's map. An action without an entry is
  taken as ready with 0 time left.
- `comboTime` and the cooldown's remaining time are `real`. The source only
  compares them (`> 0`, `<`, `== 0`).
- A LINQ `Aggregate` over an empty list, and `sequence[0]` on an empty
  chain, both throw in the source. Here `PickByCooldown` and `ChainStep`
  return `Threw` in those cases.

## Model

| member | source | states |
|---|---|---|
| `GameState.GetCooldown` | CustomCombo.cs:140 | the cooldown of an action is the snapshot's entry; an action without one is ready |
| `GameState.SelfHasEffect` | CustomCombo.cs:166 | the player has an effect exactly when the snapshot lists it on the player |
| `CustomCombo.ClassId` | CustomCombo.cs:27-32 | the class never exceeds the job; a job is its own class exactly when it is not an advanced job; otherwise the job is one of the class's advanced jobs |
| `CustomCombo.ClassIdGroupsJobs` | CustomCombo.cs:27-32 | ClassId(j) == c exactly when j is one of c's advanced jobs (19..25 under 1..7, 27 and 28 under 26, 30 under 29) or j == c and j is not advanced |
| `CustomCombo.ClassIdIdempotent` | CustomCombo.cs:27-32 | normalising a class again changes nothing |
| `CustomCombo.IsEnabled` | CustomCombo.cs:126-134 | presets below 100 are always enabled whatever the configuration says; every other preset is enabled exactly when the configuration enables it |
| `CustomCombo.IsEnabledMonotone` | CustomCombo.cs:126-134 | enabling more presets never disables one |
| `CustomCombo.Eligible` | CustomCombo.cs:43-46 | a rule passes the guard exactly when there is a local player, the rule's job or its class is the player's job, its trigger list is empty or holds the action, and its preset is enabled |
| `CustomCombo.Substitution` | CustomCombo.cs:40-66 | a substitution is made only by an eligible rule whose decision returned it, and is never 0 nor the attempted action; every such returned value is a substitution |
| `CustomCombo.TryInvoke` | CustomCombo.cs:40-66 | no substitution and out-value 0 when there is no player, neither job nor class matches, a non-empty trigger list lacks the action, the preset is disabled, or the decision throws; otherwise it substitutes exactly when the decision returns r with r != 0 and r != action, and the out-value is r |
| `CustomCombo.UnchangedIsNoSubstitution` | CustomCombo.cs:52-55 | a decision that returns the attempted action makes no substitution |
| `CustomCombo.FaultIsNoSubstitution` | CustomCombo.cs:62-65 | a decision that throws makes no substitution |
| `CustomCombo.Select` | CustomCombo.cs:72 | each candidate carries its own action and that action's cooldown from the snapshot |
| `CustomCombo.Compare` | CustomCombo.cs:74-93 | the choice is one of the two; a ready action beats one on cooldown; of two ready ones the first is kept exactly when it is the original; of two on cooldown the one with strictly less time left wins and ties go to the second |
| `CustomCombo.Aggregate` | CustomCombo.cs:95-98 | the left fold of Compare yields the seed or one of the candidates |
| `CustomCombo.PickByCooldown` | CustomCombo.cs:70-101 | throws exactly on an empty list; otherwise returns one of the listed actions, and the only one of a one-element list |
| `CustomCombo.AggregateConsistent` | CustomCombo.cs:95-98 | the fold's result carries the snapshot's cooldown for its action |
| `CustomCombo.AggregateReady` | CustomCombo.cs:74-98 | once a ready candidate has been seen, the fold's result is ready |
| `CustomCombo.AggregateShortest` | CustomCombo.cs:74-98 | with every candidate on cooldown, the result has no more time left than any of them, and it is the last of those with the least time: either the seed with every candidate strictly longer, or a candidate with every later one strictly longer |
| `CustomCombo.AggregateKeepsReady` | CustomCombo.cs:74-98 | a ready seed survives candidates that are all on cooldown |
| `CustomCombo.AggregateLastReady` | CustomCombo.cs:74-98 | when no ready candidate (nor a ready seed) is the original, the last ready candidate is the result |
| `CustomCombo.AggregateKeepsOriginal` | CustomCombo.cs:74-98 | a ready original action, once in the running, is the result |
| `CustomCombo.AggregateLastWhenAllReady` | CustomCombo.cs:74-98 | with every candidate ready and none the original, the last candidate is the result |
| `CustomCombo.PickByCooldownPrefersReady` | CustomCombo.cs:70-101 | if any listed action is ready, the pick is ready |
| `CustomCombo.PickByCooldownShortest` | CustomCombo.cs:70-101 | if every listed action is on cooldown, the pick has the least time left, and it is the last listed action with that time: every action after it has strictly more time left |
| `CustomCombo.PickByCooldownLastReady` | CustomCombo.cs:70-101 | when the original is not a ready listed action, the pick is the last ready listed action |
| `CustomCombo.PickByCooldownKeepsReadyOriginal` | CustomCombo.cs:70-101 | a listed original action that is ready is always the pick |
| `CustomCombo.PickByCooldownLastWhenAllReady` | CustomCombo.cs:70-101 | all ready and the original not listed: the last listed action is the pick |
| `CustomCombo.LatestStep` | CustomCombo.cs:106-111 | finds the largest i >= 1 below the bound whose level gate is met and whose predecessor is the last action; none when no such i exists |
| `CustomCombo.ChainStep` | CustomCombo.cs:103-116 | throws exactly on an empty chain; with time <= 0 returns the first step; with time > 0 returns the step at the largest advancing index; with no advancing index returns the first step; the result is always an id of the chain |
| `CustomCombo.SimpleChainCombo` | CustomCombo.cs:103-116 | the backward scan with early return computes ChainStep |
| `CustomCombo.ChainStepExamples` | CustomCombo.cs:103-116 | chain [(1,X),(2,Y),(18,Z)]: level 30 after Y with time 2 gives Z; time 0 gives X; level 10 after Y gives X |
| `AST.SwiftcastRaiser` | Combos/AST.cs:42-47 | returns the action or Swiftcast, and changes it exactly for Ascend with Swiftcast's remaining time 0 and no Lost Chainspell on the player |
| `AST.CardsOnDraw` | Combos/AST.cs:53-61 | returns the action or Draw, and changes it exactly for Play with no card drawn |
| `AST.SleeveDrawRule` | Combos/AST.cs:67-75 | returns the action or Sleeve Draw, and changes it exactly for Minor Arcana with no card drawn at level >= 70 |
| `AST.BeneficRule` | Combos/AST.cs:81-88 | returns the action or Benefic, and changes it exactly for Benefic II below level 26 |
| `AST.SwiftcastRaiserFeature` | Combos/AST.cs:39-48 | an Astrologian rule with no trigger list whose decision returns SwiftcastRaiser's answer and never throws |
| `AST.CardsOnDrawFeature` | Combos/AST.cs:50-62 | an Astrologian rule with no trigger list whose decision returns CardsOnDraw's answer and never throws |
| `AST.SleeveDrawFeature` | Combos/AST.cs:64-76 | an Astrologian rule with no trigger list whose decision returns SleeveDrawRule's answer and never throws |
| `AST.BeneficFeature` | Combos/AST.cs:78-89 | an Astrologian rule with no trigger list whose decision returns BeneficRule's answer and never throws |
| `AST.AstGuard` | CustomCombo.cs:43-46 | the guard as it applies to an Astrologian rule: the player's job is 33 and the preset is enabled |
| `AST.AstEligible` | CustomCombo.cs:43-46 | an Astrologian rule passes the guard exactly when the player's job is 33 and its preset is enabled |
| `AST.SwiftcastRaiserSubstitution` | Combos/AST.cs:42-47 | through the guard: Swiftcast replaces Ascend exactly when the guard passes, Swiftcast has no time left and Lost Chainspell is absent; otherwise no substitution |
| `AST.CardsOnDrawSubstitution` | Combos/AST.cs:53-61 | through the guard: Draw replaces Play exactly when the guard passes and no card is drawn; otherwise no substitution |
| `AST.SleeveDrawSubstitution` | Combos/AST.cs:67-75 | through the guard: Sleeve Draw replaces Minor Arcana exactly when the guard passes, no card is drawn and level >= 70; otherwise no substitution |
| `AST.BeneficSubstitution` | Combos/AST.cs:81-88 | through the guard: Benefic replaces Benefic II exactly when the guard passes and level < 26; otherwise no substitution |
| `AST.BeneficDowngradeExamples` | Combos/AST.cs:81-88 | Benefic II at level 20 becomes Benefic; at level 26 there is no substitution |
| `AST.IgnoreComboHistory` | Combos/AST.cs:42-88 | no Astrologian decision depends on the last combo move or the combo timer |
| `AST.OtherActionsPassThrough` | Combos/AST.cs:42-88 | through the guard, each Astrologian rule substitutes nothing for any action other than its own trigger |
| `Dispatcher.Dispatch` | CustomCombo.cs:40-66 | harness, not in the source: a result is the substitution of some rule with no earlier rule substituting; no result means no rule substitutes |
| `Dispatcher.FirstMatchWins` | CustomCombo.cs:40-66 | harness: the earliest substituting rule decides the result |
| `Dispatcher.FaultContained` | CustomCombo.cs:62-65 | harness: a rule whose decision throws changes nothing, as if it were not registered |
| `Dispatcher.NoPlayerNoSubstitution` | CustomCombo.cs:43 | harness: with no local player no rule substitutes |

## Left out

- Logging through the plugin's logger: diagnostics only, with no effect on any result.
- The implementations of the host queries (cooldown cache, status lookup, job gauge, configuration, targets, conditions, buddy list, `OriginalHook`). Each is replaced by a field of `Snapshot`.
- The effect helpers other than `SelfHasEffect`: thin wrappers over `FindEffect`, which is a host query. `SelfHasEffect` is set membership in the snapshot.
- `ShouldSwiftcast`, `IsFastcasting` and `CanInterrupt`: no modelled rule uses them. Their effect ids come from `Common` and `RDM`, which are not part of this model.
- The constructor's reflection over the preset's attribute and the type name. A `Combo` takes its job id and preset as fields instead.
- The numeric values of the Astrologian presets: the preset enum is not part of this model. Each Astrologian combo takes its preset as a parameter.
- The Swiftcast action id: `CommonSkills` is not part of this model. `AST.Swiftcast` uses the game's id 7561.
- The gauge's card enum: only the comparison with "no card" is used. `CardType` lists the six cards by name.
- `GameState.GetCooldown`: an action absent from the snapshot is taken as ready with 0 time left. The real cache's answer for unknown actions is not part of this model.
- Floating-point `comboTime` and remaining cooldown: modelled as `real`. Only comparisons are made, never arithmetic.
- The plugin's registration loop over all rules is not modelled. `Dispatcher` is a harness written to the first-match order the loop is described to use.
- Combos/AST.cs and CustomCombo.cs come from different revisions of the plugin (the namespaces differ, and the Swiftcast constant is `CommonSkills.Swiftcast` in one and `Common.Swiftcast` in the other). The `AST.*Substitution` lemmas assume the Astrologian rules run under the guard of CustomCombo.cs as shown.
- The Astrologian rules' job id 33 is taken from `AST.JobID`. The preset attribute that supplies a rule's job in the plugin is not part of this model.
