# Scrim ruleset manager, modelled in Dafny

This project models the core of the scrim ruleset manager of *squittal.ScrimPlanetmans*, a
PlanetSide 2 scrim-match tracker. The manager owns two things:

- **Seeding the default ruleset** (`SeedDefaultRuleset`). The stored rules of ruleset 1 are reconciled
  against the baseline tables in the code and against the live catalogs (the declared action types,
  item categories and weapon items). There are four categories of rules: action rules, item-category
  rules, item rules and facility rules. Each category decides, key by key, whether a rule is inserted,
  overwritten, kept as stored, removed, or not written at all. The result is the ruleset's replacement
  collections plus the rows handed to the store.
- **The active-ruleset controller.** It holds the slot with the ruleset a match is scored by. Through
  it a ruleset is activated by id, with a change message broadcast; the default ruleset is activated;
  the slot is refreshed from the store; and an edit of the active ruleset is reacted to.

**Seeding the scrim action store** (`SeedScrimActionModels`, with `ConvertToDbModel`) is modelled too:
one row per value of the scrim action enum.

## Layout

- `wrappers.dfy`: `Option` (`Null | Some`) and `Result`.
- `rules.dfy`: the entities (rules, rulesets, the catalog) and the sequence queries the merges use:
  `Find` for `FirstOrDefault`, `KeysOf`, and `AppendNew` for "append what is not yet contained".
- `reconciliation.dfy`: the common shape of the four merges. `Reconcile` folds one `Decision` per
  candidate key into a `Merge` (replacement rows plus created, updated and deleted rows). It comes
  with generic lemmas about that fold.
- `defaults.dfy`: the baseline tables and the row builder.
- `action_rules.dfy`, `category_rules.dfy`, `item_rules.dfy`, `facility_rules.dfy`: each category's
  merge. Each has:
  - a specification function `Merge…Rules`;
  - the loop method `Reconcile…Rules`, proved equal to that function;
  - lemmas stating what the merge guarantees.
- `seed.dfy`: the whole seeding pass (`SeedDefaultRuleset`) and its properties.
- `scrim_actions.dfy`: seeding the scrim action store and building its descriptions.
- `controller.dfy`: each controller operation as a function on a `Snapshot` of the controller's
  state. The `ScrimRulesetManager` class performs the same steps on its fields, and each of its methods
  is proved to end in the snapshot the function gives. The `gateOpen` field stands for the auto-reset
  event: every method requires it open on entry and is proved to release it on every way out.

Inputs the code reads from services are parameters:

- the enum's declared values, names and domains;
- the item-category and weapon-item catalogs;
- the store's rows;
- where a call throws (`Fault`).

## Model

| member | source | states |
|---|---|---|
| Rules.Find | squittal.ScrimPlanetmans.App/ScrimMatch/Ruleset/ScrimRulesetManager.cs:282-283 | `FirstOrDefault` by key: null exactly when no element has the key; otherwise the first element with it |
| Rules.AppendNew | squittal.ScrimPlanetmans.App/ScrimMatch/Ruleset/ScrimRulesetManager.cs:396-404 | appending the not-yet-contained values with a lazily evaluated filter: the result keeps the list as a prefix, holds exactly the values of both lists, and has no duplicate when the list had none |
| Rules.AppendNewConcat | squittal.ScrimPlanetmans.App/ScrimMatch/Ruleset/ScrimRulesetManager.cs:712-718 | deduplicating a concatenation is deduplicating the first part and then appending what is new in the second |
| Defaults.DefaultActionTypesDistinct | squittal.ScrimPlanetmans.App/ScrimMatch/Ruleset/ScrimRulesetManager.cs:561-579 | the baseline action table holds twelve rules, one for each of twelve distinct action types |
| Defaults.DefaultActionRulesBuilt | squittal.ScrimPlanetmans.App/ScrimMatch/Ruleset/ScrimRulesetManager.cs:561-635 | every baseline action rule is built without a ruleset id and with its domain classified from its type; only the infantry-on-infantry rule defers to the item-category rules |
| Defaults.DefaultItemIdsDistinct | squittal.ScrimPlanetmans.App/ScrimMatch/Ruleset/ScrimRulesetManager.cs:551-559 | the baseline item table names each item once (271, 285, 286) |
| Defaults.DefaultInfantryKillInfantry | squittal.ScrimPlanetmans.App/ScrimMatch/Ruleset/ScrimRulesetManager.cs:561-579 | the baseline rule for infantry-on-infantry kills is worth 0 points and defers to the item-category rules |
| ActionRules.CoveredTypes | squittal.ScrimPlanetmans.App/ScrimMatch/Ruleset/ScrimRulesetManager.cs:274 | the covered types are exactly the declared types other than None, Login and Logout, without duplicates when the enum has none |
| ActionRules.StaleTypes | squittal.ScrimPlanetmans.App/ScrimMatch/Ruleset/ScrimRulesetManager.cs:278 | the appended types are exactly the stored types that are not covered |
| ActionRules.ReconcileActionRules | squittal.ScrimPlanetmans.App/ScrimMatch/Ruleset/ScrimRulesetManager.cs:269-330 | the action-rule loop computes exactly the action merge |
| ActionRules.VisitActionTypes | squittal.ScrimPlanetmans.App/ScrimMatch/Ruleset/ScrimRulesetManager.cs:280-323 | the loop over the candidate types records every type's decision in order |
| ActionRules.DecisionsSplit | squittal.ScrimPlanetmans.App/ScrimMatch/Ruleset/ScrimRulesetManager.cs:282-322 | every covered type keeps a rule; every stale type's stored rule is removed |
| ActionRules.ActionCoverage | squittal.ScrimPlanetmans.App/ScrimMatch/Ruleset/ScrimRulesetManager.cs:274-323 | the merged rules are one rule per covered type, in declaration order; no type has two rules when the enum declares each type once |
| ActionRules.ActionDeletion | squittal.ScrimPlanetmans.App/ScrimMatch/Ruleset/ScrimRulesetManager.cs:278-322 | a rule is removed exactly when it is the first stored rule of a type that is not covered; with one stored rule per type, every such rule is removed and its type has no rule |
| ActionRules.ActionRuleValues | squittal.ScrimPlanetmans.App/ScrimMatch/Ruleset/ScrimRulesetManager.cs:287-318 | the merged rule of a covered type: inserted from the baseline (stamped with id 1) or as a 0-point rule; a stored rule takes points, defer flag and domain from the baseline, or gets 0 points and a freshly classified domain |
| ActionRules.ActionRowsByCovered | squittal.ScrimPlanetmans.App/ScrimMatch/Ruleset/ScrimRulesetManager.cs:277-323 | the i-th merged rule is the decision for the i-th covered type |
| ActionRules.ActionDecisionStable | squittal.ScrimPlanetmans.App/ScrimMatch/Ruleset/ScrimRulesetManager.cs:287-318 | merging again turns a covered type's merged rule into an update to the same rule |
| ActionRules.ActionMergeIdempotent | squittal.ScrimPlanetmans.App/ScrimMatch/Ruleset/ScrimRulesetManager.cs:269-330 | running the action merge on its own result gives the same rules |
| CategoryRules.ReconcileCategoryRules | squittal.ScrimPlanetmans.App/ScrimMatch/Ruleset/ScrimRulesetManager.cs:332-387 | the item-category loop computes exactly the category merge |
| CategoryRules.CategoryCoverage | squittal.ScrimPlanetmans.App/ScrimMatch/Ruleset/ScrimRulesetManager.cs:340-380 | a listed category gets a rule exactly when it is a weapon category, or when it has a baseline rule and no stored rule; no duplicates when the catalog lists each category once |
| CategoryRules.CategoryRuleValues | squittal.ScrimPlanetmans.App/ScrimMatch/Ruleset/ScrimRulesetManager.cs:342-379 | the values of a listed category's rule in each case: baseline insert, 0-point weapon insert, stored weapon-category rule overwritten from the baseline (or 0 / false), or removal of a non-weapon stored rule |
| CategoryRules.CategoryUnlistedUntouched | squittal.ScrimPlanetmans.App/ScrimMatch/Ruleset/ScrimRulesetManager.cs:335-340 | a stored rule of a category the catalog does not list is neither written nor removed, and has no rule in the result |
| CategoryRules.CategoryMergeIdempotent | squittal.ScrimPlanetmans.App/ScrimMatch/Ruleset/ScrimRulesetManager.cs:340-380 | merging again gives the same rules, provided every listed baseline category is a weapon category |
| CategoryRules.CategoryMergeNotIdempotent | squittal.ScrimPlanetmans.App/ScrimMatch/Ruleset/ScrimRulesetManager.cs:344-377 | without that proviso a baseline category is inserted by one pass and removed by the next |
| ItemRules.CategoryPointsSpec | squittal.ScrimPlanetmans.App/ScrimMatch/Ruleset/ScrimRulesetManager.cs:430-447 | a category's points are those of its first reconciled category rule, or 0 without one |
| ItemRules.WeaponCategorySpec | squittal.ScrimPlanetmans.App/ScrimMatch/Ruleset/ScrimRulesetManager.cs:426-441 | an item's category is that of the first weapon item with its id, null without one |
| ItemRules.ReconcileItemRules | squittal.ScrimPlanetmans.App/ScrimMatch/Ruleset/ScrimRulesetManager.cs:389-466 | the item loop, over the candidates built from the baseline, stored and weapon ids, computes exactly the item merge |
| ItemRules.VisitItems | squittal.ScrimPlanetmans.App/ScrimMatch/Ruleset/ScrimRulesetManager.cs:408-459 | the loop over the candidate ids records every id's decision in order |
| ItemRules.ItemCandidatesSpec | squittal.ScrimPlanetmans.App/ScrimMatch/Ruleset/ScrimRulesetManager.cs:396-404 | the candidates are exactly the baseline, stored and weapon item ids, with no id twice when the baseline names each item once |
| ItemRules.ItemKeptIsCandidate | squittal.ScrimPlanetmans.App/ScrimMatch/Ruleset/ScrimRulesetManager.cs:396-425 | an item whose decision keeps a rule is among the candidates |
| ItemRules.ItemCoverage | squittal.ScrimPlanetmans.App/ScrimMatch/Ruleset/ScrimRulesetManager.cs:408-459 | an item has a rule exactly when it has a baseline rule and no stored rule, or is a weapon item with a known category; no item has two rules when the baseline names each item once |
| ItemRules.ItemRuleValues | squittal.ScrimPlanetmans.App/ScrimMatch/Ruleset/ScrimRulesetManager.cs:413-457 | the values of an item's rule in each case: baseline insert, insert at category points, stored weapon rule overwritten from the baseline (or category points and not banned), removal of any other stored rule |
| ItemRules.ItemMergeIdempotent | squittal.ScrimPlanetmans.App/ScrimMatch/Ruleset/ScrimRulesetManager.cs:389-466 | merging the items again gives the same rules, provided the baseline names each item once and every baseline item is a weapon item with a known category |
| ItemRules.ItemMergeNotIdempotent | squittal.ScrimPlanetmans.App/ScrimMatch/Ruleset/ScrimRulesetManager.cs:413-457 | without that proviso a baseline item that is not a weapon item is inserted by one pass and removed by the next |
| ItemRules.ItemMergeAsWrittenFails | squittal.ScrimPlanetmans.App/ScrimMatch/Ruleset/ScrimRulesetManager.cs:401-410 | with a null weapon list and a non-empty baseline, the item merge as written fails |
| FacilityRules.AddMissingSpec | squittal.ScrimPlanetmans.App/ScrimMatch/Ruleset/ScrimRulesetManager.cs:473-474 | the visited list is the stored rows followed by the first baseline row of every facility not stored, and covers exactly the stored and baseline facilities |
| FacilityRules.ReconcileFacilityRules | squittal.ScrimPlanetmans.App/ScrimMatch/Ruleset/ScrimRulesetManager.cs:468-511 | the facility loop, walking a snapshot of the visited list, computes exactly the corrected facility merge |
| FacilityRules.FacilityDecisionKeys | squittal.ScrimPlanetmans.App/ScrimMatch/Ruleset/ScrimRulesetManager.cs:478-503 | a visited row keeps a rule exactly when its facility has a baseline rule, and the kept rule is for that facility |
| FacilityRules.FacilityIdsMatchDefaults | squittal.ScrimPlanetmans.App/ScrimMatch/Ruleset/ScrimRulesetManager.cs:468-511 | after the merge, a facility has a rule exactly when the baseline has one |
| FacilityRules.StoredVisited | squittal.ScrimPlanetmans.App/ScrimMatch/Ruleset/ScrimRulesetManager.cs:473-479 | every stored row is visited; it is kept as stored when its facility has a baseline rule and removed otherwise |
| FacilityRules.VisitedRows | squittal.ScrimPlanetmans.App/ScrimMatch/Ruleset/ScrimRulesetManager.cs:473-474 | a visited row is stored, or its facility has no stored row |
| FacilityRules.FacilityStoredKept | squittal.ScrimPlanetmans.App/ScrimMatch/Ruleset/ScrimRulesetManager.cs:497-502 | a stored row whose facility has a baseline rule stays exactly as stored and is not removed |
| FacilityRules.FacilityStoredRemoved | squittal.ScrimPlanetmans.App/ScrimMatch/Ruleset/ScrimRulesetManager.cs:491-496 | a stored row whose facility has no baseline rule is removed and is not in the result |
| FacilityRules.FacilityRowsOrigin | squittal.ScrimPlanetmans.App/ScrimMatch/Ruleset/ScrimRulesetManager.cs:476-503 | no facility rule is updated, and every resulting rule is stored or inserted |
| FacilityRules.FacilityDefaultsInserted | squittal.ScrimPlanetmans.App/ScrimMatch/Ruleset/ScrimRulesetManager.cs:481-489 | the baseline row of a facility with no stored row is inserted, stamped with id 1, and is in the result |
| FacilityRules.FacilityMergeIdempotent | squittal.ScrimPlanetmans.App/ScrimMatch/Ruleset/ScrimRulesetManager.cs:468-511 | running the corrected facility merge on its own result gives the same rules |
| FacilityRules.FacilityAsWrittenFails | squittal.ScrimPlanetmans.App/ScrimMatch/Ruleset/ScrimRulesetManager.cs:476-496 | the facility merge as written fails exactly when a stored row's facility has no baseline rule; otherwise it removes nothing |
| FacilityRules.FacilityAsWrittenCounterexample | squittal.ScrimPlanetmans.App/ScrimMatch/Ruleset/ScrimRulesetManager.cs:491-496 | a stored rule for facility 999 makes the pass as written fail, while the corrected merge gives the baseline rule for facility 219 |
| Seed.StartingRuleset | squittal.ScrimPlanetmans.App/ScrimMatch/Ruleset/ScrimRulesetManager.cs:229-264 | the pass starts from the first stored ruleset with id 1 when there is one, or else from a new ruleset named "Default" with empty collections |
| Seed.SeedDefaultRuleset | squittal.ScrimPlanetmans.App/ScrimMatch/Ruleset/ScrimRulesetManager.cs:224-529 | the seeding pass runs the four merges in order, feeding the reconciled category rules to the item merge, and assembles the ruleset |
| Seed.SeedRulesetShape | squittal.ScrimPlanetmans.App/ScrimMatch/Ruleset/ScrimRulesetManager.cs:229-267 | the seeded ruleset is flagged as the default and titled "PS2 Scrims"; it is the stored ruleset 1 (updated) or a new "Default" ruleset (inserted), keeping name and custom-default flag |
| Seed.SeedIntoEmptyStoreInsertsOnly | squittal.ScrimPlanetmans.App/ScrimMatch/Ruleset/ScrimRulesetManager.cs:235-265 | seeding a new ruleset only inserts rules: nothing is updated or removed in any category |
| Seed.SeedIdempotent | squittal.ScrimPlanetmans.App/ScrimMatch/Ruleset/ScrimRulesetManager.cs:224-529 | seeding again, with the seeded ruleset stored as ruleset 1, gives back the same ruleset, provided every listed baseline category is a weapon category and every baseline item is a weapon item with a known category |
| Seed.SeedEmptyDefaultRuleset | squittal.ScrimPlanetmans.App/ScrimMatch/Ruleset/ScrimRulesetManager.cs:269-330 | seeding a stored ruleset 1 with no action rules gives one rule per covered type, and the infantry-kill rule from the baseline (0 points, deferring) |
| Seed.FreshActionRules | squittal.ScrimPlanetmans.App/ScrimMatch/Ruleset/ScrimRulesetManager.cs:285-298 | merging into no stored action rules covers the declared types and inserts each baseline rule, stamped with id 1 |
| Seed.SeedAsWrittenAgrees | squittal.ScrimPlanetmans.App/ScrimMatch/Ruleset/ScrimRulesetManager.cs:403-496 | the pass as written fails exactly when the weapon list is null or a stored facility rule has no baseline rule; otherwise it gives the corrected outcome |
| ScrimActions.Spaced | squittal.ScrimPlanetmans.App/ScrimMatch/Ruleset/ScrimRulesetManager.cs:766 | the description starts like the name, no lower-case letter in it is directly followed by an upper-case letter, and (for a name without spaces) every space sits between a lower-case letter and the upper-case letter after it |
| ScrimActions.SpacedRoundTrip | squittal.ScrimPlanetmans.App/ScrimMatch/Ruleset/ScrimRulesetManager.cs:766 | removing the spaces from a spaced name gives back the name |
| ScrimActions.ConvertToDbModel | squittal.ScrimPlanetmans.App/ScrimMatch/Ruleset/ScrimRulesetManager.cs:758-769 | the row of an enum value carries its name and domain, and a description that is the name with spaces inserted, each between a lower-case letter and the upper-case letter after it |
| ScrimActions.StoredExtras | squittal.ScrimPlanetmans.App/ScrimMatch/Ruleset/ScrimRulesetManager.cs:714-716 | the appended actions are exactly the stored actions the enum does not declare |
| ScrimActions.ScrimActionCandidates | squittal.ScrimPlanetmans.App/ScrimMatch/Ruleset/ScrimRulesetManager.cs:708-718 | the deduplicated candidates hold every declared and every stored action once |
| ScrimActions.SeedScrimActionModels | squittal.ScrimPlanetmans.App/ScrimMatch/Ruleset/ScrimRulesetManager.cs:701-756 | the scrim action loop computes exactly the scrim action plan |
| ScrimActions.VisitScrimActions | squittal.ScrimPlanetmans.App/ScrimMatch/Ruleset/ScrimRulesetManager.cs:720-746 | the loop over the candidates records every action's decision in order |
| ScrimActions.CandidatesSplit | squittal.ScrimPlanetmans.App/ScrimMatch/Ruleset/ScrimRulesetManager.cs:712-718 | the candidates are the declared values once each, followed only by stored actions the enum does not declare |
| ScrimActions.ScrimActionRows | squittal.ScrimPlanetmans.App/ScrimMatch/Ruleset/ScrimRulesetManager.cs:720-746 | after seeding, the store holds exactly one row per declared value, in order, each the converted row for its value |
| ScrimActions.ScrimActionOutcomes | squittal.ScrimPlanetmans.App/ScrimMatch/Ruleset/ScrimRulesetManager.cs:725-740 | a declared value without a row is inserted, one with a row is overwritten, and the row of an undeclared value is removed |
| ScrimActions.ScrimActionSeedIdempotent | squittal.ScrimPlanetmans.App/ScrimMatch/Ruleset/ScrimRulesetManager.cs:701-756 | seeding again from the rows of a seeding pass gives back the same rows |
| ScrimActions.ScrimActionAsWrittenDuplicates | squittal.ScrimPlanetmans.App/ScrimMatch/Ruleset/ScrimRulesetManager.cs:718 | as written, an aliased enum member without a stored row is inserted twice; deduplicated, once |
| Controller.Activate | squittal.ScrimPlanetmans.App/ScrimMatch/Ruleset/ScrimRulesetManager.cs:68-122 | activation keeps the stored active id in step with the slot, and sends nothing or exactly one message naming the new and the replaced ruleset |
| Controller.SetUp | squittal.ScrimPlanetmans.App/ScrimMatch/Ruleset/ScrimRulesetManager.cs:150-195 | a refresh keeps the stored active id in step with the slot and sends nothing |
| Controller.DefaultTarget | squittal.ScrimPlanetmans.App/ScrimMatch/Ruleset/ScrimRulesetManager.cs:129-135 | the default activation picks a stored ruleset flagged as the custom default, or one flagged as the default only when none is the custom default; null exactly when none is flagged |
| Controller.ActivateDefault | squittal.ScrimPlanetmans.App/ScrimMatch/Ruleset/ScrimRulesetManager.cs:124-148 | the default activation keeps the active id in step and returns the slot, or changes nothing when there is no default ruleset |
| Controller.GetActive | squittal.ScrimPlanetmans.App/ScrimMatch/Ruleset/ScrimRulesetManager.cs:50-65 | reading the active ruleset keeps the active id in step and returns the slot, or changes nothing when there is no default ruleset |
| Controller.HandleRuleChange | squittal.ScrimPlanetmans.App/ScrimMatch/Ruleset/ScrimRulesetManager.cs:197-205 | reacting to an edit keeps the active id in step and sends nothing |
| Controller.ActivateOutcome | squittal.ScrimPlanetmans.App/ScrimMatch/Ruleset/ScrimRulesetManager.cs:68-122 | asking for the active ruleset is a no-op; otherwise activation succeeds exactly when the ruleset exists and nothing throws; a success writes the id and sends one message naming the replaced ruleset; a failure sends nothing and changes nothing unless the broadcast threw |
| Controller.ActivateTwice | squittal.ScrimPlanetmans.App/ScrimMatch/Ruleset/ScrimRulesetManager.cs:79-87 | activating the same ruleset right after a successful activation changes nothing and returns the same ruleset, whatever would throw |
| Controller.SetUpOutcome | squittal.ScrimPlanetmans.App/ScrimMatch/Ruleset/ScrimRulesetManager.cs:158-182 | a refresh keeps a ruleset with the same id in the slot; when the ruleset is still stored and the fetch works, the slot holds the stored version and its id is written unless the write throws |
| Controller.DefaultActivation | squittal.ScrimPlanetmans.App/ScrimMatch/Ruleset/ScrimRulesetManager.cs:124-148 | with nothing throwing, the default activation yields the picked ruleset's id and leaves it in the slot |
| Controller.DefaultActivationAsWrittenAgrees | squittal.ScrimPlanetmans.App/ScrimMatch/Ruleset/ScrimRulesetManager.cs:143-145 | as written, the default activation ends in the corrected state and throws exactly when a default ruleset exists and its activation returned null |
| Controller.DefaultActivationCrash | squittal.ScrimPlanetmans.App/ScrimMatch/Ruleset/ScrimRulesetManager.cs:143-145 | a default activation whose fetch throws crashes as written, after emptying a slot that held another ruleset |
| Controller.GetActiveOutcome | squittal.ScrimPlanetmans.App/ScrimMatch/Ruleset/ScrimRulesetManager.cs:50-65 | a filled slot with action and category rules is returned as it is unless a refresh is forced; a filled slot keeps its id; an empty slot gets the default ruleset when nothing throws |
| Controller.RuleChangeOutcome | squittal.ScrimPlanetmans.App/ScrimMatch/Ruleset/ScrimRulesetManager.cs:197-205 | an edit of another ruleset changes nothing; an edit of the active ruleset refreshes the slot |
| Controller.RuleChangeAsWrittenAgrees | squittal.ScrimPlanetmans.App/ScrimMatch/Ruleset/ScrimRulesetManager.cs:199-201 | as written, the reaction throws exactly when the slot is empty, and otherwise agrees with the corrected reaction |
| Controller.ScrimRulesetManager.constructor | squittal.ScrimPlanetmans.App/ScrimMatch/Ruleset/ScrimRulesetManager.cs:27-43 | a new controller has an empty slot, no stored active id, no messages and an open gate |
| Controller.ScrimRulesetManager.ActivateRuleset | squittal.ScrimPlanetmans.App/ScrimMatch/Ruleset/ScrimRulesetManager.cs:68-122 | the method ends in the state `Activate` gives and releases the gate on every path |
| Controller.ScrimRulesetManager.ActivateDefaultRuleset | squittal.ScrimPlanetmans.App/ScrimMatch/Ruleset/ScrimRulesetManager.cs:124-148 | the method ends in the state `ActivateDefault` gives |
| Controller.ScrimRulesetManager.ActivateDefaultRulesetAsWritten | squittal.ScrimPlanetmans.App/ScrimMatch/Ruleset/ScrimRulesetManager.cs:124-148 | the method as written ends in the state, and with the exception, that `ActivateDefaultAsWritten` gives |
| Controller.ScrimRulesetManager.SetUpActiveRuleset | squittal.ScrimPlanetmans.App/ScrimMatch/Ruleset/ScrimRulesetManager.cs:150-195 | the method ends in the state `SetUp` gives and releases the gate on every path |
| Controller.ScrimRulesetManager.GetActiveRuleset | squittal.ScrimPlanetmans.App/ScrimMatch/Ruleset/ScrimRulesetManager.cs:50-65 | the method ends in the state `GetActive` gives |
| Controller.ScrimRulesetManager.HandleRulesetRuleChange | squittal.ScrimPlanetmans.App/ScrimMatch/Ruleset/ScrimRulesetManager.cs:197-205 | the method ends in the state `HandleRuleChange` gives |
| Controller.ScrimRulesetManager.HandleRulesetRuleChangeAsWritten | squittal.ScrimPlanetmans.App/ScrimMatch/Ruleset/ScrimRulesetManager.cs:197-205 | the method as written ends in the state, and with the exception, that `HandleRuleChangeAsWritten` gives |
| Controller.SwitchAndRevert | squittal.ScrimPlanetmans.App/ScrimMatch/Ruleset/ScrimRulesetManager.cs:76-117 | from a cold start, activating A, then B, then A, then A again broadcasts exactly three changes, each naming the ruleset it replaces |

## Left out

- Entity Framework is not modelled: the database context, its change tracking and `SaveChangesAsync`.
  Each merge hands back its created, updated and deleted rows instead.
- Object identity is not modelled. The code mutates a baseline row's ruleset id in place before
  inserting it; the model inserts a copy stamped with the id. Replacing a tracked scrim action with a
  new instance of the same key (line 735) is taken to be a plain update.
- Logging, the clock (the creation date of a new ruleset) and the database-factory plumbing are left
  out. `async`/`await` is left out too: every call is a single synchronous step.
- The auto-reset event is a flag that must be open on entry and is released on every path.
  Blocking and concurrent callers are not modelled.
- The ruleset data service is modelled as follows:
  - fetching a ruleset by id is `Find` on the store's rulesets, in store order;
  - writing the active-ruleset id is the `activeRulesetId` field;
  - how the service loads a ruleset's collections is not part of this model.
- `GetRulesetsAsync` (lines 45-48), `GetDefaultRulesetAsync` (lines 207-222) and `GetScrimActionTypes`
  (lines 771-774) only pass their service's answer through. The enum's values are the `values` field of `ActionEnum`.
- The enum's member names and `ScrimAction.GetDomainFromActionType` are inputs (`nameOf`, `domainOf`).
  The item-category and item services' answers are inputs (`Catalog`).
- The description regex uses Unicode lower- and upper-case letter classes. The model treats only the
  ASCII letters `a`-`z` and `A`-`Z` as such.
- A null rule collection is treated as an empty one, as the manager's checks do.
- The `Ruleset` class here has two collections. The manager reads and writes four, and the model
  follows the manager.
- The per-value `try`/`catch` in the scrim action loop (lines 722-745) is not modelled: no step of
  that loop throws in the model. Only the controller's calls into the store and the message service
  are modelled as throwing (`Fault`).
- ItemRules.ItemMergeIdempotent is weaker than the documented claim that a second reconciliation
  changes nothing. It needs every baseline item to be a weapon item with a known category. The code
  does not meet that claim otherwise: a stored rule for an item that is not a weapon item is removed
  even when the baseline has a rule for it, so `ItemMergeNotIdempotent` shows a baseline item
  inserted by one pass and removed by the next. The model follows the code.
- Seed.SeedIdempotent is weaker than the documented claim for the same two reasons. It carries the
  category proviso and the item proviso; the action and facility merges are idempotent without one
  (`ActionMergeIdempotent`, `FacilityMergeIdempotent`).
- CategoryRules.CategoryMergeIdempotent is weaker than the documented claim that a second
  reconciliation changes nothing. It needs every listed baseline category to be a weapon category.
  The code does not meet that claim otherwise: `CategoryMergeNotIdempotent` shows a baseline category
  inserted by one pass and removed by the next. The model follows the code.
- Controller.Activate follows the code, not the documented claim that a failed activation leaves the
  slot at its last good value. When only the broadcast throws, the new ruleset stays in the slot, its
  id stays written, and the result is null.
- FacilityRules.DecideFacility removes the visited stored row. The code removes the first stored row
  of that facility. The two are the same row when stored facility ids are distinct.
- Controller.ActivateDefault corrects only the dereference. As in the code, the slot is still set to
  the activation's null result.

## Findings

| source | as written | input that shows it | evidently intended | confidence | as-written member | corrected member |
|---|---|---|---|---|---|---|
| squittal.ScrimPlanetmans.App/ScrimMatch/Ruleset/ScrimRulesetManager.cs:476-496 | a stored facility rule without a baseline rule is removed from `allFacilityRules` while a `foreach` walks that list, so the next step of the walk throws and the pass saves nothing | ruleset 1 holds a rule for facility 999, which the baseline table does not list | remove that rule and keep walking | high, not executed | FacilityRules.MergeFacilityRulesAsWritten, FacilityRules.FacilityAsWrittenCounterexample | FacilityRules.MergeFacilityRules, FacilityRules.FacilityIdsMatchDefaults |
| squittal.ScrimPlanetmans.App/ScrimMatch/Ruleset/ScrimRulesetManager.cs:401-410 | the weapon list is null-checked when ids are gathered, but `allWeaponItems.Any(…)` then dereferences it for every candidate | the item service returns a null weapon list; the baseline's three items are still candidates | read a null weapon list as an empty one | medium, not executed | ItemRules.MergeItemRulesAsWritten, ItemRules.ItemMergeAsWrittenFails | ItemRules.MergeItemRules, ItemRules.ItemCoverage |
| squittal.ScrimPlanetmans.App/ScrimMatch/Ruleset/ScrimRulesetManager.cs:143-145 | the activation's result is stored in the slot and its name is read, which throws when the activation returned null | a default ruleset exists and fetching it throws, so the activation returns null | report the failure without dereferencing the empty slot | high, not executed | Controller.ActivateDefaultAsWritten, Controller.DefaultActivationCrash | Controller.ActivateDefault, Controller.DefaultActivation |
| squittal.ScrimPlanetmans.App/ScrimMatch/Ruleset/ScrimRulesetManager.cs:199-201 | the handler reads the slot's id without checking the slot, which throws when no ruleset is active | a rule-change message arrives before any ruleset has been activated | ignore the edit when no ruleset is active | high, not executed | Controller.HandleRuleChangeAsWritten, Controller.RuleChangeAsWrittenAgrees | Controller.HandleRuleChange, Controller.RuleChangeOutcome |
| squittal.ScrimPlanetmans.App/ScrimMatch/Ruleset/ScrimRulesetManager.cs:718 | the result of `Distinct()` is discarded, so the loop visits duplicate values. It inserts two rows with the same key for an aliased enum member, and visits a stale action that is stored twice twice | the enum declares two members with the same value and the store has no row for it | visit each value once | low, not executed (the enum's members are not part of this model) | ScrimActions.ScrimActionPlanAsWritten, ScrimActions.ScrimActionAsWrittenDuplicates | ScrimActions.ScrimActionPlan, ScrimActions.ScrimActionRows |
