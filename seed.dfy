/** The seeding pass of the default ruleset: look up ruleset 1 (or start a new one), mark it as the
    default with the standard match title, and replace its four rule collections by the four merges
    against the baseline tables. Item points fall back on the reconciled item-category rules. */
module Seed {
  import opened Wrappers
  import opened Rules
  import opened Reconciliation
  import opened Defaults
  import opened ActionRules
  import opened CategoryRules
  import opened ItemRules
  import opened FacilityRules

  /** What one seeding pass hands to the store: the ruleset with its replacement collections,
      whether it is written as an update of an existing row (or inserted), and each category's
      inserted, updated and removed rules. */
  datatype SeedOutcome = SeedOutcome(
    ruleset: Ruleset, existed: bool,
    actions: Merge<ActionRule>, categories: Merge<ItemCategoryRule>,
    items: Merge<ItemRule>, facilities: Merge<FacilityRule>)

  datatype SeedFault = ItemsFailed(item: ItemFault) | FacilitiesFailed(facility: FacilityFault)

  const DefaultMatchTitle: string := "PS2 Scrims"

  /** The ruleset the pass starts from: the stored ruleset 1, or a new one named "Default" whose id
      the store has yet to assign. */
  function StartingRuleset(rulesets: seq<Ruleset>): (r: Ruleset)
    ensures Find(rulesets, RulesetIdOf, DefaultRulesetId).Some? ==>
              r in rulesets && r.id == DefaultRulesetId && r == Find(rulesets, RulesetIdOf, DefaultRulesetId).value
    ensures Find(rulesets, RulesetIdOf, DefaultRulesetId).Null? ==>
              r.id == 0 && r.name == "Default" && !r.isCustomDefault &&
              r.actionRules == [] && r.itemCategoryRules == [] && r.itemRules == [] && r.facilityRules == []
  {
    var found := Find(rulesets, RulesetIdOf, DefaultRulesetId);
    if found.Some? then
      FindFound(rulesets, RulesetIdOf, DefaultRulesetId);
      found.value
    else Ruleset(0, "Default", "", false, false, [], [], [], [])
  }

  /** The action merge of the seeding pass. */
  function SeedActions(rulesets: seq<Ruleset>, catalog: Catalog): Merge<ActionRule> {
    MergeActionRules(StartingRuleset(rulesets).actionRules, DefaultActionRules(catalog.domainOf), catalog)
  }

  /** The seeding pass with the corrected item and facility merges. */
  function SeedPlan(rulesets: seq<Ruleset>, catalog: Catalog): SeedOutcome {
    var store := StartingRuleset(rulesets);
    var actions := SeedActions(rulesets, catalog);
    var categories := MergeCategoryRules(store.itemCategoryRules, DefaultItemCategoryRules(), catalog);
    var items := MergeItemRules(store.itemRules, DefaultItemRules(), catalog.weaponItems, categories.rows);
    var facilities := MergeFacilityRules(store.facilityRules, DefaultFacilityRules());
    SeedOutcome(
      store.(defaultMatchTitle := DefaultMatchTitle, isDefault := true,
             actionRules := actions.rows, itemCategoryRules := categories.rows,
             itemRules := items.rows, facilityRules := facilities.rows),
      Find(rulesets, RulesetIdOf, DefaultRulesetId).Some?,
      actions, categories, items, facilities)
  }

  /** The seeding pass as the source has it: a null weapon-item list or a stored facility rule
      without a baseline rule ends it with an error before anything is saved. */
  function SeedPlanAsWritten(rulesets: seq<Ruleset>, catalog: Catalog): Result<SeedOutcome, SeedFault> {
    var store := StartingRuleset(rulesets);
    var categories := MergeCategoryRules(store.itemCategoryRules, DefaultItemCategoryRules(), catalog);
    var items := MergeItemRulesAsWritten(store.itemRules, DefaultItemRules(), catalog.weaponItems, categories.rows);
    var facilities := MergeFacilityRulesAsWritten(store.facilityRules, DefaultFacilityRules());
    if items.Err? then Err(ItemsFailed(items.error))
    else if facilities.Err? then Err(FacilitiesFailed(facilities.error))
    else Ok(SeedPlan(rulesets, catalog))
  }

  /** The seeding pass: runs the four merges in the source's order and assembles the ruleset. */
  method SeedDefaultRuleset(rulesets: seq<Ruleset>, catalog: Catalog) returns (outcome: SeedOutcome)
    ensures outcome == SeedPlan(rulesets, catalog)
  {
    var storeRuleset := StartingRuleset(rulesets);
    var rulesetExistsInDb := Find(rulesets, RulesetIdOf, DefaultRulesetId).Some?;
    storeRuleset := storeRuleset.(defaultMatchTitle := DefaultMatchTitle, isDefault := true);
    var actions := ReconcileActionRules(storeRuleset.actionRules, DefaultActionRules(catalog.domainOf), catalog);
    var categories := ReconcileCategoryRules(storeRuleset.itemCategoryRules, DefaultItemCategoryRules(), catalog);
    var items := ReconcileItemRules(storeRuleset.itemRules, DefaultItemRules(), catalog.weaponItems, categories.rows);
    var facilities := ReconcileFacilityRules(storeRuleset.facilityRules, DefaultFacilityRules());
    storeRuleset := storeRuleset.(actionRules := actions.rows, itemCategoryRules := categories.rows,
                                  itemRules := items.rows, facilityRules := facilities.rows);
    outcome := SeedOutcome(storeRuleset, rulesetExistsInDb, actions, categories, items, facilities);
  }

  /** The seeded ruleset is the stored ruleset 1 when there is one (updated in place) and a new
      ruleset named "Default" otherwise (inserted); either way it is flagged as the default and
      carries the standard match title; its name and custom-default flag are kept. */
  lemma SeedRulesetShape(rulesets: seq<Ruleset>, catalog: Catalog)
    ensures var o := SeedPlan(rulesets, catalog);
            var found := Find(rulesets, RulesetIdOf, DefaultRulesetId);
            o.ruleset.isDefault && o.ruleset.defaultMatchTitle == "PS2 Scrims" &&
            o.existed == found.Some? &&
            (found.Some? ==> o.ruleset.id == DefaultRulesetId && o.ruleset.name == found.value.name &&
                             o.ruleset.isCustomDefault == found.value.isCustomDefault) &&
            (found.Null? ==> o.ruleset.id == 0 && o.ruleset.name == "Default" && !o.ruleset.isCustomDefault)
  {
  }

  /** A new ruleset starts from empty collections: every rule is inserted, none is updated or
      removed. */
  lemma SeedIntoEmptyStoreInsertsOnly(rulesets: seq<Ruleset>, catalog: Catalog)
    requires Find(rulesets, RulesetIdOf, DefaultRulesetId).Null?
    ensures var o := SeedPlan(rulesets, catalog);
            o.actions.updated == [] && o.actions.deleted == [] &&
            o.categories.updated == [] && o.categories.deleted == [] &&
            o.items.updated == [] && o.items.deleted == [] &&
            o.facilities.updated == [] && o.facilities.deleted == []
  {
    var o := SeedPlan(rulesets, catalog);
    ActionsFromNothing(DefaultActionRules(catalog.domainOf), catalog);
    CategoriesFromNothing(DefaultItemCategoryRules(), catalog);
    ItemsFromNothing(DefaultItemRules(), catalog.weaponItems, o.categories.rows);
    FacilitiesFromNothing(DefaultFacilityRules());
  }

  lemma ActionsFromNothing(defaults: seq<ActionRule>, catalog: Catalog)
    ensures MergeActionRules([], defaults, catalog).updated == []
    ensures MergeActionRules([], defaults, catalog).deleted == []
  {
    var covered := CoveredTypes(catalog.actionTypes);
    var a := ActionDecider([], defaults, covered, catalog.domainOf);
    NoUpdates(covered + StaleTypes(covered, []), a);
    NoDeletes(covered + StaleTypes(covered, []), a);
  }

  lemma CategoriesFromNothing(defaults: seq<ItemCategoryRule>, catalog: Catalog)
    ensures MergeCategoryRules([], defaults, catalog).updated == []
    ensures MergeCategoryRules([], defaults, catalog).deleted == []
  {
    var c := CategoryDecider([], defaults, catalog.weaponCategoryIds);
    NoUpdates(catalog.itemCategoryIds, c);
    NoDeletes(catalog.itemCategoryIds, c);
  }

  lemma ItemsFromNothing(defaults: seq<ItemRule>, weaponItems: Option<seq<WeaponItem>>, categoryRules: seq<ItemCategoryRule>)
    ensures MergeItemRules([], defaults, weaponItems, categoryRules).updated == []
    ensures MergeItemRules([], defaults, weaponItems, categoryRules).deleted == []
  {
    var cands := ItemCandidates([], defaults, weaponItems);
    var i := ItemDecider([], defaults, WeaponsOrEmpty(weaponItems), categoryRules);
    forall k ensures !i(k).Update? && !i(k).Delete? {
      assert Find([], ItemIdOf, k).Null?;
    }
    NoUpdates(cands, i);
    NoDeletes(cands, i);
    assert MergeItemRules([], defaults, weaponItems, categoryRules) == Reconcile(cands, i);
  }

  lemma FacilitiesFromNothing(defaults: seq<FacilityRule>)
    ensures MergeFacilityRules([], defaults).updated == []
    ensures MergeFacilityRules([], defaults).deleted == []
  {
    var f := FacilityDecider([], defaults);
    NoUpdates(FacilityCandidates([], defaults), f);
    NoDeletes(FacilityCandidates([], defaults), f);
  }

  /** Seeding a stored ruleset 1 that has no rule rows yet gives one action rule per declared action
      type other than the control actions, and the rule for infantry-on-infantry kills is worth
      nothing and defers to the item-category rules. (`SeedPlan` takes its action rules from
      `SeedActions`.) */
  lemma SeedEmptyDefaultRuleset(rulesets: seq<Ruleset>, catalog: Catalog)
    requires Find(rulesets, RulesetIdOf, DefaultRulesetId).Some?
    requires Find(rulesets, RulesetIdOf, DefaultRulesetId).value.actionRules == []
    requires InfantryKillInfantry in catalog.actionTypes
    ensures var rules := SeedActions(rulesets, catalog).rows;
            (forall t :: t in KeysOf(rules, TypeOf) <==> t in catalog.actionTypes && !IsControlAction(t)) &&
            (Distinct(catalog.actionTypes) ==> Distinct(KeysOf(rules, TypeOf))) &&
            Find(rules, TypeOf, InfantryKillInfantry) ==
              Some(ActionRule(DefaultRulesetId, InfantryKillInfantry, 0, true, catalog.domainOf(InfantryKillInfantry)))
  {
    var defaults := DefaultActionRules(catalog.domainOf);
    assert StartingRuleset(rulesets).actionRules == [];
    DefaultInfantryKillInfantry(catalog.domainOf);
    FreshActionRules(defaults, catalog, InfantryKillInfantry);
  }

  /** Merging into no stored action rules covers the declared types and inserts a declared type's
      baseline rule as it is, stamped with the seeded ruleset's id. */
  lemma FreshActionRules(defaults: seq<ActionRule>, catalog: Catalog, t: ActionType)
    requires t in catalog.actionTypes && !IsControlAction(t) && Find(defaults, TypeOf, t).Some?
    ensures var rules := MergeActionRules([], defaults, catalog).rows;
            (forall t :: t in KeysOf(rules, TypeOf) <==> t in catalog.actionTypes && !IsControlAction(t)) &&
            (Distinct(catalog.actionTypes) ==> Distinct(KeysOf(rules, TypeOf))) &&
            Find(rules, TypeOf, t) == Some(Find(defaults, TypeOf, t).value.(rulesetId := DefaultRulesetId))
  {
    ActionCoverage([], defaults, catalog);
    ActionRuleValues([], defaults, catalog, t);
  }

  /** The source's pass fails exactly when the corrected item or facility merge would have been
      needed; otherwise it produces the same outcome. With the baseline tables, a null weapon-item
      list always makes it fail. */
  lemma SeedAsWrittenAgrees(rulesets: seq<Ruleset>, catalog: Catalog)
    ensures var store := StartingRuleset(rulesets);
            SeedPlanAsWritten(rulesets, catalog).Err? <==>
              catalog.weaponItems.Null? ||
              exists r :: r in store.facilityRules && r.facilityId !in KeysOf(DefaultFacilityRules(), FacilityIdOf)
    ensures SeedPlanAsWritten(rulesets, catalog).Ok? ==> SeedPlanAsWritten(rulesets, catalog).value == SeedPlan(rulesets, catalog)
  {
    var store := StartingRuleset(rulesets);
    var categories := MergeCategoryRules(store.itemCategoryRules, DefaultItemCategoryRules(), catalog);
    if catalog.weaponItems.Null? {
      ItemMergeAsWrittenFails(store.itemRules, DefaultItemRules(), categories.rows);
    }
    FacilityAsWrittenFails(store.facilityRules, DefaultFacilityRules());
  }

  /** Seeding again, once the seeded ruleset is stored as ruleset 1, gives back that same ruleset,
      provided every listed category with a baseline rule is a weapon category and every baseline
      item is a weapon item with a known category. Without the provisos a second pass removes rules
      the first one inserted (CategoryMergeNotIdempotent, ItemMergeNotIdempotent). */
  lemma SeedIdempotent(rulesets: seq<Ruleset>, catalog: Catalog, again: seq<Ruleset>)
    requires Find(again, RulesetIdOf, DefaultRulesetId) ==
             Some(SeedPlan(rulesets, catalog).ruleset.(id := DefaultRulesetId))
    requires forall c :: c in catalog.itemCategoryIds && Find(DefaultItemCategoryRules(), CategoryIdOf, c).Some? ==>
                         c in catalog.weaponCategoryIds
    requires forall r :: r in DefaultItemRules() ==> WeaponCategoryOf(WeaponsOrEmpty(catalog.weaponItems), r.itemId).Some?
    ensures SeedPlan(again, catalog).existed
    ensures SeedPlan(again, catalog).ruleset == SeedPlan(rulesets, catalog).ruleset.(id := DefaultRulesetId)
  {
    var store := StartingRuleset(rulesets);
    var once := SeedPlan(rulesets, catalog);
    ActionMergeIdempotent(store.actionRules, DefaultActionRules(catalog.domainOf), catalog);
    CategoryMergeIdempotent(store.itemCategoryRules, DefaultItemCategoryRules(), catalog);
    DefaultItemIdsDistinct();
    ItemMergeIdempotent(store.itemRules, DefaultItemRules(), catalog.weaponItems, once.categories.rows);
    FacilityMergeIdempotent(store.facilityRules, DefaultFacilityRules());
  }
}
