/** The item-category part of seeding the default ruleset: every category the item-category service
    lists is visited once, in that order; weapon categories get a rule, and a stored rule for a
    category that is not a weapon category is removed. */
module CategoryRules {
  import opened Wrappers
  import opened Rules
  import opened Reconciliation

  /** What happens to the rule for category `c`. A baseline rule for a category that has no stored
      rule is inserted whether or not the category is a weapon category. */
  function DecideCategory(c: int, stored: seq<ItemCategoryRule>, defaults: seq<ItemCategoryRule>,
                          weaponIds: seq<int>): Decision<ItemCategoryRule>
  {
    var storeEntity := Find(stored, CategoryIdOf, c);
    var defaultEntity := Find(defaults, CategoryIdOf, c);
    if storeEntity.Null? then
      if defaultEntity.Some? then Create(defaultEntity.value.(rulesetId := DefaultRulesetId))
      else if c in weaponIds then Create(ItemCategoryRule(DefaultRulesetId, c, 0, false, false))
      else Skip
    else if c in weaponIds then
      Update(storeEntity.value.(
        points := if defaultEntity.Some? then defaultEntity.value.points else 0,
        isBanned := if defaultEntity.Some? then defaultEntity.value.isBanned else false,
        deferToItemRules := if defaultEntity.Some? then defaultEntity.value.deferToItemRules else false))
    else Delete(storeEntity.value)
  }

  function CategoryDecider(stored: seq<ItemCategoryRule>, defaults: seq<ItemCategoryRule>,
                           weaponIds: seq<int>): int -> Decision<ItemCategoryRule>
  {
    c => DecideCategory(c, stored, defaults, weaponIds)
  }

  /** The item-category merge over the catalog's category ids. */
  function MergeCategoryRules(stored: seq<ItemCategoryRule>, defaults: seq<ItemCategoryRule>,
                              catalog: Catalog): Merge<ItemCategoryRule>
  {
    Reconcile(catalog.itemCategoryIds, CategoryDecider(stored, defaults, catalog.weaponCategoryIds))
  }

  /** The loop of the seeding pass over item categories. */
  method ReconcileCategoryRules(stored: seq<ItemCategoryRule>, defaults: seq<ItemCategoryRule>, catalog: Catalog)
    returns (m: Merge<ItemCategoryRule>)
    ensures m == MergeCategoryRules(stored, defaults, catalog)
  {
    var allItemCategoryIds := catalog.itemCategoryIds;
    ghost var decide := CategoryDecider(stored, defaults, catalog.weaponCategoryIds);
    var all, created, updated, deleted := [], [], [], [];
    var i := 0;
    while i < |allItemCategoryIds|
      invariant 0 <= i <= |allItemCategoryIds|
      invariant Merge(all, created, updated, deleted) == Reconcile(allItemCategoryIds[..i], decide)
    {
      var categoryId := allItemCategoryIds[i];
      var isWeaponItemCategoryId := categoryId in catalog.weaponCategoryIds;
      var storeEntity := Find(stored, CategoryIdOf, categoryId);
      var defaultEntity := Find(defaults, CategoryIdOf, categoryId);
      ReconcileStep(allItemCategoryIds, i, decide);
      assert decide(categoryId) == DecideCategory(categoryId, stored, defaults, catalog.weaponCategoryIds);
      if storeEntity.Null? {
        if defaultEntity.Some? {
          var entity := defaultEntity.value.(rulesetId := DefaultRulesetId);
          created := created + [entity];
          all := all + [entity];
        } else if isWeaponItemCategoryId {
          var entity := ItemCategoryRule(DefaultRulesetId, categoryId, 0, false, false);
          created := created + [entity];
          all := all + [entity];
        }
      } else if isWeaponItemCategoryId {
        var entity := storeEntity.value;
        entity := entity.(points := if defaultEntity.Some? then defaultEntity.value.points else 0);
        entity := entity.(isBanned := if defaultEntity.Some? then defaultEntity.value.isBanned else false);
        entity := entity.(deferToItemRules := if defaultEntity.Some? then defaultEntity.value.deferToItemRules else false);
        updated := updated + [entity];
        all := all + [entity];
      } else {
        deleted := deleted + [storeEntity.value];
      }
      i := i + 1;
    }
    assert allItemCategoryIds[..i] == allItemCategoryIds;
    m := Merge(all, created, updated, deleted);
  }

  lemma CategoryDeciderRespectsKeys(stored: seq<ItemCategoryRule>, defaults: seq<ItemCategoryRule>, weaponIds: seq<int>)
    ensures KeyRespecting(CategoryDecider(stored, defaults, weaponIds), CategoryIdOf)
  {
    forall c | CategoryDecider(stored, defaults, weaponIds)(c).Kept()
      ensures CategoryIdOf(CategoryDecider(stored, defaults, weaponIds)(c).row) == c
    {
      if Find(stored, CategoryIdOf, c).Some? { FindFound(stored, CategoryIdOf, c); }
      if Find(defaults, CategoryIdOf, c).Some? { FindFound(defaults, CategoryIdOf, c); }
    }
  }

  /** A category ends up with a rule exactly when the catalog lists it and it is a weapon category,
      or it has a baseline rule and no stored rule. Each listed category has at most one rule when
      the catalog lists each category once. */
  lemma CategoryCoverage(stored: seq<ItemCategoryRule>, defaults: seq<ItemCategoryRule>, catalog: Catalog)
    ensures var keys := KeysOf(MergeCategoryRules(stored, defaults, catalog).rows, CategoryIdOf);
            forall c :: c in keys <==>
              c in catalog.itemCategoryIds &&
              (c in catalog.weaponCategoryIds ||
               (Find(defaults, CategoryIdOf, c).Some? && Find(stored, CategoryIdOf, c).Null?))
    ensures Distinct(catalog.itemCategoryIds) ==>
              Distinct(KeysOf(MergeCategoryRules(stored, defaults, catalog).rows, CategoryIdOf))
  {
    var decide := CategoryDecider(stored, defaults, catalog.weaponCategoryIds);
    CategoryDeciderRespectsKeys(stored, defaults, catalog.weaponCategoryIds);
    RowKeys(catalog.itemCategoryIds, decide, CategoryIdOf);
    KeptKeysMembers(catalog.itemCategoryIds, decide);
  }

  /** Values: the rule for a listed category. A stored weapon-category rule takes points, ban and
      defer flag from the baseline, or 0 / not banned / not deferring without one, and keeps its
      ruleset id; a stored rule of any other category is removed and has no rule in the result. */
  lemma CategoryRuleValues(stored: seq<ItemCategoryRule>, defaults: seq<ItemCategoryRule>, catalog: Catalog, c: int)
    requires c in catalog.itemCategoryIds
    ensures var m := MergeCategoryRules(stored, defaults, catalog);
            var s := Find(stored, CategoryIdOf, c);
            var d := Find(defaults, CategoryIdOf, c);
            var found := Find(m.rows, CategoryIdOf, c);
            var weapon := c in catalog.weaponCategoryIds;
            (found.Some? ==> found.value.itemCategoryId == c) &&
            (s.Some? && weapon ==>
               found.Some? && found.value in m.updated && found.value.rulesetId == s.value.rulesetId &&
               found.value.points == (if d.Some? then d.value.points else 0) &&
               found.value.isBanned == (d.Some? && d.value.isBanned) &&
               found.value.deferToItemRules == (d.Some? && d.value.deferToItemRules)) &&
            (s.Some? && !weapon ==> found.Null? && s.value in m.deleted) &&
            (s.Null? && d.Some? ==> found == Some(d.value.(rulesetId := DefaultRulesetId)) && found.value in m.created) &&
            (s.Null? && d.Null? && weapon ==>
               found == Some(ItemCategoryRule(DefaultRulesetId, c, 0, false, false)) && found.value in m.created) &&
            (s.Null? && d.Null? && !weapon ==> found.Null?)
  {
    var decide := CategoryDecider(stored, defaults, catalog.weaponCategoryIds);
    CategoryDeciderRespectsKeys(stored, defaults, catalog.weaponCategoryIds);
    FindRow(catalog.itemCategoryIds, decide, CategoryIdOf, c);
    Outcomes(catalog.itemCategoryIds, decide);
    if Find(stored, CategoryIdOf, c).Some? { FindFound(stored, CategoryIdOf, c); }
    if Find(defaults, CategoryIdOf, c).Some? { FindFound(defaults, CategoryIdOf, c); }
  }

  /** A stored rule whose category the catalog does not list is neither written nor removed, and
      the result has no rule for that category. */
  lemma CategoryUnlistedUntouched(stored: seq<ItemCategoryRule>, defaults: seq<ItemCategoryRule>, catalog: Catalog,
                                  r: ItemCategoryRule)
    requires r.itemCategoryId !in catalog.itemCategoryIds
    ensures var m := MergeCategoryRules(stored, defaults, catalog);
            r !in m.deleted && r !in m.updated &&
            Find(m.rows, CategoryIdOf, r.itemCategoryId).Null?
  {
    var decide := CategoryDecider(stored, defaults, catalog.weaponCategoryIds);
    var m := MergeCategoryRules(stored, defaults, catalog);
    CategoryDeciderRespectsKeys(stored, defaults, catalog.weaponCategoryIds);
    FindRow(catalog.itemCategoryIds, decide, CategoryIdOf, r.itemCategoryId);
    Outcomes(catalog.itemCategoryIds, decide);
    forall c | c in catalog.itemCategoryIds ensures decide(c) != Delete(r) && decide(c) != Update(r) {
      if Find(stored, CategoryIdOf, c).Some? { FindFound(stored, CategoryIdOf, c); }
      assert decide(c).Kept() ==> CategoryIdOf(decide(c).row) == c;
    }
  }

  /** Running the merge again on its own result changes no rule, provided every listed category
      that has a baseline rule is a weapon category. */
  lemma CategoryMergeIdempotent(stored: seq<ItemCategoryRule>, defaults: seq<ItemCategoryRule>, catalog: Catalog)
    requires forall c :: c in catalog.itemCategoryIds && Find(defaults, CategoryIdOf, c).Some? ==>
                         c in catalog.weaponCategoryIds
    ensures var once := MergeCategoryRules(stored, defaults, catalog).rows;
            MergeCategoryRules(once, defaults, catalog).rows == once
  {
    var ids := catalog.itemCategoryIds;
    var decide := CategoryDecider(stored, defaults, catalog.weaponCategoryIds);
    var once := MergeCategoryRules(stored, defaults, catalog).rows;
    var decide2 := CategoryDecider(once, defaults, catalog.weaponCategoryIds);
    CategoryDeciderRespectsKeys(stored, defaults, catalog.weaponCategoryIds);
    forall c | c in ids ensures decide2(c).Kept() == decide(c).Kept() && (decide(c).Kept() ==> decide2(c).row == decide(c).row) {
      FindRow(ids, decide, CategoryIdOf, c);
      if Find(stored, CategoryIdOf, c).Some? { FindFound(stored, CategoryIdOf, c); }
      if Find(defaults, CategoryIdOf, c).Some? { FindFound(defaults, CategoryIdOf, c); }
    }
    SameRows(ids, decide2, decide);
  }

  /** Without that proviso the merge is not idempotent: a baseline category that the catalog lists
      but does not count as a weapon category is inserted by the first pass and removed by the
      second. */
  lemma CategoryMergeNotIdempotent()
    ensures var defaults := [ItemCategoryRule(0, 2, 1, false, true)];
            var catalog := Catalog([], _ => 0, [2], [], Null);
            var once := MergeCategoryRules([], defaults, catalog).rows;
            once == [ItemCategoryRule(DefaultRulesetId, 2, 1, false, true)] &&
            MergeCategoryRules(once, defaults, catalog).rows == [] &&
            MergeCategoryRules(once, defaults, catalog).deleted == once
  {
    var defaults := [ItemCategoryRule(0, 2, 1, false, true)];
    var catalog := Catalog([], _ => 0, [2], [], Null);
    var once := MergeCategoryRules([], defaults, catalog).rows;
    assert [2][..0] == [];
    assert once == [ItemCategoryRule(DefaultRulesetId, 2, 1, false, true)];
  }
}
