/** The item part of seeding the default ruleset. The candidate item ids are the baseline ids, then
    the stored ids, then the weapon item ids, each id once. A weapon item with a known category gets
    a rule whose points fall back on the reconciled rule of its category. */
module ItemRules {
  import opened Wrappers
  import opened Rules
  import opened Reconciliation

  /** The candidate item ids, in visiting order. A null weapon list contributes nothing. */
  function ItemCandidates(stored: seq<ItemRule>, defaults: seq<ItemRule>, weaponItems: Option<seq<WeaponItem>>): seq<int> {
    AppendNew(AppendNew(KeysOf(defaults, ItemIdOf), KeysOf(stored, ItemIdOf)),
              if weaponItems.Some? then KeysOf(weaponItems.value, WeaponIdOf) else [])
  }

  /** The category of the first weapon item with id `x`; null when there is no such weapon item or
      its category is unknown. */
  function WeaponCategoryOf(weapons: seq<WeaponItem>, x: int): Option<int> {
    var w := Find(weapons, WeaponIdOf, x);
    if w.Null? then Null else w.value.itemCategoryId
  }

  /** The points of the first reconciled category rule for category `c`, or 0 without one. */
  function CategoryPoints(categoryRules: seq<ItemCategoryRule>, c: int): int {
    var r := Find(categoryRules, CategoryIdOf, c);
    if r.Null? then 0 else r.value.points
  }

  /** The category points are 0 when no category rule has that category, and otherwise the points
      of the first rule that has it. */
  lemma CategoryPointsSpec(categoryRules: seq<ItemCategoryRule>, c: int)
    ensures (forall r :: r in categoryRules ==> r.itemCategoryId != c) ==> CategoryPoints(categoryRules, c) == 0
    ensures forall i :: 0 <= i < |categoryRules| && categoryRules[i].itemCategoryId == c &&
                        (forall j :: 0 <= j < i ==> categoryRules[j].itemCategoryId != c) ==>
                          CategoryPoints(categoryRules, c) == categoryRules[i].points
  {
  }

  /** A weapon item's category is the category of the first weapon item with that id. */
  lemma WeaponCategorySpec(weapons: seq<WeaponItem>, x: int)
    ensures (forall w :: w in weapons ==> w.id != x) ==> WeaponCategoryOf(weapons, x).Null?
    ensures forall i :: 0 <= i < |weapons| && weapons[i].id == x &&
                        (forall j :: 0 <= j < i ==> weapons[j].id != x) ==>
                          WeaponCategoryOf(weapons, x) == weapons[i].itemCategoryId
  {
  }

  /** What happens to the rule for item `x`. */
  function DecideItem(x: int, stored: seq<ItemRule>, defaults: seq<ItemRule>, weapons: seq<WeaponItem>,
                      categoryRules: seq<ItemCategoryRule>): Decision<ItemRule>
  {
    var storeEntity := Find(stored, ItemIdOf, x);
    var defaultEntity := Find(defaults, ItemIdOf, x);
    var categoryId := WeaponCategoryOf(weapons, x);
    if storeEntity.Null? then
      if defaultEntity.Some? then Create(defaultEntity.value.(rulesetId := DefaultRulesetId))
      else if categoryId.Some? then
        Create(ItemRule(DefaultRulesetId, x, categoryId.value, CategoryPoints(categoryRules, categoryId.value), false))
      else Skip
    else if categoryId.Some? then
      Update(storeEntity.value.(
        points := if defaultEntity.Some? then defaultEntity.value.points
                  else CategoryPoints(categoryRules, categoryId.value),
        isBanned := defaultEntity.Some? && defaultEntity.value.isBanned))
    else Delete(storeEntity.value)
  }

  function ItemDecider(stored: seq<ItemRule>, defaults: seq<ItemRule>, weapons: seq<WeaponItem>,
                       categoryRules: seq<ItemCategoryRule>): int -> Decision<ItemRule>
  {
    x => DecideItem(x, stored, defaults, weapons, categoryRules)
  }

  function WeaponsOrEmpty(weaponItems: Option<seq<WeaponItem>>): seq<WeaponItem> {
    if weaponItems.Some? then weaponItems.value else []
  }

  /** The item merge, with a null weapon list read as an empty one. `categoryRules` is the
      replacement collection of the item-category merge. */
  function MergeItemRules(stored: seq<ItemRule>, defaults: seq<ItemRule>, weaponItems: Option<seq<WeaponItem>>,
                          categoryRules: seq<ItemCategoryRule>): Merge<ItemRule>
  {
    Reconcile(ItemCandidates(stored, defaults, weaponItems),
              ItemDecider(stored, defaults, WeaponsOrEmpty(weaponItems), categoryRules))
  }

  datatype ItemFault = NullWeaponList

  /** The item merge as the source has it: the weapon-item test of the first candidate
      dereferences the weapon list, which fails when the list is null. */
  function MergeItemRulesAsWritten(stored: seq<ItemRule>, defaults: seq<ItemRule>, weaponItems: Option<seq<WeaponItem>>,
                                   categoryRules: seq<ItemCategoryRule>): Result<Merge<ItemRule>, ItemFault>
  {
    if weaponItems.Null? && ItemCandidates(stored, defaults, weaponItems) != [] then Err(NullWeaponList)
    else Ok(MergeItemRules(stored, defaults, weaponItems, categoryRules))
  }

  /** The seeding pass over items: build the candidate ids, then visit them. */
  method ReconcileItemRules(stored: seq<ItemRule>, defaults: seq<ItemRule>, weaponItems: Option<seq<WeaponItem>>,
                            categoryRules: seq<ItemCategoryRule>)
    returns (m: Merge<ItemRule>)
    ensures m == MergeItemRules(stored, defaults, weaponItems, categoryRules)
  {
    var allItemIds := KeysOf(defaults, ItemIdOf);
    allItemIds := AppendNew(allItemIds, KeysOf(stored, ItemIdOf));
    if weaponItems.Some? {
      allItemIds := AppendNew(allItemIds, KeysOf(weaponItems.value, WeaponIdOf));
    } else {
      assert AppendNew(allItemIds, []) == allItemIds;
    }
    m := VisitItems(allItemIds, stored, defaults, WeaponsOrEmpty(weaponItems), categoryRules);
  }

  /** The loop of the seeding pass over items (a null weapon list read as an empty one). */
  method VisitItems(allItemIds: seq<int>, stored: seq<ItemRule>, defaults: seq<ItemRule>, allWeaponItems: seq<WeaponItem>,
                    categoryRules: seq<ItemCategoryRule>)
    returns (m: Merge<ItemRule>)
    ensures m == Reconcile(allItemIds, ItemDecider(stored, defaults, allWeaponItems, categoryRules))
  {
    ghost var decide := ItemDecider(stored, defaults, allWeaponItems, categoryRules);
    var all, created, updated, deleted := [], [], [], [];
    var i := 0;
    while i < |allItemIds|
      invariant 0 <= i <= |allItemIds|
      invariant Merge(all, created, updated, deleted) == Reconcile(allItemIds[..i], decide)
    {
      var itemId := allItemIds[i];
      var storeEntity := Find(stored, ItemIdOf, itemId);
      var defaultEntity := Find(defaults, ItemIdOf, itemId);
      var categoryId := WeaponCategoryOf(allWeaponItems, itemId);
      ReconcileStep(allItemIds, i, decide);
      assert decide(itemId) == DecideItem(itemId, stored, defaults, allWeaponItems, categoryRules);
      if storeEntity.Null? {
        if defaultEntity.Some? {
          var entity := defaultEntity.value.(rulesetId := DefaultRulesetId);
          created := created + [entity];
          all := all + [entity];
        } else if categoryId.Some? {
          var defaultPoints := CategoryPoints(categoryRules, categoryId.value);
          var entity := ItemRule(DefaultRulesetId, itemId, categoryId.value, defaultPoints, false);
          created := created + [entity];
          all := all + [entity];
        }
      } else if categoryId.Some? {
        var entity := storeEntity.value;
        if defaultEntity.Some? {
          entity := entity.(points := defaultEntity.value.points, isBanned := defaultEntity.value.isBanned);
        } else {
          entity := entity.(points := CategoryPoints(categoryRules, categoryId.value), isBanned := false);
        }
        updated := updated + [entity];
        all := all + [entity];
      } else {
        deleted := deleted + [storeEntity.value];
      }
      i := i + 1;
    }
    assert allItemIds[..i] == allItemIds;
    m := Merge(all, created, updated, deleted);
  }

  /** The candidates are the baseline, stored and weapon item ids, with no id twice when the
      baseline names each item once. */
  lemma ItemCandidatesSpec(stored: seq<ItemRule>, defaults: seq<ItemRule>, weaponItems: Option<seq<WeaponItem>>)
    ensures forall x :: x in ItemCandidates(stored, defaults, weaponItems) <==>
              Find(defaults, ItemIdOf, x).Some? || Find(stored, ItemIdOf, x).Some? ||
              Find(WeaponsOrEmpty(weaponItems), WeaponIdOf, x).Some?
    ensures Distinct(KeysOf(defaults, ItemIdOf)) ==> Distinct(ItemCandidates(stored, defaults, weaponItems))
  {
    var weapons := WeaponsOrEmpty(weaponItems);
    assert KeysOf(weapons, WeaponIdOf) == if weaponItems.Some? then KeysOf(weaponItems.value, WeaponIdOf) else [];
    forall x ensures x in KeysOf(defaults, ItemIdOf) <==> Find(defaults, ItemIdOf, x).Some? {
      KeysOfFind(defaults, ItemIdOf, x);
    }
    forall x ensures x in KeysOf(stored, ItemIdOf) <==> Find(stored, ItemIdOf, x).Some? {
      KeysOfFind(stored, ItemIdOf, x);
    }
    forall x ensures x in KeysOf(weapons, WeaponIdOf) <==> Find(weapons, WeaponIdOf, x).Some? {
      KeysOfFind(weapons, WeaponIdOf, x);
    }
  }

  lemma ItemDeciderRespectsKeys(stored: seq<ItemRule>, defaults: seq<ItemRule>, weapons: seq<WeaponItem>,
                                categoryRules: seq<ItemCategoryRule>)
    ensures KeyRespecting(ItemDecider(stored, defaults, weapons, categoryRules), ItemIdOf)
  {
    forall x | ItemDecider(stored, defaults, weapons, categoryRules)(x).Kept()
      ensures ItemIdOf(ItemDecider(stored, defaults, weapons, categoryRules)(x).row) == x
    {
      if Find(stored, ItemIdOf, x).Some? { FindFound(stored, ItemIdOf, x); }
      if Find(defaults, ItemIdOf, x).Some? { FindFound(defaults, ItemIdOf, x); }
    }
  }

  /** An item ends up with a rule exactly when it has a baseline rule and no stored rule, or it is
      a weapon item with a known category; no item has two rules when the baseline names each item
      once. */
  lemma ItemCoverage(stored: seq<ItemRule>, defaults: seq<ItemRule>, weaponItems: Option<seq<WeaponItem>>,
                     categoryRules: seq<ItemCategoryRule>)
    ensures var keys := KeysOf(MergeItemRules(stored, defaults, weaponItems, categoryRules).rows, ItemIdOf);
            forall x :: x in keys <==>
              (Find(stored, ItemIdOf, x).Null? && Find(defaults, ItemIdOf, x).Some?) ||
              WeaponCategoryOf(WeaponsOrEmpty(weaponItems), x).Some?
    ensures Distinct(KeysOf(defaults, ItemIdOf)) ==>
              Distinct(KeysOf(MergeItemRules(stored, defaults, weaponItems, categoryRules).rows, ItemIdOf))
  {
    var weapons := WeaponsOrEmpty(weaponItems);
    var cands := ItemCandidates(stored, defaults, weaponItems);
    var decide := ItemDecider(stored, defaults, weapons, categoryRules);
    ItemDeciderRespectsKeys(stored, defaults, weapons, categoryRules);
    RowKeys(cands, decide, ItemIdOf);
    KeptKeysMembers(cands, decide);
    ItemCandidatesSpec(stored, defaults, weaponItems);
    forall x ensures x in KeptKeys(cands, decide) <==>
                     (Find(stored, ItemIdOf, x).Null? && Find(defaults, ItemIdOf, x).Some?) ||
                     WeaponCategoryOf(weapons, x).Some?
    {
      ItemKept(stored, defaults, weapons, categoryRules, x);
      if decide(x).Kept() {
        ItemKeptIsCandidate(stored, defaults, weaponItems, categoryRules, x);
      }
    }
  }

  /** An item keeps a rule exactly when it has a baseline rule and no stored rule, or it is a
      weapon item with a known category. */
  lemma ItemKept(stored: seq<ItemRule>, defaults: seq<ItemRule>, weapons: seq<WeaponItem>,
                 categoryRules: seq<ItemCategoryRule>, x: int)
    ensures DecideItem(x, stored, defaults, weapons, categoryRules).Kept() <==>
            (Find(stored, ItemIdOf, x).Null? && Find(defaults, ItemIdOf, x).Some?) ||
            WeaponCategoryOf(weapons, x).Some?
  {
  }

  /** An item whose decision keeps a row is a candidate. */
  lemma ItemKeptIsCandidate(stored: seq<ItemRule>, defaults: seq<ItemRule>, weaponItems: Option<seq<WeaponItem>>,
                            categoryRules: seq<ItemCategoryRule>, x: int)
    requires DecideItem(x, stored, defaults, WeaponsOrEmpty(weaponItems), categoryRules).Kept()
    ensures x in ItemCandidates(stored, defaults, weaponItems)
  {
    ItemCandidatesSpec(stored, defaults, weaponItems);
  }

  /** Values: the rule for an item. A new weapon item without a baseline rule gets the points of
      its category's reconciled rule (0 without one) and is not banned; a stored weapon item takes
      points and ban from the baseline, or the category points and no ban without one, and keeps
      its ruleset id and category; a stored item that is not a weapon item with a known category is
      removed, even when it has a baseline rule. */
  lemma ItemRuleValues(stored: seq<ItemRule>, defaults: seq<ItemRule>, weaponItems: Option<seq<WeaponItem>>,
                       categoryRules: seq<ItemCategoryRule>, x: int)
    ensures var m := MergeItemRules(stored, defaults, weaponItems, categoryRules);
            var s := Find(stored, ItemIdOf, x);
            var d := Find(defaults, ItemIdOf, x);
            var c := WeaponCategoryOf(WeaponsOrEmpty(weaponItems), x);
            var found := Find(m.rows, ItemIdOf, x);
            (found.Some? ==> found.value.itemId == x) &&
            (s.Null? && d.Some? ==> found == Some(d.value.(rulesetId := DefaultRulesetId)) && found.value in m.created) &&
            (s.Null? && d.Null? && c.Some? ==>
               found == Some(ItemRule(DefaultRulesetId, x, c.value, CategoryPoints(categoryRules, c.value), false)) &&
               found.value in m.created) &&
            (s.Some? && c.Some? ==>
               found.Some? && found.value in m.updated &&
               found.value.rulesetId == s.value.rulesetId && found.value.itemCategoryId == s.value.itemCategoryId &&
               found.value.points == (if d.Some? then d.value.points else CategoryPoints(categoryRules, c.value)) &&
               found.value.isBanned == (d.Some? && d.value.isBanned)) &&
            (s.Some? && c.Null? ==> found.Null? && s.value in m.deleted) &&
            (s.Null? && d.Null? && c.Null? ==> found.Null?)
  {
    var weapons := WeaponsOrEmpty(weaponItems);
    var cands := ItemCandidates(stored, defaults, weaponItems);
    var decide := ItemDecider(stored, defaults, weapons, categoryRules);
    ItemDeciderRespectsKeys(stored, defaults, weapons, categoryRules);
    FindRow(cands, decide, ItemIdOf, x);
    if decide(x) != Skip {
      ItemCandidatesSpec(stored, defaults, weaponItems);
      DecisionRecorded(cands, decide, x);
    }
    if Find(stored, ItemIdOf, x).Some? { FindFound(stored, ItemIdOf, x); }
    if Find(defaults, ItemIdOf, x).Some? { FindFound(defaults, ItemIdOf, x); }
  }

  /** With a null weapon list and a non-empty baseline (the baseline table has three items), the
      source's merge fails: the first candidate is a baseline item, and testing it dereferences the
      null list. */
  lemma ItemMergeAsWrittenFails(stored: seq<ItemRule>, defaults: seq<ItemRule>, categoryRules: seq<ItemCategoryRule>)
    requires defaults != []
    ensures MergeItemRulesAsWritten(stored, defaults, Null, categoryRules) == Err(NullWeaponList)
  {
    ItemCandidatesSpec(stored, defaults, Null);
    assert defaults[0] in defaults;
  }

  /** When every baseline item is a weapon item with a known category, an item keeps a rule exactly
      when it is a weapon item with a known category, whatever is stored. */
  lemma ItemKeptByWeapon(stored: seq<ItemRule>, defaults: seq<ItemRule>, weapons: seq<WeaponItem>,
                         categoryRules: seq<ItemCategoryRule>, x: int)
    requires forall r :: r in defaults ==> WeaponCategoryOf(weapons, r.itemId).Some?
    ensures DecideItem(x, stored, defaults, weapons, categoryRules).Kept() <==> WeaponCategoryOf(weapons, x).Some?
  {
    ItemKept(stored, defaults, weapons, categoryRules, x);
    if Find(defaults, ItemIdOf, x).Some? { FindFound(defaults, ItemIdOf, x); }
  }

  /** A second pass that finds the rule the first pass wrote for a weapon item writes it back
      unchanged. */
  lemma ItemRuleStable(stored: seq<ItemRule>, once: seq<ItemRule>, defaults: seq<ItemRule>, weapons: seq<WeaponItem>,
                       categoryRules: seq<ItemCategoryRule>, x: int)
    requires DecideItem(x, stored, defaults, weapons, categoryRules).Kept()
    requires WeaponCategoryOf(weapons, x).Some?
    requires Find(once, ItemIdOf, x) == Some(DecideItem(x, stored, defaults, weapons, categoryRules).row)
    ensures DecideItem(x, once, defaults, weapons, categoryRules) ==
            Update(DecideItem(x, stored, defaults, weapons, categoryRules).row)
  {
  }

  /** Seeding the items twice writes the rules of seeding them once, provided every baseline item
      is a weapon item with a known category and the baseline names each item once: on both passes
      exactly the weapon items with a known category keep a rule, and the second pass rewrites each
      such rule to itself. */
  lemma ItemMergeIdempotent(stored: seq<ItemRule>, defaults: seq<ItemRule>, weaponItems: Option<seq<WeaponItem>>,
                            categoryRules: seq<ItemCategoryRule>)
    requires Distinct(KeysOf(defaults, ItemIdOf))
    requires forall r :: r in defaults ==> WeaponCategoryOf(WeaponsOrEmpty(weaponItems), r.itemId).Some?
    ensures var once := MergeItemRules(stored, defaults, weaponItems, categoryRules).rows;
            MergeItemRules(once, defaults, weaponItems, categoryRules).rows == once
  {
    var weapons := WeaponsOrEmpty(weaponItems);
    var once := MergeItemRules(stored, defaults, weaponItems, categoryRules).rows;
    var c1 := ItemCandidates(stored, defaults, weaponItems);
    var c2 := ItemCandidates(once, defaults, weaponItems);
    var d1 := ItemDecider(stored, defaults, weapons, categoryRules);
    var d2 := ItemDecider(once, defaults, weapons, categoryRules);
    ItemDeciderRespectsKeys(stored, defaults, weapons, categoryRules);
    RowKeys(c1, d1, ItemIdOf);
    KeptRepass(KeysOf(defaults, ItemIdOf), KeysOf(stored, ItemIdOf),
               if weaponItems.Some? then KeysOf(weaponItems.value, WeaponIdOf) else [], d1);
    forall x ensures d1(x).Kept() == d2(x).Kept() {
      ItemKeptByWeapon(stored, defaults, weapons, categoryRules, x);
      ItemKeptByWeapon(once, defaults, weapons, categoryRules, x);
    }
    KeptKeysSame(c2, d1, d2);
    KeptKeysMembers(c1, d1);
    forall k | k in KeptKeys(c1, d1) ensures d1(k).Kept() && d2(k).Kept() && d1(k).row == d2(k).row {
      ItemKeptByWeapon(stored, defaults, weapons, categoryRules, k);
      FindRow(c1, d1, ItemIdOf, k);
      ItemRuleStable(stored, once, defaults, weapons, categoryRules, k);
    }
    SameKeptRows(c1, d1, c2, d2);
  }

  /** Without that proviso seeding is not idempotent: a baseline item that is not a weapon item
      gets a rule on the first pass, since nothing is stored for it, and loses it on the second,
      since a stored rule for an item that is not a weapon item is removed. */
  lemma ItemMergeNotIdempotent()
    ensures var d := ItemRule(DefaultRulesetId, 7, 3, 10, false);
            var once := MergeItemRules([], [d], Some([]), []);
            var twice := MergeItemRules(once.rows, [d], Some([]), []);
            once.rows == [d] && twice.rows == [] && twice.deleted == [d]
  {
    var d := ItemRule(DefaultRulesetId, 7, 3, 10, false);
    var keys := KeysOf([d], ItemIdOf);
    assert [d][0] == d && ItemIdOf(d) == 7;
    assert keys == [7];
    assert KeysOf([], ItemIdOf) == [] && KeysOf([], WeaponIdOf) == [];
    assert ItemCandidates([], [d], Some([])) == [7];
    assert [7][1..] == [] && AppendNew([7], [7]) == [7];
    assert ItemCandidates([d], [d], Some([])) == [7];
    assert Reconcile([7], ItemDecider([], [d], [], [])) == Merge([d], [d], [], []);
    assert Reconcile([7], ItemDecider([d], [d], [], [])) == Merge([], [], [], [d]);
  }
}
