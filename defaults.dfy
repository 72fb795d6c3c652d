/** The code-defined baseline rules and the row constructors of the ruleset manager. A default row
    is built without a ruleset id (C#'s default, 0); the merge stamps it with the seeded ruleset's
    id when it inserts it. */
module Defaults {
  import opened Wrappers
  import opened Rules

  /** An action rule whose domain is classified from its action type. */
  function BuildActionRule(rulesetId: int, t: ActionType, points: int, defer: bool,
                           domainOf: ActionType -> Domain): (r: ActionRule)
    ensures r.actionType == t && r.domain == domainOf(t)
    ensures r.rulesetId == rulesetId && r.points == points && r.deferToItemCategoryRules == defer
  {
    ActionRule(rulesetId, t, points, defer, domainOf(t))
  }

  function DefaultActionRules(domainOf: ActionType -> Domain): seq<ActionRule> {
    [ BuildActionRule(0, FirstBaseCapture, 9, false, domainOf),
      BuildActionRule(0, SubsequentBaseCapture, 18, false, domainOf),
      BuildActionRule(0, InfantryKillMax, 6, false, domainOf),
      BuildActionRule(0, InfantryTeamkillInfantry, -2, false, domainOf),
      BuildActionRule(0, InfantryTeamkillMax, -8, false, domainOf),
      BuildActionRule(0, InfantrySuicide, -2, false, domainOf),
      BuildActionRule(0, MaxTeamkillMax, -8, false, domainOf),
      BuildActionRule(0, MaxTeamkillInfantry, -2, false, domainOf),
      BuildActionRule(0, MaxSuicide, -8, false, domainOf),
      BuildActionRule(0, MaxKillInfantry, 0, false, domainOf),
      BuildActionRule(0, MaxKillMax, 0, false, domainOf),
      BuildActionRule(0, InfantryKillInfantry, 0, true, domainOf) ]
  }

  function DefaultItemCategoryRules(): seq<ItemCategoryRule> {
    [ ItemCategoryRule(0, 2, 1, false, true),     // Knife
      ItemCategoryRule(0, 3, 1, false, false),    // Pistol
      ItemCategoryRule(0, 5, 1, false, false),    // SMG
      ItemCategoryRule(0, 6, 1, false, false),    // LMG
      ItemCategoryRule(0, 7, 1, false, false),    // Assault Rifle
      ItemCategoryRule(0, 8, 1, false, false),    // Carbine
      ItemCategoryRule(0, 11, 1, false, false),   // Sniper Rifle
      ItemCategoryRule(0, 12, 1, false, false),   // Scout Rifle
      ItemCategoryRule(0, 19, 1, false, false),   // Battle Rifle
      ItemCategoryRule(0, 24, 1, false, false),   // Crossbow
      ItemCategoryRule(0, 100, 1, false, false),  // Infantry
      ItemCategoryRule(0, 102, 1, false, false),  // Infantry Weapons
      ItemCategoryRule(0, 157, 1, false, false) ] // Hybrid Rifle
  }

  function DefaultItemRules(): seq<ItemRule> {
    [ ItemRule(0, 271, 2, 0, true),   // Carver
      ItemRule(0, 285, 2, 0, true),   // Ripper
      ItemRule(0, 286, 2, 0, true) ]  // Lumine Edge
  }

  function DefaultFacilityRules(): seq<FacilityRule> {
    [ // Hossin
      FacilityRule(0, 266000, 4106), FacilityRule(0, 272000, 4112), FacilityRule(0, 283000, 4123),
      FacilityRule(0, 286000, 4126), FacilityRule(0, 287070, 4266), FacilityRule(0, 302030, 4173),
      FacilityRule(0, 303030, 4183), FacilityRule(0, 305010, 4201), FacilityRule(0, 307010, 4221),
      // Esamir
      FacilityRule(0, 239000, 18010), FacilityRule(0, 244610, 18067), FacilityRule(0, 244620, 18068),
      FacilityRule(0, 252020, 18050), FacilityRule(0, 254010, 18055),
      // Indar
      FacilityRule(0, 219, 2420), FacilityRule(0, 230, 2431), FacilityRule(0, 3430, 2456),
      FacilityRule(0, 3620, 2466),
      // Amerish
      FacilityRule(0, 210002, 6357) ]
  }

  /** The baseline names each item at most once. */
  lemma DefaultItemIdsDistinct()
    ensures Distinct(KeysOf(DefaultItemRules(), ItemIdOf))
  {
    var s := DefaultItemRules();
    var keys := KeysOf(s, ItemIdOf);
    assert ItemIdOf(s[0]) == 271 && ItemIdOf(s[1]) == 285 && ItemIdOf(s[2]) == 286;
    assert keys[0] == 271 && keys[1] == 285 && keys[2] == 286;
  }

  /** The baseline action table has one rule for each of twelve action types. */
  lemma DefaultActionTypesDistinct(domainOf: ActionType -> Domain)
    ensures |DefaultActionRules(domainOf)| == 12
    ensures Distinct(KeysOf(DefaultActionRules(domainOf), TypeOf))
  {
    var keys := KeysOf(DefaultActionRules(domainOf), TypeOf);
    assert keys == [FirstBaseCapture, SubsequentBaseCapture, InfantryKillMax, InfantryTeamkillInfantry,
                    InfantryTeamkillMax, InfantrySuicide, MaxTeamkillMax, MaxTeamkillInfantry, MaxSuicide,
                    MaxKillInfantry, MaxKillMax, InfantryKillInfantry];
  }

  /** Every baseline action rule is built without a ruleset id and with its domain classified from
      its action type, and only the rule for infantry-on-infantry kills defers to the item-category
      rules. */
  lemma DefaultActionRulesBuilt(domainOf: ActionType -> Domain)
    ensures forall r :: r in DefaultActionRules(domainOf) ==>
              r.rulesetId == 0 && r.domain == domainOf(r.actionType) &&
              (r.deferToItemCategoryRules <==> r.actionType == InfantryKillInfantry)
  {
    var s := DefaultActionRules(domainOf);
    forall i | 0 <= i < 11
      ensures s[i].rulesetId == 0 && s[i].domain == domainOf(s[i].actionType)
      ensures !s[i].deferToItemCategoryRules && s[i].actionType != InfantryKillInfantry
    {
    }
    assert s[11] == ActionRule(0, InfantryKillInfantry, 0, true, domainOf(InfantryKillInfantry));
    forall r | r in s
      ensures r.rulesetId == 0 && r.domain == domainOf(r.actionType) &&
              (r.deferToItemCategoryRules <==> r.actionType == InfantryKillInfantry)
    {
      var i :| 0 <= i < |s| && s[i] == r;
    }
  }

  /** The baseline rule for infantry-on-infantry kills is worth nothing and defers to the
      item-category rules. */
  lemma DefaultInfantryKillInfantry(domainOf: ActionType -> Domain)
    ensures Find(DefaultActionRules(domainOf), TypeOf, InfantryKillInfantry) ==
            Some(ActionRule(0, InfantryKillInfantry, 0, true, domainOf(InfantryKillInfantry)))
  {
    var s := DefaultActionRules(domainOf);
    assert |s| == 12;
    assert forall i | 0 <= i < 11 :: TypeOf(s[i]) != InfantryKillInfantry;
    assert Find(s[..11], TypeOf, InfantryKillInfantry) == Null;
    assert s == s[..11] + [s[11]];
    FindAppend(s[..11], [s[11]], TypeOf, InfantryKillInfantry);
  }
}
