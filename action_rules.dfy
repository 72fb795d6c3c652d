/** The action-rule part of seeding the default ruleset: every declared action type except the
    control actions gets exactly one rule, and stored rules for any other type are removed. */
module ActionRules {
  import opened Wrappers
  import opened Rules
  import opened Reconciliation
  import opened Defaults

  /** The declared action types other than None, Login and Logout, in declaration order. */
  function CoveredTypes(declared: seq<ActionType>): (r: seq<ActionType>)
    ensures forall t :: t in r <==> t in declared && !IsControlAction(t)
    ensures Distinct(declared) ==> Distinct(r)
  {
    if declared == [] then []
    else
      var rest := CoveredTypes(declared[1..]);
      assert Distinct(declared) ==> Distinct(declared[1..]) && declared[0] !in declared[1..] by {
        if Distinct(declared) {
          forall i, j | 0 <= i < j < |declared[1..]| ensures declared[1..][i] != declared[1..][j] {
            assert declared[1..][i] == declared[i + 1] && declared[1..][j] == declared[j + 1];
          }
          forall i | 0 <= i < |declared[1..]| ensures declared[1..][i] != declared[0] {
            assert declared[1..][i] == declared[i + 1];
          }
        }
      }
      (if IsControlAction(declared[0]) then [] else [declared[0]]) + rest
  }

  /** The types of stored rules that are not covered, in stored order. The list is built before it
      is appended, so a type stored twice is listed twice. */
  function StaleTypes(covered: seq<ActionType>, stored: seq<ActionRule>): (r: seq<ActionType>)
    ensures forall t :: t in r <==> t !in covered && exists s :: s in stored && s.actionType == t
  {
    if stored == [] then []
    else
      (if stored[0].actionType in covered then [] else [stored[0].actionType]) +
      StaleTypes(covered, stored[1..])
  }

  lemma {:induction false} NoStaleTypes(covered: seq<ActionType>, stored: seq<ActionRule>)
    requires forall r :: r in stored ==> r.actionType in covered
    ensures StaleTypes(covered, stored) == []
  {
    if stored != [] {
      NoStaleTypes(covered, stored[1..]);
    }
  }

  /** What happens to the rule for action type `t`. */
  function DecideAction(t: ActionType, stored: seq<ActionRule>, defaults: seq<ActionRule>,
                        covered: seq<ActionType>, domainOf: ActionType -> Domain): Decision<ActionRule>
  {
    var storeEntity := Find(stored, TypeOf, t);
    var defaultEntity := Find(defaults, TypeOf, t);
    if storeEntity.Null? then
      if defaultEntity.Some? then Create(defaultEntity.value.(rulesetId := DefaultRulesetId))
      else Create(BuildActionRule(DefaultRulesetId, t, 0, false, domainOf))
    else if storeEntity.value.actionType in covered then
      if defaultEntity.Some? then
        Update(storeEntity.value.(points := defaultEntity.value.points,
                                  deferToItemCategoryRules := defaultEntity.value.deferToItemCategoryRules,
                                  domain := defaultEntity.value.domain))
      else
        Update(storeEntity.value.(points := 0, domain := domainOf(storeEntity.value.actionType)))
    else Delete(storeEntity.value)
  }

  function ActionDecider(stored: seq<ActionRule>, defaults: seq<ActionRule>,
                         covered: seq<ActionType>, domainOf: ActionType -> Domain): ActionType -> Decision<ActionRule>
  {
    t => DecideAction(t, stored, defaults, covered, domainOf)
  }

  /** The action-rule merge: covered types first, then the stale stored types. */
  function MergeActionRules(stored: seq<ActionRule>, defaults: seq<ActionRule>, catalog: Catalog): Merge<ActionRule> {
    var covered := CoveredTypes(catalog.actionTypes);
    Reconcile(covered + StaleTypes(covered, stored), ActionDecider(stored, defaults, covered, catalog.domainOf))
  }

  /** The seeding pass over action types: list the covered types followed by the stale stored
      ones, then visit them. */
  method ReconcileActionRules(stored: seq<ActionRule>, defaults: seq<ActionRule>, catalog: Catalog)
    returns (m: Merge<ActionRule>)
    ensures m == MergeActionRules(stored, defaults, catalog)
  {
    var allActionEnumValues := CoveredTypes(catalog.actionTypes);
    var allActionValues := allActionEnumValues + StaleTypes(allActionEnumValues, stored);
    m := VisitActionTypes(allActionValues, stored, defaults, allActionEnumValues, catalog.domainOf);
  }

  /** The loop of the seeding pass over action types. */
  method VisitActionTypes(allActionValues: seq<ActionType>, stored: seq<ActionRule>, defaults: seq<ActionRule>,
                          covered: seq<ActionType>, domainOf: ActionType -> Domain)
    returns (m: Merge<ActionRule>)
    ensures m == Reconcile(allActionValues, ActionDecider(stored, defaults, covered, domainOf))
  {
    ghost var decide := ActionDecider(stored, defaults, covered, domainOf);
    var all, created, updated, deleted := [], [], [], [];
    var i := 0;
    while i < |allActionValues|
      invariant 0 <= i <= |allActionValues|
      invariant Merge(all, created, updated, deleted) == Reconcile(allActionValues[..i], decide)
    {
      var actionType := allActionValues[i];
      var storeEntity := Find(stored, TypeOf, actionType);
      var defaultEntity := Find(defaults, TypeOf, actionType);
      var isValidAction := storeEntity.Null? || storeEntity.value.actionType in covered;
      ReconcileStep(allActionValues, i, decide);
      assert decide(actionType) == DecideAction(actionType, stored, defaults, covered, domainOf);
      if storeEntity.Null? {
        var entity;
        if defaultEntity.Some? {
          entity := defaultEntity.value.(rulesetId := DefaultRulesetId);
        } else {
          entity := BuildActionRule(DefaultRulesetId, actionType, 0, false, domainOf);
        }
        created := created + [entity];
        all := all + [entity];
      } else if isValidAction {
        var entity := storeEntity.value;
        if defaultEntity.Some? {
          entity := entity.(points := defaultEntity.value.points,
                            deferToItemCategoryRules := defaultEntity.value.deferToItemCategoryRules,
                            domain := defaultEntity.value.domain);
        } else {
          entity := entity.(points := 0, domain := domainOf(entity.actionType));
        }
        updated := updated + [entity];
        all := all + [entity];
      } else {
        deleted := deleted + [storeEntity.value];
      }
      i := i + 1;
    }
    assert allActionValues[..i] == allActionValues;
    m := Merge(all, created, updated, deleted);
  }

  lemma ActionDeciderRespectsKeys(stored: seq<ActionRule>, defaults: seq<ActionRule>,
                                  covered: seq<ActionType>, domainOf: ActionType -> Domain)
    ensures KeyRespecting(ActionDecider(stored, defaults, covered, domainOf), TypeOf)
  {
    forall t | ActionDecider(stored, defaults, covered, domainOf)(t).Kept()
      ensures TypeOf(ActionDecider(stored, defaults, covered, domainOf)(t).row) == t
    {
      if Find(stored, TypeOf, t).Some? { FindFound(stored, TypeOf, t); }
      if Find(defaults, TypeOf, t).Some? { FindFound(defaults, TypeOf, t); }
    }
  }

  /** Covered types always keep a row; stale types never do. */
  lemma DecisionsSplit(stored: seq<ActionRule>, defaults: seq<ActionRule>, catalog: Catalog)
    ensures var covered := CoveredTypes(catalog.actionTypes);
            var decide := ActionDecider(stored, defaults, covered, catalog.domainOf);
            (forall t :: t in covered ==> decide(t).Kept()) &&
            (forall t :: t in StaleTypes(covered, stored) ==> decide(t).Delete?)
  {
    var covered := CoveredTypes(catalog.actionTypes);
    var decide := ActionDecider(stored, defaults, covered, catalog.domainOf);
    forall t | t in covered || t in StaleTypes(covered, stored)
      ensures t in covered ==> decide(t).Kept()
      ensures t in StaleTypes(covered, stored) ==> decide(t).Delete?
    {
      if Find(stored, TypeOf, t).Some? { FindFound(stored, TypeOf, t); }
    }
  }

  /** Coverage: the merged rules are, in declaration order, one rule per declared action type other
      than None, Login and Logout; when the enum declares each value once, no type has two rules. */
  lemma ActionCoverage(stored: seq<ActionRule>, defaults: seq<ActionRule>, catalog: Catalog)
    ensures KeysOf(MergeActionRules(stored, defaults, catalog).rows, TypeOf) == CoveredTypes(catalog.actionTypes)
    ensures forall t :: t in KeysOf(MergeActionRules(stored, defaults, catalog).rows, TypeOf) <==>
                        t in catalog.actionTypes && !IsControlAction(t)
    ensures Distinct(catalog.actionTypes) ==>
              Distinct(KeysOf(MergeActionRules(stored, defaults, catalog).rows, TypeOf))
  {
    ActionRowsByCovered(stored, defaults, catalog);
  }

  /** Deletion: a stored rule whose type is a control action or is not declared is removed and has
      no rule in the result; only such stored rules are removed. With one stored rule per type,
      every one of them is removed. */
  lemma ActionDeletion(stored: seq<ActionRule>, defaults: seq<ActionRule>, catalog: Catalog)
    ensures var m := MergeActionRules(stored, defaults, catalog);
            forall r :: r in m.deleted <==>
              r in stored && !(r.actionType in catalog.actionTypes && !IsControlAction(r.actionType)) &&
              Find(stored, TypeOf, r.actionType) == Some(r)
    ensures var m := MergeActionRules(stored, defaults, catalog);
            Distinct(KeysOf(stored, TypeOf)) ==>
              forall r :: r in stored && !(r.actionType in catalog.actionTypes && !IsControlAction(r.actionType)) ==>
                r in m.deleted && r.actionType !in KeysOf(m.rows, TypeOf)
  {
    ActionDeletedExactly(stored, defaults, catalog);
    if Distinct(KeysOf(stored, TypeOf)) {
      forall r | r in stored ensures Find(stored, TypeOf, r.actionType) == Some(r) {
        FindDistinct(stored, TypeOf, r);
      }
      ActionCoverage(stored, defaults, catalog);
    }
  }

  /** The removed rules are exactly the first stored rules of the types that are not covered. */
  lemma ActionDeletedExactly(stored: seq<ActionRule>, defaults: seq<ActionRule>, catalog: Catalog)
    ensures var m := MergeActionRules(stored, defaults, catalog);
            forall r :: r in m.deleted <==>
              r in stored && !(r.actionType in catalog.actionTypes && !IsControlAction(r.actionType)) &&
              Find(stored, TypeOf, r.actionType) == Some(r)
  {
    var covered := CoveredTypes(catalog.actionTypes);
    var stale := StaleTypes(covered, stored);
    var decide := ActionDecider(stored, defaults, covered, catalog.domainOf);
    var m := MergeActionRules(stored, defaults, catalog);
    Outcomes(covered + stale, decide);
    DecisionsSplit(stored, defaults, catalog);
    forall r | r in m.deleted
      ensures r in stored && r.actionType !in covered && Find(stored, TypeOf, r.actionType) == Some(r)
    {
      var t :| t in covered + stale && decide(t) == Delete(r);
      FindFound(stored, TypeOf, t);
    }
    forall r | r in stored && r.actionType !in covered && Find(stored, TypeOf, r.actionType) == Some(r)
      ensures r in m.deleted
    {
      assert r.actionType in stale;
      assert decide(r.actionType) == Delete(r);
    }
  }

  /** Values: the rule for a covered type. A stored rule takes points, defer flag and domain from
      the default when there is one; without a default its points become 0, its domain is
      classified again from its type and its defer flag stays as stored. A missing rule is inserted
      from the default (stamped with the seeded ruleset's id) or as a 0-point rule. */
  lemma ActionRuleValues(stored: seq<ActionRule>, defaults: seq<ActionRule>, catalog: Catalog, t: ActionType)
    requires t in catalog.actionTypes && !IsControlAction(t)
    ensures var m := MergeActionRules(stored, defaults, catalog);
            var s := Find(stored, TypeOf, t);
            var d := Find(defaults, TypeOf, t);
            var found := Find(m.rows, TypeOf, t);
            found.Some? && found.value.actionType == t &&
            (s.Some? ==> found.value in m.updated && found.value.rulesetId == s.value.rulesetId) &&
            (s.Some? && d.Some? ==>
               found.value.points == d.value.points &&
               found.value.deferToItemCategoryRules == d.value.deferToItemCategoryRules &&
               found.value.domain == d.value.domain) &&
            (s.Some? && d.Null? ==>
               found.value.points == 0 && found.value.domain == catalog.domainOf(t) &&
               found.value.deferToItemCategoryRules == s.value.deferToItemCategoryRules) &&
            (s.Null? ==> found.value in m.created) &&
            (s.Null? && d.Some? ==> found.value == d.value.(rulesetId := DefaultRulesetId)) &&
            (s.Null? && d.Null? ==> found.value == ActionRule(DefaultRulesetId, t, 0, false, catalog.domainOf(t)))
  {
    var covered := CoveredTypes(catalog.actionTypes);
    var stale := StaleTypes(covered, stored);
    var decide := ActionDecider(stored, defaults, covered, catalog.domainOf);
    ActionDeciderRespectsKeys(stored, defaults, covered, catalog.domainOf);
    FindRow(covered + stale, decide, TypeOf, t);
    Outcomes(covered + stale, decide);
    if Find(stored, TypeOf, t).Some? { FindFound(stored, TypeOf, t); }
    if Find(defaults, TypeOf, t).Some? { FindFound(defaults, TypeOf, t); }
  }

  /** The merge keeps exactly one row per covered type, in covered order. */
  lemma ActionRowsByCovered(stored: seq<ActionRule>, defaults: seq<ActionRule>, catalog: Catalog)
    ensures var covered := CoveredTypes(catalog.actionTypes);
            var decide := ActionDecider(stored, defaults, covered, catalog.domainOf);
            var rows := MergeActionRules(stored, defaults, catalog).rows;
            |rows| == |covered| && KeysOf(rows, TypeOf) == covered &&
            forall i :: 0 <= i < |covered| ==> decide(covered[i]).Kept() && rows[i] == decide(covered[i]).row
  {
    var covered := CoveredTypes(catalog.actionTypes);
    var decide := ActionDecider(stored, defaults, covered, catalog.domainOf);
    ActionDeciderRespectsKeys(stored, defaults, covered, catalog.domainOf);
    DecisionsSplit(stored, defaults, catalog);
    KeptPrefix(covered, StaleTypes(covered, stored), decide, TypeOf);
  }

  /** A covered type's merged rule is a fixed point of its own decision. */
  lemma ActionDecisionStable(stored: seq<ActionRule>, defaults: seq<ActionRule>, catalog: Catalog, t: ActionType)
    requires t in CoveredTypes(catalog.actionTypes)
    ensures var covered := CoveredTypes(catalog.actionTypes);
            var decide := ActionDecider(stored, defaults, covered, catalog.domainOf);
            var once := MergeActionRules(stored, defaults, catalog).rows;
            decide(t).Kept() &&
            ActionDecider(once, defaults, covered, catalog.domainOf)(t) == Update(decide(t).row)
  {
    var covered := CoveredTypes(catalog.actionTypes);
    var stale := StaleTypes(covered, stored);
    var decide := ActionDecider(stored, defaults, covered, catalog.domainOf);
    ActionDeciderRespectsKeys(stored, defaults, covered, catalog.domainOf);
    DecisionsSplit(stored, defaults, catalog);
    FindRow(covered + stale, decide, TypeOf, t);
    if Find(stored, TypeOf, t).Some? { FindFound(stored, TypeOf, t); }
    if Find(defaults, TypeOf, t).Some? { FindFound(defaults, TypeOf, t); }
  }

  /** Running the merge again on its own result changes no rule. */
  lemma ActionMergeIdempotent(stored: seq<ActionRule>, defaults: seq<ActionRule>, catalog: Catalog)
    ensures var once := MergeActionRules(stored, defaults, catalog).rows;
            MergeActionRules(once, defaults, catalog).rows == once
  {
    var covered := CoveredTypes(catalog.actionTypes);
    var once := MergeActionRules(stored, defaults, catalog).rows;
    var decide2 := ActionDecider(once, defaults, covered, catalog.domainOf);
    calc {
      MergeActionRules(once, defaults, catalog).rows;
      Reconcile(covered + StaleTypes(covered, once), decide2).rows;
      { ActionRepassNoStale(stored, defaults, catalog); assert covered + [] == covered; }
      Reconcile(covered, decide2).rows;
      { ActionRepassRows(stored, defaults, catalog); }
      once;
    }
  }

  /** No stored type is stale on a second pass: the first pass left rules for covered types only. */
  lemma ActionRepassNoStale(stored: seq<ActionRule>, defaults: seq<ActionRule>, catalog: Catalog)
    ensures var covered := CoveredTypes(catalog.actionTypes);
            StaleTypes(covered, MergeActionRules(stored, defaults, catalog).rows) == []
  {
    var covered := CoveredTypes(catalog.actionTypes);
    var once := MergeActionRules(stored, defaults, catalog).rows;
    ActionRowsByCovered(stored, defaults, catalog);
    forall r | r in once ensures r.actionType in covered {
      var i :| 0 <= i < |once| && once[i] == r;
      assert KeysOf(once, TypeOf)[i] == r.actionType;
    }
    NoStaleTypes(covered, once);
  }

  /** On a second pass every covered type keeps the rule the first pass wrote for it. */
  lemma ActionRepassRows(stored: seq<ActionRule>, defaults: seq<ActionRule>, catalog: Catalog)
    ensures var covered := CoveredTypes(catalog.actionTypes);
            var once := MergeActionRules(stored, defaults, catalog).rows;
            Reconcile(covered, ActionDecider(once, defaults, covered, catalog.domainOf)).rows == once
  {
    var covered := CoveredTypes(catalog.actionTypes);
    var once := MergeActionRules(stored, defaults, catalog).rows;
    var decide2 := ActionDecider(once, defaults, covered, catalog.domainOf);
    ActionRowsByCovered(stored, defaults, catalog);
    forall t | t in covered ensures decide2(t).Kept() {
      ActionDecisionStable(stored, defaults, catalog, t);
    }
    RowsWhenAllKept(covered, decide2);
    forall i | 0 <= i < |covered| ensures decide2(covered[i]).row == once[i] {
      ActionDecisionStable(stored, defaults, catalog, covered[i]);
    }
  }
}
