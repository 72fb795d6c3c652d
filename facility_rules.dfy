/** The facility part of seeding the default ruleset. The stored rows are visited first, then the
    baseline rows whose facility is not yet present; the intended outcome is one rule per baseline
    facility and none for any other. */
module FacilityRules {
  import opened Wrappers
  import opened Rules
  import opened Reconciliation

  /** `acc.AddRange(xs.Where(x => !acc.Any(a => a.FacilityId == x.FacilityId)))`, evaluated lazily:
      each row of `xs` whose facility is not yet present is appended. */
  function AddMissing(acc: seq<FacilityRule>, xs: seq<FacilityRule>): seq<FacilityRule>
    decreases |xs|
  {
    if xs == [] then acc
    else AddMissing(if Find(acc, FacilityIdOf, xs[0].facilityId).Some? then acc else acc + [xs[0]], xs[1..])
  }

  /** The appended rows follow `acc` unchanged, cover exactly the facilities of `acc` and `xs`, and
      each of them is the first row of `xs` for a facility that `acc` lacks. */
  lemma AddMissingSpec(acc: seq<FacilityRule>, xs: seq<FacilityRule>)
    ensures var r := AddMissing(acc, xs);
            |acc| <= |r| && r[..|acc|] == acc &&
            (forall f :: Find(r, FacilityIdOf, f).Some? <==>
                           Find(acc, FacilityIdOf, f).Some? || Find(xs, FacilityIdOf, f).Some?) &&
            (forall i :: |acc| <= i < |r| ==>
                           Find(acc, FacilityIdOf, r[i].facilityId).Null? &&
                           Find(xs, FacilityIdOf, r[i].facilityId) == Some(r[i]))
  {
    AddMissingPrefix(acc, xs);
    forall f ensures Find(AddMissing(acc, xs), FacilityIdOf, f).Some? <==>
                     Find(acc, FacilityIdOf, f).Some? || Find(xs, FacilityIdOf, f).Some? {
      AddMissingFacilities(acc, xs, f);
    }
    AddMissingAppended(acc, xs);
  }

  lemma {:induction false} AddMissingPrefix(acc: seq<FacilityRule>, xs: seq<FacilityRule>)
    ensures |acc| <= |AddMissing(acc, xs)| && AddMissing(acc, xs)[..|acc|] == acc
    decreases |xs|
  {
    if xs != [] {
      var acc' := if Find(acc, FacilityIdOf, xs[0].facilityId).Some? then acc else acc + [xs[0]];
      AddMissingPrefix(acc', xs[1..]);
      var r := AddMissing(acc, xs);
      assert r[..|acc|] == r[..|acc'|][..|acc|];
    }
  }

  /** Splitting off the first row of `xs`. */
  lemma FindCons(xs: seq<FacilityRule>, f: int)
    requires xs != []
    ensures Find(xs, FacilityIdOf, f) == if xs[0].facilityId == f then Some(xs[0]) else Find(xs[1..], FacilityIdOf, f)
  {
  }

  lemma {:induction false} AddMissingFacilities(acc: seq<FacilityRule>, xs: seq<FacilityRule>, f: int)
    ensures Find(AddMissing(acc, xs), FacilityIdOf, f).Some? <==>
            Find(acc, FacilityIdOf, f).Some? || Find(xs, FacilityIdOf, f).Some?
    decreases |xs|
  {
    if xs != [] {
      var x := xs[0];
      var acc' := if Find(acc, FacilityIdOf, x.facilityId).Some? then acc else acc + [x];
      AddMissingFacilities(acc', xs[1..], f);
      FindCons(xs, f);
      if acc' != acc { FindAppend(acc, [x], FacilityIdOf, f); }
    }
  }

  lemma {:induction false} AddMissingAppended(acc: seq<FacilityRule>, xs: seq<FacilityRule>)
    ensures forall i :: |acc| <= i < |AddMissing(acc, xs)| ==>
              Find(acc, FacilityIdOf, AddMissing(acc, xs)[i].facilityId).Null? &&
              Find(xs, FacilityIdOf, AddMissing(acc, xs)[i].facilityId) == Some(AddMissing(acc, xs)[i])
    decreases |xs|
  {
    if xs != [] {
      var x := xs[0];
      var acc' := if Find(acc, FacilityIdOf, x.facilityId).Some? then acc else acc + [x];
      AddMissingAppended(acc', xs[1..]);
      AddMissingPrefix(acc', xs[1..]);
      var r := AddMissing(acc, xs);
      forall i | |acc| <= i < |r|
        ensures Find(acc, FacilityIdOf, r[i].facilityId).Null?
        ensures Find(xs, FacilityIdOf, r[i].facilityId) == Some(r[i])
      {
        var f := r[i].facilityId;
        FindCons(xs, f);
        if i == |acc| && acc' != acc {
          assert r[i] == acc'[i] == x;
        } else {
          assert |acc'| <= i;
          if acc' != acc { FindAppend(acc, [x], FacilityIdOf, f); }
        }
      }
    }
  }

  /** The rows the loop visits: the stored rows, then the missing baseline rows. */
  function FacilityCandidates(stored: seq<FacilityRule>, defaults: seq<FacilityRule>): seq<FacilityRule> {
    AddMissing(stored, defaults)
  }

  /** What happens to the visited row `c`. A stored row with a baseline rule is kept as stored; a
      stored row without one is removed (the row itself: when stored facility ids are distinct it is
      also the first stored row of its facility); a baseline row not yet stored is inserted. */
  function DecideFacility(c: FacilityRule, stored: seq<FacilityRule>, defaults: seq<FacilityRule>): Decision<FacilityRule> {
    var storeEntity := Find(stored, FacilityIdOf, c.facilityId);
    var defaultEntity := Find(defaults, FacilityIdOf, c.facilityId);
    if storeEntity.Null? then
      if defaultEntity.Some? then Create(defaultEntity.value.(rulesetId := DefaultRulesetId)) else Skip
    else if defaultEntity.Null? then Delete(c)
    else Retain(c)
  }

  function FacilityDecider(stored: seq<FacilityRule>, defaults: seq<FacilityRule>): FacilityRule -> Decision<FacilityRule> {
    c => DecideFacility(c, stored, defaults)
  }

  /** The facility merge with the visited list left intact while it is walked. */
  function MergeFacilityRules(stored: seq<FacilityRule>, defaults: seq<FacilityRule>): Merge<FacilityRule> {
    Reconcile(FacilityCandidates(stored, defaults), FacilityDecider(stored, defaults))
  }

  datatype FacilityFault = CollectionModifiedDuringEnumeration

  /** The facility merge as the source has it: removing a row from the list being enumerated makes
      the enumeration fail at its next step, so any stored row without a baseline rule ends the
      seeding pass with an error. */
  function MergeFacilityRulesAsWritten(stored: seq<FacilityRule>, defaults: seq<FacilityRule>): Result<Merge<FacilityRule>, FacilityFault> {
    if exists r :: r in stored && Find(defaults, FacilityIdOf, r.facilityId).Null? then Err(CollectionModifiedDuringEnumeration)
    else Ok(MergeFacilityRules(stored, defaults))
  }

  /** The loop of the seeding pass over facilities, walking a snapshot of the visited list. */
  method ReconcileFacilityRules(stored: seq<FacilityRule>, defaults: seq<FacilityRule>)
    returns (m: Merge<FacilityRule>)
    ensures m == MergeFacilityRules(stored, defaults)
  {
    var allFacilityRules := AddMissing(stored, defaults);
    ghost var decide := FacilityDecider(stored, defaults);
    var all, created, deleted := [], [], [];
    var i := 0;
    while i < |allFacilityRules|
      invariant 0 <= i <= |allFacilityRules|
      invariant Merge(all, created, [], deleted) == Reconcile(allFacilityRules[..i], decide)
    {
      var facilityRule := allFacilityRules[i];
      var storeEntity := Find(stored, FacilityIdOf, facilityRule.facilityId);
      var defaultEntity := Find(defaults, FacilityIdOf, facilityRule.facilityId);
      ReconcileStep(allFacilityRules, i, decide);
      assert decide(facilityRule) == DecideFacility(facilityRule, stored, defaults);
      if storeEntity.Null? {
        if defaultEntity.Some? {
          var entity := defaultEntity.value.(rulesetId := DefaultRulesetId);
          created := created + [entity];
          all := all + [entity];
        }
      } else if defaultEntity.Null? {
        deleted := deleted + [facilityRule];
      } else {
        all := all + [facilityRule];
      }
      i := i + 1;
    }
    assert allFacilityRules[..i] == allFacilityRules;
    m := Merge(all, created, [], deleted);
  }

  /** Each visited row's decision keeps a row of the same facility. */
  lemma FacilityDecisionKeys(stored: seq<FacilityRule>, defaults: seq<FacilityRule>, c: FacilityRule)
    ensures var d := DecideFacility(c, stored, defaults);
            d.Kept() ==> d.row.facilityId == c.facilityId
    ensures DecideFacility(c, stored, defaults).Kept() <==> Find(defaults, FacilityIdOf, c.facilityId).Some?
  {
    if Find(defaults, FacilityIdOf, c.facilityId).Some? { FindFound(defaults, FacilityIdOf, c.facilityId); }
  }

  /** The intended outcome: the result has a rule for a facility exactly when the baseline has one. */
  lemma FacilityIdsMatchDefaults(stored: seq<FacilityRule>, defaults: seq<FacilityRule>)
    ensures forall f :: f in KeysOf(MergeFacilityRules(stored, defaults).rows, FacilityIdOf) <==>
                        f in KeysOf(defaults, FacilityIdOf)
  {
    var rows := MergeFacilityRules(stored, defaults).rows;
    forall f ensures f in KeysOf(rows, FacilityIdOf) <==> f in KeysOf(defaults, FacilityIdOf) {
      KeysOfFind(rows, FacilityIdOf, f);
      KeysOfFind(defaults, FacilityIdOf, f);
      if Find(rows, FacilityIdOf, f).Some? {
        ResultFacilityHasDefault(stored, defaults, f);
      }
      if Find(defaults, FacilityIdOf, f).Some? {
        DefaultFacilityHasResult(stored, defaults, f);
      }
    }
  }

  lemma ResultFacilityHasDefault(stored: seq<FacilityRule>, defaults: seq<FacilityRule>, f: int)
    requires Find(MergeFacilityRules(stored, defaults).rows, FacilityIdOf, f).Some?
    ensures Find(defaults, FacilityIdOf, f).Some?
  {
    var cands := FacilityCandidates(stored, defaults);
    var decide := FacilityDecider(stored, defaults);
    var rows := MergeFacilityRules(stored, defaults).rows;
    Outcomes(cands, decide);
    FindFound(rows, FacilityIdOf, f);
    var c :| c in cands && decide(c).Kept() && decide(c).row == Find(rows, FacilityIdOf, f).value;
    FacilityDecisionKeys(stored, defaults, c);
  }

  lemma DefaultFacilityHasResult(stored: seq<FacilityRule>, defaults: seq<FacilityRule>, f: int)
    requires Find(defaults, FacilityIdOf, f).Some?
    ensures Find(MergeFacilityRules(stored, defaults).rows, FacilityIdOf, f).Some?
  {
    var cands := FacilityCandidates(stored, defaults);
    var decide := FacilityDecider(stored, defaults);
    var rows := MergeFacilityRules(stored, defaults).rows;
    AddMissingSpec(stored, defaults);
    var c := Find(cands, FacilityIdOf, f).value;
    FindFound(cands, FacilityIdOf, f);
    FacilityDecisionKeys(stored, defaults, c);
    Outcomes(cands, decide);
    assert decide(c).row in rows;
    var j :| 0 <= j < |rows| && rows[j] == decide(c).row;
    assert FacilityIdOf(rows[j]) == f;
  }

  /** A stored row is visited, and its decision is made with its own facility stored. */
  lemma StoredVisited(stored: seq<FacilityRule>, defaults: seq<FacilityRule>, r: FacilityRule)
    requires r in stored
    ensures r in FacilityCandidates(stored, defaults)
    ensures DecideFacility(r, stored, defaults) ==
            if Find(defaults, FacilityIdOf, r.facilityId).Some? then Retain(r) else Delete(r)
  {
    AddMissingSpec(stored, defaults);
    var i :| 0 <= i < |stored| && stored[i] == r;
    assert FacilityCandidates(stored, defaults)[i] == r;
  }

  /** A visited row is a stored row, or a baseline row whose facility has no stored row. */
  lemma VisitedRows(stored: seq<FacilityRule>, defaults: seq<FacilityRule>, c: FacilityRule)
    requires c in FacilityCandidates(stored, defaults)
    ensures c in stored || Find(stored, FacilityIdOf, c.facilityId).Null?
  {
    AddMissingSpec(stored, defaults);
    var cands := FacilityCandidates(stored, defaults);
    var j :| 0 <= j < |cands| && cands[j] == c;
    if j < |stored| {
      assert c == cands[..|stored|][j];
    }
  }

  /** Stored rows with a baseline rule are kept exactly as stored and not removed. */
  lemma FacilityStoredKept(stored: seq<FacilityRule>, defaults: seq<FacilityRule>, r: FacilityRule)
    requires r in stored && Find(defaults, FacilityIdOf, r.facilityId).Some?
    ensures r in MergeFacilityRules(stored, defaults).rows && r !in MergeFacilityRules(stored, defaults).deleted
  {
    var cands := FacilityCandidates(stored, defaults);
    var decide := FacilityDecider(stored, defaults);
    StoredVisited(stored, defaults, r);
    Outcomes(cands, decide);
    forall c | c in cands ensures decide(c) != Delete(r) {
      if decide(c) == Delete(r) {
        VisitedRows(stored, defaults, c);
      }
    }
  }

  /** Stored rows without a baseline rule are removed and have no place in the result. */
  lemma FacilityStoredRemoved(stored: seq<FacilityRule>, defaults: seq<FacilityRule>, r: FacilityRule)
    requires r in stored && Find(defaults, FacilityIdOf, r.facilityId).Null?
    ensures r !in MergeFacilityRules(stored, defaults).rows && r in MergeFacilityRules(stored, defaults).deleted
  {
    var cands := FacilityCandidates(stored, defaults);
    var decide := FacilityDecider(stored, defaults);
    StoredVisited(stored, defaults, r);
    Outcomes(cands, decide);
    forall c | c in cands && decide(c).Kept() ensures decide(c).row != r {
      FacilityDecisionKeys(stored, defaults, c);
    }
  }

  /** Nothing is updated, and every row of the result is a stored row or an inserted one. */
  lemma FacilityRowsOrigin(stored: seq<FacilityRule>, defaults: seq<FacilityRule>)
    ensures MergeFacilityRules(stored, defaults).updated == []
    ensures forall r :: r in MergeFacilityRules(stored, defaults).rows ==>
                        r in stored || r in MergeFacilityRules(stored, defaults).created
  {
    var cands := FacilityCandidates(stored, defaults);
    var decide := FacilityDecider(stored, defaults);
    Outcomes(cands, decide);
    NoUpdates(cands, decide);
    forall r | r in MergeFacilityRules(stored, defaults).rows
      ensures r in stored || r in MergeFacilityRules(stored, defaults).created
    {
      var c :| c in cands && decide(c).Kept() && decide(c).row == r;
      VisitedRows(stored, defaults, c);
    }
  }

  /** A baseline row whose facility has no stored row is inserted, stamped with the seeded
      ruleset's id, when it is the first baseline row of its facility. */
  lemma FacilityDefaultsInserted(stored: seq<FacilityRule>, defaults: seq<FacilityRule>, f: int)
    requires Find(defaults, FacilityIdOf, f).Some? && Find(stored, FacilityIdOf, f).Null?
    ensures var m := MergeFacilityRules(stored, defaults);
            var d := Find(defaults, FacilityIdOf, f).value;
            d.(rulesetId := DefaultRulesetId) in m.created && d.(rulesetId := DefaultRulesetId) in m.rows
  {
    var cands := FacilityCandidates(stored, defaults);
    var decide := FacilityDecider(stored, defaults);
    AddMissingSpec(stored, defaults);
    FindFound(cands, FacilityIdOf, f);
    var c := Find(cands, FacilityIdOf, f).value;
    FindFound(defaults, FacilityIdOf, f);
    DecisionRecorded(cands, decide, c);
    Outcomes(cands, decide);
  }

  /** Nothing is appended when every facility of `xs` already has a row in `acc`. */
  lemma {:induction false} AddMissingNothing(acc: seq<FacilityRule>, xs: seq<FacilityRule>)
    requires forall x :: x in xs ==> Find(acc, FacilityIdOf, x.facilityId).Some?
    ensures AddMissing(acc, xs) == acc
    decreases |xs|
  {
    if xs != [] {
      assert xs[0] in xs;
      AddMissingNothing(acc, xs[1..]);
    }
  }

  /** Running the facility merge again on its own result changes no rule: every resulting row
      has a baseline rule, and every baseline facility already has a row, so the second pass
      visits exactly the result and keeps each row as it is. */
  lemma FacilityMergeIdempotent(stored: seq<FacilityRule>, defaults: seq<FacilityRule>)
    ensures var once := MergeFacilityRules(stored, defaults).rows;
            MergeFacilityRules(once, defaults).rows == once
  {
    var once := MergeFacilityRules(stored, defaults).rows;
    forall x | x in defaults ensures Find(once, FacilityIdOf, x.facilityId).Some? {
      FindMember(defaults, FacilityIdOf, x);
      DefaultFacilityHasResult(stored, defaults, x.facilityId);
    }
    forall c | c in once ensures Find(defaults, FacilityIdOf, c.facilityId).Some? {
      FindMember(once, FacilityIdOf, c);
      ResultFacilityHasDefault(stored, defaults, c.facilityId);
    }
    FacilityRepass(once, defaults);
  }

  /** Rows that cover exactly baseline facilities, all of them, come out of the merge unchanged. */
  lemma FacilityRepass(rows: seq<FacilityRule>, defaults: seq<FacilityRule>)
    requires forall x :: x in defaults ==> Find(rows, FacilityIdOf, x.facilityId).Some?
    requires forall c :: c in rows ==> Find(defaults, FacilityIdOf, c.facilityId).Some?
    ensures MergeFacilityRules(rows, defaults).rows == rows
  {
    AddMissingNothing(rows, defaults);
    var decide := FacilityDecider(rows, defaults);
    forall c | c in rows ensures decide(c) == Retain(c) {
      FindMember(rows, FacilityIdOf, c);
    }
    RowsWhenAllKept(rows, decide);
    assert Reconcile(rows, decide).rows == rows;
  }

  /** The source's merge fails exactly when some stored row has no baseline rule; otherwise it
      removes nothing and agrees with the corrected merge. */
  lemma FacilityAsWrittenFails(stored: seq<FacilityRule>, defaults: seq<FacilityRule>)
    ensures MergeFacilityRulesAsWritten(stored, defaults).Err? <==>
              exists r :: r in stored && r.facilityId !in KeysOf(defaults, FacilityIdOf)
    ensures MergeFacilityRulesAsWritten(stored, defaults).Ok? ==>
              MergeFacilityRulesAsWritten(stored, defaults).value.deleted == []
  {
    forall r | r in stored ensures r.facilityId in KeysOf(defaults, FacilityIdOf) <==> Find(defaults, FacilityIdOf, r.facilityId).Some? {
      KeysOfFind(defaults, FacilityIdOf, r.facilityId);
    }
    if MergeFacilityRulesAsWritten(stored, defaults).Ok? {
      var cands := FacilityCandidates(stored, defaults);
      forall c | c in cands ensures !FacilityDecider(stored, defaults)(c).Delete? {
        VisitedRows(stored, defaults, c);
      }
      NoDeletes(cands, FacilityDecider(stored, defaults));
    }
  }

  /** The baseline table is one of the failing inputs: a stored rule for a facility it does not
      list stops the seeding pass. */
  lemma FacilityAsWrittenCounterexample()
    ensures MergeFacilityRulesAsWritten([FacilityRule(1, 999, 1)], [FacilityRule(0, 219, 2420)]).Err?
    ensures MergeFacilityRules([FacilityRule(1, 999, 1)], [FacilityRule(0, 219, 2420)]).rows ==
            [FacilityRule(1, 219, 2420)]
  {
    var stored := [FacilityRule(1, 999, 1)];
    var defaults := [FacilityRule(0, 219, 2420)];
    assert stored[0] in stored;
    assert AddMissing(stored, defaults) == stored + defaults;
    assert (stored + defaults)[..1] == stored;
  }
}
