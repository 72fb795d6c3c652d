/** The active-ruleset controller: the slot holding the ruleset the match is scored by, the
    activation of a ruleset by id (with its change broadcast), the activation of the default
    ruleset, the refresh of the slot from the store, and the reaction to an edited ruleset.

    Each operation is first a function on a `Snapshot` of the controller's state; the class below
    runs the same steps on its fields and is proved to end in the snapshot the function gives. */
module Controller {
  import opened Wrappers
  import opened Rules

  /** Where an operation's call into the store or the message service throws, if anywhere: the
      fetch of a ruleset by id, the write of the active-ruleset id, or the broadcast. */
  datatype Fault = NoFault | FetchFails | MarkerFails | BroadcastFails

  /** The exception an operation ends with when it dereferences a null slot. */
  datatype Crash = NullReference

  /** The message announcing a new active ruleset, with the one it replaces if there was one. */
  datatype ActiveRulesetChange = ActiveRulesetChange(ruleset: Ruleset, previous: Option<Ruleset>)

  /** The controller's state: the active slot, the active-ruleset id last written to the store, and
      the change messages broadcast so far. */
  datatype Snapshot = Snapshot(active: Option<Ruleset>, activeId: Option<int>, sent: seq<ActiveRulesetChange>)

  /** The state after an operation and the ruleset it returns. */
  datatype Step = Step(state: Snapshot, result: Option<Ruleset>)

  /** The state after an operation as written and the exception it ends with, if any. */
  datatype Attempt = Attempt(state: Snapshot, thrown: Option<Crash>)

  /** The active-ruleset id written to the store names the ruleset in the slot. */
  predicate Synced(s: Snapshot) {
    s.active.Some? ==> s.activeId == Some(s.active.value.id)
  }

  function IsCustomDefaultOf(r: Ruleset): bool { r.isCustomDefault }
  function IsDefaultOf(r: Ruleset): bool { r.isDefault }

  /** Activating a ruleset by id. Asking for the ruleset already in the slot returns it and does
      nothing else. Otherwise the ruleset is fetched; if it is missing, or the fetch or the id write
      throws, nothing changes and the result is null. Otherwise the id is written, the slot takes
      the ruleset and the change is broadcast; a throwing broadcast leaves the new slot and id in
      place, sends nothing and returns null. */
  function Activate(s: Snapshot, store: seq<Ruleset>, id: int, fault: Fault): (st: Step)
    ensures Synced(s) ==> Synced(st.state)
    ensures st.state.sent == s.sent ||
            (st.state.active.Some? && st.state.sent == s.sent + [ActiveRulesetChange(st.state.active.value, s.active)])
  {
    if s.active.Some? && s.active.value.id == id then Step(s, s.active)
    else if fault == FetchFails then Step(s, Null)
    else
      var found := Find(store, RulesetIdOf, id);
      if found.Null? then Step(s, Null)
      else if fault == MarkerFails then Step(s, Null)
      else
        var s' := s.(activeId := Some(id), active := found);
        if fault == BroadcastFails then Step(s', Null)
        else Step(s'.(sent := s.sent + [ActiveRulesetChange(found.value, s.active)]), found)
  }

  /** Refreshing the slot: the ruleset in it is fetched again by its id and, when found, replaces
      it, and its id is written to the store. An empty slot, a missing ruleset or a throwing fetch
      leave everything as it was; a throwing id write leaves the refreshed slot in place. */
  function SetUp(s: Snapshot, store: seq<Ruleset>, fault: Fault): (r: Snapshot)
    ensures Synced(s) ==> Synced(r)
    ensures r.sent == s.sent
  {
    if s.active.Null? || fault == FetchFails then s
    else
      var temp := Find(store, RulesetIdOf, s.active.value.id);
      if temp.Null? then s
      else if fault == MarkerFails then s.(active := temp)
      else s.(active := temp, activeId := Some(temp.value.id))
  }

  /** The ruleset the default activation picks: the first one flagged as the custom default, or
      else the first one flagged as the default. */
  function DefaultTarget(store: seq<Ruleset>): (r: Option<Ruleset>)
    ensures r.Null? <==> forall i :: 0 <= i < |store| ==> !store[i].isCustomDefault && !store[i].isDefault
    ensures r.Some? ==> r.value in store
    ensures r.Some? ==> r.value.isCustomDefault || (r.value.isDefault && forall x :: x in store ==> !x.isCustomDefault)
  {
    var custom := Find(store, IsCustomDefaultOf, true);
    if custom.Some? then custom else Find(store, IsDefaultOf, true)
  }

  /** Activating the default ruleset; the slot is then set to what the activation returned, and
      that is the result. Nothing changes when the store has no default ruleset. */
  function ActivateDefault(s: Snapshot, store: seq<Ruleset>, fault: Fault): (st: Step)
    ensures Synced(s) ==> Synced(st.state)
    ensures st.result == st.state.active || (DefaultTarget(store).Null? && st.state == s)
  {
    var target := DefaultTarget(store);
    if target.Null? then Step(s, Null)
    else
      var step := Activate(s, store, target.value.id, fault);
      Step(step.state.(active := step.result), step.result)
  }

  /** The default activation as written: after storing the activation's result in the slot it
      reads the slot's name, which throws when the activation returned null. */
  function ActivateDefaultAsWritten(s: Snapshot, store: seq<Ruleset>, fault: Fault): Attempt {
    var target := DefaultTarget(store);
    if target.Null? then Attempt(s, Null)
    else
      var step := Activate(s, store, target.value.id, fault);
      var s' := step.state.(active := step.result);
      if s'.active.Null? then Attempt(s', Some(NullReference)) else Attempt(s', Null)
  }

  /** Reading the active ruleset: an empty slot activates the default ruleset; a forced refresh, or
      a slot whose action rules or item-category rules are empty, refreshes the slot first; the
      result is the slot. */
  function GetActive(s: Snapshot, store: seq<Ruleset>, forceRefresh: bool, fault: Fault): (st: Step)
    ensures Synced(s) ==> Synced(st.state)
    ensures st.result == st.state.active || (DefaultTarget(store).Null? && st.state == s)
  {
    if s.active.Null? then ActivateDefault(s, store, fault)
    else if forceRefresh || s.active.value.actionRules == [] || s.active.value.itemCategoryRules == [] then
      var s' := SetUp(s, store, fault);
      Step(s', s'.active)
    else Step(s, s.active)
  }

  /** Reacting to an edit of ruleset `changedId`: the slot is refreshed when it holds that ruleset. */
  function HandleRuleChange(s: Snapshot, store: seq<Ruleset>, changedId: int, fault: Fault): (r: Snapshot)
    ensures Synced(s) ==> Synced(r)
    ensures r.sent == s.sent
  {
    if s.active.Some? && changedId == s.active.value.id then SetUp(s, store, fault) else s
  }

  /** The reaction as written reads the slot's id first, which throws when the slot is empty. */
  function HandleRuleChangeAsWritten(s: Snapshot, store: seq<Ruleset>, changedId: int, fault: Fault): Attempt {
    if s.active.Null? then Attempt(s, Some(NullReference))
    else Attempt(HandleRuleChange(s, store, changedId, fault), Null)
  }

  /** Activation succeeds, away from the fast path, exactly when the ruleset exists and no call
      throws; a result is always the ruleset now in the slot, with the id asked for. A fresh
      activation writes the id and sends exactly one change message naming the replaced ruleset; a
      failed one sends nothing, and changes nothing unless it was the broadcast that threw. */
  lemma ActivateOutcome(s: Snapshot, store: seq<Ruleset>, id: int, fault: Fault)
    ensures var st := Activate(s, store, id, fault);
            var fast := s.active.Some? && s.active.value.id == id;
            (fast ==> st == Step(s, s.active)) &&
            (!fast ==> (st.result.Some? <==> fault == NoFault && Find(store, RulesetIdOf, id).Some?)) &&
            (st.result.Some? ==> st.result == st.state.active && st.result.value.id == id) &&
            (!fast && st.result.Some? ==>
               st.result == Find(store, RulesetIdOf, id) && st.state.activeId == Some(id) &&
               st.state.sent == s.sent + [ActiveRulesetChange(st.result.value, s.active)]) &&
            (st.result.Null? ==> st.state.sent == s.sent) &&
            (st.result.Null? && fault != BroadcastFails ==> st.state == s)
  {
    if Find(store, RulesetIdOf, id).Some? { FindFound(store, RulesetIdOf, id); }
  }

  /** Activating the same ruleset again right after a successful activation is a no-op, whatever
      would throw: no fetch, no id write, no message. */
  lemma ActivateTwice(s: Snapshot, store: seq<Ruleset>, id: int, fault: Fault)
    ensures var first := Activate(s, store, id, NoFault);
            first.result.Some? ==> Activate(first.state, store, id, fault) == first
  {
    ActivateOutcome(s, store, id, NoFault);
  }

  /** A refresh keeps the slot holding a ruleset with the same id (or keeps it empty) and sends
      nothing; when the ruleset is still stored and the fetch does not throw, the slot holds the
      stored version, and its id is written unless the write throws. */
  lemma SetUpOutcome(s: Snapshot, store: seq<Ruleset>, fault: Fault)
    ensures var r := SetUp(s, store, fault);
            (s.active.Null? ==> r == s) &&
            (s.active.Some? ==> r.active.Some? && r.active.value.id == s.active.value.id) &&
            (s.active.Some? && fault != FetchFails && Find(store, RulesetIdOf, s.active.value.id).Some? ==>
               r.active == Find(store, RulesetIdOf, s.active.value.id) &&
               (fault != MarkerFails ==> r.activeId == Some(s.active.value.id))) &&
            (s.active.Some? && Find(store, RulesetIdOf, s.active.value.id).Null? ==> r == s)
  {
    if s.active.Some? && Find(store, RulesetIdOf, s.active.value.id).Some? {
      FindFound(store, RulesetIdOf, s.active.value.id);
    }
  }

  /** With no call throwing, activating the default ruleset always yields the picked ruleset (the
      stored one with its id) when the store has one, and leaves it in the slot. */
  lemma DefaultActivation(s: Snapshot, store: seq<Ruleset>)
    ensures var target := DefaultTarget(store);
            var st := ActivateDefault(s, store, NoFault);
            (target.Null? ==> st == Step(s, Null)) &&
            (target.Some? ==> st.result.Some? && st.result.value.id == target.value.id && st.state.active == st.result)
  {
    var target := DefaultTarget(store);
    if target.Some? {
      var i :| 0 <= i < |store| && store[i] == target.value;
      assert RulesetIdOf(store[i]) == target.value.id;
      ActivateOutcome(s, store, target.value.id, NoFault);
    }
  }

  /** The default activation as written ends in the same state as the corrected one, and throws
      exactly when the store has a default ruleset and its activation returned null. */
  lemma DefaultActivationAsWrittenAgrees(s: Snapshot, store: seq<Ruleset>, fault: Fault)
    ensures var w := ActivateDefaultAsWritten(s, store, fault);
            var c := ActivateDefault(s, store, fault);
            w.state == c.state && (w.thrown.Some? <==> DefaultTarget(store).Some? && c.result.Null?)
  {
  }

  /** A default activation whose fetch throws crashes as written, after emptying the slot that held
      another ruleset. */
  lemma DefaultActivationCrash()
    ensures var def := Ruleset(1, "Default", "PS2 Scrims", true, false, [], [], [], []);
            var other := Ruleset(2, "Other", "", false, false, [], [], [], []);
            var s := Snapshot(Some(other), Some(2), []);
            var w := ActivateDefaultAsWritten(s, [def, other], FetchFails);
            w.thrown == Some(NullReference) && w.state.active.Null? &&
            ActivateDefault(s, [def, other], FetchFails).result.Null?
  {
    var def := Ruleset(1, "Default", "PS2 Scrims", true, false, [], [], [], []);
    var other := Ruleset(2, "Other", "", false, false, [], [], [], []);
    assert DefaultTarget([def, other]) == Some(def);
  }

  /** Reading the active ruleset: a filled slot with action and item-category rules is returned as
      it is unless a refresh is forced; otherwise the slot is refreshed and returned; an empty slot
      is filled by the default activation, which with no call throwing succeeds whenever the store
      has a default ruleset. */
  lemma GetActiveOutcome(s: Snapshot, store: seq<Ruleset>, forceRefresh: bool, fault: Fault)
    ensures var st := GetActive(s, store, forceRefresh, fault);
            ((s.active.Some? && !forceRefresh && s.active.value.actionRules != [] &&
              s.active.value.itemCategoryRules != []) ==> st == Step(s, s.active)) &&
            (s.active.Some? ==> st.result.Some? && st.result.value.id == s.active.value.id) &&
            (s.active.Null? && fault == NoFault && DefaultTarget(store).Some? ==>
               st.result.Some? && st.result.value.id == DefaultTarget(store).value.id)
  {
    SetUpOutcome(s, store, fault);
    DefaultActivation(s, store);
  }

  /** An edit of a ruleset other than the active one leaves the controller as it is; an edit of
      the active one refreshes the slot. */
  lemma RuleChangeOutcome(s: Snapshot, store: seq<Ruleset>, changedId: int, fault: Fault)
    ensures var r := HandleRuleChange(s, store, changedId, fault);
            (s.active.Null? || s.active.value.id != changedId ==> r == s) &&
            (s.active.Some? && s.active.value.id == changedId ==>
               r == SetUp(s, store, fault) && r.active.Some? && r.active.value.id == changedId)
  {
    SetUpOutcome(s, store, fault);
  }

  /** The reaction as written throws exactly when the slot is empty, and otherwise agrees with the
      corrected one. */
  lemma RuleChangeAsWrittenAgrees(s: Snapshot, store: seq<Ruleset>, changedId: int, fault: Fault)
    ensures var w := HandleRuleChangeAsWritten(s, store, changedId, fault);
            (w.thrown.Some? <==> s.active.Null?) &&
            w.state == HandleRuleChange(s, store, changedId, fault)
  {
  }

  /** The controller object. `gateOpen` is the auto-reset event that serialises activation and
      refresh: taken on entry and released on every way out. */
  class ScrimRulesetManager {
    var activeRuleset: Option<Ruleset>
    var rulesets: seq<Ruleset>
    var activeRulesetId: Option<int>
    var broadcast: seq<ActiveRulesetChange>
    var gateOpen: bool

    function Now(): Snapshot
      reads this
    {
      Snapshot(activeRuleset, activeRulesetId, broadcast)
    }

    constructor (rulesets: seq<Ruleset>)
      ensures this.rulesets == rulesets && gateOpen
      ensures Now() == Snapshot(Null, Null, [])
    {
      activeRuleset := Null;
      this.rulesets := rulesets;
      activeRulesetId := Null;
      broadcast := [];
      gateOpen := true;
    }

    method ActivateRuleset(rulesetId: int, fault: Fault) returns (r: Option<Ruleset>)
      requires gateOpen
      modifies this
      ensures gateOpen && rulesets == old(rulesets)
      ensures Step(Now(), r) == Activate(old(Now()), rulesets, rulesetId, fault)
    {
      gateOpen := false;
      var currentActiveRuleset: Option<Ruleset> := Null;
      if activeRuleset.Some? {
        currentActiveRuleset := activeRuleset;
        if rulesetId == currentActiveRuleset.value.id {
          gateOpen := true;
          return currentActiveRuleset;
        }
      }
      if fault == FetchFails {
        gateOpen := true;
        return Null;
      }
      var newActiveRuleset := Find(rulesets, RulesetIdOf, rulesetId);
      if newActiveRuleset.Null? {
        gateOpen := true;
        return Null;
      }
      if fault == MarkerFails {
        gateOpen := true;
        return Null;
      }
      activeRulesetId := Some(rulesetId);
      activeRuleset := newActiveRuleset;
      var message := ActiveRulesetChange(activeRuleset.value, currentActiveRuleset);
      if fault == BroadcastFails {
        gateOpen := true;
        return Null;
      }
      broadcast := broadcast + [message];
      gateOpen := true;
      return activeRuleset;
    }

    method ActivateDefaultRuleset(fault: Fault) returns (r: Option<Ruleset>)
      requires gateOpen
      modifies this
      ensures gateOpen && rulesets == old(rulesets)
      ensures Step(Now(), r) == ActivateDefault(old(Now()), rulesets, fault)
    {
      var ruleset := Find(rulesets, IsCustomDefaultOf, true);
      if ruleset.Null? {
        ruleset := Find(rulesets, IsDefaultOf, true);
      }
      if ruleset.Null? {
        return Null;
      }
      var activated := ActivateRuleset(ruleset.value.id, fault);
      activeRuleset := activated;
      return activeRuleset;
    }

    method ActivateDefaultRulesetAsWritten(fault: Fault) returns (r: Option<Ruleset>, thrown: Option<Crash>)
      requires gateOpen
      modifies this
      ensures gateOpen && rulesets == old(rulesets)
      ensures Attempt(Now(), thrown) == ActivateDefaultAsWritten(old(Now()), rulesets, fault)
      ensures r == (if thrown.Some? || DefaultTarget(rulesets).Null? then Null else activeRuleset)
    {
      var ruleset := Find(rulesets, IsCustomDefaultOf, true);
      if ruleset.Null? {
        ruleset := Find(rulesets, IsDefaultOf, true);
      }
      if ruleset.Null? {
        return Null, Null;
      }
      var activated := ActivateRuleset(ruleset.value.id, fault);
      activeRuleset := activated;
      if activeRuleset.Null? {
        return Null, Some(NullReference);
      }
      return activeRuleset, Null;
    }

    method SetUpActiveRuleset(fault: Fault)
      requires gateOpen
      modifies this
      ensures gateOpen && rulesets == old(rulesets)
      ensures Now() == SetUp(old(Now()), rulesets, fault)
    {
      gateOpen := false;
      var currentActiveRuleset := activeRuleset;
      if currentActiveRuleset.Null? {
        gateOpen := true;
        return;
      }
      if fault == FetchFails {
        gateOpen := true;
        return;
      }
      var tempRuleset := Find(rulesets, RulesetIdOf, currentActiveRuleset.value.id);
      if tempRuleset.Null? {
        gateOpen := true;
        return;
      }
      activeRuleset := tempRuleset;
      if fault == MarkerFails {
        gateOpen := true;
        return;
      }
      activeRulesetId := Some(activeRuleset.value.id);
      gateOpen := true;
    }

    method GetActiveRuleset(forceRefresh: bool, fault: Fault) returns (r: Option<Ruleset>)
      requires gateOpen
      modifies this
      ensures gateOpen && rulesets == old(rulesets)
      ensures Step(Now(), r) == GetActive(old(Now()), rulesets, forceRefresh, fault)
    {
      if activeRuleset.Null? {
        r := ActivateDefaultRuleset(fault);
      } else if forceRefresh || activeRuleset.value.actionRules == [] || activeRuleset.value.itemCategoryRules == [] {
        SetUpActiveRuleset(fault);
        r := activeRuleset;
      } else {
        r := activeRuleset;
      }
    }

    method HandleRulesetRuleChange(changedRulesetId: int, fault: Fault)
      requires gateOpen
      modifies this
      ensures gateOpen && rulesets == old(rulesets)
      ensures Now() == HandleRuleChange(old(Now()), rulesets, changedRulesetId, fault)
    {
      if activeRuleset.Some? && changedRulesetId == activeRuleset.value.id {
        SetUpActiveRuleset(fault);
      }
    }

    method HandleRulesetRuleChangeAsWritten(changedRulesetId: int, fault: Fault) returns (thrown: Option<Crash>)
      requires gateOpen
      modifies this
      ensures gateOpen && rulesets == old(rulesets)
      ensures Attempt(Now(), thrown) == HandleRuleChangeAsWritten(old(Now()), rulesets, changedRulesetId, fault)
    {
      if activeRuleset.Null? {
        return Some(NullReference);
      }
      if changedRulesetId == activeRuleset.value.id {
        SetUpActiveRuleset(fault);
      }
      return Null;
    }
  }

  /** Switching from one ruleset to another and back, from a cold start, broadcasts three changes,
      each naming the ruleset it replaces; asking again for the active one broadcasts nothing. */
  method SwitchAndRevert(first: Ruleset, second: Ruleset) returns (sent: seq<ActiveRulesetChange>)
    requires first.id != second.id
    ensures sent == [ActiveRulesetChange(first, Null), ActiveRulesetChange(second, Some(first)),
                     ActiveRulesetChange(first, Some(second))]
  {
    var store := [first, second];
    assert Find(store, RulesetIdOf, first.id) == Some(first);
    assert Find(store, RulesetIdOf, second.id) == Some(second);
    var manager := new ScrimRulesetManager(store);
    var a := manager.ActivateRuleset(first.id, NoFault);
    assert manager.broadcast == [ActiveRulesetChange(first, Null)] && manager.activeRuleset == Some(first);
    var b := manager.ActivateRuleset(second.id, NoFault);
    assert manager.activeRuleset == Some(second);
    var c := manager.ActivateRuleset(first.id, NoFault);
    var d := manager.ActivateRuleset(first.id, NoFault);
    sent := manager.broadcast;
  }
}
