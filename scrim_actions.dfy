/** Seeding the store of scrim actions: one row per value of the scrim action enum, carrying the
    member's name, a description made by spacing that name into words, and its domain; a stored
    row for a value the enum no longer declares is removed. */
module ScrimActions {
  import opened Wrappers
  import opened Rules
  import opened Reconciliation

  /** A row of the scrim action store. */
  datatype ScrimAction = ScrimAction(action: ActionType, name: string, description: string, domain: Domain)

  function ActionOf(a: ScrimAction): ActionType { a.action }

  /** What the seeding pass reads from the scrim action enum: its values in declaration order (an
      alias of another member shows up twice), the name of each declared value and its domain. */
  datatype ActionEnum = ActionEnum(
    values: seq<ActionType>, nameOf: ActionType -> string, domainOf: ActionType -> Domain)

  predicate IsLower(c: char) { 'a' <= c <= 'z' }
  predicate IsUpper(c: char) { 'A' <= c <= 'Z' }

  /** The description of a member name: a space between every lower-case letter and the upper-case
      letter right after it. The result starts like the name, no lower-case letter in it is
      directly followed by an upper-case one, and, for a name without spaces of its own, every
      space in it sits between a lower-case letter and an upper-case one. */
  function Spaced(s: string): (r: string)
    ensures |s| > 0 ==> |r| > 0 && r[0] == s[0]
    ensures forall i :: 0 <= i < |r| - 1 ==> !(IsLower(r[i]) && IsUpper(r[i + 1]))
    ensures ' ' !in s ==> forall i :: 0 <= i < |r| && r[i] == ' ' ==>
              0 < i < |r| - 1 && IsLower(r[i - 1]) && IsUpper(r[i + 1])
  {
    if |s| < 2 then s
    else if IsLower(s[0]) && IsUpper(s[1]) then [s[0], ' '] + Spaced(s[1..])
    else [s[0]] + Spaced(s[1..])
  }

  /** The characters of `s` other than spaces, in order. */
  function RemoveSpaces(s: string): (r: string)
    ensures ' ' !in r
    ensures |r| <= |s|
  {
    if s == [] then []
    else (if s[0] == ' ' then [] else [s[0]]) + RemoveSpaces(s[1..])
  }

  /** Spacing a name only inserts spaces: taking them out again gives back the name. */
  lemma {:induction false} SpacedRoundTrip(s: string)
    ensures ' ' !in s ==> RemoveSpaces(Spaced(s)) == s
    decreases |s|
  {
    if ' ' !in s && |s| >= 2 {
      var t := Spaced(s[1..]);
      SpacedRoundTrip(s[1..]);
      assert ' ' !in s[1..] by {
        forall i | 0 <= i < |s[1..]| ensures s[1..][i] != ' ' {
          assert s[1..][i] == s[i + 1];
        }
      }
      if IsLower(s[0]) && IsUpper(s[1]) {
        var r := [s[0], ' '] + t;
        assert r[1..] == [' '] + t;
        assert ([' '] + t)[1..] == t;
      } else {
        var r := [s[0]] + t;
        assert r[1..] == t;
      }
    }
  }

  /** The store row for enum value `v`: its name, the spaced description and its domain. The
      description holds the name's characters with spaces inserted, and nothing else, each space
      between a lower-case letter and the upper-case letter after it, as long as the name has no
      space of its own (no enum member name has one). */
  function ConvertToDbModel(v: ActionType, e: ActionEnum): (r: ScrimAction)
    ensures r.action == v && r.name == e.nameOf(v) && r.domain == e.domainOf(v)
    ensures ' ' !in r.name ==> RemoveSpaces(r.description) == r.name
    ensures |r.name| > 0 ==> |r.description| > 0 && r.description[0] == r.name[0]
    ensures forall i :: 0 <= i < |r.description| - 1 ==>
              !(IsLower(r.description[i]) && IsUpper(r.description[i + 1]))
    ensures ' ' !in r.name ==> forall i :: 0 <= i < |r.description| && r.description[i] == ' ' ==>
              0 < i < |r.description| - 1 && IsLower(r.description[i - 1]) && IsUpper(r.description[i + 1])
  {
    var name := e.nameOf(v);
    SpacedRoundTrip(name);
    ScrimAction(v, name, Spaced(name), e.domainOf(v))
  }

  /** The action of every stored row whose action the enum does not declare, in store order. The
      filter is materialised before the list grows, so a stale action stored twice appears twice. */
  function StoredExtras(values: seq<ActionType>, stored: seq<ScrimAction>): (r: seq<ActionType>)
    ensures forall t :: t in r <==> t !in values && exists a :: a in stored && a.action == t
  {
    if stored == [] then []
    else (if stored[0].action in values then [] else [stored[0].action]) + StoredExtras(values, stored[1..])
  }

  /** No stale action is left over when the enum declares every stored action. */
  lemma {:induction false} NoStoredExtras(values: seq<ActionType>, stored: seq<ScrimAction>)
    requires forall a :: a in stored ==> a.action in values
    ensures StoredExtras(values, stored) == []
    decreases |stored|
  {
    if stored != [] {
      NoStoredExtras(values, stored[1..]);
    }
  }

  /** The candidate list as the source builds it: the enum values followed by the stale stored
      actions; the deduplicating call's result is dropped, so duplicates stay. */
  function ScrimActionCandidatesAsWritten(e: ActionEnum, stored: seq<ScrimAction>): seq<ActionType> {
    e.values + StoredExtras(e.values, stored)
  }

  /** The candidate list once deduplicated: every enum value and every stale stored action, once
      each, in order of first appearance. */
  function ScrimActionCandidates(e: ActionEnum, stored: seq<ScrimAction>): (r: seq<ActionType>)
    ensures Distinct(r)
    ensures forall t :: t in r <==> t in e.values || exists a :: a in stored && a.action == t
  {
    AppendNew([], ScrimActionCandidatesAsWritten(e, stored))
  }

  /** What happens to the row of action `v`: a missing row is inserted, a stored row of a declared
      value is overwritten by a fresh one, and a stored row of an undeclared value is removed. */
  function DecideScrimAction(v: ActionType, stored: seq<ScrimAction>, e: ActionEnum): Decision<ScrimAction> {
    var storeEntity := Find(stored, ActionOf, v);
    if storeEntity.Null? then Create(ConvertToDbModel(v, e))
    else if v in e.values then Update(ConvertToDbModel(v, e))
    else Delete(storeEntity.value)
  }

  function ScrimActionDecider(stored: seq<ScrimAction>, e: ActionEnum): ActionType -> Decision<ScrimAction> {
    v => DecideScrimAction(v, stored, e)
  }

  /** The seeding pass over the deduplicated candidates. */
  function ScrimActionPlan(stored: seq<ScrimAction>, e: ActionEnum): Merge<ScrimAction> {
    Reconcile(ScrimActionCandidates(e, stored), ScrimActionDecider(stored, e))
  }

  /** The seeding pass over the candidates as the source leaves them. */
  function ScrimActionPlanAsWritten(stored: seq<ScrimAction>, e: ActionEnum): Merge<ScrimAction> {
    Reconcile(ScrimActionCandidatesAsWritten(e, stored), ScrimActionDecider(stored, e))
  }

  /** The seeding pass: builds the candidate list, deduplicates it and visits it in order. */
  method SeedScrimActionModels(stored: seq<ScrimAction>, e: ActionEnum) returns (m: Merge<ScrimAction>)
    ensures m == ScrimActionPlan(stored, e)
  {
    var enumValues := e.values;
    var allActionTypeValues := enumValues;
    allActionTypeValues := allActionTypeValues + StoredExtras(enumValues, stored);
    allActionTypeValues := AppendNew([], allActionTypeValues);
    m := VisitScrimActions(allActionTypeValues, stored, e);
  }

  /** The loop of the seeding pass. */
  method VisitScrimActions(allActionTypeValues: seq<ActionType>, stored: seq<ScrimAction>, e: ActionEnum)
    returns (m: Merge<ScrimAction>)
    ensures m == Reconcile(allActionTypeValues, ScrimActionDecider(stored, e))
  {
    ghost var decide := ScrimActionDecider(stored, e);
    var all, created, updated, deleted := [], [], [], [];
    var i := 0;
    while i < |allActionTypeValues|
      invariant 0 <= i <= |allActionTypeValues|
      invariant Merge(all, created, updated, deleted) == Reconcile(allActionTypeValues[..i], decide)
    {
      var value := allActionTypeValues[i];
      var storeEntity := Find(stored, ActionOf, value);
      var isValidEnum := value in e.values;
      ReconcileStep(allActionTypeValues, i, decide);
      assert decide(value) == DecideScrimAction(value, stored, e);
      if storeEntity.Null? {
        var entity := ConvertToDbModel(value, e);
        created := created + [entity];
        all := all + [entity];
      } else if isValidEnum {
        var entity := ConvertToDbModel(value, e);
        updated := updated + [entity];
        all := all + [entity];
      } else {
        deleted := deleted + [storeEntity.value];
      }
      i := i + 1;
    }
    assert allActionTypeValues[..i] == allActionTypeValues;
    m := Merge(all, created, updated, deleted);
  }

  lemma ScrimActionDeciderRespectsKeys(stored: seq<ScrimAction>, e: ActionEnum)
    ensures KeyRespecting(ScrimActionDecider(stored, e), ActionOf)
  {
  }

  /** The enum values once each, in declaration order. */
  function DeclaredOnce(e: ActionEnum): (r: seq<ActionType>)
    ensures Distinct(r)
    ensures forall t :: t in r <==> t in e.values
  {
    AppendNew([], e.values)
  }

  /** The deduplicated candidates are the declared values once each, followed by stale stored
      actions only. */
  lemma CandidatesSplit(e: ActionEnum, stored: seq<ScrimAction>)
    ensures var c := ScrimActionCandidates(e, stored);
            var d := DeclaredOnce(e);
            |d| <= |c| && c == d + c[|d|..] &&
            forall t :: t in c[|d|..] ==> t !in e.values && Find(stored, ActionOf, t).Some?
  {
    var extras := StoredExtras(e.values, stored);
    AppendNewConcat([], e.values, extras);
    CandidatesTail(DeclaredOnce(e), e.values, stored);
  }

  /** Appending the stale actions to the declared values adds only stale actions. */
  lemma CandidatesTail(d: seq<ActionType>, values: seq<ActionType>, stored: seq<ScrimAction>)
    ensures var c := AppendNew(d, StoredExtras(values, stored));
            |d| <= |c| && c == d + c[|d|..] &&
            forall t :: t in c[|d|..] ==> t !in values && Find(stored, ActionOf, t).Some?
  {
    var extras := StoredExtras(values, stored);
    var c := AppendNew(d, extras);
    assert c == d + c[|d|..];
    AppendNewTail(d, extras);
    forall t | t in c[|d|..] ensures t !in values && Find(stored, ActionOf, t).Some? {
      var a :| a in stored && a.action == t;
    }
  }

  /** After seeding, the store holds exactly one row per declared enum value, in declaration order,
      each the fresh row for its value: name, spaced description and domain. */
  lemma ScrimActionRows(stored: seq<ScrimAction>, e: ActionEnum)
    ensures var m := ScrimActionPlan(stored, e);
            var d := DeclaredOnce(e);
            KeysOf(m.rows, ActionOf) == d && |m.rows| == |d| &&
            (forall i :: 0 <= i < |d| ==> m.rows[i] == ConvertToDbModel(d[i], e)) &&
            Distinct(KeysOf(m.rows, ActionOf)) &&
            (forall t :: t in KeysOf(m.rows, ActionOf) <==> t in e.values)
  {
    var c := ScrimActionCandidates(e, stored);
    var d := DeclaredOnce(e);
    var decide := ScrimActionDecider(stored, e);
    CandidatesSplit(e, stored);
    ScrimActionDeciderRespectsKeys(stored, e);
    KeptPrefix(d, c[|d|..], decide, ActionOf);
  }

  /** Which list each row goes to: a declared value without a stored row is inserted, one with a
      stored row is overwritten, and the first stored row of an undeclared value is removed. */
  lemma ScrimActionOutcomes(stored: seq<ScrimAction>, e: ActionEnum, t: ActionType)
    ensures var m := ScrimActionPlan(stored, e);
            var s := Find(stored, ActionOf, t);
            (t in e.values && s.Null? ==> ConvertToDbModel(t, e) in m.created) &&
            (t in e.values && s.Some? ==> ConvertToDbModel(t, e) in m.updated) &&
            (t !in e.values && s.Some? ==> s.value in m.deleted)
  {
    var c := ScrimActionCandidates(e, stored);
    var s := Find(stored, ActionOf, t);
    if t in e.values || s.Some? {
      if s.Some? { FindFound(stored, ActionOf, t); }
      assert t in c;
      DecisionRecorded(c, ScrimActionDecider(stored, e), t);
    }
  }

  /** A store that holds only declared actions yields the declared values as candidates. */
  lemma CandidatesWhenAllDeclared(e: ActionEnum, stored: seq<ScrimAction>)
    requires forall t :: t in KeysOf(stored, ActionOf) ==> t in e.values
    ensures ScrimActionCandidates(e, stored) == DeclaredOnce(e)
  {
    forall a | a in stored ensures a.action in e.values {
      var i :| 0 <= i < |stored| && stored[i] == a;
      assert KeysOf(stored, ActionOf)[i] == a.action;
    }
    NoStoredExtras(e.values, stored);
    assert e.values + [] == e.values;
    assert ScrimActionCandidatesAsWritten(e, stored) == e.values;
  }

  /** Seeding the result of a seeding pass changes nothing. */
  lemma ScrimActionSeedIdempotent(stored: seq<ScrimAction>, e: ActionEnum)
    ensures var once := ScrimActionPlan(stored, e).rows;
            ScrimActionPlan(once, e).rows == once
  {
    var once := ScrimActionPlan(stored, e).rows;
    var d := DeclaredOnce(e);
    var decide := ScrimActionDecider(stored, e);
    var decide2 := ScrimActionDecider(once, e);
    ScrimActionRows(stored, e);
    CandidatesWhenAllDeclared(e, once);
    forall t | t in d
      ensures decide2(t).Kept() == decide(t).Kept() && (decide2(t).Kept() ==> decide2(t).row == decide(t).row)
    {
      KeysOfFind(once, ActionOf, t);
    }
    SameRows(d, decide2, decide);
    RowsOfDeclared(stored, e);
  }

  /** The rows of a seeding pass are those of its declared values alone. */
  lemma RowsOfDeclared(stored: seq<ScrimAction>, e: ActionEnum)
    ensures ScrimActionPlan(stored, e).rows == Reconcile(DeclaredOnce(e), ScrimActionDecider(stored, e)).rows
  {
    var c := ScrimActionCandidates(e, stored);
    var d := DeclaredOnce(e);
    CandidatesSplit(e, stored);
    ScrimActionDeciderRespectsKeys(stored, e);
    KeptPrefix(d, c[|d|..], ScrimActionDecider(stored, e), ActionOf);
  }

  /** As written, an enum member that aliases another one is inserted twice when it has no stored
      row: two rows with the same key reach the store. */
  lemma ScrimActionAsWrittenDuplicates(name: string)
    ensures var e := ActionEnum([Login, Login], _ => name, _ => 0);
            var row := ConvertToDbModel(Login, e);
            ScrimActionPlanAsWritten([], e).created == [row, row] &&
            ScrimActionPlan([], e).created == [row]
  {
    var e := ActionEnum([Login, Login], _ => name, _ => 0);
    assert StoredExtras(e.values, []) == [];
    assert ScrimActionCandidatesAsWritten(e, []) == [Login, Login];
    assert AppendNew([], [Login, Login]) == [Login] by {
      assert [Login, Login][1..] == [Login];
      assert AppendNew([Login], [Login]) == AppendNew([Login], []);
    }
    var decide := ScrimActionDecider([], e);
    var row := ConvertToDbModel(Login, e);
    assert decide(Login) == Create(row);
    assert [Login][..0] == [];
    assert Reconcile([Login], decide) == Merge([row], [row], [], []);
    assert [Login, Login][..1] == [Login];
    assert Reconcile([Login, Login], decide) == Record(Reconcile([Login], decide), Create(row));
  }
}
