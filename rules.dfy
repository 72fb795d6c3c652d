/** The entities of the ruleset manager and the sequence queries its merge relies on
    (`FirstOrDefault`, `Contains`, `AddRange` of the not-yet-contained values). */
module Rules {
  import opened Wrappers

  /** Values of the scrim action enum. The members the manager names get a constructor of their
      own; every other integer value (another enum member, or a stale value read back from the
      store) is `Unnamed(code)`. Which values the enum declares is an input (see `Catalog`). */
  datatype ActionType =
    | None | Login | Logout
    | FirstBaseCapture | SubsequentBaseCapture
    | InfantryKillInfantry | InfantryKillMax | InfantryTeamkillInfantry | InfantryTeamkillMax
    | InfantrySuicide
    | MaxKillInfantry | MaxKillMax | MaxTeamkillMax | MaxTeamkillInfantry | MaxSuicide
    | Unnamed(code: int)

  /** The control actions the action-rule merge never covers. */
  predicate IsControlAction(t: ActionType) {
    t == ActionType.None || t == Login || t == Logout
  }

  /** A value of the action-domain enum; it is computed from the action type outside this model. */
  type Domain = int

  /** The id of the ruleset that the seeding pass reconciles. */
  const DefaultRulesetId: int := 1

  datatype ActionRule = ActionRule(
    rulesetId: int, actionType: ActionType, points: int,
    deferToItemCategoryRules: bool, domain: Domain)

  datatype ItemCategoryRule = ItemCategoryRule(
    rulesetId: int, itemCategoryId: int, points: int, isBanned: bool, deferToItemRules: bool)

  datatype ItemRule = ItemRule(
    rulesetId: int, itemId: int, itemCategoryId: int, points: int, isBanned: bool)

  datatype FacilityRule = FacilityRule(rulesetId: int, facilityId: int, mapRegionId: int)

  /** A weapon item of the item catalog; its category id is nullable there. */
  datatype WeaponItem = WeaponItem(id: int, itemCategoryId: Option<int>)

  /** A ruleset with the four rule collections the manager reads and replaces. A missing (null)
      collection is modelled as an empty one: the manager treats the two alike. */
  datatype Ruleset = Ruleset(
    id: int, name: string, defaultMatchTitle: string, isDefault: bool, isCustomDefault: bool,
    actionRules: seq<ActionRule>, itemCategoryRules: seq<ItemCategoryRule>,
    itemRules: seq<ItemRule>, facilityRules: seq<FacilityRule>)

  /** The facts the merge reads from outside: the declared values of the action enum, the action
      domain classification, and the item and item-category services' answers (the weapon item
      list may be null). */
  datatype Catalog = Catalog(
    actionTypes: seq<ActionType>,
    domainOf: ActionType -> Domain,
    itemCategoryIds: seq<int>,
    weaponCategoryIds: seq<int>,
    weaponItems: Option<seq<WeaponItem>>)

  // Key selectors, used with Find and KeysOf.
  function TypeOf(r: ActionRule): ActionType { r.actionType }
  function CategoryIdOf(r: ItemCategoryRule): int { r.itemCategoryId }
  function ItemIdOf(r: ItemRule): int { r.itemId }
  function FacilityIdOf(r: FacilityRule): int { r.facilityId }
  function WeaponIdOf(w: WeaponItem): int { w.id }
  function RulesetIdOf(r: Ruleset): int { r.id }

  /** `FirstOrDefault(x => key(x) == k)`: the first element with key `k`, or null. */
  function Find<T, K(==)>(s: seq<T>, key: T -> K, k: K): (r: Option<T>)
    ensures r.Null? <==> forall i :: 0 <= i < |s| ==> key(s[i]) != k
    ensures r.Some? ==> exists i :: 0 <= i < |s| && s[i] == r.value && key(s[i]) == k &&
                          forall j :: 0 <= j < i ==> key(s[j]) != k
  {
    if s == [] then Null
    else if key(s[0]) == k then Some(s[0])
    else
      var r := Find(s[1..], key, k);
      assert r.Some? ==> exists i :: 1 <= i < |s| && s[i] == r.value && key(s[i]) == k &&
                           forall j :: 0 <= j < i ==> key(s[j]) != k by {
        if r.Some? {
          var i :| 0 <= i < |s[1..]| && s[1..][i] == r.value && key(s[1..][i]) == k &&
                   forall j :: 0 <= j < i ==> key(s[1..][j]) != k;
          assert forall j :: 0 <= j < i + 1 ==> key(s[j]) != k by {
            forall j | 0 <= j < i + 1 ensures key(s[j]) != k {
              if j > 0 { assert s[j] == s[1..][j - 1]; }
            }
          }
        }
      }
      r
  }

  /** A found element carries the key that was asked for and belongs to the sequence. */
  lemma FindFound<T, K>(s: seq<T>, key: T -> K, k: K)
    requires Find(s, key, k).Some?
    ensures Find(s, key, k).value in s && key(Find(s, key, k).value) == k
  {
  }

  /** Looking up in a concatenation looks in the first part first. */
  lemma {:induction false} FindAppend<T, K>(a: seq<T>, b: seq<T>, key: T -> K, k: K)
    ensures Find(a + b, key, k) == if Find(a, key, k).Some? then Find(a, key, k) else Find(b, key, k)
  {
    if a == [] {
      assert a + b == b;
    } else {
      assert (a + b)[1..] == a[1..] + b;
      FindAppend(a[1..], b, key, k);
    }
  }

  /** The keys of a sequence of rows, in order (`Select(key)`). */
  function KeysOf<T, K>(s: seq<T>, key: T -> K): seq<K> {
    seq(|s|, i requires 0 <= i < |s| => key(s[i]))
  }

  /** A key occurs among the keys exactly when looking it up finds a row. */
  lemma KeysOfFind<T, K>(s: seq<T>, key: T -> K, k: K)
    ensures k in KeysOf(s, key) <==> Find(s, key, k).Some?
  {
    if k in KeysOf(s, key) {
      var i :| 0 <= i < |s| && KeysOf(s, key)[i] == k;
    }
    if Find(s, key, k).Some? {
      var i :| 0 <= i < |s| && s[i] == Find(s, key, k).value && key(s[i]) == k;
      assert KeysOf(s, key)[i] == k;
    }
  }

  predicate Distinct<T(==)>(s: seq<T>) {
    forall i, j :: 0 <= i < j < |s| ==> s[i] != s[j]
  }
  /** Looking up the key of an element finds a row. */
  lemma FindMember<T, K>(s: seq<T>, key: T -> K, x: T)
    requires x in s
    ensures Find(s, key, key(x)).Some?
  {
    var i :| 0 <= i < |s| && s[i] == x;
    assert key(s[i]) == key(x);
  }

  /** In a sequence whose keys are distinct, looking up an element's key finds that element. */
  lemma FindDistinct<T, K>(s: seq<T>, key: T -> K, x: T)
    requires Distinct(KeysOf(s, key)) && x in s
    ensures Find(s, key, key(x)) == Some(x)
  {
    var i :| 0 <= i < |s| && s[i] == x;
    var f := Find(s, key, key(x));
    var j :| 0 <= j < |s| && s[j] == f.value && key(s[j]) == key(x);
    assert KeysOf(s, key)[i] == KeysOf(s, key)[j];
  }


  /** `acc.AddRange(xs.Where(x => !acc.Contains(x)))` where the filter is evaluated lazily, so
      it sees the values added before it: each value of `xs` not already present is appended once,
      in order of first appearance. */
  function AppendNew<T(==,!new)>(acc: seq<T>, xs: seq<T>): (r: seq<T>)
    ensures forall x :: x in r <==> x in acc || x in xs
    ensures |acc| <= |r| && r[..|acc|] == acc
    ensures Distinct(acc) ==> Distinct(r)
    decreases |xs|
  {
    if xs == [] then acc
    else AppendNew(if xs[0] in acc then acc else acc + [xs[0]], xs[1..])
  }

  /** Deduplicating a concatenation deduplicates the first part and then appends what is new in the
      second. */
  lemma {:induction false} AppendNewConcat<T(!new)>(acc: seq<T>, a: seq<T>, b: seq<T>)
    ensures AppendNew(acc, a + b) == AppendNew(AppendNew(acc, a), b)
    decreases |a|
  {
    if a == [] {
      assert a + b == b;
    } else {
      assert (a + b)[0] == a[0] && (a + b)[1..] == a[1..] + b;
      AppendNewConcat(if a[0] in acc then acc else acc + [a[0]], a[1..], b);
    }
  }

  /** What `AppendNew` appends comes from `xs` and was not in `acc`. */
  lemma {:induction false} AppendNewTail<T(!new)>(acc: seq<T>, xs: seq<T>)
    ensures forall x :: x in AppendNew(acc, xs)[|acc|..] ==> x in xs && x !in acc
    decreases |xs|
  {
    if xs != [] {
      var acc' := if xs[0] in acc then acc else acc + [xs[0]];
      AppendNewTail(acc', xs[1..]);
      var r := AppendNew(acc, xs);
      assert r[|acc|..] == r[|acc|..|acc'|] + r[|acc'|..];
      assert r[|acc|..|acc'|] == acc'[|acc|..];
    }
  }

  /** Appending values that are all present already changes nothing. */
  lemma {:induction false} AppendNewNothing<T(!new)>(acc: seq<T>, xs: seq<T>)
    requires forall x :: x in xs ==> x in acc
    ensures AppendNew(acc, xs) == acc
    decreases |xs|
  {
    if xs != [] {
      assert xs[0] in xs;
      AppendNewNothing(acc, xs[1..]);
    }
  }

  /** Appending distinct values none of which is present appends them all. */
  lemma {:induction false} AppendNewFresh<T(!new)>(acc: seq<T>, xs: seq<T>)
    requires Distinct(xs) && forall x :: x in xs ==> x !in acc
    ensures AppendNew(acc, xs) == acc + xs
    decreases |xs|
  {
    if xs != [] {
      var acc' := acc + [xs[0]];
      calc {
        AppendNew(acc, xs);
        == { FreshTail(acc, xs); }
        AppendNew(acc', xs[1..]);
        == { FreshTail(acc, xs); AppendNewFresh(acc', xs[1..]); }
        acc' + xs[1..];
        == { assert xs == [xs[0]] + xs[1..]; }
        acc + xs;
      }
    }
  }

  /** The step of `AppendNewFresh`: the first value is appended, and the rest stay fresh. */
  lemma FreshTail<T(!new)>(acc: seq<T>, xs: seq<T>)
    requires xs != [] && Distinct(xs) && forall x :: x in xs ==> x !in acc
    ensures AppendNew(acc, xs) == AppendNew(acc + [xs[0]], xs[1..])
    ensures Distinct(xs[1..]) && forall x :: x in xs[1..] ==> x !in acc + [xs[0]]
  {
    assert xs[0] in xs;
    assert xs == [xs[0]] + xs[1..];
    DistinctSplit([xs[0]], xs[1..]);
  }

  /** The second part of a concatenation without repeats has no repeats and shares nothing with
      the first. */
  lemma DistinctSplit<T>(a: seq<T>, b: seq<T>)
    requires Distinct(a + b)
    ensures Distinct(b) && forall x :: x in b ==> x !in a
  {
    forall i, j | 0 <= i < j < |b| ensures b[i] != b[j] {
      assert (a + b)[|a| + i] == b[i] && (a + b)[|a| + j] == b[j];
    }
    forall x | x in b ensures x !in a {
      var j :| 0 <= j < |b| && b[j] == x;
      assert (a + b)[|a| + j] == x;
      assert forall i :: 0 <= i < |a| ==> (a + b)[i] == a[i];
    }
  }
}
