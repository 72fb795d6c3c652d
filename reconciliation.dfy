/** The shape shared by every merge of the seeding pass: walk a candidate key list in order, decide
    for each key whether a row is created, updated, kept as stored, deleted or not written at all,
    and collect the replacement collection together with the created, updated and deleted rows. */
module Reconciliation {
  import opened Wrappers
  import opened Rules

  /** What the merge does with one candidate key. `Retain` keeps a stored row in the replacement
      collection without writing it back. */
  datatype Decision<R> = Create(row: R) | Update(row: R) | Retain(row: R) | Delete(row: R) | Skip
  {
    /** The key ends up with a row in the replacement collection. */
    predicate Kept() {
      Create? || Update? || Retain?
    }
  }

  /** The result of one category's merge: the replacement collection (`rows`) and the rows handed to
      the store as inserts, updates and removals. */
  datatype Merge<R> = Merge(rows: seq<R>, created: seq<R>, updated: seq<R>, deleted: seq<R>)

  /** Applies one decision to the lists built so far. */
  function Record<R>(m: Merge<R>, d: Decision<R>): Merge<R> {
    match d
    case Create(r) => Merge(m.rows + [r], m.created + [r], m.updated, m.deleted)
    case Update(r) => Merge(m.rows + [r], m.created, m.updated + [r], m.deleted)
    case Retain(r) => Merge(m.rows + [r], m.created, m.updated, m.deleted)
    case Delete(r) => Merge(m.rows, m.created, m.updated, m.deleted + [r])
    case Skip => m
  }

  /** The merge over `cands`, decided key by key, in candidate order. */
  function Reconcile<K, R>(cands: seq<K>, decide: K -> Decision<R>): Merge<R>
    decreases |cands|
  {
    if cands == [] then Merge([], [], [], [])
    else Record(Reconcile(cands[..|cands| - 1], decide), decide(cands[|cands| - 1]))
  }

  /** A decision that keeps a row for key `k` keeps a row whose key is `k`. */
  ghost predicate KeyRespecting<K(!new), R>(decide: K -> Decision<R>, key: R -> K) {
    forall k :: decide(k).Kept() ==> key(decide(k).row) == k
  }

  /** The candidates that end up with a row, in candidate order. */
  function KeptKeys<K, R>(cands: seq<K>, decide: K -> Decision<R>): seq<K>
    decreases |cands|
  {
    if cands == [] then []
    else KeptKeys(cands[..|cands| - 1], decide) +
         (if decide(cands[|cands| - 1]).Kept() then [cands[|cands| - 1]] else [])
  }

  lemma {:induction false} KeptKeysAppend<K, R>(a: seq<K>, b: seq<K>, decide: K -> Decision<R>)
    ensures KeptKeys(a + b, decide) == KeptKeys(a, decide) + KeptKeys(b, decide)
    decreases |b|
  {
    if b == [] {
      assert a + b == a;
    } else {
      var b' := b[..|b| - 1];
      assert (a + b)[..|a + b| - 1] == a + b';
      KeptKeysAppend(a, b', decide);
    }
  }

  /** One more candidate records one more decision. */
  lemma ReconcileStep<K, R>(cands: seq<K>, i: nat, decide: K -> Decision<R>)
    requires i < |cands|
    ensures Reconcile(cands[..i + 1], decide) == Record(Reconcile(cands[..i], decide), decide(cands[i]))
  {
    assert cands[..i + 1][..i] == cands[..i];
  }

  /** A key is kept exactly when it is a candidate whose decision keeps a row; kept keys inherit
      the candidates' distinctness. */
  lemma {:induction false} KeptKeysMembers<K, R>(cands: seq<K>, decide: K -> Decision<R>)
    ensures forall k :: k in KeptKeys(cands, decide) <==> k in cands && decide(k).Kept()
    ensures Distinct(cands) ==> Distinct(KeptKeys(cands, decide))
    decreases |cands|
  {
    if cands != [] {
      var p := cands[..|cands| - 1];
      var last := cands[|cands| - 1];
      assert cands == p + [last];
      KeptKeysMembers(p, decide);
      if Distinct(cands) {
        assert Distinct(p) by {
          forall i, j | 0 <= i < j < |p| ensures p[i] != p[j] { assert p[i] == cands[i] && p[j] == cands[j]; }
        }
        assert last !in p by {
          forall i | 0 <= i < |p| ensures p[i] != last { assert p[i] == cands[i]; }
        }
      }
    }
  }

  /** When every candidate keeps a row, the kept keys are the candidates themselves. */
  lemma {:induction false} AllKept<K, R>(cands: seq<K>, decide: K -> Decision<R>)
    requires forall k :: k in cands ==> decide(k).Kept()
    ensures KeptKeys(cands, decide) == cands
    decreases |cands|
  {
    if cands != [] {
      AllKept(cands[..|cands| - 1], decide);
    }
  }

  /** When no candidate keeps a row, no key is kept. */
  lemma {:induction false} NoneKept<K, R>(cands: seq<K>, decide: K -> Decision<R>)
    requires forall k :: k in cands ==> !decide(k).Kept()
    ensures KeptKeys(cands, decide) == []
    decreases |cands|
  {
    if cands != [] {
      NoneKept(cands[..|cands| - 1], decide);
    }
  }

  /** Two decisions that agree on which candidates keep a row keep the same keys. */
  lemma {:induction false} KeptKeysSame<K, R>(cands: seq<K>, d1: K -> Decision<R>, d2: K -> Decision<R>)
    requires forall k :: k in cands ==> d1(k).Kept() == d2(k).Kept()
    ensures KeptKeys(cands, d1) == KeptKeys(cands, d2)
    decreases |cands|
  {
    if cands != [] {
      KeptKeysSame(cands[..|cands| - 1], d1, d2);
    }
  }

  /** The replacement collection lists one row per kept candidate, with that candidate's key. */
  lemma {:induction false} RowKeys<K(!new), R>(cands: seq<K>, decide: K -> Decision<R>, key: R -> K)
    requires KeyRespecting(decide, key)
    ensures KeysOf(Reconcile(cands, decide).rows, key) == KeptKeys(cands, decide)
    decreases |cands|
  {
    if cands != [] {
      var p := cands[..|cands| - 1];
      var d := decide(cands[|cands| - 1]);
      RowKeys(p, decide, key);
      var rows := Reconcile(p, decide).rows;
      if d.Kept() {
        assert KeysOf(rows + [d.row], key) == KeysOf(rows, key) + [key(d.row)];
      }
    }
  }

  /** Looking a key up in the replacement collection finds the row its own decision kept. */
  lemma {:induction false} FindRow<K(!new), R>(cands: seq<K>, decide: K -> Decision<R>, key: R -> K, k: K)
    requires KeyRespecting(decide, key)
    ensures Find(Reconcile(cands, decide).rows, key, k) ==
            if k in cands && decide(k).Kept() then Some(decide(k).row) else Null
    decreases |cands|
  {
    if cands != [] {
      var p := cands[..|cands| - 1];
      var last := cands[|cands| - 1];
      assert cands == p + [last];
      FindRow(p, decide, key, k);
      var rows := Reconcile(p, decide).rows;
      var d := decide(last);
      if d.Kept() {
        FindAppend(rows, [d.row], key, k);
      }
    }
  }

  /** Every written row comes from the decision of some candidate, and every decision is recorded. */
  lemma {:induction false} Outcomes<K(!new), R>(cands: seq<K>, decide: K -> Decision<R>)
    ensures forall r :: r in Reconcile(cands, decide).rows <==>
              exists k :: k in cands && decide(k).Kept() && decide(k).row == r
    ensures forall r :: r in Reconcile(cands, decide).created <==>
              exists k :: k in cands && decide(k) == Create(r)
    ensures forall r :: r in Reconcile(cands, decide).updated <==>
              exists k :: k in cands && decide(k) == Update(r)
    ensures forall r :: r in Reconcile(cands, decide).deleted <==>
              exists k :: k in cands && decide(k) == Delete(r)
    decreases |cands|
  {
    if cands != [] {
      var p := cands[..|cands| - 1];
      var last := cands[|cands| - 1];
      assert cands == p + [last];
      Outcomes(p, decide);
    }
  }

  /** The decision of a candidate shows up in the list its kind of decision goes to. */
  lemma DecisionRecorded<K(!new), R>(cands: seq<K>, decide: K -> Decision<R>, k: K)
    requires k in cands
    ensures decide(k).Create? ==> decide(k).row in Reconcile(cands, decide).created
    ensures decide(k).Update? ==> decide(k).row in Reconcile(cands, decide).updated
    ensures decide(k).Delete? ==> decide(k).row in Reconcile(cands, decide).deleted
  {
    Outcomes(cands, decide);
  }

  /** Two merges run one after the other, list by list. */
  function Concat<R>(m: Merge<R>, n: Merge<R>): Merge<R> {
    Merge(m.rows + n.rows, m.created + n.created, m.updated + n.updated, m.deleted + n.deleted)
  }

  /** Merging two candidate lists in a row is merging the first, then the second. */
  lemma {:induction false} ReconcileAppend<K, R>(a: seq<K>, b: seq<K>, decide: K -> Decision<R>)
    ensures Reconcile(a + b, decide) == Concat(Reconcile(a, decide), Reconcile(b, decide))
    decreases |b|
  {
    if b == [] {
      assert a + b == a;
      var m := Reconcile(a, decide);
      assert m.rows + [] == m.rows && m.created + [] == m.created;
      assert m.updated + [] == m.updated && m.deleted + [] == m.deleted;
    } else {
      var b' := b[..|b| - 1];
      assert (a + b)[..|a + b| - 1] == a + b';
      ReconcileAppend(a, b', decide);
      var m, n := Reconcile(a, decide), Reconcile(b', decide);
      match decide(b[|b| - 1])
      case Create(r) =>
        assert m.rows + n.rows + [r] == m.rows + (n.rows + [r]);
        assert m.created + n.created + [r] == m.created + (n.created + [r]);
      case Update(r) =>
        assert m.rows + n.rows + [r] == m.rows + (n.rows + [r]);
        assert m.updated + n.updated + [r] == m.updated + (n.updated + [r]);
      case Retain(r) =>
        assert m.rows + n.rows + [r] == m.rows + (n.rows + [r]);
      case Delete(r) =>
        assert m.deleted + n.deleted + [r] == m.deleted + (n.deleted + [r]);
      case Skip =>
    }
  }

  /** When every candidate keeps a row, the replacement collection is one row per candidate,
      in candidate order. */
  lemma {:induction false} RowsWhenAllKept<K, R>(cands: seq<K>, decide: K -> Decision<R>)
    requires forall k :: k in cands ==> decide(k).Kept()
    ensures |Reconcile(cands, decide).rows| == |cands|
    ensures forall i :: 0 <= i < |cands| ==>
              decide(cands[i]).Kept() && Reconcile(cands, decide).rows[i] == decide(cands[i]).row
    decreases |cands|
  {
    if cands != [] {
      RowsWhenAllKept(cands[..|cands| - 1], decide);
    }
  }

  /** When no candidate keeps a row, the replacement collection is empty. */
  lemma {:induction false} RowsWhenNoneKept<K, R>(cands: seq<K>, decide: K -> Decision<R>)
    requires forall k :: k in cands ==> !decide(k).Kept()
    ensures Reconcile(cands, decide).rows == []
    decreases |cands|
  {
    if cands != [] {
      RowsWhenNoneKept(cands[..|cands| - 1], decide);
    }
  }

  /** Two deciders that keep the same rows for every candidate produce the same replacement
      collection. */
  lemma {:induction false} SameRows<K, R>(cands: seq<K>, d1: K -> Decision<R>, d2: K -> Decision<R>)
    requires forall k :: k in cands ==> d1(k).Kept() == d2(k).Kept() && (d1(k).Kept() ==> d1(k).row == d2(k).row)
    ensures Reconcile(cands, d1).rows == Reconcile(cands, d2).rows
    decreases |cands|
  {
    if cands != [] {
      SameRows(cands[..|cands| - 1], d1, d2);
    }
  }

  /** The replacement collection depends only on the kept candidates: merging them alone gives the
      same rows. */
  lemma {:induction false} RowsOfKept<K, R>(cands: seq<K>, decide: K -> Decision<R>)
    ensures Reconcile(cands, decide).rows == Reconcile(KeptKeys(cands, decide), decide).rows
    decreases |cands|
  {
    if cands != [] {
      var p := cands[..|cands| - 1];
      var last := cands[|cands| - 1];
      RowsOfKept(p, decide);
      var kp := KeptKeys(p, decide);
      if decide(last).Kept() {
        var k := kp + [last];
        assert KeptKeys(cands, decide) == k;
        assert k[..|k| - 1] == kp && k[|k| - 1] == last;
        assert Reconcile(k, decide).rows == Reconcile(kp, decide).rows + [decide(last).row];
      } else {
        assert KeptKeys(cands, decide) == kp + [];
        assert kp + [] == kp;
      }
      assert Reconcile(cands, decide) == Record(Reconcile(p, decide), decide(last));
    }
  }

  /** Two merges that keep the same candidates, in the same order, with the same row for each,
      produce the same replacement collection, whatever else they visit. */
  lemma SameKeptRows<K, R>(c1: seq<K>, d1: K -> Decision<R>, c2: seq<K>, d2: K -> Decision<R>)
    requires KeptKeys(c1, d1) == KeptKeys(c2, d2)
    requires forall k :: k in KeptKeys(c1, d1) ==> d1(k).Kept() && d2(k).Kept() && d1(k).row == d2(k).row
    ensures Reconcile(c1, d1).rows == Reconcile(c2, d2).rows
  {
    var keys := KeptKeys(c1, d1);
    RowsOfKept(c1, d1);
    RowsOfKept(c2, d2);
    KeptKeysMembers(c1, d1);
    KeptKeysMembers(c2, d2);
    SameRows(keys, d1, d2);
  }

  /** A decider that updates no candidate leaves the update list empty. */
  lemma {:induction false} NoUpdates<K, R>(cands: seq<K>, decide: K -> Decision<R>)
    requires forall k :: k in cands ==> !decide(k).Update?
    ensures Reconcile(cands, decide).updated == []
    decreases |cands|
  {
    if cands != [] {
      NoUpdates(cands[..|cands| - 1], decide);
    }
  }

  /** A decider that deletes no candidate leaves the removal list empty. */
  lemma {:induction false} NoDeletes<K, R>(cands: seq<K>, decide: K -> Decision<R>)
    requires forall k :: k in cands ==> !decide(k).Delete?
    ensures Reconcile(cands, decide).deleted == []
    decreases |cands|
  {
    if cands != [] {
      NoDeletes(cands[..|cands| - 1], decide);
    }
  }

  /** When every candidate of `a` keeps a row and no candidate of `b` does, the replacement
      collection is one row per candidate of `a`, in order, and its keys are `a` itself. */
  lemma KeptPrefix<K(!new), R>(a: seq<K>, b: seq<K>, decide: K -> Decision<R>, key: R -> K)
    requires KeyRespecting(decide, key)
    requires forall k :: k in a ==> decide(k).Kept()
    requires forall k :: k in b ==> !decide(k).Kept()
    ensures Reconcile(a + b, decide).rows == Reconcile(a, decide).rows
    ensures |Reconcile(a + b, decide).rows| == |a|
    ensures forall i :: 0 <= i < |a| ==>
              decide(a[i]).Kept() && Reconcile(a + b, decide).rows[i] == decide(a[i]).row
    ensures KeysOf(Reconcile(a + b, decide).rows, key) == a
  {
    ReconcileAppend(a, b, decide);
    RowsWhenNoneKept(b, decide);
    RowsWhenAllKept(a, decide);
    assert Reconcile(a, decide).rows + [] == Reconcile(a, decide).rows;
    RowKeys(a, decide, key);
    AllKept(a, decide);
  }

  /** Deduplicating the kept keys of `base + rest` onto `base` appends the kept keys of `rest`. */
  lemma AppendKept<K(!new), R>(base: seq<K>, rest: seq<K>, decide: K -> Decision<R>)
    requires Distinct(base + rest)
    ensures AppendNew(base, KeptKeys(base + rest, decide)) == base + KeptKeys(rest, decide)
  {
    var added := KeptKeys(rest, decide);
    KeptKeysAppend(base, rest, decide);
    DistinctSplit(base, rest);
    KeptKeysMembers(rest, decide);
    KeptKeysMembers(base, decide);
    AppendNewConcat(base, KeptKeys(base, decide), added);
    AppendNewNothing(base, KeptKeys(base, decide));
    AppendNewFresh(base, added);
  }

  /** What a second deduplication appends from `catalog` keeps no row, when every kept key of
      `catalog` is present already. */
  lemma AppendedNotKept<K(!new), R>(acc: seq<K>, catalog: seq<K>, decide: K -> Decision<R>)
    requires forall k :: k in catalog && decide(k).Kept() ==> k in acc
    ensures KeptKeys(AppendNew(acc, catalog), decide) == KeptKeys(acc, decide)
  {
    var second := AppendNew(acc, catalog);
    var tail := second[|acc|..];
    assert second == acc + tail;
    AppendNewTail(acc, catalog);
    NoneKept(tail, decide);
    KeptKeysAppend(acc, tail, decide);
    assert KeptKeys(acc, decide) + [] == KeptKeys(acc, decide);
  }

  /** Re-running the candidate construction of a seeding pass on its own kept keys keeps the same
      keys: the candidates are the baseline keys, then the stored keys, then the catalog keys, each
      once, and on the second pass the stored keys are the keys the first pass kept. */
  lemma KeptRepass<K(!new), R>(base: seq<K>, stored: seq<K>, catalog: seq<K>, decide: K -> Decision<R>)
    requires Distinct(base)
    ensures var first := AppendNew(AppendNew(base, stored), catalog);
            var kept := KeptKeys(first, decide);
            KeptKeys(AppendNew(AppendNew(base, kept), catalog), decide) == kept
  {
    var first := AppendNew(AppendNew(base, stored), catalog);
    var kept := KeptKeys(first, decide);
    var rest := first[|base|..];
    assert first == base + rest;
    AppendKept(base, rest, decide);
    var again := base + KeptKeys(rest, decide);
    KeptKeysMembers(first, decide);
    KeptKeysMembers(rest, decide);
    KeptKeysAppend(base, rest, decide);
    KeptKeysMembers(base, decide);
    forall k | k in catalog && decide(k).Kept() ensures k in again {
      assert k in first;
    }
    AppendedNotKept(again, catalog, decide);
    AllKept(KeptKeys(rest, decide), decide);
    KeptKeysAppend(base, KeptKeys(rest, decide), decide);
  }
}
