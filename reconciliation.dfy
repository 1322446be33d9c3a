/**
 * The reconciliation that ErrandsModel runs after every change to its remote
 * snapshot or to its local overlay, as pure functions over values.
 *
 * The snapshot (`records`) is the list of errands last fetched from the
 * CloudKit private database.  The overlay consists of `inserted`, errands
 * created locally and not yet seen in a snapshot, and `deleted`, the ids of
 * errands deleted locally (tombstones).  `Reconcile` computes the new overlay
 * and the visible list from these three; `ErrandsModel.UpdateErrands` in
 * module Errands is proved to compute exactly this.
 */
module Reconciliation {

  /** The identifier of a CloudKit record (its record name). */
  type RecordId = string

  /** An errand: the record it is stored in, reduced to its id and its `name` field. */
  datatype Errand = Errand(id: RecordId, name: string)

  /** The ids of the errands in `s`. */
  function Ids(s: seq<Errand>): set<RecordId>
  {
    set e | e in s :: e.id
  }

  lemma IdsAppend(a: seq<Errand>, b: seq<Errand>)
    ensures Ids(a + b) == Ids(a) + Ids(b)
  {
    assert forall e :: e in a + b <==> e in a || e in b;
  }

  /** `a` is `b` with zero or more elements left out, the rest in their order. */
  ghost predicate Subsequence<T>(a: seq<T>, b: seq<T>)
    decreases |b|
  {
    if a == [] then true
    else if b == [] then false
    else (a[0] == b[0] && Subsequence(a[1..], b[1..])) || Subsequence(a, b[1..])
  }

  /** No two errands of `s` carry the same id. */
  ghost predicate UniqueIds(s: seq<Errand>)
  {
    forall i, j :: 0 <= i < j < |s| ==> s[i].id != s[j].id
  }

  /**
   * `s` with every errand whose id is in `ids` removed, the rest in order:
   * what an array's `removeAll(where:)` leaves when it tests ids against `ids`.
   */
  function Without(s: seq<Errand>, ids: set<RecordId>): (r: seq<Errand>)
    ensures |r| <= |s|
    ensures forall e :: e in r <==> e in s && e.id !in ids
  {
    if s == [] then []
    else (if s[0].id in ids then [] else [s[0]]) + Without(s[1..], ids)
  }

  /** Filtering distributes over concatenation. */
  lemma {:induction false} WithoutAppend(a: seq<Errand>, b: seq<Errand>, ids: set<RecordId>)
    ensures Without(a + b, ids) == Without(a, ids) + Without(b, ids)
  {
    if a == [] {
      assert a + b == b;
    } else {
      assert (a + b)[0] == a[0];
      assert (a + b)[1..] == a[1..] + b;
      WithoutAppend(a[1..], b, ids);
    }
  }

  /**
   * Filtering keeps every copy of an errand whose id is not removed and
   * drops every copy of one whose id is.
   */
  lemma {:induction false} WithoutMultiplicity(s: seq<Errand>, ids: set<RecordId>, e: Errand)
    ensures multiset(Without(s, ids))[e] == if e.id in ids then 0 else multiset(s)[e]
  {
    if s != [] {
      WithoutMultiplicity(s[1..], ids, e);
      var head := if s[0].id in ids then [] else [s[0]];
      assert s == [s[0]] + s[1..];
      assert multiset(s) == multiset([s[0]]) + multiset(s[1..]);
      assert multiset(head + Without(s[1..], ids)) == multiset(head) + multiset(Without(s[1..], ids));
    }
  }

  /** Filtering a prefix one errand longer appends that errand, unless its id is removed. */
  lemma WithoutSnoc(s: seq<Errand>, i: int, ids: set<RecordId>)
    requires 0 <= i < |s|
    ensures Without(s[..i + 1], ids) == Without(s[..i], ids) + (if s[i].id in ids then [] else [s[i]])
  {
    assert s[..i + 1] == s[..i] + [s[i]];
    WithoutAppend(s[..i], [s[i]], ids);
    assert [s[i]][1..] == [];
  }

  /** Filtering keeps the surviving errands in their original order. */
  lemma {:induction false} WithoutSubsequence(s: seq<Errand>, ids: set<RecordId>)
    ensures Subsequence(Without(s, ids), s)
  {
    if s != [] {
      WithoutSubsequence(s[1..], ids);
      var rest := Without(s[1..], ids);
      if s[0].id in ids {
        assert Without(s, ids) == rest;
      } else {
        assert Without(s, ids) == [s[0]] + rest;
        assert ([s[0]] + rest)[1..] == rest;
      }
    }
  }

  /** Filtering leaves `s` as it is exactly when none of its ids is in `ids`. */
  lemma {:induction false} WithoutNoop(s: seq<Errand>, ids: set<RecordId>)
    ensures Without(s, ids) == s <==> forall e :: e in s ==> e.id !in ids
  {
    if s != [] && forall e :: e in s ==> e.id !in ids {
      assert s[0] in s;
      assert forall e :: e in s[1..] ==> e in s;
      WithoutNoop(s[1..], ids);
      calc {
        Without(s, ids);
        [s[0]] + Without(s[1..], ids);
        [s[0]] + s[1..];
        s;
      }
    }
  }

  /** Filtering twice is filtering once by the union of the two id sets. */
  lemma {:induction false} WithoutTwice(s: seq<Errand>, a: set<RecordId>, b: set<RecordId>)
    ensures Without(Without(s, a), b) == Without(s, a + b)
  {
    if s != [] {
      WithoutTwice(s[1..], a, b);
      var head := if s[0].id in a then [] else [s[0]];
      WithoutAppend(head, Without(s[1..], a), b);
    }
  }

  lemma UniqueIdsTail(s: seq<Errand>)
    requires UniqueIds(s) && s != []
    ensures UniqueIds(s[1..])
    ensures forall e :: e in s[1..] ==> e.id != s[0].id
  {
    var t := s[1..];
    forall i, j | 0 <= i < j < |t| ensures t[i].id != t[j].id {
      assert t[i] == s[i + 1] && t[j] == s[j + 1];
    }
    forall e | e in t ensures e.id != s[0].id {
      var k :| 0 <= k < |t| && t[k] == e;
      assert e == s[k + 1];
    }
  }

  lemma UniqueIdsCons(x: Errand, t: seq<Errand>)
    requires UniqueIds(t)
    requires forall e :: e in t ==> e.id != x.id
    ensures UniqueIds([x] + t)
  {
    var r := [x] + t;
    forall i, j | 0 <= i < j < |r| ensures r[i].id != r[j].id {
      assert r[j] == t[j - 1] && r[j] in t;
      if i > 0 {
        assert r[i] == t[i - 1];
      }
    }
  }

  /** Filtering keeps ids unique. */
  lemma {:induction false} WithoutUniqueIds(s: seq<Errand>, ids: set<RecordId>)
    requires UniqueIds(s)
    ensures UniqueIds(Without(s, ids))
  {
    if s != [] {
      UniqueIdsTail(s);
      WithoutUniqueIds(s[1..], ids);
      if s[0].id !in ids {
        UniqueIdsCons(s[0], Without(s[1..], ids));
      }
    }
  }

  /** Concatenating two lists with unique and disjoint ids gives unique ids. */
  lemma UniqueIdsAppend(a: seq<Errand>, b: seq<Errand>)
    requires UniqueIds(a) && UniqueIds(b)
    requires Ids(a) !! Ids(b)
    ensures UniqueIds(a + b)
  {
    var s := a + b;
    forall i, j | 0 <= i < j < |s| ensures s[i].id != s[j].id {
      if j < |a| {
        assert s[i] == a[i] && s[j] == a[j];
      } else if i >= |a| {
        assert s[i] == b[i - |a|] && s[j] == b[j - |a|];
      } else {
        assert s[i] == a[i] && s[i] in a && s[i].id in Ids(a);
        assert s[j] == b[j - |a|] && s[j] in b && s[j].id in Ids(b);
      }
    }
  }

  /** Appending an errand whose id is new keeps the ids unique. */
  lemma UniqueIdsSnoc(s: seq<Errand>, x: Errand)
    requires UniqueIds(s) && x.id !in Ids(s)
    ensures UniqueIds(s + [x])
  {
    assert Ids([x]) == {x.id};
    UniqueIdsAppend(s, [x]);
  }

  /** The state of the overlay, and the visible list, after a reconciliation. */
  datatype Reconciled = Reconciled(inserted: seq<Errand>, deleted: set<RecordId>, visible: seq<Errand>)

  /**
   * One reconciliation (`updateErrands`): inserts whose id the snapshot
   * now holds are confirmed and dropped; tombstones are cut down to the ids
   * still known (in the snapshot or in a surviving insert); the visible list
   * is the snapshot followed by the surviving inserts, less every errand
   * whose id is tombstoned.
   */
  function Reconcile(records: seq<Errand>, inserted: seq<Errand>, deleted: set<RecordId>): (r: Reconciled)
    ensures forall e :: e in r.visible ==> e.id !in r.deleted
    ensures forall e :: e in r.inserted ==> e.id !in Ids(records)
    ensures r.deleted <= deleted && r.deleted <= Ids(records) + Ids(r.inserted)
  {
    var knownIds := Ids(records);
    var pending := Without(inserted, knownIds);
    var tombstones := deleted * (knownIds + Ids(pending));
    Reconciled(pending, tombstones, Without(records + pending, tombstones))
  }

  /** Surviving inserts are exactly the unconfirmed ones, in their original order. */
  lemma ReconcileInserted(records: seq<Errand>, inserted: seq<Errand>, deleted: set<RecordId>)
    ensures var r := Reconcile(records, inserted, deleted);
      && (forall e :: e in r.inserted <==> e in inserted && e.id !in Ids(records))
      && Subsequence(r.inserted, inserted)
  {
    WithoutSubsequence(inserted, Ids(records));
  }

  /**
   * A tombstone survives exactly when it was there before and its id is still
   * known, either from the snapshot or from a surviving insert.
   */
  lemma ReconcileDeleted(records: seq<Errand>, inserted: seq<Errand>, deleted: set<RecordId>)
    ensures var r := Reconcile(records, inserted, deleted);
      forall id :: id in r.deleted <==> id in deleted && (id in Ids(records) || id in Ids(r.inserted))
  {
  }

  /**
   * The visible list is the snapshot followed by the surviving inserts, each in
   * its own order, with tombstoned errands left out and nothing else.
   */
  lemma ReconcileVisible(records: seq<Errand>, inserted: seq<Errand>, deleted: set<RecordId>)
    ensures var r := Reconcile(records, inserted, deleted);
      && r.visible == Without(records, r.deleted) + Without(r.inserted, r.deleted)
      && (forall e :: e in r.visible <==> (e in records || e in r.inserted) && e.id !in r.deleted)
      && Subsequence(r.visible, records + r.inserted)
  {
    var r := Reconcile(records, inserted, deleted);
    WithoutAppend(records, r.inserted, r.deleted);
    WithoutSubsequence(records + r.inserted, r.deleted);
  }

  /** Reconciling a second time with nothing changed in between changes nothing. */
  lemma ReconcileIdempotent(records: seq<Errand>, inserted: seq<Errand>, deleted: set<RecordId>)
    ensures var r := Reconcile(records, inserted, deleted);
      Reconcile(records, r.inserted, r.deleted) == r
  {
    var r := Reconcile(records, inserted, deleted);
    WithoutNoop(r.inserted, Ids(records));
  }

  /**
   * With unique ids in the snapshot and in the inserts, a confirmed insert is
   * not shown twice: no id appears twice in the inserts or the visible list.
   */
  lemma ReconcileUniqueIds(records: seq<Errand>, inserted: seq<Errand>, deleted: set<RecordId>)
    requires UniqueIds(records) && UniqueIds(inserted)
    ensures var r := Reconcile(records, inserted, deleted);
      UniqueIds(r.inserted) && UniqueIds(r.visible)
  {
    var r := Reconcile(records, inserted, deleted);
    WithoutUniqueIds(inserted, Ids(records));
    UniqueIdsAppend(records, r.inserted);
    WithoutUniqueIds(records + r.inserted, r.deleted);
  }

  /**
   * An errand inserted and then deleted before any snapshot held it keeps both
   * its insert and its tombstone through every reconciliation whose snapshot
   * does not hold its id, and stays hidden.
   */
  lemma UnconfirmedDeletedInsertPersists(records: seq<Errand>, inserted: seq<Errand>, deleted: set<RecordId>, x: Errand)
    requires x in inserted && x.id in deleted && x.id !in Ids(records)
    ensures var r := Reconcile(records, inserted, deleted);
      x in r.inserted && x.id in r.deleted && x !in r.visible
  {
  }

  /** The three equations that say the state (`inserted`, `deleted`, `visible`) is reconciled. */
  ghost predicate ReconciledParts(records: seq<Errand>, inserted: seq<Errand>, deleted: set<RecordId>,
                                  visible: seq<Errand>)
  {
    && Without(inserted, Ids(records)) == inserted
    && deleted * (Ids(records) + Ids(inserted)) == deleted
    && Without(records + inserted, deleted) == visible
  }

  lemma ReconciledByParts(records: seq<Errand>, inserted: seq<Errand>, deleted: set<RecordId>,
                          visible: seq<Errand>)
    ensures Reconcile(records, inserted, deleted) == Reconciled(inserted, deleted, visible)
        <==> ReconciledParts(records, inserted, deleted, visible)
  {
  }

  /**
   * The effect of `addErrand` on a reconciled state: an errand with a fresh id
   * becomes the last insert and the last visible errand; nothing else changes.
   */
  lemma ReconcileAfterInsert(records: seq<Errand>, inserted: seq<Errand>, deleted: set<RecordId>,
                             visible: seq<Errand>, x: Errand)
    requires Reconcile(records, inserted, deleted) == Reconciled(inserted, deleted, visible)
    requires x.id !in Ids(records) && x.id !in Ids(inserted)
    ensures Reconcile(records, inserted + [x], deleted) == Reconciled(inserted + [x], deleted, visible + [x])
  {
    ReconciledByParts(records, inserted, deleted, visible);
    InsertKeepsParts(records, inserted, deleted, visible, x);
    ReconciledByParts(records, inserted + [x], deleted, visible + [x]);
  }

  lemma InsertKeepsParts(records: seq<Errand>, inserted: seq<Errand>, deleted: set<RecordId>,
                         visible: seq<Errand>, x: Errand)
    requires ReconciledParts(records, inserted, deleted, visible)
    requires x.id !in Ids(records) && x.id !in Ids(inserted)
    ensures ReconciledParts(records, inserted + [x], deleted, visible + [x])
  {
    var knownIds := Ids(records);
    assert Without(inserted + [x], knownIds) == inserted + [x] by {
      WithoutAppend(inserted, [x], knownIds);
      assert Without([x], knownIds) == [x];
    }
    assert deleted * (knownIds + Ids(inserted + [x])) == deleted by {
      IdsAppend(inserted, [x]);
      assert deleted <= knownIds + Ids(inserted);
    }
    assert Without(records + (inserted + [x]), deleted) == visible + [x] by {
      assert records + (inserted + [x]) == (records + inserted) + [x];
      WithoutAppend(records + inserted, [x], deleted);
      assert x.id !in deleted;
      assert Without([x], deleted) == [x];
    }
  }

  /**
   * The effect of `delete(at:)` on a reconciled state: the id of the errand at
   * `i` joins the tombstones, because it is a known id, and every errand with
   * that id leaves the visible list; the inserts stay as they are.
   */
  lemma ReconcileAfterDelete(records: seq<Errand>, inserted: seq<Errand>, deleted: set<RecordId>,
                             visible: seq<Errand>, i: int)
    requires Reconcile(records, inserted, deleted) == Reconciled(inserted, deleted, visible)
    requires 0 <= i < |visible|
    ensures var id := visible[i].id;
      Reconcile(records, inserted, deleted + {id}) == Reconciled(inserted, deleted + {id}, Without(visible, {id}))
  {
    ReconciledByParts(records, inserted, deleted, visible);
    DeleteKeepsParts(records, inserted, deleted, visible, i);
    ReconciledByParts(records, inserted, deleted + {visible[i].id}, Without(visible, {visible[i].id}));
  }

  lemma DeleteKeepsParts(records: seq<Errand>, inserted: seq<Errand>, deleted: set<RecordId>,
                         visible: seq<Errand>, i: int)
    requires ReconciledParts(records, inserted, deleted, visible)
    requires 0 <= i < |visible|
    ensures var id := visible[i].id;
      ReconciledParts(records, inserted, deleted + {id}, Without(visible, {id}))
  {
    var x := visible[i];
    var known := Ids(records) + Ids(inserted);
    assert x.id in known by {
      assert x in visible;
      assert x in records + inserted;
    }
    assert (deleted + {x.id}) * known == deleted + {x.id};
    WithoutTwice(records + inserted, deleted, {x.id});
  }

  /** In a list with unique ids, no errand before position `i` carries the id at `i`. */
  lemma WithoutOtherBefore(s: seq<Errand>, i: int)
    requires UniqueIds(s) && 0 <= i < |s|
    ensures Without(s[..i], {s[i].id}) == s[..i]
  {
    var before := s[..i];
    forall e | e in before ensures e.id !in {s[i].id} {
      var k :| 0 <= k < |before| && before[k] == e;
      assert e == s[k];
    }
    WithoutNoop(before, {s[i].id});
  }

  /** In a list with unique ids, no errand after position `i` carries the id at `i`. */
  lemma WithoutOtherAfter(s: seq<Errand>, i: int)
    requires UniqueIds(s) && 0 <= i < |s|
    ensures Without(s[i + 1..], {s[i].id}) == s[i + 1..]
  {
    var after := s[i + 1..];
    forall e | e in after ensures e.id !in {s[i].id} {
      var k :| 0 <= k < |after| && after[k] == e;
      assert e == s[i + 1 + k];
    }
    WithoutNoop(after, {s[i].id});
  }

  /** Filtering out the middle errand of `a + [x] + b` when `a` and `b` keep all of theirs. */
  lemma WithoutMiddle(a: seq<Errand>, x: Errand, b: seq<Errand>, ids: set<RecordId>)
    requires Without(a, ids) == a && Without(b, ids) == b && x.id in ids
    ensures Without(a + [x] + b, ids) == a + b
  {
    calc {
      Without(a + [x] + b, ids);
    == { WithoutAppend(a + [x], b, ids); }
      Without(a + [x], ids) + Without(b, ids);
    == { WithoutAppend(a, [x], ids); }
      Without(a, ids) + Without([x], ids) + b;
    == { assert Without([x], ids) == []; }
      a + [] + b;
    == { assert a + [] == a; }
      a + b;
    }
  }

  /** Filtering the id of `s[i]` out of `s`, given that neither side of `i` holds that id. */
  lemma WithoutAround(s: seq<Errand>, i: int)
    requires 0 <= i < |s|
    requires Without(s[..i], {s[i].id}) == s[..i] && Without(s[i + 1..], {s[i].id}) == s[i + 1..]
    ensures Without(s, {s[i].id}) == s[..i] + s[i + 1..]
  {
    SplitAt(s, i);
    WithoutMiddle(s[..i], s[i], s[i + 1..], {s[i].id});
  }

  lemma SplitAt(s: seq<Errand>, i: int)
    requires 0 <= i < |s|
    ensures s == s[..i] + [s[i]] + s[i + 1..]
  {
  }

  /** Removing the id of one errand from a list with unique ids removes that errand alone. */
  lemma WithoutOnlyThat(s: seq<Errand>, i: int)
    requires UniqueIds(s) && 0 <= i < |s|
    ensures Without(s, {s[i].id}) == s[..i] + s[i + 1..]
  {
    WithoutOtherBefore(s, i);
    WithoutOtherAfter(s, i);
    WithoutAround(s, i);
  }

  /**
   * Snapshot [A, B], pending insert C and a tombstone for B reconcile to the
   * visible list [A, C], with C still pending and B's tombstone kept.
   */
  lemma ConvergenceExample()
    ensures var a, b, c := Errand("a", "A"), Errand("b", "B"), Errand("c", "C");
      Reconcile([a, b], [c], {"b"}) == Reconciled([c], {"b"}, [a, c])
  {
    var a, b, c := Errand("a", "A"), Errand("b", "B"), Errand("c", "C");
    assert Ids([a, b]) == {"a", "b"};
    assert Without([c], {"a", "b"}) == [c] by {
      assert "c" !in {"a", "b"};
      assert [c][1..] == [];
    }
    assert Ids([c]) == {"c"};
    assert {"b"} * ({"a", "b"} + {"c"}) == {"b"};
    assert [a, b] + [c] == [a, b, c];
    assert Without([a, b, c], {"b"}) == [a, c] by {
      assert [a, b, c][1..] == [b, c] && [b, c][1..] == [c] && [c][1..] == [];
      assert Without([c], {"b"}) == [c];
      assert Without([b, c], {"b"}) == [c];
    }
    ReconciledByParts([a, b], [c], {"b"}, [a, c]);
  }

  /**
   * Adding "Milk" and then fetching a snapshot without it keeps "Milk" visible;
   * a later snapshot that holds it shows it once, and the insert is dropped.
   */
  lemma OptimisticInsertExample()
    ensures var eggs, milk := Errand("e", "Eggs"), Errand("m", "Milk");
      && Reconcile([eggs], [milk], {}) == Reconciled([milk], {}, [eggs, milk])
      && Reconcile([eggs, milk], [milk], {}) == Reconciled([], {}, [eggs, milk])
  {
    var eggs, milk := Errand("e", "Eggs"), Errand("m", "Milk");
    assert Ids([eggs]) == {"e"};
    assert Without([milk], {"e"}) == [milk];
    assert [eggs] + [milk] == [eggs, milk];
    assert Ids([eggs, milk]) == {"e", "m"};
    assert Without([milk], {"e", "m"}) == [];
    assert Without([eggs, milk], {}) == [eggs, milk];
  }

  /**
   * Deleting position 0 of the visible errands ["Milk", "Eggs"] tombstones
   * the id found there and leaves ["Eggs"] visible at once.
   */
  lemma DeleteFirstExample()
    ensures var visible := [Errand("m", "Milk"), Errand("e", "Eggs")];
      Reconcile(visible, [], {} + {visible[0].id}) == Reconciled([], {} + {visible[0].id}, [visible[1]])
  {
    var milk, eggs := Errand("m", "Milk"), Errand("e", "Eggs");
    var visible := [milk, eggs];
    assert Reconcile(visible, [], {}) == Reconciled([], {}, visible) by {
      assert Ids(visible) == {"m", "e"};
      assert Ids([]) == {};
      assert visible + [] == visible;
      WithoutNoop(visible, {});
    }
    ReconcileAfterDelete(visible, [], {}, visible, 0);
    assert Without(visible, {"m"}) == [eggs] by {
      assert visible[1..] == [eggs] && [eggs][1..] == [];
      assert Without([eggs], {"m"}) == [eggs];
    }
  }
}
