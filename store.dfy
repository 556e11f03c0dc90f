/** `FavoriteDao`: the on-device `favorites` table, keyed by the primary key
    `id`, with its ordered snapshot query, insert-or-replace, delete by id and
    existence count. The outcome of each SQL statement on the storage engine is
    an input: `None` when it commits, `Some(f)` when the engine throws `f`. */
module Store {
  import opened Wrappers
  import opened Entities

  /** Every row is stored under its own `id`, so the table holds at most one row per id. */
  ghost predicate PrimaryKey(rows: map<int, FavoriteEntity>) {
    forall id :: id in rows ==> rows[id].id == id
  }

  /** Ordered by `savedAt`, most recent first. */
  ghost predicate SortedBySavedAtDesc(s: seq<FavoriteEntity>) {
    forall i, j :: 0 <= i < j < |s| ==> s[i].savedAt >= s[j].savedAt
  }

  /** All ids differ. */
  ghost predicate DistinctIds(es: seq<FavoriteEntity>) {
    forall i, j :: 0 <= i < j < |es| ==> es[i].id != es[j].id
  }

  /** Every element of `s` is the row stored under its id. */
  ghost predicate FromTable(rows: map<int, FavoriteEntity>, s: seq<FavoriteEntity>) {
    forall i :: 0 <= i < |s| ==> s[i].id in rows && rows[s[i].id] == s[i]
  }

  /** Every row of the table occurs in `s`. */
  ghost predicate CoversTable(rows: map<int, FavoriteEntity>, s: seq<FavoriteEntity>) {
    forall id :: id in rows ==> rows[id] in s
  }

  /** `s` is an answer to `SELECT * FROM favorites ORDER BY savedAt DESC` on `rows`:
      every row exactly once and nothing else, most recently saved first; rows
      with equal `savedAt` may come in any order. */
  ghost predicate SnapshotOf(rows: map<int, FavoriteEntity>, s: seq<FavoriteEntity>) {
    && |s| == |rows|
    && FromTable(rows, s)
    && DistinctIds(s)
    && CoversTable(rows, s)
    && SortedBySavedAtDesc(s)
  }

  /** `k` is the key of a most recently saved row. */
  ghost predicate IsLatest(rows: map<int, FavoriteEntity>, k: int) {
    k in rows && forall k' :: k' in rows ==> rows[k'].savedAt <= rows[k].savedAt
  }

  lemma {:induction false} LatestExists(rows: map<int, FavoriteEntity>)
    requires |rows| > 0
    ensures exists k :: IsLatest(rows, k)
    decreases |rows|
  {
    if forall k :: k !in rows { assert false; }
    var k0 :| k0 in rows;
    var rest := rows - {k0};
    assert rest.Keys == rows.Keys - {k0};
    assert forall k' :: k' in rows ==> k' == k0 || (k' in rest && rest[k'] == rows[k']);
    if |rest| == 0 {
      assert rest.Keys == {};
      assert IsLatest(rows, k0);
    } else {
      LatestExists(rest);
      var k1 :| IsLatest(rest, k1);
      if rows[k0].savedAt >= rows[k1].savedAt {
        assert IsLatest(rows, k0);
      } else {
        assert IsLatest(rows, k1);
      }
    }
  }

  lemma ConsFromTable(rows: map<int, FavoriteEntity>, k: int, tail: seq<FavoriteEntity>)
    requires PrimaryKey(rows) && k in rows && FromTable(rows - {k}, tail)
    ensures FromTable(rows, [rows[k]] + tail)
  {
    var s := [rows[k]] + tail;
    forall i | 0 <= i < |s| ensures s[i].id in rows && rows[s[i].id] == s[i] {
      if i == 0 {
        assert s[0] == rows[k] && rows[k].id == k;
      } else {
        assert s[i] == tail[i - 1];
        assert tail[i - 1].id in rows - {k} && (rows - {k})[tail[i - 1].id] == tail[i - 1];
      }
    }
  }

  lemma ConsDistinct(rows: map<int, FavoriteEntity>, k: int, tail: seq<FavoriteEntity>)
    requires PrimaryKey(rows) && k in rows && FromTable(rows - {k}, tail) && DistinctIds(tail)
    ensures DistinctIds([rows[k]] + tail)
  {
    var s := [rows[k]] + tail;
    forall i, j | 0 <= i < j < |s| ensures s[i].id != s[j].id {
      assert s[j] == tail[j - 1];
      if i > 0 { assert s[i] == tail[i - 1]; }
    }
  }

  lemma ConsCovers(rows: map<int, FavoriteEntity>, k: int, tail: seq<FavoriteEntity>)
    requires k in rows && CoversTable(rows - {k}, tail)
    ensures CoversTable(rows, [rows[k]] + tail)
  {
    var s := [rows[k]] + tail;
    forall id | id in rows ensures rows[id] in s {
      if id != k {
        assert (rows - {k})[id] in tail;
        var t :| 0 <= t < |tail| && tail[t] == rows[id];
        assert s[t + 1] == rows[id];
      }
    }
  }

  lemma ConsSorted(rows: map<int, FavoriteEntity>, k: int, tail: seq<FavoriteEntity>)
    requires IsLatest(rows, k) && FromTable(rows - {k}, tail) && SortedBySavedAtDesc(tail)
    ensures SortedBySavedAtDesc([rows[k]] + tail)
  {
    var s := [rows[k]] + tail;
    forall i, j | 0 <= i < j < |s| ensures s[i].savedAt >= s[j].savedAt {
      assert s[j] == tail[j - 1];
      if i > 0 { assert s[i] == tail[i - 1]; } else { assert tail[j - 1].id in rows; }
    }
  }

  /** A most recently saved row followed by a snapshot of the other rows is a snapshot. */
  lemma SnapshotOfCons(rows: map<int, FavoriteEntity>, k: int, tail: seq<FavoriteEntity>)
    requires PrimaryKey(rows) && IsLatest(rows, k)
    requires SnapshotOf(rows - {k}, tail)
    ensures SnapshotOf(rows, [rows[k]] + tail)
  {
    assert (rows - {k}).Keys == rows.Keys - {k};
    ConsFromTable(rows, k, tail);
    ConsDistinct(rows, k, tail);
    ConsCovers(rows, k, tail);
    ConsSorted(rows, k, tail);
  }

  /** The snapshot of the table: a most recently saved row, then the snapshot of
      the others. Which of several rows with the same `savedAt` comes first is
      left unspecified, as SQL leaves it. */
  ghost function Snapshot(rows: map<int, FavoriteEntity>): (s: seq<FavoriteEntity>)
    requires PrimaryKey(rows)
    ensures SnapshotOf(rows, s)
    decreases |rows|
  {
    if |rows| == 0 then
      assert rows.Keys == {};
      []
    else
      LatestExists(rows);
      var k :| IsLatest(rows, k);
      var rest := rows - {k};
      assert rest.Keys == rows.Keys - {k};
      var tail := Snapshot(rest);
      SnapshotOfCons(rows, k, tail);
      [rows[k]] + tail
  }

  lemma TailFromTable(rows: map<int, FavoriteEntity>, s: seq<FavoriteEntity>)
    requires s != [] && FromTable(rows, s) && DistinctIds(s)
    ensures FromTable(rows - {s[0].id}, s[1..])
  {
    var t := s[1..];
    forall i | 0 <= i < |t| ensures t[i].id in rows - {s[0].id} && (rows - {s[0].id})[t[i].id] == t[i] {
      assert t[i] == s[i + 1];
    }
  }

  lemma TailDistinct(s: seq<FavoriteEntity>)
    requires s != [] && DistinctIds(s)
    ensures DistinctIds(s[1..])
  {
    var t := s[1..];
    forall i, j | 0 <= i < j < |t| ensures t[i].id != t[j].id {
      assert t[i] == s[i + 1] && t[j] == s[j + 1];
    }
  }

  lemma TailCovers(rows: map<int, FavoriteEntity>, s: seq<FavoriteEntity>)
    requires PrimaryKey(rows) && s != [] && CoversTable(rows, s)
    ensures CoversTable(rows - {s[0].id}, s[1..])
  {
    forall id | id in rows - {s[0].id} ensures (rows - {s[0].id})[id] in s[1..] {
      var i :| 0 <= i < |s| && s[i] == rows[id];
      assert i != 0;
      assert s[1..][i - 1] == rows[id];
    }
  }

  lemma TailSorted(s: seq<FavoriteEntity>)
    requires s != [] && SortedBySavedAtDesc(s)
    ensures SortedBySavedAtDesc(s[1..])
  {
    var t := s[1..];
    forall i, j | 0 <= i < j < |t| ensures t[i].savedAt >= t[j].savedAt {
      assert t[i] == s[i + 1] && t[j] == s[j + 1];
    }
  }

  /** Dropping the first row of a snapshot leaves a snapshot of the other rows. */
  lemma SnapshotOfTail(rows: map<int, FavoriteEntity>, s: seq<FavoriteEntity>)
    requires PrimaryKey(rows) && SnapshotOf(rows, s) && s != []
    ensures SnapshotOf(rows - {s[0].id}, s[1..])
  {
    assert s[0].id in rows;
    assert (rows - {s[0].id}).Keys == rows.Keys - {s[0].id};
    TailFromTable(rows, s);
    TailDistinct(s);
    TailCovers(rows, s);
    TailSorted(s);
  }

  /** No two rows were saved at the same instant. */
  ghost predicate DistinctSavedAt(rows: map<int, FavoriteEntity>) {
    forall a, b :: a in rows && b in rows && a != b ==> rows[a].savedAt != rows[b].savedAt
  }

  /** The first row of a snapshot is a most recently saved one. */
  lemma SnapshotHeadIsLatest(rows: map<int, FavoriteEntity>, s: seq<FavoriteEntity>)
    requires PrimaryKey(rows) && SnapshotOf(rows, s) && s != []
    ensures IsLatest(rows, s[0].id)
  {
    forall k | k in rows ensures rows[k].savedAt <= s[0].savedAt {
      assert rows[k] in s;
      var i :| 0 <= i < |s| && s[i] == rows[k];
      assert s[0].savedAt >= s[i].savedAt;
    }
  }

  /** With distinct `savedAt` values two snapshots start with the same row. */
  lemma SnapshotHeadsAgree(rows: map<int, FavoriteEntity>, s1: seq<FavoriteEntity>, s2: seq<FavoriteEntity>)
    requires PrimaryKey(rows) && DistinctSavedAt(rows)
    requires SnapshotOf(rows, s1) && SnapshotOf(rows, s2) && s1 != []
    ensures s2 != [] && s1[0] == s2[0]
  {
    SnapshotHeadIsLatest(rows, s1);
    SnapshotHeadIsLatest(rows, s2);
    var k1, k2 := s1[0].id, s2[0].id;
    assert rows[k1].savedAt == rows[k2].savedAt;
  }

  /** Removing a row keeps the remaining `savedAt` values distinct. */
  lemma DistinctSavedAtRemove(rows: map<int, FavoriteEntity>, k: int)
    requires DistinctSavedAt(rows)
    ensures DistinctSavedAt(rows - {k})
  {
  }

  /** With distinct `savedAt` values the order of the snapshot is fully determined. */
  lemma {:induction false} SnapshotUnique(rows: map<int, FavoriteEntity>, s1: seq<FavoriteEntity>, s2: seq<FavoriteEntity>)
    requires PrimaryKey(rows) && DistinctSavedAt(rows)
    requires SnapshotOf(rows, s1) && SnapshotOf(rows, s2)
    ensures s1 == s2
    decreases |rows|
  {
    if s1 != [] {
      SnapshotHeadsAgree(rows, s1, s2);
      var k := s1[0].id;
      SnapshotOfTail(rows, s1);
      SnapshotOfTail(rows, s2);
      DistinctSavedAtRemove(rows, k);
      SnapshotUnique(rows - {k}, s1[1..], s2[1..]);
      assert s1 == [s1[0]] + s1[1..];
      assert s2 == [s2[0]] + s2[1..];
    }
  }

  /** The rows of a fresh table. */
  const EmptyTable: map<int, FavoriteEntity> := map[]

  /** The effect of one committed `insertFavorite(e)`: insert, or replace the row with the same id. */
  function Upsert(rows: map<int, FavoriteEntity>, e: FavoriteEntity): (r: map<int, FavoriteEntity>)
    ensures PrimaryKey(rows) ==> PrimaryKey(r)
    ensures r.Keys == rows.Keys + {e.id} && r[e.id] == e
    ensures forall id :: id in rows && id != e.id ==> r[id] == rows[id]
  {
    rows[e.id := e]
  }

  /** The effect of committed `insertFavorite` calls made one after another. */
  function UpsertAll(rows: map<int, FavoriteEntity>, es: seq<FavoriteEntity>): (r: map<int, FavoriteEntity>)
    ensures PrimaryKey(rows) ==> PrimaryKey(r)
    decreases |es|
  {
    if es == [] then rows else UpsertAll(Upsert(rows, es[0]), es[1..])
  }

  /** Saving entities with distinct, new ids one after another adds one row per
      entity, each stored as given, and keeps every row already there. */
  lemma {:induction false} UpsertAllDistinct(rows: map<int, FavoriteEntity>, es: seq<FavoriteEntity>)
    requires PrimaryKey(rows) && DistinctIds(es)
    requires forall i :: 0 <= i < |es| ==> es[i].id !in rows
    ensures var r := UpsertAll(rows, es);
      && PrimaryKey(r)
      && |r| == |rows| + |es|
      && (forall i :: 0 <= i < |es| ==> es[i].id in r && r[es[i].id] == es[i])
      && (forall id :: id in rows ==> id in r && r[id] == rows[id])
    decreases |es|
  {
    if es != [] {
      var next := Upsert(rows, es[0]);
      assert |next| == |rows| + 1 by {
        assert next.Keys == rows.Keys + {es[0].id};
      }
      var tail := es[1..];
      assert DistinctIds(tail) by {
        forall i, j | 0 <= i < j < |tail| ensures tail[i].id != tail[j].id {
          assert tail[i] == es[i + 1] && tail[j] == es[j + 1];
        }
      }
      forall i | 0 <= i < |tail| ensures tail[i].id !in next {
        assert tail[i] == es[i + 1];
      }
      UpsertAllDistinct(next, tail);
      var r := UpsertAll(rows, es);
      forall i | 0 <= i < |es| ensures es[i].id in r && r[es[i].id] == es[i] {
        if i > 0 { assert es[i] == tail[i - 1]; }
      }
    }
  }

  /** After an insert the snapshot holds the new entity as given, the row count
      grows by one exactly when the id was new, and every other row is the same. */
  lemma SnapshotAfterUpsert(rows: map<int, FavoriteEntity>, e: FavoriteEntity)
    requires PrimaryKey(rows)
    ensures var after := Snapshot(Upsert(rows, e));
      && e in after
      && |after| == (if e.id in rows then |rows| else |rows| + 1)
      && (forall x :: x in after ==> x == e || (x in Snapshot(rows) && x.id != e.id))
      && (forall x :: x in Snapshot(rows) && x.id != e.id ==> x in after)
  {
    var r := Upsert(rows, e);
    if e.id !in rows {
      assert r.Keys == rows.Keys + {e.id};
    }
    var after := Snapshot(r);
    forall x | x in after ensures x == e || (x in Snapshot(rows) && x.id != e.id) {
      if x.id != e.id {
        assert rows[x.id] in Snapshot(rows);
      }
    }
    forall x | x in Snapshot(rows) && x.id != e.id ensures x in after {
      assert r[x.id] == x;
    }
  }

  /** A row saved later than every row in the table comes first in the next
      snapshot, whether its id was new or already present. */
  lemma NewestSaveComesFirst(rows: map<int, FavoriteEntity>, e: FavoriteEntity)
    requires PrimaryKey(rows)
    requires forall id :: id in rows ==> rows[id].savedAt < e.savedAt
    ensures var after := Snapshot(Upsert(rows, e)); after != [] && after[0] == e
  {
    var r := Upsert(rows, e);
    var after := Snapshot(r);
    assert e.id in r;
    assert |after| > 0;
    SnapshotHeadIsLatest(r, after);
    var h := after[0];
    assert r[h.id] == h;
    assert r[e.id].savedAt <= h.savedAt;
    assert h.id == e.id;
  }

  lemma SnapshotAfterDeleteAt(rows: map<int, FavoriteEntity>, id: int, x: FavoriteEntity)
    requires PrimaryKey(rows)
    ensures x in Snapshot(rows - {id}) <==> x in Snapshot(rows) && x.id != id
  {
    var r := rows - {id};
    var before, after := Snapshot(rows), Snapshot(r);
    if x in after {
      var i :| 0 <= i < |after| && after[i] == x;
      assert x.id in r && rows[x.id] == x;
      assert rows[x.id] in before;
    }
    if x in before && x.id != id {
      var i :| 0 <= i < |before| && before[i] == x;
      assert x.id in r && r[x.id] == x;
    }
  }

  /** After a delete the snapshot holds exactly the rows whose id differs. */
  lemma SnapshotAfterDelete(rows: map<int, FavoriteEntity>, id: int)
    requires PrimaryKey(rows)
    ensures var after := Snapshot(rows - {id});
      && |after| == (if id in rows then |rows| - 1 else |rows|)
      && (forall x :: x in after <==> x in Snapshot(rows) && x.id != id)
  {
    assert (rows - {id}).Keys == rows.Keys - {id};
    forall x ensures x in Snapshot(rows - {id}) <==> x in Snapshot(rows) && x.id != id {
      SnapshotAfterDeleteAt(rows, id, x);
    }
  }

  /** A fresh table has an empty snapshot. */
  lemma EmptyTableSnapshot()
    ensures Snapshot(EmptyTable) == []
  {
  }

  /** Three committed inserts with distinct ids give a table of those three rows. */
  lemma UpsertThree(a: FavoriteEntity, b: FavoriteEntity, c: FavoriteEntity)
    requires a.id != b.id && b.id != c.id && a.id != c.id
    ensures UpsertAll(EmptyTable, [a, b, c]) == map[a.id := a, b.id := b, c.id := c]
  {
    var r1 := Upsert(EmptyTable, a);
    var r2 := Upsert(r1, b);
    var r3 := Upsert(r2, c);
    assert [a, b, c][1..] == [b, c] && [b, c][1..] == [c];
    assert UpsertAll(EmptyTable, [a, b, c]) == UpsertAll(r1, [b, c]);
    assert UpsertAll(r1, [b, c]) == UpsertAll(r2, [c]);
    assert UpsertAll(r2, [c]) == UpsertAll(r3, [c][1..]) == r3;
  }

  lemma ThreeRowTable(rows: map<int, FavoriteEntity>, x: FavoriteEntity, y: FavoriteEntity, z: FavoriteEntity)
    requires rows == map[x.id := x, y.id := y, z.id := z]
    requires x.id != y.id && y.id != z.id && x.id != z.id
    requires x.savedAt > y.savedAt > z.savedAt
    ensures rows.Keys == {x.id, y.id, z.id} && |rows| == 3
    ensures PrimaryKey(rows) && DistinctSavedAt(rows)
  {
    assert rows.Keys == {x.id, y.id, z.id};
    assert |rows| == 3 by {
      assert {x.id, y.id, z.id} == {x.id} + {y.id} + {z.id};
    }
  }

  lemma ThreeRowSnapshot(rows: map<int, FavoriteEntity>, x: FavoriteEntity, y: FavoriteEntity, z: FavoriteEntity)
    requires rows == map[x.id := x, y.id := y, z.id := z]
    requires x.id != y.id && y.id != z.id && x.id != z.id
    requires x.savedAt > y.savedAt > z.savedAt
    ensures PrimaryKey(rows) && DistinctSavedAt(rows)
    ensures SnapshotOf(rows, [x, y, z])
  {
    ThreeRowTable(rows, x, y, z);
    var s := [x, y, z];
    assert FromTable(rows, s) by {
      assert rows[x.id] == x && rows[y.id] == y && rows[z.id] == z;
    }
    assert CoversTable(rows, s) by {
      forall id | id in rows ensures rows[id] in s {
        assert id == x.id || id == y.id || id == z.id;
      }
    }
  }

  /** Inserting savedAt 1000, 5000 and 3000 for ids 1, 2 and 3 lists the ids as 2, 3, 1. */
  lemma OrdersBySavedAtDescending(oldest: FavoriteEntity, newest: FavoriteEntity, middle: FavoriteEntity)
    requires oldest.id == 1 && oldest.savedAt == 1000
    requires newest.id == 2 && newest.savedAt == 5000
    requires middle.id == 3 && middle.savedAt == 3000
    ensures Snapshot(UpsertAll(EmptyTable, [oldest, newest, middle])) == [newest, middle, oldest]
  {
    UpsertThree(oldest, newest, middle);
    var rows := map[oldest.id := oldest, newest.id := newest, middle.id := middle];
    assert rows == map[newest.id := newest, middle.id := middle, oldest.id := oldest];
    ThreeRowSnapshot(rows, newest, middle, oldest);
    SnapshotUnique(rows, Snapshot(rows), [newest, middle, oldest]);
  }

  /** Saving under an id already present replaces the row: still one row, with the new title. */
  lemma ReplaceKeepsOneRow(original: FavoriteEntity, renamed: FavoriteEntity)
    requires original.id == renamed.id
    ensures Snapshot(UpsertAll(EmptyTable, [original, renamed])) == [renamed]
  {
    var r1 := Upsert(EmptyTable, original);
    var rows := Upsert(r1, renamed);
    assert [original, renamed][1..] == [renamed];
    assert UpsertAll(EmptyTable, [original, renamed]) == UpsertAll(r1, [renamed]);
    assert UpsertAll(r1, [renamed]) == UpsertAll(rows, [renamed][1..]) == rows;
    assert rows == map[renamed.id := renamed];
    var s := Snapshot(rows);
    assert |s| == 1 && s[0] == rows[s[0].id];
  }

  class FavoriteDao {
    /** The rows of the table, by primary key. */
    var rows: map<int, FavoriteEntity>
    /** Every write statement issued on this table, in order (what a call recorder sees). */
    ghost var writes: seq<Write>

    ghost predicate Valid()
      reads this
    {
      PrimaryKey(rows)
    }

    /** A fresh, empty table. */
    constructor ()
      ensures Valid() && rows == EmptyTable && writes == []
      ensures GetAllFavorites(None) == Success([])
    {
      rows := map[];
      writes := [];
    }

    /** `getAllFavorites()`: the snapshot a collector of the query receives for the
        current table, or the fault the query throws. */
    ghost function GetAllFavorites(fault: Option<Fault>): (r: Result<seq<FavoriteEntity>, Fault>)
      reads this
      requires Valid()
      ensures fault.Some? ==> r == Failure(fault.value)
      ensures fault.None? ==> r.Success? && SnapshotOf(rows, r.value)
    {
      match fault
      case Some(f) => Failure(f)
      case None => Success(Snapshot(rows))
    }

    /** `insertFavorite(entity)` with `OnConflictStrategy.REPLACE`. */
    method InsertFavorite(entity: FavoriteEntity, fault: Option<Fault>) returns (r: Outcome<Fault>)
      requires Valid()
      modifies this
      ensures Valid()
      ensures writes == old(writes) + [Insert(entity)]
      ensures fault.None? ==> r == Pass && rows == Upsert(old(rows), entity)
      ensures fault.Some? ==> r == Fail(fault.value) && rows == old(rows)
    {
      writes := writes + [Insert(entity)];
      match fault
      case Some(f) =>
        r := Fail(f);
      case None =>
        rows := rows[entity.id := entity];
        r := Pass;
    }

    /** `deleteFavorite(id)`: removes the row with that id; an absent id is no error. */
    method DeleteFavorite(id: int, fault: Option<Fault>) returns (r: Outcome<Fault>)
      requires Valid()
      modifies this
      ensures Valid()
      ensures writes == old(writes) + [Delete(id)]
      ensures fault.None? ==> r == Pass && rows == old(rows) - {id}
      ensures fault.None? && id !in old(rows) ==> rows == old(rows)
      ensures fault.Some? ==> r == Fail(fault.value) && rows == old(rows)
    {
      writes := writes + [Delete(id)];
      match fault
      case Some(f) =>
        r := Fail(f);
      case None =>
        rows := rows - {id};
        r := Pass;
    }

    /** `favoriteExists(id)`: `SELECT COUNT(*) FROM favorites WHERE id = :id`,
        which the primary key makes 1 for a present id and 0 otherwise. */
    function FavoriteExists(id: int): (n: int)
      reads this
      requires Valid()
      ensures (n == 1) == (id in rows)
      ensures (n == 0) == (id !in rows)
    {
      var matching := set k | k in rows && rows[k].id == id;
      assert forall k :: k in matching <==> k in rows && k == id;
      assert matching == if id in rows then {id} else {};
      |matching|
    }
  }

  /** A write statement issued on the table. */
  datatype Write = Insert(entity: FavoriteEntity) | Delete(id: int)
}
