/**
 * The `tasks` table of logic/task_manager.py, taken abstractly: a map from
 * row id to the stored columns, the AUTOINCREMENT high-water mark kept by
 * SQLite beside it, and the snapshot the store rebuilds after every write.
 */
module TaskTable {
  import opened Ids

  datatype Option<T> = None | Some(value: T)

  /** Largest rowid SQLite hands out; an AUTOINCREMENT insert past it fails with SQLITE_FULL. */
  const MAX_ROWID: int := 0x7FFF_FFFF_FFFF_FFFF

  /**
   * One stored row, without its id (the id is the map key). `done` is the
   * INTEGER column; the table's CHECK constraint keeps it at 0 or 1.
   */
  datatype Row = Row(
    title: string,
    done: int,
    tag: string,
    dueDate: string,
    priority: string,
    createdAt: string)

  /** One record of the in-memory snapshot, with `done` as a boolean. */
  datatype Task = Task(
    id: int,
    title: string,
    done: bool,
    tag: string,
    dueDate: string,
    priority: string,
    createdAt: string)

  /** What a database file holds: the rows and the `sqlite_sequence` entry of the table. */
  datatype Table = Table(rows: map<int, Row>, lastId: int)

  /** The CHECK(done IN (0,1)) constraint on one value. */
  predicate Binary(d: int): (b: bool)
    ensures b ==> (d != 0 <==> d == 1)
  {
    d == 0 || d == 1
  }

  /**
   * What the store relies on of an existing table. SQLite enforces the CHECK
   * constraint on `done`. An id is at most the AUTOINCREMENT high-water mark,
   * which never passes MAX_ROWID; that holds for every table this store
   * wrote, since AUTOINCREMENT raises the mark to any larger id inserted.
   * Ids need not be positive: an explicit INSERT may store 0 or less.
   */
  ghost predicate WellFormed(rows: map<int, Row>, lastId: int): (b: bool)
    ensures b && lastId < MAX_ROWID ==> lastId + 1 !in rows
  {
    && 0 <= lastId <= MAX_ROWID
    && (forall id :: id in rows ==> id <= lastId)
    && (forall id :: id in rows ==> Binary(rows[id].done))
  }

  /**
   * CREATE TABLE IF NOT EXISTS: a file without the table gets an empty one
   * whose AUTOINCREMENT counter has not started; an existing table is kept
   * as it is.
   */
  function EnsureTable(file: Option<Table>): (t: Table)
    ensures file.Some? ==> t == file.value
    ensures file.None? ==> t.rows == map[] && t.lastId == 0
    ensures file.None? ==> WellFormed(t.rows, t.lastId)
  {
    match file
    case Some(existing) => existing
    case None => Table(map[], 0)
  }

  /** Running CREATE TABLE IF NOT EXISTS a second time changes nothing. */
  lemma EnsureTableIdempotent(file: Option<Table>)
    ensures EnsureTable(Some(EnsureTable(file))) == EnsureTable(file)
  {
  }

  /** `int(not bool(d))`: the value `toggle_done` writes back for a stored `done` of `d`. */
  function Flip(d: int): (e: int)
    ensures Binary(e)
    ensures Binary(d) ==> e == 1 - d
  {
    if d != 0 then 0 else 1
  }

  /**
   * UPDATE tasks SET title=?, tag=?, due_date=?, priority=? WHERE id=?:
   * the four columns of the matching row take the new values, its `done`
   * and `created_at` stay, every other row stays, and an absent id matches
   * nothing.
   */
  function Updated(rows: map<int, Row>, id: int, title: string, tag: string, dueDate: string, priority: string): (r: map<int, Row>)
    ensures r.Keys == rows.Keys
    ensures forall k :: k in rows && k != id ==> r[k] == rows[k]
    ensures id in rows ==>
      && r[id].title == title && r[id].tag == tag && r[id].dueDate == dueDate && r[id].priority == priority
      && r[id].done == rows[id].done && r[id].createdAt == rows[id].createdAt
    ensures id !in rows ==> r == rows
  {
    if id in rows then
      rows[id := rows[id].(title := title, tag := tag, dueDate := dueDate, priority := priority)]
    else
      rows
  }

  /**
   * UPDATE tasks SET done=? WHERE id=?, with the negation of the current
   * value: only the `done` column of the matching row changes, and it stays
   * 0 or 1.
   */
  function Toggled(rows: map<int, Row>, id: int): (r: map<int, Row>)
    ensures r.Keys == rows.Keys
    ensures forall k :: k in rows && k != id ==> r[k] == rows[k]
    ensures id in rows ==> r[id].done == Flip(rows[id].done) && r[id] == rows[id].(done := r[id].done)
    ensures id in rows && Binary(rows[id].done) ==> r[id].done != rows[id].done
    ensures id !in rows ==> r == rows
  {
    if id in rows then rows[id := rows[id].(done := Flip(rows[id].done))] else rows
  }

  /**
   * Toggling the same row twice gives the table back, provided `done` obeys
   * the CHECK constraint (a stored 2 would come back as 1).
   */
  lemma ToggleTwice(rows: map<int, Row>, id: int)
    requires forall k :: k in rows ==> Binary(rows[k].done)
    ensures Toggled(Toggled(rows, id), id) == rows
  {
  }

  /** No row that survives a write has a different `created_at`. */
  ghost predicate CreatedAtKept(before: map<int, Row>, after: map<int, Row>)
  {
    forall k :: k in before && k in after ==> after[k].createdAt == before[k].createdAt
  }

  /** No row that survives a write has a different `done`. */
  ghost predicate DoneKept(before: map<int, Row>, after: map<int, Row>)
  {
    forall k :: k in before && k in after ==> after[k].done == before[k].done
  }

  /** The record `_load_sqlite` builds from one row: `done` becomes `bool(done)`. */
  function AsTask(id: int, r: Row): (t: Task)
    ensures t.id == id
    ensures Binary(r.done) ==> (t.done <==> r.done == 1)
  {
    Task(id, r.title, r.done != 0, r.tag, r.dueDate, r.priority, r.createdAt)
  }

  /** The ids of a snapshot, in snapshot order. */
  function IdsOf(s: seq<Task>): (ids: seq<int>)
    ensures |ids| == |s|
    ensures forall i :: 0 <= i < |s| ==> ids[i] == s[i].id
  {
    seq(|s|, i requires 0 <= i < |s| => s[i].id)
  }

  /**
   * The independent description of a correct snapshot of `rows`: ids
   * strictly ascending, every record the projection of the row with its id,
   * and every row present.
   */
  ghost predicate Mirrors(s: seq<Task>, rows: map<int, Row>)
  {
    && Ascending(IdsOf(s))
    && (forall i :: 0 <= i < |s| ==> s[i].id in rows && s[i] == AsTask(s[i].id, rows[s[i].id]))
    && (forall id :: id in rows ==> id in IdsOf(s))
  }

  /** SELECT * FROM tasks ORDER BY id, projected to records (`_load_sqlite`). */
  function Reload(rows: map<int, Row>): (s: seq<Task>)
    ensures |s| == |rows|
  {
    var ids := SortedIds(rows.Keys);
    SortedIdsCorrect(rows.Keys);
    seq(|ids|, i requires 0 <= i < |ids| => AsTask(ids[i], rows[ids[i]]))
  }

  /** The reload is a correct snapshot: all rows, ascending by id, each projected. */
  lemma ReloadMirrors(rows: map<int, Row>)
    ensures |Reload(rows)| == |rows|
    ensures Mirrors(Reload(rows), rows)
  {
    var ids := SortedIds(rows.Keys);
    SortedIdsCorrect(rows.Keys);
    assert IdsOf(Reload(rows)) == ids;
  }

  /** A table has exactly one correct snapshot. */
  lemma MirrorsUnique(s: seq<Task>, t: seq<Task>, rows: map<int, Row>)
    requires Mirrors(s, rows) && Mirrors(t, rows)
    ensures s == t
  {
    forall x
      ensures x in IdsOf(s) <==> x in IdsOf(t)
    {
      if x in IdsOf(s) {
        var i :| 0 <= i < |s| && IdsOf(s)[i] == x;
        assert s[i].id in rows;
      }
      if x in IdsOf(t) {
        var i :| 0 <= i < |t| && IdsOf(t)[i] == x;
        assert t[i].id in rows;
      }
    }
    AscendingUnique(IdsOf(s), IdsOf(t));
    assert |s| == |t|;
    forall i | 0 <= i < |s|
      ensures s[i] == t[i]
    {
      assert IdsOf(s)[i] == IdsOf(t)[i];
    }
  }

  /** An empty table reloads to an empty snapshot. */
  lemma ReloadEmpty()
    ensures Reload(map[]) == []
  {
  }

  /** The ids of a snapshot are pairwise distinct. */
  lemma SnapshotIdsDistinct(rows: map<int, Row>, i: int, j: int)
    requires 0 <= i < |Reload(rows)| && 0 <= j < |Reload(rows)| && i != j
    ensures Reload(rows)[i].id != Reload(rows)[j].id
  {
    var s := Reload(rows);
    ReloadMirrors(rows);
    if i < j {
      assert IdsOf(s)[i] < IdsOf(s)[j];
    } else {
      assert IdsOf(s)[j] < IdsOf(s)[i];
    }
  }

  /** Appending the record of a row whose id is above every present id keeps a snapshot correct. */
  lemma AppendMirrors(snap: seq<Task>, rows: map<int, Row>, id: int, r: Row)
    requires Mirrors(snap, rows)
    requires forall k :: k in rows ==> k < id
    ensures Mirrors(snap + [AsTask(id, r)], rows[id := r])
  {
    var s := snap + [AsTask(id, r)];
    var rows' := rows[id := r];
    assert IdsOf(s) == IdsOf(snap) + [id];
    forall i, j | 0 <= i < j < |s|
      ensures IdsOf(s)[i] < IdsOf(s)[j]
    {
      if j == |snap| {
        assert snap[i].id in rows;
      } else {
        assert IdsOf(snap)[i] < IdsOf(snap)[j];
      }
    }
    forall i | 0 <= i < |s|
      ensures s[i].id in rows' && s[i] == AsTask(s[i].id, rows'[s[i].id])
    {
      if i < |snap| {
        assert snap[i].id in rows;
      }
    }
    forall k | k in rows'
      ensures k in IdsOf(s)
    {
      if k != id {
        assert k in IdsOf(snap);
        var i :| 0 <= i < |snap| && IdsOf(snap)[i] == k;
        assert IdsOf(s)[i] == k;
      } else {
        assert IdsOf(s)[|snap|] == id;
      }
    }
  }

  /**
   * Inserting a row under an id above every present id appends its record
   * at the end of the snapshot and leaves the rest of the snapshot as it was.
   */
  lemma ReloadAppend(rows: map<int, Row>, id: int, r: Row)
    requires forall k :: k in rows ==> k < id
    ensures Reload(rows[id := r]) == Reload(rows) + [AsTask(id, r)]
  {
    ReloadMirrors(rows);
    ReloadMirrors(rows[id := r]);
    AppendMirrors(Reload(rows), rows, id, r);
    MirrorsUnique(Reload(rows) + [AsTask(id, r)], Reload(rows[id := r]), rows[id := r]);
  }

  /** Dropping the record at position `i` keeps the ids strictly ascending. */
  lemma RemoveAscending(snap: seq<Task>, i: int)
    requires Ascending(IdsOf(snap))
    requires 0 <= i < |snap|
    ensures Ascending(IdsOf(snap[..i] + snap[i + 1..]))
  {
    var s := snap[..i] + snap[i + 1..];
    forall p, q | 0 <= p < q < |s|
      ensures IdsOf(s)[p] < IdsOf(s)[q]
    {
      var p', q' := (if p < i then p else p + 1), (if q < i then q else q + 1);
      assert s[p] == snap[p'] && s[q] == snap[q'];
      assert IdsOf(snap)[p'] < IdsOf(snap)[q'];
    }
  }

  /** After dropping the record at position `i`, every record still projects its row. */
  lemma RemoveProjects(snap: seq<Task>, rows: map<int, Row>, i: int, s: seq<Task>, rows': map<int, Row>)
    requires Mirrors(snap, rows)
    requires 0 <= i < |snap|
    requires s == snap[..i] + snap[i + 1..] && rows' == rows - {snap[i].id}
    ensures forall p :: 0 <= p < |s| ==> s[p].id in rows' && s[p] == AsTask(s[p].id, rows'[s[p].id])
  {
    forall p | 0 <= p < |s|
      ensures s[p].id in rows' && s[p] == AsTask(s[p].id, rows'[s[p].id])
    {
      var p' := if p < i then p else p + 1;
      assert s[p] == snap[p'];
      assert IdsOf(snap)[p'] != IdsOf(snap)[i] by {
        if p' < i {
          assert IdsOf(snap)[p'] < IdsOf(snap)[i];
        } else {
          assert IdsOf(snap)[i] < IdsOf(snap)[p'];
        }
      }
    }
  }

  /** After dropping the record at position `i`, every other row still has a record. */
  lemma RemoveCovers(snap: seq<Task>, rows: map<int, Row>, i: int)
    requires Mirrors(snap, rows)
    requires 0 <= i < |snap|
    ensures forall k :: k in rows - {snap[i].id} ==> k in IdsOf(snap[..i] + snap[i + 1..])
  {
    var s := snap[..i] + snap[i + 1..];
    forall k | k in rows - {snap[i].id}
      ensures k in IdsOf(s)
    {
      assert k in IdsOf(snap);
      var p' :| 0 <= p' < |snap| && IdsOf(snap)[p'] == k;
      var p := if p' < i then p' else p' - 1;
      assert s[p] == snap[p'];
      assert IdsOf(s)[p] == k;
    }
  }

  /** Dropping the record at position `i` and its row keeps a snapshot correct. */
  lemma RemoveMirrors(snap: seq<Task>, rows: map<int, Row>, i: int)
    requires Mirrors(snap, rows)
    requires 0 <= i < |snap|
    ensures Mirrors(snap[..i] + snap[i + 1..], rows - {snap[i].id})
  {
    RemoveAscending(snap, i);
    RemoveProjects(snap, rows, i, snap[..i] + snap[i + 1..], rows - {snap[i].id});
    RemoveCovers(snap, rows, i);
  }

  /** Deleting the row behind snapshot position `i` drops exactly that record. */
  lemma ReloadRemove(rows: map<int, Row>, i: int)
    requires 0 <= i < |Reload(rows)|
    ensures Reload(rows - {Reload(rows)[i].id}) == Reload(rows)[..i] + Reload(rows)[i + 1..]
  {
    var snap := Reload(rows);
    ReloadMirrors(rows);
    ReloadMirrors(rows - {snap[i].id});
    RemoveMirrors(snap, rows, i);
    MirrorsUnique(snap[..i] + snap[i + 1..], Reload(rows - {snap[i].id}), rows - {snap[i].id});
  }

  /** Replacing the row behind snapshot position `i` replaces exactly that record, in place. */
  lemma ReloadReplace(rows: map<int, Row>, i: int, r: Row)
    requires 0 <= i < |Reload(rows)|
    ensures Reload(rows[Reload(rows)[i].id := r]) == Reload(rows)[i := AsTask(Reload(rows)[i].id, r)]
  {
    var old_ := Reload(rows);
    var id := old_[i].id;
    var s := old_[i := AsTask(id, r)];
    var rows' := rows[id := r];
    ReloadMirrors(rows);
    ReloadMirrors(rows');
    assert IdsOf(s) == IdsOf(old_);
    forall p | 0 <= p < |s|
      ensures s[p].id in rows' && s[p] == AsTask(s[p].id, rows'[s[p].id])
    {
      if p != i {
        SnapshotIdsDistinct(rows, p, i);
      }
    }
    MirrorsUnique(s, Reload(rows'), rows');
  }

  /** A row id that appears in the snapshot appears at some position. */
  lemma PositionOf(rows: map<int, Row>, id: int) returns (i: int)
    requires id in rows
    ensures 0 <= i < |Reload(rows)| && Reload(rows)[i].id == id
  {
    var s := Reload(rows);
    ReloadMirrors(rows);
    assert id in IdsOf(s);
    i :| 0 <= i < |s| && IdsOf(s)[i] == id;
  }

  /** A position in the snapshot is the only one carrying its id. */
  lemma OnlyPosition(rows: map<int, Row>, i: int, j: int)
    requires 0 <= i < |Reload(rows)| && 0 <= j < |Reload(rows)|
    requires Reload(rows)[i].id == Reload(rows)[j].id
    ensures i == j
  {
    if i != j {
      SnapshotIdsDistinct(rows, i, j);
    }
  }

  /**
   * `edit` seen on the snapshot: the record with that id takes the four new
   * values in place and keeps its `id`, `done` and `created_at`; every other
   * record and the order stay; an absent id leaves the snapshot as it was.
   */
  lemma ReloadUpdated(rows: map<int, Row>, id: int, title: string, tag: string, dueDate: string, priority: string)
    ensures forall i :: 0 <= i < |Reload(rows)| && Reload(rows)[i].id == id ==>
      Reload(Updated(rows, id, title, tag, dueDate, priority))
        == Reload(rows)[i := Reload(rows)[i].(title := title, tag := tag, dueDate := dueDate, priority := priority)]
    ensures id !in rows ==> Reload(Updated(rows, id, title, tag, dueDate, priority)) == Reload(rows)
  {
    if id in rows {
      var i := PositionOf(rows, id);
      ReloadMirrors(rows);
      var r := Updated(rows, id, title, tag, dueDate, priority)[id];
      ReloadReplace(rows, i, r);
      forall j | 0 <= j < |Reload(rows)| && Reload(rows)[j].id == id
        ensures j == i
      {
        OnlyPosition(rows, i, j);
      }
    }
  }

  /**
   * `delete` seen on the snapshot: exactly the record with that id leaves
   * it, the rest keep their order; an absent id leaves it as it was.
   */
  lemma ReloadDeleted(rows: map<int, Row>, id: int)
    ensures forall i :: 0 <= i < |Reload(rows)| && Reload(rows)[i].id == id ==>
      Reload(rows - {id}) == Reload(rows)[..i] + Reload(rows)[i + 1..]
    ensures id !in rows ==> Reload(rows - {id}) == Reload(rows)
  {
    if id in rows {
      var i := PositionOf(rows, id);
      ReloadRemove(rows, i);
      forall j | 0 <= j < |Reload(rows)| && Reload(rows)[j].id == id
        ensures j == i
      {
        OnlyPosition(rows, i, j);
      }
    } else {
      assert rows - {id} == rows;
    }
  }

  /**
   * `toggle_done` seen on the snapshot: the record with that id has its
   * `done` negated in place and nothing else changes; an absent id leaves
   * the snapshot as it was.
   */
  lemma ReloadToggled(rows: map<int, Row>, id: int)
    ensures forall i :: 0 <= i < |Reload(rows)| && Reload(rows)[i].id == id ==>
      Reload(Toggled(rows, id)) == Reload(rows)[i := Reload(rows)[i].(done := !Reload(rows)[i].done)]
    ensures id !in rows ==> Reload(Toggled(rows, id)) == Reload(rows)
  {
    if id in rows {
      var i := PositionOf(rows, id);
      ReloadMirrors(rows);
      ReloadReplace(rows, i, Toggled(rows, id)[id]);
      forall j | 0 <= j < |Reload(rows)| && Reload(rows)[j].id == id
        ensures j == i
      {
        OnlyPosition(rows, i, j);
      }
    }
  }

  /** What the search in `toggle_done` reads off a snapshot record is its row's `done`. */
  lemma RecordOfRow(rows: map<int, Row>, i: int)
    requires 0 <= i < |Reload(rows)|
    ensures Reload(rows)[i].id in rows
    ensures Reload(rows)[i].done == (rows[Reload(rows)[i].id].done != 0)
  {
    ReloadMirrors(rows);
  }

  /** An id the search in `toggle_done` does not meet in the snapshot is not in the table. */
  lemma AbsentFromSnapshot(rows: map<int, Row>, id: int)
    requires forall j :: 0 <= j < |Reload(rows)| ==> Reload(rows)[j].id != id
    ensures id !in rows
  {
    if id in rows {
      var i := PositionOf(rows, id);
    }
  }
}
