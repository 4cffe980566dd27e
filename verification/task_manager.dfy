/**
 * The `TaskManager` class of logic/task_manager.py: a connection-backed
 * `tasks` table (here the fields `rows` and `lastId`) and the snapshot
 * `tasks` that every public mutator reassigns from the table after writing.
 */
module Store {
  import opened Ids
  import opened TaskTable

  class TaskManager {
    /** The rows of the `tasks` table, by id. */
    var rows: map<int, Row>
    /** The table's `sqlite_sequence` entry: the largest id AUTOINCREMENT has handed out. */
    var lastId: int
    /** The snapshot collaborators read: the table as of the last completed operation. */
    var tasks: seq<Task>
    /**
     * The ids handed out while this store is open, including those of
     * deleted rows, together with the ids present when it was opened. Ids
     * deleted before that lie at or below `lastId` too.
     */
    ghost var issued: set<int>

    /** What holds of the table between any two statements. */
    ghost predicate Stored()
      reads this
    {
      && WellFormed(rows, lastId)
      && rows.Keys <= issued
      && (forall id :: id in issued ==> id <= lastId)
    }

    /** What holds between public operations: the snapshot is the reload of the table. */
    ghost predicate Valid()
      reads this
    {
      Stored() && tasks == Reload(rows)
    }

    /**
     * `__init__`: open the file (None when it has no `tasks` table yet),
     * run CREATE TABLE IF NOT EXISTS, then load the snapshot.
     */
    constructor (file: Option<Table>)
      requires file.Some? ==> WellFormed(file.value.rows, file.value.lastId)
      ensures Valid()
      ensures rows == EnsureTable(file).rows && lastId == EnsureTable(file).lastId
      ensures file.None? ==> tasks == []
    {
      var t := EnsureTable(file);
      rows := t.rows;
      lastId := t.lastId;
      issued := t.rows.Keys;
      tasks := Reload(t.rows);
    }

    /**
     * `_insert_sqlite`: a new row with `done` 0 under the next AUTOINCREMENT
     * id; once the counter has reached MAX_ROWID the insert fails, the error
     * is swallowed and the table is left as it was.
     */
    method InsertRow(title: string, tag: string, dueDate: string, priority: string, createdAt: string)
      requires Stored()
      modifies this`rows, this`lastId, this`issued
      ensures Stored()
      ensures old(lastId) < MAX_ROWID ==>
        && lastId == old(lastId) + 1
        && rows == old(rows)[lastId := Row(title, 0, tag, dueDate, priority, createdAt)]
        && issued == old(issued) + {lastId}
      ensures old(lastId) == MAX_ROWID ==>
        rows == old(rows) && lastId == old(lastId) && issued == old(issued)
    {
      if lastId < MAX_ROWID {
        lastId := lastId + 1;
        rows := rows[lastId := Row(title, 0, tag, dueDate, priority, createdAt)];
        issued := issued + {lastId};
      }
    }

    /** `_update_sqlite`: UPDATE of title, tag, due_date and priority WHERE id matches. */
    method UpdateRow(id: int, title: string, tag: string, dueDate: string, priority: string)
      requires Stored()
      modifies this`rows
      ensures Stored()
      ensures rows == Updated(old(rows), id, title, tag, dueDate, priority)
    {
      rows := Updated(rows, id, title, tag, dueDate, priority);
    }

    /** `_delete_sqlite`: DELETE WHERE id matches; nothing happens to the counter. */
    method DeleteRow(id: int)
      requires Stored()
      modifies this`rows
      ensures Stored()
      ensures rows == old(rows) - {id}
    {
      rows := rows - {id};
    }

    /** `_toggle_sqlite`: UPDATE of `done` to `int(newDone)` WHERE id matches. */
    method ToggleRow(id: int, newDone: bool)
      requires Stored()
      modifies this`rows
      ensures Stored()
      ensures id in old(rows) ==> rows == old(rows)[id := old(rows)[id].(done := if newDone then 1 else 0)]
      ensures id !in old(rows) ==> rows == old(rows)
    {
      if id in rows {
        rows := rows[id := rows[id].(done := if newDone then 1 else 0)];
      }
    }

    /**
     * `add`: insert, then reload. The new task comes last in the snapshot,
     * with `done` false and an id above every id ever handed out.
     */
    method Add(title: string, tag: string, dueDate: string, priority: string, createdAt: string)
      requires Valid()
      modifies this
      ensures Valid()
      ensures old(lastId) < MAX_ROWID ==>
        && lastId == old(lastId) + 1
        && (forall id :: id in old(issued) ==> id < lastId)
        && rows == old(rows)[lastId := Row(title, 0, tag, dueDate, priority, createdAt)]
        && tasks == old(tasks) + [Task(lastId, title, false, tag, dueDate, priority, createdAt)]
        && issued == old(issued) + {lastId}
      ensures old(lastId) == MAX_ROWID ==>
        rows == old(rows) && lastId == old(lastId) && issued == old(issued) && tasks == old(tasks)
      ensures DoneKept(old(rows), rows) && CreatedAtKept(old(rows), rows)
    {
      InsertRow(title, tag, dueDate, priority, createdAt);
      if old(lastId) < MAX_ROWID {
        ReloadAppend(old(rows), lastId, Row(title, 0, tag, dueDate, priority, createdAt));
      }
      tasks := Reload(rows);
    }

    /**
     * `edit`: update, then reload. The record with that id keeps its place,
     * its `done` and its `created_at`; an absent id changes nothing.
     */
    method Edit(id: int, title: string, tag: string, dueDate: string, priority: string)
      requires Valid()
      modifies this
      ensures Valid()
      ensures lastId == old(lastId) && issued == old(issued)
      ensures rows == Updated(old(rows), id, title, tag, dueDate, priority)
      ensures forall i :: 0 <= i < |old(tasks)| && old(tasks)[i].id == id ==>
        tasks == old(tasks)[i := old(tasks)[i].(title := title, tag := tag, dueDate := dueDate, priority := priority)]
      ensures id !in old(rows) ==> tasks == old(tasks)
      ensures DoneKept(old(rows), rows) && CreatedAtKept(old(rows), rows)
    {
      UpdateRow(id, title, tag, dueDate, priority);
      ReloadUpdated(old(rows), id, title, tag, dueDate, priority);
      tasks := Reload(rows);
    }

    /**
     * `delete`: delete, then reload. Exactly the record with that id leaves
     * the snapshot; an absent id changes nothing; the id is never handed
     * out again.
     */
    method Delete(id: int)
      requires Valid()
      modifies this
      ensures Valid()
      ensures lastId == old(lastId) && issued == old(issued)
      ensures rows == old(rows) - {id}
      ensures forall i :: 0 <= i < |old(tasks)| && old(tasks)[i].id == id ==>
        tasks == old(tasks)[..i] + old(tasks)[i + 1..]
      ensures id !in old(rows) ==> tasks == old(tasks)
      ensures DoneKept(old(rows), rows) && CreatedAtKept(old(rows), rows)
    {
      DeleteRow(id);
      ReloadDeleted(old(rows), id);
      tasks := Reload(rows);
    }

    /**
     * `toggle_done`: search the snapshot for the id; on a hit write the
     * negation of the record's `done` and stop; reload in every case.
     */
    method ToggleDone(id: int)
      requires Valid()
      modifies this
      ensures Valid()
      ensures lastId == old(lastId) && issued == old(issued)
      ensures rows == Toggled(old(rows), id)
      ensures forall i :: 0 <= i < |old(tasks)| && old(tasks)[i].id == id ==>
        tasks == old(tasks)[i := old(tasks)[i].(done := !old(tasks)[i].done)]
      ensures id !in old(rows) ==> tasks == old(tasks)
      ensures CreatedAtKept(old(rows), rows)
    {
      var i := 0;
      while i < |tasks|
        invariant 0 <= i <= |tasks|
        invariant forall j :: 0 <= j < i ==> tasks[j].id != id
        invariant rows == old(rows) && lastId == old(lastId) && issued == old(issued)
        invariant tasks == old(tasks)
      {
        if tasks[i].id == id {
          var newDone := !tasks[i].done;
          RecordOfRow(rows, i);
          ToggleRow(id, newDone);
          break;
        }
        i := i + 1;
      }
      if i == |tasks| {
        AbsentFromSnapshot(rows, id);
      }
      ReloadToggled(old(rows), id);
      tasks := Reload(rows);
    }
  }
}
