# Task store model

This project models the task store of a PyQt to-do application: the
`TaskManager` class in `logic/task_manager.py`. The store keeps one SQLite
table `tasks` whose ids come from AUTOINCREMENT, and an in-memory snapshot
`tasks` that the UI tabs read directly. It has four mutators: `add`, `edit`,
`delete` and `toggle_done`. Each one writes to the table and then rebuilds
the snapshot from the whole table, ordered by id.

The model has three modules.

- `Ids` (`ids.dfy`) lists a finite set of ids in ascending order, which is
  what `ORDER BY id` does. It proves that this listing is the only strictly
  ascending one.
- `TaskTable` (`task_table.dfy`) holds the value-level model:
  - the stored row and the snapshot record;
  - the schema guarantees (`done` is 0 or 1, ids are at most the
    AUTOINCREMENT high-water mark);
  - the reload `Reload`, with the `UPDATE` statements as functions on the
    table.
  
  Its lemmas show what each write does to the reloaded snapshot.
  `Mirrors` is a description of a correct snapshot that does not depend on
  how `Reload` is computed. `Reload` meets it (`ReloadMirrors`), and no other
  sequence does (`MirrorsUnique`).
- `Store` (`task_manager.dfy`) holds the class `TaskManager`. Its fields are
  `rows` (the table), `lastId` (the table's `sqlite_sequence` entry) and
  `tasks` (the snapshot). A ghost set `issued` records the ids handed out.
  - The private writers `InsertRow`, `UpdateRow`, `DeleteRow` and
    `ToggleRow` change only the table.
  - The public `Add`, `Edit`, `Delete` and `ToggleDone` call one writer and
    then reassign `tasks := Reload(rows)`.
  - `ToggleDone` keeps the source's loop: it searches the snapshot, writes
    on a hit, and breaks.
  
  The object invariant `Valid()` says that the snapshot is the reload of the
  table and that the schema guarantees hold.

`scenarios.dfy` is client code shaped like `tests/test_task_manager.py`.
It derives each test's assertions from the store's contracts alone.

Ids are unbounded integers. The insert reproduces SQLite's AUTOINCREMENT
limit: when the counter has reached 9223372036854775807, the insert fails
with SQLITE_FULL. The source catches and logs that error, so the table and
the snapshot stay unchanged.

The store never checks titles. The UI rejects an empty title before `add`
(`ui/tasks_tab.py:127-130`, `ui/stats_tab.py:116-119`). Nothing checks the
title before `edit`: the edit dialogs pass the field's text as it is
(`ui/tasks_tab.py:179-186`, `ui/stats_tab.py:163-170`). The model follows
the store, so `Add` and `Edit` accept any title, the empty one included.

## Model

| member | source | states |
|---|---|---|
| `Ids.SortedIds` | logic/task_manager.py:49 | The listing contains only members of the set. The lemma SortedIdsCorrect states the rest. |
| `Ids.SortedIdsCorrect` | logic/task_manager.py:49 | `ORDER BY id` lists every id of the table exactly once, in strictly ascending order. |
| `Ids.AscendingUnique` | logic/task_manager.py:49 | Two strictly ascending sequences with the same members are equal, so the order of a snapshot is determined. |
| `TaskTable.Binary` | logic/task_manager.py:34 | The CHECK(done IN (0,1)) constraint. For a value that meets it, `bool(done)` is true exactly when `done` is 1. |
| `TaskTable.WellFormed` | logic/task_manager.py:31-39 | What the store relies on of the table: the counter lies in 0..MAX_ROWID, no id exceeds it, every `done` meets the CHECK constraint. The next AUTOINCREMENT id is then free. |
| `TaskTable.EnsureTable` | logic/task_manager.py:27-44 | CREATE TABLE IF NOT EXISTS keeps an existing table unchanged. A missing table becomes an empty one with its counter at 0, which meets the schema guarantees. |
| `TaskTable.EnsureTableIdempotent` | logic/task_manager.py:31 | Ensuring the table a second time changes nothing. |
| `TaskTable.AsTask` | logic/task_manager.py:51-60 | The record built from one row carries the row's id and columns. For a `done` that meets the CHECK constraint, `bool(done)` is true exactly when it is 1. |
| `TaskTable.Reload` | logic/task_manager.py:46-67 | `SELECT * FROM tasks ORDER BY id`, projected: one record per row. The lemmas ReloadMirrors and MirrorsUnique state that it is the one snapshot with ascending ids in which every record projects its row. |
| `TaskTable.ReloadMirrors` | logic/task_manager.py:46-62 | The reload has one record per row and its ids are strictly ascending. Each record is its row's columns, with `done` read as `done != 0`. |
| `TaskTable.MirrorsUnique` | logic/task_manager.py:46-62 | Only one snapshot of a table meets that description, so "snapshot equals table ordered by id" determines the snapshot. |
| `TaskTable.ReloadEmpty` | logic/task_manager.py:25 | An empty table reloads to an empty snapshot. |
| `TaskTable.SnapshotIdsDistinct` | logic/task_manager.py:32 | No two snapshot records share an id. |
| `TaskTable.PositionOf` | logic/task_manager.py:49-62 | Every row of the table appears at some position of the snapshot. |
| `TaskTable.OnlyPosition` | logic/task_manager.py:32 | Only one snapshot position carries a given id. |
| `TaskTable.Flip` | logic/task_manager.py:106 | `int(not bool(d))` is always 0 or 1. For a stored 0 or 1 it is the other value. |
| `TaskTable.Updated` | logic/task_manager.py:82-92 | The UPDATE of `edit` sets title, tag, due_date and priority of the matching row. It keeps that row's `done` and `created_at` and every other row, and it changes nothing for an absent id. |
| `TaskTable.Toggled` | logic/task_manager.py:103-110 | The toggle write changes only the `done` column of the matching row. The new value is 0 or 1 and differs from a stored 0 or 1. An absent id changes nothing. |
| `TaskTable.ToggleTwice` | logic/task_manager.py:124-130 | Two toggles of the same id give back the original table, given the CHECK constraint on `done`. |
| `TaskTable.AppendMirrors` | logic/task_manager.py:69-77 | Appending the record of a row whose id is above all present ids keeps a snapshot correct. |
| `TaskTable.ReloadAppend` | logic/task_manager.py:112-114 | After an insert under an id above every present id, the snapshot is the old snapshot plus one record at the end. |
| `TaskTable.RemoveAscending` | logic/task_manager.py:94-101 | Dropping one record keeps the snapshot's ids strictly ascending. |
| `TaskTable.RemoveProjects` | logic/task_manager.py:94-101 | After dropping a record and its row, every remaining record is still the projection of its row. |
| `TaskTable.RemoveCovers` | logic/task_manager.py:94-101 | After dropping a record and its row, every remaining row still has a record. |
| `TaskTable.RemoveMirrors` | logic/task_manager.py:94-101 | Dropping one record and its row keeps a snapshot correct. |
| `TaskTable.ReloadRemove` | logic/task_manager.py:94-101 | Deleting the row at a snapshot position removes exactly that record, and the rest keep their order. |
| `TaskTable.ReloadReplace` | logic/task_manager.py:82-92 | Rewriting one existing row replaces exactly its record, at the same position. |
| `TaskTable.ReloadUpdated` | logic/task_manager.py:116-118 | After `edit`, the record with that id takes the four new values in place. Its id, `done` and `created_at` are kept, and so is every other record. An absent id leaves the snapshot as it was. |
| `TaskTable.ReloadDeleted` | logic/task_manager.py:120-122 | After `delete`, exactly the record with that id is gone. An absent id leaves the snapshot as it was. |
| `TaskTable.ReloadToggled` | logic/task_manager.py:124-130 | After `toggle_done`, the record with that id has `done` negated and nothing else changes. An absent id leaves the snapshot as it was. |
| `TaskTable.RecordOfRow` | logic/task_manager.py:125-127 | The `done` that the toggle search reads from a snapshot record is `bool` of its row's stored value. |
| `TaskTable.AbsentFromSnapshot` | logic/task_manager.py:125-126 | An id that the toggle search does not find in the snapshot is not in the table, so writing nothing is right. |
| `Store.TaskManager.constructor` | logic/task_manager.py:14-25 | Opening a file ensures the table and loads the snapshot. A file without the table gives an empty snapshot. |
| `Store.TaskManager.InsertRow` | logic/task_manager.py:69-80 | Inserts a row with `done` 0 under `lastId + 1` and records the new id as issued. At the rowid limit the table is unchanged. |
| `Store.TaskManager.UpdateRow` | logic/task_manager.py:82-92 | The table becomes `Updated(old table, ...)`. |
| `Store.TaskManager.DeleteRow` | logic/task_manager.py:94-101 | Removes exactly the row with that id. The AUTOINCREMENT counter and the issued ids are untouched. |
| `Store.TaskManager.ToggleRow` | logic/task_manager.py:103-110 | Writes `int(newDone)` into `done` of the matching row only. |
| `Store.TaskManager.Add` | logic/task_manager.py:112-114 | The new task has `done` false, the given fields and the given `created_at`. It comes last in the snapshot, its id is the counter plus one and is above every id ever issued, and it is the one id added to the issued set. At the rowid limit nothing changes: not the table, the counter, the issued set or the snapshot. No existing row's `done` or `created_at` changes. |
| `Store.TaskManager.Edit` | logic/task_manager.py:116-118 | Rewrites exactly title, tag, due_date and priority of the matching task, in place. `done` and `created_at` are kept everywhere, ids are unchanged, and an absent id is a no-op. |
| `Store.TaskManager.Delete` | logic/task_manager.py:120-122 | Removes exactly the matching task. An absent id is a no-op. The counter does not move back, so the id is never reused. |
| `Store.TaskManager.ToggleDone` | logic/task_manager.py:124-130 | The search loop finds the id in the snapshot exactly when the row exists. The table becomes `Toggled(old table, id)` and the snapshot has that task's `done` negated in place. `created_at` is kept. |

## Left out

- SQLite itself is not modelled: the connection, cursor, commit, `row_factory` and the SQL text. The table is a map from id to row.
- The filesystem path and `mkdir` are I/O. The constructor takes the file's content instead: `None` for a file without a `tasks` table.
- `Store.TaskManager.constructor`: it requires that an existing table meets `WellFormed`: `done` is 0 or 1, which SQLite enforces, and no id exceeds the AUTOINCREMENT counter, which holds for every table this store wrote. A file whose `sqlite_sequence` entry was lowered by hand below an existing id is opened by the source but not by the model. Ids of 0 or below, which an explicit INSERT can store, are admitted.
- `logging` calls are left out, and so are the failures that the source catches and swallows: connection and schema errors, write errors such as a full disk or a locked file, and a failing reload that returns an empty list. Every write is modelled as succeeding. The one exception is the AUTOINCREMENT limit on insert.
- `datetime.now()` is a clock read. `created_at` is a parameter of `Add`.
- SQL NULL in the nullable columns (tag, due_date, priority, created_at) is not modelled. Every column holds a string, because every caller passes strings.
- Python's dynamic typing is not modelled. Ids are integers. A task id of another type (for example the string "1") would make the `toggle_done` search miss while SQLite's type affinity could still match the UPDATE and DELETE statements; that is outside the model.
- `Store.TaskManager.Add`: "above every id ever issued" is stated against the ghost set `issued`. At opening, that set holds the ids present in the file. Ids deleted before the file was opened are covered only by the bound `lastId`, which the new id exceeds.
- Concurrency is not modelled. A toggle computed from a stale snapshot under several writers cannot occur with the single caller modelled here.
- The PyQt tabs, dialogs, theming, CSV export and the matplotlib Gantt view only read the snapshot or call the mutators. `ui/` and `main.py` are not part of this model.
