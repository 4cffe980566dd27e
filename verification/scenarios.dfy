/**
 * Client code in the shape of tests/test_task_manager.py: each method opens a
 * store on a file without a `tasks` table and checks, from the contracts of
 * the store alone, what the test asserts of the snapshot.
 */
module Scenarios {
  import opened TaskTable
  import opened Store

  method LoadEmptyDb()
  {
    var mgr := new TaskManager(None);
    assert mgr.tasks == [];
  }

  method AddAndLoad()
  {
    var mgr := new TaskManager(None);
    mgr.Add("Test Task", "Arbeit", "2024-12-31", "Hoch", "2024-01-01 09:00:00");
    assert |mgr.tasks| == 1;
    var task := mgr.tasks[0];
    assert task.title == "Test Task" && !task.done && task.tag == "Arbeit";
    assert task.dueDate == "2024-12-31" && task.priority == "Hoch";
    assert task.createdAt == "2024-01-01 09:00:00";
  }

  method EditTask()
  {
    var mgr := new TaskManager(None);
    mgr.Add("Original Task", "Privat", "2024-01-01", "Niedrig", "2024-01-01 09:00:00");
    var before := mgr.tasks[0];
    mgr.Edit(before.id, "Updated Task", "Studium", "2024-06-01", "Mittel");
    var task := mgr.tasks[0];
    assert task.title == "Updated Task" && task.tag == "Studium";
    assert task.dueDate == "2024-06-01" && task.priority == "Mittel";
    assert task.id == before.id && task.done == before.done && task.createdAt == before.createdAt;
  }

  method DeleteTask()
  {
    var mgr := new TaskManager(None);
    mgr.Add("To Be Deleted", "Privat", "2024-05-01", "Mittel", "2024-01-01 09:00:00");
    mgr.Add("To Be Kept", "Privat", "2024-05-02", "Mittel", "2024-01-01 09:00:01");
    var first, second := mgr.tasks[0], mgr.tasks[1];
    mgr.Delete(first.id);
    assert mgr.tasks == [second];
  }

  method ToggleDoneTwice()
  {
    var mgr := new TaskManager(None);
    mgr.Add("Toggle Task", "Arbeit", "2024-07-15", "Niedrig", "2024-01-01 09:00:00");
    var id := mgr.tasks[0].id;
    mgr.ToggleDone(id);
    assert mgr.tasks[0].done;
    mgr.ToggleDone(id);
    assert !mgr.tasks[0].done;
  }

  method IdsNeverReused()
  {
    var mgr := new TaskManager(None);
    mgr.Add("A", "", "", "", "t1");
    var a := mgr.lastId;
    mgr.Add("B", "", "", "", "t2");
    var b := mgr.lastId;
    mgr.Add("C", "", "", "", "t3");
    var c := mgr.lastId;
    mgr.Delete(b);
    mgr.Add("D", "", "", "", "t4");
    var d := mgr.tasks[|mgr.tasks| - 1].id;
    assert d != a && d != b && d != c;
  }

  /** At the rowid limit every insert fails: the counter, table and snapshot stay put. */
  method AddAtLimit(mgr: TaskManager)
    requires mgr.Valid() && mgr.lastId == MAX_ROWID
    modifies mgr
  {
    var before := mgr.tasks;
    mgr.Add("A", "", "", "", "t1");
    mgr.Add("B", "", "", "", "t2");
    assert mgr.lastId == MAX_ROWID && mgr.tasks == before;
  }

  method Lifecycle()
  {
    var mgr := new TaskManager(None);
    mgr.Add("Buy milk", "Home", "2025-01-01", "Low", "2025-01-01 08:00:00");
    assert |mgr.tasks| == 1 && !mgr.tasks[0].done;
    var id := mgr.tasks[0].id;
    mgr.ToggleDone(id);
    assert mgr.tasks[0].done;
    mgr.Edit(id, "Buy oat milk", "Home", "2025-01-02", "High");
    assert mgr.tasks[0].title == "Buy oat milk" && mgr.tasks[0].dueDate == "2025-01-02";
    assert mgr.tasks[0].priority == "High" && mgr.tasks[0].done;
    mgr.Delete(id);
    assert mgr.tasks == [];
  }
}
