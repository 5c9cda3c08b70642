/** The state of the RecentTasks component: the task list it holds in React
    state, and the per-deletion state each call of deleteTask captures in the
    closures of its Undo button and its timer. */
module TaskStore {
  import opened TaskList

  /** What one call of deleteTask remembers: the index and snapshot of the
      record it removed, and the `undo` flag its Undo handler sets and its
      timer reads. Each call has its own. */
  class Deletion {
    const taskIndex: nat
    const deletedTask: Task
    var undo: bool

    constructor (taskIndex: nat, deletedTask: Task)
      ensures this.taskIndex == taskIndex && this.deletedTask == deletedTask
      ensures !undo
    {
      this.taskIndex := taskIndex;
      this.deletedTask := deletedTask;
      undo := false;
    }
  }

  /** The component's task list, replaced as a whole on every change. */
  class RecentTasks {
    var taskList: seq<Task>

    /** The component starts from the seed records. */
    constructor ()
      ensures taskList == SeedTasks()
    {
      taskList := SeedTasks();
    }

    /** Flips the status of the records whose id is `id`. */
    method ToggleTaskStatus(id: string)
      modifies this
      ensures taskList == ToggleStatus(old(taskList), id)
    {
      taskList := ToggleStatus(taskList, id);
    }

    /** Removes every record whose id is `id` and returns what the Undo button
      and the timer capture; returns null and changes nothing when no record
      has that id. */
    method DeleteTask(id: string) returns (d: Deletion?)
      modifies this
      ensures d == null <==> !HasId(old(taskList), id)
      ensures d == null ==> taskList == old(taskList)
      ensures d != null ==>
        fresh(d) && !d.undo &&
        d.taskIndex == FindIndex(old(taskList), id) &&
        d.deletedTask == old(taskList)[d.taskIndex] &&
        taskList == RemoveTask(old(taskList), id)
    {
      var taskIndex := FindIndex(taskList, id);
      if taskIndex == -1 {
        return null;
      }
      var deletedTask := taskList[taskIndex];
      d := new Deletion(taskIndex, deletedTask);
      taskList := RemoveTask(taskList, id);
    }

    /** The Undo button: sets the deletion's flag and splices its snapshot
      back into the current list at the remembered index. Nothing stops a
      second click or a click after the timer has fired. */
    method Undo(d: Deletion)
      modifies this, d
      ensures d.undo
      ensures taskList == Splice(old(taskList), d.taskIndex, d.deletedTask)
    {
      d.undo := true;
      var newList := taskList;
      newList := Splice(newList, d.taskIndex, d.deletedTask);
      taskList := newList;
    }

    /** The timer callback: the deletion becomes permanent exactly when its
      Undo was never clicked. It changes nothing. */
    method Finalize(d: Deletion) returns (permanent: bool)
      ensures permanent <==> !d.undo
    {
      permanent := !d.undo;
    }
  }

  /** Deleting task "2" from the seed list and clicking Undo gives the seed
      list back, and the timer then reports no permanent deletion. */
  method SeedDeleteThenUndo() returns (restored: seq<Task>, permanent: bool)
    ensures restored == SeedTasks()
    ensures !permanent
  {
    var component := new RecentTasks();
    SeedDeleteUndo();
    var d := component.DeleteTask("2");
    component.Undo(d);
    restored := component.taskList;
    permanent := component.Finalize(d);
  }

  /** Deleting task "2" from the seed list and letting the timer fire without
      Undo makes the deletion permanent, with the other four records left in
      their order. */
  method SeedDeleteThenExpire() returns (remaining: seq<Task>, permanent: bool)
    ensures remaining == [SeedTasks()[0], SeedTasks()[2], SeedTasks()[3], SeedTasks()[4]]
    ensures !HasId(remaining, "2")
    ensures permanent
  {
    var component := new RecentTasks();
    SeedDeleteUndo();
    var d := component.DeleteTask("2");
    remaining := component.taskList;
    permanent := component.Finalize(d);
  }
}
