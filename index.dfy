/**
 * The `Index` page component of src/pages/Index.tsx: its four pieces of
 * state and the handlers that replace them, one event at a time.
 */
module IndexPage {
  import opened Strings
  import opened Tasks

  datatype Option<T> = None | Some(value: T)

  class Index {
    /** The list shown on the page, in insertion order. */
    var tasks: seq<Task>
    /** Draft of the next task, bound to the "new task" input. */
    var newTaskTitle: string
    /** The task whose edit dialog is open (a copy taken when it was opened), if any. */
    var editingTask: Option<Task>
    /** Draft of the edited title, bound to the dialog's input. */
    var editTitle: string

    /** Every stored title is non-empty and equal to its own trim. */
    ghost predicate Valid()
      reads this
    {
      TitlesWellFormed(tasks)
    }

    /** The state of a freshly mounted page. */
    constructor ()
      ensures Valid()
      ensures tasks == [] && newTaskTitle == "" && editingTask == None && editTitle == ""
    {
      tasks := [];
      newTaskTitle := "";
      editingTask := None;
      editTitle := "";
    }

    /** Typing into the "new task" input replaces the draft as it is. */
    method SetNewTaskTitle(value: string)
      requires Valid()
      modifies this
      ensures Valid()
      ensures newTaskTitle == value
      ensures tasks == old(tasks) && editingTask == old(editingTask) && editTitle == old(editTitle)
    {
      newTaskTitle := value;
    }

    /**
     * `addTask`: a draft that trims to a non-empty title becomes a new,
     * uncompleted task at the end of the list and the draft is cleared; a
     * blank draft changes nothing. `id` stands for the value `Date.now()`
     * returned; the ids stay unique when it is not already in use.
     */
    method AddTask(id: int)
      requires Valid()
      modifies this
      ensures Valid()
      ensures Trim(old(newTaskTitle)) != [] ==>
        && tasks == old(tasks) + [Task(id, Trim(old(newTaskTitle)), false)]
        && newTaskTitle == ""
      ensures Trim(old(newTaskTitle)) == [] ==>
        tasks == old(tasks) && newTaskTitle == old(newTaskTitle)
      ensures editingTask == old(editingTask) && editTitle == old(editTitle)
      ensures UniqueIds(old(tasks)) && !HasId(old(tasks), id) ==> UniqueIds(tasks)
    {
      var title := Trim(newTaskTitle);
      if title != [] {
        AppendKeepsTitles(tasks, id, newTaskTitle);
        if UniqueIds(tasks) && !HasId(tasks, id) {
          AppendKeepsUnique(tasks, Task(id, title, false));
        }
        tasks := tasks + [Task(id, title, false)];
        newTaskTitle := "";
      }
    }

    /**
     * `deleteTask`: keeps, in order, exactly the tasks whose id differs. With
     * unique ids and the id present at position `i`, that is the list without
     * position `i`.
     */
    method DeleteTask(id: int)
      requires Valid()
      modifies this
      ensures Valid()
      ensures tasks == WithoutId(old(tasks), id)
      ensures !HasId(old(tasks), id) ==> tasks == old(tasks)
      ensures forall i :: UniqueIds(old(tasks)) && 0 <= i < |old(tasks)| && old(tasks)[i].id == id ==>
        tasks == old(tasks)[..i] + old(tasks)[i + 1..]
      ensures UniqueIds(old(tasks)) ==> UniqueIds(tasks)
      ensures newTaskTitle == old(newTaskTitle)
      ensures editingTask == old(editingTask) && editTitle == old(editTitle)
    {
      WithoutIdKeepsTitles(tasks, id);
      WithoutIdAbsent(tasks, id);
      forall i | UniqueIds(tasks) && 0 <= i < |tasks| && tasks[i].id == id
        ensures WithoutId(tasks, id) == tasks[..i] + tasks[i + 1..]
      {
        WithoutIdUnique(tasks, id, i);
      }
      if UniqueIds(tasks) {
        WithoutIdKeepsUnique(tasks, id);
      }
      tasks := WithoutId(tasks, id);
    }

    /**
     * `toggleTask`: flips `completed` on the tasks carrying the id; length,
     * order, ids and titles stay; an unknown id changes nothing.
     */
    method ToggleTask(id: int)
      requires Valid()
      modifies this
      ensures Valid()
      ensures tasks == Toggled(old(tasks), id)
      ensures |tasks| == |old(tasks)| && Ids(tasks) == Ids(old(tasks))
      ensures forall i :: 0 <= i < |tasks| ==>
        && tasks[i].title == old(tasks)[i].title
        && (tasks[i].completed <==> (old(tasks)[i].completed != (old(tasks)[i].id == id)))
      ensures !HasId(old(tasks), id) ==> tasks == old(tasks)
      ensures newTaskTitle == old(newTaskTitle)
      ensures editingTask == old(editingTask) && editTitle == old(editTitle)
    {
      ToggledAt(tasks, id);
      if !HasId(tasks, id) {
        ToggledAbsent(tasks, id);
      }
      tasks := Toggled(tasks, id);
    }

    /**
     * `startEdit`: opens the edit dialog on `task` with its current title as
     * the draft, replacing any session already open; the list is untouched.
     */
    method StartEdit(task: Task)
      requires Valid()
      modifies this
      ensures Valid()
      ensures editingTask == Some(task) && editTitle == task.title
      ensures tasks == old(tasks) && newTaskTitle == old(newTaskTitle)
    {
      editingTask := Some(task);
      editTitle := task.title;
    }

    /** Typing into the edit dialog's input replaces the edit draft as it is. */
    method SetEditTitle(value: string)
      requires Valid()
      modifies this
      ensures Valid()
      ensures editTitle == value
      ensures tasks == old(tasks) && newTaskTitle == old(newTaskTitle) && editingTask == old(editingTask)
    {
      editTitle := value;
    }

    /**
     * `saveEdit`: with a session open and a draft that trims to a non-empty
     * title, the tasks carrying the edited id take the trimmed draft as title
     * (ids, `completed`, order and length stay) and the session closes with
     * the draft cleared. Otherwise nothing changes, and the session stays open.
     */
    method SaveEdit()
      requires Valid()
      modifies this
      ensures Valid()
      ensures old(editingTask).Some? && Trim(old(editTitle)) != [] ==>
        && tasks == Retitled(old(tasks), old(editingTask).value.id, Trim(old(editTitle)))
        && |tasks| == |old(tasks)| && Ids(tasks) == Ids(old(tasks))
        && (forall i :: 0 <= i < |tasks| ==>
              && tasks[i].completed == old(tasks)[i].completed
              && tasks[i].title == (if old(tasks)[i].id == old(editingTask).value.id
                                    then Trim(old(editTitle)) else old(tasks)[i].title))
        && editingTask == None && editTitle == ""
      ensures old(editingTask).None? || Trim(old(editTitle)) == [] ==>
        tasks == old(tasks) && editingTask == old(editingTask) && editTitle == old(editTitle)
      ensures newTaskTitle == old(newTaskTitle)
    {
      if editingTask.Some? {
        var title := Trim(editTitle);
        if title != [] {
          var id := editingTask.value.id;
          RetitledAt(tasks, id, title);
          RetitledKeepsTitles(tasks, id, editTitle);
          tasks := Retitled(tasks, id, title);
          editingTask := None;
          editTitle := "";
        }
      }
    }

    /**
     * Closing the dialog (its cancel button, or dismissing it) ends the
     * session; the list and the edit draft are left as they are.
     */
    method CancelEdit()
      requires Valid()
      modifies this
      ensures Valid()
      ensures editingTask == None
      ensures tasks == old(tasks) && newTaskTitle == old(newTaskTitle) && editTitle == old(editTitle)
    {
      editingTask := None;
    }

    /** The three numbers under the list: total, completed and remaining. */
    method Stats() returns (total: nat, completed: nat, remaining: nat)
      ensures total == |tasks|
      ensures completed == CompletedCount(tasks) && remaining == RemainingCount(tasks)
      ensures completed + remaining == total
    {
      total := |tasks|;
      completed := CompletedCount(tasks);
      remaining := RemainingCount(tasks);
      CountsAddUp(tasks);
    }
  }
}
