/**
 * The task list of src/pages/Index.tsx as a value: the `Task` record and the
 * new list values that the handlers compute with spread-append, `filter` and
 * `map`, together with the counts shown under the list.
 */
module Tasks {
  import opened Seqs
  import opened Strings

  /** One to-do item. `id` is a JavaScript number; only equality is used on it. */
  datatype Task = Task(id: int, title: string, completed: bool)

  /** The `id`s of the list, in list order. */
  function Ids(ts: seq<Task>): seq<int>
  {
    Map(ts, (t: Task) => t.id)
  }

  predicate HasId(ts: seq<Task>, id: int)
  {
    exists i :: 0 <= i < |ts| && ts[i].id == id
  }

  /** No two positions of the list carry the same id. */
  predicate UniqueIds(ts: seq<Task>)
  {
    forall i, j :: 0 <= i < j < |ts| ==> ts[i].id != ts[j].id
  }

  /** What `addTask` stores: a non-empty title with no white space at either end. */
  predicate WellFormedTitle(title: string)
  {
    title != [] && Trimmed(title)
  }

  /** A title is well formed exactly when it is non-empty and equal to its own trim. */
  lemma WellFormedTitleIsTrimFixpoint(title: string)
    ensures WellFormedTitle(title) <==> title != [] && Trim(title) == title
  {
    TrimmedIsFixpoint(title);
  }

  predicate TitlesWellFormed(ts: seq<Task>)
  {
    forall i :: 0 <= i < |ts| ==> WellFormedTitle(ts[i].title)
  }

  // ---------------------------------------------------------------------------
  // Adding

  /** Appending a task whose title is a non-empty trim keeps every stored title well formed. */
  lemma AppendKeepsTitles(ts: seq<Task>, id: int, draft: string)
    requires TitlesWellFormed(ts)
    requires Trim(draft) != []
    ensures TitlesWellFormed(ts + [Task(id, Trim(draft), false)])
  {
  }

  /** Appending a task with an id not yet in the list keeps the ids unique. */
  lemma AppendKeepsUnique(ts: seq<Task>, t: Task)
    requires UniqueIds(ts)
    requires !HasId(ts, t.id)
    ensures UniqueIds(ts + [t])
  {
  }

  // ---------------------------------------------------------------------------
  // Deleting

  function IdIsNot(id: int): Task -> bool
  {
    (t: Task) => t.id != id
  }

  /** `tasks.filter(task => task.id !== id)`. */
  function WithoutId(ts: seq<Task>, id: int): seq<Task>
  {
    Filter(ts, IdIsNot(id))
  }

  /** Deleting removes every task with the id, and keeps every other one. */
  lemma WithoutIdMembers(ts: seq<Task>, id: int)
    ensures !HasId(WithoutId(ts, id), id)
    ensures forall i :: 0 <= i < |ts| && ts[i].id != id ==> ts[i] in WithoutId(ts, id)
    ensures forall t :: t in WithoutId(ts, id) ==> t in ts
  {
  }

  /** Deleting an id that is not in the list leaves the list as it was. */
  lemma WithoutIdAbsent(ts: seq<Task>, id: int)
    ensures WithoutId(ts, id) == ts <==> !HasId(ts, id)
  {
    FilterIdentity(ts, IdIsNot(id));
  }

  /**
   * With unique ids, deleting the id found at position `i` removes exactly
   * that position and keeps the others in their order.
   */
  lemma WithoutIdUnique(ts: seq<Task>, id: int, i: int)
    requires UniqueIds(ts)
    requires 0 <= i < |ts| && ts[i].id == id
    ensures WithoutId(ts, id) == ts[..i] + ts[i + 1..]
    ensures |WithoutId(ts, id)| == |ts| - 1
  {
    var front, back := ts[..i], ts[i + 1..];
    forall k | 0 <= k < |front| ensures IdIsNot(id)(front[k]) {
      assert front[k] == ts[k];
    }
    forall k | 0 <= k < |back| ensures IdIsNot(id)(back[k]) {
      assert back[k] == ts[i + 1 + k];
    }
    FilterDropsOne(front, ts[i], back, IdIsNot(id));
    assert ts == front + [ts[i]] + back;
  }

  /** Deleting keeps the ids of the remaining tasks unique. */
  lemma {:induction false} WithoutIdKeepsUnique(ts: seq<Task>, id: int)
    requires UniqueIds(ts)
    ensures UniqueIds(WithoutId(ts, id))
  {
    if ts != [] {
      WithoutIdKeepsUnique(ts[1..], id);
      var rest := WithoutId(ts[1..], id);
      if ts[0].id != id {
        assert WithoutId(ts, id) == [ts[0]] + rest;
        forall j | 0 <= j < |rest|
          ensures rest[j].id != ts[0].id
        {
          var k :| 0 <= k < |ts[1..]| && ts[1..][k] == rest[j];
          assert ts[k + 1] == rest[j];
        }
      }
    }
  }

  /** Deleting keeps every stored title well formed. */
  lemma WithoutIdKeepsTitles(ts: seq<Task>, id: int)
    requires TitlesWellFormed(ts)
    ensures TitlesWellFormed(WithoutId(ts, id))
  {
    var r := WithoutId(ts, id);
    forall j | 0 <= j < |r|
      ensures WellFormedTitle(r[j].title)
    {
      var k :| 0 <= k < |ts| && ts[k] == r[j];
    }
  }

  // ---------------------------------------------------------------------------
  // Toggling

  function ToggleIfId(id: int): Task -> Task
  {
    (t: Task) => if t.id == id then t.(completed := !t.completed) else t
  }

  /** `tasks.map(task => task.id === id ? {...task, completed: !task.completed} : task)`. */
  function Toggled(ts: seq<Task>, id: int): seq<Task>
  {
    Map(ts, ToggleIfId(id))
  }

  /**
   * Toggling keeps length, order, ids and titles, and flips `completed`
   * exactly on the tasks carrying the id.
   */
  lemma ToggledAt(ts: seq<Task>, id: int)
    ensures |Toggled(ts, id)| == |ts| && Ids(Toggled(ts, id)) == Ids(ts)
    ensures forall i :: 0 <= i < |ts| ==>
      && Toggled(ts, id)[i].id == ts[i].id
      && Toggled(ts, id)[i].title == ts[i].title
      && (Toggled(ts, id)[i].completed <==> (ts[i].completed != (ts[i].id == id)))
  {
  }

  /** Toggling an id that is not in the list leaves the list as it was. */
  lemma ToggledAbsent(ts: seq<Task>, id: int)
    requires !HasId(ts, id)
    ensures Toggled(ts, id) == ts
  {
  }

  /** Toggling the same id twice is the identity. */
  lemma ToggledTwice(ts: seq<Task>, id: int)
    ensures Toggled(Toggled(ts, id), id) == ts
  {
  }

  // ---------------------------------------------------------------------------
  // Renaming

  function RetitleIfId(id: int, title: string): Task -> Task
  {
    (t: Task) => if t.id == id then t.(title := title) else t
  }

  /** `tasks.map(task => task.id === id ? {...task, title} : task)`. */
  function Retitled(ts: seq<Task>, id: int, title: string): seq<Task>
  {
    Map(ts, RetitleIfId(id, title))
  }

  /**
   * Renaming keeps length, order, ids and `completed`, and replaces the title
   * exactly on the tasks carrying the id.
   */
  lemma RetitledAt(ts: seq<Task>, id: int, title: string)
    ensures |Retitled(ts, id, title)| == |ts| && Ids(Retitled(ts, id, title)) == Ids(ts)
    ensures forall i :: 0 <= i < |ts| ==>
      && Retitled(ts, id, title)[i].id == ts[i].id
      && Retitled(ts, id, title)[i].completed == ts[i].completed
      && Retitled(ts, id, title)[i].title == (if ts[i].id == id then title else ts[i].title)
  {
  }

  /** Renaming an id that is not in the list leaves the list as it was. */
  lemma RetitledAbsent(ts: seq<Task>, id: int, title: string)
    requires !HasId(ts, id)
    ensures Retitled(ts, id, title) == ts
  {
  }

  /** Renaming twice to the same title is renaming once. */
  lemma RetitledIdempotent(ts: seq<Task>, id: int, title: string)
    ensures Retitled(Retitled(ts, id, title), id, title) == Retitled(ts, id, title)
  {
  }

  /** Renaming to a trimmed non-empty draft keeps every stored title well formed. */
  lemma RetitledKeepsTitles(ts: seq<Task>, id: int, draft: string)
    requires TitlesWellFormed(ts)
    requires Trim(draft) != []
    ensures TitlesWellFormed(Retitled(ts, id, Trim(draft)))
  {
  }

  // ---------------------------------------------------------------------------
  // Counts shown under the list

  predicate IsCompleted(t: Task) { t.completed }

  predicate IsRemaining(t: Task) { !t.completed }

  /** `tasks.filter(t => t.completed).length`. */
  function CompletedCount(ts: seq<Task>): nat
  {
    |Filter(ts, IsCompleted)|
  }

  /** `tasks.filter(t => !t.completed).length`. */
  function RemainingCount(ts: seq<Task>): nat
  {
    |Filter(ts, IsRemaining)|
  }

  /** Completed and remaining tasks together are all the tasks. */
  lemma CountsAddUp(ts: seq<Task>)
    ensures CompletedCount(ts) + RemainingCount(ts) == |ts|
  {
    FilterPartition(ts, IsCompleted, IsRemaining);
  }
}
