# Task tracker page: a Dafny model

The repository is a single React page, `src/pages/Index.tsx`, that keeps a
to-do list in memory. Users add tasks, tick them off, rename them in a dialog
and delete them, and three counts appear under the list. All of this logic
lives in one component. It has four pieces of state: `tasks`, `newTaskTitle`,
`editingTask` and `editTitle`. A handful of handlers replace that state one
event at a time.

The model has four modules:

- `Seqs` (`seqs.dfy`): `Array.prototype.map` and `Array.prototype.filter`
  as the functions `Map` and `Filter` on sequences, with their contracts and
  lemmas. Among them: filtering distributes over concatenation, a filter is
  the identity exactly when every element passes, and a predicate and its
  negation split a sequence.
- `Strings` (`strings.dfy`): `String.prototype.trim` over the exact set of
  characters that ECMAScript calls WhiteSpace and LineTerminator. `Trim` is
  characterised independently of its definition. Every string is its trim
  with white space before and after it. Conversely, padding a trimmed string
  with white space on either side and then trimming gives that string back.
- `Tasks` (`tasks.dfy`): the `Task` record and the new list values that
  the handlers compute. `WithoutId` is the `filter` of `deleteTask`.
  `Toggled` and `Retitled` are the `map`s of `toggleTask` and `saveEdit`.
  Appending is the spread of `addTask`. The counts are `CompletedCount` and
  `RemainingCount`. Lemmas state what each of these does to length, order,
  ids, titles and flags, and which invariants they keep.
- `IndexPage` (`index.dfy`): the component as a class `Index` with the four
  state fields and one method per handler. Each method's postcondition gives
  the whole new state in terms of the old one. The class invariant `Valid()`
  says that every stored title is non-empty and has no white space at either
  end (equivalently, equals its own trim). The constructor establishes it
  and every method keeps it. So it holds after any sequence of events on a
  freshly mounted page.

Two behaviours of the code are worth noting:

- Saving an edit whose draft is blank does nothing at all. The dialog stays
  open and the draft keeps its value, because both resets sit inside the
  `if` (src/pages/Index.tsx:47-53).
- Ids are not guaranteed unique. The new id is `Date.now()`
  (src/pages/Index.tsx:23), which can repeat. `AddTask` takes the id as a
  parameter. Its postcondition says that ids stay unique when the new id is
  not already in the list. Uniqueness is never assumed. Deleting removes
  exactly one task only when ids are unique, and `Tasks.WithoutIdUnique`
  states it with that hypothesis.

## Model

| member | source | states |
|---|---|---|
| Seqs.Map | src/pages/Index.tsx:36-38 | `map` keeps the length, and the element at each position is the callback applied to the element at that position |
| Seqs.Filter | src/pages/Index.tsx:32 | `filter` never lengthens. Every kept element is in the input and passes the test, and every input element that passes is kept |
| Seqs.FilterAppend | src/pages/Index.tsx:32 | filtering a concatenation is concatenating the filtered parts, so relative order is preserved |
| Seqs.FilterIdentity | src/pages/Index.tsx:32 | a filter returns its input unchanged exactly when every element passes |
| Seqs.FilterDropsOne | src/pages/Index.tsx:32 | when only one element fails the test, the filter removes exactly that element and keeps the rest in order |
| Seqs.FilterPartition | src/pages/Index.tsx:189-195 | filtering by a test and by its negation gives two results whose lengths add up to the input's length |
| Strings.Trim | src/pages/Index.tsx:21 | `trim()` leaves no white space at either end and never lengthens. It is empty exactly when the input is all white space, which is the case the `if` rejects |
| Strings.TrimSplits | src/pages/Index.tsx:21-24 | every string is white space + its trim + white space: the trim is a slice s[i..j] with only white space outside it |
| Strings.TrimOfPadded | src/pages/Index.tsx:24 | trimming white space + m + white space gives m for every trimmed m. Together with TrimSplits this determines `trim` independently of its definition |
| Strings.TrimmedIsFixpoint | src/pages/Index.tsx:24 | a string equals its own trim exactly when neither end is white space |
| Strings.TrimIdempotent | src/pages/Index.tsx:24 | trimming twice is trimming once |
| Tasks.WellFormedTitleIsTrimFixpoint | src/pages/Index.tsx:21-24 | the stored-title invariant (non-empty, no white space at the ends) is the same as being non-empty and equal to its own trim |
| Tasks.AppendKeepsTitles | src/pages/Index.tsx:21-26 | appending a task whose title is the non-empty trim of the draft keeps every stored title well formed |
| Tasks.AppendKeepsUnique | src/pages/Index.tsx:22-26 | appending a task whose id is not yet in the list keeps ids unique |
| Tasks.WithoutIdMembers | src/pages/Index.tsx:32 | after deleting, no task has the id, every task with another id is still there, and nothing new appears |
| Tasks.WithoutIdAbsent | src/pages/Index.tsx:32 | deleting leaves the list unchanged exactly when no task has the id |
| Tasks.WithoutIdUnique | src/pages/Index.tsx:31-33 | with unique ids and the id at position i, deleting gives the list without position i, one shorter, with the others in order |
| Tasks.WithoutIdKeepsUnique | src/pages/Index.tsx:32 | deleting keeps ids unique |
| Tasks.WithoutIdKeepsTitles | src/pages/Index.tsx:32 | deleting keeps every stored title well formed |
| Tasks.ToggledAt | src/pages/Index.tsx:35-39 | toggling keeps the length and the ids and titles at every position. `completed` flips exactly where the id matches |
| Tasks.ToggledAbsent | src/pages/Index.tsx:36-38 | toggling an id no task has leaves the list unchanged |
| Tasks.ToggledTwice | src/pages/Index.tsx:36-38 | toggling the same id twice gives back the original list |
| Tasks.RetitledAt | src/pages/Index.tsx:48-50 | renaming keeps the length and the ids and `completed` at every position. The title changes exactly where the id matches |
| Tasks.RetitledAbsent | src/pages/Index.tsx:48-50 | renaming an id no task has leaves the list unchanged |
| Tasks.RetitledIdempotent | src/pages/Index.tsx:48-50 | renaming to the same title twice is renaming once |
| Tasks.RetitledKeepsTitles | src/pages/Index.tsx:47-50 | renaming to the non-empty trim of the draft keeps every stored title well formed |
| Tasks.CountsAddUp | src/pages/Index.tsx:184-195 | for every list, the completed count plus the remaining count equals the total |
| IndexPage.Index.constructor | src/pages/Index.tsx:15-18 | the page mounts with an empty list, empty drafts and no open dialog, and the invariant holds |
| IndexPage.Index.SetNewTaskTitle | src/pages/Index.tsx:75 | typing replaces the new-task draft untrimmed and changes nothing else |
| IndexPage.Index.AddTask | src/pages/Index.tsx:20-29 | with a draft whose trim is non-empty, the task (id, trimmed draft, not completed) is appended and the draft cleared. Otherwise list and draft stay. The edit session is untouched, and fresh ids keep ids unique |
| IndexPage.Index.DeleteTask | src/pages/Index.tsx:31-33 | the list becomes the tasks with other ids, in order. It is unchanged if the id is absent, and loses exactly the matching position under unique ids. Ids stay unique and nothing else changes |
| IndexPage.Index.ToggleTask | src/pages/Index.tsx:35-39 | length, ids and titles stay, `completed` flips exactly on matching tasks, an unknown id changes nothing, and no other field changes |
| IndexPage.Index.StartEdit | src/pages/Index.tsx:41-44 | the session becomes the given task with its title as draft, replacing any open one. The list and new-task draft are untouched |
| IndexPage.Index.SetEditTitle | src/pages/Index.tsx:146 | typing replaces the edit draft untrimmed and changes nothing else |
| IndexPage.Index.SaveEdit | src/pages/Index.tsx:46-54 | with an open session and a non-blank draft, only the titles of the edited id change, to the trimmed draft. The session closes and the draft is cleared. Otherwise list, session and draft are all unchanged |
| IndexPage.Index.CancelEdit | src/pages/Index.tsx:151 | the cancel button (and dismissing the dialog, line 128) closes the session and leaves the list and the edit draft as they are |
| IndexPage.Index.Stats | src/pages/Index.tsx:184-195 | the total is the list's length, completed and remaining are the two filtered counts, and they add up to the total |

## Left out

- JSX rendering (src/pages/Index.tsx:56-205). This covers the empty-list card, the per-task cards, the stats card shown only for a non-empty list, and the dialog's `open` test `editingTask?.id === task.id`. It is presentation built from UI components that are not part of this model.
- Event wiring. Pressing Enter in an input calls the same handler as its button, and the `onClick` closures pass `task.id` or `task`. Each intent is a direct method call here.
- `Date.now()` (src/pages/Index.tsx:23) is a clock read. It becomes the `id` parameter of `AddTask`, and unique ids are a hypothesis where they are needed, never a guarantee.
- Ids are JavaScript numbers. They are modelled as `int`, since only equality is ever applied to them.
- JavaScript strings are sequences of UTF-16 code units, while Dafny's `char` is a Unicode scalar value. Lone surrogates cannot be represented. Every white space character `trim` removes is a single code unit, so trimming is otherwise the same.
- `editingTask` holds the task object captured when the dialog opened. The model keeps it as a value. No handler mutates a task object in place (all of them build new objects with spread), so reference identity changes nothing.
- React's `useState` batching and re-rendering. Each handler is one atomic state change, and events are handled one at a time.
