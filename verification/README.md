# Daily To-Do List — a verified model of its domain logic

This project models the domain logic of the React daily to-do app. It has three parts:

- the controller in `src/App.js`: four transitions over the active task list and the history log;
- the history view in `src/components/History.js`: a `reduce` that groups history records by date label, and the view built from the groups;
- the entry form in `src/components/TodoForm.js`: a small state machine over the draft text that guards submission.

Each part is a pure function over immutable values. The clock (`Date.now()`) and the locale date label (`toLocaleDateString()`) are parameters: a fresh `id: int` and a `today: string` label. So the model has no time source.

Modules:

| file | module | what it holds |
|---|---|---|
| `wrappers.dfy` | `Wrappers` | `Option` |
| `seqs.dfy` | `Seqs` | `Filter` (JavaScript `Array.prototype.filter`), the `Subsequence` relation, and their laws |
| `model.dfy` | `Model` | `Todo`; `Record` (a task plus `deletedAt`); `Archive` / `Restore`; the `UniqueIds` invariant |
| `app.dfy` | `App` | `AddTodo`, `ToggleTodo`, `DeleteTodo`, `ClearCompleted`, the form-to-controller hand-off, invariants |
| `history.dfy` | `History` | the group key, the reducer, the grouping, reference definitions and the proofs that the reduce meets them, the rendered view |
| `todo_form.dfy` | `TodoForm` | `Trim` and blankness, `HandleSubmit`, typing, and runs of events |

Two choices shape the model:

- **Task ids may repeat.** Ids are clock readings, so two tasks can share one. The model does not assume distinct ids. `UniqueIds` is an invariant that each operation is proved to keep, and `AddTodo` keeps it only when the id is fresh.
- **`addTodo` stores the text verbatim** (`src/App.js:30-38`): it neither trims nor rejects empty text. The only guard is the form's (`src/components/TodoForm.js:9`). `AddTodo` models this, and `SubmitDraft` composes the form's guard with it.

History grouping is checked against independent reference definitions:

- `Select(h, d)`: the records labelled `d`, in history order.
- `FirstSeen(h, d)`: where label `d` first occurs.
- `GroupedBy(h, gs)`: each group holds exactly `Select` of its label, the groups are ordered by `FirstSeen`, and every label has a group.

`GroupByDateIsGrouping` proves that the reduce, step by step, produces such a grouping.

## Model

| member | source | states |
|---|---|---|
| App.AddTodo | src/App.js:30-38 | the list grows by one; the new task is at the front with the given id, the text exactly as passed (no trimming, no emptiness check), not completed and stamped with today's label; the old tasks follow unchanged and in order; history is untouched |
| App.AddTodoKeepsUniqueIds | src/App.js:30-37 | adding under an id that no active task carries keeps the active ids distinct |
| App.Flip | src/App.js:42 | the spread `{ ...todo, completed: !todo.completed }` keeps id, text and creation label and inverts the completion flag |
| App.ToggleIn | src/App.js:41-43 | the `map`: same length; a task whose id matches is flipped, every other task is kept as is |
| App.ToggleTodo | src/App.js:40-44 | length and order are preserved; every task keeps its id, text and creation label; `completed` changes exactly on the tasks whose id matches; history is untouched |
| App.ToggleTwiceIsIdentity | src/App.js:40-44 | toggling the same id twice restores the whole state |
| App.ToggleAbsentIsIdentity | src/App.js:40-44 | toggling an id no task carries changes nothing |
| App.ToggleKeepsUniqueIds | src/App.js:40-44 | toggling keeps the active ids distinct |
| App.Find | src/App.js:47 | `find`: no result exactly when no task carries the id; otherwise the result is the first task that carries it |
| App.DeleteTodo | src/App.js:46-52 | survivors come from the old list and never carry the id; history only grows at the end; an absent id changes nothing; a present id appends exactly one record, the first matching task stamped with today's label |
| App.DeleteKeepsOthers | src/App.js:51 | every task without the id survives as often as it occurred, every task with the id is gone, and the survivors keep their relative order |
| App.DeleteMovesOneTask | src/App.js:46-51 | with distinct ids, deleting a present id moves exactly one task: the active list shrinks by one, history grows by one, and the new record restores to the missing task |
| App.DeleteKeepsUniqueIds | src/App.js:51 | deleting keeps the active ids distinct |
| App.DeleteUndoesAdd | src/App.js:30-52 | deleting a task just added under a fresh id restores the active list and leaves that task, archived, as the newest history record |
| App.DeleteDropsDuplicateWithoutRecord | src/App.js:47-51 | of two tasks sharing an id, both leave the active list but only the first reaches history |
| App.ClearCompleted | src/App.js:54-60 | the active list keeps only incomplete tasks from the old list; history only grows at the end; the appended records restore to completed tasks of the old list and all carry today's label |
| App.ClearCompletedSplits | src/App.js:55-59 | the kept tasks are exactly the incomplete ones and the appended records exactly the completed ones, each as often as in the old list and in the old relative order |
| App.ClearCompletedConserves | src/App.js:55-59 | kept plus archived equals the old list, both in count and as a multiset |
| App.ClearCompletedIdempotent | src/App.js:54-60 | a second clear, under any label, changes nothing |
| App.ClearCompletedKeepsUniqueIds | src/App.js:59 | clearing keeps the active ids distinct |
| App.OperationsKeepHistoryStamped | src/App.js:46-60 | every operation appends only records that carry a removal label, so a history whose records all carry one keeps that property |
| App.SubmitDraft | src/components/TodoForm.js:7-13 | a blank draft changes nothing; any other draft becomes a new front task with the raw, untrimmed draft as its text, and the draft is cleared |
| App.BuyMilkScenario | src/App.js:30-52 | add, toggle, then delete one task: it ends as a single completed history record labelled with the deletion date, and the active list is empty |
| Model.Archive | src/App.js:49 | the spread `{ ...todo, deletedAt }` keeps every task field (restoring gives the task back) and sets the removal label |
| Model.ArchiveAll | src/App.js:56-58 | the batch archive keeps length and order, and each record restores to its task and carries the label |
| Model.RestoreArchiveAll | src/App.js:56-58 | archiving and then restoring a batch gives the batch back |
| Seqs.Filter | src/App.js:51 | `Array.prototype.filter` (also used at `src/App.js:55` and `59`): the result is never longer than the input; FilterSpec states its full meaning |
| Seqs.FilterSpec | src/App.js:51 | a filter keeps exactly the elements that satisfy the predicate, each as often as in the input, in their original order |
| Seqs.FilterPartition | src/App.js:55-59 | filtering by a predicate and by its negation splits the list: the two parts together have its length and its multiset |
| History.DateKey | src/components/History.js:15 | a record's group key is its removal label when present and non-empty, otherwise its creation label |
| History.ArchivedGroupsByRemovalDate | src/components/History.js:15 | a task archived under a non-empty label is grouped under that label |
| History.IndexOfDate | src/components/History.js:16 | the accumulator lookup finds the first group with the label, or reports that there is none |
| History.Bucket | src/components/History.js:16-20 | the reducer step: existing groups keep their labels and positions, at most one group is added, and an added group comes last holding just the record |
| History.BucketSpec | src/components/History.js:16-20 | the first group carrying the record's label gains the record at its end and every other group keeps its records; a group is added exactly when no group carries the label |
| History.GroupByDate | src/components/History.js:14-26 | the reduce followed by `Object.entries`: at most one group per record, and no groups exactly for an empty history; GroupByDateIsGrouping characterises the result completely |
| History.SelectIsFilter | src/components/History.js:19 | the reference selection of a label's records equals filtering the history front to back |
| History.BucketIntoExisting | src/components/History.js:16-20 | pushing a record whose label already has a group keeps the accumulator a correct grouping of the longer history |
| History.BucketIntoNew | src/components/History.js:16-20 | a record with a new label opens a group at the end, which keeps the accumulator a correct grouping |
| History.GroupByDateIsGrouping | src/components/History.js:14-21 | the reduce yields exactly the grouping: each group holds its label's records in history order, labels are ordered by first occurrence, and every label has a group |
| History.GroupsAreHomogeneousAndDistinct | src/components/History.js:14-21 | every record of a group carries the group's label, no group is empty, and group labels are distinct |
| History.GroupsKeepHistoryOrder | src/components/History.js:19 | within each group, records keep their relative order from the history |
| History.EachRecordInExactlyOneGroup | src/components/History.js:14-21 | every history record belongs to exactly one group |
| History.BucketKeepsAll | src/components/History.js:16-20 | one reducer step adds exactly its record to the groups' contents |
| History.GroupByDateIsPermutation | src/components/History.js:14-21 | the groups, concatenated in emission order, are a rearrangement of the history |
| History.GroupSizesSumToLength | src/components/History.js:14-21 | the group sizes sum to the history length |
| History.Render | src/components/History.js:5-26 | the empty-state message is shown exactly when the history is empty; otherwise the view shows at least one group, and the groups are the grouping of the history |
| History.StatusMark | src/components/History.js:33 | the status mark is the done mark exactly when the record is completed |
| TodoForm.Trim | src/components/TodoForm.js:9 | `String.prototype.trim`: the result is a contiguous slice of the input with only whitespace before and after it, and it is empty or neither begins nor ends with whitespace |
| TodoForm.TrimEmptyIffBlank | src/components/TodoForm.js:9 | the guard `input.trim()` is falsy exactly when the draft is empty or all whitespace |
| TodoForm.Step | src/components/TodoForm.js:7-20 | one event: typing sets the draft to the typed value and emits nothing; a submit of a blank draft keeps it and emits nothing; a submit of any other draft emits it untrimmed and clears the draft |
| TodoForm.HandleSubmit | src/components/TodoForm.js:7-13 | a blank draft emits nothing and stays as it is; any other draft is emitted untrimmed and the draft becomes empty |
| TodoForm.Run | src/components/TodoForm.js:7-20 | over any sequence of typing and submit events, every emitted text is non-blank and is the starting draft or a typed value, untouched; there are at most as many emissions as typing events, plus one for a non-blank starting draft |
| TodoForm.TypingReplacesDraft | src/components/TodoForm.js:20 | a typing event sets the draft to the typed value whatever it was: any run that starts with typing `v` is the run from draft `v` |
| TodoForm.DoubleSubmitEmitsAtMostOnce | src/components/TodoForm.js:9-11 | two submits with no typing in between emit at most once |

## Left out

- Loading from and saving to `localStorage` (`src/App.js:13-28`): browser I/O and JSON. `JSON.parse` throws on corrupt data rather than falling back to an empty list, and the model claims nothing about recovery.
- `Date.now()` and `toLocaleDateString()` (`src/App.js:32`, `35`, `49`, `57`): these are parameters. The model does not assume ids are fresh or distinct, because the clock does not guarantee it.
- ClearCompleted: takes one date label for the whole batch. The source reads the clock once per completed task; calls that straddle midnight could give different labels, and the model does not cover that.
- React's batching and the stale closure in `clearCompleted` (the functional updater at `src/App.js:57` against the captured list at `src/App.js:59`): each operation is one sequential step on the state.
- The `activeTab` state and the tab buttons (`src/App.js:10`, `69-101`): trivial UI routing.
- `src/components/TodoList.js`: pure rendering that forwards callbacks.
- Unicode details of `String.prototype.trim`: whitespace is the fixed set of ECMAScript WhiteSpace and LineTerminator characters listed in `IsSpace`, with no version-dependent Unicode tables.
- `Object.entries` puts integer-like keys first, in numeric order, and the accumulator `{}` inherits `Object.prototype`. A label equal to an inherited property name (`__proto__`, `constructor`, `toString`, `hasOwnProperty`, `valueOf` and the rest) would make `!acc[date]` false at `src/components/History.js:16` and `acc[date].push(item)` throw at `src/components/History.js:19`. `GroupByDate` groups such records like any other. Locale date labels are never integer-like and never equal those names, so groups are emitted in first-occurrence order.
- Ids of types other than numbers: ids are integers compared with `==`.
- Rendering markup, CSS classes and React keys (`src/components/History.js:23-42`): only the group structure and the status mark are modelled.
