# To-do list: task store and inline-edit controller

A Dafny model of the state logic of a small React Native to-do screen. The
screen holds one ordered list of tasks. Each task has an `id`, a `title`, a
`done` flag and an `edit` flag. The home screen changes the list through four
handlers:

- add, which refuses a title equal to an existing one;
- toggle `done` by id;
- remove by id, in the confirmed branch of the dialog;
- toggle `edit` by id.

The task list component keeps its own view state beside the list: the id of
the task being edited (possibly null) and a draft title. It enters edit mode,
commits the draft, and cancels.

Each handler is modelled as one pure function from the old list (and view
state) to the new one:

- `tasks.dfy` (module `Tasks`): the `Task` record. Also `UpdateMatching`, the
  "`map` over the list, rewrite every task whose id matches" idiom that three
  handlers share. Also the predicates `UniqueIds`, `DistinctTitles`, `HasId`
  and `IdOnlyAt` (no other task carries the id of the task at one index), the
  counter `CountId`, and `IsSubsequence` with its two helper lemmas
  `SubsequenceOfTail` and `SubsequenceMembers`.
- `home.dfy` (module `Home`): `HasEqualTask`, `Add`, `ToggleDone`,
  `ToggleEdit` and `Remove`, with their lemmas. Also `AddAll`, a run of adds.
- `tasks_list.dfy` (module `TasksList`): the view state `View(selected, draft)`
  with an `Option<int>` selection, the `Screen` pairing it with the list, and
  `StartEditing`, `ChangeDraft`, `DoneEditing` and `CancelEditing`, with
  lemmas about the edit cycle.

Ids come from the clock in the source and are not guaranteed unique. `Add`
therefore takes the id as a parameter. The operations state their effect on
"every task whose id matches". Unique ids are a hypothesis only of the lemmas
that need them: exact removal counts and the lemmas showing that unique ids
are preserved. The edit-cycle round trips ask only that no other task carries
the edited task's id.

Notes on the code's behaviour:

- Submitting an edit takes no arguments. It reads the view's selection and
  draft, clears neither of them, and does not check for duplicate titles.
- Ids are not unique by construction.
- Nothing enforces a single task in edit mode at a time;
  `StartEditingTwiceGivesTwoEditors` shows two tasks in edit mode at once.

## Model

| member | source | states |
|---|---|---|
| Tasks.UpdateMatching | src/pages/Home.tsx:38-44 | the shared `map` keeps length and order; a task is rewritten by the change exactly when its id matches, and every other task is returned unchanged |
| Tasks.CountId | src/pages/Home.tsx:53 | the number of tasks carrying an id is at most the length and is zero exactly when no task carries it |
| Tasks.CountIdUnique | src/pages/Home.tsx:53 | under unique ids an id is carried by exactly one task if present and by none otherwise |
| Home.HasEqualTask | src/pages/Home.tsx:11-13 | true exactly when some task's title is equal to the given title |
| Home.Add | src/pages/Home.tsx:15-34 | outcome is DuplicateTitle iff some task already has the title, and then the list is unchanged; otherwise exactly one task (given id and title, not done, not editing) is appended at the end and the earlier tasks keep their values and order |
| Home.AddFreshTitle | src/pages/Home.tsx:24-33 | a title no task carries is always appended as a new task with outcome Appended |
| Home.AddKeepsTitlesDistinct | src/pages/Home.tsx:11-33 | add never leaves two tasks with the same title if there were none before, whatever id is used |
| Home.AddKeepsIdsUnique | src/pages/Home.tsx:17-33 | add with an id no task carries keeps ids unique |
| Home.AddAllFreshTitles | src/pages/Home.tsx:15-34 | a run of adds whose titles differ from each other and from the list appends one task per request, in request order |
| Home.ToggleDone | src/pages/Home.tsx:36-45 | length and order kept; `done` flips exactly on tasks with the id; id, title and edit of every task and all of any other task unchanged |
| Home.ToggleDoneTwice | src/pages/Home.tsx:38-44 | toggling done twice on one id gives back the original list |
| Home.ToggleDoneAbsent | src/pages/Home.tsx:38-44 | toggling done on an id no task carries changes nothing |
| Home.ToggleEdit | src/pages/Home.tsx:64-72 | length and order kept; `edit` flips exactly on tasks with the id; id, title and done unchanged everywhere |
| Home.ToggleEditTwice | src/pages/Home.tsx:65-71 | toggling edit twice on one id gives back the original list |
| Home.ToggleEditAbsent | src/pages/Home.tsx:65-71 | toggling edit on an id no task carries changes nothing |
| Home.Remove | src/pages/Home.tsx:47-62 | the survivors are exactly the tasks with another id, form a subsequence of the list (order kept), none carries the id, and the length drops by the number of tasks carrying it |
| Home.RemoveAbsent | src/pages/Home.tsx:53 | removing an id no task carries leaves the list as it was |
| Home.RemoveConcat | src/pages/Home.tsx:53 | removal acts piecewise on a concatenation, so the relative order of the survivors is kept |
| Home.RemoveUniqueLength | src/pages/Home.tsx:53 | under unique ids removal drops exactly one task when the id is present and none when it is absent |
| Home.RemoveIdempotent | src/pages/Home.tsx:53 | removing the same id twice is the same as removing it once |
| Home.ToggleAndRemoveKeepIdsUnique | src/pages/Home.tsx:36-72 | toggling done, toggling edit and removing all keep ids unique, whatever the titles (including lists where a commit repeated a title) |
| Home.ToggleAndRemoveKeepTitlesDistinct | src/pages/Home.tsx:36-72 | toggling done, toggling edit and removing all keep titles distinct, whatever the ids (including lists where two tasks share a clock id) |
| Home.SubsequenceKeepsIdsUnique | src/pages/Home.tsx:53 | leaving tasks out of a list with unique ids cannot create a repeated id |
| Home.SubsequenceKeepsTitlesDistinct | src/pages/Home.tsx:53 | leaving tasks out of a list with distinct titles cannot create a repeated title |
| TasksList.CommitEdit | src/components/TasksList.tsx:53-61 | length, ids and done kept; tasks whose id equals the selection take the draft as title and leave edit mode; every other task, and every task when nothing is selected, is unchanged |
| TasksList.StartEditing | src/components/TasksList.tsx:43-50 | edit flips exactly on tasks with the task's id, no title/done/id changes, the selection becomes that id and the draft becomes the task's title |
| TasksList.ChangeDraft | src/components/TasksList.tsx:128-130 | typing replaces the draft only; list and selection unchanged |
| TasksList.DoneEditing | src/components/TasksList.tsx:52-64 | the draft becomes the title of the selected task(s), which leave edit mode; done, ids, length, order and every other task unchanged; selection and draft are kept |
| TasksList.CancelEditing | src/components/TasksList.tsx:66-69 | edit flips on the given id, no title changes (the draft is never written), the selection is cleared and the draft stays |
| TasksList.DoneWithoutSelection | src/components/TasksList.tsx:52-64 | submitting with a null selection leaves list and view unchanged |
| TasksList.StartThenCancel | src/components/TasksList.tsx:43-69 | starting then cancelling an edit of a task gives back the original list, with nothing selected and the task's title left in the draft |
| TasksList.EditCycleRenames | src/components/TasksList.tsx:43-64 | when no other task carries its id, start, type and submit on a task not in edit mode replaces exactly that task's title and nothing else, even if other tasks share ids among themselves |
| TasksList.StartThenSubmitUnchanged | src/components/TasksList.tsx:43-64 | when no other task carries the edited task's id, submitting the untouched draft right after starting an edit gives back the original list |
| TasksList.SingleEditCycle | src/components/TasksList.tsx:43-69 | from a list with no task in edit mode, start puts exactly the tasks with that id in edit mode and selects it; submit or cancel then leaves none in edit mode |
| TasksList.StartEditingTwiceGivesTwoEditors | src/components/TasksList.tsx:43-46 | starting an edit on a second task while the first is still in edit mode leaves both in edit mode, with only the second selected |
| TasksList.CommitMayDuplicateTitles | src/components/TasksList.tsx:52-64 | for every list, committing one task's title into another task gives two tasks with the same title, a title that add would refuse as a duplicate |
| TasksList.SubmitFromInitialView | src/components/TasksList.tsx:39-40 | from the initial view state (no selection, empty draft) submitting changes neither the list nor the view |
| TasksList.AddThenRename | src/components/TasksList.tsx:39-64 | adding a task with a fresh title and an id no task carries (earlier tasks may share ids among themselves), then starting, typing and submitting from the initial view state, leaves the old list followed by the new task carrying the typed title, not done and not in edit mode |

## Left out

- Rendering: the list layout, the row wrapper, icons, images and style sheets.
  They have no state behaviour. The only rendering callback modelled is the
  text field's change handler (`ChangeDraft`).
- The confirmation dialogs. The duplicate-title notice becomes the
  `DuplicateTitle` outcome of `Add`. Removal is modelled only in its confirmed
  branch; the cancel branch only logs and leaves the list unchanged. Console
  logging is left out.
- The deferred input focus after entering edit mode and the input ref. This is
  a UI timer with no effect on state.
- Id generation from the clock. The id is a parameter of `Add`. Ids are
  unbounded integers, not JavaScript numbers.
- React update semantics. Each handler is one atomic transition on the current
  list. The commit writes a list computed from the rendered list rather than
  through a functional updater, and batching is also out of scope.
- The header, the new-task input and the row wrapper components are not part
  of this model.
- Strings are compared as sequences of characters, as exact string equality
  does. There is no case folding or normalisation.
