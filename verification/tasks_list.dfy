/**
 The task list's inline-edit controller. Beside the task list it keeps a
 view-local selection (the id of the task being edited, or none) and a draft
 title. Entering and leaving edit mode go through the home screen's `edit`
 toggle; submitting the draft rewrites the selected task(s) directly.
 */
module TasksList {
  import opened Tasks
  import Home

  /** A selection that may be null. */
  datatype Option<T> = None | Some(value: T)

  /** `selectedTaskId` and `editedTask`. */
  datatype View = View(selected: Option<int>, draft: string)

  /** The list the home screen owns together with the list's view state. */
  datatype Screen = Screen(tasks: seq<Task>, view: View)

  /** Nothing selected, empty draft. */
  const InitialView: View := View(None, "")

  /** The `map` of `doneEdittingTask`: every task whose id equals the
      selection takes the draft as its title and leaves edit mode. A null
      selection equals no id, so it changes nothing. */
  function CommitEdit(s: seq<Task>, selected: Option<int>, draft: string): (r: seq<Task>)
    ensures |r| == |s|
    ensures forall i :: 0 <= i < |s| ==> r[i].id == s[i].id && r[i].done == s[i].done
    ensures forall i :: 0 <= i < |s| && selected == Some(s[i].id) ==>
              r[i].title == draft && !r[i].edit
    ensures forall i :: 0 <= i < |s| && selected != Some(s[i].id) ==> r[i] == s[i]
  {
    match selected
    case None => s
    case Some(k) => UpdateMatching(s, k, Commit(draft))
  }

  /** `startEdittingTask(t)`: toggles `edit` on `t.id`, selects `t.id` and
      loads `t.title` into the draft. No title changes. */
  function StartEditing(sc: Screen, t: Task): (r: Screen)
    ensures |r.tasks| == |sc.tasks|
    ensures forall i :: 0 <= i < |sc.tasks| ==>
              && r.tasks[i].id == sc.tasks[i].id
              && r.tasks[i].title == sc.tasks[i].title
              && r.tasks[i].done == sc.tasks[i].done
              && r.tasks[i].edit == (sc.tasks[i].edit != (sc.tasks[i].id == t.id))
    ensures r.view.selected == Some(t.id) && r.view.draft == t.title
  {
    Screen(Home.ToggleEdit(sc.tasks, t.id), View(Some(t.id), t.title))
  }

  /** `onChangeText`: the draft follows the text field; the list is untouched. */
  function ChangeDraft(sc: Screen, text: string): (r: Screen)
    ensures r.tasks == sc.tasks && r.view.selected == sc.view.selected
    ensures r.view.draft == text
  {
    sc.(view := sc.view.(draft := text))
  }

  /** `doneEdittingTask`: commits the draft into the selected task(s). It
      keeps the selection and the draft, and it does not check the draft
      against the other titles. */
  function DoneEditing(sc: Screen): (r: Screen)
    ensures r.view == sc.view
    ensures |r.tasks| == |sc.tasks|
    ensures forall i :: 0 <= i < |sc.tasks| ==>
              r.tasks[i].id == sc.tasks[i].id && r.tasks[i].done == sc.tasks[i].done
    ensures forall i :: 0 <= i < |sc.tasks| && sc.view.selected == Some(sc.tasks[i].id) ==>
              r.tasks[i].title == sc.view.draft && !r.tasks[i].edit
    ensures forall i :: 0 <= i < |sc.tasks| && sc.view.selected != Some(sc.tasks[i].id) ==>
              r.tasks[i] == sc.tasks[i]
  {
    sc.(tasks := CommitEdit(sc.tasks, sc.view.selected, sc.view.draft))
  }

  /** `cancelEdditingTask(id)`: toggles `edit` on `id` and clears the
      selection. The draft is never written into a title (it stays in the
      view, unused). */
  function CancelEditing(sc: Screen, id: int): (r: Screen)
    ensures |r.tasks| == |sc.tasks|
    ensures forall i :: 0 <= i < |sc.tasks| ==>
              && r.tasks[i].id == sc.tasks[i].id
              && r.tasks[i].title == sc.tasks[i].title
              && r.tasks[i].done == sc.tasks[i].done
              && r.tasks[i].edit == (sc.tasks[i].edit != (sc.tasks[i].id == id))
    ensures r.view.selected == None && r.view.draft == sc.view.draft
  {
    Screen(Home.ToggleEdit(sc.tasks, id), sc.view.(selected := None))
  }

  // ---------------------------------------------------------------------
  // Properties of the edit cycle
  // ---------------------------------------------------------------------

  /** Submitting with nothing selected leaves the list as it was. */
  lemma DoneWithoutSelection(sc: Screen)
    requires sc.view.selected == None
    ensures DoneEditing(sc) == sc
  {
  }

  /** Starting and then cancelling an edit of one task gives the list back:
      `edit` is flipped twice and no title is written. */
  lemma StartThenCancel(sc: Screen, t: Task)
    ensures CancelEditing(StartEditing(sc, t), t.id).tasks == sc.tasks
    ensures CancelEditing(StartEditing(sc, t), t.id).view == View(None, t.title)
  {
  }

  /** A full edit of the task at index `i` (start, type `text`, submit)
      replaces that task's title and nothing else, provided the task was not
      in edit mode and no other task carries its id. Other tasks may share
      ids among themselves. */
  lemma EditCycleRenames(sc: Screen, i: int, text: string)
    requires 0 <= i < |sc.tasks| && !sc.tasks[i].edit
    requires IdOnlyAt(sc.tasks, i)
    ensures DoneEditing(ChangeDraft(StartEditing(sc, sc.tasks[i]), text)).tasks
            == sc.tasks[i := sc.tasks[i].(title := text)]
  {
  }

  /** Submitting the draft untouched after starting an edit gives the list
      back, under the same condition on ids. */
  lemma StartThenSubmitUnchanged(sc: Screen, i: int)
    requires 0 <= i < |sc.tasks| && !sc.tasks[i].edit
    requires IdOnlyAt(sc.tasks, i)
    ensures DoneEditing(StartEditing(sc, sc.tasks[i])).tasks == sc.tasks
  {
  }

  /** No task is in edit mode. */
  ghost predicate NoEditor(s: seq<Task>)
  {
    forall i :: 0 <= i < |s| ==> !s[i].edit
  }

  /** Exactly the tasks carrying id `k` are in edit mode. */
  ghost predicate OnlyEditor(s: seq<Task>, k: int)
  {
    forall i :: 0 <= i < |s| ==> (s[i].edit <==> s[i].id == k)
  }

  /** From a list with no task in edit mode, starting an edit puts exactly
      the tasks with that id in edit mode and selects that id; submitting
      or cancelling then leaves no task in edit mode. */
  lemma SingleEditCycle(sc: Screen, t: Task, text: string)
    requires NoEditor(sc.tasks)
    ensures OnlyEditor(StartEditing(sc, t).tasks, t.id)
    ensures StartEditing(sc, t).view.selected == Some(t.id)
    ensures NoEditor(DoneEditing(ChangeDraft(StartEditing(sc, t), text)).tasks)
    ensures NoEditor(CancelEditing(StartEditing(sc, t), t.id).tasks)
  {
  }

  /** The single-editor convention is not enforced: starting an edit on a
      second task while the first is still being edited leaves both in edit
      mode, while the view selects only the second. */
  lemma StartEditingTwiceGivesTwoEditors(sc: Screen, i: int, j: int)
    requires NoEditor(sc.tasks)
    requires 0 <= i < |sc.tasks| && 0 <= j < |sc.tasks|
    requires sc.tasks[i].id != sc.tasks[j].id
    ensures var r := StartEditing(StartEditing(sc, sc.tasks[i]), sc.tasks[j]);
            r.tasks[i].edit && r.tasks[j].edit && r.view.selected == Some(sc.tasks[j].id)
  {
  }

  /** Submitting an edit performs no duplicate-title check: writing one
      task's title into another task leaves two tasks with the same title,
      which `Home.Add` would have refused. */
  lemma CommitMayDuplicateTitles(s: seq<Task>, i: int, j: int)
    requires 0 <= i < |s| && 0 <= j < |s| && i != j
    ensures !DistinctTitles(CommitEdit(s, Some(s[j].id), s[i].title))
    ensures Home.Add(s, s[j].id, s[i].title).outcome == Home.DuplicateTitle
  {
  }

  /** Submitting from the initial view state, where nothing is selected,
      changes neither the list nor the view. */
  lemma SubmitFromInitialView(s: seq<Task>)
    ensures DoneEditing(Screen(s, InitialView)) == Screen(s, InitialView)
  {
  }

  /** Adding a task and then editing it from the initial view state leaves
      the list with the new task renamed at the end, not done and not in
      edit mode. */
  lemma AddThenRename(s: seq<Task>, id: int, title: string, text: string)
    requires !HasId(s, id)
    requires forall k :: 0 <= k < |s| ==> s[k].title != title
    ensures var added := Home.Add(s, id, title).tasks;
            DoneEditing(ChangeDraft(StartEditing(Screen(added, InitialView), added[|s|]), text)).tasks
            == s + [Task(id, text, false, false)]
  {
  }
}
