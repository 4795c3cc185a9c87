/**
 The home screen's handlers over the task list: add with duplicate-title
 rejection, toggle `done`, remove (the confirmed branch of the dialog) and
 toggle `edit`. Each handler is one atomic replacement of the list.
 */
module Home {
  import opened Tasks

  /** `hasEqualTask`: some task's title equals `title` exactly. */
  function HasEqualTask(s: seq<Task>, title: string): (b: bool)
    ensures b <==> exists i :: 0 <= i < |s| && s[i].title == title
  {
    if |s| == 0 then false
    else
      assert forall i :: 0 < i < |s| ==> s[i] == s[1..][i - 1];
      s[0].title == title || HasEqualTask(s[1..], title)
  }

  /** The task `handleAddTask` builds: not done, not being edited. */
  function NewTask(id: int, title: string): Task
  {
    Task(id, title, false, false)
  }

  /** Whether the add went through or the duplicate notice was shown. */
  datatype Outcome = Appended | DuplicateTitle

  datatype AddResult = AddResult(tasks: seq<Task>, outcome: Outcome)

  /** `handleAddTask`. The id is the clock reading the source takes; it is a
      parameter here. A duplicate title leaves the list as it was. */
  function Add(s: seq<Task>, id: int, title: string): (r: AddResult)
    ensures r.outcome == DuplicateTitle <==> exists i :: 0 <= i < |s| && s[i].title == title
    ensures r.outcome == DuplicateTitle ==> r.tasks == s
    ensures r.outcome == Appended ==>
              && |r.tasks| == |s| + 1
              && r.tasks[..|s|] == s
              && r.tasks[|s|] == Task(id, title, false, false)
  {
    if HasEqualTask(s, title) then AddResult(s, DuplicateTitle)
    else AddResult(s + [NewTask(id, title)], Appended)
  }

  /** `handleToggleTaskDone`: flips `done` on every task whose id matches and
      touches no other field and no other task. */
  function ToggleDone(s: seq<Task>, id: int): (r: seq<Task>)
    ensures |r| == |s|
    ensures forall i :: 0 <= i < |s| ==>
              && r[i].id == s[i].id
              && r[i].title == s[i].title
              && r[i].edit == s[i].edit
              && r[i].done == (if s[i].id == id then !s[i].done else s[i].done)
  {
    UpdateMatching(s, id, FlipDone)
  }

  /** `handleEditTask`: flips `edit` on every task whose id matches and
      touches no other field and no other task. */
  function ToggleEdit(s: seq<Task>, id: int): (r: seq<Task>)
    ensures |r| == |s|
    ensures forall i :: 0 <= i < |s| ==>
              && r[i].id == s[i].id
              && r[i].title == s[i].title
              && r[i].done == s[i].done
              && r[i].edit == (if s[i].id == id then !s[i].edit else s[i].edit)
  {
    UpdateMatching(s, id, FlipEdit)
  }

  /** The confirmed branch of `handleRemoveTask`, a filter that keeps the
      tasks with another id. The survivors are exactly those tasks, in their
      order, and one task goes per match. */
  function Remove(s: seq<Task>, id: int): (r: seq<Task>)
    ensures |r| == |s| - CountId(s, id)
    ensures forall i :: 0 <= i < |r| ==> r[i].id != id
    ensures forall t :: t in r <==> t in s && t.id != id
    ensures IsSubsequence(r, s)
  {
    if |s| == 0 then []
    else
      var rest := Remove(s[1..], id);
      if s[0].id == id then
        SubsequenceOfTail(rest, s);
        rest
      else
        [s[0]] + rest
  }

  // ---------------------------------------------------------------------
  // Toggles are involutions and ignore absent ids
  // ---------------------------------------------------------------------

  lemma ToggleDoneTwice(s: seq<Task>, id: int)
    ensures ToggleDone(ToggleDone(s, id), id) == s
  {
  }

  lemma ToggleDoneAbsent(s: seq<Task>, id: int)
    requires !HasId(s, id)
    ensures ToggleDone(s, id) == s
  {
  }

  lemma ToggleEditTwice(s: seq<Task>, id: int)
    ensures ToggleEdit(ToggleEdit(s, id), id) == s
  {
  }

  lemma ToggleEditAbsent(s: seq<Task>, id: int)
    requires !HasId(s, id)
    ensures ToggleEdit(s, id) == s
  {
  }

  // ---------------------------------------------------------------------
  // Remove
  // ---------------------------------------------------------------------

  /** Removing an id no task carries leaves the list as it was. */
  lemma {:induction false} RemoveAbsent(s: seq<Task>, id: int)
    requires !HasId(s, id)
    ensures Remove(s, id) == s
  {
    if |s| > 0 {
      assert s[0].id != id;
      assert !HasId(s[1..], id) by {
        forall k | 0 <= k < |s[1..]|
          ensures s[1..][k].id != id
        {
          assert s[1..][k] == s[k + 1];
        }
      }
      RemoveAbsent(s[1..], id);
      assert s == [s[0]] + s[1..];
    }
  }

  /** Filtering works piecewise, so the survivors keep their relative order. */
  lemma {:induction false} RemoveConcat(a: seq<Task>, b: seq<Task>, id: int)
    ensures Remove(a + b, id) == Remove(a, id) + Remove(b, id)
  {
    if |a| > 0 {
      assert (a + b)[1..] == a[1..] + b;
      assert (a + b)[0] == a[0];
      RemoveConcat(a[1..], b, id);
    } else {
      assert a + b == b;
    }
  }

  /** Under unique ids, removal drops exactly one task when the id is present
      and none when it is absent. */
  lemma RemoveUniqueLength(s: seq<Task>, id: int)
    requires UniqueIds(s)
    ensures |Remove(s, id)| == |s| - (if HasId(s, id) then 1 else 0)
  {
    CountIdUnique(s, id);
  }

  /** Removing twice is removing once. */
  lemma RemoveIdempotent(s: seq<Task>, id: int)
    ensures Remove(Remove(s, id), id) == Remove(s, id)
  {
    RemoveAbsent(Remove(s, id), id);
  }

  // ---------------------------------------------------------------------
  // Add
  // ---------------------------------------------------------------------

  /** Add never creates two tasks with one title: the duplicate check is the
      only gate on titles, and it holds whatever the ids are. */
  lemma AddKeepsTitlesDistinct(s: seq<Task>, id: int, title: string)
    requires DistinctTitles(s)
    ensures DistinctTitles(Add(s, id, title).tasks)
  {
  }

  /** With an id no task carries, Add keeps the ids unique. */
  lemma AddKeepsIdsUnique(s: seq<Task>, id: int, title: string)
    requires UniqueIds(s)
    requires !HasId(s, id)
    ensures UniqueIds(Add(s, id, title).tasks)
  {
  }

  /** The toggles and removal never break unique ids, whatever the titles
      (a commit may have repeated one). */
  lemma ToggleAndRemoveKeepIdsUnique(s: seq<Task>, id: int)
    requires UniqueIds(s)
    ensures UniqueIds(ToggleDone(s, id))
    ensures UniqueIds(ToggleEdit(s, id))
    ensures UniqueIds(Remove(s, id))
  {
    SubsequenceKeepsIdsUnique(Remove(s, id), s);
  }

  /** The toggles and removal never break distinct titles, whatever the ids
      (two adds on one clock reading share one). */
  lemma ToggleAndRemoveKeepTitlesDistinct(s: seq<Task>, id: int)
    requires DistinctTitles(s)
    ensures DistinctTitles(ToggleDone(s, id))
    ensures DistinctTitles(ToggleEdit(s, id))
    ensures DistinctTitles(Remove(s, id))
  {
    SubsequenceKeepsTitlesDistinct(Remove(s, id), s);
  }

  /** Leaving tasks out cannot create a repeated id. */
  lemma {:induction false} SubsequenceKeepsIdsUnique(a: seq<Task>, b: seq<Task>)
    requires IsSubsequence(a, b)
    requires UniqueIds(b)
    ensures UniqueIds(a)
    decreases |b|
  {
    if |a| > 0 {
      assert UniqueIds(b[1..]);
      if a[0] == b[0] && IsSubsequence(a[1..], b[1..]) {
        SubsequenceKeepsIdsUnique(a[1..], b[1..]);
        SubsequenceMembers(a[1..], b[1..]);
        forall j | 0 < j < |a|
          ensures a[0].id != a[j].id
        {
          assert a[j] == a[1..][j - 1];
          var k :| 0 <= k < |b[1..]| && b[1..][k] == a[j];
          assert b[k + 1] == a[j];
        }
      } else {
        SubsequenceKeepsIdsUnique(a, b[1..]);
      }
    }
  }

  /** Leaving tasks out cannot create a repeated title. */
  lemma {:induction false} SubsequenceKeepsTitlesDistinct(a: seq<Task>, b: seq<Task>)
    requires IsSubsequence(a, b)
    requires DistinctTitles(b)
    ensures DistinctTitles(a)
    decreases |b|
  {
    if |a| > 0 {
      assert DistinctTitles(b[1..]);
      if a[0] == b[0] && IsSubsequence(a[1..], b[1..]) {
        SubsequenceKeepsTitlesDistinct(a[1..], b[1..]);
        SubsequenceMembers(a[1..], b[1..]);
        forall j | 0 < j < |a|
          ensures a[0].title != a[j].title
        {
          assert a[j] == a[1..][j - 1];
          var k :| 0 <= k < |b[1..]| && b[1..][k] == a[j];
          assert b[k + 1] == a[j];
        }
      } else {
        SubsequenceKeepsTitlesDistinct(a, b[1..]);
      }
    }
  }

  // ---------------------------------------------------------------------
  // A run of adds
  // ---------------------------------------------------------------------

  /** One add request: the clock reading and the typed title. */
  datatype Request = Request(id: int, title: string)

  /** Feeding the requests to `handleAddTask` one after the other. */
  function AddAll(s: seq<Task>, reqs: seq<Request>): seq<Task>
    decreases |reqs|
  {
    if |reqs| == 0 then s
    else AddAll(Add(s, reqs[0].id, reqs[0].title).tasks, reqs[1..])
  }

  /** The tasks the requests describe, in request order. */
  function NewTasks(reqs: seq<Request>): (r: seq<Task>)
    ensures |r| == |reqs|
    ensures forall i :: 0 <= i < |reqs| ==> r[i] == NewTask(reqs[i].id, reqs[i].title)
  {
    if |reqs| == 0 then [] else [NewTask(reqs[0].id, reqs[0].title)] + NewTasks(reqs[1..])
  }

  /** Appending the first request's task and then the rest's is appending
      all of them. */
  lemma NewTasksCons(s: seq<Task>, reqs: seq<Request>)
    requires |reqs| > 0
    ensures s + [NewTask(reqs[0].id, reqs[0].title)] + NewTasks(reqs[1..]) == s + NewTasks(reqs)
  {
    assert NewTasks(reqs) == [NewTask(reqs[0].id, reqs[0].title)] + NewTasks(reqs[1..]);
  }

  /** A title no task carries is appended as a fresh task. */
  lemma AddFreshTitle(s: seq<Task>, id: int, title: string)
    requires forall k :: 0 <= k < |s| ==> s[k].title != title
    ensures Add(s, id, title) == AddResult(s + [NewTask(id, title)], Appended)
  {
  }

  /** No two requests carry one title. */
  ghost predicate RequestTitlesDistinct(reqs: seq<Request>)
  {
    forall i, j :: 0 <= i < j < |reqs| ==> reqs[i].title != reqs[j].title
  }

  /** No request carries a title already in the list. */
  ghost predicate RequestTitlesFresh(reqs: seq<Request>, s: seq<Task>)
  {
    forall i, k :: 0 <= i < |reqs| && 0 <= k < |s| ==> reqs[i].title != s[k].title
  }

  /** Dropping the first request keeps the request titles distinct, and
      fresh against the list with that request's task appended. */
  lemma RequestsTail(s: seq<Task>, reqs: seq<Request>)
    requires |reqs| > 0
    requires RequestTitlesDistinct(reqs)
    requires RequestTitlesFresh(reqs, s)
    ensures RequestTitlesDistinct(reqs[1..])
    ensures RequestTitlesFresh(reqs[1..], s + [NewTask(reqs[0].id, reqs[0].title)])
  {
    var rest, s' := reqs[1..], s + [NewTask(reqs[0].id, reqs[0].title)];
    forall i, j | 0 <= i < j < |rest|
      ensures rest[i].title != rest[j].title
    {
      assert rest[i] == reqs[i + 1] && rest[j] == reqs[j + 1];
    }
    forall i, k | 0 <= i < |rest| && 0 <= k < |s'|
      ensures rest[i].title != s'[k].title
    {
      assert rest[i] == reqs[i + 1];
      if k < |s| {
        assert s'[k] == s[k];
      }
    }
  }

  /** A first request with a fresh title is appended before the rest run. */
  lemma AddAllFirst(s: seq<Task>, reqs: seq<Request>)
    requires |reqs| > 0
    requires RequestTitlesFresh(reqs, s)
    ensures AddAll(s, reqs) == AddAll(s + [NewTask(reqs[0].id, reqs[0].title)], reqs[1..])
  {
    assert forall k :: 0 <= k < |s| ==> s[k].title != reqs[0].title;
    AddFreshTitle(s, reqs[0].id, reqs[0].title);
  }

  /** Requests whose titles differ from each other and from every title
      already in the list are all appended, in order: the list grows by one
      task per request. */
  lemma {:induction false} AddAllFreshTitles(s: seq<Task>, reqs: seq<Request>)
    requires RequestTitlesDistinct(reqs)
    requires RequestTitlesFresh(reqs, s)
    ensures AddAll(s, reqs) == s + NewTasks(reqs)
    ensures |AddAll(s, reqs)| == |s| + |reqs|
    decreases |reqs|
  {
    if |reqs| > 0 {
      var nt := NewTask(reqs[0].id, reqs[0].title);
      AddAllFirst(s, reqs);
      RequestsTail(s, reqs);
      AddAllFreshTitles(s + [nt], reqs[1..]);
      NewTasksCons(s, reqs);
    }
  }
}
