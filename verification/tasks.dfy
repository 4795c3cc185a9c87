/**
 The task record shared by the home screen and the task list, and the one
 list idiom both of them use: rewrite, with `map`, every task whose id
 matches and return every other task as it is.
 */
module Tasks {

  /** A to-do entry. Field order follows the record's declaration. */
  datatype Task = Task(id: int, title: string, edit: bool, done: bool)

  /** The per-task rewrites the handlers apply inside their `map`. */
  datatype Change =
    | FlipDone               // flips `done`
    | FlipEdit               // flips `edit`
    | Commit(draft: string)  // takes the draft as title and leaves edit mode

  function Apply(c: Change, t: Task): Task
  {
    match c
    case FlipDone => t.(done := !t.done)
    case FlipEdit => t.(edit := !t.edit)
    case Commit(d) => t.(title := d, edit := false)
  }

  /** The handlers' `map` by id: the length and the order are kept, a task
      is rewritten exactly when its id matches, and every other task is
      returned unchanged. */
  function UpdateMatching(s: seq<Task>, id: int, c: Change): (r: seq<Task>)
    ensures |r| == |s|
    ensures forall i :: 0 <= i < |s| && s[i].id == id ==> r[i] == Apply(c, s[i])
    ensures forall i :: 0 <= i < |s| && s[i].id != id ==> r[i] == s[i]
  {
    if |s| == 0 then []
    else
      var rest := UpdateMatching(s[1..], id, c);
      if s[0].id == id then [Apply(c, s[0])] + rest else [s[0]] + rest
  }

  /** Some task carries the id. */
  ghost predicate HasId(s: seq<Task>, id: int)
  {
    exists i :: 0 <= i < |s| && s[i].id == id
  }

  /** No two tasks share an id. The source draws ids from the clock, so this
      is a hypothesis of the lemmas that need it, never an assumption of the
      operations. */
  ghost predicate UniqueIds(s: seq<Task>)
  {
    forall i, j :: 0 <= i < j < |s| ==> s[i].id != s[j].id
  }

  /** No task other than the one at index `i` carries that task's id. */
  ghost predicate IdOnlyAt(s: seq<Task>, i: int)
    requires 0 <= i < |s|
  {
    forall j :: 0 <= j < |s| && j != i ==> s[j].id != s[i].id
  }

  /** No two tasks share a title (compared with exact string equality). */
  ghost predicate DistinctTitles(s: seq<Task>)
  {
    forall i, j :: 0 <= i < j < |s| ==> s[i].title != s[j].title
  }

  /** Number of tasks that carry the id; zero exactly when none does. */
  function CountId(s: seq<Task>, id: int): (n: nat)
    ensures n <= |s|
    ensures n == 0 <==> !HasId(s, id)
  {
    if |s| == 0 then 0
    else
      assert forall i :: 0 < i < |s| ==> s[i] == s[1..][i - 1];
      (if s[0].id == id then 1 else 0) + CountId(s[1..], id)
  }

  /** Under unique ids an id is carried by at most one task. */
  lemma {:induction false} CountIdUnique(s: seq<Task>, id: int)
    requires UniqueIds(s)
    ensures CountId(s, id) == if HasId(s, id) then 1 else 0
  {
    if |s| > 0 {
      CountIdUnique(s[1..], id);
      if s[0].id == id {
        assert !HasId(s[1..], id) by {
          forall k | 0 <= k < |s[1..]|
            ensures s[1..][k].id != id
          {
            assert s[1..][k] == s[k + 1];
          }
        }
      }
    }
  }

  /** `a` is `b` with some elements left out, the rest in their order. */
  predicate IsSubsequence<T(==)>(a: seq<T>, b: seq<T>)
    decreases |b|
  {
    if |a| == 0 then true
    else if |b| == 0 then false
    else (a[0] == b[0] && IsSubsequence(a[1..], b[1..])) || IsSubsequence(a, b[1..])
  }

  /** A subsequence of the tail is a subsequence of the whole. */
  lemma SubsequenceOfTail<T>(a: seq<T>, b: seq<T>)
    requires |b| > 0
    requires IsSubsequence(a, b[1..])
    ensures IsSubsequence(a, b)
  {
  }

  /** Every element of a subsequence is an element of the whole. */
  lemma {:induction false} SubsequenceMembers<T>(a: seq<T>, b: seq<T>)
    requires IsSubsequence(a, b)
    ensures forall j :: 0 <= j < |a| ==> exists k :: 0 <= k < |b| && b[k] == a[j]
    decreases |b|
  {
    if |a| > 0 {
      if a[0] == b[0] && IsSubsequence(a[1..], b[1..]) {
        SubsequenceMembers(a[1..], b[1..]);
        forall j | 0 <= j < |a|
          ensures exists k :: 0 <= k < |b| && b[k] == a[j]
        {
          if j == 0 {
            assert b[0] == a[0];
          } else {
            assert a[j] == a[1..][j - 1];
            var k :| 0 <= k < |b[1..]| && b[1..][k] == a[j];
            assert b[k + 1] == a[j];
          }
        }
      } else {
        SubsequenceMembers(a, b[1..]);
        forall j | 0 <= j < |a|
          ensures exists k :: 0 <= k < |b| && b[k] == a[j]
        {
          var k :| 0 <= k < |b[1..]| && b[1..][k] == a[j];
          assert b[k + 1] == a[j];
        }
      }
    }
  }
}
