/** The task list of the main page and the pure updates its handlers make to
    it: the local list update of `toggleTask` and `deleteTask`, the body of
    the PUT request `toggleTask` sends, the completed and total counters,
    the progress-bar width and the text `addTask` posts.

    Every handler is one atomic step; the requests themselves are outside
    the model, and the local update happens whatever they return. */
module Tasks {
  import opened Wrappers
  import opened JsText

  datatype Task = Task(id: int, text: string, completed: bool, createdAt: string, updatedAt: string)

  predicate HasId(tasks: seq<Task>, id: int) {
    exists i :: 0 <= i < |tasks| && tasks[i].id == id
  }

  /** Ids are used as render keys, so the page expects them to be distinct. */
  predicate UniqueIds(tasks: seq<Task>) {
    forall i, j :: 0 <= i < j < |tasks| ==> tasks[i].id != tasks[j].id
  }

  // ----- toggleTask -----

  /** The callback given to `tasks.map`: the spread copy keeps every field
      but `completed`, which is negated exactly when the id matches. */
  function Flip(task: Task, id: int): (r: Task)
    ensures r.id == task.id && r.text == task.text
    ensures r.createdAt == task.createdAt && r.updatedAt == task.updatedAt
    ensures r.completed <==> (task.completed != (task.id == id))
  {
    if task.id == id then task.(completed := !task.completed) else task
  }

  /** The local list after `toggleTask(id)`. */
  function Toggle(tasks: seq<Task>, id: int): (r: seq<Task>)
    ensures |r| == |tasks|
    ensures forall i :: 0 <= i < |r| ==>
              && r[i].id == tasks[i].id && r[i].text == tasks[i].text
              && r[i].createdAt == tasks[i].createdAt && r[i].updatedAt == tasks[i].updatedAt
    ensures forall i :: 0 <= i < |r| ==> (r[i].completed != tasks[i].completed <==> tasks[i].id == id)
    ensures forall i :: 0 <= i < |r| && tasks[i].id != id ==> r[i] == tasks[i]
  {
    if tasks == [] then []
    else Toggle(tasks[..|tasks| - 1], id) + [Flip(tasks[|tasks| - 1], id)]
  }

  /** Toggling an id no task has leaves the list as it was. */
  lemma ToggleAbsent(tasks: seq<Task>, id: int)
    requires !HasId(tasks, id)
    ensures Toggle(tasks, id) == tasks
  {
  }

  /** Toggling the same id twice gives back the original list. */
  lemma ToggleTwice(tasks: seq<Task>, id: int)
    ensures Toggle(Toggle(tasks, id), id) == tasks
  {
  }

  /** With distinct ids, toggling a present task moves the completed count
      by exactly one, in the direction of that task's new state. */
  lemma {:induction false} ToggleCompletedCount(tasks: seq<Task>, id: int, i: int)
    requires UniqueIds(tasks)
    requires 0 <= i < |tasks| && tasks[i].id == id
    ensures CompletedCount(Toggle(tasks, id)) == CompletedCount(tasks) + (if tasks[i].completed then -1 else 1)
  {
    var n := |tasks|;
    var init := tasks[..n - 1];
    ToggleSnoc(tasks, id);
    CompletedCountSnoc(tasks);
    CompletedCountSnoc(Toggle(tasks, id));
    UniquePrefix(tasks);
    if i == n - 1 {
      ToggleAbsent(init, id);
    } else {
      assert init[i] == tasks[i];
      ToggleCompletedCount(init, id, i);
    }
  }

  lemma ToggleSnoc(tasks: seq<Task>, id: int)
    requires tasks != []
    ensures Toggle(tasks, id)[..|tasks| - 1] == Toggle(tasks[..|tasks| - 1], id)
    ensures Toggle(tasks, id)[|tasks| - 1] == Flip(tasks[|tasks| - 1], id)
  {
  }

  /** Dropping the last task keeps ids distinct, and no remaining task has
      the id of the one dropped. */
  lemma UniquePrefix(tasks: seq<Task>)
    requires tasks != [] && UniqueIds(tasks)
    ensures UniqueIds(tasks[..|tasks| - 1])
    ensures !HasId(tasks[..|tasks| - 1], tasks[|tasks| - 1].id)
  {
  }

  /** Where the matching task is found before the PUT request is built. */
  function FindIndexFrom(tasks: seq<Task>, id: int, k: nat): (r: int)
    requires k <= |tasks|
    decreases |tasks| - k
    ensures r == -1 || (k <= r < |tasks| && tasks[r].id == id)
    ensures forall j :: k <= j < |tasks| && (r == -1 || j < r) ==> tasks[j].id != id
  {
    if k == |tasks| then -1
    else if tasks[k].id == id then k
    else FindIndexFrom(tasks, id, k + 1)
  }

  /** `tasks.findIndex(task => task.id == id)` */
  function FindIndex(tasks: seq<Task>, id: int): (r: int)
    ensures r == -1 <==> !HasId(tasks, id)
    ensures r != -1 ==> 0 <= r < |tasks| && tasks[r].id == id
                        && forall j :: 0 <= j < r ==> tasks[j].id != id
  {
    FindIndexFrom(tasks, id, 0)
  }

  datatype PutBody = PutBody(text: string, completed: bool)

  /** The body `toggleTask` sends for `id`. When no task has the id, reading
      `tasks[-1].text` throws before `fetch` is called, so no request is
      sent (the error is caught and only logged). */
  function ToggleRequest(tasks: seq<Task>, id: int): (r: Option<PutBody>)
    ensures r.None? <==> !HasId(tasks, id)
    ensures r.Some? ==> exists i :: && 0 <= i < |tasks| && tasks[i].id == id
                                    && (forall j :: 0 <= j < i ==> tasks[j].id != id)
                                    && r.value == PutBody(tasks[i].text, !tasks[i].completed)
  {
    var i := FindIndex(tasks, id);
    if i == -1 then None else Some(PutBody(tasks[i].text, !tasks[i].completed))
  }

  /** With distinct ids, the body sent to the server describes the same task
      state the local list shows after the toggle. */
  lemma ToggleRequestAgrees(tasks: seq<Task>, id: int, i: int)
    requires UniqueIds(tasks)
    requires 0 <= i < |tasks| && tasks[i].id == id
    ensures ToggleRequest(tasks, id) == Some(PutBody(Toggle(tasks, id)[i].text, Toggle(tasks, id)[i].completed))
  {
  }

  // ----- deleteTask -----

  /** The local list after `deleteTask(id)`: `tasks.filter(t => t.id !== id)`. */
  function Delete(tasks: seq<Task>, id: int): (r: seq<Task>)
    ensures forall t :: t in r <==> t in tasks && t.id != id
    ensures forall t {:trigger multiset(r)[t]} :: multiset(r)[t] == if t.id == id then 0 else multiset(tasks)[t]
    ensures |r| <= |tasks|
  {
    if tasks == [] then []
    else
      var init := Delete(tasks[..|tasks| - 1], id);
      var last := tasks[|tasks| - 1];
      assert tasks == tasks[..|tasks| - 1] + [last];
      if last.id != id then
        assert multiset(init + [last]) == multiset(init) + multiset{last};
        init + [last]
      else init
  }

  /** `xs` can be obtained from `ys` by dropping elements: the elements kept
      stay in their relative order. */
  ghost predicate Subsequence<T>(xs: seq<T>, ys: seq<T>)
    decreases |ys|
  {
    if xs == [] then true
    else if ys == [] then false
    else || (xs[|xs| - 1] == ys[|ys| - 1] && Subsequence(xs[..|xs| - 1], ys[..|ys| - 1]))
         || Subsequence(xs, ys[..|ys| - 1])
  }

  /** Deleting keeps the remaining tasks in their original order. */
  lemma {:induction false} DeleteKeepsOrder(tasks: seq<Task>, id: int)
    ensures Subsequence(Delete(tasks, id), tasks)
  {
    if tasks != [] {
      var init := tasks[..|tasks| - 1];
      var r := Delete(tasks, id);
      DeleteKeepsOrder(init, id);
      if tasks[|tasks| - 1].id != id {
        assert r[..|r| - 1] == Delete(init, id);
      }
    }
  }

  /** Deleting an id no task has leaves the list as it was. */
  lemma {:induction false} DeleteAbsent(tasks: seq<Task>, id: int)
    requires !HasId(tasks, id)
    ensures Delete(tasks, id) == tasks
  {
    if tasks != [] {
      var init := tasks[..|tasks| - 1];
      var last := tasks[|tasks| - 1];
      assert tasks == init + [last];
      assert last.id != id && !HasId(init, id);
      DeleteAbsent(init, id);
      assert Delete(tasks, id) == Delete(init, id) + [last];
    }
  }

  /** With distinct ids, deleting a present id removes exactly one task. */
  lemma {:induction false} DeleteRemovesOne(tasks: seq<Task>, id: int)
    requires UniqueIds(tasks) && HasId(tasks, id)
    ensures |Delete(tasks, id)| == |tasks| - 1
  {
    var init := tasks[..|tasks| - 1];
    if tasks[|tasks| - 1].id == id {
      assert !HasId(init, id);
      DeleteAbsent(init, id);
    } else {
      var i :| 0 <= i < |tasks| && tasks[i].id == id;
      assert init[i].id == id;
      DeleteRemovesOne(init, id);
    }
  }

  // ----- counters and progress bar -----

  /** `tasks.filter(task => task.completed)`: every completed task is kept
      as many times as it occurs, and no other task is. */
  function Completed(tasks: seq<Task>): (r: seq<Task>)
    ensures |r| <= |tasks|
    ensures forall t {:trigger multiset(r)[t]} :: multiset(r)[t] == if t.completed then multiset(tasks)[t] else 0
  {
    if tasks == [] then []
    else
      var init := Completed(tasks[..|tasks| - 1]);
      var last := tasks[|tasks| - 1];
      assert tasks == tasks[..|tasks| - 1] + [last];
      if last.completed then
        assert multiset(init + [last]) == multiset(init) + multiset{last};
        init + [last]
      else init
  }

  /** The completed tasks keep their original relative order. */
  lemma {:induction false} CompletedKeepsOrder(tasks: seq<Task>)
    ensures Subsequence(Completed(tasks), tasks)
  {
    if tasks != [] {
      var init := tasks[..|tasks| - 1];
      var r := Completed(tasks);
      CompletedKeepsOrder(init);
      if tasks[|tasks| - 1].completed {
        assert r[..|r| - 1] == Completed(init);
      }
    }
  }

  /** The filter keeps exactly the completed tasks. */
  lemma {:induction false} CompletedMembers(tasks: seq<Task>)
    ensures forall t :: t in Completed(tasks) <==> t in tasks && t.completed
  {
    if tasks != [] {
      var init := tasks[..|tasks| - 1];
      CompletedMembers(init);
      assert tasks == init + [tasks[|tasks| - 1]];
    }
  }

  /** Counting a non-empty list: the count of all but the last task, plus
      one if the last task is completed. */
  lemma CompletedCountSnoc(tasks: seq<Task>)
    requires tasks != []
    ensures CompletedCount(tasks) == CompletedCount(tasks[..|tasks| - 1]) + (if tasks[|tasks| - 1].completed then 1 else 0)
  {
  }

  function CompletedCount(tasks: seq<Task>): (n: nat)
    ensures n <= |tasks|
  {
    |Completed(tasks)|
  }

  /** `tasks.length`: the counter the completed count is shown against. */
  function TotalCount(tasks: seq<Task>): (n: nat)
    ensures CompletedCount(tasks) <= n
    ensures n == 0 <==> tasks == []
  {
    |tasks|
  }

  /** The indices of the completed tasks. */
  ghost function CompletedIndices(tasks: seq<Task>): set<int> {
    set i | 0 <= i < |tasks| && tasks[i].completed
  }

  /** `completedCount` is the number of positions holding a completed task. */
  lemma {:induction false} CompletedCountIsCardinality(tasks: seq<Task>)
    ensures CompletedCount(tasks) == |CompletedIndices(tasks)|
  {
    if tasks != [] {
      var n := |tasks|;
      var init := tasks[..n - 1];
      CompletedCountIsCardinality(init);
      var s := CompletedIndices(init);
      if tasks[n - 1].completed {
        assert CompletedIndices(tasks) == s + {n - 1};
      } else {
        assert CompletedIndices(tasks) == s;
      }
    }
  }

  /** The count is `totalCount` exactly when every task is completed, and
      zero exactly when none is. */
  lemma {:induction false} CompletedCountExtremes(tasks: seq<Task>)
    ensures CompletedCount(tasks) == TotalCount(tasks) <==> forall i :: 0 <= i < |tasks| ==> tasks[i].completed
    ensures CompletedCount(tasks) == 0 <==> forall i :: 0 <= i < |tasks| ==> !tasks[i].completed
  {
    if tasks != [] {
      var init := tasks[..|tasks| - 1];
      CompletedCountExtremes(init);
    }
  }

  /** The progress-bar width, in percent: `completedCount / totalCount * 100`,
      or 0 when there are no tasks. Exact rational arithmetic stands in for
      the source's floating point. */
  function ProgressPercent(tasks: seq<Task>): (w: real)
    ensures 0.0 <= w <= 100.0
    ensures |tasks| > 0 ==> w * (|tasks| as real) == 100.0 * (CompletedCount(tasks) as real)
    ensures w == 0.0 <==> CompletedCount(tasks) == 0
    ensures w == 100.0 <==> |tasks| > 0 && CompletedCount(tasks) == |tasks|
  {
    var total := TotalCount(tasks);
    var done := CompletedCount(tasks);
    if total > 0 then
      PercentOfRatio(done, total);
      (done as real / total as real) * 100.0
    else 0.0
  }

  lemma PercentOfRatio(done: nat, total: nat)
    requires 0 < total && done <= total
    ensures var w := (done as real / total as real) * 100.0;
            && 0.0 <= w <= 100.0
            && w * (total as real) == 100.0 * (done as real)
            && (w == 0.0 <==> done == 0)
            && (w == 100.0 <==> done == total)
  {
  }

  // ----- addTask -----

  /** What `addTask` does locally: the text it posts and the new value of
      the input box. */
  datatype AddTaskEffect = AddTaskEffect(payload: string, input: string)

  function AddTask(newTask: string): (e: AddTaskEffect)
    ensures e.input == ""
    ensures Trimmed(e.payload)
    ensures exists i, j :: && 0 <= i <= j <= |newTask| && e.payload == newTask[i..j]
                           && AllWhitespace(newTask[..i]) && AllWhitespace(newTask[j..])
  {
    AddTaskEffect(Trim(newTask), "")
  }

  /** Blank input is not rejected: it is posted as the empty string. */
  lemma AddTaskBlank(newTask: string)
    ensures AddTask(newTask).payload == [] <==> AllWhitespace(newTask)
  {
  }
}
