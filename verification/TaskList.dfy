/** The controller's list of tasks: add_task appends at the tail pointer, get_task takes the head.

    After the last task is taken the tail pointer is stale; the list is empty exactly when its head is null. */
module TaskList {

  class Task {
    const job: int
    var next: Task?

    constructor (j: int)
      ensures job == j && next == null
    {
      job, next := j, null;
    }
  }

  function After(s: seq<Task>, i: nat): Task?
    requires i < |s|
  {
    if i + 1 < |s| then s[i + 1] else null
  }

  ghost predicate Linked(s: seq<Task>)
    reads s`next
  {
    forall i :: 0 <= i < |s| ==> s[i].next == After(s, i)
  }

  ghost predicate Distinct(s: seq<Task>) {
    forall i, j :: 0 <= i < j < |s| ==> s[i] != s[j]
  }

  lemma RestLinked(s: seq<Task>)
    requires s != [] && Linked(s) && Distinct(s)
    ensures Linked(s[1..]) && Distinct(s[1..]) && s[0] !in s[1..]
    ensures s[0].next == After(s, 0)
  {
    var rest := s[1..];
    forall i | 0 <= i < |rest| ensures rest[i].next == After(rest, i) && rest[i] != s[0] {
      assert rest[i] == s[i + 1] && s[i + 1].next == After(s, i + 1);
    }
  }

  class Tasks {
    var listTasks: Task?
    var lastTask: Task?
    ghost var waiting: seq<Task>

    ghost predicate Valid()
      reads this, waiting`next
    {
      && Distinct(waiting) && Linked(waiting)
      && listTasks == (if waiting == [] then null else waiting[0])
      && (waiting != [] ==> lastTask == waiting[|waiting| - 1])
    }

    constructor ()
      ensures Valid() && waiting == []
    {
      listTasks, lastTask, waiting := null, null, [];
    }

    /** The critical section of add_task. */
    method AddTask(job: int) returns (t: Task)
      requires Valid()
      modifies this, waiting`next
      ensures Valid() && fresh(t) && t.job == job && waiting == old(waiting) + [t]
    {
      t := new Task(job);
      if listTasks == null {
        listTasks, lastTask := t, t;
      } else {
        lastTask.next := t;
        lastTask := lastTask.next;
      }
      waiting := waiting + [t];
    }

    /** get_task: the oldest task, or null. */
    method GetTask() returns (t: Task?)
      requires Valid()
      modifies this, waiting`next
      ensures Valid()
      ensures if old(waiting) == [] then t == null && waiting == []
              else t == old(waiting)[0] && t.next == null && waiting == old(waiting)[1..]
    {
      t := null;
      if listTasks != null {
        t := listTasks;
        ghost var rest := waiting[1..];
        RestLinked(waiting);
        listTasks := listTasks.next;
        t.next := null;
        waiting := rest;
      }
    }
  }
}
