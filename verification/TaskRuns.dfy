/** The linked list of module TaskList under the runs of module TaskQueue: the list refines the queue. */
module TaskRuns {
  import opened TaskList
  import Q = TaskQueue

  /** The jobs of a list of tasks. */
  function Jobs(tasks: seq<Task>): (jobs: seq<int>)
    ensures |jobs| == |tasks| && forall i :: 0 <= i < |tasks| ==> jobs[i] == tasks[i].job
  {
    seq(|tasks|, i requires 0 <= i < |tasks| => tasks[i].job)
  }

  lemma JobsAppend(tasks: seq<Task>, t: Task)
    ensures Jobs(tasks + [t]) == Jobs(tasks) + [t.job]
  {
  }

  lemma JobsRest(tasks: seq<Task>)
    requires tasks != []
    ensures Jobs(tasks[1..]) == Jobs(tasks)[1..] && tasks[0].job == Jobs(tasks)[0]
  {
  }

  /** The list holds what the queue does. */
  ghost predicate Refines(list: Tasks, s: Q.State)
    reads list, list.waiting`next
  {
    list.Valid() && Jobs(list.waiting) == s.queue
  }

  /** A step of a run that meets the list: what add_task and get_task do there is what the step does to the queue;
      a worker that looks sees an empty list exactly when the queue is empty. */
  method Meet(list: Tasks, step: Q.Step, appended: nat, ghost s: Q.State) returns (got: Task?, seen: bool)
    requires Refines(list, s) && Q.Enabled(s, step) && appended == s.appended
    modifies list, list.waiting`next
    ensures Refines(list, Q.Next(s, step))
    ensures forall i :: 0 <= i < |list.waiting| ==> list.waiting[i] in old(list.waiting) || fresh(list.waiting[i])
    ensures step.Look? ==> (seen <==> s.queue != [])
    ensures if step.Fetch? && s.queue != [] then got != null && got.job == s.queue[0] else got == null
  {
    hide Jobs, Linked, Distinct;
    got, seen := null, list.listTasks != null;
    if step.Append? {
      JobsAppendAll(list.waiting);
      var _ := list.AddTask(appended);
    } else if step.Fetch? {
      if list.waiting != [] {
        JobsRest(list.waiting);
      }
      got := list.GetTask();
    }
  }

  lemma JobsAppendAll(tasks: seq<Task>)
    ensures forall t: Task :: Jobs(tasks + [t]) == Jobs(tasks) + [t.job]
    ensures tasks == [] <==> Jobs(tasks) == []
  {
    forall t: Task ensures Jobs(tasks + [t]) == Jobs(tasks) + [t.job] {
      JobsAppend(tasks, t);
    }
  }

  /** A whole run over the linked list: the list ends with the queue of the run, and the tasks that get_task has
      returned are those the run has dispatched, in their order. */
  method Execute(workers: nat, steps: seq<Q.Step>) returns (list: Tasks, got: seq<int>)
    requires Q.Possible(Q.Initial(workers), steps)
    ensures fresh(list) && Refines(list, Q.After(Q.Initial(workers), steps))
    ensures got == Q.After(Q.Initial(workers), steps).dispatched
  {
    hide Jobs, Q.Next, Q.Enabled;
    ghost var s := Q.Initial(workers);
    list := new Tasks();
    got := [];
    var appended := 0;
    NoJobs();
    for i := 0 to |steps|
      invariant fresh(list) && Refines(list, s)
      invariant forall k :: 0 <= k < |list.waiting| ==> fresh(list.waiting[k])
      invariant Q.Possible(s, steps[i..])
      invariant Q.After(s, steps[i..]) == Q.After(Q.Initial(workers), steps)
      invariant got == s.dispatched && appended == s.appended
    {
      assert steps[i..][0] == steps[i] && steps[i..][1..] == steps[i + 1..];
      var t, _ := Meet(list, steps[i], appended, s);
      StepCounts(s, steps[i]);
      if t != null {
        got := got + [t.job];
      }
      if steps[i].Append? {
        appended := appended + 1;
      }
      s := Q.Next(s, steps[i]);
    }
  }

  lemma NoJobs()
    ensures Jobs([]) == []
  {
  }

  lemma StepCounts(s: Q.State, step: Q.Step)
    requires Q.Enabled(s, step)
    ensures Q.Next(s, step).appended == s.appended + (if step.Append? then 1 else 0)
    ensures Q.Next(s, step).dispatched
            == if step.Fetch? && s.queue != [] then s.dispatched + [s.queue[0]] else s.dispatched
  {
  }
}
