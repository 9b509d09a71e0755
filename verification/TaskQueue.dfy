/** Adders and workers around the task list: every interleaving of add_task and handle_worker.

    add_task first appends under the list mutex and then posts the semaphore; handle_worker waits for the
    semaphore, looks at the list without the mutex, fetches under the mutex, and runs what is in its variable
    `a_task`, which keeps its value from one round to the next. Tasks are numbered in the order of their
    append, so that running a stale task again would show as a number that runs twice. */
module TaskQueue {

  type Job = nat

  datatype Where = Waiting | Woken | Fetching | Running

  /** A worker: where it is, and its variable a_task. */
  datatype Worker = Worker(at: Where, task: seq<Job>)

  datatype State = State(
    queue: seq<Job>,        // list_tasks
    semaphore: nat,         // got_task
    pending: nat,           // adders between append and post
    workers: seq<Worker>,
    appended: nat,          // tasks appended so far
    dispatched: seq<Job>,   // tasks taken from the list, in order
    ran: seq<Job>)          // tasks run, in order

  function Initial(workers: nat): State {
    State([], 0, 0, seq(workers, _ => Worker(Waiting, [])), 0, [], [])
  }

  datatype Step = Append | Post | Wake(w: nat) | Look(w: nat) | Fetch(w: nat) | Run(w: nat)

  predicate At(s: State, w: nat, place: Where) {
    w < |s.workers| && s.workers[w].at == place
  }

  predicate Enabled(s: State, step: Step) {
    match step
    case Append => true
    case Post => s.pending > 0
    case Wake(w) => At(s, w, Waiting) && s.semaphore > 0
    case Look(w) => At(s, w, Woken)
    case Fetch(w) => At(s, w, Fetching)
    case Run(w) => At(s, w, Running)
  }

  function Put(s: State, w: nat, worker: Worker): State
    requires w < |s.workers|
  {
    s.(workers := s.workers[w := worker])
  }

  function Next(s: State, step: Step): State
    requires Enabled(s, step)
  {
    match step
    case Append => s.(queue := s.queue + [s.appended], appended := s.appended + 1, pending := s.pending + 1)
    case Post => s.(pending := s.pending - 1, semaphore := s.semaphore + 1)
    case Wake(w) => Put(s, w, s.workers[w].(at := Woken)).(semaphore := s.semaphore - 1)
    case Look(w) => Put(s, w, s.workers[w].(at := if s.queue != [] then Fetching else Running))
    case Fetch(w) =>
      if s.queue == [] then Put(s, w, Worker(Running, []))
      else Put(s, w, Worker(Running, [s.queue[0]])).(queue := s.queue[1..], dispatched := s.dispatched + [s.queue[0]])
    case Run(w) => Put(s, w, s.workers[w].(at := Waiting)).(ran := s.ran + s.workers[w].task)
  }

  /** A run: every step is enabled in the state it meets. */
  predicate Possible(s: State, steps: seq<Step>)
    decreases |steps|
  {
    steps != [] ==> Enabled(s, steps[0]) && Possible(Next(s, steps[0]), steps[1..])
  }

  function After(s: State, steps: seq<Step>): State
    requires Possible(s, steps)
    decreases |steps|
  {
    if steps == [] then s else After(Next(s, steps[0]), steps[1..])
  }

  /* ---- The invariant ---- */

  /** Workers that have passed sem_wait and not yet fetched. */
  function Hungry(workers: seq<Worker>): nat {
    if workers == [] then 0
    else (if workers[0].at == Woken || workers[0].at == Fetching then 1 else 0) + Hungry(workers[1..])
  }

  /** The tasks a worker has fetched and not yet run. */
  function Held(v: Worker): multiset<Job> {
    if v.at == Running then multiset(v.task) else multiset{}
  }

  function InHand(workers: seq<Worker>): multiset<Job> {
    if workers == [] then multiset{} else Held(workers[0]) + InHand(workers[1..])
  }

  function UpTo(n: nat): seq<Job> {
    seq(n, i requires 0 <= i < n => i)
  }

  ghost predicate Inv(s: State) {
    && |s.queue| == s.semaphore + Hungry(s.workers) + s.pending
    && s.dispatched + s.queue == UpTo(s.appended)
    && multiset(s.dispatched) == multiset(s.ran) + InHand(s.workers)
  }

  lemma {:induction false} HungryUpdate(workers: seq<Worker>, w: nat, v: Worker)
    requires w < |workers|
    ensures Hungry(workers[w := v]) - Hungry([v]) == Hungry(workers) - Hungry([workers[w]])
    ensures Hungry(workers) >= Hungry([workers[w]])
  {
    if w == 0 {
      assert workers[w := v][1..] == workers[1..];
    } else {
      assert workers[w := v][1..] == workers[1..][w - 1 := v];
      HungryUpdate(workers[1..], w - 1, v);
    }
  }

  lemma {:induction false} InHandUpdate(workers: seq<Worker>, w: nat, v: Worker)
    requires w < |workers|
    ensures InHand(workers[w := v]) + Held(workers[w]) == InHand(workers) + Held(v)
  {
    hide Held;
    if w == 0 {
      assert workers[w := v][1..] == workers[1..];
    } else {
      assert workers[w := v][1..] == workers[1..][w - 1 := v];
      var tail, changed := workers[1..], workers[1..][w - 1 := v];
      InHandUpdate(tail, w - 1, v);
      var first := Held(workers[0]);
      assert first + InHand(changed) + Held(workers[w]) == first + (InHand(changed) + Held(workers[w]));
      assert first + InHand(tail) + Held(v) == first + (InHand(tail) + Held(v));
    }
  }

  lemma InitialInv(n: nat)
    ensures Inv(Initial(n))
  {
    InitialWorkers(n);
  }

  lemma {:induction false} InitialWorkers(n: nat)
    ensures Hungry(seq(n, _ => Worker(Waiting, []))) == 0 && InHand(seq(n, _ => Worker(Waiting, []))) == multiset{}
  {
    if n > 0 {
      assert seq(n, _ => Worker(Waiting, []))[1..] == seq(n - 1, _ => Worker(Waiting, []));
      InitialWorkers(n - 1);
    }
  }

  lemma OneHungry(v: Worker)
    ensures Hungry([v]) == if v.at == Woken || v.at == Fetching then 1 else 0
  {
    assert [v][1..] == [];
  }

  /** A woken worker never finds the list empty, neither when it looks nor when it fetches. */
  lemma NeverEmpty(s: State, w: nat)
    requires Inv(s) && (At(s, w, Woken) || At(s, w, Fetching))
    ensures s.queue != []
  {
    HungryUpdate(s.workers, w, s.workers[w]);
    OneHungry(s.workers[w]);
  }

  /** What a step of one worker does to the two sums. */
  lemma WorkerSums(s: State, t: State, w: nat)
    requires w < |s.workers| && |t.workers| == |s.workers| && t.workers == s.workers[w := t.workers[w]]
    ensures var before, after := s.workers[w], t.workers[w];
            && Hungry(t.workers) + (if before.at == Woken || before.at == Fetching then 1 else 0)
               == Hungry(s.workers) + (if after.at == Woken || after.at == Fetching then 1 else 0)
            && (Held(before) == multiset{} ==> InHand(t.workers) == InHand(s.workers) + Held(after))
            && (Held(after) == multiset{} ==> InHand(t.workers) + Held(before) == InHand(s.workers))
  {
    HungryUpdate(s.workers, w, t.workers[w]);
    InHandUpdate(s.workers, w, t.workers[w]);
    OneHungry(s.workers[w]);
    OneHungry(t.workers[w]);
    assert InHand(t.workers) + multiset{} == InHand(t.workers) && InHand(s.workers) + multiset{} == InHand(s.workers);
  }

  lemma WakeInv(s: State, w: nat)
    requires Inv(s) && Enabled(s, Wake(w))
    ensures Inv(Next(s, Wake(w)))
  {
    hide InHand, Hungry, UpTo;
    WorkerSums(s, Next(s, Wake(w)), w);
  }

  lemma LookInv(s: State, w: nat)
    requires Inv(s) && Enabled(s, Look(w))
    ensures Inv(Next(s, Look(w)))
  {
    NeverEmpty(s, w);
    hide InHand, Hungry, UpTo;
    WorkerSums(s, Next(s, Look(w)), w);
  }

  lemma FetchInv(s: State, w: nat)
    requires Inv(s) && Enabled(s, Fetch(w))
    ensures Inv(Next(s, Fetch(w)))
  {
    hide InHand, Hungry, UpTo;
    NeverEmpty(s, w);
    var t := Next(s, Fetch(w));
    WorkerSums(s, t, w);
    assert s.queue == [s.queue[0]] + s.queue[1..];
    assert t.dispatched + t.queue == s.dispatched + s.queue;
  }

  lemma RunStepInv(s: State, w: nat)
    requires Inv(s) && Enabled(s, Run(w))
    ensures Inv(Next(s, Run(w)))
  {
    hide InHand, Hungry, UpTo;
    WorkerSums(s, Next(s, Run(w)), w);
  }

  lemma StepInv(s: State, step: Step)
    requires Inv(s) && Enabled(s, step)
    ensures Inv(Next(s, step))
  {
    match step
    case Append => assert UpTo(s.appended + 1) == UpTo(s.appended) + [s.appended];
    case Post =>
    case Wake(w) => WakeInv(s, w);
    case Look(w) => LookInv(s, w);
    case Fetch(w) => FetchInv(s, w);
    case Run(w) => RunStepInv(s, w);
  }

  lemma {:induction false} RunInv(s: State, steps: seq<Step>)
    requires Inv(s) && Possible(s, steps)
    ensures Inv(After(s, steps))
    decreases |steps|
  {
    hide Inv, Next;
    if steps != [] {
      StepInv(s, steps[0]);
      RunInv(Next(s, steps[0]), steps[1..]);
    }
  }

  /** The occurrences of a task. */
  lemma {:induction false} CountUpTo(n: nat, job: Job)
    ensures multiset(UpTo(n))[job] == if job < n then 1 else 0
  {
    if n > 0 {
      assert UpTo(n) == UpTo(n - 1) + [n - 1];
      CountUpTo(n - 1, job);
    }
  }

  /** In every run of any number of adders and workers: the list, the semaphore and those in between are in
      balance; tasks leave the list in the order of their append; and every task is in exactly one place,
      waiting, in one worker's hand, or run once. */
  lemma EveryRun(workers: nat, steps: seq<Step>, job: Job)
    requires Possible(Initial(workers), steps)
    ensures var s := After(Initial(workers), steps);
            && |s.queue| == s.semaphore + Hungry(s.workers) + s.pending
            && s.dispatched + s.queue == UpTo(s.appended)
            && multiset(s.ran)[job] + InHand(s.workers)[job] + multiset(s.queue)[job]
               == (if job < s.appended then 1 else 0)
            && (forall w :: At(s, w, Woken) || At(s, w, Fetching) ==> s.queue != [])
  {
    var s := After(Initial(workers), steps);
    InitialInv(workers);
    RunInv(Initial(workers), steps);
    CountUpTo(s.appended, job);
    assert multiset(s.dispatched + s.queue) == multiset(s.dispatched) + multiset(s.queue);
    forall w | At(s, w, Woken) || At(s, w, Fetching) ensures s.queue != [] { NeverEmpty(s, w); }
  }

  /** Nothing is stuck: while a task is in the list, some adder can post or some worker can go on. */
  lemma Progress(s: State)
    requires Inv(s) && s.queue != [] && s.workers != []
    ensures Enabled(s, Post)
            || exists w :: Enabled(s, Wake(w)) || Enabled(s, Look(w)) || Enabled(s, Fetch(w)) || Enabled(s, Run(w))
  {
    match s.workers[0].at
    case Waiting =>
      if s.pending == 0 && s.semaphore == 0 {
        var w := HungryOne(s.workers);
        assert Enabled(s, Look(w)) || Enabled(s, Fetch(w));
      } else if s.semaphore > 0 {
        assert Enabled(s, Wake(0));
      }
    case Woken => assert Enabled(s, Look(0));
    case Fetching => assert Enabled(s, Fetch(0));
    case Running => assert Enabled(s, Run(0));
  }

  lemma {:induction false} HungryOne(workers: seq<Worker>) returns (w: nat)
    requires Hungry(workers) > 0
    ensures w < |workers| && (workers[w].at == Woken || workers[w].at == Fetching)
  {
    if workers[0].at == Woken || workers[0].at == Fetching {
      w := 0;
    } else {
      var v := HungryOne(workers[1..]);
      w := v + 1;
    }
  }
}
