/** The state of the device's transaction layer: a pool of four transactions, the list of the open ones, and their
    timers. Modules TransactionRuns and TransactionLayer have its runs and its methods.

    A pointer to a transaction is its place in the pool. `sent` records what has happened to every transaction
    there ever was, by its serial number: how often its message went out and how long each wait was. Callbacks
    are numbered in the order in which they are registered; `called` lists those that have run. A place keeps
    its callback when its transaction is gone, and a new transaction does not clear it: whose callback runs is
    the subject of module Callbacks. A callback runs after its transaction is gone, so what it does in turn is
    more steps of the run. */
module Transactions {
  import opened Callbacks
  import opened OptionFormat

  const MAX_OPEN: nat := 4
  const MAX_RETRANSMIT: nat := 4

  /** `callback` and `interval` are what the place has kept until they are set; whether the message is confirmable
      is what the caller writes into the packet before it sends. */
  datatype Transaction = Transaction(serial: nat, mid: nat, confirmable: bool, callback: Option<nat>,
                                     counter: nat, interval: nat, running: bool)

  /** How often a message was sent, and the intervals of the timer after these sends. */
  datatype History = History(count: nat, waits: seq<nat>)

  function Pow2(k: nat): nat {
    if k == 0 then 1 else 2 * Pow2(k - 1)
  }

  /** At most five sends, and a wait after each of the first four: T0, doubled every time, where T0 is between two
      seconds and one and a half times that (section 4.2 of RFC 7252). */
  predicate BacksOff(h: History, clockSecond: nat) {
    && |h.waits| <= h.count <= |h.waits| + 1 && |h.waits| <= MAX_RETRANSMIT
    && (h.waits != [] ==> 2 * clockSecond <= h.waits[0] <= 3 * clockSecond)
    && forall k :: 0 <= k < |h.waits| ==> h.waits[k] == h.waits[0] * Pow2(k)
  }

  /** What an open transaction has to do with its history. */
  predicate InStep(t: Transaction, h: History) {
    if t.running then
      && t.confirmable && t.counter < MAX_RETRANSMIT && h.count == |h.waits| == t.counter + 1
      && t.interval == h.waits[t.counter]
    else t.counter == 0 && h == History(0, [])
  }

  lemma FirstWait(t0: nat, clockSecond: nat)
    requires 2 * clockSecond <= t0 <= 3 * clockSecond
    ensures BacksOff(History(1, [t0]), clockSecond)
  {
  }

  lemma NextWait(h: History, clockSecond: nat)
    requires BacksOff(h, clockSecond) && 0 < h.count == |h.waits| < MAX_RETRANSMIT
    ensures BacksOff(History(h.count + 1, h.waits + [2 * h.waits[|h.waits| - 1]]), clockSecond)
  {
    var n := |h.waits|;
    assert h.waits[n - 1] == h.waits[0] * Pow2(n - 1);
    assert Pow2(n) == 2 * Pow2(n - 1);
    assert h.waits[0] * (2 * Pow2(n - 1)) == 2 * (h.waits[0] * Pow2(n - 1));
  }

  /* ---- The invariant, on values ---- */

  datatype State = State(pool: seq<Transaction>, used: seq<bool>, open: seq<nat>, next: nat,
                         sent: map<nat, History>, registered: nat, log: seq<Event>, called: seq<nat>)

  /** The list holds the allocated places of the pool, each once. */
  ghost predicate Listed(s: State) {
    && |s.pool| == |s.used| == MAX_OPEN && NoDup(s.open)
    && (forall i :: 0 <= i < |s.open| ==> s.open[i] < MAX_OPEN)
    && (forall at :: 0 <= at < MAX_OPEN ==> (s.used[at] <==> at in s.open))
  }

  /** Open transactions are in step with their histories. */
  predicate Live(s: State, t: Transaction) {
    t.serial < s.next && t.serial in s.sent && InStep(t, s.sent[t.serial])
  }

  ghost predicate Recorded(s: State, clockSecond: nat) {
    forall k :: k in s.sent ==> k < s.next && BacksOff(s.sent[k], clockSecond)
  }

  ghost predicate Apart(s: State)
    requires Listed(s)
  {
    && (forall i :: 0 <= i < |s.open| ==> Live(s, s.pool[s.open[i]]))
    && (forall i, j :: 0 <= i < j < |s.open| ==> s.pool[s.open[i]].serial != s.pool[s.open[j]].serial)
  }

  /** Every place holds the callback that the log says it does, and those have run that the log says have. */
  ghost predicate Calls(s: State) {
    && |s.pool| == |s.used| == MAX_OPEN
    && Orderly(s.log, s.used, s.registered) && s.called == Ran(s.log)
    && forall at :: 0 <= at < MAX_OPEN ==> s.pool[at].callback == Left(s.log, at)
  }

  ghost predicate Sends(s: State, clockSecond: nat) {
    Listed(s) && Recorded(s, clockSecond) && Apart(s)
  }

  ghost predicate Good(s: State, clockSecond: nat) {
    Sends(s, clockSecond) && Calls(s)
  }

  /** Callbacks have nothing to do with sends. */
  lemma SendsSame(s: State, r: State, clockSecond: nat)
    requires Sends(s, clockSecond)
    requires r.pool == s.pool && r.used == s.used && r.open == s.open && r.next == s.next && r.sent == s.sent
    ensures Sends(r, clockSecond)
  {
    hide NoDup, BacksOff, InStep;
    assert forall t :: Live(s, t) ==> Live(r, t);
  }

  /** A transaction is made: the place keeps the callback and the interval it had. */
  function AfterNew(s: State, at: nat, mid: nat, confirmable: bool): State
    requires at < |s.pool| && at < |s.used|
  {
    var t := Transaction(s.next, mid, confirmable, s.pool[at].callback, 0, s.pool[at].interval, false);
    s.(pool := s.pool[at := t], used := s.used[at := true], open := s.open + [at], next := s.next + 1,
       sent := s.sent[s.next := History(0, [])], log := s.log + [Made(at)])
  }

  lemma GoodNew(s: State, clockSecond: nat, at: nat, mid: nat, confirmable: bool)
    requires Good(s, clockSecond) && at < MAX_OPEN && !s.used[at]
    ensures Good(AfterNew(s, at, mid, confirmable), clockSecond)
  {
    hide Sends, Calls;
    SendsNew(s, clockSecond, at, mid, confirmable);
    CallsNew(s, at, mid, confirmable);
  }

  lemma CallsNew(s: State, at: nat, mid: nat, confirmable: bool)
    requires Calls(s) && at < MAX_OPEN && !s.used[at]
    ensures Calls(AfterNew(s, at, mid, confirmable))
  {
    hide Orderly, Ran, Left, Own, Strays, Unregistered;
    LeftMore(s.log, Made(at));
    MadeKeeps(s.log, s.used, s.registered, at);
  }

  lemma SendsNew(s: State, clockSecond: nat, at: nat, mid: nat, confirmable: bool)
    requires Sends(s, clockSecond) && at < MAX_OPEN && !s.used[at]
    ensures Sends(AfterNew(s, at, mid, confirmable), clockSecond)
  {
    var r := AfterNew(s, at, mid, confirmable);
    assert at !in s.open;
    assert s.next !in s.sent;
    assert forall i :: 0 <= i < |s.open| ==> r.pool[r.open[i]] == s.pool[s.open[i]];
    assert BacksOff(History(0, []), clockSecond);
  }

  /** The caller of coap_new_transaction stores a callback. */
  function AfterRegister(s: State, at: nat): State
    requires at < |s.pool|
  {
    s.(pool := s.pool[at := s.pool[at].(callback := Some(s.registered))], registered := s.registered + 1,
       log := s.log + [Registered(at, s.registered)])
  }

  lemma GoodRegister(s: State, clockSecond: nat, at: nat)
    requires Good(s, clockSecond) && at in s.open
    ensures at < |s.pool| && Good(AfterRegister(s, at), clockSecond)
  {
    hide Sends, Calls;
    SendsRegister(s, clockSecond, at);
    CallsRegister(s, at);
  }

  lemma CallsRegister(s: State, at: nat)
    requires Calls(s) && at < MAX_OPEN && s.used[at]
    ensures Calls(AfterRegister(s, at))
  {
    hide Orderly, Ran, Left, Own, Strays, Unregistered;
    LeftMore(s.log, Registered(at, s.registered));
    RegisteredKeeps(s.log, s.used, s.registered, at);
  }

  lemma SendsRegister(s: State, clockSecond: nat, at: nat)
    requires Sends(s, clockSecond) && at in s.open
    ensures at < MAX_OPEN == |s.pool| == |s.used| && s.used[at] && Sends(AfterRegister(s, at), clockSecond)
  {
    hide BacksOff, NoDup;
    var r, k := AfterRegister(s, at), IndexOf(s.open, at);
    assert s.open[k] == at;
    forall i | 0 <= i < |s.open| ensures Live(r, r.pool[r.open[i]]) {
      assert Live(s, s.pool[s.open[i]]);
    }
  }

  function IndexOf(s: seq<nat>, x: nat): (i: nat)
    ensures i <= |s| && (i < |s| ==> s[i] == x) && (x in s <==> i < |s|)
  {
    if s == [] then 0 else if s[0] == x then 0 else 1 + IndexOf(s[1..], x)
  }

  /** list_remove */
  function Without(s: seq<nat>, x: nat): (r: seq<nat>) {
    var i := IndexOf(s, x);
    if i < |s| then s[..i] + s[i + 1..] else s
  }

  lemma WithoutIs(s: seq<nat>, x: nat)
    requires NoDup(s) && x in s
    ensures NoDup(Without(s, x)) && |Without(s, x)| == |s| - 1
    ensures forall y :: y in Without(s, x) <==> y in s && y != x
  {
    var i, r := IndexOf(s, x), Without(s, x);
    forall j, k | 0 <= j < k < |r| ensures r[j] != r[k] {
      assert r[j] == s[if j < i then j else j + 1] && r[k] == s[if k < i then k else k + 1];
    }
    forall y ensures y in r <==> y in s && y != x {
      if y in r {
        var j :| 0 <= j < |r| && r[j] == y;
        assert y == s[if j < i then j else j + 1];
      }
      if y in s && y != x {
        var j :| 0 <= j < |s| && s[j] == y;
        assert r[if j < i then j else j - 1] == y;
      }
    }
  }

  function AfterClear(s: State, at: nat): State
    requires at < |s.used|
  {
    s.(used := s.used[at := false], open := Without(s.open, at))
  }

  /** An answer or the last timeout: the transaction goes, then the callback of its place runs, if there is one. */
  function AfterFinish(s: State, at: nat): State
    requires at < |s.used| && at < |s.pool|
  {
    AfterClear(s, at).(log := s.log + [Finished(at)], called := s.called + AsList(s.pool[at].callback))
  }

  lemma GoodClear(s: State, clockSecond: nat, at: nat)
    requires Good(s, clockSecond) && at in s.open
    ensures at < MAX_OPEN && |s.used| == |s.pool| == MAX_OPEN && Good(AfterClear(s, at), clockSecond)
    ensures Good(AfterFinish(s, at), clockSecond)
  {
    hide Sends, Calls, Without, Ran, Orderly;
    SendsClear(s, clockSecond, at);
    CallsClear(s, at);
    SendsSame(AfterClear(s, at), AfterFinish(s, at), clockSecond);
  }

  lemma CallsClear(s: State, at: nat)
    requires Calls(s) && at < MAX_OPEN && s.used[at]
    ensures Calls(AfterClear(s, at)) && Calls(AfterFinish(s, at))
  {
    hide Orderly, Ran, Left, Without, Own, Strays, Unregistered;
    LeftMore(s.log, Finished(at));
    FinishedKeeps(s.log, s.used, s.registered, at);
    GoneKeeps(s.log, s.used, s.registered, at);
  }

  lemma SendsClear(s: State, clockSecond: nat, at: nat)
    requires Sends(s, clockSecond) && at in s.open
    ensures at < MAX_OPEN && |s.used| == |s.pool| == MAX_OPEN && s.used[at] && Sends(AfterClear(s, at), clockSecond)
    ensures forall i :: 0 <= i < |Without(s.open, at)| ==>
              Without(s.open, at)[i] < MAX_OPEN && s.pool[Without(s.open, at)[i]].serial != s.pool[at].serial
  {
    hide NoDup, BacksOff, Live, Without, Listed, Recorded;
    ListedShape(s);
    ClearListed(s, at);
    ClearApart(s, at);
    ClearRecorded(s, clockSecond, at);
  }

  lemma ListedShape(s: State)
    requires Listed(s)
    ensures |s.pool| == |s.used| == MAX_OPEN && forall i :: 0 <= i < |s.open| ==> s.open[i] < MAX_OPEN
    ensures forall at :: at in s.open ==> at < MAX_OPEN && s.used[at]
  {
  }

  lemma ClearRecorded(s: State, clockSecond: nat, at: nat)
    requires Recorded(s, clockSecond) && at < |s.used|
    ensures Recorded(AfterClear(s, at), clockSecond)
    ensures forall t :: Live(s, t) ==> Live(AfterClear(s, at), t)
  {
    hide NoDup, BacksOff, InStep;
  }

  lemma ClearListed(s: State, at: nat)
    requires Listed(s) && at in s.open
    ensures at < |s.used| && Listed(AfterClear(s, at))
  {
    hide NoDup;
    WithoutIs(s.open, at);
    hide Without;
    var r := Without(s.open, at);
    forall i | 0 <= i < |r| ensures r[i] < MAX_OPEN {
      assert r[i] in r;
    }
  }

  /** The transactions that stay. */
  lemma ClearApart(s: State, at: nat)
    requires Listed(s) && Apart(s) && at in s.open
    ensures var r := Without(s.open, at);
            && (forall i :: 0 <= i < |r| ==> r[i] < MAX_OPEN && Live(s, s.pool[r[i]]))
            && (forall i :: 0 <= i < |r| ==> s.pool[r[i]].serial != s.pool[at].serial)
            && (forall i, j :: 0 <= i < j < |r| ==> s.pool[r[i]].serial != s.pool[r[j]].serial)
  {
    hide NoDup, Live;
    var r, k := Without(s.open, at), IndexOf(s.open, at);
    forall i | 0 <= i < |r|
      ensures r[i] < MAX_OPEN && Live(s, s.pool[r[i]]) && s.pool[r[i]].serial != s.pool[at].serial
    {
      assert r[i] == s.open[if i < k then i else i + 1];
    }
    forall i, j | 0 <= i < j < |r| ensures s.pool[r[i]].serial != s.pool[r[j]].serial {
      assert r[i] == s.open[if i < k then i else i + 1] && r[j] == s.open[if j < k then j else j + 1];
    }
  }

  lemma Shape(s: State, clockSecond: nat)
    requires Good(s, clockSecond)
    ensures |s.pool| == |s.used| == MAX_OPEN && Listed(s) && forall i :: 0 <= i < |s.open| ==> s.open[i] < MAX_OPEN
  {
    hide Recorded, Apart, Calls;
  }

  /** A send: the transaction at `at` and its history move on together. */
  function AfterWait(s: State, at: nat, t: Transaction, h: History): State
    requires at < |s.pool|
  {
    s.(pool := s.pool[at := t], sent := s.sent[t.serial := h])
  }

  lemma SendsWait(s: State, clockSecond: nat, at: nat, t: Transaction, h: History)
    requires Sends(s, clockSecond) && at in s.open && at < MAX_OPEN && t.serial == s.pool[at].serial
    requires InStep(t, h) && BacksOff(h, clockSecond)
    ensures Sends(AfterWait(s, at, t, h), clockSecond)
  {
    hide BacksOff, InStep;
    var r, k := AfterWait(s, at, t, h), IndexOf(s.open, at);
    assert Live(s, s.pool[s.open[k]]);
    forall i | 0 <= i < |s.open|
      ensures Live(r, r.pool[r.open[i]]) && (i != k ==> r.pool[r.open[i]] == s.pool[s.open[i]])
    {
      assert Live(s, s.pool[s.open[i]]);
      assert i < k ==> s.open[i] != s.open[k];
      assert k < i ==> s.open[k] != s.open[i];
    }
  }

  /** What is stored at a place does not matter to the callbacks as long as its callback stays. */
  lemma CallsStore(s: State, at: nat, t: Transaction, sent: map<nat, History>)
    requires Calls(s) && at < MAX_OPEN && t.callback == s.pool[at].callback
    ensures Calls(s.(pool := s.pool[at := t], sent := sent))
  {
    hide Orderly, Ran, Left;
  }

  /** A send that is not followed by a wait, of a transaction that is about to go. */
  lemma SendsLast(s: State, clockSecond: nat, serial: nat, h: History)
    requires Sends(s, clockSecond) && serial in s.sent && BacksOff(h, clockSecond)
    requires forall i :: 0 <= i < |s.open| ==> s.pool[s.open[i]].serial != serial
    ensures Sends(s.(sent := s.sent[serial := h]), clockSecond)
  {
    hide BacksOff, InStep;
    var r := s.(sent := s.sent[serial := h]);
    forall i | 0 <= i < |s.open| ensures Live(r, r.pool[r.open[i]]) {
      assert Live(s, s.pool[s.open[i]]);
    }
  }

  /** The pool is used up if and only if the list is as long as the pool. */
  lemma FullIff(s: State, at: nat)
    requires Listed(s) && at <= MAX_OPEN && (at < MAX_OPEN ==> !s.used[at])
    requires at == MAX_OPEN ==> forall k :: 0 <= k < MAX_OPEN ==> s.used[k]
    ensures at == MAX_OPEN <==> |s.open| == MAX_OPEN
    ensures |s.open| <= MAX_OPEN
  {
    var places, all := set x | x in s.open, {0, 1, 2, 3};
    AsSet(s.open, places);
    forall x | x in places ensures x in all {
      var i :| 0 <= i < |s.open| && s.open[i] == x;
    }
    Subset(places, all);
    if at == MAX_OPEN {
      assert s.used[0] && s.used[1] && s.used[2] && s.used[3];
      Subset(all, places);
    } else {
      Subset(places, all - {at});
    }
  }

  lemma Subset(a: set<nat>, b: set<nat>)
    requires a <= b
    ensures |a| <= |b|
    decreases b
  {
    if a != {} {
      var x :| x in a;
      Subset(a - {x}, b - {x});
    }
  }

  lemma {:induction false} AsSet(s: seq<nat>, r: set<nat>)
    requires NoDup(s) && r == set x | x in s
    ensures |r| == |s|
    decreases |s|
  {
    if s != [] {
      var front, last := s[..|s| - 1], s[|s| - 1];
      var f := set x | x in front;
      AsSet(front, f);
      assert s == front + [last];
      assert r == f + {last};
    }
  }

  /** What is stored at a free place does not matter. */
  lemma SendsOutside(s: State, clockSecond: nat, at: nat, t: Transaction)
    requires Sends(s, clockSecond) && at < MAX_OPEN && at !in s.open
    ensures Sends(s.(pool := s.pool[at := t]), clockSecond)
  {
    hide BacksOff, InStep;
    var r := s.(pool := s.pool[at := t]);
    assert forall i :: 0 <= i < |s.open| ==> r.pool[r.open[i]] == s.pool[s.open[i]];
  }

  /** The history of a transaction after one more send, which waits or is the last one. */
  function Longer(h: History, waits: bool, interval: nat): History {
    History(h.count + 1, if waits then h.waits + [interval] else h.waits)
  }

  /** The wait after a send: drawn for the first one, doubled for the others. */
  function Interval(t: Transaction, clockSecond: nat, random: nat): nat {
    if t.counter == 0 then 2 * clockSecond + random % (clockSecond + 1) else 2 * t.interval
  }

  /** A transaction about to be sent: as it was when it was made, or with its counter one up. */
  predicate Due(was: Transaction, t: Transaction) {
    if was.running then t == was.(counter := was.counter + 1) else t == was
  }

  lemma SendKeeps(was: Transaction, t: Transaction, h: History, clockSecond: nat, random: nat)
    requires InStep(was, h) && BacksOff(h, clockSecond) && Due(was, t)
    ensures var waits, interval := t.confirmable && t.counter < MAX_RETRANSMIT, Interval(t, clockSecond, random);
            && BacksOff(Longer(h, waits, interval), clockSecond)
            && (waits ==> InStep(t.(interval := interval, running := true), Longer(h, waits, interval)))
  {
    if was.running {
      if t.counter < MAX_RETRANSMIT { NextWait(h, clockSecond); }
    } else {
      FirstWait(Interval(t, clockSecond, random), clockSecond);
    }
  }

  /** All that a send may do, in the order of the code: record it, wait or go, call back. */
  function AfterSend(s: State, at: nat, t: Transaction, clockSecond: nat, random: nat): State
    requires at < |s.pool| && at < |s.used| && t.serial in s.sent
  {
    var waits, interval := t.confirmable && t.counter < MAX_RETRANSMIT, Interval(t, clockSecond, random);
    var h := Longer(s.sent[t.serial], waits, interval);
    if waits then AfterWait(s, at, t.(interval := interval, running := true), h)
    else
      var last := s.(pool := s.pool[at := t], sent := s.sent[t.serial := h]);
      if t.confirmable then AfterFinish(last, at) else AfterClear(last, at)
  }

  lemma GoodSend(s: State, clockSecond: nat, at: nat, t: Transaction, random: nat)
    requires Good(s, clockSecond) && at in s.open && at < MAX_OPEN && Due(s.pool[at], t)
    ensures t.serial in s.sent && Good(AfterSend(s, at, t, clockSecond, random), clockSecond)
  {
    hide Sends, Calls, Listed, NoDup, InStep, BacksOff, Interval, Without, Due;
    Shape(s, clockSecond);
    OpenIsLive(s, clockSecond, at);
    SameSerial(s.pool[at], t);
    var h := s.sent[t.serial];
    SendKeeps(s.pool[at], t, h, clockSecond, random);
    var waits, interval := t.confirmable && t.counter < MAX_RETRANSMIT, Interval(t, clockSecond, random);
    if waits {
      SendsWait(s, clockSecond, at, t.(interval := interval, running := true), Longer(h, waits, interval));
      CallsStore(s, at, t.(interval := interval, running := true), s.sent[t.serial := Longer(h, waits, interval)]);
    } else {
      GoodGone(s, clockSecond, at, t, Longer(h, waits, interval));
    }
  }

  lemma SameSerial(was: Transaction, t: Transaction)
    requires Due(was, t)
    ensures t.serial == was.serial && t.callback == was.callback
  {
  }

  lemma OpenIsLive(s: State, clockSecond: nat, at: nat)
    requires Good(s, clockSecond) && at in s.open && at < |s.pool|
    ensures Live(s, s.pool[at]) && BacksOff(s.sent[s.pool[at].serial], clockSecond)
  {
    hide BacksOff, InStep, NoDup, Calls;
    var k := IndexOf(s.open, at);
    assert Live(s, s.pool[s.open[k]]);
  }

  /** The last send of a transaction, and its callback if it has timed out. */
  lemma GoodGone(s: State, clockSecond: nat, at: nat, t: Transaction, h: History)
    requires Good(s, clockSecond) && at in s.open && at < MAX_OPEN && t.serial == s.pool[at].serial
    requires t.serial in s.sent && BacksOff(h, clockSecond) && t.callback == s.pool[at].callback
    ensures var last := s.(pool := s.pool[at := t], sent := s.sent[t.serial := h]);
            Good(AfterClear(last, at), clockSecond) && Good(AfterFinish(last, at), clockSecond)
  {
    hide Sends, Calls, NoDup, BacksOff, Without, InStep, Listed;
    Shape(s, clockSecond);
    SendsGone(s, clockSecond, at, t, h);
    var last := s.(pool := s.pool[at := t], sent := s.sent[t.serial := h]);
    CallsStore(s, at, t, last.sent);
    CallsClear(last, at);
    SendsSame(AfterClear(last, at), AfterFinish(last, at), clockSecond);
  }

  lemma SendsGone(s: State, clockSecond: nat, at: nat, t: Transaction, h: History)
    requires Sends(s, clockSecond) && at in s.open && at < MAX_OPEN && t.serial == s.pool[at].serial
    requires t.serial in s.sent && BacksOff(h, clockSecond)
    ensures |s.used| == MAX_OPEN && s.used[at]
    ensures Sends(AfterClear(s.(pool := s.pool[at := t], sent := s.sent[t.serial := h]), at), clockSecond)
  {
    hide Sends, NoDup, BacksOff, Without, InStep, Listed;
    SendsClear(s, clockSecond, at);
    var cleared := AfterClear(s, at);
    SendsLast(cleared, clockSecond, t.serial, h);
    var last := cleared.(sent := cleared.sent[t.serial := h]);
    GoneFrom(s, clockSecond, at);
    SendsOutside(last, clockSecond, at, t);
    assert last.(pool := last.pool[at := t])
        == AfterClear(s.(pool := s.pool[at := t], sent := s.sent[t.serial := h]), at);
  }

  lemma GoneFrom(s: State, clockSecond: nat, at: nat)
    requires Sends(s, clockSecond) && at in s.open
    ensures at !in Without(s.open, at)
  {
    WithoutIs(s.open, at);
  }

  /** The timer of an open transaction expires; one that is not running cannot. */
  function AfterExpire(s: State, at: nat, clockSecond: nat, random: nat): State {
    if at in s.open && at < |s.pool| && at < |s.used| && s.pool[at].running && s.pool[at].serial in s.sent then
      AfterSend(s, at, s.pool[at].(counter := s.pool[at].counter + 1), clockSecond, random)
    else s
  }

  lemma NotRunning(s: State, at: nat, clockSecond: nat, random: nat)
    requires at in s.open ==> at < |s.pool| && !s.pool[at].running
    ensures AfterExpire(s, at, clockSecond, random) == s
  {
  }

  /** The first n entries of the list `todo`, one after the other. */
  function AfterCheck(s: State, todo: seq<nat>, expired: set<nat>, randoms: seq<nat>, clockSecond: nat, n: nat): State
    requires n <= |todo| <= |randoms|
  {
    if n == 0 then s
    else
      var before := AfterCheck(s, todo, expired, randoms, clockSecond, n - 1);
      if todo[n - 1] in expired then AfterExpire(before, todo[n - 1], clockSecond, randoms[n - 1]) else before
  }
}
