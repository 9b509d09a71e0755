/** Runs of the transaction layer: what holds after any steps, whose callbacks run, and when messages are given up. */
module TransactionRuns {
  import opened Callbacks
  import opened OptionFormat
  import opened Transactions

  /** What may happen: a transaction is made, its maker stores a callback, it is sent, its timer expires, an answer
      comes, or it is given up. */
  datatype Step = New(mid: nat, confirmable: bool)
                | Register(at: nat)
                | Send(at: nat, random: nat)
                | Expire(at: nat, random: nat)
                | Answer(mid: nat)
                | Drop(at: nat)

  /** memb_alloc: the first free place, or the number of places. */
  function FirstFree(used: seq<bool>): (at: nat)
    ensures at <= |used| && (at < |used| ==> !used[at]) && forall k :: 0 <= k < at ==> used[k]
  {
    if used == [] || !used[0] then 0 else 1 + FirstFree(used[1..])
  }

  /** The first open transaction with a message id, or no place. */
  function WithMid(s: State, mid: nat, i: nat): (at: nat)
    decreases |s.open| - i
  {
    if i >= |s.open| then MAX_OPEN
    else if s.open[i] < |s.pool| && s.pool[s.open[i]].mid == mid then s.open[i]
    else WithMid(s, mid, i + 1)
  }

  lemma WithMidNext(s: State, mid: nat, i: nat)
    ensures WithMid(s, mid, i)
            == if i >= |s.open| then MAX_OPEN
               else if s.open[i] < |s.pool| && s.pool[s.open[i]].mid == mid then s.open[i] else WithMid(s, mid, i + 1)
  {
  }

  lemma {:induction false} WithMidOpen(s: State, mid: nat, i: nat)
    ensures WithMid(s, mid, i) == MAX_OPEN || WithMid(s, mid, i) in s.open
    decreases |s.open| - i
  {
    if i < |s.open| && !(s.open[i] < |s.pool| && s.pool[s.open[i]].mid == mid) {
      WithMidOpen(s, mid, i + 1);
    }
  }

  predicate Open(s: State, at: nat) {
    at in s.open && at < |s.pool| && at < |s.used|
  }

  /** One step, if it can be made. */
  function Next(s: State, step: Step, clockSecond: nat): State {
    match step
    case New(mid, confirmable) =>
      var at := FirstFree(s.used);
      if at < |s.pool| && at < |s.used| then AfterNew(s, at, mid, confirmable) else s
    case Register(at) => if Open(s, at) then AfterRegister(s, at) else s
    case Send(at, random) =>
      if Open(s, at) && !s.pool[at].running && s.pool[at].serial in s.sent then
        AfterSend(s, at, s.pool[at], clockSecond, random)
      else s
    case Expire(at, random) => AfterExpire(s, at, clockSecond, random)
    case Answer(mid) => if Open(s, WithMid(s, mid, 0)) then AfterFinish(s, WithMid(s, mid, 0)) else s
    case Drop(at) => if Open(s, at) then AfterClear(s, at) else s
  }

  function Start(): State {
    State(seq(MAX_OPEN, _ => Transaction(0, 0, false, None, 0, 0, false)), seq(MAX_OPEN, _ => false), [], 0, map[],
          0, [], [])
  }

  function After(s: State, steps: seq<Step>, clockSecond: nat): State {
    if steps == [] then s else Next(After(s, steps[..|steps| - 1], clockSecond), steps[|steps| - 1], clockSecond)
  }

  lemma GoodStart(clockSecond: nat)
    ensures Good(Start(), clockSecond)
  {
    hide Orderly, Left, Ran;
    NothingYet(Start().used);
  }

  lemma GoodExpire(s: State, clockSecond: nat, at: nat, random: nat)
    requires Good(s, clockSecond)
    ensures Good(AfterExpire(s, at, clockSecond, random), clockSecond)
  {
    hide Good, Listed, AfterSend, InStep, BacksOff;
    Shape(s, clockSecond);
    if Open(s, at) && s.pool[at].running {
      GoodSend(s, clockSecond, at, s.pool[at].(counter := s.pool[at].counter + 1), random);
    }
  }

  lemma GoodNext(s: State, step: Step, clockSecond: nat)
    requires Good(s, clockSecond)
    ensures Good(Next(s, step, clockSecond), clockSecond)
  {
    hide Good, Listed, AfterSend, AfterExpire, AfterNew, AfterRegister, AfterClear, AfterFinish, InStep, BacksOff,
        WithMid;
    Shape(s, clockSecond);
    match step {
      case New(mid, confirmable) =>
        if FirstFree(s.used) < MAX_OPEN {
          GoodNew(s, clockSecond, FirstFree(s.used), mid, confirmable);
        }
      case Register(at) =>
        if Open(s, at) {
          GoodRegister(s, clockSecond, at);
        }
      case Send(at, random) =>
        if Open(s, at) && !s.pool[at].running {
          GoodSend(s, clockSecond, at, s.pool[at], random);
        }
      case Expire(at, random) => GoodExpire(s, clockSecond, at, random);
      case Answer(mid) =>
        if Open(s, WithMid(s, mid, 0)) {
          GoodClear(s, clockSecond, WithMid(s, mid, 0));
        }
      case Drop(at) =>
        if Open(s, at) {
          GoodClear(s, clockSecond, at);
        }
    }
  }

  lemma {:induction false} GoodRun(steps: seq<Step>, clockSecond: nat)
    ensures Good(After(Start(), steps, clockSecond), clockSecond)
    decreases |steps|
  {
    hide Good, Next, Start;
    if steps == [] {
      GoodStart(clockSecond);
    } else {
      GoodRun(steps[..|steps| - 1], clockSecond);
      GoodNext(After(Start(), steps[..|steps| - 1], clockSecond), steps[|steps| - 1], clockSecond);
    }
  }

  /** Any run: the open list is the allocated places, at most four and each once; a message goes out at most five
      times, with a wait after each of the first four, the first between one and one and a half times the timeout of
      two seconds and every other twice the one before. */
  lemma EveryRun(steps: seq<Step>, clockSecond: nat)
    ensures var s := After(Start(), steps, clockSecond);
            && Listed(s) && |s.open| <= MAX_OPEN
            && forall serial :: serial in s.sent ==>
                 s.sent[serial].count <= 1 + MAX_RETRANSMIT && BacksOff(s.sent[serial], clockSecond)
  {
    hide After, Start;
    GoodRun(steps, clockSecond);
    Promised(After(Start(), steps, clockSecond), clockSecond);
  }

  lemma Promised(s: State, clockSecond: nat)
    requires Good(s, clockSecond)
    ensures Listed(s) && |s.open| <= MAX_OPEN
    ensures forall serial :: serial in s.sent ==>
              s.sent[serial].count <= 1 + MAX_RETRANSMIT && BacksOff(s.sent[serial], clockSecond)
  {
    hide NoDup, Calls;
    FullIff(s, FirstFree(s.used));
  }

  /** Any run: a place holds the callback last registered there; whenever a transaction is answered or times out,
      the callback of its place runs; and a callback runs at most once if and only if no transaction that has
      registered none is answered or times out in the place where it was left, or a single one, when the
      transaction that registered it has gone without either. */
  lemma EveryCallback(steps: seq<Step>, clockSecond: nat, h: nat)
    ensures var s := After(Start(), steps, clockSecond);
            && (forall at :: 0 <= at < |s.pool| ==> s.pool[at].callback == Left(s.log, at))
            && s.called == Ran(s.log) && Own(s.log, h) <= 1
            && (Count(s.called, h) <= 1 <==> Strays(s.log, h) == 0 || (Strays(s.log, h) == 1 && Own(s.log, h) == 0))
            && ((forall i :: 0 <= i < |s.log| ==> !Stray(s.log, i)) ==> NoDup(s.called))
  {
    hide After, Start, Sends, NoDup, Orderly, Left, Own, Strays, Stray, Ran, Count;
    GoodRun(steps, clockSecond);
    var s := After(Start(), steps, clockSecond);
    OnceIff(s.log, s.used, s.registered, h);
    NoneStraysIff(s.log);
    if forall i :: 0 <= i < |s.log| ==> !Stray(s.log, i) {
      NoStrays(s.log, s.used, s.registered);
    }
  }

  /** What a send does to a confirmable message: before its fourth retransmission it waits; the fourth one has been
      preceded by four waits, is followed by none, and the transaction goes with it, calling back. Section 4.2 of
      RFC 7252 has one wait more. */
  lemma GivenUpIff(s: State, clockSecond: nat, at: nat, t: Transaction, random: nat)
    requires Good(s, clockSecond) && at in s.open && at < MAX_OPEN == |s.pool| && Due(s.pool[at], t) && t.confirmable
    ensures |s.used| == MAX_OPEN && t.serial in s.sent && t.counter <= MAX_RETRANSMIT
    ensures var r := AfterSend(s, at, t, clockSecond, random);
            && t.serial in r.sent && r.sent[t.serial].count == t.counter + 1
            && (at in r.open <==> t.counter < MAX_RETRANSMIT)
            && (t.counter < MAX_RETRANSMIT ==>
                  r.open == s.open && r.pool[at].running && |r.sent[t.serial].waits| == t.counter + 1
                  && r.called == s.called)
            && (t.counter == MAX_RETRANSMIT ==>
                  |r.sent[t.serial].waits| == MAX_RETRANSMIT && r.called == s.called + AsList(s.pool[at].callback))
  {
    hide Sends, Calls, Listed, BacksOff, Interval, Without, NoDup;
    Shape(s, clockSecond);
    OpenIsLive(s, clockSecond, at);
    SameSerial(s.pool[at], t);
    StillSends(s, clockSecond);
    GoneFrom(s, clockSecond, at);
  }

  lemma StillSends(s: State, clockSecond: nat)
    requires Good(s, clockSecond)
    ensures Sends(s, clockSecond)
  {
    hide Sends, Calls;
  }

  /* ---- A place used again ---- */

  lemma AfterMore(s: State, steps: seq<Step>, step: Step, clockSecond: nat)
    ensures After(s, steps + [step], clockSecond) == Next(After(s, steps, clockSecond), step, clockSecond)
  {
    assert (steps + [step])[..|steps|] == steps;
  }

  /** A transaction is made in the next free place, sent, and answered. */
  function Exchange(at: nat, mid: nat, random: nat): seq<Step> {
    [New(mid, true), Send(at, random), Answer(mid)]
  }

  /** Whenever the next free place holds a callback, a transaction that is made and answered there runs it,
      without having registered any. */
  lemma ReuseRuns(s: State, before: seq<Step>, clockSecond: nat, mid: nat, random: nat, h: nat)
    requires s == After(Start(), before, clockSecond) && Good(s, clockSecond) && WithMid(s, mid, 0) == MAX_OPEN
    requires FirstFree(s.used) < |s.pool| && s.pool[FirstFree(s.used)].callback == Some(h)
    ensures var at := FirstFree(s.used);
            var r := After(Start(), before + Exchange(at, mid, random), clockSecond);
            r.called == s.called + [h] && r.log == s.log + [Made(at), Finished(at)]
  {
    hide After, Start, Good, Listed, WithMid, Next, AfterNew, AfterFinish, AfterSend;
    var at := FirstFree(s.used);
    Shape(s, clockSecond);
    var made := NextNew(s, clockSecond, mid);
    var sent := NextSend(made, clockSecond, at, random);
    MidOfLast(s, sent, mid, 0, at);
    NextAnswer(sent, clockSecond, mid, at, h);
    AfterMore(Start(), before, New(mid, true), clockSecond);
    AfterMore(Start(), before + [New(mid, true)], Send(at, random), clockSecond);
    AfterMore(Start(), before + [New(mid, true)] + [Send(at, random)], Answer(mid), clockSecond);
    assert before + Exchange(at, mid, random) == before + [New(mid, true)] + [Send(at, random)] + [Answer(mid)];
    assert s.log + [Made(at)] + [Finished(at)] == s.log + [Made(at), Finished(at)];
  }

  lemma NextNew(s: State, clockSecond: nat, mid: nat) returns (made: State)
    requires Good(s, clockSecond) && FirstFree(s.used) < |s.pool|
    ensures var at := FirstFree(s.used);
            && made == Next(s, New(mid, true), clockSecond)
            && |made.pool| == |made.used| == |s.pool| == |s.used| == MAX_OPEN && at < MAX_OPEN
            && made.open == s.open + [at] && made.called == s.called && made.log == s.log + [Made(at)]
            && made.pool[at] == Transaction(s.next, mid, true, s.pool[at].callback, 0, s.pool[at].interval, false)
            && s.next in made.sent
            && at !in s.open && (forall k :: 0 <= k < |s.open| ==> s.open[k] < MAX_OPEN)
            && (forall k :: 0 <= k < MAX_OPEN && k != at ==> made.pool[k] == s.pool[k])
  {
    hide Good, Listed;
    Shape(s, clockSecond);
    var at := FirstFree(s.used);
    made := AfterNew(s, at, mid, true);
    NotOpen(s, clockSecond, at);
  }

  lemma NotOpen(s: State, clockSecond: nat, at: nat)
    requires Good(s, clockSecond) && at < |s.used| && !s.used[at]
    ensures at !in s.open
  {
    hide Calls, Recorded, Apart;
  }

  lemma NextSend(s: State, clockSecond: nat, at: nat, random: nat) returns (sent: State)
    requires Open(s, at) && !s.pool[at].running && s.pool[at].serial in s.sent
    requires s.pool[at].confirmable && s.pool[at].counter == 0
    ensures sent == Next(s, Send(at, random), clockSecond)
    ensures sent.open == s.open && sent.used == s.used && sent.called == s.called && sent.log == s.log
    ensures |sent.pool| == |s.pool| && sent.pool[at].mid == s.pool[at].mid
    ensures sent.pool[at].callback == s.pool[at].callback
    ensures forall k :: 0 <= k < |s.pool| && k != at ==> sent.pool[k] == s.pool[k]
  {
    hide Interval, Longer;
    sent := AfterSend(s, at, s.pool[at], clockSecond, random);
  }

  lemma NextAnswer(s: State, clockSecond: nat, mid: nat, at: nat, h: nat)
    requires WithMid(s, mid, 0) == at && Open(s, at) && s.pool[at].callback == Some(h)
    ensures var r := Next(s, Answer(mid), clockSecond);
            r.called == s.called + [h] && r.log == s.log + [Finished(at)]
  {
    hide WithMid, Without;
  }

  /** The new transaction is the only one with its message id. */
  lemma {:induction false} MidOfLast(s: State, r: State, mid: nat, i: nat, at: nat)
    requires i <= |s.open| && r.open == s.open + [at] && at < |r.pool| == |s.pool| == MAX_OPEN
    requires r.pool[at].mid == mid && at !in s.open
    requires forall k :: 0 <= k < |s.open| ==> s.open[k] < MAX_OPEN
    requires forall k :: 0 <= k < MAX_OPEN && k != at ==> r.pool[k].mid == s.pool[k].mid
    requires WithMid(s, mid, i) == MAX_OPEN
    ensures WithMid(r, mid, i) == at
    decreases |s.open| - i
  {
    if i < |s.open| {
      assert s.open[i] != at;
      MidOfLast(s, r, mid, i + 1, at);
    }
  }

  /** A client request in the first place, answered: the place still holds its callback. */
  function Request(mid: nat): seq<Step> {
    [New(mid, true), Register(0), Send(0, 0), Answer(mid)]
  }

  lemma RequestRuns(mid: nat, clockSecond: nat)
    ensures var s := After(Start(), Request(mid), clockSecond);
            && s.called == [0] && s.open == [] && s.log == [Made(0), Registered(0, 0), Finished(0)]
            && FirstFree(s.used) == 0 && |s.pool| == MAX_OPEN && s.pool[0].callback == Some(0)
  {
    hide Next, After;
    var s1 := AfterNew(Start(), 0, mid, true);
    var s2 := AfterRegister(s1, 0);
    var s3 := AfterSend(s2, 0, s2.pool[0], clockSecond, 0);
    RequestSteps(mid, clockSecond);
    AfterNone(Start(), clockSecond);
    AfterMore(Start(), [], New(mid, true), clockSecond);
    AfterMore(Start(), [New(mid, true)], Register(0), clockSecond);
    AfterMore(Start(), [New(mid, true), Register(0)], Send(0, 0), clockSecond);
    AfterMore(Start(), [New(mid, true), Register(0), Send(0, 0)], Answer(mid), clockSecond);
    assert [] + [New(mid, true)] == [New(mid, true)];
    assert [New(mid, true)] + [Register(0)] == [New(mid, true), Register(0)];
    assert [New(mid, true), Register(0)] + [Send(0, 0)] == [New(mid, true), Register(0), Send(0, 0)];
    assert [New(mid, true), Register(0), Send(0, 0)] + [Answer(mid)] == Request(mid);
  }

  lemma AfterNone(s: State, clockSecond: nat)
    ensures After(s, [], clockSecond) == s
  {
  }

  lemma RequestSteps(mid: nat, clockSecond: nat)
    ensures var s1 := AfterNew(Start(), 0, mid, true);
            var s2 := AfterRegister(s1, 0);
            var s3 := AfterSend(s2, 0, s2.pool[0], clockSecond, 0);
            && Next(Start(), New(mid, true), clockSecond) == s1 && Next(s1, Register(0), clockSecond) == s2
            && Next(s2, Send(0, 0), clockSecond) == s3 && Next(s3, Answer(mid), clockSecond) == AfterFinish(s3, 0)
            && s3.open == [0] && Without(s3.open, 0) == [] && s3.pool[0].callback == Some(0)
            && s3.log == [Made(0), Registered(0, 0)] && FirstFree(s3.used[0 := false]) == 0
  {
    var s1 := AfterNew(Start(), 0, mid, true);
    var s2 := AfterRegister(s1, 0);
    var s3 := AfterSend(s2, 0, s2.pool[0], clockSecond, 0);
    assert s1.open == [0] && s3.open == [0];
    assert WithMid(s3, mid, 0) == 0;
  }

  /** Input: a client request is answered, then its place is used for a message of the server that is answered, too:
      the callback of the client runs twice. */
  lemma RunsTwice(clockSecond: nat)
    ensures var s := After(Start(), Request(7) + Exchange(0, 8, 0), clockSecond);
            s.called == [0, 0] && Own(s.log, 0) == 1 && Strays(s.log, 0) == 1
  {
    hide After, Good, Next, Start;
    RequestRuns(7, clockSecond);
    var before := After(Start(), Request(7), clockSecond);
    GoodRun(Request(7), clockSecond);
    ReuseRuns(before, Request(7), clockSecond, 8, 0, 0);
    hide Left, Unregistered, Own, Strays;
    LogOfTwo();
  }

  lemma LogOfTwo()
    ensures var log := [Made(0), Registered(0, 0), Finished(0)] + [Made(0), Finished(0)];
            Own(log, 0) == 1 && Strays(log, 0) == 1
  {
    hide Left, Unregistered, Own, Strays;
    var a, b, c := [Made(0)], [Made(0), Registered(0, 0)], [Made(0), Registered(0, 0), Finished(0)];
    NothingYet([]);
    assert [] + [Made(0)] == a;
    One([], Made(0), 0);
    assert a + [Registered(0, 0)] == b;
    One(a, Registered(0, 0), 0);
    assert b + [Finished(0)] == c;
    One(b, Finished(0), 0);
    One(c, Made(0), 0);
    One(c + [Made(0)], Finished(0), 0);
    assert c + [Made(0)] + [Finished(0)] == c + [Made(0), Finished(0)];
  }

  /** One event more, for one callback in the first place. */
  lemma One(log: seq<Event>, e: Event, h: nat)
    requires e.at == 0
    ensures Left(log + [e], 0) == if e.Registered? then Some(e.handle) else Left(log, 0)
    ensures Unregistered(log + [e], 0) == if e.Finished? then Unregistered(log, 0) else e.Made?
    ensures Own(log + [e], h) == Own(log, h)
            + (if e.Finished? && Left(log, 0) == Some(h) && !Unregistered(log, 0) then 1 else 0)
    ensures Strays(log + [e], h) == Strays(log, h)
            + (if e.Finished? && Left(log, 0) == Some(h) && Unregistered(log, 0) then 1 else 0)
  {
    hide Left, Unregistered, Own, Strays;
    Grow(log, e);
  }
}
