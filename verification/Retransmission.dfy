/** The controller's retransmissions: sessions, their handlers under the session mutex, the shared alarm list
    and the thread that takes due alarms, in every interleaving.

    A handler clears the session's alarm, changes the session's fields and sets a new alarm in separate
    accesses to the list, between which other sessions' handlers and the alarm thread may run. Which session
    a retransmission task is for is left open: it may come for any session at any time. A session that has been
    removed from the list of sessions lives on, and tasks that still hold it may lock it and set an alarm. */
module Retransmission {
  import opened AlarmOrder

  const MAX_RETRANSMIT: nat := 4

  datatype Alarm = Alarm(session: nat, time: real)

  /** process_coap_msg; process_receive_radius_msg on its first and on later calls; process_retr_coap_eap;
      process_acknowledgment in state 3. */
  datatype Handler = Start | FirstReply | Reply | Retransmit | Finish

  /** How far the handler that holds a session's mutex has come. */
  datatype Where = Idle | Locked(h: Handler) | Cleared(h: Handler) | Arming | Rearming | Resending

  datatype Session = Session(rtInit: real, rt: real, counter: nat, sent: bool, at: Where, resends: nat, removed: bool)

  datatype State = State(sessions: map<nat, Session>, alarms: seq<Alarm>)

  function Times(alarms: seq<Alarm>): (t: seq<real>)
    ensures |t| == |alarms|
  {
    seq(|alarms|, i requires 0 <= i < |alarms| => alarms[i].time)
  }

  function AddAlarm(alarms: seq<Alarm>, a: Alarm): seq<Alarm> {
    Inserted(alarms, Spot(Times(alarms), a.time), a)
  }

  function TakeAlarm(alarms: seq<Alarm>, s: nat): seq<Alarm> {
    if alarms == [] then []
    else if alarms[0].session == s then alarms[1..]
    else [alarms[0]] + TakeAlarm(alarms[1..], s)
  }

  datatype Step = Create(s: nat, rt: real) | Lock(s: nat, h: Handler) | Clear(s: nat) | Commit(s: nat)
                | ClearAgain(s: nat) | Arm(s: nat, now: real) | Due(now: real)

  predicate Enabled(st: State, step: Step) {
    match step
    case Create(s, rt) => s !in st.sessions
    case Lock(s, h) => s in st.sessions && st.sessions[s].at == Idle
    case Clear(s) => s in st.sessions && st.sessions[s].at.Locked?
    case Commit(s) => s in st.sessions && st.sessions[s].at.Cleared?
    case ClearAgain(s) => s in st.sessions && st.sessions[s].at == Rearming
    case Arm(s, now) => s in st.sessions && (st.sessions[s].at == Arming || st.sessions[s].at == Resending)
    case Due(now) => st.alarms != [] && st.alarms[0].time < now
  }

  function Put(st: State, s: nat, x: Session): State {
    st.(sessions := st.sessions[s := x])
  }

  /** The fields of the session, changed between the accesses to the alarm list. */
  function Committed(st: State, s: nat): State
    requires s in st.sessions && st.sessions[s].at.Cleared?
  {
    var x := st.sessions[s];
    match x.at.h
    case Start => Put(st, s, x.(rt := x.rtInit, counter := 0, sent := true, resends := 0, at := Arming))
    case FirstReply => Put(st, s, x.(at := Idle))
    case Reply => Put(st, s, x.(rt := x.rtInit, counter := 0, sent := true, resends := 0, at := Arming))
    case Retransmit =>
      if x.counter + 1 >= MAX_RETRANSMIT then Put(st, s, x.(counter := x.counter + 1, at := Idle, removed := true))
      else if x.sent then Put(st, s, x.(counter := x.counter + 1, rt := 2.0 * x.rt, at := Rearming))
      else Put(st, s, x.(counter := x.counter + 1, at := Idle))
    case Finish => Put(st, s, x.(at := Idle, removed := true))
  }

  function Next(st: State, step: Step): State
    requires Enabled(st, step)
  {
    match step
    case Create(s, rt) => Put(st, s, Session(rt, rt, 0, false, Idle, 0, false))
    case Lock(s, h) => Put(st, s, st.sessions[s].(at := Locked(h)))
    case Clear(s) =>
      Put(st, s, st.sessions[s].(at := Cleared(st.sessions[s].at.h))).(alarms := TakeAlarm(st.alarms, s))
    case Commit(s) => Committed(st, s)
    case ClearAgain(s) => Put(st, s, st.sessions[s].(at := Resending)).(alarms := TakeAlarm(st.alarms, s))
    case Arm(s, now) =>
      var x := st.sessions[s];
      Put(st, s, x.(at := Idle, resends := x.resends + (if x.at == Resending then 1 else 0)))
        .(alarms := AddAlarm(st.alarms, Alarm(s, now + x.rt)))
    case Due(now) => st.(alarms := st.alarms[1..])
  }

  predicate Possible(st: State, steps: seq<Step>)
    decreases |steps|
  {
    steps != [] ==> Enabled(st, steps[0]) && Possible(Next(st, steps[0]), steps[1..])
  }

  function After(st: State, steps: seq<Step>): State
    requires Possible(st, steps)
    decreases |steps|
  {
    if steps == [] then st else After(Next(st, steps[0]), steps[1..])
  }

  /* ---- The invariant ---- */

  function Pow2(k: nat): real {
    if k == 0 then 1.0 else 2.0 * Pow2(k - 1)
  }

  function CountOf(alarms: seq<Alarm>, s: nat): nat {
    if alarms == [] then 0 else (if alarms[0].session == s then 1 else 0) + CountOf(alarms[1..], s)
  }

  /** The alarms a session may have: none once a handler has cleared them, at most one otherwise. */
  predicate CountOk(sessions: map<nat, Session>, alarms: seq<Alarm>, s: nat) {
    if s in sessions && (sessions[s].at == Idle || sessions[s].at.Locked?) then CountOf(alarms, s) <= 1
    else CountOf(alarms, s) == 0
  }

  /** Back-off and number of retransmissions of a session that has sent. */
  predicate BackedOff(x: Session) {
    && (x.sent && x.counter < MAX_RETRANSMIT ==>
          && x.rt == x.rtInit * Pow2(x.counter)
          && x.resends + (if x.at == Rearming || x.at == Resending then 1 else 0) == x.counter)
    && x.resends < MAX_RETRANSMIT
    && (x.at == Arming || x.at == Rearming || x.at == Resending ==> x.counter < MAX_RETRANSMIT)
    && (!x.sent ==> x.at != Arming && x.at != Rearming && x.at != Resending)
  }

  ghost predicate Inv(st: State) {
    && BySecond(Times(st.alarms))
    && (forall s :: CountOk(st.sessions, st.alarms, s))
    && (forall s :: s in st.sessions ==> BackedOff(st.sessions[s]))
  }

  lemma {:induction false} CountConcat(a: seq<Alarm>, b: seq<Alarm>, s: nat)
    ensures CountOf(a + b, s) == CountOf(a, s) + CountOf(b, s)
  {
    if a == [] {
      assert a + b == b;
    } else {
      assert (a + b)[1..] == a[1..] + b;
      CountConcat(a[1..], b, s);
    }
  }

  lemma CountAdd(alarms: seq<Alarm>, a: Alarm, s: nat)
    ensures CountOf(AddAlarm(alarms, a), s) == CountOf(alarms, s) + (if a.session == s then 1 else 0)
  {
    hide Spot;
    var k := Spot(Times(alarms), a.time);
    assert alarms == alarms[..k] + alarms[k..];
    CountConcat(alarms[..k], alarms[k..], s);
    CountConcat(alarms[..k] + [a], alarms[k..], s);
    CountConcat(alarms[..k], [a], s);
    assert [a][1..] == [];
  }

  lemma {:induction false} CountTake(alarms: seq<Alarm>, t: nat, s: nat)
    ensures CountOf(TakeAlarm(alarms, t), s)
            == if s == t && CountOf(alarms, s) > 0 then CountOf(alarms, s) - 1 else CountOf(alarms, s)
  {
    if alarms != [] {
      CountTake(alarms[1..], t, s);
      if alarms[0].session != t {
        CountConcat([alarms[0]], TakeAlarm(alarms[1..], t), s);
        assert [alarms[0]][1..] == [];
      }
    }
  }

  /** Taking an alarm leaves a list with one alarm less, or the same list. */
  lemma {:induction false} TakeIs(alarms: seq<Alarm>, s: nat) returns (k: nat)
    ensures k <= |alarms|
    ensures TakeAlarm(alarms, s) == if k == |alarms| then alarms else alarms[..k] + alarms[k + 1..]
  {
    k := 0;
    if alarms != [] {
      var rest := alarms[1..];
      assert alarms == [alarms[0]] + rest;
      if alarms[0].session == s {
        assert alarms[..0] + alarms[1..] == rest;
      } else {
        var i := TakeIs(rest, s);
        k := i + 1;
        OneLess(alarms[0], rest, i);
      }
    }
  }

  lemma OneLess(a: Alarm, rest: seq<Alarm>, i: nat)
    requires i <= |rest|
    ensures var whole := [a] + rest;
            i < |rest| ==> whole[..i + 1] + whole[i + 2..] == [a] + (rest[..i] + rest[i + 1..])
  {
  }

  lemma TakeSorted(alarms: seq<Alarm>, s: nat)
    requires BySecond(Times(alarms))
    ensures BySecond(Times(TakeAlarm(alarms, s)))
  {
    var k := TakeIs(alarms, s);
    if k < |alarms| {
      RemoveBySecond(Times(alarms), k);
      assert Times(TakeAlarm(alarms, s)) == Times(alarms)[..k] + Times(alarms)[k + 1..];
    }
  }

  lemma AddSorted(alarms: seq<Alarm>, a: Alarm)
    requires BySecond(Times(alarms))
    ensures BySecond(Times(AddAlarm(alarms, a)))
  {
    AddBySecond(Times(alarms), a.time);
    var k := Spot(Times(alarms), a.time);
    hide Spot, BySecond;
    assert Times(AddAlarm(alarms, a)) == Inserted(Times(alarms), k, a.time);
  }

  lemma DueSorted(alarms: seq<Alarm>)
    requires BySecond(Times(alarms)) && alarms != []
    ensures BySecond(Times(alarms[1..])) && forall s :: CountOf(alarms[1..], s) <= CountOf(alarms, s)
  {
    assert Times(alarms[1..]) == Times(alarms)[..0] + Times(alarms)[1..];
    RemoveBySecond(Times(alarms), 0);
  }

  lemma StepAlarms(st: State, step: Step)
    requires Inv(st) && Enabled(st, step)
    ensures BySecond(Times(Next(st, step).alarms))
  {
    hide BySecond;
    match step
    case Clear(s) => TakeSorted(st.alarms, s);
    case ClearAgain(s) => TakeSorted(st.alarms, s);
    case Arm(s, now) => AddSorted(st.alarms, Alarm(s, now + st.sessions[s].rt));
    case Due(now) => DueSorted(st.alarms);
    case _ =>
  }

  lemma StepCounts(st: State, step: Step, s: nat)
    requires Inv(st) && Enabled(st, step)
    ensures CountOk(Next(st, step).sessions, Next(st, step).alarms, s)
  {
    hide BySecond, TakeAlarm, AddAlarm, BackedOff, CountOf, Times;
    assert CountOk(st.sessions, st.alarms, s);
    match step
    case Clear(t) => CountTake(st.alarms, t, s);
    case ClearAgain(t) => CountTake(st.alarms, t, s);
    case Arm(t, now) => CountAdd(st.alarms, Alarm(t, now + st.sessions[t].rt), s);
    case Due(now) => DueSorted(st.alarms);
    case _ =>
  }

  lemma StepBackOff(st: State, step: Step, s: nat)
    requires Inv(st) && Enabled(st, step) && s in Next(st, step).sessions
    ensures BackedOff(Next(st, step).sessions[s])
  {
    hide BySecond, TakeAlarm, AddAlarm, CountOk, Inv, Pow2, Committed;
    InvBackedOff(st, s);
    if step.Commit? {
      CommitKeeps(st, step.s, s);
      CommitBackOff(st, step.s, s);
    }
  }

  lemma CommitKeeps(st: State, t: nat, s: nat)
    requires t in st.sessions && st.sessions[t].at.Cleared? && s in Committed(st, t).sessions
    ensures s in st.sessions
  {
  }

  lemma InvBackedOff(st: State, s: nat)
    requires Inv(st)
    ensures s in st.sessions ==> BackedOff(st.sessions[s])
  {
    hide BySecond, CountOk, BackedOff;
  }

  lemma CommitBackOff(st: State, t: nat, s: nat)
    requires t in st.sessions && st.sessions[t].at.Cleared? && s in Committed(st, t).sessions
    requires BackedOff(st.sessions[s])
    ensures BackedOff(Committed(st, t).sessions[s])
  {
    hide Pow2;
    if t == s {
      Doubled(st.sessions[s].rtInit, st.sessions[s].counter);
      FirstPower();
    }
  }

  lemma FirstPower()
    ensures Pow2(0) == 1.0
  {
  }

  lemma Doubled(rtInit: real, counter: nat)
    ensures rtInit * Pow2(counter + 1) == 2.0 * (rtInit * Pow2(counter))
  {
    assert rtInit * (2.0 * Pow2(counter)) == 2.0 * (rtInit * Pow2(counter));
  }

  lemma StepInv(st: State, step: Step)
    requires Inv(st) && Enabled(st, step)
    ensures Inv(Next(st, step))
  {
    StepAlarms(st, step);
    forall s ensures CountOk(Next(st, step).sessions, Next(st, step).alarms, s) { StepCounts(st, step, s); }
    forall s | s in Next(st, step).sessions ensures BackedOff(Next(st, step).sessions[s]) { StepBackOff(st, step, s); }
  }

  lemma {:induction false} RunInv(st: State, steps: seq<Step>)
    requires Inv(st) && Possible(st, steps)
    ensures Inv(After(st, steps))
    decreases |steps|
  {
    hide Inv, Next;
    if steps != [] {
      StepInv(st, steps[0]);
      RunInv(Next(st, steps[0]), steps[1..]);
    }
  }

  /** In every run: the alarm list is sorted by second, a session has at most one alarm, a session that has sent
      retransmits at most three times between resets, and as long as it has not timed out it waits RT_INIT
      doubled once for each of these times. */
  lemma EveryRun(steps: seq<Step>, s: nat)
    requires Possible(State(map[], []), steps)
    ensures var st := After(State(map[], []), steps);
            && BySecond(Times(st.alarms)) && CountOf(st.alarms, s) <= 1
            && (s in st.sessions ==> st.sessions[s].resends < MAX_RETRANSMIT)
            && (s in st.sessions && st.sessions[s].sent && st.sessions[s].counter < MAX_RETRANSMIT ==>
                  && st.sessions[s].rt == st.sessions[s].rtInit * Pow2(st.sessions[s].counter)
                  && st.sessions[s].resends <= st.sessions[s].counter)
  {
    hide BySecond, After, Next, Possible, Pow2, CountOf, Times;
    EmptyInv();
    RunInv(State(map[], []), steps);
    var st := After(State(map[], []), steps);
    assert CountOk(st.sessions, st.alarms, s);
    assert s in st.sessions ==> BackedOff(st.sessions[s]);
  }

  lemma EmptyInv()
    ensures Inv(State(map[], []))
  {
  }
}
