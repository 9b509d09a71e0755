/** Whose callback runs: the callbacks that transactions leave behind in the places of the pool.

    coap_new_transaction does not clear the callback of the place it hands out, and nothing else does. So a
    transaction that registers none runs the one that was last registered in its place, if it is answered or times
    out. `Ran` says which callbacks a log of events has run; `OnceIff` says when one of them runs at most once. */
module Callbacks {
  import opened OptionFormat

  /** What happens at a place: a transaction is made there, registers a callback, or is answered or times out. */
  datatype Event = Made(at: nat) | Registered(at: nat, handle: nat) | Finished(at: nat)

  predicate NoDup<T(==)>(s: seq<T>) {
    forall i, j :: 0 <= i < j < |s| ==> s[i] != s[j]
  }

  /** The callback that a place holds: the last one registered there, by whichever transaction. */
  function Left(log: seq<Event>, at: nat): Option<nat> {
    if log == [] then None
    else
      var e, front := log[|log| - 1], log[..|log| - 1];
      if e.Registered? && e.at == at then Some(e.handle) else Left(front, at)
  }

  /** The last transaction made at a place has registered no callback. */
  predicate Unregistered(log: seq<Event>, at: nat) {
    if log == [] then false
    else
      var e, front := log[|log| - 1], log[..|log| - 1];
      if e.at == at && !e.Finished? then e.Made? else Unregistered(front, at)
  }

  function AsList(callback: Option<nat>): seq<nat> {
    if callback.Some? then [callback.value] else []
  }

  /** The callbacks run: whenever a transaction is answered or times out, the one that its place holds. */
  function Ran(log: seq<Event>): seq<nat> {
    if log == [] then []
    else
      var e, front := log[|log| - 1], log[..|log| - 1];
      Ran(front) + (if e.Finished? then AsList(Left(front, e.at)) else [])
  }

  function Count(s: seq<nat>, h: nat): nat {
    if s == [] then 0 else Count(s[..|s| - 1], h) + (if s[|s| - 1] == h then 1 else 0)
  }

  /** How often a callback meets the end of the transaction that registered it. */
  function Own(log: seq<Event>, h: nat): nat {
    if log == [] then 0
    else
      var e, front := log[|log| - 1], log[..|log| - 1];
      Own(front, h)
      + (if e.Finished? && Left(front, e.at) == Some(h) && !Unregistered(front, e.at) then 1 else 0)
  }

  /** How often it meets the end of another transaction: one that has registered none, in the place where the
      callback was left. */
  function Strays(log: seq<Event>, h: nat): nat {
    if log == [] then 0
    else
      var e, front := log[|log| - 1], log[..|log| - 1];
      Strays(front, h)
      + (if e.Finished? && Left(front, e.at) == Some(h) && Unregistered(front, e.at) then 1 else 0)
  }

  /** One event more. */
  lemma Grow(log: seq<Event>, e: Event)
    ensures forall at: nat ::
              Left(log + [e], at) == if e.Registered? && e.at == at then Some(e.handle) else Left(log, at)
    ensures forall at: nat :: Unregistered(log + [e], at)
                         == if e.at == at && !e.Finished? then e.Made? else Unregistered(log, at)
    ensures Ran(log + [e]) == Ran(log) + (if e.Finished? then AsList(Left(log, e.at)) else [])
    ensures forall h: nat :: Own(log + [e], h) == Own(log, h)
                        + (if e.Finished? && Left(log, e.at) == Some(h) && !Unregistered(log, e.at) then 1 else 0)
    ensures forall h: nat :: Strays(log + [e], h) == Strays(log, h)
                        + (if e.Finished? && Left(log, e.at) == Some(h) && Unregistered(log, e.at) then 1 else 0)
  {
    assert (log + [e])[..|log|] == log && (log + [e])[|log|] == e;
  }

  /** What an event does to the places and to the callbacks run. */
  lemma LeftMore(log: seq<Event>, e: Event)
    ensures forall at: nat {:trigger Left(log + [e], at)} ::
              Left(log + [e], at) == if e.Registered? && e.at == at then Some(e.handle) else Left(log, at)
    ensures Ran(log + [e]) == if e.Finished? then Ran(log) + AsList(Left(log, e.at)) else Ran(log)
  {
    hide Own, Strays, Unregistered;
    assert (log + [e])[..|log|] == log && (log + [e])[|log|] == e;
    assert Ran(log) + [] == Ran(log);
  }

  lemma CountAppend(s: seq<nat>, callback: Option<nat>, h: nat)
    ensures Count(s + AsList(callback), h) == Count(s, h) + (if callback == Some(h) then 1 else 0)
  {
    if callback.Some? {
      assert (s + [callback.value])[..|s|] == s;
    } else {
      assert s + [] == s;
    }
  }

  /** A callback runs once for every end of a transaction that it meets. */
  lemma {:induction false} RunsAre(log: seq<Event>, h: nat)
    ensures Count(Ran(log), h) == Own(log, h) + Strays(log, h)
    decreases |log|
  {
    if log != [] {
      var e, front := log[|log| - 1], log[..|log| - 1];
      RunsAre(front, h);
      CountAppend(Ran(front), if e.Finished? then Left(front, e.at) else None, h);
    }
  }

  /** What every log keeps: callbacks are numbered in the order of registration, so no two places hold the same
      one; no callback has met the end of its own transaction twice, nor while that is still open. */
  ghost predicate Orderly(log: seq<Event>, used: seq<bool>, registered: nat) {
    && (forall at: nat :: Left(log, at).Some? ==> Left(log, at).value < registered)
    && (forall h: nat :: h >= registered ==> Own(log, h) == 0)
    && (forall at: nat, other: nat :: Left(log, at).Some? && Left(log, at) == Left(log, other) ==> at == other)
    && (forall h: nat :: Own(log, h) <= 1)
    && (forall at: nat :: 0 <= at < |used| && used[at] && !Unregistered(log, at) && Left(log, at).Some? ==>
          Own(log, Left(log, at).value) == 0)
  }

  lemma NothingYet(used: seq<bool>)
    ensures Orderly([], used, 0) && Ran([]) == []
    ensures forall at: nat :: Left([], at) == None && !Unregistered([], at)
    ensures forall h: nat :: Own([], h) == 0 && Strays([], h) == 0
  {
  }

  lemma MadeKeeps(log: seq<Event>, used: seq<bool>, registered: nat, at: nat)
    requires Orderly(log, used, registered) && at < |used| && !used[at]
    ensures Orderly(log + [Made(at)], used[at := true], registered)
  {
    hide Left, Unregistered, Own;
    Grow(log, Made(at));
  }

  lemma RegisteredKeeps(log: seq<Event>, used: seq<bool>, registered: nat, at: nat)
    requires Orderly(log, used, registered) && at < |used| && used[at]
    ensures Orderly(log + [Registered(at, registered)], used, registered + 1)
  {
    hide Left, Unregistered, Own;
    Grow(log, Registered(at, registered));
  }

  lemma FinishedKeeps(log: seq<Event>, used: seq<bool>, registered: nat, at: nat)
    requires Orderly(log, used, registered) && at < |used| && used[at]
    ensures Orderly(log + [Finished(at)], used[at := false], registered)
  {
    hide Left, Unregistered, Own;
    Grow(log, Finished(at));
  }

  lemma GoneKeeps(log: seq<Event>, used: seq<bool>, registered: nat, at: nat)
    requires Orderly(log, used, registered) && at < |used|
    ensures Orderly(log, used[at := false], registered)
  {
    hide Left, Unregistered, Own;
  }

  /** A callback runs at most once if and only if no transaction that has registered none is answered or times out
      in the place where it was left; or a single one, when its own transaction has gone without either. */
  lemma OnceIff(log: seq<Event>, used: seq<bool>, registered: nat, h: nat)
    requires Orderly(log, used, registered)
    ensures Own(log, h) <= 1
    ensures Count(Ran(log), h) <= 1 <==> Strays(log, h) == 0 || (Strays(log, h) == 1 && Own(log, h) == 0)
  {
    RunsAre(log, h);
  }

  /** The end of transaction that runs the callback of another: it has registered none, and its place holds one. */
  predicate Stray(log: seq<Event>, i: nat)
    requires i < |log|
  {
    log[i].Finished? && Left(log[..i], log[i].at).Some? && Unregistered(log[..i], log[i].at)
  }

  lemma {:induction false} StrayCounts(log: seq<Event>, i: nat)
    requires i < |log| && Stray(log, i)
    ensures Strays(log, Left(log[..i], log[i].at).value) > 0
    decreases |log|
  {
    if i < |log| - 1 {
      var front := log[..|log| - 1];
      assert front[..i] == log[..i] && front[i] == log[i];
      StrayCounts(front, i);
    }
  }

  lemma {:induction false} NoneCounts(log: seq<Event>, h: nat)
    requires forall i :: 0 <= i < |log| ==> !Stray(log, i)
    ensures Strays(log, h) == 0
    decreases |log|
  {
    if log != [] {
      var front := log[..|log| - 1];
      assert !Stray(log, |log| - 1);
      forall i | 0 <= i < |front| ensures !Stray(front, i) {
        assert front[..i] == log[..i] && !Stray(log, i);
      }
      NoneCounts(front, h);
    }
  }

  /** Nothing strays if and only if every transaction that is answered or times out has registered a callback, or
      its place holds none. */
  lemma NoneStraysIff(log: seq<Event>)
    ensures (forall h: nat :: Strays(log, h) == 0) <==> (forall i :: 0 <= i < |log| ==> !Stray(log, i))
  {
    hide Strays, Stray, Left;
    if i :| 0 <= i < |log| && Stray(log, i) {
      StrayHolds(log, i);
      StrayCounts(log, i);
    } else {
      forall h: nat ensures Strays(log, h) == 0 {
        NoneCounts(log, h);
      }
    }
  }

  lemma StrayHolds(log: seq<Event>, i: nat)
    requires i < |log| && Stray(log, i)
    ensures Left(log[..i], log[i].at).Some?
  {
  }

  lemma {:induction false} CountTwo(s: seq<nat>, i: nat, j: nat)
    requires i < j < |s| && s[i] == s[j]
    ensures Count(s, s[i]) >= 2
    decreases |s|
  {
    var front := s[..|s| - 1];
    if j < |front| {
      CountTwo(front, i, j);
    } else {
      CountOne(front, i);
    }
  }

  lemma {:induction false} CountOne(s: seq<nat>, i: nat)
    requires i < |s|
    ensures Count(s, s[i]) >= 1
    decreases |s|
  {
    if i < |s| - 1 {
      CountOne(s[..|s| - 1], i);
    }
  }

  /** Without such a transaction no callback runs twice, and every one runs for the transaction that registered it. */
  lemma NoStrays(log: seq<Event>, used: seq<bool>, registered: nat)
    requires Orderly(log, used, registered) && forall h: nat :: Strays(log, h) == 0
    ensures NoDup(Ran(log)) && forall h: nat :: Count(Ran(log), h) == Own(log, h)
  {
    hide Own, Strays, Ran, Count, Left;
    forall h: nat ensures Count(Ran(log), h) == Own(log, h) {
      RunsAre(log, h);
    }
    var ran := Ran(log);
    forall i, j | 0 <= i < j < |ran| ensures ran[i] != ran[j] {
      if ran[i] == ran[j] {
        CountTwo(ran, i, j);
      }
    }
  }
}
