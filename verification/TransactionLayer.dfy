/** The transaction layer itself: pool, list and timers, changed in place as the C code does. Every method is proved
    equal to a step of module TransactionRuns. */
module TransactionLayer {
  import opened Callbacks
  import opened OptionFormat
  import opened Transactions
  import opened TransactionRuns

  class Layer {
    const clockSecond: nat
    const pool: array<Transaction>
    const used: array<bool>
    var open: seq<nat>
    var next: nat
    var registered: nat
    ghost var sent: map<nat, History>
    ghost var log: seq<Event>
    ghost var called: seq<nat>

    ghost function View(): State
      reads this, pool, used
    {
      State(pool[..], used[..], open, next, sent, registered, log, called)
    }

    ghost predicate Valid()
      reads this, pool, used
    {
      Good(View(), clockSecond)
    }

    constructor (second: nat)
      ensures Valid() && View() == Start() && clockSecond == second
      ensures fresh(pool) && fresh(used)
    {
      hide Good;
      clockSecond := second;
      pool := new Transaction[MAX_OPEN](_ => Transaction(0, 0, false, None, 0, 0, false));
      used := new bool[MAX_OPEN](_ => false);
      open, next, registered, sent, log, called := [], 0, 0, map[], [], [];
      new;
      assert pool[..] == Start().pool && used[..] == Start().used;
      GoodStart(second);
    }

    /** memb_alloc */
    method Alloc() returns (at: nat)
      requires used.Length == MAX_OPEN
      ensures at == FirstFree(used[..])
    {
      at := 0;
      while at < MAX_OPEN && used[at]
        invariant at <= MAX_OPEN && FirstFree(used[..]) == at + FirstFree(used[at..])
      {
        assert used[at..][1..] == used[at + 1..];
        at := at + 1;
      }
    }

    lemma Lengths()
      requires Valid()
      ensures pool.Length == used.Length == MAX_OPEN && Listed(View())
      ensures forall i :: 0 <= i < |open| ==> open[i] < MAX_OPEN
      ensures forall at :: at in open ==> at < MAX_OPEN && used[at]
    {
      hide Recorded, Apart, Calls;
    }

    /** coap_new_transaction: refused if and only if four transactions are open. The place it takes is as it was
        left: with the callback that was last stored there. */
    method NewTransaction(mid: nat, confirmable: bool) returns (at: nat)
      requires Valid()
      modifies this`open, this`next, this`sent, this`log, pool, used
      ensures Valid() && at == FirstFree(old(used[..])) && (at == MAX_OPEN <==> |old(open)| == MAX_OPEN)
      ensures View() == Next(old(View()), New(mid, confirmable), clockSecond)
      ensures at < MAX_OPEN ==>
                && open == old(open) + [at] && pool.Length == MAX_OPEN
                && pool[at].mid == mid && pool[at].callback == old(pool[at].callback)
    {
      hide Good, Listed;
      Lengths();
      ghost var was := View();
      GoodNext(was, New(mid, confirmable), clockSecond);
      at := Alloc();
      FullIff(was, at);
      if at == MAX_OPEN {
        return;
      }
      used[at] := true;
      pool[at] := Transaction(next, mid, confirmable, pool[at].callback, 0, pool[at].interval, false);
      open := open + [at];
      sent := sent[next := History(0, [])];
      next := next + 1;
      log := log + [Made(at)];
      assert View() == AfterNew(was, at, mid, confirmable);
    }

    /** What coap_blocking_request does with a new transaction: it stores its callback. */
    method Register(at: nat) returns (handle: nat)
      requires Valid() && at in open
      modifies this`registered, this`log, pool
      ensures Valid() && handle == old(registered)
      ensures View() == Next(old(View()), Step.Register(at), clockSecond)
    {
      hide Good, Listed;
      Lengths();
      ghost var was := View();
      GoodNext(was, Step.Register(at), clockSecond);
      handle := registered;
      pool[at] := pool[at].(callback := Some(handle));
      registered := registered + 1;
      log := log + [Registered(at, handle)];
      assert View() == AfterRegister(was, at);
    }

    /** coap_clear_transaction */
    method ClearTransaction(at: nat)
      requires Valid() && at in open
      modifies this`open, used
      ensures at < MAX_OPEN && Valid() && View() == Next(old(View()), Drop(at), clockSecond)
      ensures at < |old(View()).used| && View() == AfterClear(old(View()), at)
    {
      hide Good, Listed, Without;
      Lengths();
      GoodNext(View(), Drop(at), clockSecond);
      Free(at);
    }

    /** list_remove and memb_free. */
    method Free(at: nat)
      requires at < used.Length
      modifies this`open, used
      ensures View() == AfterClear(old(View()), at)
    {
      open := Without(open, at);
      used[at] := false;
    }

    /** The end of a transaction that is answered or has timed out: it is cleared, and its place's callback runs. */
    method Finish(at: nat)
      requires at < used.Length && at < pool.Length
      modifies this`open, this`log, this`called, used
      ensures View() == AfterFinish(old(View()), at)
    {
      hide Without;
      var callback := pool[at].callback;
      Free(at);
      log := log + [Finished(at)];
      called := called + AsList(callback);
    }

    /** coap_send_transaction, for a transaction whose state before this call was `was`. */
    method SendTransaction(at: nat, random: nat, ghost was: State)
      requires at < pool.Length == |was.pool| && was == View().(pool := pool[..][at := was.pool[at]])
      requires Good(was, clockSecond) && at in open && at < MAX_OPEN == used.Length && Due(was.pool[at], pool[at])
      modifies this`open, this`sent, this`log, this`called, pool, used
      ensures Valid()
      ensures old(pool[at]).serial in was.sent && View() == AfterSend(was, at, old(pool[at]), clockSecond, random)
    {
      hide Good, Without, Due, BacksOff, InStep, AsList;
      var t := pool[at];
      GoodSend(was, clockSecond, at, t, random);
      if t.confirmable {
        if t.counter < MAX_RETRANSMIT {
          var interval := if t.counter == 0 then 2 * clockSecond + random % (clockSecond + 1) else 2 * t.interval;
          pool[at] := t.(interval := interval, running := true);
          sent := sent[t.serial := Longer(sent[t.serial], true, interval)];
        } else {
          sent := sent[t.serial := Longer(sent[t.serial], false, 0)];
          Finish(at);
        }
      } else {
        sent := sent[t.serial := Longer(sent[t.serial], false, 0)];
        Free(at);
      }
      assert View() == AfterSend(was, at, t, clockSecond, random);
    }

    /** One turn of coap_check_transactions, for a transaction whose timer has expired. */
    method Expire(at: nat, random: nat)
      requires Valid() && at in open && at < pool.Length && pool[at].running
      modifies this`open, this`sent, this`log, this`called, pool, used
      ensures Valid() && View() == AfterExpire(old(View()), at, clockSecond, random)
    {
      hide Good, Listed, AfterSend, BacksOff, InStep;
      Lengths();
      ghost var was := View();
      Shape(was, clockSecond);
      OpenIsLive(was, clockSecond, at);
      assert was.pool[at] == pool[at];
      pool[at] := pool[at].(counter := pool[at].counter + 1);
      assert was.pool == pool[..][at := was.pool[at]];
      SendTransaction(at, random, was);
    }

    /** coap_check_transactions: the loop over the list, in which only the transaction at hand can go. */
    method CheckTransactions(expired: set<nat>, randoms: seq<nat>)
      requires Valid() && |open| <= |randoms|
      modifies this`open, this`sent, this`log, this`called, pool, used
      ensures Valid() && View() == AfterCheck(old(View()), old(open), expired, randoms, clockSecond, |old(open)|)
    {
      hide Good, Listed, AfterSend, AfterExpire, BacksOff, InStep;
      var todo := open;
      Lengths();
      for i := 0 to |todo|
        invariant Valid() && pool.Length == used.Length == MAX_OPEN
        invariant View() == AfterCheck(old(View()), todo, expired, randoms, clockSecond, i)
      {
        var at := todo[i];
        if at in expired {
          if at in open && pool[at].running {
            Expire(at, randoms[i]);
          } else {
            NotRunning(View(), at, clockSecond, randoms[i]);
          }
        }
      }
    }

    /** coap_get_transaction_by_mid: the first one in the list. */
    method GetTransactionByMid(mid: nat) returns (at: nat)
      requires Valid()
      ensures at == WithMid(View(), mid, 0)
      ensures at < MAX_OPEN ==> at in open && at < pool.Length && pool[at].mid == mid
      ensures at >= MAX_OPEN ==> forall i :: 0 <= i < |open| ==> open[i] < pool.Length && pool[open[i]].mid != mid
    {
      hide Good, Listed, WithMid;
      Lengths();
      ghost var s := View();
      for i := 0 to |open|
        invariant forall j :: 0 <= j < i ==> pool[open[j]].mid != mid
        invariant WithMid(s, mid, 0) == WithMid(s, mid, i)
      {
        WithMidNext(s, mid, i);
        if pool[open[i]].mid == mid {
          return open[i];
        }
      }
      WithMidNext(s, mid, |open|);
      at := MAX_OPEN;
    }

    /** coap_receive for a message that is no request: the transaction goes first, then its callback runs. */
    method Answer(mid: nat) returns (at: nat)
      requires Valid()
      modifies this`open, this`log, this`called, used
      ensures Valid() && View() == Next(old(View()), Step.Answer(mid), clockSecond)
      ensures at >= MAX_OPEN ==> View() == old(View())
      ensures at < MAX_OPEN ==>
                && at in old(open) && at < pool.Length && pool[at].mid == mid && open == Without(old(open), at)
                && called == old(called) + AsList(pool[at].callback)
    {
      hide Good, Listed, Without, AsList, WithMid;
      Lengths();
      ghost var was := View();
      GoodNext(was, Step.Answer(mid), clockSecond);
      at := GetTransactionByMid(mid);
      if at < MAX_OPEN {
        Finish(at);
      } else {
        WithMidOpen(was, mid, 0);
      }
    }

    /** One step of a run, if it can be made. */
    method Do(step: Step)
      requires Valid()
      modifies this`open, this`next, this`sent, this`registered, this`log, this`called, pool, used
      ensures Valid() && View() == Next(old(View()), step, clockSecond)
    {
      hide Good, Listed, AfterSend, AfterClear, AfterNew, AfterRegister, AfterFinish, BacksOff, InStep, Without;
      Lengths();
      ghost var was := View();
      match step {
        case New(mid, confirmable) => var _ := NewTransaction(mid, confirmable);
        case Register(at) =>
          if at in open {
            var _ := Register(at);
          }
        case Answer(mid) => var _ := Answer(mid);
        case Send(at, random) =>
          if at in open && !pool[at].running {
            OpenIsLive(was, clockSecond, at);
            assert was.pool == pool[..][at := was.pool[at]];
            SendTransaction(at, random, was);
          }
        case Expire(at, random) =>
          if at in open && pool[at].running {
            Expire(at, random);
          } else {
            NotRunning(was, at, clockSecond, random);
          }
        case Drop(at) =>
          if at in open {
            ClearTransaction(at);
          }
      }
    }
  }

  /** A run of the layer is a run in the sense of `After`. */
  method Execute(steps: seq<Step>, clockSecond: nat) returns (l: Layer)
    ensures fresh(l) && l.Valid() && l.View() == After(Start(), steps, clockSecond)
  {
    hide Good, Next, Start;
    l := new Layer(clockSecond);
    AfterNone(Start(), clockSecond);
    for i := 0 to |steps|
      invariant l.Valid() && l.clockSecond == clockSecond && fresh(l) && fresh(l.pool) && fresh(l.used)
      invariant l.View() == After(Start(), steps[..i], clockSecond)
    {
      l.Do(steps[i]);
      AfterMore(Start(), steps[..i], steps[i], clockSecond);
      assert steps[..i] + [steps[i]] == steps[..i + 1];
    }
    assert steps[..|steps|] == steps;
  }
}
