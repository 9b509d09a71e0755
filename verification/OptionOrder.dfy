/** Where CoapPDU::addOption puts an option, on sequences of options.

    An option goes after every option whose number is not larger, so repeated calls perform a
    stable insertion sort. The bytes are tied to these sequences in module CoapPdu. */
module OptionOrder {
  import opened OptionFormat

  /** How many options stay in front of a new option with number `n`. */
  function Place(opts: seq<Opt>, n: nat): (i: nat)
    ensures i <= |opts|
  {
    if opts == [] || opts[0].number > n then 0 else 1 + Place(opts[1..], n)
  }

  function Insert(opts: seq<Opt>, o: Opt): seq<Opt> {
    opts[..Place(opts, o.number)] + [o] + opts[Place(opts, o.number)..]
  }

  function InsertAll(opts: seq<Opt>, calls: seq<Opt>): seq<Opt>
    decreases |calls|
  {
    if calls == [] then opts else InsertAll(Insert(opts, calls[0]), calls[1..])
  }

  /* ---- The domain in which the controller's option writer is right ---- */

  const LIMIT: nat := 269

  /** Ascending numbers whose deltas and value lengths all need at most one extension byte. */
  predicate Small(prev: nat, opts: seq<Opt>)
    decreases opts
  {
    opts != [] ==>
      && prev <= opts[0].number < prev + LIMIT
      && |opts[0].value| < LIMIT
      && Small(opts[0].number, opts[1..])
  }

  /** The option's delta to its predecessor, and its length, stay below the limit. */
  predicate SmallStep(opts: seq<Opt>, o: Opt) {
    o.number - LastNumber(0, opts[..Place(opts, o.number)]) < LIMIT && |o.value| < LIMIT
  }

  predicate SmallCalls(opts: seq<Opt>, calls: seq<Opt>)
    decreases |calls|
  {
    calls != [] ==> SmallStep(opts, calls[0]) && SmallCalls(Insert(opts, calls[0]), calls[1..])
  }

  lemma {:induction false} SmallEncodable(prev: nat, opts: seq<Opt>)
    requires Small(prev, opts)
    ensures Encodable(prev, opts)
    decreases opts
  {
    if opts != [] { SmallEncodable(opts[0].number, opts[1..]); }
  }

  lemma {:induction false} SmallSplit(prev: nat, a: seq<Opt>, b: seq<Opt>)
    ensures Small(prev, a + b) <==> Small(prev, a) && Small(LastNumber(prev, a), b)
    decreases a
  {
    if a == [] {
      assert a + b == b;
    } else {
      assert (a + b)[1..] == a[1..] + b;
      assert LastNumber(prev, a) == LastNumber(a[0].number, a[1..]);
      SmallSplit(a[0].number, a[1..], b);
    }
  }

  lemma {:induction false} SmallAscending(prev: nat, opts: seq<Opt>, i: nat)
    requires Small(prev, opts) && i < |opts|
    ensures prev <= opts[i].number
    ensures i + 1 < |opts| ==> opts[i].number <= opts[i + 1].number
    decreases opts
  {
    if i > 0 {
      SmallAscending(opts[0].number, opts[1..], i - 1);
    } else if |opts| > 1 {
      assert opts[1..][0] == opts[1];
    }
  }

  /** Options before the place have numbers up to `n`, the one at the place a larger number. */
  lemma {:induction false} PlaceSplits(prev: nat, opts: seq<Opt>, n: nat)
    requires Small(prev, opts) && prev <= n
    ensures forall i :: 0 <= i < Place(opts, n) ==> opts[i].number <= n
    ensures Place(opts, n) < |opts| ==> opts[Place(opts, n)].number > n
    ensures LastNumber(prev, opts[..Place(opts, n)]) <= n
    decreases opts
  {
    if opts != [] && opts[0].number <= n {
      var p := Place(opts[1..], n);
      PlaceSplits(opts[0].number, opts[1..], n);
      assert opts[..p + 1] == [opts[0]] + opts[1..][..p];
      forall i | 0 <= i < p + 1 ensures opts[i].number <= n {
        if i > 0 { assert opts[i] == opts[1..][i - 1]; }
      }
      assert p < |opts[1..]| ==> opts[p + 1] == opts[1..][p];
    }
  }

  /** The place is the end exactly when the number is at least the last one. */
  lemma PlaceAtEnd(opts: seq<Opt>, n: nat)
    requires Small(0, opts)
    ensures Place(opts, n) == |opts| <==> LastNumber(0, opts) <= n
  {
    PlaceSplits(0, opts, n);
    if Place(opts, n) == |opts| {
      assert opts[..|opts|] == opts;
    } else {
      SmallFromTo(0, opts, Place(opts, n), |opts| - 1);
    }
  }

  lemma {:induction false} SmallFromTo(prev: nat, opts: seq<Opt>, i: nat, j: nat)
    requires Small(prev, opts) && i <= j < |opts|
    ensures opts[i].number <= opts[j].number
    decreases j - i
  {
    if i < j {
      SmallAscending(prev, opts, i);
      SmallFromTo(prev, opts, i + 1, j);
    }
  }

  lemma InsertSmall(opts: seq<Opt>, o: Opt)
    requires Small(0, opts) && SmallStep(opts, o)
    ensures Small(0, Insert(opts, o))
  {
    var p := Place(opts, o.number);
    var before, after := opts[..p], opts[p..];
    assert opts == before + after;
    PlaceSplits(0, opts, o.number);
    SmallSplit(0, before, after);
    assert Small(LastNumber(0, before), [o] + after) by {
      assert ([o] + after)[1..] == after;
    }
    SmallSplit(0, before, [o] + after);
    assert Insert(opts, o) == before + ([o] + after);
  }

  /* ---- Insertion sort: sorted, a permutation, stable ---- */

  predicate Ascending(opts: seq<Opt>) {
    forall i, j :: 0 <= i < j < |opts| ==> opts[i].number <= opts[j].number
  }

  /** The values of the options numbered `n`, in order. */
  function ValuesOf(opts: seq<Opt>, n: nat): seq<Bytes> {
    if opts == [] then []
    else (if opts[0].number == n then [opts[0].value] else []) + ValuesOf(opts[1..], n)
  }

  lemma {:induction false} ValuesOfSplit(a: seq<Opt>, b: seq<Opt>, n: nat)
    ensures ValuesOf(a + b, n) == ValuesOf(a, n) + ValuesOf(b, n)
  {
    if a == [] {
      assert a + b == b;
    } else {
      assert (a + b)[1..] == a[1..] + b;
      ValuesOfSplit(a[1..], b, n);
    }
  }

  lemma {:induction false} NoValues(opts: seq<Opt>, n: nat)
    requires forall i :: 0 <= i < |opts| ==> opts[i].number != n
    ensures ValuesOf(opts, n) == []
  {
    if opts != [] {
      assert forall i :: 0 <= i < |opts[1..]| ==> opts[1..][i] == opts[i + 1];
      NoValues(opts[1..], n);
    }
  }

  lemma {:induction false} PlaceOrder(opts: seq<Opt>, n: nat)
    requires Ascending(opts)
    ensures forall i :: 0 <= i < Place(opts, n) ==> opts[i].number <= n
    ensures forall i :: Place(opts, n) <= i < |opts| ==> opts[i].number > n
  {
    if opts != [] && opts[0].number <= n {
      PlaceOrder(opts[1..], n);
      assert forall i :: 1 <= i < |opts| ==> opts[i] == opts[1..][i - 1];
    }
  }

  lemma InsertAscending(opts: seq<Opt>, o: Opt)
    requires Ascending(opts)
    ensures Ascending(Insert(opts, o))
  {
    hide Place;
    PlaceOrder(opts, o.number);
  }

  lemma InsertMultiset(opts: seq<Opt>, o: Opt)
    ensures multiset(Insert(opts, o)) == multiset(opts) + multiset{o}
  {
    hide Place;
    var p := Place(opts, o.number);
    assert opts == opts[..p] + opts[p..];
  }

  lemma InsertValues(opts: seq<Opt>, o: Opt, n: nat)
    requires Ascending(opts)
    ensures ValuesOf(Insert(opts, o), n) == ValuesOf(opts, n) + ValuesOf([o], n)
  {
    hide Place, ValuesOf;
    var p := Place(opts, o.number);
    var before, after := opts[..p], opts[p..];
    PlaceOrder(opts, o.number);
    assert opts == before + after;
    ValuesOfSplit(before, after, n);
    ValuesOfSplit(before + [o], after, n);
    ValuesOfSplit(before, [o], n);
    if o.number == n {
      NoValues(after, n);
    } else {
      NoValues([o], n);
    }
  }

  /** Any calls in any order leave the options sorted, all present, and equal numbers in call order. */
  lemma {:induction false} InsertionSort(opts: seq<Opt>, calls: seq<Opt>, n: nat)
    requires Ascending(opts)
    ensures Ascending(InsertAll(opts, calls))
    ensures multiset(InsertAll(opts, calls)) == multiset(opts) + multiset(calls)
    ensures ValuesOf(InsertAll(opts, calls), n) == ValuesOf(opts, n) + ValuesOf(calls, n)
    decreases |calls|
  {
    hide Ascending, Insert, ValuesOf;
    if calls == [] {
      NoValues(calls, n);
    } else {
      var o, rest := calls[0], calls[1..];
      InsertAscending(opts, o);
      InsertMultiset(opts, o);
      InsertValues(opts, o, n);
      InsertionSort(Insert(opts, o), rest, n);
      assert calls == [o] + rest;
      ValuesOfSplit([o], rest, n);
    }
  }

  lemma {:induction false} InsertAllSmall(opts: seq<Opt>, calls: seq<Opt>)
    requires Small(0, opts) && SmallCalls(opts, calls)
    ensures Small(0, InsertAll(opts, calls))
    decreases |calls|
  {
    hide Small, Insert;
    if calls != [] {
      InsertSmall(opts, calls[0]);
      InsertAllSmall(Insert(opts, calls[0]), calls[1..]);
    }
  }

  /** A message built by any calls decodes, in the sense of RFC 7252, to their insertion sort. */
  lemma BuiltDecodes(calls: seq<Opt>, payload: Bytes)
    requires SmallCalls([], calls)
    ensures var sorted := InsertAll([], calls);
            && Encodable(0, sorted)
            && Decode(0, EncodeAll(0, sorted) + PayloadPart(payload)) == Some(Body(sorted, payload))
  {
    InsertAllSmall([], calls);
    SmallEncodable(0, InsertAll([], calls));
    DecodeEncoded(0, InsertAll([], calls), payload);
  }

  /** Every option number of the enumeration (at most 92) stays in the domain, whatever the order. */
  lemma {:induction false} SmallNumbers(opts: seq<Opt>, calls: seq<Opt>)
    requires forall i :: 0 <= i < |calls| ==> calls[i].number < LIMIT && |calls[i].value| < LIMIT
    ensures SmallCalls(opts, calls)
    decreases |calls|
  {
    if calls != [] { SmallNumbers(Insert(opts, calls[0]), calls[1..]); }
  }

  /** The space freed in the next option never exceeds what the new option takes:
      CoapPDU::addOption always shifts upwards. */
  lemma ShiftNonNegative(d1: nat, d2: nat)
    ensures 1 + Extra(d1) + Extra(d2) >= Extra(d1 + d2)
  {
  }
}
