/** Where the controller's alarm list puts an alarm, on sequences.

    The C code compares expiry times with difftime, whose arguments are whole seconds, while it hands an
    alarm out as soon as its exact time has passed. So the list is sorted by second, not by time. */
module AlarmOrder {

  /** The conversion of a time in seconds to time_t: truncation. */
  function Second(t: real): int {
    if t >= 0.0 then t.Floor else -((-t).Floor)
  }

  lemma SecondMonotone(a: real, b: real)
    requires a <= b
    ensures Second(a) <= Second(b)
  {
  }

  /** Two times whose seconds are in order are less than a second apart in the other direction. */
  lemma SecondsApart(a: real, b: real)
    requires 0.0 <= a && 0.0 <= b && Second(a) <= Second(b)
    ensures a < b + 1.0
  {
  }

  /** The first place whose second is not before that of `t`, or the end. */
  function PlaceOf(times: seq<real>, t: real): (k: nat)
    ensures k <= |times|
    ensures forall i :: 0 <= i < k ==> Second(times[i]) < Second(t)
    ensures k < |times| ==> Second(times[k]) >= Second(t)
  {
    if times == [] || Second(times[0]) >= Second(t) then 0
    else
      var k := PlaceOf(times[1..], t);
      assert forall i :: 1 <= i < k + 1 ==> times[i] == times[1..][i - 1];
      k + 1
  }

  /** Where add_alarm_coap_eap inserts: before the place, but behind the head if they share a second. */
  function Spot(times: seq<real>, t: real): (k: nat)
    ensures k <= |times|
  {
    var k := PlaceOf(times, t);
    if k == 0 && times != [] && Second(times[0]) == Second(t) then 1 else k
  }

  function Inserted<T>(s: seq<T>, k: nat, x: T): seq<T>
    requires k <= |s|
  {
    s[..k] + [x] + s[k..]
  }

  ghost predicate BySecond(times: seq<real>) {
    forall i, j :: 0 <= i < j < |times| ==> Second(times[i]) <= Second(times[j])
  }

  ghost predicate ByTime(times: seq<real>) {
    forall i, j :: 0 <= i < j < |times| ==> times[i] <= times[j]
  }

  /** Adding keeps the list sorted by second. */
  lemma AddBySecond(times: seq<real>, t: real)
    requires BySecond(times)
    ensures BySecond(Inserted(times, Spot(times, t), t))
  {
    hide Second;
    var k := Spot(times, t);
    var r := Inserted(times, k, t);
    forall i, j | 0 <= i < j < |r| ensures Second(r[i]) <= Second(r[j]) {
      assert r[i] == (if i < k then times[i] else if i == k then t else times[i - 1]);
      assert r[j] == (if j < k then times[j] else if j == k then t else times[j - 1]);
      var p := PlaceOf(times, t);
      assert p < |times| && j - 1 > p ==> Second(times[p]) <= Second(times[j - 1]);
    }
  }

  /** Taking an alarm out keeps any order. */
  lemma RemoveBySecond(times: seq<real>, k: nat)
    requires BySecond(times) && k < |times|
    ensures BySecond(times[..k] + times[k + 1..])
  {
    var r := times[..k] + times[k + 1..];
    forall i, j | 0 <= i < j < |r| ensures Second(r[i]) <= Second(r[j]) {
      assert r[i] == times[if i < k then i else i + 1] && r[j] == times[if j < k then j else j + 1];
    }
  }

  /** The guard under which adding keeps the list sorted by time: no alarm shares the second, or the new one fits
      where it is put, before the first of that second, or right behind the head. */
  predicate Fits(times: seq<real>, t: real) {
    var k := PlaceOf(times, t);
    k == |times| || Second(times[k]) != Second(t)
    || (if k > 0 then t <= times[k] else times[0] <= t && (|times| > 1 ==> t <= times[1]))
  }

  lemma AddByTimeIff(times: seq<real>, t: real)
    requires ByTime(times)
    ensures ByTime(Inserted(times, Spot(times, t), t)) <==> Fits(times, t)
  {
    SecondOrder(times, t);
    var p, k := PlaceOf(times, t), Spot(times, t);
    InsertedByTime(times, k, t);
    hide Second, PlaceOf, Inserted;
    if p < |times| && Second(times[p]) == Second(t) {
      assert k > 0 ==> times[k - 1] <= t || k == 1;
    }
  }

  /** An element goes into a sorted list in order exactly when it lies between its neighbours. */
  lemma InsertedByTime(times: seq<real>, k: nat, t: real)
    requires ByTime(times) && k <= |times|
    ensures ByTime(Inserted(times, k, t))
            <==> (k > 0 ==> times[k - 1] <= t) && (k < |times| ==> t <= times[k])
  {
    var r := Inserted(times, k, t);
    assert k > 0 ==> r[k - 1] == times[k - 1];
    assert r[k] == t && (k < |times| ==> r[k + 1] == times[k]);
    if (k > 0 ==> times[k - 1] <= t) && (k < |times| ==> t <= times[k]) {
      forall i, j | 0 <= i < j < |r| ensures r[i] <= r[j] {
        assert r[i] == (if i < k then times[i] else if i == k then t else times[i - 1]);
        assert r[j] == (if j < k then times[j] else if j == k then t else times[j - 1]);
        assert i < k ==> times[i] <= times[k - 1];
        assert j > k ==> times[k] <= times[j - 1];
      }
    }
  }

  /** Comparing seconds decides between times whose seconds differ. */
  lemma SecondOrder(times: seq<real>, t: real)
    ensures forall i :: 0 <= i < |times| && Second(times[i]) < Second(t) ==> times[i] <= t
    ensures forall i :: 0 <= i < |times| && Second(times[i]) > Second(t) ==> t <= times[i]
  {
    forall i | 0 <= i < |times|
      ensures Second(times[i]) < Second(t) ==> times[i] <= t
      ensures Second(times[i]) > Second(t) ==> t <= times[i]
    {
      if times[i] >= t { SecondMonotone(t, times[i]); } else { SecondMonotone(times[i], t); }
    }
  }

  /** Two alarms half a second apart, added the later one first: the list is not sorted by time. */
  lemma OutOfOrder()
    ensures ByTime([5.25]) && !Fits([5.25], 5.0) && Inserted([5.25], Spot([5.25], 5.0), 5.0) == [5.25, 5.0]
  {
    assert Second(5.25) == 5 && Second(5.0) == 5;
  }

  /** As long as the first alarm is not due, no alarm is overdue by a second or more. */
  lemma LessThanASecondLate(times: seq<real>, now: real, i: nat)
    requires BySecond(times) && i < |times| && times[0] >= now && (forall j :: 0 <= j < |times| ==> times[j] >= 0.0)
    ensures times[i] > now - 1.0
  {
    if i > 0 { SecondsApart(times[0], times[i]); }
  }
}
