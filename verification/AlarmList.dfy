/** The controller's alarms: a singly linked list in which nodes are inserted and unlinked in place. */
module AlarmList {
  import opened AlarmOrder

  class Node {
    const session: nat
    const tmp: real
    const id: nat
    var sig: Node?

    constructor (s: nat, t: real, i: nat)
      ensures session == s && tmp == t && id == i && sig == null
    {
      session, tmp, id, sig := s, t, i, null;
    }
  }

  function After(s: seq<Node>, i: nat): Node?
    requires i < |s|
  {
    if i + 1 < |s| then s[i + 1] else null
  }

  function FirstOf(s: seq<Node>): Node? {
    if s == [] then null else s[0]
  }

  ghost predicate Linked(s: seq<Node>)
    reads s`sig
  {
    forall i :: 0 <= i < |s| ==> s[i].sig == After(s, i)
  }

  ghost predicate Distinct(s: seq<Node>) {
    forall i, j :: 0 <= i < j < |s| ==> s[i] != s[j]
  }

  function Times(s: seq<Node>): (t: seq<real>)
    ensures |t| == |s|
  {
    seq(|s|, i requires 0 <= i < |s| => s[i].tmp)
  }

  predicate Matches(n: Node, session: nat, id: nat) {
    n.session == session && n.id == id
  }

  /** The first alarm of a session and kind, or the length. */
  function FirstMatch(s: seq<Node>, session: nat, id: nat): (k: nat)
    ensures k <= |s| && (k < |s| ==> Matches(s[k], session, id))
    ensures forall i :: 0 <= i < k ==> !Matches(s[i], session, id)
  {
    if s == [] || Matches(s[0], session, id) then 0
    else
      var k := FirstMatch(s[1..], session, id);
      assert forall i :: 1 <= i < k + 1 ==> s[i] == s[1..][i - 1];
      k + 1
  }

  function Without(s: seq<Node>, k: nat): seq<Node>
    requires k < |s|
  {
    s[..k] + s[k + 1..]
  }

  /** The links after a new node at place `k`. */
  lemma InsertedLinked(s: seq<Node>, k: nat, n: Node)
    requires k <= |s|
    requires n.sig == (if k < |s| then s[k] else null) && (k > 0 ==> s[k - 1].sig == n)
    requires forall i :: 0 <= i < |s| && i + 1 != k ==> s[i].sig == After(s, i)
    ensures Linked(Inserted(s, k, n))
  {
    var r := Inserted(s, k, n);
    forall i | 0 <= i < |r| ensures r[i].sig == After(r, i) {
      assert r[i] == (if i < k then s[i] else if i == k then n else s[i - 1]);
    }
  }

  lemma WithoutLinked(s: seq<Node>, k: nat)
    requires k < |s|
    requires k > 0 ==> s[k - 1].sig == After(s, k)
    requires forall i :: 0 <= i < |s| && i != k && i + 1 != k ==> s[i].sig == After(s, i)
    ensures Linked(Without(s, k))
  {
    var r := Without(s, k);
    forall i | 0 <= i < |r| ensures r[i].sig == After(r, i) {
      assert r[i] == s[if i < k then i else i + 1];
    }
  }

  lemma InsertedDistinct(s: seq<Node>, k: nat, n: Node)
    requires Distinct(s) && n !in s && k <= |s|
    ensures Distinct(Inserted(s, k, n))
  {
    var r := Inserted(s, k, n);
    forall i, j | 0 <= i < j < |r| ensures r[i] != r[j] {
      assert r[i] == (if i < k then s[i] else if i == k then n else s[i - 1]);
      assert r[j] == (if j < k then s[j] else if j == k then n else s[j - 1]);
    }
  }

  lemma WithoutDistinct(s: seq<Node>, k: nat)
    requires Distinct(s) && k < |s|
    ensures Distinct(Without(s, k))
  {
    var r := Without(s, k);
    forall i, j | 0 <= i < j < |r| ensures r[i] != r[j] {
      assert r[i] == s[if i < k then i else i + 1] && r[j] == s[if j < k then j else j + 1];
    }
  }

  /** The search of add_alarm_coap_eap: the alarm it stops at, the one before, and whether it ran off the end. */
  method Search(head: Node, t: real, ghost s: seq<Node>) returns (anterior: Node, aux: Node, final: bool)
    requires Linked(s) && s != [] && head == s[0]
    ensures var k := PlaceOf(Times(s), t);
            && final == (k == |s|)
            && aux == s[if k == |s| then k - 1 else k]
            && (k > 0 && k < |s| ==> anterior == s[k - 1]) && (k == 0 ==> anterior == head)
  {
    hide PlaceOf, Second;
    anterior, aux, final := head, head, false;
    ghost var j := 0;
    ghost var times := Times(s);
    assert times[0..] == times;
    while Second(aux.tmp) < Second(t) && !final
      invariant j < |s| && aux == s[j] && anterior == s[if j == 0 then 0 else j - 1]
      invariant PlaceOf(times, t) == j + PlaceOf(times[j..], t)
      invariant final ==> j == |s| - 1 && Second(aux.tmp) < Second(t)
      decreases |s| - j, !final
    {
      PlaceFrom(times, j, t);
      if aux.sig == null {
        final := true;
      } else {
        anterior := aux;
        aux := aux.sig;
        j := j + 1;
      }
    }
    PlaceFrom(times, j, t);
  }

  lemma PlaceFrom(times: seq<real>, j: nat, t: real)
    requires j < |times|
    ensures PlaceOf(times[j..], t) == if Second(times[j]) < Second(t) then 1 + PlaceOf(times[j + 1..], t) else 0
    ensures j + 1 == |times| ==> PlaceOf(times[j + 1..], t) == 0
  {
    hide Second;
    assert times[j..][1..] == times[j + 1..];
  }

  class Alarms {
    var list: Node?
    ghost var alarms: seq<Node>

    ghost predicate Valid()
      reads this, alarms`sig
    {
      Distinct(alarms) && Linked(alarms) && list == FirstOf(alarms)
    }

    /** Alarms are in the order of their whole seconds. */
    ghost predicate Sorted()
      reads this
    {
      BySecond(Times(alarms))
    }

    constructor ()
      ensures Valid() && Sorted() && alarms == []
    {
      list, alarms := null, [];
    }

    /** add_alarm_coap_eap at time `now`. */
    method Add(session: nat, now: real, delay: real, id: nat) returns (n: Node)
      requires Valid()
      modifies this, alarms`sig
      ensures Valid() && fresh(n) && n.session == session && n.tmp == now + delay && n.id == id
      ensures alarms == Inserted(old(alarms), Spot(old(Times(alarms)), n.tmp), n)
      ensures old(Sorted()) ==> Sorted()
    {
      n := new Node(session, now + delay, id);
      Place(n);
    }

    method Place(n: Node)
      requires Valid() && n !in alarms && n.sig == null
      modifies this, alarms`sig, n`sig
      ensures Valid() && alarms == Inserted(old(alarms), Spot(old(Times(alarms)), n.tmp), n)
      ensures old(Sorted()) ==> Sorted()
    {
      hide Distinct, Linked, BySecond, Times, Spot;
      ghost var was := alarms;
      AddKeeps(was, n);
      list := InsertNode(list, n, was);
      alarms := Inserted(was, Spot(Times(was), n.tmp), n);
    }

    /** get_alarm_coap_eap_session: unlinks the first alarm of a session and kind. */
    method Take(session: nat, id: nat) returns (found: Node?)
      requires Valid()
      modifies this, alarms`sig
      ensures Valid()
      ensures var k := FirstMatch(old(alarms), session, id);
              if k == |old(alarms)| then found == null && alarms == old(alarms)
              else found == old(alarms)[k] && alarms == Without(old(alarms), k)
      ensures old(Sorted()) ==> Sorted()
    {
      hide BySecond, Times, FirstMatch, Linked, Distinct, Without;
      found := null;
      ghost var was, k := alarms, FirstMatch(alarms, session, id);
      if k < |was| { OneTaken(was, k); }
      if list != null {
        var anterior;
        anterior, found := Locate(list, session, id, was);
        if found != null {
          Unlink(anterior, found, k);
        }
      }
    }

    /** Takes `found`, at place `k`, out of the list. */
    method Unlink(anterior: Node, found: Node, ghost k: nat)
      requires Valid() && k < |alarms| && found == alarms[k] && (k > 0 ==> anterior == alarms[k - 1])
      requires Distinct(Without(alarms, k))
      modifies this, alarms`sig
      ensures Valid() && alarms == Without(old(alarms), k)
    {
      ghost var was := alarms;
      if found == list {
        list := found.sig;
      } else {
        anterior.sig := found.sig;
      }
      found.sig := null;
      WithoutLinked(was, k);
      alarms := Without(was, k);
    }

    /** get_next_alarm_coap_eap: the first alarm, if its time has passed. */
    method NextDue(now: real) returns (due: Node?)
      requires Valid()
      modifies this, alarms`sig
      ensures Valid()
      ensures if old(alarms) != [] && old(alarms)[0].tmp < now then due == old(alarms)[0] && alarms == old(alarms)[1..]
              else due == null && alarms == old(alarms)
      ensures old(Sorted()) ==> Sorted()
    {
      hide BySecond, Times, Without;
      due := null;
      if list != null && list.tmp < now {
        ghost var was := alarms;
        OneTaken(was, 0);
        due := list;
        list := list.sig;
        due.sig := null;
        WithoutLinked(was, 0);
        alarms := Without(was, 0);
      }
    }
  }

  /** The list without one alarm. */
  lemma OneTaken(s: seq<Node>, k: nat)
    requires Distinct(s) && k < |s|
    ensures Distinct(Without(s, k)) && (BySecond(Times(s)) ==> BySecond(Times(Without(s, k))))
    ensures k == 0 ==> Without(s, k) == s[1..]
  {
    hide BySecond, Times, Distinct;
    WithoutDistinct(s, k);
    WithoutTimes(s, k);
    if BySecond(Times(s)) { RemoveBySecond(Times(s), k); }
  }

  lemma AddKeeps(s: seq<Node>, n: Node)
    requires Distinct(s) && n !in s
    ensures var r := Inserted(s, Spot(Times(s), n.tmp), n);
            Distinct(r) && (BySecond(Times(s)) ==> BySecond(Times(r)))
  {
    hide Times, Spot, BySecond;
    var k := Spot(Times(s), n.tmp);
    InsertedDistinct(s, k, n);
    InsertedTimes(s, k, n);
    if BySecond(Times(s)) { AddBySecond(Times(s), n.tmp); }
  }

  lemma WithoutTimes(s: seq<Node>, k: nat)
    requires k < |s|
    ensures Times(Without(s, k)) == Times(s)[..k] + Times(s)[k + 1..]
  {
  }

  /** The branches of add_alarm_coap_eap. */
  method InsertNode(list: Node?, n: Node, ghost s: seq<Node>) returns (newList: Node)
    requires Linked(s) && Distinct(s) && n !in s && list == FirstOf(s) && n.sig == null
    modifies n`sig, s`sig
    ensures var k := Spot(Times(s), n.tmp);
            Linked(Inserted(s, k, n)) && newList == FirstOf(Inserted(s, k, n))
  {
    ghost var k := Spot(Times(s), n.tmp);
    if list == null {
      return n;
    }
    newList := list;
    var anterior, aux, final := Search(list, n.tmp, s);
    if final {
      LinkAfter(aux, n, s, k);
    } else if Second(aux.tmp) > Second(n.tmp) && aux == list {
      n.sig := anterior;
      newList := n;
      InsertedLinked(s, 0, n);
    } else {
      LinkAfter(anterior, n, s, k);
    }
  }

  /** The search of get_alarm_coap_eap_session: the alarm and the one before it. */
  method Locate(list: Node, session: nat, id: nat, ghost s: seq<Node>) returns (anterior: Node, found: Node?)
    requires Linked(s) && s != [] && list == s[0]
    ensures var k := FirstMatch(s, session, id);
            && found == (if k < |s| then s[k] else null)
            && (0 < k < |s| ==> anterior == s[k - 1])
  {
    anterior, found := list, list;
    ghost var j := 0;
    assert s[0..] == s;
    while found != null && !Matches(found, session, id)
      invariant j <= |s| && found == (if j < |s| then s[j] else null)
      invariant anterior == s[if j == 0 then 0 else j - 1]
      invariant FirstMatch(s, session, id) == j + FirstMatch(s[j..], session, id)
      decreases |s| - j
    {
      assert s[j..][1..] == s[j + 1..];
      anterior := found;
      found := found.sig;
      j := j + 1;
    }
  }

  /** A new node behind an old one. */
  method LinkAfter(before: Node, n: Node, ghost s: seq<Node>, ghost k: nat)
    requires Linked(s) && Distinct(s) && n !in s && 0 < k <= |s| && before == s[k - 1]
    modifies before`sig, n`sig
    ensures Linked(Inserted(s, k, n))
  {
    n.sig := before.sig;
    before.sig := n;
    InsertedLinked(s, k, n);
  }

  lemma InsertedTimes(s: seq<Node>, k: nat, n: Node)
    requires k <= |s|
    ensures Times(Inserted(s, k, n)) == Inserted(Times(s), k, n.tmp)
  {
  }
}
