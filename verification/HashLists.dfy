/** Lists of hash elements as sequences: removal, and the bucket chains a list of pushes leads to. */
module HashLists {

  predicate NoDup<T(==)>(s: seq<T>) {
    forall i, j :: 0 <= i < j < |s| ==> s[i] != s[j]
  }

  /** The place of an element, or the length. */
  function IndexOf<T(==)>(s: seq<T>, x: T): (i: nat)
    ensures i <= |s| && (i < |s| ==> s[i] == x) && x !in s[..i] && (x in s <==> i < |s|)
  {
    if s == [] then 0 else if s[0] == x then 0
    else
      var i := IndexOf(s[1..], x);
      assert s[..i + 1] == [s[0]] + s[1..][..i];
      i + 1
  }

  function Remove<T(==)>(s: seq<T>, x: T): seq<T> {
    var i := IndexOf(s, x);
    if i == |s| then s else s[..i] + s[i + 1..]
  }

  lemma IndexIs<T>(s: seq<T>, i: nat)
    requires NoDup(s) && i < |s|
    ensures IndexOf(s, s[i]) == i
  {
    var k := IndexOf(s, s[i]);
    assert forall j :: 0 <= j < k ==> s[j] == s[..k][j];
  }

  lemma RemoveIs<T>(s: seq<T>, i: nat)
    requires NoDup(s) && i < |s|
    ensures Remove(s, s[i]) == s[..i] + s[i + 1..] && NoDup(Remove(s, s[i]))
  {
    IndexIs(s, i);
  }

  lemma RemoveMember<T>(s: seq<T>, i: nat, x: T)
    requires NoDup(s) && i < |s|
    ensures x in Remove(s, s[i]) <==> x in s && x != s[i]
  {
    RemoveIs(s, i);
    var r := s[..i] + s[i + 1..];
    if x in s && x != s[i] {
      var k :| 0 <= k < |s| && s[k] == x;
      assert r[if k < i then k else k - 1] == x;
    }
  }

  lemma IndexOfCons<T>(h: T, t: seq<T>, x: T)
    ensures IndexOf([h] + t, x) == if h == x then 0 else IndexOf(t, x) + 1
  {
    assert ([h] + t)[1..] == t;
  }

  lemma RemoveCons<T>(h: T, t: seq<T>, x: T)
    ensures Remove([h] + t, x) == if h == x then t else [h] + Remove(t, x)
  {
    IndexOfCons(h, t, x);
    var i := IndexOf(t, x);
    hide IndexOf;
    var s := [h] + t;
    if h == x {
      assert s[..0] + s[1..] == t;
    } else if i < |t| {
      assert s[..i + 1] == [h] + t[..i];
      assert s[i + 2..] == t[i + 1..];
      assert [h] + t[..i] + t[i + 1..] == [h] + (t[..i] + t[i + 1..]);
    }
  }

  /* ---- Chains: the elements of one bucket, the last one pushed first ---- */

  function ChainFor<T>(pushed: seq<T>, bucket: T -> nat, b: nat): seq<T>
    decreases |pushed|
  {
    if pushed == [] then []
    else
      var last, before := pushed[|pushed| - 1], ChainFor(pushed[..|pushed| - 1], bucket, b);
      if bucket(last) == b then [last] + before else before
  }

  lemma ChainPush<T>(pushed: seq<T>, bucket: T -> nat, b: nat, x: T)
    ensures ChainFor(pushed + [x], bucket, b)
            == if bucket(x) == b then [x] + ChainFor(pushed, bucket, b) else ChainFor(pushed, bucket, b)
  {
    assert (pushed + [x])[..|pushed|] == pushed;
  }

  lemma {:induction false} ChainMember<T>(pushed: seq<T>, bucket: T -> nat, b: nat, x: T)
    ensures x in ChainFor(pushed, bucket, b) <==> x in pushed && bucket(x) == b
    decreases |pushed|
  {
    if pushed != [] {
      var front, last := pushed[..|pushed| - 1], pushed[|pushed| - 1];
      assert pushed == front + [last];
      ChainMember(front, bucket, b, x);
    }
  }

  lemma {:induction false} ChainNoDup<T>(pushed: seq<T>, bucket: T -> nat, b: nat)
    requires NoDup(pushed)
    ensures NoDup(ChainFor(pushed, bucket, b))
    decreases |pushed|
  {
    if pushed != [] {
      var front, last := pushed[..|pushed| - 1], pushed[|pushed| - 1];
      ChainNoDup(front, bucket, b);
      ChainMember(front, bucket, b, last);
      assert last !in front;
    }
  }

  /** Removing an element from the pushes removes it from its chain and leaves the others. */
  lemma {:induction false} ChainRemove<T>(pushed: seq<T>, bucket: T -> nat, b: nat, x: T)
    requires NoDup(pushed) && x in pushed
    ensures ChainFor(Remove(pushed, x), bucket, b)
            == if bucket(x) == b then Remove(ChainFor(pushed, bucket, b), x) else ChainFor(pushed, bucket, b)
    decreases |pushed|
  {
    hide *;
    var front, last := pushed[..|pushed| - 1], pushed[|pushed| - 1];
    assert pushed == front + [last];
    var chain := ChainFor(front, bucket, b);
    ChainPush(front, bucket, b, last);
    RemoveLast(front, last, x);
    RemoveCons(last, chain, x);
    if x != last {
      assert x in front;
      ChainRemove(front, bucket, b, x);
      ChainPush(Remove(front, x), bucket, b, last);
    }
  }

  lemma RemoveLast<T>(front: seq<T>, last: T, x: T)
    requires NoDup(front + [last])
    ensures NoDup(front)
    ensures x == last ==> Remove(front + [last], x) == front
    ensures x in front ==> Remove(front + [last], x) == Remove(front, x) + [last]
  {
    NoDupFront(front, last);
    var whole := front + [last];
    if x == last {
      RemoveIs(whole, |front|);
      assert whole[..|front|] + whole[|front| + 1..] == front;
    }
    if x in front {
      var i := IndexOf(front, x);
      RemoveIs(front, i);
      RemoveIs(whole, i);
      hide IndexOf, NoDup, Remove;
      assert whole[..i] == front[..i] && whole[i + 1..] == front[i + 1..] + [last];
    }
  }

  lemma NoDupFront<T>(front: seq<T>, last: T)
    requires NoDup(front + [last])
    ensures NoDup(front)
  {
    var whole := front + [last];
    forall i, j | 0 <= i < j < |front| ensures front[i] != front[j] {
      assert front[i] == whole[i] && front[j] == whole[j];
    }
  }

  /** The chains one after the other. */
  function Flat<T>(pushed: seq<T>, bucket: T -> nat, n: nat): seq<T> {
    if n == 0 then [] else Flat(pushed, bucket, n - 1) + ChainFor(pushed, bucket, n - 1)
  }

  lemma {:induction false} FlatMember<T>(pushed: seq<T>, bucket: T -> nat, n: nat, x: T)
    ensures x in Flat(pushed, bucket, n) <==> x in pushed && bucket(x) < n
  {
    if n > 0 {
      FlatMember(pushed, bucket, n - 1, x);
      ChainMember(pushed, bucket, n - 1, x);
    }
  }

  lemma FlatApart<T>(pushed: seq<T>, bucket: T -> nat, n: nat, i: nat)
    requires i < |Flat(pushed, bucket, n)|
    ensures Flat(pushed, bucket, n)[i] !in ChainFor(pushed, bucket, n)
  {
    var x := Flat(pushed, bucket, n)[i];
    FlatMember(pushed, bucket, n, x);
    ChainMember(pushed, bucket, n, x);
    assert x in Flat(pushed, bucket, n);
  }

  lemma {:induction false} FlatNoDup<T>(pushed: seq<T>, bucket: T -> nat, n: nat)
    requires NoDup(pushed)
    ensures NoDup(Flat(pushed, bucket, n))
  {
    if n > 0 {
      var before := Flat(pushed, bucket, n - 1);
      FlatNoDup(pushed, bucket, n - 1);
      ChainNoDup(pushed, bucket, n - 1);
      forall i | 0 <= i < |before| ensures before[i] !in ChainFor(pushed, bucket, n - 1) {
        FlatApart(pushed, bucket, n - 1, i);
      }
      NoDupConcat(before, ChainFor(pushed, bucket, n - 1));
    }
  }

  lemma NoDupConcat<T>(a: seq<T>, b: seq<T>)
    requires NoDup(a) && NoDup(b) && forall i :: 0 <= i < |a| ==> a[i] !in b
    ensures NoDup(a + b)
  {
    forall i, j | 0 <= i < j < |a + b| ensures (a + b)[i] != (a + b)[j] {
      assert i < |a| ==> (a + b)[i] in a;
      assert j >= |a| ==> (a + b)[j] in b;
    }
  }

  lemma RestMembers<T>(a: seq<T>, b: seq<T>, i: nat)
    requires NoDup(a) && NoDup(b) && a != [] && i < |b| && b[i] == a[0]
    requires (forall i :: 0 <= i < |a| ==> a[i] in b) && (forall i :: 0 <= i < |b| ==> b[i] in a)
    ensures forall k :: 0 <= k < |a[1..]| ==> a[1..][k] in Remove(b, a[0])
    ensures forall k :: 0 <= k < |Remove(b, a[0])| ==> Remove(b, a[0])[k] in a[1..]
    ensures |Remove(b, a[0])| == |b| - 1 && NoDup(Remove(b, a[0]))
  {
    var c := Remove(b, a[0]);
    forall k | 0 <= k < |a[1..]| ensures a[1..][k] in c {
      assert a[k + 1] in b;
      RemoveMember(b, i, a[k + 1]);
    }
    RemoveIs(b, i);
    forall k | 0 <= k < |c| ensures c[k] in a[1..] {
      RemoveMember(b, i, c[k]);
      assert c[k] == b[if k < i then k else k + 1];
      assert a == [a[0]] + a[1..];
    }
  }

  lemma SomeOutside<T>(a: seq<T>, b: seq<T>)
    ensures a == [] && b != [] ==> exists i :: 0 <= i < |b| && b[i] !in a
  {
    if a == [] && b != [] {
      assert b[0] !in a;
    }
  }

  lemma RestNoDup<T>(a: seq<T>)
    requires NoDup(a) && a != []
    ensures NoDup(a[1..])
  {
    var rest := a[1..];
    forall i, j | 0 <= i < j < |rest| ensures rest[i] != rest[j] {
      assert rest[i] == a[i + 1] && rest[j] == a[j + 1];
    }
  }

  /** Two lists without duplicates that hold the same elements are equally long. */
  lemma {:induction false} SameLength<T>(a: seq<T>, b: seq<T>)
    requires NoDup(a) && NoDup(b)
    requires (forall i :: 0 <= i < |a| ==> a[i] in b) && (forall i :: 0 <= i < |b| ==> b[i] in a)
    ensures |a| == |b|
    decreases |a|
  {
    if a == [] {
      SomeOutside(a, b);
    } else {
      assert a[0] in b;
      var i := IndexOf(b, a[0]);
      RestMembers(a, b, i);
      RestNoDup(a);
      SameLength(a[1..], Remove(b, a[0]));
    }
  }

  /** HASH_FSCK's count over all buckets. */
  function CountAll<T>(pushed: seq<T>, bucket: T -> nat, n: nat): nat {
    if n == 0 then 0 else CountAll(pushed, bucket, n - 1) + |ChainFor(pushed, bucket, n - 1)|
  }

  lemma {:induction false} CountIsFlat<T>(pushed: seq<T>, bucket: T -> nat, n: nat)
    ensures CountAll(pushed, bucket, n) == |Flat(pushed, bucket, n)|
  {
    if n > 0 { CountIsFlat(pushed, bucket, n - 1); }
  }

  /** The counts of all buckets add up to the number of elements pushed. */
  lemma CountIsLength<T>(pushed: seq<T>, bucket: T -> nat, n: nat)
    requires NoDup(pushed) && forall i :: 0 <= i < |pushed| ==> bucket(pushed[i]) < n
    ensures CountAll(pushed, bucket, n) == |pushed|
  {
    var flat := Flat(pushed, bucket, n);
    FlatNoDup(pushed, bucket, n);
    forall i | 0 <= i < |flat| ensures flat[i] in pushed {
      FlatMember(pushed, bucket, n, flat[i]);
      assert flat[i] in flat;
    }
    forall i | 0 <= i < |pushed| ensures pushed[i] in flat { FlatMember(pushed, bucket, n, pushed[i]); }
    SameLength(flat, pushed);
    CountIsFlat(pushed, bucket, n);
  }
}
