/** The bottom-up mergesort of HASH_SRT on sequences: passes that merge neighbouring runs of doubling length.

    The result is sorted, holds the same elements, and keeps the order of elements that compare equal. */
module HashSortSpec {
  import opened HashLists
  import opened UtHash

  predicate Leq(cmp: (Key, Key) -> int, x: Node, y: Node) {
    cmp(x.key, y.key) <= 0
  }

  /** The comparison is total and transitive. */
  ghost predicate Preorder(cmp: (Key, Key) -> int) {
    && (forall x, y :: cmp(x, y) <= 0 || cmp(y, x) <= 0)
    && (forall x, y, z :: cmp(x, y) <= 0 && cmp(y, z) <= 0 ==> cmp(x, z) <= 0)
  }

  function Merge(a: seq<Node>, b: seq<Node>, cmp: (Key, Key) -> int): (m: seq<Node>)
    ensures |m| == |a| + |b|
  {
    if a == [] then b
    else if b == [] then a
    else if Leq(cmp, a[0], b[0]) then [a[0]] + Merge(a[1..], b, cmp)
    else [b[0]] + Merge(a, b[1..], cmp)
  }

  function Least(x: nat, y: nat): (m: nat)
    ensures m <= x && m <= y && (m == x || m == y)
  {
    if x < y then x else y
  }

  /** One pass: runs of `size` elements are merged in pairs. */
  function Pass(s: seq<Node>, size: nat, cmp: (Key, Key) -> int): (r: seq<Node>)
    requires size > 0
    ensures |r| == |s|
  {
    if s == [] then []
    else
      var i := Least(size, |s|);
      var j := Least(2 * size, |s|);
      Merge(s[..i], s[i..j], cmp) + Pass(s[j..], size, cmp)
  }

  /** The number of merges of a pass: pairs of runs, rounded up. */
  function Merges(length: nat, size: nat): nat
    requires size > 0
  {
    if length == 0 then 0 else 1 + Merges(length - Least(2 * size, length), size)
  }

  /** Passes with doubling size until one pass needs a single merge. */
  function Sort(s: seq<Node>, size: nat, cmp: (Key, Key) -> int): seq<Node>
    requires size > 0
    decreases Merges(|s|, size)
  {
    MergesHalve(|s|, size);
    if Merges(|s|, size) <= 1 then Pass(s, size, cmp) else Sort(Pass(s, size, cmp), 2 * size, cmp)
  }

  /** Doubling the size halves the number of merges, rounded up. */
  lemma {:induction false} MergesHalve(length: nat, size: nat)
    requires size > 0
    ensures Merges(length, 2 * size) == (Merges(length, size) + 1) / 2
    decreases length
  {
    if length > 4 * size {
      var rest := length - 2 * size;
      assert Merges(length, size) == 1 + Merges(rest, size);
      assert Merges(rest, size) == 1 + Merges(rest - 2 * size, size);
      MergesHalve(rest - 2 * size, size);
    } else if length > 2 * size {
      assert Merges(length - 2 * size, size) == 1 + Merges(0, size);
    }
  }

  /* ---- Sorted ---- */

  ghost predicate Sorted(s: seq<Node>, cmp: (Key, Key) -> int) {
    forall i, j :: 0 <= i < j < |s| ==> Leq(cmp, s[i], s[j])
  }

  /** Every run of `size` elements is sorted. */
  ghost predicate RunsSorted(s: seq<Node>, size: nat, cmp: (Key, Key) -> int)
    requires size > 0
  {
    s != [] ==> Sorted(s[..Least(size, |s|)], cmp) && RunsSorted(s[Least(size, |s|)..], size, cmp)
  }

  lemma {:induction false} MergeMember(a: seq<Node>, b: seq<Node>, cmp: (Key, Key) -> int, i: nat)
    requires i < |a| + |b|
    ensures Merge(a, b, cmp)[i] in a || Merge(a, b, cmp)[i] in b
    decreases |a| + |b|
  {
    if a == [] || b == [] {
      assert Merge(a, b, cmp)[i] in Merge(a, b, cmp);
    } else if i > 0 {
      if Leq(cmp, a[0], b[0]) {
        MergeMember(a[1..], b, cmp, i - 1);
      } else {
        MergeMember(a, b[1..], cmp, i - 1);
      }
    }
  }

  lemma {:induction false} MergeSorted(a: seq<Node>, b: seq<Node>, cmp: (Key, Key) -> int)
    requires Preorder(cmp) && Sorted(a, cmp) && Sorted(b, cmp)
    ensures Sorted(Merge(a, b, cmp), cmp)
    decreases |a| + |b|
  {
    if a != [] && b != [] {
      if Leq(cmp, a[0], b[0]) {
        MergeSorted(a[1..], b, cmp);
        SortedCons(a[0], a[1..], b, cmp);
      } else {
        MergeSorted(a, b[1..], cmp);
        SortedCons(b[0], a, b[1..], cmp);
      }
    }
  }

  lemma SortedCons(h: Node, a: seq<Node>, b: seq<Node>, cmp: (Key, Key) -> int)
    requires Sorted(Merge(a, b, cmp), cmp)
    requires forall i :: 0 <= i < |a| ==> Leq(cmp, h, a[i])
    requires forall i :: 0 <= i < |b| ==> Leq(cmp, h, b[i])
    ensures Sorted([h] + Merge(a, b, cmp), cmp)
  {
    var m := Merge(a, b, cmp);
    forall i | 0 <= i < |m| ensures Leq(cmp, h, m[i]) {
      MergeMember(a, b, cmp, i);
    }
  }

  lemma RunsUnfold(s: seq<Node>, size: nat, cmp: (Key, Key) -> int)
    requires size > 0 && s != []
    ensures RunsSorted(s, size, cmp)
            == (Sorted(s[..Least(size, |s|)], cmp) && RunsSorted(s[Least(size, |s|)..], size, cmp))
  {
    hide Sorted;
  }

  lemma RunsTail(s: seq<Node>, size: nat, cmp: (Key, Key) -> int)
    requires size > 0 && s != [] && RunsSorted(s, size, cmp)
    ensures Sorted(s[..Least(size, |s|)], cmp) && Sorted(s[Least(size, |s|)..Least(2 * size, |s|)], cmp)
    ensures RunsSorted(s[Least(2 * size, |s|)..], size, cmp)
  {
    hide RunsSorted, Sorted, Least;
    var t := s[Least(size, |s|)..];
    RunsUnfold(s, size, cmp);
    SecondRun(s, size);
    if t != [] {
      RunsUnfold(t, size, cmp);
    } else {
      NothingSorted(cmp);
    }
  }

  lemma SecondRun(s: seq<Node>, size: nat)
    requires size > 0
    ensures var t := s[Least(size, |s|)..];
            && t[..Least(size, |t|)] == s[Least(size, |s|)..Least(2 * size, |s|)]
            && t[Least(size, |t|)..] == s[Least(2 * size, |s|)..]
  {
  }

  lemma NothingSorted(cmp: (Key, Key) -> int)
    ensures Sorted([], cmp)
  {
  }

  /** A pass over sorted runs leaves sorted runs of twice the length. */
  lemma {:induction false} PassSorts(s: seq<Node>, size: nat, cmp: (Key, Key) -> int)
    requires size > 0 && Preorder(cmp) && RunsSorted(s, size, cmp)
    ensures RunsSorted(Pass(s, size, cmp), 2 * size, cmp)
    decreases |s|
  {
    hide Merge, Sorted, Preorder;
    if s != [] {
      var i, j := Least(size, |s|), Least(2 * size, |s|);
      RunsTail(s, size, cmp);
      MergeSorted(s[..i], s[i..j], cmp);
      PassSorts(s[j..], size, cmp);
      var m, rest := Merge(s[..i], s[i..j], cmp), Pass(s[j..], size, cmp);
      var r := m + rest;
      assert |m| == j;
      assert r[..j] == m && r[j..] == rest;
    }
  }

  lemma {:induction false} RunsOfOne(s: seq<Node>, cmp: (Key, Key) -> int)
    ensures RunsSorted(s, 1, cmp)
    decreases |s|
  {
    if s != [] { RunsOfOne(s[1..], cmp); }
  }

  /* ---- The same elements, and stable ---- */

  /** The elements that compare equal to `k`, in order. */
  function EqualTo(s: seq<Node>, k: Key, cmp: (Key, Key) -> int): seq<Node> {
    if s == [] then []
    else (if cmp(s[0].key, k) <= 0 && cmp(k, s[0].key) <= 0 then [s[0]] else []) + EqualTo(s[1..], k, cmp)
  }

  lemma {:induction false} EqualToConcat(a: seq<Node>, b: seq<Node>, k: Key, cmp: (Key, Key) -> int)
    ensures EqualTo(a + b, k, cmp) == EqualTo(a, k, cmp) + EqualTo(b, k, cmp)
  {
    if a == [] {
      assert a + b == b;
    } else {
      assert (a + b)[1..] == a[1..] + b;
      EqualToConcat(a[1..], b, k, cmp);
    }
  }

  /** Everything in a list is larger than `k`. */
  lemma {:induction false} NoneEqual(s: seq<Node>, k: Key, cmp: (Key, Key) -> int)
    requires forall i :: 0 <= i < |s| ==> !(cmp(s[i].key, k) <= 0)
    ensures EqualTo(s, k, cmp) == []
  {
    if s != [] { NoneEqual(s[1..], k, cmp); }
  }

  predicate InClass(x: Node, k: Key, cmp: (Key, Key) -> int) {
    cmp(x.key, k) <= 0 && cmp(k, x.key) <= 0
  }

  lemma EqualToCons(h: Node, t: seq<Node>, k: Key, cmp: (Key, Key) -> int)
    ensures EqualTo([h] + t, k, cmp) == (if InClass(h, k, cmp) then [h] else []) + EqualTo(t, k, cmp)
  {
    assert ([h] + t)[1..] == t;
  }

  /** If the second list's head goes first and belongs to a class, the first list has nothing of that class. */
  lemma FirstHasNone(a: seq<Node>, h: Node, k: Key, cmp: (Key, Key) -> int)
    requires Preorder(cmp) && Sorted(a, cmp) && a != [] && !Leq(cmp, a[0], h) && InClass(h, k, cmp)
    ensures EqualTo(a, k, cmp) == []
  {
    forall i | 0 <= i < |a| ensures !(cmp(a[i].key, k) <= 0) {
      assert i > 0 ==> Leq(cmp, a[0], a[i]);
    }
    NoneEqual(a, k, cmp);
  }

  lemma SortedTail(a: seq<Node>, cmp: (Key, Key) -> int)
    requires Sorted(a, cmp) && a != []
    ensures Sorted(a[1..], cmp)
  {
  }

  lemma MergeUnfold(a: seq<Node>, b: seq<Node>, cmp: (Key, Key) -> int)
    requires a != [] && b != []
    ensures Merge(a, b, cmp)
            == if Leq(cmp, a[0], b[0]) then [a[0]] + Merge(a[1..], b, cmp) else [b[0]] + Merge(a, b[1..], cmp)
  {
  }

  lemma {:induction false} MergeStable(a: seq<Node>, b: seq<Node>, k: Key, cmp: (Key, Key) -> int)
    requires Preorder(cmp) && Sorted(a, cmp)
    ensures EqualTo(Merge(a, b, cmp), k, cmp) == EqualTo(a, k, cmp) + EqualTo(b, k, cmp)
    decreases |a| + |b|
  {
    hide EqualTo, Preorder, InClass, Merge, Sorted, Leq;
    if a == [] || b == [] {
      MergeOne(a, b, cmp);
      EqualToConcat(a, b, k, cmp);
    } else {
      MergeUnfold(a, b, cmp);
      SortedTail(a, cmp);
      assert a == [a[0]] + a[1..] && b == [b[0]] + b[1..];
      if Leq(cmp, a[0], b[0]) {
        MergeStable(a[1..], b, k, cmp);
        EqualToCons(a[0], Merge(a[1..], b, cmp), k, cmp);
        EqualToCons(a[0], a[1..], k, cmp);
      } else {
        MergeStable(a, b[1..], k, cmp);
        EqualToCons(b[0], Merge(a, b[1..], cmp), k, cmp);
        EqualToCons(b[0], b[1..], k, cmp);
        if InClass(b[0], k, cmp) {
          FirstHasNone(a, b[0], k, cmp);
        }
      }
    }
  }

  lemma MergeOne(a: seq<Node>, b: seq<Node>, cmp: (Key, Key) -> int)
    requires a == [] || b == []
    ensures Merge(a, b, cmp) == a + b
  {
    assert a + b == if a == [] then b else a;
  }

  lemma PassUnfold(s: seq<Node>, size: nat, cmp: (Key, Key) -> int)
    requires size > 0
    ensures Pass(s, size, cmp)
            == if s == [] then []
               else Merge(s[..Least(size, |s|)], s[Least(size, |s|)..Least(2 * size, |s|)], cmp)
                    + Pass(s[Least(2 * size, |s|)..], size, cmp)
  {
    hide Merge;
  }

  lemma {:induction false} PassStable(s: seq<Node>, size: nat, k: Key, cmp: (Key, Key) -> int)
    requires size > 0 && Preorder(cmp) && RunsSorted(s, size, cmp)
    ensures EqualTo(Pass(s, size, cmp), k, cmp) == EqualTo(s, k, cmp)
    decreases |s|
  {
    hide Merge, Sorted, Preorder, EqualTo, RunsSorted, Pass;
    PassUnfold(s, size, cmp);
    if s != [] {
      var i, j := Least(size, |s|), Least(2 * size, |s|);
      RunsTail(s, size, cmp);
      MergeStable(s[..i], s[i..j], k, cmp);
      PassStable(s[j..], size, k, cmp);
      EqualToConcat(Merge(s[..i], s[i..j], cmp), Pass(s[j..], size, cmp), k, cmp);
      EqualToConcat(s[..i], s[i..j], k, cmp);
      EqualToConcat(s[..i] + s[i..j], s[j..], k, cmp);
      assert s == s[..i] + s[i..j] + s[j..];
    }
  }

  lemma {:induction false} MergePermutes(a: seq<Node>, b: seq<Node>, cmp: (Key, Key) -> int)
    ensures multiset(Merge(a, b, cmp)) == multiset(a) + multiset(b)
    decreases |a| + |b|
  {
    hide Merge, Leq;
    if a == [] || b == [] {
      MergeOne(a, b, cmp);
    } else {
      MergeUnfold(a, b, cmp);
      assert a == [a[0]] + a[1..] && b == [b[0]] + b[1..];
      if Leq(cmp, a[0], b[0]) {
        MergePermutes(a[1..], b, cmp);
      } else {
        MergePermutes(a, b[1..], cmp);
      }
    }
  }

  lemma {:induction false} PassPermutes(s: seq<Node>, size: nat, cmp: (Key, Key) -> int)
    requires size > 0
    ensures multiset(Pass(s, size, cmp)) == multiset(s)
    decreases |s|
  {
    hide Merge;
    if s != [] {
      var i, j := Least(size, |s|), Least(2 * size, |s|);
      MergePermutes(s[..i], s[i..j], cmp);
      PassPermutes(s[j..], size, cmp);
      assert s == s[..i] + s[i..j] + s[j..];
    }
  }

  lemma OneMerge(length: nat, size: nat)
    requires size > 0 && Merges(length, size) <= 1
    ensures length <= 2 * size
  {
  }

  /** The sort is a sorted, stable permutation. */
  lemma {:induction false} SortIsStable(s: seq<Node>, size: nat, k: Key, cmp: (Key, Key) -> int)
    requires size > 0 && Preorder(cmp) && RunsSorted(s, size, cmp)
    ensures Sorted(Sort(s, size, cmp), cmp)
    ensures multiset(Sort(s, size, cmp)) == multiset(s)
    ensures EqualTo(Sort(s, size, cmp), k, cmp) == EqualTo(s, k, cmp)
    decreases Merges(|s|, size)
  {
    var p := Pass(s, size, cmp);
    PassSorts(s, size, cmp);
    PassStable(s, size, k, cmp);
    PassPermutes(s, size, cmp);
    hide Preorder, EqualTo, Pass;
    if Merges(|s|, size) <= 1 {
      OneMerge(|s|, size);
      assert p != [] ==> p[..|p|] == p;
    } else {
      MergesHalve(|s|, size);
      SortIsStable(p, 2 * size, k, cmp);
    }
  }

  /** HASH_SRT starts with runs of one element, so its result is sorted, stable, and the same elements. */
  lemma SortFromOne(s: seq<Node>, k: Key, cmp: (Key, Key) -> int)
    requires Preorder(cmp)
    ensures Sorted(Sort(s, 1, cmp), cmp)
    ensures multiset(Sort(s, 1, cmp)) == multiset(s)
    ensures EqualTo(Sort(s, 1, cmp), k, cmp) == EqualTo(s, k, cmp)
  {
    RunsOfOne(s, cmp);
    SortIsStable(s, 1, k, cmp);
  }
}
