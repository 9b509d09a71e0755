/** HASH_SRT: the mergesort on the next and prev links of the application-ordered list.

    The links are rewritten while the runs are still being read; the predicates below say which of them
    can still be relied on. The method is proved to give exactly `Sort` of the old order. */
module HashSort {
  import opened HashLists
  import opened UtHash
  import opened HashSortSpec

  /** The elements follow each other; nothing is said of the last one's next. */
  ghost predicate Links(s: seq<Node>)
    reads s`next
  {
    forall i :: 0 <= i < |s| - 1 ==> s[i].next == s[i + 1]
  }

  ghost predicate ToEnd(s: seq<Node>)
    reads s`next
  {
    Links(s) && (s != [] ==> s[|s| - 1].next == null)
  }

  function LastOf(s: seq<Node>): Node? {
    if s == [] then null else s[|s| - 1]
  }

  /** The output list so far, with its ends. */
  ghost predicate OutOk(out: seq<Node>, list: Node?, tail: Node?)
    reads out`next, out`prev
  {
    && list == FirstOf(out) && tail == LastOf(out) && Links(out)
    && forall i :: 0 <= i < |out| ==> out[i].prev == Before(out, i)
  }

  /** An element joins the output list. */
  method Emit(e: Node, list: Node?, tail: Node?, ghost out: seq<Node>) returns (newList: Node?)
    requires OutOk(out, list, tail) && e !in out && NoDup(out)
    modifies out`next, e`prev
    ensures OutOk(out + [e], newList, e)
  {
    if tail != null {
      tail.next := e;
      newList := list;
    } else {
      newList := e;
    }
    e.prev := tail;
  }

  /** The state of a merge: output, what is left of the first run, and everything from `q` on. */
  ghost predicate MergeAt(out: seq<Node>, a: seq<Node>, r: seq<Node>, list: Node?, tail: Node?, p: Node?, q: Node?)
    reads out`next, out`prev, a`next, r`next
  {
    && NoDup(out + a + r) && OutOk(out, list, tail) && Links(a) && ToEnd(r)
    && (a != [] ==> p == a[0]) && q == FirstOf(r)
  }

  /** What the merge will add to the output, and what it leaves, when `n` more elements may be taken from `r`. */
  function Merging(a: seq<Node>, r: seq<Node>, n: nat, cmp: (Key, Key) -> int): seq<Node> {
    Merge(a, r[..Least(n, |r|)], cmp)
  }

  function Leftover(r: seq<Node>, n: nat): seq<Node> {
    r[Least(n, |r|)..]
  }

  /** Whether the next element comes from the first run. */
  predicate TakeFirst(a: seq<Node>, r: seq<Node>, n: nat, cmp: (Key, Key) -> int) {
    a != [] && (n == 0 || r == [] || Leq(cmp, a[0], r[0]))
  }

  lemma TakesFirst(a: seq<Node>, r: seq<Node>, n: nat, cmp: (Key, Key) -> int)
    requires TakeFirst(a, r, n, cmp)
    ensures Merging(a, r, n, cmp) == [a[0]] + Merging(a[1..], r, n, cmp)
  {
    var b := r[..Least(n, |r|)];
    if b != [] {
      MergeUnfold(a, b, cmp);
    } else {
      assert a == [a[0]] + a[1..];
    }
  }

  lemma TakesSecond(a: seq<Node>, r: seq<Node>, n: nat, cmp: (Key, Key) -> int)
    requires !TakeFirst(a, r, n, cmp) && n > 0 && r != []
    ensures Merging(a, r, n, cmp) == [r[0]] + Merging(a, r[1..], n - 1, cmp)
    ensures Leftover(r, n) == Leftover(r[1..], n - 1)
  {
    var b := r[..Least(n, |r|)];
    assert b[1..] == r[1..][..Least(n - 1, |r[1..]|)];
    if a != [] {
      MergeUnfold(a, b, cmp);
    } else {
      assert b == [b[0]] + b[1..];
    }
  }

  /** The first element of the first run goes out. */
  method EmitFirst(ghost out: seq<Node>, ghost a: seq<Node>, ghost r: seq<Node>, list: Node?, tail: Node?, p: Node,
      q: Node?)
    returns (newList: Node?, newP: Node?)
    requires MergeAt(out, a, r, list, tail, p, q) && a != []
    modifies out`next, p`prev
    ensures MergeAt(out + [a[0]], a[1..], r, newList, p, newP, q)
  {
    ghost var e := a[0];
    Shift(out, a, r);
    newP := p.next;
    newList := Emit(p, list, tail, out);
  }

  /** Moving the boundary between output and first run keeps everything distinct. */
  lemma Shift(out: seq<Node>, a: seq<Node>, r: seq<Node>)
    requires NoDup(out + a + r) && a != []
    ensures NoDup(out + [a[0]] + a[1..] + r) && NoDup(out) && a[0] !in out
    ensures (forall i :: 0 <= i < |a| ==> a[i] !in out) && (forall i :: 0 <= i < |r| ==> r[i] !in out && r[i] != a[0])
  {
    var s := out + a + r;
    assert out + [a[0]] + a[1..] + r == s;
    assert forall i :: 0 <= i < |out| ==> out[i] == s[i];
    assert forall i :: 0 <= i < |a| ==> a[i] == s[|out| + i];
    assert forall i :: 0 <= i < |r| ==> r[i] == s[|out| + |a| + i];
  }

  /** The first element from `q` on goes out. */
  method EmitSecond(ghost out: seq<Node>, ghost a: seq<Node>, ghost r: seq<Node>, list: Node?, tail: Node?, p: Node?,
      q: Node)
    returns (newList: Node?, newQ: Node?)
    requires MergeAt(out, a, r, list, tail, p, q) && r != []
    modifies out`next, q`prev
    ensures MergeAt(out + [r[0]], a, r[1..], newList, q, p, newQ)
  {
    ShiftSecond(out, a, r);
    newQ := q.next;
    newList := Emit(q, list, tail, out);
  }

  lemma ShiftSecond(out: seq<Node>, a: seq<Node>, r: seq<Node>)
    requires NoDup(out + a + r) && r != []
    ensures NoDup(out + [r[0]] + a + r[1..]) && NoDup(out) && r[0] !in out
    ensures (forall i :: 0 <= i < |a| ==> a[i] !in out && a[i] != r[0]) && (forall i :: 0 <= i < |r| ==> r[i] !in out)
  {
    var s, t := out + a + r, out + [r[0]] + a + r[1..];
    forall i, j | 0 <= i < j < |t| ensures t[i] != t[j] {
      assert t[i] == s[Place(|out|, |a|, i)] && t[j] == s[Place(|out|, |a|, j)];
    }
    PartsApart(out, a, r);
  }

  lemma PartsApart(out: seq<Node>, a: seq<Node>, r: seq<Node>)
    requires NoDup(out + a + r) && r != []
    ensures NoDup(out) && r[0] !in out
    ensures (forall i :: 0 <= i < |a| ==> a[i] !in out && a[i] != r[0]) && (forall i :: 0 <= i < |r| ==> r[i] !in out)
  {
    var s := out + a + r;
    assert forall i :: 0 <= i < |out| ==> out[i] == s[i];
    assert forall i :: 0 <= i < |a| ==> a[i] == s[|out| + i];
    assert forall i :: 0 <= i < |r| ==> r[i] == s[|out| + |a| + i];
  }

  /** Where an element was before the head of `r` moved in front of the first run. */
  function Place(outLen: nat, aLen: nat, i: nat): nat {
    if i < outLen then i else if i == outLen then outLen + aLen else if i <= outLen + aLen then i - 1 else i
  }

  ghost predicate Inside(s: seq<Node>, all: seq<Node>) {
    forall i :: 0 <= i < |s| ==> s[i] in all
  }

  /** The whole merge in progress: `whole` is what the output will be, `rest` what will be left. */
  ghost predicate Progress(out: seq<Node>, a: seq<Node>, r: seq<Node>, psize: nat, qsize: nat, all: seq<Node>,
                           whole: seq<Node>, rest: seq<Node>, cmp: (Key, Key) -> int)
  {
    && psize == |a| && whole == out + Merging(a, r, qsize, cmp) && rest == Leftover(r, qsize)
    && Inside(out, all) && Inside(a, all) && Inside(r, all)
  }

  lemma ProgressFirst(out: seq<Node>, a: seq<Node>, r: seq<Node>, psize: nat, qsize: nat, all: seq<Node>,
                      whole: seq<Node>, rest: seq<Node>, cmp: (Key, Key) -> int)
    requires Progress(out, a, r, psize, qsize, all, whole, rest, cmp) && TakeFirst(a, r, qsize, cmp)
    ensures Progress(out + [a[0]], a[1..], r, psize - 1, qsize, all, whole, rest, cmp) && a[0] in all
  {
    TakesFirst(a, r, qsize, cmp);
    hide Merging;
    assert out + ([a[0]] + Merging(a[1..], r, qsize, cmp)) == out + [a[0]] + Merging(a[1..], r, qsize, cmp);
  }

  lemma ProgressSecond(out: seq<Node>, a: seq<Node>, r: seq<Node>, psize: nat, qsize: nat, all: seq<Node>,
                       whole: seq<Node>, rest: seq<Node>, cmp: (Key, Key) -> int)
    requires Progress(out, a, r, psize, qsize, all, whole, rest, cmp)
    requires !TakeFirst(a, r, qsize, cmp) && qsize > 0 && r != []
    ensures Progress(out + [r[0]], a, r[1..], psize, qsize - 1, all, whole, rest, cmp) && r[0] in all
  {
    TakesSecond(a, r, qsize, cmp);
    hide Merging, Leftover;
    assert out + ([r[0]] + Merging(a, r[1..], qsize - 1, cmp)) == out + [r[0]] + Merging(a, r[1..], qsize - 1, cmp);
  }

  /** One turn of the merge loop. */
  method MergeStep(list: Node?, tail: Node?, p: Node?, q: Node?, psize: nat, qsize: nat, cmp: (Key, Key) -> int,
                   ghost out: seq<Node>, ghost a: seq<Node>, ghost r: seq<Node>, ghost all: seq<Node>,
                   ghost whole: seq<Node>, ghost rest: seq<Node>)
    returns (newList: Node?, newTail: Node, newP: Node?, newQ: Node?, newPsize: nat, newQsize: nat,
             ghost newOut: seq<Node>, ghost newA: seq<Node>, ghost newR: seq<Node>)
    requires MergeAt(out, a, r, list, tail, p, q) && Progress(out, a, r, psize, qsize, all, whole, rest, cmp)
    requires psize > 0 || (qsize > 0 && q != null)
    modifies all`next, all`prev
    ensures MergeAt(newOut, newA, newR, newList, newTail, newP, newQ)
    ensures Progress(newOut, newA, newR, newPsize, newQsize, all, whole, rest, cmp)
    ensures newPsize + newQsize < psize + qsize
  {
    assert |a| == psize && (a != [] ==> p == a[0]) && q == FirstOf(r);
    assert forall i :: 0 <= i < |out| ==> out[i] in all;
    if psize > 0 && (qsize == 0 || q == null || cmp(p.key, q.key) <= 0) {
      assert TakeFirst(a, r, qsize, cmp);
      hide MergeAt, Progress, TakeFirst;
      ProgressFirst(out, a, r, psize, qsize, all, whole, rest, cmp);
      newList, newP := EmitFirst(out, a, r, list, tail, p, q);
      newTail, newQ, newPsize, newQsize := p, q, psize - 1, qsize;
      newOut, newA, newR := out + [a[0]], a[1..], r;
    } else {
      assert !TakeFirst(a, r, qsize, cmp) && r != [];
      hide MergeAt, Progress, TakeFirst;
      ProgressSecond(out, a, r, psize, qsize, all, whole, rest, cmp);
      newList, newQ := EmitSecond(out, a, r, list, tail, p, q);
      newTail, newP, newPsize, newQsize := q, p, psize, qsize - 1;
      newOut, newA, newR := out + [r[0]], a, r[1..];
    }
  }

  /** The merge loop. */
  method MergeRuns(list: Node?, tail: Node?, p: Node?, q: Node?, psize: nat, insize: nat, cmp: (Key, Key) -> int,
                   ghost out: seq<Node>, ghost a: seq<Node>, ghost r: seq<Node>, ghost all: seq<Node>)
    returns (newList: Node?, newTail: Node?, newQ: Node?)
    requires MergeAt(out, a, r, list, tail, p, q) && psize == |a| && Inside(out, all) && Inside(a, all)
             && Inside(r, all)
    modifies all`next, all`prev
    ensures var newOut, rest := out + Merging(a, r, insize, cmp), Leftover(r, insize);
            && OutOk(newOut, newList, newTail) && ToEnd(rest) && newQ == FirstOf(rest) && NoDup(newOut + rest)
            && Inside(newOut, all) && Inside(rest, all)
  {
    newList, newTail, newQ := list, tail, q;
    var curP, curPsize, curQsize := p, psize, insize;
    ghost var curOut, curA, curR := out, a, r;
    ghost var whole, rest := out + Merging(a, r, insize, cmp), Leftover(r, insize);
    assert Progress(out, a, r, psize, insize, all, whole, rest, cmp);
    hide MergeAt, Progress, Merging, Leftover;
    while curPsize > 0 || (curQsize > 0 && newQ != null)
      invariant MergeAt(curOut, curA, curR, newList, newTail, curP, newQ)
      invariant Progress(curOut, curA, curR, curPsize, curQsize, all, whole, rest, cmp)
      decreases curPsize + curQsize
    {
      newList, newTail, curP, newQ, curPsize, curQsize, curOut, curA, curR
        := MergeStep(newList, newTail, curP, newQ, curPsize, curQsize, cmp, curOut, curA, curR, all, whole, rest);
    }
    MergeDone(curOut, curA, curR, curPsize, curQsize, all, whole, rest, cmp, newList, newTail, curP, newQ);
  }

  lemma MergeDone(out: seq<Node>, a: seq<Node>, r: seq<Node>, psize: nat, qsize: nat, all: seq<Node>, whole: seq<Node>,
                  rest: seq<Node>, cmp: (Key, Key) -> int, list: Node?, tail: Node?, p: Node?, q: Node?)
    requires MergeAt(out, a, r, list, tail, p, q) && Progress(out, a, r, psize, qsize, all, whole, rest, cmp)
    requires psize == 0 && (qsize == 0 || q == null)
    ensures OutOk(whole, list, tail) && ToEnd(rest) && q == FirstOf(rest) && NoDup(whole + rest)
    ensures Inside(whole, all) && Inside(rest, all)
  {
    assert Merging(a, r, qsize, cmp) == [] && rest == r;
    assert out + [] == out && out + a + r == out + r;
  }

  /* ---- One pass ---- */

  /** The for loop that looks for the second run. */
  method Advance(p: Node, insize: nat, ghost s: seq<Node>) returns (q: Node?, psize: nat)
    requires ToEnd(s) && s != [] && p == s[0] && insize > 0
    ensures psize == Least(insize, |s|) && q == FirstOf(s[psize..])
  {
    q, psize := p, 0;
    var i := 0;
    while i < insize
      invariant i <= insize && psize == i < |s| && q == s[i]
    {
      assert i < |s| - 1 ==> s[i].next == s[i + 1];
      psize := psize + 1;
      q := q.next;
      if q == null {
        assert psize == |s| && s[psize..] == [];
        return;
      }
      assert q == s[psize];
      i := i + 1;
    }
    assert s[psize..][0] == s[psize];
  }

  /** The state between two merges of a pass. */
  ghost predicate PassAt(out: seq<Node>, s: seq<Node>, list: Node?, tail: Node?, p: Node?)
    reads out`next, out`prev, s`next
  {
    NoDup(out + s) && OutOk(out, list, tail) && ToEnd(s) && p == FirstOf(s)
  }

  /** Output, the rest of the list, and what pass and count will come to. */
  ghost predicate PassProgress(out: seq<Node>, s: seq<Node>, all: seq<Node>, insize: nat, nmerges: nat,
      cmp: (Key, Key) -> int)
    requires insize > 0
  {
    && Inside(out, all) && Inside(s, all) && out + Pass(s, insize, cmp) == Pass(all, insize, cmp)
    && nmerges + Merges(|s|, insize) == Merges(|all|, insize)
  }

  /** The two runs at the front of a list. */
  lemma Runs(out: seq<Node>, s: seq<Node>, psize: nat, insize: nat, all: seq<Node>, nmerges: nat,
      cmp: (Key, Key) -> int)
    requires s != [] && insize > 0 && psize == Least(insize, |s|) && PassProgress(out, s, all, insize, nmerges, cmp)
    ensures var newOut, rest := out + Merging(s[..psize], s[psize..], insize, cmp), Leftover(s[psize..], insize);
            PassProgress(newOut, rest, all, insize, nmerges + 1, cmp) || !Inside(newOut, all) || !Inside(rest, all)
    ensures out + s[..psize] + s[psize..] == out + s && |Leftover(s[psize..], insize)| < |s|
    ensures Inside(s[..psize], all) && Inside(s[psize..], all)
  {
    hide Merging, Leftover, Pass, Inside, Merges;
    RunsPass(out, s, psize, insize, cmp);
    InsideCut(s, psize, all);
    assert s[..psize] + s[psize..] == s;
    assert out + s[..psize] + s[psize..] == out + (s[..psize] + s[psize..]);
  }

  lemma RunsPass(out: seq<Node>, s: seq<Node>, psize: nat, insize: nat, cmp: (Key, Key) -> int)
    requires s != [] && insize > 0 && psize == Least(insize, |s|)
    ensures var rest := Leftover(s[psize..], insize);
            && out + Merging(s[..psize], s[psize..], insize, cmp) + Pass(rest, insize, cmp)
               == out + Pass(s, insize, cmp)
            && |rest| < |s| && 1 + Merges(|rest|, insize) == Merges(|s|, insize)
  {
    hide Pass, Merges, Merge, Least;
    RunsBounds(s, insize);
    PassUnfold(s, insize, cmp);
    MergesUnfold(|s|, insize);
    SecondRun(s, insize);
    var j := Least(2 * insize, |s|);
    AppendAssoc(out, Merge(s[..psize], s[psize..j], cmp), Pass(s[j..], insize, cmp));
  }

  lemma AppendAssoc(a: seq<Node>, b: seq<Node>, c: seq<Node>)
    ensures a + b + c == a + (b + c)
  {
  }

  lemma RunsBounds(s: seq<Node>, size: nat)
    requires s != [] && size > 0
    ensures 0 < Least(size, |s|) <= Least(2 * size, |s|) <= |s|
    ensures Least(size, |s[Least(size, |s|)..]|) <= |s| - Least(size, |s|)
  {
  }

  lemma MergesUnfold(length: nat, size: nat)
    requires length > 0 && size > 0
    ensures Merges(length, size) == 1 + Merges(length - Least(2 * size, length), size)
  {
  }

  lemma InsideCut(s: seq<Node>, i: nat, all: seq<Node>)
    requires i <= |s| && Inside(s, all)
    ensures Inside(s[..i], all) && Inside(s[i..], all)
  {
  }

  /** The links of a list cut in two. */
  lemma CutLinks(s: seq<Node>, i: nat)
    requires ToEnd(s) && i <= |s|
    ensures Links(s[..i])
    ensures Links(s[i..])
    ensures s[i..] != [] ==> s[i..][|s| - i - 1].next == null
  {
    var l, r := s[..i], s[i..];
    forall k | 0 <= k < |l| - 1 ensures l[k].next == l[k + 1] {
      assert l[k] == s[k] && l[k + 1] == s[k + 1];
    }
    forall k | 0 <= k < |r| - 1 ensures r[k].next == r[k + 1] {
      assert r[k] == s[i + k] && r[k + 1] == s[i + k + 1];
    }
    assert r != [] ==> r[|r| - 1] == s[|s| - 1];
  }

  /** One turn of a pass: two runs are merged. */
  method PassStep(list: Node?, tail: Node?, p: Node, insize: nat, cmp: (Key, Key) -> int, ghost nmerges: nat,
                  ghost out: seq<Node>, ghost s: seq<Node>, ghost all: seq<Node>)
    returns (newList: Node?, newTail: Node?, newP: Node?, ghost newOut: seq<Node>, ghost newS: seq<Node>)
    requires insize > 0 && PassAt(out, s, list, tail, p) && PassProgress(out, s, all, insize, nmerges, cmp)
    modifies all`next, all`prev
    ensures PassAt(newOut, newS, newList, newTail, newP)
    ensures PassProgress(newOut, newS, all, insize, nmerges + 1, cmp) && |newS| < |s|
  {
    assert s != [] && p == s[0] && Inside(out, all);
    var q, psize := Advance(p, insize, s);
    Runs(out, s, psize, insize, all, nmerges, cmp);
    CutLinks(s, psize);
    hide Merging, Leftover, ToEnd, Links, OutOk, Inside, Pass, NoDup, Merges, Least;
    newList, newTail, newP := MergeRuns(list, tail, p, q, psize, insize, cmp, out, s[..psize], s[psize..], all);
    newOut := out + Merging(s[..psize], s[psize..], insize, cmp);
    newS := Leftover(s[psize..], insize);
  }

  /** A pass over the whole list. */
  method OnePass(first: Node?, insize: nat, cmp: (Key, Key) -> int, ghost all: seq<Node>)
    returns (list: Node?, tail: Node?, nmerges: nat)
    requires insize > 0 && ToEnd(all) && first == FirstOf(all) && NoDup(all)
    modifies all`next, all`prev
    ensures OutOk(Pass(all, insize, cmp), list, tail) && ToEnd(Pass(all, insize, cmp))
            && nmerges == Merges(|all|, insize)
    ensures NoDup(Pass(all, insize, cmp)) && Inside(Pass(all, insize, cmp), all)
  {
    hide *;
    list, tail, nmerges := null, null, 0;
    var p := first;
    ghost var out, s: seq<Node> := [], all;
    PassStart(first, all, insize, cmp);
    while p != null
      invariant PassAt(out, s, list, tail, p) && PassProgress(out, s, all, insize, nmerges, cmp)
      decreases |s|
    {
      list, tail, p, out, s := PassStep(list, tail, p, insize, cmp, nmerges, out, s, all);
      nmerges := nmerges + 1;
    }
    PassDone(out, s, list, tail, all, insize, nmerges, cmp);
    CloseList(list, tail, out, all);
  }

  lemma PassStart(first: Node?, all: seq<Node>, insize: nat, cmp: (Key, Key) -> int)
    requires insize > 0 && ToEnd(all) && first == FirstOf(all) && NoDup(all)
    ensures PassAt([], all, null, null, first) && PassProgress([], all, all, insize, 0, cmp)
  {
    assert [] + all == all && [] + Pass(all, insize, cmp) == Pass(all, insize, cmp);
  }

  lemma PassDone(out: seq<Node>, s: seq<Node>, list: Node?, tail: Node?, all: seq<Node>, insize: nat, nmerges: nat,
                 cmp: (Key, Key) -> int)
    requires insize > 0 && PassAt(out, s, list, tail, null) && PassProgress(out, s, all, insize, nmerges, cmp)
    ensures out == Pass(all, insize, cmp) && nmerges == Merges(|all|, insize)
    ensures NoDup(out) && OutOk(out, list, tail) && Inside(out, all)
  {
    assert s == [] && out + s == out && out + [] == out;
  }

  /** The end of the list. */
  method CloseList(list: Node?, tail: Node?, ghost out: seq<Node>, ghost all: seq<Node>)
    requires OutOk(out, list, tail) && NoDup(out) && Inside(out, all)
    modifies all`next
    ensures OutOk(out, list, tail) && ToEnd(out)
  {
    if tail != null {
      assert tail == out[|out| - 1] && tail in all;
      tail.next := null;
    }
  }

  /* ---- The sort ---- */

  /** The links and ends of a list that is complete. */
  ghost predicate Complete(s: seq<Node>, list: Node?, tail: Node?)
    reads s`next, s`prev
  {
    OutOk(s, list, tail) && ToEnd(s) && NoDup(s)
  }

  lemma CompleteLinked(s: seq<Node>, list: Node?, tail: Node?)
    requires Complete(s, list, tail)
    ensures AppLinked(s) && list == FirstOf(s) && tail == LastOf(s)
  {
    forall i | 0 <= i < |s| ensures s[i].next == After(s, i) {
    }
  }

  lemma LinkedToEnd(s: seq<Node>)
    requires AppLinked(s)
    ensures ToEnd(s)
  {
  }

  /** What the loop of HASH_SRT knows before a pass. */
  ghost predicate SortAt(s: seq<Node>, all: seq<Node>, insize: nat, cmp: (Key, Key) -> int) {
    && insize > 0 && NoDup(s) && Inside(s, all) && Inside(all, s)
    && Sort(s, insize, cmp) == Sort(all, 1, cmp)
  }

  lemma PermInside(p: seq<Node>, s: seq<Node>)
    requires multiset(p) == multiset(s)
    ensures Inside(p, s) && Inside(s, p)
  {
    forall i | 0 <= i < |p| ensures p[i] in s { assert p[i] in multiset(p); }
    forall i | 0 <= i < |s| ensures s[i] in p { assert s[i] in multiset(s); }
  }

  lemma InsideTrans(a: seq<Node>, b: seq<Node>, c: seq<Node>)
    requires Inside(a, b) && Inside(b, c)
    ensures Inside(a, c)
  {
    forall i | 0 <= i < |a| ensures a[i] in c {
      var k :| 0 <= k < |b| && b[k] == a[i];
    }
  }

  lemma SortNext(s: seq<Node>, all: seq<Node>, insize: nat, cmp: (Key, Key) -> int)
    requires SortAt(s, all, insize, cmp) && NoDup(Pass(s, insize, cmp))
    ensures var p := Pass(s, insize, cmp);
            && Inside(p, all) && Inside(all, p)
            && (Merges(|s|, insize) <= 1 ==> p == Sort(all, 1, cmp))
            && (Merges(|s|, insize) > 1 ==>
                  SortAt(p, all, 2 * insize, cmp) && Merges(|p|, 2 * insize) < Merges(|s|, insize))
  {
    var p := Pass(s, insize, cmp);
    PassPermutes(s, insize, cmp);
    MergesHalve(|s|, insize);
    PermInside(p, s);
    InsideTrans(p, s, all);
    InsideTrans(all, s, p);
    hide Inside, Pass, NoDup, Merges;
  }

  /** The loop of HASH_SRT, before a pass or done. */
  ghost predicate LoopAt(s: seq<Node>, all: seq<Node>, insize: nat, looping: bool, list: Node?, tail: Node?,
                         cmp: (Key, Key) -> int)
    reads s`next, s`prev
  {
    if looping then SortAt(s, all, insize, cmp) && ToEnd(s) && list == FirstOf(s)
    else s == Sort(all, 1, cmp) && Complete(s, list, tail) && Inside(s, all) && Inside(all, s)
  }

  /** The loop of HASH_SRT. */
  method SortLoop(head: Node?, cmp: (Key, Key) -> int, ghost all: seq<Node>) returns (list: Node?, tail: Node?)
    requires AppLinked(all) && NoDup(all) && head == FirstOf(all) && all != []
    modifies all`next, all`prev
    ensures LoopAt(Sort(all, 1, cmp), all, 1, false, list, tail, cmp)
  {
    hide *;
    var insize, looping := 1, true;
    ghost var s := all;
    list, tail := head, null;
    LoopStart(head, all, cmp);
    while looping
      invariant insize > 0 && LoopAt(s, all, insize, looping, list, tail, cmp)
      decreases looping, Merges(|s|, insize)
    {
      list, tail, looping := SortPass(list, tail, insize, cmp, s, all);
      s := Pass(s, insize, cmp);
      insize := insize * 2;
    }
    LoopDone(s, all, insize, list, tail, cmp);
  }

  lemma LoopStart(head: Node?, all: seq<Node>, cmp: (Key, Key) -> int)
    requires AppLinked(all) && NoDup(all) && head == FirstOf(all)
    ensures LoopAt(all, all, 1, true, head, null, cmp)
  {
    LinkedToEnd(all);
  }

  lemma LoopDone(s: seq<Node>, all: seq<Node>, insize: nat, list: Node?, tail: Node?, cmp: (Key, Key) -> int)
    requires LoopAt(s, all, insize, false, list, tail, cmp)
    ensures LoopAt(Sort(all, 1, cmp), all, 1, false, list, tail, cmp)
  {
  }

  /** One pass, and whether another one is needed. */
  method SortPass(first: Node?, ghost last: Node?, insize: nat, cmp: (Key, Key) -> int, ghost s: seq<Node>,
      ghost all: seq<Node>)
    returns (list: Node?, tail: Node?, looping: bool)
    requires insize > 0 && LoopAt(s, all, insize, true, first, last, cmp)
    modifies all`next, all`prev
    ensures LoopAt(Pass(s, insize, cmp), all, 2 * insize, looping, list, tail, cmp)
    ensures looping ==> Merges(|Pass(s, insize, cmp)|, 2 * insize) < Merges(|s|, insize)
  {
    assert NoDup(s) && forall i :: 0 <= i < |s| ==> s[i] in all;
    hide SortAt, Pass, Merges, Sort, ToEnd, Links, Inside, NoDup, OutOk;
    var nmerges;
    list, tail, nmerges := OnePass(first, insize, cmp, s);
    OutStarts(Pass(s, insize, cmp), list, tail);
    SortNext(s, all, insize, cmp);
    looping := nmerges > 1;
  }

  lemma OutStarts(out: seq<Node>, list: Node?, tail: Node?)
    requires OutOk(out, list, tail)
    ensures list == FirstOf(out)
  {
  }

  /** A reordered list serves the table as well. */
  lemma SortKeeps(all: seq<Node>, sorted: seq<Node>, pushed: seq<Node>, hash: Key -> nat)
    requires NoDup(all) && NoDup(sorted) && Inside(sorted, all) && Inside(all, sorted)
    requires Same(all, pushed) && Hashed(hash, all)
    ensures |sorted| == |all| && Same(sorted, pushed) && Hashed(hash, sorted)
  {
    SameLength(all, sorted);
    forall i | 0 <= i < |sorted| ensures sorted[i] in pushed && sorted[i].hashv == hash(sorted[i].key) {
      assert sorted[i] in all;
      var k :| 0 <= k < |all| && all[k] == sorted[i];
    }
    forall i | 0 <= i < |pushed| ensures pushed[i] in sorted {
      assert pushed[i] in all;
      var k :| 0 <= k < |all| && all[k] == pushed[i];
    }
  }

  /** HASH_SRT: the application order is sorted and the bucket chains are left alone. */
  method Srt(t: HashTable, cmp: (Key, Key) -> int)
    requires t.Valid()
    modifies t`head, t`tail, t`order, t.order`next, t.order`prev
    ensures t.Valid() && t.order == Sort(old(t.order), 1, cmp) && t.pushed == old(t.pushed)
            && t.buckets == old(t.buckets)
  {
    if t.head == null {
      assert t.order == [];
    } else {
      SrtList(t, cmp);
    }
  }

  method SrtList(t: HashTable, cmp: (Key, Key) -> int)
    requires t.order != [] && t.AppOrder() && t.Table() && Same(t.order, t.pushed) && Hashed(t.hash, t.order)
    modifies t`head, t`tail, t`order, t.order`next, t.order`prev
    ensures t.order != [] && t.AppOrder() && t.Table() && Same(t.order, t.pushed) && Hashed(t.hash, t.order)
    ensures t.order == Sort(old(t.order), 1, cmp)
  {
    hide *;
    ghost var all, sorted := t.order, Sort(t.order, 1, cmp);
    Ordered(t);
    var list, tail := SortLoop(t.head, cmp, all);
    Completed(t, all, sorted, list, tail, cmp);
    Reorder(t, list, tail, sorted);
  }

  lemma Ordered(t: HashTable)
    requires t.order != [] && t.AppOrder()
    ensures t.numItems == |t.order| && NoDup(t.order) && AppLinked(t.order) && t.head == FirstOf(t.order)
  {
  }

  method Reorder(t: HashTable, list: Node?, tail: Node?, ghost sorted: seq<Node>)
    requires NoDup(sorted) && AppLinked(sorted) && Ends(sorted, list, tail, t.numItems)
    modifies t`head, t`tail, t`order
    ensures t.AppOrder() && t.order == sorted
  {
    t.head, t.tail, t.order := list, tail, sorted;
  }

  lemma Completed(t: HashTable, all: seq<Node>, sorted: seq<Node>, list: Node?, tail: Node?, cmp: (Key, Key) -> int)
    requires sorted == Sort(all, 1, cmp) && LoopAt(sorted, all, 1, false, list, tail, cmp) && NoDup(all) && all != []
    requires Same(all, t.pushed) && Hashed(t.hash, all)
    ensures NoDup(sorted) && AppLinked(sorted) && Ends(sorted, list, tail, |all|) && sorted != []
    ensures Same(sorted, t.pushed) && Hashed(t.hash, sorted)
  {
    CompleteLinked(sorted, list, tail);
    SortKeeps(all, sorted, t.pushed, t.hash);
  }
}
