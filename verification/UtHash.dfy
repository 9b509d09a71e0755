/** uthash: elements that are at once in an application-ordered list and in a bucket chain.

    `order` is the list of elements in insertion order, `pushed` the order in which they were pushed onto
    the chains since the last expansion. `Valid` is what HASH_FSCK checks and more: both doubly linked
    structures, all counts, and that every element is in the bucket its hash value asks for. */
module UtHash {
  import opened HashLists

  type Key = seq<int>

  const INITIAL_NUM_BUCKETS: nat := 32
  const INITIAL_LOG2: nat := 5
  const CAPACITY_THRESH: nat := 10

  class Node {
    const key: Key
    var hashv: nat
    var prev: Node?
    var next: Node?
    var hhPrev: Node?
    var hhNext: Node?

    constructor (k: Key)
      ensures key == k
    {
      key := k;
      hashv, prev, next, hhPrev, hhNext := 0, null, null, null, null;
    }
  }

  datatype Bucket = Bucket(head: Node?, count: nat, expandMult: nat)

  function FirstOf(s: seq<Node>): Node? {
    if s == [] then null else s[0]
  }

  function Before(s: seq<Node>, i: nat): Node?
    requires i < |s|
  {
    if i == 0 then null else s[i - 1]
  }

  function After(s: seq<Node>, i: nat): Node?
    requires i < |s|
  {
    if i + 1 == |s| then null else s[i + 1]
  }

  /** The application-ordered list is doubly linked. */
  ghost predicate AppLinked(order: seq<Node>)
    reads order`prev, order`next
  {
    forall i :: 0 <= i < |order| ==> order[i].prev == Before(order, i) && order[i].next == After(order, i)
  }

  /** A bucket chain is doubly linked. */
  ghost predicate HhLinked(chain: seq<Node>)
    reads chain`hhPrev, chain`hhNext
  {
    forall i :: 0 <= i < |chain| ==> chain[i].hhPrev == Before(chain, i) && chain[i].hhNext == After(chain, i)
  }

  ghost predicate BucketOk(b: Bucket, chain: seq<Node>)
    reads chain`hhPrev, chain`hhNext
  {
    b.head == FirstOf(chain) && b.count == |chain| && HhLinked(chain)
  }

  lemma InitialPower()
    ensures Pow2(INITIAL_LOG2) == INITIAL_NUM_BUCKETS
  {
    assert Pow2(5) == 2 * Pow2(4) && Pow2(3) == 2 * Pow2(2);
  }

  function Pow2(k: nat): (p: nat)
    ensures p > 0
  {
    if k == 0 then 1 else 2 * Pow2(k - 1)
  }

  /* ---- One chain ---- */

  /** The start of HASH_ADD_TO_BKT: an element becomes the first of a chain. */
  method PushFront(buckets: array<Bucket>, b: nat, add: Node, ghost chain: seq<Node>)
    requires b < buckets.Length && BucketOk(buckets[b], chain) && add !in chain && NoDup(chain)
    modifies buckets, add`hhNext, add`hhPrev, chain`hhPrev
    ensures BucketOk(buckets[b], [add] + chain) && buckets[b].expandMult == old(buckets[b].expandMult)
    ensures forall c :: 0 <= c < buckets.Length && c != b ==> buckets[c] == old(buckets[c])
  {
    var bucket := buckets[b];
    add.hhNext := bucket.head;
    add.hhPrev := null;
    if bucket.head != null {
      bucket.head.hhPrev := add;
    }
    buckets[b] := Bucket(add, bucket.count + 1, bucket.expandMult);
  }

  /** Only the neighbours of place `k` are the neighbours. */
  lemma NeighboursOnly(s: seq<Node>, k: nat)
    requires NoDup(s) && k < |s|
    ensures forall i :: 0 <= i < |s| && i + 1 != k ==> s[i] != Before(s, k)
    ensures forall i :: 0 <= i < |s| && i != k + 1 ==> s[i] != After(s, k)
  {
  }

  /** The links of a chain without its element at place `k`. */
  lemma HhUnlinked(chain: seq<Node>, k: nat)
    requires k < |chain|
    requires forall i :: 0 <= i < |chain| && i != k && i != k + 1 ==> chain[i].hhPrev == Before(chain, i)
    requires forall i :: 0 <= i < |chain| && i != k && i + 1 != k ==> chain[i].hhNext == After(chain, i)
    requires k + 1 < |chain| ==> chain[k + 1].hhPrev == Before(chain, k)
    requires k > 0 ==> chain[k - 1].hhNext == After(chain, k)
    ensures HhLinked(chain[..k] + chain[k + 1..])
  {
    var rest := chain[..k] + chain[k + 1..];
    forall i | 0 <= i < |rest| ensures rest[i].hhPrev == Before(rest, i) && rest[i].hhNext == After(rest, i) {
      assert rest[i] == chain[if i < k then i else i + 1];
    }
  }

  /** HASH_DEL_IN_BKT: the element at place `k` of a chain is unlinked. */
  method DelInBkt(buckets: array<Bucket>, b: nat, del: Node, ghost chain: seq<Node>, ghost k: nat)
    requires b < buckets.Length && BucketOk(buckets[b], chain) && NoDup(chain) && k < |chain| && chain[k] == del
    modifies buckets, chain`hhNext, chain`hhPrev
    ensures BucketOk(buckets[b], chain[..k] + chain[k + 1..]) && buckets[b].expandMult == old(buckets[b].expandMult)
    ensures forall c :: 0 <= c < buckets.Length && c != b ==> buckets[c] == old(buckets[c])
  {
    hide NoDup;
    NeighboursOnly(chain, k);
    var bucket := buckets[b].(count := buckets[b].count - 1);
    if bucket.head == del {
      bucket := bucket.(head := del.hhNext);
    }
    var before, after := del.hhPrev, del.hhNext;
    if before != null {
      before.hhNext := after;
    }
    if after != null {
      after.hhPrev := before;
    }
    buckets[b] := bucket;
    HhUnlinked(chain, k);
  }

  /* ---- All chains ---- */

  /** Bitwise and. */
  function And(a: nat, b: nat): (r: nat)
    ensures r <= b
  {
    if a == 0 || b == 0 then 0
    else 2 * And(a / 2, b / 2) + (if a % 2 == 1 && b % 2 == 1 then 1 else 0)
  }

  /** HASH_TO_BKT: the mask of the number of buckets. */
  function HashToBkt(hashv: nat, nb: nat): (b: nat)
    ensures nb > 0 ==> b < nb
  {
    if nb == 0 then 0 else And(hashv, nb - 1)
  }

  /** The number of buckets is a power of two, so the mask spreads hash values by their remainder. */
  lemma {:induction false} MaskIsRemainder(hashv: nat, k: nat)
    ensures HashToBkt(hashv, Pow2(k)) == hashv % Pow2(k)
    decreases k
  {
    if k > 0 {
      var p := Pow2(k - 1);
      MaskIsRemainder(hashv / 2, k - 1);
      hide And;
      AndOdd(hashv, p);
      HalfRemainder(hashv, p);
    }
  }

  /** The shift to the right. */
  function ShiftRight(n: nat, k: nat): nat
    decreases k
  {
    if k == 0 then n else ShiftRight(n / 2, k - 1)
  }

  /** Shifting divides by the power of two. */
  lemma {:induction false} ShiftDivides(n: nat, k: nat)
    ensures ShiftRight(n, k) == n / Pow2(k)
    decreases k
  {
    if k > 0 {
      ShiftDivides(n / 2, k - 1);
      HalfQuotient(n, Pow2(k - 1));
    }
  }

  lemma HalfQuotient(n: nat, p: nat)
    requires p > 0
    ensures n / (2 * p) == n / 2 / p
  {
    var q, r := n / 2 / p, n / 2 % p;
    assert n / 2 == p * q + r;
    assert n == 2 * p * q + (2 * r + n % 2);
    QuotientIs(n, 2 * p, q, 2 * r + n % 2);
  }

  lemma QuotientIs(n: nat, d: nat, q: nat, r: nat)
    requires d > 0 && r < d && n == d * q + r
    ensures n / d == q
  {
    var p, t := n / d, n % d;
    assert n == d * p + t && t < d;
    MultiplesApart(d, p, q);
    MultiplesApart(d, q, p);
  }

  lemma AndOdd(n: nat, p: nat)
    requires p > 0
    ensures And(n, 2 * p - 1) == 2 * And(n / 2, p - 1) + n % 2
  {
    assert (2 * p - 1) / 2 == p - 1 && (2 * p - 1) % 2 == 1;
  }

  lemma HalfRemainder(n: nat, p: nat)
    requires p > 0
    ensures n % (2 * p) == 2 * (n / 2 % p) + n % 2
  {
    var q, r := n / 2 / p, n / 2 % p;
    assert n / 2 == p * q + r;
    assert n == 2 * p * q + (2 * r + n % 2);
    RemainderIs(n, 2 * p, q, 2 * r + n % 2);
  }

  lemma RemainderIs(n: nat, d: nat, q: nat, r: nat)
    requires d > 0 && r < d && n == d * q + r
    ensures n % d == r
  {
    var p, t := n / d, n % d;
    assert n == d * p + t && t < d;
    MultiplesApart(d, p, q);
    MultiplesApart(d, q, p);
    assert p == q;
  }

  lemma {:induction false} MultiplesApart(d: nat, p: nat, q: nat)
    ensures p < q ==> d * p + d <= d * q
    decreases q
  {
    if p < q {
      MultiplesApart(d, p, q - 1);
      assert d * q == d * (q - 1) + d;
    }
  }

  function BucketBy(hash: Key -> nat, nb: nat): Node -> nat {
    (n: Node) => HashToBkt(hash(n.key), nb)
  }

  /** The chain of bucket `b` of `nb`. */
  function Chain(hash: Key -> nat, pushed: seq<Node>, nb: nat, b: nat): (c: seq<Node>)
    ensures forall i :: 0 <= i < |c| ==> c[i] in pushed
  {
    var c := ChainFor(pushed, BucketBy(hash, nb), b);
    ChainInside(hash, pushed, nb, b);
    c
  }

  lemma ChainInside(hash: Key -> nat, pushed: seq<Node>, nb: nat, b: nat)
    ensures forall i :: 0 <= i < |ChainFor(pushed, BucketBy(hash, nb), b)| ==>
              ChainFor(pushed, BucketBy(hash, nb), b)[i] in pushed
  {
    var c := ChainFor(pushed, BucketBy(hash, nb), b);
    forall i | 0 <= i < |c| ensures c[i] in pushed {
      ChainMember(pushed, BucketBy(hash, nb), b, c[i]);
      assert c[i] in c;
    }
  }

  lemma InChain(hash: Key -> nat, pushed: seq<Node>, nb: nat, b: nat, n: Node)
    requires nb > 0
    ensures n in Chain(hash, pushed, nb, b) <==> n in pushed && HashToBkt(hash(n.key), nb) == b
  {
    ChainMember(pushed, BucketBy(hash, nb), b, n);
  }

  lemma ChainDistinct(hash: Key -> nat, pushed: seq<Node>, nb: nat, b: nat)
    requires NoDup(pushed)
    ensures NoDup(Chain(hash, pushed, nb, b))
  {
    ChainNoDup(pushed, BucketBy(hash, nb), b);
  }

  lemma ChainAdded(hash: Key -> nat, pushed: seq<Node>, nb: nat, b: nat, n: Node)
    requires nb > 0
    ensures Chain(hash, pushed + [n], nb, b)
            == if HashToBkt(hash(n.key), nb) == b then [n] + Chain(hash, pushed, nb, b) else Chain(hash, pushed, nb, b)
  {
    ChainPush(pushed, BucketBy(hash, nb), b, n);
  }

  /** Every bucket holds its chain. */
  ghost predicate BucketsOk(buckets: array<Bucket>, hash: Key -> nat, pushed: seq<Node>)
    reads buckets, pushed`hhPrev, pushed`hhNext
  {
    forall b :: 0 <= b < buckets.Length ==> BucketOk(buckets[b], Chain(hash, pushed, buckets.Length, b))
  }

  /** An element pushed onto the chain its hash asks for. */
  method Push(buckets: array<Bucket>, ghost hash: Key -> nat, ghost pushed: seq<Node>, n: Node)
    requires 0 < buckets.Length && BucketsOk(buckets, hash, pushed) && NoDup(pushed) && n !in pushed
    requires n.hashv == hash(n.key)
    modifies buckets, n`hhNext, n`hhPrev, pushed`hhPrev
    ensures BucketsOk(buckets, hash, pushed + [n])
    ensures var b := HashToBkt(hash(n.key), buckets.Length);
            && buckets[b].expandMult == old(buckets[b].expandMult)
            && buckets[b].count == |Chain(hash, pushed + [n], buckets.Length, b)|
  {
    var nb, b := buckets.Length, HashToBkt(n.hashv, buckets.Length);
    ghost var chain := Chain(hash, pushed, nb, b);
    InChain(hash, pushed, nb, b, n);
    ChainDistinct(hash, pushed, nb, b);
    forall c | 0 <= c < nb && c != b
      ensures forall i :: 0 <= i < |Chain(hash, pushed, nb, c)| ==> Chain(hash, pushed, nb, c)[i] !in chain
    {
      ChainsApart(hash, pushed, nb, c, b);
    }
    hide Chain, BucketOk, HashToBkt;
    PushFront(buckets, b, n, chain);
    forall c | 0 <= c < nb ensures BucketOk(buckets[c], Chain(hash, pushed + [n], nb, c)) {
      ChainAdded(hash, pushed, nb, c, n);
      assert c != b ==> BucketOk(buckets[c], Chain(hash, pushed, nb, c));
    }
  }

  lemma ChainsApart(hash: Key -> nat, pushed: seq<Node>, nb: nat, c: nat, b: nat)
    requires nb > 0 && b != c
    ensures forall i :: 0 <= i < |Chain(hash, pushed, nb, c)| ==>
              Chain(hash, pushed, nb, c)[i] !in Chain(hash, pushed, nb, b)
  {
    var chain := Chain(hash, pushed, nb, c);
    forall i | 0 <= i < |chain| ensures chain[i] !in Chain(hash, pushed, nb, b) {
      assert chain[i] in chain;
      InChain(hash, pushed, nb, c, chain[i]);
      InChain(hash, pushed, nb, b, chain[i]);
    }
  }

  lemma ChainWithout(hash: Key -> nat, pushed: seq<Node>, nb: nat, b: nat, n: Node)
    requires nb > 0 && NoDup(pushed) && n in pushed
    ensures Chain(hash, Remove(pushed, n), nb, b)
            == if HashToBkt(hash(n.key), nb) == b then Remove(Chain(hash, pushed, nb, b), n) else Chain(hash, pushed,
                nb, b)
  {
    ChainRemove(pushed, BucketBy(hash, nb), b, n);
  }

  lemma Pulled(buckets: array<Bucket>, hash: Key -> nat, pushed: seq<Node>, del: Node, b: nat)
    requires 0 < buckets.Length && NoDup(pushed) && del in pushed && b == HashToBkt(hash(del.key), buckets.Length)
    requires BucketOk(buckets[b], Remove(Chain(hash, pushed, buckets.Length, b), del))
    requires forall c :: 0 <= c < buckets.Length && c != b ==>
             BucketOk(buckets[c], Chain(hash, pushed, buckets.Length, c))
    ensures BucketsOk(buckets, hash, Remove(pushed, del))
  {
    hide Chain, BucketOk, Remove, HashToBkt, NoDup;
    forall c | 0 <= c < buckets.Length ensures BucketOk(buckets[c], Chain(hash, Remove(pushed, del), buckets.Length,
        c)) {
      ChainWithout(hash, pushed, buckets.Length, c, del);
    }
  }

  /** An element taken out of its chain. */
  method Pull(buckets: array<Bucket>, ghost hash: Key -> nat, ghost pushed: seq<Node>, del: Node)
    requires 0 < buckets.Length && BucketsOk(buckets, hash, pushed) && NoDup(pushed) && del in pushed
    requires del.hashv == hash(del.key)
    modifies buckets, pushed`hhNext, pushed`hhPrev
    ensures BucketsOk(buckets, hash, Remove(pushed, del))
  {
    var nb, b := buckets.Length, HashToBkt(del.hashv, buckets.Length);
    ghost var chain := Chain(hash, pushed, nb, b);
    InChain(hash, pushed, nb, b, del);
    ChainDistinct(hash, pushed, nb, b);
    ghost var k := IndexOf(chain, del);
    RemoveIs(chain, k);
    forall c | 0 <= c < nb && c != b
      ensures forall i :: 0 <= i < |Chain(hash, pushed, nb, c)| ==> Chain(hash, pushed, nb, c)[i] !in chain
    {
      ChainsApart(hash, pushed, nb, c, b);
    }
    hide Chain, BucketOk, Remove, IndexOf, HashToBkt, NoDup;
    DelInBkt(buckets, b, del, chain, k);
    Pulled(buckets, hash, pushed, del, b);
  }

  /* ---- Expansion ---- */

  /** How many pushes so far landed beyond the ideal chain length. */
  function Beyond(hash: Key -> nat, pushed: seq<Node>, nb: nat, ideal: nat): nat
    requires nb > 0
    decreases |pushed|
  {
    if pushed == [] then 0
    else
      var last := pushed[|pushed| - 1];
      Beyond(hash, pushed[..|pushed| - 1], nb, ideal)
      + (if |Chain(hash, pushed, nb, HashToBkt(hash(last.key), nb))| > ideal then 1 else 0)
  }

  /** The elements in the order in which an expansion visits the first `n` buckets. */
  function Visited(hash: Key -> nat, pushed: seq<Node>, nb: nat, n: nat): seq<Node> {
    Flat(pushed, BucketBy(hash, nb), n)
  }

  lemma VisitedNext(hash: Key -> nat, pushed: seq<Node>, nb: nat, n: nat)
    ensures Visited(hash, pushed, nb, 0) == []
    ensures Visited(hash, pushed, nb, n + 1) == Visited(hash, pushed, nb, n) + Chain(hash, pushed, nb, n)
  {
  }

  lemma VisitedMember(hash: Key -> nat, pushed: seq<Node>, nb: nat, n: nat, x: Node)
    requires nb > 0
    ensures x in Visited(hash, pushed, nb, n) <==> x in pushed && HashToBkt(hash(x.key), nb) < n
  {
    FlatMember(pushed, BucketBy(hash, nb), n, x);
  }

  lemma VisitedDistinct(hash: Key -> nat, pushed: seq<Node>, nb: nat, n: nat)
    requires NoDup(pushed)
    ensures NoDup(Visited(hash, pushed, nb, n))
  {
    FlatNoDup(pushed, BucketBy(hash, nb), n);
  }

  /** The rest of a chain is still linked forward. */
  ghost predicate Ahead(chain: seq<Node>, j: nat)
    reads chain`hhNext
  {
    forall i :: j <= i < |chain| ==> chain[i].hhNext == After(chain, i)
  }

  /** The new buckets while elements are being moved. */
  ghost predicate Moved(buckets: array<Bucket>, hash: Key -> nat, moved: seq<Node>, ideal: nat, nonideal: nat)
    reads buckets, moved`hhPrev, moved`hhNext
  {
    && 0 < buckets.Length && NoDup(moved) && BucketsOk(buckets, hash, moved)
    && nonideal == Beyond(hash, moved, buckets.Length, ideal)
  }

  /** The body of the inner loop of HASH_EXPAND_BUCKETS: one element moves to its new bucket. */
  method MoveOne(buckets: array<Bucket>, ghost hash: Key -> nat, ghost moved: seq<Node>, n: Node, ideal: nat,
      nonideal: nat)
    returns (newNonideal: nat)
    requires Moved(buckets, hash, moved, ideal, nonideal) && n !in moved && ideal > 0 && n.hashv == hash(n.key)
    modifies buckets, n`hhNext, n`hhPrev, moved`hhPrev
    ensures Moved(buckets, hash, moved + [n], ideal, newNonideal)
  {
    BeyondNext(hash, moved, buckets.Length, ideal, n);
    hide BucketsOk, Chain, Beyond, HashToBkt;
    newNonideal := nonideal;
    var b := HashToBkt(n.hashv, buckets.Length);
    Push(buckets, hash, moved, n);
    if buckets[b].count > ideal {
      newNonideal := newNonideal + 1;
      Remultiply(buckets, b, Share(buckets[b].count, ideal), hash, moved + [n]);
    }
  }

  function Share(count: nat, ideal: nat): nat
    requires ideal > 0
  {
    count / ideal
  }

  /** expand_mult of a bucket has no part in the links. */
  method Remultiply(buckets: array<Bucket>, b: nat, mult: nat, ghost hash: Key -> nat, ghost pushed: seq<Node>)
    requires b < buckets.Length && BucketsOk(buckets, hash, pushed)
    modifies buckets
    ensures BucketsOk(buckets, hash, pushed)
    ensures buckets[b] == old(buckets[b]).(expandMult := mult)
    ensures forall c :: 0 <= c < buckets.Length && c != b ==> buckets[c] == old(buckets[c])
  {
    hide Chain, HhLinked;
    ghost var was := buckets[..];
    assert forall c :: 0 <= c < buckets.Length ==> BucketOk(was[c], Chain(hash, pushed, buckets.Length, c));
    buckets[b] := buckets[b].(expandMult := mult);
    forall c | 0 <= c < buckets.Length ensures BucketOk(buckets[c], Chain(hash, pushed, buckets.Length, c)) {
      assert BucketOk(was[c], Chain(hash, pushed, buckets.Length, c));
    }
  }

  lemma BeyondNext(hash: Key -> nat, moved: seq<Node>, nb: nat, ideal: nat, n: Node)
    requires nb > 0
    ensures Beyond(hash, moved + [n], nb, ideal)
            == Beyond(hash, moved, nb, ideal) + (if |Chain(hash, moved + [n], nb, HashToBkt(hash(n.key),
                nb))| > ideal then 1 else 0)
  {
    assert (moved + [n])[..|moved|] == moved;
  }

  /** Chains not yet visited share no element with those that were. */
  lemma Unvisited(hash: Key -> nat, pushed: seq<Node>, nb: nat, i: nat, c: nat)
    requires nb > 0 && i <= c
    ensures forall k :: 0 <= k < |Chain(hash, pushed, nb, c)| ==>
            Chain(hash, pushed, nb, c)[k] !in Visited(hash, pushed, nb, i)
  {
    var chain := Chain(hash, pushed, nb, c);
    forall k | 0 <= k < |chain| ensures chain[k] !in Visited(hash, pushed, nb, i) {
      assert chain[k] in chain;
      InChain(hash, pushed, nb, c, chain[k]);
      VisitedMember(hash, pushed, nb, i, chain[k]);
    }
  }

  /** The inner loop has moved `j` elements of the chain of bucket `i`. */
  ghost predicate Moving(newBuckets: array<Bucket>, hash: Key -> nat, before: seq<Node>, chain: seq<Node>, j: nat,
                         thh: Node?, ideal: nat, nonideal: nat)
    reads newBuckets, before`hhPrev, before`hhNext, chain`hhPrev, chain`hhNext
  {
    && j <= |chain| && NoDup(before + chain)
    && thh == (if j < |chain| then chain[j] else null) && Ahead(chain, j)
    && Moved(newBuckets, hash, before + chain[..j], ideal, nonideal)
  }

  method MoveNext(newBuckets: array<Bucket>, ghost hash: Key -> nat, ghost before: seq<Node>, ghost chain: seq<Node>,
      ghost j: nat,
                  thh: Node, ideal: nat, nonideal: nat)
    returns (next: Node?, newNonideal: nat)
    requires Moving(newBuckets, hash, before, chain, j, thh, ideal, nonideal) && ideal > 0 && Hashed(hash, chain)
    modifies newBuckets, before`hhPrev, chain`hhPrev, chain`hhNext
    ensures j < |chain| && Moving(newBuckets, hash, before, chain, j + 1, next, ideal, newNonideal)
  {
    hide Moved;
    ghost var moved := before + chain[..j];
    forall k | 0 <= k < |moved| ensures moved[k] != thh {
      assert (before + chain)[k] == moved[k] && (before + chain)[|before| + j] == thh;
    }
    forall k | j < k < |chain| ensures chain[k] !in moved && chain[k] != thh {
      assert (before + chain)[|before| + k] == chain[k] && (before + chain)[|before| + j] == thh;
      assert forall l :: 0 <= l < |moved| ==> moved[l] == (before + chain)[l];
    }
    next := thh.hhNext;
    newNonideal := MoveOne(newBuckets, hash, moved, thh, ideal, nonideal);
    assert before + chain[..j + 1] == moved + [thh];
  }

  /** The inner loop of HASH_EXPAND_BUCKETS: the chain of one old bucket. */
  method MoveChain(newBuckets: array<Bucket>, ghost hash: Key -> nat, head: Node?, ghost before: seq<Node>,
      ghost chain: seq<Node>,
                   ideal: nat, nonideal: nat)
    returns (newNonideal: nat)
    requires head == FirstOf(chain) && Ahead(chain, 0) && NoDup(before + chain) && ideal > 0 && Hashed(hash, chain)
    requires Moved(newBuckets, hash, before, ideal, nonideal)
    modifies newBuckets, before`hhPrev, chain`hhPrev, chain`hhNext
    ensures Moved(newBuckets, hash, before + chain, ideal, newNonideal)
  {
    var thh := head;
    newNonideal := nonideal;
    ghost var j := 0;
    assert before + chain[..0] == before;
    assert Moving(newBuckets, hash, before, chain, 0, thh, ideal, nonideal);
    hide Moving, Moved;
    while thh != null
      invariant j <= |chain| && Moving(newBuckets, hash, before, chain, j, thh, ideal, newNonideal)
      decreases |chain| - j
    {
      thh, newNonideal := MoveNext(newBuckets, hash, before, chain, j, thh, ideal, newNonideal);
      j := j + 1;
    }
    AllMoved(newBuckets, hash, before, chain, j, ideal, newNonideal);
  }

  lemma AllMoved(newBuckets: array<Bucket>, hash: Key -> nat, before: seq<Node>, chain: seq<Node>, j: nat,
      ideal: nat, nonideal: nat)
    requires Moving(newBuckets, hash, before, chain, j, null, ideal, nonideal)
    ensures Moved(newBuckets, hash, before + chain, ideal, nonideal)
  {
    assert chain[..|chain|] == chain;
  }

  ghost predicate WaitsAt(buckets: array<Bucket>, chain: seq<Node>, c: nat)
    reads buckets, chain`hhNext
    requires c < buckets.Length
  {
    buckets[c].head == FirstOf(chain) && Ahead(chain, 0)
  }

  /** What the outer loop of HASH_EXPAND_BUCKETS still finds in the old buckets from `i` on. */
  ghost predicate Waiting(buckets: array<Bucket>, hash: Key -> nat, pushed: seq<Node>, i: nat)
    reads buckets, pushed`hhNext
  {
    forall c :: i <= c < buckets.Length ==> WaitsAt(buckets, Chain(hash, pushed, buckets.Length, c), c)
  }

  lemma WaitingAtStart(buckets: array<Bucket>, hash: Key -> nat, pushed: seq<Node>)
    requires BucketsOk(buckets, hash, pushed)
    ensures Waiting(buckets, hash, pushed, 0)
  {
    hide Chain;
    forall c | 0 <= c < buckets.Length ensures WaitsAt(buckets, Chain(hash, pushed, buckets.Length, c), c) {
      assert BucketOk(buckets[c], Chain(hash, pushed, buckets.Length, c));
    }
  }

  method EmptyBuckets(n: nat, ghost hash: Key -> nat, ghost ideal: nat) returns (buckets: array<Bucket>)
    requires n > 0
    ensures fresh(buckets) && buckets.Length == n && Moved(buckets, hash, [], ideal, 0)
  {
    buckets := new Bucket[n](_ => Bucket(null, 0, 0));
    assert forall b :: 0 <= b < n ==> Chain(hash, [], n, b) == [];
  }

  /** The outer loop of HASH_EXPAND_BUCKETS: every element moves to one of twice as many buckets. */
  method Redistribute(buckets: array<Bucket>, hash: Key -> nat, ghost pushed: seq<Node>, ideal: nat)
    returns (newBuckets: array<Bucket>, nonideal: nat)
    requires 0 < buckets.Length && BucketsOk(buckets, hash, pushed) && NoDup(pushed) && ideal > 0
             && Hashed(hash, pushed)
    modifies pushed`hhPrev, pushed`hhNext
    ensures fresh(newBuckets) && newBuckets.Length == 2 * buckets.Length
    ensures Moved(newBuckets, hash, Visited(hash, pushed, buckets.Length, buckets.Length), ideal, nonideal)
  {
    hide *;
    newBuckets := EmptyBuckets(2 * buckets.Length, hash, ideal);
    nonideal := 0;
    WaitingAtStart(buckets, hash, pushed);
    VisitedNext(hash, pushed, buckets.Length, 0);
    for i := 0 to buckets.Length
      invariant fresh(newBuckets) && newBuckets.Length == 2 * buckets.Length
      invariant Waiting(buckets, hash, pushed, i)
      invariant Moved(newBuckets, hash, Visited(hash, pushed, buckets.Length, i), ideal, nonideal)
    {
      nonideal := MoveBucket(buckets, newBuckets, hash, pushed, i, ideal, nonideal);
    }
  }

  method MoveBucket(buckets: array<Bucket>, newBuckets: array<Bucket>, hash: Key -> nat, ghost pushed: seq<Node>,
      i: nat,
                    ideal: nat, nonideal: nat)
    returns (newNonideal: nat)
    requires i < buckets.Length && buckets != newBuckets && NoDup(pushed) && ideal > 0 && Hashed(hash, pushed)
    requires Waiting(buckets, hash, pushed, i)
    requires Moved(newBuckets, hash, Visited(hash, pushed, buckets.Length, i), ideal, nonideal)
    modifies newBuckets, pushed`hhPrev, pushed`hhNext
    ensures Waiting(buckets, hash, pushed, i + 1)
    ensures Moved(newBuckets, hash, Visited(hash, pushed, buckets.Length, i + 1), ideal, newNonideal)
  {
    ghost var before, chain := Visited(hash, pushed, buckets.Length, i), Chain(hash, pushed, buckets.Length, i);
    Portion(hash, pushed, buckets.Length, i);
    assert WaitsAt(buckets, chain, i);
    HashedPart(hash, pushed, chain);
    hide Moved, Visited, Chain, WaitsAt, NoDup;
    newNonideal := MoveWaiting(buckets, newBuckets, hash, before, chain, i, ideal, nonideal);
  }

  /** One bucket's portion of the elements visited. */
  lemma Portion(hash: Key -> nat, pushed: seq<Node>, nb: nat, i: nat)
    requires nb > 0 && NoDup(pushed)
    ensures var before, chain := Visited(hash, pushed, nb, i), Chain(hash, pushed, nb, i);
            && Visited(hash, pushed, nb, i + 1) == before + chain && NoDup(before + chain)
            && (forall k :: 0 <= k < |before| ==> before[k] in pushed)
            && (forall c, k :: i < c < nb && 0 <= k < |Chain(hash, pushed, nb, c)| ==>
                  Chain(hash, pushed, nb, c)[k] !in before && Chain(hash, pushed, nb, c)[k] !in chain)
  {
    VisitedNext(hash, pushed, nb, i);
    VisitedDistinct(hash, pushed, nb, i + 1);
    VisitedInside(hash, pushed, nb, i);
    hide Visited, Chain, NoDup;
    forall c, k | i < c < nb && 0 <= k < |Chain(hash, pushed, nb, c)|
      ensures Chain(hash, pushed, nb, c)[k] !in Visited(hash, pushed, nb, i)
              && Chain(hash, pushed, nb, c)[k] !in Chain(hash, pushed, nb, i)
    {
      Unvisited(hash, pushed, nb, i, c);
      ChainsApart(hash, pushed, nb, c, i);
    }
  }

  method MoveWaiting(buckets: array<Bucket>, newBuckets: array<Bucket>, ghost hash: Key -> nat, ghost before: seq<Node>,
                     ghost chain: seq<Node>, i: nat, ideal: nat, nonideal: nat)
    returns (newNonideal: nat)
    requires i < buckets.Length && buckets != newBuckets && WaitsAt(buckets, chain, i)
    requires NoDup(before + chain) && ideal > 0 && Moved(newBuckets, hash, before, ideal, nonideal)
             && Hashed(hash, chain)
    modifies newBuckets, before`hhPrev, chain`hhPrev, chain`hhNext
    ensures Moved(newBuckets, hash, before + chain, ideal, newNonideal)
  {
    hide Moved, Ahead;
    newNonideal := MoveChain(newBuckets, hash, buckets[i].head, before, chain, ideal, nonideal);
  }

  lemma VisitedInside(hash: Key -> nat, pushed: seq<Node>, nb: nat, n: nat)
    requires nb > 0
    ensures forall k :: 0 <= k < |Visited(hash, pushed, nb, n)| ==> Visited(hash, pushed, nb, n)[k] in pushed
  {
    var v := Visited(hash, pushed, nb, n);
    forall k | 0 <= k < |v| ensures v[k] in pushed {
      assert v[k] in v;
      VisitedMember(hash, pushed, nb, n, v[k]);
    }
  }

  /* ---- The table ---- */

  predicate Crowded(b: Bucket) {
    b.count >= (b.expandMult + 1) * CAPACITY_THRESH
  }

  /** Two lists hold the same elements. */
  ghost predicate Same(a: seq<Node>, b: seq<Node>) {
    (forall i :: 0 <= i < |a| ==> a[i] in b) && (forall i :: 0 <= i < |b| ==> b[i] in a)
  }

  ghost predicate Hashed(hash: Key -> nat, order: seq<Node>)
    reads order`hashv
  {
    forall i :: 0 <= i < |order| ==> order[i].hashv == hash(order[i].key)
  }

  /** No two elements have the same key. */
  ghost predicate DistinctKeys(order: seq<Node>) {
    forall i, j :: 0 <= i < j < |order| ==> order[i].key != order[j].key
  }

  function CeilingOf(items: nat, nb: nat): nat
    requires nb > 0
  {
    items / nb + (if items % nb != 0 then 1 else 0)
  }

  /** The macro's shift and mask are that quotient and remainder, as the number of buckets is a power of two. */
  lemma ShiftedCeiling(items: nat, k: nat)
    ensures ShiftRight(items, k) + (if And(items, Pow2(k) - 1) != 0 then 1 else 0) == CeilingOf(items, Pow2(k))
  {
    hide And, ShiftRight, Pow2;
    ShiftDivides(items, k);
    MaskIsRemainder(items, k);
  }

  lemma CeilingIs(items: nat, nb: nat)
    requires nb > 0 && items > 0
    ensures CeilingOf(items, nb) > 0
    ensures (CeilingOf(items, nb) - 1) * nb < items <= CeilingOf(items, nb) * nb
  {
    assert items == items / nb * nb + items % nb;
  }

  /** The links of a list without its element at place `k`. */
  lemma AppUnlinked(order: seq<Node>, k: nat)
    requires k < |order|
    requires forall i :: 0 <= i < |order| && i != k && i != k + 1 ==> order[i].prev == Before(order, i)
    requires forall i :: 0 <= i < |order| && i != k && i + 1 != k ==> order[i].next == After(order, i)
    requires k + 1 < |order| ==> order[k + 1].prev == Before(order, k)
    requires k > 0 ==> order[k - 1].next == After(order, k)
    ensures AppLinked(order[..k] + order[k + 1..])
  {
    var rest := order[..k] + order[k + 1..];
    forall i | 0 <= i < |rest| ensures rest[i].prev == Before(rest, i) && rest[i].next == After(rest, i) {
      assert rest[i] == order[if i < k then i else i + 1];
    }
  }

  function Without(s: seq<Node>, k: nat): seq<Node>
    requires k < |s|
  {
    s[..k] + s[k + 1..]
  }

  /** An element linked behind the last one. */
  method LinkLast(tail: Node?, add: Node, ghost order: seq<Node>)
    requires AppLinked(order) && add !in order && NoDup(order)
    requires if order == [] then tail == null else tail == order[|order| - 1]
    modifies add`next, add`prev, order`next
    ensures AppLinked(order + [add])
  {
    hide NoDup;
    LastOnly(order);
    add.next := null;
    add.prev := tail;
    if tail != null {
      tail.next := add;
    }
    AppAppended(order, add);
  }

  lemma LastOnly(order: seq<Node>)
    requires NoDup(order)
    ensures forall i :: 0 <= i < |order| - 1 ==> order[i] != order[|order| - 1]
  {
  }

  lemma AppAppended(order: seq<Node>, add: Node)
    requires add.next == null && add.prev == (if order == [] then null else order[|order| - 1])
    requires order != [] ==> order[|order| - 1].next == add
    requires forall i :: 0 <= i < |order| ==> order[i].prev == Before(order, i)
    requires forall i :: 0 <= i < |order| - 1 ==> order[i].next == After(order, i)
    ensures AppLinked(order + [add])
  {
    var whole := order + [add];
    forall i | 0 <= i < |whole| ensures whole[i].prev == Before(whole, i) && whole[i].next == After(whole, i) {
      if i < |order| { assert whole[i] == order[i]; }
      if i > 0 { assert whole[i - 1] == order[i - 1]; }
    }
  }

  /** An element taken out of the list; its neighbours are returned. */
  method UnlinkNode(del: Node, ghost order: seq<Node>, ghost k: nat) returns (before: Node?, after: Node?)
    requires AppLinked(order) && NoDup(order) && k < |order| && order[k] == del
    modifies order`next, order`prev
    ensures before == Before(order, k) && after == After(order, k)
    ensures AppLinked(Without(order, k))
  {
    before, after := del.prev, del.next;
    NeighboursOnly(order, k);
    hide NoDup;
    if before != null {
      before.next := after;
    }
    if after != null {
      after.prev := before;
    }
    AppUnlinked(order, k);
  }

  /** The ends and the length of a list; an empty one only has its head. */
  ghost predicate Ends(order: seq<Node>, head: Node?, tail: Node?, items: nat) {
    head == FirstOf(order) && (order != [] ==> tail == order[|order| - 1] && items == |order|)
  }

  lemma EndsWithout(s: seq<Node>, k: nat, head: Node?, tail: Node?, items: nat)
    requires NoDup(s) && k < |s| && |s| > 1 && Ends(s, head, tail, items)
    ensures items > 1 && Without(s, k) == Remove(s, s[k]) && NoDup(Without(s, k))
    ensures Ends(Without(s, k), if Before(s, k) == null then After(s, k) else head,
                 if s[k] == tail then Before(s, k) else tail, items - 1)
  {
    RemoveIs(s, k);
  }

  lemma EndsWith(s: seq<Node>, add: Node, head: Node?, tail: Node?, items: nat)
    requires NoDup(s) && add !in s && Ends(s, head, tail, items)
    ensures head == null <==> s == []
    ensures s != [] ==> tail == s[|s| - 1]
    ensures NoDup(s + [add])
    ensures Ends(s + [add], if head == null then add else head, add, if head == null then 1 else items + 1)
  {
  }

  lemma NextPower(k: nat)
    ensures Pow2(k + 1) == 2 * Pow2(k)
  {
  }

  class HashTable {
    const hash: Key -> nat
    var head: Node?
    var tail: Node?
    var numItems: nat
    var buckets: array<Bucket>
    var numBuckets: nat
    var log2NumBuckets: nat
    var idealChainMaxlen: nat
    var nonidealItems: nat
    var ineffExpands: nat
    var noexpand: bool

    ghost var order: seq<Node>
    ghost var pushed: seq<Node>

    /** The application-ordered list, its ends and its length. */
    ghost predicate AppOrder()
      reads this`head, this`tail, this`numItems, this`order, order`prev, order`next
    {
      NoDup(order) && AppLinked(order) && Ends(order, head, tail, numItems)
    }

    /** The buckets and the chains in them. */
    ghost predicate Table()
      reads this`buckets, this`numBuckets, this`log2NumBuckets, this`pushed, buckets, pushed`hhPrev, pushed`hhNext
    {
      && buckets.Length == numBuckets == Pow2(log2NumBuckets)
      && NoDup(pushed) && BucketsOk(buckets, hash, pushed)
    }

    ghost predicate Valid()
      reads this, buckets, order, pushed
    {
      && AppOrder() && (order != [] ==> Table() && Same(order, pushed) && Hashed(hash, order))
    }

    constructor (h: Key -> nat)
      ensures Valid() && order == [] && hash == h && fresh(buckets)
    {
      hash := h;
      head, tail, numItems := null, null, 0;
      buckets := new Bucket[0];
      numBuckets, log2NumBuckets, idealChainMaxlen, nonidealItems, ineffExpands, noexpand := 0, 0, 0, 0, 0, false;
      order, pushed := [], [];
    }

    /** HASH_MAKE_TABLE */
    method MakeTable()
      modifies this
      ensures Table() && fresh(buckets) && pushed == []
      ensures unchanged(`head) && unchanged(`tail) && unchanged(`order) && unchanged(`numItems)
      ensures numBuckets == INITIAL_NUM_BUCKETS && !noexpand && ineffExpands == 0
    {
      hide BucketsOk, Pow2;
      buckets := EmptyBuckets(INITIAL_NUM_BUCKETS, hash, 1);
      numBuckets, log2NumBuckets := INITIAL_NUM_BUCKETS, INITIAL_LOG2;
      idealChainMaxlen, nonidealItems, ineffExpands, noexpand := 0, 0, 0, false;
      pushed := [];
      InitialPower();
    }

    /** The list part of HASH_ADD_KEYPTR. */
    method Append(add: Node)
      requires AppOrder() && add !in order
      modifies this`head, this`tail, this`numItems, this`order, add`next, add`prev, order`next
      ensures AppOrder() && order == old(order) + [add]
    {
      hide AppLinked, NoDup, Ends;
      EndsWith(order, add, head, tail, numItems);
      LinkLast(if head == null then null else tail, add, order);
      if head == null {
        head := add;
        numItems := 0;
      }
      tail := add;
      numItems := numItems + 1;
      order := order + [add];
    }

    /** The list part of HASH_DELETE, for an element that is not the only one. */
    method Unlink(del: Node, ghost k: nat)
      requires AppOrder() && k < |order| && order[k] == del && |order| > 1
      modifies this`head, this`tail, this`numItems, this`order, order`next, order`prev
      ensures AppOrder() && order == Without(old(order), k)
    {
      hide AppLinked, NoDup, Ends, Without;
      ghost var rest := Without(order, k);
      EndsWithout(order, k, head, tail, numItems);
      var before, after := UnlinkNode(del, order, k);
      SetEnds(if before == null then after else head, if del == tail then before else tail, numItems - 1, rest);
    }

    method SetEnds(newHead: Node?, newTail: Node?, items: nat, ghost list: seq<Node>)
      requires NoDup(list) && AppLinked(list) && Ends(list, newHead, newTail, items)
      modifies this`head, this`tail, this`numItems, this`order
      ensures AppOrder() && order == list
    {
      head, tail, numItems, order := newHead, newTail, items, list;
    }

    /** HASH_EXPAND_BUCKETS: twice as many buckets, the same elements. */
    method Expand()
      requires Table() && numItems > 0 && Hashed(hash, pushed)
      modifies this, pushed`hhPrev, pushed`hhNext
      ensures Table() && Same(pushed, old(pushed)) && fresh(buckets)
      ensures unchanged(`head) && unchanged(`tail) && unchanged(`order) && unchanged(`numItems)
      ensures numBuckets == 2 * old(numBuckets) && idealChainMaxlen == CeilingOf(numItems, numBuckets)
      ensures nonidealItems == Beyond(hash, pushed, numBuckets, idealChainMaxlen)
      ensures ineffExpands == if nonidealItems > numItems / 2 then old(ineffExpands) + 1 else 0
      ensures noexpand == (old(noexpand) || ineffExpands > 1)
    {
      hide BucketsOk, NoDup, Visited, Same, CeilingOf, Beyond, Moved, Pow2, And, ShiftRight;
      CeilingIs(numItems, numBuckets * 2);
      VisitedSame(hash, pushed, numBuckets);
      NextPower(log2NumBuckets);
      ShiftedCeiling(numItems, log2NumBuckets + 1);
      var ideal := ShiftRight(numItems, log2NumBuckets + 1) + (if And(numItems, numBuckets * 2 - 1) != 0 then 1 else 0);
      ghost var visited := Visited(hash, pushed, numBuckets, numBuckets);
      var newBuckets, nonideal := Redistribute(buckets, hash, pushed, ideal);
      Install(newBuckets, ideal, nonideal, visited);
    }

    /** The end of HASH_EXPAND_BUCKETS. */
    method Install(newBuckets: array<Bucket>, ideal: nat, nonideal: nat, ghost newPushed: seq<Node>)
      requires newBuckets.Length == 2 * numBuckets == Pow2(log2NumBuckets + 1)
      requires Moved(newBuckets, hash, newPushed, ideal, nonideal)
      modifies this
      ensures Table() && pushed == newPushed && buckets == newBuckets
      ensures unchanged(`head) && unchanged(`tail) && unchanged(`order) && unchanged(`numItems)
      ensures numBuckets == 2 * old(numBuckets) && idealChainMaxlen == ideal && nonidealItems == nonideal
      ensures nonidealItems == Beyond(hash, pushed, numBuckets, idealChainMaxlen)
      ensures ineffExpands == if nonidealItems > numItems / 2 then old(ineffExpands) + 1 else 0
      ensures noexpand == (old(noexpand) || ineffExpands > 1)
    {
      hide BucketsOk, NoDup, Beyond, Pow2;
      idealChainMaxlen, nonidealItems := ideal, nonideal;
      pushed := newPushed;
      numBuckets := numBuckets * 2;
      log2NumBuckets := log2NumBuckets + 1;
      buckets := newBuckets;
      ineffExpands := if nonidealItems > numItems / 2 then ineffExpands + 1 else 0;
      if ineffExpands > 1 {
        noexpand := true;
      }
    }

    /** With one element more, the bucket asks for an expansion, and expansions have not been given up. */
    ghost predicate Fills(add: Node)
      reads this`pushed, this`buckets, this`numBuckets, this`noexpand, buckets
    {
      var b := HashToBkt(hash(add.key), numBuckets);
      && 0 < numBuckets == buckets.Length && !noexpand
      && |Chain(hash, pushed, numBuckets, b)| + 1 >= (buckets[b].expandMult + 1) * CAPACITY_THRESH
    }

    /** The bucket part of HASH_ADD_KEYPTR, which expands the table if and only if the element fills its bucket. */
    method AddToBkt(add: Node)
      requires Table() && numItems > 0 && add !in pushed && Hashed(hash, pushed + [add])
      modifies this, buckets, add`hhPrev, add`hhNext, pushed`hhPrev, pushed`hhNext
      ensures Table() && Same(pushed, old(pushed) + [add]) && (fresh(buckets) || buckets == old(buckets))
      ensures unchanged(`head) && unchanged(`tail) && unchanged(`order) && unchanged(`numItems)
      ensures if old(Fills(add)) then
                numBuckets == 2 * old(numBuckets) && idealChainMaxlen == CeilingOf(numItems, numBuckets)
              else numBuckets == old(numBuckets) && buckets == old(buckets) && pushed == old(pushed) + [add]
    {
      hide *;
      HashedLast(hash, pushed, add);
      var full := PushAdded(add);
      SameSelf(pushed);
      if full {
        Expand();
      }
    }

    /** The element goes to the front of its bucket; the answer is whether the bucket asks for an expansion. */
    method PushAdded(add: Node) returns (full: bool)
      requires Table() && add !in pushed && add.hashv == hash(add.key)
      modifies this`pushed, buckets, add`hhPrev, add`hhNext, pushed`hhPrev
      ensures Table() && pushed == old(pushed) + [add] && full == old(Fills(add))
    {
      NoDupPlus(pushed, add);
      hide BucketsOk, NoDup, Pow2, Fills;
      full := PushInto(add);
      pushed := pushed + [add];
    }

    method PushInto(add: Node) returns (full: bool)
      requires numBuckets == buckets.Length > 0 && BucketsOk(buckets, hash, pushed) && NoDup(pushed) && add !in pushed
      requires add.hashv == hash(add.key)
      modifies buckets, add`hhPrev, add`hhNext, pushed`hhPrev
      ensures BucketsOk(buckets, hash, pushed + [add]) && full == old(Fills(add))
    {
      hide BucketsOk, NoDup, HashToBkt, Chain;
      var b := HashToBkt(add.hashv, numBuckets);
      ChainAdded(hash, pushed, numBuckets, b, add);
      Push(buckets, hash, pushed, add);
      full := Crowded(buckets[b]) && !noexpand;
    }

    /** The list part, and a new table for the first element. */
    method Enlist(add: Node)
      requires Valid() && add !in order
      modifies this, order`next, add`next, add`prev
      ensures AppOrder() && order == old(order) + [add] && Table() && Same(pushed, old(order))
      ensures fresh(buckets) || (buckets == old(buckets) && pushed == old(pushed))
      ensures numItems > 0
    {
      hide Table, Same, Hashed, AppLinked, NoDup;
      var first := head == null;
      ghost var was := order;
      SameSelf(pushed);
      SameSymmetric(order, pushed);
      assert first <==> order == [];
      Append(add);
      if first {
        MakeTable();
        SameSelf(pushed);
      }
    }

    method SetHash(add: Node, ghost was: seq<Node>)
      requires order == was + [add] && Hashed(hash, was)
      modifies add`hashv
      ensures Hashed(hash, order)
    {
      add.hashv := hash(add.key);
    }

    /** The bucket part for an element that is already in the list. */
    method Join(add: Node, ghost was: seq<Node>)
      requires AppOrder() && order == was + [add] && Table() && Same(pushed, was) && Hashed(hash, was)
      requires numItems > 0 && add !in was
      modifies this, buckets, add`hashv, add`hhPrev, add`hhNext, was`hhPrev, was`hhNext
      ensures order == old(order) && AppOrder() && Table() && Same(order, pushed) && Hashed(hash, order)
      ensures fresh(buckets) || buckets == old(buckets)
    {
      hide AppOrder, Table, Same, Hashed;
      ghost var before := pushed;
      SameMembers(before, was, add);
      SetHash(add, was);
      HashedSame(hash, was, before, add);
      AddToBkt(add);
      SameAdded(pushed, before, was, add);
    }

    /** HASH_ADD_KEYPTR: the element becomes the last of the list, and one of its bucket. */
    method Add(add: Node)
      requires Valid() && add !in order
      modifies this, buckets, add, order
      ensures Valid() && order == old(order) + [add] && (fresh(buckets) || buckets == old(buckets))
    {
      ghost var was := order;
      assert Hashed(hash, was);
      hide AppOrder, Table, Same, Hashed;
      Enlist(add);
      Join(add, was);
    }

    /** HASH_FSCK's sum over the buckets: the counts add up to the number of items. */
    lemma CountsAddUp()
      requires Valid() && order != []
      ensures CountAll(pushed, BucketBy(hash, numBuckets), numBuckets) == numItems
    {
      CountIsLength(pushed, BucketBy(hash, numBuckets), numBuckets);
      SameLength(order, pushed);
    }

    /** HASH_FIND: the walk along one chain decides for the whole table. */
    method Find(key: Key) returns (out: Node?)
      requires Valid()
      ensures out != null ==> out in order && out.key == key
      ensures out == null ==> forall i :: 0 <= i < |order| ==> order[i].key != key
    {
      out := null;
      assert head == null <==> order == [];
      if head != null {
        ghost var chain := Chain(hash, pushed, numBuckets, HashToBkt(hash(key), numBuckets));
        assert BucketOk(buckets[HashToBkt(hash(key), numBuckets)], chain);
        out := FindInBkt(buckets[HashToBkt(hash(key), numBuckets)], key, chain);
        NotInChain(order, key, out);
      }
    }

    lemma NotInChain(list: seq<Node>, key: Key, out: Node?)
      requires numBuckets > 0 && Same(list, pushed)
      requires var chain := Chain(hash, pushed, numBuckets, HashToBkt(hash(key), numBuckets));
               if out == null then forall i :: 0 <= i < |chain| ==> chain[i].key != key else out in chain
      ensures out == null ==> forall i :: 0 <= i < |list| ==> list[i].key != key
      ensures out != null ==> out in list
    {
      var b := HashToBkt(hash(key), numBuckets);
      var chain := Chain(hash, pushed, numBuckets, b);
      forall i | 0 <= i < |list| && out == null ensures list[i].key != key {
        InChain(hash, pushed, numBuckets, b, list[i]);
        assert list[i] in pushed;
      }
      if out != null {
        InChain(hash, pushed, numBuckets, b, out);
      }
    }

    /** HASH_DELETE: also of the only element, which frees the table. */
    method Delete(del: Node)
      requires Valid() && del in order
      modifies this, buckets, order
      ensures Valid() && order == Remove(old(order), del) && buckets == old(buckets)
    {
      hide *;
      ghost var k := IndexOf(order, del);
      Located(del, k);
      if del.prev == null && del.next == null {
        Clear();
      } else {
        DeleteOneOfMany(del, k);
      }
      Together();
    }

    /** An element of the list, at place `k`. */
    lemma Located(del: Node, k: nat)
      requires Valid() && del in order && k == IndexOf(order, del)
      ensures k < |order| && order[k] == del && Remove(order, del) == Without(order, k)
      ensures AppOrder() && Table() && Same(order, pushed) && Hashed(hash, order) && del in pushed
      ensures del.prev == null && del.next == null <==> |order| == 1
      ensures |order| == 1 ==> Without(order, k) == []
    {
      hide Table, Hashed, Ends;
      RemoveIs(order, k);
      LoneElement(order, k);
    }

    lemma Together()
      requires AppOrder() && (order == [] || (Table() && Same(order, pushed) && Hashed(hash, order)))
      ensures Valid()
    {
      hide AppOrder, Table, Same, Hashed;
    }

    /** The list without its only element. */
    method Clear()
      modifies this`head, this`order, this`pushed
      ensures AppOrder() && order == []
    {
      head := null;
      order, pushed := [], [];
    }

    method DeleteOneOfMany(del: Node, ghost k: nat)
      requires AppOrder() && Table() && Same(order, pushed) && Hashed(hash, order)
      requires |order| > 1 && k < |order| && order[k] == del && del in pushed
      modifies this, buckets, order
      ensures AppOrder() && Table() && Same(order, pushed) && Hashed(hash, order)
      ensures order == Without(old(order), k) && buckets == old(buckets)
    {
      hide *;
      Leaving(k);
      ghost var was := order;
      HashedAt(hash, was, k);
      Unlink(del, k);
      Unbucket(del);
      HashedWithout(hash, was, k);
    }

    /** What remains without the element at place `k`. */
    lemma Leaving(k: nat)
      requires AppOrder() && Table() && Same(order, pushed) && k < |order| && order[k] in pushed
      ensures Same(Without(order, k), Remove(pushed, order[k]))
      ensures forall i :: 0 <= i < |pushed| ==> pushed[i] in order
    {
      hide BucketsOk, AppLinked, Ends, NoDup, Without, Remove;
      SameWithout(order, pushed, k);
    }

    method Unbucket(del: Node)
      requires Table() && del in pushed && del.hashv == hash(del.key)
      modifies this`pushed, buckets, pushed`hhPrev, pushed`hhNext
      ensures Table() && pushed == Remove(old(pushed), del)
    {
      hide BucketsOk, NoDup, Remove, IndexOf, Pow2;
      RemoveIs(pushed, IndexOf(pushed, del));
      Pull(buckets, hash, pushed, del);
      pushed := Remove(pushed, del);
    }

    /** HASH_REPLACE: whatever had the key goes, the new element comes last. */
    method Replace(add: Node) returns (replaced: Node?)
      requires Valid() && (add !in order || DistinctKeys(order))
      modifies this, buckets, add, order
      ensures Valid() && (replaced != null ==> replaced in old(order) && replaced.key == add.key)
      ensures replaced == null ==> forall i :: 0 <= i < |old(order)| ==> old(order)[i].key != add.key
      ensures order == (if replaced == null then old(order) else Remove(old(order), replaced)) + [add]
      ensures old(DistinctKeys(order)) ==> DistinctKeys(order)
    {
      hide Valid, DistinctKeys, NoDup, IndexOf;
      ghost var was := order;
      ValidNoDup();
      replaced := Find(add.key);
      Replacing(was, replaced, add);
      if replaced != null {
        DeleteThenAdd(replaced, add);
      } else {
        Add(add);
      }
    }

    lemma ValidNoDup()
      requires Valid()
      ensures NoDup(order)
    {
    }

    method DeleteThenAdd(del: Node, add: Node)
      requires Valid() && del in order && add !in Remove(order, del)
      modifies this, buckets, add, order
      ensures Valid() && order == Remove(old(order), del) + [add]
    {
      hide *;
      ghost var was := order;
      RemoveInside(order, del);
      Delete(del);
      Add(add);
    }
  }

  lemma RemoveInside(s: seq<Node>, x: Node)
    ensures forall i :: 0 <= i < |Remove(s, x)| ==> Remove(s, x)[i] in s
  {
    var k := IndexOf(s, x);
    assert forall i :: 0 <= i < |Remove(s, x)| ==> Remove(s, x)[i] == s[if i < k then i else i + 1];
  }

  lemma HashedAt(hash: Key -> nat, s: seq<Node>, k: nat)
    requires k < |s| && Hashed(hash, s)
    ensures s[k].hashv == hash(s[k].key)
  {
  }

  lemma HashedLast(hash: Key -> nat, s: seq<Node>, x: Node)
    requires Hashed(hash, s + [x])
    ensures x.hashv == hash(x.key)
  {
    HashedAt(hash, s + [x], |s|);
  }

  lemma HashedPart(hash: Key -> nat, s: seq<Node>, part: seq<Node>)
    requires Hashed(hash, s) && forall i :: 0 <= i < |part| ==> part[i] in s
    ensures Hashed(hash, part)
  {
  }

  /** Hash values known for a list hold for any list of the same elements. */
  lemma HashedSame(hash: Key -> nat, was: seq<Node>, pushed: seq<Node>, add: Node)
    requires Hashed(hash, was + [add]) && Same(pushed, was)
    ensures Hashed(hash, pushed + [add])
  {
    var whole := was + [add];
    assert whole[|was|] == add;
    forall i | 0 <= i < |pushed| ensures pushed[i].hashv == hash(pushed[i].key) {
      assert pushed[i] in was;
      var k :| 0 <= k < |was| && was[k] == pushed[i];
      assert whole[k] == pushed[i];
    }
  }

  lemma HashedWithout(hash: Key -> nat, order: seq<Node>, k: nat)
    requires k < |order| && Hashed(hash, order)
    ensures Hashed(hash, Without(order, k))
  {
    var rest := Without(order, k);
    forall i | 0 <= i < |rest| ensures rest[i].hashv == hash(rest[i].key) {
      assert rest[i] == order[if i < k then i else i + 1];
    }
  }

  /** HASH_FIND_IN_BKT */
  method FindInBkt(bucket: Bucket, key: Key, ghost chain: seq<Node>) returns (out: Node?)
    requires BucketOk(bucket, chain)
    ensures if out == null then forall i :: 0 <= i < |chain| ==> chain[i].key != key else out in chain && out.key == key
  {
    out := bucket.head;
    ghost var j := 0;
    while out != null && out.key != key
      invariant j <= |chain| && out == (if j < |chain| then chain[j] else null)
      invariant forall i :: 0 <= i < j ==> chain[i].key != key
      decreases |chain| - j
    {
      out := out.hhNext;
      j := j + 1;
    }
  }

  /** An element without neighbours is the only one. */
  lemma LoneElement(order: seq<Node>, k: nat)
    requires AppLinked(order) && k < |order|
    ensures order[k].prev == null && order[k].next == null <==> |order| == 1
    ensures |order| == 1 ==> Without(order, k) == []
  {
  }

  lemma SameWithout(a: seq<Node>, b: seq<Node>, k: nat)
    requires NoDup(a) && NoDup(b) && Same(a, b) && k < |a| && a[k] in b
    ensures Same(Without(a, k), Remove(b, a[k]))
  {
    var l := IndexOf(b, a[k]);
    RemoveIs(a, k);
    RemoveIs(b, l);
    var c, d := Without(a, k), Remove(b, a[k]);
    forall i | 0 <= i < |c| ensures c[i] in d {
      assert c[i] in Remove(a, a[k]);
      RemoveMember(a, k, c[i]);
      RemoveMember(b, l, c[i]);
    }
    forall i | 0 <= i < |d| ensures d[i] in c {
      assert d[i] in d;
      RemoveMember(b, l, d[i]);
      RemoveMember(a, k, d[i]);
    }
  }

  /** What is left when the element with the new element's key is gone. */
  lemma Replacing(order: seq<Node>, replaced: Node?, add: Node)
    requires NoDup(order) && (add !in order || DistinctKeys(order))
    requires if replaced == null then forall i :: 0 <= i < |order| ==> order[i].key != add.key
             else replaced in order && replaced.key == add.key
    ensures var rest := if replaced == null then order else Remove(order, replaced);
            add !in rest && (DistinctKeys(order) ==> DistinctKeys(rest + [add]))
  {
    if replaced != null {
      var k := IndexOf(order, replaced);
      RemoveIs(order, k);
      RemoveMember(order, k, add);
    }
  }

  lemma SameSymmetric(a: seq<Node>, b: seq<Node>)
    ensures Same(a, b) <==> Same(b, a)
  {
  }

  lemma SameMembers(a: seq<Node>, b: seq<Node>, n: Node)
    requires Same(a, b)
    ensures n in a <==> n in b
    ensures forall i :: 0 <= i < |a| ==> a[i] in b
  {
  }

  /** Elements added to two lists that hold the same. */
  lemma SameAdded(now: seq<Node>, a: seq<Node>, b: seq<Node>, n: Node)
    requires Same(a, b) && Same(now, a + [n])
    ensures Same(b + [n], now)
  {
    forall i | 0 <= i < |b + [n]| ensures (b + [n])[i] in now {
      var x := (b + [n])[i];
      assert x in a + [n] by {
        if i < |b| { assert b[i] in a; } else { assert (a + [n])[|a|] == n; }
      }
      var k :| 0 <= k < |a + [n]| && (a + [n])[k] == x;
      assert (a + [n])[k] in now;
    }
    forall i | 0 <= i < |now| ensures now[i] in b + [n] {
      assert now[i] in a + [n];
      var k :| 0 <= k < |a + [n]| && (a + [n])[k] == now[i];
      if k < |a| { assert a[k] in b; } else { assert (b + [n])[|b|] == n; }
    }
  }

  lemma SameSelf(s: seq<Node>)
    ensures Same(s, s)
  {
  }

  lemma NoDupPlus(s: seq<Node>, add: Node)
    requires NoDup(s) && add !in s
    ensures NoDup(s + [add])
  {
  }

  /** An expansion visits every element once. */
  lemma VisitedSame(hash: Key -> nat, pushed: seq<Node>, nb: nat)
    requires nb > 0 && NoDup(pushed)
    ensures Same(Visited(hash, pushed, nb, nb), pushed) && NoDup(Visited(hash, pushed, nb, nb))
  {
    VisitedDistinct(hash, pushed, nb, nb);
    VisitedInside(hash, pushed, nb, nb);
    forall i | 0 <= i < |pushed| ensures pushed[i] in Visited(hash, pushed, nb, nb) {
      VisitedMember(hash, pushed, nb, nb, pushed[i]);
    }
  }
}
