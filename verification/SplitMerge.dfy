/** Erbium's splitting of a path into options, and the parser's merging of them.

    coap_serialize_array_option does not look at the byte right behind a splitter, and drops a
    splitter at the very end. `RoundTripIff` says for which texts merging gives the text back. */
module SplitMerge {
  import opened OptionFormat

  /** The parts the serializer writes: the part that starts at `start`, the scan being at `j`. */
  function Parts(a: Bytes, start: nat, j: nat, split: Byte): seq<Bytes>
    requires start <= j
    decreases |a| + 2 - j
  {
    if j > |a| then []
    else if j == |a| || a[j] == split then [a[start..j]] + Parts(a, j + 1, j + 2, split)
    else Parts(a, start, j + 1, split)
  }

  /** coap_merge_multi_option, part after part: the separator only goes behind something. */
  function MergeOne(acc: Bytes, part: Bytes, separator: Byte): Bytes {
    if |acc| > 0 then acc + [separator] + part else part
  }

  function Merge(acc: Bytes, parts: seq<Bytes>, separator: Byte): Bytes
    decreases |parts|
  {
    if parts == [] then acc else Merge(MergeOne(acc, parts[0], separator), parts[1..], separator)
  }

  function Join(parts: seq<Bytes>, separator: Byte): Bytes {
    if parts == [] then []
    else if |parts| == 1 then parts[0]
    else parts[0] + [separator] + Join(parts[1..], separator)
  }

  /** The scan ends on a splitter in the last place, which no option carries. */
  predicate Dangles(a: Bytes, j: nat, split: Byte)
    decreases |a| + 2 - j
  {
    if j > |a| then true
    else if j == |a| then false
    else if a[j] == split then Dangles(a, j + 2, split)
    else Dangles(a, j + 1, split)
  }

  function TrailingRun(a: Bytes, split: Byte): (n: nat)
    ensures n <= |a|
  {
    if a == [] || a[|a| - 1] != split then 0 else 1 + TrailingRun(a[..|a| - 1], split)
  }

  lemma {:induction false} MergeIsJoin(acc: Bytes, parts: seq<Bytes>, separator: Byte)
    requires acc != []
    ensures Merge(acc, parts, separator) == Join([acc] + parts, separator)
    decreases |parts|
  {
    if parts != [] {
      var next := acc + [separator] + parts[0];
      MergeIsJoin(next, parts[1..], separator);
      assert ([acc] + parts)[1..] == parts;
      JoinFirst(acc, parts, separator);
    }
  }

  lemma JoinFirst(acc: Bytes, parts: seq<Bytes>, separator: Byte)
    requires parts != []
    ensures Join([acc] + parts, separator) == Join([acc + [separator] + parts[0]] + parts[1..], separator)
  {
    var next := acc + [separator] + parts[0];
    assert ([acc] + parts)[1..] == parts && ([next] + parts[1..])[1..] == parts[1..];
    if |parts| > 1 {
      assert acc + [separator] + (parts[0] + [separator] + Join(parts[1..], separator))
          == next + [separator] + Join(parts[1..], separator);
    }
  }

  lemma JoinCons(part: Bytes, rest: seq<Bytes>, separator: Byte)
    requires rest != []
    ensures Join([part] + rest, separator) == part + [separator] + Join(rest, separator)
  {
    assert ([part] + rest)[1..] == rest;
  }

  /** Joining the parts restores the text from `start` on, but for a dangling splitter. */
  lemma {:induction false} JoinParts(a: Bytes, start: nat, j: nat, split: Byte)
    requires start <= j <= |a|
    ensures Parts(a, start, j, split) != []
    ensures Dangles(a, j, split) ==> start < |a|
    ensures Join(Parts(a, start, j, split), split) == if Dangles(a, j, split) then a[start..|a| - 1] else a[start..]
    decreases |a| - j
  {
    if j == |a| {
      assert Parts(a, start, j, split) == [a[start..j]];
    } else if a[j] == split {
      JoinAfterSplit(a, start, j, split);
    } else {
      JoinParts(a, start, j + 1, split);
    }
  }

  lemma {:induction false} JoinAfterSplit(a: Bytes, start: nat, j: nat, split: Byte)
    requires start <= j < |a| && a[j] == split
    ensures Parts(a, start, j, split) != []
    ensures Join(Parts(a, start, j, split), split) == if Dangles(a, j, split) then a[start..|a| - 1] else a[start..]
    decreases |a| - j, 0
  {
    hide Parts, Dangles, Join;
    SplitHere(a, start, j, split);
    var part, rest := a[start..j], Parts(a, j + 1, j + 2, split);
    if j + 2 <= |a| {
      JoinParts(a, j + 1, j + 2, split);
      JoinCons(part, rest, split);
      CutAt(a, start, j, |a|);
      if Dangles(a, j + 2, split) {
        CutAt(a, start, j, |a| - 1);
      }
    } else {
      NothingBehind(a, j, split);
      JoinSingle(part, split);
      assert [part] + rest == [part];
    }
  }

  lemma SplitHere(a: Bytes, start: nat, j: nat, split: Byte)
    requires start <= j < |a| && a[j] == split
    ensures Parts(a, start, j, split) == [a[start..j]] + Parts(a, j + 1, j + 2, split)
    ensures Dangles(a, j, split) == Dangles(a, j + 2, split)
  {
  }

  lemma NothingBehind(a: Bytes, j: nat, split: Byte)
    requires j + 1 == |a|
    ensures Parts(a, j + 1, j + 2, split) == [] && Dangles(a, j + 2, split)
  {
  }

  lemma JoinSingle(part: Bytes, split: Byte)
    ensures Join([part], split) == part
  {
  }

  lemma CutAt(a: Bytes, start: nat, j: nat, end: nat)
    requires start <= j < end <= |a|
    ensures a[start..end] == a[start..j] + [a[j]] + a[j + 1..end]
    ensures end == |a| ==> a[start..] == a[start..end] && a[j + 1..] == a[j + 1..end]
  {
  }

  /** Whether a splitter dangles is the parity of the run of splitters at the end. */
  lemma {:induction false} DanglesParity(a: Bytes, j: nat, split: Byte)
    requires j <= |a|
    ensures Dangles(a, j, split) <==> TrailingRun(a[j..], split) % 2 == 1
    decreases |a| - j
  {
    if j == |a| {
    } else if a[j] != split {
      DanglesParity(a, j + 1, split);
      RunOfTail(a[j..], split);
      assert a[j..][1..] == a[j + 1..];
    } else if j + 2 <= |a| {
      DanglesParity(a, j + 2, split);
      RunOfTail(a[j..], split);
      RunOfTail(a[j + 1..], split);
      assert a[j..][1..] == a[j + 1..] && a[j + 1..][1..] == a[j + 2..];
      assert a[j + 1] != split ==> TrailingRun(a[j + 1..], split) == TrailingRun(a[j + 2..], split);
    } else {
      assert a[j..] == [split];
      assert TrailingRun([split], split) == 1 + TrailingRun([split][..0], split);
    }
  }

  /** Dropping the first byte shortens the run only if everything is a splitter. */
  lemma {:induction false} RunOfTail(a: Bytes, split: Byte)
    requires a != []
    ensures TrailingRun(a, split) == if TrailingRun(a[1..], split) == |a| - 1 && a[0] == split then |a|
                                     else TrailingRun(a[1..], split)
  {
    var n := |a|;
    if n == 1 {
      assert a[..0] == [];
    } else {
      assert a[1..][n - 2] == a[n - 1] && a[1..][..n - 2] == a[..n - 1][1..];
      RunOfTail(a[..n - 1], split);
    }
  }

  /** The texts that come back: empty, or not starting with the splitter and with a run of splitters of
      even length at the end. */
  predicate Rejoins(a: Bytes, split: Byte) {
    a == [] || (a[0] != split && TrailingRun(a, split) % 2 == 0)
  }

  lemma RoundTripIff(a: Bytes, split: Byte)
    ensures Merge([], Parts(a, 0, 0, split), split) == a <==> Rejoins(a, split)
  {
    var parts := Parts(a, 0, 0, split);
    JoinParts(a, 0, 0, split);
    DanglesParity(a, 0, split);
    assert a[0..] == a;
    if a == [] {
      assert parts == [[]];
    } else if a[0] == split {
      assert parts[0] == [] && parts[1..] == Parts(a, 1, 2, split);
      MergeShort([], parts[1..], split);
      SizeAfterSplit(a, split);
    } else {
      FirstPart(a, 0, 0, split);
      MergeIsJoin(parts[0], parts[1..], split);
      assert [parts[0]] + parts[1..] == parts;
    }
  }

  function Size(parts: seq<Bytes>): nat {
    if parts == [] then 0 else |parts[0]| + 1 + Size(parts[1..])
  }

  /** A merge is never longer than its parts with one byte each, less one. */
  lemma {:induction false} MergeShort(acc: Bytes, parts: seq<Bytes>, separator: Byte)
    ensures |Merge(acc, parts, separator)| <= |acc| + Size(parts)
    ensures acc == [] && parts != [] ==> |Merge(acc, parts, separator)| < Size(parts)
    decreases |parts|
  {
    if parts != [] {
      MergeShort(MergeOne(acc, parts[0], separator), parts[1..], separator);
    }
  }

  lemma {:induction false} PartsSize(a: Bytes, start: nat, j: nat, split: Byte)
    requires start <= j <= |a|
    ensures Size(Parts(a, start, j, split)) <= |a| - start + 1
    decreases |a| - j
  {
    if j == |a| {
      assert Parts(a, start, j, split)[1..] == [];
    } else if a[j] == split {
      assert Parts(a, start, j, split)[1..] == Parts(a, j + 1, j + 2, split);
      if j + 2 <= |a| { PartsSize(a, j + 1, j + 2, split); }
    } else {
      PartsSize(a, start, j + 1, split);
    }
  }

  lemma SizeAfterSplit(a: Bytes, split: Byte)
    requires a != [] && a[0] == split
    ensures |Merge([], Parts(a, 1, 2, split), split)| < |a|
  {
    var rest := Parts(a, 1, 2, split);
    if 2 <= |a| {
      PartsSize(a, 1, 2, split);
    }
    MergeShort([], rest, split);
  }

  lemma {:induction false} FirstPart(a: Bytes, start: nat, j: nat, split: Byte)
    requires start <= j <= |a| && start < |a| && (j == start ==> a[start] != split)
    ensures Parts(a, start, j, split) != [] && Parts(a, start, j, split)[0] != []
    decreases |a| - j
  {
    if j < |a| && a[j] != split { FirstPart(a, start, j + 1, split); }
  }

  /** Parts of a text are never longer than the text. */
  lemma {:induction false} PartsBounded(a: Bytes, start: nat, j: nat, split: Byte)
    requires start <= j
    ensures forall i :: 0 <= i < |Parts(a, start, j, split)| ==> |Parts(a, start, j, split)[i]| <= |a|
    decreases |a| + 2 - j
  {
    if j > |a| {
    } else if j == |a| || a[j] == split {
      PartsBounded(a, j + 1, j + 2, split);
    } else {
      PartsBounded(a, start, j + 1, split);
    }
  }
}
