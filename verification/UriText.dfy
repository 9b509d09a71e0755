/** Paths as text and as options: CoapPDU::setURI, getLocation and getURI.

    `UriOptions` and `Gather` follow the loops of the code. `PathOptions` and `GatherPath` say what
    they do on a path of non-empty segments: splitting at '/' and joining with '/'. */
module UriText {
  import opened OptionFormat
  import opened OptionOrder
  import opened SplitMerge

  const SLASH: Byte := 0x2F
  const QUESTION: Byte := 0x3F
  const AMPERSAND: Byte := 0x26

  const LOCATION_PATH: nat := 8
  const URI_PATH: nat := 11
  const URI_QUERY: nat := 15
  const LOCATION_QUERY: nat := 20

  /** strchr: the first place of `c` at or behind `from`, or the end of the text. */
  function Find(s: Bytes, from: nat, c: Byte): (i: nat)
    requires from <= |s|
    ensures from <= i <= |s| && (i < |s| ==> s[i] == c) && (forall k :: from <= k < i ==> s[k] != c)
    decreases |s| - from
  {
    if from == |s| || s[from] == c then from else Find(s, from + 1, c)
  }

  /** The scanning state of setURI: where it is, and the separator and option number in force. */
  datatype Scan = Scan(at: nat, split: Byte, number: nat)

  /** The segment setURI takes next, and the state behind it. */
  datatype Step = Step(value: Bytes, next: Scan)

  function NextSegment(s: Bytes, scan: Scan): (r: Step)
    requires scan.at + 1 < |s|
    ensures scan.at < r.next.at <= |s|
    ensures |r.value| <= |s|
  {
    var start := if s[scan.at] == scan.split then scan.at + 1 else scan.at;
    var end := Find(s, start, scan.split);
    if end < |s| then Step(s[start..end], scan.(at := end))
    else
      var query := Find(s, start, QUESTION);
      if query < |s| then Step(s[start..query], Scan(query + 1, AMPERSAND, URI_QUERY))
      else Step(s[start..], scan.(at := |s|))
  }

  /** The options setURI adds from a scanning state on; it stops when at most one character is left. */
  function ScanOptions(s: Bytes, scan: Scan): seq<Opt>
    requires scan.at <= |s|
    decreases |s| - scan.at
  {
    if scan.at + 1 >= |s| then []
    else [Opt(scan.number, NextSegment(s, scan).value)] + ScanOptions(s, NextSegment(s, scan).next)
  }

  /** The options setURI adds for a non-empty text. A single character is one path option. */
  function UriOptions(s: Bytes): seq<Opt> {
    if |s| == 1 then [Opt(URI_PATH, s)] else ScanOptions(s, Scan(0, SLASH, URI_PATH))
  }

  /* ---- Paths of non-empty segments ---- */

  predicate Segment(v: Bytes) {
    v != [] && SLASH !in v && QUESTION !in v && AMPERSAND !in v && 0 !in v
  }

  predicate Path(segments: seq<Bytes>) {
    segments != [] && forall i :: 0 <= i < |segments| ==> Segment(segments[i])
  }

  lemma FindIs(s: Bytes, from: nat, c: Byte, i: nat)
    requires from <= i <= |s| && (i < |s| ==> s[i] == c) && (forall k :: from <= k < i ==> s[k] != c)
    ensures Find(s, from, c) == i
  {
  }

  lemma {:induction false} NoQuestion(segments: seq<Bytes>)
    requires Path(segments)
    ensures QUESTION !in Join(segments, SLASH) && 0 !in Join(segments, SLASH)
    ensures |Join(segments, SLASH)| >= 1
  {
    assert Segment(segments[0]);
    if |segments| > 1 {
      assert forall i :: 0 <= i < |segments[1..]| ==> segments[1..][i] == segments[i + 1];
      NoQuestion(segments[1..]);
    }
  }

  lemma LastSegment(head: Bytes, v: Bytes)
    requires Segment(v)
    ensures var s := head + [SLASH] + v;
            NextSegment(s, Scan(|head|, SLASH, URI_PATH)) == Step(v, Scan(|s|, SLASH, URI_PATH))
  {
    var s := head + [SLASH] + v;
    assert s[|head| + 1..] == v;
    assert forall k :: |head| + 1 <= k < |s| ==> s[k] == v[k - |head| - 1];
    FindIs(s, |head| + 1, SLASH, |s|);
    FindIs(s, |head| + 1, QUESTION, |s|);
  }

  lemma MiddleSegment(head: Bytes, v: Bytes, tail: Bytes)
    requires Segment(v)
    ensures var s := head + [SLASH] + v + [SLASH] + tail;
            NextSegment(s, Scan(|head|, SLASH, URI_PATH)) == Step(v, Scan(|head| + 1 + |v|, SLASH, URI_PATH))
  {
    var s := head + [SLASH] + v + [SLASH] + tail;
    var end := |head| + 1 + |v|;
    assert s[|head| + 1..end] == v;
    assert forall k :: |head| + 1 <= k < end ==> s[k] == v[k - |head| - 1];
    FindIs(s, |head| + 1, SLASH, end);
  }

  /** Behind `head`, setURI reads "/" and a path as one path option for each segment. */
  lemma {:induction false} ScanPath(head: Bytes, segments: seq<Bytes>)
    requires Path(segments)
    ensures var s := head + [SLASH] + Join(segments, SLASH);
            ScanOptions(s, Scan(|head|, SLASH, URI_PATH)) == Numbered(URI_PATH, segments)
    decreases |segments|
  {
    hide NextSegment, Find;
    var s := head + [SLASH] + Join(segments, SLASH);
    var v, rest := segments[0], segments[1..];
    assert Segment(v);
    if |segments| == 1 {
      LastSegment(head, v);
      assert ScanOptions(s, Scan(|s|, SLASH, URI_PATH)) == [];
    } else {
      assert forall i :: 0 <= i < |rest| ==> rest[i] == segments[i + 1];
      MiddleSegment(head, v, Join(rest, SLASH));
      ScanPath(head + [SLASH] + v, rest);
      assert s == (head + [SLASH] + v) + [SLASH] + Join(rest, SLASH);
      assert |head + [SLASH] + v| == |head| + 1 + |v|;
    }
  }

  /** setURI turns "/" and a path into one Uri-Path option for each segment. */
  lemma PathOptions(segments: seq<Bytes>)
    requires Path(segments)
    ensures UriOptions([SLASH] + Join(segments, SLASH)) == Numbered(URI_PATH, segments)
  {
    NoQuestion(segments);
    ScanPath([], segments);
    assert [] + [SLASH] + Join(segments, SLASH) == [SLASH] + Join(segments, SLASH);
  }

  /* ---- Options to text ---- */

  /** What getLocation and getURI leave in the destination: they differ in the two option numbers. */
  datatype Gathered = Overflow | Text(text: Bytes, outLen: nat)

  /** One option: either gathering ends, or the text grows by the value and a separator. */
  datatype Gathering = Done(result: Gathered) | More(text: Bytes, inQuery: bool)

  function GatherOne(value: Bytes, isQuery: bool, text: Bytes, inQuery: bool, room: nat): (r: Gathering)
    requires text != []
    ensures r.More? ==> r.text != [] && |r.text| <= room && r.inQuery == (isQuery || inQuery)
  {
    var before := if isQuery && !inQuery then text[..|text| - 1] + [QUESTION] else text;
    if |before| + |value| > room then Done(Overflow)
    else if value == [SLASH] then Done(Text(before, 1))
    else if |before| + |value| + 1 > room then Done(Overflow)
    else More(before + value + [if isQuery || inQuery then AMPERSAND else SLASH], isQuery || inQuery)
  }

  /** The text gathered so far ends in a separator; `room` is the destination size without its NUL. */
  function Gather(options: seq<Opt>, path: nat, query: nat, text: Bytes, inQuery: bool, room: nat): Gathered
    requires text != []
    decreases options
  {
    if options == [] then Text(text[..|text| - 1], |text| - 1)
    else if options[0].number != path && options[0].number != query then
      Gather(options[1..], path, query, text, inQuery, room)
    else
      var r := GatherOne(options[0].value, options[0].number == query, text, inQuery, room);
      if r.Done? then r.result else Gather(options[1..], path, query, r.text, r.inQuery, room)
  }

  /** Every part followed by a '/'. */
  function Terminated(parts: seq<Bytes>): Bytes {
    if parts == [] then [] else parts[0] + [SLASH] + Terminated(parts[1..])
  }

  lemma {:induction false} TerminatedJoin(parts: seq<Bytes>)
    requires parts != []
    ensures Terminated(parts) == Join(parts, SLASH) + [SLASH]
  {
    if |parts| > 1 {
      TerminatedJoin(parts[1..]);
    } else {
      assert parts[1..] == [];
    }
  }

  /** What the destination receives for these parts behind `text`. */
  function PathResult(text: Bytes, parts: seq<Bytes>, room: nat): Gathered
    requires text != []
  {
    var all := text + Terminated(parts);
    if parts == [] || |all| <= room then Text(all[..|all| - 1], |all| - 1) else Overflow
  }

  lemma PathResultStep(text: Bytes, v: Bytes, rest: seq<Bytes>, room: nat)
    requires text != []
    ensures var next := text + v + [SLASH];
            PathResult(text, [v] + rest, room) == if |next| <= room then PathResult(next, rest, room) else Overflow
  {
    var next := text + v + [SLASH];
    assert ([v] + rest)[1..] == rest;
    assert next + Terminated(rest) == text + Terminated([v] + rest);
  }

  /** With path options that are segments and no query option, the destination receives the segments,
      each behind a '/', or is too small. */
  lemma {:induction false} GatherPath(options: seq<Opt>, path: nat, query: nat, text: Bytes, room: nat)
    requires text != [] && path != query
    requires forall i :: 0 <= i < |options| ==> options[i].number != query
    requires forall i :: 0 <= i < |options| && options[i].number == path ==> Segment(options[i].value)
    ensures Gather(options, path, query, text, false, room) == PathResult(text, ValuesOf(options, path), room)
    decreases options
  {
    hide PathResult, Segment, Terminated;
    if options == [] {
      NoParts(text, room);
    } else {
      var o, rest := options[0], options[1..];
      assert forall i :: 0 <= i < |rest| ==> rest[i] == options[i + 1];
      if o.number == path {
        GatherSegment(options, path, query, text, room);
        hide Gather;
        PathResultStep(text, o.value, ValuesOf(rest, path), room);
        GatherPath(rest, path, query, text + o.value + [SLASH], room);
      } else {
        GatherPath(rest, path, query, text, room);
        assert ValuesOf(options, path) == ValuesOf(rest, path);
      }
    }
  }

  lemma NoParts(text: Bytes, room: nat)
    requires text != []
    ensures PathResult(text, [], room) == Text(text[..|text| - 1], |text| - 1)
  {
    assert text + Terminated([]) == text;
  }

  /** Gathering from option `i` on. */
  lemma GatherFrom(options: seq<Opt>, i: nat, path: nat, query: nat, text: Bytes, inQuery: bool, room: nat)
    requires i <= |options| && text != []
    ensures var g := Gather(options[i..], path, query, text, inQuery, room);
            if i == |options| then g == Text(text[..|text| - 1], |text| - 1)
            else if options[i].number != path && options[i].number != query then
              g == Gather(options[i + 1..], path, query, text, inQuery, room)
            else
              var r := GatherOne(options[i].value, options[i].number == query, text, inQuery, room);
              g == if r.Done? then r.result else Gather(options[i + 1..], path, query, r.text, r.inQuery, room)
  {
    if i < |options| {
      assert options[i..][0] == options[i] && options[i..][1..] == options[i + 1..];
    }
  }

  lemma GatherSegment(options: seq<Opt>, path: nat, query: nat, text: Bytes, room: nat)
    requires text != [] && path != query && options != [] && options[0].number == path && Segment(options[0].value)
    ensures var next := text + options[0].value + [SLASH];
            Gather(options, path, query, text, false, room)
            == if |next| <= room then Gather(options[1..], path, query, next, false, room) else Overflow
  {
  }

  /** The 30-byte buffer of the controller holds "/" and the path exactly when the path has at most 27 bytes. */
  lemma GatherLocation(options: seq<Opt>, segments: seq<Bytes>, room: nat)
    requires Path(segments) && ValuesOf(options, LOCATION_PATH) == segments
    requires forall i :: 0 <= i < |options| ==> options[i].number != LOCATION_QUERY
    requires forall i :: 0 <= i < |options| && options[i].number == LOCATION_PATH ==> Segment(options[i].value)
    ensures Gather(options, LOCATION_PATH, LOCATION_QUERY, [SLASH], false, room)
            == if |Join(segments, SLASH)| + 2 <= room then Text([SLASH] + Join(segments, SLASH), 1 + |Join(segments,
                SLASH)|) else Overflow
  {
    GatherPath(options, LOCATION_PATH, LOCATION_QUERY, [SLASH], room);
    TerminatedJoin(segments);
    var all := [SLASH] + Terminated(segments);
    assert all[..|all| - 1] == [SLASH] + Join(segments, SLASH);
  }
}
