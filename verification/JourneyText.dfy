/** A path on its way from the device to the controller and back, as sequences of bytes and options.

    The device splits its location into Location-Path options, the controller joins them to a URI text
    and splits that again into Uri-Path options, and the device joins those. */
module JourneyText {
  import opened OptionFormat
  import opened OptionOrder
  import opened OptionRead
  import opened SplitMerge
  import opened ErbiumPacket
  import opened ErbiumRoundTrip
  import opened ErbiumParse
  import opened ErbiumMessage
  import opened PduWalk
  import CoapPdu
  import U = UriText

  /* ---- The device's Location-Path options ---- */

  lemma {:induction false} ScanTo(a: Bytes, start: nat, j: nat, k: nat, split: Byte)
    requires start <= j <= k <= |a| && forall i :: j <= i < k ==> a[i] != split
    ensures Parts(a, start, j, split) == Parts(a, start, k, split)
    decreases k - j
  {
    if j < k { ScanTo(a, start, j + 1, k, split); }
  }

  /** Behind `head`, the serializer cuts a path of clean segments into exactly these segments. */
  lemma {:induction false} PartsOfPath(head: Bytes, segments: seq<Bytes>)
    requires U.Path(segments)
    ensures var a := head + Join(segments, SLASH);
            Parts(a, |head|, |head|, SLASH) == segments
    decreases |segments|
  {
    var a := head + Join(segments, SLASH);
    var v, rest := segments[0], segments[1..];
    assert U.Segment(v);
    var end := |head| + |v|;
    assert a[|head|..end] == v;
    assert forall i :: |head| <= i < end ==> a[i] == v[i - |head|];
    ScanTo(a, |head|, |head|, end, SLASH);
    if |segments| == 1 {
      assert Parts(a, end + 1, end + 2, SLASH) == [];
      assert [v] + [] == segments;
    } else {
      assert forall i :: 0 <= i < |rest| ==> rest[i] == segments[i + 1];
      var next := head + v + [SLASH];
      PartsOfPath(next, rest);
      assert a == next + Join(rest, SLASH);
      U.NoQuestion(rest);
      FirstOfJoin(rest);
      assert a[|next|] == Join(rest, SLASH)[0];
      ScanTo(a, |next|, |next|, |next| + 1, SLASH);
      assert [v] + rest == segments;
    }
  }

  lemma FirstOfJoin(segments: seq<Bytes>)
    requires U.Path(segments)
    ensures Join(segments, SLASH) != [] && Join(segments, SLASH)[0] != SLASH
  {
    assert U.Segment(segments[0]);
    assert segments[0][0] in segments[0];
  }

  lemma {:induction false} ValuesOfNumbered(m: nat, pieces: seq<Bytes>, n: nat)
    ensures ValuesOf(Numbered(m, pieces), n) == if m == n then pieces else []
    decreases |pieces|
  {
    if pieces != [] {
      ValuesOfNumbered(m, pieces[1..], n);
      assert Numbered(m, pieces)[1..] == Numbered(m, pieces[1..]);
      assert pieces == [pieces[0]] + pieces[1..];
    }
  }

  lemma {:induction false} OrderDistinct(i: nat, k: nat)
    requires i < k < |ORDER|
    ensures ORDER[i] < ORDER[k]
    decreases k - i
  {
    OrderAscends(i);
    if i + 1 < k { OrderDistinct(i + 1, k); }
  }

  /** The values written under one option number are the pieces of that field. */
  lemma {:induction false} ValuesFrom(fields: Fields, i: nat, k: nat)
    requires FieldsOk(fields) && i <= |ORDER| && k < |ORDER|
    ensures ValuesOf(OptionsFrom(fields, i), ORDER[k])
            == if i <= k && ORDER[k] in fields then Pieces(ORDER[k], fields[ORDER[k]]) else []
    decreases |ORDER| - i
  {
    hide *;
    if i < |ORDER| {
      ValuesFrom(fields, i + 1, k);
      OptionsUnfold(fields, i);
      ValuesOfSplit(OptionsAt(fields, i), OptionsFrom(fields, i + 1), ORDER[k]);
      ValuesAt(fields, i, k);
    } else {
      ValuesEnd(fields, i, ORDER[k]);
    }
  }

  lemma ValuesEnd(fields: Fields, i: nat, n: nat)
    requires FieldsOk(fields) && i == |ORDER|
    ensures ValuesOf(OptionsFrom(fields, i), n) == []
  {
  }

  lemma ValuesAt(fields: Fields, i: nat, k: nat)
    requires FieldsOk(fields) && i < |ORDER| && k < |ORDER|
    ensures ValuesOf(OptionsAt(fields, i), ORDER[k])
            == if i == k && ORDER[k] in fields then Pieces(ORDER[k], fields[ORDER[k]]) else []
  {
    hide Pieces, KindOf, FieldOk, Numbered;
    if i < k { OrderDistinct(i, k); } else if k < i { OrderDistinct(k, i); }
    if ORDER[i] in fields {
      ValuesOfNumbered(ORDER[i], Pieces(ORDER[i], fields[ORDER[i]]), ORDER[k]);
    }
  }

  lemma {:induction false} InValues(opts: seq<Opt>, i: nat)
    requires i < |opts|
    ensures opts[i].value in ValuesOf(opts, opts[i].number)
  {
    if i > 0 {
      InValues(opts[1..], i - 1);
    }
  }

  /** The device announces its path: these are the Location-Path options, and there is no query. */
  ghost predicate Announces(options: seq<Opt>, segments: seq<Bytes>) {
    && ValuesOf(options, LOCATION_PATH) == segments
    && (forall i :: 0 <= i < |options| ==> options[i].number != LOCATION_QUERY)
    && (forall i :: 0 <= i < |options| && options[i].number == LOCATION_PATH ==> U.Segment(options[i].value))
  }

  lemma OptionsAnnounce(p: Packet, segments: seq<Bytes>)
    requires PacketOk(p) && U.Path(segments) && LOCATION_QUERY !in p.fields
    requires LOCATION_PATH in p.fields && p.fields[LOCATION_PATH] == Text(Join(segments, SLASH))
    ensures Announces(OptionsOf(p), segments)
  {
    var options := OptionsOf(p);
    assert ORDER[6] == LOCATION_PATH && ORDER[12] == LOCATION_QUERY;
    ValuesFrom(p.fields, 0, 6);
    ValuesFrom(p.fields, 0, 12);
    PartsOfPath([], segments);
    assert [] + Join(segments, SLASH) == Join(segments, SLASH);
    assert Pieces(LOCATION_PATH, p.fields[LOCATION_PATH]) == segments;
    hide ValuesOf, OptionsOf, FieldsOk, KindOf, Pieces;
    forall i | 0 <= i < |options|
      ensures options[i].number != LOCATION_QUERY
      ensures options[i].number == LOCATION_PATH ==> U.Segment(options[i].value)
    {
      InValues(options, i);
    }
  }

  /* ---- The controller receives what the device has written ---- */

  lemma {:induction false} EncodableNarrow(prev: nat, opts: seq<Opt>)
    requires Encodable(prev, opts) && Mapped(opts) && |EncodeAll(prev, opts)| < WORD
    ensures Narrow(prev, opts)
    decreases opts
  {
    if opts != [] {
      assert forall i :: 0 <= i < |opts[1..]| ==> opts[1..][i] == opts[i + 1];
      EncodableNarrow(opts[0].number, opts[1..]);
    }
  }

  lemma WrittenNarrow(p: Packet)
    requires PacketOk(p) && Written(p).Some?
    ensures Narrow(0, OptionsOf(p))
  {
    OptionNumbers(p);
    hide OptionsOf, Mapped, EncodeAll, FieldsOk, Encodable, Narrow;
    EncodableNarrow(0, OptionsOf(p));
  }

  lemma WrittenAccepted(p: Packet, b: Bytes, length: nat)
    requires PacketOk(p) && Written(p).Some? && KnownCode(p.code)
    requires length + 2 <= |b| && b[..length] == Written(p).value
    ensures HeaderAccepted(b, length) && b[0] % 16 == |p.token|
    ensures Decode(0, b[4 + |p.token|..length]) == Some(Body(OptionsOf(p), p.payload))
  {
    hide Decode, OptionsOf, FieldsOk, KnownCode;
    var w := Written(p).value;
    WrittenDecodes(p);
    hide PayloadPart, Mapped, Written, Front;
    var start := 4 + |p.token|;
    assert b[0] == w[0] && b[1] == w[1];
    assert w[start..] == b[start..length];
  }

  lemma WrittenReceived(p: Packet, b: Bytes, length: nat)
    requires PacketOk(p) && Written(p).Some? && KnownCode(p.code)
    requires length + 2 <= |b| && b[..length] == Written(p).value
    ensures Accepted(b, length) && CoapPdu.OptsOf(b, length) == OptionsOf(p)
  {
    hide Decode, Walk, OptionsOf, FieldsOk, Narrow, Stands, AllUnwrapped, Written, KnownCode;
    WrittenAccepted(p, b, length);
    WrittenNarrow(p);
    var start := 4 + |p.token|;
    WalkIsDecode(b, start, length, 0);
    CoapPdu.OptsStand(b, length);
    StandsUnique(b, Walk(b, start, length, 0).options, OptionsOf(p), CoapPdu.OptsOf(b, length));
  }

  lemma StandsUnique(b: Bytes, options: seq<Found>, a: seq<Opt>, c: seq<Opt>)
    requires Stands(b, options, a) && Stands(b, options, c)
    ensures a == c
  {
  }

  /* ---- The controller asks for the path ---- */

  lemma {:induction false} PlaceLast(opts: seq<Opt>, n: nat)
    requires forall i :: 0 <= i < |opts| ==> opts[i].number <= n
    ensures Place(opts, n) == |opts|
  {
    if opts != [] {
      assert forall i :: 0 <= i < |opts[1..]| ==> opts[1..][i] == opts[i + 1];
      PlaceLast(opts[1..], n);
    }
  }

  lemma InsertLast(opts: seq<Opt>, o: Opt)
    requires forall i :: 0 <= i < |opts| ==> opts[i].number <= o.number
    ensures Insert(opts, o) == opts + [o]
  {
    PlaceLast(opts, o.number);
    hide Place;
  }

  lemma NumberedCons(n: nat, values: seq<Bytes>)
    requires values != []
    ensures Numbered(n, values)[0] == Opt(n, values[0]) && Numbered(n, values)[1..] == Numbered(n, values[1..])
    ensures [Opt(n, values[0])] + Numbered(n, values[1..]) == Numbered(n, values)
  {
  }

  /** Options added in the order of their numbers simply follow each other. */
  lemma {:induction false} InsertNumbered(opts: seq<Opt>, n: nat, values: seq<Bytes>)
    requires forall i :: 0 <= i < |opts| ==> opts[i].number <= n
    ensures InsertAll(opts, Numbered(n, values)) == opts + Numbered(n, values)
    decreases |values|
  {
    hide Insert, Numbered, InsertAll;
    if values == [] {
      NoneNumbered(n);
      CoapPdu.NoCalls(opts, Numbered(n, values));
      assert opts + [] == opts;
    } else {
      var o, rest := Opt(n, values[0]), Numbered(n, values[1..]);
      NumberedCons(n, values);
      InsertLast(opts, o);
      FirstCall(opts, o, rest);
      InsertNumbered(opts + [o], n, values[1..]);
      assert opts + [o] + rest == opts + ([o] + rest);
    }
  }

  lemma NoneNumbered(n: nat)
    ensures Numbered(n, []) == []
  {
  }

  lemma FirstCall(opts: seq<Opt>, o: Opt, rest: seq<Opt>)
    ensures InsertAll(opts, [o] + rest) == InsertAll(Insert(opts, o), rest)
  {
    hide Insert;
    assert ([o] + rest)[1..] == rest;
  }

  /** The options of the controller's request, with option 9 added after the path or not at all. */
  function Asked(segments: seq<Bytes>, oscore: Option<Bytes>): seq<Opt> {
    (if oscore.Some? then [Opt(OSCORE, oscore.value)] else []) + Numbered(URI_PATH, segments)
  }

  lemma AskedInserts(segments: seq<Bytes>, oscore: Option<Bytes>)
    ensures InsertAll([], Numbered(URI_PATH, segments)) == Asked(segments, None)
    ensures oscore.Some? ==> Insert(Asked(segments, None), Opt(OSCORE, oscore.value)) == Asked(segments, oscore)
  {
    hide Insert, Numbered, InsertAll;
    var path := Numbered(URI_PATH, segments);
    InsertNumbered([], URI_PATH, segments);
    assert [] + path == path;
    FirstNumbered(URI_PATH, segments);
    if oscore.Some? { InsertFirst(path, Opt(OSCORE, oscore.value)); }
  }

  lemma FirstNumbered(n: nat, values: seq<Bytes>)
    ensures Numbered(n, values) != [] ==> Numbered(n, values)[0].number == n
  {
  }

  lemma InsertFirst(opts: seq<Opt>, o: Opt)
    requires opts != [] ==> opts[0].number > o.number
    ensures Insert(opts, o) == [o] + opts
  {
    assert Place(opts, o.number) == 0;
    assert opts[..0] + [o] + opts[0..] == [o] + opts;
  }

  /* ---- The device recognises its path ---- */

  lemma {:induction false} MergePath(fields: Fields, n: nat, segments: seq<Bytes>)
    requires U.Path(segments) && KindOf(n) == Parted(SLASH) && n !in fields
    ensures Run(fields, Numbered(n, segments)) == Ok(fields[n := Text(Join(segments, SLASH))])
  {
    hide KindOf;
    var first := fields[n := Text(segments[0])];
    RunCons(fields, n, segments);
    RunParts(first, n, segments[1..], SLASH);
    assert U.Segment(segments[0]);
    MergeIsJoin(segments[0], segments[1..], SLASH);
    assert [segments[0]] + segments[1..] == segments;
    var text := Text(Join(segments, SLASH));
    assert first[n := text] == fields[n := text];
  }

  function Heard(segments: seq<Bytes>, oscore: Option<Bytes>): Fields {
    (if oscore.Some? then map[OSCORE := Present] else map[])[URI_PATH := Text(Join(segments, SLASH))]
  }

  lemma RunAsked(segments: seq<Bytes>, oscore: Option<Bytes>)
    requires U.Path(segments)
    ensures Run(map[], Asked(segments, oscore)) == Ok(Heard(segments, oscore))
  {
    var none: Fields := map[];
    MergePath(none, URI_PATH, segments);
    if oscore.Some? {
      var o := Opt(OSCORE, oscore.value);
      assert Apply(none, o) == Ok(map[OSCORE := Present]);
      MergePath(map[OSCORE := Present], URI_PATH, segments);
      hide Apply, KindOf, Numbered;
      var options := Asked(segments, oscore);
      assert options[0] == o && options[1..] == Numbered(URI_PATH, segments);
    } else {
      assert [] + Numbered(URI_PATH, segments) == Numbered(URI_PATH, segments);
    }
  }

  lemma AskedMapped(segments: seq<Bytes>, oscore: Option<Bytes>)
    ensures Mapped(Asked(segments, oscore))
  {
    NumbersOf(URI_PATH, segments);
  }

  /** What RFC 7252 reads in a request of the controller. */
  lemma RequestDecodes(head: Bytes, options: seq<Opt>, payload: Bytes)
    requires |head| >= 4 && |head| == 4 + head[0] % 16 <= 4 + TOKEN_LEN && Encodable(0, options) && Mapped(options)
    ensures var b := head + EncodeAll(0, options) + PayloadPart(payload);
            && b[0] == head[0] && ParsedTokenLength(b) == head[0] % 16 && b[4..|head|] == head[4..]
            && WellFormed(b) && Decode(0, b[|head|..]) == Some(Body(options, payload))
  {
    var tail := EncodeAll(0, options) + PayloadPart(payload);
    var b := head + EncodeAll(0, options) + PayloadPart(payload);
    assert b == head + tail && b[|head|..] == tail && b[4..|head|] == head[4..];
    hide EncodeAll, Decode, Encodable, Mapped, PayloadPart;
    DecodeEncoded(0, options, payload);
  }

  /** The device reads the controller's request: the path comes back whole. */
  lemma RequestHeard(head: Bytes, segments: seq<Bytes>, oscore: Option<Bytes>, payload: Bytes)
    requires U.Path(segments) && |head| >= 4 && head[0] / 64 == 1 && |head| == 4 + head[0] % 16 <= 4 + TOKEN_LEN
    requires Encodable(0, Asked(segments, oscore))
    ensures var b := head + EncodeAll(0, Asked(segments, oscore)) + PayloadPart(payload);
            && ErbiumParse.Readable(b) && Interpreted(b).Message?
            && Interpreted(b).packet.fields == Heard(segments, oscore)
            && Interpreted(b).packet.payload == CutTo(payload, MAX_CHUNK_SIZE)
            && Interpreted(b).packet.token == head[4..]
  {
    hide EncodeAll, Decode, Asked, Run, Encodable, Mapped, PayloadPart, CutTo, ParsedTokenLength, WellFormed,
        Interpreted,
         Heard, ErbiumParse.Readable;
    AskedMapped(segments, oscore);
    RequestDecodes(head, Asked(segments, oscore), payload);
    RunAsked(segments, oscore);
    WellFormedReadable(head + EncodeAll(0, Asked(segments, oscore)) + PayloadPart(payload));
  }
}
