/** The path of a device's resource, all the way: announced by the device as Location-Path, read by the
    controller into its 30-byte buffer, sent back as Uri-Path, and recognised by the device. */
module Journey {
  import opened OptionFormat
  import opened OptionOrder
  import opened SplitMerge
  import opened ErbiumPacket
  import opened ErbiumRoundTrip
  import opened ErbiumParse
  import opened ErbiumMessage
  import ErbiumReader
  import ErbiumWriter
  import opened JourneyText
  import opened CoapPdu
  import PduWalk
  import OptionRead
  import U = UriText

  const LOCATION_SIZE: nat := 30

  /** A packet by which the device announces the path made of `segments`. */
  ghost predicate Announcing(p: Packet, segments: seq<Bytes>) {
    && PacketOk(p) && Written(p).Some? && PduWalk.KnownCode(p.code)
    && U.Path(segments) && LOCATION_QUERY !in p.fields
    && LOCATION_PATH in p.fields && p.fields[LOCATION_PATH] == Text(Join(segments, SLASH))
  }

  lemma ReceivedLocation(p: Packet, segments: seq<Bytes>, b: Bytes, length: nat)
    requires Announcing(p, segments) && |Join(segments, SLASH)| <= LOCATION_SIZE - 3
    requires length + 2 <= |b| && b[..length] == Written(p).value
    ensures PduWalk.Accepted(b, length) && |OptsOf(b, length)| > 0
    ensures U.Gather(OptsOf(b, length), U.LOCATION_PATH, U.LOCATION_QUERY, [U.SLASH], false, LOCATION_SIZE - 1)
            == U.Text([SLASH] + Join(segments, SLASH), 1 + |Join(segments, SLASH)|)
  {
    hide PacketOk, Written, PduWalk.KnownCode, OptsOf, PduWalk.Accepted, U.Gather;
    WrittenReceived(p, b, length);
    OptionsAnnounce(p, segments);
    var options := OptsOf(b, length);
    assert ValuesOf(options, LOCATION_PATH) != [];
    U.GatherLocation(options, segments, LOCATION_SIZE - 1);
  }

  /** process_acknowledgment: the controller takes the location out of a message it has checked. */
  method Learn(datagram: array<Byte>, length: nat, location: array<Byte>, ghost p: Packet, ghost segments: seq<Bytes>)
    requires Announcing(p, segments) && |Join(segments, SLASH)| <= LOCATION_SIZE - 3
    requires length + 2 <= datagram.Length && datagram[..length] == Written(p).value && 4 <= length
    requires location != datagram && LOCATION_SIZE <= location.Length
    modifies datagram, location
    ensures location[..|Join(segments, SLASH)| + 2] == [SLASH] + Join(segments, SLASH) + [0]
  {
    hide Announcing, Written, PduWalk.Walk, PduWalk.Accepted, U.Gather;
    ghost var b := datagram[..];
    assert b[..length] == datagram[..length];
    ReceivedLocation(p, segments, b, length);
    var pdu := new CoapPDU.FromBuffer(datagram, length);
    var result := pdu.Validate();
    assert pdu.pdu[..] == b;
    var status, outLen := pdu.GetLocation(location, LOCATION_SIZE);
  }

  lemma {:induction false} SegmentsShort(segments: seq<Bytes>, i: nat)
    requires i < |segments|
    ensures |segments[i]| <= |Join(segments, SLASH)|
  {
    if i > 0 { SegmentsShort(segments[1..], i - 1); }
  }

  lemma AskedSmall(segments: seq<Bytes>, oscore: Option<Bytes>)
    requires U.Path(segments) && |Join(segments, SLASH)| < LIMIT && (oscore.Some? ==> |oscore.value| < LIMIT)
    ensures U.UriOptions([SLASH] + Join(segments, SLASH)) == Numbered(URI_PATH, segments)
    ensures SmallCalls([], Numbered(URI_PATH, segments))
    ensures oscore.Some? ==> SmallStep(Asked(segments, None), Opt(OSCORE, oscore.value))
  {
    U.PathOptions(segments);
    forall i | 0 <= i < |segments| ensures |segments[i]| < LIMIT { SegmentsShort(segments, i); }
    NumberedAre(URI_PATH, segments);
    SmallNumbers([], Numbered(URI_PATH, segments));
  }

  lemma {:induction false} NumberedAre(n: nat, values: seq<Bytes>)
    ensures |Numbered(n, values)| == |values|
    ensures forall i :: 0 <= i < |values| ==> Numbered(n, values)[i] == Opt(n, values[i])
    decreases |values|
  {
    if values != [] { NumberedAre(n, values[1..]); }
  }

  /** The bytes of the controller's request: a header with token, the options, and a payload. */
  ghost predicate Asks(b: Bytes, segments: seq<Bytes>, token: Bytes, oscore: Option<Bytes>, payload: Bytes) {
    && Encodable(0, Asked(segments, oscore)) && |token| <= TOKEN_LEN
    && exists head: Bytes :: |head| == 4 + |token| && head[0] == 0x40 + |token| && head[4..] == token
                          && b == head + EncodeAll(0, Asked(segments, oscore)) + PayloadPart(payload)
  }

  /** A new message with a token. */
  method NewRequest(token: Bytes) returns (pdu: CoapPDU)
    requires 0 < |token| <= TOKEN_LEN
    ensures fresh(pdu) && fresh(pdu.pdu) && pdu.Building() && pdu.added == [] && !pdu.constructedFromBuffer
    ensures pdu.Start() == 4 + |token| && pdu.pdu[0] == 0x40 + |token| && pdu.pdu[4..pdu.Start()] == token
  {
    pdu := new CoapPDU();
    ghost var was := pdu.pdu[..4];
    var status := pdu.SetToken(token);
    ghost var now := pdu.pdu[..pdu.pduLength];
    TokenKeepsOptions(was, token);
    assert pdu.pdu[0] == now[0];
    assert pdu.pdu[4..4 + |token|] == now[4..4 + |token|];
  }

  /** The options of the request, in the controller's order: option 9 comes after the path. */
  method AddPath(pdu: CoapPDU, uri: Bytes, oscore: Option<Bytes>, ghost segments: seq<Bytes>)
    requires U.Path(segments) && uri == [SLASH] + Join(segments, SLASH) && |uri| < LIMIT
    requires oscore.Some? ==> |oscore.value| < LIMIT
    requires pdu.Building() && pdu.added == [] && !pdu.constructedFromBuffer
    modifies pdu, pdu.pdu
    ensures pdu.Building() && pdu.added == Asked(segments, oscore) && (fresh(pdu.pdu) || pdu.pdu == old(pdu.pdu))
    ensures pdu.Start() == old(pdu.Start()) && pdu.pdu[..pdu.Start()] == old(pdu.pdu[..pdu.Start()])
  {
    AskedSmall(segments, oscore);
    AskedInserts(segments, oscore);
    U.NoQuestion(segments);
    hide SmallStep, Small, Place, EncodeAll, Encodable, Asked, SmallCalls, U.UriOptions, Insert, InsertAll;
    var status := pdu.SetURI(uri);
    if oscore.Some? {
      status := pdu.AddOption(OSCORE, oscore.value);
    }
  }

  lemma RequestBytes(b: Bytes, head: Bytes, segments: seq<Bytes>, token: Bytes, oscore: Option<Bytes>, payload: Bytes)
    requires Encodable(0, Asked(segments, oscore)) && |token| <= TOKEN_LEN
    requires |head| == 4 + |token| && head[0] == 0x40 + |token| && head[4..] == token
    requires b == head + EncodeAll(0, Asked(segments, oscore)) + PayloadPart(payload)
    ensures Asks(b, segments, token, oscore, payload)
  {
  }

  /** process_receive_radius_msg: the request to the stored location. */
  method Ask(uri: Bytes, token: Bytes, oscore: Option<Bytes>, payload: Bytes, ghost segments: seq<Bytes>)
    returns (pdu: CoapPDU)
    requires U.Path(segments) && uri == [SLASH] + Join(segments, SLASH) && |uri| < LIMIT
    requires 0 < |token| <= TOKEN_LEN && payload != [] && (oscore.Some? ==> |oscore.value| < LIMIT)
    ensures fresh(pdu) && fresh(pdu.pdu) && pdu.Valid()
    ensures Asks(pdu.pdu[..pdu.pduLength], segments, token, oscore, payload)
  {
    pdu := NewRequest(token);
    ghost var head := pdu.pdu[..pdu.Start()];
    assert head[4..] == token;
    AddPath(pdu, uri, oscore, segments);
    hide Small, EncodeAll, Encodable, Asked, Asks;
    ghost var front := pdu.pdu[..pdu.pduLength];
    assert front == head + EncodeAll(0, pdu.added);
    assert front + PayloadPart([]) == front;
    var status := pdu.SetPayload(payload, front, []);
    RequestBytes(pdu.pdu[..pdu.pduLength], head, segments, token, oscore, payload);
  }

  lemma AsksHeard(b: Bytes, segments: seq<Bytes>, token: Bytes, oscore: Option<Bytes>, payload: Bytes)
    requires U.Path(segments) && Asks(b, segments, token, oscore, payload)
    ensures Readable(b) && Interpreted(b).Message?
    ensures Recognised(Interpreted(b).packet, segments, token, oscore, payload)
  {
    var head: Bytes :| |head| == 4 + |token| && head[0] == 0x40 + |token| && head[4..] == token
                       && b == head + EncodeAll(0, Asked(segments, oscore)) + PayloadPart(payload);
    hide EncodeAll, Encodable, Asked, Heard, Interpreted, Readable;
    RequestHeard(head, segments, oscore, payload);
  }

  /** The request as the device understands it: the path is its own, option 9 is noticed. */
  ghost predicate Recognised(r: Packet, segments: seq<Bytes>, token: Bytes, oscore: Option<Bytes>, payload: Bytes) {
    && URI_PATH in r.fields && r.fields[URI_PATH] == Text(Join(segments, SLASH))
    && r.fields.Keys == {URI_PATH} + (if oscore.Some? then {OSCORE} else {})
    && r.token == token && r.payload == CutTo(payload, MAX_CHUNK_SIZE)
  }

  /** strlen of the stored location. */
  method Strlen(text: array<Byte>) returns (n: nat)
    requires 0 in text[..]
    ensures n < text.Length && text[n] == 0 && 0 !in text[..n]
  {
    n := 0;
    while text[n] != 0
      invariant n < text.Length && 0 !in text[..n] && 0 in text[n..]
      decreases text.Length - n
    {
      assert text[..n + 1] == text[..n] + [text[n]] && text[n..] == [text[n]] + text[n + 1..];
      n := n + 1;
    }
  }

  /** The text up to the NUL is the path that was stored. */
  lemma StoredText(text: Bytes, n: nat, path: Bytes)
    requires 0 !in path && |path| < |text| && text[..|path| + 1] == path + [0]
    requires n < |text| && text[n] == 0 && 0 !in text[..n]
    ensures n == |path| && text[..n] == path
  {
    assert text[|path|] == (path + [0])[|path|] == 0;
    assert forall k :: 0 <= k < |path| ==> text[k] == (path + [0])[k] == path[k];
    assert text[..n] == text[..|path| + 1][..n];
  }

  /** The whole journey, through both codecs and back: whatever the announcing packet carries besides, the
      device recognises exactly the path it announced. */
  method ThereAndBack(p: Packet, token: Bytes, oscore: Option<Bytes>, payload: Bytes, ghost segments: seq<Bytes>)
    returns (packet: ErbiumReader.CoapPacket)
    requires Announcing(p, segments) && |Join(segments, SLASH)| <= LOCATION_SIZE - 3
    requires 0 < |token| <= TOKEN_LEN && payload != [] && (oscore.Some? ==> |oscore.value| < LIMIT)
    ensures Recognised(packet.Contents(), segments, token, oscore, payload)
  {
    hide Written, Front, PacketOk, PduWalk.KnownCode, Asks, Recognised, Interpreted, Readable, Join;
    FrontSize(p);
    var datagram := new Byte[MAX_HEADER_SIZE + |p.payload| + 3];
    var length := ErbiumWriter.SerializeMessage(p, datagram);
    var location := new Byte[LOCATION_SIZE];
    Learn(datagram, length, location, p, segments);
    ghost var uri := [SLASH] + Join(segments, SLASH);
    U.NoQuestion(segments);
    assert location[..][..|uri| + 1] == uri + [0];
    assert location[..][|uri|] == 0;
    var n := Strlen(location);
    assert location[..][..n] == location[..n];
    StoredText(location[..], n, uri);
    var pdu := Ask(location[..n], token, oscore, payload, segments);
    packet := Deliver(pdu, segments, token, oscore, payload);
  }

  lemma FrontSize(p: Packet)
    requires PacketOk(p) && Written(p).Some?
    ensures |Front(p)| <= MAX_HEADER_SIZE && 4 <= |Written(p).value| <= MAX_HEADER_SIZE + 1 + |p.payload|
  {
  }

  /** The request arrives in the device's buffer, one byte larger than the datagram, and is parsed there. */
  method Deliver(pdu: CoapPDU, ghost segments: seq<Bytes>, ghost token: Bytes, ghost oscore: Option<Bytes>,
      ghost payload: Bytes)
    returns (packet: ErbiumReader.CoapPacket)
    requires U.Path(segments) && pdu.Valid() && Asks(pdu.pdu[..pdu.pduLength], segments, token, oscore, payload)
    ensures Recognised(packet.Contents(), segments, token, oscore, payload)
  {
    hide Asks, Recognised, Interpreted, Readable;
    ghost var b := pdu.pdu[..pdu.pduLength];
    var data := new Byte[pdu.pduLength + 1];
    forall i | 0 <= i < pdu.pduLength {
      data[i] := pdu.pdu[i];
    }
    assert data[..pdu.pduLength] == b;
    AsksHeard(b, segments, token, oscore, payload);
    packet := new ErbiumReader.CoapPacket(data);
    var status := packet.ParseMessage(data, pdu.pduLength);
  }
}
