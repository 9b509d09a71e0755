/** What coap_parse_message makes of a datagram, as a function of its bytes.

    The parser is more lenient than RFC 7252: any byte 0xF_ starts the payload, a marker may be the
    last byte, and a length nibble of 15 is the length 15. It never looks at the end of the datagram
    while it reads an option; `Outside` marks the datagrams on which it leaves them or its bitmap. */
module ErbiumParse {
  import opened OptionFormat
  import opened ErbiumPacket
  import opened ErbiumRoundTrip

  const BITMAP_BITS: nat := 40

  /** The number behind a delta or length nibble. */
  function Reading(nibble: nat, b: Bytes): (t: Option<Taken>)
    ensures t.Some? ==> |t.value.rest| <= |b|
  {
    if nibble == 13 then if |b| < 1 then None else Some(Taken(13 + b[0] as int, b[1..]))
    else if nibble == 14 then
      if |b| < 2 then None else Some(Taken(14 + 255 + 256 * (b[0] as int) + b[1] as int, b[2..]))
    else Some(Taken(nibble, b))
  }

  /** One option, read without regard to what RFC 7252 reserves. */
  function ReadOption(b: Bytes): (s: Option<Single>)
    requires b != []
    ensures s.Some? ==> |s.value.rest| < |b|
  {
    var delta := Reading(b[0] / 16, b[1..]);
    if delta.None? then None else
    var length := Reading(b[0] % 16, delta.value.rest);
    if length.None? || |length.value.rest| < length.value.value then None else
    Some(Single(delta.value.value, length.value.rest[..length.value.value], length.value.rest[length.value.value..]))
  }

  datatype ParseResult = Outside | Refusal(status: nat) | Finished(fields: Fields, payload: Bytes)

  /** The parser's loop from an option header on, one option at a time. */
  function ParseFrom(fields: Fields, number: nat, b: Bytes): ParseResult
    decreases |b|
  {
    if b == [] then Finished(fields, [])
    else if b[0] / 16 == 15 then Finished(fields, CutTo(b[1..], MAX_CHUNK_SIZE))
    else
      var s := ReadOption(b);
      if s.None? || number + s.value.delta >= BITMAP_BITS then Outside else
      var next := Apply(fields, Opt(number + s.value.delta, s.value.value));
      if next.Refused? then Refusal(next.status)
      else ParseFrom(next.fields, number + s.value.delta, s.value.rest)
  }

  function ParsedTokenLength(b: Bytes): (t: nat)
    requires |b| >= 4
    ensures t <= TOKEN_LEN
  {
    if b[0] % 16 < TOKEN_LEN then b[0] % 16 else TOKEN_LEN
  }

  /** The datagrams the parser reads without leaving them. */
  predicate Readable(b: Bytes) {
    && |b| >= 4
    && (b[0] / 64 == 1 ==>
          && 4 + ParsedTokenLength(b) <= |b|
          && !ParseFrom(map[], 0, b[4 + ParsedTokenLength(b)..]).Outside?)
  }

  datatype Parsed = Error(status: nat) | Message(packet: Packet)

  function Interpreted(b: Bytes): Parsed
    requires Readable(b)
  {
    if b[0] / 64 != 1 then Error(BAD_REQUEST)
    else
      var start := 4 + ParsedTokenLength(b);
      match ParseFrom(map[], 0, b[start..])
      case Refusal(status) => Error(status)
      case Finished(fields, payload) =>
        Message(Packet(b[0] / 16 % 4, b[1], 256 * (b[2] as int) + b[3] as int, b[4..start], fields, payload))
  }

  /* ---- On what RFC 7252 allows, the parser reads what RFC 7252 says ---- */

  /** The option bitmap has a bit for every number. */
  predicate Mapped(opts: seq<Opt>) {
    forall i :: 0 <= i < |opts| ==> opts[i].number < BITMAP_BITS
  }

  lemma ReadsDecoded(b: Bytes)
    requires DecodeOption(b).Some?
    ensures b[0] / 16 != 15 && ReadOption(b) == DecodeOption(b)
  {
  }

  lemma ParseStep(fields: Fields, number: nat, b: Bytes)
    requires b != [] && DecodeOption(b).Some? && number + DecodeOption(b).value.delta < BITMAP_BITS
    ensures var s := DecodeOption(b).value;
            var next := Apply(fields, Opt(number + s.delta, s.value));
            ParseFrom(fields, number, b)
            == if next.Refused? then Refusal(next.status) else ParseFrom(next.fields, number + s.delta, s.rest)
  {
    ReadsDecoded(b);
    hide DecodeOption, ReadOption, Apply;
  }

  /** Whatever RFC 7252 decodes, the parser finds the same options and, cut to a chunk, the same payload. */
  lemma {:induction false} ParseIsDecode(fields: Fields, number: nat, b: Bytes)
    requires Decode(number, b).Some? && Mapped(Decode(number, b).value.options)
    ensures var body := Decode(number, b).value;
            var run := Run(fields, body.options);
            ParseFrom(fields, number, b)
            == if run.Refused? then Refusal(run.status) else Finished(run.fields, CutTo(body.payload, MAX_CHUNK_SIZE))
    decreases |b|
  {
    hide Apply, DecodeOption, ReadOption;
    if b != [] && b[0] != MARKER {
      var s := DecodeOption(b).value;
      var n := number + s.delta;
      var tail := Decode(n, s.rest).value;
      var options := [Opt(n, s.value)] + tail.options;
      assert Decode(number, b).value == Body(options, tail.payload);
      assert options[0] == Opt(n, s.value) && options[1..] == tail.options;
      ParseStep(fields, number, b);
      var next := Apply(fields, options[0]);
      if next.Ok? {
        assert Mapped(tail.options) by {
          forall i | 0 <= i < |tail.options| ensures tail.options[i].number < BITMAP_BITS {
            assert tail.options[i] == options[i + 1];
          }
        }
        ParseIsDecode(next.fields, n, s.rest);
      }
    }
  }
}
