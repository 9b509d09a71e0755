/** Whole datagrams of the device: coap_serialize_message and coap_parse_message as functions.

    `Written` is what the serializer puts into the buffer, `Interpreted` what the parser makes of a
    well-formed datagram. Modules ErbiumWriter and ErbiumReader prove the two methods against them. */
module ErbiumMessage {
  import opened OptionFormat
  import opened SplitMerge
  import opened ErbiumPacket
  import opened ErbiumRoundTrip
  import opened ErbiumParse

  predicate PacketOk(p: Packet) {
    p.messageType < 4 && p.mid < 0x10000 && |p.token| <= TOKEN_LEN && FieldsOk(p.fields)
  }

  /* ---- The written options can be encoded ---- */

  lemma PiecesFit(n: nat, f: Field)
    requires FieldOk(n, f)
    ensures forall i :: 0 <= i < |Pieces(n, f)| ==> Fits(|Pieces(n, f)[i]|)
  {
    match KindOf(n)
    case Parted(separator) => PartsBounded(f.bytes, 0, 0, separator);
    case Repeated => AcceptFit(f.ns);
    case _ =>
  }

  lemma {:induction false} AcceptFit(ns: seq<nat>)
    requires forall i :: 0 <= i < |ns| ==> ns[i] < 0x10000
    ensures forall i :: 0 <= i < |AcceptPieces(ns)| ==> |AcceptPieces(ns)[i]| <= 4
  {
    if ns != [] {
      AcceptFit(ns[1..]);
    }
  }

  lemma {:induction false} NumberedEncodable(prev: nat, n: nat, pieces: seq<Bytes>)
    requires prev <= n && Fits(n - prev) && forall i :: 0 <= i < |pieces| ==> Fits(|pieces[i]|)
    ensures Encodable(prev, Numbered(n, pieces))
    ensures LastNumber(prev, Numbered(n, pieces)) == if pieces == [] then prev else n
    decreases |pieces|
  {
    if pieces != [] {
      NumberedEncodable(n, n, pieces[1..]);
      assert Numbered(n, pieces)[1..] == Numbered(n, pieces[1..]);
      LastOfCons(prev, n, pieces);
    }
  }

  lemma LastOfCons(prev: nat, n: nat, pieces: seq<Bytes>)
    requires pieces != []
    ensures LastNumber(prev, Numbered(n, pieces)) == LastNumber(n, Numbered(n, pieces[1..]))
  {
    var rest := Numbered(n, pieces[1..]);
    assert Numbered(n, pieces) == [Opt(n, pieces[0])] + rest;
  }

  /** The options of the field at position `i`, if it is set. */
  function OptionsAt(fields: Fields, i: nat): seq<Opt>
    requires FieldsOk(fields) && i < |ORDER|
  {
    if ORDER[i] in fields then Numbered(ORDER[i], Pieces(ORDER[i], fields[ORDER[i]])) else []
  }

  lemma OptionsUnfold(fields: Fields, i: nat)
    requires FieldsOk(fields) && i < |ORDER|
    ensures OptionsFrom(fields, i) == OptionsAt(fields, i) + OptionsFrom(fields, i + 1)
  {
    hide Numbered, Pieces, KindOf, FieldOk;
  }

  lemma OptionsAtEncodable(prev: nat, fields: Fields, i: nat)
    requires FieldsOk(fields) && i < |ORDER| && prev <= ORDER[i]
    ensures Encodable(prev, OptionsAt(fields, i))
    ensures prev <= LastNumber(prev, OptionsAt(fields, i)) <= ORDER[i]
  {
    var n := ORDER[i];
    OrderAscends(i);
    if n in fields {
      PiecesFit(n, fields[n]);
      hide Pieces, KindOf, FieldOk, Encodable;
      NumberedEncodable(prev, n, Pieces(n, fields[n]));
    }
  }

  lemma {:induction false} OptionsEncodable(prev: nat, fields: Fields, i: nat)
    requires FieldsOk(fields) && i <= |ORDER| && (i < |ORDER| ==> prev <= ORDER[i])
    ensures Encodable(prev, OptionsFrom(fields, i))
    decreases |ORDER| - i
  {
    hide Encodable, OptionsAt, LastNumber, FieldsOk;
    if i < |ORDER| {
      OptionsUnfold(fields, i);
      hide OptionsFrom;
      OrderAscends(i);
      OptionsAtEncodable(prev, fields, i);
      OptionsEncodable(LastNumber(prev, OptionsAt(fields, i)), fields, i + 1);
      EncodableSplit(prev, OptionsAt(fields, i), OptionsFrom(fields, i + 1));
    } else {
      NothingEncodable(prev);
    }
  }

  lemma NothingEncodable(prev: nat)
    ensures Encodable(prev, [])
  {
  }

  lemma OrderAscends(i: nat)
    requires i < |ORDER|
    ensures ORDER[i] <= SIZE && (i + 1 < |ORDER| ==> ORDER[i] < ORDER[i + 1])
  {
  }

  /* ---- Datagrams ---- */

  function OptionsOf(p: Packet): (opts: seq<Opt>)
    requires PacketOk(p)
    ensures Encodable(0, opts)
  {
    OptionsEncodable(0, p.fields, 0);
    OptionsFrom(p.fields, 0)
  }

  /** Header and token: version 1, type and token length in the first byte. */
  function Head(p: Packet): (h: Bytes)
    requires PacketOk(p)
    ensures |h| == 4 + |p.token|
  {
    [64 + 16 * p.messageType + |p.token|, p.code, p.mid / 256, p.mid % 256] + p.token
  }

  function Front(p: Packet): Bytes
    requires PacketOk(p)
  {
    Head(p) + EncodeAll(0, OptionsOf(p))
  }

  /** The datagram, unless header, token and options exceed the space reserved for them. */
  function Written(p: Packet): Option<Bytes>
    requires PacketOk(p)
  {
    if |Front(p)| <= MAX_HEADER_SIZE then Some(Front(p) + PayloadPart(p.payload)) else None
  }

  /** The option part of the datagram follows RFC 7252, with numbers that the option bitmap can hold. */
  predicate WellFormed(b: Bytes) {
    && |b| >= 4 && 4 + ParsedTokenLength(b) <= |b|
    && Decode(0, b[4 + ParsedTokenLength(b)..]).Some?
    && Mapped(Decode(0, b[4 + ParsedTokenLength(b)..]).value.options)
  }

  lemma HeadRead(p: Packet, tail: Bytes)
    requires PacketOk(p)
    ensures var b := Head(p) + tail;
            && b[0] / 64 == 1 && b[0] / 16 % 4 == p.messageType && b[1] == p.code
            && 256 * (b[2] as int) + b[3] as int == p.mid && ParsedTokenLength(b) == |p.token|
            && b[4..4 + |p.token|] == p.token && b[4 + |p.token|..] == tail
  {
    hide FieldsOk;
  }

  /** A datagram the serializer has written is well formed and carries the packet's options. */
  lemma WrittenDecodes(p: Packet)
    requires PacketOk(p)
    ensures var b := Front(p) + PayloadPart(p.payload);
            && WellFormed(b) && b[0] / 64 == 1 && b[0] / 16 % 4 == p.messageType && b[1] == p.code
            && 256 * (b[2] as int) + b[3] as int == p.mid && ParsedTokenLength(b) == |p.token|
            && b[4..4 + |p.token|] == p.token
            && Decode(0, b[4 + |p.token|..]) == Some(Body(OptionsOf(p), p.payload))
  {
    hide EncodeAll, PayloadPart, OptionsOf, Head, Decode, ParsedTokenLength, FieldsOk, Mapped, Encodable;
    var tail := EncodeAll(0, OptionsOf(p)) + PayloadPart(p.payload);
    assert Front(p) + PayloadPart(p.payload) == Head(p) + tail;
    HeadRead(p, tail);
    DecodeEncoded(0, OptionsOf(p), p.payload);
    OptionNumbers(p);
  }

  lemma OptionNumbers(p: Packet)
    requires PacketOk(p)
    ensures Mapped(OptionsOf(p))
  {
    NumbersFrom(p.fields, 0);
  }

  lemma {:induction false} NumbersFrom(fields: Fields, i: nat)
    requires FieldsOk(fields) && i <= |ORDER|
    ensures Mapped(OptionsFrom(fields, i))
    decreases |ORDER| - i
  {
    if i < |ORDER| {
      hide Pieces, FieldOk, KindOf;
      NumbersFrom(fields, i + 1);
      OrderAscends(i);
      if ORDER[i] in fields {
        NumbersOf(ORDER[i], Pieces(ORDER[i], fields[ORDER[i]]));
      }
    }
  }

  lemma {:induction false} NumbersOf(n: nat, pieces: seq<Bytes>)
    ensures forall k :: 0 <= k < |Numbered(n, pieces)| ==> Numbered(n, pieces)[k].number == n
    decreases |pieces|
  {
    if pieces != [] { NumbersOf(n, pieces[1..]); }
  }

  /** Every datagram that follows RFC 7252 is read inside its bounds, with the options it carries. */
  lemma WellFormedReadable(b: Bytes)
    requires WellFormed(b) && b[0] / 64 == 1
    ensures Readable(b)
    ensures var start := 4 + ParsedTokenLength(b);
            var body := Decode(0, b[start..]).value;
            var run := Run(map[], body.options);
            Interpreted(b)
            == if run.Refused? then Error(run.status)
               else Message(Packet(b[0] / 16 % 4, b[1], 256 * (b[2] as int) + b[3] as int, b[4..start], run.fields,
                                   CutTo(body.payload, MAX_CHUNK_SIZE)))
  {
    ParseIsDecode(map[], 0, b[4 + ParsedTokenLength(b)..]);
    hide Run, Decode, ParseFrom, Mapped, ParsedTokenLength, CutTo;
  }

  /** Parsing undoes serializing if and only if every field survives and the payload fits a chunk. */
  lemma PacketRoundTripIff(p: Packet)
    requires PacketOk(p) && Written(p).Some?
    ensures Readable(Written(p).value)
    ensures Interpreted(Written(p).value) == Message(p)
            <==> (forall n :: n in p.fields ==> Survives(n, p.fields[n])) && |p.payload| <= MAX_CHUNK_SIZE
  {
    WrittenDecodes(p);
    FieldsRoundTripIff(p.fields);
    WellFormedReadable(Written(p).value);
    hide Run, Survives, Front, FieldsOk, Decode, PayloadPart, OptionsOf, WellFormed, ParsedTokenLength, Interpreted,
        Readable;
  }
}
