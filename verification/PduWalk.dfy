/** CoapPDU::validate and getOptions: the walk over a received message.

    `Walk` follows the code, 16-bit arithmetic included: extension bytes are checked by the
    nibble (one byte for nibble 14 as well, so up to two bytes behind the message are read), and
    the step to the next option uses the wrapped values. `WalkTiles` and `WalkIsDecode` say
    what an accepted walk means. */
module PduWalk {
  import opened OptionFormat
  import opened OptionRead

  /** CoapPDU::CoapOption, with positions for pointers. */
  datatype Found = Found(number: nat, delta: nat, length: nat, total: nat, position: nat) {
    function ValuePosition(): int {
      position + total - length
    }
  }

  datatype Walked = Bad | Good(options: seq<Found>, payload: Option<nat>)

  /** Room for the extension bytes, checked the way the code does. */
  predicate HeaderFits(b: Bytes, pos: nat, end: nat)
    requires pos < end <= |b|
  {
    Extra(b[pos] / 16) + Extra(b[pos] % 16) <= end - pos - 1
  }

  predicate PlainHeader(header: Byte) {
    header / 16 != 15 && header % 16 != 15
  }

  function Walk(b: Bytes, pos: nat, end: nat, number: nat): Walked
    requires pos <= end && end + 2 <= |b|
    decreases end - pos
  {
    if pos == end then Good([], None)
    else if b[pos] == MARKER then if end - pos > 1 then Good([], Some(pos + 1)) else Bad
    else if !PlainHeader(b[pos]) || !HeaderFits(b, pos, end) then Bad
    else if pos + OptionTotal(b, pos) > end then Bad
    else
      var found := FoundAt(b, pos, number);
      var rest := Walk(b, pos + found.total, end, found.number);
      if rest.Bad? then Bad else Good([found] + rest.options, rest.payload)
  }

  function FoundAt(b: Bytes, pos: nat, number: nat): Found
    requires Readable(b, pos)
  {
    Found((number + OptionDelta(b, pos)) % WORD, OptionDelta(b, pos), OptionLength(b, pos), OptionTotal(b, pos), pos)
  }

  /** The response and request codes validate lets through. */
  predicate KnownCode(code: Byte) {
    !(4 < code < 0x41 || 0x45 < code < 0x80 || 0x86 < code < 0x8C || code == 0x8E || 0x8F < code < 0xA0 || 0xA5 < code)
  }

  predicate HeaderAccepted(b: Bytes, length: nat)
    requires length <= |b|
  {
    length >= 4 && b[0] / 64 == 1 && b[0] % 16 <= 8 && 4 + b[0] % 16 <= length && KnownCode(b[1])
  }

  /** validate's verdict on the message in `b[..length]`. */
  predicate Accepted(b: Bytes, length: nat)
    requires length + 2 <= |b|
  {
    HeaderAccepted(b, length) && Walk(b, 4 + b[0] % 16, length, 0).Good?
  }

  /** A walk whose first options have already been recorded. */
  function Prepend(found: seq<Found>, w: Walked): Walked {
    if w.Bad? then Bad else Good(found + w.options, w.payload)
  }

  lemma PrependStep(found: seq<Found>, b: Bytes, pos: nat, end: nat, number: nat)
    requires pos < end && end + 2 <= |b| && b[pos] != MARKER
    requires PlainHeader(b[pos]) && HeaderFits(b, pos, end) && pos + OptionTotal(b, pos) <= end
    ensures var f := FoundAt(b, pos, number);
            Prepend(found, Walk(b, pos, end, number)) == Prepend(found + [f], Walk(b, pos + f.total, end, f.number))
  {
    hide OptionDelta, OptionLength;
    var f := FoundAt(b, pos, number);
    var w := Walk(b, pos + f.total, end, f.number);
    if w.Good? {
      assert found + ([f] + w.options) == (found + [f]) + w.options;
    }
  }

  lemma WalkAtEnd(b: Bytes, pos: nat, number: nat)
    requires pos + 2 <= |b|
    ensures Walk(b, pos, pos, number) == Good([], None)
  {
  }

  lemma WalkAtMarker(b: Bytes, pos: nat, end: nat, number: nat)
    requires pos <= end && end + 2 <= |b|
    ensures pos < end && b[pos] == MARKER ==>
              Walk(b, pos, end, number) == if end - pos > 1 then Good([], Some(pos + 1)) else Bad
  {
  }

  lemma WalkStops(b: Bytes, pos: nat, end: nat, number: nat)
    requires pos < end && end + 2 <= |b| && b[pos] != MARKER
    requires !PlainHeader(b[pos]) || !HeaderFits(b, pos, end) || pos + OptionTotal(b, pos) > end
    ensures Walk(b, pos, end, number) == Bad
  {
  }

  lemma WalkGoesOn(b: Bytes, pos: nat, end: nat, number: nat)
    requires pos <= end && end + 2 <= |b| && Walk(b, pos, end, number).Good?
    requires Walk(b, pos, end, number).options != []
    ensures pos < end && b[pos] != MARKER
    ensures PlainHeader(b[pos]) && HeaderFits(b, pos, end) && pos + OptionTotal(b, pos) <= end
  {
  }

  /** Where the options end: the payload marker, or the end of the message. */
  function OptionsEnd(w: Walked, end: nat): int
    requires w.Good?
  {
    if w.payload == None then end else w.payload.value - 1
  }

  /** The options lie one behind the other from `start` to `end`, each with its value inside. */
  predicate Tiled(options: seq<Found>, start: nat, end: nat)
    decreases options
  {
    if options == [] then start == end
    else
      && options[0].position == start < options[0].ValuePosition()
      && options[0].total == Extra(options[0].delta) + Extra(options[0].length) + 1 + options[0].length
      && Tiled(options[1..], start + options[0].total, end)
  }

  /** The options of an accepted message tile it from the token to the marker or the end, and the
      payload is what follows the marker. */
  lemma {:induction false} WalkTiles(b: Bytes, pos: nat, end: nat, number: nat)
    requires pos <= end && end + 2 <= |b| && Walk(b, pos, end, number).Good?
    ensures var w := Walk(b, pos, end, number);
            && pos <= OptionsEnd(w, end) <= end && Tiled(w.options, pos, OptionsEnd(w, end))
            && (w.payload.Some? ==> w.payload.value < end && b[w.payload.value - 1] == MARKER)
    decreases end - pos
  {
    hide OptionDelta, OptionLength;
    var w := Walk(b, pos, end, number);
    if pos < end && b[pos] != MARKER {
      var found := FoundAt(b, pos, number);
      WalkTiles(b, pos + found.total, end, found.number);
      var rest := Walk(b, pos + found.total, end, found.number);
      assert w.options[1..] == rest.options;
    }
  }

  lemma {:induction false} WalkNumbers(b: Bytes, pos: nat, end: nat, number: nat)
    requires pos <= end && end + 2 <= |b| && Walk(b, pos, end, number).Good?
    ensures forall i :: 0 <= i < |Walk(b, pos, end, number).options| ==>
            Walk(b, pos, end, number).options[i].number < WORD
    decreases end - pos
  {
    hide OptionDelta, OptionLength;
    if pos < end && b[pos] != MARKER {
      var f := FoundAt(b, pos, number);
      WalkNumbers(b, pos + f.total, end, f.number);
    }
  }

  /** Every value slice of a tiled region is inside it. */
  lemma {:induction false} TiledInside(options: seq<Found>, start: nat, end: nat)
    requires Tiled(options, start, end)
    ensures start <= end
    ensures forall i :: 0 <= i < |options| ==>
              start <= options[i].position < options[i].ValuePosition() <= options[i].position + options[i].total <= end
    decreases options
  {
    if options != [] {
      TiledInside(options[1..], start + options[0].total, end);
      assert forall i :: 1 <= i < |options| ==> options[i] == options[1..][i - 1];
    }
  }

  /* ---- Agreement with section 3.1 of RFC 7252 ---- */

  /** The two bytes behind nibble 14 do not carry the value past 16 bits. */
  predicate Unwrapped(b: Bytes, found: Found, number: nat)
    requires Readable(b, found.position)
  {
    var pos := found.position;
    var at := pos + 1 + DeltaReads(b[pos] / 16);
    && (b[pos] / 16 == 14 ==> Load16(b[pos + 1], b[pos + 2]) + 269 < WORD)
    && (b[pos] % 16 == 14 ==> Load16(b[at], b[at + 1]) + 269 < WORD)
    && number + found.delta < WORD
  }

  predicate AllUnwrapped(b: Bytes, options: seq<Found>, number: nat)
    decreases options
  {
    options != [] ==>
      && Readable(b, options[0].position) && Unwrapped(b, options[0], number)
      && AllUnwrapped(b, options[1..], options[0].number)
  }

  predicate Narrow(number: nat, options: seq<Opt>)
    decreases options
  {
    options != [] ==>
      && number <= options[0].number < WORD && |options[0].value| < WORD
      && Narrow(options[0].number, options[1..])
  }

  /** The option a found record stands for. */
  function OptOf(b: Bytes, found: Found): Opt
    requires 0 <= found.ValuePosition() && found.position + found.total <= |b|
  {
    Opt(found.number, b[found.ValuePosition()..found.position + found.total])
  }

  predicate Stands(b: Bytes, options: seq<Found>, opts: seq<Opt>) {
    |options| == |opts| && forall i :: 0 <= i < |options| ==>
      0 <= options[i].ValuePosition() && options[i].position + options[i].total <= |b|
          && OptOf(b, options[i]) == opts[i]
  }

  /** The payload position stands for the payload bytes. */
  predicate PayloadStands(b: Bytes, payload: Option<nat>, end: nat, bytes: Bytes)
    requires end <= |b|
  {
    if payload == None then bytes == [] else payload.value < end && bytes == b[payload.value..end]
  }

  /** The value of a nibble and its extension at `at`, before any 16-bit wrap. */
  function RawValue(b: Bytes, at: nat, nibble: nat): nat
    requires at + DeltaReads(nibble) <= |b|
  {
    if nibble == 13 then b[at] as int + 13 else if nibble == 14 then Load16(b[at], b[at + 1]) + 269 else nibble
  }

  lemma TakeAt(b: Bytes, at: nat, end: nat, nibble: nat)
    requires nibble < 15 && at + DeltaReads(nibble) <= end <= |b|
    ensures TakeNumber(nibble, b[at..end]) == Some(Taken(RawValue(b, at, nibble), b[at + DeltaReads(nibble)..end]))
    ensures Extra(RawValue(b, at, nibble)) == DeltaReads(nibble)
  {
    assert b[at..end][DeltaReads(nibble)..] == b[at + DeltaReads(nibble)..end];
  }

  lemma ReadRaw(b: Bytes, pos: nat, number: nat)
    requires Readable(b, pos) && PlainHeader(b[pos])
    requires Unwrapped(b, FoundAt(b, pos, number), number)
    ensures var high, low := b[pos] / 16, b[pos] % 16;
            && OptionDelta(b, pos) == RawValue(b, pos + 1, high) && LengthReads(low) == DeltaReads(low)
            && OptionLength(b, pos) == RawValue(b, pos + 1 + DeltaReads(high), low)
  {
  }

  /** A plain option header whose values do not wrap decodes, if its value fits before `end`. */
  lemma HeaderDecodes(b: Bytes, pos: nat, end: nat, number: nat)
    requires pos < end && end + 2 <= |b| && PlainHeader(b[pos]) && HeaderFits(b, pos, end)
    requires Unwrapped(b, FoundAt(b, pos, number), number)
    requires pos + OptionTotal(b, pos) <= end
    ensures var s := DecodeOption(b[pos..end]);
            && s.Some? && s.value.delta == OptionDelta(b, pos) && |s.value.value| == OptionLength(b, pos)
  {
    var high, low := b[pos] / 16, b[pos] % 16;
    var middle := pos + 1 + DeltaReads(high);
    ReadRaw(b, pos, number);
    hide OptionDelta, OptionLength, RawValue, TakeNumber, Unwrapped;
    assert b[pos..end][0] == b[pos] && b[pos..end][1..] == b[pos + 1..end];
    TakeAt(b, pos + 1, end, high);
    TakeAt(b, middle, end, low);
  }

  /** Conversely, an option that decodes to 16-bit values passes the walk's header checks. */
  lemma DecodesHeader(b: Bytes, pos: nat, end: nat, number: nat)
    requires pos < end && end + 2 <= |b| && DecodeOption(b[pos..end]).Some?
    requires var s := DecodeOption(b[pos..end]).value; number + s.delta < WORD && |s.value| < WORD
    ensures PlainHeader(b[pos]) && HeaderFits(b, pos, end)
    ensures Unwrapped(b, FoundAt(b, pos, number), number)
  {
    hide DecodeOption, OptionDelta, OptionLength, Fits;
    var c := b[pos..end];
    ReadMatches(b, pos, end);
    DecodedHeader(c);
    assert c[0] == b[pos];
    var at := 1 + DeltaReads(b[pos] / 16);
    assert b[pos] / 16 == 14 ==> c[1] == b[pos + 1] && c[2] == b[pos + 2];
    assert b[pos] % 16 == 14 ==> c[at] == b[pos + at] && c[at + 1] == b[pos + at + 1];
  }

  /** What the nibbles of a decodable option say. */
  lemma DecodedHeader(c: Bytes)
    requires DecodeOption(c).Some?
    ensures var s := DecodeOption(c).value;
            var high, low, at := c[0] / 16, c[0] % 16, 1 + DeltaReads(c[0] / 16);
            && high < 15 && low < 15 && at + LengthReads(low) <= |c|
            && (high == 14 ==> s.delta == Load16(c[1], c[2]) + 269)
            && (low == 14 ==> |s.value| == Load16(c[at], c[at + 1]) + 269)
  {
    hide DecodeOption, TakeNumber, Extra, Fits;
    DecodeParts(c);
    var high, low := c[0] / 16, c[0] % 16;
    var d := TakeNumber(high, c[1..]).value;
    TakeSplits(high, c[1..]);
    RestOfRest(c, 1, DeltaReads(high));
    TakeSplits(low, d.rest);
  }

  /** What one step of the walk and one step of the decoder have in common. */
  lemma StepsAgree(b: Bytes, pos: nat, end: nat, number: nat)
    requires pos < end && end + 2 <= |b| && number < WORD && b[pos] != MARKER
    ensures DecodeOption(b[pos..end]).Some?
            && number + DecodeOption(b[pos..end]).value.delta < WORD && |DecodeOption(b[pos..end]).value.value| < WORD
            <==> PlainHeader(b[pos]) && HeaderFits(b, pos, end) && pos + OptionTotal(b, pos) <= end
                 && Unwrapped(b, FoundAt(b, pos, number), number)
    ensures DecodeOption(b[pos..end]).Some? && PlainHeader(b[pos]) && HeaderFits(b, pos, end)
            && pos + OptionTotal(b, pos) <= end && Unwrapped(b, FoundAt(b, pos, number), number) ==>
              var s, f := DecodeOption(b[pos..end]).value, FoundAt(b, pos, number);
              && f.number == number + s.delta && s.rest == b[pos + f.total..end]
              && 0 <= f.ValuePosition() && OptOf(b, f) == Opt(number + s.delta, s.value)
  {
    hide OptionDelta, OptionLength, DecodeOption, Unwrapped;
    if DecodeOption(b[pos..end]).Some? && number + DecodeOption(b[pos..end]).value.delta < WORD
       && |DecodeOption(b[pos..end]).value.value| < WORD {
      DecodesHeader(b, pos, end, number);
      ReadMatches(b, pos, end);
    }
    if PlainHeader(b[pos]) && HeaderFits(b, pos, end) && pos + OptionTotal(b, pos) <= end
       && Unwrapped(b, FoundAt(b, pos, number), number) {
      HeaderDecodes(b, pos, end, number);
      ShortReads(b, pos, number);
      ReadMatches(b, pos, end);
    }
  }

  lemma ShortReads(b: Bytes, pos: nat, number: nat)
    requires Readable(b, pos) && Unwrapped(b, FoundAt(b, pos, number), number)
    ensures OptionDelta(b, pos) < WORD && OptionLength(b, pos) < WORD && number + OptionDelta(b, pos) < WORD
  {
  }

  ghost predicate Agree(b: Bytes, end: nat, w: Walked, r: Option<Body>)
    requires end <= |b|
  {
    w.Good? && r.Some? && Stands(b, w.options, r.value.options) && PayloadStands(b, w.payload, end, r.value.payload)
  }

  /** Accepted without a wrap if and only if decodable to 16-bit values, and then with equal content. */
  ghost predicate Matches(b: Bytes, end: nat, number: nat, w: Walked, r: Option<Body>)
    requires end <= |b|
  {
    && (w.Good? && AllUnwrapped(b, w.options, number) <==> r.Some? && Narrow(number, r.value.options))
    && (w.Good? && AllUnwrapped(b, w.options, number) ==> Agree(b, end, w, r))
  }

  /** The walk accepts without a wrap exactly the messages that decode to 16-bit values, and then
      it finds the same options and the same payload. */
  lemma {:induction false} WalkIsDecode(b: Bytes, pos: nat, end: nat, number: nat)
    requires pos <= end && end + 2 <= |b| && number < WORD
    ensures Matches(b, end, number, Walk(b, pos, end, number), Decode(number, b[pos..end]))
    decreases end - pos
  {
    var c := b[pos..end];
    var w, r := Walk(b, pos, end, number), Decode(number, c);
    if pos == end {
    } else if b[pos] == MARKER {
      assert c[0] == MARKER && c[1..] == b[pos + 1..end];
    } else {
      assert c[0] == b[pos];
      hide OptionDelta, OptionLength, DecodeOption, Unwrapped;
      StepsAgree(b, pos, end, number);
      if DecodeOption(c).Some? && number + DecodeOption(c).value.delta < WORD && |DecodeOption(c).value.value| < WORD {
        WalkDecodeStep(b, pos, end, number);
      } else {
        WalkDecodeStop(b, pos, end, number);
      }
    }
  }

  lemma WalkDecodeStop(b: Bytes, pos: nat, end: nat, number: nat)
    requires pos < end && end + 2 <= |b| && number < WORD && b[pos] != MARKER
    requires !(DecodeOption(b[pos..end]).Some? && number + DecodeOption(b[pos..end]).value.delta < WORD
               && |DecodeOption(b[pos..end]).value.value| < WORD)
    ensures var w, r := Walk(b, pos, end, number), Decode(number, b[pos..end]);
            !(w.Good? && AllUnwrapped(b, w.options, number)) && !(r.Some? && Narrow(number, r.value.options))
  {
    StepsAgree(b, pos, end, number);
    hide OptionDelta, OptionLength, DecodeOption, Unwrapped;
    assert b[pos..end][0] == b[pos];
  }

  lemma MatchesCons(b: Bytes, end: nat, number: nat, f: Found, w: Walked, o: Opt, r: Option<Body>)
    requires end <= |b| && Matches(b, end, f.number, w, r)
    requires Readable(b, f.position) && Unwrapped(b, f, number) && number <= f.number < WORD && |o.value| < WORD
    requires 0 <= f.ValuePosition() && f.position + f.total <= |b| && OptOf(b, f) == o
    ensures Matches(b, end, number, if w.Bad? then Bad else Good([f] + w.options, w.payload),
                    if r.None? then None else Some(Body([o] + r.value.options, r.value.payload)))
  {
    hide Unwrapped, Stands;
    if w.Good? { assert ([f] + w.options)[1..] == w.options; }
    if r.Some? { assert ([o] + r.value.options)[1..] == r.value.options; }
    if w.Good? && r.Some? && Stands(b, w.options, r.value.options) {
      StandsCons(b, f, w.options, o, r.value.options);
    }
  }

  lemma WalkUnfolds(b: Bytes, pos: nat, end: nat, number: nat)
    requires pos < end && end + 2 <= |b| && b[pos] != MARKER
    requires PlainHeader(b[pos]) && HeaderFits(b, pos, end) && pos + OptionTotal(b, pos) <= end
    ensures var f := FoundAt(b, pos, number);
            var w := Walk(b, pos + f.total, end, f.number);
            Walk(b, pos, end, number) == if w.Bad? then Bad else Good([f] + w.options, w.payload)
  {
  }

  lemma DecodeUnfolds(c: Bytes, number: nat)
    requires DecodeOption(c).Some? && c[0] != MARKER
    ensures var s := DecodeOption(c).value;
            var r := Decode(number + s.delta, s.rest);
            Decode(number, c)
            == if r.None? then None
               else Some(Body([Opt(number + s.delta, s.value)] + r.value.options, r.value.payload))
  {
  }

  lemma StepFacts(b: Bytes, pos: nat, end: nat, number: nat)
    requires pos < end && end + 2 <= |b| && number < WORD && b[pos] != MARKER
    requires DecodeOption(b[pos..end]).Some? && number + DecodeOption(b[pos..end]).value.delta < WORD
             && |DecodeOption(b[pos..end]).value.value| < WORD
    ensures PlainHeader(b[pos]) && HeaderFits(b, pos, end) && pos + OptionTotal(b, pos) <= end
    ensures Unwrapped(b, FoundAt(b, pos, number), number) && b[pos..end][0] != MARKER
    ensures var s, f := DecodeOption(b[pos..end]).value, FoundAt(b, pos, number);
            && f.number == number + s.delta && s.rest == b[pos + f.total..end]
            && 0 <= f.ValuePosition() && OptOf(b, f) == Opt(number + s.delta, s.value)
  {
    hide OptionDelta, OptionLength, DecodeOption, Unwrapped;
    StepsAgree(b, pos, end, number);
  }

  lemma {:induction false} WalkDecodeStep(b: Bytes, pos: nat, end: nat, number: nat)
    requires pos < end && end + 2 <= |b| && number < WORD && b[pos] != MARKER
    requires DecodeOption(b[pos..end]).Some? && number + DecodeOption(b[pos..end]).value.delta < WORD
             && |DecodeOption(b[pos..end]).value.value| < WORD
    ensures Matches(b, end, number, Walk(b, pos, end, number), Decode(number, b[pos..end]))
    decreases end - pos, 0
  {
    hide OptionDelta, OptionLength, DecodeOption, Unwrapped, Matches, Walk, Decode, OptOf;
    StepFacts(b, pos, end, number);
    var f, s := FoundAt(b, pos, number), DecodeOption(b[pos..end]).value;
    WalkUnfolds(b, pos, end, number);
    DecodeUnfolds(b[pos..end], number);
    WalkIsDecode(b, pos + f.total, end, f.number);
    MatchesCons(b, end, number, f, Walk(b, pos + f.total, end, f.number),
                Opt(f.number, s.value), Decode(f.number, s.rest));
  }

  lemma StandsCons(b: Bytes, f: Found, fs: seq<Found>, o: Opt, os: seq<Opt>)
    requires 0 <= f.ValuePosition() && f.position + f.total <= |b| && OptOf(b, f) == o && Stands(b, fs, os)
    ensures Stands(b, [f] + fs, [o] + os)
  {
  }

  /** Above 65266 a two-byte delta wraps: the walk accepts two options where RFC 7252 has one. */
  lemma WrapMisreads()
    ensures var b: Bytes := [0xE0, 0xFF, 0x00, 0, 0];
            && Decode(0, b[..3]) == Some(Body([Opt(65549, [])], []))
            && Walk(b, 0, 3, 0) == Good([Found(13, 13, 0, 2, 0), Found(13, 0, 0, 1, 2)], None)
  {
    WrapDecoded();
    WrapWalked();
  }

  lemma WrapDecoded()
    ensures Decode(0, [0xE0, 0xFF, 0x00, 0, 0][..3]) == Some(Body([Opt(65549, [])], []))
  {
    var c: Bytes := [0xE0, 0xFF, 0x00];
    assert [0xE0, 0xFF, 0x00, 0, 0][..3] == c && c[1..] == [0xFF, 0x00] && c[1..][2..] == [];
    assert TakeNumber(14, c[1..]) == Some(Taken(65549, []));
    assert DecodeOption(c) == Some(Single(65549, [], []));
    assert Decode(65549, []) == Some(Body([], []));
    var none: seq<Opt> := [];
    assert [Opt(65549, [])] + none == [Opt(65549, [])];
  }

  lemma WrapWalked()
    ensures Walk([0xE0, 0xFF, 0x00, 0, 0], 0, 3, 0) == Good([Found(13, 13, 0, 2, 0), Found(13, 0, 0, 1, 2)], None)
  {
    var b: Bytes := [0xE0, 0xFF, 0x00, 0, 0];
    assert Walk(b, 3, 3, 13) == Good([], None);
    assert FoundAt(b, 2, 13) == Found(13, 0, 0, 1, 2);
    assert Walk(b, 2, 3, 13) == Good([Found(13, 0, 0, 1, 2)], None);
    assert FoundAt(b, 0, 0) == Found(13, 13, 0, 2, 0);
  }
}
