/** coap_serialize_message and its helpers, writing through a position in the packet buffer.

    Every method says which bytes it leaves in the whole buffer; `SerializeMessage` is proved to
    write exactly `Written`. The C code checks the size of the header only after it has written it,
    so a caller must provide the room. */
module ErbiumWriter {
  import opened OptionFormat
  import opened SplitMerge
  import opened ErbiumPacket
  import opened ErbiumRoundTrip
  import opened ErbiumParse
  import opened ErbiumMessage

  /** coap_log_2: counts shifts until nothing is left. */
  method LogTwo(value: nat) returns (result: nat)
    ensures result == Log2(value)
  {
    var v: nat := value / 2;
    result := 1;
    while v != 0
      invariant Log2(value) == if v == 0 then result - 1 else result + Log2(v)
      decreases v
    {
      v := v / 2;
      result := result + 1;
    }
    result := result - 1;
  }

  /** The extension bytes of a delta or a length. */
  method PutExtension(x: nat, buffer: array<Byte>, at: nat) returns (written: nat)
    requires Fits(x) && at + Extra(x) <= buffer.Length
    modifies buffer
    ensures written == Extra(x) && buffer[..] == Overwrite(old(buffer[..]), at, Extension(x))
  {
    if x > 268 {
      buffer[at], buffer[at + 1] := (x - 269) / 256, (x - 269) % 256;
      return 2;
    } else if x > 12 {
      buffer[at] := x - 13;
      return 1;
    }
    return 0;
  }

  /** coap_set_option_header */
  method SetOptionHeader(delta: nat, length: nat, buffer: array<Byte>, at: nat) returns (written: nat)
    requires Fits(delta) && Fits(length) && at + 1 + Extra(delta) + Extra(length) <= buffer.Length
    modifies buffer
    ensures written == 1 + Extra(delta) + Extra(length)
    ensures buffer[..] == Overwrite(old(buffer[..]), at, OptionHeader(delta, length))
  {
    hide Extension, Extra, Overwrite;
    ghost var was := buffer[..];
    var first: Byte := 16 * Nibble(delta) + Nibble(length) as int;
    buffer[at] := first;
    PutFirst(was, at, first);
    assert buffer[..] == was[at := first];
    var more := PutExtension(delta, buffer, at + 1);
    OverwriteAppend(was, at, [first], Extension(delta));
    var rest := PutExtension(length, buffer, at + 1 + more);
    OverwriteAppend(was, at, [first] + Extension(delta), Extension(length));
    return 1 + more + rest;
  }

  lemma PutFirst(s: Bytes, at: nat, v: Byte)
    requires at < |s|
    ensures s[at := v] == Overwrite(s, at, [v])
  {
  }

  function OptionHeader(delta: nat, length: nat): (h: Bytes)
    requires Fits(delta) && Fits(length)
    ensures |h| == 1 + Extra(delta) + Extra(length)
  {
    [16 * Nibble(delta) + Nibble(length)] + Extension(delta) + Extension(length)
  }

  lemma HeaderThenValue(delta: nat, value: Bytes)
    requires Fits(delta) && Fits(|value|)
    ensures OptionHeader(delta, |value|) + value == EncodeOption(delta, value)
  {
  }

  /** memcpy */
  method CopyIn(buffer: array<Byte>, at: nat, value: Bytes)
    requires at + |value| <= buffer.Length
    modifies buffer
    ensures buffer[..] == Overwrite(old(buffer[..]), at, value)
  {
    forall i | 0 <= i < |value| {
      buffer[at + i] := value[i];
    }
  }

  method PutOption(delta: nat, value: Bytes, buffer: array<Byte>, at: nat) returns (written: nat)
    requires Fits(delta) && Fits(|value|) && at + OptionSize(delta, |value|) <= buffer.Length
    modifies buffer
    ensures written == OptionSize(delta, |value|)
    ensures buffer[..] == Overwrite(old(buffer[..]), at, EncodeOption(delta, value))
  {
    hide OptionHeader, EncodeOption, Extra, Overwrite;
    ghost var was := buffer[..];
    written := SetOptionHeader(delta, |value|, buffer, at);
    CopyIn(buffer, at + written, value);
    OverwriteAppend(was, at, OptionHeader(delta, |value|), value);
    HeaderThenValue(delta, value);
    written := written + |value|;
  }

  method CountBytes(value: nat) returns (size: nat)
    requires value < WORD32
    ensures size == |IntBytes(value)|
  {
    size := 0;
    if value >= 0x100_0000 { size := size + 1; }
    if value >= 0x10000 { size := size + 1; }
    if value >= 0x100 { size := size + 1; }
    if value != 0 { size := size + 1; }
  }

  /** coap_serialize_int_option: first the number of bytes, then the bytes, highest first. */
  method SerializeIntOption(number: nat, currentNumber: nat, buffer: array<Byte>, at: nat, value: nat) returns (i: nat)
    requires value < WORD32 && currentNumber <= number && Fits(number - currentNumber)
    requires at + OptionSize(number - currentNumber, |IntBytes(value)|) <= buffer.Length
    modifies buffer
    ensures i == OptionSize(number - currentNumber, |IntBytes(value)|)
    ensures buffer[..] == Overwrite(old(buffer[..]), at, EncodeOption(number - currentNumber, IntBytes(value)))
  {
    hide OptionHeader, EncodeOption, Extra, Overwrite, IntBytes;
    ghost var was := buffer[..];
    var size := CountBytes(value);
    i := SetOptionHeader(number - currentNumber, size, buffer, at);
    i := PutInt(buffer, at, i, value);
    OverwriteAppend(was, at, OptionHeader(number - currentNumber, size), IntBytes(value));
    HeaderThenValue(number - currentNumber, IntBytes(value));
  }

  function Digit(value: nat, unit: nat): Byte
    requires unit > 0
  {
    value / unit % 0x100
  }

  function When(c: bool, b: Byte): (w: Bytes)
    ensures |w| == if c then 1 else 0
  {
    if c then [b] else []
  }

  lemma IntBytesParts(value: nat)
    requires value < WORD32
    ensures IntBytes(value)
            == When(value >= 0x100_0000, Digit(value, 0x100_0000)) + When(value >= 0x10000, Digit(value, 0x10000))
               + When(value >= 0x100, Digit(value, 0x100)) + When(value != 0, Digit(value, 1))
  {
    if value == 0 {
    } else if value < 0x100 {
    } else if value < 0x10000 {
    } else if value < 0x100_0000 {
    } else {
    }
  }

  method PutInt(buffer: array<Byte>, at: nat, start: nat, value: nat) returns (i: nat)
    requires value < WORD32 && at + start + |IntBytes(value)| <= buffer.Length
    modifies buffer
    ensures i == start + |IntBytes(value)|
    ensures buffer[..] == Overwrite(old(buffer[..]), at + start, IntBytes(value))
  {
    hide Overwrite, Digit, IntBytes, When;
    IntBytesParts(value);
    ghost var was := buffer[..];
    ghost var sofar: Bytes := [];
    OverwriteNothing(was, at + start);
    i, sofar := PutByte(buffer, at + start, 0, value >= 0x100_0000, Digit(value, 0x100_0000), was, sofar);
    ghost var first := When(value >= 0x100_0000, Digit(value, 0x100_0000));
    assert [] + first == first;
    i, sofar := PutByte(buffer, at + start, i, value >= 0x10000, Digit(value, 0x10000), was, sofar);
    i, sofar := PutByte(buffer, at + start, i, value >= 0x100, Digit(value, 0x100), was, sofar);
    i, sofar := PutByte(buffer, at + start, i, value != 0, Digit(value, 1), was, sofar);
    i := i + start;
  }

  /** One conditional store of a byte behind what has been written. */
  method PutByte(buffer: array<Byte>, at: nat, i: nat, c: bool, v: Byte, ghost was: Bytes, ghost sofar: Bytes)
    returns (next: nat, ghost more: Bytes)
    requires |sofar| == i && |was| == buffer.Length && (c ==> at + i < buffer.Length)
    requires at + i <= buffer.Length && buffer[..] == Overwrite(was, at, sofar)
    modifies buffer
    ensures more == sofar + When(c, v) && next == |more| && at + next <= buffer.Length
    ensures buffer[..] == Overwrite(was, at, more)
  {
    more, next := sofar, i;
    if c {
      ghost var now := buffer[..];
      buffer[at + i] := v;
      PutFirst(now, at + i, v);
      assert buffer[..] == now[at + i := v];
      hide Overwrite;
      OverwriteAppend(was, at, sofar, [v]);
      more, next := sofar + [v], i + 1;
    } else {
      assert sofar + [] == sofar;
    }
  }

  /* ---- Array options ---- */

  /** The bytes of options that all carry the same number. */
  function Encoded(current: nat, number: nat, values: seq<Bytes>): Bytes
    requires Encodable(current, Numbered(number, values))
  {
    EncodeAll(current, Numbered(number, values))
  }

  lemma EncodedCons(current: nat, number: nat, value: Bytes, rest: seq<Bytes>)
    requires Encodable(current, Numbered(number, [value] + rest))
    ensures current <= number && Fits(number - current) && Fits(|value|)
    ensures Encodable(number, Numbered(number, rest))
    ensures Encoded(current, number, [value] + rest)
            == EncodeOption(number - current, value) + Encoded(number, number, rest)
  {
    var values := [value] + rest;
    assert values[1..] == rest;
    assert Numbered(number, values)[1..] == Numbered(number, rest);
  }

  lemma EncodedOne(current: nat, number: nat, value: Bytes)
    requires current <= number && Fits(number - current) && Fits(|value|)
    ensures Encodable(current, Numbered(number, [value]))
    ensures Encoded(current, number, [value]) == EncodeOption(number - current, value)
  {
    EncodeCons(current, Opt(number, value), []);
    assert Numbered(number, [value]) == [Opt(number, value)] + [];
    assert EncodeOption(number - current, value) + [] == EncodeOption(number - current, value);
  }

  lemma EncodedNone(current: nat, number: nat)
    ensures Encodable(current, Numbered(number, [])) && Encoded(current, number, []) == []
  {
  }

  /** What the splitting loop still has to write. */
  ghost predicate Remaining(total: Bytes, sofar: Bytes, current: nat, number: nat, a: Bytes, start: nat, j: nat,
      split: Byte)
    requires start <= j
  {
    && Encodable(current, Numbered(number, Parts(a, start, j, split)))
    && total == sofar + Encoded(current, number, Parts(a, start, j, split))
  }

  lemma RemainingStart(current: nat, number: nat, a: Bytes, split: Byte)
    requires Encodable(current, Numbered(number, Parts(a, 0, 0, split)))
    ensures Remaining(Encoded(current, number, Parts(a, 0, 0, split)), [], current, number, a, 0, 0, split)
  {
    hide Encodable, Encoded;
  }

  lemma OverwriteNothing(s: Bytes, at: nat)
    requires at <= |s|
    ensures Overwrite(s, at, []) == s
  {
  }

  lemma RemainingStep(total: Bytes, sofar: Bytes, current: nat, number: nat, a: Bytes, start: nat, j: nat, split: Byte)
    requires start <= j <= |a| && Remaining(total, sofar, current, number, a, start, j, split)
    requires j == |a| || a[j] == split
    ensures current <= number && Fits(number - current) && Fits(j - start)
    ensures |sofar| + OptionSize(number - current, j - start) <= |total|
    ensures Remaining(total, sofar + EncodeOption(number - current, a[start..j]), number,
                      number, a, j + 1, j + 2, split)
    ensures j + 1 > |a| ==> total == sofar + EncodeOption(number - current, a[start..j])
  {
    hide EncodeOption, Numbered, Encodable, Encoded;
    var rest := Parts(a, j + 1, j + 2, split);
    EncodedCons(current, number, a[start..j], rest);
    Assoc(sofar, EncodeOption(number - current, a[start..j]), Encoded(number, number, rest));
    if j + 1 > |a| {
      EncodedNone(number, number);
    }
  }

  lemma RemainingEnd(total: Bytes, sofar: Bytes, current: nat, number: nat, a: Bytes, start: nat, j: nat, split: Byte)
    requires start <= j && j > |a| && Remaining(total, sofar, current, number, a, start, j, split)
    ensures total == sofar
  {
    EncodedNone(current, number);
  }

  /** Writes one more option behind what has been written from `at` on. */
  method PutNext(delta: nat, value: Bytes, buffer: array<Byte>, at: nat, i: nat, ghost was: Bytes, ghost sofar: Bytes)
    returns (written: nat)
    requires Fits(delta) && Fits(|value|) && |sofar| == i && |was| == buffer.Length
    requires at + i + OptionSize(delta, |value|) <= buffer.Length
    requires buffer[..] == Overwrite(was, at, sofar)
    modifies buffer
    ensures written == |EncodeOption(delta, value)|
    ensures buffer[..] == Overwrite(was, at, sofar + EncodeOption(delta, value))
  {
    hide EncodeOption, Overwrite;
    written := PutOption(delta, value, buffer, at + i);
    OverwriteAppend(was, at, sofar, EncodeOption(delta, value));
  }

  /** coap_serialize_array_option with a splitter. */
  method SerializeParts(number: nat, currentNumber: nat, buffer: array<Byte>, at: nat, a: Bytes,
      split: Byte) returns (i: nat)
    requires Encodable(currentNumber, Numbered(number, Parts(a, 0, 0, split)))
    requires at + |Encoded(currentNumber, number, Parts(a, 0, 0, split))| <= buffer.Length
    modifies buffer
    ensures i == |Encoded(currentNumber, number, Parts(a, 0, 0, split))|
    ensures buffer[..] == Overwrite(old(buffer[..]), at, Encoded(currentNumber, number, Parts(a, 0, 0, split)))
  {
    hide *;
    ghost var was := buffer[..];
    ghost var total := Encoded(currentNumber, number, Parts(a, 0, 0, split));
    ghost var sofar: Bytes := [];
    OverwriteNothing(was, at);
    RemainingStart(currentNumber, number, a, split);
    i := 0;
    var current, partStart, j := currentNumber, 0, 0;
    while j <= |a|
      invariant partStart <= j && |sofar| == i && at + |total| <= buffer.Length
      invariant |sofar| <= |total|
      invariant Remaining(total, sofar, current, number, a, partStart, j, split)
      invariant buffer[..] == Overwrite(was, at, sofar)
    {
      if j == |a| || a[j] == split {
        RemainingStep(total, sofar, current, number, a, partStart, j, split);
        var part := a[partStart..j];
        var written := PutNext(number - current, part, buffer, at, i, was, sofar);
        sofar := sofar + EncodeOption(number - current, part);
        i := i + written;
        current := number;
        j := j + 1;
        partStart := j;
      } else {
        RemainingSkip(total, sofar, current, number, a, partStart, j, split);
      }
      j := j + 1;
    }
    RemainingEnd(total, sofar, current, number, a, partStart, j, split);
  }

  lemma RemainingSkip(total: Bytes, sofar: Bytes, current: nat, number: nat, a: Bytes, start: nat, j: nat, split: Byte)
    requires start <= j < |a| && a[j] != split && Remaining(total, sofar, current, number, a, start, j, split)
    ensures Remaining(total, sofar, current, number, a, start, j + 1, split)
  {
    hide Encodable, Numbered, Encoded;
  }

  /** Repeated Accept options. */
  method SerializeAccept(number: nat, currentNumber: nat, buffer: array<Byte>, at: nat, ns: seq<nat>) returns (i: nat)
    requires forall k :: 0 <= k < |ns| ==> ns[k] < 0x10000
    requires Encodable(currentNumber, Numbered(number, AcceptPieces(ns)))
    requires at + |Encoded(currentNumber, number, AcceptPieces(ns))| <= buffer.Length
    modifies buffer
    ensures i == |Encoded(currentNumber, number, AcceptPieces(ns))|
    ensures buffer[..] == Overwrite(old(buffer[..]), at, Encoded(currentNumber, number, AcceptPieces(ns)))
  {
    hide *;
    ghost var was := buffer[..];
    ghost var total := Encoded(currentNumber, number, AcceptPieces(ns));
    ghost var sofar: Bytes := [];
    OverwriteNothing(was, at);
    AcceptStart(currentNumber, number, ns);
    i := 0;
    var current, k := currentNumber, 0;
    while k < |ns|
      invariant k <= |ns| && |sofar| == i && at + |total| <= buffer.Length
      invariant |sofar| <= |total|
      invariant AcceptLeft(total, sofar, current, number, ns[k..])
      invariant buffer[..] == Overwrite(was, at, sofar)
    {
      AcceptStep(total, sofar, current, number, ns[k..]);
      ghost var option := EncodeOption(number - current, IntBytes(ns[k]));
      var written := SerializeIntOption(number, current, buffer, at + i, ns[k]);
      OverwriteAppend(was, at, sofar, option);
      sofar := sofar + option;
      i := i + written;
      current := number;
      assert ns[k..][1..] == ns[k + 1..];
      k := k + 1;
    }
    AcceptEnd(total, sofar, current, number, ns[k..]);
  }

  ghost predicate AcceptLeft(total: Bytes, sofar: Bytes, current: nat, number: nat, ns: seq<nat>) {
    && (forall k :: 0 <= k < |ns| ==> ns[k] < 0x10000)
    && Encodable(current, Numbered(number, AcceptPieces(ns)))
    && total == sofar + Encoded(current, number, AcceptPieces(ns))
  }

  lemma AcceptStart(current: nat, number: nat, ns: seq<nat>)
    requires forall k :: 0 <= k < |ns| ==> ns[k] < 0x10000
    requires Encodable(current, Numbered(number, AcceptPieces(ns)))
    ensures AcceptLeft(Encoded(current, number, AcceptPieces(ns)), [], current, number, ns[0..])
  {
    assert ns[0..] == ns;
  }

  lemma AcceptStep(total: Bytes, sofar: Bytes, current: nat, number: nat, ns: seq<nat>)
    requires ns != [] && AcceptLeft(total, sofar, current, number, ns)
    ensures current <= number && Fits(number - current) && ns[0] < 0x10000 < WORD32 && Fits(|IntBytes(ns[0])|)
    ensures |sofar| + OptionSize(number - current, |IntBytes(ns[0])|) <= |total|
    ensures AcceptLeft(total, sofar + EncodeOption(number - current, IntBytes(ns[0])), number, number, ns[1..])
  {
    hide EncodeOption, Numbered, Encodable, Encoded, IntBytes;
    EncodedCons(current, number, IntBytes(ns[0]), AcceptPieces(ns[1..]));
    Assoc(sofar, EncodeOption(number - current, IntBytes(ns[0])), Encoded(number, number, AcceptPieces(ns[1..])));
  }

  lemma AcceptEnd(total: Bytes, sofar: Bytes, current: nat, number: nat, ns: seq<nat>)
    requires ns == [] && AcceptLeft(total, sofar, current, number, ns)
    ensures total == sofar
  {
    EncodedNone(current, number);
  }

  /* ---- Fields and messages ---- */

  /** One COAP_SERIALIZE_ macro: all options of one field. */
  method SerializeField(n: nat, f: Field, current: nat, buffer: array<Byte>, at: nat) returns (i: nat)
    requires FieldOk(n, f) && current <= n < 269
    requires Encodable(current, Numbered(n, Pieces(n, f)))
    requires at + |Encoded(current, n, Pieces(n, f))| <= buffer.Length
    modifies buffer
    ensures i == |Encoded(current, n, Pieces(n, f))|
    ensures buffer[..] == Overwrite(old(buffer[..]), at, Encoded(current, n, Pieces(n, f)))
  {
    IntegerKind(n);
    hide Encoded, Encodable, Numbered, EncodeOption, IntBytes, AcceptPieces, Overwrite, Extra, OptionSize, KindOf,
        Parts, BlockWord, Log2;
    match KindOf(n)
    case Cut =>
      EncodedOne(current, n, f.bytes);
      i := PutOption(n - current, f.bytes, buffer, at);
    case Whole =>
      EncodedOne(current, n, f.bytes);
      i := PutOption(n - current, f.bytes, buffer, at);
    case Parted(separator) =>
      i := SerializeParts(n, current, buffer, at, f.bytes, separator);
    case Bare =>
      EncodedOne(current, n, IntBytes(0));
      i := SerializeIntOption(n, current, buffer, at, 0);
    case Integer(limit) =>
      EncodedOne(current, n, IntBytes(f.n));
      i := SerializeIntOption(n, current, buffer, at, f.n);
    case Repeated =>
      i := SerializeAccept(n, current, buffer, at, f.ns);
    case Blockwise =>
      BlockRoundTrip(f.num, f.more, f.size);
      var word := MakeBlockWord(f.num, f.more, f.size);
      EncodedOne(current, n, IntBytes(word));
      i := SerializeIntOption(n, current, buffer, at, word);
  }

  method MakeBlockWord(num: nat, more: bool, size: nat) returns (block: nat)
    requires BlockInRange(num, size)
    ensures block == BlockWord(num, more, size)
  {
    block := 16 * num;
    if more {
      block := block + 8;
    }
    var log := LogTwo(size / 16);
    block := block + log % 16;
  }

  /* ---- Whole messages ---- */

  /** What the option macros from position `i` on still have to write. */
  ghost predicate OptionsLeft(front: Bytes, sofar: Bytes, current: nat, fields: Fields, i: nat) {
    && FieldsOk(fields) && i <= |ORDER| && (i < |ORDER| ==> current <= ORDER[i])
    && Encodable(current, OptionsFrom(fields, i))
    && front == sofar + EncodeAll(current, OptionsFrom(fields, i))
  }

  lemma PiecesExist(n: nat, f: Field)
    requires FieldOk(n, f)
    ensures Pieces(n, f) != []
  {
    match KindOf(n)
    case Parted(separator) => JoinParts(f.bytes, 0, 0, separator);
    case Repeated =>
    case _ =>
  }

  lemma FieldLeft(front: Bytes, sofar: Bytes, current: nat, fields: Fields, i: nat)
    requires OptionsLeft(front, sofar, current, fields, i) && i < |ORDER| && ORDER[i] in fields
    ensures var n := ORDER[i];
            var pieces := Pieces(n, fields[n]);
            && FieldOk(n, fields[n]) && current <= n < 269 && Encodable(current, Numbered(n, pieces))
            && |sofar| + |Encoded(current, n, pieces)| <= |front|
            && OptionsLeft(front, sofar + Encoded(current, n, pieces), n, fields, i + 1)
  {
    var n := ORDER[i];
    assert OptionsAt(fields, i) == Numbered(n, Pieces(n, fields[n]));
    OrderAscends(i);
    PiecesExist(n, fields[n]);
    PiecesFit(n, fields[n]);
    hide Pieces, KindOf, FieldOk, Encodable, EncodeAll, OptionsAt;
    OptionsUnfold(fields, i);
    hide OptionsFrom;
    NumberedEncodable(current, n, Pieces(n, fields[n]));
    var rest := OptionsFrom(fields, i + 1);
    EncodableSplit(current, OptionsAt(fields, i), rest);
    EncodeSplit(current, OptionsAt(fields, i), rest);
    Assoc(sofar, EncodeAll(current, OptionsAt(fields, i)), EncodeAll(n, rest));
  }

  lemma FieldUnset(front: Bytes, sofar: Bytes, current: nat, fields: Fields, i: nat)
    requires OptionsLeft(front, sofar, current, fields, i) && i < |ORDER| && ORDER[i] !in fields
    ensures OptionsLeft(front, sofar, current, fields, i + 1)
  {
    OrderAscends(i);
    hide Encodable, EncodeAll, FieldsOk;
  }

  lemma NothingLeft(front: Bytes, sofar: Bytes, current: nat, fields: Fields)
    requires OptionsLeft(front, sofar, current, fields, |ORDER|)
    ensures front == sofar
  {
    assert OptionsFrom(fields, |ORDER|) == [];
  }

  /** coap_serialize_message: the datagram, or 0 when its front part is too long. */
  method SerializeMessage(p: Packet, buffer: array<Byte>) returns (length: nat)
    requires PacketOk(p)
    requires |Front(p)| <= buffer.Length
    requires Written(p).Some? ==> |Written(p).value| <= buffer.Length
    modifies buffer
    ensures Written(p).None? ==> length == 0
    ensures Written(p).Some? ==> length == |Written(p).value| && buffer[..length] == Written(p).value
  {
    ghost var was := buffer[..];
    var option := WriteHead(p, buffer);
    ghost var sofar := Head(p);
    ghost var front := Front(p);
    assert OptionsLeft(front, sofar, 0, p.fields, 0);
    hide OptionsLeft, Front, Head, EncodeAll, Encoded, Pieces, Overwrite, FieldsOk, OptionsOf;
    var currentNumber := 0;
    for i := 0 to |ORDER|
      invariant option == |sofar| <= |front| <= buffer.Length
      invariant buffer[..] == Overwrite(was, 0, sofar)
      invariant OptionsLeft(front, sofar, currentNumber, p.fields, i)
    {
      if ORDER[i] in p.fields {
        var n := ORDER[i];
        FieldLeft(front, sofar, currentNumber, p.fields, i);
        ghost var bytes := Encoded(currentNumber, n, Pieces(n, p.fields[n]));
        var written := SerializeField(n, p.fields[n], currentNumber, buffer, option);
        OverwriteAppend(was, 0, sofar, bytes);
        sofar := sofar + bytes;
        option := option + written;
        currentNumber := n;
      } else {
        FieldUnset(front, sofar, currentNumber, p.fields, i);
      }
    }
    NothingLeft(front, sofar, currentNumber, p.fields);
    if option <= MAX_HEADER_SIZE {
      length := PackPayload(p.payload, buffer, option, was, sofar);
    } else {
      length := 0;
    }
  }

  /** The fixed header and the token. */
  method WriteHead(p: Packet, buffer: array<Byte>) returns (option: nat)
    requires PacketOk(p) && 4 + |p.token| <= buffer.Length
    modifies buffer
    ensures option == |Head(p)| && buffer[..] == Overwrite(old(buffer[..]), 0, Head(p))
  {
    hide FieldsOk;
    ghost var was := buffer[..];
    buffer[0] := 64 + 16 * p.messageType + |p.token|;
    buffer[1], buffer[2], buffer[3] := p.code, p.mid / 256, p.mid % 256;
    ghost var fixed: Bytes := [64 + 16 * p.messageType + |p.token|, p.code, p.mid / 256, p.mid % 256];
    assert buffer[..] == Overwrite(was, 0, fixed);
    hide Overwrite;
    CopyIn(buffer, 4, p.token);
    OverwriteAppend(was, 0, fixed, p.token);
    option := 4 + |p.token|;
  }

  method PackPayload(payload: Bytes, buffer: array<Byte>, option: nat, ghost was: Bytes, ghost sofar: Bytes)
    returns (length: nat)
    requires |was| == buffer.Length && |sofar| == option && option + |PayloadPart(payload)| <= buffer.Length
    requires buffer[..] == Overwrite(was, 0, sofar)
    modifies buffer
    ensures length == option + |PayloadPart(payload)|
    ensures buffer[..length] == sofar + PayloadPart(payload)
  {
    if payload != [] {
      CopyIn(buffer, option, [MARKER]);
      OverwriteAppend(was, 0, sofar, [MARKER]);
      CopyIn(buffer, option + 1, payload);
      OverwriteAppend(was, 0, sofar + [MARKER], payload);
      length := option + 1 + |payload|;
      Assoc(sofar, [MARKER], payload);
    } else {
      length := option;
    }
    TakeWritten(was, sofar + PayloadPart(payload));
  }

  lemma TakeWritten(s: Bytes, v: Bytes)
    requires |v| <= |s|
    ensures Overwrite(s, 0, v)[..|v|] == v
  {
  }
}
