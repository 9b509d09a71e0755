/** coap_parse_message: one pass over the input buffer, which it also overwrites.

    A text field is a slice of the buffer. When an option repeats, the separator and the new part are
    moved down to the end of the slice, over the header of the new option; the payload is ended with
    a NUL. `Tidy` says why this never harms another field or an option still to be read. */
module ErbiumReader {
  import opened OptionFormat
  import opened SplitMerge
  import opened ErbiumPacket
  import opened ErbiumRoundTrip
  import opened ErbiumParse

  /** A field of the struct: a pointer into the buffer with a length, or a value. */
  datatype Cell = Slice(at: nat, len: nat) | Held(field: Field)

  type Cells = map<nat, Cell>

  function CellIn(data: Bytes, c: Cell): Field {
    match c
    case Slice(at, len) => Text(if at + len <= |data| then data[at..at + len] else [])
    case Held(field) => field
  }

  /** The fields the struct stands for, given the bytes of the buffer. */
  function View(data: Bytes, cells: Cells): Fields {
    map n | n in cells :: CellIn(data, cells[n])
  }

  /** Slices lie before `pos`, belong to numbers read so far, and the one of the current number is the last. */
  ghost predicate Tidy(cells: Cells, number: nat, pos: nat) {
    forall n :: n in cells && cells[n].Slice? ==>
      && n <= number && cells[n].at + cells[n].len <= pos
      && (n != number && number in cells && cells[number].Slice? ==> cells[n].at + cells[n].len <= cells[number].at)
  }

  lemma TidyLater(cells: Cells, number: nat, pos: nat, later: nat, next: nat)
    requires Tidy(cells, number, pos) && number <= later && pos <= next
    ensures Tidy(cells, later, next)
  {
  }

  /** A field that holds its own value. */
  lemma StoreHeld(data: Bytes, cells: Cells, number: nat, pos: nat, field: Field)
    requires Tidy(cells, number, pos)
    ensures Tidy(cells[number := Held(field)], number, pos)
    ensures View(data, cells[number := Held(field)]) == View(data, cells)[number := field]
  {
  }

  /** A field that points at the value just read. */
  lemma StoreSlice(data: Bytes, cells: Cells, number: nat, pos: nat, at: nat, len: nat)
    requires Tidy(cells, number, pos) && pos <= at && at + len <= |data|
    ensures Tidy(cells[number := Slice(at, len)], number, at + len)
    ensures View(data, cells[number := Slice(at, len)]) == View(data, cells)[number := Text(data[at..at + len])]
  {
  }

  /** The move of a repeated option's value down to the end of the slice. */
  lemma StoreMerged(data: Bytes, cells: Cells, number: nat, pos: nat, end: nat, value: Bytes, separator: Byte)
    requires Tidy(cells, number, pos) && number in cells && cells[number].Slice?
    requires pos + 1 + |value| <= end <= |data|
    ensures var c := cells[number];
            var merged := Overwrite(data, c.at + c.len, [separator] + value);
            var after := cells[number := Slice(c.at, c.len + 1 + |value|)];
            && Tidy(after, number, end)
            && merged[end..] == data[end..]
            && View(merged, after)
               == View(data, cells)[number := Text(data[c.at..c.at + c.len] + [separator] + value)]
  {
    hide View, Tidy, Overwrite;
    MergedTidy(cells, number, pos, end, |value|);
    MergedView(data, cells, number, pos, end, [separator] + value);
    var c := cells[number];
    KeptTail(data, c.at + c.len, [separator] + value, end);
    assert data[c.at..c.at + c.len] + [separator] + value == data[c.at..c.at + c.len] + ([separator] + value);
  }

  lemma MergedTidy(cells: Cells, number: nat, pos: nat, end: nat, length: nat)
    requires Tidy(cells, number, pos) && number in cells && cells[number].Slice? && pos + 1 + length <= end
    ensures var c := cells[number];
            c.at + c.len <= pos && Tidy(cells[number := Slice(c.at, c.len + 1 + length)], number, end)
  {
  }

  lemma MergedView(data: Bytes, cells: Cells, number: nat, pos: nat, end: nat, tail: Bytes)
    requires Tidy(cells, number, pos) && number in cells && cells[number].Slice? && pos + |tail| <= end <= |data|
    ensures var c := cells[number];
            && c.at + c.len <= pos
            && View(Overwrite(data, c.at + c.len, tail), cells[number := Slice(c.at, c.len + |tail|)])
               == View(data, cells)[number := Text(data[c.at..c.at + c.len] + tail)]
  {
    hide Overwrite;
    var c := cells[number];
    var merged := Overwrite(data, c.at + c.len, tail);
    var after := cells[number := Slice(c.at, c.len + |tail|)];
    MergedSlice(data, c.at, c.len, tail);
    forall n | n in cells && n != number ensures CellIn(merged, cells[n]) == CellIn(data, cells[n]) {
      if cells[n].Slice? {
        KeptSlice(data, c.at + c.len, tail, cells[n].at, cells[n].at + cells[n].len);
      }
    }
  }

  lemma MergedSlice(data: Bytes, at: nat, len: nat, v: Bytes)
    requires at + len + |v| <= |data|
    ensures Overwrite(data, at + len, v)[at..at + len + |v|] == data[at..at + len] + v
  {
  }

  lemma KeptSlice(data: Bytes, at: nat, v: Bytes, i: nat, j: nat)
    requires i <= j <= at && at + |v| <= |data|
    ensures Overwrite(data, at, v)[i..j] == data[i..j]
  {
  }

  lemma KeptTail(data: Bytes, at: nat, v: Bytes, i: nat)
    requires at + |v| <= i <= |data|
    ensures Overwrite(data, at, v)[i..] == data[i..]
  {
  }

  lemma PrefixSlice(a: Bytes, b: Bytes, pos: nat, i: nat, j: nat)
    requires i <= j <= pos <= |a| && pos <= |b| && a[..pos] == b[..pos]
    ensures a[i..j] == b[i..j]
  {
    forall k | i <= k < j ensures a[k] == b[k] {
      assert a[k] == a[..pos][k] && b[k] == b[..pos][k];
    }
  }

  /** The text a merging field holds so far. */
  lemma TextOf(data: Bytes, cells: Cells, number: nat, pos: nat)
    requires Tidy(cells, number, pos) && pos <= |data| && (number in cells ==> cells[number].Slice?)
    ensures number in cells ==> cells[number].at + cells[number].len <= pos
    ensures TextAt(View(data, cells), number)
            == if number in cells then data[cells[number].at..cells[number].at + cells[number].len] else []
  {
  }

  /** Writing at or behind `pos` changes no field. */
  lemma WriteBehind(data: Bytes, now: Bytes, cells: Cells, number: nat, pos: nat)
    requires Tidy(cells, number, pos) && pos <= |data| == |now| && now[..pos] == data[..pos]
    ensures View(now, cells) == View(data, cells)
  {
    forall n | n in cells ensures CellIn(now, cells[n]) == CellIn(data, cells[n]) {
      if cells[n].Slice? {
        var at, len := cells[n].at, cells[n].len;
        PrefixSlice(data, now, pos, at, at + len);
      }
    }
  }

  /** The fields that merge are pointers into the buffer. */
  ghost predicate Pointers(cells: Cells) {
    forall n :: n in cells && KindOf(n).Parted? ==> cells[n].Slice?
  }

  const NO_ERROR: nat := 0

  /** The struct filled in by the parser. */
  class CoapPacket {
    var buffer: array<Byte>
    var version: nat
    var messageType: nat
    var code: Byte
    var mid: nat
    var token: Bytes
    var cells: Cells
    var payload: nat
    var payloadLength: nat

    constructor (data: array<Byte>)
      ensures buffer == data
    {
      buffer := data;
      version, messageType, code, mid, token, cells, payload, payloadLength := 0, 0, 0, 0, [], map[], 0, 0;
    }

    ghost function Contents(): Packet
      reads this, buffer
    {
      Packet(messageType, code, mid, token, View(buffer[..], cells),
             if payload + payloadLength <= buffer.Length then buffer[payload..payload + payloadLength] else [])
    }

    /** coap_parse_int_option */
    method ParseIntOption(at: nat, length: nat) returns (v: nat)
      requires at + length <= buffer.Length
      ensures v == IntValue(buffer[at..at + length])
    {
      v := 0;
      ghost var b := buffer[at..at + length];
      var i := 0;
      while i < length
        invariant i <= length && v == IntValue(b[..i])
      {
        assert b[..i + 1][..i] == b[..i];
        v := (v * 0x100 + buffer[at + i] as int) % WORD32;
        i := i + 1;
      }
      assert b[..i] == b;
    }

    /** The separator and the value, moved down to `dst`. */
    method MoveDown(dst: nat, at: nat, length: nat, separator: Byte)
      requires dst < at && at + length <= buffer.Length
      modifies buffer
      ensures buffer[..] == Overwrite(old(buffer[..]), dst, [separator] + old(buffer[at..at + length]))
    {
      buffer[dst] := separator;
      forall k | 0 <= k < length {
        buffer[dst + 1 + k] := buffer[at + k];
      }
    }

    /** coap_merge_multi_option: the new value lies at `at`, a header byte or more behind the slice. */
    method MergeMultiOption(number: nat, ghost pos: nat, at: nat, length: nat, separator: Byte)
      requires Tidy(cells, number, pos) && pos < at && at + length <= buffer.Length
      requires number in cells ==> cells[number].Slice?
      modifies this`cells, buffer
      ensures Tidy(cells, number, at + length) && cells.Keys == old(cells.Keys) + {number}
      ensures forall n :: n in old(cells) && n != number ==> cells[n] == old(cells[n])
      ensures cells[number].Slice?
      ensures buffer[at + length..] == old(buffer[at + length..])
      ensures View(buffer[..], cells)
              == old(View(buffer[..], cells)[number := Text(MergeOne(TextAt(View(buffer[..], cells), number),
                                                                     buffer[at..at + length], separator))])
    {
      hide View, Tidy, Overwrite, TextAt;
      ghost var was := buffer[..];
      ghost var value := was[at..at + length];
      assert value == buffer[at..at + length];
      TextOf(was, cells, number, pos);
      if number in cells && cells[number].len > 0 {
        var c := cells[number];
        StoreMerged(was, cells, number, pos, at + length, value, separator);
        MoveDown(c.at + c.len, at, length, separator);
        TailOf(buffer, at + length);
        cells := cells[number := Slice(c.at, c.len + 1 + length)];
      } else {
        StoreSlice(was, cells, number, pos, at, length);
        cells := cells[number := Slice(at, length)];
      }
    }

    /** The cases of the switch that copy a value into the struct. */
    method ReadValue(number: nat, at: nat, length: nat) returns (field: Field)
      requires at + length <= buffer.Length
      requires !KindOf(number).Parted? && !KindOf(number).Whole? && !KindOf(number).Proxy?
      requires KindOf(number).Unknown? ==> number % 2 == 0
      ensures Apply(View(buffer[..], cells), Opt(number, buffer[at..at + length]))
              == Ok(View(buffer[..], cells)[number := field])
    {
      IntegerKind(number);
      match KindOf(number) {
        case Unknown => field := Present;
        case Bare => field := Present;
        case Cut =>
          var n := if length < ETAG_LEN then length else ETAG_LEN;
          field := Text(buffer[at..at + n]);
          assert buffer[at..at + length][..n] == buffer[at..at + n];
        case Integer(limit) =>
          var v := ParseIntOption(at, length);
          field := Number(v % limit);
        case Repeated =>
          var ns := if number in cells && cells[number].Held? && cells[number].field.Numbers?
            then cells[number].field.ns else [];
          if |ns| < MAX_ACCEPT_NUM {
            var v := ParseIntOption(at, length);
            field := Numbers(ns + [v % 0x10000]);
          } else {
            field := Numbers(ns);
          }
        case Blockwise =>
          var v := ParseIntOption(at, length);
          field := BlockOf(v);
      }
    }

    /** The switch over the option number, for the option whose value lies at `at`. */
    method HandleOption(number: nat, ghost pos: nat, at: nat, length: nat) returns (status: nat)
      requires Tidy(cells, number, pos) && Pointers(cells) && pos < at && at + length <= buffer.Length
      modifies this`cells, buffer
      ensures Handled(Apply(old(View(buffer[..], cells)), Opt(number, old(buffer[at..at + length]))), status,
                      buffer[..], cells, number, at + length)
      ensures buffer[at + length..] == old(buffer[at + length..])
    {
      if KindOf(number).Parted? {
        hide View, Tidy, KindOf;
        MergeMultiOption(number, pos, at, length, KindOf(number).separator);
        return NO_ERROR;
      }
      if KindOf(number).Whole? {
        StoreSlice(buffer[..], cells, number, pos, at, length);
        hide View, Tidy, KindOf;
        cells := cells[number := Slice(at, length)];
        return NO_ERROR;
      }
      if KindOf(number).Proxy? {
        return PROXYING_NOT_SUPPORTED;
      }
      if KindOf(number).Unknown? && number % 2 == 1 {
        return BAD_OPTION;
      }
      hide View, Tidy, KindOf, Apply;
      var field := ReadValue(number, at, length);
      StoreHeld(buffer[..], cells, number, pos, field);
      TidyLater(cells[number := Held(field)], number, pos, number, at + length);
      cells := cells[number := Held(field)];
      return NO_ERROR;
    }

    /** The number behind a nibble, with its extension bytes at `at`. */
    method TakeNumberAt(nibble: nat, at: nat, ghost end: nat) returns (x: nat, next: nat)
      requires at <= end <= buffer.Length && Reading(nibble, buffer[at..end]).Some?
      ensures at <= next <= end && Reading(nibble, buffer[at..end]) == Some(Taken(x, buffer[next..end]))
    {
      ghost var b := buffer[at..end];
      x, next := nibble, at;
      if x == 13 {
        x := x + buffer[next] as int;
        next := next + 1;
        assert b[1..] == buffer[next..end];
      } else if x == 14 {
        x := x + 255;
        x := x + 256 * (buffer[next] as int);
        next := next + 1;
        x := x + buffer[next] as int;
        next := next + 1;
        assert b[2..] == buffer[next..end];
      }
    }

    /** An option's header: where its value lies. */
    method ReadHeader(at: nat, ghost end: nat) returns (delta: nat, length: nat, value: nat)
      requires at < end <= buffer.Length && ReadOption(buffer[at..end]).Some?
      ensures at < value && value + length <= end
      ensures ReadOption(buffer[at..end])
              == Some(Single(delta, buffer[value..value + length], buffer[value + length..end]))
    {
      hide Reading;
      ghost var b := buffer[at..end];
      assert b[1..] == buffer[at + 1..end];
      delta, value := TakeNumberAt(buffer[at] / 16, at + 1, end);
      length, value := TakeNumberAt(buffer[at] % 16, value, end);
      ghost var rest := buffer[value..end];
      assert rest[..length] == buffer[value..value + length];
      assert rest[length..] == buffer[value + length..end];
    }

    /** What is left to parse at `pos`, with the struct filled so far. */
    ghost function Pending(number: nat, pos: nat, end: nat): ParseResult
      reads this, buffer
      requires pos <= end <= buffer.Length
    {
      ParseFrom(View(buffer[..], cells), number, buffer[pos..end])
    }

    /** The body of the loop for one option. */
    method ParseOption(number: nat, pos: nat, end: nat) returns (status: nat, newNumber: nat, next: nat)
      requires pos < end <= buffer.Length && buffer[pos] / 16 != 15
      requires Tidy(cells, number, pos) && Pointers(cells) && !Pending(number, pos, end).Outside?
      modifies this`cells, buffer
      ensures pos < next <= end
      ensures end < buffer.Length ==> buffer[end + 1..] == old(buffer[end + 1..])
      ensures status != NO_ERROR ==> old(Pending(number, pos, end)) == Refusal(status)
      ensures status == NO_ERROR ==> Tidy(cells, newNumber, next) && Pointers(cells)
      ensures status == NO_ERROR ==> old(Pending(number, pos, end)) == Pending(newNumber, next, end)
    {
      hide ReadOption, Apply, View, Tidy, Pointers;
      ghost var fields := View(buffer[..], cells);
      ghost var b := buffer[pos..end];
      var delta, length, value := ReadHeader(pos, end);
      newNumber := number + delta;
      next := value + length;
      ghost var o := Opt(newNumber, buffer[value..next]);
      ghost var left := buffer[next..];
      assert left[..end - next] == buffer[next..end];
      assert end < buffer.Length ==> left[end + 1 - next..] == buffer[end + 1..];
      TidyLater(cells, number, pos, newNumber, pos);
      status := HandleOption(newNumber, pos, value, length);
      assert buffer[next..] == left;
      assert left[..end - next] == buffer[next..end];
      assert end < buffer.Length ==> left[end + 1 - next..] == buffer[end + 1..];
    }

    /** The payload, cut to a chunk and ended with a NUL. */
    method TakePayload(at: nat, end: nat, ghost number: nat)
      requires at <= end < buffer.Length && Tidy(cells, number, at)
      modifies this`payload, this`payloadLength, buffer
      ensures payload == at && at + payloadLength <= end && buffer[payload + payloadLength] == 0
      ensures buffer[at..at + payloadLength] == CutTo(old(buffer[at..end]), MAX_CHUNK_SIZE)
      ensures View(buffer[..], cells) == old(View(buffer[..], cells))
      ensures buffer[end + 1..] == old(buffer[end + 1..])
    {
      payload, payloadLength := at, end - at;
      if payloadLength > MAX_CHUNK_SIZE {
        payloadLength := MAX_CHUNK_SIZE;
      }
      ghost var was := buffer[..];
      assert was[at..end] == buffer[at..end];
      assert was[at..end][..payloadLength] == was[at..at + payloadLength];
      assert payloadLength == end - at ==> was[at..end] == was[at..at + payloadLength];
      buffer[at + payloadLength] := 0;
      assert buffer[at..at + payloadLength] == was[at..at + payloadLength];
      assert buffer[..][..at] == was[..at];
      WriteBehind(was, buffer[..], cells, number, at);
    }

    lemma PendingIs(number: nat, pos: nat, end: nat)
      requires pos <= end <= buffer.Length
      ensures Pending(number, pos, end) == ParseFrom(View(buffer[..], cells), number, buffer[pos..end])
    {
    }

    lemma RefusalParses(status: nat)
      requires status != NO_ERROR
      ensures Parses(Refusal(status), status)
    {
    }

    lemma NothingLeft(number: nat, end: nat)
      requires end <= buffer.Length && payload == payloadLength == 0
      ensures Parses(Pending(number, end, end), NO_ERROR)
    {
      hide View, ParseFrom;
      ParseEnd(View(buffer[..], cells), number);
      assert buffer[end..end] == [] && buffer[0..0] == [];
    }

    /** The payload behind a marker at `pos`. */
    method ReadPayload(number: nat, pos: nat, end: nat)
      requires pos < end < buffer.Length && buffer[pos] / 16 == 15 && Tidy(cells, number, pos)
      modifies this`payload, this`payloadLength, buffer
      ensures Parses(old(Pending(number, pos, end)), NO_ERROR)
      ensures buffer[end + 1..] == old(buffer[end + 1..])
    {
      hide View, Tidy, ParseFrom, CutTo;
      ghost var b := buffer[pos..end];
      ParseMarker(View(buffer[..], cells), number, b);
      assert b[1..] == buffer[pos + 1..end];
      TidyLater(cells, number, pos, number, pos + 1);
      TakePayload(pos + 1, end, number);
    }

    /** The parser's loop. */
    method ParseOptions(start: nat, end: nat) returns (status: nat)
      requires start <= end < buffer.Length && cells == map[] && payload == payloadLength == 0
      requires !ParseFrom(map[], 0, buffer[start..end]).Outside?
      modifies this`cells, this`payload, this`payloadLength, buffer
      ensures Parses(old(ParseFrom(map[], 0, buffer[start..end])), status)
      ensures buffer[end + 1..] == old(buffer[end + 1..])
    {
      hide *;
      ghost var expected := ParseFrom(map[], 0, buffer[start..end]);
      ghost var behind := buffer[end + 1..];
      NothingRead(buffer[..], start);
      var number, pos := 0, start;
      PendingIs(number, pos, end);
      status := NO_ERROR;
      while pos < end
        invariant pos <= end && payload == payloadLength == 0 && status == NO_ERROR
        invariant Tidy(cells, number, pos) && Pointers(cells) && Pending(number, pos, end) == expected
        invariant buffer[end + 1..] == behind
        decreases end - pos
      {
        if buffer[pos] / 16 == 15 {
          ReadPayload(number, pos, end);
          return;
        }
        status, number, pos := ParseOption(number, pos, end);
        if status != NO_ERROR {
          RefusalParses(status);
          return;
        }
      }
      NothingLeft(number, end);
    }

    /** The struct and the status agree with what parsing should give. */
    ghost predicate Parses(r: ParseResult, status: nat)
      reads this, buffer
    {
      match r
      case Outside => false
      case Refusal(s) => status == s != NO_ERROR
      case Finished(fields, bytes) =>
        && status == NO_ERROR && View(buffer[..], cells) == fields
        && payload + payloadLength <= buffer.Length && buffer[payload..payload + payloadLength] == bytes
        && (payload != 0 ==> payload + payloadLength < buffer.Length && buffer[payload + payloadLength] == 0)
    }

    /** The header fields and the token, and the options reset. */
    method ParseHeader(data: array<Byte>) returns (tokenLength: nat)
      requires data.Length >= 4 && (data[0] / 64 == 1 ==> 4 + ParsedTokenLength(data[..]) <= data.Length)
      modifies this
      ensures buffer == data && cells == map[] && payload == payloadLength == 0
      ensures version == data[0] / 64 && messageType == data[0] / 16 % 4 && code == data[1]
      ensures mid == 256 * (data[2] as int) + data[3] as int
      ensures tokenLength == ParsedTokenLength(data[..])
      ensures version == 1 ==> token == data[4..4 + tokenLength]
    {
      buffer := data;
      version, messageType, code := data[0] / 64, data[0] / 16 % 4, data[1];
      mid := 256 * (data[2] as int) + data[3] as int;
      cells, payload, payloadLength := map[], 0, 0;
      tokenLength := if data[0] % 16 < TOKEN_LEN then data[0] % 16 else TOKEN_LEN;
      if version == 1 {
        token := data[4..4 + tokenLength];
      }
    }

    /** coap_parse_message: fills the struct and says what `Interpreted` says of the bytes it was given.
        One byte behind the datagram may be overwritten. */
    method ParseMessage(data: array<Byte>, dataLen: nat) returns (status: nat)
      requires dataLen < data.Length && Readable(data[..dataLen])
      modifies this, data
      ensures buffer == data && data[dataLen + 1..] == old(data[dataLen + 1..])
      ensures Filled(Interpreted(old(data[..dataLen])), status)
    {
      hide ParseFrom, View, Tidy, Pointers, CutTo;
      ghost var b := data[..dataLen];
      var tokenLength := ParseHeader(data);
      if version != 1 {
        return BAD_REQUEST;
      }
      assert b[4..4 + tokenLength] == token;
      assert b[4 + tokenLength..] == data[4 + tokenLength..dataLen];
      status := ParseOptions(4 + tokenLength, dataLen);
    }

    /** The status reports the error, or the struct holds the packet and its payload ends with a NUL. */
    ghost predicate Filled(r: Parsed, status: nat)
      reads this, buffer
    {
      match r
      case Error(s) => status == s != NO_ERROR
      case Message(p) =>
        && status == NO_ERROR && Contents() == p
        && (payload != 0 ==> payload + payloadLength < buffer.Length && buffer[payload + payloadLength] == 0)
    }
  }

  lemma NothingRead(data: Bytes, pos: nat)
    ensures View(data, map[]) == map[] && Tidy(map[], 0, pos) && Pointers(map[])
  {
  }

  lemma ParseMarker(fields: Fields, number: nat, b: Bytes)
    requires b != [] && b[0] / 16 == 15
    ensures ParseFrom(fields, number, b) == Finished(fields, CutTo(b[1..], MAX_CHUNK_SIZE))
  {
  }

  lemma ParseEnd(fields: Fields, number: nat)
    ensures ParseFrom(fields, number, []) == Finished(fields, [])
  {
  }

  /** What one option has done to the struct and the buffer. */
  ghost predicate Handled(o: Outcome, status: nat, data: Bytes, cells: Cells, number: nat, pos: nat) {
    match o
    case Refused(s) => status == s != NO_ERROR
    case Ok(fields) => status == NO_ERROR && View(data, cells) == fields && Tidy(cells, number, pos) && Pointers(cells)
  }

  lemma TailOf(a: array<Byte>, k: nat)
    requires k <= a.Length
    ensures a[..][k..] == a[k..]
  {
  }

  function TextAt(fields: Fields, n: nat): Bytes {
    if n in fields && fields[n].Text? then fields[n].bytes else []
  }
}
