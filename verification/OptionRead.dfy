/** Reading one option header in place: CoapPDU::getOptionDelta and getOptionValueLength.

    Both return a 16-bit integer, so a two-byte extension above 65266 wraps. `ReadMatches`
    says the reads agree with RFC 7252 on every option whose delta and length do not wrap. */
module OptionRead {
  import opened OptionFormat

  const WORD: nat := 0x10000

  /** Extension bytes the code reads for the delta nibble, and for the length nibble. */
  function DeltaReads(nibble: nat): nat {
    if nibble == 13 then 1 else if nibble == 14 then 2 else 0
  }

  function LengthReads(nibble: nat): nat {
    if nibble < 13 then 0 else if nibble == 13 then 1 else 2
  }

  predicate Readable(b: Bytes, pos: nat) {
    pos < |b| && pos + 1 + DeltaReads(b[pos] / 16) + LengthReads(b[pos] % 16) <= |b|
  }

  function Load16(high: nat, low: nat): nat {
    256 * high + low
  }

  function OptionDelta(b: Bytes, pos: nat): nat
    requires Readable(b, pos)
  {
    var nibble := b[pos] / 16;
    if nibble < 13 then nibble
    else if nibble == 13 then b[pos + 1] as int + 13
    else if nibble == 14 then (Load16(b[pos + 1], b[pos + 2]) + 269) % WORD
    else nibble
  }

  function OptionLength(b: Bytes, pos: nat): nat
    requires Readable(b, pos)
  {
    var length := b[pos] % 16;
    if length < 13 then length else
    var at := pos + 1 + DeltaReads(b[pos] / 16);
    if length == 13 then b[at] as int + 13
    else (Load16(b[at], b[at + 1]) + 269) % WORD
  }

  /** The size the code computes for the option: from the values, not from the nibbles. */
  function OptionTotal(b: Bytes, pos: nat): nat
    requires Readable(b, pos)
  {
    OptionSize(OptionDelta(b, pos), OptionLength(b, pos))
  }

  lemma TakeSplits(nibble: nat, b: Bytes)
    requires TakeNumber(nibble, b).Some?
    ensures var t := TakeNumber(nibble, b).value;
            && nibble < 15 && Extra(t.value) == DeltaReads(nibble) == LengthReads(nibble) <= |b|
            && t.rest == b[Extra(t.value)..]
            && t.value == (if nibble < 13 then nibble else if nibble == 13 then 13 + b[0] as int
                           else 269 + Load16(b[0], b[1]))
  {
  }

  lemma RestOfRest(b: Bytes, i: nat, j: nat)
    requires i + j <= |b|
    ensures b[i..][j..] == b[i + j..]
    ensures b[i..][..j] == b[i..i + j]
  {
  }

  /** Header bytes, value and remainder of a decodable option, as positions in the buffer. */
  lemma DecodeOptionSplits(b: Bytes)
    requires DecodeOption(b).Some?
    ensures var s := DecodeOption(b).value;
            var size := OptionSize(s.delta, |s.value|);
            && size <= |b| && s.rest == b[size..] && s.value == b[size - |s.value|..size]
            && DeltaReads(b[0] / 16) == Extra(s.delta) && LengthReads(b[0] % 16) == Extra(|s.value|)
  {
    hide *;
    DecodeParts(b);
    PartsSplit(b, b[0] / 16, b[0] % 16);
  }

  lemma PartsSplit(b: Bytes, high: nat, low: nat)
    requires b != [] && TakeNumber(high, b[1..]).Some?
    requires var d := TakeNumber(high, b[1..]).value;
             TakeNumber(low, d.rest).Some?
             && TakeNumber(low, d.rest).value.value <= |TakeNumber(low, d.rest).value.rest|
    ensures var d := TakeNumber(high, b[1..]).value;
            var l := TakeNumber(low, d.rest).value;
            var size := OptionSize(d.value, l.value);
            && size <= |b| && l.rest[l.value..] == b[size..] && l.rest[..l.value] == b[size - l.value..size]
            && DeltaReads(high) == Extra(d.value) && LengthReads(low) == Extra(l.value)
  {
    hide *;
    var d := TakeNumber(high, b[1..]).value;
    var l := TakeNumber(low, d.rest).value;
    TakeBehind(high, b[1..]);
    TakeBehind(low, d.rest);
    Positions(b, b[1..], d.rest, l.rest, Extra(d.value), Extra(l.value), l.value);
    SizeOf(d.value, l.value);
  }

  /** `r` is what is left of `b` behind `n` bytes. */
  ghost predicate Behind(b: Bytes, n: nat, r: Bytes) {
    n <= |b| && r == b[n..]
  }

  lemma TakeBehind(nibble: nat, b: Bytes)
    requires TakeNumber(nibble, b).Some?
    ensures var t := TakeNumber(nibble, b).value;
            Behind(b, Extra(t.value), t.rest) && Extra(t.value) == DeltaReads(nibble) == LengthReads(nibble)
  {
    TakeSplits(nibble, b);
  }

  /** What is left of `b` after three cuts from the front, as positions in `b`. */
  lemma Positions(b: Bytes, c: Bytes, d: Bytes, e: Bytes, i: nat, j: nat, n: nat)
    requires b != [] && c == b[1..] && Behind(c, i, d) && Behind(d, j, e) && n <= |e|
    ensures 1 + i + j + n <= |b| && e[..n] == b[1 + i + j..1 + i + j + n] && e[n..] == b[1 + i + j + n..]
  {
    RestOfRest(b, 1, i);
    RestOfRest(b, 1 + i, j);
    RestOfRest(b, 1 + i + j, n);
  }

  lemma SizeOf(delta: nat, length: nat)
    ensures OptionSize(delta, length) == 1 + Extra(delta) + Extra(length) + length
  {
  }

  /** The two numbers a decodable option starts with. */
  lemma DecodeParts(b: Bytes)
    requires DecodeOption(b).Some?
    ensures b != [] && TakeNumber(b[0] / 16, b[1..]).Some?
    ensures var d := TakeNumber(b[0] / 16, b[1..]).value;
            && TakeNumber(b[0] % 16, d.rest).Some?
            && var l := TakeNumber(b[0] % 16, d.rest).value;
               l.value <= |l.rest| && DecodeOption(b).value == Single(d.value, l.rest[..l.value], l.rest[l.value..])
  {
    hide TakeNumber, Fits;
  }

  lemma ReadValues(b: Bytes)
    requires DecodeOption(b).Some?
    requires DecodeOption(b).value.delta < WORD && |DecodeOption(b).value.value| < WORD
    requires Readable(b, 0)
    ensures OptionDelta(b, 0) == DecodeOption(b).value.delta
    ensures OptionLength(b, 0) == |DecodeOption(b).value.value|
  {
    hide TakeNumber, DecodeOption, Extra, Fits;
    DecodeParts(b);
    var high, low := b[0] / 16, b[0] % 16;
    var d := TakeNumber(high, b[1..]).value;
    TakeSplits(high, b[1..]);
    TakeSplits(low, d.rest);
    RestOfRest(b, 1, DeltaReads(high));
  }

  lemma ReadShifted(b: Bytes, pos: nat, end: nat)
    requires pos <= end <= |b| && Readable(b[pos..end], 0)
    ensures Readable(b, pos)
    ensures OptionDelta(b, pos) == OptionDelta(b[pos..end], 0)
    ensures OptionLength(b, pos) == OptionLength(b[pos..end], 0)
  {
  }

  lemma ReadMatches(b: Bytes, pos: nat, end: nat)
    requires pos <= end <= |b| && DecodeOption(b[pos..end]).Some?
    requires var s := DecodeOption(b[pos..end]).value; s.delta < WORD && |s.value| < WORD
    ensures Readable(b, pos)
    ensures var s := DecodeOption(b[pos..end]).value;
            && OptionDelta(b, pos) == s.delta && OptionLength(b, pos) == |s.value|
            && pos + OptionTotal(b, pos) <= end
            && s.value == b[pos + OptionTotal(b, pos) - |s.value|..pos + OptionTotal(b, pos)]
            && s.rest == b[pos + OptionTotal(b, pos)..end]
  {
    hide DecodeOption, OptionDelta, OptionLength;
    var c := b[pos..end];
    DecodeOptionSplits(c);
    assert Readable(c, 0);
    ReadValues(c);
    ReadShifted(b, pos, end);
    hide Readable;
    var s := DecodeOption(c).value;
    var size := OptionSize(s.delta, |s.value|);
    SliceOfSlice(b, pos, end, size - |s.value|, size);
    SliceOfSlice(b, pos, end, size, |c|);
    assert c[size..] == c[size..|c|];
  }
}
