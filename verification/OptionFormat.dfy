/** The option part of a CoAP message, as section 3.1 of RFC 7252 defines it.

    Both codecs of the repository (the controller's CoapPDU and the device's Erbium) are
    proved against this module. `EncodeAll` writes options, `Decode` reads a byte string back,
    and `DecodeEncoded` says the second undoes the first. Bytes are integers below 256;
    shifts and masks of nibbles are written as division and remainder by 16. */
module OptionFormat {

  type Byte = x: int | 0 <= x < 0x100
  type Bytes = seq<Byte>

  datatype Option<+T> = None | Some(value: T)

  datatype Opt = Opt(number: nat, value: Bytes)

  const MARKER: Byte := 0xFF

  /** The number of extension bytes a delta or a length needs. */
  function Extra(n: nat): nat {
    if n < 13 then 0 else if n < 269 then 1 else 2
  }

  function Nibble(n: nat): (b: Byte)
    ensures b < 15
  {
    if n < 13 then n else if n < 269 then 13 else 14
  }

  /** The values a nibble with its extension can carry. */
  predicate Fits(n: int) {
    0 <= n < 269 + 0x10000
  }

  function Extension(n: nat): (e: Bytes)
    requires Fits(n)
    ensures |e| == Extra(n)
  {
    if n < 13 then [] else if n < 269 then [n - 13] else [(n - 269) / 256, (n - 269) % 256]
  }

  function OptionSize(delta: nat, length: nat): nat {
    1 + Extra(delta) + Extra(length) + length
  }

  function EncodeOption(delta: nat, value: Bytes): (b: Bytes)
    requires Fits(delta) && Fits(|value|)
    ensures |b| == OptionSize(delta, |value|)
  {
    [16 * Nibble(delta) + Nibble(|value|)] + Extension(delta) + Extension(|value|) + value
  }

  /** The bytes of `s` with those from `at` on replaced by `v`. */
  function Overwrite(s: Bytes, at: nat, v: Bytes): (r: Bytes)
    requires at + |v| <= |s|
    ensures |r| == |s|
  {
    s[..at] + v + s[at + |v|..]
  }

  lemma OverwriteAppend(s: Bytes, at: nat, u: Bytes, v: Bytes)
    requires at + |u| + |v| <= |s|
    ensures Overwrite(Overwrite(s, at, u), at + |u|, v) == Overwrite(s, at, u + v)
  {
  }

  /** One option of the same number for each value. */
  function Numbered(number: nat, values: seq<Bytes>): seq<Opt> {
    if values == [] then [] else [Opt(number, values[0])] + Numbered(number, values[1..])
  }

  function LastNumber(prev: nat, opts: seq<Opt>): nat {
    if opts == [] then prev else opts[|opts| - 1].number
  }

  /** Numbers never go down, starting from `prev`, and every delta and length can be written. */
  predicate Encodable(prev: nat, opts: seq<Opt>)
    decreases opts
  {
    opts != [] ==>
      && prev <= opts[0].number
      && Fits(opts[0].number - prev)
      && Fits(|opts[0].value|)
      && Encodable(opts[0].number, opts[1..])
  }

  function EncodeAll(prev: nat, opts: seq<Opt>): Bytes
    requires Encodable(prev, opts)
    decreases opts
  {
    if opts == [] then []
    else EncodeOption(opts[0].number - prev, opts[0].value) + EncodeAll(opts[0].number, opts[1..])
  }

  /* ---- Decoding ---- */

  datatype Taken = Taken(value: nat, rest: Bytes)

  /** The number a nibble stands for, read with its extension from the front of `b`. */
  function TakeNumber(nibble: nat, b: Bytes): (t: Option<Taken>)
    ensures t.Some? ==> |t.value.rest| <= |b| && Fits(t.value.value)
  {
    if nibble < 13 then Some(Taken(nibble, b))
    else if nibble == 13 then if |b| < 1 then None else Some(Taken(13 + b[0] as int, b[1..]))
    else if nibble == 14 then if |b| < 2 then None else Some(Taken(269 + 256 * (b[0] as int) + b[1] as int, b[2..]))
    else None
  }

  datatype Single = Single(delta: nat, value: Bytes, rest: Bytes)

  /** The first option of `b`: header byte, extended delta, extended length, value. */
  function DecodeOption(b: Bytes): (s: Option<Single>)
    ensures s.Some? ==> |s.value.rest| < |b| && Fits(s.value.delta) && Fits(|s.value.value|)
  {
    if b == [] then None else
    var delta := TakeNumber(b[0] / 16, b[1..]);
    if delta.None? then None else
    var length := TakeNumber(b[0] % 16, delta.value.rest);
    if length.None? || |length.value.rest| < length.value.value then None else
    Some(Single(delta.value.value, length.value.rest[..length.value.value], length.value.rest[length.value.value..]))
  }

  /** Options and payload; an absent payload is the empty one, as a marker needs a byte after it. */
  datatype Body = Body(options: seq<Opt>, payload: Bytes)

  function Decode(prev: nat, b: Bytes): (r: Option<Body>)
    decreases |b|
    ensures r.Some? ==> Encodable(prev, r.value.options)
  {
    if b == [] then Some(Body([], []))
    else if b[0] == MARKER then if |b| == 1 then None else Some(Body([], b[1..]))
    else
      var s := DecodeOption(b);
      if s.None? then None else
      var number := prev + s.value.delta;
      var tail := Decode(number, s.value.rest);
      if tail.None? then None
      else Some(Body([Opt(number, s.value.value)] + tail.value.options, tail.value.payload))
  }

  /** What follows the options of a message that carries `payload`. */
  function PayloadPart(payload: Bytes): Bytes {
    if payload == [] then [] else [MARKER] + payload
  }

  /* ---- Round trip ---- */

  lemma TakeExtension(n: nat, tail: Bytes)
    requires Fits(n)
    ensures TakeNumber(Nibble(n), Extension(n) + tail) == Some(Taken(n, tail))
  {
    var b := Extension(n) + tail;
    assert b[Extra(n)..] == tail;
    if n >= 269 {
      assert b[0] == (n - 269) / 256 && b[1] == (n - 269) % 256;
    }
  }

  lemma NibblesOf(high: nat, low: nat)
    requires low < 16
    ensures (16 * high + low) / 16 == high && (16 * high + low) % 16 == low
  {
  }

  lemma EncodedBytes(delta: nat, value: Bytes, tail: Bytes)
    requires Fits(delta) && Fits(|value|)
    ensures var b := EncodeOption(delta, value) + tail;
            && b[0] == 16 * Nibble(delta) + Nibble(|value|) && b[0] != MARKER
            && b[1..] == Extension(delta) + (Extension(|value|) + (value + tail))
  {
    hide Extension, Extra;
  }

  lemma DecodeOptionParts(b: Bytes, delta: Taken, length: Taken)
    requires b != [] && TakeNumber(b[0] / 16, b[1..]) == Some(delta)
    requires TakeNumber(b[0] % 16, delta.rest) == Some(length) && length.value <= |length.rest|
    ensures DecodeOption(b) == Some(Single(delta.value, length.rest[..length.value], length.rest[length.value..]))
  {
    hide TakeNumber;
  }

  lemma DecodeOptionEncoded(delta: nat, value: Bytes, tail: Bytes)
    requires Fits(delta) && Fits(|value|)
    ensures DecodeOption(EncodeOption(delta, value) + tail) == Some(Single(delta, value, tail))
    ensures (EncodeOption(delta, value) + tail)[0] != MARKER
  {
    hide TakeNumber, DecodeOption, EncodeOption, Extension, Nibble, Fits;
    var b := EncodeOption(delta, value) + tail;
    var afterDelta := Extension(|value|) + (value + tail);
    EncodedBytes(delta, value, tail);
    NibblesOf(Nibble(delta), Nibble(|value|));
    TakeExtension(delta, afterDelta);
    TakeExtension(|value|, value + tail);
    DecodeOptionParts(b, Taken(delta, afterDelta), Taken(|value|, value + tail));
    assert (value + tail)[..|value|] == value && (value + tail)[|value|..] == tail;
  }

  lemma SliceOfSlice(b: Bytes, from: nat, to: nat, i: nat, j: nat)
    requires from <= to <= |b| && i <= j <= to - from
    ensures b[from..to][i..j] == b[from + i..from + j]
  {
    var c, d := b[from..to][i..j], b[from + i..from + j];
    forall k | 0 <= k < j - i ensures c[k] == d[k] {
    }
    assert c == d;
  }

  lemma Assoc(a: Bytes, b: Bytes, c: Bytes)
    ensures (a + b) + c == a + (b + c)
  {
  }

  lemma DecodeCons(prev: nat, o: Opt, b: Bytes)
    requires prev <= o.number && Fits(o.number - prev) && Fits(|o.value|)
    ensures var r := Decode(o.number, b);
            Decode(prev, EncodeOption(o.number - prev, o.value) + b)
            == if r.None? then None else Some(Body([o] + r.value.options, r.value.payload))
  {
    hide DecodeOption, EncodeOption, Encodable, Extra, Nibble, Fits;
    DecodeOptionEncoded(o.number - prev, o.value, b);
    DecodeFirst(prev, EncodeOption(o.number - prev, o.value) + b);
  }

  lemma DecodeFirst(prev: nat, b: Bytes)
    requires DecodeOption(b).Some? && b[0] != MARKER
    ensures var s := DecodeOption(b).value;
            var r := Decode(prev + s.delta, s.rest);
            Decode(prev, b) == if r.None? then None
                               else Some(Body([Opt(prev + s.delta, s.value)] + r.value.options, r.value.payload))
  {
    hide Encodable, Fits, TakeNumber;
  }

  lemma {:induction false} DecodePrefix(prev: nat, opts: seq<Opt>, tail: Bytes)
    requires Encodable(prev, opts)
    requires Decode(LastNumber(prev, opts), tail).Some?
    ensures var t := Decode(LastNumber(prev, opts), tail).value;
            Decode(prev, EncodeAll(prev, opts) + tail) == Some(Body(opts + t.options, t.payload))
    decreases opts
  {
    hide EncodeOption, Decode;
    var t := Decode(LastNumber(prev, opts), tail).value;
    if opts == [] {
      assert EncodeAll(prev, opts) + tail == tail;
      assert opts + t.options == t.options;
    } else {
      var o, rest := opts[0], opts[1..];
      assert LastNumber(prev, opts) == LastNumber(o.number, rest);
      DecodePrefix(o.number, rest, tail);
      assert opts + t.options == [o] + (rest + t.options);
      DecodeCons(prev, o, EncodeAll(o.number, rest) + tail);
      Assoc(EncodeOption(o.number - prev, o.value), EncodeAll(o.number, rest), tail);
    }
  }

  /** Reading what was written gives back every option and the payload. */
  lemma DecodeEncoded(prev: nat, opts: seq<Opt>, payload: Bytes)
    requires Encodable(prev, opts)
    ensures Decode(prev, EncodeAll(prev, opts) + PayloadPart(payload)) == Some(Body(opts, payload))
  {
    assert payload != [] ==> PayloadPart(payload)[1..] == payload;
    DecodePrefix(prev, opts, PayloadPart(payload));
    assert opts + [] == opts;
  }

  /* ---- Concatenation ---- */

  lemma {:induction false} EncodableSplit(prev: nat, a: seq<Opt>, b: seq<Opt>)
    ensures Encodable(prev, a + b) <==> Encodable(prev, a) && Encodable(LastNumber(prev, a), b)
    decreases a
  {
    if a == [] {
      assert a + b == b;
    } else {
      assert (a + b)[1..] == a[1..] + b;
      EncodableSplit(a[0].number, a[1..], b);
    }
  }

  lemma EncodeCons(prev: nat, o: Opt, rest: seq<Opt>)
    requires prev <= o.number && Fits(o.number - prev) && Fits(|o.value|) && Encodable(o.number, rest)
    ensures Encodable(prev, [o] + rest)
    ensures EncodeAll(prev, [o] + rest) == EncodeOption(o.number - prev, o.value) + EncodeAll(o.number, rest)
  {
    assert ([o] + rest)[1..] == rest;
  }

  lemma {:induction false} EncodeSplit(prev: nat, a: seq<Opt>, b: seq<Opt>)
    requires Encodable(prev, a) && Encodable(LastNumber(prev, a), b)
    ensures Encodable(prev, a + b)
    ensures EncodeAll(prev, a + b) == EncodeAll(prev, a) + EncodeAll(LastNumber(prev, a), b)
    decreases a
  {
    hide EncodeOption;
    if a == [] {
      assert a + b == b;
    } else {
      var o, rest := a[0], a[1..];
      assert LastNumber(prev, a) == LastNumber(o.number, rest);
      EncodeSplit(o.number, rest, b);
      EncodeCons(prev, o, rest + b);
      assert [o] + (rest + b) == a + b;
      Assoc(EncodeOption(o.number - prev, o.value), EncodeAll(o.number, rest), EncodeAll(LastNumber(prev, a), b));
    }
  }
}
