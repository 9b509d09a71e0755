/** The bytes of a message before and after CoapPDU::addOption, as sequences. */
module BuildImage {
  import opened OptionFormat
  import opened OptionOrder
  import opened OptionRead

  lemma EncodeOne(prev: nat, o: Opt)
    requires prev <= o.number && Fits(o.number - prev) && Fits(|o.value|)
    ensures Encodable(prev, [o]) && EncodeAll(prev, [o]) == EncodeOption(o.number - prev, o.value)
  {
    hide EncodeOption;
    EncodeCons(prev, o, []);
    assert [o] + [] == [o];
  }

  /** Appending behind every option. */
  lemma AppendImage(opts: seq<Opt>, o: Opt)
    requires Small(0, opts) && SmallStep(opts, o) && Place(opts, o.number) == |opts|
    ensures Insert(opts, o) == opts + [o]
    ensures LastNumber(0, opts) <= o.number < LastNumber(0, opts) + LIMIT
    ensures Encodable(0, opts) && Encodable(0, opts + [o])
    ensures EncodeAll(0, opts + [o])
            == EncodeAll(0, opts) + EncodeOption(o.number - LastNumber(0, opts), o.value)
  {
    hide EncodeOption, Small, Place, Encodable, EncodeAll;
    var prev := LastNumber(0, opts);
    assert opts[..|opts|] == opts && opts[|opts|..] == [];
    PlaceSplits(0, opts, o.number);
    SmallEncodable(0, opts);
    EncodeOne(prev, o);
    EncodeSplit(0, opts, [o]);
  }

  /** Splitting the encoding at option `i`: what is before, the option itself, what is after. */
  lemma SplitAt(prev: nat, opts: seq<Opt>, i: nat)
    requires Small(prev, opts) && i < |opts|
    ensures var p := LastNumber(prev, opts[..i]);
            && Encodable(prev, opts) && Encodable(prev, opts[..i]) && Encodable(p, opts[i..])
            && p <= opts[i].number < p + LIMIT && |opts[i].value| < LIMIT
            && Encodable(opts[i].number, opts[i + 1..])
            && EncodeAll(prev, opts) == EncodeAll(prev, opts[..i]) + EncodeAll(p, opts[i..])
            && EncodeAll(p, opts[i..])
               == EncodeOption(opts[i].number - p, opts[i].value) + EncodeAll(opts[i].number, opts[i + 1..])
  {
    hide EncodeOption;
    var a, b := opts[..i], opts[i..];
    assert opts == a + b;
    SmallSplit(prev, a, b);
    SmallEncodable(prev, opts);
    EncodableSplit(prev, a, b);
    EncodeSplit(prev, a, b);
    assert b[1..] == opts[i + 1..];
  }

  lemma InsertBefore(opts: seq<Opt>, o: Opt, p: nat)
    requires p == Place(opts, o.number) < |opts|
    ensures Insert(opts, o) == opts[..p] + ([o] + ([opts[p]] + opts[p + 1..]))
  {
    hide Place;
    assert opts[p..] == [opts[p]] + opts[p + 1..];
  }

  /** The insertion before a larger option: the new option, then the next one with a smaller delta. */
  lemma MiddleImage(opts: seq<Opt>, o: Opt)
    requires Small(0, opts) && SmallStep(opts, o) && Place(opts, o.number) < |opts|
    ensures var p := Place(opts, o.number);
            var prev, next := LastNumber(0, opts[..p]), opts[p];
            && Small(0, Insert(opts, o)) && Encodable(0, Insert(opts, o)) && Encodable(0, opts[..p])
            && prev <= o.number < next.number < prev + LIMIT && |next.value| < LIMIT
            && Encodable(next.number, opts[p + 1..])
            && EncodeAll(0, Insert(opts, o))
               == EncodeAll(0, opts[..p])
                  + (EncodeOption(o.number - prev, o.value)
                     + (EncodeOption(next.number - o.number, next.value)
                        + EncodeAll(next.number, opts[p + 1..])))
  {
    hide EncodeOption, Small, Place, Encodable, EncodeAll, LastNumber;
    var p := Place(opts, o.number);
    var prev, next := LastNumber(0, opts[..p]), opts[p];
    PlaceSplits(0, opts, o.number);
    SplitAt(0, opts, p);
    InsertSmall(opts, o);
    var after := opts[p + 1..];
    EncodeCons(o.number, next, after);
    EncodeCons(prev, o, [next] + after);
    EncodeSplit(0, opts[..p], [o] + ([next] + after));
    InsertBefore(opts, o, p);
  }

  /** Reading the header of an option that starts at `pos`, encoded there with a small delta. */
  lemma ReadEncoded(b: Bytes, pos: nat, end: nat, delta: nat, value: Bytes, rest: Bytes)
    requires delta < LIMIT && |value| < LIMIT
    requires pos <= end <= |b| && b[pos..end] == EncodeOption(delta, value) + rest
    ensures Readable(b, pos) && b[pos] != MARKER
    ensures OptionDelta(b, pos) == delta && OptionLength(b, pos) == |value|
    ensures pos + OptionSize(delta, |value|) <= end
    ensures b[pos + OptionSize(delta, |value|)..end] == rest
    ensures b[pos + OptionSize(delta, |value|) - |value|..pos + OptionSize(delta, |value|)] == value
  {
    hide EncodeOption, DecodeOption, OptionDelta, OptionLength;
    DecodeOptionEncoded(delta, value, rest);
    assert b[pos] == b[pos..end][0];
    ReadMatches(b, pos, end);
  }

  /** Where option `i` starts, counted from the first option. */
  function Offset(opts: seq<Opt>, i: nat): nat
    requires i <= |opts| && Encodable(0, opts[..i])
  {
    |EncodeAll(0, opts[..i])|
  }

  /** One step of a walk over encoded options: what the code reads at option `i`. */
  lemma WalkStep(b: Bytes, start: nat, end: nat, opts: seq<Opt>, i: nat)
    requires Small(0, opts) && Encodable(0, opts) && i < |opts|
    requires start <= end <= |b| && b[start..end] == EncodeAll(0, opts)
    ensures Encodable(0, opts[..i]) && Encodable(0, opts[..i + 1])
    ensures var pos := start + Offset(opts, i);
            && pos < end && Readable(b, pos) && b[pos] != MARKER
            && OptionDelta(b, pos) == opts[i].number - LastNumber(0, opts[..i])
            && OptionLength(b, pos) == |opts[i].value|
            && start + Offset(opts, i + 1) == pos + OptionTotal(b, pos) <= end
            && LastNumber(0, opts[..i + 1]) == opts[i].number
            && b[pos + OptionTotal(b, pos) - |opts[i].value|..pos + OptionTotal(b, pos)] == opts[i].value
  {
    hide EncodeOption, Small, OptionDelta, OptionLength, EncodeAll, Encodable;
    SplitAt(0, opts, i);
    OffsetStep(opts, i);
    var pos := start + Offset(opts, i);
    var prev, o := LastNumber(0, opts[..i]), opts[i];
    assert b[pos..end] == b[start..end][Offset(opts, i)..];
    ReadEncoded(b, pos, end, o.number - prev, o.value, EncodeAll(o.number, opts[i + 1..]));
  }

  lemma OffsetStep(opts: seq<Opt>, i: nat)
    requires Small(0, opts) && Encodable(0, opts) && i < |opts|
    ensures Encodable(0, opts[..i]) && Encodable(0, opts[..i + 1])
    ensures LastNumber(0, opts[..i]) <= opts[i].number == LastNumber(0, opts[..i + 1])
    ensures Offset(opts, i + 1)
            == Offset(opts, i) + OptionSize(opts[i].number - LastNumber(0, opts[..i]), |opts[i].value|)
  {
    hide EncodeOption, EncodeAll;
    SplitAt(0, opts, i);
    var p := LastNumber(0, opts[..i]);
    EncodeCons(p, opts[i], []);
    assert [opts[i]] + [] == [opts[i]] && EncodeAll(opts[i].number, []) == [] by { EmptyEncoding(opts[i].number); }
    EncodeSplit(0, opts[..i], [opts[i]]);
    assert opts[..i] + [opts[i]] == opts[..i + 1];
  }

  lemma EmptyEncoding(prev: nat)
    ensures EncodeAll(prev, []) == []
  {
  }

  lemma {:induction false} PlaceIs(opts: seq<Opt>, n: nat, i: nat)
    requires i <= |opts| && forall k :: 0 <= k < i ==> opts[k].number <= n
    requires i < |opts| ==> opts[i].number > n
    ensures Place(opts, n) == i
    decreases i
  {
    if i > 0 {
      assert forall k :: 0 <= k < |opts[1..]| ==> opts[1..][k] == opts[k + 1];
      PlaceIs(opts[1..], n, i - 1);
    }
  }

  /** Re-writing the delta of an encoded option keeps everything behind its delta bytes. */
  lemma NewDelta(delta: nat, newDelta: nat, value: Bytes, rest: Bytes)
    requires Fits(delta) && Fits(newDelta) && Fits(|value|)
    ensures (EncodeOption(delta, value) + rest)[0] % 16 == Nibble(|value|)
    ensures [16 * Nibble(newDelta) + Nibble(|value|)] + Extension(newDelta)
              + (EncodeOption(delta, value) + rest)[1 + Extra(delta)..]
            == EncodeOption(newDelta, value) + rest
  {
    NibblesOf(Nibble(delta), Nibble(|value|));
    hide Nibble, Extension, Extra;
    var tail := Extension(|value|) + value + rest;
    assert (EncodeOption(delta, value) + rest)[1 + Extra(delta)..] == tail;
    assert EncodeOption(newDelta, value) + rest
        == [16 * Nibble(newDelta) + Nibble(|value|)] + Extension(newDelta) + tail;
  }
}
