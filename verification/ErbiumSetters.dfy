/** The setters through which a device fills in paths and block options, and what they guarantee
    about serializing and parsing them. */
module ErbiumSetters {
  import opened OptionFormat
  import opened SplitMerge
  import opened ErbiumPacket
  import opened ErbiumRoundTrip

  const QUESTION: Byte := 0x3F

  function Stripped(text: Bytes, c: Byte): (r: Bytes)
    ensures r == [] || r[0] != c
    ensures |r| <= |text|
  {
    if text == [] || text[0] != c then text else Stripped(text[1..], c)
  }

  /** The place of the first '?', or the length. */
  function QueryAt(text: Bytes): (i: nat)
    ensures i <= |text| && QUESTION !in text[..i] && (i < |text| ==> text[i] == QUESTION)
  {
    if text == [] || text[0] == QUESTION then 0
    else
      var i := QueryAt(text[1..]);
      assert text[..i + 1] == [text[0]] + text[1..][..i];
      i + 1
  }

  /** The fields after setting a location. */
  function WithLocation(fields: Fields, path: Bytes): Fields {
    var text := Stripped(path, SLASH);
    var q := QueryAt(text);
    (if q < |text| then fields[LOCATION_QUERY := Text(Stripped(text[q + 1..], QUESTION))] else fields)
      [LOCATION_PATH := Text(text[..q])]
  }

  method Strip(text: Bytes, c: Byte) returns (r: Bytes)
    ensures r == Stripped(text, c)
  {
    r := text;
    while r != [] && r[0] == c
      invariant Stripped(r, c) == Stripped(text, c)
      decreases |r|
    {
      r := r[1..];
    }
  }

  /** coap_set_header_location_path */
  method SetLocationPath(fields: Fields, path: Bytes) returns (updated: Fields, length: nat)
    ensures updated == WithLocation(fields, path)
    ensures length == QueryAt(Stripped(path, SLASH))
  {
    var text := Strip(path, SLASH);
    updated, length := fields, 0;
    while length < |text| && text[length] != QUESTION
      invariant length <= |text| && QueryAt(text) == length + QueryAt(text[length..])
    {
      assert text[length..][1..] == text[length + 1..];
      length := length + 1;
    }
    if length < |text| {
      var query := Strip(text[length + 1..], QUESTION);
      updated := updated[LOCATION_QUERY := Text(query)];
    }
    updated := updated[LOCATION_PATH := Text(text[..length])];
  }

  lemma FirstOfPrefix(text: Bytes, n: nat, c: Byte)
    requires n <= |text| && (text == [] || text[0] != c)
    ensures text[..n] == [] || text[..n][0] != c
  {
  }

  /** A location set this way survives serializing and parsing if and only if no odd run of '/' ends its path. */
  lemma LocationSurvives(fields: Fields, path: Bytes)
    requires |path| < 0x10000
    ensures var f := WithLocation(fields, path)[LOCATION_PATH];
            FieldOk(LOCATION_PATH, f) && (Survives(LOCATION_PATH, f) <==> TrailingRun(f.bytes, SLASH) % 2 == 0)
  {
    var text := Stripped(path, SLASH);
    FirstOfPrefix(text, QueryAt(text), SLASH);
    hide Stripped, QueryAt;
    assert text[..QueryAt(text)] == [] ==> TrailingRun(text[..QueryAt(text)], SLASH) == 0;
  }

  /** coap_set_header_block2 and coap_set_header_block1 (`n` says which). */
  method SetBlock(fields: Fields, n: nat, num: nat, more: bool, size: nat) returns (ok: bool, updated: Fields)
    requires KindOf(n) == Blockwise
    ensures ok <==> BlockInRange(num, size)
    ensures updated == if ok then fields[n := Block(num, more, size)] else fields
    ensures ok ==> FieldOk(n, updated[n]) && (Survives(n, updated[n]) <==> PowerOfTwo(size))
  {
    if size < 16 || size > 2048 || num > 0x0FFFFF {
      return false, fields;
    }
    return true, fields[n := Block(num, more, size)];
  }
}
