/** The attribute-value pairs of a PANA message: their bytes, and how they are found again (section 6.3 of RFC 5191).

    An AVP has an eight-byte header, whose length field counts the value only, and its value; values of type
    OctetString are padded to a multiple of four bytes. */
module PanaAvps {
  import opened OptionFormat

  const HEADER: nat := 16
  const AVP_HEADER: nat := 8

  const AUTH: nat := 1
  const EAP_PAYLOAD: nat := 2
  const INTEGRITY_ALG: nat := 3
  const KEY_ID: nat := 4
  const NONCE: nat := 5
  const PRF_ALG: nat := 6
  const RESULT_CODE: nat := 7
  const SESSION_LIFETIME: nat := 8
  const TERMINATION_CAUSE: nat := 9
  const PAC_INFORMATION: nat := 10
  const RELAYED_MESSAGE: nat := 11

  const WORD16: nat := 0x10000

  predicate IsOctetString(code: nat) {
    code == AUTH || code == EAP_PAYLOAD || code == NONCE || code == PAC_INFORMATION || code == RELAYED_MESSAGE
  }

  /** paddingOctetString */
  method PaddingOctetString(size: nat) returns (padding: nat)
    ensures padding == Padding(size) && padding < 4 && (size + padding) % 4 == 0
  {
    var left4byte := size % 4;
    padding := 0;
    if left4byte != 0 {
      padding := 4 - left4byte;
    }
  }

  function Padding(size: nat): nat {
    (4 - size % 4) % 4
  }

  function Short(n: nat): Bytes
    requires n < WORD16
  {
    [n / 0x100, n % 0x100]
  }

  function ShortAt(b: Bytes, at: nat): nat
    requires at + 2 <= |b|
  {
    0x100 * (b[at] as int) + b[at + 1] as int
  }

  function Zeros(n: nat): (z: Bytes)
    ensures |z| == n
  {
    seq(n, _ => 0)
  }

  datatype Avp = Avp(code: nat, value: Bytes)

  predicate Fitting(a: Avp) {
    0 < a.code < WORD16 && |a.value| < WORD16
  }

  /** Header, value and padding. */
  function AvpBytes(a: Avp): (b: Bytes)
    requires Fitting(a)
    ensures |b| == AvpSize(a)
  {
    Short(a.code) + [0, 0] + Short(|a.value|) + [0, 0] + a.value
      + Zeros(if IsOctetString(a.code) then Padding(|a.value|) else 0)
  }

  function AvpSize(a: Avp): (n: nat)
    ensures n >= AVP_HEADER + |a.value|
  {
    AVP_HEADER + |a.value| + (if IsOctetString(a.code) then Padding(|a.value|) else 0)
  }

  predicate AllFit(avps: seq<Avp>) {
    forall i :: 0 <= i < |avps| ==> Fitting(avps[i])
  }

  function AvpsBytes(avps: seq<Avp>): (b: Bytes)
    requires AllFit(avps)
  {
    if avps == [] then [] else AvpBytes(avps[0]) + AvpsBytes(avps[1..])
  }

  lemma {:induction false} AvpsAppend(avps: seq<Avp>, more: seq<Avp>)
    requires AllFit(avps) && AllFit(more)
    ensures AllFit(avps + more) && AvpsBytes(avps + more) == AvpsBytes(avps) + AvpsBytes(more)
  {
    hide AvpBytes, Fitting;
    if avps == [] {
      assert avps + more == more;
    } else {
      assert (avps + more)[1..] == avps[1..] + more;
      AvpsAppend(avps[1..], more);
    }
  }

  lemma AvpsOne(a: Avp)
    requires Fitting(a)
    ensures AllFit([a]) && AvpsBytes([a]) == AvpBytes(a)
  {
    hide AvpBytes, Fitting;
    assert [a][1..] == [];
  }

  /** What getAvp reads in the header of an AVP, and where the value lies. */
  lemma AvpRead(b: Bytes, at: nat, a: Avp, rest: Bytes)
    requires Fitting(a) && at <= |b| && b[at..] == AvpBytes(a) + rest
    ensures at + AvpSize(a) <= |b| && ShortAt(b, at) == a.code && ShortAt(b, at + 4) == |a.value|
    ensures b[at + AVP_HEADER..at + AVP_HEADER + |a.value|] == a.value
    ensures b[at + AvpSize(a)..] == rest
  {
    var c := AvpBytes(a) + rest;
    assert b[at] == c[0] && b[at + 1] == c[1] && b[at + 4] == c[4] && b[at + 5] == c[5];
    assert c[0] == a.code / 0x100 && c[1] == a.code % 0x100;
    assert c[4] == |a.value| / 0x100 && c[5] == |a.value| % 0x100;
    hide AvpBytes, AvpSize;
    ValuePlace(a, rest);
    TailPlace(b, at, c);
    SliceOfSlice(b, at, |b|, AVP_HEADER, AVP_HEADER + |a.value|);
  }

  lemma ValuePlace(a: Avp, rest: Bytes)
    requires Fitting(a)
    ensures |AvpBytes(a)| >= AVP_HEADER + |a.value|
    ensures (AvpBytes(a) + rest)[AVP_HEADER..AVP_HEADER + |a.value|] == a.value
    ensures (AvpBytes(a) + rest)[|AvpBytes(a)|..] == rest
  {
  }

  lemma TailPlace(b: Bytes, at: nat, c: Bytes)
    requires at <= |b| && b[at..] == c
    ensures b[at..|b|] == c && |b| == at + |c| && forall k :: 0 <= k <= |c| ==> b[at + k..] == c[k..]
  {
  }

  /** Where AVP `i` starts. */
  function OffsetOf(avps: seq<Avp>, i: nat): (n: nat)
    requires i <= |avps|
  {
    if i == 0 then HEADER else OffsetOf(avps, i - 1) + AvpSize(avps[i - 1])
  }

  /** Every AVP that is an OctetString or has a value of whole words starts on a word. */
  lemma {:induction false} Aligned(avps: seq<Avp>, i: nat)
    requires i <= |avps|
    requires forall k :: 0 <= k < |avps| ==> IsOctetString(avps[k].code) || |avps[k].value| % 4 == 0
    ensures OffsetOf(avps, i) % 4 == 0
  {
    if i > 0 { Aligned(avps, i - 1); }
  }

  /** The place of the first AVP with a code, or the number of AVPs. */
  function FirstOf(avps: seq<Avp>, code: nat): (k: nat)
    ensures k <= |avps| && (k < |avps| ==> avps[k].code == code)
    ensures forall i :: 0 <= i < k ==> avps[i].code != code
  {
    if avps == [] || avps[0].code == code then 0
    else
      var k := FirstOf(avps[1..], code);
      assert forall i :: 1 <= i < k + 1 ==> avps[i] == avps[1..][i - 1];
      k + 1
  }

  /** The bytes from AVP `i` on. */
  lemma {:induction false} FromOffset(msg: Bytes, avps: seq<Avp>, i: nat)
    requires AllFit(avps) && |msg| >= HEADER && msg[HEADER..] == AvpsBytes(avps) && i <= |avps|
    ensures OffsetOf(avps, i) <= |msg| && AllFit(avps[i..]) && msg[OffsetOf(avps, i)..] == AvpsBytes(avps[i..])
  {
    hide AvpBytes, AvpSize;
    if i == 0 {
      assert avps[0..] == avps;
    } else {
      FromOffset(msg, avps, i - 1);
      assert avps[i - 1..][0] == avps[i - 1] && avps[i - 1..][1..] == avps[i..];
      AvpRead(msg, OffsetOf(avps, i - 1), avps[i - 1], AvpsBytes(avps[i..]));
    }
  }

  /** A message whose length field tells its length. */
  ghost predicate Carries(msg: Bytes, avps: seq<Avp>) {
    HEADER <= |msg| < WORD16 && ShortAt(msg, 2) == |msg| && AllFit(avps) && msg[HEADER..] == AvpsBytes(avps)
  }

  /** getAvp on a message made of AVPs: the first one with the code, if there is one. */
  method GetAvp(msg: Bytes, code: nat, ghost avps: seq<Avp>) returns (at: Option<nat>)
    requires Carries(msg, avps)
    ensures at.Some? <==> AUTH <= code <= RELAYED_MESSAGE && FirstOf(avps, code) < |avps|
    ensures at.Some? ==>
              var k := FirstOf(avps, code);
              && at.value == OffsetOf(avps, k) && at.value + AVP_HEADER + |avps[k].value| <= |msg|
              && ShortAt(msg, at.value + 4) == |avps[k].value|
              && msg[at.value + AVP_HEADER..at.value + AVP_HEADER + |avps[k].value|] == avps[k].value
  {
    hide AvpBytes, AvpsBytes, OffsetOf, FirstOf, AvpSize, Padding;
    if code < AUTH || code > RELAYED_MESSAGE {
      return None;
    }
    var size: nat, offset: nat := ShortAt(msg, 2) - HEADER, HEADER;
    ghost var i := 0;
    OffsetStart(avps);
    while size > 0
      invariant i <= |avps| && offset == OffsetOf(avps, i) && offset + size == |msg|
      invariant forall k :: 0 <= k < i ==> avps[k].code != code
      decreases size
    {
      ReadAt(msg, avps, i);
      var elmnt := offset;
      if ShortAt(msg, elmnt) == code {
        FirstIs(avps, code, i);
        return Some(elmnt);
      }
      var length := ShortAt(msg, elmnt + 4);
      var padding := 0;
      if IsOctetString(ShortAt(msg, elmnt)) {
        padding := PaddingOctetString(length);
      }
      SizeIs(avps[i]);
      size := size - AVP_HEADER - length - padding;
      offset := offset + AVP_HEADER + length + padding;
      i := i + 1;
    }
    AllRead(msg, avps, i);
    FirstIs(avps, code, i);
    return None;
  }

  lemma OffsetStart(avps: seq<Avp>)
    ensures OffsetOf(avps, 0) == HEADER
  {
  }

  lemma SizeIs(a: Avp)
    ensures AvpSize(a) == AVP_HEADER + |a.value| + (if IsOctetString(a.code) then Padding(|a.value|) else 0)
  {
  }

  lemma ReadAt(msg: Bytes, avps: seq<Avp>, i: nat)
    requires Carries(msg, avps) && i <= |avps| && OffsetOf(avps, i) < |msg|
    ensures i < |avps| && OffsetOf(avps, i + 1) == OffsetOf(avps, i) + AvpSize(avps[i]) <= |msg|
    ensures AvpSize(avps[i]) >= AVP_HEADER + |avps[i].value|
    ensures var at := OffsetOf(avps, i);
            && ShortAt(msg, at) == avps[i].code && ShortAt(msg, at + 4) == |avps[i].value|
            && msg[at + AVP_HEADER..at + AVP_HEADER + |avps[i].value|] == avps[i].value
  {
    hide AvpBytes, AvpSize;
    FromOffset(msg, avps, i);
    var rest := avps[i..];
    assert i == |avps| ==> rest == [];
    assert rest[0] == avps[i] && rest[1..] == avps[i + 1..];
    AvpRead(msg, OffsetOf(avps, i), avps[i], AvpsBytes(avps[i + 1..]));
  }

  lemma AllRead(msg: Bytes, avps: seq<Avp>, i: nat)
    requires Carries(msg, avps) && i <= |avps| && OffsetOf(avps, i) == |msg|
    ensures i == |avps|
  {
    hide AvpBytes, AvpSize, AvpsBytes, OffsetOf;
    FromOffset(msg, avps, i);
    NoBytes(avps[i..]);
  }

  lemma NoBytes(avps: seq<Avp>)
    requires AllFit(avps)
    ensures AvpsBytes(avps) == [] <==> avps == []
  {
    hide AvpBytes;
  }

  lemma {:induction false} FirstIs(avps: seq<Avp>, code: nat, i: nat)
    requires i <= |avps| && forall k :: 0 <= k < i ==> avps[k].code != code
    requires i < |avps| ==> avps[i].code == code
    ensures FirstOf(avps, code) == i
    decreases i
  {
    if i > 0 {
      assert forall k :: 0 <= k < |avps[1..]| ==> avps[1..][k] == avps[k + 1];
      FirstIs(avps[1..], code, i - 1);
    }
  }
}
