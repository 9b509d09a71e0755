/** A PANA message relayed inside another one: transmissionRelayedMessage, and getting its parts back. */
module PanaRelay {
  import opened OptionFormat
  import opened PanaAvps
  import opened PanaMessage

  /** The length of an address of the version. */
  function AddressLength(ipVersion: nat): nat {
    if ipVersion == 4 then 4 else 16
  }

  /** Both length fields count the padding, which then belongs to the value. */
  function RelayAvps(addr: Bytes, port: Bytes, inner: Bytes): (s: seq<Avp>)
  {
    [Avp(PAC_INFORMATION, addr + port + Zeros(Padding(|addr| + 2))),
     Avp(RELAYED_MESSAGE, inner + Zeros(Padding(|inner|)))]
  }

  predicate Relayable(addr: Bytes, port: Bytes, msg: Bytes) {
    && (|addr| == 4 || |addr| == 16) && |port| == 2 && HEADER <= |msg| && HEADER <= ShortAt(msg, 2) <= |msg|
    && 3 * HEADER + |addr| + 8 + ShortAt(msg, 2) < WORD16
  }

  /** The message type, and zeros. */
  const RELAY_HEADER: Bytes := [0, 0, 0, 0, 0, 0, 0, 5, 0, 0, 0, 0, 0, 0, 0, 0]

  lemma RelaySizes(addr: Bytes, port: Bytes, inner: Bytes)
    requires |port| == 2 && |addr| + |inner| + 56 < WORD16
    ensures AllFit(RelayAvps(addr, port, inner))
    ensures AvpsBytes(RelayAvps(addr, port, inner))
            == AvpBytes(RelayAvps(addr, port, inner)[0]) + AvpBytes(RelayAvps(addr, port, inner)[1])
    ensures |AvpsBytes(RelayAvps(addr, port, inner))|
            == 2 * AVP_HEADER + |addr| + 2 + Padding(|addr| + 2) + |inner| + Padding(|inner|)
  {
    var s := RelayAvps(addr, port, inner);
    WholeWords(|addr| + 2);
    WholeWords(|inner|);
    hide AvpBytes, Padding;
    assert s == [s[0]] + [s[1]];
    AvpsOne(s[0]);
    AvpsOne(s[1]);
    AvpsAppend([s[0]], [s[1]]);
  }

  lemma WholeWords(n: nat)
    ensures Padding(n) < 4 && (n + Padding(n)) % 4 == 0 && Padding(n + Padding(n)) == 0
  {
  }

  lemma PaddedBytes(a: Avp)
    requires Fitting(a) && |a.value| % 4 == 0
    ensures AvpBytes(a) == Short(a.code) + [0, 0] + Short(|a.value|) + [0, 0] + a.value
  {
    assert Zeros(0) == [];
  }

  /** transmissionRelayedMessage, up to the sending: None for an IP version that is neither 4 nor 6. */
  method RelayMessage(ipVersion: nat, addr: Bytes, port: Bytes, msg: Bytes) returns (result: Option<Bytes>)
    requires Relayable(addr, port, msg) && |addr| == AddressLength(ipVersion)
    ensures result == None <==> ipVersion != 4 && ipVersion != 6
    ensures result.Some? ==>
              var s := RelayAvps(addr, port, msg[..ShortAt(msg, 2)]);
              && AllFit(s) && HEADER + |AvpsBytes(s)| < WORD16 && result.value == Unsigned(RELAY_HEADER, s)
  {
    hide AvpsBytes, AvpBytes, SetLength, AllFit;
    if ipVersion != 4 && ipVersion != 6 {
      return None;
    }
    var relaySize := ShortAt(msg, 2);
    ghost var s := RelayAvps(addr, port, msg[..relaySize]);
    RelaySizes(addr, port, msg[..relaySize]);
    WholeWords(relaySize);
    var padding := PaddingOctetString(relaySize);
    var pacPadding := PaddingOctetString(AddressLength(ipVersion) + 2);
    WholeWords(AddressLength(ipVersion) + 2);
    var avpSize := AddressLength(ipVersion) + 2 + pacPadding;
    var msgSize := HEADER + 2 * AVP_HEADER + relaySize + padding + avpSize;
    PaddedBytes(s[0]);
    PaddedBytes(s[1]);
    var header := [0, 0, msgSize / 0x100, msgSize % 0x100, 0, 0, 0, PRY_MSG, 0, 0, 0, 0, 0, 0, 0, 0];
    HeaderIs(msgSize);
    result := Some(header
                   + (Short(PAC_INFORMATION) + [0, 0] + Short(avpSize) + [0, 0] + (addr + port + Zeros(pacPadding))
                      + (Short(RELAYED_MESSAGE) + [0, 0] + Short(relaySize + padding) + [0, 0]
                         + (msg[..relaySize] + Zeros(padding)))));
  }

  lemma HeaderIs(n: nat)
    requires n < WORD16
    ensures SetLength(RELAY_HEADER, n) == [0, 0, n / 0x100, n % 0x100, 0, 0, 0, PRY_MSG, 0, 0, 0, 0, 0, 0, 0, 0]
  {
  }

  /** The relayed message's AVPs give back the address, the port and the bytes of the inner message. */
  method RelayAndOpen(ipVersion: nat, addr: Bytes, port: Bytes, msg: Bytes)
    returns (result: Bytes, pac: nat, relayed: nat)
    requires Relayable(addr, port, msg) && |addr| == AddressLength(ipVersion) && (ipVersion == 4 || ipVersion == 6)
    ensures pac + AVP_HEADER + |addr| + 2 <= |result| && relayed + AVP_HEADER + ShortAt(msg, 2) <= |result|
    ensures result[pac + AVP_HEADER..pac + AVP_HEADER + |addr| + 2] == addr + port
    ensures var inner := result[relayed + AVP_HEADER..];
            && 4 <= |inner| && ShortAt(inner, 2) <= |inner| && inner[..ShortAt(inner, 2)] == msg[..ShortAt(msg, 2)]
    ensures |result| % 4 == 0
  {
    hide AvpsBytes, AvpBytes, SetLength, AllFit, Unsigned, Carries, OffsetOf, FirstOf, Padding, RelayAvps,
         ShortAt, Zeros;
    var sent := RelayMessage(ipVersion, addr, port, msg);
    result := sent.value;
    ghost var inner := msg[..ShortAt(msg, 2)];
    ghost var s := RelayAvps(addr, port, inner);
    Relayed(addr, port, msg, result);
    RelayPlaces(addr, port, inner);
    var first := GetAvp(result, PAC_INFORMATION, s);
    var second := GetAvp(result, RELAYED_MESSAGE, s);
    pac, relayed := first.value, second.value;
    Prefix(result, pac + AVP_HEADER, addr + port, Zeros(Padding(|addr| + 2)));
    Prefix(result, relayed + AVP_HEADER, inner, Zeros(Padding(|inner|)));
    Opened(result, relayed + AVP_HEADER, msg);
  }

  lemma Relayed(addr: Bytes, port: Bytes, msg: Bytes, result: Bytes)
    requires Relayable(addr, port, msg)
    requires var s := RelayAvps(addr, port, msg[..ShortAt(msg, 2)]);
             AllFit(s) && HEADER + |AvpsBytes(s)| < WORD16 && result == Unsigned(RELAY_HEADER, s)
    ensures Carries(result, RelayAvps(addr, port, msg[..ShortAt(msg, 2)]))
    ensures |result| % 4 == 0 && |addr + port| == |addr| + 2
    ensures HEADER <= ShortAt(msg, 2) <= |msg|
  {
    hide AvpsBytes, AllFit, Carries, Padding, RelayAvps;
    var inner := msg[..ShortAt(msg, 2)];
    RelaySizes(addr, port, inner);
    UnsignedCarries(RELAY_HEADER, RelayAvps(addr, port, inner));
    WholeWords(|addr| + 2);
    WholeWords(|inner|);
    FourWhole(|addr| + 2 + Padding(|addr| + 2), |inner| + Padding(|inner|));
  }

  lemma FourWhole(a: nat, b: nat)
    requires a % 4 == 0 && b % 4 == 0
    ensures (HEADER + 2 * AVP_HEADER + a + b) % 4 == 0
  {
  }

  lemma Opened(b: Bytes, at: nat, msg: Bytes)
    requires |msg| >= 4 && 4 <= ShortAt(msg, 2) <= |msg| && at + ShortAt(msg, 2) <= |b|
    requires b[at..at + ShortAt(msg, 2)] == msg[..ShortAt(msg, 2)]
    ensures var inner := b[at..];
            4 <= |inner| && ShortAt(inner, 2) <= |inner| && inner[..ShortAt(inner, 2)] == msg[..ShortAt(msg, 2)]
  {
    var inner, n := b[at..], ShortAt(msg, 2);
    SliceOfSlice(b, at, |b|, 0, n);
    assert inner == b[at..|b|] && inner[..n] == inner[0..n];
    assert inner[2] == inner[..n][2] == msg[..n][2] && inner[3] == inner[..n][3] == msg[..n][3];
  }

  lemma RelayPlaces(addr: Bytes, port: Bytes, inner: Bytes)
    ensures var s := RelayAvps(addr, port, inner);
            && |s| == 2 && FirstOf(s, PAC_INFORMATION) == 0 && FirstOf(s, RELAYED_MESSAGE) == 1
            && s[0].value == addr + port + Zeros(Padding(|addr| + 2)) && s[1].value == inner + Zeros(Padding(|inner|))
    ensures AUTH <= PAC_INFORMATION <= RELAYED_MESSAGE
  {
    hide FirstOf, Padding;
    var s := RelayAvps(addr, port, inner);
    FirstIs(s, PAC_INFORMATION, 0);
    FirstIs(s, RELAYED_MESSAGE, 1);
  }

  lemma Prefix(b: Bytes, at: nat, v: Bytes, w: Bytes)
    requires at + |v| + |w| <= |b| && b[at..at + |v + w|] == v + w
    ensures b[at..at + |v|] == v
  {
    SliceOfSlice(b, at, at + |v + w|, 0, |v|);
    assert (v + w)[0..|v|] == v;
  }

  /** The length field of a relayed message counts its value only, as section 6.3 of RFC 5191 asks, if and only if the
      message ends on a word; that of the address never does. */
  lemma RelayLengthIff(addr: Bytes, port: Bytes, inner: Bytes)
    requires (|addr| == 4 || |addr| == 16) && |port| == 2
    ensures var s := RelayAvps(addr, port, inner);
            |s[0].value| != |addr + port| && (|s[1].value| == |inner| <==> |inner| % 4 == 0)
  {
  }
}
