/** Filling a PANA message with AVPs, authenticating it, and relaying one inside another.

    The hash is any function of a key and a message. Memory is that of a little-endian machine, which matters
    for the byte-order macros. */
module PanaMessage {
  import opened OptionFormat
  import opened PanaAvps

  const F_AUTH: bv16 := 0x0001
  const F_EAPP: bv16 := 0x0002
  const F_INTEG: bv16 := 0x0004
  const F_KEYID: bv16 := 0x0008
  const F_NONCE: bv16 := 0x0010
  const F_PRF: bv16 := 0x0020
  const F_RES: bv16 := 0x0040
  const F_SESS: bv16 := 0x0080
  const F_TERM: bv16 := 0x0100
  const F_PACINF: bv16 := 0x0200

  const PRY_MSG: nat := 5
  const WORD32: nat := 0x1_0000_0000

  /** Flag and code in the order in which identifyAVP looks for them. */
  function Flag(k: nat): bv16
    requires k < 9
  {
    if k == 0 then F_EAPP else if k == 1 then F_INTEG else if k == 2 then F_KEYID else if k == 3 then F_NONCE
    else if k == 4 then F_PRF else if k == 5 then F_RES else if k == 6 then F_SESS else if k == 7 then F_TERM
    else F_AUTH
  }

  function Code(k: nat): (c: nat)
    requires k < 9
    ensures 0 < c < 10
  {
    if k == 8 then AUTH else k + 2
  }

  predicate Has(avps: bv16, k: nat)
    requires k < 9
  {
    avps & Flag(k) != 0
  }

  predicate Known(avps: bv16) {
    avps & 0xFE00 == 0
  }

  /** identifyAVP */
  function IdentifyAvp(flag: bv16): nat {
    if flag & F_EAPP != 0 then EAP_PAYLOAD
    else if flag & F_INTEG != 0 then INTEGRITY_ALG
    else if flag & F_KEYID != 0 then KEY_ID
    else if flag & F_NONCE != 0 then NONCE
    else if flag & F_PRF != 0 then PRF_ALG
    else if flag & F_RES != 0 then RESULT_CODE
    else if flag & F_SESS != 0 then SESSION_LIFETIME
    else if flag & F_TERM != 0 then TERMINATION_CAUSE
    else if flag & F_AUTH != 0 then AUTH
    else 0
  }

  /** The flag that a code takes away again. */
  function FlagOf(code: nat): bv16 {
    if code == INTEGRITY_ALG then F_INTEG else if code == KEY_ID then F_KEYID else if code == NONCE then F_NONCE
    else if code == PRF_ALG then F_PRF else if code == RESULT_CODE then F_RES
    else if code == SESSION_LIFETIME then F_SESS else if code == TERMINATION_CAUSE then F_TERM
    else if code == EAP_PAYLOAD then F_EAPP else if code == AUTH then F_AUTH else 0
  }

  function Minus(avps: bv16, flag: bv16): bv16 {
    avps - flag
  }

  /** The first flag that is set, and what is left without it. */
  lemma FirstFlag(avps: bv16) returns (k: nat)
    requires Known(avps) && avps != 0
    ensures k < 9 && Has(avps, k) && IdentifyAvp(avps) == Code(k) && FlagOf(Code(k)) == Flag(k)
    ensures forall j :: 0 <= j < k ==> !Has(avps, j)
  {
    if avps & F_EAPP != 0 { k := 0; }
    else if avps & F_INTEG != 0 { k := 1; }
    else if avps & F_KEYID != 0 { k := 2; }
    else if avps & F_NONCE != 0 { k := 3; }
    else if avps & F_PRF != 0 { k := 4; }
    else if avps & F_RES != 0 { k := 5; }
    else if avps & F_SESS != 0 { k := 6; }
    else if avps & F_TERM != 0 { k := 7; }
    else { k := 8; }
  }

  lemma WithoutFlag(avps: bv16, k: nat, j: nat)
    requires Known(avps) && k < 9 && j < 9 && Has(avps, k)
    ensures Known(Minus(avps, Flag(k))) && (Has(Minus(avps, Flag(k)), j) <==> Has(avps, j) && j != k)
  {
  }

  lemma NoFlags(avps: bv16)
    requires Known(avps) && forall j :: 0 <= j < 9 ==> !Has(avps, j)
    ensures avps == 0
  {
    assert !Has(avps, 0) && !Has(avps, 1) && !Has(avps, 2) && !Has(avps, 3) && !Has(avps, 4);
    assert !Has(avps, 5) && !Has(avps, 6) && !Has(avps, 7) && !Has(avps, 8);
  }

  /* ---- When the loop ends ---- */

  /** The flags as the 32-bit variable of the loop holds them; identifyAVP is given the lower half. */
  datatype Flags = Flags(high: bv16, low: bv16)

  /** One turn takes the flag of the AVP that it identifies, which is set, so that nothing is borrowed. */
  function Turn(a: Flags): Flags {
    a.(low := Minus(a.low, FlagOf(IdentifyAvp(a.low))))
  }

  function Turns(a: Flags, n: nat): Flags
    decreases n
  {
    if n == 0 then a else Turns(Turn(a), n - 1)
  }

  predicate KnownFlags(a: Flags) {
    a.high == 0 && Known(a.low)
  }

  /** The flag taken is set, or none is taken; unknown flags stay as they are. */
  lemma TurnTakes(avps: bv16)
    ensures var flag := FlagOf(IdentifyAvp(avps));
            && avps & flag == flag && Minus(avps, flag) & 0xFE00 == avps & 0xFE00
            && (IdentifyAvp(avps) == 0 ==> flag == 0)
  {
    if avps & F_EAPP != 0 {
    } else if avps & F_INTEG != 0 {
    } else if avps & F_KEYID != 0 {
    } else if avps & F_NONCE != 0 {
    } else if avps & F_PRF != 0 {
    } else if avps & F_RES != 0 {
    } else if avps & F_SESS != 0 {
    } else if avps & F_TERM != 0 {
    } else if avps & F_AUTH != 0 {
    }
  }

  lemma {:induction false} UnknownStays(a: Flags, n: nat)
    requires !KnownFlags(a)
    ensures !KnownFlags(Turns(a, n)) && Turns(a, n) != Flags(0, 0)
    decreases n
  {
    hide Minus, FlagOf, IdentifyAvp;
    if n > 0 {
      TurnTakes(a.low);
      UnknownStays(Turn(a), n - 1);
    }
  }

  /** How many of the flags from `k` on are set. */
  function SetFrom(avps: bv16, k: nat): (n: nat)
    requires k <= 9
    decreases 9 - k
  {
    if k == 9 then 0 else (if Has(avps, k) then 1 else 0) + SetFrom(avps, k + 1)
  }

  lemma {:induction false} SetWithout(avps: bv16, k: nat, i: nat)
    requires Known(avps) && k < 9 && Has(avps, k) && i <= 9
    ensures SetFrom(Minus(avps, Flag(k)), i) == SetFrom(avps, i) - (if i <= k then 1 else 0)
    decreases 9 - i
  {
    hide Minus, Has, Known, Flag;
    if i < 9 {
      WithoutFlag(avps, k, i);
      SetWithout(avps, k, i + 1);
    }
  }

  lemma {:induction false} KnownEnds(a: Flags)
    requires KnownFlags(a)
    ensures exists n: nat :: Turns(a, n) == Flags(0, 0)
    decreases SetFrom(a.low, 0)
  {
    hide Minus, Has, Known, Flag, FlagOf, IdentifyAvp, SetFrom;
    if a.low == 0 {
      assert Turns(a, 0) == Flags(0, 0);
    } else {
      var k := FirstFlag(a.low);
      WithoutFlag(a.low, k, k);
      SetWithout(a.low, k, 0);
      assert Turn(a) == Flags(0, Minus(a.low, Flag(k)));
      KnownEnds(Turn(a));
      var n: nat :| Turns(Turn(a), n) == Flags(0, 0);
      assert Turns(a, n + 1) == Flags(0, 0);
    }
  }

  /** The loop of insertAvps ends if and only if it is given known flags only. */
  lemma EndsIff(a: Flags)
    ensures (exists n: nat :: Turns(a, n) == Flags(0, 0)) <==> KnownFlags(a)
  {
    hide Turns, KnownFlags;
    if KnownFlags(a) {
      KnownEnds(a);
    } else if n: nat :| Turns(a, n) == Flags(0, 0) {
      UnknownStays(a, n);
    }
  }

  /** Input: F_PACINF, which the header defines and identifyAVP does not look for. */
  lemma NeverEnds(n: nat)
    ensures Turns(Flags(0, F_PACINF), n) != Flags(0, 0)
  {
    UnknownStays(Flags(0, F_PACINF), n);
  }

  /* ---- What goes into a message ---- */

  datatype Data = Data(eap: Bytes, integrity: nat, keyId: Bytes, nonce: Bytes, prf: nat, result: nat,
                       lifetime: nat, cause: nat, key: Bytes)

  predicate Sound(d: Data) {
    && |d.keyId| == 4 && (|d.nonce| == 8 || |d.nonce| == 20) && |d.eap| < WORD16
    && d.integrity < WORD32 && d.prf < WORD32 && d.result < WORD32 && d.lifetime < WORD32 && d.cause < WORD32
  }

  /** A 32-bit value in network byte order. */
  function Word(n: nat): (b: Bytes)
    requires n < WORD32
    ensures |b| == 4
  {
    [n / 0x100_0000, n / 0x10000 % 0x100, n / 0x100 % 0x100, n % 0x100]
  }

  /** The Termination-Cause goes through the 16-bit macro and is stored as a whole word. */
  function CauseBytes(n: nat): (b: Bytes)
    ensures |b| == 4
  {
    [n / 0x100 % 0x100, n % 0x100, 0, 0]
  }

  /** A cause is stored in network byte order if and only if it is zero; the causes of RFC 5191 are 1, 4 and 8. */
  lemma CauseOrderIff(n: nat)
    requires n < WORD32
    ensures CauseBytes(n) == Word(n) <==> n == 0
  {
  }

  function ValueOf(code: nat, d: Data): (v: Bytes)
    requires Sound(d)
    ensures |v| < WORD16 && (!IsOctetString(code) ==> |v| % 4 == 0)
  {
    if code == EAP_PAYLOAD then d.eap else if code == INTEGRITY_ALG then Word(d.integrity)
    else if code == KEY_ID then d.keyId else if code == NONCE then d.nonce
    else if code == PRF_ALG then Word(d.prf) else if code == RESULT_CODE then Word(d.result)
    else if code == SESSION_LIFETIME then Word(d.lifetime)
    else if code == TERMINATION_CAUSE then CauseBytes(d.cause) else []
  }

  function PlainAvp(k: nat, d: Data): (a: Avp)
    requires k < 8 && Sound(d)
    ensures Fitting(a)
  {
    Avp(Code(k), ValueOf(Code(k), d))
  }

  /** The AVPs whose flags are set, from place k of the order on, without AUTH. */
  function Plain(avps: bv16, d: Data, k: nat): (s: seq<Avp>)
    requires Sound(d)
    ensures AllFit(s)
    decreases 8 - k
  {
    if k >= 8 then []
    else (if Has(avps, k) then [PlainAvp(k, d)] else []) + Plain(avps, d, k + 1)
  }

  lemma {:induction false} PlainSame(a: bv16, b: bv16, d: Data, k: nat)
    requires Sound(d) && forall j :: k <= j < 8 ==> (Has(a, j) <==> Has(b, j))
    ensures Plain(a, d, k) == Plain(b, d, k)
    decreases 8 - k
  {
    hide Has, PlainAvp;
    if k < 8 { PlainSame(a, b, d, k + 1); }
  }

  /** The first flag's AVP comes first, and the others are those without it. */
  lemma {:induction false} PlainFirst(avps: bv16, d: Data, j: nat, k: nat)
    requires Sound(d) && Known(avps) && k <= j < 8 && Has(avps, j) && forall i :: k <= i < j ==> !Has(avps, i)
    ensures Plain(avps, d, k) == [PlainAvp(j, d)] + Plain(Minus(avps, Flag(j)), d, k)
    decreases j - k
  {
    hide Has, PlainAvp, Flag, Known, Plain, Sound;
    WithoutFlag(avps, j, k);
    PlainNext(avps, d, k);
    PlainNext(Minus(avps, Flag(j)), d, k);
    if k < j {
      PlainFirst(avps, d, j, k + 1);
    } else {
      PlainBehind(avps, d, j);
    }
  }

  lemma PlainNext(avps: bv16, d: Data, k: nat)
    requires Sound(d) && k < 8
    ensures Has(avps, k) ==> Plain(avps, d, k) == [PlainAvp(k, d)] + Plain(avps, d, k + 1)
    ensures !Has(avps, k) ==> Plain(avps, d, k) == Plain(avps, d, k + 1)
  {
    hide Has, PlainAvp;
    assert [] + Plain(avps, d, k + 1) == Plain(avps, d, k + 1);
  }

  lemma PlainBehind(avps: bv16, d: Data, j: nat)
    requires Sound(d) && Known(avps) && j < 8 && Has(avps, j)
    ensures Plain(avps, d, j + 1) == Plain(Minus(avps, Flag(j)), d, j + 1)
  {
    hide Has, PlainAvp, Flag, Known, Plain;
    forall i | j + 1 <= i < 8 ensures Has(avps, i) <==> Has(Minus(avps, Flag(j)), i) { WithoutFlag(avps, j, i); }
    PlainSame(avps, Minus(avps, Flag(j)), d, j + 1);
  }

  function SetLength(msg: Bytes, n: nat): (r: Bytes)
    requires |msg| >= HEADER && n < WORD16
    ensures |r| == |msg|
  {
    msg[2 := n / 0x100][3 := n % 0x100]
  }

  function Unsigned(header: Bytes, plain: seq<Avp>): (m: Bytes)
    requires |header| == HEADER && AllFit(plain) && HEADER + |AvpsBytes(plain)| < WORD16
    ensures |m| == HEADER + |AvpsBytes(plain)|
  {
    SetLength(header, HEADER + |AvpsBytes(plain)|) + AvpsBytes(plain)
  }

  lemma UnsignedCarries(header: Bytes, plain: seq<Avp>)
    requires |header| == HEADER && AllFit(plain) && HEADER + |AvpsBytes(plain)| < WORD16
    ensures Carries(Unsigned(header, plain), plain)
    ensures SetLength(header + AvpsBytes(plain), HEADER + |AvpsBytes(plain)|) == Unsigned(header, plain)
    ensures SetLength(Unsigned(header, plain), HEADER + |AvpsBytes(plain)|) == Unsigned(header, plain)
  {
    hide AvpsBytes, AllFit;
    var n, b := HEADER + |AvpsBytes(plain)|, AvpsBytes(plain);
    var h := SetLength(header, n);
    assert h[2] == n / 0x100 && h[3] == n % 0x100;
    assert (h + b)[2] == h[2] && (h + b)[3] == h[3];
    assert (h + b)[HEADER..] == b;
    assert SetLength(header + b, n) == h + b;
    assert SetLength(h + b, n) == h + b;
  }

  /* ---- Authentication ---- */

  /** AUTH values are 16 or 20 bytes long. */
  ghost predicate Hashes(hash: (Bytes, Bytes) -> Bytes, authLength: nat) {
    (authLength == 16 || authLength == 20) && forall k: Bytes, m: Bytes :: |hash(k, m)| == authLength
  }

  function Signing(plain: seq<Avp>, v: Bytes): (s: seq<Avp>)
    requires AllFit(plain) && |v| < WORD16
    ensures AllFit(s) && |s| == |plain| + 1
  {
    plain + [Avp(AUTH, v)]
  }

  lemma SigningBytes(plain: seq<Avp>, v: Bytes)
    requires AllFit(plain) && |v| < WORD16 && |v| % 4 == 0
    ensures AvpsBytes(Signing(plain, v)) == AvpsBytes(plain) + (Short(AUTH) + [0, 0] + Short(|v|) + [0, 0]) + v
    ensures |AvpsBytes(Signing(plain, v))| == |AvpsBytes(plain)| + AVP_HEADER + |v|
  {
    hide AvpsBytes;
    var a := Avp(AUTH, v);
    AvpsAppend(plain, [a]);
    AvpsOne(a);
    assert Zeros(0) == [];
    var head := Short(AUTH) + [0, 0] + Short(|v|) + [0, 0];
    assert AvpBytes(a) == head + v;
    assert AvpsBytes(plain) + (head + v) == AvpsBytes(plain) + head + v;
  }

  /** The room an authenticated message takes. */
  predicate Roomy(plain: seq<Avp>, authLength: nat)
    requires AllFit(plain)
  {
    HEADER + |AvpsBytes(plain)| + AVP_HEADER + authLength < WORD16
  }

  /** A message with an AUTH value, which is the hash of the message with that value zeroed. */
  function Signed(header: Bytes, plain: seq<Avp>, key: Bytes, authLength: nat, hash: (Bytes, Bytes) -> Bytes): Bytes
    requires |header| == HEADER && AllFit(plain) && Hashes(hash, authLength) && Roomy(plain, authLength)
  {
    SigningBytes(plain, Zeros(authLength));
    var zeroed := Unsigned(header, Signing(plain, Zeros(authLength)));
    SigningBytes(plain, hash(key, zeroed));
    Unsigned(header, Signing(plain, hash(key, zeroed)))
  }

  /** Writing another AUTH value over the one that is there. */
  lemma ValueReplaced(header: Bytes, plain: seq<Avp>, v: Bytes, w: Bytes)
    requires |header| == HEADER && AllFit(plain) && |v| == |w| && |v| % 4 == 0 && Roomy(plain, |v|)
    ensures |AvpsBytes(Signing(plain, v))| == |AvpsBytes(Signing(plain, w))| == |AvpsBytes(plain)| + AVP_HEADER + |v|
    ensures Overwrite(Unsigned(header, Signing(plain, v)), HEADER + |AvpsBytes(plain)| + AVP_HEADER, w)
            == Unsigned(header, Signing(plain, w))
  {
    hide AvpsBytes, AllFit, Signing, SetLength;
    SigningBytes(plain, v);
    SigningBytes(plain, w);
    var b, head := AvpsBytes(plain), Short(AUTH) + [0, 0] + Short(|v|) + [0, 0];
    var front := SetLength(header, HEADER + |b| + AVP_HEADER + |v|) + (b + head);
    assert Unsigned(header, Signing(plain, v)) == front + v;
    assert Unsigned(header, Signing(plain, w)) == front + w;
    OverwriteEnd(front, v, w);
  }

  lemma OverwriteEnd(front: Bytes, v: Bytes, w: Bytes)
    requires |v| == |w|
    ensures Overwrite(front + v, |front|, w) == front + w
  {
  }

  /** hashAuth: refuses a message without an AUTH AVP. */
  method HashAuth(msg: Bytes, key: Bytes, hash: (Bytes, Bytes) -> Bytes, ghost avps: seq<Avp>)
    returns (result: Bytes, status: nat)
    requires Carries(msg, avps)
    requires FirstOf(avps, AUTH) < |avps| ==> |hash(key, msg)| == |avps[FirstOf(avps, AUTH)].value|
    ensures var k := FirstOf(avps, AUTH);
            if k == |avps| then status == 1 && result == msg
            else
              && status == 0 && OffsetOf(avps, k) + AVP_HEADER + |hash(key, msg)| <= |msg|
              && result == Overwrite(msg, OffsetOf(avps, k) + AVP_HEADER, hash(key, msg))
  {
    hide AvpsBytes, AllFit, Carries, OffsetOf, FirstOf;
    var at := GetAvp(msg, AUTH, avps);
    if at == None {
      return msg, 1;
    }
    var mac := hash(key, msg);
    result := msg[..at.value + AVP_HEADER] + mac + msg[at.value + AVP_HEADER + |mac|..];
    status := 0;
  }

  /** Where getAvp finds AUTH: behind all the others. */
  lemma AuthPlace(header: Bytes, plain: seq<Avp>, v: Bytes)
    requires |header| == HEADER && AllFit(plain) && |v| % 4 == 0 && Roomy(plain, |v|)
    requires forall i :: 0 <= i < |plain| ==> plain[i].code != AUTH
    ensures FirstOf(Signing(plain, v), AUTH) == |plain|
    ensures OffsetOf(Signing(plain, v), |plain|) == HEADER + |AvpsBytes(plain)|
  {
    hide AvpsBytes, AllFit, OffsetOf;
    var s := Signing(plain, v);
    FirstIs(s, AUTH, |plain|);
    OffsetIs(s, |plain|);
    assert s[..|plain|] == plain;
  }

  lemma {:induction false} OffsetIs(avps: seq<Avp>, i: nat)
    requires AllFit(avps) && i <= |avps|
    ensures AllFit(avps[..i]) && OffsetOf(avps, i) == HEADER + |AvpsBytes(avps[..i])|
  {
    hide AvpBytes, Fitting, AvpSize;
    if i > 0 {
      OffsetIs(avps, i - 1);
      assert avps[..i] == avps[..i - 1] + [avps[i - 1]];
      AvpsOne(avps[i - 1]);
      AvpsAppend(avps[..i - 1], [avps[i - 1]]);
    }
  }

  /* ---- insertAvps ---- */

  /** Sound data, a hash of the right length, and a message that fits its length field. */
  ghost predicate Ready(header: Bytes, avps: bv16, d: Data, authLength: nat, hash: (Bytes, Bytes) -> Bytes) {
    |header| == HEADER && Sound(d) && Hashes(hash, authLength) && Roomy(Plain(avps, d, 0), authLength)
  }

  /** The header, the AVPs whose flags are set, in the order of identifyAVP, and AUTH last. */
  function Filled(header: Bytes, avps: bv16, d: Data, authLength: nat, hash: (Bytes, Bytes) -> Bytes): Bytes
    requires Ready(header, avps, d, authLength, hash)
  {
    if Has(avps, 8) then Signed(header, Plain(avps, d, 0), d.key, authLength, hash)
    else Unsigned(header, Plain(avps, d, 0))
  }

  /** How many flags are set. */
  function Left(avps: bv16, d: Data): nat
    requires Sound(d)
  {
    |Plain(avps, d, 0)| + (if Has(avps, 8) then 1 else 0)
  }

  /** While flags are left: what has been written, and what is still to come. */
  ghost predicate Writing(msg: Bytes, header: Bytes, all: bv16, avps: bv16, d: Data, done: seq<Avp>) {
    && Sound(d) && Known(avps) && AllFit(done) && |header| == HEADER && msg == header + AvpsBytes(done)
    && Plain(all, d, 0) == done + Plain(avps, d, 0) && (Has(all, 8) <==> Has(avps, 8))
  }

  lemma WritePlain(msg: Bytes, header: Bytes, all: bv16, avps: bv16, d: Data, done: seq<Avp>, k: nat)
    requires Writing(msg, header, all, avps, d, done) && k < 8 && Has(avps, k)
    requires forall j :: 0 <= j < k ==> !Has(avps, j)
    ensures Writing(msg + AvpBytes(PlainAvp(k, d)), header, all, Minus(avps, Flag(k)), d, done + [PlainAvp(k, d)])
    ensures Left(Minus(avps, Flag(k)), d) < Left(avps, d)
    ensures Has(all, 8) ==> Has(Minus(avps, Flag(k)), 8)
  {
    hide Has, Known, Plain, AvpBytes, AvpsBytes, PlainAvp, Flag, AllFit, Sound;
    PlainFirst(avps, d, k, 0);
    WithoutFlag(avps, k, 8);
    AvpsOne(PlainAvp(k, d));
    AvpsAppend(done, [PlainAvp(k, d)]);
    var rest := Plain(Minus(avps, Flag(k)), d, 0);
    assert done + ([PlainAvp(k, d)] + rest) == done + [PlainAvp(k, d)] + rest;
    assert header + (AvpsBytes(done) + AvpBytes(PlainAvp(k, d))) == header + AvpsBytes(done) + AvpBytes(PlainAvp(k, d));
  }

  lemma {:induction false} NoPlain(avps: bv16, d: Data, k: nat)
    requires Sound(d) && forall j :: k <= j < 8 ==> !Has(avps, j)
    ensures Plain(avps, d, k) == []
    decreases 8 - k
  {
    hide Has, PlainAvp;
    if k < 8 { NoPlain(avps, d, k + 1); }
  }

  lemma {:induction false} PlainCodes(avps: bv16, d: Data, k: nat)
    requires Sound(d)
    ensures forall i :: 0 <= i < |Plain(avps, d, k)| ==> Plain(avps, d, k)[i].code > k + 1
    decreases 8 - k
  {
    hide Has;
    if k < 8 {
      PlainCodes(avps, d, k + 1);
      var first := if Has(avps, k) then [PlainAvp(k, d)] else [];
      assert Plain(avps, d, k) == first + Plain(avps, d, k + 1);
    }
  }

  /** The AUTH AVP, which comes when no other flag is left. */
  method InsertAuth(msg: Bytes, key: Bytes, authLength: nat, hash: (Bytes, Bytes) -> Bytes,
                    ghost header: Bytes, ghost plain: seq<Avp>)
    returns (result: Bytes)
    requires |header| == HEADER && AllFit(plain) && Hashes(hash, authLength) && Roomy(plain, authLength)
    requires msg == header + AvpsBytes(plain) && forall i :: 0 <= i < |plain| ==> plain[i].code != AUTH
    ensures result == Signed(header, plain, key, authLength, hash)
    ensures |result| == |msg| + AVP_HEADER + authLength
  {
    hide AvpsBytes, AllFit, Signed, Unsigned, SetLength, Carries, Overwrite, OffsetOf, FirstOf;
    SigningBytes(plain, Zeros(authLength));
    var totalsize := |msg| + AVP_HEADER + authLength;
    result := msg + (Short(AUTH) + [0, 0] + Short(authLength) + [0, 0]) + Zeros(authLength);
    ghost var avps := Signing(plain, Zeros(authLength));
    assert result == header + AvpsBytes(avps);
    UnsignedCarries(header, avps);
    AuthPlace(header, plain, Zeros(authLength));
    SignedIs(header, plain, key, authLength, hash);
    result := SetLength(result, totalsize);
    var status;
    result, status := HashAuth(result, key, hash, avps);
  }

  /** The hash of the message with zeros, written over the zeros. */
  lemma SignedIs(header: Bytes, plain: seq<Avp>, key: Bytes, authLength: nat, hash: (Bytes, Bytes) -> Bytes)
    requires |header| == HEADER && AllFit(plain) && Hashes(hash, authLength) && Roomy(plain, authLength)
    ensures |AvpsBytes(Signing(plain, Zeros(authLength)))| == |AvpsBytes(plain)| + AVP_HEADER + authLength
    ensures var zeroed := Unsigned(header, Signing(plain, Zeros(authLength)));
            var at := HEADER + |AvpsBytes(plain)| + AVP_HEADER;
            && |hash(key, zeroed)| == authLength && at + authLength == |zeroed|
            && Signed(header, plain, key, authLength, hash) == Overwrite(zeroed, at, hash(key, zeroed))
  {
    hide AvpsBytes, AllFit, Signing, SetLength, Overwrite;
    SigningBytes(plain, Zeros(authLength));
    var zeroed := Unsigned(header, Signing(plain, Zeros(authLength)));
    ValueReplaced(header, plain, Zeros(authLength), hash(key, zeroed));
  }

  lemma SignedSize(header: Bytes, plain: seq<Avp>, key: Bytes, authLength: nat, hash: (Bytes, Bytes) -> Bytes)
    requires |header| == HEADER && AllFit(plain) && Hashes(hash, authLength) && Roomy(plain, authLength)
    ensures var s := Signed(header, plain, key, authLength, hash);
            |s| == HEADER + |AvpsBytes(plain)| + AVP_HEADER + authLength && SetLength(s, |s|) == s
  {
    SigningBytes(plain, Zeros(authLength));
    var zeroed := Unsigned(header, Signing(plain, Zeros(authLength)));
    SigningBytes(plain, hash(key, zeroed));
    UnsignedCarries(header, Signing(plain, hash(key, zeroed)));
    hide AvpsBytes, AllFit, SetLength, Signing;
  }

  lemma StartWriting(header: Bytes, flags: bv16, d: Data)
    requires |header| == HEADER && Sound(d) && Known(flags)
    ensures Writing(header, header, flags, flags, d, [])
  {
    hide Plain;
    assert header + [] == header && [] + Plain(flags, d, 0) == Plain(flags, d, 0);
  }

  /** AUTH is identified only when all the others have been written. */
  lemma LastFlag(msg: Bytes, header: Bytes, all: bv16, avps: bv16, d: Data, done: seq<Avp>)
    requires Writing(msg, header, all, avps, d, done) && Has(avps, 8) && forall j :: 0 <= j < 8 ==> !Has(avps, j)
    ensures done == Plain(all, d, 0) && Has(all, 8) && Minus(avps, F_AUTH) == 0
    ensures forall i :: 0 <= i < |done| ==> done[i].code != AUTH
  {
    hide Plain;
    NoPlain(avps, d, 0);
    assert done + [] == done;
    PlainCodes(all, d, 0);
    WithoutFlag(avps, 8, 8);
    var rest := Minus(avps, Flag(8));
    forall j | 0 <= j < 8 ensures !Has(rest, j) { WithoutFlag(avps, 8, j); }
    NoFlags(rest);
  }

  lemma PlainPiece(k: nat, d: Data)
    requires k < 8 && Sound(d)
    ensures var v := ValueOf(Code(k), d);
            |v| < WORD16 && AvpBytes(PlainAvp(k, d))
            == Short(Code(k)) + [0, 0] + Short(|v|) + [0, 0] + v
               + Zeros(if IsOctetString(Code(k)) then Padding(|v|) else 0)
  {
  }

  lemma EndPlain(msg: Bytes, header: Bytes, flags: bv16, d: Data, done: seq<Avp>)
    requires Writing(msg, header, flags, 0, d, done)
    ensures msg == header + AvpsBytes(Plain(flags, d, 0)) && !Has(flags, 8)
  {
    hide Plain, AvpsBytes, AllFit, Has, Sound, Known;
    NoneSet();
    NoPlain(0, d, 0);
    assert done + [] == done;
  }

  /** What the last assignment of the length makes of the message. */
  lemma EndWriting(msg: Bytes, header: Bytes, flags: bv16, d: Data, done: seq<Avp>,
                   authLength: nat, hash: (Bytes, Bytes) -> Bytes)
    requires Ready(header, flags, d, authLength, hash)
    requires Underway(msg, header, flags, 0, d, done, authLength, hash)
    ensures HEADER <= |msg| < WORD16 && SetLength(msg, |msg|) == Filled(header, flags, d, authLength, hash)
  {
    hide Ready, Filled, Signed, Unsigned, Has, Plain, Writing, Hashes, Roomy, AvpsBytes, AllFit, Sound, SetLength;
    FilledIs(header, flags, d, authLength, hash);
    if Has(flags, 8) {
      SignedSize(header, Plain(flags, d, 0), d.key, authLength, hash);
    } else {
      EndPlain(msg, header, flags, d, done);
      UnsignedCarries(header, Plain(flags, d, 0));
    }
  }

  lemma AuthCode(k: nat)
    requires k < 9
    ensures (Code(k) == AUTH <==> k == 8) && Flag(8) == F_AUTH == FlagOf(AUTH)
  {
  }

  lemma LeftOne(avps: bv16, d: Data)
    requires Sound(d) && Has(avps, 8)
    ensures Left(0, d) == 0 < Left(avps, d)
  {
    hide Plain, Sound, Has;
    NoneSet();
    NoPlain(0, d, 0);
  }

  lemma NoneSet()
    ensures forall j :: 0 <= j < 9 ==> !Has(0, j)
  {
  }

  lemma FilledIs(header: Bytes, avps: bv16, d: Data, authLength: nat, hash: (Bytes, Bytes) -> Bytes)
    requires Ready(header, avps, d, authLength, hash)
    ensures Sound(d) && |header| == HEADER && Hashes(hash, authLength) && authLength % 4 == 0
    ensures forall m: Bytes :: |hash(d.key, m)| == authLength
    ensures var plain := Plain(avps, d, 0);
            && Roomy(plain, authLength) && HEADER + |AvpsBytes(plain)| + AVP_HEADER + authLength < WORD16
            && Filled(header, avps, d, authLength, hash)
               == if Has(avps, 8) then Signed(header, plain, d.key, authLength, hash) else Unsigned(header, plain)
  {
    hide Signed, Unsigned, Plain, Sound, Has, AvpsBytes, AllFit;
  }

  /** One turn of the loop of insertAvps for an AVP other than AUTH. */
  method InsertPlain(msg: Bytes, act: nat, d: Data, ghost k: nat) returns (result: Bytes)
    requires Sound(d) && k < 8 && act == Code(k)
    ensures result == msg + AvpBytes(PlainAvp(k, d))
  {
    hide AvpBytes, PlainAvp, Padding;
    PlainPiece(k, d);
    var value := ValueOf(act, d);
    var padding := 0;
    if IsOctetString(act) {
      padding := PaddingOctetString(|value|);
    }
    result := msg + (Short(act) + [0, 0] + Short(|value|) + [0, 0] + value + Zeros(padding));
  }

  /** The loop of insertAvps between its turns. */
  ghost predicate Underway(msg: Bytes, header: Bytes, flags: bv16, avps: bv16, d: Data, done: seq<Avp>,
                           authLength: nat, hash: (Bytes, Bytes) -> Bytes)
    requires Ready(header, flags, d, authLength, hash)
  {
    if avps != 0 || !Has(flags, 8) then Writing(msg, header, flags, avps, d, done)
    else msg == Filled(header, flags, d, authLength, hash)
  }

  /** What an AUTH value completes. */
  lemma AuthDone(msg: Bytes, result: Bytes, header: Bytes, flags: bv16, avps: bv16, d: Data, done: seq<Avp>,
                 authLength: nat, hash: (Bytes, Bytes) -> Bytes)
    requires Ready(header, flags, d, authLength, hash) && Writing(msg, header, flags, avps, d, done)
    requires Has(avps, 8) && forall j :: 0 <= j < 8 ==> !Has(avps, j)
    requires AllFit(done) && Roomy(done, authLength) && Hashes(hash, authLength) && |header| == HEADER
    requires result == Signed(header, done, d.key, authLength, hash)
    ensures Underway(result, header, flags, Minus(avps, F_AUTH), d, done, authLength, hash)
  {
    hide Writing, Has, Plain, Signed, Filled, Ready, AllFit, Roomy, Hashes;
    FilledIs(header, flags, d, authLength, hash);
    LastFlag(msg, header, flags, avps, d, done);
  }

  lemma PlainDone(msg: Bytes, header: Bytes, flags: bv16, avps: bv16, d: Data, done: seq<Avp>, k: nat,
                  authLength: nat, hash: (Bytes, Bytes) -> Bytes)
    requires Ready(header, flags, d, authLength, hash) && Writing(msg, header, flags, avps, d, done)
    requires k < 8 && Has(avps, k) && Sound(d) && forall j :: 0 <= j < k ==> !Has(avps, j)
    ensures Underway(msg + AvpBytes(PlainAvp(k, d)), header, flags, Minus(avps, Flag(k)), d, done + [PlainAvp(k, d)],
                     authLength, hash)
    ensures Left(Minus(avps, Flag(k)), d) < Left(avps, d)
  {
    hide Writing, Has, Plain, Signed, Filled, Ready, AvpBytes, PlainAvp, Flag, Left, Sound;
    WritePlain(msg, header, flags, avps, d, done, k);
    NoneSet();
  }

  /** The AVP to insert next, and the flags without its flag. */
  method TakeFlag(avps: bv16) returns (act: nat, left: bv16, ghost k: nat)
    requires Known(avps) && avps != 0
    ensures k < 9 && act == Code(k) && Has(avps, k) && left == Minus(avps, Flag(k))
    ensures forall j :: 0 <= j < k ==> !Has(avps, j)
  {
    hide *;
    act := IdentifyAvp(avps);
    k := FirstFlag(avps);
    left := Minus(avps, FlagOf(act));
  }

  /** One turn of the loop of insertAvps: `act` has been identified, and its flag has been taken away. */
  method InsertOne(msg: Bytes, act: nat, d: Data, authLength: nat, hash: (Bytes, Bytes) -> Bytes,
                   ghost header: Bytes, ghost flags: bv16, ghost avps: bv16, ghost left: bv16, ghost done: seq<Avp>,
                   ghost k: nat)
    returns (result: Bytes, ghost more: seq<Avp>)
    requires Ready(header, flags, d, authLength, hash) && Sound(d) && AllFit(done) && |header| == HEADER
    requires Writing(msg, header, flags, avps, d, done) && msg == header + AvpsBytes(done)
    requires k < 9 && act == Code(k) && Has(avps, k) && left == Minus(avps, Flag(k))
    requires forall j :: 0 <= j < k ==> !Has(avps, j)
    ensures Underway(result, header, flags, left, d, more, authLength, hash)
    ensures Left(left, d) < Left(avps, d)
  {
    hide *;
    AuthCode(k);
    if act == AUTH {
      LastFlag(msg, header, flags, avps, d, done);
      LeftOne(avps, d);
      FilledIs(header, flags, d, authLength, hash);
      result := InsertAuth(msg, d.key, authLength, hash, header, done);
      more := done;
      AuthDone(msg, result, header, flags, avps, d, done, authLength, hash);
    } else {
      PlainDone(msg, header, flags, avps, d, done, k, authLength, hash);
      result := InsertPlain(msg, act, d, k);
      more := done + [PlainAvp(k, d)];
    }
  }

  lemma UnderwayWrites(msg: Bytes, header: Bytes, flags: bv16, avps: bv16, d: Data, done: seq<Avp>,
                       authLength: nat, hash: (Bytes, Bytes) -> Bytes)
    requires Ready(header, flags, d, authLength, hash)
    requires avps != 0 && Underway(msg, header, flags, avps, d, done, authLength, hash)
    ensures Writing(msg, header, flags, avps, d, done)
    ensures Sound(d) && Known(avps) && AllFit(done) && |header| == HEADER && msg == header + AvpsBytes(done)
  {
    hide Plain, Has, Filled, Ready;
    WritingKnown(msg, header, flags, avps, d, done);
  }

  lemma WritingKnown(msg: Bytes, header: Bytes, all: bv16, avps: bv16, d: Data, done: seq<Avp>)
    requires Writing(msg, header, all, avps, d, done)
    ensures Sound(d) && Known(avps) && AllFit(done) && |header| == HEADER && msg == header + AvpsBytes(done)
  {
    hide Plain, AvpsBytes, Has, Known, Sound, AllFit;
  }

  lemma StartUnderway(header: Bytes, flags: bv16, d: Data, authLength: nat, hash: (Bytes, Bytes) -> Bytes)
    requires Ready(header, flags, d, authLength, hash) && Known(flags) && flags != 0
    ensures Sound(d) && Underway(header, header, flags, flags, d, [], authLength, hash)
  {
    hide Filled, Plain, Has, Writing, Known;
    StartWriting(header, flags, d);
  }

  /** insertAvps, given known flags: with others its loop does not end (`EndsIff`). */
  method InsertAvps(header: Bytes, flags: bv16, d: Data, authLength: nat, hash: (Bytes, Bytes) -> Bytes)
    returns (msg: Bytes, totalsize: nat)
    requires Ready(header, flags, d, authLength, hash) && Known(flags)
    ensures flags == 0 ==> msg == header && totalsize == 0
    ensures flags != 0 ==> msg == Filled(header, flags, d, authLength, hash) && totalsize == |msg|
  {
    hide *;
    msg, totalsize := header, 0;
    if flags == 0 {
      return;
    }
    StartUnderway(header, flags, d, authLength, hash);
    var avps := flags;
    ghost var done: seq<Avp> := [];
    while avps != 0
      invariant Underway(msg, header, flags, avps, d, done, authLength, hash)
      decreases Left(avps, d)
    {
      UnderwayWrites(msg, header, flags, avps, d, done, authLength, hash);
      ghost var before := avps;
      var act;
      ghost var k;
      act, avps, k := TakeFlag(avps);
      msg, done := InsertOne(msg, act, d, authLength, hash, header, flags, before, avps, done, k);
    }
    totalsize := |msg|;
    EndWriting(msg, header, flags, d, done, authLength, hash);
    msg := SetLength(msg, totalsize);
  }

  /* ---- What can be found in the message ---- */

  /** The hash that goes into the AUTH AVP. */
  function Mac(header: Bytes, flags: bv16, d: Data, authLength: nat, hash: (Bytes, Bytes) -> Bytes): Bytes
    requires Ready(header, flags, d, authLength, hash)
  {
    FilledIs(header, flags, d, authLength, hash);
    SigningBytes(Plain(flags, d, 0), Zeros(authLength));
    hash(d.key, Unsigned(header, Signing(Plain(flags, d, 0), Zeros(authLength))))
  }

  function AllOf(header: Bytes, flags: bv16, d: Data, authLength: nat, hash: (Bytes, Bytes) -> Bytes): (s: seq<Avp>)
    requires Ready(header, flags, d, authLength, hash)
  {
    FilledIs(header, flags, d, authLength, hash);
    if Has(flags, 8) then Plain(flags, d, 0) + [Avp(AUTH, Mac(header, flags, d, authLength, hash))]
    else Plain(flags, d, 0)
  }

  lemma FilledCarries(header: Bytes, flags: bv16, d: Data, authLength: nat, hash: (Bytes, Bytes) -> Bytes)
    requires Ready(header, flags, d, authLength, hash)
    ensures Carries(Filled(header, flags, d, authLength, hash), AllOf(header, flags, d, authLength, hash))
  {
    hide Ready, Filled, Has, Plain, Unsigned, Hashes, Carries, AvpsBytes, Sound, SetLength, Roomy;
    FilledIs(header, flags, d, authLength, hash);
    var plain := Plain(flags, d, 0);
    if Has(flags, 8) {
      SigningBytes(plain, Zeros(authLength));
      var mac := Mac(header, flags, d, authLength, hash);
      assert |mac| == authLength;
      SigningBytes(plain, mac);
      UnsignedCarries(header, Signing(plain, mac));
    } else {
      UnsignedCarries(header, plain);
    }
  }

  lemma FirstCons(a: Avp, rest: seq<Avp>, code: nat)
    ensures FirstOf([a] + rest, code) == if a.code == code then 0 else 1 + FirstOf(rest, code)
  {
    assert ([a] + rest)[1..] == rest;
  }

  /** Among the plain AVPs, a code is found if and only if its flag is set, with its value. */
  lemma {:induction false} PlainFinds(avps: bv16, d: Data, k: nat, j: nat)
    requires Sound(d) && k <= j < 8
    ensures var s, f := Plain(avps, d, k), FirstOf(Plain(avps, d, k), Code(j));
            (f < |s| <==> Has(avps, j)) && (f < |s| ==> s[f] == PlainAvp(j, d))
    decreases 8 - k
  {
    hide Has, Plain, FirstOf;
    PlainNext(avps, d, k);
    if Has(avps, k) { FirstCons(PlainAvp(k, d), Plain(avps, d, k + 1), Code(j)); }
    if k < j {
      PlainFinds(avps, d, k + 1, j);
    } else {
      PlainCodes(avps, d, k + 1);
    }
  }

  lemma FirstBefore(s: seq<Avp>, a: Avp, code: nat)
    requires a.code != code
    ensures FirstOf(s + [a], code) == if FirstOf(s, code) < |s| then FirstOf(s, code) else |s| + 1
  {
    var k := if FirstOf(s, code) < |s| then FirstOf(s, code) else |s| + 1;
    hide FirstOf;
    FirstIs(s + [a], code, k);
  }

  /** What getAvp should find for the AVP at place `k` of the order. */
  function Sought(k: nat, header: Bytes, flags: bv16, d: Data, authLength: nat, hash: (Bytes, Bytes) -> Bytes): Bytes
    requires k < 9 && Ready(header, flags, d, authLength, hash)
  {
    if k < 8 then ValueOf(Code(k), d) else Mac(header, flags, d, authLength, hash)
  }

  lemma AllFinds(header: Bytes, flags: bv16, d: Data, authLength: nat, hash: (Bytes, Bytes) -> Bytes, k: nat)
    requires k < 9 && Ready(header, flags, d, authLength, hash)
    ensures var s := AllOf(header, flags, d, authLength, hash);
            var f := FirstOf(s, Code(k));
            && (f < |s| <==> Has(flags, k)) && (f < |s| ==> s[f].value == Sought(k, header, flags, d, authLength, hash))
            && (k == 8 && f < |s| ==> f == |s| - 1)
  {
    hide Ready, Has, Plain, FirstOf, Mac, Sound;
    FilledIs(header, flags, d, authLength, hash);
    var plain := Plain(flags, d, 0);
    PlainCodes(flags, d, 0);
    if k < 8 {
      PlainFinds(flags, d, 0, k);
      if Has(flags, 8) {
        FirstBefore(plain, Avp(AUTH, Mac(header, flags, d, authLength, hash)), Code(k));
      }
    } else {
      FirstIs(AllOf(header, flags, d, authLength, hash), AUTH, |plain|);
    }
  }

  /** Every AVP of the message starts on a word. */
  lemma AllAligned(header: Bytes, flags: bv16, d: Data, authLength: nat, hash: (Bytes, Bytes) -> Bytes, i: nat)
    requires Ready(header, flags, d, authLength, hash) && i <= |AllOf(header, flags, d, authLength, hash)|
    ensures OffsetOf(AllOf(header, flags, d, authLength, hash), i) % 4 == 0
  {
    hide Ready, Has, Plain, Mac, Sound, OffsetOf;
    FilledIs(header, flags, d, authLength, hash);
    PlainWords(flags, d, 0);
    Aligned(AllOf(header, flags, d, authLength, hash), i);
  }

  lemma {:induction false} PlainWords(avps: bv16, d: Data, k: nat)
    requires Sound(d)
    ensures forall i :: 0 <= i < |Plain(avps, d, k)| ==>
              IsOctetString(Plain(avps, d, k)[i].code) || |Plain(avps, d, k)[i].value| % 4 == 0
    decreases 8 - k
  {
    hide Has;
    if k < 8 {
      PlainWords(avps, d, k + 1);
      var first := if Has(avps, k) then [PlainAvp(k, d)] else [];
      assert Plain(avps, d, k) == first + Plain(avps, d, k + 1);
    }
  }

  /** The message with its last n bytes zero. */
  function Zeroed(msg: Bytes, n: nat): Bytes
    requires n <= |msg|
  {
    msg[..|msg| - n] + Zeros(n)
  }

  lemma ZeroedEnd(front: Bytes, v: Bytes)
    ensures Zeroed(front + v, |v|) == front + Zeros(|v|)
  {
    assert (front + v)[..|front|] == front;
  }

  /** Zeroing an AUTH value at the end of a message. */
  lemma ZeroedSigning(header: Bytes, plain: seq<Avp>, v: Bytes)
    requires |header| == HEADER && AllFit(plain) && |v| % 4 == 0 && Roomy(plain, |v|)
    ensures |AvpsBytes(Signing(plain, v))| == |AvpsBytes(plain)| + AVP_HEADER + |v|
    ensures |AvpsBytes(Signing(plain, Zeros(|v|)))| == |AvpsBytes(plain)| + AVP_HEADER + |v|
    ensures Zeroed(Unsigned(header, Signing(plain, v)), |v|) == Unsigned(header, Signing(plain, Zeros(|v|)))
  {
    hide AvpsBytes, AllFit, Signing, SetLength, Zeroed, Zeros;
    SigningBytes(plain, v);
    SigningBytes(plain, Zeros(|v|));
    var b, head := AvpsBytes(plain), Short(AUTH) + [0, 0] + Short(|v|) + [0, 0];
    var front := SetLength(header, HEADER + |b| + AVP_HEADER + |v|) + (b + head);
    assert Unsigned(header, Signing(plain, v)) == front + v;
    assert Unsigned(header, Signing(plain, Zeros(|v|))) == front + Zeros(|v|);
    ZeroedEnd(front, v);
  }

  lemma MacIsLast(header: Bytes, flags: bv16, d: Data, authLength: nat, hash: (Bytes, Bytes) -> Bytes, at: nat)
    requires Ready(header, flags, d, authLength, hash) && Has(flags, 8)
    requires var s := AllOf(header, flags, d, authLength, hash); s != [] && at == OffsetOf(s, |s| - 1)
    ensures var v, m := Mac(header, flags, d, authLength, hash), Filled(header, flags, d, authLength, hash);
            at + AVP_HEADER + |v| == |m| && v == hash(d.key, Zeroed(m, |v|))
  {
    hide Ready, Has, Plain, OffsetOf, Unsigned, Zeroed, AvpsBytes, Sound, SetLength, Hashes;
    FilledIs(header, flags, d, authLength, hash);
    var plain := Plain(flags, d, 0);
    SigningBytes(plain, Zeros(authLength));
    var mac := Mac(header, flags, d, authLength, hash);
    assert |mac| == authLength;
    PlainCodes(flags, d, 0);
    AuthPlace(header, plain, mac);
    ZeroedSigning(header, plain, mac);
  }

  /** Any flags, filled in and looked up: getAvp finds a code if and only if its flag was set, on a word boundary,
      with the value that was given; the value of AUTH, the last one, is the hash of the whole message with that
      value zero. */
  method FillAndFind(header: Bytes, flags: bv16, d: Data, authLength: nat, hash: (Bytes, Bytes) -> Bytes, k: nat)
    returns (msg: Bytes, at: Option<nat>)
    requires Ready(header, flags, d, authLength, hash) && Known(flags) && flags != 0 && k < 9
    ensures at.Some? <==> Has(flags, k)
    ensures at.Some? ==>
              var v := Sought(k, header, flags, d, authLength, hash);
              && at.value % 4 == 0 && at.value + AVP_HEADER + |v| <= |msg|
              && msg[at.value + AVP_HEADER..at.value + AVP_HEADER + |v|] == v
              && (k == 8 ==> at.value + AVP_HEADER + |v| == |msg| && v == hash(d.key, Zeroed(msg, |v|)))
  {
    hide Ready, Has, Plain, Known, AllOf, FirstOf, OffsetOf, Carries, Filled, AvpsBytes, Mac, Zeroed;
    var total;
    msg, total := InsertAvps(header, flags, d, authLength, hash);
    FilledCarries(header, flags, d, authLength, hash);
    AllFinds(header, flags, d, authLength, hash, k);
    ghost var s := AllOf(header, flags, d, authLength, hash);
    AllAligned(header, flags, d, authLength, hash, FirstOf(s, Code(k)));
    at := GetAvp(msg, Code(k), s);
    if k == 8 && at.Some? { MacIsLast(header, flags, d, authLength, hash, at.value); }
  }
}
