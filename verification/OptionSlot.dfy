/** What CoapPDU::insertOption leaves in the bytes reserved for an option.

    The code has a one-byte and a two-byte branch for the delta and for the length. `Slot`
    follows every branch, including what was in memory before, and `SlotRightIff` says when the
    result is the option RFC 7252 asks for, whatever the memory held. */
module OptionSlot {
  import opened OptionFormat
  import opened OptionOrder

  /** Bitwise or of two bytes. */
  function Or(a: nat, b: nat): nat {
    if a == 0 && b == 0 then 0
    else (if a % 2 == 1 || b % 2 == 1 then 1 else 0) + 2 * Or(a / 2, b / 2)
  }

  lemma {:induction false} OrBelow(a: nat, b: nat, k: nat)
    requires a < Power2(k) && b < Power2(k)
    ensures Or(a, b) < Power2(k)
  {
    if k > 0 { OrBelow(a / 2, b / 2, k - 1); }
  }

  function Power2(k: nat): nat {
    if k == 0 then 1 else 2 * Power2(k - 1)
  }

  function OrByte(a: Byte, b: Byte): Byte {
    assert Power2(8) == 256;
    OrBelow(a, b, 8);
    Or(a, b)
  }

  lemma {:induction false} OrZero(a: nat)
    ensures Or(a, 0) == a
  {
    if a > 0 { OrZero(a / 2); }
  }

  /** A high nibble or-ed with a low one is their sum. */
  lemma OrNibbles(high: nat, low: nat)
    requires high < 16 && low < 16
    ensures Or(16 * high, low) == 16 * high + low
  {
    hide Or;
    OrDoubled(8 * high, low);
    OrDoubled(4 * high, low / 2);
    OrDoubled(2 * high, low / 4);
    OrDoubled(high, low / 8);
    OrZero(high);
  }

  lemma OrDoubled(a: nat, b: nat)
    ensures Or(2 * a, b) == b % 2 + 2 * Or(a, b / 2)
  {
  }

  function High(n: nat): Byte
    requires n < 0x10000
  {
    n / 256
  }

  function Low(n: nat): Byte {
    n % 256
  }

  /** How far the write position has moved after the delta bytes. */
  function DeltaEnd(delta: nat): nat {
    if delta < 13 then 0 else if delta < LIMIT then 1 else 2
  }

  function AfterDelta(s: Bytes, delta: nat): (r: Bytes)
    requires delta < 0x10000 && |s| > DeltaEnd(delta)
    ensures |r| == |s|
  {
    if delta < 13 then s[0 := 16 * delta]
    else if delta < LIMIT then s[0 := 0xD0][1 := delta - 13]
    else s[0 := High(delta - LIMIT)][1 := Low(delta - LIMIT)]
  }

  function LengthEnd(at: nat, length: nat): nat {
    if length < 13 then at else if length < LIMIT then at + 1 else at + 2
  }

  function AfterLength(s: Bytes, at: nat, length: nat): (r: Bytes)
    requires length < 0x10000 && |s| > LengthEnd(at, length)
    ensures |r| == |s|
  {
    if length < 13 then s[0 := OrByte(s[0], length)]
    else if length < LIMIT then s[0 := OrByte(s[0], 13)][at + 1 := length - 13]
    else s[0 := OrByte(s[0], 14)][at := High(length - LIMIT)][at + 1 := Low(length - LIMIT)]
  }

  /** How many value bytes are copied: the two-byte branch has already reduced the length. */
  function Copied(length: nat): nat {
    if length < LIMIT then length else length - LIMIT
  }

  /** The slot after insertOption, given what it held before. */
  function Slot(stale: Bytes, delta: nat, value: Bytes): (r: Bytes)
    requires delta < 0x10000 && |value| < 0x10000
    requires |stale| == OptionSize(delta, |value|)
    ensures |r| == |stale|
  {
    var at := LengthEnd(DeltaEnd(delta), |value|);
    Overwrite(AfterLength(AfterDelta(stale, delta), DeltaEnd(delta), |value|), at + 1, value[..Copied(|value|)])
  }

  /** In the one-byte branches the slot is the option's encoding. */
  lemma SlotRight(stale: Bytes, delta: nat, value: Bytes)
    requires delta < LIMIT && |value| < LIMIT
    requires |stale| == OptionSize(delta, |value|)
    ensures Slot(stale, delta, value) == EncodeOption(delta, value)
  {
    HeadRight(stale, delta, |value|);
    hide AfterDelta, AfterLength, Or, Nibble, Extension;
    assert value[..|value|] == value;
  }

  lemma HeadRight(stale: Bytes, delta: nat, length: nat)
    requires delta < LIMIT && length < LIMIT
    requires |stale| >= 1 + Extra(delta) + Extra(length)
    ensures DeltaEnd(delta) == Extra(delta) && LengthEnd(Extra(delta), length) == Extra(delta) + Extra(length)
    ensures AfterLength(AfterDelta(stale, delta), Extra(delta), length)[..1 + Extra(delta) + Extra(length)]
            == [16 * Nibble(delta) + Nibble(length)] + Extension(delta) + Extension(length)
  {
    OrNibbles(Nibble(delta), Nibble(length));
    hide Or;
    var d := AfterDelta(stale, delta);
    var l := AfterLength(d, Extra(delta), length);
    assert l[0] == 16 * Nibble(delta) + Nibble(length);
    assert delta >= 13 ==> l[1] == delta - 13;
    assert length >= 13 ==> l[1 + Extra(delta)] == length - 13;
  }

  /** A wide delta leaves one byte of the slot unwritten; a wide length leaves the last one. */
  lemma SlotKeepsStale(stale: Bytes, delta: nat, value: Bytes)
    requires delta < 0x10000 && |value| < 0x10000
    requires |stale| == OptionSize(delta, |value|)
    requires delta >= LIMIT || |value| >= LIMIT
    ensures var k := if |value| >= LIMIT then |stale| - 1 else 2; Slot(stale, delta, value)[k] == stale[k]
  {
  }

  /** insertOption writes the right option over every previous memory content if and only if
      delta and length need no two-byte extension. */
  lemma SlotRightIff(delta: nat, value: Bytes)
    requires delta < 0x10000 && |value| < 0x10000
    ensures (forall stale: Bytes | |stale| == OptionSize(delta, |value|) ::
               Slot(stale, delta, value) == EncodeOption(delta, value))
            <==> delta < LIMIT && |value| < LIMIT
  {
    hide Slot, EncodeOption;
    if delta < LIMIT && |value| < LIMIT {
      forall stale: Bytes | |stale| == OptionSize(delta, |value|)
        ensures Slot(stale, delta, value) == EncodeOption(delta, value)
      {
        SlotRight(stale, delta, value);
      }
    } else {
      var wanted := EncodeOption(delta, value);
      var k := if |value| >= LIMIT then |wanted| - 1 else 2;
      var stale := wanted[k := if wanted[k] == 0 then 1 else 0];
      SlotKeepsStale(stale, delta, value);
      assert Slot(stale, delta, value)[k] != wanted[k];
    }
  }
}
