/** Arithmetic in the field of AES, GF(2^8) modulo x^8 + x^4 + x^3 + x + 1 (section 4.2 of FIPS 197),
    and the macros by which the C code multiplies by small constants. */
module AesField {

  function Double(x: bv8): bv8 {
    (x << 1) ^ (if x & 0x80 != 0 then 0x1b else 0)
  }

  function Part(x: bv8, y: bv8, bit: bv8): bv8 {
    if y & bit != 0 then x else 0
  }

  /** Multiplication: `x` doubled once more for every bit of `y`. */
  function Mul(x: bv8, y: bv8): bv8 {
    var x2 := Double(x);
    var x4 := Double(x2);
    var x8 := Double(x4);
    var x16 := Double(x8);
    var x32 := Double(x16);
    var x64 := Double(x32);
    Part(x, y, 0x01) ^ Part(x2, y, 0x02) ^ Part(x4, y, 0x04) ^ Part(x8, y, 0x08)
    ^ Part(x16, y, 0x10) ^ Part(x32, y, 0x20) ^ Part(x64, y, 0x40) ^ Part(Double(x64), y, 0x80)
  }

  /* ---- The macros: computed in a wider type and stored in a byte ---- */

  const WPOLY: bv16 := 0x011b

  function F2(x: bv8): bv8 {
    var w := x as bv16;
    (((w << 1) ^ (((w >> 7) & 1) * WPOLY)) & 0xff) as bv8
  }

  function F4(x: bv8): bv8 {
    var w := x as bv16;
    (((w << 2) ^ (((w >> 6) & 1) * WPOLY) ^ (((w >> 6) & 2) * WPOLY)) & 0xff) as bv8
  }

  function F8(x: bv8): bv8 {
    var w := x as bv16;
    (((w << 3) ^ (((w >> 5) & 1) * WPOLY) ^ (((w >> 5) & 2) * WPOLY) ^ (((w >> 5) & 4) * WPOLY)) & 0xff) as bv8
  }

  function F3(x: bv8): bv8 { F2(x) ^ x }
  function F9(x: bv8): bv8 { F8(x) ^ x }
  function FB(x: bv8): bv8 { F8(x) ^ F2(x) ^ x }
  function FD(x: bv8): bv8 { F8(x) ^ F4(x) ^ x }
  function FE(x: bv8): bv8 { F8(x) ^ F4(x) ^ F2(x) }

  lemma Doublings(x: bv8)
    ensures F2(x) == Double(x) && F4(x) == Double(Double(x)) && F8(x) == Double(Double(Double(x)))
  {
  }

  lemma MulByTwo(x: bv8)
    ensures F2(x) == Mul(x, 2) && F3(x) == Mul(x, 3)
  {
    Doublings(x);
    hide Double, F2;
  }

  lemma MulByNine(x: bv8)
    ensures F9(x) == Mul(x, 9) && FB(x) == Mul(x, 11)
  {
    Doublings(x);
    hide Double, F2, F4, F8;
  }

  lemma MulByFourteen(x: bv8)
    ensures FD(x) == Mul(x, 13) && FE(x) == Mul(x, 14)
  {
    Doublings(x);
    hide Double, F2, F4, F8;
  }

  /** The macros multiply by 2, 3, 9, 11, 13 and 14. */
  lemma MacrosMultiply(x: bv8)
    ensures F2(x) == Mul(x, 2) && F3(x) == Mul(x, 3) && F9(x) == Mul(x, 9)
    ensures FB(x) == Mul(x, 11) && FD(x) == Mul(x, 13) && FE(x) == Mul(x, 14)
  {
    hide Mul, F2, F3, F9, FB, FD, FE;
    MulByTwo(x);
    MulByNine(x);
    MulByFourteen(x);
  }

  /* ---- Linearity: doubling distributes over addition ---- */

  function Plus(x: bv8, y: bv8): bv8 {
    x ^ y
  }

  lemma DoublePlus(x: bv8, y: bv8)
    ensures Double(Plus(x, y)) == Plus(Double(x), Double(y))
  {
    assert (x ^ y) << 1 == (x << 1) ^ (y << 1);
    assert (x ^ y) & 0x80 == (x & 0x80) ^ (y & 0x80);
    assert x & 0x80 == 0 || x & 0x80 == 0x80;
    assert y & 0x80 == 0 || y & 0x80 == 0x80;
  }

  function Plus4(x: bv8, y: bv8, z: bv8, w: bv8): bv8 {
    Plus(Plus(x, y), Plus(z, w))
  }

  lemma PlusAssoc(x: bv8, y: bv8, z: bv8)
    ensures Plus(Plus(x, y), z) == Plus(x, Plus(y, z))
  {
  }

  lemma PlusComm(x: bv8, y: bv8)
    ensures Plus(x, y) == Plus(y, x)
  {
  }

  lemma Interchange(a: bv8, b: bv8, c: bv8, d: bv8)
    ensures Plus(Plus(a, b), Plus(c, d)) == Plus(Plus(a, c), Plus(b, d))
  {
    hide Plus;
    PlusAssoc(a, b, Plus(c, d));
    PlusAssoc(b, c, d);
    PlusComm(b, c);
    PlusAssoc(c, b, d);
    PlusAssoc(a, c, Plus(b, d));
  }

  /* ---- Small factors as sums of doublings ---- */

  lemma MulLow(x: bv8)
    ensures Mul(x, 2) == Double(x) && Mul(x, 3) == Plus(Double(x), x)
  {
    hide Double;
  }

  lemma MulHigh(x: bv8)
    ensures Mul(x, 9) == Plus(Double(Double(Double(x))), x)
    ensures Mul(x, 14) == Plus(Double(Double(Double(x))), Plus(Double(Double(x)), Double(x)))
  {
    hide Double;
  }

  lemma MulEleven(x: bv8)
    ensures Mul(x, 11) == Plus(Double(Double(Double(x))), Plus(Double(x), x))
  {
    hide Double;
  }

  lemma MulThirteen(x: bv8)
    ensures Mul(x, 13) == Plus(Double(Double(Double(x))), Plus(Double(Double(x)), x))
  {
    hide Double;
  }

  /* ---- Multiplication by the factors of InvMixColumns distributes over addition ---- */

  lemma TriplePlus(x: bv8, y: bv8)
    ensures Double(Double(Plus(x, y))) == Plus(Double(Double(x)), Double(Double(y)))
    ensures Double(Double(Double(Plus(x, y)))) == Plus(Double(Double(Double(x))), Double(Double(Double(y))))
  {
    hide Double, Plus;
    DoublePlus(x, y);
    DoublePlus(Double(x), Double(y));
    DoublePlus(Double(Double(x)), Double(Double(y)));
  }

  predicate Factor(k: bv8) {
    k == 9 || k == 11 || k == 13 || k == 14
  }

  lemma MulPlus(x: bv8, y: bv8, k: bv8)
    requires Factor(k)
    ensures Mul(Plus(x, y), k) == Plus(Mul(x, k), Mul(y, k))
  {
    hide Double, Plus, Mul;
    DoublePlus(x, y);
    TriplePlus(x, y);
    var x1, x2, x3 := Double(x), Double(Double(x)), Double(Double(Double(x)));
    var y1, y2, y3 := Double(y), Double(Double(y)), Double(Double(Double(y)));
    if k == 9 || k == 14 {
      MulHigh(x);
      MulHigh(y);
      MulHigh(Plus(x, y));
      Interchange(x3, x, y3, y);
      Interchange(x2, x1, y2, y1);
      Interchange(x3, Plus(x2, x1), y3, Plus(y2, y1));
    } else if k == 11 {
      MulEleven(x);
      MulEleven(y);
      MulEleven(Plus(x, y));
      Interchange(x1, x, y1, y);
      Interchange(x3, Plus(x1, x), y3, Plus(y1, y));
    } else {
      MulThirteen(x);
      MulThirteen(y);
      MulThirteen(Plus(x, y));
      Interchange(x2, x, y2, y);
      Interchange(x3, Plus(x2, x), y3, Plus(y2, y));
    }
  }

  lemma MulPlus4(x: bv8, y: bv8, z: bv8, w: bv8, k: bv8)
    requires Factor(k)
    ensures Mul(Plus4(x, y, z, w), k) == Plus4(Mul(x, k), Mul(y, k), Mul(z, k), Mul(w, k))
  {
    hide Plus, Mul, Factor;
    MulPlus(Plus(x, y), Plus(z, w), k);
    MulPlus(x, y, k);
    MulPlus(z, w, k);
  }

  /* ---- Bytes of a state ---- */

  /** A byte as an element of a sequence; keeps its bits to itself. */
  datatype Octet = Octet(bits: bv8)

  function Add(x: Octet, y: Octet): Octet {
    Octet(Plus(x.bits, y.bits))
  }

  lemma PlusTwice(x: bv8, k: bv8)
    ensures Plus(Plus(x, k), k) == x
  {
  }

  lemma AddComm(x: Octet, y: Octet)
    ensures Add(x, y) == Add(y, x)
  {
    hide Plus;
    PlusComm(x.bits, y.bits);
  }

  /** Adding the same byte twice changes nothing. */
  lemma AddTwice(x: Octet, k: Octet)
    ensures Add(Add(x, k), k) == x && Add(Add(k, x), k) == x
  {
    hide Plus;
    AddComm(x, k);
    PlusTwice(x.bits, k.bits);
  }

  lemma AddZero(x: Octet)
    ensures Add(x, Octet(0)) == x
  {
  }
}
