/** The S-box of AES and its inverse, as the tables of the C code list them. */
module AesTables {
  import opened AesField

  /** The entry of a table row that the low four bits of `x` select. */
  function Row(x: bv8, v0: bv8, v1: bv8, v2: bv8, v3: bv8, v4: bv8, v5: bv8, v6: bv8, v7: bv8,
               v8: bv8, v9: bv8, va: bv8, vb: bv8, vc: bv8, vd: bv8, ve: bv8, vf: bv8): bv8 {
    if x & 8 == 0 then
      if x & 4 == 0 then
        if x & 2 == 0 then if x & 1 == 0 then v0 else v1 else if x & 1 == 0 then v2 else v3
      else
        if x & 2 == 0 then if x & 1 == 0 then v4 else v5 else if x & 1 == 0 then v6 else v7
    else
      if x & 4 == 0 then
        if x & 2 == 0 then if x & 1 == 0 then v8 else v9 else if x & 1 == 0 then va else vb
      else
        if x & 2 == 0 then if x & 1 == 0 then vc else vd else if x & 1 == 0 then ve else vf
  }

  function Sbox(x: bv8): bv8 {
    if x < 0x10 then
      Row(x, 0x63, 0x7c, 0x77, 0x7b, 0xf2, 0x6b, 0x6f, 0xc5, 0x30, 0x01, 0x67, 0x2b, 0xfe, 0xd7, 0xab, 0x76)
    else if x < 0x20 then
      Row(x, 0xca, 0x82, 0xc9, 0x7d, 0xfa, 0x59, 0x47, 0xf0, 0xad, 0xd4, 0xa2, 0xaf, 0x9c, 0xa4, 0x72, 0xc0)
    else if x < 0x30 then
      Row(x, 0xb7, 0xfd, 0x93, 0x26, 0x36, 0x3f, 0xf7, 0xcc, 0x34, 0xa5, 0xe5, 0xf1, 0x71, 0xd8, 0x31, 0x15)
    else if x < 0x40 then
      Row(x, 0x04, 0xc7, 0x23, 0xc3, 0x18, 0x96, 0x05, 0x9a, 0x07, 0x12, 0x80, 0xe2, 0xeb, 0x27, 0xb2, 0x75)
    else if x < 0x50 then
      Row(x, 0x09, 0x83, 0x2c, 0x1a, 0x1b, 0x6e, 0x5a, 0xa0, 0x52, 0x3b, 0xd6, 0xb3, 0x29, 0xe3, 0x2f, 0x84)
    else if x < 0x60 then
      Row(x, 0x53, 0xd1, 0x00, 0xed, 0x20, 0xfc, 0xb1, 0x5b, 0x6a, 0xcb, 0xbe, 0x39, 0x4a, 0x4c, 0x58, 0xcf)
    else if x < 0x70 then
      Row(x, 0xd0, 0xef, 0xaa, 0xfb, 0x43, 0x4d, 0x33, 0x85, 0x45, 0xf9, 0x02, 0x7f, 0x50, 0x3c, 0x9f, 0xa8)
    else if x < 0x80 then
      Row(x, 0x51, 0xa3, 0x40, 0x8f, 0x92, 0x9d, 0x38, 0xf5, 0xbc, 0xb6, 0xda, 0x21, 0x10, 0xff, 0xf3, 0xd2)
    else if x < 0x90 then
      Row(x, 0xcd, 0x0c, 0x13, 0xec, 0x5f, 0x97, 0x44, 0x17, 0xc4, 0xa7, 0x7e, 0x3d, 0x64, 0x5d, 0x19, 0x73)
    else if x < 0xa0 then
      Row(x, 0x60, 0x81, 0x4f, 0xdc, 0x22, 0x2a, 0x90, 0x88, 0x46, 0xee, 0xb8, 0x14, 0xde, 0x5e, 0x0b, 0xdb)
    else if x < 0xb0 then
      Row(x, 0xe0, 0x32, 0x3a, 0x0a, 0x49, 0x06, 0x24, 0x5c, 0xc2, 0xd3, 0xac, 0x62, 0x91, 0x95, 0xe4, 0x79)
    else if x < 0xc0 then
      Row(x, 0xe7, 0xc8, 0x37, 0x6d, 0x8d, 0xd5, 0x4e, 0xa9, 0x6c, 0x56, 0xf4, 0xea, 0x65, 0x7a, 0xae, 0x08)
    else if x < 0xd0 then
      Row(x, 0xba, 0x78, 0x25, 0x2e, 0x1c, 0xa6, 0xb4, 0xc6, 0xe8, 0xdd, 0x74, 0x1f, 0x4b, 0xbd, 0x8b, 0x8a)
    else if x < 0xe0 then
      Row(x, 0x70, 0x3e, 0xb5, 0x66, 0x48, 0x03, 0xf6, 0x0e, 0x61, 0x35, 0x57, 0xb9, 0x86, 0xc1, 0x1d, 0x9e)
    else if x < 0xf0 then
      Row(x, 0xe1, 0xf8, 0x98, 0x11, 0x69, 0xd9, 0x8e, 0x94, 0x9b, 0x1e, 0x87, 0xe9, 0xce, 0x55, 0x28, 0xdf)
    else
      Row(x, 0x8c, 0xa1, 0x89, 0x0d, 0xbf, 0xe6, 0x42, 0x68, 0x41, 0x99, 0x2d, 0x0f, 0xb0, 0x54, 0xbb, 0x16)
  }

  function InvSbox(x: bv8): bv8 {
    if x < 0x10 then
      Row(x, 0x52, 0x09, 0x6a, 0xd5, 0x30, 0x36, 0xa5, 0x38, 0xbf, 0x40, 0xa3, 0x9e, 0x81, 0xf3, 0xd7, 0xfb)
    else if x < 0x20 then
      Row(x, 0x7c, 0xe3, 0x39, 0x82, 0x9b, 0x2f, 0xff, 0x87, 0x34, 0x8e, 0x43, 0x44, 0xc4, 0xde, 0xe9, 0xcb)
    else if x < 0x30 then
      Row(x, 0x54, 0x7b, 0x94, 0x32, 0xa6, 0xc2, 0x23, 0x3d, 0xee, 0x4c, 0x95, 0x0b, 0x42, 0xfa, 0xc3, 0x4e)
    else if x < 0x40 then
      Row(x, 0x08, 0x2e, 0xa1, 0x66, 0x28, 0xd9, 0x24, 0xb2, 0x76, 0x5b, 0xa2, 0x49, 0x6d, 0x8b, 0xd1, 0x25)
    else if x < 0x50 then
      Row(x, 0x72, 0xf8, 0xf6, 0x64, 0x86, 0x68, 0x98, 0x16, 0xd4, 0xa4, 0x5c, 0xcc, 0x5d, 0x65, 0xb6, 0x92)
    else if x < 0x60 then
      Row(x, 0x6c, 0x70, 0x48, 0x50, 0xfd, 0xed, 0xb9, 0xda, 0x5e, 0x15, 0x46, 0x57, 0xa7, 0x8d, 0x9d, 0x84)
    else if x < 0x70 then
      Row(x, 0x90, 0xd8, 0xab, 0x00, 0x8c, 0xbc, 0xd3, 0x0a, 0xf7, 0xe4, 0x58, 0x05, 0xb8, 0xb3, 0x45, 0x06)
    else if x < 0x80 then
      Row(x, 0xd0, 0x2c, 0x1e, 0x8f, 0xca, 0x3f, 0x0f, 0x02, 0xc1, 0xaf, 0xbd, 0x03, 0x01, 0x13, 0x8a, 0x6b)
    else if x < 0x90 then
      Row(x, 0x3a, 0x91, 0x11, 0x41, 0x4f, 0x67, 0xdc, 0xea, 0x97, 0xf2, 0xcf, 0xce, 0xf0, 0xb4, 0xe6, 0x73)
    else if x < 0xa0 then
      Row(x, 0x96, 0xac, 0x74, 0x22, 0xe7, 0xad, 0x35, 0x85, 0xe2, 0xf9, 0x37, 0xe8, 0x1c, 0x75, 0xdf, 0x6e)
    else if x < 0xb0 then
      Row(x, 0x47, 0xf1, 0x1a, 0x71, 0x1d, 0x29, 0xc5, 0x89, 0x6f, 0xb7, 0x62, 0x0e, 0xaa, 0x18, 0xbe, 0x1b)
    else if x < 0xc0 then
      Row(x, 0xfc, 0x56, 0x3e, 0x4b, 0xc6, 0xd2, 0x79, 0x20, 0x9a, 0xdb, 0xc0, 0xfe, 0x78, 0xcd, 0x5a, 0xf4)
    else if x < 0xd0 then
      Row(x, 0x1f, 0xdd, 0xa8, 0x33, 0x88, 0x07, 0xc7, 0x31, 0xb1, 0x12, 0x10, 0x59, 0x27, 0x80, 0xec, 0x5f)
    else if x < 0xe0 then
      Row(x, 0x60, 0x51, 0x7f, 0xa9, 0x19, 0xb5, 0x4a, 0x0d, 0x2d, 0xe5, 0x7a, 0x9f, 0x93, 0xc9, 0x9c, 0xef)
    else if x < 0xf0 then
      Row(x, 0xa0, 0xe0, 0x3b, 0x4d, 0xae, 0x2a, 0xf5, 0xb0, 0xc8, 0xeb, 0xbb, 0x3c, 0x83, 0x53, 0x99, 0x61)
    else
      Row(x, 0x17, 0x2b, 0x04, 0x7e, 0xba, 0x77, 0xd6, 0x26, 0xe1, 0x69, 0x14, 0x63, 0x55, 0x21, 0x0c, 0x7d)
  }

  /** The affine map of section 5.1.1 of FIPS 197. */
  function Affine(x: bv8): bv8 {
    0x63 ^ x ^ Rotate(x, 1) ^ Rotate(x, 2) ^ Rotate(x, 3) ^ Rotate(x, 4)
  }

  function Rotate(x: bv8, k: nat): bv8
    requires 0 < k < 8
  {
    (x << k) | (x >> (8 - k))
  }

  function InvAffine(x: bv8): bv8 {
    0x05 ^ Rotate(x, 1) ^ Rotate(x, 3) ^ Rotate(x, 6)
  }

  lemma AffineInverse(y: bv8)
    ensures Affine(InvAffine(y)) == y
  {
  }

  lemma InverseA(x: bv8)
    requires 0 < x <= 0x3f
    ensures Mul(x, InvAffine(Sbox(x))) == 1
  {
  }

  lemma InverseB(x: bv8)
    requires 0x40 <= x <= 0x7f
    ensures Mul(x, InvAffine(Sbox(x))) == 1
  {
  }

  lemma InverseC(x: bv8)
    requires 0x80 <= x <= 0xbf
    ensures Mul(x, InvAffine(Sbox(x))) == 1
  {
  }

  lemma InverseD(x: bv8)
    requires 0xc0 <= x
    ensures Mul(x, InvAffine(Sbox(x))) == 1
  {
  }

  lemma Undone00(x: bv8)
    requires x <= 0x1f
    ensures InvSbox(Sbox(x)) == x
  {
  }

  lemma Undone20(x: bv8)
    requires 0x20 <= x <= 0x3f
    ensures InvSbox(Sbox(x)) == x
  {
  }

  lemma Undone40(x: bv8)
    requires 0x40 <= x <= 0x5f
    ensures InvSbox(Sbox(x)) == x
  {
  }

  lemma Undone60(x: bv8)
    requires 0x60 <= x <= 0x7f
    ensures InvSbox(Sbox(x)) == x
  {
  }

  lemma Undone80(x: bv8)
    requires 0x80 <= x <= 0x9f
    ensures InvSbox(Sbox(x)) == x
  {
  }

  lemma UndoneA0(x: bv8)
    requires 0xa0 <= x <= 0xbf
    ensures InvSbox(Sbox(x)) == x
  {
  }

  lemma UndoneC0(x: bv8)
    requires 0xc0 <= x <= 0xdf
    ensures InvSbox(Sbox(x)) == x
  {
  }

  lemma UndoneE0(x: bv8)
    requires 0xe0 <= x
    ensures InvSbox(Sbox(x)) == x
  {
  }

  /** The second table undoes the first. */
  lemma InvSboxSbox(x: bv8)
    ensures InvSbox(Sbox(x)) == x
  {
    hide Sbox, InvSbox;
    if x <= 0x1f { Undone00(x); }
    else if x <= 0x3f { Undone20(x); }
    else if x <= 0x5f { Undone40(x); }
    else if x <= 0x7f { Undone60(x); }
    else if x <= 0x9f { Undone80(x); }
    else if x <= 0xbf { UndoneA0(x); }
    else if x <= 0xdf { UndoneC0(x); }
    else { UndoneE0(x); }
  }

  /** What the table says the multiplicative inverse is. */
  function FieldInverse(x: bv8): bv8 {
    InvAffine(Sbox(x))
  }

  lemma ZeroInverse()
    ensures FieldInverse(0) == 0
  {
  }

  /** The first table is the S-box of FIPS 197: the affine map of the multiplicative inverse, with 0 for 0. */
  lemma SboxIsInverse(x: bv8)
    ensures Sbox(x) == Affine(FieldInverse(x))
    ensures if x == 0 then FieldInverse(x) == 0 else Mul(x, FieldInverse(x)) == 1
  {
    hide Sbox, Affine, InvAffine, Mul;
    ZeroInverse();
    AffineInverse(Sbox(x));
    if x >= 0xc0 { InverseD(x); } else if x >= 0x80 { InverseC(x); } else if x >= 0x40 { InverseB(x); }
    else if x > 0 { InverseA(x); }
  }

  /* ---- On octets ---- */

  function Sub(x: Octet): Octet { Octet(Sbox(x.bits)) }
  function InvSub(x: Octet): Octet { Octet(InvSbox(x.bits)) }

  lemma InvSubSub(x: Octet)
    ensures InvSub(Sub(x)) == x
  {
    InvSboxSbox(x.bits);
    hide Sbox, InvSbox;
  }
}
