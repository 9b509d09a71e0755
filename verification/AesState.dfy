/** The rounds of the C code, changing a 16-byte state in place: table lookups fuse SubBytes, ShiftRows and
    MixColumns into one pass. Every method is proved equal to the separate transformations of FIPS 197. */
module AesState {
  import opened AesField
  import opened AesTables
  import opened AesRounds

  /** The tables that hold a multiple of each S-box entry, and of each byte. */
  function GfmTwo(x: Octet): Octet { Octet(F2(Sbox(x.bits))) }
  function GfmThree(x: Octet): Octet { Octet(F3(Sbox(x.bits))) }
  function GfmNine(x: Octet): Octet { Octet(F9(x.bits)) }
  function GfmB(x: Octet): Octet { Octet(FB(x.bits)) }
  function GfmD(x: Octet): Octet { Octet(FD(x.bits)) }
  function GfmE(x: Octet): Octet { Octet(FE(x.bits)) }

  function Xor4(a: bv8, b: bv8, c: bv8, d: bv8): bv8 {
    Plus(Plus(Plus(a, b), c), d)
  }

  function Sum(a: Octet, b: Octet, c: Octet, d: Octet): Octet {
    Octet(Xor4(a.bits, b.bits, c.bits, d.bits))
  }

  lemma Rotated(a: bv8, b: bv8, c: bv8, d: bv8)
    ensures Xor4(a, b, c, d) == Plus4(a, b, c, d)
    ensures Xor4(d, a, b, c) == Plus4(a, b, c, d)
    ensures Xor4(c, d, a, b) == Plus4(a, b, c, d)
    ensures Xor4(b, c, d, a) == Plus4(a, b, c, d)
  {
    hide Plus, Plus4;
    XorIsPlus4(a, b, c, d);
    XorIsPlus4(d, a, b, c);
    XorIsPlus4(c, d, a, b);
    XorIsPlus4(b, c, d, a);
    RotateSum(a, b, c, d);
    RotateSum(d, a, b, c);
    RotateSum(c, d, a, b);
  }

  lemma XorIsPlus4(a: bv8, b: bv8, c: bv8, d: bv8)
    ensures Xor4(a, b, c, d) == Plus4(a, b, c, d)
  {
    hide Plus;
    PlusAssoc(Plus(a, b), c, d);
  }

  /* ---- One column of the fused rounds ---- */

  lemma MixRowBits(w: bv8, x: bv8, y: bv8, z: bv8)
    ensures Xor4(F2(w), F3(x), y, z) == MixBits(w, x, y, z)
    ensures Xor4(z, F2(w), F3(x), y) == MixBits(w, x, y, z)
    ensures Xor4(y, z, F2(w), F3(x)) == MixBits(w, x, y, z)
    ensures Xor4(F3(x), y, z, F2(w)) == MixBits(w, x, y, z)
  {
    hide Mul, F2, F3, Xor4, Plus4;
    MulByTwo(w);
    MulByTwo(x);
    Rotated(F2(w), F3(x), y, z);
  }

  lemma MixRow(w: Octet, x: Octet, y: Octet, z: Octet)
    ensures Sum(GfmTwo(w), GfmThree(x), Sub(y), Sub(z)) == Mix(Sub(w), Sub(x), Sub(y), Sub(z))
    ensures Sum(Sub(z), GfmTwo(w), GfmThree(x), Sub(y)) == Mix(Sub(w), Sub(x), Sub(y), Sub(z))
    ensures Sum(Sub(y), Sub(z), GfmTwo(w), GfmThree(x)) == Mix(Sub(w), Sub(x), Sub(y), Sub(z))
    ensures Sum(GfmThree(x), Sub(y), Sub(z), GfmTwo(w)) == Mix(Sub(w), Sub(x), Sub(y), Sub(z))
  {
    hide MixBits, F2, F3, Sbox, Xor4;
    MixRowBits(Sbox(w.bits), Sbox(x.bits), Sbox(y.bits), Sbox(z.bits));
  }

  lemma UnmixRowBits(a: bv8, b: bv8, c: bv8, d: bv8)
    ensures Xor4(FE(a), FB(b), FD(c), F9(d)) == UnmixBits(a, b, c, d)
    ensures Xor4(F9(d), FE(a), FB(b), FD(c)) == UnmixBits(a, b, c, d)
    ensures Xor4(FD(c), F9(d), FE(a), FB(b)) == UnmixBits(a, b, c, d)
    ensures Xor4(FB(b), FD(c), F9(d), FE(a)) == UnmixBits(a, b, c, d)
  {
    hide Mul, FE, FB, FD, F9, F2, F3, Xor4, Plus4;
    MacrosMultiply(a);
    MacrosMultiply(b);
    MacrosMultiply(c);
    MacrosMultiply(d);
    Rotated(FE(a), FB(b), FD(c), F9(d));
  }

  lemma UnmixRow(w: Octet, x: Octet, y: Octet, z: Octet)
    ensures Sum(GfmE(w), GfmB(x), GfmD(y), GfmNine(z)) == Unmix(w, x, y, z)
    ensures Sum(GfmNine(z), GfmE(w), GfmB(x), GfmD(y)) == Unmix(w, x, y, z)
    ensures Sum(GfmD(y), GfmNine(z), GfmE(w), GfmB(x)) == Unmix(w, x, y, z)
    ensures Sum(GfmB(x), GfmD(y), GfmNine(z), GfmE(w)) == Unmix(w, x, y, z)
  {
    hide UnmixBits, FE, FB, FD, F9, Xor4;
    UnmixRowBits(w.bits, x.bits, y.bits, z.bits);
  }

  /** Four bytes of mix_sub_columns. */
  method MixSubColumn(dt: array<Octet>, at: nat, w: Octet, x: Octet, y: Octet, z: Octet)
    requires dt.Length == 16 && at + 4 <= 16
    modifies dt
    ensures dt[at] == Mix(Sub(w), Sub(x), Sub(y), Sub(z))
    ensures dt[at + 1] == Mix(Sub(x), Sub(y), Sub(z), Sub(w))
    ensures dt[at + 2] == Mix(Sub(y), Sub(z), Sub(w), Sub(x))
    ensures dt[at + 3] == Mix(Sub(z), Sub(w), Sub(x), Sub(y))
    ensures forall i :: 0 <= i < 16 && !(at <= i < at + 4) ==> dt[i] == old(dt[i])
  {
    hide Sub, GfmTwo, GfmThree, Mix, Sum;
    MixRow(w, x, y, z);
    MixRow(x, y, z, w);
    MixRow(y, z, w, x);
    MixRow(z, w, x, y);
    dt[at] := Sum(GfmTwo(w), GfmThree(x), Sub(y), Sub(z));
    dt[at + 1] := Sum(Sub(w), GfmTwo(x), GfmThree(y), Sub(z));
    dt[at + 2] := Sum(Sub(w), Sub(x), GfmTwo(y), GfmThree(z));
    dt[at + 3] := Sum(GfmThree(w), Sub(x), Sub(y), GfmTwo(z));
  }

  /** Four bytes of inv_mix_sub_columns, one in each row, spread over the columns. */
  method InvMixSubColumn(dt: array<Octet>, i0: nat, i1: nat, i2: nat, i3: nat, w: Octet, x: Octet, y: Octet, z: Octet)
    requires dt.Length == 16 && i0 < 16 && i1 < 16 && i2 < 16 && i3 < 16
    requires i0 % 4 == 0 && i1 % 4 == 1 && i2 % 4 == 2 && i3 % 4 == 3
    modifies dt
    ensures dt[i0] == InvSub(Unmix(w, x, y, z)) && dt[i1] == InvSub(Unmix(x, y, z, w))
    ensures dt[i2] == InvSub(Unmix(y, z, w, x)) && dt[i3] == InvSub(Unmix(z, w, x, y))
    ensures forall i :: 0 <= i < 16 && i != i0 && i != i1 && i != i2 && i != i3 ==> dt[i] == old(dt[i])
  {
    hide InvSub, GfmE, GfmB, GfmD, GfmNine, Unmix, Sum;
    UnmixRow(w, x, y, z);
    UnmixRow(x, y, z, w);
    UnmixRow(y, z, w, x);
    UnmixRow(z, w, x, y);
    dt[i0] := InvSub(Sum(GfmE(w), GfmB(x), GfmD(y), GfmNine(z)));
    dt[i1] := InvSub(Sum(GfmNine(w), GfmE(x), GfmB(y), GfmD(z)));
    dt[i2] := InvSub(Sum(GfmD(w), GfmNine(x), GfmE(y), GfmB(z)));
    dt[i3] := InvSub(Sum(GfmB(w), GfmD(x), GfmNine(y), GfmE(z)));
  }

  /* ---- Whole states ---- */

  lemma NextIs(at: nat)
    requires at % 4 == 0 && at < 16
    ensures at + 3 < 16
    ensures Next(at) == at + 1 && Next(at + 1) == at + 2 && Next(at + 2) == at + 3 && Next(at + 3) == at
  {
  }

  lemma ColumnMixed(t: Block, at: nat)
    requires at % 4 == 0 && at + 4 <= 16
    ensures MixColumns(t)[at] == Mix(t[at], t[at + 1], t[at + 2], t[at + 3])
    ensures MixColumns(t)[at + 1] == Mix(t[at + 1], t[at + 2], t[at + 3], t[at])
    ensures MixColumns(t)[at + 2] == Mix(t[at + 2], t[at + 3], t[at], t[at + 1])
    ensures MixColumns(t)[at + 3] == Mix(t[at + 3], t[at], t[at + 1], t[at + 2])
  {
    NextIs(at);
    hide Mix, Next, MixColumns;
    MixedAt(t, at);
    MixedAt(t, at + 1);
    MixedAt(t, at + 2);
    MixedAt(t, at + 3);
  }

  lemma UnmixedAt(s: Block, i: nat)
    requires i < 16
    ensures InvMixColumns(s)[i] == Unmix(s[i], s[Next(i)], s[Next(Next(i))], s[Next(Next(Next(i)))])
  {
    hide Unmix, Next;
  }

  lemma ColumnUnmixed(t: Block, at: nat)
    requires at % 4 == 0 && at + 4 <= 16
    ensures InvMixColumns(t)[at] == Unmix(t[at], t[at + 1], t[at + 2], t[at + 3])
    ensures InvMixColumns(t)[at + 1] == Unmix(t[at + 1], t[at + 2], t[at + 3], t[at])
    ensures InvMixColumns(t)[at + 2] == Unmix(t[at + 2], t[at + 3], t[at], t[at + 1])
    ensures InvMixColumns(t)[at + 3] == Unmix(t[at + 3], t[at], t[at + 1], t[at + 2])
  {
    NextIs(at);
    hide Unmix, Next, InvMixColumns;
    UnmixedAt(t, at);
    UnmixedAt(t, at + 1);
    UnmixedAt(t, at + 2);
    UnmixedAt(t, at + 3);
  }

  lemma ShiftedSub(s: Block)
    ensures var t := ShiftRows(SubBytes(s));
            && t[0] == Sub(s[0]) && t[1] == Sub(s[5]) && t[2] == Sub(s[10]) && t[3] == Sub(s[15])
            && t[4] == Sub(s[4]) && t[5] == Sub(s[9]) && t[6] == Sub(s[14]) && t[7] == Sub(s[3])
            && t[8] == Sub(s[8]) && t[9] == Sub(s[13]) && t[10] == Sub(s[2]) && t[11] == Sub(s[7])
            && t[12] == Sub(s[12]) && t[13] == Sub(s[1]) && t[14] == Sub(s[6]) && t[15] == Sub(s[11])
  {
    hide *;
    ShiftedAt(s, 0, 0); ShiftedAt(s, 1, 5); ShiftedAt(s, 2, 10); ShiftedAt(s, 3, 15);
    ShiftedAt(s, 4, 4); ShiftedAt(s, 5, 9); ShiftedAt(s, 6, 14); ShiftedAt(s, 7, 3);
    ShiftedAt(s, 8, 8); ShiftedAt(s, 9, 13); ShiftedAt(s, 10, 2); ShiftedAt(s, 11, 7);
    ShiftedAt(s, 12, 12); ShiftedAt(s, 13, 1); ShiftedAt(s, 14, 6); ShiftedAt(s, 15, 11);
  }

  lemma ShiftedAt(s: Block, i: nat, from: nat)
    requires i < 16 && from == (i + 4 * (i % 4)) % 16
    ensures ShiftRows(SubBytes(s))[i] == Sub(s[from])
  {
    hide Sub;
  }

  lemma UnshiftedSub(s: Block)
    ensures var t := InvSubBytes(InvShiftRows(s));
            && t[0] == InvSub(s[0]) && t[5] == InvSub(s[1]) && t[10] == InvSub(s[2]) && t[15] == InvSub(s[3])
            && t[4] == InvSub(s[4]) && t[9] == InvSub(s[5]) && t[14] == InvSub(s[6]) && t[3] == InvSub(s[7])
            && t[8] == InvSub(s[8]) && t[13] == InvSub(s[9]) && t[2] == InvSub(s[10]) && t[7] == InvSub(s[11])
            && t[12] == InvSub(s[12]) && t[1] == InvSub(s[13]) && t[6] == InvSub(s[14]) && t[11] == InvSub(s[15])
  {
    hide *;
    UnshiftedAt(s, 0, 0); UnshiftedAt(s, 5, 1); UnshiftedAt(s, 10, 2); UnshiftedAt(s, 15, 3);
    UnshiftedAt(s, 4, 4); UnshiftedAt(s, 9, 5); UnshiftedAt(s, 14, 6); UnshiftedAt(s, 3, 7);
    UnshiftedAt(s, 8, 8); UnshiftedAt(s, 13, 9); UnshiftedAt(s, 2, 10); UnshiftedAt(s, 7, 11);
    UnshiftedAt(s, 12, 12); UnshiftedAt(s, 1, 13); UnshiftedAt(s, 6, 14); UnshiftedAt(s, 11, 15);
  }

  lemma UnshiftedAt(s: Block, i: nat, from: nat)
    requires i < 16 && from == (i + 12 * (i % 4)) % 16
    ensures InvSubBytes(InvShiftRows(s))[i] == InvSub(s[from])
  {
    hide InvSub;
  }

  lemma SameBlock(a: Block, b: Block)
    requires a[0] == b[0] && a[1] == b[1] && a[2] == b[2] && a[3] == b[3] && a[4] == b[4] && a[5] == b[5]
    requires a[6] == b[6] && a[7] == b[7] && a[8] == b[8] && a[9] == b[9] && a[10] == b[10] && a[11] == b[11]
    requires a[12] == b[12] && a[13] == b[13] && a[14] == b[14] && a[15] == b[15]
    ensures a == b
  {
  }

  /** mix_sub_columns */
  method MixSubColumns(dt: array<Octet>)
    requires dt.Length == 16
    modifies dt
    ensures dt[..] == MixColumns(ShiftRows(SubBytes(old(dt[..]))))
  {
    hide Sub, Mix, MixColumns, ShiftRows, SubBytes;
    var st := dt[..];
    ghost var t := ShiftRows(SubBytes(st));
    ShiftedSub(st);
    ColumnMixed(t, 0);
    ColumnMixed(t, 4);
    ColumnMixed(t, 8);
    ColumnMixed(t, 12);
    MixSubColumn(dt, 0, st[0], st[5], st[10], st[15]);
    MixSubColumn(dt, 4, st[4], st[9], st[14], st[3]);
    MixSubColumn(dt, 8, st[8], st[13], st[2], st[7]);
    MixSubColumn(dt, 12, st[12], st[1], st[6], st[11]);
    SameBlock(dt[..], MixColumns(t));
  }

  /** inv_mix_sub_columns */
  method InvMixSubColumns(dt: array<Octet>)
    requires dt.Length == 16
    modifies dt
    ensures dt[..] == InvSubBytes(InvShiftRows(InvMixColumns(old(dt[..]))))
  {
    hide InvSub, Unmix, InvMixColumns, InvShiftRows, InvSubBytes;
    var st := dt[..];
    ghost var t := InvMixColumns(st);
    UnshiftedSub(t);
    ColumnUnmixed(st, 0);
    ColumnUnmixed(st, 4);
    ColumnUnmixed(st, 8);
    ColumnUnmixed(st, 12);
    InvMixSubColumn(dt, 0, 5, 10, 15, st[0], st[1], st[2], st[3]);
    InvMixSubColumn(dt, 4, 9, 14, 3, st[4], st[5], st[6], st[7]);
    InvMixSubColumn(dt, 8, 13, 2, 7, st[8], st[9], st[10], st[11]);
    InvMixSubColumn(dt, 12, 1, 6, 11, st[12], st[13], st[14], st[15]);
    SameBlock(dt[..], InvSubBytes(InvShiftRows(t)));
  }

  /** A row that keeps its place. */
  method SubRow(st: array<Octet>, box: Octet -> Octet)
    requires st.Length == 16
    modifies st
    ensures st[0] == box(old(st[0])) && st[4] == box(old(st[4])) && st[8] == box(old(st[8]))
            && st[12] == box(old(st[12]))
    ensures forall i :: 0 <= i < 16 && i % 4 != 0 ==> st[i] == old(st[i])
  {
    st[0] := box(st[0]);
    st[4] := box(st[4]);
    st[8] := box(st[8]);
    st[12] := box(st[12]);
  }

  /** Two bytes of the row that swaps its halves. */
  method SubSwap(st: array<Octet>, box: Octet -> Octet, i: nat, j: nat)
    requires st.Length == 16 && i < 16 && j < 16 && i != j
    modifies st
    ensures st[i] == box(old(st[j])) && st[j] == box(old(st[i]))
    ensures forall k :: 0 <= k < 16 && k != i && k != j ==> st[k] == old(st[k])
  {
    var tt := st[i];
    st[i] := box(st[j]);
    st[j] := box(tt);
  }

  /** A row turned by one place: the byte at each index comes from the next index given. */
  method SubTurnedRow(st: array<Octet>, box: Octet -> Octet, i0: nat, i1: nat, i2: nat, i3: nat)
    requires st.Length == 16 && i0 < 16 && i1 < 16 && i2 < 16 && i3 < 16
    requires i0 != i1 && i0 != i2 && i0 != i3 && i1 != i2 && i1 != i3 && i2 != i3
    modifies st
    ensures st[i0] == box(old(st[i1])) && st[i1] == box(old(st[i2])) && st[i2] == box(old(st[i3]))
            && st[i3] == box(old(st[i0]))
    ensures forall i :: 0 <= i < 16 && i != i0 && i != i1 && i != i2 && i != i3 ==> st[i] == old(st[i])
  {
    var tt := st[i0];
    st[i0] := box(st[i1]);
    st[i1] := box(st[i2]);
    st[i2] := box(st[i3]);
    st[i3] := box(tt);
  }

  /** shift_sub_rows */
  method ShiftSubRows(st: array<Octet>)
    requires st.Length == 16
    modifies st
    ensures st[..] == ShiftRows(SubBytes(old(st[..])))
  {
    hide Sub, ShiftRows, SubBytes;
    ghost var was := st[..];
    ShiftedSub(was);
    SubRow(st, Sub);
    SubTurnedRow(st, Sub, 1, 5, 9, 13);
    SubSwap(st, Sub, 2, 10);
    SubSwap(st, Sub, 6, 14);
    SubTurnedRow(st, Sub, 15, 11, 7, 3);
    SameBlock(st[..], ShiftRows(SubBytes(was)));
  }

  /** inv_shift_sub_rows */
  method InvShiftSubRows(st: array<Octet>)
    requires st.Length == 16
    modifies st
    ensures st[..] == InvSubBytes(InvShiftRows(old(st[..])))
  {
    hide InvSub, InvShiftRows, InvSubBytes;
    ghost var was := st[..];
    UnshiftedSub(was);
    SubRow(st, InvSub);
    SubTurnedRow(st, InvSub, 13, 9, 5, 1);
    SubSwap(st, InvSub, 2, 10);
    SubSwap(st, InvSub, 6, 14);
    SubTurnedRow(st, InvSub, 3, 7, 11, 15);
    SameBlock(st[..], InvSubBytes(InvShiftRows(was)));
  }

  /** add_round_key, byte by byte */
  method AddRoundKey(d: array<Octet>, k: Block)
    requires d.Length == 16
    modifies d
    ensures d[..] == Xor(old(d[..]), k)
  {
    for i := 0 to 16
      invariant forall j :: 0 <= j < i ==> d[j] == Add(old(d[j]), k[j])
      invariant forall j :: i <= j < 16 ==> d[j] == old(d[j])
    {
      d[i] := Add(d[i], k[i]);
    }
  }
}
