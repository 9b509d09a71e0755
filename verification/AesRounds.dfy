/** The round transformations of FIPS 197 on 16-byte states, and that they can be undone.

    Byte `i` of a state is row `i % 4` of column `i / 4`. */
module AesRounds {
  import opened AesField
  import opened AesTables

  type Block = b: seq<Octet> | |b| == 16 witness seq(16, _ => Octet(0))

  function Xor(a: Block, b: Block): Block {
    seq(16, i requires 0 <= i < 16 => Add(a[i], b[i]))
  }

  function SubBytes(s: Block): Block {
    seq(16, i requires 0 <= i < 16 => Sub(s[i]))
  }

  function InvSubBytes(s: Block): Block {
    seq(16, i requires 0 <= i < 16 => InvSub(s[i]))
  }

  /** Row r moves left by r columns. */
  function ShiftRows(s: Block): Block {
    seq(16, i requires 0 <= i < 16 => s[(i + 4 * (i % 4)) % 16])
  }

  function InvShiftRows(s: Block): Block {
    seq(16, i requires 0 <= i < 16 => s[(i + 12 * (i % 4)) % 16])
  }

  /** The next byte of the same column, around. */
  function Next(i: nat): (n: nat)
    requires i < 16
    ensures n < 16
  {
    if i % 4 == 3 then i - 3 else i + 1
  }

  function MixBits(a: bv8, b: bv8, c: bv8, d: bv8): bv8 {
    Plus4(Mul(a, 2), Mul(b, 3), c, d)
  }

  function UnmixBits(a: bv8, b: bv8, c: bv8, d: bv8): bv8 {
    Plus4(Mul(a, 14), Mul(b, 11), Mul(c, 13), Mul(d, 9))
  }

  function Mix(a: Octet, b: Octet, c: Octet, d: Octet): Octet {
    Octet(MixBits(a.bits, b.bits, c.bits, d.bits))
  }

  function Unmix(a: Octet, b: Octet, c: Octet, d: Octet): Octet {
    Octet(UnmixBits(a.bits, b.bits, c.bits, d.bits))
  }

  function MixColumns(s: Block): Block {
    seq(16, i requires 0 <= i < 16 => Mix(s[i], s[Next(i)], s[Next(Next(i))], s[Next(Next(Next(i)))]))
  }

  function InvMixColumns(s: Block): Block {
    seq(16, i requires 0 <= i < 16 => Unmix(s[i], s[Next(i)], s[Next(Next(i))], s[Next(Next(Next(i)))]))
  }

  /* ---- Every transformation is undone by its inverse ---- */

  lemma XorTwice(a: Block, k: Block)
    ensures Xor(Xor(a, k), k) == a
  {
    hide Add;
    forall i | 0 <= i < 16 ensures Add(Add(a[i], k[i]), k[i]) == a[i] { AddTwice(a[i], k[i]); }
  }

  lemma SubBytesUndone(s: Block)
    ensures InvSubBytes(SubBytes(s)) == s
  {
    hide Sub, InvSub;
    forall i | 0 <= i < 16 ensures InvSub(Sub(s[i])) == s[i] { InvSubSub(s[i]); }
  }

  /** Columns and rows of an index taken around the block. */
  lemma Around(q: nat, r: nat)
    requires r < 4
    ensures (4 * q + r) % 16 == 4 * (q % 4) + r && (4 * (q % 4) + r) % 4 == r
  {
    assert 4 * q + r == 16 * (q / 4) + (4 * (q % 4) + r);
  }

  lemma Turned(q: nat, r: nat)
    requires q < 4
    ensures ((q + 3 * r) % 4 + r) % 4 == q
  {
    var m := (q + 3 * r) / 4;
    assert (q + 3 * r) % 4 + r == 4 * (r - m) + q;
  }

  lemma RowIndex(i: nat)
    requires i < 16
    ensures var j := (i + 12 * (i % 4)) % 16;
            j < 16 && (j + 4 * (j % 4)) % 16 == i
  {
    var q, r := i / 4, i % 4;
    Around(q + 3 * r, r);
    Around((q + 3 * r) % 4 + r, r);
    Turned(q, r);
  }

  lemma ShiftRowsUndone(s: Block)
    ensures InvShiftRows(ShiftRows(s)) == s
  {
    forall i | 0 <= i < 16 ensures InvShiftRows(ShiftRows(s))[i] == s[i] {
      RowIndex(i);
      assert ShiftRows(s)[(i + 12 * (i % 4)) % 16] == s[i];
    }
  }

  /* The coefficients of InvMixColumns times those of MixColumns: 1 for the byte itself, 0 for the others. */

  /** The products of the coefficients as sums of doublings: `d4` is `x` doubled four times, and so on. */
  lemma Products(x: bv8)
    ensures var d1 := Double(x);
            var d2, d3, d4 := Double(d1), Double(Double(d1)), Double(Double(Double(d1)));
            && Mul(Mul(x, 2), 14) == Plus(d4, Plus(d3, d2)) && Mul(Mul(x, 2), 11) == Plus(d4, Plus(d2, d1))
            && Mul(Mul(x, 2), 13) == Plus(d4, Plus(d3, d1)) && Mul(Mul(x, 2), 9) == Plus(d4, d1)
            && Mul(Mul(x, 3), 14) == Plus(Plus(d4, Plus(d3, d2)), Plus(d3, Plus(d2, d1)))
            && Mul(Mul(x, 3), 11) == Plus(Plus(d4, Plus(d2, d1)), Plus(d3, Plus(d1, x)))
            && Mul(Mul(x, 3), 13) == Plus(Plus(d4, Plus(d3, d1)), Plus(d3, Plus(d2, x)))
            && Mul(Mul(x, 3), 9) == Plus(Plus(d4, d1), Plus(d3, x))
  {
    hide *;
    MulLow(x);
    var d1 := Double(x);
    MulHigh(d1);
    MulEleven(d1);
    MulThirteen(d1);
    MulHigh(x);
    MulEleven(x);
    MulThirteen(x);
    Factors();
    MulPlus(d1, x, 14);
    MulPlus(d1, x, 11);
    MulPlus(d1, x, 13);
    MulPlus(d1, x, 9);
  }

  lemma Factors()
    ensures Factor(14) && Factor(11) && Factor(13) && Factor(9)
  {
  }

  /* Sums in which terms cancel. */

  lemma SameTwice(a: bv8, b: bv8)
    ensures Plus(a, a) == 0 && Plus(Plus(a, b), b) == a && Plus(Plus(a, b), a) == b && Plus(a, Plus(b, a)) == b
  {
  }

  lemma SameFirst(a: bv8, b: bv8, c: bv8)
    ensures Plus(Plus(a, b), Plus(a, c)) == Plus(b, c) && Plus(Plus(b, a), Plus(a, c)) == Plus(b, c)
  {
  }

  lemma SameInside(a: bv8, b: bv8, c: bv8, e: bv8)
    ensures Plus(Plus(a, Plus(b, c)), Plus(b, e)) == Plus(a, Plus(c, e))
  {
  }

  lemma SameAround(a: bv8, b: bv8, c: bv8, e: bv8)
    ensures Plus(Plus(a, Plus(b, c)), Plus(e, Plus(a, c))) == Plus(b, e)
  {
  }

  lemma SumOne(d0: bv8, d1: bv8, d2: bv8, d3: bv8, d4: bv8)
    ensures Plus4(Plus(d4, Plus(d3, d2)), Plus(d3, Plus(d1, d0)),
                  Plus(d3, Plus(d2, d0)), Plus(Plus(d4, d1), Plus(d3, d0))) == d0
  {
    hide Plus;
    SameInside(d4, d3, d2, Plus(d1, d0));
    SameAround(d3, d2, d0, Plus(d4, d1));
    PlusComm(d4, d1);
    SameInside(d4, d2, Plus(d1, d0), Plus(d1, d4));
    SameFirst(d1, d0, d4);
    PlusComm(d0, d4);
    SameTwice(d4, d0);
    PlusComm(d4, Plus(d0, d4));
  }

  lemma SumTwo(d0: bv8, d1: bv8, d2: bv8, d3: bv8, d4: bv8)
    ensures Plus4(Plus(Plus(d4, Plus(d3, d2)), Plus(d3, Plus(d2, d1))), Plus(d4, Plus(d2, d1)),
                  Plus(d3, Plus(d2, d0)), Plus(d3, d0)) == 0
  {
    hide Plus;
    SameInside(d4, d3, d2, Plus(d2, d1));
    SameFirst(d4, Plus(d2, Plus(d2, d1)), Plus(d2, d1));
    SameTwice(d2, Plus(d2, d1));
    SameFirst(d3, Plus(d2, d0), d0);
    SameTwice(d2, d0);
  }

  lemma SumThree(d0: bv8, d1: bv8, d2: bv8, d3: bv8, d4: bv8)
    ensures Plus4(Plus(d3, Plus(d2, d1)), Plus(Plus(d4, Plus(d2, d1)), Plus(d3, Plus(d1, d0))),
                  Plus(d4, Plus(d3, d1)), Plus(d3, d0)) == 0
  {
    hide Plus;
    var u, v := Plus(d2, d1), Plus(d1, d0);
    SameAcross(d3, u, d4, v);
    SameInside(d4, d3, d1, d0);
    SameTwice(Plus(d4, v), 0);
  }

  lemma SameAcross(a: bv8, u: bv8, b: bv8, v: bv8)
    ensures Plus(Plus(a, u), Plus(Plus(b, u), Plus(a, v))) == Plus(b, v)
  {
  }

  lemma SumFour(d0: bv8, d1: bv8, d2: bv8, d3: bv8, d4: bv8)
    ensures Plus4(Plus(d3, Plus(d2, d1)), Plus(d3, Plus(d1, d0)),
                  Plus(Plus(d4, Plus(d3, d1)), Plus(d3, Plus(d2, d0))), Plus(d4, d1)) == 0
  {
    hide Plus;
    var w := Plus(d2, d0);
    SameFirst(d3, Plus(d2, d1), Plus(d1, d0));
    SameFirst(d1, d2, d0);
    SameInside(d4, d3, d1, w);
    SameFirst(d4, Plus(d1, w), d1);
    SameTwice(d1, w);
    SameTwice(w, 0);
  }

  lemma Coefficients(x: bv8)
    ensures Plus4(Mul(Mul(x, 2), 14), Mul(x, 11), Mul(x, 13), Mul(Mul(x, 3), 9)) == x
    ensures Plus4(Mul(Mul(x, 3), 14), Mul(Mul(x, 2), 11), Mul(x, 13), Mul(x, 9)) == 0
    ensures Plus4(Mul(x, 14), Mul(Mul(x, 3), 11), Mul(Mul(x, 2), 13), Mul(x, 9)) == 0
    ensures Plus4(Mul(x, 14), Mul(x, 11), Mul(Mul(x, 3), 13), Mul(Mul(x, 2), 9)) == 0
  {
    hide *;
    Products(x);
    MulHigh(x);
    MulEleven(x);
    MulThirteen(x);
    var d1 := Double(x);
    var d2, d3, d4 := Double(d1), Double(Double(d1)), Double(Double(Double(d1)));
    SumOne(x, d1, d2, d3, d4);
    SumTwo(x, d1, d2, d3, d4);
    SumThree(x, d1, d2, d3, d4);
    SumFour(x, d1, d2, d3, d4);
  }

  /** Adding two sums of four term by term. */
  lemma Interchange4(x: bv8, y: bv8, z: bv8, w: bv8, x1: bv8, y1: bv8, z1: bv8, w1: bv8)
    ensures Plus(Plus4(x, y, z, w), Plus4(x1, y1, z1, w1)) == Plus4(Plus(x, x1), Plus(y, y1), Plus(z, z1), Plus(w, w1))
  {
    hide Plus;
    Interchange(Plus(x, y), Plus(z, w), Plus(x1, y1), Plus(z1, w1));
    Interchange(x, y, x1, y1);
    Interchange(z, w, z1, w1);
  }

  /** Four rows of four summed by columns. */
  lemma Transpose4(a0: bv8, b0: bv8, c0: bv8, d0: bv8, a1: bv8, b1: bv8, c1: bv8, d1: bv8,
                   a2: bv8, b2: bv8, c2: bv8, d2: bv8, a3: bv8, b3: bv8, c3: bv8, d3: bv8)
    ensures Plus4(Plus4(a0, b0, c0, d0), Plus4(a1, b1, c1, d1), Plus4(a2, b2, c2, d2), Plus4(a3, b3, c3, d3))
            == Plus4(Plus4(a0, a1, a2, a3), Plus4(b0, b1, b2, b3), Plus4(c0, c1, c2, c3), Plus4(d0, d1, d2, d3))
  {
    hide Plus;
    Interchange4(a0, b0, c0, d0, a1, b1, c1, d1);
    Interchange4(a2, b2, c2, d2, a3, b3, c3, d3);
    Interchange4(Plus(a0, a1), Plus(b0, b1), Plus(c0, c1), Plus(d0, d1),
                 Plus(a2, a3), Plus(b2, b3), Plus(c2, c3), Plus(d2, d3));
  }

  /** Unmixing a mixed column gives its first byte. */
  lemma UnmixMixBits(a: bv8, b: bv8, c: bv8, d: bv8)
    ensures UnmixBits(MixBits(a, b, c, d), MixBits(b, c, d, a), MixBits(c, d, a, b), MixBits(d, a, b, c)) == a
  {
    hide Plus, Plus4, Mul, Double;
    RotateSum(Mul(b, 2), Mul(c, 3), d, a);
    RotateSum(Mul(c, 2), Mul(d, 3), a, b);
    RotateSum(b, Mul(c, 2), Mul(d, 3), a);
    RotateSum(Mul(a, 3), b, c, Mul(d, 2));
    MulPlus4(Mul(a, 2), Mul(b, 3), c, d, 14);
    MulPlus4(a, Mul(b, 2), Mul(c, 3), d, 11);
    MulPlus4(a, b, Mul(c, 2), Mul(d, 3), 13);
    MulPlus4(Mul(a, 3), b, c, Mul(d, 2), 9);
    Transpose4(Mul(Mul(a, 2), 14), Mul(Mul(b, 3), 14), Mul(c, 14), Mul(d, 14),
               Mul(a, 11), Mul(Mul(b, 2), 11), Mul(Mul(c, 3), 11), Mul(d, 11),
               Mul(a, 13), Mul(b, 13), Mul(Mul(c, 2), 13), Mul(Mul(d, 3), 13),
               Mul(Mul(a, 3), 9), Mul(b, 9), Mul(c, 9), Mul(Mul(d, 2), 9));
    Coefficients(a);
    Coefficients(b);
    Coefficients(c);
    Coefficients(d);
    OnlyFirst(a);
  }

  lemma UnmixMix(a: Octet, b: Octet, c: Octet, d: Octet)
    ensures Unmix(Mix(a, b, c, d), Mix(b, c, d, a), Mix(c, d, a, b), Mix(d, a, b, c)) == a
  {
    hide MixBits, UnmixBits;
    UnmixMixBits(a.bits, b.bits, c.bits, d.bits);
  }

  lemma OnlyFirst(a: bv8)
    ensures Plus4(a, 0, 0, 0) == a
  {
  }

  lemma RotateSum(x: bv8, y: bv8, z: bv8, w: bv8)
    ensures Plus4(x, y, z, w) == Plus4(w, x, y, z)
  {
    hide Plus;
    PlusComm(Plus(Plus(x, y), z), w);
    PlusAssoc(Plus(x, y), z, w);
    PlusAssoc(w, x, Plus(y, z));
    PlusAssoc(x, y, z);
  }

  lemma NextFour(i: nat)
    requires i < 16
    ensures Next(Next(Next(Next(i)))) == i
  {
  }

  lemma MixedAt(s: Block, i: nat)
    requires i < 16
    ensures var j := Next(i);
            var k := Next(j);
            var l := Next(k);
            && Next(l) == i && MixColumns(s)[i] == Mix(s[i], s[j], s[k], s[l])
  {
    NextFour(i);
    hide Mix, Next;
  }

  lemma MixColumnsUndone(s: Block)
    ensures InvMixColumns(MixColumns(s)) == s
  {
    hide Mix, Unmix, Next, MixColumns;
    var t := MixColumns(s);
    forall i | 0 <= i < 16 ensures InvMixColumns(t)[i] == s[i] {
      var j := Next(i);
      var k := Next(j);
      var l := Next(k);
      MixedAt(s, i);
      MixedAt(s, j);
      MixedAt(s, k);
      MixedAt(s, l);
      UnmixMix(s[i], s[j], s[k], s[l]);
    }
  }
}
