/** The block arithmetic of EAX: doubling in GF(2^128) and the big-endian counter. */
module EaxMath {
  import opened AesField
  import opened AesRounds

  /* ---- Doubling (section 2.3 of RFC 4493) ---- */

  /** One byte of a doubled block: shifted left, with the top bit of the byte behind. */
  function ShiftedByte(x: Octet, carry: bv8): Octet {
    Octet((x.bits << 1) | carry)
  }

  function TopBit(x: Octet): bv8 {
    x.bits >> 7
  }

  function CarryInto(b: Block, i: nat): bv8
    requires i < 16
  {
    if i == 15 then 0 else TopBit(b[i + 1])
  }

  function ShiftLeft(b: Block): Block {
    seq(16, i requires 0 <= i < 16 => ShiftedByte(b[i], CarryInto(b, i)))
  }

  function PolyDouble(b: Block): Block {
    var s := ShiftLeft(b);
    if TopBit(b[0]) != 0 then s[15 := Add(s[15], Octet(0x87))] else s
  }

  /** poly_double: a loop from the last byte to the first, carrying the top bits. */
  method DoubleBlock(input: Block) returns (output: Block)
    ensures output == PolyDouble(input)
  {
    hide ShiftedByte, TopBit, Add;
    var doXor := TopBit(input[0]) != 0;
    var out: seq<Octet> := input;
    var carry: bv8 := 0;
    var j := 16;
    while j != 0
      invariant 0 <= j <= 16 && |out| == 16
      invariant forall i :: 0 <= i < j ==> out[i] == input[i]
      invariant forall i :: j <= i < 16 ==> out[i] == ShiftedByte(input[i], CarryInto(input, i))
      invariant carry == if j == 16 then 0 else TopBit(input[j])
    {
      var temp := out[j - 1];
      out := out[j - 1 := ShiftedByte(temp, carry)];
      carry := TopBit(temp);
      j := j - 1;
    }
    assert out == ShiftLeft(input);
    if doXor {
      out := out[15 := Add(out[15], Octet(0x87))];
    }
    output := out;
  }

  /** Bit `k` of a block, counted from the most significant one. */
  function Mask(k: nat): bv8
    requires k < 8
  {
    if k == 0 then 0x80 else if k == 1 then 0x40 else if k == 2 then 0x20 else if k == 3 then 0x10
    else if k == 4 then 0x08 else if k == 5 then 0x04 else if k == 6 then 0x02 else 0x01
  }

  predicate Has(x: Octet, j: nat)
    requires j < 8
  {
    x.bits & Mask(j) != 0
  }

  predicate Bit(b: Block, k: nat)
    requires k < 128
  {
    Has(b[k / 8], k % 8)
  }

  /** The exponents of x^128 + x^7 + x^2 + x + 1 below 128, as bit positions. */
  predicate Reduced(k: nat) {
    k == 120 || k == 125 || k == 126 || k == 127
  }

  lemma ShiftedBit(x: Octet, carry: bv8, j: nat)
    requires j < 8 && carry <= 1
    ensures Has(ShiftedByte(x, carry), j) <==> if j < 7 then Has(x, j + 1) else carry != 0
  {
  }

  lemma TopBitIs(x: Octet)
    ensures TopBit(x) <= 1 && (TopBit(x) != 0 <==> Has(x, 0))
  {
  }

  lemma ReducedBit(x: Octet, j: nat)
    requires j < 8
    ensures Has(Add(x, Octet(0x87)), j) <==> (Has(x, j) != (j == 0 || j == 5 || j == 6 || j == 7))
  {
  }

  lemma BitAt(b: Block, i: nat, j: nat)
    requires i < 16 && j < 8
    ensures Bit(b, 8 * i + j) <==> Has(b[i], j)
  {
    hide Has;
    assert (8 * i + j) / 8 == i && (8 * i + j) % 8 == j;
  }

  lemma ShiftBitAt(b: Block, i: nat, j: nat)
    requires i < 16 && j < 8
    ensures Has(ShiftLeft(b)[i], j) <==> if j < 7 then Has(b[i], j + 1) else i < 15 && Has(b[i + 1], 0)
  {
    hide ShiftedByte, TopBit, Has;
    TopBitIs(if i < 15 then b[i + 1] else b[15]);
    ShiftedBit(b[i], CarryInto(b, i), j);
  }

  lemma ShiftBits(b: Block, k: nat)
    requires k < 128
    ensures Bit(ShiftLeft(b), k) <==> k < 127 && Bit(b, k + 1)
  {
    hide ShiftLeft, Has, Bit;
    var i, j := k / 8, k % 8;
    assert k == 8 * i + j;
    BitAt(ShiftLeft(b), i, j);
    ShiftBitAt(b, i, j);
    if j < 7 {
      BitAt(b, i, j + 1);
    } else if i < 15 {
      BitAt(b, i + 1, 0);
    }
  }

  lemma ReducedAt(i: nat, j: nat)
    requires i < 16 && j < 8
    ensures Reduced(8 * i + j) <==> i == 15 && (j == 0 || j == 5 || j == 6 || j == 7)
  {
  }

  lemma DoubleBitAt(b: Block, i: nat, j: nat)
    requires i < 16 && j < 8
    ensures Has(PolyDouble(b)[i], j)
            <==> (Has(ShiftLeft(b)[i], j) != (Has(b[0], 0) && i == 15 && (j == 0 || j == 5 || j == 6 || j == 7)))
  {
    hide TopBit, ShiftLeft, Has, Add, PolyDouble;
    DoubleByteAt(b, i);
    TopBitIs(b[0]);
    ReducedBit(ShiftLeft(b)[15], j);
  }

  lemma DoubleByteAt(b: Block, i: nat)
    requires i < 16
    ensures PolyDouble(b)[i]
            == if TopBit(b[0]) != 0 && i == 15 then Add(ShiftLeft(b)[15], Octet(0x87)) else ShiftLeft(b)[i]
  {
    hide TopBit, ShiftLeft, Add;
  }

  /** poly_double multiplies by x modulo x^128 + x^7 + x^2 + x + 1. */
  lemma DoubleIsTimesX(b: Block, k: nat)
    requires k < 128
    ensures Bit(PolyDouble(b), k) <==> ((k < 127 && Bit(b, k + 1)) != (Bit(b, 0) && Reduced(k)))
  {
    hide ShiftLeft, Has, Bit, PolyDouble, Reduced;
    var i, j := k / 8, k % 8;
    assert k == 8 * i + j;
    ShiftBits(b, k);
    BitAt(b, 0, 0);
    BitAt(ShiftLeft(b), i, j);
    BitAt(PolyDouble(b), i, j);
    DoubleBitAt(b, i, j);
    ReducedAt(i, j);
  }

  /* ---- The counter: a big-endian number modulo 2^128 ---- */

  function Value(b: seq<Octet>): (v: nat) {
    if b == [] then 0 else 256 * Value(b[..|b| - 1]) + b[|b| - 1].bits as nat
  }

  function Range(n: nat): (r: nat)
    ensures r > 0
  {
    if n == 0 then 1 else 256 * Range(n - 1)
  }

  /** The bytes up to `j` counted up by one, with the carry stopping at the first byte that does not wrap. */
  function CountUp(b: seq<Octet>): (r: seq<Octet>)
    ensures |r| == |b|
  {
    if b == [] then []
    else
      var last := Octet(b[|b| - 1].bits + 1);
      if last.bits != 0 then b[..|b| - 1] + [last] else CountUp(b[..|b| - 1]) + [last]
  }

  lemma Successor(x: bv8)
    ensures (x + 1) as nat == if x == 255 then 0 else x as nat + 1
    ensures x + 1 == 0 <==> x == 255
  {
  }

  lemma ValueAppend(b: seq<Octet>, last: Octet)
    ensures Value(b + [last]) == 256 * Value(b) + last.bits as nat
  {
    assert (b + [last])[..|b|] == b;
  }

  lemma {:induction false} ValueBelow(b: seq<Octet>)
    ensures Value(b) < Range(|b|)
  {
    if b != [] { ValueBelow(b[..|b| - 1]); }
  }

  function Number(x: Octet): (n: nat)
    ensures n < 256
  {
    ByteBelow(x.bits);
    x.bits as nat
  }

  lemma ByteBelow(x: bv8)
    ensures x as nat < 256
  {
  }

  lemma CountUpLast(front: seq<Octet>, last: Octet)
    ensures var next := Octet(last.bits + 1);
            CountUp(front + [last]) == if Number(last) != 255 then front + [next] else CountUp(front) + [next]
    ensures Number(Octet(last.bits + 1)) == if Number(last) == 255 then 0 else Number(last) + 1
  {
    Successor(last.bits);
    var b := front + [last];
    assert b[..|b| - 1] == front && b[|b| - 1] == last;
  }

  lemma NumberAppend(b: seq<Octet>, last: Octet)
    ensures Value(b + [last]) == 256 * Value(b) + Number(last)
  {
    ValueAppend(b, last);
  }

  /** Counting up adds one modulo 256 to the number of bytes. */
  lemma {:induction false} CountUpValue(b: seq<Octet>)
    ensures Value(CountUp(b)) == if Value(b) + 1 == Range(|b|) then 0 else Value(b) + 1
  {
    hide CountUp, Value, Number, Range;
    if b == [] {
      NoBytes();
    } else {
      var front, last := b[..|b| - 1], b[|b| - 1];
      assert b == front + [last];
      var next := Octet(last.bits + 1);
      CountUpLast(front, last);
      NumberAppend(front, last);
      NumberAppend(front, next);
      NumberAppend(CountUp(front), next);
      ValueBelow(front);
      RangeStep(|b|);
      CountUpValue(front);
      CarryArithmetic(Value(front), Number(last), Range(|front|), Value(CountUp(front)));
    }
  }

  lemma NoBytes()
    ensures Value(CountUp([])) == 0 && Value([]) + 1 == Range(0)
  {
  }

  lemma RangeStep(n: nat)
    requires n > 0
    ensures Range(n) == 256 * Range(n - 1)
  {
  }

  /** Adding one to 256 * v + n, with a carry into v. */
  lemma CarryArithmetic(v: nat, n: nat, r: nat, c: nat)
    requires v < r && n < 256 && c == if v + 1 == r then 0 else v + 1
    ensures (if n != 255 then 256 * v + (n + 1) else 256 * c)
            == if 256 * v + n + 1 == 256 * r then 0 else 256 * v + n + 1
  {
  }

  /** The for loop of do_ctr over the bytes of the counter. */
  method Increment(state: array<Octet>)
    modifies state
    ensures state[..] == CountUp(old(state[..]))
  {
    hide CountUp;
    ghost var was, tail: seq<Octet> := state[..], [];
    var j: nat := state.Length;
    assert was[..j] == was && was + [] == was && CountUp(was) + [] == CountUp(was);
    while j > 0
      invariant j <= |was| == state.Length
      invariant state[..] == was[..j] + tail && CountUp(was) == CountUp(was[..j]) + tail
      decreases j
    {
      var next := Octet(state[j - 1].bits + 1);
      CountUpAt(was, j, next, tail);
      state[j - 1] := next;
      tail := [next] + tail;
      assert state[..] == was[..j - 1] + tail;
      if next.bits != 0 {
        return;
      }
      j := j - 1;
    }
    CountUpEnd(was, tail);
  }

  lemma CountUpAt(b: seq<Octet>, j: nat, next: Octet, tail: seq<Octet>)
    requires 0 < j <= |b| && next == Octet(b[j - 1].bits + 1)
    ensures CountUp(b[..j]) + tail
            == (if next.bits != 0 then b[..j - 1] else CountUp(b[..j - 1])) + ([next] + tail)
  {
    assert b[..j][..j - 1] == b[..j - 1] && b[..j][j - 1] == b[j - 1];
  }

  lemma CountUpEnd(b: seq<Octet>, tail: seq<Octet>)
    ensures CountUp(b[..0]) + tail == b[..0] + tail
  {
  }
}
