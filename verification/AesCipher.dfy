/** The block cipher of section 5 of FIPS 197: key expansion, cipher and inverse cipher.

    `DecryptEncrypt` says that the inverse cipher undoes the cipher for any round keys. */
module AesCipher {
  import opened AesField
  import opened AesTables
  import opened AesRounds

  datatype Word = Word(b0: Octet, b1: Octet, b2: Octet, b3: Octet)

  /* ---- Key expansion (section 5.2) ---- */

  predicate KeySize(n: nat) {
    n == 16 || n == 24 || n == 32
  }

  function Round(keySize: nat): nat {
    keySize / 4 + 6
  }

  function WordAt(b: seq<Octet>, i: nat): Word
    requires 4 * i + 4 <= |b|
  {
    Word(b[4 * i], b[4 * i + 1], b[4 * i + 2], b[4 * i + 3])
  }

  function SubWord(w: Word): Word {
    Word(Sub(w.b0), Sub(w.b1), Sub(w.b2), Sub(w.b3))
  }

  function RotWord(w: Word): Word {
    Word(w.b1, w.b2, w.b3, w.b0)
  }

  function XorWord(v: Word, w: Word): Word {
    Word(Add(v.b0, w.b0), Add(v.b1, w.b1), Add(v.b2, w.b2), Add(v.b3, w.b3))
  }

  /** The first byte of the round constant: x to the power j - 1. */
  function Rcon(j: nat): Octet {
    if j <= 1 then Octet(1) else Octet(Double(Rcon(j - 1).bits))
  }

  /** What the word before becomes before it is added at position `i`. */
  function Mangled(w: Word, i: nat, nk: nat): Word
    requires nk == 4 || nk == 6 || nk == 8
  {
    if i % nk == 0 then XorWord(SubWord(RotWord(w)), Word(Rcon(i / nk), Octet(0), Octet(0), Octet(0)))
    else if nk > 6 && i % nk == 4 then SubWord(w)
    else w
  }

  /** Word `i` of the expanded key. */
  function KeyWord(key: seq<Octet>, i: nat): Word
    requires KeySize(|key|)
  {
    var nk := |key| / 4;
    if i < nk then WordAt(key, i) else XorWord(KeyWord(key, i - nk), Mangled(KeyWord(key, i - 1), i, nk))
  }

  function WordBytes(w: Word): seq<Octet> {
    [w.b0, w.b1, w.b2, w.b3]
  }

  /** The key of round `r`: four words. */
  function RoundKey(key: seq<Octet>, r: nat): Block
    requires KeySize(|key|)
  {
    WordBytes(KeyWord(key, 4 * r)) + WordBytes(KeyWord(key, 4 * r + 1))
    + WordBytes(KeyWord(key, 4 * r + 2)) + WordBytes(KeyWord(key, 4 * r + 3))
  }

  /* ---- Cipher (section 5.1) and inverse cipher (section 5.3), for round keys `k` ---- */

  function Rounds(s: Block, k: seq<Block>, r: nat): Block
    requires r < |k|
  {
    if r == 0 then Xor(s, k[0]) else Xor(MixColumns(ShiftRows(SubBytes(Rounds(s, k, r - 1)))), k[r])
  }

  function Cipher(s: Block, k: seq<Block>): Block
    requires |k| >= 2
  {
    Xor(ShiftRows(SubBytes(Rounds(s, k, |k| - 2))), k[|k| - 1])
  }

  function Unshifted(s: Block): Block {
    InvSubBytes(InvShiftRows(s))
  }

  function InvRounds(s: Block, k: seq<Block>, r: nat): Block
    requires r < |k|
    decreases r
  {
    if r == 0 then Xor(s, k[0]) else InvRounds(Unshifted(InvMixColumns(Xor(s, k[r]))), k, r - 1)
  }

  function InvCipher(s: Block, k: seq<Block>): Block
    requires |k| >= 2
  {
    InvRounds(Unshifted(Xor(s, k[|k| - 1])), k, |k| - 2)
  }

  lemma RoundsUnfold(s: Block, k: seq<Block>, r: nat)
    requires r < |k|
    ensures Rounds(s, k, 0) == Xor(s, k[0])
    ensures r > 0 ==> Rounds(s, k, r) == Xor(MixColumns(ShiftRows(SubBytes(Rounds(s, k, r - 1)))), k[r])
  {
    hide Xor, MixColumns, ShiftRows, SubBytes;
  }

  lemma InvRoundsUnfold(s: Block, k: seq<Block>, r: nat)
    requires r < |k|
    ensures InvRounds(s, k, 0) == Xor(s, k[0])
    ensures r > 0 ==> InvRounds(s, k, r) == InvRounds(Unshifted(InvMixColumns(Xor(s, k[r]))), k, r - 1)
  {
    hide Xor, InvMixColumns, Unshifted;
  }

  lemma ShiftSubUndone(s: Block)
    ensures Unshifted(ShiftRows(SubBytes(s))) == s
  {
    hide ShiftRows, SubBytes, InvShiftRows, InvSubBytes;
    ShiftRowsUndone(SubBytes(s));
    SubBytesUndone(s);
  }

  lemma {:induction false} RoundsUndone(s: Block, k: seq<Block>, r: nat)
    requires r < |k|
    ensures InvRounds(Rounds(s, k, r), k, r) == s
    decreases r
  {
    hide Xor, MixColumns, InvMixColumns, ShiftRows, SubBytes, Unshifted;
    if r == 0 {
      XorTwice(s, k[0]);
    } else {
      var before := Rounds(s, k, r - 1);
      XorTwice(MixColumns(ShiftRows(SubBytes(before))), k[r]);
      MixColumnsUndone(ShiftRows(SubBytes(before)));
      ShiftSubUndone(before);
      RoundsUndone(s, k, r - 1);
    }
  }

  /** The inverse cipher undoes the cipher, whatever the round keys. */
  lemma DecryptEncrypt(s: Block, k: seq<Block>)
    requires |k| >= 2
    ensures InvCipher(Cipher(s, k), k) == s
  {
    hide Xor, ShiftRows, SubBytes, Unshifted, Rounds, InvRounds;
    var before := Rounds(s, k, |k| - 2);
    XorTwice(ShiftRows(SubBytes(before)), k[|k| - 1]);
    ShiftSubUndone(before);
    RoundsUndone(s, k, |k| - 2);
  }

  /* ---- With a key ---- */

  function RoundKeys(key: seq<Octet>): (k: seq<Block>)
    requires KeySize(|key|)
    ensures |k| == Round(|key|) + 1
  {
    seq(Round(|key|) + 1, r requires 0 <= r => RoundKey(key, r))
  }

  function Encrypt(key: seq<Octet>, s: Block): Block
    requires KeySize(|key|)
  {
    Cipher(s, RoundKeys(key))
  }

  function Decrypt(key: seq<Octet>, s: Block): Block
    requires KeySize(|key|)
  {
    InvCipher(s, RoundKeys(key))
  }
}
