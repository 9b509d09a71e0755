/** The AES context of the controller: key schedule, encryption and decryption of blocks, and CBC. */
module Aes {
  import opened AesField
  import opened AesTables
  import opened AesRounds
  import opened AesState
  import opened AesCipher

  const N_BLOCK: nat := 16
  const N_MAX_ROUNDS: nat := 14

  function KeyBytes(keylen: nat): nat {
    if keylen == 16 || keylen == 128 then 16
    else if keylen == 24 || keylen == 192 then 24
    else if keylen == 32 || keylen == 256 then 32
    else 0
  }

  /** Doubling a round constant. */
  function Twice(x: Octet): Octet {
    Octet(F2(x.bits))
  }

  class AesContext {
    const ksch: array<Octet>
    var rnd: nat

    constructor ()
      ensures ksch.Length == (N_MAX_ROUNDS + 1) * N_BLOCK && rnd == 0 && fresh(ksch)
    {
      ksch := new Octet[(N_MAX_ROUNDS + 1) * N_BLOCK](_ => Octet(0));
      rnd := 0;
    }

    /** The schedule holds the expanded `key`. */
    ghost predicate Keyed(key: seq<Octet>)
      reads this, ksch
    {
      && KeySize(|key|) && ksch.Length == (N_MAX_ROUNDS + 1) * N_BLOCK && rnd == Round(|key|)
      && ScheduleUpTo(ksch[..], key, 4 * (rnd + 1))
    }

    /** aes_set_key: the length may be given in bytes or bits; any other length is refused. */
    method SetKey(key: seq<Octet>, keylen: nat) returns (status: int)
      requires KeyBytes(keylen) <= |key| && ksch.Length == (N_MAX_ROUNDS + 1) * N_BLOCK
      modifies this`rnd, ksch
      ensures status == 0 <==> KeyBytes(keylen) != 0
      ensures status == 0 ==> Keyed(key[..KeyBytes(keylen)])
      ensures status != 0 ==> status == -1 && rnd == 0
    {
      var n := KeyBytes(keylen);
      if n == 0 {
        rnd := 0;
        return -1;
      }
      assert n == 16 || n == 24 || n == 32;
      ghost var k := key[..n];
      forall i | 0 <= i < n {
        ksch[i] := key[i];
      }
      StartsWithKey(ksch[..], k);
      hide ScheduleUpTo, Rcon, KeyBytes;
      var hi := (n + 28) * 4;
      rnd := hi / 16 - 1;
      var cc, rc := n, Octet(1);
      while cc < hi
        invariant n <= cc <= hi && cc % 4 == 0 && rnd == hi / 16 - 1
        invariant ScheduleUpTo(ksch[..], k, cc / 4)
        invariant rc == Rcon(Turns(cc, n))
      {
        rc := NextWord(cc, n, rc, k);
        cc := cc + 4;
      }
      status := 0;
    }

    /** What the loop of aes_set_key adds to the word a key length back, and the next round constant. */
    method Mangle(cc: nat, keylen: nat, rc: Octet) returns (t: Word, newRc: Octet)
      requires KeySize(keylen) && keylen <= cc <= ksch.Length && cc % 4 == 0
      requires rc == Rcon(Turns(cc, keylen))
      ensures t == Mangled(WordAt(ksch[..], cc / 4 - 1), cc / 4, keylen / 4)
      ensures newRc == Rcon(Turns(cc + 4, keylen))
    {
      t := Word(ksch[cc - 4], ksch[cc - 3], ksch[cc - 2], ksch[cc - 1]);
      ghost var before := t;
      assert before == WordAt(ksch[..], cc / 4 - 1);
      hide Sub, Twice, Rcon, Mangled, WordAt, Turns, SubWord;
      RconStep(cc, keylen);
      t, newRc := MangleBytes(t, cc % keylen == 0, keylen > 24 && cc % keylen == 16, rc);
      MangledIs(before, t, cc, keylen, rc);
    }

    static method MangleBytes(before: Word, first: bool, middle: bool, rc: Octet) returns (t: Word, newRc: Octet)
      ensures t == if first then Word(Add(Sub(before.b1), rc), Sub(before.b2), Sub(before.b3), Sub(before.b0))
                   else if middle then SubWord(before) else before
      ensures newRc == if first then Twice(rc) else rc
    {
      hide Sub, Twice;
      t, newRc := before, rc;
      if first {
        t := Word(Add(Sub(t.b1), rc), Sub(t.b2), Sub(t.b3), Sub(t.b0));
        newRc := Twice(rc);
      } else if middle {
        t := Word(Sub(t.b0), Sub(t.b1), Sub(t.b2), Sub(t.b3));
      }
    }

    method StoreWord(cc: nat, w: Word)
      requires cc + 4 <= ksch.Length
      modifies ksch
      ensures ksch[..] == old(ksch[..])[..cc] + WordBytes(w) + old(ksch[..])[cc + 4..]
    {
      ksch[cc] := w.b0;
      ksch[cc + 1] := w.b1;
      ksch[cc + 2] := w.b2;
      ksch[cc + 3] := w.b3;
    }

    /** One turn of the loop of aes_set_key. */
    method NextWord(cc: nat, keylen: nat, rc: Octet, ghost k: seq<Octet>) returns (newRc: Octet)
      requires KeySize(keylen) && |k| == keylen && keylen <= cc && cc + 4 <= ksch.Length && cc % 4 == 0
      requires ScheduleUpTo(ksch[..], k, cc / 4) && rc == Rcon(Turns(cc, keylen))
      modifies ksch
      ensures ScheduleUpTo(ksch[..], k, cc / 4 + 1)
      ensures newRc == Rcon(Turns(cc + 4, keylen))
    {
      hide Rcon, Mangled, ScheduleUpTo, XorWord, WordBytes, WordAt, Turns;
      var t;
      t, newRc := Mangle(cc, keylen, rc);
      assert (cc - keylen) / 4 == cc / 4 - keylen / 4 && 4 * (cc / 4) == cc;
      ghost var was := ksch[..];
      var w := XorAt(cc - keylen, t);
      StoreWord(cc, w);
      StoredWord(was, cc / 4, w);
      ScheduleGrows(was, ksch[..], k, cc / 4);
    }

    method XorAt(tt: nat, t: Word) returns (w: Word)
      requires tt % 4 == 0 && tt + 4 <= ksch.Length
      ensures w == XorWord(WordAt(ksch[..], tt / 4), t)
    {
      w := Word(Add(ksch[tt], t.b0), Add(ksch[tt + 1], t.b1), Add(ksch[tt + 2], t.b2), Add(ksch[tt + 3], t.b3));
    }

    /** The round key at its place in the schedule. */
    method KeyAt(r: nat, ghost key: seq<Octet>) returns (k: Block)
      requires Keyed(key) && r <= rnd
      ensures k == RoundKeys(key)[r]
    {
      k := ksch[r * N_BLOCK..r * N_BLOCK + N_BLOCK];
      KeyFound(ksch[..], key, r, 4 * (rnd + 1));
    }

    /** aesencrypt: refuses without a key. */
    method EncryptBlock(input: Block, ghost key: seq<Octet>) returns (status: int, output: Block)
      requires rnd == 0 || Keyed(key)
      ensures status == if rnd == 0 then -1 else 0
      ensures rnd != 0 ==> output == Encrypt(key, input)
    {
      if rnd == 0 {
        return -1, input;
      }
      status := 0;
      output := EncryptKeyed(input, key);
    }

    method EncryptKeyed(input: Block, ghost key: seq<Octet>) returns (output: Block)
      requires Keyed(key) && rnd >= 2
      ensures output == Encrypt(key, input)
    {
      hide *;
      var s1 := FirstRound(input, key);
      var r := 1;
      while r < rnd
        invariant 1 <= r <= rnd && Keyed(key) && fresh(s1) && s1.Length == N_BLOCK
        invariant AfterRound(s1[..], key, input, r - 1)
      {
        MiddleRound(s1, r, input, key);
        r := r + 1;
      }
      output := LastRound(s1, input, key);
    }

    method FirstRound(input: Block, ghost key: seq<Octet>) returns (s1: array<Octet>)
      requires Keyed(key)
      ensures fresh(s1) && s1.Length == N_BLOCK && Keyed(key) && AfterRound(s1[..], key, input, 0)
    {
      RoundsUnfold(input, RoundKeys(key), 0);
      hide Keyed, Xor, RoundKeys, Rounds;
      s1 := new Octet[N_BLOCK](_ => Octet(0));
      var k := KeyAt(0, key);
      CopyAndKey(s1, input, k);
    }

    method MiddleRound(s1: array<Octet>, r: nat, ghost input: Block, ghost key: seq<Octet>)
      requires Keyed(key) && 1 <= r <= rnd && s1.Length == N_BLOCK && s1 != ksch
      requires AfterRound(s1[..], key, input, r - 1)
      modifies s1
      ensures Keyed(key) && AfterRound(s1[..], key, input, r)
    {
      RoundsUnfold(input, RoundKeys(key), r);
      hide Keyed, Xor, RoundKeys, Rounds, MixColumns, ShiftRows, SubBytes;
      MixSubColumns(s1);
      var k := KeyAt(r, key);
      AddRoundKey(s1, k);
    }

    method LastRound(s1: array<Octet>, ghost input: Block, ghost key: seq<Octet>) returns (output: Block)
      requires Keyed(key) && rnd >= 2 && s1.Length == N_BLOCK && s1 != ksch
      requires AfterRound(s1[..], key, input, rnd - 1)
      modifies s1
      ensures output == Encrypt(key, input)
    {
      EncryptLast(s1[..], key, input);
      assert rnd == Round(|key|);
      hide *;
      ShiftSubRows(s1);
      var k := KeyAt(rnd, key);
      AddRoundKey(s1, k);
      output := s1[..];
    }

    /** aesdecrypt */
    method DecryptBlock(input: Block, ghost key: seq<Octet>) returns (status: int, output: Block)
      requires rnd == 0 || Keyed(key)
      ensures status == if rnd == 0 then -1 else 0
      ensures rnd != 0 ==> output == Decrypt(key, input)
    {
      if rnd == 0 {
        return -1, input;
      }
      status := 0;
      output := DecryptKeyed(input, key);
    }

    method DecryptKeyed(input: Block, ghost key: seq<Octet>) returns (output: Block)
      requires Keyed(key) && rnd >= 2
      ensures output == Decrypt(key, input)
    {
      hide *;
      var s1 := FirstInvRound(input, key);
      var r := rnd - 1;
      while r != 0
        invariant 0 <= r < rnd && Keyed(key) && fresh(s1) && s1.Length == N_BLOCK
        invariant BeforeInvRound(s1[..], key, input, r)
        decreases r
      {
        MiddleInvRound(s1, r, input, key);
        r := r - 1;
      }
      output := LastInvRound(s1, input, key);
    }

    method FirstInvRound(input: Block, ghost key: seq<Octet>) returns (s1: array<Octet>)
      requires Keyed(key) && rnd >= 2
      ensures fresh(s1) && s1.Length == N_BLOCK && Keyed(key) && BeforeInvRound(s1[..], key, input, rnd - 1)
    {
      hide *;
      KeyedRounds(key);
      s1 := new Octet[N_BLOCK](_ => Octet(0));
      var k := KeyAt(rnd, key);
      CopyAndKey(s1, input, k);
      InvShiftSubRows(s1);
      DecryptFirst(key, input);
    }

    lemma KeyedRounds(key: seq<Octet>)
      requires Keyed(key)
      ensures KeySize(|key|) && rnd == Round(|key|) && N_BLOCK == 16
    {
    }

    method MiddleInvRound(s1: array<Octet>, r: nat, ghost input: Block, ghost key: seq<Octet>)
      requires Keyed(key) && 1 <= r <= rnd && s1.Length == N_BLOCK && s1 != ksch
      requires BeforeInvRound(s1[..], key, input, r)
      modifies s1
      ensures Keyed(key) && BeforeInvRound(s1[..], key, input, r - 1)
    {
      InvRoundsUnfold(s1[..], RoundKeys(key), r);
      hide Keyed, Xor, InvMixColumns, InvShiftRows, InvSubBytes, RoundKeys, InvRounds, Decrypt;
      var k := KeyAt(r, key);
      AddRoundKey(s1, k);
      InvMixSubColumns(s1);
    }

    method LastInvRound(s1: array<Octet>, ghost input: Block, ghost key: seq<Octet>) returns (output: Block)
      requires Keyed(key) && s1.Length == N_BLOCK && s1 != ksch && BeforeInvRound(s1[..], key, input, 0)
      modifies s1
      ensures output == Decrypt(key, input)
    {
      InvRoundsUnfold(s1[..], RoundKeys(key), 0);
      hide Keyed, Xor, RoundKeys, InvRounds, Decrypt;
      var k := KeyAt(0, key);
      AddRoundKey(s1, k);
      output := s1[..];
    }
  }

  /** The state after round `r` of encrypting `input`. */
  ghost predicate AfterRound(s: seq<Octet>, key: seq<Octet>, input: Block, r: nat) {
    KeySize(|key|) && r < |RoundKeys(key)| && s == Rounds(input, RoundKeys(key), r)
  }

  lemma EncryptLast(s: Block, key: seq<Octet>, input: Block)
    requires KeySize(|key|) && AfterRound(s, key, input, Round(|key|) - 1)
    ensures Encrypt(key, input) == Xor(ShiftRows(SubBytes(s)), RoundKeys(key)[Round(|key|)])
  {
    hide Xor, ShiftRows, SubBytes, Rounds;
  }

  /** The state from which `r` rounds and a last key lead to the decryption of `input`. */
  ghost predicate BeforeInvRound(s: seq<Octet>, key: seq<Octet>, input: Block, r: nat) {
    && KeySize(|key|) && r < |RoundKeys(key)| && |s| == N_BLOCK
    && InvRounds(s, RoundKeys(key), r) == Decrypt(key, input)
  }

  lemma DecryptFirst(key: seq<Octet>, input: Block)
    requires KeySize(|key|) && Round(|key|) >= 2
    ensures var s := InvSubBytes(InvShiftRows(Xor(input, RoundKeys(key)[Round(|key|)])));
            BeforeInvRound(s, key, input, Round(|key|) - 1)
  {
    hide Xor, InvShiftRows, InvSubBytes, RoundKeys, InvRounds, Round;
  }

  /** copy_and_key, byte by byte */
  method CopyAndKey(d: array<Octet>, s: Block, k: Block)
    requires d.Length == N_BLOCK
    modifies d
    ensures d[..] == Xor(s, k)
  {
    for i := 0 to N_BLOCK
      invariant forall j :: 0 <= j < i ==> d[j] == Add(s[j], k[j])
    {
      d[i] := Add(s[i], k[i]);
    }
  }

  lemma KeyFound(b: seq<Octet>, key: seq<Octet>, r: nat, n: nat)
    requires KeySize(|key|) && ScheduleUpTo(b, key, n) && 4 * r + 4 <= n && 16 * r + 16 <= |b| && r <= Round(|key|)
    ensures b[16 * r..16 * r + 16] == RoundKeys(key)[r]
  {
    hide KeyWord, WordAt, WordBytes;
    WordSlice(b, 4 * r);
    WordSlice(b, 4 * r + 1);
    WordSlice(b, 4 * r + 2);
    WordSlice(b, 4 * r + 3);
    Cut16(b, 16 * r);
  }

  lemma Cut16(b: seq<Octet>, at: nat)
    requires at + 16 <= |b|
    ensures b[at..at + 16] == b[at..at + 4] + b[at + 4..at + 8] + b[at + 8..at + 12] + b[at + 12..at + 16]
  {
    assert b[at..at + 8] == b[at..at + 4] + b[at + 4..at + 8];
    assert b[at..at + 12] == b[at..at + 8] + b[at + 8..at + 12];
    assert b[at..at + 16] == b[at..at + 12] + b[at + 12..at + 16];
  }

  lemma WordSlice(b: seq<Octet>, i: nat)
    requires 4 * i + 4 <= |b|
    ensures WordBytes(WordAt(b, i)) == b[4 * i..4 * i + 4]
  {
  }

  lemma StoredWord(was: seq<Octet>, i: nat, w: Word)
    requires 4 * i + 4 <= |was|
    ensures WordAt(was[..4 * i] + WordBytes(w) + was[4 * i + 4..], i) == w
  {
  }

  ghost predicate ScheduleUpTo(b: seq<Octet>, key: seq<Octet>, n: nat)
    requires KeySize(|key|)
  {
    4 * n <= |b| && forall i :: 0 <= i < n ==> WordAt(b, i) == KeyWord(key, i)
  }

  lemma StartsWithKey(b: seq<Octet>, key: seq<Octet>)
    requires KeySize(|key|) && |key| <= |b| && b[..|key|] == key
    ensures ScheduleUpTo(b, key, |key| / 4)
  {
    forall i | 0 <= i < |key| / 4 ensures WordAt(b, i) == KeyWord(key, i) {
      assert forall j :: 0 <= j < |key| ==> b[j] == b[..|key|][j];
    }
  }

  /** How many round constants have been reached when `cc` bytes of the schedule are there: cc / n, rounded up. */
  function Turns(cc: nat, n: nat): nat
    requires n > 0
  {
    (cc + n - 1) / n
  }

  /** Positions in bytes and in words. */
  ghost predicate Indexes(cc: nat, n: nat)
    requires KeySize(n)
  {
    && (cc % n == 0 <==> cc / 4 % (n / 4) == 0)
    && (cc % n == 0 ==> cc / 4 / (n / 4) == cc / n)
    && (n == 32 ==> (cc % n == 16 <==> cc / 4 % (n / 4) == 4))
    && Turns(cc, n) == (if cc % n == 0 then cc / n else cc / n + 1)
    && Turns(cc + 4, n) == cc / n + 1
  }

  lemma WordIndex16(i: nat)
    ensures Indexes(4 * i, 16)
  {
    assert 4 * i / 4 == i;
  }

  lemma WordIndex24(i: nat)
    ensures Indexes(4 * i, 24)
  {
    assert 4 * i / 4 == i;
  }

  lemma WordIndex32(i: nat)
    ensures Indexes(4 * i, 32)
  {
    assert 4 * i / 4 == i;
  }

  lemma WordIndex(cc: nat, n: nat)
    requires KeySize(n) && n <= cc && cc % 4 == 0
    ensures Indexes(cc, n)
  {
    hide Indexes;
    assert 4 * (cc / 4) == cc;
    if n == 16 { WordIndex16(cc / 4); } else if n == 24 { WordIndex24(cc / 4); } else { WordIndex32(cc / 4); }
  }

  lemma RconStep(cc: nat, n: nat)
    requires KeySize(n) && n <= cc && cc % 4 == 0
    ensures Rcon(Turns(cc + 4, n))
            == if cc % n == 0 then Twice(Rcon(Turns(cc, n))) else Rcon(Turns(cc, n))
    ensures cc % n == 0 ==> Turns(cc, n) == cc / n
  {
    WordIndex(cc, n);
    Doublings(Rcon(cc / n).bits);
    hide Double, F2;
    assert cc / n >= 1;
    assert Rcon(cc / n + 1) == Octet(Double(Rcon(cc / n).bits));
  }

  lemma MangledIs(before: Word, after: Word, cc: nat, n: nat, rc: Octet)
    requires KeySize(n) && n <= cc && cc % 4 == 0
    requires cc % n == 0 ==> rc == Rcon(cc / n)
    requires after == if cc % n == 0 then Word(Add(Sub(before.b1), rc), Sub(before.b2), Sub(before.b3), Sub(before.b0))
                      else if n > 24 && cc % n == 16 then SubWord(before) else before
    ensures after == Mangled(before, cc / 4, n / 4)
  {
    hide Sub, Rcon;
    WordIndex(cc, n);
    AddZero(Sub(before.b2));
    AddZero(Sub(before.b3));
    AddZero(Sub(before.b0));
  }

  lemma ScheduleGrows(was: seq<Octet>, now: seq<Octet>, key: seq<Octet>, i: nat)
    requires KeySize(|key|) && ScheduleUpTo(was, key, i) && |key| / 4 <= i && |was| == |now| && 4 * i + 4 <= |now|
    requires now[..4 * i] == was[..4 * i]
    requires WordAt(now, i) == XorWord(WordAt(was, i - |key| / 4), Mangled(WordAt(was, i - 1), i, |key| / 4))
    ensures ScheduleUpTo(now, key, i + 1)
  {
    hide Mangled, XorWord;
    forall j | 0 <= j < i ensures WordAt(now, j) == WordAt(was, j) {
      assert forall l :: 0 <= l < 4 * i ==> now[l] == now[..4 * i][l] && was[l] == was[..4 * i][l];
    }
  }
}
