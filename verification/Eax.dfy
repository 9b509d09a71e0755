/** EAX over AES: the message authentication code OMAC, counter mode, and the two combined.

    `Cmac` is section 2.4 of RFC 4493; do_omac pads and masks a copy of the message in a buffer of 150 bytes
    and chains over it, which gives the same code for every message that fits. */
module Eax {
  import opened AesField
  import opened AesRounds
  import opened AesState
  import opened AesCipher
  import opened Aes
  import opened AesCbc
  import opened EaxMath

  type Key = k: seq<Octet> | |k| == 16 witness seq(16, _ => Octet(0))

  const BUFFER: nat := 150

  function Zeros(n: nat): (z: seq<Octet>)
    ensures |z| == n
  {
    seq(n, _ => Octet(0))
  }

  /* ---- CMAC as RFC 4493 states it ---- */

  /** The number of blocks, at least one. */
  function BlockCount(m: seq<Octet>): (n: nat)
    ensures n >= 1 && 16 * n >= |m| && 16 * (n - 1) <= |m|
  {
    if m == [] then 1 else (|m| + 15) / 16
  }

  function SubkeyOne(key: Key): Block { PolyDouble(Encrypt(key, Zeros(16))) }
  function SubkeyTwo(key: Key): Block { PolyDouble(SubkeyOne(key)) }

  /** The last block: complete ones are masked by the first subkey, others padded and masked by the second. */
  function LastBlock(key: Key, m: seq<Octet>): Block {
    var n := BlockCount(m);
    var tail := m[16 * (n - 1)..];
    if |tail| == 16 then Xor(tail, SubkeyOne(key))
    else Xor(tail + [Octet(0x80)] + Zeros(15 - |tail|), SubkeyTwo(key))
  }

  function Cmac(key: Key, m: seq<Octet>): Block {
    Encrypt(key, Xor(Chain(key, Zeros(16), m, BlockCount(m) - 1), LastBlock(key, m)))
  }

  /* ---- do_omac ---- */

  /** The padded and masked copy of the message. */
  function Masked(key: Key, m: seq<Octet>): (d: seq<Octet>)
    ensures |d| == 16 * BlockCount(m)
  {
    m[..16 * (BlockCount(m) - 1)] + LastBlock(key, m)
  }

  lemma ChainPrefix(key: Key, iv: Block, a: seq<Octet>, b: seq<Octet>, n: nat)
    requires 16 * n <= |a| && 16 * n <= |b| && a[..16 * n] == b[..16 * n]
    ensures Chain(key, iv, a, n) == Chain(key, iv, b, n)
    decreases n
  {
    hide Encrypt, Xor;
    if n > 0 {
      assert a[..16 * (n - 1)] == a[..16 * n][..16 * (n - 1)] && b[..16 * (n - 1)] == b[..16 * n][..16 * (n - 1)];
      assert BlockAt(a, n - 1) == a[..16 * n][16 * (n - 1)..] && BlockAt(b, n - 1) == b[..16 * n][16 * (n - 1)..];
      ChainPrefix(key, iv, a, b, n - 1);
    }
  }

  /** One more block in a loop that chains: what has been chained so far. */
  ghost predicate Chained(key: Key, d: seq<Octet>, mac: seq<Octet>, n: nat) {
    16 * n <= |d| && mac == Chain(key, Zeros(16), d, n)
  }

  /** Chaining over the masked copy gives the code. */
  lemma MaskedChain(key: Key, m: seq<Octet>)
    ensures forall mac :: Chained(key, Masked(key, m), mac, BlockCount(m)) ==> mac == Cmac(key, m)
  {
    var n := BlockCount(m);
    var d := Masked(key, m);
    hide Encrypt, Xor, LastBlock, BlockCount;
    assert BlockAt(d, n - 1) == LastBlock(key, m);
    assert d[..16 * (n - 1)] == m[..16 * (n - 1)];
    ChainPrefix(key, Zeros(16), d, m, n - 1);
    ChainStep(key, Zeros(16), d, n - 1);
  }

  /** The buffer with the padded message. */
  method FillBuffer(data: seq<Octet>) returns (padded: array<Octet>, total: nat)
    requires 16 * BlockCount(data) <= BUFFER
    ensures fresh(padded) && padded.Length == BUFFER && total == 16 * BlockCount(data)
    ensures padded[..total] == Padded(data)
  {
    var length := |data|;
    total := if length != 0 && length % 16 == 0 then length else length + (16 - length % 16);
    CountIs(length, total, data);
    hide BlockCount, Padded;
    padded := new Octet[BUFFER](_ => Octet(0));
    forall i | 0 <= i < length {
      padded[i] := data[i];
    }
    if total != length {
      padded[length] := Octet(0x80);
    }
    assert padded[..total][..length] == data;
    assert forall i :: length < i < total ==> padded[..total][i] == padded[i] == Octet(0);
    FrontIs(padded[..total], data, total);
  }

  /** The loop that masks the last block. */
  method MaskLast(padded: array<Octet>, total: nat, pad: Block)
    requires 16 <= total <= padded.Length
    modifies padded
    ensures padded[..total - 16] == old(padded[..total - 16])
    ensures forall i :: total - 16 <= i < total ==> padded[i] == Add(old(padded[i]), pad[i - (total - 16)])
  {
    hide Add;
    for j := total - 16 to total
      invariant padded[..total - 16] == old(padded[..total - 16])
      invariant forall i :: total - 16 <= i < j ==> padded[i] == Add(old(padded[i]), pad[i - (total - 16)])
      invariant forall i :: j <= i < total ==> padded[i] == old(padded[i])
    {
      padded[j] := Add(padded[j], pad[j - (total - 16)]);
    }
  }

  /** The buffer after padding and masking: the first `total` bytes are the masked message. */
  method PadAndMask(key: Key, data: seq<Octet>, b: Block, p: Block) returns (padded: array<Octet>, total: nat)
    requires b == SubkeyOne(key) && p == SubkeyTwo(key) && 16 * BlockCount(data) <= BUFFER
    ensures fresh(padded) && padded.Length == BUFFER && total == 16 * BlockCount(data)
    ensures padded[..total] == Masked(key, data)
  {
    hide Add, Padded, SubkeyOne, SubkeyTwo, Masked, BlockCount;
    padded, total := FillBuffer(data);
    ghost var front := padded[..total];
    MaskLast(padded, total, if total == |data| then b else p);
    ghost var now := padded[..total];
    assert now[..total - 16] == padded[..total - 16] && front[..total - 16] == front[..total][..total - 16];
    MaskedIs(key, data, front, now, if total == |data| then b else p);
  }

  lemma CountIs(length: nat, total: nat, data: seq<Octet>)
    requires length == |data|
    requires total == if length != 0 && length % 16 == 0 then length else length + (16 - length % 16)
    ensures total == 16 * BlockCount(data)
  {
  }

  /** The message behind which a bit and zeros fill the last block. */
  function Padded(m: seq<Octet>): (d: seq<Octet>)
    ensures |d| == 16 * BlockCount(m)
  {
    var total := 16 * BlockCount(m);
    if |m| == total then m else m + [Octet(0x80)] + Zeros(total - |m| - 1)
  }

  lemma FrontIs(front: seq<Octet>, m: seq<Octet>, total: nat)
    requires total == 16 * BlockCount(m) == |front| && front[..|m|] == m
    requires total != |m| ==> front[|m|] == Octet(0x80)
    requires forall i :: |m| < i < total ==> front[i] == Octet(0)
    ensures front == Padded(m)
  {
  }

  lemma MaskedIs(key: Key, m: seq<Octet>, front: seq<Octet>, now: seq<Octet>, pad: Block)
    requires front == Padded(m) && |now| == |front|
    requires pad == if |front| == |m| then SubkeyOne(key) else SubkeyTwo(key)
    requires now[..|now| - 16] == front[..|now| - 16]
    requires forall i :: |now| - 16 <= i < |now| ==> now[i] == Add(front[i], pad[i - (|now| - 16)])
    ensures now == Masked(key, m)
  {
    hide SubkeyOne, SubkeyTwo, Add;
    var at := |now| - 16;
    assert now[at..] == Xor(front[at..], pad);
    PaddedTail(m);
    assert now == now[..at] + now[at..];
  }

  lemma PaddedTail(m: seq<Octet>)
    ensures var at := 16 * (BlockCount(m) - 1);
            var tail := m[at..];
            && Padded(m)[..at] == m[..at]
            && |tail| <= 16 && (|tail| == 16 <==> |Padded(m)| == |m|)
            && Padded(m)[at..] == if |tail| == 16 then tail else tail + [Octet(0x80)] + Zeros(15 - |tail|)
  {
  }

  /** The two masks. */
  method Subkeys(ctx: AesContext, key: Key) returns (b: Block, p: Block)
    requires ctx.Keyed(key) && ctx.rnd != 0
    ensures b == SubkeyOne(key) && p == SubkeyTwo(key)
  {
    hide ctx.Keyed, Encrypt, PolyDouble;
    var _, l := ctx.EncryptBlock(Zeros(16), key);
    b := DoubleBlock(l);
    p := DoubleBlock(b);
  }

  method KeyedContext(key: Key) returns (ctx: AesContext)
    ensures fresh(ctx) && fresh(ctx.ksch) && ctx.Keyed(key) && ctx.rnd != 0
  {
    ctx := new AesContext();
    var status := ctx.SetKey(key, 16);
    assert key[..16] == key;
  }

  /** do_omac: the code of every message whose padded form fits the buffer. */
  method DoOmac(key: Key, data: seq<Octet>) returns (mac: Block)
    requires 16 * BlockCount(data) <= BUFFER
    ensures mac == Cmac(key, data)
  {
    hide *;
    var ctx := KeyedContext(key);
    var b, p := Subkeys(ctx, key);
    var padded, total := PadAndMask(key, data, b, p);
    mac := MacBlocks(ctx, key, padded, BlockCount(data));
    MaskedChain(key, data);
  }

  lemma SliceBlock(padded: seq<Octet>, total: nat, n: nat)
    requires 16 * n + 16 <= total <= |padded|
    ensures padded[16 * n..16 * n + 16] == BlockAt(padded[..total], n)
  {
  }

  /** The last loop of do_omac, over `count` blocks. */
  method MacBlocks(ctx: AesContext, key: Key, padded: array<Octet>, count: nat) returns (mac: Block)
    requires ctx.Keyed(key) && ctx.rnd != 0 && 16 * count <= padded.Length
    ensures Chained(key, padded[..16 * count], mac, count)
  {
    ghost var d := padded[..16 * count];
    mac := Zeros(16);
    assert Chained(key, d, mac, 0);
    hide *;
    var n := 0;
    while n != count
      invariant n <= count && Chained(key, d, mac, n)
    {
      SliceBlock(padded[..], 16 * count, n);
      mac := MacBlock(ctx, key, padded[16 * n..16 * n + 16], mac, d, n);
      n := n + 1;
    }
  }

  method MacBlock(ctx: AesContext, key: Key, block: Block, mac: Block, ghost d: seq<Octet>,
      ghost n: nat) returns (next: Block)
    requires ctx.Keyed(key) && ctx.rnd != 0 && Chained(key, d, mac, n) && 16 * n + 16 <= |d| && block == BlockAt(d, n)
    ensures Chained(key, d, next, n + 1)
  {
    ChainStep(key, Zeros(16), d, n);
    hide ctx.Keyed, Encrypt, Chain, Xor;
    next := XorBlock(mac, block);
    var status;
    status, next := ctx.EncryptBlock(next, key);
  }

  /* ---- Counter mode ---- */

  /** The counter after `n` steps. */
  function Counter(nonce: Block, n: nat): Block {
    if n == 0 then nonce else CountUp(Counter(nonce, n - 1))
  }

  /** Step by step, the counter is the nonce plus the number of steps, modulo 2^128. */
  lemma {:induction false} CounterValue(nonce: Block, n: nat)
    ensures Value(Counter(nonce, n)) == (Value(nonce) + n) % Range(16)
  {
    hide CountUp, Value, Range;
    ValueBelow(Counter(nonce, n));
    if n > 0 {
      CounterValue(nonce, n - 1);
      CountUpValue(Counter(nonce, n - 1));
      ModStep(Value(nonce) + n - 1, Range(16));
    } else {
      ModSmall(Value(nonce), Range(16));
    }
  }

  lemma ModStep(v: nat, r: nat)
    requires r > 0
    ensures (v + 1) % r == if v % r + 1 == r then 0 else v % r + 1
  {
    var q := v / r;
    assert v == q * r + v % r;
    if v % r + 1 == r {
      assert v + 1 == (q + 1) * r;
      ModIs(v + 1, q + 1, 0, r);
    } else {
      ModIs(v + 1, q, v % r + 1, r);
    }
  }

  lemma ModIs(v: nat, q: nat, m: nat, r: nat)
    requires r > 0 && m < r && v == q * r + m
    ensures v % r == m
  {
    var q1 := v / r;
    assert v == q1 * r + v % r;
    assert q1 > q ==> q1 * r >= (q + 1) * r;
    assert q1 < q ==> (q1 + 1) * r <= q * r;
  }

  lemma ModSmall(v: nat, r: nat)
    requires v < r
    ensures v % r == v
  {
  }

  /** Every byte plus a byte of the encrypted counter. */
  function Ctr(key: Key, nonce: Block, data: seq<Octet>): (r: seq<Octet>)
    ensures |r| == |data|
  {
    seq(|data|, i requires 0 <= i < |data| => Add(data[i], Encrypt(key, Counter(nonce, i / 16))[i % 16]))
  }

  /** Counter mode applied twice gives the data back. */
  lemma CtrTwice(key: Key, nonce: Block, data: seq<Octet>)
    ensures Ctr(key, nonce, Ctr(key, nonce, data)) == data
  {
    hide Add, Encrypt, Counter;
    forall i | 0 <= i < |data| ensures Ctr(key, nonce, Ctr(key, nonce, data))[i] == data[i] {
      AddTwice(data[i], Encrypt(key, Counter(nonce, i / 16))[i % 16]);
    }
  }

  /** The first `at` bytes are done. */
  ghost predicate CtrUpTo(key: Key, nonce: Block, was: seq<Octet>, now: seq<Octet>, at: nat) {
    && |now| == |was| && at <= |was|
    && (forall i :: 0 <= i < at ==> now[i] == Ctr(key, nonce, was)[i])
    && (forall i :: at <= i < |was| ==> now[i] == was[i])
  }

  lemma CtrChunk(key: Key, nonce: Block, was: seq<Octet>, before: seq<Octet>, now: seq<Octet>, n: nat, at: nat,
      next: nat)
    requires CtrUpTo(key, nonce, was, before, at) && at == 16 * n && at <= next <= at + 16 && next <= |was| == |now|
    requires forall i :: at <= i < next ==> now[i] == Add(before[i], Encrypt(key, Counter(nonce, n))[i - at])
    requires forall i :: 0 <= i < |now| && !(at <= i < next) ==> now[i] == before[i]
    ensures CtrUpTo(key, nonce, was, now, next)
  {
    hide Add, Encrypt, Counter;
    forall i | at <= i < next ensures now[i] == Ctr(key, nonce, was)[i] {
      assert i / 16 == n && i % 16 == i - at;
    }
  }

  method XorChunk(data: array<Octet>, at: nat, toXor: nat, buffer: Block)
    requires at + toXor <= data.Length && toXor <= 16
    modifies data
    ensures forall i :: at <= i < at + toXor ==> data[i] == Add(old(data[i]), buffer[i - at])
    ensures forall i :: 0 <= i < data.Length && !(at <= i < at + toXor) ==> data[i] == old(data[i])
  {
    hide Add;
    for j := 0 to toXor
      invariant forall i :: at <= i < at + j ==> data[i] == Add(old(data[i]), buffer[i - at])
      invariant forall i :: 0 <= i < data.Length && !(at <= i < at + j) ==> data[i] == old(data[i])
    {
      data[at + j] := Add(data[at + j], buffer[j]);
    }
  }

  /** do_ctr */
  method DoCtr(key: Key, nonce: Block, data: array<Octet>)
    modifies data
    ensures data[..] == Ctr(key, nonce, old(data[..]))
  {
    ghost var was := data[..];
    var ctx, state, buffer := StartCtr(key, nonce, was);
    hide *;
    var at := 0;
    ghost var n := 0;
    while at != data.Length
      invariant at <= data.Length && ctx.Keyed(key) && ctx.rnd != 0 && fresh(state) && fresh(ctx.ksch)
                && state != ctx.ksch
      invariant state.Length == 16 && CtrAt(key, nonce, was, data[..], at, state[..], buffer, n)
      decreases data.Length - at
    {
      at, buffer := CtrTurn(ctx, key, nonce, data, at, state, buffer, n, was);
      n := n + 1;
    }
    CtrDone(key, nonce, was, data[..], state[..], buffer, n);
  }

  /** The whole state of the loop of do_ctr. */
  ghost predicate CtrAt(key: Key, nonce: Block, was: seq<Octet>, now: seq<Octet>, at: nat, state: seq<Octet>,
      buffer: Block, n: nat)
  {
    && CtrState(key, nonce, state, buffer, n) && CtrUpTo(key, nonce, was, now, at)
    && (at == 16 * n || at == |was|)
  }

  method StartCtr(key: Key, nonce: Block, ghost was: seq<Octet>) returns (ctx: AesContext, state: array<Octet>,
      buffer: Block)
    ensures fresh(ctx) && fresh(ctx.ksch) && fresh(state) && state != ctx.ksch && state.Length == 16
    ensures ctx.Keyed(key) && ctx.rnd != 0 && CtrAt(key, nonce, was, was, 0, state[..], buffer, 0)
  {
    assert CtrUpTo(key, nonce, was, was, 0) && nonce == Counter(nonce, 0);
    hide CtrUpTo, Encrypt, Counter;
    ctx := KeyedContext(key);
    state := new Octet[16](i requires 0 <= i < 16 => nonce[i]);
    assert state[..] == nonce;
    hide ctx.Keyed;
    var status;
    status, buffer := ctx.EncryptBlock(state[..], key);
  }

  /** One turn of the loop of do_ctr. */
  method CtrTurn(ctx: AesContext, key: Key, nonce: Block, data: array<Octet>, at: nat, state: array<Octet>,
      buffer: Block,
                 ghost n: nat, ghost was: seq<Octet>)
    returns (next: nat, newBuffer: Block)
    requires ctx.Keyed(key) && ctx.rnd != 0 && state != ctx.ksch && data != ctx.ksch && state != data
             && state.Length == 16
    requires at < data.Length && CtrAt(key, nonce, was, data[..], at, state[..], buffer, n)
    modifies data, state
    ensures ctx.Keyed(key) && ctx.rnd != 0 && at < next <= data.Length
    ensures CtrAt(key, nonce, was, data[..], next, state[..], newBuffer, n + 1)
  {
    assert |was| == data.Length;
    hide ctx.Keyed, CtrUpTo, CtrState;
    next := CtrStep(key, nonce, data, at, buffer, n, was, state[..]);
    newBuffer := NextCounter(ctx, key, nonce, state, n, buffer);
  }

  /** The counter and its encryption. */
  ghost predicate CtrState(key: Key, nonce: Block, state: seq<Octet>, buffer: Block, n: nat) {
    |state| == 16 && state == Counter(nonce, n) && buffer == Encrypt(key, state)
  }

  lemma CtrDone(key: Key, nonce: Block, was: seq<Octet>, now: seq<Octet>, state: seq<Octet>, buffer: Block, n: nat)
    requires CtrAt(key, nonce, was, now, |now|, state, buffer, n)
    ensures now == Ctr(key, nonce, was)
  {
  }

  method CtrStep(key: Key, nonce: Block, data: array<Octet>, at: nat, buffer: Block, ghost n: nat,
      ghost was: seq<Octet>,
                 ghost state: seq<Octet>)
    returns (next: nat)
    requires at < data.Length && at == 16 * n && CtrState(key, nonce, state, buffer, n)
    requires CtrUpTo(key, nonce, was, data[..], at)
    modifies data
    ensures at < next <= data.Length && (next == at + 16 || next == data.Length)
    ensures CtrUpTo(key, nonce, was, data[..], next)
  {
    assert |was| == data.Length && buffer == Encrypt(key, Counter(nonce, n));
    hide *;
    ghost var before := data[..];
    var toXor := if data.Length - at < 16 then data.Length - at else 16;
    XorChunk(data, at, toXor, buffer);
    next := at + toXor;
    CtrChunk(key, nonce, was, before, data[..], n, at, next);
  }

  method NextCounter(ctx: AesContext, key: Key, ghost nonce: Block, state: array<Octet>, ghost n: nat,
      ghost buffer: Block)
    returns (newBuffer: Block)
    requires ctx.Keyed(key) && ctx.rnd != 0 && state != ctx.ksch && state.Length == 16
    requires CtrState(key, nonce, state[..], buffer, n)
    modifies state
    ensures ctx.Keyed(key) && ctx.rnd != 0
    ensures CtrState(key, nonce, state[..], newBuffer, n + 1)
  {
    CounterNext(nonce, n);
    hide ctx.Keyed, Encrypt, Counter, CountUp;
    Increment(state);
    var status;
    status, newBuffer := ctx.EncryptBlock(state[..], key);
  }

  lemma CounterNext(nonce: Block, n: nat)
    ensures Counter(nonce, n + 1) == CountUp(Counter(nonce, n))
  {
  }

  /* ---- EAX ---- */

  /** do_omac_n: the message behind a block that holds a small number. */
  function Tagged(tag: bv8, m: seq<Octet>): seq<Octet> {
    Zeros(15) + [Octet(tag)] + m
  }

  function OmacN(key: Key, m: seq<Octet>, tag: bv8): Block {
    Cmac(key, Tagged(tag, m))
  }

  /** The buffer of do_omac takes up to 128 bytes behind the tag block. */
  lemma TaggedFits(tag: bv8, m: seq<Octet>)
    ensures 16 * BlockCount(Tagged(tag, m)) <= BUFFER <==> |m| <= 128
  {
  }

  datatype Sealed = Sealed(ciphertext: seq<Octet>, tag: Block)

  function TagOf(key: Key, nonce: Block, header: seq<Octet>, ciphertext: seq<Octet>): Block {
    Xor(Xor(OmacN(key, nonce, 0), OmacN(key, ciphertext, 2)), OmacN(key, header, 1))
  }

  function Seal(key: Key, nonce: Block, header: seq<Octet>, data: seq<Octet>): Sealed {
    var c := Ctr(key, OmacN(key, nonce, 0), data);
    Sealed(c, TagOf(key, nonce, header, c))
  }

  /** What a receiver does with a sealed message: checks the tag, then undoes counter mode. */
  function Open(key: Key, nonce: Block, header: seq<Octet>, s: Sealed): seq<Octet> {
    if s.tag == TagOf(key, nonce, header, s.ciphertext) then Ctr(key, OmacN(key, nonce, 0), s.ciphertext) else []
  }

  /** A sealed message has the right tag and opens to the data. */
  lemma OpenSeal(key: Key, nonce: Block, header: seq<Octet>, data: seq<Octet>)
    ensures Open(key, nonce, header, Seal(key, nonce, header, data)) == data
  {
    hide OmacN, Ctr, Xor;
    CtrTwice(key, OmacN(key, nonce, 0), data);
  }

  method DoOmacN(key: Key, data: seq<Octet>, tag: bv8) returns (mac: Block)
    requires |data| <= 128
    ensures mac == OmacN(key, data, tag)
  {
    var dataCopy := new Octet[|data| + 16](_ => Octet(0));
    dataCopy[15] := Octet(tag);
    forall i | 0 <= i < |data| {
      dataCopy[16 + i] := data[i];
    }
    assert dataCopy[..] == Tagged(tag, data);
    TaggedFits(tag, data);
    hide Tagged, BlockCount, Cmac;
    mac := DoOmac(key, dataCopy[..]);
  }

  /** do_eax: three codes and counter mode; the tag is their sum. */
  method DoEax(key: Key, nonce: Block, data: seq<Octet>, header: seq<Octet>) returns (ciphered: seq<Octet>, tag: Block)
    requires |data| <= 128 && |header| <= 128
    ensures Sealed(ciphered, tag) == Seal(key, nonce, header, data)
  {
    hide OmacN, Ctr, Xor;
    var dataCopy := new Octet[|data|](i requires 0 <= i < |data| => data[i]);
    assert dataCopy[..] == data;
    var macNonce := DoOmacN(key, nonce, 0);
    var macHeader := DoOmacN(key, header, 1);
    DoCtr(key, macNonce, dataCopy);
    ciphered := dataCopy[..];
    var macData := DoOmacN(key, ciphered, 2);
    tag := XorBlock(macNonce, macData);
    tag := XorBlock(tag, macHeader);
  }
}
