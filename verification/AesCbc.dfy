/** Cipher block chaining over any number of blocks, in both directions.

    The methods follow the C code in advancing through input and output, which may be the same array. */
module AesCbc {
  import opened AesField
  import opened AesRounds
  import opened AesState
  import opened AesCipher
  import opened Aes

  function BlockAt(b: seq<Octet>, i: nat): Block
    requires 16 * i + 16 <= |b|
  {
    b[16 * i..16 * i + 16]
  }

  /** The chaining value after `n` blocks of plaintext `p`: the IV, then each block of ciphertext. */
  function Chain(key: seq<Octet>, iv: Block, p: seq<Octet>, n: nat): Block
    requires KeySize(|key|) && 16 * n <= |p|
  {
    if n == 0 then iv else Encrypt(key, Xor(Chain(key, iv, p, n - 1), BlockAt(p, n - 1)))
  }

  /** Decryption's chaining value: the IV, then the blocks of ciphertext `c` themselves. */
  function Before(iv: Block, c: seq<Octet>, n: nat): Block
    requires 16 * n <= |c|
  {
    if n == 0 then iv else BlockAt(c, n - 1)
  }

  function Unchained(key: seq<Octet>, iv: Block, c: seq<Octet>, i: nat): Block
    requires KeySize(|key|) && 16 * i + 16 <= |c|
  {
    Xor(Decrypt(key, BlockAt(c, i)), Before(iv, c, i))
  }

  /** `c` holds the first `n` blocks of the ciphertext of `p`. */
  ghost predicate Enciphered(key: seq<Octet>, iv: Block, p: seq<Octet>, c: seq<Octet>, n: nat)
    requires KeySize(|key|) && 16 * n <= |p| && 16 * n <= |c|
  {
    forall i :: 0 <= i < n ==> BlockAt(c, i) == Chain(key, iv, p, i + 1)
  }

  ghost predicate Deciphered(key: seq<Octet>, iv: Block, c: seq<Octet>, p: seq<Octet>, n: nat)
    requires KeySize(|key|) && 16 * n <= |p| && 16 * n <= |c|
  {
    forall i :: 0 <= i < n ==> BlockAt(p, i) == Unchained(key, iv, c, i)
  }

  lemma UnchainedIs(key: seq<Octet>, iv: Block, p: seq<Octet>, c: seq<Octet>, n: nat, i: nat)
    requires KeySize(|key|) && 16 * n <= |p| && 16 * n <= |c| && Enciphered(key, iv, p, c, n) && i < n
    ensures Unchained(key, iv, c, i) == BlockAt(p, i)
  {
    hide Xor, BlockAt, Cipher, InvCipher, RoundKeys;
    var before := Chain(key, iv, p, i);
    assert Before(iv, c, i) == before;
    DecryptEncrypt(Xor(before, BlockAt(p, i)), RoundKeys(key));
    XorCancels(before, BlockAt(p, i));
  }

  lemma XorCancels(a: Block, b: Block)
    ensures Xor(Xor(a, b), a) == b
  {
    hide Add;
    forall i | 0 <= i < 16 ensures Add(Add(a[i], b[i]), a[i]) == b[i] { AddTwice(b[i], a[i]); }
  }

  /** Whatever was enciphered deciphers to the plaintext, and both directions end with the same IV. */
  lemma CbcUndone(key: seq<Octet>, iv: Block, p: seq<Octet>, c: seq<Octet>, q: seq<Octet>, n: nat)
    requires KeySize(|key|) && 16 * n == |p| == |c| == |q|
    requires Enciphered(key, iv, p, c, n) && Deciphered(key, iv, c, q, n)
    ensures q == p && Before(iv, c, n) == Chain(key, iv, p, n)
  {
    hide Unchained, Chain;
    forall i | 0 <= i < n ensures BlockAt(q, i) == BlockAt(p, i) { UnchainedIs(key, iv, p, c, n, i); }
    forall k | 0 <= k < |p| ensures q[k] == p[k] {
      assert q[k] == BlockAt(q, k / 16)[k % 16] && p[k] == BlockAt(p, k / 16)[k % 16];
    }
    assert n == 0 ==> Chain(key, iv, p, n) == iv by { ChainStart(key, iv, p); }
  }

  lemma ChainStart(key: seq<Octet>, iv: Block, p: seq<Octet>)
    requires KeySize(|key|)
    ensures Chain(key, iv, p, 0) == iv
  {
  }

  /** Writing block `n` leaves the earlier ones. */
  lemma BlockWritten(was: seq<Octet>, now: seq<Octet>, n: nat, b: Block)
    requires |was| == |now| && 16 * n + 16 <= |now| && now == was[..16 * n] + b + was[16 * n + 16..]
    ensures BlockAt(now, n) == b && now[16 * n + 16..] == was[16 * n + 16..]
    ensures forall i :: 0 <= i < n ==> BlockAt(now, i) == BlockAt(was, i)
  {
  }

  method PutBlock(output: array<Octet>, n: nat, b: Block)
    requires 16 * n + 16 <= output.Length
    modifies output
    ensures output[..] == old(output[..])[..16 * n] + b + old(output[..])[16 * n + 16..]
  {
    forall i | 0 <= i < 16 {
      output[16 * n + i] := b[i];
    }
  }

  method SetBlock(iv: array<Octet>, b: Block)
    requires iv.Length == 16
    modifies iv
    ensures iv[..] == b
  {
    forall i | 0 <= i < 16 {
      iv[i] := b[i];
    }
  }

  /** Encryption after `i` blocks: ciphertext so far and chaining value. */
  ghost predicate EnciphersTo(key: seq<Octet>, first: seq<Octet>, p: seq<Octet>, c: seq<Octet>, iv: seq<Octet>,
      i: nat)
  {
    && KeySize(|key|) && |first| == 16 && 16 * i <= |p| && 16 * i <= |c|
    && Enciphered(key, first, p, c, i) && iv == Chain(key, first, p, i)
  }

  /** Decryption after `i` blocks. */
  ghost predicate DeciphersTo(key: seq<Octet>, first: seq<Octet>, c: seq<Octet>, p: seq<Octet>, iv: seq<Octet>,
      i: nat)
  {
    && KeySize(|key|) && |first| == 16 && 16 * i <= |p| && 16 * i <= |c|
    && Deciphered(key, first, c, p, i) && iv == Before(first, c, i)
  }

  lemma NoBlocks(key: seq<Octet>, first: seq<Octet>, input: seq<Octet>, output: seq<Octet>)
    requires KeySize(|key|) && |first| == 16
    ensures EnciphersTo(key, first, input, output, first, 0) && DeciphersTo(key, first, input, output, first, 0)
  {
  }

  /** aes_cbc_encrypt */
  method CbcEncrypt(input: array<Octet>, output: array<Octet>, n: nat, iv: array<Octet>, ctx: AesContext,
      ghost key: seq<Octet>)
    returns (status: int)
    requires 16 * n <= input.Length && 16 * n <= output.Length && iv.Length == 16 && KeySize(|key|)
    requires iv != input && iv != output && output != ctx.ksch && iv != ctx.ksch && (ctx.rnd == 0 || ctx.Keyed(key))
    modifies output, iv
    ensures status == if ctx.rnd == 0 && n > 0 then 1 else 0
    ensures status == 0 ==> EnciphersTo(key, old(iv[..]), old(input[..]), output[..], iv[..], n)
    ensures status == 0 ==> output[16 * n..] == old(output[16 * n..])
  {
    hide *;
    ghost var first, p := iv[..], input[..];
    ghost var behind := output[16 * n..];
    NoBlocks(key, first, p, output[..]);
    var i := 0;
    while i < n
      invariant i <= n && (ctx.rnd == 0 || ctx.Keyed(key)) && (i > 0 ==> ctx.rnd != 0)
      invariant input[16 * i..] == p[16 * i..] && output[16 * n..] == behind
      invariant EnciphersTo(key, first, p, output[..], iv[..], i)
    {
      var done := EncipherBlock(input, output, i, n, iv, ctx, key, first, p);
      if !done {
        return 1;
      }
      i := i + 1;
    }
    status := 0;
  }

  /** Block `i` of the input, which lies in the part not yet overwritten. */
  lemma UnreadBlock(now: seq<Octet>, was: seq<Octet>, i: nat)
    requires |now| == |was| && 16 * i + 16 <= |now| && now[16 * i..] == was[16 * i..]
    ensures now[16 * i..16 * i + 16] == BlockAt(was, i)
    ensures now[16 * i + 16..] == was[16 * i + 16..]
  {
    assert now[16 * i..][..16] == now[16 * i..16 * i + 16] && was[16 * i..][..16] == BlockAt(was, i);
    assert now[16 * i..][16..] == now[16 * i + 16..] && was[16 * i..][16..] == was[16 * i + 16..];
  }

  lemma EncipheredGrows(key: seq<Octet>, first: Block, p: seq<Octet>, was: seq<Octet>, now: seq<Octet>, c: Block,
      i: nat)
    requires KeySize(|key|) && 16 * i + 16 <= |p| && |was| == |now| && 16 * i + 16 <= |now|
    requires Enciphered(key, first, p, was, i) && c == Chain(key, first, p, i + 1)
    requires BlockAt(now, i) == c && forall j :: 0 <= j < i ==> BlockAt(now, j) == BlockAt(was, j)
    ensures Enciphered(key, first, p, now, i + 1)
  {
    hide BlockAt, Chain;
    forall j | 0 <= j < i + 1 ensures BlockAt(now, j) == Chain(key, first, p, j + 1) {
      assert j < i ==> BlockAt(was, j) == Chain(key, first, p, j + 1);
    }
  }

  lemma EncipherStep(key: seq<Octet>, first: Block, p: seq<Octet>, was: seq<Octet>, now: seq<Octet>, iv: Block, i: nat)
    requires EnciphersTo(key, first, p, was, iv, i) && 16 * i + 16 <= |p| && |was| == |now| && 16 * i + 16 <= |now|
    requires now == was[..16 * i] + Encrypt(key, Xor(iv, BlockAt(p, i))) + was[16 * i + 16..]
    ensures EnciphersTo(key, first, p, now, Encrypt(key, Xor(iv, BlockAt(p, i))), i + 1)
  {
    ChainStep(key, first, p, i);
    BlockWritten(was, now, i, Encrypt(key, Xor(iv, BlockAt(p, i))));
    hide Encrypt, Xor, BlockAt, Chain, Enciphered;
    EncipheredGrows(key, first, p, was, now, Encrypt(key, Xor(iv, BlockAt(p, i))), i);
  }

  lemma ChainStep(key: seq<Octet>, iv: Block, p: seq<Octet>, i: nat)
    requires KeySize(|key|) && 16 * i + 16 <= |p|
    ensures Chain(key, iv, p, i + 1) == Encrypt(key, Xor(Chain(key, iv, p, i), BlockAt(p, i)))
  {
    hide Encrypt, Xor, BlockAt;
  }

  lemma TailKept(was: seq<Octet>, now: seq<Octet>, b: Block, i: nat, n: nat)
    requires i < n && 16 * n <= |was| && now == was[..16 * i] + b + was[16 * i + 16..]
    ensures now[16 * n..] == was[16 * n..]
  {
  }

  /** One turn of the loop of aes_cbc_encrypt. */
  method EncipherBlock(input: array<Octet>, output: array<Octet>, i: nat, ghost n: nat, iv: array<Octet>,
                       ctx: AesContext, ghost key: seq<Octet>, ghost first: seq<Octet>, ghost p: seq<Octet>)
    returns (done: bool)
    requires i < n && 16 * n <= input.Length == |p| && 16 * n <= output.Length && iv.Length == 16
    requires iv != input && iv != output && output != ctx.ksch && iv != ctx.ksch && (ctx.rnd == 0 || ctx.Keyed(key))
    requires input[16 * i..] == p[16 * i..] && EnciphersTo(key, first, p, output[..], iv[..], i)
    modifies output, iv
    ensures done <==> ctx.rnd != 0
    ensures (ctx.rnd == 0 || ctx.Keyed(key)) && input[16 * i + 16..] == p[16 * i + 16..]
    ensures output[16 * n..] == old(output[16 * n..])
    ensures done ==> EnciphersTo(key, first, p, output[..], iv[..], i + 1)
  {
    assert KeySize(|key|) && |first| == 16;
    hide *;
    ghost var was, before := output[..], iv[..];
    UnreadBlock(input[..], p, i);
    AddRoundKey(iv, input[16 * i..16 * i + 16]);
    var status, c := ctx.EncryptBlock(iv[..], key);
    if status != 0 {
      return false;
    }
    SetBlock(iv, c);
    PutBlock(output, i, c);
    TailKept(was, output[..], c, i, n);
    EncipherStep(key, first, p, was, output[..], before, i);
    done := true;
  }

  lemma DecipherStep(key: seq<Octet>, first: Block, c: seq<Octet>, was: seq<Octet>, now: seq<Octet>, iv: Block, i: nat)
    requires DeciphersTo(key, first, c, was, iv, i) && 16 * i + 16 <= |c| && |was| == |now| && 16 * i + 16 <= |now|
    requires now == was[..16 * i] + Xor(Decrypt(key, BlockAt(c, i)), iv) + was[16 * i + 16..]
    ensures DeciphersTo(key, first, c, now, BlockAt(c, i), i + 1)
  {
    BlockWritten(was, now, i, Xor(Decrypt(key, BlockAt(c, i)), iv));
    hide Decrypt, Xor, BlockAt;
  }

  /** aes_cbc_decrypt */
  method CbcDecrypt(input: array<Octet>, output: array<Octet>, n: nat, iv: array<Octet>, ctx: AesContext,
      ghost key: seq<Octet>)
    returns (status: int)
    requires 16 * n <= input.Length && 16 * n <= output.Length && iv.Length == 16 && KeySize(|key|)
    requires iv != input && iv != output && output != ctx.ksch && iv != ctx.ksch && (ctx.rnd == 0 || ctx.Keyed(key))
    modifies output, iv
    ensures status == if ctx.rnd == 0 && n > 0 then 1 else 0
    ensures status == 0 ==> DeciphersTo(key, old(iv[..]), old(input[..]), output[..], iv[..], n)
    ensures status == 0 ==> output[16 * n..] == old(output[16 * n..])
  {
    hide *;
    ghost var first, c := iv[..], input[..];
    ghost var behind := output[16 * n..];
    NoBlocks(key, first, c, output[..]);
    var i := 0;
    while i < n
      invariant i <= n && (ctx.rnd == 0 || ctx.Keyed(key)) && (i > 0 ==> ctx.rnd != 0)
      invariant input[16 * i..] == c[16 * i..] && output[16 * n..] == behind
      invariant DeciphersTo(key, first, c, output[..], iv[..], i)
    {
      var done := DecipherBlock(input, output, i, n, iv, ctx, key, first, c);
      if !done {
        return 1;
      }
      i := i + 1;
    }
    status := 0;
  }

  /** One turn of the loop of aes_cbc_decrypt: the block of ciphertext is kept before it may be overwritten. */
  method DecipherBlock(input: array<Octet>, output: array<Octet>, i: nat, ghost n: nat, iv: array<Octet>,
                       ctx: AesContext, ghost key: seq<Octet>, ghost first: seq<Octet>, ghost c: seq<Octet>)
    returns (done: bool)
    requires i < n && 16 * n <= input.Length == |c| && 16 * n <= output.Length && iv.Length == 16
    requires iv != input && iv != output && output != ctx.ksch && iv != ctx.ksch && (ctx.rnd == 0 || ctx.Keyed(key))
    requires input[16 * i..] == c[16 * i..] && DeciphersTo(key, first, c, output[..], iv[..], i)
    modifies output, iv
    ensures done <==> ctx.rnd != 0
    ensures (ctx.rnd == 0 || ctx.Keyed(key)) && input[16 * i + 16..] == c[16 * i + 16..]
    ensures output[16 * n..] == old(output[16 * n..])
    ensures done ==> DeciphersTo(key, first, c, output[..], iv[..], i + 1)
  {
    assert KeySize(|key|) && |first| == 16;
    hide *;
    ghost var was, before := output[..], iv[..];
    UnreadBlock(input[..], c, i);
    var tmp: Block := input[16 * i..16 * i + 16];
    var status, block := ctx.DecryptBlock(tmp, key);
    if status != 0 {
      return false;
    }
    block := XorBlock(block, iv[..]);
    PutBlock(output, i, block);
    TailKept(was, output[..], block, i, n);
    SetBlock(iv, tmp);
    DecipherStep(key, first, c, was, output[..], before, i);
    done := true;
  }

  /** xor_block on a copy */
  method XorBlock(d: Block, s: Block) returns (r: Block)
    ensures r == Xor(d, s)
  {
    var a := new Octet[16](i requires 0 <= i < 16 => d[i]);
    assert a[..] == d;
    AddRoundKey(a, s);
    r := a[..];
  }
}
