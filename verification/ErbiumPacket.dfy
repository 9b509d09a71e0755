/** The device's CoAP message: what Erbium writes for a packet and what it reads from a datagram.

    The struct's option fields are kept in a map from option number to field, so the option bitmap
    is the map's key set. `Pieces` follows the serializer's macros, `Apply` the parser's switch.
    `ErbiumMessage.PacketRoundTripIff` says for which packets parsing undoes serializing. */
module ErbiumPacket {
  import opened OptionFormat
  import opened SplitMerge

  const IF_MATCH: nat := 1
  const URI_HOST: nat := 3
  const ETAG: nat := 4
  const IF_NONE_MATCH: nat := 5
  const OBSERVE: nat := 6
  const URI_PORT: nat := 7
  const LOCATION_PATH: nat := 8
  const OSCORE: nat := 9
  const URI_PATH: nat := 11
  const CONTENT_TYPE: nat := 12
  const MAX_AGE: nat := 14
  const URI_QUERY: nat := 15
  const ACCEPT: nat := 16
  const LOCATION_QUERY: nat := 20
  const BLOCK2: nat := 23
  const BLOCK1: nat := 27
  const SIZE: nat := 28
  const PROXY_URI: nat := 35

  const SLASH: Byte := 0x2F
  const AMPERSAND: Byte := 0x26

  const ETAG_LEN: nat := 8
  const TOKEN_LEN: nat := 8
  const MAX_ACCEPT_NUM: nat := 2
  const MAX_HEADER_SIZE: nat := 70
  const MAX_CHUNK_SIZE: nat := 64

  const BAD_REQUEST: nat := 128
  const BAD_OPTION: nat := 130
  const PROXYING_NOT_SUPPORTED: nat := 165

  /** How an option's field is kept and written. */
  datatype Kind =
    | Cut                     // a byte array of fixed size
    | Whole                   // a string in one option
    | Parted(separator: Byte) // a string split into several options
    | Bare                    // presence only
    | Integer(limit: nat)     // an integer field of limited width
    | Repeated                // a short list of integers
    | Blockwise               // a block number, a flag and a size
    | Proxy                   // refused
    | Unknown

  function KindOf(n: nat): Kind {
    if n == IF_MATCH || n == ETAG then Cut
    else if n == URI_HOST then Whole
    else if n == LOCATION_PATH || n == URI_PATH then Parted(SLASH)
    else if n == URI_QUERY || n == LOCATION_QUERY then Parted(AMPERSAND)
    else if n == IF_NONE_MATCH || n == OSCORE then Bare
    else if n == OBSERVE || n == URI_PORT then Integer(0x10000)
    else if n == CONTENT_TYPE || n == MAX_AGE || n == SIZE then Integer(0x1_0000_0000)
    else if n == ACCEPT then Repeated
    else if n == BLOCK2 || n == BLOCK1 then Blockwise
    else if n == PROXY_URI then Proxy
    else Unknown
  }

  datatype Field =
    | Text(bytes: Bytes)
    | Number(n: nat)
    | Numbers(ns: seq<nat>)
    | Block(num: nat, more: bool, size: nat)
    | Present

  type Fields = map<nat, Field>

  /** type, code, message id, token, option fields, payload (absent when empty). */
  datatype Packet = Packet(messageType: nat, code: Byte, mid: nat, token: Bytes, fields: Fields, payload: Bytes)

  /* ---- Integers ---- */

  const WORD32: nat := 0x1_0000_0000

  /** coap_serialize_int_option: no leading zero bytes, so nothing at all for zero. */
  function IntBytes(v: nat): (b: Bytes)
    requires v < WORD32
    ensures |b| <= 4
  {
    if v == 0 then []
    else if v < 0x100 then [v]
    else if v < 0x10000 then [v / 0x100, v % 0x100]
    else if v < 0x100_0000 then [v / 0x10000, v / 0x100 % 0x100, v % 0x100]
    else [v / 0x100_0000, v / 0x10000 % 0x100, v / 0x100 % 0x100, v % 0x100]
  }

  /** coap_parse_int_option, in 32 bits. */
  function IntValue(b: Bytes): (v: nat)
    ensures v < WORD32
  {
    if b == [] then 0 else (IntValue(b[..|b| - 1]) * 0x100 + b[|b| - 1] as int) % WORD32
  }

  lemma IntBytesTail(v: nat)
    requires 0 < v < WORD32
    ensures IntBytes(v) == IntBytes(v / 0x100) + [v % 0x100]
  {
  }

  lemma IntLast(b: Bytes, last: Byte)
    ensures IntValue(b + [last]) == (IntValue(b) * 0x100 + last as int) % WORD32
  {
    assert (b + [last])[..|b|] == b;
  }

  lemma {:induction false} IntRoundTrip(v: nat)
    requires v < WORD32
    ensures IntValue(IntBytes(v)) == v
  {
    if v > 0 {
      IntBytesTail(v);
      hide IntBytes;
      IntRoundTrip(v / 0x100);
      IntLast(IntBytes(v / 0x100), v % 0x100);
    }
  }

  /* ---- Block options (section 2.2 of RFC 7959) ---- */

  function Pow2(k: nat): (p: nat)
    ensures p > 0
  {
    if k == 0 then 1 else 2 * Pow2(k - 1)
  }

  /** The largest k with Pow2(k) <= v, and 0 for v = 0. */
  function Log2(v: nat): nat {
    if v < 2 then 0 else 1 + Log2(v / 2)
  }

  lemma {:induction false} Log2Bounds(v: nat)
    requires v > 0
    ensures Pow2(Log2(v)) <= v < 2 * Pow2(Log2(v))
  {
    if v >= 2 { Log2Bounds(v / 2); }
  }

  predicate BlockInRange(num: nat, size: nat) {
    num <= 0xFFFFF && 16 <= size <= 2048
  }

  function BlockWord(num: nat, more: bool, size: nat): nat {
    16 * num + (if more then 8 else 0) + Log2(size / 16) % 16
  }

  /** The parser's reading of a block option's integer. */
  function BlockOf(word: nat): Field {
    Block(word / 16, word / 8 % 2 == 1, 16 * Pow2(word % 8))
  }

  /** The byte offset the parser computes: the number's bits shifted left, in 32 bits. */
  function BlockOffset(word: nat): nat {
    (word / 16 * 16 * Pow2(word % 8)) % WORD32
  }

  predicate PowerOfTwo(size: nat) {
    size == 16 || size == 32 || size == 64 || size == 128 || size == 256 || size == 512 || size == 1024 || size == 2048
  }

  lemma SmallLogs(v: nat)
    requires 1 <= v <= 128
    ensures Log2(v) <= 7
    ensures Log2(v) == (if v < 2 then 0 else if v < 4 then 1 else if v < 8 then 2 else if v < 16 then 3
                        else if v < 32 then 4 else if v < 64 then 5 else if v < 128 then 6 else 7)
  {
    assert v >= 2 ==> Log2(v) == 1 + Log2(v / 2);
    assert v >= 4 ==> Log2(v / 2) == 1 + Log2(v / 2 / 2);
    assert v >= 8 ==> Log2(v / 4) == 1 + Log2(v / 4 / 2);
    assert v >= 16 ==> Log2(v / 8) == 1 + Log2(v / 8 / 2);
    assert v >= 32 ==> Log2(v / 16) == 1 + Log2(v / 16 / 2);
    assert v >= 64 ==> Log2(v / 32) == 1 + Log2(v / 32 / 2);
    assert v >= 128 ==> Log2(v / 64) == 1 + Log2(v / 64 / 2);
  }

  lemma SmallPowers()
    ensures Pow2(0) == 1 && Pow2(1) == 2 && Pow2(2) == 4 && Pow2(3) == 8
    ensures Pow2(4) == 16 && Pow2(5) == 32 && Pow2(6) == 64 && Pow2(7) == 128
  {
    assert Pow2(4) == 2 * Pow2(3);
    assert Pow2(6) == 2 * Pow2(5);
  }

  /** A block option read back: number and flag always, the size if and only if it is a power of two;
      and the offset is the number times the size that was read. */
  lemma BlockRoundTrip(num: nat, more: bool, size: nat)
    requires BlockInRange(num, size)
    ensures var word := BlockWord(num, more, size);
            var read := BlockOf(word);
            && word < 0x100_0000
            && read.num == num && read.more == more && 16 <= read.size <= size < 2 * read.size
            && (read.size == size <==> PowerOfTwo(size))
            && BlockOffset(word) == num * read.size
  {
    var l := Log2(size / 16);
    SmallLogs(size / 16);
    WordParts(num, if more then 1 else 0, l);
    SizeRead(size);
    OffsetInRange(num, l);
    hide Log2, Pow2;
  }

  lemma WordParts(num: nat, flag: nat, l: nat)
    requires num <= 0xFFFFF && flag <= 1 && l <= 7
    ensures var word := 16 * num + 8 * flag + l % 16;
            word < 0x100_0000 && word / 16 == num && word / 8 % 2 == flag && word % 8 == l
  {
    var low := 8 * flag + l;
    assert l % 16 == l && low < 16;
    Quotient16(num, low);
    Quotient8(2 * num + flag, l);
    assert (2 * num + flag) % 2 == flag;
  }

  lemma Quotient16(q: nat, r: nat)
    requires r < 16
    ensures (16 * q + r) / 16 == q
  {
  }

  lemma Quotient8(q: nat, r: nat)
    requires r < 8
    ensures (8 * q + r) / 8 == q && (8 * q + r) % 8 == r
  {
  }

  lemma SizeRead(size: nat)
    requires 16 <= size <= 2048
    ensures var read := 16 * Pow2(Log2(size / 16));
            16 <= read <= size < 2 * read && (read == size <==> PowerOfTwo(size))
  {
    SmallLogs(size / 16);
    SmallPowers();
    hide Log2, Pow2;
  }

  lemma OffsetInRange(num: nat, l: nat)
    requires num <= 0xFFFFF && l <= 7
    ensures (num * 16 * Pow2(l)) % WORD32 == num * (16 * Pow2(l))
  {
    SmallPowers();
    var p := Pow2(l);
    assert p <= 128;
    hide Pow2;
    assert num * 16 * p == num * (16 * p) <= 0xFFFFF * 2048;
  }
}
