/** Blockwise transfer on the device: what the server makes of a response, and the client's request loop
    (section 2 of RFC 7959).

    A message is reduced to its code, option fields and payload. A resource handler is known by what it has
    left in the response and by its new offset; an unchanged offset means that it ignores blocks. */
module BlockTransfer {
  import opened OptionFormat
  import opened ErbiumPacket
  import opened ErbiumRoundTrip
  import W = WellKnown

  const CONTENT: nat := 69
  const NOT_IMPLEMENTED: nat := 161
  const LINK_FORMAT: nat := 40
  const MAX_ATTEMPTS: nat := 4
  const LAST_NUMBER: nat := 0xFFFFF

  const OUT_OF_SCOPE: Bytes :=
    [0x42, 0x6C, 0x6F, 0x63, 0x6B, 0x4F, 0x75, 0x74, 0x4F, 0x66, 0x53, 0x63, 0x6F, 0x70, 0x65]

  datatype Reply = Reply(code: nat, fields: Fields, payload: Bytes)

  /* ---- What a request asks for ---- */

  predicate Blocked(fields: Fields) {
    BLOCK2 in fields && fields[BLOCK2].Block?
  }

  function NumberOf(asked: Fields): nat {
    if Blocked(asked) then asked[BLOCK2].num else 0
  }

  function SizeOf(asked: Fields): nat {
    if Blocked(asked) then W.Least(asked[BLOCK2].size, MAX_CHUNK_SIZE) else MAX_CHUNK_SIZE
  }

  /** The offset the parser has computed, from the size that was asked for. */
  function OffsetOf(asked: Fields): nat {
    if Blocked(asked) then (asked[BLOCK2].num * asked[BLOCK2].size) % WORD32 else 0
  }

  /* ---- The server's part of coap_receive ---- */

  function WithBlock(r: Reply, num: nat, more: bool, size: nat): Reply {
    if BlockInRange(num, size) then r.(fields := r.fields[BLOCK2 := Block(num, more, size)]) else r
  }

  /** A slice of a response whose resource ignores blocks. */
  function Sliced(r: Reply, num: nat, size: nat, offset: nat): Reply {
    if offset >= |r.payload| then r.(code := BAD_OPTION, payload := OUT_OF_SCOPE)
    else
      WithBlock(r, num, |r.payload| - offset > size, size)
        .(payload := CutTo(W.Window(r.payload, offset, size), MAX_CHUNK_SIZE))
  }

  /** A response whose resource minds blocks, cut to the size. */
  function Cut(r: Reply, num: nat, size: nat, newOffset: int): Reply {
    WithBlock(r, num, newOffset != -1 || |r.payload| > size, size)
      .(payload := if |r.payload| > size then CutTo(r.payload[..size], MAX_CHUNK_SIZE) else r.payload)
  }

  function Shaped(r: Reply, asked: Fields, newOffset: int): Reply {
    if Blocked(asked) then
      if newOffset % WORD32 == OffsetOf(asked) then Sliced(r, NumberOf(asked), SizeOf(asked), OffsetOf(asked))
      else Cut(r, NumberOf(asked), SizeOf(asked), newOffset)
    else if newOffset != 0 then
      WithBlock(r, 0, newOffset != -1, MAX_CHUNK_SIZE).(payload := CutTo(r.payload, MAX_CHUNK_SIZE))
    else r
  }

  class Response {
    var code: nat
    var fields: Fields
    var payload: Bytes

    ghost function View(): Reply
      reads this
    {
      Reply(code, fields, payload)
    }

    constructor ()
      ensures View() == Reply(CONTENT, map[], [])
    {
      code, fields, payload := CONTENT, map[], [];
    }

    /** coap_set_payload */
    method SetPayload(bytes: Bytes)
      modifies this`payload
      ensures payload == CutTo(bytes, MAX_CHUNK_SIZE)
    {
      payload := if |bytes| > MAX_CHUNK_SIZE then bytes[..MAX_CHUNK_SIZE] else bytes;
    }

    /** coap_set_header_block2; the server ignores that it may refuse. */
    method SetBlock2(num: nat, more: bool, size: nat)
      modifies this`fields
      ensures View() == WithBlock(old(View()), num, more, size)
    {
      if size < 16 || size > 2048 || num > 0x0FFFFF {
        return;
      }
      fields := fields[BLOCK2 := Block(num, more, size)];
    }

    /** What coap_receive does to the response once the resource handler has returned. */
    method ApplyBlocks(asked: Fields, newOffset: int) returns (error: nat)
      requires BLOCK2 in asked ==> asked[BLOCK2].Block?
      modifies this
      ensures error == if BLOCK1 in asked && old(code) < BAD_REQUEST && BLOCK1 !in old(fields) then NOT_IMPLEMENTED
                       else 0
      ensures View() == if error != 0 then old(View()) else Shaped(old(View()), asked, newOffset)
    {
      var num, size, offset := 0, MAX_CHUNK_SIZE, 0;
      if BLOCK2 in asked {
        num, offset := asked[BLOCK2].num, (asked[BLOCK2].num * asked[BLOCK2].size) % WORD32;
        size := W.Least(asked[BLOCK2].size, MAX_CHUNK_SIZE);
      }
      error := 0;
      if BLOCK1 in asked && code < BAD_REQUEST && BLOCK1 !in fields {
        error := NOT_IMPLEMENTED;
      } else if BLOCK2 in asked {
        if newOffset % WORD32 == offset {
          ApplySlice(num, size, offset);
        } else {
          SetBlock2(num, newOffset != -1 || |payload| > size, size);
          if |payload| > size {
            SetPayload(payload[..size]);
          }
        }
      } else if newOffset != 0 {
        SetBlock2(0, newOffset != -1, MAX_CHUNK_SIZE);
        SetPayload(payload[..W.Least(|payload|, MAX_CHUNK_SIZE)]);
      }
    }

    method ApplySlice(num: nat, size: nat, offset: nat)
      modifies this
      ensures View() == Sliced(old(View()), num, size, offset)
    {
      if offset >= |payload| {
        code := BAD_OPTION;
        SetPayload(OUT_OF_SCOPE);
      } else {
        SetBlock2(num, |payload| - offset > size, size);
        SetPayload(payload[offset..offset + W.Least(|payload| - offset, size)]);
      }
    }
  }

  /* ---- Slices of a resource that ignores blocks ---- */

  /** Where block `k` starts. */
  function BlockStart(k: nat, size: nat): nat {
    k * size
  }

  /** The reply to a request for block `k`. */
  function SliceOf(p: Bytes, size: nat, k: nat): Reply {
    Sliced(Reply(CONTENT, map[], p), k, size, BlockStart(k, size))
  }

  /** The payloads of the replies to requests for blocks 0 up to n. */
  function Joined(p: Bytes, size: nat, n: nat): Bytes {
    if n == 0 then [] else Joined(p, size, n - 1) + SliceOf(p, size, n - 1).payload
  }

  lemma SliceIs(p: Bytes, size: nat, k: nat)
    requires 16 <= size <= MAX_CHUNK_SIZE && k <= LAST_NUMBER && BlockStart(k, size) < |p|
    ensures SliceOf(p, size, k).payload == W.Window(p, BlockStart(k, size), size)
    ensures SliceOf(p, size, k).fields == map[BLOCK2 := Block(k, BlockStart(k, size) + size < |p|, size)]
  {
    hide BlockStart;
  }

  lemma NextStart(k: nat, size: nat)
    ensures BlockStart(0, size) == 0 && BlockStart(k + 1, size) == BlockStart(k, size) + size
  {
  }

  /** The joined slices are the windows of the payload. */
  lemma {:induction false} JoinedIsWindows(p: Bytes, size: nat, n: nat)
    requires 16 <= size <= MAX_CHUNK_SIZE && n <= LAST_NUMBER + 1 && (n == 0 || BlockStart(n - 1, size) < |p|)
    ensures Joined(p, size, n) == W.Windows(p, size, n)
  {
    hide SliceOf, W.Window, BlockStart;
    if n > 0 {
      if n > 1 { NextStart(n - 2, size); }
      JoinedIsWindows(p, size, n - 1);
      SliceIs(p, size, n - 1);
      WindowsStep(p, size, n - 1);
    }
  }

  lemma WindowsStep(p: Bytes, size: nat, k: nat)
    ensures W.Windows(p, size, k + 1) == W.Windows(p, size, k) + W.Window(p, BlockStart(k, size), size)
  {
    hide W.Window;
  }

  lemma WindowsJoin(p: Bytes, size: nat, n: nat)
    ensures W.Windows(p, size, n) == CutTo(p, BlockStart(n, size))
  {
    hide W.Windows;
    W.Steps(p, size, n);
    assert p[..|p|] == p;
  }

  /** The slices up to block `k` put the payload together, and the flag of the last one says whether it is all
      there. */
  lemma SlicesJoin(p: Bytes, size: nat, k: nat)
    requires 16 <= size <= MAX_CHUNK_SIZE && k <= LAST_NUMBER && BlockStart(k, size) < |p|
    ensures Joined(p, size, k + 1) == CutTo(p, BlockStart(k, size) + size)
    ensures SliceOf(p, size, k).fields == map[BLOCK2 := Block(k, BlockStart(k, size) + size < |p|, size)]
    ensures Joined(p, size, k + 1) == p <==> BlockStart(k, size) + size >= |p|
  {
    hide Joined, SliceOf, W.Windows, BlockStart;
    NextStart(k, size);
    JoinedIsWindows(p, size, k + 1);
    WindowsJoin(p, size, k + 1);
    SliceIs(p, size, k);
  }

  /** The block option of a slice names the place it was cut from if and only if the size that was asked for
      is not above the chunk size, or it is the first block. */
  lemma SlicePlaceIff(p: Bytes, asked: Fields)
    requires Blocked(asked) && PowerOfTwo(asked[BLOCK2].size) && asked[BLOCK2].num <= LAST_NUMBER
    requires BlockStart(asked[BLOCK2].num, asked[BLOCK2].size) < |p|
    ensures var start := BlockStart(asked[BLOCK2].num, asked[BLOCK2].size);
            var r := Shaped(Reply(CONTENT, map[], p), asked, OffsetOf(asked));
            && Blocked(r.fields) && r.payload == W.Window(p, start, SizeOf(asked))
            && (BlockStart(r.fields[BLOCK2].num, r.fields[BLOCK2].size) == start
                <==> asked[BLOCK2].size <= MAX_CHUNK_SIZE || asked[BLOCK2].num == 0)
  {
    hide BlockStart, OffsetOf, PowerOfTwo;
    var num, size := asked[BLOCK2].num, asked[BLOCK2].size;
    SizeInRange(size);
    OffsetIs(asked);
    ShapedIs(p, asked);
    StartsDiffer(num, SizeOf(asked), size);
  }

  lemma SizeInRange(size: nat)
    requires PowerOfTwo(size)
    ensures 16 <= size <= 2048
  {
  }

  lemma OffsetIs(asked: Fields)
    requires Blocked(asked) && asked[BLOCK2].size <= 2048 && asked[BLOCK2].num <= LAST_NUMBER
    ensures OffsetOf(asked) == BlockStart(asked[BLOCK2].num, asked[BLOCK2].size) < WORD32
  {
    StartBelow(asked[BLOCK2].num, asked[BLOCK2].size);
  }

  lemma StartBelow(num: nat, size: nat)
    requires num <= LAST_NUMBER && size <= 2048
    ensures BlockStart(num, size) <= LAST_NUMBER * 2048 && BlockStart(num, size) % WORD32 == BlockStart(num, size)
  {
    ProductBelow(num, LAST_NUMBER, size, 2048);
    Within(num * size, WORD32);
  }

  lemma ProductBelow(a: nat, b: nat, c: nat, d: nat)
    requires a <= b && c <= d
    ensures 0 <= a * c <= b * d
  {
    assert b * d == a * c + a * (d - c) + (b - a) * d;
    assert a * (d - c) >= 0 && (b - a) * d >= 0;
  }

  lemma Within(n: nat, m: nat)
    requires n < m
    ensures n % m == n
  {
  }

  /** What the server makes of the response of a resource that ignores blocks. */
  lemma ShapedIs(p: Bytes, asked: Fields)
    requires Blocked(asked) && 16 <= asked[BLOCK2].size && asked[BLOCK2].num <= LAST_NUMBER
    requires OffsetOf(asked) < |p| && OffsetOf(asked) < WORD32
    ensures var r := Shaped(Reply(CONTENT, map[], p), asked, OffsetOf(asked));
            && Blocked(r.fields) && r.payload == W.Window(p, OffsetOf(asked), SizeOf(asked))
            && r.fields[BLOCK2].num == asked[BLOCK2].num && r.fields[BLOCK2].size == SizeOf(asked)
  {
    hide OffsetOf;
  }

  lemma StartsDiffer(num: nat, small: nat, large: nat)
    requires small <= large
    ensures BlockStart(num, small) == BlockStart(num, large) <==> small == large || num == 0
  {
    assert num * (large - small) == num * large - num * small;
    assert num > 0 && large > small ==> num * (large - small) > 0;
  }
}
