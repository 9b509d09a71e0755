/** The request loop against the server of .well-known/core: the client fetches the listing block by block. */
module ListingTransfer {
  import opened OptionFormat
  import opened ErbiumPacket
  import opened ErbiumRoundTrip
  import opened BlockTransfer
  import opened BlockRequest
  import W = WellKnown

  /** The reply to a request for block `num`, from offset `offset` on. */
  function Part(resources: seq<W.Resource>, num: nat, size: nat, offset: nat): Reply {
    var listing := W.Listing([], resources);
    if resources == [] then Reply(CONTENT, map[BLOCK2 := Block(num, false, size)], [])
    else if |listing| <= offset then Reply(BAD_OPTION, map[BLOCK2 := Block(num, false, size)], OUT_OF_SCOPE)
    else
      Reply(CONTENT,
            map[CONTENT_TYPE := Number(LINK_FORMAT),
                BLOCK2 := Block(num, !W.Complete(resources, offset, size), size)],
            W.Window(listing, offset, size))
  }

  /** The end of well_known_core_handler: what it puts into the response. */
  method Respond(resources: seq<W.Resource>, response: Response, size: nat, offset: nat) returns (newOffset: int)
    requires response.View() == Reply(CONTENT, map[], []) && 0 < size <= MAX_CHUNK_SIZE
    modifies response
    ensures newOffset == if W.Complete(resources, offset, size) then -1 else offset + size
    ensures var listing := W.Listing([], resources);
            if resources == [] then response.View() == Reply(CONTENT, map[], [])
            else if |listing| <= offset then response.View() == Reply(BAD_OPTION, map[], OUT_OF_SCOPE)
            else
              && response.code == CONTENT && response.fields == map[CONTENT_TYPE := Number(LINK_FORMAT)]
              && response.payload[..W.Least(|response.payload|, size)] == W.Window(listing, offset, size)
              && (newOffset == -1 ==> |response.payload| <= size)
  {
    hide W.Listing, W.Complete, W.Window;
    var buffer := new Byte[MAX_CHUNK_SIZE + 1](_ => 0);
    var bufpos, badOption;
    bufpos, newOffset, badOption := W.Handler(resources, buffer, size, offset);
    NoResources(resources);
    if bufpos > 0 {
      ghost var shown := buffer[..W.Least(bufpos, size)];
      response.SetPayload(buffer[..W.Least(bufpos, MAX_CHUNK_SIZE)]);
      response.fields := response.fields[CONTENT_TYPE := Number(LINK_FORMAT)];
      assert response.payload[..W.Least(|response.payload|, size)] == shown;
    } else if badOption {
      response.code := BAD_OPTION;
      response.SetPayload(OUT_OF_SCOPE);
    }
  }

  lemma NoResources(resources: seq<W.Resource>)
    ensures resources == [] ==> W.Listing([], resources) == []
    ensures resources != [] ==> W.Listing([], resources) != []
  {
  }

  predicate Sensible(asked: Fields) {
    && BLOCK1 !in asked && (BLOCK2 in asked ==> Blocked(asked))
    && (Blocked(asked) ==> asked[BLOCK2].num <= LAST_NUMBER && 16 <= asked[BLOCK2].size <= 2048)
  }

  lemma OffsetBelow(asked: Fields)
    requires Sensible(asked)
    ensures 16 <= SizeOf(asked) <= MAX_CHUNK_SIZE && NumberOf(asked) <= LAST_NUMBER
    ensures OffsetOf(asked) <= LAST_NUMBER * 2048
    ensures Blocked(asked) ==> OffsetOf(asked) == BlockStart(asked[BLOCK2].num, asked[BLOCK2].size)
  {
    if Blocked(asked) {
      StartBelow(asked[BLOCK2].num, asked[BLOCK2].size);
      hide Blocked;
    }
  }

  /** coap_receive for a request of the listing. */
  method Serve(resources: seq<W.Resource>, asked: Fields) returns (reply: Reply)
    requires Sensible(asked)
    ensures reply == Part(resources, NumberOf(asked), SizeOf(asked), OffsetOf(asked))
  {
    hide W.Listing, W.Complete, W.Window, OffsetOf, Shaped, Part;
    OffsetBelow(asked);
    var response := new Response();
    var newOffset := Respond(resources, response, SizeOf(asked), OffsetOf(asked));
    ShapedPart(resources, asked, response.View(), newOffset);
    var error := response.ApplyBlocks(asked, newOffset);
    reply := Reply(response.code, response.fields, response.payload);
  }

  lemma ShapedPart(resources: seq<W.Resource>, asked: Fields, r: Reply, newOffset: int)
    requires Sensible(asked)
    requires newOffset == if W.Complete(resources, OffsetOf(asked), SizeOf(asked)) then -1
                          else OffsetOf(asked) + SizeOf(asked)
    requires var listing := W.Listing([], resources);
             if resources == [] then r == Reply(CONTENT, map[], [])
             else if |listing| <= OffsetOf(asked) then r == Reply(BAD_OPTION, map[], OUT_OF_SCOPE)
             else
               && r.code == CONTENT && r.fields == map[CONTENT_TYPE := Number(LINK_FORMAT)]
               && r.payload[..W.Least(|r.payload|, SizeOf(asked))] == W.Window(listing, OffsetOf(asked), SizeOf(asked))
               && (newOffset == -1 ==> |r.payload| <= SizeOf(asked))
    ensures Shaped(r, asked, newOffset) == Part(resources, NumberOf(asked), SizeOf(asked), OffsetOf(asked))
  {
    hide W.Listing, W.Window, OffsetOf;
    OffsetBelow(asked);
    NewOffsetDiffers(OffsetOf(asked), SizeOf(asked), newOffset);
    FirstOffset(asked);
    NoResources(resources);
    CompleteBehind(resources, OffsetOf(asked), SizeOf(asked));
    hide W.Complete;
    assert |r.payload| <= SizeOf(asked) ==> r.payload[..|r.payload|] == r.payload;
  }

  lemma FirstOffset(asked: Fields)
    ensures !Blocked(asked) ==> OffsetOf(asked) == 0 && SizeOf(asked) == MAX_CHUNK_SIZE
  {
  }

  lemma CompleteBehind(resources: seq<W.Resource>, offset: nat, size: nat)
    requires size > 0
    ensures resources == [] || |W.Listing([], resources)| <= offset ==> W.Complete(resources, offset, size)
  {
  }

  lemma NewOffsetDiffers(offset: nat, size: nat, newOffset: int)
    requires offset <= LAST_NUMBER * 2048 && 0 < size <= MAX_CHUNK_SIZE
    requires newOffset == -1 || newOffset == offset + size
    ensures newOffset % WORD32 != offset && newOffset != 0
  {
  }

  /* ---- The whole transfer ---- */

  /** The block option as it arrives on the other side. */
  function Carried(fields: Fields): Fields {
    if Blocked(fields) then
      fields[BLOCK2 := BlockOf(BlockWord(fields[BLOCK2].num, fields[BLOCK2].more, fields[BLOCK2].size))]
    else fields
  }

  lemma CarriedSame(fields: Fields)
    requires Blocked(fields) ==> fields[BLOCK2].num <= LAST_NUMBER && fields[BLOCK2].size == MAX_CHUNK_SIZE
    ensures Carried(fields) == fields
  {
    if Blocked(fields) {
      BlockRoundTrip(fields[BLOCK2].num, fields[BLOCK2].more, fields[BLOCK2].size);
      hide BlockOf, BlockWord;
      assert fields[BLOCK2 := fields[BLOCK2]] == fields;
    }
  }

  /** The payloads delivered, one behind the other. */
  function Texts(replies: seq<Reply>): Bytes {
    if replies == [] then [] else Texts(replies[..|replies| - 1]) + replies[|replies| - 1].payload
  }

  lemma TextsNext(replies: seq<Reply>, r: Reply)
    ensures Texts(replies + [r]) == Texts(replies) + r.payload
  {
    assert (replies + [r])[..|replies|] == replies;
  }

  /** The reply to a request for block `n` of a transfer with blocks of one size. */
  function PartOf(resources: seq<W.Resource>, size: nat, n: nat): Reply {
    Part(resources, n, size, BlockStart(n, size))
  }

  /** The listing is not complete with the first n blocks. */
  predicate GoesOn(resources: seq<W.Resource>, size: nat, n: nat) {
    n > 0 ==> !W.Complete(resources, BlockStart(n - 1, size), size)
  }

  /** After n turns: the first n chunks, and the listing goes on. */
  ghost predicate Halfway(c: BlockingRequest, resources: seq<W.Resource>, n: nat)
    reads c
  {
    && c.blockNum == n && c.blockError == 0 && |c.delivered| == n
    && Texts(c.delivered) == W.Windows(W.Listing([], resources), MAX_CHUNK_SIZE, n)
    && GoesOn(resources, MAX_CHUNK_SIZE, n)
    && BLOCK1 !in c.request
    && (n == 0 ==> BLOCK2 !in c.request)
  }

  /** What is delivered behind the listing. */
  function Tail(resources: seq<W.Resource>, size: nat): Bytes
    requires size > 0
  {
    if W.AtEdge(resources, size) then OUT_OF_SCOPE else []
  }

  /** How many blocks are asked for. */
  function Turns(resources: seq<W.Resource>, size: nat): nat
    requires size > 0
  {
    var length := |W.Listing([], resources)|;
    if W.AtEdge(resources, size) || length == 0 then length / size + 1 else (length + size - 1) / size
  }

  lemma AskedFor(request: Fields, n: nat)
    requires n <= LAST_NUMBER && BLOCK1 !in request && (n == 0 ==> BLOCK2 !in request)
    ensures var asked := Asking(request, n);
            && Sensible(asked) && Carried(asked) == asked && BLOCK1 !in asked
            && NumberOf(asked) == n && SizeOf(asked) == MAX_CHUNK_SIZE
            && OffsetOf(asked) == BlockStart(n, MAX_CHUNK_SIZE)
  {
    hide Carried;
    CarriedSame(Asking(request, n));
    StartBelow(n, MAX_CHUNK_SIZE);
  }

  lemma PartBlock(resources: seq<W.Resource>, size: nat, n: nat)
    ensures var r := PartOf(resources, size, n);
            Blocked(r.fields) && r.fields[BLOCK2].num == n && r.fields[BLOCK2].size == size
  {
    hide W.Listing, W.Complete, W.Window, BlockStart;
  }

  /** A block that is not the last one. */
  lemma PartGoesOn(resources: seq<W.Resource>, size: nat, n: nat)
    requires PartOf(resources, size, n).fields[BLOCK2].more
    ensures var listing := W.Listing([], resources);
            && GoesOn(resources, size, n + 1) && BlockStart(n + 1, size) <= |listing|
            && W.Windows(listing, size, n) + PartOf(resources, size, n).payload == W.Windows(listing, size, n + 1)
  {
    hide W.Listing, W.Window, W.Windows, BlockStart;
    WindowsStep(W.Listing([], resources), size, n);
    NextStart(n, size);
  }

  /** The last block, and behind a listing that ends at an edge the complaint that there is no more: for any size of
      blocks. */
  lemma PartEnds(resources: seq<W.Resource>, size: nat, n: nat)
    requires size > 0 && GoesOn(resources, size, n) && !PartOf(resources, size, n).fields[BLOCK2].more
    ensures var listing := W.Listing([], resources);
            W.Windows(listing, size, n) + PartOf(resources, size, n).payload == listing + Tail(resources, size)
    ensures n + 1 == Turns(resources, size)
  {
    hide W.Listing, W.Windows, W.Window, W.AtEdge, Tail, Turns, BlockStart, GoesOn;
    var listing := W.Listing([], resources);
    NoResources(resources);
    WindowsJoin(listing, size, n);
    if resources != [] && |listing| <= BlockStart(n, size) {
      EdgeReached(resources, size, n);
      assert listing[..|listing|] == listing;
    } else {
      CompleteIs(resources, size, n);
      WindowsStep(listing, size, n);
      WindowsJoin(listing, size, n + 1);
      NextStart(n, size);
      WindowEmptyAt(listing, BlockStart(n, size), size);
      assert listing + [] == listing;
    }
  }

  lemma WindowEmptyAt(t: Bytes, offset: nat, size: nat)
    ensures t == [] ==> W.Window(t, offset, size) == []
  {
  }

  lemma EdgeReached(resources: seq<W.Resource>, size: nat, n: nat)
    requires size > 0 && GoesOn(resources, size, n)
    requires resources != [] && |W.Listing([], resources)| <= BlockStart(n, size)
    ensures |W.Listing([], resources)| == BlockStart(n, size)
    ensures Tail(resources, size) == OUT_OF_SCOPE && n + 1 == Turns(resources, size)
  {
    hide W.Listing, BlockStart;
    NoResources(resources);
    NextStart(0, size);
    if n > 0 { NextStart(n - 1, size); }
    StartExact(n, size);
  }

  lemma CompleteIs(resources: seq<W.Resource>, size: nat, n: nat)
    requires size > 0 && GoesOn(resources, size, n) && W.Complete(resources, BlockStart(n, size), size)
    requires resources != [] ==> |W.Listing([], resources)| > BlockStart(n, size)
    ensures Tail(resources, size) == [] && n + 1 == Turns(resources, size)
    ensures |W.Listing([], resources)| <= BlockStart(n, size) + size
  {
    hide W.Listing, BlockStart;
    NoResources(resources);
    NextStart(0, size);
    if resources != [] {
      StartBetween(|W.Listing([], resources)|, n, size);
    }
  }

  lemma StartExact(n: nat, size: nat)
    requires size > 0
    ensures BlockStart(n, size) % size == 0 && BlockStart(n, size) / size == n
  {
    W.Exactly(n, size);
  }

  lemma StartBetween(t: nat, n: nat, size: nat)
    requires size > 0 && BlockStart(n, size) < t <= BlockStart(n, size) + size
    ensures (t + size - 1) / size == n + 1 && (t % size == 0 <==> t == BlockStart(n, size) + size)
  {
    W.Between(t, n, size, n * size);
  }

  /** Input: one resource with 59 bytes of attributes; its listing has 64 bytes and takes two requests. */
  lemma EdgeListing(resources: seq<W.Resource>)
    requires resources == [W.Resource([0x61], seq(59, _ => 0x78))]
    ensures |W.Listing([], resources)| == MAX_CHUNK_SIZE
    ensures Tail(resources, MAX_CHUNK_SIZE) == OUT_OF_SCOPE && Turns(resources, MAX_CHUNK_SIZE) == 2
  {
    assert resources[1..] == [];
  }

  /** One turn: the request goes to the server and the reply comes back. */
  method Exchange(c: BlockingRequest, resources: seq<W.Resource>, ghost n: nat) returns (goOn: bool)
    requires Halfway(c, resources, n) && n <= LAST_NUMBER
    modifies c
    ensures if goOn then Halfway(c, resources, n + 1) && BlockStart(n + 1, MAX_CHUNK_SIZE) <= |W.Listing([], resources)|
            else Texts(c.delivered) == W.Listing([], resources) + Tail(resources, MAX_CHUNK_SIZE)
                 && |c.delivered| == n + 1 == Turns(resources, MAX_CHUNK_SIZE)
  {
    hide W.Listing, W.Windows, W.Complete, Texts, Part, Carried, Tail, Turns, Sensible, BlockStart, GoesOn,
        SizeOf, OffsetOf, NumberOf;
    AskedFor(c.request, n);
    c.Ask();
    var reply := Serve(resources, Carried(c.request));
    PartBlock(resources, MAX_CHUNK_SIZE, n);
    CarriedSame(reply.fields);
    TextsNext(c.delivered, reply);
    reply := reply.(fields := Carried(reply.fields));
    if reply.fields[BLOCK2].more {
      PartGoesOn(resources, MAX_CHUNK_SIZE, n);
    } else {
      PartEnds(resources, MAX_CHUNK_SIZE, n);
    }
    goOn := c.Hear(reply);
  }

  /** coap_blocking_request for the listing, without loss: the callback gets the whole listing, in as many chunks as
      it needs. A listing that ends on the edge of a chunk with attributes takes one request more, whose answer is
      a complaint that the callback gets like a chunk. */
  method FetchListing(resources: seq<W.Resource>, request: Fields) returns (c: BlockingRequest, requests: nat)
    requires BLOCK1 !in request && BLOCK2 !in request
    requires |W.Listing([], resources)| <= LAST_NUMBER * MAX_CHUNK_SIZE
    ensures Texts(c.delivered)
            == W.Listing([], resources) + (if W.AtEdge(resources, MAX_CHUNK_SIZE) then OUT_OF_SCOPE else [])
    ensures requests == |c.delivered| == Turns(resources, MAX_CHUNK_SIZE)
  {
    hide W.Listing, W.Complete, Turns, W.AtEdge, Part, Carried;
    c := new BlockingRequest(request);
    requests := 0;
    var goOn := true;
    while goOn
      invariant fresh(c)
      invariant goOn ==>
                  Halfway(c, resources, requests) && BlockStart(requests, MAX_CHUNK_SIZE) <= |W.Listing([], resources)|
      invariant !goOn ==> Texts(c.delivered) == W.Listing([], resources) + Tail(resources, MAX_CHUNK_SIZE)
      invariant !goOn ==> |c.delivered| == requests == Turns(resources, MAX_CHUNK_SIZE)
      decreases goOn, |W.Listing([], resources)| - BlockStart(requests, MAX_CHUNK_SIZE)
    {
      goOn := Exchange(c, resources, requests);
      requests := requests + 1;
    }
  }
}
