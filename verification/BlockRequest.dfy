/** The client's request loop, coap_blocking_request.

    The outside world is a list of events: what each turn of the loop meets. `HeardNumber` and `HeardMore`
    are the block number and the flag of the last reply that carried any; the loop keeps them in variables
    that a reply without a block option leaves as they are. */
module BlockRequest {
  import opened OptionFormat
  import opened ErbiumPacket
  import opened BlockTransfer

  /** No free transaction for the request, no response in time, or a response. */
  datatype Event = NoBuffer | Silent | Heard(reply: Reply)

  datatype Ending = Waiting | Gone | Normal

  function HeardNumber(events: seq<Event>, n: nat): nat
    requires n <= |events|
  {
    if n == 0 then 0
    else if events[n - 1].Heard? && Blocked(events[n - 1].reply.fields) then events[n - 1].reply.fields[BLOCK2].num
    else HeardNumber(events, n - 1)
  }

  function HeardMore(events: seq<Event>, n: nat): bool
    requires n <= |events|
  {
    if n == 0 then false
    else if events[n - 1].Heard? && Blocked(events[n - 1].reply.fields) then events[n - 1].reply.fields[BLOCK2].more
    else HeardMore(events, n - 1)
  }

  /** Event `i` is the reply with the block that is awaited when `k` blocks have been delivered. */
  predicate Fits(events: seq<Event>, i: nat, k: nat)
    requires i < |events|
  {
    events[i].Heard? && HeardNumber(events, i + 1) == k
  }

  /** The replies among the first n events that carry the blocks awaited. */
  function Delivered(events: seq<Event>, n: nat): (d: seq<Reply>)
    requires n <= |events|
    ensures |d| <= n
  {
    if n == 0 then []
    else
      var before := Delivered(events, n - 1);
      if Fits(events, n - 1, |before|) then before + [events[n - 1].reply] else before
  }

  /** The setter refuses numbers that do not fit 20 bits, and the request stays as it is. */
  function Asking(fields: Fields, num: nat): Fields {
    if 0 < num <= LAST_NUMBER then fields[BLOCK2 := Block(num, false, MAX_CHUNK_SIZE)] else fields
  }

  /** The block number in the request for block `num`: the first request is as the caller made it. */
  function SentNumber(fields: Fields, num: nat): nat {
    if num == 0 then NumberOf(fields) else if num <= LAST_NUMBER then num else LAST_NUMBER
  }

  class BlockingRequest {
    var request: Fields
    var blockNum: nat
    var more: bool
    var resBlock: nat
    var blockError: nat
    var delivered: seq<Reply>

    constructor (fields: Fields)
      ensures request == fields && blockNum == resBlock == blockError == 0 && !more && delivered == []
    {
      request, blockNum, more, resBlock, blockError, delivered := fields, 0, false, 0, 0, [];
    }

    /** The request of one turn. */
    method Ask()
      modifies this`request
      ensures request == Asking(old(request), blockNum)
    {
      if blockNum > 0 {
        if blockNum <= 0x0FFFFF {
          request := request[BLOCK2 := Block(blockNum, false, MAX_CHUNK_SIZE)];
        }
      }
    }

    /** The rest of the turn, with the reply; the answer is the condition of the loop. */
    method Hear(reply: Reply) returns (goOn: bool)
      modifies this`resBlock, this`more, this`blockNum, this`blockError, this`delivered
      ensures resBlock == if Blocked(reply.fields) then reply.fields[BLOCK2].num else old(resBlock)
      ensures more == if Blocked(reply.fields) then reply.fields[BLOCK2].more else old(more)
      ensures if resBlock == old(blockNum)
              then blockNum == old(blockNum) + 1 && delivered == old(delivered) + [reply]
                    && blockError == old(blockError)
              else blockNum == old(blockNum) && delivered == old(delivered) && blockError == old(blockError) + 1
      ensures goOn <==> more && blockError < MAX_ATTEMPTS
    {
      if BLOCK2 in reply.fields && reply.fields[BLOCK2].Block? {
        resBlock, more := reply.fields[BLOCK2].num, reply.fields[BLOCK2].more;
      }
      if resBlock == blockNum {
        delivered := delivered + [reply];
        blockNum := blockNum + 1;
      } else {
        blockError := blockError + 1;
      }
      goOn := more && blockError < MAX_ATTEMPTS;
    }
  }

  /** What the loop keeps between its turns, and what the request at hand asks for. */
  ghost predicate Between(c: BlockingRequest, fields: Fields, events: seq<Event>, n: nat)
    reads c
  {
    && n <= |events| && c.delivered == Delivered(events, n) && c.blockNum == |c.delivered|
    && c.resBlock == HeardNumber(events, n) && c.more == HeardMore(events, n) && n == c.blockNum + c.blockError
    && (c.blockNum == 0 ==> c.request == fields) && (c.blockNum > LAST_NUMBER ==> NumberOf(c.request) == LAST_NUMBER)
  }

  /** The second half of a turn. */
  method HearNext(c: BlockingRequest, ghost fields: Fields, ghost events: seq<Event>, ghost n: nat, reply: Reply)
    returns (goOn: bool)
    requires Between(c, fields, events, n) && n < |events| && events[n] == Heard(reply)
    requires c.blockNum > 0 ==> NumberOf(c.request) == SentNumber(fields, c.blockNum)
    modifies c`resBlock, c`more, c`blockNum, c`blockError, c`delivered
    ensures Between(c, fields, events, n + 1)
    ensures goOn <==> c.more && c.blockError < MAX_ATTEMPTS
    ensures old(c.blockError) <= c.blockError <= old(c.blockError) + 1
  {
    DeliveredNext(events, n);
    hide Delivered;
    goOn := c.Hear(reply);
  }

  lemma DeliveredNext(events: seq<Event>, n: nat)
    requires n < |events| && events[n].Heard?
    ensures Delivered(events, n + 1)
            == Delivered(events, n)
               + (if HeardNumber(events, n + 1) == |Delivered(events, n)| then [events[n].reply] else [])
  {
  }

  /** The loop, for as long as there are events: `sent` are the options of the requests. Whatever happens, the
      callback gets exactly the replies that fit; and a loop that ends normally has sent one request for each of
      them and one for each of at most four failed attempts. */
  method Run(fields: Fields, events: seq<Event>)
    returns (c: BlockingRequest, sent: seq<Fields>, ending: Ending, n: nat)
    ensures n <= |events| && |sent| <= n && c.blockError <= MAX_ATTEMPTS
    ensures ending == Gone ==> 0 < n && !events[n - 1].Heard?
    ensures c.delivered == Delivered(events, if ending == Gone then n - 1 else n)
    ensures |sent| <= |c.delivered| + c.blockError + 1
    ensures forall i :: 0 <= i < |sent| ==> NumberOf(sent[i]) == SentNumber(fields, |Delivered(events, i)|)
    ensures ending == Normal ==>
              |sent| == n == |c.delivered| + c.blockError && (!HeardMore(events, n) || c.blockError == MAX_ATTEMPTS)
    ensures ending == Waiting ==> n == |events|
  {
    hide HeardMore, HeardNumber, Delivered;
    StartBetween(fields, events);
    c := new BlockingRequest(fields);
    sent, ending, n := [], Waiting, 0;
    var goOn := true;
    while goOn && n < |events|
      invariant Between(c, fields, events, n) && |sent| == n && c.blockError <= MAX_ATTEMPTS
      invariant if goOn then c.blockError < MAX_ATTEMPTS else n > 0 && (!c.more || c.blockError == MAX_ATTEMPTS)
      invariant forall i :: 0 <= i < |sent| ==> NumberOf(sent[i]) == SentNumber(fields, |Delivered(events, i)|)
      decreases |events| - n
    {
      if events[n].NoBuffer? {
        return c, sent, Gone, n + 1;
      }
      c.Ask();
      sent := sent + [c.request];
      n := n + 1;
      if events[n - 1].Silent? {
        return c, sent, Gone, n;
      }
      goOn := HearNext(c, fields, events, n - 1, events[n - 1].reply);
    }
    if !goOn {
      ending := Normal;
    }
  }

  lemma StartBetween(fields: Fields, events: seq<Event>)
    ensures Delivered(events, 0) == [] && HeardNumber(events, 0) == 0 && !HeardMore(events, 0)
  {
  }

  /* ---- The callback gets blocks 0, 1, 2 and so on, once each, in order ---- */

  lemma {:induction false} DeliveredGrows(events: seq<Event>, m: nat, n: nat)
    requires m <= n <= |events|
    ensures Delivered(events, m) <= Delivered(events, n)
    decreases n - m
  {
    if m < n { DeliveredGrows(events, m, n - 1); }
  }

  /** The k-th reply delivered came when k blocks had been delivered, and its number in force was k; so later
      replies in the list came later, and none came twice. */
  lemma {:induction false} DeliveredInOrder(events: seq<Event>, n: nat, k: nat) returns (i: nat)
    requires n <= |events| && k < |Delivered(events, n)|
    ensures i < n && events[i].Heard? && events[i].reply == Delivered(events, n)[k]
    ensures |Delivered(events, i)| == k == HeardNumber(events, i + 1) && |Delivered(events, i + 1)| == k + 1
    decreases n
  {
    if k < |Delivered(events, n - 1)| {
      i := DeliveredInOrder(events, n - 1, k);
      DeliveredGrows(events, n - 1, n);
    } else {
      i := n - 1;
    }
  }

  /** Two replies delivered came in this order. */
  lemma OnceEach(events: seq<Event>, n: nat, k: nat, l: nat) returns (i: nat, j: nat)
    requires n <= |events| && k < l < |Delivered(events, n)|
    ensures i < j < n && events[i].Heard? && events[j].Heard?
    ensures events[i].reply == Delivered(events, n)[k] && HeardNumber(events, i + 1) == k
    ensures events[j].reply == Delivered(events, n)[l] && HeardNumber(events, j + 1) == l
  {
    i := DeliveredInOrder(events, n, k);
    j := DeliveredInOrder(events, n, l);
    hide HeardNumber, Delivered;
    if j <= i {
      DeliveredGrows(events, j + 1, i + 1);
      assert false;
    }
  }
}
